# Verification of a small Redis driver

The driver talks to one Redis server over one non-blocking TCP socket. A call encodes its
arguments into a bounded send buffer, sends them, reads the reply into a bounded receive buffer
and decodes it; an epoll-based poller waits where the socket is not ready. This project models
those parts in Dafny and proves what they promise. `dafny verify dfyconfig.toml` checks all of it.

Each file holds the module of the same name.

| file | subject |
|---|---|
| Bytes.dfy | byte strings, `strconv.Itoa` and `strconv.Atoi` |
| Resp.dfy | errors, decoded values, reply trees, the printer |
| Parsing.dfy | the reply parser as functions, panics included |
| RoundTrip.dfy | printed replies are parsed back |
| CommandDomain.dfy | which arguments survive the driver's own scanner |
| Server.dfy | an independent reader of commands that counts bytes |
| Progress.dfy | work and termination of the parser on any input |
| NestedNulls.dfy | what becomes of a RESP3 null inside of arrays |
| IrregularReplies.dfy | what the decoder makes of replies outside of the grammar |
| CutReplies.dfy | what the decoder makes of a reply that is cut off |
| Coder.dfy | the encoder and decoder object |
| ConnectionOptions.dfy | the options and the bounds they guarantee |
| Growth.dfy | capped doubling of buffer lengths |
| Environment.dfy | sockets, server, poller and context as seen from a connection |
| Messenger.dfy | sending and receiving with byte accounting |
| SingleConnection.dfy | the engine: connect, send, receive, resend, `Process` |
| Sessions.dfy | whole runs of commands, from connecting on |
| SingleFlight.dfy | any number of concurrent callers of `Process` |
| Polling.dfy | the poller's critical sections |
| PollerRuns.dfy | the poller's goroutines under every interleaving, any number of sockets |
| OneSocket.dfy | the poller with one socket at a time, and exactly what ends its guarantee |

How the model is laid out:

- The parser is a set of methods with loops (class `Translator`), proved equal to functions
  (module `Parsing`); the lemmas are about the functions. A Go panic is an outcome, not a
  precondition. The goroutine stack is a parameter `stack`, counted in frames of `parsePart`;
  `Parsing.StackIrrelevant` shows that it only decides whether the stack overflows.
- The environment of a connection is one object whose calls answer nondeterministically. In
  general it may fail, delay, cut short, lose connections and push any bytes at any time. With
  `lockStep` set it is the environment the driver is meant for: no loss, no poll timeout, one
  reply for each complete command. The server's side is an independent reader of commands
  (module `Server`), so that "complete command" is not defined by the encoder.
- The kernel keeps a record of its last answer to each kind of system call (`Answers`). What the
  connection engine does after an answer is stated in terms of that record, not of its code.
- Where a method is proved equal to a function, lemmas say what the function means without naming
  it: `RoundTrip.MapEntries`, `Polling.AddMeans`, `Polling.VerdictMeans` and others.
- The bodies of the long `send` and `receive` loops are split into methods that each do one
  reaction; the loops stay loops. Their `fuel` only cuts off an endless wait (`Unfinished`,
  `Pending`), and in lock-step it is shown to suffice.
- The poller and the callers of `Process` are transition systems; the steps of the poller's
  critical sections are also written as methods on its fields (class `Epoll`).

What came out where the code does less than one may expect:

- The scanner of bulk strings ignores the announced length and drops a carriage return that is
  followed by anything but a line feed. A payload comes back exactly if it holds no carriage
  return (`CommandDomain.BulkDomain`).
- A RESP3 null inside an array sends the parser back to position 0. As the last thing in a reply
  it is still reported as a null (`NestedNulls.NullAtEndIsNoValue`); with other elements behind it
  the parser reads the array again from its header on. A flat array always ends in an error, though
  not always that of a null (`NestedNulls.NullInFlatArray`). With more than three elements behind the null in an array inside of a one-element array
  the parser recurses without end (`NestedNulls.NullInsideArray`, for all elements around the null;
  `Progress.NestedNullNeverDecodes` has an input of eleven bytes).
- `Receive` looks for leftover bytes only when one read filled the whole buffer from its start. A
  reply that does not fit after one step of growth is cut off unless the buffer had its largest
  length to begin with; `SingleConnection.Connection.Process` states for every length of the reply
  what is returned (predicate `Answers`) and what stays in the kernel. The decoder takes the part
  that was read for a whole reply. For every reply and every cut, `CutReplies.DecodeCutReply` says
  what comes out: a shorter value, ErrNoValue if a null was read, or a panic if a map is cut
  inside of a key or right behind one.
- When a reconnect fails, the messenger keeps the closed descriptor (`Reconnect`). The connection
  can then be used only if the new socket happens to have the same number; otherwise every later
  command fails. A command that loses its connection like this always returns a connection error
  (the clauses of `Process` about `SyncLost`), which no error of decoding can be mistaken for
  (`Parsing.DecodeErrors`): a value, a decoding error or ErrRecvBufTooShort mean that the connection
  is still good.
- The parser does not move on from an error reply. Inside of an array the error's own text is read
  for the elements behind it (`IrregularReplies.ErrorInsideArray`). A map with a key that is no
  string is an error as a whole (`IrregularReplies.KeyIsNoString`).
- `InitOptions` adds one to `RetryAmount` without looking: for the largest integer the result is
  negative, and only for that one the guarantee is lost (`ConnectionOptions.Options.InitOptions`).
- After a failed `epoll_wait` the flag `polling` stays set with no loop behind it, so no later
  `Add` starts one; this happens after such a failure and never otherwise
  (`PollerRuns.StalledIffWaitFailed`).
- `pushError` sends the failure to every waiting caller but leaves their units in place. A batch that
  was handed over before still sends its results to them: exactly the units that were waiting then
  and are in such a batch get two messages (`PollerRuns.TwoMessagesIff`), which can happen to any two
  sockets (`PollerRuns.TwoMessagesHappen`). Nobody is left to receive the second message, and it is
  sent with the mutex held.
- With one socket at a time the poller never panics, and `OneSocket.CanPanicIff` says exactly which
  actions end that: a caller that gives up while it waits; closing a socket that a unit waits for;
  and an Add that is accepted while another socket is registered, even one for which nobody waits.
  All connections share one poller, so two of them used strictly in turn are enough for the last.
  The shared cause is that a ready socket can be noted again before its first batch is processed.
- The retries of `connect` are of little use: a connection attempt that goes on when its poll times
  out is not waited for again, because the next connect(2) reports it as in progress or says how it
  ended. `connect` runs out of retries only if all attempts but one were answered by EAGAIN
  (`SingleConnection.Connection.Connect`).

## Model

| member | source | states |
|---|---|---|
| Bytes.AtoiItoa | internal/translator/decoding.go:246-272 | every length or count that the encoder prints is read back as the same number |
| Bytes.ReadDigitsItoa | internal/translator/encoding.go:56-70 | decimal digits printed for a length denote it, up to the largest unsigned 64-bit number |
| Bytes.WireCharacters | internal/translator/decoding.go:28-61 | the bytes with a meaning of their own are the characters of the protocol |
| Bytes.AtoiSaturates | internal/translator/decoding.go:246-272 | an announced number that is too large for an int is taken for the largest int, as the ignored error leaves it |
| Bytes.AtoiNoNumber | internal/translator/decoding.go:246-272 | a text that does not begin like a number is taken for 0 |
| Resp.KeysOfMap | internal/translator/decoding.go:130-155 | a decoded map has exactly the keys that occur in the reply |
| Resp.LastPairWins | internal/translator/decoding.go:130-155 | a key that occurs several times has the value of its last occurrence |
| Parsing.RunsAreIndependent | internal/translator/decoding.go:10-24 | the answers of successive decodings are those of independent ones: no stored error leaks into a later call |
| Parsing.DecodeErrors | internal/translator/decoding.go:10-24 | a decoding error is one of the four that speak about the reply, never an error of the connection |
| Parsing.StackIrrelevant | internal/translator/decoding.go:28-61 | a parse that does not overflow the stack has the same outcome with every larger stack |
| RoundTrip.ScanLine | internal/translator/decoding.go:63-88 | the scanner returns a line without carriage returns whole, and stops on its line feed |
| RoundTrip.ParseTree | internal/translator/decoding.go:28-61 | a well-formed tree printed anywhere in the data is parsed to its value; the parser stops on its last byte and stores ErrNoValue exactly if there is a null in it |
| RoundTrip.ParseTrees | internal/translator/decoding.go:220-244 | the elements of an array are parsed in order, each where the previous one ended, at any depth |
| RoundTrip.ParseAllPairs | internal/translator/decoding.go:130-155 | the pairs of a map are parsed in order and later ones override earlier ones |
| RoundTrip.ParsePair | internal/translator/decoding.go:157-191 | a key and its value are parsed, the value flattened as the driver does it, also when it is an array or a map |
| RoundTrip.MapEntries | internal/translator/decoding.go:157-191 | under each key of a decoded map stands what the last pair with that key says: the text of a scalar, the text "arr with len > 0" for a non-empty array, nothing for an empty array or a nested map |
| RoundTrip.PrintThenParse | internal/translator/decoding.go:28-61 | the round trip between any prefix and any suffix |
| RoundTrip.DecodeReply | internal/translator/decoding.go:10-24 | a whole reply decodes to its value, or to ErrNoValue if and only if a null bulk string occurs anywhere in it, whatever follows |
| RoundTrip.DecodeErrorReply | internal/translator/decoding.go:52-60 | an error reply decodes to the server's error with its text, whatever follows |
| RoundTrip.PrintDeterminesValue | internal/translator/decoding.go:28-61 | two replies that look the same on the wire mean the same |
| CommandDomain.ScanPayload | internal/translator/decoding.go:105-127 | whatever the payload, the scanned text is the payload without carriage returns, or is damaged in its length or its last byte |
| CommandDomain.BulkDomain | internal/translator/decoding.go:90-128 | a bulk string comes back if and only if it holds no carriage return |
| CommandDomain.CommandComesBackIffCrFree | internal/translator/encoding.go:10-104 | decoding an encoded command gives exactly its arguments if and only if none of them holds a carriage return |
| Server.ReadPrintedCommand | internal/translator/encoding.go:10-104 | a server that counts bytes recovers the arguments of every command, whatever bytes they hold and whatever follows |
| Server.NoCommandIsAPrefix | internal/translator/encoding.go:10-104 | a proper prefix of a command is never a command |
| Progress.PartOrdered | internal/translator/decoding.go:28-61 | without `_` in the data, the nested calls start at strictly increasing positions and never before the current one |
| Progress.WorkIsLinear | internal/translator/decoding.go:220-244 | without `_`, at most one call of parsePart for each byte of the data, however large the announced counts are |
| Progress.DecodingReturns | internal/translator/decoding.go:28-61 | without `_`, decoding any input ends: no deeper nesting than bytes, and the result does not depend on the stack |
| Progress.TopLevelNull | internal/translator/decoding.go:47-50 | a null reply on its own is ErrNoValue |
| NestedNulls.NullAtEndIsNoValue | internal/translator/decoding.go:220-244 | a null that is the last element of arrays nested to any depth is reported as ErrNoValue, whatever stands in front of it and behind the reply |
| NestedNulls.NullInFlatArray | internal/translator/decoding.go:220-244 | a flat array with a null in it, any elements around it: always an error, and which one, by the number of elements behind the null |
| NestedNulls.NullInsideArray | internal/translator/decoding.go:220-244 | an array of one array with a null in it: ErrNoValue, a wrong error, or endless recursion, exactly by the number of elements behind the null |
| NestedNulls.InnerNeverEnds | internal/translator/decoding.go:47-50 | with more than three elements behind the null every stack overflows |
| IrregularReplies.LoneCrIsDropped | internal/translator/decoding.go:107-125 | a carriage return with another byte behind it is dropped from a payload, and nothing else is |
| IrregularReplies.CrlfEndsText | internal/translator/decoding.go:107-125 | CR LF ends a payload, whatever length was announced |
| IrregularReplies.AnyLength | internal/translator/decoding.go:90-128 | a bulk string with any text for its length: null, panic, or a length without influence |
| IrregularReplies.EmptyArray | internal/translator/decoding.go:220-244 | an array with a count of 0, a negative or a too large one |
| IrregularReplies.EmptyMap | internal/translator/decoding.go:130-155 | a map with a count that is not positive is empty |
| IrregularReplies.ErrorStays | internal/translator/decoding.go:52-60 | behind an error reply the parser stands where the reply began |
| IrregularReplies.ErrorInsideArray | internal/translator/decoding.go:52-60 | an error reply at the end of an array is reported; with elements behind it its own text is read for them |
| IrregularReplies.KeyIsNoString | internal/translator/decoding.go:157-191 | a map with a key that is no string is an error: ErrTypeAssert, or ErrNoValue if a null comes later |
| CutReplies.ScanCut | internal/translator/decoding.go:90-128 | the scanner returns what is left of a line that is cut, and does not see its end |
| CutReplies.CutTree | internal/translator/decoding.go:28-61 | parsing a tree that is cut anywhere: panic, or value, error and an end beyond the data |
| CutReplies.CutPair | internal/translator/decoding.go:157-191 | a pair cut inside of its key or right behind it makes the parser read beyond the data |
| CutReplies.DecodeCutReply | internal/translator/decoding.go:10-24 | what is decoded from the first k bytes of any well-formed reply, for every k |
| CutReplies.CutEntryIsEmpty | internal/translator/decoding.go:157-191 | a map value of which only the first byte came is taken for an empty text |
| CutReplies.CutBulkLooksWhole | internal/translator/decoding.go:90-128 | a bulk string cut in its payload is taken for a whole, shorter one |
| Progress.NestedNullNeverDecodes | internal/translator/decoding.go:47-50 | a null inside an array can make the parser recurse until the stack overflows, with every size of the stack |
| Coder.EncodedGrows | internal/translator/encoding.go:10-27 | every written argument makes the encoding strictly longer, up to the whole command |
| Coder.DoesNotFit | internal/translator/encoding.go:56-104 | once an argument does not fit behind the ones before it, the whole command is too long |
| Coder.HeaderDoesNotFit | internal/translator/encoding.go:29-54 | a header that fills the buffer to its end leaves no room for any command |
| Coder.Translator.Encode | internal/translator/encoding.go:10-27 | success if and only if all arguments are supported and the command fits; then the buffer begins with exactly the command and is unchanged behind it; on failure the write position is 0, and the error is that of the first argument that is refused |
| Coder.Translator.WriteArr | internal/translator/encoding.go:29-54 | the header is written, or reported not to leave room, also if the logarithm estimates one digit too few |
| Coder.Translator.WriteString | internal/translator/encoding.go:56-104 | one argument is written whole behind the others, or nothing is touched; the error says why |
| Coder.Translator.WriteByte | internal/translator/encoding.go:106-109 | one byte is laid at the write position |
| Coder.Translator.Decode | internal/translator/decoding.go:10-24 | computes the parser function; the stored error is gone after every call that returns; without `_` its calls of parsePart start at strictly increasing positions, at most one for each byte and one more |
| Coder.Translator.ParsePart | internal/translator/decoding.go:28-61 | end, value, stored error, panics and the positions of all nested calls are those of the parser function |
| Coder.Translator.ParseSimpleString | internal/translator/decoding.go:63-88 | the loop computes the scanner; the value is nil when the data ends first |
| Coder.Translator.ParseBulkString | internal/translator/decoding.go:90-128 | null, impossible length and text as the parser function has them |
| Coder.Translator.ParseInteger | internal/translator/decoding.go:193-218 | the loop computes the scanner, also when the data ends first |
| Coder.Translator.ParsePartLen | internal/translator/decoding.go:246-272 | the loop finds the announced number and where its line ends |
| Coder.Translator.ParseError | internal/translator/decoding.go:274-291 | the text of an error reply, or the read beyond the data |
| Coder.Translator.ParseArray | internal/translator/decoding.go:220-244 | the loop over the elements computes the parser function, with nested calls |
| Coder.Translator.ParseMap | internal/translator/decoding.go:130-155 | the loop over the pairs computes the parser function, with nested calls |
| Coder.Translator.ParseMapKeyAndValue | internal/translator/decoding.go:157-191 | one pair, the error of a bad key included |
| Coder.Translator.GetDecodingErr | internal/translator/translator.go:44-53 | returns the stored error and forgets it |
| ConnectionOptions.BufBoundsAreUsable | options/options.go:96-118 | the repaired bounds are positive and in order, bounds that were so already are kept, and the others get 8 KB and 100 MB as the code has it |
| ConnectionOptions.Options.InitOptions | options/options.go:76-124 | usable limits, at least two attempts among them, for every setting of RetryAmount but the largest integer |
| Growth.GrownLenIsLeast | internal/connection/connection.go:543-565 | growing stops at the first length of the capped doubling chain that is large enough, within the bounds, and large enough if the largest length is |
| Environment.Kernel.Send | internal/transmitter/transmitter.go:21-116 | what sendmsg may do: take a prefix, or fail and take nothing |
| Environment.Kernel.Recv | internal/transmitter/transmitter.go:122-194 | what recvmsg may do: hand out a prefix of the queue, or fail and hand out nothing |
| Messenger.Transmitter.Send | internal/transmitter/transmitter.go:21-120 | success exactly if all bytes were taken, for an empty message too if there was no error; the socket has accepted exactly the reported number of them |
| Messenger.Transmitter.Receive | internal/transmitter/transmitter.go:122-207 | the buffer gains exactly the bytes read, behind what was there; nothing, with an error, if it is full; every flag, the end of the stream and every failure gives its own error; leftover bytes are noticed exactly when one read filled the whole buffer |
| SingleConnection.NewConnector | internal/connection/connection.go:74-114 | a connection is returned exactly if socket, poller and connect succeeded, otherwise the error of the first that failed; it is clean, connected, made of new parts and fit for the first command |
| SingleConnection.Connection.Connect | internal/connection/connection.go:117-150 | success if and only if the last attempt was answered with nil, or was started or answered with EAGAIN and its poll was ready; a hard error or a failed poll is reported as it was answered; at most RetryAmount attempts and poll timeouts; ErrOperationRetriesFailed if and only if that many polls timed out, and then at least all but one after EAGAIN; at most one attempt that goes on is waited for, and if its poll times out the answer is ErrConnectionInProcess or how the attempt ended |
| SingleConnection.Connection.Poll | internal/connection/connection.go:157-209 | the errors a poll may end with, and what may happen to the socket meanwhile |
| SingleConnection.ProcessPollError | internal/connection/connection.go:213-229 | "closed" if and only if one of the closing reasons is given, "reset" if and only if a reset is given and none of them |
| SingleConnection.Connection.Reconnect | internal/connection/connection.go:500-521 | success exactly if the socket was made and connecting it succeeded, otherwise the error of that; on success the messenger uses a fresh, connected socket that has accepted nothing; on failure it keeps its old descriptor, and the connection can be used exactly if the new socket has the same number |
| SingleConnection.Connection.IncreaseSendBuf | internal/connection/connection.go:543-565 | one step of the chain, contents kept, refused exactly at the largest length |
| SingleConnection.Connection.IncreaseRecvBuf | internal/connection/connection.go:579-601 | one step of the chain, contents kept, refused exactly at the largest length |
| SingleConnection.Connection.AfterSend | internal/connection/connection.go:328-333 | the server can answer only when the last byte of the command was taken |
| SingleConnection.Connection.SendRest | internal/connection/connection.go:328-334 | the socket has accepted exactly the bytes counted as sent, after every partial send |
| SingleConnection.Connection.SendStep | internal/connection/connection.go:328-391 | each answer to a send, and to the poll after it, leads to its own reaction: go on, poll, connect, or reconnect and send the whole message again; the count stays exact, and the loop stops only with the error of what was tried |
| SingleConnection.Connection.Restart | internal/connection/connection.go:368-376 | after a lost connection the whole message is due again on a socket that has seen none of it |
| SingleConnection.Connection.Send | internal/connection/connection.go:318-403 | success means the socket in use accepted the whole message once and in order; at most RetryAmount poll timeouts; ErrOperationRetriesFailed only after that many; after a lost connection it fails only if a reconnect was tried and failed with that error; every other failure is the error of the last answer; the connection is lost only together with a connection error; in lock-step it succeeds |
| SingleConnection.Connection.FirstRead | internal/connection/connection.go:406-425 | in lock-step the first successful read returns the beginning of the command's own reply |
| SingleConnection.Connection.NextRead | internal/connection/connection.go:406-450 | a later read goes on exactly where the last one stopped |
| SingleConnection.Connection.FirstReadDone | internal/connection/connection.go:412-414 | what the first read of a reply leaves in the buffer and in the kernel, for every length of both |
| SingleConnection.Connection.ReadOnce | internal/connection/connection.go:412-414 | one read extends the received bytes by what was handed out; when a reply is cut and when that is noticed |
| SingleConnection.Connection.MakeRoom | internal/connection/connection.go:434-450 | growth keeps every received byte; at the largest length the error is ErrRecvBufTooShort if and only if the reconnect succeeded, otherwise exactly what it gave |
| SingleConnection.Connection.Resend | internal/connection/connection.go:461-477 | after a close the whole message is accepted once by a fresh socket before reading goes on |
| SingleConnection.Connection.React | internal/connection/connection.go:415-484 | each error of a read leads to its own reaction, and the received bytes are kept |
| SingleConnection.Connection.Recover | internal/connection/connection.go:452-484 | the reactions to the other errors of a read, a closed connection among them: reconnect and send once more |
| SingleConnection.Connection.Receive | internal/connection/connection.go:406-493 | for every kernel the buffer gains exactly the chunks read, in order; at most RetryAmount poll timeouts, ErrOperationRetriesFailed only after that many of one kind; a failure is explained by the last answers; the connection is lost only together with a connection error; in lock-step the whole reply if it fits after one step of growth, and exactly what happens if not |
| SingleConnection.Connection.EncodeGrowing | internal/connection/connection.go:261-278 | ends; succeeds if and only if the command fits the largest length; leaves the buffer at the first sufficient length of the chain; the error is that of the first argument that is refused |
| SingleConnection.Connection.Exchange | internal/connection/connection.go:281-300 | the received bytes are those handed out during the command, in order, and in lock-step the reply |
| SingleConnection.Connection.Deliver | internal/connection/connection.go:281-315 | a returned value is the decoding of exactly the bytes handed out during the command |
| SingleConnection.Connection.Process | internal/connection/connection.go:238-315 | refused without effect while busy; buffers clear and connection released on every return; every result is explained: an expired context, an argument, the kernel's answers, or the decoding of exactly this command's bytes; after an expired context nothing is sent; the connection is lost only together with a connection error, and once lost every command fails; in lock-step the decoding of its own reply with nothing left unread, or exactly what a longer reply leads to |
| SingleConnection.Connection.RestSent | internal/connection/connection.go:328-333 | after every partial send the server waits for the rest, or has got all of the command |
| SingleConnection.Connection.ReadOutAnswers | internal/connection/connection.go:304-315 | what was read out decides the answer, for every length of reply and buffer |
| SingleConnection.Connection.ProcessInStep | internal/connection/connection.go:238-315 | one command in lock-step takes the connection from ready to ready, with the lengths its buffers have got; after a reply that is too long for the largest buffer, too, unless the reconnect fails |
| SingleConnection.Connection.ClearBufs | internal/connection/connection.go:626-631 | all three positions are zero |
| Sessions.RunNext | internal/connection/connection.go:238-315 | one command of a run gets its right answer, and the next position is known from it |
| Sessions.RunCommands | internal/connection/connection.go:238-315 | over any sequence of commands in lock-step in which no reply is cut off: every command that can be encoded gets the decoding of its own reply, or ErrRecvBufTooShort if that is too long for the largest buffer, the others an encoding error; the receive queue is empty between them; both buffers have exactly the lengths that commands and replies called for; the run ends early only at a panic or a failed reconnect |
| Sessions.ConnectAndRun | internal/connection/connection.go:74-114 | the same for a connection made by NewConnector, from the smallest buffers on |
| Sessions.RightAnswerIsTheReply | internal/connection/connection.go:304-315 | if the server answers with a printed reply tree, the caller gets its value, or ErrNoValue if there is a null in it |
| Sessions.CutReplyIsMisread | internal/connection/connection.go:304-315 | if such a reply is cut off, the caller gets what its beginning looks like, or a panic |
| SingleFlight.RunsKeepInvariant | internal/connection/connection.go:238-259 | mutex, flag and buffers stay consistent with where the callers are, through every interleaving |
| SingleFlight.SingleFlight | internal/connection/connection.go:238-259 | at most one caller is in process; the flag is set if and only if one is; while it is not set, all buffer positions are zero, after an early cancellation too |
| SingleFlight.OnlyTheHolderChangesBuffers | internal/connection/connection.go:626-650 | a step that changes the buffers is made by the one caller in process |
| SingleFlight.RefusedOnlyWhenBusy | internal/connection/connection.go:239-245 | a refused caller was refused because another one was in process |
| Polling.Epoll.constructor | pkg/polling/polling.go:37-71 | nothing is waited for and no loop runs |
| Polling.Epoll.Add | pkg/polling/polling.go:75-130 | error, new state and whether a wait loop is started, for every state and unit |
| Polling.Epoll.NoteEvents | pkg/polling/polling.go:143-156 | the events are kept; the loop ends and the flag falls exactly if they are as many as the waiting sockets |
| Polling.Epoll.FindReady | pkg/polling/polling.go:166-220 | the loop over the events yields the result of the last telling event of each socket |
| Polling.Epoll.Examine | pkg/polling/polling.go:167-219 | the flags of one event, in the order of the code, give its verdict |
| Polling.Epoll.DeliverAll | pkg/polling/polling.go:227-235 | in whatever order the results are visited, each goes to its waiting unit or is kept as unexpected |
| Polling.Epoll.ProcessEvents | pkg/polling/polling.go:161-237 | a batch of the announced size is handed out whole, any other one panics and changes nothing |
| Polling.Epoll.DeleteSocketFromPolling | pkg/polling/polling.go:239-245 | the unit of the socket is gone, nothing else changes |
| Polling.Epoll.PushError | pkg/polling/polling.go:263-273 | every waiting unit is sent the stored error, in whatever order they are visited; the error is forgotten, the units stay |
| Polling.AddMeans | pkg/polling/polling.go:75-130 | what Add answers and changes, case by case: a kept error, a pending unit, the kind, the registration, a failed call, acceptance |
| Polling.VerdictMeans | pkg/polling/polling.go:166-219 | what the flags of an event and SO_ERROR give, reason by reason |
| Polling.LastEventCounts | pkg/polling/polling.go:166-220 | the result of a socket is the verdict on its last telling event |
| Polling.NoEventNoResult | pkg/polling/polling.go:166-220 | a socket without a telling event has no result |
| Polling.BatchMeans | pkg/polling/polling.go:222-237 | a batch of the wrong size panics; any other takes off the units with results, keeps the results nobody waits for, and forgets the events |
| Polling.KeptIsReported | pkg/polling/polling.go:81-84 | a bad result that nobody waited for is returned by the next Add of its socket, which does nothing else, and by none after it |
| Polling.AddKeepsPendingUnits | pkg/polling/polling.go:88-91 | a pending unit is never replaced: a second Add for its socket fails and changes nothing about it |
| Polling.DeliveredOnce | pkg/polling/polling.go:227-235 | the channel of a waiting unit with a result gets that result and no other, all other channels get nothing, and the unit is taken off |
| Polling.PushedOnce | pkg/polling/polling.go:263-273 | a push sends one message on the channel of every waiting unit, none on the others, and all go on waiting |
| PollerRuns.StalledIffWaitFailed | pkg/polling/polling.go:135-158 | any sockets and give-ups: `polling` is set without a wait loop if and only if an epoll_wait has failed |
| PollerRuns.OnePushPerRun | pkg/polling/polling.go:263-273 | a run reports at most one failure of epoll_wait |
| PollerRuns.StepKeepsLog | pkg/polling/polling.go:227-273 | a step sends on a channel only what a batch or a push has for the waiting unit, and keeps the order of messages |
| PollerRuns.PollerIsSafe | pkg/polling/polling.go:75-273 | any sockets, timeouts and failures: at most one wait loop, only while `polling` is set; at most one result from processEvents on a channel, none while its unit waits, and before it at most one error from pushError; without an epoll_wait failure at most one message in all, none while the unit waits; no pending unit is replaced |
| PollerRuns.LogTellsHistory | pkg/polling/polling.go:161-273 | a unit was told of a failure if and only if it waited when that was pushed, and has a result if and only if a batch had one for it while it waited |
| PollerRuns.TwoMessagesIff | pkg/polling/polling.go:227-273 | exactly the units that waited at the push and are in a later batch get two messages |
| PollerRuns.TwoMessagesHappen | pkg/polling/polling.go:227-273 | for any two sockets there is a run in which the first one's channel gets two messages |
| PollerRuns.KeptUntilReported | pkg/polling/polling.go:227-235 | what is kept for a socket stays through every interleaving until it is found anew or returned |
| PollerRuns.NextAddReports | pkg/polling/polling.go:81-84 | over runs: the next Add of a socket returns the bad result last found for it, and does nothing else |
| PollerRuns.ReportedOnce | pkg/polling/polling.go:81-84 | over runs: between two Adds that return a kept result, a batch has found one |
| OneSocket.AwaitedEventCounts | pkg/polling/polling.go:199-219 | an event for the socket that is waited for always has a verdict, never that of a different event type |
| OneSocket.RunsAreSound | pkg/polling/polling.go:75-237 | with one socket at a time every state is idle, waiting or holding one batch of one event, whatever such state the run began in |
| OneSocket.OneSocketRuns | pkg/polling/polling.go:75-237 | one socket at a time: the count check never fails; an accepted unit has no result while it waits and exactly one afterwards, never a different event type; a loop runs iff `polling` is set iff a unit waits with no batch outstanding |
| OneSocket.BatchAnswersItsUnit | pkg/polling/polling.go:161-237 | a processed batch answers the one waiting unit, with success exactly if its event carries no error |
| OneSocket.LoopWithBatchPanics | pkg/polling/polling.go:222-225 | from every state in which a loop goes on while a batch of one event is outstanding, the count check can fail |
| OneSocket.GivingUpCanPanicIff | pkg/polling/polling.go:239-245 | after any run with one socket at a time, a caller's giving up makes a panic reachable if and only if it waits |
| OneSocket.SecondSocketCanPanicIff | pkg/polling/polling.go:75-130 | after such a run, an Add makes a panic reachable, without any giving up, if and only if it is accepted and another socket is registered |
| OneSocket.ClosingCanPanicIff | internal/connection/connection.go:495-498 | after such a run, closing a socket makes a panic reachable if and only if a unit waits for it |
| OneSocket.FailingCannotPanic | pkg/polling/polling.go:135-142 | a failed epoll_wait makes no panic reachable |
| OneSocket.CanPanicIff | pkg/polling/polling.go:75-245 | for every possible action after such a run: exactly when it makes a panic reachable |

## Left out

- Coder.Translator.Encode: does not model an empty argument list, for which the digit estimate takes the logarithm of zero and what the conversion to int gives depends on the platform, nor a write position other than 0, which `Process` never leaves behind. The client's commands all have arguments.
- SingleConnection.Connection.EncodeGrowing: the same empty argument list.
- SingleConnection.Connection.Process: the same empty argument list.
- Memory exhaustion: only the lengths that `make` rejects outright are modelled as a panic, for the sizes of linux/amd64.
- Replies with `_` or `-` inside an array or a map: the round trip leaves them out, because the parser returns index 0 or its own start there. The functions of `Parsing` do model them, and `NestedNulls` says what becomes of nulls in three families of arrays.
- Progress.DecodingReturns: termination is shown for data without the byte `_`; with it, some inputs end and some do not, and no condition simpler than following the parser separates them in general.
- SingleConnection.Connection.Send: its termination for every environment is not claimed (an environment can refuse to take bytes for ever); `fuel` cuts such a run off as Unfinished.
- SingleConnection.Connection.Receive: the same; in addition a reply of which a part was read before a connection was lost is not put back together, as the code keeps that part.
- SingleConnection.Connection.Poll: clocks, deadlines, the retries of `Add` while the socket is taken, and the busy wait for the result are one nondeterministic outcome.
- SingleConnection.NewConnector: the poller is created by a call that succeeds or fails; that all connections share one is not modelled there.
- The tables that turn an errno into an error (internal/socket/socket.go, most of internal/transmitter/transmitter.go, `handleEpollError`): a failed call gives an error of the class that the callers tell apart, all others are one class.
- Wrap-around of buffer lengths: twice a buffer's length is taken to fit into an int.
- Descriptors opened or closed by other parts of the process, so that the closed descriptor of a connection could become someone else's.
- Data races: a step of a caller or of the poller is atomic, and the mutexes are taken to work. A send on a result channel does not block in the model; in the code it waits for a receiver, with the poller's mutex held.
- Polling.Epoll.ProcessEvents: no statement is made about when every waiting caller gets its result if there are several sockets.
- Creation of the epoll descriptor, keep-alive socket options, the factory, the `Client` wrappers, `Close`, texts of formatted errors, benchmarks.
- The byte loops that `writeArr` and `writeString` contain are the methods `WriteHeader`, `WriteBytes` and `WriteCrlf` here; the scan loop that `parseInteger` and `parseBulkString` have in common is `ScanText`; the deferred calls of `Process` are `Leave`.
