/** A server's side of the protocol: commands are read by their announced lengths. This is an
    independent reading of what the encoder writes, for arguments with any bytes in them. */
module Server {
  import opened Bytes
  import opened Resp
  import opened CommandDomain

  /** A value read from the front of the input, and the input behind it. */
  datatype Read<T> = Read(value: T, rest: bytes)

  function ReadLine(s: bytes): Option<Read<bytes>> {
    if s == [] then None
    else if s[0] == CR then
      if |s| >= 2 && s[1] == LF then Some(Read([], s[2..])) else None
    else match ReadLine(s[1..])
      case None => None
      case Some(r) => Some(Read([s[0]] + r.value, r.rest))
  }

  function ReadHeader(kind: byte, s: bytes): Option<Read<nat>> {
    if s == [] || s[0] != kind then None
    else match ReadLine(s[1..])
      case None => None
      case Some(r) =>
        match ReadDigits(r.value)
        case Number(n) => Some(Read(n, r.rest))
        case _ => None
  }

  function ReadBulk(s: bytes): Option<Read<bytes>> {
    match ReadHeader(DOLLAR, s)
    case None => None
    case Some(r) =>
      var n := r.value;
      if |r.rest| >= n + 2 && r.rest[n..n + 2] == CRLF
      then Some(Read(r.rest[..n], r.rest[n + 2..])) else None
  }

  function ReadBulks(s: bytes, n: nat): Option<Read<seq<bytes>>>
    decreases n
  {
    if n == 0 then Some(Read([], s))
    else match ReadBulk(s)
      case None => None
      case Some(first) =>
        match ReadBulks(first.rest, n - 1)
        case None => None
        case Some(others) => Some(Read([first.value] + others.value, others.rest))
  }

  function ReadCommand(s: bytes): Option<Read<seq<bytes>>> {
    match ReadHeader(STAR, s)
    case None => None
    case Some(r) => ReadBulks(r.rest, r.value)
  }

  /** The input is one whole command and nothing else. */
  predicate IsCommand(s: bytes) {
    ReadCommand(s).Some? && ReadCommand(s).value.rest == []
  }

  // ---------------------------------------------------------------- reading what was written

  lemma {:induction false} ReadPrintedLine(line: bytes, post: bytes)
    requires CrFree(line)
    ensures ReadLine(line + CRLF + post) == Some(Read(line, post))
  {
    var s := line + CRLF + post;
    if line == [] {
      assert s[2..] == post;
    } else {
      assert line[0] in line;
      assert s[1..] == line[1..] + CRLF + post;
      ReadPrintedLine(line[1..], post);
      assert [line[0]] + line[1..] == line;
    }
  }

  lemma ReadPrintedHeader(kind: byte, n: nat, post: bytes)
    requires n <= MAX_UINT64
    ensures ReadHeader(kind, Header(kind, n) + post) == Some(Read(n, post))
  {
    var s := Header(kind, n) + post;
    assert s[1..] == Itoa(n) + CRLF + post;
    DigitsAreCrFree(Itoa(n));
    ReadPrintedLine(Itoa(n), post);
    ReadDigitsItoa(n);
  }

  lemma ReadPrintedBulk(payload: bytes, post: bytes)
    requires |payload| <= MAX_UINT64
    ensures ReadBulk(PrintBulk(payload) + post) == Some(Read(payload, post))
  {
    var body := payload + CRLF + post;
    assert PrintBulk(payload) + post == Header(DOLLAR, |payload|) + body;
    ReadPrintedHeader(DOLLAR, |payload|, body);
    assert body[..|payload|] == payload;
    assert body[|payload|..|payload| + 2] == CRLF;
    assert body[|payload| + 2..] == post;
  }

  lemma {:induction false} ReadPrintedBulks(args: seq<bytes>, post: bytes)
    requires forall i :: 0 <= i < |args| ==> |args[i]| <= MAX_UINT64
    ensures ReadBulks(PrintAll(Bulks(args)) + post, |args|) == Some(Read(args, post))
    decreases |args|
  {
    if args == [] {
      assert PrintAll(Bulks(args)) + post == post;
    } else {
      var rest := args[1..];
      assert Bulks(args)[1..] == Bulks(rest);
      var others := PrintAll(Bulks(rest)) + post;
      assert PrintAll(Bulks(args)) + post == PrintBulk(args[0]) + others;
      ReadPrintedBulk(args[0], others);
      ReadPrintedBulks(rest, post);
      assert [args[0]] + rest == args;
    }
  }

  /** A server that counts bytes recovers the arguments of every command, whatever bytes they
      hold and whatever follows. */
  lemma ReadPrintedCommand(args: seq<bytes>, post: bytes)
    requires InMemory(args)
    ensures ReadCommand(Command(args) + post) == Some(Read(args, post))
  {
    var body := PrintAll(Bulks(args)) + post;
    assert Command(args) + post == Header(STAR, |args|) + body;
    ReadPrintedHeader(STAR, |args|, body);
    ReadPrintedBulks(args, post);
  }

  // ---------------------------------------------------------------- prefixes

  lemma {:induction false} ReadLineExtends(s: bytes, more: bytes)
    requires ReadLine(s).Some?
    ensures ReadLine(s + more) == Some(Read(ReadLine(s).value.value, ReadLine(s).value.rest + more))
  {
    if s[0] == CR {
      assert (s + more)[2..] == s[2..] + more;
    } else {
      assert (s + more)[1..] == s[1..] + more;
      ReadLineExtends(s[1..], more);
    }
  }

  lemma ReadHeaderExtends(kind: byte, s: bytes, more: bytes)
    requires ReadHeader(kind, s).Some?
    ensures ReadHeader(kind, s + more)
         == Some(Read(ReadHeader(kind, s).value.value, ReadHeader(kind, s).value.rest + more))
  {
    assert (s + more)[1..] == s[1..] + more;
    ReadLineExtends(s[1..], more);
  }

  lemma ReadBulkExtends(s: bytes, more: bytes)
    requires ReadBulk(s).Some?
    ensures ReadBulk(s + more) == Some(Read(ReadBulk(s).value.value, ReadBulk(s).value.rest + more))
  {
    ReadHeaderExtends(DOLLAR, s, more);
    var r := ReadHeader(DOLLAR, s).value;
    var n := r.value;
    assert (r.rest + more)[n..n + 2] == r.rest[n..n + 2];
    assert (r.rest + more)[..n] == r.rest[..n];
    assert (r.rest + more)[n + 2..] == r.rest[n + 2..] + more;
  }

  lemma {:induction false} ReadBulksExtends(s: bytes, n: nat, more: bytes)
    requires ReadBulks(s, n).Some?
    ensures ReadBulks(s + more, n)
         == Some(Read(ReadBulks(s, n).value.value, ReadBulks(s, n).value.rest + more))
    decreases n
  {
    if n > 0 {
      ReadBulkExtends(s, more);
      ReadBulksExtends(ReadBulk(s).value.rest, n - 1, more);
    }
  }

  /** Commands are self-delimiting: a part of a command that is not all of it is no command. */
  lemma NoCommandIsAPrefix(args: seq<bytes>, k: nat)
    requires InMemory(args) && k <= |Command(args)|
    ensures IsCommand(Command(args)[..k]) <==> k == |Command(args)|
  {
    var all := Command(args);
    var s, more := all[..k], all[k..];
    assert s + more == all == all + [];
    ReadPrintedCommand(args, []);
    if IsCommand(s) {
      var r := ReadHeader(STAR, s).value;
      ReadHeaderExtends(STAR, s, more);
      ReadBulksExtends(r.rest, r.value, more);
    }
    if k == |all| {
      assert s == all;
    }
  }
}
