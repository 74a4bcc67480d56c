/** What the recursive reply parser computes, as functions of the data and a position. The
    methods of Translator are proved to compute these functions; what the functions mean for
    printed replies is proved in the modules RoundTrip, CommandDomain and Progress.

    A Go panic is an outcome of its own. The depth of open parsePart calls is bounded by
    `stack`, the size of the goroutine's stack counted in frames of parsePart; StackIrrelevant
    shows that the bound has no other influence. */
module Parsing {
  import opened Bytes
  import opened Resp

  datatype Panic = IndexOutOfRange | CapOutOfRange | StackOverflow

  /** Outcome of one parser call: where it stopped, what it returned, the last error it
      stored, and the positions at which parsePart was entered, in the order of the calls. */
  datatype Outcome =
    | Parsed(end: nat, value: Value, err: Option<Error>, starts: seq<nat>)
    | Panicked(why: Panic, err: Option<Error>, starts: seq<nat>)

  // ---------------------------------------------------------------- scanning

  /** `closed` tells whether a line feed after a carriage return ended the text; otherwise
      the data ended first. */
  datatype Scanned = Scanned(end: nat, text: bytes, closed: bool)

  /** Reads up to the next CR LF. A carriage return with another byte behind it is dropped,
      and that byte is taken whatever it is. */
  function Scan(data: bytes, idx: nat, text: bytes): (s: Scanned)
    ensures s.end >= idx
    ensures s.closed <==> s.end < |data|
    decreases |data| - idx
  {
    if idx >= |data| then Scanned(idx, text, false)
    else if data[idx] != CR then Scan(data, idx + 1, text + [data[idx]])
    else if idx + 1 >= |data| then Scanned(idx + 1, text, false)
    else if data[idx + 1] == LF then Scanned(idx + 1, text, true)
    else Scan(data, idx + 2, text + [data[idx + 1]])
  }

  /** A length or count; 0 when the data ends before the line does. */
  function PartLen(data: bytes, idx: nat): int {
    var s := Scan(data, idx, []);
    if s.closed then Atoi(s.text) else 0
  }

  function PartLenEnd(data: bytes, idx: nat): nat {
    Scan(data, idx, []).end
  }

  /** make([]T, 0, n) panics for such an n, where `limit` elements of T are the most that can
      be asked for. */
  predicate CannotAllocate(n: int, limit: nat) {
    n < 0 || n > limit
  }

  // ---------------------------------------------------------------- scalars

  function ParseSimpleString(data: bytes, idx: nat): Outcome {
    var s := Scan(data, idx + 1, []);
    Parsed(s.end, if s.closed then Text(s.text) else Nil, None, [idx])
  }

  function ParseInteger(data: bytes, idx: nat): Outcome {
    var s := Scan(data, idx + 1, []);
    Parsed(s.end, Text(s.text), None, [idx])
  }

  function ParseBulkString(data: bytes, idx: nat): Outcome {
    if idx + 1 >= |data| then Parsed(idx + 1, Nil, None, [idx])
    else
      var end := PartLenEnd(data, idx + 1);
      var n := PartLen(data, idx + 1);
      if n == -1 then Parsed(end, Nil, Some(ErrNoValue), [idx])
      else if CannotAllocate(n, MAX_BYTES) then Panicked(CapOutOfRange, None, [idx])
      else
        var s := Scan(data, end + 1, []);
        Parsed(s.end, Text(s.text), None, [idx])
  }

  /** The call returns the position it started from. */
  function ParseError(data: bytes, idx: nat): Outcome {
    var s := Scan(data, idx + 1, []);
    if s.closed then Parsed(idx, Nil, Some(ErrRedisException(s.text)), [idx])
    else Panicked(IndexOutOfRange, None, [idx])
  }

  // ---------------------------------------------------------------- replies

  function ParsePart(data: bytes, idx: nat, stack: nat): Outcome
    decreases stack, 0
  {
    if stack == 0 then Panicked(StackOverflow, None, [])
    else if idx >= |data| then Panicked(IndexOutOfRange, None, [idx])
    else if data[idx] == PLUS then ParseSimpleString(data, idx)
    else if data[idx] == DOLLAR then ParseBulkString(data, idx)
    else if data[idx] == COLON then ParseInteger(data, idx)
    else if data[idx] == UNDERSCORE then Parsed(0, Nil, Some(ErrNoValue), [idx])
    else if data[idx] == MINUS then ParseError(data, idx)
    else if data[idx] == STAR then ParseArray(data, idx, stack - 1)
    else if data[idx] == PERCENT then ParseMap(data, idx, stack - 1)
    else Parsed(idx, Nil, Some(ErrUnsupportedDataType), [idx])
  }

  function ParseArray(data: bytes, idx: nat, stack: nat): Outcome
    decreases stack, 2, 0
  {
    if idx + 1 >= |data| then Parsed(idx + 1, Nil, None, [idx])
    else
      var n := PartLen(data, idx + 1);
      if CannotAllocate(n, MAX_ANYS) then Panicked(CapOutOfRange, None, [idx])
      else ParseItems(data, PartLenEnd(data, idx + 1), n, stack, [], None, [idx])
  }

  function ParseMap(data: bytes, idx: nat, stack: nat): Outcome
    decreases stack, 2, 0
  {
    if idx + 1 >= |data| then Parsed(idx + 1, Nil, None, [idx])
    else
      var n := PartLen(data, idx + 1);
      ParsePairs(data, PartLenEnd(data, idx + 1), n, stack, map[], None, [idx])
  }

  /** `n` more elements behind position `idx`, after the elements `items`. */
  function ParseItems(data: bytes, idx: nat, n: int, stack: nat,
                      items: seq<Value>, err: Option<Error>, starts: seq<nat>): Outcome
    decreases stack, 1, if n > 0 then n else 0
  {
    if n <= 0 then Parsed(idx, List(items), err, starts)
    else if idx + 1 >= |data| then Parsed(idx + 1, List(items), err, starts)
    else
      var item := Resume(ParsePart(data, idx + 1, stack), err, starts);
      if item.Panicked? then item
      else ParseItems(data, item.end, n - 1, stack, items + [item.value], item.err, item.starts)
  }

  /** `n` more keys with their values behind position `idx`, after the entries `m`. */
  function ParsePairs(data: bytes, idx: nat, n: int, stack: nat,
                      m: map<bytes, bytes>, err: Option<Error>, starts: seq<nat>): Outcome
    decreases stack, 1, 1 + if n > 0 then n else 0
  {
    if n <= 0 then Parsed(idx, Dict(m), err, starts)
    else if idx + 1 >= |data| then Parsed(idx + 1, Dict(m), err, starts)
    else
      var pair := ParseKeyAndValue(data, idx + 1, stack, err, starts);
      match pair
      case PairPanicked(why, e, s) => Panicked(why, e, s)
      case PairParsed(end, key, value, e, s) =>
        ParsePairs(data, end, n - 1, stack, m[key := value], e, s)
  }

  datatype PairOutcome =
    | PairParsed(end: nat, key: bytes, value: bytes, err: Option<Error>, starts: seq<nat>)
    | PairPanicked(why: Panic, err: Option<Error>, starts: seq<nat>)

  function ParseKeyAndValue(data: bytes, idx: nat, stack: nat,
                            err: Option<Error>, starts: seq<nat>): PairOutcome
    decreases stack, 1, 0
  {
    var key := ParsePart(data, idx, stack);
    if key.Panicked? then JoinPair(key, key, err, starts)
    else JoinPair(key, ParsePart(data, key.end + 1, stack), err, starts)
  }

  /** A pair from the outcomes for its key and, if that one returned, for its value. A key that
      is no byte string is an error, and the pair is kept under the empty key. */
  function JoinPair(key: Outcome, value: Outcome, err: Option<Error>, starts: seq<nat>): PairOutcome {
    match Resume(key, err, starts)
    case Panicked(why, e, s) => PairPanicked(why, e, s)
    case Parsed(_, k, e, s) =>
      match Resume(value, if k.Text? then e else Some(ErrTypeAssert), s)
      case Panicked(why, e', s') => PairPanicked(why, e', s')
      case Parsed(end, v, e', s') => PairParsed(end, KeyOf(k), Flatten(v), e', s')
  }

  /** The outcome of a call made when `err` was stored and `starts` had been entered. */
  function Resume(o: Outcome, err: Option<Error>, starts: seq<nat>): Outcome {
    match o
    case Parsed(end, value, e, s) => Parsed(end, value, e.Or(err), starts + s)
    case Panicked(why, e, s) => Panicked(why, e.Or(err), starts + s)
  }

  function KeyOf(v: Value): bytes {
    if v.Text? then v.text else []
  }

  // ---------------------------------------------------------------- whole inputs

  datatype Result = Ok(value: Value) | Err(error: Error) | Crash(why: Panic)

  /** The answer of Decode when decodingErr is nil before the call. */
  function Decode(data: bytes, stack: nat): Result {
    DecodeAfter(None, data, stack).0
  }

  /** Decode with the stored error `sticky` left over from before; the second component is
      what decodingErr holds afterwards. */
  function DecodeAfter(sticky: Option<Error>, data: bytes, stack: nat): (Result, Option<Error>) {
    match ParsePart(data, 0, stack)
    case Panicked(why, err, _) => (Crash(why), err.Or(sticky))
    case Parsed(_, value, err, _) =>
      match err.Or(sticky)
      case Some(e) => (Err(e), None)
      case None => (Ok(value), None)
  }

  /** Successive Decode calls on one Translator, which stop at the first panic. */
  function DecodeRun(sticky: Option<Error>, inputs: seq<bytes>, stack: nat): seq<Result>
    decreases |inputs|
  {
    if inputs == [] then []
    else
      var (r, sticky') := DecodeAfter(sticky, inputs[0], stack);
      if r.Crash? then [r] else [r] + DecodeRun(sticky', inputs[1..], stack)
  }

  /** No call sees an error stored by an earlier one: the k-th answer of a run is the answer
      a fresh Translator gives to the k-th input. */
  lemma {:induction false} RunsAreIndependent(inputs: seq<bytes>, stack: nat, k: nat)
    requires k < |DecodeRun(None, inputs, stack)|
    ensures k < |inputs| && DecodeRun(None, inputs, stack)[k] == Decode(inputs[k], stack)
  {
    if k > 0 {
      RunsAreIndependent(inputs[1..], stack, k - 1);
    }
  }

  // ---------------------------------------------------------------- the stack bound

  /** A run that does not exhaust the stack gives the same outcome with any larger stack. */
  lemma {:induction false} StackIrrelevant(data: bytes, idx: nat, stack: nat, more: nat)
    requires stack <= more
    ensures var o := ParsePart(data, idx, stack);
      o == ParsePart(data, idx, more) || (o.Panicked? && o.why == StackOverflow)
    decreases stack, 0
  {
    if stack > 0 && idx + 1 < |data| && (data[idx] == STAR || data[idx] == PERCENT) {
      var n := PartLen(data, idx + 1);
      var end := PartLenEnd(data, idx + 1);
      StackIrrelevantPairs(data, end, n, stack - 1, more - 1, map[], None, [idx]);
      StackIrrelevantItems(data, end, n, stack - 1, more - 1, [], None, [idx]);
    }
  }

  lemma {:induction false} StackIrrelevantItems(data: bytes, idx: nat, n: int, stack: nat, more: nat,
                                                items: seq<Value>, err: Option<Error>, starts: seq<nat>)
    requires stack <= more
    ensures var o := ParseItems(data, idx, n, stack, items, err, starts);
      o == ParseItems(data, idx, n, more, items, err, starts) || (o.Panicked? && o.why == StackOverflow)
    decreases stack, if n > 0 then n else 0
  {
    if n > 0 && idx + 1 < |data| {
      StackIrrelevant(data, idx + 1, stack, more);
      var item := Resume(ParsePart(data, idx + 1, stack), err, starts);
      if item.Parsed? {
        StackIrrelevantItems(data, item.end, n - 1, stack, more, items + [item.value], item.err, item.starts);
      }
    }
  }

  lemma {:induction false} StackIrrelevantPairs(data: bytes, idx: nat, n: int, stack: nat, more: nat,
                                                m: map<bytes, bytes>, err: Option<Error>, starts: seq<nat>)
    requires stack <= more
    ensures var o := ParsePairs(data, idx, n, stack, m, err, starts);
      o == ParsePairs(data, idx, n, more, m, err, starts) || (o.Panicked? && o.why == StackOverflow)
    decreases stack, if n > 0 then n else 0
  {
    if n > 0 && idx + 1 < |data| {
      StackIrrelevant(data, idx + 1, stack, more);
      var key := ParsePart(data, idx + 1, stack);
      if key.Parsed? {
        StackIrrelevant(data, key.end + 1, stack, more);
        var pair := ParseKeyAndValue(data, idx + 1, stack, err, starts);
        if pair.PairParsed? {
          StackIrrelevantPairs(data, pair.end, n - 1, stack, more, m[pair.key := pair.value], pair.err, pair.starts);
        }
      }
    }
  }

  // ---------------------------------------------------------------- errors

  /** What a reply can be answered with, besides a value. */
  predicate IsReplyError(e: Error) {
    e.ErrNoValue? || e.ErrUnsupportedDataType? || e.ErrTypeAssert? || e.ErrRedisException?
  }

  predicate OnlyReplyErrors(err: Option<Error>) {
    err.Some? ==> IsReplyError(err.value)
  }

  lemma {:induction false} PartErrors(data: bytes, idx: nat, stack: nat)
    ensures OnlyReplyErrors(ParsePart(data, idx, stack).err)
    decreases stack, 0
  {
    if stack > 0 && idx + 1 < |data| && (data[idx] == STAR || data[idx] == PERCENT) {
      var n := PartLen(data, idx + 1);
      var end := PartLenEnd(data, idx + 1);
      ItemsErrors(data, end, n, stack - 1, [], None, [idx]);
      PairsErrors(data, end, n, stack - 1, map[], None, [idx]);
    }
  }

  lemma {:induction false} ItemsErrors(data: bytes, idx: nat, n: int, stack: nat,
                                       items: seq<Value>, err: Option<Error>, starts: seq<nat>)
    requires OnlyReplyErrors(err)
    ensures OnlyReplyErrors(ParseItems(data, idx, n, stack, items, err, starts).err)
    decreases stack, if n > 0 then n else 0
  {
    if n > 0 && idx + 1 < |data| {
      PartErrors(data, idx + 1, stack);
      var item := Resume(ParsePart(data, idx + 1, stack), err, starts);
      if item.Parsed? {
        ItemsErrors(data, item.end, n - 1, stack, items + [item.value], item.err, item.starts);
      }
    }
  }

  lemma {:induction false} PairsErrors(data: bytes, idx: nat, n: int, stack: nat,
                                       m: map<bytes, bytes>, err: Option<Error>, starts: seq<nat>)
    requires OnlyReplyErrors(err)
    ensures OnlyReplyErrors(ParsePairs(data, idx, n, stack, m, err, starts).err)
    decreases stack, if n > 0 then n else 0
  {
    if n > 0 && idx + 1 < |data| {
      PartErrors(data, idx + 1, stack);
      var key := ParsePart(data, idx + 1, stack);
      if key.Parsed? {
        PartErrors(data, key.end + 1, stack);
      }
      var pair := ParseKeyAndValue(data, idx + 1, stack, err, starts);
      if pair.PairParsed? {
        PairsErrors(data, pair.end, n - 1, stack, m[pair.key := pair.value], pair.err, pair.starts);
      }
    }
  }

  /** The errors of decoding are the four that speak about the reply. */
  lemma DecodeErrors(data: bytes, stack: nat)
    ensures Decode(data, stack).Err? ==> IsReplyError(Decode(data, stack).error)
  {
    PartErrors(data, 0, stack);
  }
}
