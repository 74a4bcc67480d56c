/** Replies outside of the grammar of well-formed ones, and what the decoder makes of them. */
module IrregularReplies {
  import opened Bytes
  import opened Resp
  import opened Parsing
  import opened RoundTrip
  import opened NestedNulls

  // ---------------------------------------------------------------- carriage returns

  lemma {:induction false} ScanUpTo(data: bytes, i: nat, a: bytes, text: bytes)
    requires CrFree(a) && At(data, i, a)
    ensures Scan(data, i, text) == Scan(data, i + |a|, text + a)
    decreases |a|
  {
    if a == [] {
      assert text + a == text;
    } else {
      AtIndex(data, i, a, 0);
      assert a[0] in a && a == [a[0]] + a[1..];
      AtSplit(data, i, [a[0]], a[1..]);
      ScanUpTo(data, i + 1, a[1..], text + [a[0]]);
      assert text + [a[0]] + a[1..] == text + a;
    }
  }

  lemma ScanLoneCr(data: bytes, j: nat, a: bytes, x: byte, b: bytes)
    requires CrFree(a) && CrFree(b) && x != LF && At(data, j, a + ([CR, x] + (b + CRLF)))
    ensures Scan(data, j, []).text == a + [x] + b
  {
    AtSplit(data, j, a, [CR, x] + (b + CRLF));
    AtSplit(data, j + |a|, [CR, x], b + CRLF);
    AtIndex(data, j + |a|, [CR, x], 0);
    AtIndex(data, j + |a|, [CR, x], 1);
    ScanUpTo(data, j, a, []);
    assert [] + a == a;
    ScanLine(data, j + |a| + 2, b, a + [x]);
  }

  lemma ScanCrlf(data: bytes, j: nat, a: bytes, rest: bytes)
    requires CrFree(a) && At(data, j, (a + CRLF) + rest)
    ensures Scan(data, j, []).text == a
  {
    AtSplit(data, j, a + CRLF, rest);
    ScanLine(data, j, a, []);
    assert [] + a == a;
  }

  lemma DecodeFrame(payload: bytes, stack: nat)
    requires |payload| <= MAX_BYTES && stack >= 1
    ensures var data, j := PrintBulk(payload), |Header(DOLLAR, |payload|)|;
      At(data, j, payload + CRLF) && Decode(data, stack) == Ok(Text(Scan(data, j, []).text))
  {
    BulkFrame(PrintBulk(payload), 0, payload);
  }

  /** A carriage return that does not end the text is dropped, and nothing else is. */
  lemma LoneCrIsDropped(a: bytes, x: byte, b: bytes, stack: nat)
    requires CrFree(a) && CrFree(b) && x != LF && |a| + |b| + 2 <= MAX_BYTES && stack >= 1
    ensures Decode(PrintBulk(a + [CR, x] + b), stack) == Ok(Text(a + [x] + b))
  {
    var payload := a + [CR, x] + b;
    DecodeFrame(payload, stack);
    assert payload + CRLF == a + ([CR, x] + (b + CRLF));
    ScanLoneCr(PrintBulk(payload), |Header(DOLLAR, |payload|)|, a, x, b);
  }

  /** CR LF ends the text, whatever length was announced. */
  lemma CrlfEndsText(a: bytes, rest: bytes, stack: nat)
    requires CrFree(a) && |a| + |rest| + 2 <= MAX_BYTES && stack >= 1
    ensures Decode(PrintBulk(a + CRLF + rest), stack) == Ok(Text(a))
  {
    var payload := a + CRLF + rest;
    DecodeFrame(payload, stack);
    assert payload + CRLF == (a + CRLF) + (rest + CRLF);
    ScanCrlf(PrintBulk(payload), |Header(DOLLAR, |payload|)|, a, rest + CRLF);
  }

  // ---------------------------------------------------------------- lengths and counts

  lemma CountLine(data: bytes, kind: byte, line: bytes)
    requires CrFree(line) && At(data, 0, [kind] + (line + CRLF))
    ensures |data| >= 3 && data[0] == kind
    ensures PartLen(data, 1) == Atoi(line) && PartLenEnd(data, 1) == |line| + 2
  {
    LineAt(data, 0, kind, line);
  }

  /** A bulk string with any text for its length: -1 means null, other negative and too large
      lengths make the decoder panic, all others have no influence. */
  lemma AnyLength(line: bytes, payload: bytes, post: bytes, stack: nat)
    requires CrFree(line) && CrFree(payload) && stack >= 1
    ensures var n := Atoi(line);
      Decode([DOLLAR] + (line + CRLF) + (payload + CRLF) + post, stack)
      == if n == -1 then Err(ErrNoValue)
         else if n < 0 || n > MAX_BYTES then Crash(CapOutOfRange)
         else Ok(Text(payload))
  {
    var data := [DOLLAR] + (line + CRLF) + (payload + CRLF) + post;
    assert At(data, |line| + 3, payload + CRLF);
    DecodeAnyLength(data, line, payload, stack);
  }

  lemma DecodeAnyLength(data: bytes, line: bytes, payload: bytes, stack: nat)
    requires CrFree(line) && CrFree(payload) && stack >= 1
    requires At(data, 0, [DOLLAR] + (line + CRLF)) && At(data, |line| + 3, payload + CRLF)
    ensures var n := Atoi(line);
      Decode(data, stack)
      == if n == -1 then Err(ErrNoValue)
         else if n < 0 || n > MAX_BYTES then Crash(CapOutOfRange)
         else Ok(Text(payload))
  {
    CountLine(data, DOLLAR, line);
    if 0 <= Atoi(line) <= MAX_BYTES {
      PossibleLength(data, 0, |line| + 3);
      ScanLine(data, |line| + 3, payload, []);
      assert [] + payload == payload;
    }
  }

  /** An array with a count that is not positive. */
  lemma EmptyArray(line: bytes, post: bytes, stack: nat)
    requires CrFree(line) && stack >= 1 && (Atoi(line) <= 0 || Atoi(line) > MAX_ANYS)
    ensures Decode([STAR] + (line + CRLF) + post, stack)
         == if Atoi(line) == 0 then Ok(List([])) else Crash(CapOutOfRange)
  {
    var data := [STAR] + (line + CRLF) + post;
    CountLine(data, STAR, line);
    assert ParsePart(data, 0, stack) == ParseArray(data, 0, stack - 1);
  }

  /** A map with a count that is not positive: Go makes a map for any number of entries. */
  lemma EmptyMap(line: bytes, post: bytes, stack: nat)
    requires CrFree(line) && stack >= 1 && Atoi(line) <= 0
    ensures Decode([PERCENT] + (line + CRLF) + post, stack) == Ok(Dict(map[]))
  {
    var data := [PERCENT] + (line + CRLF) + post;
    CountLine(data, PERCENT, line);
    MapWithCount(data, 0, Atoi(line), stack);
  }

  // ---------------------------------------------------------------- errors inside of arrays

  /** The parser does not move on from an error reply. */
  lemma ErrorStays(data: bytes, i: nat, line: bytes, stack: nat)
    requires CrFree(line) && At(data, i, [MINUS] + (line + CRLF)) && stack >= 1
    ensures ParsePart(data, i, stack) == Parsed(i, Nil, Some(ErrRedisException(line)), [i])
    ensures i < |data|
  {
    LineAt(data, i, MINUS, line);
  }

  /** An array with an error reply behind the elements `ts`, and `k` more elements announced. */
  function ErrorInside(ts: seq<Tree>, line: bytes, k: nat): bytes {
    Header(STAR, |ts| + (1 + k)) + (PrintAll(ts) + ([MINUS] + (line + CRLF)))
  }

  /** As the last element it is reported. With more elements announced its own text is read for
      them; here that text looks like no reply. */
  lemma ErrorInsideArray(ts: seq<Tree>, line: bytes, k: nat, post: bytes, stack: nat)
    requires |ts| + k < MAX_ANYS && AllWellFormed(ts) && CrFree(line) && stack >= 2 && stack > DepthAll(ts)
    requires k <= |line| && forall i :: 0 <= i < k ==> IsJunk(line[i])
    ensures Decode(ErrorInside(ts, line, k) + post, stack)
         == Err(if k == 0 then ErrRedisException(line) else ErrUnsupportedDataType)
  {
    var data := ErrorInside(ts, line, k) + post;
    var j, items, err, starts := ErrorIsNext(data, ts, line, k, stack);
    ErrorThenText(data, j, line, k, stack - 1, items, err, starts);
    DecodesToError(data, stack, if k == 0 then ErrRedisException(line) else ErrUnsupportedDataType);
  }

  lemma ErrorIsNext(data: bytes, ts: seq<Tree>, line: bytes, k: nat, stack: nat)
    returns (j: nat, items: seq<Value>, err: Option<Error>, starts: seq<nat>)
    requires At(data, 0, ErrorInside(ts, line, k)) && |ts| + k < MAX_ANYS
    requires AllWellFormed(ts) && stack > DepthAll(ts)
    ensures At(data, j + 1, [MINUS] + (line + CRLF))
    ensures ParsePart(data, 0, stack) == ParseItems(data, j, 1 + k, stack - 1, items, err, starts)
  {
    j, items, err, starts := ArrayUpTo(data, 0, ts, 1 + k, [MINUS] + (line + CRLF), stack);
  }

  lemma ErrorThenText(data: bytes, j: nat, line: bytes, k: nat, stack: nat,
                      items: seq<Value>, err: Option<Error>, starts: seq<nat>)
    requires CrFree(line) && At(data, j + 1, [MINUS] + (line + CRLF)) && stack >= 1
    requires k <= |line| && forall i :: 0 <= i < k ==> IsJunk(line[i])
    ensures EndsWith(ParseItems(data, j, 1 + k, stack, items, err, starts), Misread(k, Some(ErrRedisException(line))))
  {
    ErrorStays(data, j + 1, line, stack);
    AtSplit(data, j + 1, [MINUS], line + CRLF);
    AtSplit(data, j + 2, line, CRLF);
    forall i | j + 1 < i <= j + 1 + k
      ensures IsJunk(data[i])
    {
      AtIndex(data, j + 2, line, i - (j + 2));
    }
    var items', starts' := ParseJunkBytes(data, j + 1, k, 0, stack, items + [Nil],
                                          Some(ErrRedisException(line)), starts + [j + 1]);
  }

  // ---------------------------------------------------------------- keys that are no strings

  ghost predicate AnyKeys(ps: seq<Pair>)
    decreases ps
  {
    ps == [] || (WellFormed(ps[0].key) && WellFormed(ps[0].value) && AnyKeys(ps[1..]))
  }

  /** The error that is stored behind pairs with keys of any kind, if `err` was before: the last
      one counts. */
  ghost function ErrorOfPairs(ps: seq<Pair>, err: Option<Error>): Option<Error>
    decreases ps
  {
    if ps == [] then err
    else if HasNull(ps[0].value) then ErrorOfPairs(ps[1..], Some(ErrNoValue))
    else if !IsByteString(ps[0].key) then ErrorOfPairs(ps[1..], Some(ErrTypeAssert))
    else ErrorOfPairs(ps[1..], err)
  }

  /** The parser returns, and `err` is the last error it stored. */
  ghost predicate EndsWith(o: Outcome, err: Option<Error>) {
    o.Parsed? && o.err == err
  }

  lemma ParseAnyPair(data: bytes, i: nat, p: Pair, stack: nat, err: Option<Error>, starts: seq<nat>)
    requires WellFormed(p.key) && WellFormed(p.value) && At(data, i + 1, PrintPair(p)) && stack >= PairDepth(p)
    ensures var o := ParseKeyAndValue(data, i + 1, stack, err, starts);
      && o.PairParsed? && o.end == i + |PrintPair(p)|
      && o.err == (if HasNull(p.value) then Some(ErrNoValue)
                   else if !IsByteString(p.key) then Some(ErrTypeAssert) else err)
    ensures i + 1 < |data|
  {
    AtSplit(data, i + 1, Print(p.key), Print(p.value));
    ParseTree(data, i + 1, p.key, stack);
    ParseTree(data, i + 1 + |Print(p.key)|, p.value, stack);
  }

  lemma {:induction false} ParseAnyPairs(data: bytes, i: nat, ps: seq<Pair>, stack: nat,
                                         m: map<bytes, bytes>, err: Option<Error>, starts: seq<nat>)
    requires AnyKeys(ps) && At(data, i + 1, PrintPairs(ps)) && stack >= DepthPairs(ps)
    ensures EndsWith(ParsePairs(data, i, |ps|, stack, m, err, starts), ErrorOfPairs(ps, err))
    decreases ps
  {
    if ps != [] {
      AtSplit(data, i + 1, PrintPair(ps[0]), PrintPairs(ps[1..]));
      ParseAnyPair(data, i, ps[0], stack, err, starts);
      var pair := ParseKeyAndValue(data, i + 1, stack, err, starts);
      ParseAnyPairs(data, pair.end, ps[1..], stack, m[pair.key := pair.value], pair.err, pair.starts);
    }
  }

  /** A map with a key that is no string is always an error: that of the key, or of a null behind
      it. */
  lemma KeyIsNoString(ps: seq<Pair>, post: bytes, stack: nat)
    requires AnyKeys(ps) && |ps| <= MAX_INT64 && stack > DepthPairs(ps) && ErrorOfPairs(ps, None).Some?
    ensures Decode(Print(Map(ps)) + post, stack) == Err(ErrorOfPairs(ps, None).value)
  {
    var data := Print(Map(ps)) + post;
    var j := MapBegins(data, ps);
    AnyPairsOfMap(data, j, ps, stack);
    DecodesToError(data, stack, ErrorOfPairs(ps, None).value);
  }

  lemma DecodesToError(data: bytes, stack: nat, e: Error)
    requires EndsWith(ParsePart(data, 0, stack), Some(e))
    ensures Decode(data, stack) == Err(e)
  {
  }

  lemma MapBegins(data: bytes, ps: seq<Pair>) returns (j: nat)
    requires At(data, 0, Print(Map(ps))) && |ps| <= MAX_INT64
    ensures At(data, j + 1, PrintPairs(ps)) && IsMapUpTo(data, j, |ps|)
  {
    ContainerAt(data, 0, PERCENT, |ps|, PrintPairs(ps));
    j := PartLenEnd(data, 1);
  }

  /** A map with `n` pairs begins the data, and its count's line ends at `j`. */
  ghost predicate IsMapUpTo(data: bytes, j: nat, n: int) {
    |data| > 1 && data[0] == PERCENT && PartLen(data, 1) == n && PartLenEnd(data, 1) == j
  }

  lemma AnyPairsOfMap(data: bytes, j: nat, ps: seq<Pair>, stack: nat)
    requires At(data, j + 1, PrintPairs(ps)) && IsMapUpTo(data, j, |ps|)
    requires AnyKeys(ps) && stack > DepthPairs(ps)
    ensures EndsWith(ParsePart(data, 0, stack), ErrorOfPairs(ps, None))
  {
    ParseAnyPairs(data, j, ps, stack - 1, map[], None, [0]);
    PairsOfMap(data, j, |ps|, stack, ErrorOfPairs(ps, None));
  }

  lemma PairsOfMap(data: bytes, j: nat, n: int, stack: nat, e: Option<Error>)
    requires IsMapUpTo(data, j, n) && stack >= 1
    requires EndsWith(ParsePairs(data, j, n, stack - 1, map[], None, [0]), e)
    ensures EndsWith(ParsePart(data, 0, stack), e)
  {
    MapWithCount(data, 0, n, stack);
  }

  lemma MapWithCount(data: bytes, i: nat, n: int, stack: nat)
    requires i + 1 < |data| && data[i] == PERCENT && PartLen(data, i + 1) == n && stack >= 1
    ensures ParsePart(data, i, stack) == ParsePairs(data, PartLenEnd(data, i + 1), n, stack - 1, map[], None, [i])
  {
  }
}
