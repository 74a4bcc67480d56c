/** How much work the parser does on arbitrary input, however large the announced counts are. */
module Progress {
  import opened Bytes
  import opened Resp
  import opened Parsing

  ghost predicate Increasing(s: seq<nat>) {
    |s| <= 1 || (s[|s| - 2] < s[|s| - 1] && Increasing(s[..|s| - 1]))
  }

  ghost predicate PairwiseIncreasing(s: seq<nat>) {
    forall i, j :: 0 <= i < j < |s| ==> s[i] < s[j]
  }

  lemma {:induction false} IncreasingIsPairwise(s: seq<nat>)
    requires Increasing(s)
    ensures PairwiseIncreasing(s)
    ensures s != [] ==> s[|s| - 1] >= s[0] + |s| - 1
  {
    if |s| > 1 {
      IncreasingIsPairwise(s[..|s| - 1]);
    }
  }

  /** The calls made before the parser reached position `idx`, in order and inside the data. */
  ghost predicate Before(starts: seq<nat>, low: nat, idx: nat, bound: nat) {
    var n := |starts|;
    && Increasing(starts) && low <= idx
    && (n >= 1 ==> low <= starts[0] && starts[n - 1] <= idx && starts[n - 1] < bound)
  }

  /** The calls up to a panic: only the last one may be outside of the data. */
  ghost predicate UpToPanic(starts: seq<nat>, low: nat, bound: nat) {
    var n := |starts|;
    && Increasing(starts)
    && (n >= 1 ==> low <= starts[0])
    && (n >= 2 ==> starts[n - 2] < bound)
  }

  ghost predicate Ordered(o: Outcome, low: nat, bound: nat) {
    match o
    case Parsed(end, _, _, starts) => Before(starts, low, end, bound)
    case Panicked(_, _, starts) => UpToPanic(starts, low, bound)
  }

  ghost predicate PairOrdered(o: PairOutcome, low: nat, bound: nat) {
    match o
    case PairParsed(end, _, _, _, starts) => Before(starts, low, end, bound)
    case PairPanicked(_, _, starts) => UpToPanic(starts, low, bound)
  }

  lemma {:induction false} ConcatIncreasing(a: seq<nat>, b: seq<nat>)
    requires Increasing(a) && Increasing(b)
    requires a != [] && b != [] ==> a[|a| - 1] < b[0]
    ensures Increasing(a + b)
  {
    if b == [] {
      assert a + b == a;
    } else {
      ConcatIncreasing(a, b[..|b| - 1]);
      assert (a + b)[..|a + b| - 1] == a + b[..|b| - 1];
    }
  }

  lemma ResumeOrdered(o: Outcome, low: nat, idx: nat, bound: nat, err: Option<Error>, starts: seq<nat>)
    requires Before(starts, low, idx, bound) && Ordered(o, idx + 1, bound)
    ensures Ordered(Resume(o, err, starts), low, bound)
  {
    ConcatIncreasing(starts, o.starts);
  }

  lemma {:induction false} PartOrdered(data: bytes, idx: nat, stack: nat)
    requires UNDERSCORE !in data
    ensures Ordered(ParsePart(data, idx, stack), idx, |data|)
    decreases stack, 0
  {
    if stack > 0 && idx + 1 < |data| && (data[idx] == STAR || data[idx] == PERCENT) {
      var n := PartLen(data, idx + 1);
      var end := PartLenEnd(data, idx + 1);
      ItemsOrdered(data, end, n, stack - 1, [], None, [idx], idx);
      PairsOrdered(data, end, n, stack - 1, map[], None, [idx], idx);
    }
  }

  lemma {:induction false} ItemsOrdered(data: bytes, idx: nat, n: int, stack: nat, items: seq<Value>,
                                        err: Option<Error>, starts: seq<nat>, low: nat)
    requires UNDERSCORE !in data && Before(starts, low, idx, |data|)
    ensures Ordered(ParseItems(data, idx, n, stack, items, err, starts), low, |data|)
    decreases stack, if n > 0 then n else 0
  {
    if n > 0 && idx + 1 < |data| {
      var o := ParsePart(data, idx + 1, stack);
      PartOrdered(data, idx + 1, stack);
      ResumeOrdered(o, low, idx, |data|, err, starts);
      var item := Resume(o, err, starts);
      if item.Parsed? {
        ItemsOrdered(data, item.end, n - 1, stack, items + [item.value], item.err, item.starts, low);
      }
    }
  }

  lemma {:induction false} PairsOrdered(data: bytes, idx: nat, n: int, stack: nat, m: map<bytes, bytes>,
                                        err: Option<Error>, starts: seq<nat>, low: nat)
    requires UNDERSCORE !in data && Before(starts, low, idx, |data|)
    ensures Ordered(ParsePairs(data, idx, n, stack, m, err, starts), low, |data|)
    decreases stack, 1 + if n > 0 then n else 0
  {
    if n > 0 && idx + 1 < |data| {
      PairInOrder(data, idx, stack, err, starts, low);
      var pair := ParseKeyAndValue(data, idx + 1, stack, err, starts);
      if pair.PairParsed? {
        PairsOrdered(data, pair.end, n - 1, stack, m[pair.key := pair.value], pair.err, pair.starts, low);
      }
    }
  }

  lemma {:induction false} PairInOrder(data: bytes, idx: nat, stack: nat,
                                       err: Option<Error>, starts: seq<nat>, low: nat)
    requires UNDERSCORE !in data && Before(starts, low, idx, |data|)
    ensures PairOrdered(ParseKeyAndValue(data, idx + 1, stack, err, starts), low, |data|)
    decreases stack, 1
  {
    var key := ParsePart(data, idx + 1, stack);
    PartOrdered(data, idx + 1, stack);
    if key.Parsed? {
      PartOrdered(data, key.end + 1, stack);
      JoinOrdered(key, ParsePart(data, key.end + 1, stack), idx, err, starts, low, |data|);
    } else {
      JoinOrdered(key, key, idx, err, starts, low, |data|);
    }
  }

  lemma JoinOrdered(key: Outcome, value: Outcome, idx: nat,
                    err: Option<Error>, starts: seq<nat>, low: nat, bound: nat)
    requires Before(starts, low, idx, bound) && Ordered(key, idx + 1, bound)
    requires key.Parsed? ==> Ordered(value, key.end + 1, bound)
    ensures PairOrdered(JoinPair(key, value, err, starts), low, bound)
  {
    ResumeOrdered(key, low, idx, bound, err, starts);
    if key.Parsed? {
      var e := if key.value.Text? then Resume(key, err, starts).err else Some(ErrTypeAssert);
      ResumeOrdered(value, low, key.end, bound, e, starts + key.starts);
    }
  }

  /** Without a RESP3 null in the data, parsePart is entered at strictly increasing positions:
      at most once for each byte, and at most once more outside of the data. */
  lemma WorkIsLinear(data: bytes, stack: nat)
    requires UNDERSCORE !in data
    ensures var o := ParsePart(data, 0, stack);
      && PairwiseIncreasing(o.starts)
      && |o.starts| <= |data| + 1
      && (o.Parsed? ==> |o.starts| <= |data|)
  {
    PartOrdered(data, 0, stack);
    var s := ParsePart(data, 0, stack).starts;
    IncreasingIsPairwise(s);
    if |s| > 1 {
      IncreasingIsPairwise(s[..|s| - 1]);
    }
  }

  // ---------------------------------------------------------------- termination

  ghost predicate Overflowed(o: Outcome) {
    o.Panicked? && o.why == StackOverflow
  }

  lemma {:induction false} PartReturns(data: bytes, idx: nat, stack: nat)
    requires UNDERSCORE !in data && stack >= 1 && stack + idx > |data|
    ensures !Overflowed(ParsePart(data, idx, stack))
    decreases stack, 0
  {
    if idx + 1 < |data| && (data[idx] == STAR || data[idx] == PERCENT) {
      var n := PartLen(data, idx + 1);
      var end := PartLenEnd(data, idx + 1);
      ItemsReturn(data, end, n, stack - 1, [], None, [idx]);
      PairsReturn(data, end, n, stack - 1, map[], None, [idx]);
    }
  }

  lemma {:induction false} ItemsReturn(data: bytes, idx: nat, n: int, stack: nat,
                                       items: seq<Value>, err: Option<Error>, starts: seq<nat>)
    requires UNDERSCORE !in data && stack >= 1 && stack + idx > |data|
    ensures !Overflowed(ParseItems(data, idx, n, stack, items, err, starts))
    decreases stack, if n > 0 then n else 0
  {
    if n > 0 && idx + 1 < |data| {
      PartReturns(data, idx + 1, stack);
      PartOrdered(data, idx + 1, stack);
      var item := Resume(ParsePart(data, idx + 1, stack), err, starts);
      if item.Parsed? {
        ItemsReturn(data, item.end, n - 1, stack, items + [item.value], item.err, item.starts);
      }
    }
  }

  lemma {:induction false} PairsReturn(data: bytes, idx: nat, n: int, stack: nat,
                                       m: map<bytes, bytes>, err: Option<Error>, starts: seq<nat>)
    requires UNDERSCORE !in data && stack >= 1 && stack + idx > |data|
    ensures !Overflowed(ParsePairs(data, idx, n, stack, m, err, starts))
    decreases stack, 1 + if n > 0 then n else 0
  {
    if n > 0 && idx + 1 < |data| {
      PairReturns(data, idx, stack, err, starts);
      var pair := ParseKeyAndValue(data, idx + 1, stack, err, starts);
      if pair.PairParsed? {
        PairsReturn(data, pair.end, n - 1, stack, m[pair.key := pair.value], pair.err, pair.starts);
      }
    }
  }

  lemma {:induction false} PairReturns(data: bytes, idx: nat, stack: nat, err: Option<Error>, starts: seq<nat>)
    requires UNDERSCORE !in data && stack >= 1 && stack + idx > |data|
    ensures var o := ParseKeyAndValue(data, idx + 1, stack, err, starts);
      if o.PairParsed? then o.end > idx else o.why != StackOverflow
    decreases stack, 1
  {
    PartReturns(data, idx + 1, stack);
    PartOrdered(data, idx + 1, stack);
    var key := ParsePart(data, idx + 1, stack);
    if key.Parsed? {
      PartReturns(data, key.end + 1, stack);
      PartOrdered(data, key.end + 1, stack);
      JoinReturns(key, ParsePart(data, key.end + 1, stack), idx, err, starts, |data|);
    } else {
      JoinReturns(key, key, idx, err, starts, |data|);
    }
  }

  lemma JoinReturns(key: Outcome, value: Outcome, idx: nat, err: Option<Error>, starts: seq<nat>, bound: nat)
    requires !Overflowed(key) && Ordered(key, idx + 1, bound)
    requires key.Parsed? ==> !Overflowed(value) && Ordered(value, key.end + 1, bound)
    ensures var o := JoinPair(key, value, err, starts);
      if o.PairParsed? then o.end > idx else o.why != StackOverflow
  {
  }

  /** Without a RESP3 null, decoding needs no more nested calls than there are bytes, so with
      any stack larger than that it returns (or panics for another reason), and always the same. */
  lemma DecodingReturns(data: bytes, stack: nat)
    requires UNDERSCORE !in data && stack > |data|
    ensures Decode(data, stack) == Decode(data, |data| + 1)
    ensures Decode(data, stack) != Crash(StackOverflow)
  {
    PartReturns(data, 0, |data| + 1);
    StackIrrelevant(data, 0, |data| + 1, stack);
  }

  // ---------------------------------------------------------------- nulls inside a reply

  // *9 CR LF *9 CR LF _ CR LF
  const NESTED_NULL: bytes := [STAR, NINE, CR, LF, STAR, NINE, CR, LF, UNDERSCORE, CR, LF]

  /** A null on its own is fine... */
  lemma TopLevelNull(post: bytes, stack: nat)
    requires stack >= 1
    ensures Decode([UNDERSCORE] + post, stack) == Err(ErrNoValue)
  {
  }

  lemma NestedCounts()
    ensures PartLen(NESTED_NULL, 1) == 9 && PartLenEnd(NESTED_NULL, 1) == 3
    ensures PartLen(NESTED_NULL, 5) == 9 && PartLenEnd(NESTED_NULL, 5) == 7
  {
    assert [NINE][..0] == [];
    assert ReadDigits([NINE]) == Number(9);
    assert [] + [NINE] == [NINE];
    assert Scan(NESTED_NULL, 1, []) == Scan(NESTED_NULL, 2, [NINE]);
    assert Scan(NESTED_NULL, 5, []) == Scan(NESTED_NULL, 6, [NINE]);
  }

  /** ...but a null inside an array sends the parser back to position 0, and here it enters
      the same inner array again and again until the stack is used up. */
  lemma {:induction false} InnerArrayNeverEnds(stack: nat)
    ensures Overflowed(ParsePart(NESTED_NULL, 4, stack))
  {
    if stack > 0 {
      var d, s := NESTED_NULL, stack - 1;
      NestedCounts();
      InnerArrayNeverEnds(s);
      assert ParsePart(d, 4, stack) == ParseItems(d, 7, 9, s, [], None, [4]);
      if s > 0 {
        assert ParsePart(d, 8, s) == Parsed(0, Nil, Some(ErrNoValue), [8]);
        var item := Resume(ParsePart(d, 8, s), None, [4]);
        ParseJunk(d, 0, 8, s, [] + [item.value], item.err, item.starts);
      }
    }
  }

  /** The bytes 1, 2 and 3 are no reply, and byte 4 starts the inner array. */
  lemma ParseJunk(d: bytes, idx: nat, n: int, s: nat, items: seq<Value>, err: Option<Error>, starts: seq<nat>)
    requires d == NESTED_NULL && s >= 1 && idx <= 3 && n > 3 - idx
    requires Overflowed(ParsePart(d, 4, s))
    ensures Overflowed(ParseItems(d, idx, n, s, items, err, starts))
    decreases 3 - idx
  {
    if idx < 3 {
      assert ParsePart(d, idx + 1, s) == Parsed(idx + 1, Nil, Some(ErrUnsupportedDataType), [idx + 1]);
      var item := Resume(ParsePart(d, idx + 1, s), err, starts);
      ParseJunk(d, idx + 1, n - 1, s, items + [item.value], item.err, item.starts);
    }
  }

  lemma NestedNullNeverDecodes(stack: nat)
    ensures Decode(NESTED_NULL, stack) == Crash(StackOverflow)
  {
    if stack > 0 {
      NestedCounts();
      InnerArrayNeverEnds(stack - 1);
      assert ParsePart(NESTED_NULL, 0, stack) == ParseItems(NESTED_NULL, 3, 9, stack - 1, [], None, [0]);
    }
  }
}
