/** RESP3 nulls inside of arrays. The parser goes on from position 0 behind such a null, so what
    becomes of the reply depends on how much of it is still expected. */
module NestedNulls {
  import opened Bytes
  import opened Resp
  import opened Parsing
  import opened RoundTrip
  import opened Progress

  const NULL: bytes := [UNDERSCORE] + CRLF

  lemma ParseNull(data: bytes, i: nat, stack: nat)
    requires At(data, i, NULL)
    ensures stack >= 1 ==> ParsePart(data, i, stack) == Parsed(0, Nil, Some(ErrNoValue), [i])
    ensures i < |data|
  {
    AtIndex(data, i, NULL, 0);
  }

  lemma TreeOrOverflow(data: bytes, i: nat, t: Tree, stack: nat)
    requires WellFormed(t) && At(data, i, Print(t))
    ensures Overflowed(ParsePart(data, i, stack)) || IsTreeAt(ParsePart(data, i, stack), i, t)
    ensures stack >= Depth(t) ==> !Overflowed(ParsePart(data, i, stack))
  {
    var enough := Max(stack, Depth(t));
    ParseTree(data, i, t, enough);
    StackIrrelevant(data, i, stack, enough);
  }

  /** The trees in front of a null are parsed, whatever follows them. */
  lemma {:induction false} SkipTrees(data: bytes, i: nat, ts: seq<Tree>, n: nat, stack: nat,
                                     items: seq<Value>, err: Option<Error>, starts: seq<nat>)
    returns (items': seq<Value>, err': Option<Error>, starts': seq<nat>)
    requires AllWellFormed(ts) && At(data, i + 1, PrintAll(ts))
    ensures var o := ParseItems(data, i, |ts| + n, stack, items, err, starts);
      || o == ParseItems(data, i + |PrintAll(ts)|, n, stack, items', err', starts')
      || (Overflowed(o) && stack < DepthAll(ts))
    ensures stack >= DepthAll(ts) ==> err' == ErrorIf(AnyNull(ts), err)
    decreases ts
  {
    items', err', starts' := items, err, starts;
    if ts != [] {
      AtSplit(data, i + 1, Print(ts[0]), PrintAll(ts[1..]));
      TreeOrOverflow(data, i + 1, ts[0], stack);
      var item := Resume(ParsePart(data, i + 1, stack), err, starts);
      if item.Parsed? {
        items', err', starts' := SkipTrees(data, item.end, ts[1..], n, stack,
                                           items + [item.value], item.err, item.starts);
      }
    }
  }

  /** An array whose first elements are `ts` is parsed up to the others. */
  lemma ArrayUpTo(data: bytes, i: nat, ts: seq<Tree>, n: nat, rest: bytes, stack: nat)
    returns (j: nat, items: seq<Value>, err: Option<Error>, starts: seq<nat>)
    requires At(data, i, Header(STAR, |ts| + n) + (PrintAll(ts) + rest))
    requires |ts| + n <= MAX_ANYS && AllWellFormed(ts) && stack >= 1
    ensures i < |data| && At(data, j + 1, rest)
    ensures var o := ParsePart(data, i, stack);
      || o == ParseItems(data, j, n, stack - 1, items, err, starts)
      || (Overflowed(o) && stack - 1 < DepthAll(ts))
  {
    ContainerAt(data, i, STAR, |ts| + n, PrintAll(ts) + rest);
    PossibleCount(data, i, |ts| + n, stack - 1);
    var end := PartLenEnd(data, i + 1);
    AtSplit(data, end + 1, PrintAll(ts), rest);
    j := end + |PrintAll(ts)|;
    items, err, starts := SkipTrees(data, end, ts, n, stack - 1, [], None, [i]);
  }

  /** The last element of an array decides what becomes of the array. */
  lemma LastItem(data: bytes, i: nat, stack: nat, items: seq<Value>, err: Option<Error>, starts: seq<nat>)
    requires i + 1 < |data|
    ensures var o, p := ParseItems(data, i, 1, stack, items, err, starts), ParsePart(data, i + 1, stack);
      if p.Parsed? then o.Parsed? && o.end == p.end && o.err == p.err.Or(err)
      else o.Panicked? && o.why == p.why
  {
  }

  // ---------------------------------------------------------------- at the end

  /** Arrays one inside of the other, each the last element of the one around it, with a null as
      the last element of the innermost. `levels` are the elements in front. */
  function NullAtEnd(levels: seq<seq<Tree>>): bytes {
    if levels == [] then NULL
    else Header(STAR, |levels[0]| + 1) + (PrintAll(levels[0]) + NullAtEnd(levels[1..]))
  }

  ghost predicate LevelsWellFormed(levels: seq<seq<Tree>>) {
    forall k :: 0 <= k < |levels| ==> |levels[k]| < MAX_ANYS && AllWellFormed(levels[k])
  }

  ghost function LevelsDepth(levels: seq<seq<Tree>>): nat {
    if levels == [] then 1 else 1 + Max(DepthAll(levels[0]), LevelsDepth(levels[1..]))
  }

  lemma {:induction false} ParseNullAtEnd(data: bytes, i: nat, levels: seq<seq<Tree>>, stack: nat)
    requires LevelsWellFormed(levels) && At(data, i, NullAtEnd(levels)) && stack >= LevelsDepth(levels)
    ensures var o := ParsePart(data, i, stack); o.Parsed? && o.end == 0 && o.err == Some(ErrNoValue)
    ensures i < |data|
    decreases levels
  {
    if levels == [] {
      ParseNull(data, i, stack);
    } else {
      var rest := NullAtEnd(levels[1..]);
      var j, items, err, starts := ArrayUpTo(data, i, levels[0], 1, rest, stack);
      ParseNullAtEnd(data, j + 1, levels[1..], stack - 1);
      LastItem(data, j, stack - 1, items, err, starts);
    }
  }

  /** A null that is the last thing in a reply is reported as one, at any depth. */
  lemma NullAtEndIsNoValue(levels: seq<seq<Tree>>, post: bytes, stack: nat)
    requires LevelsWellFormed(levels) && stack >= LevelsDepth(levels)
    ensures Decode(NullAtEnd(levels) + post, stack) == Err(ErrNoValue)
  {
    ParseNullAtEnd(NullAtEnd(levels) + post, 0, levels, stack);
  }

  // ---------------------------------------------------------------- in the middle

  /** An array that holds nothing but an array with a null between `ts` and `us`. */
  function NullInside(ts: seq<Tree>, us: seq<Tree>): bytes {
    Header(STAR, 1) + InnerArray(ts, us)
  }

  function InnerArray(ts: seq<Tree>, us: seq<Tree>): bytes {
    Header(STAR, |ts| + (1 + |us|)) + (PrintAll(ts) + (NULL + PrintAll(us)))
  }

  /** `data` begins with such a reply. */
  ghost predicate Begins(data: bytes, ts: seq<Tree>, us: seq<Tree>) {
    At(data, 0, NullInside(ts, us)) && |ts| + |us| < MAX_ANYS && AllWellFormed(ts)
  }

  lemma OuterHeader(data: bytes, ts: seq<Tree>, us: seq<Tree>)
    requires Begins(data, ts, us)
    ensures |data| > 4 && data[..4] == [STAR, ONE, CR, LF]
    ensures PartLen(data, 1) == 1 && PartLenEnd(data, 1) == 3 && At(data, 4, InnerArray(ts, us))
    ensures AllJunk(data, 0, 3)
  {
    assert Itoa(1) == [ONE] && Header(STAR, 1) == [STAR, ONE, CR, LF];
    ContainerAt(data, 0, STAR, 1, InnerArray(ts, us));
    AtSplit(data, 0, Header(STAR, 1), InnerArray(ts, us));
    HeaderIsJunk(data, 1);
    AtIndex(data, 0, Header(STAR, 1), 0);
    AtIndex(data, 0, Header(STAR, 1), 1);
    AtIndex(data, 0, Header(STAR, 1), 2);
    AtIndex(data, 0, Header(STAR, 1), 3);
  }

  /** Behind the null the parser is at position 0, with `us` still to come. */
  lemma InnerGoesBack(data: bytes, ts: seq<Tree>, us: seq<Tree>, stack: nat)
    returns (items: seq<Value>, starts: seq<nat>)
    requires Begins(data, ts, us)
    ensures var o := ParsePart(data, 4, stack);
      || (Overflowed(o) && stack <= 1 + DepthAll(ts))
      || (stack >= 2 && o == ParseItems(data, 0, |us|, stack - 1, items, Some(ErrNoValue), starts))
  {
    items, starts := [], [];
    OuterHeader(data, ts, us);
    if stack > 0 {
      var j, items', err, starts' := ArrayUpTo(data, 4, ts, 1 + |us|, NULL + PrintAll(us), stack);
      AtSplit(data, j + 1, NULL, PrintAll(us));
      NullStep(data, j, |us|, stack - 1, items', err, starts');
      items, starts := items' + [Nil], starts' + [j + 1];
    }
  }

  lemma NullStep(data: bytes, i: nat, n: nat, stack: nat, items: seq<Value>, err: Option<Error>, starts: seq<nat>)
    requires At(data, i + 1, NULL)
    ensures var o := ParseItems(data, i, 1 + n, stack, items, err, starts);
      if stack == 0 then Overflowed(o)
      else o == ParseItems(data, 0, n, stack, items + [Nil], Some(ErrNoValue), starts + [i + 1])
  {
    ParseNull(data, i + 1, stack);
  }

  /** The error that is stored after `n` such bytes. */
  function Misread(n: nat, err: Option<Error>): Option<Error> {
    if n == 0 then err else Some(ErrUnsupportedDataType)
  }

  /** No reply begins with such a byte. */
  predicate IsJunk(b: byte) {
    b != PLUS && b != DOLLAR && b != COLON && b != UNDERSCORE && b != MINUS && b != STAR && b != PERCENT
  }

  ghost predicate AllJunk(data: bytes, idx: nat, n: nat) {
    idx + n < |data| && forall j :: idx < j <= idx + n ==> IsJunk(data[j])
  }

  /** Each byte that begins no reply is an element of its own. */
  lemma {:induction false} ParseJunkBytes(data: bytes, idx: nat, n: nat, more: nat, stack: nat,
                                          items: seq<Value>, err: Option<Error>, starts: seq<nat>)
    returns (items': seq<Value>, starts': seq<nat>)
    requires AllJunk(data, idx, n) && stack >= 1
    ensures ParseItems(data, idx, n + more, stack, items, err, starts)
         == ParseItems(data, idx + n, more, stack, items', Misread(n, err), starts')
    decreases n
  {
    items', starts' := items, starts;
    if n > 0 {
      assert IsJunk(data[idx + 1]);
      var item := Resume(ParsePart(data, idx + 1, stack), err, starts);
      items', starts' := ParseJunkBytes(data, idx + 1, n - 1, more, stack,
                                        items + [item.value], item.err, item.starts);
    }
  }

  /** The bytes of a header behind its first one. */
  lemma HeaderIsJunk(data: bytes, n: nat)
    requires At(data, 0, Header(STAR, n))
    ensures AllJunk(data, 0, |Header(STAR, n)| - 1)
  {
    var h := Header(STAR, n);
    forall j | 0 < j < |h|
      ensures IsJunk(data[j])
    {
      AtIndex(data, 0, h, j);
      assert h[j] == (Itoa(n) + CRLF)[j - 1];
      assert j - 1 < |Itoa(n)| ==> IsDigit(Itoa(n)[j - 1]);
    }
  }

  lemma {:induction false} InnerNeverEnds(data: bytes, ts: seq<Tree>, us: seq<Tree>, stack: nat)
    requires Begins(data, ts, us) && |us| >= 4
    ensures Overflowed(ParsePart(data, 4, stack))
  {
    var items, starts := InnerGoesBack(data, ts, us, stack);
    if stack >= 2 {
      InnerNeverEnds(data, ts, us, stack - 1);
      OuterHeader(data, ts, us);
      var items', starts' := ParseJunkBytes(data, 0, 3, |us| - 3, stack - 1, items, Some(ErrNoValue), starts);
    }
  }

  lemma InnerIsMisread(data: bytes, ts: seq<Tree>, us: seq<Tree>, stack: nat)
    requires Begins(data, ts, us) && |us| <= 3 && stack > 1 + DepthAll(ts)
    ensures var o := ParsePart(data, 4, stack); o.Parsed? && o.err == Misread(|us|, Some(ErrNoValue))
  {
    var items, starts := InnerGoesBack(data, ts, us, stack);
    OuterHeader(data, ts, us);
    var items', starts' := ParseJunkBytes(data, 0, |us|, 0, stack - 1, items, Some(ErrNoValue), starts);
  }

  lemma OuterIsInner(data: bytes, ts: seq<Tree>, us: seq<Tree>, stack: nat)
    requires Begins(data, ts, us) && stack >= 1
    ensures var o, p := ParsePart(data, 0, stack), ParsePart(data, 4, stack - 1);
      if p.Parsed? then o.Parsed? && o.err == p.err.Or(None) else o.Panicked? && o.why == p.why
  {
    OuterHeader(data, ts, us);
    PossibleCount(data, 0, 1, stack - 1);
    assert data[0] == data[..4][0];
    LastItem(data, 3, stack - 1, [], None, [0]);
  }

  lemma ParseBeginning(data: bytes, ts: seq<Tree>, us: seq<Tree>, stack: nat)
    requires Begins(data, ts, us) && stack > 2 + DepthAll(ts)
    ensures Decode(data, stack)
         == if us == [] then Err(ErrNoValue)
            else if |us| <= 3 then Err(ErrUnsupportedDataType)
            else Crash(StackOverflow)
  {
    OuterIsInner(data, ts, us, stack);
    if |us| >= 4 {
      InnerNeverEnds(data, ts, us, stack - 1);
    } else {
      InnerIsMisread(data, ts, us, stack - 1);
    }
  }

  /** What becomes of every such reply: a null at the end is reported as one, with up to three
      elements behind it the reply is misread, and with more of them the parser recurses
      without end, whatever the size of the stack. */
  lemma NullInsideArray(ts: seq<Tree>, us: seq<Tree>, post: bytes, stack: nat)
    requires |ts| + |us| < MAX_ANYS && AllWellFormed(ts) && stack > 2 + DepthAll(ts)
    ensures Decode(NullInside(ts, us) + post, stack)
         == if us == [] then Err(ErrNoValue)
            else if |us| <= 3 then Err(ErrUnsupportedDataType)
            else Crash(StackOverflow)
  {
    ParseBeginning(NullInside(ts, us) + post, ts, us, stack);
  }

  // ---------------------------------------------------------------- in a flat array

  /** The error that is stored when `m` elements are still to come behind a null, in an array with
      the elements `ts` in front of the null and a header of `h` bytes: the parser reads the
      header, `ts` and the null again, round by round, and the last thing it reads decides. */
  function RereadError(ts: seq<Tree>, h: nat, m: nat): Error
    requires h >= 1
  {
    if m >= h + |ts| then RereadError(ts, h, m - (h + |ts|))
    else if m == 0 then ErrNoValue
    else if m < h then ErrUnsupportedDataType
    else if AnyNull(ts[..m - (h - 1)]) then ErrNoValue
    else ErrUnsupportedDataType
  }

  lemma {:induction false} FirstTrees(ts: seq<Tree>, n: nat)
    requires AllWellFormed(ts) && n <= |ts|
    ensures AllWellFormed(ts[..n]) && DepthAll(ts[..n]) <= DepthAll(ts)
    decreases ts
  {
    if n > 0 {
      assert ts[..n][1..] == ts[1..][..n - 1];
      FirstTrees(ts[1..], n - 1);
    }
  }

  /** Where the array stands, and what its parts are. */
  ghost predicate IsFlat(data: bytes, ts: seq<Tree>, h: nat, n: nat) {
    && h == |Header(STAR, n)| && At(data, 0, Header(STAR, n)) && AllWellFormed(ts)
    && At(data, h, PrintAll(ts)) && At(data, h + |PrintAll(ts)|, NULL)
  }

  /** From position 0 on, with `m` elements to come. */
  lemma {:induction false} Reread(data: bytes, ts: seq<Tree>, h: nat, n: nat, m: nat, stack: nat,
                                  items: seq<Value>, starts: seq<nat>)
    requires IsFlat(data, ts, h, n) && stack >= 1 && stack >= DepthAll(ts)
    ensures var o := ParseItems(data, 0, m, stack, items, Some(ErrNoValue), starts);
      o.Parsed? && o.err == Some(RereadError(ts, h, m))
    decreases m
  {
    HeaderIsJunk(data, n);
    if m < h {
      var items', starts' := ParseJunkBytes(data, 0, m, 0, stack, items, Some(ErrNoValue), starts);
    } else {
      var rest := m - (h - 1);
      var items1, starts1 := ParseJunkBytes(data, 0, h - 1, rest, stack, items, Some(ErrNoValue), starts);
      var misread := Some(ErrUnsupportedDataType);
      if rest <= |ts| {
        RereadSome(data, h, ts, rest, stack, items1, misread, starts1);
      } else {
        var items2, starts2 := RereadAll(data, ts, h, n, rest - |ts| - 1, stack, items1, misread, starts1);
        Reread(data, ts, h, n, rest - |ts| - 1, stack, items2, starts2);
      }
    }
  }

  /** The elements and the null are read again. */
  lemma RereadAll(data: bytes, ts: seq<Tree>, h: nat, n: nat, m: nat, stack: nat,
                  items: seq<Value>, err: Option<Error>, starts: seq<nat>)
    returns (items': seq<Value>, starts': seq<nat>)
    requires IsFlat(data, ts, h, n) && stack >= 1 && stack >= DepthAll(ts)
    ensures ParseItems(data, h - 1, |ts| + (1 + m), stack, items, err, starts)
         == ParseItems(data, 0, m, stack, items', Some(ErrNoValue), starts')
  {
    var items2, err2, starts2 := SkipTrees(data, h - 1, ts, 1 + m, stack, items, err, starts);
    var j := h - 1 + |PrintAll(ts)|;
    NullStep(data, j, m, stack, items2, err2, starts2);
    items', starts' := items2 + [Nil], starts2 + [j + 1];
  }

  /** The array ends among the elements that are read again. */
  lemma RereadSome(data: bytes, h: nat, ts: seq<Tree>, n: nat, stack: nat,
                   items: seq<Value>, err: Option<Error>, starts: seq<nat>)
    requires h >= 1 && At(data, h, PrintAll(ts)) && AllWellFormed(ts) && n <= |ts| && stack >= DepthAll(ts)
    ensures var o := ParseItems(data, h - 1, n, stack, items, err, starts);
      o.Parsed? && o.err == ErrorIf(AnyNull(ts[..n]), err)
  {
    assert ts == ts[..n] + ts[n..];
    PrintAllAppend(ts[..n], ts[n..]);
    AtSplit(data, h, PrintAll(ts[..n]), PrintAll(ts[n..]));
    FirstTrees(ts, n);
    var items', err', starts' := SkipTrees(data, h - 1, ts[..n], 0, stack, items, err, starts);
  }

  /** A flat array with a null in it always ends, and always in an error; which one depends on
      the number of elements behind the null alone, and on the nulls in front of it. */
  lemma NullInFlatArray(ts: seq<Tree>, us: seq<Tree>, post: bytes, stack: nat)
    requires |ts| + |us| < MAX_ANYS && AllWellFormed(ts) && stack >= 2 && stack > DepthAll(ts)
    ensures var h := |Header(STAR, |ts| + (1 + |us|))|;
      Decode(InnerArray(ts, us) + post, stack) == Err(RereadError(ts, h, |us|))
  {
    ParseFlat(InnerArray(ts, us) + post, ts, us, stack);
  }

  lemma FlatParts(data: bytes, ts: seq<Tree>, us: seq<Tree>)
    requires At(data, 0, InnerArray(ts, us)) && AllWellFormed(ts)
    ensures var n := |ts| + (1 + |us|); IsFlat(data, ts, |Header(STAR, n)|, n)
  {
    var n := |ts| + (1 + |us|);
    var h := |Header(STAR, n)|;
    AtSplit(data, 0, Header(STAR, n), PrintAll(ts) + (NULL + PrintAll(us)));
    AtSplit(data, h, PrintAll(ts), NULL + PrintAll(us));
    AtSplit(data, h + |PrintAll(ts)|, NULL, PrintAll(us));
  }

  lemma ParseFlat(data: bytes, ts: seq<Tree>, us: seq<Tree>, stack: nat)
    requires At(data, 0, InnerArray(ts, us)) && |ts| + |us| < MAX_ANYS && AllWellFormed(ts)
    requires stack >= 2 && stack > DepthAll(ts)
    ensures var h := |Header(STAR, |ts| + (1 + |us|))|;
      Decode(data, stack) == Err(RereadError(ts, h, |us|))
  {
    var n := |ts| + (1 + |us|);
    var h := |Header(STAR, n)|;
    var j, items, err, starts := ArrayUpTo(data, 0, ts, 1 + |us|, NULL + PrintAll(us), stack);
    AtSplit(data, j + 1, NULL, PrintAll(us));
    NullStep(data, j, |us|, stack - 1, items, err, starts);
    FlatParts(data, ts, us);
    Reread(data, ts, h, n, |us|, stack - 1, items + [Nil], starts + [j + 1]);
  }
}
