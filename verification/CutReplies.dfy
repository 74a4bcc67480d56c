/** What the decoder makes of a reply that is cut off, as it is when a reply does not fit into the
    receive buffer after one step of growth: nothing in the code tells such a reply from a whole
    one. */
module CutReplies {
  import opened Bytes
  import opened Resp
  import opened Parsing
  import opened RoundTrip

  // ---------------------------------------------------------------- the first k bytes of a tree

  function Taken(s: bytes, n: nat): bytes {
    if n <= |s| then s[..n] else s
  }

  /** Reading the first `k` bytes of the tree makes the decoder panic: there is nothing to read, or
      a map in it is cut inside of a key or right behind one. */
  predicate Panics(t: Tree, k: nat)
    decreases t
  {
    match t
    case Array(items) => k == 0 || (k >= |Header(STAR, |items|)| && PanicsIn(items, k - |Header(STAR, |items|)|))
    case Map(pairs) =>
      k == 0 || (k >= |Header(PERCENT, |pairs|)| && PanicsInPairs(pairs, k - |Header(PERCENT, |pairs|)|))
    case _ => k == 0
  }

  predicate PanicsIn(ts: seq<Tree>, k: nat)
    decreases ts
  {
    ts != [] && k > 0
    && if k < |Print(ts[0])| then Panics(ts[0], k) else PanicsIn(ts[1..], k - |Print(ts[0])|)
  }

  predicate PanicsInPairs(ps: seq<Pair>, k: nat)
    decreases ps
  {
    ps != [] && k > 0
    && if k < |PrintPair(ps[0])| then PanicsInPair(ps[0], k) else PanicsInPairs(ps[1..], k - |PrintPair(ps[0])|)
  }

  predicate PanicsInPair(p: Pair, k: nat)
    decreases p
  {
    k <= |Print(p.key)| || Panics(p.value, k - |Print(p.key)|)
  }

  /** The value that is decoded from the first `k` bytes otherwise. */
  function CutValue(t: Tree, k: nat): Value
    decreases t
  {
    match t
    case Simple(_) => Nil
    case Integer(line) => Text(if k > 0 then Taken(line, k - 1) else [])
    case Bulk(payload) =>
      var h := |Header(DOLLAR, |payload|)|;
      if k <= 1 then Nil else if k < h then Text([]) else Text(Taken(payload, k - h))
    case NullBulk => if k <= 1 then Nil else Text([])
    case Array(items) =>
      var h := |Header(STAR, |items|)|;
      if k <= 1 then Nil else if k < h then List([]) else List(CutValues(items, k - h))
    case Map(pairs) =>
      var h := |Header(PERCENT, |pairs|)|;
      if k <= 1 then Nil else if k < h then Dict(map[]) else Dict(CutEntries(pairs, k - h))
  }

  function CutValues(ts: seq<Tree>, k: nat): seq<Value>
    decreases ts
  {
    if ts == [] || k == 0 then []
    else if k < |Print(ts[0])| then [CutValue(ts[0], k)]
    else [ValueOf(ts[0])] + CutValues(ts[1..], k - |Print(ts[0])|)
  }

  function CutEntries(ps: seq<Pair>, k: nat): map<bytes, bytes>
    decreases ps
  {
    if ps == [] || k == 0 then map[]
    else if k < |PrintPair(ps[0])| then map[KeyText(ps[0].key) := CutEntry(ps[0], k)]
    else map[KeyText(ps[0].key) := EntryValue(ps[0])] + CutEntries(ps[1..], k - |PrintPair(ps[0])|)
  }

  function CutEntry(p: Pair, k: nat): bytes
    decreases p
  {
    if k <= |Print(p.key)| then [] else Flatten(CutValue(p.value, k - |Print(p.key)|))
  }

  /** A whole null bulk string stands in the first `k` bytes. */
  predicate CutHasNull(t: Tree, k: nat)
    decreases t
  {
    match t
    case Array(items) => k >= |Header(STAR, |items|)| && CutHasNullIn(items, k - |Header(STAR, |items|)|)
    case Map(pairs) => k >= |Header(PERCENT, |pairs|)| && CutHasNullInPairs(pairs, k - |Header(PERCENT, |pairs|)|)
    case _ => false
  }

  predicate CutHasNullIn(ts: seq<Tree>, k: nat)
    decreases ts
  {
    ts != [] && k > 0
    && if k < |Print(ts[0])| then CutHasNull(ts[0], k)
       else HasNull(ts[0]) || CutHasNullIn(ts[1..], k - |Print(ts[0])|)
  }

  predicate CutHasNullInPairs(ps: seq<Pair>, k: nat)
    decreases ps
  {
    ps != [] && k > 0
    && if k < |PrintPair(ps[0])| then CutHasNullInPair(ps[0], k)
       else PairHasNull(ps[0]) || CutHasNullInPairs(ps[1..], k - |PrintPair(ps[0])|)
  }

  predicate CutHasNullInPair(p: Pair, k: nat)
    decreases p
  {
    k > |Print(p.key)| && CutHasNull(p.value, k - |Print(p.key)|)
  }

  // ---------------------------------------------------------------- scanning up to the cut

  /** `s` stands in `data` from position `i` on, but the data ends before it does. */
  ghost predicate CutAt(data: bytes, i: nat, s: bytes) {
    && i <= |data| < i + |s|
    && forall k :: 0 <= k < |s| && i + k < |data| ==> data[i + k] == s[k]
  }

  /** A cut is in the first part or in the second one. */
  lemma CutSplit(data: bytes, i: nat, a: bytes, b: bytes)
    requires CutAt(data, i, a + b)
    ensures if |data| < i + |a| then CutAt(data, i, a) else At(data, i, a) && CutAt(data, i + |a|, b)
  {
    assert forall k :: 0 <= k < |a| ==> (a + b)[k] == a[k];
    if |data| >= i + |a| {
      forall k | 0 <= k < |b| && i + |a| + k < |data|
        ensures data[i + |a| + k] == b[k]
      {
        assert (a + b)[|a| + k] == b[k];
      }
    }
  }

  lemma TakenMore(s: bytes, n: nat, text: bytes)
    requires s != [] && n > 0
    ensures text + [s[0]] + Taken(s[1..], n - 1) == text + Taken(s, n)
  {
    if n <= |s| {
      assert s[..n] == [s[0]] + s[1..][..n - 1];
    }
  }

  lemma {:induction false} ScanCut(data: bytes, i: nat, line: bytes, text: bytes)
    requires CrFree(line) && CutAt(data, i, line + CRLF)
    ensures Scan(data, i, text) == Scanned(|data|, text + Taken(line, |data| - i), false)
    decreases |line|
  {
    if i == |data| {
      assert text + Taken(line, 0) == text;
    } else if line == [] {
      assert data[i] == (line + CRLF)[0] == CR;
      assert text + Taken(line, |data| - i) == text;
    } else {
      CutTail(data, i, line);
      assert line[0] in line;
      ScanCut(data, i + 1, line[1..], text + [line[0]]);
      TakenMore(line, |data| - i, text);
    }
  }

  lemma CutTail(data: bytes, i: nat, line: bytes)
    requires line != [] && i < |data| && CutAt(data, i, line + CRLF)
    ensures data[i] == line[0] && CutAt(data, i + 1, line[1..] + CRLF)
  {
    assert data[i] == (line + CRLF)[0];
    assert line + CRLF == [line[0]] + (line[1..] + CRLF);
    CutSplit(data, i, [line[0]], line[1..] + CRLF);
  }

  /** A line behind the byte that tells its kind. */
  lemma LineCut(data: bytes, i: nat, kind: byte, line: bytes)
    requires CrFree(line) && CutAt(data, i, [kind] + (line + CRLF)) && i < |data|
    ensures data[i] == kind
    ensures Scan(data, i + 1, []) == Scanned(|data|, Taken(line, |data| - i - 1), false)
  {
    assert data[i] == ([kind] + (line + CRLF))[0];
    CutSplit(data, i, [kind], line + CRLF);
    ScanCut(data, i + 1, line, []);
    assert [] + Taken(line, |data| - i - 1) == Taken(line, |data| - i - 1);
  }

  /** A length or count that is cut off is read as 0. */
  lemma HeaderCut(data: bytes, i: nat, kind: byte, n: nat)
    requires CutAt(data, i, Header(kind, n)) && i < |data|
    ensures data[i] == kind && PartLen(data, i + 1) == 0 && PartLenEnd(data, i + 1) == |data|
  {
    DigitsAreCrFree(Itoa(n));
    LineCut(data, i, kind, Itoa(n));
  }

  /** A frame with a length or count in front is cut in its header or behind it. */
  lemma FrameCut(data: bytes, i: nat, kind: byte, n: nat, body: bytes)
    requires CutAt(data, i, Header(kind, n) + body) && n <= MAX_INT64 && i < |data|
    ensures data[i] == kind
    ensures var h := |Header(kind, n)|;
      if |data| < i + h then PartLen(data, i + 1) == 0 && PartLenEnd(data, i + 1) == |data|
      else PartLen(data, i + 1) == n && PartLenEnd(data, i + 1) == i + h - 1 && CutAt(data, i + h, body)
    ensures |data| >= i + |Header(kind, n)| ==> i + 1 < |data|
  {
    CutSplit(data, i, Header(kind, n), body);
    if |data| < i + |Header(kind, n)| {
      HeaderCut(data, i, kind, n);
    } else {
      HeaderAt(data, i, kind, n);
    }
  }

  // ---------------------------------------------------------------- parsing up to the cut

  ghost predicate IsCut(o: Outcome, bound: nat, panics: bool, value: Value, err: Option<Error>) {
    if panics then o.Panicked? && o.why == IndexOutOfRange
    else o.Parsed? && o.end >= bound && o.value == value && o.err == err
  }

  ghost predicate IsCutTree(o: Outcome, bound: nat, t: Tree, k: nat) {
    IsCut(o, bound, Panics(t, k), CutValue(t, k), ErrorIf(CutHasNull(t, k), None))
  }

  lemma CutScalar(data: bytes, i: nat, t: Tree, stack: nat)
    requires IsByteString(t) || t.NullBulk?
    requires WellFormed(t) && CutAt(data, i, Print(t)) && stack >= 1
    ensures IsCutTree(ParsePart(data, i, stack), |data|, t, |data| - i)
  {
    if i < |data| {
      match t
      case Simple(line) => LineCut(data, i, PLUS, line);
      case Integer(line) => LineCut(data, i, COLON, line);
      case Bulk(payload) => CutBulk(data, i, payload);
      case NullBulk => LineCut(data, i, DOLLAR, [MINUS, ONE]);
    }
  }

  lemma CutBulk(data: bytes, i: nat, payload: bytes)
    requires WellFormed(Bulk(payload)) && CutAt(data, i, PrintBulk(payload)) && i < |data|
    ensures data[i] == DOLLAR
    ensures IsCutTree(ParseBulkString(data, i), |data|, Bulk(payload), |data| - i)
  {
    var h := Header(DOLLAR, |payload|);
    CutSplit(data, i, h, payload + CRLF);
    if |data| < i + |h| {
      CutLength(data, i, |payload|);
    } else {
      CutPayload(data, i, payload);
    }
  }

  lemma CutPayload(data: bytes, i: nat, payload: bytes)
    requires WellFormed(Bulk(payload)) && At(data, i, Header(DOLLAR, |payload|))
    requires CutAt(data, i + |Header(DOLLAR, |payload|)|, payload + CRLF)
    ensures i < |data| && data[i] == DOLLAR
    ensures var n := |data| - i - |Header(DOLLAR, |payload|)|;
      IsCut(ParseBulkString(data, i), |data|, false, Text(Taken(payload, n)), None)
  {
    var h := |Header(DOLLAR, |payload|)|;
    HeaderAt(data, i, DOLLAR, |payload|);
    PossibleLength(data, i, i + h);
    ScanCut(data, i + h, payload, []);
    assert [] + Taken(payload, |data| - i - h) == Taken(payload, |data| - i - h);
  }

  /** A bulk string without a readable length has no text. */
  lemma CutLength(data: bytes, i: nat, n: nat)
    requires CutAt(data, i, Header(DOLLAR, n)) && i < |data|
    ensures data[i] == DOLLAR
    ensures var o := ParseBulkString(data, i);
      IsCut(o, |data|, false, if |data| == i + 1 then Nil else Text([]), None)
  {
    HeaderCut(data, i, DOLLAR, n);
    if i + 1 < |data| {
      PossibleLength(data, i, |data| + 1);
    }
  }

  lemma {:induction false} CutTree(data: bytes, i: nat, t: Tree, stack: nat)
    requires WellFormed(t) && CutAt(data, i, Print(t)) && stack >= Depth(t)
    ensures IsCutTree(ParsePart(data, i, stack), |data|, t, |data| - i)
    decreases t, 1
  {
    match t
    case Array(items) => CutArray(data, i, items, t, stack);
    case Map(pairs) => CutMap(data, i, pairs, t, stack);
    case _ => CutScalar(data, i, t, stack);
  }

  /** A container without a readable count has nothing in it. */
  lemma CutHeader(data: bytes, i: nat, kind: byte, n: nat, stack: nat)
    requires CutAt(data, i, Header(kind, n)) && i < |data| && stack >= 1 && (kind == STAR || kind == PERCENT)
    ensures var none := if kind == STAR then List([]) else Dict(map[]);
      ParsePart(data, i, stack) == Parsed(|data|, if |data| == i + 1 then Nil else none, None, [i])
  {
    HeaderCut(data, i, kind, n);
    if i + 1 < |data| && kind == STAR {
      PossibleCount(data, i, 0, stack - 1);
    } else if i + 1 < |data| {
      assert ParsePart(data, i, stack) == ParsePairs(data, |data|, 0, stack - 1, map[], None, [i]);
    }
  }

  lemma {:induction false} CutArray(data: bytes, i: nat, items: seq<Tree>, t: Tree, stack: nat)
    requires t == Array(items)
    requires WellFormed(t) && CutAt(data, i, Print(t)) && stack >= Depth(t)
    ensures IsCutTree(ParsePart(data, i, stack), |data|, t, |data| - i)
    decreases t, 0
  {
    var h := |Header(STAR, |items|)|;
    CutSplit(data, i, Header(STAR, |items|), PrintAll(items));
    if i < |data| < i + h {
      CutHeader(data, i, STAR, |items|, stack);
    } else if |data| >= i + h {
      FrameCut(data, i, STAR, |items|, PrintAll(items));
      PossibleCount(data, i, |items|, stack - 1);
      CutItems(data, i + h - 1, items, stack - 1, [], None, [i]);
      assert [] + CutValues(items, |data| - i - h) == CutValues(items, |data| - i - h);
      assert ParsePart(data, i, stack) == ParseItems(data, i + h - 1, |items|, stack - 1, [], None, [i]);
    }
  }

  lemma {:induction false} CutMap(data: bytes, i: nat, pairs: seq<Pair>, t: Tree, stack: nat)
    requires t == Map(pairs)
    requires WellFormed(t) && CutAt(data, i, Print(t)) && stack >= Depth(t)
    ensures IsCutTree(ParsePart(data, i, stack), |data|, t, |data| - i)
    decreases t, 0
  {
    var h := |Header(PERCENT, |pairs|)|;
    CutSplit(data, i, Header(PERCENT, |pairs|), PrintPairs(pairs));
    if i < |data| < i + h {
      CutHeader(data, i, PERCENT, |pairs|, stack);
    } else if |data| >= i + h {
      FrameCut(data, i, PERCENT, |pairs|, PrintPairs(pairs));
      CutPairs(data, i + h - 1, pairs, stack - 1, map[], None, [i]);
      assert map[] + CutEntries(pairs, |data| - i - h) == CutEntries(pairs, |data| - i - h);
      assert ParsePart(data, i, stack) == ParsePairs(data, i + h - 1, |pairs|, stack - 1, map[], None, [i]);
    }
  }

  /** Behind the end of the data an array takes no more elements. */
  lemma NoMoreItems(data: bytes, idx: nat, n: nat, stack: nat,
                    items: seq<Value>, err: Option<Error>, starts: seq<nat>)
    requires idx >= |data|
    ensures IsCut(ParseItems(data, idx, n, stack, items, err, starts), |data|, false, List(items), err)
  {
  }

  lemma {:induction false} CutItems(data: bytes, i: nat, ts: seq<Tree>, stack: nat,
                                    items: seq<Value>, err: Option<Error>, starts: seq<nat>)
    requires AllWellFormed(ts) && CutAt(data, i + 1, PrintAll(ts)) && stack >= DepthAll(ts)
    ensures var k := |data| - i - 1;
      IsCut(ParseItems(data, i, |ts|, stack, items, err, starts), |data|,
            PanicsIn(ts, k), List(items + CutValues(ts, k)), ErrorIf(CutHasNullIn(ts, k), err))
    decreases ts
  {
    var k := |data| - i - 1;
    if k == 0 {
      assert items + CutValues(ts, k) == items;
    } else {
      CutSplit(data, i + 1, Print(ts[0]), PrintAll(ts[1..]));
      if k < |Print(ts[0])| {
        CutTree(data, i + 1, ts[0], stack);
        CutInItems(data, i, ts, stack, items, err, starts);
      } else {
        var items', err', starts' := FirstItem(data, i, ts, stack, items, err, starts);
        CutItems(data, i + |Print(ts[0])|, ts[1..], stack, items', err', starts');
        MoreValues(items, ts, k);
      }
    }
  }

  lemma MoreValues(items: seq<Value>, ts: seq<Tree>, k: nat)
    requires ts != [] && k >= |Print(ts[0])|
    ensures items + [ValueOf(ts[0])] + CutValues(ts[1..], k - |Print(ts[0])|) == items + CutValues(ts, k)
  {
  }

  lemma CutInItems(data: bytes, i: nat, ts: seq<Tree>, stack: nat,
                   items: seq<Value>, err: Option<Error>, starts: seq<nat>)
    requires ts != [] && i + 1 < |data| < i + 1 + |Print(ts[0])|
    requires IsCutTree(ParsePart(data, i + 1, stack), |data|, ts[0], |data| - i - 1)
    ensures var k := |data| - i - 1;
      IsCut(ParseItems(data, i, |ts|, stack, items, err, starts), |data|,
            PanicsIn(ts, k), List(items + CutValues(ts, k)), ErrorIf(CutHasNullIn(ts, k), err))
  {
    LastCutItem(data, i, |ts|, stack, items, err, starts);
    assert CutValues(ts, |data| - i - 1) == [CutValue(ts[0], |data| - i - 1)];
  }

  /** The first element is whole. */
  lemma FirstItem(data: bytes, i: nat, ts: seq<Tree>, stack: nat,
                  items: seq<Value>, err: Option<Error>, starts: seq<nat>)
    returns (items': seq<Value>, err': Option<Error>, starts': seq<nat>)
    requires ts != [] && WellFormed(ts[0]) && stack >= Depth(ts[0]) && i + 1 < |data|
    requires At(data, i + 1, Print(ts[0]))
    ensures items' == items + [ValueOf(ts[0])] && err' == ErrorIf(HasNull(ts[0]), err)
    ensures ParseItems(data, i, |ts|, stack, items, err, starts)
         == ParseItems(data, i + |Print(ts[0])|, |ts| - 1, stack, items', err', starts')
  {
    ParseTree(data, i + 1, ts[0], stack);
    items', err' := items + [ValueOf(ts[0])], ErrorIf(HasNull(ts[0]), err);
    starts' := WholeItem(data, i, ts[0], |ts|, stack, items, err, starts);
  }

  /** An element that is not cut is followed by the others. */
  lemma WholeItem(data: bytes, i: nat, t: Tree, n: nat, stack: nat,
                  items: seq<Value>, err: Option<Error>, starts: seq<nat>)
    returns (starts': seq<nat>)
    requires n >= 1 && i + 1 < |data| && IsTreeAt(ParsePart(data, i + 1, stack), i + 1, t)
    ensures ParseItems(data, i, n, stack, items, err, starts)
         == ParseItems(data, i + |Print(t)|, n - 1, stack, items + [ValueOf(t)], ErrorIf(HasNull(t), err), starts')
  {
    starts' := starts + ParsePart(data, i + 1, stack).starts;
  }

  /** The element that is cut is the last one. */
  lemma LastCutItem(data: bytes, i: nat, n: nat, stack: nat,
                    items: seq<Value>, err: Option<Error>, starts: seq<nat>)
    requires n >= 1 && i + 1 < |data|
    requires var o := ParsePart(data, i + 1, stack); o.Parsed? ==> o.end >= |data|
    ensures var o := ParsePart(data, i + 1, stack);
      var all := ParseItems(data, i, n, stack, items, err, starts);
      if o.Panicked? then all.Panicked? && all.why == o.why
      else IsCut(all, |data|, false, List(items + [o.value]), o.err.Or(err))
  {
    var item := Resume(ParsePart(data, i + 1, stack), err, starts);
    if item.Parsed? {
      NoMoreItems(data, item.end, n - 1, stack, items + [item.value], item.err, item.starts);
    }
  }

  lemma NoMorePairs(data: bytes, idx: nat, n: nat, stack: nat,
                    m: map<bytes, bytes>, err: Option<Error>, starts: seq<nat>)
    requires idx >= |data|
    ensures IsCut(ParsePairs(data, idx, n, stack, m, err, starts), |data|, false, Dict(m), err)
  {
  }

  lemma {:induction false} CutPairs(data: bytes, i: nat, ps: seq<Pair>, stack: nat,
                                    m: map<bytes, bytes>, err: Option<Error>, starts: seq<nat>)
    requires AllPairsWellFormed(ps) && CutAt(data, i + 1, PrintPairs(ps)) && stack >= DepthPairs(ps)
    ensures var k := |data| - i - 1;
      IsCut(ParsePairs(data, i, |ps|, stack, m, err, starts), |data|,
            PanicsInPairs(ps, k), Dict(m + CutEntries(ps, k)), ErrorIf(CutHasNullInPairs(ps, k), err))
    decreases ps
  {
    var k := |data| - i - 1;
    if k == 0 {
      assert m + CutEntries(ps, k) == m;
    } else {
      CutSplit(data, i + 1, PrintPair(ps[0]), PrintPairs(ps[1..]));
      if k < |PrintPair(ps[0])| {
        CutPair(data, i, ps[0], stack, err, starts);
        CutInPairs(data, i, ps, stack, m, err, starts);
      } else {
        var m', err', starts' := FirstPair(data, i, ps, stack, m, err, starts);
        CutPairs(data, i + |PrintPair(ps[0])|, ps[1..], stack, m', err', starts');
        MoreEntries(m, ps, k);
      }
    }
  }

  /** The first pair is whole. */
  lemma FirstPair(data: bytes, i: nat, ps: seq<Pair>, stack: nat,
                  m: map<bytes, bytes>, err: Option<Error>, starts: seq<nat>)
    returns (m': map<bytes, bytes>, err': Option<Error>, starts': seq<nat>)
    requires ps != [] && PairWellFormed(ps[0]) && stack >= PairDepth(ps[0]) && i + 1 < |data|
    requires At(data, i + 1, PrintPair(ps[0]))
    ensures m' == m[KeyText(ps[0].key) := EntryValue(ps[0])] && err' == ErrorIf(PairHasNull(ps[0]), err)
    ensures ParsePairs(data, i, |ps|, stack, m, err, starts)
         == ParsePairs(data, i + |PrintPair(ps[0])|, |ps| - 1, stack, m', err', starts')
  {
    ParsePair(data, i, ps[0], stack, err, starts);
    m', err' := m[KeyText(ps[0].key) := EntryValue(ps[0])], ErrorIf(PairHasNull(ps[0]), err);
    starts' := WholePair(data, i, ps[0], |ps|, stack, m, err, starts);
  }

  ghost predicate IsCutPair(o: PairOutcome, bound: nat, p: Pair, k: nat, err: Option<Error>) {
    if PanicsInPair(p, k) then o.PairPanicked? && o.why == IndexOutOfRange
    else o.PairParsed? && o.end >= bound && o.key == KeyText(p.key) && o.value == CutEntry(p, k)
         && o.err == ErrorIf(CutHasNullInPair(p, k), err)
  }

  lemma CutInPairs(data: bytes, i: nat, ps: seq<Pair>, stack: nat,
                   m: map<bytes, bytes>, err: Option<Error>, starts: seq<nat>)
    requires ps != [] && i + 1 < |data| < i + 1 + |PrintPair(ps[0])|
    requires IsCutPair(ParseKeyAndValue(data, i + 1, stack, err, starts), |data|, ps[0], |data| - i - 1, err)
    ensures var k := |data| - i - 1;
      IsCut(ParsePairs(data, i, |ps|, stack, m, err, starts), |data|,
            PanicsInPairs(ps, k), Dict(m + CutEntries(ps, k)), ErrorIf(CutHasNullInPairs(ps, k), err))
  {
    var k := |data| - i - 1;
    LastCutPair(data, i, |ps|, stack, m, err, starts);
    assert m[KeyText(ps[0].key) := CutEntry(ps[0], k)] == m + CutEntries(ps, k);
  }

  /** A pair that is not cut is followed by the others. */
  lemma WholePair(data: bytes, i: nat, p: Pair, n: nat, stack: nat,
                  m: map<bytes, bytes>, err: Option<Error>, starts: seq<nat>)
    returns (starts': seq<nat>)
    requires n >= 1 && i + 1 < |data|
    requires var o := ParseKeyAndValue(data, i + 1, stack, err, starts);
      && o.PairParsed? && o.end == i + |PrintPair(p)|
      && o.key == KeyText(p.key) && o.value == EntryValue(p) && o.err == ErrorIf(PairHasNull(p), err)
    ensures ParsePairs(data, i, n, stack, m, err, starts)
         == ParsePairs(data, i + |PrintPair(p)|, n - 1, stack, m[KeyText(p.key) := EntryValue(p)],
                       ErrorIf(PairHasNull(p), err), starts')
  {
    starts' := ParseKeyAndValue(data, i + 1, stack, err, starts).starts;
  }

  lemma MoreEntries(m: map<bytes, bytes>, ps: seq<Pair>, k: nat)
    requires ps != [] && k >= |PrintPair(ps[0])| && k > 0
    ensures m[KeyText(ps[0].key) := EntryValue(ps[0])] + CutEntries(ps[1..], k - |PrintPair(ps[0])|)
         == m + CutEntries(ps, k)
  {
  }

  /** The pair that is cut is the last one. */
  lemma LastCutPair(data: bytes, i: nat, n: nat, stack: nat,
                    m: map<bytes, bytes>, err: Option<Error>, starts: seq<nat>)
    requires n >= 1 && i + 1 < |data|
    requires var o := ParseKeyAndValue(data, i + 1, stack, err, starts); o.PairParsed? ==> o.end >= |data|
    ensures var o := ParseKeyAndValue(data, i + 1, stack, err, starts);
      var all := ParsePairs(data, i, n, stack, m, err, starts);
      if o.PairPanicked? then all.Panicked? && all.why == o.why
      else IsCut(all, |data|, false, Dict(m[o.key := o.value]), o.err)
  {
    var pair := ParseKeyAndValue(data, i + 1, stack, err, starts);
    if pair.PairParsed? {
      NoMorePairs(data, pair.end, n - 1, stack, m[pair.key := pair.value], pair.err, pair.starts);
    }
  }

  /** A pair that is cut in its key or right behind it: the value is looked for beyond the data. */
  lemma {:induction false} CutPair(data: bytes, i: nat, p: Pair, stack: nat,
                                   err: Option<Error>, starts: seq<nat>)
    requires PairWellFormed(p) && CutAt(data, i + 1, PrintPair(p)) && stack >= PairDepth(p) && i + 1 < |data|
    ensures IsCutPair(ParseKeyAndValue(data, i + 1, stack, err, starts), |data|, p, |data| - i - 1, err)
    decreases p
  {
    CutSplit(data, i + 1, Print(p.key), Print(p.value));
    if |data| < i + 1 + |Print(p.key)| {
      CutKey(data, i + 1, p, stack, err, starts);
    } else {
      var j := i + 1 + |Print(p.key)|;
      ParseTree(data, i + 1, p.key, stack);
      CutTree(data, j, p.value, stack);
      CutValueOfPair(data, i + 1, p, j, stack, err, starts);
    }
  }

  lemma CutKey(data: bytes, idx: nat, p: Pair, stack: nat, err: Option<Error>, starts: seq<nat>)
    requires IsByteString(p.key) && WellFormed(p.key) && CutAt(data, idx, Print(p.key)) && stack >= 1 && idx < |data|
    ensures IsCutPair(ParseKeyAndValue(data, idx, stack, err, starts), |data|, p, |data| - idx, err)
  {
    CutScalar(data, idx, p.key, stack);
    var key := ParsePart(data, idx, stack);
    assert key.Parsed? && key.end >= |data|;
    ValueBeyondData(data, idx, stack, err, starts);
  }

  lemma ValueBeyondData(data: bytes, idx: nat, stack: nat, err: Option<Error>, starts: seq<nat>)
    requires stack >= 1
    requires var key := ParsePart(data, idx, stack); key.Parsed? && key.end >= |data|
    ensures var o := ParseKeyAndValue(data, idx, stack, err, starts); o.PairPanicked? && o.why == IndexOutOfRange
  {
  }

  lemma CutValueOfPair(data: bytes, idx: nat, p: Pair, j: nat, stack: nat, err: Option<Error>, starts: seq<nat>)
    requires IsByteString(p.key) && IsTreeAt(ParsePart(data, idx, stack), idx, p.key)
    requires j == idx + |Print(p.key)| <= |data|
    requires IsCutTree(ParsePart(data, j, stack), |data|, p.value, |data| - j)
    ensures IsCutPair(ParseKeyAndValue(data, idx, stack, err, starts), |data|, p, |data| - idx, err)
  {
    var key := ParsePart(data, idx, stack);
    assert key.end + 1 == j && key.err == None && key.value == Text(KeyText(p.key));
    assert Panics(p.value, 0);
  }

  /** What is decoded from the first `k` bytes of any reply, for every `k`. */
  lemma DecodeCutReply(t: Tree, k: nat, stack: nat)
    requires WellFormed(t) && k < |Print(t)| && stack >= Depth(t)
    ensures Decode(Print(t)[..k], stack)
         == if Panics(t, k) then Crash(IndexOutOfRange)
            else if CutHasNull(t, k) then Err(ErrNoValue)
            else Ok(CutValue(t, k))
  {
    CutTree(Print(t)[..k], 0, t, stack);
  }

  /** A map value of which only the first byte came is taken for an empty text. */
  lemma CutEntryIsEmpty(k: bytes, payload: bytes, stack: nat)
    requires CrFree(k) && CrFree(payload) && |payload| <= MAX_BYTES && stack >= 2
    ensures var t := Map([Pair(Simple(k), Bulk(payload))]);
      var n := |Header(PERCENT, 1)| + |Print(Simple(k))| + 1;
      n < |Print(t)| && Decode(Print(t)[..n], stack) == Ok(Dict(map[k := []]))
  {
    var p := Pair(Simple(k), Bulk(payload));
    var ps, n := [p], |Print(Simple(k))| + 1;
    OnePair(p);
    assert ps[0] == p && Print(p.value) == PrintBulk(payload) && |PrintPair(p)| == |Print(p.key)| + |Print(p.value)|;
    assert n < |PrintPair(p)|;
    assert CutEntry(p, n) == Flatten(CutValue(p.value, 1)) == [];
    assert !PanicsInPair(p, n) && !CutHasNullInPair(p, n);
    assert !PanicsInPairs(ps, n) && CutEntries(ps, n) == map[k := []] && !CutHasNullInPairs(ps, n);
    DecodeCutReply(Map(ps), |Header(PERCENT, 1)| + n, stack);
  }

  lemma OnePair(p: Pair)
    ensures PrintPairs([p]) == PrintPair(p) && DepthPairs([p]) == PairDepth(p)
    ensures AllPairsWellFormed([p]) <==> PairWellFormed(p)
  {
    assert [p][1..] == [];
    assert PrintPairs([p]) == PrintPair(p) + PrintPairs([]);
    assert AllPairsWellFormed([p]) <==> PairWellFormed(p) && AllPairsWellFormed([]);
    assert DepthPairs([p]) == Max(PairDepth(p), DepthPairs([]));
  }

  /** A bulk string that is cut in its payload is taken for a shorter one. */
  lemma CutBulkLooksWhole(payload: bytes, n: nat, stack: nat)
    requires CrFree(payload) && |payload| <= MAX_BYTES && n <= |payload| && stack >= 1
    ensures Decode(Header(DOLLAR, |payload|) + payload[..n], stack) == Ok(Text(payload[..n]))
  {
    var h := |Header(DOLLAR, |payload|)|;
    assert Print(Bulk(payload))[..h + n] == Header(DOLLAR, |payload|) + payload[..n];
    DecodeCutReply(Bulk(payload), h + n, stack);
  }
}
