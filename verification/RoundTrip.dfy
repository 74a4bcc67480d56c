/** Printed reply trees are parsed back: wherever a tree stands in the data, the parser stops
    on its last byte with its value, and stores an error exactly when it holds a null. */
module RoundTrip {
  import opened Bytes
  import opened Resp
  import opened Parsing

  lemma {:induction false} ScanLine(data: bytes, i: nat, line: bytes, text: bytes)
    requires CrFree(line) && At(data, i, line + CRLF)
    ensures Scan(data, i, text) == Scanned(i + |line| + 1, text + line, true)
    decreases |line|
  {
    AtIndex(data, i, line + CRLF, 0);
    if line == [] {
      AtIndex(data, i, line + CRLF, 1);
      assert text + line == text;
    } else {
      assert data[i] == line[0] && line[0] in line;
      assert line + CRLF == [line[0]] + (line[1..] + CRLF);
      AtSplit(data, i, [line[0]], line[1..] + CRLF);
      ScanLine(data, i + 1, line[1..], text + [line[0]]);
      assert text + [line[0]] + line[1..] == text + line;
    }
  }

  lemma LineAt(data: bytes, i: nat, kind: byte, line: bytes)
    requires CrFree(line) && At(data, i, [kind] + (line + CRLF))
    ensures i < |data| && data[i] == kind
    ensures Scan(data, i + 1, []) == Scanned(i + |line| + 2, line, true)
  {
    AtIndex(data, i, [kind] + (line + CRLF), 0);
    AtSplit(data, i, [kind], line + CRLF);
    ScanLine(data, i + 1, line, []);
    assert [] + line == line;
  }

  /** Announced lengths and counts are read back from the decimal digits printed for them. */
  lemma HeaderAt(data: bytes, i: nat, kind: byte, n: nat)
    requires At(data, i, Header(kind, n)) && n <= MAX_INT64
    ensures i + 1 < |data| && data[i] == kind
    ensures PartLen(data, i + 1) == n
    ensures PartLenEnd(data, i + 1) == i + |Header(kind, n)| - 1
  {
    DigitsAreCrFree(Itoa(n));
    LineAt(data, i, kind, Itoa(n));
    AtoiItoa(n);
  }

  ghost function ErrorIf(hasNull: bool, before: Option<Error>): Option<Error> {
    if hasNull then Some(ErrNoValue) else before
  }

  ghost predicate IsTreeAt(o: Outcome, i: nat, t: Tree) {
    && o.Parsed?
    && o.end == i + |Print(t)| - 1
    && o.value == ValueOf(t)
    && o.err == ErrorIf(HasNull(t), None)
  }

  lemma ParseScalar(data: bytes, i: nat, t: Tree, stack: nat)
    requires IsByteString(t) || t.NullBulk?
    requires WellFormed(t) && At(data, i, Print(t)) && stack >= 1
    ensures IsTreeAt(ParsePart(data, i, stack), i, t)
  {
    match t
    case Simple(line) => LineAt(data, i, PLUS, line);
    case Integer(line) => LineAt(data, i, COLON, line);
    case Bulk(payload) => ParseBulk(data, i, payload);
    case NullBulk => ParseNullBulk(data, i);
  }

  /** With a length that can be allocated, the text is scanned behind the length's line. */
  lemma PossibleLength(data: bytes, i: nat, j: nat)
    requires i + 1 < |data| && 0 <= PartLen(data, i + 1) <= MAX_BYTES && PartLenEnd(data, i + 1) + 1 == j
    ensures ParseBulkString(data, i) == Parsed(Scan(data, j, []).end, Text(Scan(data, j, []).text), None, [i])
  {
  }

  /** The parser reaches the payload of a bulk string, whatever bytes it holds. */
  lemma BulkFrame(data: bytes, i: nat, payload: bytes)
    requires At(data, i, PrintBulk(payload)) && |payload| <= MAX_BYTES
    ensures i < |data| && data[i] == DOLLAR
    ensures var j := i + |Header(DOLLAR, |payload|)|;
      && At(data, j, payload + CRLF)
      && ParseBulkString(data, i) == Parsed(Scan(data, j, []).end, Text(Scan(data, j, []).text), None, [i])
  {
    var h := Header(DOLLAR, |payload|);
    AtSplit(data, i, h, payload + CRLF);
    HeaderAt(data, i, DOLLAR, |payload|);
    PossibleLength(data, i, i + |h|);
  }

  lemma ParseBulk(data: bytes, i: nat, payload: bytes)
    requires WellFormed(Bulk(payload)) && At(data, i, PrintBulk(payload))
    ensures i < |data| && data[i] == DOLLAR
    ensures IsTreeAt(ParseBulkString(data, i), i, Bulk(payload))
    ensures ParseBulkString(data, i).starts == [i]
  {
    BulkFrame(data, i, payload);
    ScanLine(data, i + |Header(DOLLAR, |payload|)|, payload, []);
    assert [] + payload == payload;
  }

  lemma ParseNullBulk(data: bytes, i: nat)
    requires At(data, i, Print(NullBulk))
    ensures i < |data| && data[i] == DOLLAR
    ensures IsTreeAt(ParseBulkString(data, i), i, NullBulk)
  {
    LineAt(data, i, DOLLAR, [MINUS, ONE]);
    AtoiMinusOne();
  }

  /** The announced count of an array or a map, and where its contents begin. */
  lemma ContainerAt(data: bytes, i: nat, kind: byte, n: nat, body: bytes)
    requires At(data, i, Header(kind, n) + body) && n <= MAX_INT64
    ensures i + 1 < |data| && data[i] == kind
    ensures PartLen(data, i + 1) == n
    ensures PartLenEnd(data, i + 1) == i + |Header(kind, n)| - 1
    ensures At(data, i + |Header(kind, n)|, body)
  {
    AtSplit(data, i, Header(kind, n), body);
    HeaderAt(data, i, kind, n);
  }

  /** With a count that can be allocated, the elements are parsed behind the count's line. */
  lemma PossibleCount(data: bytes, i: nat, n: nat, stack: nat)
    requires i + 1 < |data| && PartLen(data, i + 1) == n <= MAX_ANYS
    ensures ParseArray(data, i, stack) == ParseItems(data, PartLenEnd(data, i + 1), n, stack, [], None, [i])
  {
  }

  lemma {:induction false} ParseTree(data: bytes, i: nat, t: Tree, stack: nat)
    requires WellFormed(t) && At(data, i, Print(t)) && stack >= Depth(t)
    ensures IsTreeAt(ParsePart(data, i, stack), i, t)
    decreases t, 1
  {
    match t
    case Array(items) => ParseArrayTree(data, i, items, t, stack);
    case Map(pairs) => ParseMapTree(data, i, pairs, t, stack);
    case _ => ParseScalar(data, i, t, stack);
  }

  lemma {:induction false} ParseArrayTree(data: bytes, i: nat, items: seq<Tree>, t: Tree, stack: nat)
    requires t == Array(items)
    requires WellFormed(t) && At(data, i, Print(t)) && stack >= Depth(t)
    ensures IsTreeAt(ParsePart(data, i, stack), i, t)
    decreases t, 0
  {
    ContainerAt(data, i, STAR, |items|, PrintAll(items));
    PossibleCount(data, i, |items|, stack - 1);
    ParseTrees(data, i + |Header(STAR, |items|)| - 1, items, stack - 1, [], None, [i]);
    assert [] + ValuesOf(items) == ValuesOf(items);
  }

  lemma {:induction false} ParseMapTree(data: bytes, i: nat, pairs: seq<Pair>, t: Tree, stack: nat)
    requires t == Map(pairs)
    requires WellFormed(t) && At(data, i, Print(t)) && stack >= Depth(t)
    ensures IsTreeAt(ParsePart(data, i, stack), i, t)
    decreases t, 0
  {
    ContainerAt(data, i, PERCENT, |pairs|, PrintPairs(pairs));
    var end := PartLenEnd(data, i + 1);
    ParseAllPairs(data, end, pairs, stack - 1, map[], None, [i]);
    assert ParsePart(data, i, stack) == ParsePairs(data, end, |pairs|, stack - 1, map[], None, [i]);
    assert map[] + EntriesOf(pairs) == EntriesOf(pairs);
  }

  lemma {:induction false} ParseTrees(data: bytes, i: nat, ts: seq<Tree>, stack: nat,
                                      items: seq<Value>, err: Option<Error>, starts: seq<nat>)
    requires AllWellFormed(ts) && At(data, i + 1, PrintAll(ts)) && stack >= DepthAll(ts)
    ensures var o := ParseItems(data, i, |ts|, stack, items, err, starts);
      && o.Parsed? && o.end == i + |PrintAll(ts)|
      && o.value == List(items + ValuesOf(ts)) && o.err == ErrorIf(AnyNull(ts), err)
    decreases ts
  {
    if ts == [] {
      assert items + ValuesOf(ts) == items;
    } else {
      AtSplit(data, i + 1, Print(ts[0]), PrintAll(ts[1..]));
      ParseTree(data, i + 1, ts[0], stack);
      var item := Resume(ParsePart(data, i + 1, stack), err, starts);
      ParseTrees(data, item.end, ts[1..], stack, items + [item.value], item.err, item.starts);
      assert items + [item.value] + ValuesOf(ts[1..]) == items + ValuesOf(ts);
    }
  }

  lemma {:induction false} ParseAllPairs(data: bytes, i: nat, ps: seq<Pair>, stack: nat,
                                         m: map<bytes, bytes>, err: Option<Error>, starts: seq<nat>)
    requires AllPairsWellFormed(ps) && At(data, i + 1, PrintPairs(ps)) && stack >= DepthPairs(ps)
    ensures var o := ParsePairs(data, i, |ps|, stack, m, err, starts);
      && o.Parsed? && o.end == i + |PrintPairs(ps)|
      && o.value == Dict(m + EntriesOf(ps)) && o.err == ErrorIf(AnyNullPair(ps), err)
    decreases ps
  {
    if ps == [] {
      assert m + EntriesOf(ps) == m;
    } else {
      var p, rest := ps[0], ps[1..];
      AtSplit(data, i + 1, PrintPair(p), PrintPairs(rest));
      ParsePair(data, i, p, stack, err, starts);
      var pair := ParseKeyAndValue(data, i + 1, stack, err, starts);
      ParseAllPairs(data, pair.end, rest, stack, m[pair.key := pair.value], pair.err, pair.starts);
      AddEntry(m, p, rest);
      assert [p] + rest == ps;
    }
  }

  lemma AddEntry(m: map<bytes, bytes>, p: Pair, rest: seq<Pair>)
    ensures m[KeyText(p.key) := EntryValue(p)] + EntriesOf(rest) == m + EntriesOf([p] + rest)
  {
    assert ([p] + rest)[1..] == rest;
  }

  lemma {:induction false} ParsePair(data: bytes, i: nat, p: Pair, stack: nat,
                                     err: Option<Error>, starts: seq<nat>)
    requires PairWellFormed(p) && At(data, i + 1, PrintPair(p)) && stack >= PairDepth(p)
    ensures var o := ParseKeyAndValue(data, i + 1, stack, err, starts);
      && o.PairParsed? && o.end == i + |PrintPair(p)|
      && o.key == KeyText(p.key) && o.value == EntryValue(p)
      && o.err == ErrorIf(PairHasNull(p), err)
    decreases p
  {
    AtSplit(data, i + 1, Print(p.key), Print(p.value));
    ParseTree(data, i + 1, p.key, stack);
    ParseTree(data, i + 1 + |Print(p.key)|, p.value, stack);
  }

  /** The round trip, between any prefix and any suffix. */
  lemma PrintThenParse(pre: bytes, t: Tree, post: bytes, stack: nat)
    requires WellFormed(t) && stack >= Depth(t)
    ensures IsTreeAt(ParsePart(pre + Print(t) + post, |pre|, stack), |pre|, t)
  {
    var data := pre + Print(t) + post;
    assert At(data, |pre|, Print(t));
    ParseTree(data, |pre|, t, stack);
  }

  /** A whole reply is decoded to its value, or to ErrNoValue exactly when a null bulk string
      occurs anywhere in it; bytes behind the reply make no difference. */
  lemma DecodeReply(t: Tree, post: bytes, stack: nat)
    requires WellFormed(t) && stack >= Depth(t)
    ensures Decode(Print(t) + post, stack) == if HasNull(t) then Err(ErrNoValue) else Ok(ValueOf(t))
  {
    PrintThenParse([], t, post, stack);
    assert [] + Print(t) + post == Print(t) + post;
  }

  /** What a decoded map holds under a key, given the last pair with that key: the text of a scalar,
      a placeholder for a non-empty array, nothing for an empty array or a map. */
  lemma MapEntries(ps: seq<Pair>, i: nat, k: bytes, post: bytes, stack: nat) returns (m: map<bytes, bytes>)
    requires WellFormed(Map(ps)) && !HasNull(Map(ps)) && stack >= Depth(Map(ps))
    requires i < |ps| && IsLast(ps, i)
    requires ps[i].key == Simple(k) || ps[i].key == Integer(k) || ps[i].key == Bulk(k)
    ensures Decode(Print(Map(ps)) + post, stack) == Ok(Dict(m)) && k in m
    ensures match ps[i].value
      case Simple(line) => m[k] == line
      case Integer(line) => m[k] == line
      case Bulk(payload) => m[k] == payload
      case Array(items) => m[k] == if items == [] then [] else Ascii("arr with len > 0")
      case Map(_) => m[k] == []
      case NullBulk => false
  {
    m := EntriesOf(ps);
    DecodeReply(Map(ps), post, stack);
    LastPairWins(ps, i);
    NoNullAt(ps, i);
  }

  lemma {:induction false} NoNullAt(ps: seq<Pair>, i: nat)
    requires !AnyNullPair(ps) && i < |ps|
    ensures !HasNull(ps[i].value)
  {
    if i > 0 {
      NoNullAt(ps[1..], i - 1);
    }
  }

  /** An error reply is decoded to the error it names. */
  lemma DecodeErrorReply(line: bytes, post: bytes, stack: nat)
    requires CrFree(line) && stack >= 1
    ensures Decode([MINUS] + (line + CRLF) + post, stack) == Err(ErrRedisException(line))
  {
    LineAt([MINUS] + (line + CRLF) + post, 0, MINUS, line);
  }

  /** Different values on the wire: replies that print to the same bytes mean the same. */
  lemma PrintDeterminesValue(t: Tree, u: Tree)
    requires WellFormed(t) && WellFormed(u) && Print(t) == Print(u)
    ensures HasNull(t) <==> HasNull(u)
    ensures ValueOf(t) == ValueOf(u)
  {
    var stack := Max(Depth(t), Depth(u));
    PrintThenParse([], t, [], stack);
    PrintThenParse([], u, [], stack);
  }
}
