/** Replies of the Redis serialization protocol: the values the driver hands out, the
    reply trees a server sends, and how a tree is printed. */
module Resp {
  import opened Bytes

  datatype Error =
    | ErrNoValue
    | ErrUnsupportedDataType
    | ErrTypeAssert
    | ErrRedisException(text: bytes)
    | ErrSendBufTooShort
    | ErrRecvBufTooShort
    | ErrOperationRetriesFailed
    | ErrConnectionCmdInProcess
    | ErrConnectionReset
    | ErrConnectionClosed
    | ErrNotConnected
    | ErrInProgress
    | ErrConnectionInProcess
    | ErrSendMsgTrunc
    | ErrRecvMsgTrunc
    | ErrRecvMsgCTrunc
    | ErrSocketBadFD
    | ErrPollTimeout
    | ErrWouldBlock
    | ErrContext
    | ErrOther(code: int)

  /** What the decoder returns as `any`. */
  datatype Value =
    | Nil
    | Text(text: bytes)
    | List(items: seq<Value>)
    | Dict(entries: map<bytes, bytes>)

  datatype Tree =
    | Simple(line: bytes)
    | Integer(line: bytes)
    | Bulk(payload: bytes)
    | NullBulk
    | Array(items: seq<Tree>)
    | Map(pairs: seq<Pair>)

  datatype Pair = Pair(key: Tree, value: Tree)

  // Placeholder that stands for every non-empty array inside a map.
  const ARR_PLACEHOLDER: bytes := Ascii("arr with len > 0")

  // The largest capacities of a []byte and of a []any that make accepts on linux/amd64:
  // 2^48 bytes, 16 of them for each element of a []any.
  const MAX_BYTES := 0x1_0000_0000_0000
  const MAX_ANYS := 0x1000_0000_0000

  // ---------------------------------------------------------------- printing

  function Header(kind: byte, n: nat): (s: bytes)
    ensures |s| == |Itoa(n)| + 3 && s[0] == kind
  {
    [kind] + (Itoa(n) + CRLF)
  }

  function PrintBulk(payload: bytes): (s: bytes)
    ensures |s| == |Itoa(|payload|)| + |payload| + 5
  {
    Header(DOLLAR, |payload|) + (payload + CRLF)
  }

  function Print(t: Tree): (s: bytes)
    ensures |s| >= 1
    decreases t
  {
    match t
    case Simple(line) => [PLUS] + (line + CRLF)
    case Integer(line) => [COLON] + (line + CRLF)
    case Bulk(payload) => PrintBulk(payload)
    case NullBulk => [DOLLAR] + ([MINUS, ONE] + CRLF)
    case Array(items) => Header(STAR, |items|) + PrintAll(items)
    case Map(pairs) => Header(PERCENT, |pairs|) + PrintPairs(pairs)
  }

  function PrintAll(ts: seq<Tree>): bytes
    decreases ts
  {
    if ts == [] then [] else Print(ts[0]) + PrintAll(ts[1..])
  }

  function PrintPairs(ps: seq<Pair>): bytes
    decreases ps
  {
    if ps == [] then [] else PrintPair(ps[0]) + PrintPairs(ps[1..])
  }

  function PrintPair(p: Pair): bytes
    decreases p
  {
    Print(p.key) + Print(p.value)
  }

  // ---------------------------------------------------------------- meaning

  /** What a map keeps of a value: the bytes of a scalar, a fixed text for a non-empty array,
      and the empty string for everything else. */
  function Flatten(v: Value): bytes {
    match v
    case Text(text) => text
    case List(items) => if items == [] then [] else ARR_PLACEHOLDER
    case _ => []
  }

  function ValueOf(t: Tree): Value
    decreases t
  {
    match t
    case Simple(line) => Text(line)
    case Integer(line) => Text(line)
    case Bulk(payload) => Text(payload)
    case NullBulk => Nil
    case Array(items) => List(ValuesOf(items))
    case Map(pairs) => Dict(EntriesOf(pairs))
  }

  function ValuesOf(ts: seq<Tree>): (vs: seq<Value>)
    ensures |vs| == |ts|
    decreases ts
  {
    if ts == [] then [] else [ValueOf(ts[0])] + ValuesOf(ts[1..])
  }

  /** The entries of a printed map: for a key that comes several times, the last one counts
      (stated as LastPairWins). */
  function EntriesOf(ps: seq<Pair>): map<bytes, bytes>
    decreases ps
  {
    if ps == [] then map[]
    else map[KeyText(ps[0].key) := EntryValue(ps[0])] + EntriesOf(ps[1..])
  }

  function EntryValue(p: Pair): bytes
    decreases p
  {
    Flatten(ValueOf(p.value))
  }

  function KeyText(key: Tree): bytes {
    match key
    case Simple(line) => line
    case Integer(line) => line
    case Bulk(payload) => payload
    case _ => []
  }

  /** A null bulk string occurs somewhere in the tree. */
  predicate HasNull(t: Tree)
    decreases t
  {
    match t
    case NullBulk => true
    case Array(items) => AnyNull(items)
    case Map(pairs) => AnyNullPair(pairs)
    case _ => false
  }

  predicate AnyNull(ts: seq<Tree>)
    decreases ts
  {
    ts != [] && (HasNull(ts[0]) || AnyNull(ts[1..]))
  }

  predicate AnyNullPair(ps: seq<Pair>)
    decreases ps
  {
    ps != [] && (PairHasNull(ps[0]) || AnyNullPair(ps[1..]))
  }

  predicate PairHasNull(p: Pair)
    decreases p
  {
    HasNull(p.key) || HasNull(p.value)
  }

  /** Scalars are free of carriage returns, map keys are byte strings, and every slice the
      decoder makes for the tree can be allocated. */
  ghost predicate WellFormed(t: Tree)
    decreases t
  {
    match t
    case Simple(line) => CrFree(line)
    case Integer(line) => CrFree(line)
    case Bulk(payload) => CrFree(payload) && |payload| <= MAX_BYTES
    case NullBulk => true
    case Array(items) => |items| <= MAX_ANYS && AllWellFormed(items)
    case Map(pairs) => |pairs| <= MAX_INT64 && AllPairsWellFormed(pairs)
  }

  ghost predicate AllWellFormed(ts: seq<Tree>)
    decreases ts
  {
    ts == [] || (WellFormed(ts[0]) && AllWellFormed(ts[1..]))
  }

  ghost predicate AllPairsWellFormed(ps: seq<Pair>)
    decreases ps
  {
    ps == [] || (PairWellFormed(ps[0]) && AllPairsWellFormed(ps[1..]))
  }

  ghost predicate PairWellFormed(p: Pair)
    decreases p
  {
    IsByteString(p.key) && WellFormed(p.key) && WellFormed(p.value)
  }

  ghost predicate IsByteString(t: Tree) {
    t.Simple? || t.Integer? || t.Bulk?
  }

  /** Nesting depth: the number of parsePart frames the decoder has open at most. */
  ghost function Depth(t: Tree): (d: nat)
    ensures d >= 1
    decreases t
  {
    match t
    case Array(items) => 1 + DepthAll(items)
    case Map(pairs) => 1 + DepthPairs(pairs)
    case _ => 1
  }

  ghost function DepthAll(ts: seq<Tree>): nat
    decreases ts
  {
    if ts == [] then 0 else Max(Depth(ts[0]), DepthAll(ts[1..]))
  }

  ghost function DepthPairs(ps: seq<Pair>): nat
    decreases ps
  {
    if ps == [] then 0 else Max(PairDepth(ps[0]), DepthPairs(ps[1..]))
  }

  ghost function PairDepth(p: Pair): nat
    decreases p
  {
    Max(Depth(p.key), Depth(p.value))
  }

  function Max(a: nat, b: nat): nat {
    if a < b then b else a
  }

  ghost predicate HasKey(ps: seq<Pair>, k: bytes) {
    exists i :: 0 <= i < |ps| && KeyText(ps[i].key) == k
  }

  /** The key of pair `i` comes at no later position. */
  ghost predicate IsLast(ps: seq<Pair>, i: nat)
    requires i < |ps|
  {
    !HasKey(ps[i + 1..], KeyText(ps[i].key))
  }

  /** A decoded map has exactly the keys of the printed one... */
  lemma {:induction false} KeysOfMap(ps: seq<Pair>, k: bytes)
    ensures k in EntriesOf(ps) <==> HasKey(ps, k)
  {
    if ps != [] {
      KeysOfMap(ps[1..], k);
      if HasKey(ps[1..], k) {
        var i :| 0 <= i < |ps[1..]| && KeyText(ps[1..][i].key) == k;
        assert ps[i + 1] == ps[1..][i];
      }
      if HasKey(ps, k) && KeyText(ps[0].key) != k {
        var i :| 0 <= i < |ps| && KeyText(ps[i].key) == k;
        assert ps[i] == ps[1..][i - 1];
      }
    }
  }

  /** ...each with the value of its last occurrence. */
  lemma {:induction false} LastPairWins(ps: seq<Pair>, i: nat)
    requires i < |ps| && IsLast(ps, i)
    ensures KeyText(ps[i].key) in EntriesOf(ps)
    ensures EntriesOf(ps)[KeyText(ps[i].key)] == EntryValue(ps[i])
  {
    if i == 0 {
      KeysOfMap(ps[1..], KeyText(ps[0].key));
    } else {
      assert ps[1..][i - 1] == ps[i] && ps[1..][i..] == ps[i + 1..];
      LastPairWins(ps[1..], i - 1);
    }
  }

  // ---------------------------------------------------------------- commands

  function Bulks(args: seq<bytes>): (ts: seq<Tree>)
    ensures |ts| == |args| && forall i :: 0 <= i < |args| ==> ts[i] == Bulk(args[i])
  {
    seq(|args|, i requires 0 <= i < |args| => Bulk(args[i]))
  }

  /** A command is sent as an array of bulk strings. */
  function Command(args: seq<bytes>): bytes {
    Print(Array(Bulks(args)))
  }

  lemma {:induction false} PrintAllAppend(a: seq<Tree>, b: seq<Tree>)
    ensures PrintAll(a + b) == PrintAll(a) + PrintAll(b)
  {
    if a == [] {
      assert a + b == b;
    } else {
      PrintAllAppend(a[1..], b);
      assert (a + b)[1..] == a[1..] + b;
      var first, rest, others := Print(a[0]), PrintAll(a[1..]), PrintAll(b);
      assert PrintAll(a + b) == first + (rest + others);
      assert first + (rest + others) == (first + rest) + others;
    }
  }
}
