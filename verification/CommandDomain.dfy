/** Which commands survive the driver's own decoder. Its scanner looks for CR LF and ignores
    the announced length, so the domain is exactly the arguments without a carriage return. */
module CommandDomain {
  import opened Bytes
  import opened Resp
  import opened Parsing
  import opened RoundTrip

  function Texts(args: seq<bytes>): (vs: seq<Value>)
    ensures |vs| == |args| && forall i :: 0 <= i < |args| ==> vs[i] == Text(args[i])
  {
    seq(|args|, i requires 0 <= i < |args| => Text(args[i]))
  }

  ghost predicate AllCrFree(args: seq<bytes>) {
    forall i :: 0 <= i < |args| ==> CrFree(args[i])
  }

  /** Go slices this large can exist. */
  predicate InMemory(args: seq<bytes>) {
    |args| <= MAX_ANYS && forall i :: 0 <= i < |args| ==> |args[i]| <= MAX_BYTES
  }

  // ---------------------------------------------------------------- arguments without CR

  lemma {:induction false} BulksAreWellFormed(args: seq<bytes>)
    requires InMemory(args) && AllCrFree(args)
    ensures AllWellFormed(Bulks(args)) && !AnyNull(Bulks(args)) && DepthAll(Bulks(args)) <= 1
    ensures ValuesOf(Bulks(args)) == Texts(args)
  {
    if args != [] {
      assert Bulks(args)[1..] == Bulks(args[1..]);
      BulksAreWellFormed(args[1..]);
    }
  }

  // ---------------------------------------------------------------- arguments with CR

  /** What stands behind a bulk string of a command: the next one, or nothing. */
  ghost predicate BulkOrEnd(data: bytes, j: nat) {
    j == |data| || exists n: nat :: At(data, j, Header(DOLLAR, n))
  }

  /** `t` is not `payload`, by its length or by its last byte. */
  ghost predicate Damaged(t: bytes, payload: bytes) {
    || |t| < |payload|
    || (t != [] && payload != [] && t[|t| - 1] != CR && payload[|payload| - 1] == CR)
  }

  /** Past a payload that ends in CR the scanner takes the frame's own CR LF for text and
      runs on to the end of the next header. */
  lemma ScanPastFrame(data: bytes, j: nat, text: bytes) returns (t: bytes)
    requires j < |data| && data[j] == LF && BulkOrEnd(data, j + 1)
    ensures Scan(data, j, text).text == text + t && t != [] && t[|t| - 1] != CR
  {
    t := [LF];
    if j + 1 < |data| {
      var n: nat :| At(data, j + 1, Header(DOLLAR, n));
      var line := [DOLLAR] + Itoa(n);
      DigitsAreCrFree(Itoa(n));
      assert line + CRLF == Header(DOLLAR, n);
      ScanLine(data, j + 1, line, text + [LF]);
      t := [LF] + line;
      assert text + [LF] + line == text + t;
      assert IsDigit(t[|t| - 1]);
    }
  }

  lemma {:induction false} ScanPayload(data: bytes, i: nat, payload: bytes, text: bytes) returns (t: bytes)
    requires At(data, i, payload + CRLF) && BulkOrEnd(data, i + |payload| + 2)
    ensures Scan(data, i, text).text == text + t
    ensures Damaged(t, payload) || (CrFree(payload) && t == payload)
    decreases |payload|
  {
    AtIndex(data, i, payload + CRLF, 0);
    AtIndex(data, i, payload + CRLF, 1);
    if payload == [] {
      t := [];
    } else if payload[0] != CR {
      AtDrop(data, i, payload, 1);
      var t' := ScanPayload(data, i + 1, payload[1..], text + [payload[0]]);
      t := [payload[0]] + t';
      AppendOne(text, payload[0], t');
      assert payload == [payload[0]] + payload[1..];
    } else if |payload| == 1 {
      AtIndex(data, i, payload + CRLF, 2);
      var t' := ScanPastFrame(data, i + 2, text + [CR]);
      t := [CR] + t';
      AppendOne(text, CR, t');
    } else if payload[1] == LF {
      t := [];
    } else {
      AtDrop(data, i, payload, 2);
      var t' := ScanPayload(data, i + 2, payload[2..], text + [payload[1]]);
      t := [payload[1]] + t';
      AppendOne(text, payload[1], t');
    }
  }

  lemma AppendOne(text: bytes, b: byte, t: bytes)
    ensures (text + [b]) + t == text + ([b] + t)
  {
  }

  lemma AtDrop(data: bytes, i: nat, payload: bytes, k: nat)
    requires At(data, i, payload + CRLF) && k <= |payload|
    ensures At(data, i + k, payload[k..] + CRLF)
  {
    assert payload + CRLF == payload[..k] + (payload[k..] + CRLF);
    AtSplit(data, i, payload[..k], payload[k..] + CRLF);
  }

  lemma BulkText(data: bytes, i: nat, payload: bytes)
    requires At(data, i, PrintBulk(payload)) && |payload| <= MAX_BYTES
    requires BulkOrEnd(data, i + |PrintBulk(payload)|)
    ensures i < |data| && data[i] == DOLLAR
    ensures var o := ParseBulkString(data, i);
      && o.Parsed? && o.err == None && o.value.Text?
      && (o.value.text == payload <==> CrFree(payload))
  {
    BulkFrame(data, i, payload);
    var j := i + |Header(DOLLAR, |payload|)|;
    var t := ScanPayload(data, j, payload, []);
    if CrFree(payload) {
      ScanLine(data, j, payload, []);
      assert [] + payload == payload;
    }
  }

  /** A standalone bulk string comes back intact if and only if it holds no CR. */
  lemma BulkDomain(payload: bytes, stack: nat)
    requires |payload| <= MAX_BYTES && stack >= 1
    ensures Decode(PrintBulk(payload), stack) == Ok(Text(payload)) <==> CrFree(payload)
  {
    BulkText(PrintBulk(payload), 0, payload);
  }

  // ---------------------------------------------------------------- whole commands

  lemma {:induction false} ItemsOnlyGrow(data: bytes, idx: nat, n: int, stack: nat,
                                         items: seq<Value>, err: Option<Error>, starts: seq<nat>)
    ensures var o := ParseItems(data, idx, n, stack, items, err, starts);
      o.Parsed? ==> o.value.List? && items <= o.value.items
    decreases if n > 0 then n else 0
  {
    if n > 0 && idx + 1 < |data| {
      var item := Resume(ParsePart(data, idx + 1, stack), err, starts);
      if item.Parsed? {
        ItemsOnlyGrow(data, item.end, n - 1, stack, items + [item.value], item.err, item.starts);
      }
    }
  }

  lemma {:induction false} DamagedItems(data: bytes, i: nat, args: seq<bytes>, stack: nat,
                                        items: seq<Value>, err: Option<Error>, starts: seq<nat>)
    requires InMemory(args) && !AllCrFree(args) && stack >= 1
    requires At(data, i + 1, PrintAll(Bulks(args))) && i + 1 + |PrintAll(Bulks(args))| == |data|
    ensures var o := ParseItems(data, i, |args|, stack, items, err, starts);
      o.Parsed? ==> o.value != List(items + Texts(args))
    decreases |args|
  {
    var a, rest := args[0], args[1..];
    SplitBulks(data, i, args);
    BulkText(data, i + 1, a);
    if CrFree(a) {
      IntactFirst(data, i, args, stack, items, err, starts);
      DamagedItems(data, i + |PrintBulk(a)|, rest, stack, items + [Text(a)], err, starts + [i + 1]);
      SplitTexts(items, args);
    } else {
      DamagedFirst(data, i, args, stack, items, err, starts);
    }
  }

  lemma SplitTexts(items: seq<Value>, args: seq<bytes>)
    requires args != []
    ensures items + [Text(args[0])] + Texts(args[1..]) == items + Texts(args)
  {
  }

  lemma IntactFirst(data: bytes, i: nat, args: seq<bytes>, stack: nat,
                    items: seq<Value>, err: Option<Error>, starts: seq<nat>)
    requires InMemory(args) && args != [] && CrFree(args[0]) && stack >= 1
    requires At(data, i + 1, PrintBulk(args[0]))
    ensures ParseItems(data, i, |args|, stack, items, err, starts)
         == ParseItems(data, i + |PrintBulk(args[0])|, |args| - 1, stack,
                       items + [Text(args[0])], err, starts + [i + 1])
  {
    ParseBulk(data, i + 1, args[0]);
    assert ParsePart(data, i + 1, stack) == Parsed(i + |PrintBulk(args[0])|, Text(args[0]), None, [i + 1]);
  }

  lemma DamagedFirst(data: bytes, i: nat, args: seq<bytes>, stack: nat,
                     items: seq<Value>, err: Option<Error>, starts: seq<nat>)
    requires args != [] && i + 1 < |data|
    requires var first := ParsePart(data, i + 1, stack); first.Parsed? && first.value != Text(args[0])
    ensures var o := ParseItems(data, i, |args|, stack, items, err, starts);
      o.Parsed? ==> o.value != List(items + Texts(args))
  {
    var item := Resume(ParsePart(data, i + 1, stack), err, starts);
    ItemsOnlyGrow(data, item.end, |args| - 1, stack, items + [item.value], item.err, item.starts);
    assert (items + [item.value])[|items|] == item.value;
    assert (items + Texts(args))[|items|] == Text(args[0]);
  }

  lemma SplitBulks(data: bytes, i: nat, args: seq<bytes>)
    requires args != []
    requires At(data, i + 1, PrintAll(Bulks(args))) && i + 1 + |PrintAll(Bulks(args))| == |data|
    ensures At(data, i + 1, PrintBulk(args[0]))
    ensures var j := i + 1 + |PrintBulk(args[0])|;
      && BulkOrEnd(data, j)
      && At(data, j, PrintAll(Bulks(args[1..])))
      && j + |PrintAll(Bulks(args[1..]))| == |data|
  {
    assert Bulks(args)[1..] == Bulks(args[1..]);
    AtSplit(data, i + 1, PrintBulk(args[0]), PrintAll(Bulks(args[1..])));
    NextBulk(data, i + 1 + |PrintBulk(args[0])|, args[1..]);
  }

  lemma NextBulk(data: bytes, j: nat, args: seq<bytes>)
    requires At(data, j, PrintAll(Bulks(args))) && j + |PrintAll(Bulks(args))| == |data|
    ensures BulkOrEnd(data, j)
  {
    if args != [] {
      var n := |args[0]|;
      var tail := args[0] + CRLF + PrintAll(Bulks(args)[1..]);
      assert PrintAll(Bulks(args)) == Header(DOLLAR, n) + tail;
      AtSplit(data, j, Header(DOLLAR, n), tail);
    }
  }

  lemma DamagedCommand(args: seq<bytes>, stack: nat)
    requires InMemory(args) && !AllCrFree(args) && stack >= 1
    ensures var o := ParseArray(Command(args), 0, stack); o.Parsed? ==> o.value != List(Texts(args))
    ensures Command(args)[0] == STAR
  {
    var data := Command(args);
    ContainerAt(data, 0, STAR, |args|, PrintAll(Bulks(args)));
    PossibleCount(data, 0, |args|, stack);
    DamagedItems(data, PartLenEnd(data, 1), args, stack, [], None, [0]);
    assert [] + Texts(args) == Texts(args);
  }

  /** The decoder returns exactly the arguments of an encoded command if and only if none of
      them holds a CR. */
  lemma CommandComesBackIffCrFree(args: seq<bytes>, stack: nat)
    requires InMemory(args) && stack >= 2
    ensures Decode(Command(args), stack) == Ok(List(Texts(args))) <==> AllCrFree(args)
  {
    if AllCrFree(args) {
      BulksAreWellFormed(args);
      DecodeReply(Array(Bulks(args)), [], stack);
      assert Command(args) + [] == Command(args);
    } else {
      DamagedCommand(args, stack - 1);
    }
  }
}
