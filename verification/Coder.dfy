/** The coder: commands are written into a bounded buffer, replies are parsed from a slice. */
module Coder {
  import opened Bytes
  import opened Resp
  import Parsing
  import Progress

  class SendBuf {
    var writePos: nat
    var sentBytes: nat
    var buf: array<byte>

    constructor (len: nat)
      ensures writePos == 0 && sentBytes == 0 && fresh(buf) && buf.Length == len
    {
      writePos, sentBytes := 0, 0;
      buf := new byte[len](_ => 0);
    }
  }

  class RecvBuf {
    var writePos: nat
    var buf: array<byte>

    constructor (len: nat)
      ensures writePos == 0 && fresh(buf) && buf.Length == len
    {
      writePos := 0;
      buf := new byte[len](_ => 0);
    }
  }

  /** A command argument: a Go string, a []byte, or a value of any other type. */
  datatype Arg = Str(text: bytes) | Raw(text: bytes) | Other

  ghost predicate AllSupported(params: seq<Arg>) {
    forall i :: 0 <= i < |params| ==> !params[i].Other?
  }

  function Payloads(params: seq<Arg>): (args: seq<bytes>)
    ensures |args| == |params|
    ensures forall i :: 0 <= i < |params| ==> args[i] == if params[i].Other? then [] else params[i].text
  {
    seq(|params|, i requires 0 <= i < |params| => if params[i].Other? then [] else params[i].text)
  }

  ghost function Encoding(params: seq<Arg>): bytes {
    Command(Payloads(params))
  }

  /** What has been written once the header and the first `i` arguments are. */
  ghost function EncodedUpTo(params: seq<Arg>, i: nat): bytes
    requires i <= |params|
  {
    Header(STAR, |params|) + PrintAll(Bulks(Payloads(params))[..i])
  }

  lemma EncodedOneMore(params: seq<Arg>, i: nat)
    requires i < |params|
    ensures EncodedUpTo(params, i + 1) == EncodedUpTo(params, i) + PrintBulk(Payloads(params)[i])
  {
    var ts := Bulks(Payloads(params));
    PrintAllAppend(ts[..i], [ts[i]]);
    assert ts[..i + 1] == ts[..i] + [ts[i]];
    assert PrintAll([ts[i]]) == Print(ts[i]) + PrintAll([]) == Print(ts[i]);
  }

  lemma {:induction false} EncodedGrows(params: seq<Arg>, i: nat, j: nat)
    requires i <= j <= |params|
    ensures |EncodedUpTo(params, i)| <= |EncodedUpTo(params, j)|
    ensures i < j ==> |EncodedUpTo(params, i)| < |EncodedUpTo(params, j)|
    ensures EncodedUpTo(params, |params|) == Encoding(params)
    decreases j - i
  {
    var ts := Bulks(Payloads(params));
    assert ts[..|params|] == ts;
    if i < j {
      EncodedOneMore(params, i);
      EncodedGrows(params, i + 1, j);
    }
  }

  lemma EncodedEnds(params: seq<Arg>)
    ensures EncodedUpTo(params, 0) == Header(STAR, |params|)
    ensures EncodedUpTo(params, |params|) == Encoding(params)
  {
    EncodedGrows(params, |params|, |params|);
  }

  /** There is no room behind the header, or the first argument that is refused is supported but
      does not fit. */
  ghost predicate StopsAtLength(params: seq<Arg>, len: nat) {
    || |Header(STAR, |params|)| >= len
    || exists i :: 0 <= i < |params| && AllSupported(params[..i]) && !params[i].Other?
                   && |EncodedUpTo(params, i + 1)| > len
  }

  /** The first argument that is refused is not supported, and those in front of it fit. */
  ghost predicate StopsAtType(params: seq<Arg>, len: nat) {
    exists i :: 0 <= i < |params| && AllSupported(params[..i]) && params[i].Other? && |EncodedUpTo(params, i)| <= len
  }

  /** The bytes `b` with `s` laid over them from position `pos` on. */
  ghost function Overlay(b: bytes, pos: nat, s: bytes): (r: bytes)
    requires pos + |s| <= |b|
    ensures |r| == |b|
  {
    b[..pos] + s + b[pos + |s|..]
  }

  lemma OverlayNothing(b: bytes, pos: nat)
    requires pos <= |b|
    ensures Overlay(b, pos, []) == b
  {
  }

  lemma OverlayTwice(b: bytes, pos: nat, s: bytes, t: bytes)
    requires pos + |s| + |t| <= |b|
    ensures Overlay(Overlay(b, pos, s), pos + |s|, t) == Overlay(b, pos, s + t)
  {
    var c := Overlay(b, pos, s);
    assert c[..pos + |s|] == b[..pos] + s;
    assert c[pos + |s| + |t|..] == b[pos + |s| + |t|..];
    assert b[..pos] + s + t == b[..pos] + (s + t);
  }

  lemma OverlayArgument(b: bytes, params: seq<Arg>, i: nat)
    requires i < |params| && |EncodedUpTo(params, i)| + |PrintBulk(Payloads(params)[i])| <= |b|
    ensures |EncodedUpTo(params, i + 1)| == |EncodedUpTo(params, i)| + |PrintBulk(Payloads(params)[i])|
    ensures Overlay(Overlay(b, 0, EncodedUpTo(params, i)), |EncodedUpTo(params, i)|, PrintBulk(Payloads(params)[i]))
         == Overlay(b, 0, EncodedUpTo(params, i + 1))
  {
    EncodedOneMore(params, i);
    OverlayTwice(b, 0, EncodedUpTo(params, i), PrintBulk(Payloads(params)[i]));
  }

  lemma OverlayThrice(b: bytes, pos: nat, s: bytes, t: bytes, u: bytes)
    requires pos + |s| + |t| + |u| <= |b|
    ensures Overlay(Overlay(Overlay(b, pos, s), pos + |s|, t), pos + |s| + |t|, u) == Overlay(b, pos, s + (t + u))
  {
    OverlayTwice(b, pos, s, t);
    OverlayTwice(b, pos, s + t, u);
    assert s + t + u == s + (t + u);
  }

  /** An argument that is not written keeps the command from being encoded. */
  lemma RefusedForGoodReason(params: seq<Arg>, i: nat, len: nat)
    requires i < |params|
    ensures params[i].Other? ==> !AllSupported(params)
    ensures !params[i].Other? && |EncodedUpTo(params, i)| + |PrintBulk(params[i].text)| > len ==>
              |Encoding(params)| > len
  {
    if !params[i].Other? && |EncodedUpTo(params, i)| + |PrintBulk(params[i].text)| > len {
      DoesNotFit(params, i, len);
    }
  }

  /** Once an argument does not fit, the command does not. */
  lemma DoesNotFit(params: seq<Arg>, i: nat, len: nat)
    requires i < |params| && |EncodedUpTo(params, i)| + |PrintBulk(Payloads(params)[i])| > len
    ensures |Encoding(params)| > len
  {
    EncodedOneMore(params, i);
    EncodedGrows(params, i + 1, |params|);
  }

  lemma HeaderDoesNotFit(params: seq<Arg>, len: nat)
    requires params != [] && |Header(STAR, |params|)| >= len
    ensures |Encoding(params)| > len
  {
    assert EncodedUpTo(params, 0) == Header(STAR, |params|);
    DoesNotFit(params, 0, len);
  }

  datatype Return = Done(end: nat, value: Value) | Died(why: Parsing.Panic)

  datatype PairReturn = PairDone(end: nat, key: bytes, value: bytes) | PairDied(why: Parsing.Panic)

  /** A method call that returned `r` and turned decodingErr from `before` into `after` did
      what the outcome says. */
  ghost predicate Agrees(o: Parsing.Outcome, r: Return, before: Option<Error>, after: Option<Error>) {
    && after == o.err.Or(before)
    && match o
       case Parsed(end, value, _, _) => r == Done(end, value)
       case Panicked(why, _, _) => r == Died(why)
  }

  class Translator {
    var sendBuf: SendBuf?

    var decodingData: bytes
    var decodingErr: Option<Error>

    // The positions at which ParsePart was entered since Decode was called.
    ghost var entries: seq<nat>

    constructor ()
      ensures sendBuf == null && decodingData == [] && decodingErr == None
    {
      sendBuf := null;
      decodingData := [];
      decodingErr := None;
      entries := [];
    }

    // ---------------------------------------------------------------- encoding

    /** Writes a command from the start of an unused buffer. */
    method Encode(b: SendBuf, params: seq<Arg>) returns (err: Option<Error>)
      requires params != [] && b.writePos == 0
      modifies this`sendBuf, b`writePos, b.buf
      ensures sendBuf == b
      ensures err == None <==> AllSupported(params) && |Encoding(params)| <= b.buf.Length
      ensures err == None ==>
                && b.writePos == |Encoding(params)|
                && b.buf[..] == Overlay(old(b.buf[..]), 0, Encoding(params))
      ensures err != None ==> b.writePos == 0
      ensures err == None || err == Some(ErrSendBufTooShort) || err == Some(ErrUnsupportedDataType)
      ensures err == Some(ErrSendBufTooShort) ==> b.buf.Length < |Encoding(params)|
      ensures err == Some(ErrUnsupportedDataType) ==> !AllSupported(params)
      ensures err == Some(ErrSendBufTooShort) ==> StopsAtLength(params, b.buf.Length)
      ensures err == Some(ErrUnsupportedDataType) ==> StopsAtType(params, b.buf.Length)
    {
      sendBuf := b;
      ghost var before := b.buf[..];
      err := WriteArr(|params|);
      if err.Some? {
        HeaderDoesNotFit(params, b.buf.Length);
        return;
      }

      EncodedEnds(params);
      for i := 0 to |params|
        invariant sendBuf == b && err == None
        invariant Holds(before, EncodedUpTo(params, i))
        invariant forall j :: 0 <= j < i ==> !params[j].Other?
      {
        err := WriteParam(params, i, before);
        if err.Some? {
          assert AllSupported(params[..i]);
          ResetWritePos();
          return;
        }
      }
    }

    /** The buffer begins with `s`, the rest of it is as `before`. */
    ghost predicate Holds(before: bytes, s: bytes)
      reads this, sendBuf, if sendBuf != null then {sendBuf.buf} else {}
    {
      && sendBuf != null
      && sendBuf.writePos == |s| <= sendBuf.buf.Length == |before|
      && sendBuf.buf[..] == Overlay(before, 0, s)
    }

    /** Writes the next argument. If it is refused, the command cannot be encoded. */
    method WriteParam(params: seq<Arg>, i: nat, ghost before: bytes) returns (err: Option<Error>)
      requires i < |params| && Holds(before, EncodedUpTo(params, i))
      modifies sendBuf`writePos, sendBuf.buf
      ensures err == None ==> Holds(before, EncodedUpTo(params, i + 1)) && !params[i].Other?
      ensures err == None || err == Some(ErrSendBufTooShort) || err == Some(ErrUnsupportedDataType)
      ensures err == Some(ErrSendBufTooShort) ==> |Encoding(params)| > |before|
      ensures err == Some(ErrSendBufTooShort) ==> !params[i].Other? && |EncodedUpTo(params, i + 1)| > |before|
      ensures err == Some(ErrUnsupportedDataType) ==> params[i].Other?
    {
      err := WriteString(params[i]);
      if err.Some? {
        RefusedForGoodReason(params, i, |before|);
        EncodedOneMore(params, i);
      } else {
        OverlayArgument(before, params, i);
      }
    }

    /** The space for the digits of the argument count is estimated through a floating-point
        logarithm, which may come out one too low. */
    method WriteArr(paramsLen: nat) returns (err: Option<Error>)
      requires sendBuf != null && sendBuf.writePos == 0
      modifies sendBuf`writePos, sendBuf.buf
      ensures err == None || err == Some(ErrSendBufTooShort)
      ensures err == None ==> Holds(old(sendBuf.buf[..]), Header(STAR, paramsLen))
      ensures err != None ==> |Header(STAR, paramsLen)| >= sendBuf.buf.Length && sendBuf.writePos == 0
    {
      var paramsLenStr := Itoa(paramsLen);
      var paramsLenInBytes: nat :| |paramsLenStr| - 1 <= paramsLenInBytes <= |paramsLenStr|;
      var arrLen := 1 + paramsLenInBytes + 2;
      if arrLen >= SendBufLen() {
        return Some(ErrSendBufTooShort);
      }
      WriteHeader(STAR, paramsLen, paramsLenStr);
      return None;
    }

    method WriteString(cmdPart: Arg) returns (err: Option<Error>)
      requires sendBuf != null && sendBuf.writePos <= sendBuf.buf.Length
      modifies sendBuf`writePos, sendBuf.buf
      ensures err == if cmdPart.Other? then Some(ErrUnsupportedDataType)
                     else if |PrintBulk(cmdPart.text)| <= sendBuf.buf.Length - old(sendBuf.writePos) then None
                     else Some(ErrSendBufTooShort)
      ensures err == None ==>
                && sendBuf.writePos == old(sendBuf.writePos) + |PrintBulk(cmdPart.text)|
                && sendBuf.buf[..] == Overlay(old(sendBuf.buf[..]), old(sendBuf.writePos), PrintBulk(cmdPart.text))
      ensures err != None ==> sendBuf.writePos == old(sendBuf.writePos) && sendBuf.buf[..] == old(sendBuf.buf[..])
    {
      if cmdPart.Other? {
        return Some(ErrUnsupportedDataType);
      }
      var valueBytes := cmdPart.text;
      var valueLenBytes := Itoa(|valueBytes|);
      var valueLen := 1 + |valueLenBytes| + |valueBytes| + 4;
      if valueLen > SendBufFreeSpaceLen() {
        return Some(ErrSendBufTooShort);
      }
      WriteFrame(valueBytes, valueLenBytes);
      return None;
    }

    /** A bulk string behind the write position. */
    method WriteFrame(payload: bytes, digits: bytes)
      requires sendBuf != null && digits == Itoa(|payload|)
      requires sendBuf.writePos + |PrintBulk(payload)| <= sendBuf.buf.Length
      modifies sendBuf`writePos, sendBuf.buf
      ensures sendBuf.writePos == old(sendBuf.writePos) + |PrintBulk(payload)|
      ensures sendBuf.buf[..] == Overlay(old(sendBuf.buf[..]), old(sendBuf.writePos), PrintBulk(payload))
    {
      ghost var before, pos, header := sendBuf.buf[..], sendBuf.writePos, Header(DOLLAR, |payload|);
      WriteHeader(DOLLAR, |payload|, digits);
      WriteBytes(payload);
      ghost var written := sendBuf.buf[..];
      assert written == Overlay(Overlay(before, pos, header), pos + |header|, payload);
      WriteCrlf();
      OverlayThrice(before, pos, header, payload, CRLF);
    }

    /** The bytes both kinds of frame begin with. */
    method WriteHeader(kind: byte, ghost n: nat, digits: bytes)
      requires sendBuf != null && digits == Itoa(n)
      requires sendBuf.writePos + |digits| + 3 <= sendBuf.buf.Length
      modifies sendBuf`writePos, sendBuf.buf
      ensures sendBuf.writePos == old(sendBuf.writePos) + |Header(kind, n)|
      ensures sendBuf.buf[..] == Overlay(old(sendBuf.buf[..]), old(sendBuf.writePos), Header(kind, n))
    {
      ghost var before, pos := sendBuf.buf[..], sendBuf.writePos;
      WriteByte(kind);
      WriteBytes(digits);
      ghost var written := sendBuf.buf[..];
      assert written == Overlay(Overlay(before, pos, [kind]), pos + 1, digits);
      WriteCrlf();
      OverlayThrice(before, pos, [kind], digits, CRLF);
    }

    method WriteBytes(s: bytes)
      requires sendBuf != null && sendBuf.writePos + |s| <= sendBuf.buf.Length
      modifies sendBuf`writePos, sendBuf.buf
      ensures sendBuf.writePos == old(sendBuf.writePos) + |s|
      ensures sendBuf.buf[..] == Overlay(old(sendBuf.buf[..]), old(sendBuf.writePos), s)
    {
      ghost var before, pos := sendBuf.buf[..], sendBuf.writePos;
      OverlayNothing(before, pos);
      for i := 0 to |s|
        invariant sendBuf.writePos == pos + i
        invariant sendBuf.buf[..] == Overlay(before, pos, s[..i])
      {
        OverlayTwice(before, pos, s[..i], [s[i]]);
        assert s[..i] + [s[i]] == s[..i + 1];
        WriteByte(s[i]);
      }
      assert s[..|s|] == s;
    }

    method WriteCrlf()
      requires sendBuf != null && sendBuf.writePos + 2 <= sendBuf.buf.Length
      modifies sendBuf`writePos, sendBuf.buf
      ensures sendBuf.writePos == old(sendBuf.writePos) + 2
      ensures sendBuf.buf[..] == Overlay(old(sendBuf.buf[..]), old(sendBuf.writePos), CRLF)
    {
      ghost var before, pos := sendBuf.buf[..], sendBuf.writePos;
      WriteByte(CR);
      WriteByte(LF);
      OverlayTwice(before, pos, [CR], [LF]);
      assert [CR] + [LF] == CRLF;
    }

    method WriteByte(b: byte)
      requires sendBuf != null && sendBuf.writePos < sendBuf.buf.Length
      modifies sendBuf`writePos, sendBuf.buf
      ensures sendBuf.writePos == old(sendBuf.writePos) + 1
      ensures sendBuf.buf[..] == Overlay(old(sendBuf.buf[..]), old(sendBuf.writePos), [b])
    {
      sendBuf.buf[sendBuf.writePos] := b;
      sendBuf.writePos := sendBuf.writePos + 1;
    }

    method ResetWritePos()
      requires sendBuf != null
      modifies sendBuf`writePos
      ensures sendBuf.writePos == 0
    {
      sendBuf.writePos := 0;
    }

    function SendBufLen(): nat
      requires sendBuf != null
      reads this, sendBuf
    {
      sendBuf.buf.Length
    }

    function SendBufFreeSpaceLen(): int
      requires sendBuf != null
      reads this, sendBuf
    {
      SendBufLen() - sendBuf.writePos
    }

    // ---------------------------------------------------------------- decoding

    /** `stack` is the number of nested ParsePart calls the goroutine's stack has room for. */
    method Decode(input: bytes, stack: nat) returns (r: Parsing.Result)
      modifies this`decodingData, this`decodingErr, this`entries
      ensures (r, decodingErr) == Parsing.DecodeAfter(old(decodingErr), input, stack)
      ensures !r.Crash? ==> decodingErr == None
      ensures entries == Parsing.ParsePart(input, 0, stack).starts
      ensures UNDERSCORE !in input ==> Progress.PairwiseIncreasing(entries) && |entries| <= |input| + 1
    {
      decodingData := input;
      entries := [];
      if UNDERSCORE !in input {
        Progress.WorkIsLinear(input, stack);
      }
      var part := ParsePart(0, stack);
      if part.Died? {
        return Parsing.Crash(part.why);
      }
      var err := GetDecodingErr();
      if err.Some? {
        return Parsing.Err(err.value);
      }
      return Parsing.Ok(part.value);
    }

    method ParsePart(idx: nat, stack: nat) returns (r: Return)
      modifies this`decodingErr, this`entries
      ensures Agrees(Parsing.ParsePart(decodingData, idx, stack), r, old(decodingErr), decodingErr)
      ensures entries == old(entries) + Parsing.ParsePart(decodingData, idx, stack).starts
      decreases stack, 0
    {
      if stack == 0 {
        return Died(Parsing.StackOverflow);
      }
      ghost var seen := entries;
      entries := entries + [idx];
      if IsDataEnded(idx) {
        return Died(Parsing.IndexOutOfRange);
      }
      var kind := decodingData[idx];
      if kind == PLUS {
        r := ParseSimpleString(idx);
      } else if kind == DOLLAR {
        r := ParseBulkString(idx);
      } else if kind == PERCENT {
        r := ParseMap(idx, stack - 1, seen);
      } else if kind == COLON {
        r := ParseInteger(idx);
      } else if kind == STAR {
        r := ParseArray(idx, stack - 1, seen);
      } else if kind == UNDERSCORE {
        decodingErr := Some(ErrNoValue);
        r := Done(0, Nil);
      } else if kind == MINUS {
        var err := ParseError(idx);
        if err.None? {
          return Died(Parsing.IndexOutOfRange);
        }
        decodingErr := err;
        r := Done(idx, Nil);
      } else {
        decodingErr := Some(ErrUnsupportedDataType);
        r := Done(idx, Nil);
      }
    }

    method ParseSimpleString(start: nat) returns (r: Return)
      ensures Agrees(Parsing.ParseSimpleString(decodingData, start), r, decodingErr, decodingErr)
    {
      var str: bytes := [];
      var idx := start + 1;
      while true
        invariant Parsing.Scan(decodingData, idx, str) == Parsing.Scan(decodingData, start + 1, [])
        decreases |decodingData| - idx
      {
        if IsDataEnded(idx) {
          return Done(idx, Nil);
        }
        if decodingData[idx] == CR {
          idx := idx + 1;
          if IsDataEnded(idx) {
            return Done(idx, Nil);
          }
          if decodingData[idx] == LF {
            break;
          }
        }
        str := str + [decodingData[idx]];
        idx := idx + 1;
      }
      return Done(idx, Text(str));
    }

    method ParseInteger(start: nat) returns (r: Return)
      ensures Agrees(Parsing.ParseInteger(decodingData, start), r, decodingErr, decodingErr)
    {
      var idx, integer := ScanText(start + 1);
      return Done(idx, Text(integer));
    }

    /** The loop that parseInteger and parseBulkString share: the text read so far is returned
        even when the data ends before the line does. */
    method ScanText(start: nat) returns (idx: nat, str: bytes)
      ensures var s := Parsing.Scan(decodingData, start, []); idx == s.end && str == s.text
    {
      idx, str := start, [];
      while true
        invariant Parsing.Scan(decodingData, idx, str) == Parsing.Scan(decodingData, start, [])
        decreases |decodingData| - idx
      {
        if IsDataEnded(idx) {
          return;
        }
        if decodingData[idx] == CR {
          idx := idx + 1;
          if IsDataEnded(idx) || decodingData[idx] == LF {
            return;
          }
        }
        str := str + [decodingData[idx]];
        idx := idx + 1;
      }
    }

    method ParseBulkString(start: nat) returns (r: Return)
      modifies this`decodingErr
      ensures Agrees(Parsing.ParseBulkString(decodingData, start), r, old(decodingErr), decodingErr)
    {
      var idx := start + 1;
      if IsDataEnded(idx) {
        return Done(idx, Nil);
      }
      var strLen;
      idx, strLen := ParsePartLen(idx);
      if strLen == -1 {
        decodingErr := Some(ErrNoValue);
        return Done(idx, Nil);
      }
      if Parsing.CannotAllocate(strLen, MAX_BYTES) {
        return Died(Parsing.CapOutOfRange);
      }
      var str;
      idx, str := ScanText(idx + 1);
      return Done(idx, Text(str));
    }

    method ParsePartLen(start: nat) returns (idx: nat, len: int)
      ensures idx == Parsing.PartLenEnd(decodingData, start) && len == Parsing.PartLen(decodingData, start)
    {
      var valueLenBytes: bytes := [];
      idx := start;
      while true
        invariant Parsing.Scan(decodingData, idx, valueLenBytes) == Parsing.Scan(decodingData, start, [])
        decreases |decodingData| - idx
      {
        if IsDataEnded(idx) {
          return idx, 0;
        }
        if decodingData[idx] == CR {
          idx := idx + 1;
          if IsDataEnded(idx) {
            return idx, 0;
          }
          if decodingData[idx] == LF {
            break;
          }
        }
        valueLenBytes := valueLenBytes + [decodingData[idx]];
        idx := idx + 1;
      }
      return idx, Atoi(valueLenBytes);
    }

    /** The error of an error reply; None when the loop runs off the end of the data. */
    method ParseError(start: nat) returns (err: Option<Error>)
      ensures var s := Parsing.Scan(decodingData, start + 1, []);
        err == if s.closed then Some(ErrRedisException(s.text)) else None
    {
      var errValue: bytes := [];
      var idx := start + 1;
      while true
        invariant Parsing.Scan(decodingData, idx, errValue) == Parsing.Scan(decodingData, start + 1, [])
        decreases |decodingData| - idx
      {
        if IsDataEnded(idx) {
          return None;
        }
        if decodingData[idx] == CR {
          idx := idx + 1;
          if IsDataEnded(idx) {
            return None;
          }
          if decodingData[idx] == LF {
            break;
          }
        }
        errValue := errValue + [decodingData[idx]];
        idx := idx + 1;
      }
      return Some(ErrRedisException(errValue));
    }

    method ParseArray(start: nat, stack: nat, ghost seen: seq<nat>) returns (r: Return)
      requires entries == seen + [start]
      modifies this`decodingErr, this`entries
      ensures Agrees(Parsing.ParseArray(decodingData, start, stack), r, old(decodingErr), decodingErr)
      ensures entries == seen + Parsing.ParseArray(decodingData, start, stack).starts
      decreases stack, 2
    {
      var idx := start + 1;
      if IsDataEnded(idx) {
        return Done(idx, Nil);
      }
      var arrLen;
      idx, arrLen := ParsePartLen(idx);
      if Parsing.CannotAllocate(arrLen, MAX_ANYS) {
        return Died(Parsing.CapOutOfRange);
      }
      var arr: seq<Value> := [];
      ghost var err, starts := None, [start];
      while arrLen > 0
        invariant 0 <= idx
        invariant Parsing.ParseItems(decodingData, idx, arrLen, stack, arr, err, starts)
               == Parsing.ParseArray(decodingData, start, stack)
        invariant decodingErr == err.Or(old(decodingErr)) && entries == seen + starts
      {
        ghost var o := Parsing.Resume(Parsing.ParsePart(decodingData, idx + 1, stack), err, starts);
        idx := idx + 1;
        if IsDataEnded(idx) {
          return Done(idx, List(arr));
        }
        var part := ParsePart(idx, stack);
        assert entries == seen + o.starts;
        if part.Died? {
          return part;
        }
        idx := part.end;
        arr := arr + [part.value];
        arrLen := arrLen - 1;
        err, starts := o.err, o.starts;
      }
      return Done(idx, List(arr));
    }

    method ParseMap(start: nat, stack: nat, ghost seen: seq<nat>) returns (r: Return)
      requires entries == seen + [start]
      modifies this`decodingErr, this`entries
      ensures Agrees(Parsing.ParseMap(decodingData, start, stack), r, old(decodingErr), decodingErr)
      ensures entries == seen + Parsing.ParseMap(decodingData, start, stack).starts
      decreases stack, 2
    {
      var idx := start + 1;
      if IsDataEnded(idx) {
        return Done(idx, Nil);
      }
      var mapLen;
      idx, mapLen := ParsePartLen(idx);
      var m: map<bytes, bytes> := map[];
      ghost var err, starts := None, [start];
      while mapLen > 0
        invariant 0 <= idx
        invariant Parsing.ParsePairs(decodingData, idx, mapLen, stack, m, err, starts)
               == Parsing.ParseMap(decodingData, start, stack)
        invariant decodingErr == err.Or(old(decodingErr)) && entries == seen + starts
      {
        ghost var o := Parsing.ParseKeyAndValue(decodingData, idx + 1, stack, err, starts);
        idx := idx + 1;
        if IsDataEnded(idx) {
          return Done(idx, Dict(m));
        }
        var pair := ParseMapKeyAndValue(idx, stack, err, starts, old(decodingErr), seen);
        if pair.PairDied? {
          return Died(pair.why);
        }
        idx := pair.end;
        m := m[pair.key := pair.value];
        mapLen := mapLen - 1;
        err, starts := o.err, o.starts;
      }
      return Done(idx, Dict(m));
    }

    /** `err` is the last error stored since the map began, `base` the one stored before; `starts`
        and `seen` are the same for the entries into ParsePart. */
    method ParseMapKeyAndValue(start: nat, stack: nat, ghost err: Option<Error>, ghost starts: seq<nat>,
                               ghost base: Option<Error>, ghost seen: seq<nat>)
      returns (r: PairReturn)
      requires decodingErr == err.Or(base) && entries == seen + starts
      modifies this`decodingErr, this`entries
      ensures var o := Parsing.ParseKeyAndValue(decodingData, start, stack, err, starts);
        && decodingErr == o.err.Or(base) && entries == seen + o.starts
        && match o
           case PairPanicked(why, _, _) => r == PairDied(why)
           case PairParsed(end, key, value, _, _) => r == PairDone(end, key, value)
      decreases stack, 1
    {
      ghost var o1 := Parsing.ParsePart(decodingData, start, stack);
      var part := ParsePart(start, stack);
      assert entries == seen + (starts + o1.starts);
      if part.Died? {
        return PairDied(part.why);
      }
      var key: bytes := [];
      if part.value.Text? {
        key := part.value.text;
      } else {
        decodingErr := Some(ErrTypeAssert);
      }
      var idx := part.end + 1;

      ghost var o2 := Parsing.ParsePart(decodingData, idx, stack);
      part := ParsePart(idx, stack);
      assert entries == seen + (starts + o1.starts + o2.starts);
      if part.Died? {
        return PairDied(part.why);
      }
      var value: bytes := [];
      match part.value {
        case Text(text) => value := text;
        case List(items) => value := if items == [] then [] else ARR_PLACEHOLDER;
        case _ =>
      }
      return PairDone(part.end, key, value);
    }

    predicate IsDataEnded(idx: nat)
      reads this
    {
      idx >= |decodingData|
    }

    method GetDecodingErr() returns (err: Option<Error>)
      modifies this`decodingErr
      ensures err == old(decodingErr) && decodingErr == None
    {
      err := decodingErr;
      decodingErr := None;
    }
  }
}
