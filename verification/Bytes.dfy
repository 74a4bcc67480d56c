/** Byte strings, and the decimal numerals the protocol uses for lengths and counts. */
module Bytes {

  newtype byte = x: int | 0 <= x < 256
  type bytes = seq<byte>

  // The characters of the protocol.
  const CR: byte := '\r' as int as byte
  const LF: byte := '\n' as int as byte
  const PLUS: byte := '+' as int as byte
  const MINUS: byte := '-' as int as byte
  const DOLLAR: byte := '$' as int as byte
  const PERCENT: byte := '%' as int as byte
  const STAR: byte := '*' as int as byte
  const COLON: byte := ':' as int as byte
  const UNDERSCORE: byte := '_' as int as byte
  const ZERO: byte := '0' as int as byte
  const ONE: byte := '1' as int as byte
  const NINE: byte := '9' as int as byte

  const CRLF: bytes := [CR, LF]

  /** The bytes of a text whose characters all have codes below 128. */
  function Ascii(text: string): (s: bytes)
    requires forall i :: 0 <= i < |text| ==> text[i] as int < 128
    ensures |s| == |text| && forall i :: 0 <= i < |text| ==> s[i] as int == text[i] as int
  {
    seq(|text|, i requires 0 <= i < |text| => text[i] as int as byte)
  }

  /** The bytes with a meaning of their own, as characters. */
  lemma WireCharacters()
    ensures CR as char == '\r' && LF as char == '\n'
    ensures PLUS as char == '+' && MINUS as char == '-' && COLON as char == ':' && DOLLAR as char == '$'
    ensures STAR as char == '*' && PERCENT as char == '%' && UNDERSCORE as char == '_'
    ensures ZERO as char == '0' && NINE as char == '9'
  {
  }

  // The range of a Go int on a 64-bit platform.
  const MAX_INT64 := 0x7fff_ffff_ffff_ffff
  const MIN_INT64 := -0x8000_0000_0000_0000
  const MAX_UINT64 := 0xffff_ffff_ffff_ffff

  datatype Option<T> = None | Some(value: T) {
    /** This option if it holds a value, the other one otherwise. */
    function Or(other: Option<T>): Option<T> {
      if Some? then this else other
    }
  }

  ghost predicate CrFree(s: bytes) {
    CR !in s
  }

  predicate IsDigit(b: byte) {
    ZERO <= b <= NINE
  }

  ghost predicate AllDigits(s: bytes) {
    forall i :: 0 <= i < |s| ==> IsDigit(s[i])
  }

  /** `part` stands in `data` from position `i` on. */
  ghost predicate At(data: bytes, i: nat, part: bytes) {
    && i + |part| <= |data|
    && forall k :: 0 <= k < |part| ==> data[i + k] == part[k]
  }

  lemma AtSplit(data: bytes, i: nat, a: bytes, b: bytes)
    requires At(data, i, a + b)
    ensures At(data, i, a) && At(data, i + |a|, b)
  {
    assert forall k :: 0 <= k < |a| ==> (a + b)[k] == a[k];
    forall k | 0 <= k < |b|
      ensures data[i + |a| + k] == b[k]
    {
      assert (a + b)[|a| + k] == b[k];
    }
  }

  lemma AtIndex(data: bytes, i: nat, part: bytes, k: nat)
    requires At(data, i, part) && k < |part|
    ensures data[i + k] == part[k]
  {
  }

  /** Decimal digits of n, most significant first (Go's strconv.Itoa). */
  function Itoa(n: nat): (s: bytes)
    ensures |s| >= 1 && AllDigits(s)
  {
    if n < 10 then [(48 + n) as byte] else Itoa(n / 10) + [(48 + n % 10) as byte]
  }

  lemma DigitsAreCrFree(s: bytes)
    requires AllDigits(s)
    ensures CrFree(s)
  {
    assert forall i :: 0 <= i < |s| ==> IsDigit(s[i]);
  }

  datatype Magnitude = Number(n: nat) | NotANumber | TooLarge

  /** Value of a digit string as an unsigned 64-bit number. Reading stops at the first
      character that is no digit, or at the first digit that makes the number too large. */
  function ReadDigits(s: bytes): Magnitude {
    if s == [] then Number(0)
    else
      var front := ReadDigits(s[..|s| - 1]);
      var last := s[|s| - 1];
      if !front.Number? then front
      else if !IsDigit(last) then NotANumber
      else
        var n := front.n * 10 + (last as int - 48);
        if n > MAX_UINT64 then TooLarge else Number(n)
  }

  /** The number of strconv.Atoi, whose error the callers ignore: 0 for text that is no
      number, the nearest 64-bit integer for a number out of range. */
  function Atoi(s: bytes): (n: int)
    ensures MIN_INT64 <= n <= MAX_INT64
  {
    if s == [] then 0
    else
      var negative := s[0] == MINUS;
      var body := if s[0] == MINUS || s[0] == PLUS then s[1..] else s;
      if body == [] then 0
      else match ReadDigits(body)
        case NotANumber => 0
        case TooLarge => if negative then MIN_INT64 else MAX_INT64
        case Number(n) =>
          if negative then (if n > -MIN_INT64 then MIN_INT64 else -(n as int))
          else if n > MAX_INT64 then MAX_INT64
          else n
  }

  lemma {:induction false} ReadDigitsItoa(n: nat)
    requires n <= MAX_UINT64
    ensures ReadDigits(Itoa(n)) == Number(n)
  {
    if n < 10 {
      assert Itoa(n)[..0] == [];
    } else {
      ReadDigitsItoa(n / 10);
      assert Itoa(n)[..|Itoa(n)| - 1] == Itoa(n / 10);
    }
  }

  /** A printed length is read back exactly. */
  lemma AtoiItoa(n: nat)
    requires n <= MAX_INT64
    ensures Atoi(Itoa(n)) == n
  {
    ReadDigitsItoa(n);
    assert IsDigit(Itoa(n)[0]);
  }

  lemma AtoiMinusOne()
    ensures Atoi([MINUS, ONE]) == -1
  {
    assert [MINUS, ONE][1..] == [ONE];
    assert [ONE][..0] == [];
    assert ReadDigits([ONE]) == Number(1);
  }

  // ---------------------------------------------------------------- other numerals

  /** A sign in front of a printed number. */
  lemma AtoiSigned(n: nat)
    requires n <= MAX_INT64
    ensures Atoi([PLUS] + Itoa(n)) == n && Atoi([MINUS] + Itoa(n)) == 0 - n
  {
    ReadDigitsItoa(n);
    assert ([PLUS] + Itoa(n))[1..] == Itoa(n) == ([MINUS] + Itoa(n))[1..];
  }

  lemma {:induction false} ReadDigitsTooLarge(n: nat)
    requires n > MAX_UINT64
    ensures ReadDigits(Itoa(n)) == TooLarge
  {
    var s := Itoa(n);
    assert s[..|s| - 1] == Itoa(n / 10);
    if n / 10 > MAX_UINT64 {
      ReadDigitsTooLarge(n / 10);
    } else {
      ReadDigitsItoa(n / 10);
    }
  }

  /** A number that is too large for an int is taken for the largest one. */
  lemma AtoiSaturates(n: nat)
    requires n > MAX_INT64
    ensures Atoi(Itoa(n)) == MAX_INT64
  {
    assert IsDigit(Itoa(n)[0]);
    if n > MAX_UINT64 {
      ReadDigitsTooLarge(n);
    } else {
      ReadDigitsItoa(n);
    }
  }

  lemma {:induction false} ReadDigitsNoNumber(s: bytes)
    requires s != [] && !IsDigit(s[0])
    ensures ReadDigits(s) == NotANumber
  {
    if |s| > 1 {
      assert s[..|s| - 1][0] == s[0];
      ReadDigitsNoNumber(s[..|s| - 1]);
    } else {
      assert s[..0] == [];
    }
  }

  /** A text that does not begin like a number is taken for 0. */
  lemma AtoiNoNumber(s: bytes)
    requires s == [] || (!IsDigit(s[0]) && s[0] != PLUS && s[0] != MINUS)
    ensures Atoi(s) == 0
  {
    if s != [] {
      ReadDigitsNoNumber(s);
    }
  }
}
