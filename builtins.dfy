/** Bytes and the few host-language services the codec leans on: reading a
    byte of a buffer, `bytes.index`, slicing, `str(n)` and `int(text)` on
    ASCII decimal text. */
module Builtins {
  import opened Wrappers

  type byte = x: int | 0 <= x < 256

  // The ASCII bytes that carry meaning on the wire.
  const Zero: byte := 0x30    // '0'
  const Nine: byte := 0x39    // '9'
  const Minus: byte := 0x2D   // '-'
  const Colon: byte := 0x3A   // ':'
  const LowerD: byte := 0x64  // 'd'
  const LowerE: byte := 0x65  // 'e'
  const LowerI: byte := 0x69  // 'i'
  const LowerL: byte := 0x6C  // 'l'

  predicate IsDigit(b: byte) {
    Zero <= b <= Nine
  }

  predicate AllDigits(s: seq<byte>) {
    forall k :: 0 <= k < |s| ==> IsDigit(s[k])
  }

  /** A decimal numeral as `str(n)` writes it: at least one digit and no
      leading zero unless the numeral is "0" itself. */
  predicate CanonicalDigits(s: seq<byte>) {
    |s| >= 1 && AllDigits(s) && (s[0] == Zero ==> |s| == 1)
  }

  /** An integer as `str(n)` writes it: a canonical numeral, or a minus
      sign and a canonical numeral other than "0". */
  predicate CanonicalInt(s: seq<byte>) {
    CanonicalDigits(s) || (|s| >= 2 && s[0] == Minus && s[1] != Zero && CanonicalDigits(s[1..]))
  }

  /** The number a canonical integer denotes. */
  function IntValue(s: seq<byte>): int
    requires CanonicalInt(s)
  {
    if s[0] == Minus then -(DigitsValue(s[1..]) as int) else DigitsValue(s)
  }

  /** `data.index(bytes([b]), from)`: the first position at or after `from`
      that holds `b`; `None` where Python raises ValueError. */
  function Find(data: seq<byte>, b: byte, from: nat): (r: Option<nat>)
    ensures r.Some? ==> from <= r.value < |data| && data[r.value] == b
    ensures r.Some? ==> forall k :: from <= k < r.value ==> data[k] != b
    ensures r.None? ==> forall k :: from <= k < |data| ==> data[k] != b
    decreases |data| - from
  {
    if from >= |data| then None
    else if data[from] == b then Some(from)
    else Find(data, b, from + 1)
  }

  /** `data[lo:hi]` for a start `lo` that is never negative: Python clamps
      both ends to the buffer and yields nothing when `hi` is below `lo`,
      counting a negative `hi` from the end. */
  function Slice(data: seq<byte>, lo: nat, hi: int): (r: seq<byte>)
    ensures lo <= hi <= |data| ==> r == data[lo..hi]
    ensures lo <= |data| <= hi ==> r == data[lo..]
    ensures 0 <= hi <= lo || |data| <= lo ==> r == []
    ensures hi < 0 ==> r == if lo <= |data| + hi then data[lo..|data| + hi] else []
    ensures |r| <= |data|
  {
    var a := if lo <= |data| then lo else |data|;
    var b := if hi < 0 then (if hi + |data| < 0 then 0 else hi + |data|)
             else if hi <= |data| then hi else |data|;
    if a <= b then data[a..b] else []
  }

  /** `str(n).encode()` for a non-negative `n`. */
  function Digits(n: nat): (r: seq<byte>)
    ensures CanonicalDigits(r)
    ensures r[0] == Zero <==> n == 0
  {
    if n < 10 then [Zero + n]
    else
      var prefix := Digits(n / 10);
      prefix + [Zero + n % 10]
  }

  /** `str(n).encode()` for any integer: a minus sign, then the digits of the
      magnitude. */
  function ShowInt(n: int): (r: seq<byte>)
    ensures |r| >= 1
    ensures r[0] == Minus <==> n < 0
    ensures forall k :: 0 <= k < |r| ==> r[k] != LowerE && r[k] != Colon
  {
    if n < 0 then [Minus] + Digits(-n) else Digits(n)
  }

  /** The number a run of decimal digits denotes. */
  function DigitsValue(s: seq<byte>): nat
    requires AllDigits(s)
  {
    if s == [] then 0 else DigitsValue(s[..|s| - 1]) * 10 + (s[|s| - 1] - Zero)
  }

  /** `int(text)` on a byte-string length: one or more ASCII digits, and
      failure on anything else. */
  function ParseNat(s: seq<byte>): (r: Option<nat>)
    ensures r.Some? <==> |s| >= 1 && AllDigits(s)
  {
    if |s| >= 1 && AllDigits(s) then Some(DigitsValue(s)) else None
  }

  /** `int(text)` on an integer body: an optional minus sign followed by one
      or more ASCII digits, and failure on anything else. */
  function ParseInt(s: seq<byte>): (r: Option<int>)
    ensures r.Some? <==> |s| >= 1 && (if s[0] == Minus then ParseNat(s[1..]).Some? else ParseNat(s).Some?)
    ensures r.Some? && s[0] == Minus ==> r.value <= 0
    ensures r.Some? && s[0] != Minus ==> r.value >= 0
  {
    if |s| >= 1 && s[0] == Minus then
      match ParseNat(s[1..])
      case None => None
      case Some(n) => Some(-(n as int))
    else
      match ParseNat(s)
      case None => None
      case Some(n) => Some(n)
  }

  /** Reading back what `Digits` writes recovers the number. */
  lemma {:induction false} ParseNatDigits(n: nat)
    ensures ParseNat(Digits(n)) == Some(n)
  {
    var d := Digits(n);
    if n >= 10 {
      ParseNatDigits(n / 10);
      assert d[..|d| - 1] == Digits(n / 10);
      assert d[|d| - 1] - Zero == n % 10;
      assert DigitsValue(d) == (n / 10) * 10 + n % 10;
    }
  }

  /** A canonical numeral that is not "0" denotes a positive number. */
  lemma {:induction false} CanonicalIsPositive(s: seq<byte>)
    requires CanonicalDigits(s) && s[0] != Zero
    ensures DigitsValue(s) > 0
  {
    if |s| > 1 {
      CanonicalIsPositive(s[..|s| - 1]);
    }
  }

  /** Writing back what was read from a canonical numeral gives the same
      bytes: `Digits` is the only canonical spelling of a number. */
  lemma {:induction false} DigitsOfCanonical(s: seq<byte>)
    requires CanonicalDigits(s)
    ensures Digits(DigitsValue(s)) == s
  {
    if |s| > 1 {
      var prefix := s[..|s| - 1];
      CanonicalIsPositive(prefix);
      DigitsOfCanonical(prefix);
      assert s == prefix + [s[|s| - 1]];
    }
  }

  /** `int(str(n)) == n`. */
  lemma ParseIntShowInt(n: int)
    ensures ParseInt(ShowInt(n)) == Some(n)
  {
    if n < 0 {
      ParseNatDigits(-n);
      assert ShowInt(n)[1..] == Digits(-n);
    } else {
      ParseNatDigits(n);
    }
  }

  /** An integer body that the decoder's sign and leading-zero checks let
      through, and that `int()` accepts, is exactly `str()` of its value. */
  lemma ShowIntOfCanonical(s: seq<byte>)
    requires ParseInt(s).Some?
    requires s[0] == Zero ==> |s| == 1
    requires s[0] == Minus ==> |s| >= 2 && s[1] != Zero
    ensures ShowInt(ParseInt(s).value) == s
  {
    if s[0] == Minus {
      var digits := s[1..];
      CanonicalIsPositive(digits);
      DigitsOfCanonical(digits);
      assert s == [Minus] + digits;
    } else {
      DigitsOfCanonical(s);
    }
  }
}
