/** Decimal and hexadecimal numerals, as `strconv` and `uuid` print and parse them. */
module Numerals {
  import opened Wrappers

  predicate IsDigit(c: char) { '0' <= c <= '9' }

  predicate AllDigits(s: string) { forall i | 0 <= i < |s| :: IsDigit(s[i]) }

  function DigitChar(d: nat): (c: char)
    requires d < 10
    ensures IsDigit(c) && DigitValue(c) == d
  {
    ('0' as int + d) as char
  }

  function DigitValue(c: char): nat
    requires IsDigit(c)
  {
    c as int - '0' as int
  }

  function Decimal(n: nat): (s: string)
    ensures s != [] && AllDigits(s)
  {
    if n < 10 then [DigitChar(n)] else Decimal(n / 10) + [DigitChar(n % 10)]
  }

  function DecimalValue(s: string): nat
    requires AllDigits(s)
  {
    if s == [] then 0 else 10 * DecimalValue(s[..|s| - 1]) + DigitValue(s[|s| - 1])
  }

  lemma {:induction false} DecimalRoundTrip(n: nat)
    ensures DecimalValue(Decimal(n)) == n
  {
    if n >= 10 {
      DecimalRoundTrip(n / 10);
      var s := Decimal(n);
      assert s[..|s| - 1] == Decimal(n / 10);
    }
  }

  lemma DecimalGrows(n: nat, c: char)
    requires n > 0 && IsDigit(c)
    ensures Decimal(10 * n + DigitValue(c)) == Decimal(n) + [c]
  {
    var v := 10 * n + DigitValue(c);
    assert v >= 10 && v / 10 == n && v % 10 == DigitValue(c);
  }

  lemma ZerosGrow(z: nat, c: char)
    requires IsDigit(c)
    ensures Zeros(z) + "0" + [c] == Zeros(z + 1) + Decimal(DigitValue(c))
  {
    assert Decimal(DigitValue(c)) == [c];
    assert Zeros(z) + "0" == Zeros(z + 1);
  }

  lemma {:induction false} Padding(s: string) returns (z: nat)
    requires s != [] && AllDigits(s)
    ensures s == Zeros(z) + Decimal(DecimalValue(s))
    decreases |s|
  {
    var front, last := s[..|s| - 1], s[|s| - 1];
    assert s == front + [last];
    var n := DecimalValue(front);
    assert DecimalValue(s) == 10 * n + DigitValue(last);
    if front == [] {
      z := 0;
    } else {
      z := Padding(front);
      if n == 0 {
        ZerosGrow(z, last);
        z := z + 1;
      } else {
        DecimalGrows(n, last);
        assert s == Zeros(z) + Decimal(n) + [last] == Zeros(z) + (Decimal(n) + [last]);
      }
    }
  }

  /** A numeral is its zeros followed by the numeral `Decimal` prints. */
  lemma NumeralIsPadded(s: string)
    requires s != [] && AllDigits(s)
    ensures exists z: nat :: s == Zeros(z) + Decimal(DecimalValue(s))
  {
    var z := Padding(s);
  }

  function Zeros(z: nat): (s: string)
    ensures |s| == z && AllDigits(s)
  {
    seq(z, _ => '0')
  }

  lemma {:induction false} ZerosAddNothing(z: nat, s: string)
    requires AllDigits(s)
    ensures DecimalValue(Zeros(z) + s) == DecimalValue(s)
    decreases |s| + z
  {
    var t := Zeros(z) + s;
    if s != [] {
      assert t[..|t| - 1] == Zeros(z) + s[..|s| - 1];
      ZerosAddNothing(z, s[..|s| - 1]);
    } else if z > 0 {
      assert t[..|t| - 1] == Zeros(z - 1) + [];
      ZerosAddNothing(z - 1, []);
    }
  }

  function Signed(n: int): string {
    if n < 0 then "-" + Decimal(-n) else Decimal(n)
  }

  /** The widths the service asks `strconv` for. */
  datatype Width = Int32 | Int64 {
    function Limit(): (p: int)
      ensures p > 0
    {
      match this
      case Int32 => 0x8000_0000
      case Int64 => 0x8000_0000_0000_0000
    }

    predicate Holds(n: int) { -Limit() <= n < Limit() }
  }

  predicate Negative(s: string) { s != [] && s[0] == '-' }

  function Unsigned(s: string): string {
    if s != [] && (s[0] == '-' || s[0] == '+') then s[1..] else s
  }

  /** `strconv.ParseInt` in base ten: an optional sign, at least one digit, and a value that fits. */
  function ParseInt(s: string, width: Width): (r: Option<int>)
    ensures r.Some? ==> width.Holds(r.value)
  {
    var digits := Unsigned(s);
    if digits == [] || !AllDigits(digits) then None
    else
      var v: int := if Negative(s) then 0 - DecimalValue(digits) else DecimalValue(digits);
      if width.Holds(v) then Some(v) else None
  }

  /** A sign and digits are read as such. */
  lemma ParseSignedDigits(sign: string, digits: string, width: Width)
    requires sign in {"", "+", "-"}
    requires digits != [] && AllDigits(digits)
    ensures var v: int := if sign == "-" then 0 - DecimalValue(digits) else DecimalValue(digits);
            ParseInt(sign + digits, width) == if width.Holds(v) then Some(v) else None
  {
    var s := sign + digits;
    assert IsDigit(digits[0]);
    if sign == "" {
      assert s == digits;
    } else {
      assert s[1..] == digits;
    }
  }

  /** Every value of the width prints and parses back; no numeral outside the width parses. */
  lemma ParseIntInvertsSigned(n: int, width: Width)
    ensures ParseInt(Signed(n), width) == if width.Holds(n) then Some(n) else None
  {
    if n < 0 {
      DecimalRoundTrip(-n);
      ParseSignedDigits("-", Decimal(-n), width);
    } else {
      DecimalRoundTrip(n);
      assert "" + Decimal(n) == Decimal(n);
      ParseSignedDigits("", Decimal(n), width);
    }
  }

  predicate IsHex(c: char) { '0' <= c <= '9' || 'a' <= c <= 'f' || 'A' <= c <= 'F' }

  predicate AllHex(s: string) { forall i | 0 <= i < |s| :: IsHex(s[i]) }

  function HexDigit(d: nat): (c: char)
    requires d < 16
    ensures IsHex(c) && HexDigitValue(c) == d
  {
    if d < 10 then ('0' as int + d) as char else ('a' as int + d - 10) as char
  }

  function HexDigitValue(c: char): (d: nat)
    requires IsHex(c)
    ensures d < 16
  {
    if c <= '9' then c as int - '0' as int
    else if c <= 'F' then c as int - 'A' as int + 10
    else c as int - 'a' as int + 10
  }

  function SixteenTo(k: nat): nat {
    if k == 0 then 1 else 16 * SixteenTo(k - 1)
  }

  /** The `width` low hexadecimal digits of `n`, most significant first. */
  function Hex(n: nat, width: nat): (s: string)
    ensures |s| == width && AllHex(s)
  {
    if width == 0 then [] else Hex(n / 16, width - 1) + [HexDigit(n % 16)]
  }

  function HexValue(s: string): nat
    requires AllHex(s)
  {
    if s == [] then 0 else 16 * HexValue(s[..|s| - 1]) + HexDigitValue(s[|s| - 1])
  }

  lemma {:induction false} HexRoundTrip(n: nat, width: nat)
    requires n < SixteenTo(width)
    ensures HexValue(Hex(n, width)) == n
  {
    if width > 0 {
      HexRoundTrip(n / 16, width - 1);
      var s := Hex(n, width);
      assert s[..|s| - 1] == Hex(n / 16, width - 1);
    }
  }

  lemma {:induction false} HexValueFits(s: string)
    requires AllHex(s)
    ensures HexValue(s) < SixteenTo(|s|)
  {
    if s != [] {
      HexValueFits(s[..|s| - 1]);
    }
  }
}
