/** Decimal text for integers: the `%d` verb and `strconv.Itoa` on the way
    out, `strconv.ParseInt(s, 10, 64)` on the way in. */
module Decimal {
  import opened Wrappers

  const Int64Min: int := -0x8000_0000_0000_0000
  const Int64Max: int := 0x7FFF_FFFF_FFFF_FFFF

  predicate IsDigit(c: char) {
    '0' <= c <= '9'
  }

  predicate AllDigits(s: string) {
    forall i :: 0 <= i < |s| ==> IsDigit(s[i])
  }

  function DigitValue(c: char): (d: nat)
    requires IsDigit(c)
    ensures d < 10
  {
    c as int - '0' as int
  }

  function DigitChar(d: nat): (c: char)
    requires d < 10
    ensures IsDigit(c) && DigitValue(c) == d
  {
    ('0' as int + d) as char
  }

  /** The value of a string of decimal digits, most significant first. */
  function DigitsValue(s: string): nat
    requires AllDigits(s)
  {
    if s == [] then 0 else 10 * DigitsValue(s[..|s| - 1]) + DigitValue(s[|s| - 1])
  }

  /** Shortest decimal text of a non-negative number. */
  function NatToString(n: nat): (s: string)
    ensures |s| >= 1 && AllDigits(s)
  {
    if n < 10 then [DigitChar(n)] else NatToString(n / 10) + [DigitChar(n % 10)]
  }

  /** Decimal text of any integer: a minus sign before a negative number. */
  function IntToString(x: int): (s: string)
    ensures |s| >= 1 && (x < 0 <==> s[0] == '-')
    ensures AllDigits(if x < 0 then s[1..] else s)
  {
    if x < 0 then "-" + NatToString(-x) else NatToString(x)
  }

  /** The text after an optional leading sign. */
  function Unsigned(s: string): string {
    if s != [] && (s[0] == '+' || s[0] == '-') then s[1..] else s
  }

  predicate Negative(s: string) {
    s != [] && s[0] == '-'
  }

  /** `strconv.ParseInt(s, 10, 64)`: an optional sign, then at least one
      decimal digit and nothing else, and a value that fits in 64 bits.
      `None` stands for both the syntax error and the range error. */
  function ParseInt64(s: string): (r: Option<int>)
    ensures r.Some? ==> Int64Min <= r.value <= Int64Max
    ensures r.Some? ==> s != [] && (IsDigit(s[0]) || s[0] == '+' || s[0] == '-')
    ensures r.Some? ==> AllDigits(s[1..])
    ensures r.Some? <==>
      Unsigned(s) != [] && AllDigits(Unsigned(s)) &&
      (if Negative(s) then Int64Min <= -(DigitsValue(Unsigned(s)) as int) else DigitsValue(Unsigned(s)) <= Int64Max)
    ensures r.Some? ==>
      r.value == (if Negative(s) then -(DigitsValue(Unsigned(s)) as int) else DigitsValue(Unsigned(s)))
  {
    if s == [] then None
    else
      var negative := s[0] == '-';
      var digits := if s[0] == '+' || s[0] == '-' then s[1..] else s;
      if digits == [] || !AllDigits(digits) then None
      else
        var magnitude: int := DigitsValue(digits);
        var value: int := if negative then -magnitude else magnitude;
        if Int64Min <= value <= Int64Max then Some(value) else None
  }

  lemma {:induction false} DigitsValueOfNatToString(n: nat)
    ensures DigitsValue(NatToString(n)) == n
  {
    var s := NatToString(n);
    if n >= 10 {
      DigitsValueOfNatToString(n / 10);
      assert s[..|s| - 1] == NatToString(n / 10);
    }
  }

  /** Decimal text is injective: two numbers with the same text are equal. */
  lemma NatToStringInjective(a: nat, b: nat)
    requires NatToString(a) == NatToString(b)
    ensures a == b
  {
    DigitsValueOfNatToString(a);
    DigitsValueOfNatToString(b);
  }

  /** A leading zero does not change the value of a digit string. */
  lemma {:induction false} DigitsValueLeadingZero(t: string)
    requires AllDigits(t)
    ensures AllDigits("0" + t) && DigitsValue("0" + t) == DigitsValue(t)
  {
    var s := "0" + t;
    assert AllDigits(s) by {
      forall i | 0 <= i < |s| ensures IsDigit(s[i]) {
        if i > 0 { assert s[i] == t[i - 1]; }
      }
    }
    if t != [] {
      var u := t[..|t| - 1];
      assert s[..|s| - 1] == "0" + u;
      DigitsValueLeadingZero(u);
    }
  }

  function Zeros(z: nat): (s: string)
    ensures |s| == z && AllDigits(s)
  {
    if z == 0 then "" else "0" + Zeros(z - 1)
  }

  lemma {:induction false} DigitsValueZeroPadded(z: nat, t: string)
    requires AllDigits(t)
    ensures AllDigits(Zeros(z) + t) && DigitsValue(Zeros(z) + t) == DigitsValue(t)
  {
    if z == 0 {
      assert Zeros(z) + t == t;
    } else {
      DigitsValueZeroPadded(z - 1, t);
      assert Zeros(z) + t == "0" + (Zeros(z - 1) + t);
      DigitsValueLeadingZero(Zeros(z - 1) + t);
    }
  }

  /** Any sign and any number of leading zeros are accepted: `+007` reads
      as 7 and `-0` as 0, and the value is range-checked after the sign. */
  lemma ParseZeroPadded(sign: string, z: nat, n: nat)
    requires sign == "" || sign == "+" || sign == "-"
    ensures ParseInt64(sign + Zeros(z) + NatToString(n)) ==
      (var v: int := if sign == "-" then -(n as int) else n;
       if Int64Min <= v <= Int64Max then Some(v) else None)
  {
    var t := Zeros(z) + NatToString(n);
    DigitsValueZeroPadded(z, NatToString(n));
    DigitsValueOfNatToString(n);
    assert sign + Zeros(z) + NatToString(n) == sign + t;
    UnsignedAfterSign(sign, t);
    var r := ParseInt64(sign + t);
    assert DigitsValue(Unsigned(sign + t)) == n;
  }

  lemma UnsignedAfterSign(sign: string, t: string)
    requires sign == "" || sign == "+" || sign == "-"
    requires t != [] && AllDigits(t)
    ensures Unsigned(sign + t) == t && (Negative(sign + t) <==> sign == "-")
  {
  }

  /** Parsing the text `IntToString` writes gives the number back, for every
      64-bit value. */
  lemma ParseIntToString(x: int)
    requires Int64Min <= x <= Int64Max
    ensures ParseInt64(IntToString(x)) == Some(x)
  {
    var s := IntToString(x);
    if x < 0 {
      DigitsValueOfNatToString(-x);
      assert s[1..] == NatToString(-x);
    } else {
      DigitsValueOfNatToString(x);
    }
  }
}
