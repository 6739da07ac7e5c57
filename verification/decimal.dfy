/** Decimal text of Java `int` values: `String.valueOf(int)` and
    `Integer.parseInt(String)` restricted to ASCII digits. */
module Decimal {
  import opened Results

  /** Bounds of Java's 32-bit `int`. */
  const MinInt: int := -0x8000_0000
  const MaxInt: int := 0x7FFF_FFFF

  predicate IsInt32(n: int) {
    MinInt <= n <= MaxInt
  }

  predicate IsDigit(c: char) {
    '0' <= c <= '9'
  }

  predicate AllDigits(s: string) {
    forall i :: 0 <= i < |s| ==> IsDigit(s[i])
  }

  function DigitValue(c: char): (d: nat)
    requires IsDigit(c)
    ensures d < 10
  {
    (c as int) - ('0' as int)
  }

  function DigitChar(d: nat): (c: char)
    requires d < 10
    ensures IsDigit(c) && DigitValue(c) == d
  {
    (('0' as int) + d) as char
  }

  /** The number a run of decimal digits denotes, most significant digit
      first; leading zeros are allowed, as `Integer.parseInt` allows them. The
      empty run denotes 0, which the recursion needs; `ParseInt` rejects the
      empty text itself. */
  function DigitsValue(s: string): nat
    requires AllDigits(s)
  {
    if |s| == 0 then 0 else 10 * DigitsValue(s[..|s| - 1]) + DigitValue(s[|s| - 1])
  }

  /** Shortest decimal text of a natural number: no leading zeros, "0" for zero. */
  function NatToString(n: nat): (s: string)
    ensures |s| >= 1 && AllDigits(s)
    ensures |s| == 1 <==> n < 10
    ensures s[0] == '0' ==> n == 0
    decreases n
  {
    if n < 10 then [DigitChar(n)] else NatToString(n / 10) + [DigitChar(n % 10)]
  }

  lemma {:induction false} NatToStringValue(n: nat)
    ensures DigitsValue(NatToString(n)) == n
    decreases n
  {
    if n >= 10 {
      var s := NatToString(n);
      assert s[..|s| - 1] == NatToString(n / 10);
      NatToStringValue(n / 10);
    }
  }

  /** `String.valueOf(int)`: a leading '-' for negative values, then the
      digits of the magnitude. */
  function IntToString(i: int): (s: string)
    ensures |s| >= 1
    ensures |s| == 1 <==> 0 <= i < 10
    ensures s[0] == '-' <==> i < 0
    ensures s[0] == '0' ==> i == 0
    ensures i < 0 ==> |s| >= 2 && s[1] != '0'
    ensures forall k :: 0 <= k < |s| ==> IsDigit(s[k]) || (k == 0 && s[k] == '-')
  {
    if i < 0 then "-" + NatToString(-i) else NatToString(i)
  }

  /** `Integer.parseInt(s)` with radix 10: an optional '+' or '-' sign, at least
      one digit, and a value within the `int` range; anything else throws
      `NumberFormatException`, modelled as `None`. */
  function ParseInt(s: string): (r: Option<int>)
    ensures r.Some? ==> IsInt32(r.value)
    ensures |s| == 0 ==> r.None?
    ensures AllDigits(s) && |s| >= 1 && DigitsValue(s) <= MaxInt ==> r == Some(DigitsValue(s))
    ensures r.Some? ==>
      var d := if s[0] == '-' || s[0] == '+' then s[1..] else s;
      |d| >= 1 && AllDigits(d)
      && r.value == (if s[0] == '-' then 0 - (DigitsValue(d) as int) else DigitsValue(d))
    ensures (|s| >= 2 && (s[0] == '-' || s[0] == '+') && AllDigits(s[1..])
             && IsInt32(if s[0] == '-' then 0 - (DigitsValue(s[1..]) as int) else DigitsValue(s[1..]))) ==> r.Some?
  {
    if |s| == 0 then None
    else if s[0] == '-' || s[0] == '+' then
      if |s| == 1 || !AllDigits(s[1..]) then None
      else
        var v: int := if s[0] == '-' then 0 - (DigitsValue(s[1..]) as int) else DigitsValue(s[1..]);
        if IsInt32(v) then Some(v) else None
    else if !AllDigits(s) then None
    else if DigitsValue(s) <= MaxInt then Some(DigitsValue(s))
    else None
  }

  /** Parsing undoes printing for every `int`. */
  lemma ParseIntOfIntToString(i: int)
    requires IsInt32(i)
    ensures ParseInt(IntToString(i)) == Some(i)
  {
    var s := IntToString(i);
    if i < 0 {
      assert s[1..] == NatToString(-i);
      NatToStringValue(-i);
    } else {
      NatToStringValue(i);
    }
  }
}
