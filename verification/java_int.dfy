/** Java's 32-bit `int`: the range, the wrap-around of `n - 1`, and
    `Integer.parseInt` in radix 10. */
module JavaInt {
  import opened Outcomes

  const INT_MIN: int := -0x8000_0000
  const INT_MAX: int := 0x7FFF_FFFF

  type Int32 = x: int | INT_MIN <= x <= INT_MAX

  /** `n - 1` evaluated in 32-bit two's complement. */
  function Pred(n: Int32): (r: Int32)
    ensures (n - 1 - r) % 0x1_0000_0000 == 0
    ensures n != INT_MIN ==> r < n
  {
    if n == INT_MIN then INT_MAX else n - 1
  }

  predicate IsDigit(c: char) {
    '0' <= c <= '9'
  }

  predicate AllDigits(s: string) {
    forall i | 0 <= i < |s| :: IsDigit(s[i])
  }

  function DigitValue(c: char): (d: nat)
    requires IsDigit(c)
    ensures d < 10
  {
    (c as int) - ('0' as int)
  }

  function DigitChar(d: nat): (c: char)
    requires d < 10
    ensures IsDigit(c) && DigitValue(c) == d
  {
    (('0' as int) + d) as char
  }

  /** The value of a string of decimal digits, most significant first. */
  function DigitsValue(s: string): nat
    requires AllDigits(s)
    decreases |s|
  {
    if s == [] then 0 else DigitsValue(s[..|s| - 1]) * 10 + DigitValue(s[|s| - 1])
  }

  /** The digits after an optional leading sign. */
  function Magnitude(s: string): string {
    if |s| > 0 && (s[0] == '-' || s[0] == '+') then s[1..] else s
  }

  /** `Integer.parseInt(s)`: an optional `-` or `+`, then one or more decimal
      digits, denoting a value inside the `int` range; None stands for the
      NumberFormatException thrown for anything else. */
  function ParseInt(s: string): (r: Option<Int32>)
    ensures r.Some? ==> Magnitude(s) != [] && AllDigits(Magnitude(s))
    ensures r.Some? && r.value < 0 ==> s[0] == '-'
    ensures s == [] || s == "-" || s == "+" ==> r.None?
  {
    var ds := Magnitude(s);
    if ds == [] || !AllDigits(ds) then None
    else
      var m: int := DigitsValue(ds);
      var v := if s[0] == '-' then -m else m;
      if INT_MIN <= v <= INT_MAX then Some(v) else None
  }

  /** `Integer.toString(n)` for n >= 0: the shortest decimal numeral. */
  function Decimal(n: nat): (s: string)
    ensures |s| > 0
    decreases n
  {
    if n < 10 then [DigitChar(n)] else Decimal(n / 10) + [DigitChar(n % 10)]
  }

  /** The numeral of `n` consists of digits and denotes `n`. */
  lemma {:induction false} DecimalValue(n: nat)
    ensures AllDigits(Decimal(n)) && DigitsValue(Decimal(n)) == n
    decreases n
  {
    if n >= 10 {
      DecimalValue(n / 10);
      var s := Decimal(n);
      assert s[..|s| - 1] == Decimal(n / 10);
    }
  }

  /** parseInt reads back every non-negative int from its numeral, and every
      non-positive one from the numeral with a minus sign. */
  lemma ParseIntDecimal(n: nat)
    ensures n <= INT_MAX ==> ParseInt(Decimal(n)) == Some(n)
    ensures n <= -INT_MIN ==> ParseInt("-" + Decimal(n)) == Some(-(n as int))
  {
    DecimalValue(n);
    var s := Decimal(n);
    assert IsDigit(s[0]);
    assert Magnitude(s) == s;
    assert Magnitude("-" + s) == s;
  }

  /** A leading zero does not change the value of a digit string. */
  lemma {:induction false} LeadingZeroValue(s: string)
    requires AllDigits(s)
    ensures AllDigits("0" + s) && DigitsValue("0" + s) == DigitsValue(s)
    decreases |s|
  {
    if s != [] {
      var t := "0" + s;
      assert t[..|t| - 1] == "0" + s[..|s| - 1];
      LeadingZeroValue(s[..|s| - 1]);
    }
  }

  /** On a non-empty digit string, with no sign, a plus or a minus in front,
      parseInt succeeds exactly when the signed value fits an int, and yields it. */
  lemma ParseIntDigits(s: string)
    requires s != [] && AllDigits(s)
    ensures ParseInt(s).Some? <==> DigitsValue(s) <= INT_MAX
    ensures ParseInt(s).Some? ==> ParseInt(s).value == DigitsValue(s)
    ensures ParseInt("+" + s) == ParseInt(s)
    ensures ParseInt("-" + s).Some? <==> DigitsValue(s) <= -INT_MIN
    ensures ParseInt("-" + s).Some? ==> ParseInt("-" + s).value == -(DigitsValue(s) as int)
  {
    assert IsDigit(s[0]);
    assert Magnitude(s) == s;
    assert Magnitude("+" + s) == s;
    assert Magnitude("-" + s) == s;
  }

  /** Leading zeros are accepted and do not change the result. */
  lemma ParseIntLeadingZero(s: string)
    requires s != [] && AllDigits(s)
    ensures ParseInt("0" + s) == ParseInt(s)
  {
    LeadingZeroValue(s);
    ParseIntDigits(s);
    ParseIntDigits("0" + s);
  }

  /** A numeral beyond the int range is rejected, as Java throws NumberFormatException. */
  lemma ParseIntOutOfRange(n: nat)
    ensures n > INT_MAX ==> ParseInt(Decimal(n)).None?
    ensures n > -INT_MIN ==> ParseInt("-" + Decimal(n)).None?
  {
    DecimalValue(n);
    ParseIntDigits(Decimal(n));
  }
}
