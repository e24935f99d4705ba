/** Decimal text of integers, as the generator uses it: node labels are
    written with fmt.Sprintf("%d", v) and read back with strconv.Atoi.
    Go's `int` is taken to be 64 bits wide. */
module Decimal {

  datatype Option<+T> = None | Some(value: T)

  /** Bounds of Go's 64-bit `int`: strconv.Atoi refuses any value outside them. */
  const MaxInt: int := 0x7FFF_FFFF_FFFF_FFFF
  const MinInt: int := -0x8000_0000_0000_0000

  predicate IsDigit(c: char) {
    '0' <= c <= '9'
  }

  predicate AllDigits(s: string) {
    forall k :: 0 <= k < |s| ==> IsDigit(s[k])
  }

  function DigitChar(d: nat): (c: char)
    requires d < 10
    ensures IsDigit(c) && c as int - '0' as int == d
  {
    ('0' as int + d) as char
  }

  /** The digits of `n`, most significant first, without leading zeros. */
  function Digits(n: nat): string
  {
    if n < 10 then [DigitChar(n)] else Digits(n / 10) + [DigitChar(n % 10)]
  }

  /** fmt.Sprintf("%d", v): a minus sign for negative values, then the digits. */
  function FormatDecimal(v: int): string
  {
    if v < 0 then "-" + Digits(-v) else Digits(v)
  }

  /** The value of a string of digits, read most significant first. */
  function DigitsValue(s: string): nat
    requires AllDigits(s)
  {
    if s == [] then 0 else DigitsValue(s[..|s| - 1]) * 10 + (s[|s| - 1] as int - '0' as int)
  }

  /** strconv.Atoi(s) with base 10: an optional sign, then at least one digit
      and nothing else, and a value that fits a 64-bit `int`. Any error is
      `None`, since the only caller tests `err != nil` and nothing more. */
  function Atoi(s: string): (r: Option<int>)
    ensures r.Some? ==> MinInt <= r.value <= MaxInt
    ensures r.Some? ==> s != [] && AllDigits(if s[0] == '-' || s[0] == '+' then s[1..] else s)
    ensures r.Some? ==> (s[0] == '-' || s[0] == '+' ==> |s| >= 2)
  {
    if s == [] then None
    else
      var body := if s[0] == '-' || s[0] == '+' then s[1..] else s;
      if body == [] || !AllDigits(body) then None
      else
        var v := if s[0] == '-' then -(DigitsValue(body) as int) else DigitsValue(body);
        if MinInt <= v <= MaxInt then Some(v) else None
  }

  /** Reading back the digits of `n` gives `n`. */
  lemma {:induction false} DigitsRoundTrip(n: nat)
    ensures Digits(n) != [] && AllDigits(Digits(n))
    ensures IsDigit(Digits(n)[0])
    ensures DigitsValue(Digits(n)) == n
  {
    if n >= 10 {
      DigitsRoundTrip(n / 10);
      var s := Digits(n);
      assert s[..|s| - 1] == Digits(n / 10);
    }
  }

  /** strconv.Atoi undoes fmt.Sprintf("%d", v) for every value of a 64-bit `int`. */
  lemma FormatDecimalRoundTrip(v: int)
    requires MinInt <= v <= MaxInt
    ensures Atoi(FormatDecimal(v)) == Some(v)
  {
    var s := FormatDecimal(v);
    if v < 0 {
      DigitsRoundTrip(-v);
      assert s[0] == '-' && s[1..] == Digits(-v);
    } else {
      DigitsRoundTrip(v);
      assert s == Digits(v) && s[0] != '-' && s[0] != '+';
    }
  }

  /** Distinct integers are written as distinct strings, so numbered labels are unique. */
  lemma FormatDecimalInjective(a: int, b: int)
    requires MinInt <= a <= MaxInt && MinInt <= b <= MaxInt
    requires FormatDecimal(a) == FormatDecimal(b)
    ensures a == b
  {
    FormatDecimalRoundTrip(a);
    FormatDecimalRoundTrip(b);
  }
}
