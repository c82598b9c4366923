/** Monetary amounts of the totals recalculation, in integer centavos. `parseFloat`
    is modelled on the decimal texts an NF-e carries (an optional minus sign,
    digits, and up to two decimals); any other text is NaN, written `None`, and
    NaN absorbs every sum it enters. `toFixed(2)` renders an amount back. */
module Amounts {
  import opened Wrappers
  import opened JsString
  import opened CheckDigit

  type Amount = Option<int>

  /** The value of a string of digits. */
  function NatOf(s: string): nat
    requires AllDigits(s)
  {
    if s == [] then 0 else NatOf(s[..|s| - 1]) * 10 + DigitValue(s[|s| - 1])
  }

  /** The decimal numeral of `n`, without leading zeros. */
  function Numeral(n: nat): (s: string)
    ensures |s| >= 1 && AllDigits(s) && '.' !in s && '-' !in s
    ensures NatOf(s) == n
  {
    if n < 10 then [DigitChar(n)]
    else
      var s := Numeral(n / 10) + [DigitChar(n % 10)];
      assert s[..|s| - 1] == Numeral(n / 10);
      s
  }

  /** Two decimals as centavos: "5" is 50, "05" is 5, "" is 0. */
  function Fraction(f: string): nat
    requires |f| <= 2 && AllDigits(f)
  {
    if |f| == 0 then 0
    else if |f| == 1 then DigitValue(f[0]) * 10
    else DigitValue(f[0]) * 10 + DigitValue(f[1])
  }

  /** An unsigned decimal text: digits, then optionally a point and up to two digits. */
  function ParseUnsigned(s: string): (a: Amount)
    ensures a.Some? ==> a.value >= 0
  {
    var parts := Split(s, '.');
    if |parts| == 1 then
      if |s| >= 1 && AllDigits(s) then Some(NatOf(s) * 100) else None
    else if |parts| == 2 && |parts[0]| >= 1 && AllDigits(parts[0])
         && |parts[1]| <= 2 && AllDigits(parts[1]) then
      Some(NatOf(parts[0]) * 100 + Fraction(parts[1]))
    else None
  }

  /** `parseFloat(s)` in centavos. */
  function ParseCents(s: string): Amount {
    if |s| >= 1 && s[0] == '-' then
      match ParseUnsigned(s[1..])
      case Some(v) => Some(-v)
      case None => None
    else ParseUnsigned(s)
  }

  /** `parseFloat(text || "0.00")`: a missing or empty text reads as zero. */
  function ReadAmount(text: Option<string>): Amount {
    if text.None? || text.value == "" then Some(0) else ParseCents(text.value)
  }

  function Add(a: Amount, b: Amount): (r: Amount)
    ensures r.Some? <==> a.Some? && b.Some?
    ensures r.Some? ==> r.value == a.value + b.value
  {
    if a.Some? && b.Some? then Some(a.value + b.value) else None
  }

  function Sub(a: Amount, b: Amount): (r: Amount)
    ensures r.Some? <==> a.Some? && b.Some?
    ensures r.Some? ==> r.value == a.value - b.value
  {
    if a.Some? && b.Some? then Some(a.value - b.value) else None
  }

  /** `x.toFixed(2)` of an amount in centavos; NaN renders as "NaN". */
  function ToFixed(a: Amount): string {
    match a
    case None => "NaN"
    case Some(c) => FormatCents(c)
  }

  function FormatCents(c: int): (s: string)
    ensures |s| >= 4 && s[|s| - 3] == '.'
    ensures c >= 0 <==> s[0] != '-'
  {
    var m: nat := if c < 0 then -c else c;
    if c < 0 then "-" + Unsigned(m) else Unsigned(m)
  }

  /** The text of a non-negative amount: whole units, a point, two decimals. */
  function Unsigned(m: nat): (s: string)
    ensures |s| >= 4 && s[|s| - 3] == '.' && s[0] != '-'
  {
    Numeral(m / 100) + "." + Cents(m)
  }

  function Cents(m: nat): string {
    [DigitChar(m % 100 / 10), DigitChar(m % 10)]
  }

  /** Rendering an amount and reading it back gives the same number of centavos. */
  lemma ParseFormat(c: int)
    ensures ParseCents(FormatCents(c)) == Some(c)
  {
    var m: nat := if c < 0 then -c else c;
    UnsignedBack(m);
    if c < 0 {
      assert ("-" + Unsigned(m))[1..] == Unsigned(m);
    }
  }

  lemma UnsignedBack(m: nat)
    ensures ParseUnsigned(Unsigned(m)) == Some(m)
  {
    var whole, frac := Numeral(m / 100), Cents(m);
    assert '.' !in frac;
    SplitNoSep(frac, '.');
    SplitAt(whole, '.', frac);
    assert Unsigned(m) == whole + ['.'] + frac;
    assert AllDigits(frac);
    CentsBack(m);
  }

  lemma CentsBack(m: nat)
    ensures AllDigits(Cents(m)) && Fraction(Cents(m)) == m % 100
  {
    var f := Cents(m);
    var q := m % 100;
    assert m == 100 * (m / 100) + q;
    assert q == 10 * (q / 10) + q % 10;
    LastDigit(m, 10 * (m / 100) + q / 10, q % 10);
    assert DigitValue(f[0]) == q / 10 && DigitValue(f[1]) == q % 10;
  }

  lemma LastDigit(m: nat, k: nat, r: nat)
    requires r < 10 && m == 10 * k + r
    ensures m % 10 == r
  {
  }

  /** A rendered amount is never "NaN", so NaN is the only way "NaN" is written. */
  lemma ToFixedNaN(a: Amount)
    ensures ToFixed(a) == "NaN" <==> a.None?
  {
    if a.Some? {
      var s := FormatCents(a.value);
      assert s[|s| - 3] == '.';
      assert "NaN"[0] == 'N';
    }
  }
}
