/** Decimal parsing, as `float(s)` does it for plain decimal notation, and
    the integer coercion of the quantity column. */
module Numbers {
  import opened Wrappers
  import opened Cells

  predicate IsDigit(ch: char)
  {
    '0' <= ch <= '9'
  }

  predicate AllDigits(s: string)
  {
    forall i :: 0 <= i < |s| ==> IsDigit(s[i])
  }

  function DigitValue(ch: char): nat
    requires IsDigit(ch)
  {
    ch as int - '0' as int
  }

  /** The value of a string of decimal digits, most significant first. */
  function DigitsValue(s: string): nat
    requires AllDigits(s)
  {
    if |s| == 0 then 0 else DigitsValue(s[..|s| - 1]) * 10 + DigitValue(s[|s| - 1])
  }

  function Pow10(n: nat): (r: nat)
    ensures r >= 1
  {
    if n == 0 then 1 else 10 * Pow10(n - 1)
  }

  /** The position of the first `ch` in `s`, if any. */
  function IndexOf(s: string, ch: char): (r: Option<nat>)
    ensures r.None? <==> ch !in s
    ensures r.Some? ==> r.value < |s| && s[r.value] == ch && ch !in s[..r.value]
  {
    if |s| == 0 then None
    else if s[0] == ch then Some(0)
    else match IndexOf(s[1..], ch)
      case None => None
      case Some(i) => assert s[..i + 1] == [s[0]] + s[1..][..i]; Some(i + 1)
  }

  /** An unsigned decimal: digits, optionally one '.', and at least one
      digit in all ("12", "1.5", ".5", "5."). */
  function ParseUnsigned(s: string): (r: Option<real>)
    ensures r.Some? ==> |s| > 0 && 0.0 <= r.value
  {
    match IndexOf(s, '.')
    case None =>
      if |s| > 0 && AllDigits(s) then Some(DigitsValue(s) as real) else None
    case Some(i) =>
      var whole, frac := s[..i], s[i + 1..];
      if |whole| + |frac| > 0 && AllDigits(whole) && AllDigits(frac)
      then Some(DigitsValue(whole) as real + DigitsValue(frac) as real / Pow10(|frac|) as real)
      else None
  }

  /** `float(s)` for a decimal with an optional leading sign; `None` where
      `float` raises `ValueError`. */
  function ParseDecimal(s: string): (r: Option<real>)
    ensures r.Some? ==> |s| > 0
    ensures r.Some? && s[0] != '-' ==> 0.0 <= r.value
  {
    if |s| > 0 && (s[0] == '+' || s[0] == '-') then
      match ParseUnsigned(s[1..])
      case None => None
      case Some(v) => Some(if s[0] == '-' then -v else v)
    else
      ParseUnsigned(s)
  }

  /** A leading '-' negates: an unsigned decimal parses exactly when its
      negation does, to the opposite value. */
  lemma ParseNegated(u: string)
    requires |u| > 0 && (IsDigit(u[0]) || u[0] == '.')
    ensures ParseDecimal("-" + u).Some? <==> ParseDecimal(u).Some?
    ensures ParseDecimal(u).Some? ==> ParseDecimal("-" + u).value == -ParseDecimal(u).value
  {
    assert ("-" + u)[1..] == u;
  }

  /** Whatever parses holds only digits and '.' after its first character,
      so text with a letter, a space, ':' or '/' or an inner sign (a date
      such as "2024-01-31", say) never parses. */
  lemma ParsedShape(s: string)
    requires ParseDecimal(s).Some?
    ensures forall i :: 0 < i < |s| ==> IsDigit(s[i]) || s[i] == '.'
  {
    var u := if |s| > 0 && (s[0] == '+' || s[0] == '-') then s[1..] else s;
    assert ParseUnsigned(u).Some?;
    UnsignedShape(u);
  }

  lemma UnsignedShape(u: string)
    requires ParseUnsigned(u).Some?
    ensures forall i :: 0 <= i < |u| ==> IsDigit(u[i]) || u[i] == '.'
  {
    match IndexOf(u, '.')
    case None =>
    case Some(k) =>
      forall i | 0 <= i < |u| ensures IsDigit(u[i]) || u[i] == '.' {
        if i < k { assert u[i] == u[..k][i]; }
        else if i > k { assert u[i] == u[k + 1..][i - k - 1]; }
      }
  }

  /** `int(x)`: truncation toward zero. */
  function Truncate(x: real): (n: int)
    ensures 0.0 <= x ==> 0 <= n && n as real <= x < n as real + 1.0
    ensures x < 0.0 ==> n <= 0 && n as real - 1.0 < x <= n as real
  {
    if x >= 0.0 then x.Floor else -((-x).Floor)
  }

  /** The "Total Quantity" coercion: `to_numeric(errors='coerce')`, then
      `fillna(0)`, then `astype(int)`. A missing cell or text that is not a
      number becomes 0; a number is truncated toward zero. */
  function Quantity(c: Cell): (q: int)
    ensures c.Missing? ==> q == 0
    ensures c.Value? && ParseDecimal(Trim(c.text)).None? ==> q == 0
    ensures c.Value? && ParseDecimal(Trim(c.text)).Some? ==>
              var x := ParseDecimal(Trim(c.text)).value;
              (0.0 <= x ==> 0 <= q && q as real <= x < q as real + 1.0) &&
              (x < 0.0 ==> q <= 0 && q as real - 1.0 < x <= q as real)
  {
    match c
    case Missing => 0
    case Value(t) =>
      match ParseDecimal(Trim(t))
      case None => 0
      case Some(x) => Truncate(x)
  }

  function DigitChar(d: nat): (ch: char)
    requires d < 10
    ensures IsDigit(ch) && DigitValue(ch) == d
  {
    ('0' as int + d) as char
  }

  /** `str(n)` for a natural number. */
  function NatToString(n: nat): string
  {
    if n < 10 then [DigitChar(n)] else NatToString(n / 10) + [DigitChar(n % 10)]
  }

  /** `str(n)` for an integer. */
  function IntToString(n: int): string
  {
    if n < 0 then "-" + NatToString(-n) else NatToString(n)
  }

  lemma {:induction false} NatToStringDigits(n: nat)
    ensures |NatToString(n)| > 0 && AllDigits(NatToString(n))
    ensures DigitsValue(NatToString(n)) == n
  {
    if n >= 10 {
      NatToStringDigits(n / 10);
      var s := NatToString(n);
      assert s[..|s| - 1] == NatToString(n / 10);
    }
  }

  /** Parsing the decimal rendering of an integer gives the integer back. */
  lemma IntRoundTrip(n: int)
    ensures ParseDecimal(IntToString(n)) == Some(n as real)
  {
    var d := NatToString(if n < 0 then -n else n);
    NatToStringDigits(if n < 0 then -n else n);
    assert '.' !in d;
    assert ParseUnsigned(d) == Some(DigitsValue(d) as real);
    if n < 0 {
      assert IntToString(n)[1..] == d;
    } else {
      assert IntToString(n) == d;
    }
  }

  /** The rendering of an integer has no blank at either end. */
  lemma IntToStringEnds(n: int)
    ensures var s := IntToString(n); |s| > 0 && !IsSpace(s[0]) && !IsSpace(s[|s| - 1])
  {
    var m: nat := if n < 0 then -n else n;
    NatToStringDigits(m);
    var d := NatToString(m);
    assert IntToString(n)[|IntToString(n)| - 1] == d[|d| - 1];
  }

  /** A quantity cell holding an integer's rendering, with or without
      surrounding whitespace, is coerced to that integer ("12" and " 12 "
      give 12). */
  lemma QuantityOfInteger(n: int, pre: string, post: string)
    requires AllSpace(pre) && AllSpace(post)
    ensures Quantity(Value(pre + IntToString(n) + post)) == n
  {
    IntRoundTrip(n);
    IntToStringEnds(n);
    TrimSurrounded(pre, IntToString(n), post);
  }

  /** Text with a character other than a digit or '.' after its first
      position is not a number. */
  lemma NotANumber(t: string, i: nat)
    requires 0 < i < |t| && !IsDigit(t[i]) && t[i] != '.'
    ensures ParseDecimal(t).None?
  {
    if ParseDecimal(t).Some? {
      ParsedShape(t);
      assert false;
    }
  }

  /** A cell whose stripped text has such a character ("abc", a date) has
      quantity 0. */
  lemma WordQuantity(t: string, i: nat)
    requires 0 < i < |Trim(t)| && !IsDigit(Trim(t)[i]) && Trim(t)[i] != '.'
    ensures Quantity(Value(t)) == 0
  {
    NotANumber(Trim(t), i);
  }
}
