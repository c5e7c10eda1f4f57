/**
 * Decimal rendering of numbers, as `std::to_string` does for the port and
 * for the length in an error message, and its inverse.
 */
module Text {
  import opened Wrappers

  predicate IsDigit(c: char) {
    '0' <= c <= '9'
  }

  function DigitChar(d: nat): (c: char)
    requires d < 10
    ensures IsDigit(c)
  {
    "0123456789"[d]
  }

  function DigitValue(c: char): (d: nat)
    requires IsDigit(c)
    ensures d < 10
  {
    c as int - '0' as int
  }

  /** `std::to_string` of a non-negative value: its decimal digits, no sign, no leading zero. */
  function Decimal(n: nat): (s: string)
    decreases n
  {
    if n < 10 then [DigitChar(n)] else Decimal(n / 10) + [DigitChar(n % 10)]
  }

  predicate AllDigits(s: string) {
    forall i :: 0 <= i < |s| ==> IsDigit(s[i])
  }

  /** The value of a non-empty string of decimal digits; `None` for anything else. */
  function ParseDecimal(s: string): Option<nat>
    decreases |s|
  {
    if s == [] || !IsDigit(s[|s| - 1]) then None
    else if |s| == 1 then Some(DigitValue(s[0]))
    else match ParseDecimal(s[..|s| - 1])
      case None => None
      case Some(v) => Some(10 * v + DigitValue(s[|s| - 1]))
  }

  /** `Decimal` writes digits only, at least one, and never a leading zero except for 0 itself. */
  lemma {:induction false} DecimalIsCanonical(n: nat)
    ensures |Decimal(n)| >= 1 && AllDigits(Decimal(n))
    ensures |Decimal(n)| > 1 ==> Decimal(n)[0] != '0'
    decreases n
  {
    if n >= 10 {
      DecimalIsCanonical(n / 10);
      var s := Decimal(n / 10) + [DigitChar(n % 10)];
      assert s[0] == Decimal(n / 10)[0];
      if |Decimal(n / 10)| == 1 {
        assert n / 10 >= 1;
        assert Decimal(n / 10) == [DigitChar(n / 10)];
      }
      forall i | 0 <= i < |s| ensures IsDigit(s[i]) {
        if i < |Decimal(n / 10)| { assert s[i] == Decimal(n / 10)[i]; }
      }
    }
  }

  lemma DigitRoundTrip(d: nat)
    requires d < 10
    ensures DigitValue(DigitChar(d)) == d
  {
  }

  /** Reading back the decimal rendering of `n` gives `n`. */
  lemma {:induction false} ParseDecimalOfDecimal(n: nat)
    ensures ParseDecimal(Decimal(n)) == Some(n)
    decreases n
  {
    DigitRoundTrip(n % 10);
    if n >= 10 {
      ParseDecimalOfDecimal(n / 10);
      DecimalIsCanonical(n / 10);
      var s := Decimal(n / 10) + [DigitChar(n % 10)];
      assert s[..|s| - 1] == Decimal(n / 10);
    }
  }

  /** No colon occurs in a decimal rendering. */
  lemma DecimalHasNoColon(n: nat)
    ensures ':' !in Decimal(n)
  {
    DecimalIsCanonical(n);
  }

  /** The index of the last occurrence of `c` in `s`. */
  function LastIndexOf(s: string, c: char): (r: Option<nat>)
    ensures r.Some? ==> r.value < |s| && s[r.value] == c
    ensures r.Some? ==> forall j :: r.value < j < |s| ==> s[j] != c
    ensures r.None? ==> c !in s
    decreases |s|
  {
    if s == [] then None
    else if s[|s| - 1] == c then Some(|s| - 1)
    else LastIndexOf(s[..|s| - 1], c)
  }

  /** With `c` absent from `d`, the last `c` of `a + [c] + d` is the one just after `a`. */
  lemma {:induction false} LastIndexOfBeforeSuffix(a: string, c: char, d: string)
    requires c !in d
    ensures LastIndexOf(a + [c] + d, c) == Some(|a|)
    decreases |d|
  {
    var s := a + [c] + d;
    if d != [] {
      assert s[|s| - 1] == d[|d| - 1];
      assert s[..|s| - 1] == a + [c] + d[..|d| - 1];
      LastIndexOfBeforeSuffix(a, c, d[..|d| - 1]);
    }
  }
}
