/**
 * Numbers written in decimal digits: Python's `int(token)` on a whitespace-free ASCII token,
 * `float(group)` on a string captured by the coordinate patterns (taken as exact decimal
 * arithmetic over `real`), and the canonical decimal rendering of a natural number.
 */
module Numerals {
  import opened Wrappers
  import opened Text

  predicate AllDigits(s: string) { forall i :: 0 <= i < |s| ==> IsDigit(s[i]) }

  function DigitValue(c: char): nat
    requires IsDigit(c)
  {
    c as int - '0' as int
  }

  function DigitChar(d: nat): (c: char)
    requires d < 10
    ensures IsDigit(c) && DigitValue(c) == d
  {
    ('0' as int + d) as char
  }

  /** The value of a string of decimal digits, most significant first; "" is 0. */
  function DigitsValue(s: string): nat
    requires AllDigits(s)
  {
    if s == [] then 0 else DigitsValue(s[..|s| - 1]) * 10 + DigitValue(s[|s| - 1])
  }

  /** The body Python's `int()` accepts after an optional sign: digits, with single
      underscores allowed between two digits. */
  predicate IsDigitGroups(s: string)
  {
    && |s| > 0
    && IsDigit(s[0])
    && IsDigit(s[|s| - 1])
    && (forall i :: 0 <= i < |s| ==> IsDigit(s[i]) || s[i] == '_')
    && (forall i :: 0 <= i < |s| - 1 ==> !(s[i] == '_' && s[i + 1] == '_'))
  }

  function RemoveUnderscores(s: string): (r: string)
    ensures (forall i :: 0 <= i < |s| ==> IsDigit(s[i]) || s[i] == '_') ==> AllDigits(r)
    ensures AllDigits(s) ==> r == s
  {
    if s == [] then []
    else (if s[0] == '_' then [] else [s[0]]) + RemoveUnderscores(s[1..])
  }

  /** Python's `int(token)` for a token `str.split()` produced: an optional `+` or `-`,
      then digit groups; `None` where Python raises `ValueError`. */
  function ParseInt(token: string): (r: Option<int>)
    ensures r.Some? ==> |token| > 0
  {
    var signed := |token| > 0 && (token[0] == '-' || token[0] == '+');
    var body := if signed then token[1..] else token;
    if !IsDigitGroups(body) then None
    else
      var magnitude: int := DigitsValue(RemoveUnderscores(body));
      Some(if signed && token[0] == '-' then -magnitude else magnitude)
  }

  /** The canonical decimal digits of `n` (no sign, no leading zeros), as `str(n)` gives. */
  function DecimalString(n: nat): (s: string)
    ensures |s| > 0 && AllDigits(s)
  {
    if n < 10 then [DigitChar(n)] else DecimalString(n / 10) + [DigitChar(n % 10)]
  }

  lemma {:induction false} DecimalStringValue(n: nat)
    ensures DigitsValue(DecimalString(n)) == n
  {
    var s := DecimalString(n);
    if n >= 10 {
      DecimalStringValue(n / 10);
      assert s[..|s| - 1] == DecimalString(n / 10);
    }
  }

  /** `int(str(n)) == n`: parsing the rendering of a natural number gives it back. */
  lemma {:induction false} ParseDecimalString(n: nat)
    ensures ParseInt(DecimalString(n)) == Some(n)
  {
    var s := DecimalString(n);
    DecimalStringValue(n);
    assert IsDigitGroups(s);
    assert !(s[0] == '-' || s[0] == '+');
  }

  lemma {:induction false} DecimalStringIsWord(n: nat)
    ensures IsWord(DecimalString(n))
  {
  }

  /** A well-formed capture of the patterns' numbers: an optional `-`, at least one digit,
      then optionally a `.` followed by any number of digits. */
  predicate IsNumeral(g: string)
  {
    var body := NumeralBody(g);
    && |body| > 0
    && IsDigit(body[0])
    && (forall i :: 0 <= i < |body| ==> IsDigit(body[i]) || body[i] == '.')
    && (forall i, j :: 0 <= i < j < |body| && body[i] == '.' ==> body[j] != '.')
  }

  /** The numeral without its sign. */
  function NumeralBody(g: string): string
  {
    if |g| > 0 && g[0] == '-' then g[1..] else g
  }

  function Pow10(n: nat): (p: nat)
    ensures p >= 1
  {
    if n == 0 then 1 else 10 * Pow10(n - 1)
  }

  /** Index of the first `.` in `s`, or `|s|` when there is none. */
  function DotIndex(s: string): (k: nat)
    ensures k <= |s|
    ensures forall i :: 0 <= i < k ==> s[i] != '.'
    ensures k < |s| ==> s[k] == '.'
  {
    if s == [] || s[0] == '.' then 0 else 1 + DotIndex(s[1..])
  }

  /** `float(g)` for a captured numeral, computed exactly: whole part plus fraction digits
      over a power of ten, negated after a leading `-`. */
  function NumeralValue(g: string): real
    requires IsNumeral(g)
  {
    var negative := g[0] == '-';
    var body := NumeralBody(g);
    var k := DotIndex(body);
    var whole := body[..k];
    var fraction := if k < |body| then body[k + 1..] else "";
    assert AllDigits(whole) by {
      forall i | 0 <= i < |whole| ensures IsDigit(whole[i]) {
        assert whole[i] == body[i] && body[i] != '.';
      }
    }
    assert AllDigits(fraction) by {
      forall i | 0 <= i < |fraction| ensures IsDigit(fraction[i]) {
        assert fraction[i] == body[k + 1 + i];
        assert body[k] == '.';
      }
    }
    var magnitude := DigitsValue(whole) as real + DigitsValue(fraction) as real / Pow10(|fraction|) as real;
    if negative then -magnitude else magnitude
  }

  /** Appending a digit multiplies the value by ten and adds the digit. */
  lemma DigitsValueAppend(s: string, c: char)
    requires AllDigits(s) && IsDigit(c)
    ensures AllDigits(s + [c]) && DigitsValue(s + [c]) == DigitsValue(s) * 10 + DigitValue(c)
  {
    assert (s + [c])[..|s|] == s;
  }

  /** `float()` of a digit string is its integer value. */
  lemma WholeNumeralValue(g: string)
    requires |g| > 0 && AllDigits(g)
    ensures IsNumeral(g) && NumeralValue(g) == DigitsValue(g) as real
  {
    assert NumeralBody(g) == g;
    assert DotIndex(g) == |g| by {
      DotIndexAfter(g, |g|);
    }
    assert g[..|g|] == g;
  }

  /** `float(whole + "." + fraction)` is the whole part plus the fraction digits scaled down
      by their count. */
  lemma FractionalNumeralValue(g: string, whole: string, fraction: string)
    requires |whole| > 0 && AllDigits(whole) && AllDigits(fraction)
    requires g == whole + "." + fraction
    ensures IsNumeral(g)
    ensures NumeralValue(g) == DigitsValue(whole) as real + DigitsValue(fraction) as real / Pow10(|fraction|) as real
  {
    assert NumeralBody(g) == g;
    assert DotIndex(g) == |whole| by {
      DotIndexAfter(g, |whole|);
    }
    assert g[..|whole|] == whole;
    assert g[|whole| + 1..] == fraction;
  }

  /** `float("-" + g)` is `-float(g)` for an unsigned numeral `g`. */
  lemma NegatedNumeralValue(g: string)
    requires IsNumeral(g) && g[0] != '-'
    ensures IsNumeral("-" + g) && NumeralValue("-" + g) == -NumeralValue(g)
  {
    assert NumeralBody(g) == g;
    assert NumeralBody("-" + g) == g;
  }

  /** `DotIndex` is the first `.`, or `|g|` when there is none. */
  lemma {:induction false} DotIndexAfter(g: string, k: nat)
    requires k <= |g| && (k < |g| ==> g[k] == '.')
    requires forall i :: 0 <= i < k ==> g[i] != '.'
    ensures DotIndex(g) == k
  {
    if k > 0 {
      DotIndexAfter(g[1..], k - 1);
    }
  }
}
