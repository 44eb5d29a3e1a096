/**
 * The text `format_coordinate` prints, read back by `parse_coordinate`. A printed number is
 * given by the digit strings the f-string shows (`{n}` for a whole number, `{x:.3f}` and
 * `{x:.6f}` for fixed-point ones); how closely those digits approach the number is stated as
 * a tolerance of half a unit in the last place, since binary floating-point rounding is not
 * part of this model.
 */
module CoordinateText {
  import opened Wrappers
  import opened Text
  import opened Numerals
  import opened Coordinates

  // ---------------------------------------------------------------- printed numbers

  /** Digits, a point, and at least one more digit: what `:.3f` or `:.6f` prints for a
      non-negative value. */
  predicate IsPointNumber(whole: string, fraction: string)
  {
    |whole| > 0 && AllDigits(whole) && |fraction| > 0 && AllDigits(fraction)
  }

  function FixedText(whole: string, fraction: string): string
  {
    whole + "." + fraction
  }

  /** The number the digits `whole.fraction` stand for. */
  function FixedValue(whole: string, fraction: string): real
    requires AllDigits(whole) && AllDigits(fraction)
  {
    DigitsValue(whole) as real + DigitsValue(fraction) as real / Pow10(|fraction|) as real
  }

  function HalfUnit(places: nat): real
  {
    0.5 / Pow10(places) as real
  }

  /** `f"{x:.{places}f}"` for `x >= 0`: `places` fraction digits within half a unit of the last
      place of `x` (which way a tie goes is left open). */
  predicate PrintsFixed(x: real, whole: string, fraction: string, places: nat)
  {
    && IsPointNumber(whole, fraction) && |fraction| == places
    && Abs(FixedValue(whole, fraction) - x) <= HalfUnit(places)
  }

  /** A fixed-point number with its sign, as `:.6f` prints any value. */
  datatype SignedFixed = SignedFixed(negative: bool, whole: string, fraction: string)

  function SignedText(n: SignedFixed): string
  {
    (if n.negative then "-" else "") + FixedText(n.whole, n.fraction)
  }

  /** `f"{x:.{places}f}"`: a `-` exactly for a negative `x`, then the digits of `abs(x)`. */
  predicate PrintsSigned(x: real, n: SignedFixed, places: nat)
  {
    n.negative == (x < 0.0) && PrintsFixed(Abs(x), n.whole, n.fraction, places)
  }

  function SignedValue(n: SignedFixed): real
    requires IsPointNumber(n.whole, n.fraction)
  {
    if n.negative then -FixedValue(n.whole, n.fraction) else FixedValue(n.whole, n.fraction)
  }

  // ---------------------------------------------------------------- printed coordinates

  /** `{dir} {deg}° `, the start of every printed angle. */
  function HeadText(letter: char, degrees: string): string
  {
    [letter, ' '] + degrees + [DegreeSign, ' ']
  }

  /** The digit strings of one printed DDM axis. */
  datatype DdmAngle = DdmAngle(letter: char, degrees: string, whole: string, fraction: string)

  /** The digit strings of one printed DMS axis. */
  datatype DmsAngle = DmsAngle(letter: char, degrees: string, minutes: string, whole: string, fraction: string)

  predicate PrintableDdm(a: DdmAngle)
  {
    |a.degrees| > 0 && AllDigits(a.degrees) && IsPointNumber(a.whole, a.fraction)
  }

  predicate PrintableDms(a: DmsAngle)
  {
    && |a.degrees| > 0 && AllDigits(a.degrees)
    && |a.minutes| > 0 && AllDigits(a.minutes)
    && IsPointNumber(a.whole, a.fraction)
  }

  /** `{dir} {deg}° {min:.3f}` */
  function DdmText(a: DdmAngle): string
  {
    HeadText(a.letter, a.degrees) + FixedText(a.whole, a.fraction)
  }

  /** `{min}' {sec:.3f}"` */
  function MinutesSecondsText(a: DmsAngle): string
  {
    a.minutes + "' " + FixedText(a.whole, a.fraction) + "\""
  }

  /** `{dir} {deg}° {min}' {sec:.3f}"` */
  function DmsText(a: DmsAngle): string
  {
    HeadText(a.letter, a.degrees) + MinutesSecondsText(a)
  }

  /** The `"decimal"` output, `f"{latitude:.6f}, {longitude:.6f}"`. */
  function DecimalLine(lat: SignedFixed, lon: SignedFixed): string
  {
    SignedText(lat) + ", " + SignedText(lon)
  }

  /** The `"ddm"` output: both axes, each followed by an apostrophe, with a space between. */
  function DdmLine(lat: DdmAngle, lon: DdmAngle): string
  {
    DdmText(lat) + "' " + DdmText(lon) + "'"
  }

  /** The DDM form without apostrophes that the parser's tests use. */
  function AltDdmLine(lat: DdmAngle, lon: DdmAngle): string
  {
    DdmText(lat) + " " + DdmText(lon)
  }

  /** The `"dms"` output: both axes with a space between. */
  function DmsLine(lat: DmsAngle, lon: DmsAngle): string
  {
    DmsText(lat) + " " + DmsText(lon)
  }

  /** What the parser captures from a printed DDM axis. */
  function DdmCapture(a: DdmAngle): Angle
  {
    Angle(a.letter, a.degrees, FixedText(a.whole, a.fraction), None)
  }

  /** What the parser captures from a printed DMS axis. */
  function DmsCapture(a: DmsAngle): Angle
  {
    Angle(a.letter, a.degrees, a.minutes, Some(FixedText(a.whole, a.fraction)))
  }

  // ---------------------------------------------------------------- placing text

  /** `t` occurs in `s` at position `p`. The lemmas below take every position they speak
      about as a parameter, so that callers and callees name the same terms. */
  predicate PlacedAt(s: string, p: nat, t: string)
  {
    p + |t| <= |s| && forall k :: 0 <= k < |t| ==> s[p + k] == t[k]
  }

  lemma PlacedWhole(s: string)
    ensures PlacedAt(s, 0, s)
  {
  }

  lemma PlacedSplit(s: string, p: nat, q: nat, a: string, b: string)
    requires PlacedAt(s, p, a + b) && q == p + |a|
    ensures PlacedAt(s, p, a) && PlacedAt(s, q, b)
  {
    forall k | 0 <= k < |a| ensures s[p + k] == a[k] {
      assert (a + b)[k] == a[k];
    }
    forall k | 0 <= k < |b| ensures s[q + k] == b[k] {
      assert (a + b)[|a| + k] == b[k];
    }
  }

  lemma PlacedSlice(s: string, p: nat, q: nat, t: string)
    requires PlacedAt(s, p, t) && q == p + |t|
    ensures s[p..q] == t
  {
  }

  lemma PlacedChar(s: string, p: nat, c: char)
    requires PlacedAt(s, p, [c])
    ensures s[p] == c
  {
    assert s[p + 0] == [c][0];
  }

  lemma PlacedPair(s: string, p: nat, q: nat, c: char, d: char)
    requires PlacedAt(s, p, [c, d]) && q == p + 1
    ensures s[p] == c && s[q] == d
  {
    assert s[p + 0] == [c, d][0] && s[p + 1] == [c, d][1];
  }

  /** The first character of a text placed at `p`. */
  lemma PlacedStart(s: string, p: nat, t: string)
    requires PlacedAt(s, p, t) && |t| > 0
    ensures s[p] == t[0]
  {
    assert s[p + 0] == t[0];
  }

  lemma DdmTextStart(a: DdmAngle)
    ensures |DdmText(a)| > 0 && DdmText(a)[0] == a.letter
  {
  }

  lemma DmsTextStart(a: DmsAngle)
    ensures |DmsText(a)| > 0 && DmsText(a)[0] == a.letter
  {
  }

  /** A digit string placed at `p`, ending at `q` and not followed by a digit, is one run of
      digits. */
  lemma DigitRunPlaced(s: string, p: nat, q: nat, d: string)
    requires PlacedAt(s, p, d) && q == p + |d| && |d| > 0 && AllDigits(d)
    requires q < |s| ==> !IsDigit(s[q])
    ensures Run(s, p, Digits) == Some(q)
  {
    forall k | p + 1 <= k < q ensures InClass(s[k], Digits) {
      assert s[p + (k - p)] == d[k - p];
    }
    assert s[p + 0] == d[0];
    SpanOver(s, p + 1, q, Digits);
  }

  /** A class character at `p` and another at `p + 1`, then none at `q`: a run of two. */
  lemma PairRun(s: string, p: nat, q: nat, cls: CharClass)
    requires q == p + 2 && q <= |s|
    requires InClass(s[p], cls) && InClass(s[p + 1], cls)
    requires q < |s| ==> !InClass(s[q], cls)
    ensures Run(s, p, cls) == Some(q)
  {
    SpanOver(s, p + 1, q, cls);
  }

  /** A fixed-point number placed at `p`, with its point at `w` and its end at `e`, not
      followed by a digit, is one `\d+\.?\d*`. */
  lemma FixedPlaced(s: string, p: nat, w: nat, e: nat, whole: string, fraction: string)
    requires IsPointNumber(whole, fraction) && PlacedAt(s, p, FixedText(whole, fraction))
    requires w == p + |whole| && e == w + 1 + |fraction|
    requires e < |s| ==> !IsDigit(s[e])
    ensures s[p..w] == whole && s[w] == '.'
    ensures Run(s, p, Digits) == Some(w) && Run(s, w + 1, Digits) == Some(e)
    ensures NumberEnd(s, p) == Some(e)
  {
    PlacedSplit(s, p, w + 1, whole + ".", fraction);
    PlacedSplit(s, p, w, whole, ".");
    PlacedChar(s, w, '.');
    PlacedSlice(s, p, w, whole);
    DigitRunPlaced(s, p, w, whole);
    DigitRunPlaced(s, w + 1, e, fraction);
  }

  /** A signed fixed-point number placed at `p`, ending at `e` and not followed by a digit,
      is one `-?\d+\.\d+`. */
  lemma SignedPlaced(s: string, p: nat, e: nat, n: SignedFixed)
    requires IsPointNumber(n.whole, n.fraction) && PlacedAt(s, p, SignedText(n))
    requires e == p + |SignedText(n)|
    requires e < |s| ==> !IsDigit(s[e])
    ensures DecimalNumberEnd(s, p) == Some(e)
  {
    var sign: string := if n.negative then "-" else "";
    var d := p + |sign|;
    var w := d + |n.whole|;
    PlacedSplit(s, p, d, sign, FixedText(n.whole, n.fraction));
    FixedPlaced(s, d, w, e, n.whole, n.fraction);
    if n.negative {
      PlacedChar(s, p, '-');
    }
  }

  /** The runs of `{dir} {deg}° ` placed at `i`: the degrees from `a` to `p3`, the next
      number starting with a digit at `c`. */
  lemma HeadPlaced(s: string, i: nat, a: nat, p3: nat, c: nat, letter: char, degrees: string)
    requires |degrees| > 0 && AllDigits(degrees)
    requires PlacedAt(s, i, HeadText(letter, degrees))
    requires a == i + 2 && p3 == a + |degrees| && c == p3 + 2
    requires c < |s| && IsDigit(s[c])
    ensures s[i] == letter && s[a..p3] == degrees
    ensures Span(s, i + 1, Spaces) == a
    ensures Run(s, a, Digits) == Some(p3)
    ensures Run(s, p3, DegreeGap) == Some(c)
  {
    PlacedSplit(s, i, p3, [letter, ' '] + degrees, [DegreeSign, ' ']);
    PlacedSplit(s, i, a, [letter, ' '], degrees);
    PlacedPair(s, i, i + 1, letter, ' ');
    PlacedPair(s, p3, p3 + 1, DegreeSign, ' ');
    PlacedSlice(s, a, p3, degrees);
    DigitRunPlaced(s, a, p3, degrees);
    SpanOver(s, i + 1, a, Spaces);
    PairRun(s, p3, c, DegreeGap);
  }

  /** A printed DDM axis at `i`, ending at `e` and not followed by a digit, is read by the
      angle head of the DDM patterns with its minutes whole; the whole-minutes head of the DMS
      pattern stops at the point `w`. */
  lemma DdmPlaced(s: string, i: nat, w: nat, e: nat, a: DdmAngle, letters: CharClass)
    requires PrintableDdm(a) && InClass(a.letter, letters)
    requires PlacedAt(s, i, DdmText(a))
    requires w == i + 4 + |a.degrees| + |a.whole| && e == w + 1 + |a.fraction|
    requires e < |s| ==> !IsDigit(s[e])
    ensures AngleAt(s, i, letters, false) == Some(AngleHead(DdmCapture(a), e))
    ensures AngleAt(s, i, letters, true).Some? && AngleAt(s, i, letters, true).value.end == w
    ensures s[w] == '.'
  {
    var a2 := i + 2;
    var p3 := a2 + |a.degrees|;
    var c := p3 + 2;
    var fixed := FixedText(a.whole, a.fraction);
    PlacedSplit(s, i, c, HeadText(a.letter, a.degrees), fixed);
    PlacedSlice(s, c, e, fixed);
    FixedPlaced(s, c, w, e, a.whole, a.fraction);
    HeadPlaced(s, i, a2, p3, c, a.letter, a.degrees);
    AngleAtIs(s, i, letters, false, a2, p3, c, e);
    AngleAtIs(s, i, letters, true, a2, p3, c, w);
  }

  /** The minutes and seconds of a printed DMS axis at `c`, with the minutes ending at `m`,
      the seconds starting at `g` and the seconds mark at `e`. */
  lemma MinutesSecondsPlaced(s: string, c: nat, m: nat, g: nat, e: nat, a: DmsAngle)
    requires PrintableDms(a)
    requires PlacedAt(s, c, MinutesSecondsText(a))
    requires m == c + |a.minutes| && g == m + 2 && e == g + |FixedText(a.whole, a.fraction)|
    ensures IsDigit(s[c]) && s[c..m] == a.minutes
    ensures Run(s, c, Digits) == Some(m)
    ensures Run(s, m, MinuteGap) == Some(g)
    ensures NumberEnd(s, g) == Some(e)
    ensures s[g..e] == FixedText(a.whole, a.fraction)
    ensures s[e] == '"'
  {
    var fixed := FixedText(a.whole, a.fraction);
    PlacedSplit(s, c, e, a.minutes + "' " + fixed, "\"");
    PlacedSplit(s, c, g, a.minutes + "' ", fixed);
    PlacedSplit(s, c, m, a.minutes, "' ");
    PlacedChar(s, e, '"');
    PlacedPair(s, m, m + 1, '\'', ' ');
    PlacedSlice(s, g, e, fixed);
    PlacedSlice(s, c, m, a.minutes);
    FixedPlaced(s, g, g + |a.whole|, e, a.whole, a.fraction);
    DigitRunPlaced(s, c, m, a.minutes);
    PairRun(s, m, g, MinuteGap);
  }

  /** A printed DMS axis at `i` is read by one angle of the DMS pattern up to its seconds mark
      at `e`; whole minutes end at `m` and the seconds start at `g`. */
  lemma DmsPlaced(s: string, i: nat, m: nat, g: nat, e: nat, a: DmsAngle, letters: CharClass)
    requires PrintableDms(a) && InClass(a.letter, letters)
    requires PlacedAt(s, i, DmsText(a))
    requires m == i + 4 + |a.degrees| + |a.minutes| && g == m + 2
    requires e + 1 == i + |DmsText(a)|
    ensures DmsAngleAt(s, i, letters) == Some(AngleHead(DmsCapture(a), e))
    ensures s[e] == '"'
  {
    var a2 := i + 2;
    var p3 := a2 + |a.degrees|;
    var c := p3 + 2;
    PlacedSplit(s, i, c, HeadText(a.letter, a.degrees), MinutesSecondsText(a));
    MinutesSecondsPlaced(s, c, m, g, e, a);
    HeadPlaced(s, i, a2, p3, c, a.letter, a.degrees);
    AngleAtIs(s, i, letters, true, a2, p3, c, m);
    DmsAngleAtIs(s, i, letters, Angle(a.letter, a.degrees, a.minutes, None), m, g, e);
  }

  // ---------------------------------------------------------------- what the other patterns see

  /** No latitude letter from position `from` on, and every comma or whitespace character
      follows a character that is not a digit: neither a further lettered match nor a decimal
      separator can start in `s` after `from`. */
  predicate Inert(s: string, from: nat)
  {
    && (forall k :: from <= k < |s| ==> !IsLatitudeLetter(s[k]))
    && (forall g :: 0 <= g < |s| && IsPairGap(s[g]) ==> 0 < g && !IsDigit(s[g - 1]))
  }

  lemma InertConcat(a: string, b: string, from: nat)
    requires Inert(a, from) && Inert(b, 0)
    ensures Inert(a + b, from)
  {
    var s := a + b;
    forall k | from <= k < |s| ensures !IsLatitudeLetter(s[k]) {
      if k < |a| {
        assert s[k] == a[k];
      } else {
        assert s[k] == b[k - |a|];
      }
    }
    forall g | 0 <= g < |s| && IsPairGap(s[g]) ensures 0 < g && !IsDigit(s[g - 1]) {
      if g < |a| {
        assert s[g] == a[g];
        if 0 < g {
          assert s[g - 1] == a[g - 1];
        }
      } else {
        assert s[g] == b[g - |a|];
        assert s[g - 1] == b[g - 1 - |a|];
      }
    }
  }

  /** A space after a non-digit keeps two inert texts inert. */
  lemma InertSpaced(a: string, b: string, from: nat)
    requires Inert(a, from) && Inert(b, 0) && |a| > 0 && !IsDigit(a[|a| - 1])
    ensures Inert(a + " " + b, from)
  {
    var s := a + " ";
    forall g | 0 <= g < |s| && IsPairGap(s[g]) ensures 0 < g && !IsDigit(s[g - 1]) {
      if g < |a| {
        assert s[g] == a[g];
        if 0 < g {
          assert s[g - 1] == a[g - 1];
        }
      } else {
        assert s[g - 1] == a[|a| - 1];
      }
    }
    InertConcat(s, b, from);
  }

  lemma InertDigits(d: string)
    requires AllDigits(d)
    ensures Inert(d, 0)
  {
  }

  /** The head of a printed angle: its letter is the only latitude letter in it. */
  lemma InertHead(letter: char, degrees: string)
    requires IsLatitudeLetter(letter) || IsLongitudeLetter(letter)
    requires AllDigits(degrees)
    ensures Inert(HeadText(letter, degrees), if IsLatitudeLetter(letter) then 1 else 0)
  {
    var from := if IsLatitudeLetter(letter) then 1 else 0;
    var t := [letter, ' '];
    assert Inert(t, from) by {
      assert t[0] == letter && t[1] == ' ';
    }
    InertDigits(degrees);
    InertConcat(t, degrees, from);
    var u := [DegreeSign, ' '];
    assert Inert(u, 0) by {
      assert u[0] == DegreeSign && u[1] == ' ';
    }
    InertConcat(t + degrees, u, from);
  }

  lemma InertFixed(whole: string, fraction: string)
    requires IsPointNumber(whole, fraction)
    ensures Inert(FixedText(whole, fraction), 0)
  {
    InertDigits(whole);
    InertDigits(fraction);
    InertConcat(whole, ".", 0);
    InertConcat(whole + ".", fraction, 0);
  }

  lemma InertDdmText(a: DdmAngle)
    requires PrintableDdm(a) && (IsLatitudeLetter(a.letter) || IsLongitudeLetter(a.letter))
    ensures Inert(DdmText(a), if IsLatitudeLetter(a.letter) then 1 else 0)
  {
    InertHead(a.letter, a.degrees);
    InertFixed(a.whole, a.fraction);
    InertConcat(HeadText(a.letter, a.degrees), FixedText(a.whole, a.fraction),
      if IsLatitudeLetter(a.letter) then 1 else 0);
  }

  lemma InertDmsText(a: DmsAngle)
    requires PrintableDms(a) && (IsLatitudeLetter(a.letter) || IsLongitudeLetter(a.letter))
    ensures Inert(DmsText(a), if IsLatitudeLetter(a.letter) then 1 else 0)
    ensures DmsText(a)[|DmsText(a)| - 1] == '"'
  {
    var gap := "' ";
    assert Inert(gap, 0) by {
      assert gap[0] == '\'' && gap[1] == ' ';
    }
    InertDigits(a.minutes);
    InertFixed(a.whole, a.fraction);
    InertConcat(a.minutes, gap, 0);
    InertConcat(a.minutes + gap, FixedText(a.whole, a.fraction), 0);
    InertConcat(a.minutes + gap + FixedText(a.whole, a.fraction), "\"", 0);
    InertHead(a.letter, a.degrees);
    InertConcat(HeadText(a.letter, a.degrees), MinutesSecondsText(a),
      if IsLatitudeLetter(a.letter) then 1 else 0);
  }

  /** A space between two inert texts, the second starting with neither a digit, a `-`, nor a
      comma or whitespace character, creates no decimal separator. */
  lemma SpacedNoSeparator(a: string, b: string, from: nat)
    requires Inert(a, from) && Inert(b, 0)
    requires |b| > 0 && !IsDigit(b[0]) && b[0] != '-' && !IsPairGap(b[0])
    ensures forall k :: from <= k < |a + " " + b| ==> !IsLatitudeLetter((a + " " + b)[k])
    ensures forall g :: !SeparatorAt(a + " " + b, g)
  {
    var s := a + " " + b;
    forall k | from <= k < |s| ensures !IsLatitudeLetter(s[k]) {
      if k < |a| {
        assert s[k] == a[k];
      } else if k > |a| {
        assert s[k] == b[k - |a| - 1];
      }
    }
    forall g | 0 < g < |s| - 1 ensures !SeparatorAt(s, g) {
      if g < |a| {
        assert s[g] == a[g] && s[g - 1] == a[g - 1];
      } else if g == |a| {
        assert s[g + 1] == b[0];
      } else {
        assert s[g] == b[g - |a| - 1];
        if IsPairGap(s[g]) {
          assert s[g - 1] == b[g - |a| - 2];
        }
      }
    }
  }

  /** The marks between and after the printed axes add no foothold. */
  lemma InertMarks()
    ensures Inert("' ", 0) && Inert("'", 0)
  {
    assert "' "[0] == '\'' && "' "[1] == ' ';
  }

  lemma InertNoSeparator(s: string, from: nat)
    requires Inert(s, from)
    ensures forall g :: !SeparatorAt(s, g)
  {
  }

  // ---------------------------------------------------------------- the printed lines read back

  /** A lettered pattern that matches at the start of a string with no decimal separator and
      no other latitude letter gives the result, once the patterns tried before it fail there. */
  lemma ParseAtStart(s: string, p: Pattern, c: Capture)
    requires p != DecimalPattern && MatchAt(p, s, 0) == Some(c)
    requires forall g :: !SeparatorAt(s, g)
    requires forall k :: 0 < k < |s| ==> !IsLatitudeLetter(s[k])
    requires p != DmsPattern ==> DmsAt(s, 0).None?
    requires p == AltDdmPattern ==> DdmAt(s, 0).None?
    ensures WellFormedCapture(c) && ParseCoordinate(s) == Ok(CaptureValue(c))
  {
    forall q: Pattern | q != DecimalPattern && Rank(q) < Rank(p) ensures MatchAt(q, s, 0).None? {
      assert q == DmsPattern || q == DdmPattern;
    }
    LetteredParse(s, p, c);
  }

  /** What `float()` makes of the fixed-point text `whole.fraction`. */
  lemma FixedTextValue(whole: string, fraction: string)
    requires IsPointNumber(whole, fraction)
    ensures IsNumeral(FixedText(whole, fraction))
    ensures NumeralValue(FixedText(whole, fraction)) == FixedValue(whole, fraction)
  {
    FractionalNumeralValue(FixedText(whole, fraction), whole, fraction);
  }

  /** What `float()` makes of the signed fixed-point text. */
  lemma SignedTextValue(n: SignedFixed)
    requires IsPointNumber(n.whole, n.fraction)
    ensures IsNumeral(SignedText(n)) && NumeralValue(SignedText(n)) == SignedValue(n)
  {
    if n.negative {
      NegativeTextValue(n);
    } else {
      assert SignedText(n) == FixedText(n.whole, n.fraction);
      FixedTextValue(n.whole, n.fraction);
    }
  }

  lemma NegativeTextValue(n: SignedFixed)
    requires IsPointNumber(n.whole, n.fraction) && n.negative
    ensures IsNumeral(SignedText(n)) && NumeralValue(SignedText(n)) == SignedValue(n)
  {
    var f := FixedText(n.whole, n.fraction);
    FixedTextValue(n.whole, n.fraction);
    assert f[0] == n.whole[0];
    NegatedNumeralValue(f);
  }

  /** Where the parts of the `"decimal"` line sit: the latitude text up to `n1`, then `", "`,
      then the longitude text from `b` to the end. */
  predicate DecimalLineLaidOut(s: string, lat: SignedFixed, lon: SignedFixed, n1: nat, b: nat)
  {
    && IsPointNumber(lat.whole, lat.fraction) && IsPointNumber(lon.whole, lon.fraction)
    && n1 == |SignedText(lat)| && b == n1 + 2 && |s| == b + |SignedText(lon)|
    && PlacedAt(s, 0, SignedText(lat)) && PlacedAt(s, b, SignedText(lon))
    && s[n1] == ',' && s[n1 + 1] == ' '
  }

  lemma DecimalLineLayout(s: string, lat: SignedFixed, lon: SignedFixed, n1: nat, b: nat)
    requires IsPointNumber(lat.whole, lat.fraction) && IsPointNumber(lon.whole, lon.fraction)
    requires s == DecimalLine(lat, lon)
    requires n1 == |SignedText(lat)| && b == n1 + 2
    ensures DecimalLineLaidOut(s, lat, lon, n1, b)
  {
    var t1 := SignedText(lat);
    var t2 := SignedText(lon);
    PlacedWhole(s);
    PlacedSplit(s, 0, b, t1 + ", ", t2);
    PlacedSplit(s, 0, n1, t1, ", ");
    PlacedPair(s, n1, n1 + 1, ',', ' ');
  }

  lemma DecimalLineMatchLaidOut(s: string, lat: SignedFixed, lon: SignedFixed, n1: nat, b: nat)
    requires DecimalLineLaidOut(s, lat, lon, n1, b)
    ensures DecimalAt(s, 0) == Some(DecimalPair(SignedText(lat), SignedText(lon)))
  {
    var n2 := |s|;
    SignedPlaced(s, 0, n1, lat);
    SignedPlaced(s, b, n2, lon);
    PairRun(s, n1, b, PairGap);
    PlacedSlice(s, 0, n1, SignedText(lat));
    PlacedSlice(s, b, n2, SignedText(lon));
    DecimalAtIs(s, 0, n1, b, n2);
  }

  /** The `"decimal"` line is matched by the decimal pattern at its start, number by number. */
  lemma DecimalLineMatch(lat: SignedFixed, lon: SignedFixed)
    requires IsPointNumber(lat.whole, lat.fraction) && IsPointNumber(lon.whole, lon.fraction)
    ensures MatchAt(DecimalPattern, DecimalLine(lat, lon), 0)
         == Some(DecimalPair(SignedText(lat), SignedText(lon)))
  {
    var n1 := |SignedText(lat)|;
    DecimalLineLayout(DecimalLine(lat, lon), lat, lon, n1, n1 + 2);
    DecimalLineMatchLaidOut(DecimalLine(lat, lon), lat, lon, n1, n1 + 2);
  }

  /** The `"decimal"` line parses back to the values of its two printed numbers. */
  lemma DecimalLineParses(lat: SignedFixed, lon: SignedFixed)
    requires IsPointNumber(lat.whole, lat.fraction) && IsPointNumber(lon.whole, lon.fraction)
    ensures ParseCoordinate(DecimalLine(lat, lon)) == Ok((SignedValue(lat), SignedValue(lon)))
  {
    DecimalLineMatch(lat, lon);
    SignedTextValue(lat);
    SignedTextValue(lon);
    FirstPatternLeftmostMatch(DecimalLine(lat, lon), DecimalPattern, 0,
      DecimalPair(SignedText(lat), SignedText(lon)));
  }

  /** The value the digits of a printed DDM axis stand for. */
  function DdmAngleValue(a: DdmAngle, negativeLetter: char): real
    requires PrintableDdm(a)
  {
    SexagesimalValue(Upper(a.letter) == negativeLetter, DigitsValue(a.degrees) as real,
      FixedValue(a.whole, a.fraction), 0.0)
  }

  /** The value the digits of a printed DMS axis stand for. */
  function DmsAngleValue(a: DmsAngle, negativeLetter: char): real
    requires PrintableDms(a)
  {
    SexagesimalValue(Upper(a.letter) == negativeLetter, DigitsValue(a.degrees) as real,
      DigitsValue(a.minutes) as real, FixedValue(a.whole, a.fraction))
  }

  lemma DdmCaptureValue(a: DdmAngle, negativeLetter: char)
    requires PrintableDdm(a)
    ensures WellFormed(DdmCapture(a)) && AngleValue(DdmCapture(a), negativeLetter) == DdmAngleValue(a, negativeLetter)
  {
    WholeNumeralValue(a.degrees);
    FractionalNumeralValue(FixedText(a.whole, a.fraction), a.whole, a.fraction);
  }

  lemma DmsCaptureValue(a: DmsAngle, negativeLetter: char)
    requires PrintableDms(a)
    ensures WellFormed(DmsCapture(a)) && AngleValue(DmsCapture(a), negativeLetter) == DmsAngleValue(a, negativeLetter)
  {
    WholeNumeralValue(a.degrees);
    WholeNumeralValue(a.minutes);
    FractionalNumeralValue(FixedText(a.whole, a.fraction), a.whole, a.fraction);
  }

  /** Where the pieces of the `"ddm"` line sit: the latitude at 0, its apostrophe and space at
      `n1`, the longitude at `i2` and the last apostrophe at `n2`. */
  predicate DdmLineLaidOut(s: string, lat: DdmAngle, lon: DdmAngle, n1: nat, i2: nat, n2: nat)
  {
    && PrintableDdm(lat) && IsLatitudeLetter(lat.letter)
    && PrintableDdm(lon) && IsLongitudeLetter(lon.letter)
    && n1 == |DdmText(lat)| && i2 == n1 + 2 && n2 == i2 + |DdmText(lon)| && |s| == n2 + 1
    && PlacedAt(s, 0, DdmText(lat)) && PlacedAt(s, i2, DdmText(lon))
    && s[n1] == '\'' && s[n1 + 1] == ' ' && s[n2] == '\''
  }

  lemma DdmLineLayout(s: string, lat: DdmAngle, lon: DdmAngle, n1: nat, i2: nat, n2: nat)
    requires PrintableDdm(lat) && IsLatitudeLetter(lat.letter)
    requires PrintableDdm(lon) && IsLongitudeLetter(lon.letter)
    requires s == DdmLine(lat, lon)
    requires n1 == |DdmText(lat)| && i2 == n1 + 2 && n2 == i2 + |DdmText(lon)|
    ensures DdmLineLaidOut(s, lat, lon, n1, i2, n2)
  {
    var t1 := DdmText(lat);
    var t2 := DdmText(lon);
    PlacedWhole(s);
    PlacedSplit(s, 0, n2, t1 + "' " + t2, "'");
    PlacedSplit(s, 0, i2, t1 + "' ", t2);
    PlacedSplit(s, 0, n1, t1, "' ");
    PlacedPair(s, n1, n1 + 1, '\'', ' ');
    PlacedChar(s, n2, '\'');
  }

  /** The angle heads of the `"ddm"` line; the DMS pattern, tried first, stops at the decimal
      point of the latitude minutes. */
  lemma DdmLineAngles(s: string, lat: DdmAngle, lon: DdmAngle, n1: nat, i2: nat, n2: nat)
    requires DdmLineLaidOut(s, lat, lon, n1, i2, n2)
    ensures AngleAt(s, 0, LatitudeLetters, false) == Some(AngleHead(DdmCapture(lat), n1))
    ensures AngleAt(s, i2, LongitudeLetters, false) == Some(AngleHead(DdmCapture(lon), n2))
    ensures s[i2] == lon.letter
    ensures DmsAt(s, 0).None?
  {
    var w1 := 4 + |lat.degrees| + |lat.whole|;
    DdmPlaced(s, 0, w1, n1, lat, LatitudeLetters);
    DdmPlaced(s, i2, i2 + 4 + |lon.degrees| + |lon.whole|, n2, lon, LongitudeLetters);
    DmsAtStops(s, 0, w1);
  }

  lemma DdmLineMatchLaidOut(s: string, lat: DdmAngle, lon: DdmAngle, n1: nat, i2: nat, n2: nat)
    requires DdmLineLaidOut(s, lat, lon, n1, i2, n2)
    ensures DdmAt(s, 0) == Some(Hemispheric(DdmCapture(lat), DdmCapture(lon)))
    ensures DmsAt(s, 0).None?
  {
    DdmLineAngles(s, lat, lon, n1, i2, n2);
    PairRun(s, n1, i2, ApostropheGap);
    assert Run(s, n2, ApostropheGap) == Some(n2 + 1);
    DdmAtIs(s, 0, DdmCapture(lat), n1, i2, DdmCapture(lon), n2);
  }

  /** The `"ddm"` line is matched by the DDM pattern at its start, and not by the DMS
      pattern. */
  lemma DdmLineMatch(lat: DdmAngle, lon: DdmAngle)
    requires PrintableDdm(lat) && IsLatitudeLetter(lat.letter)
    requires PrintableDdm(lon) && IsLongitudeLetter(lon.letter)
    ensures DdmAt(DdmLine(lat, lon), 0) == Some(Hemispheric(DdmCapture(lat), DdmCapture(lon)))
    ensures DmsAt(DdmLine(lat, lon), 0).None?
  {
    var s := DdmLine(lat, lon);
    var n1 := |DdmText(lat)|;
    var i2 := n1 + 2;
    var n2 := i2 + |DdmText(lon)|;
    DdmLineLayout(s, lat, lon, n1, i2, n2);
    DdmLineMatchLaidOut(s, lat, lon, n1, i2, n2);
  }

  /** Apart from the latitude letter in front, the `"ddm"` line holds no latitude letter and
      no decimal separator. */
  lemma DdmLineInert(lat: DdmAngle, lon: DdmAngle)
    requires PrintableDdm(lat) && IsLatitudeLetter(lat.letter)
    requires PrintableDdm(lon) && IsLongitudeLetter(lon.letter)
    ensures Inert(DdmLine(lat, lon), 1)
  {
    var t1 := DdmText(lat);
    var t2 := DdmText(lon);
    InertDdmText(lat);
    InertDdmText(lon);
    InertMarks();
    InertConcat(t1, "' ", 1);
    InertConcat(t1 + "' ", t2, 1);
    InertConcat(t1 + "' " + t2, "'", 1);
  }

  /** `parse_coordinate` takes the `"ddm"` line through the DDM pattern at its start. */
  lemma DdmLineCapture(lat: DdmAngle, lon: DdmAngle)
    requires PrintableDdm(lat) && IsLatitudeLetter(lat.letter)
    requires PrintableDdm(lon) && IsLongitudeLetter(lon.letter)
    requires WellFormed(DdmCapture(lat)) && WellFormed(DdmCapture(lon))
    ensures ParseCoordinate(DdmLine(lat, lon)) == Ok((AngleValue(DdmCapture(lat), 'S'), AngleValue(DdmCapture(lon), 'W')))
  {
    var s := DdmLine(lat, lon);
    DdmLineMatch(lat, lon);
    DdmLineInert(lat, lon);
    InertNoSeparator(s, 1);
    ParseAtStart(s, DdmPattern, Hemispheric(DdmCapture(lat), DdmCapture(lon)));
  }

  /** `parse_coordinate` reads the `"ddm"` line back to the values its digits stand for. */
  lemma DdmLineParses(lat: DdmAngle, lon: DdmAngle)
    requires PrintableDdm(lat) && IsLatitudeLetter(lat.letter)
    requires PrintableDdm(lon) && IsLongitudeLetter(lon.letter)
    ensures ParseCoordinate(DdmLine(lat, lon)) == Ok((DdmAngleValue(lat, 'S'), DdmAngleValue(lon, 'W')))
  {
    DdmCaptureValue(lat, 'S');
    DdmCaptureValue(lon, 'W');
    DdmLineCapture(lat, lon);
  }

  /** Where the pieces of the DDM form without apostrophes sit: the latitude at 0, a space at
      `n1`, the longitude from `i2` to the end `n2`. */
  predicate AltDdmLineLaidOut(s: string, lat: DdmAngle, lon: DdmAngle, n1: nat, i2: nat, n2: nat)
  {
    && PrintableDdm(lat) && IsLatitudeLetter(lat.letter)
    && PrintableDdm(lon) && IsLongitudeLetter(lon.letter)
    && n1 == |DdmText(lat)| && i2 == n1 + 1 && n2 == i2 + |DdmText(lon)| && |s| == n2
    && PlacedAt(s, 0, DdmText(lat)) && PlacedAt(s, i2, DdmText(lon))
    && s[n1] == ' '
  }

  lemma AltDdmLineLayout(s: string, lat: DdmAngle, lon: DdmAngle, n1: nat, i2: nat, n2: nat)
    requires PrintableDdm(lat) && IsLatitudeLetter(lat.letter)
    requires PrintableDdm(lon) && IsLongitudeLetter(lon.letter)
    requires s == AltDdmLine(lat, lon)
    requires n1 == |DdmText(lat)| && i2 == n1 + 1 && n2 == i2 + |DdmText(lon)|
    ensures AltDdmLineLaidOut(s, lat, lon, n1, i2, n2)
  {
    var t1 := DdmText(lat);
    var t2 := DdmText(lon);
    PlacedWhole(s);
    PlacedSplit(s, 0, i2, t1 + " ", t2);
    PlacedSplit(s, 0, n1, t1, " ");
    PlacedChar(s, n1, ' ');
  }

  /** The angle heads of the DDM form without apostrophes; the DMS pattern stops at the
      decimal point of the latitude minutes. */
  lemma AltDdmLineAngles(s: string, lat: DdmAngle, lon: DdmAngle, n1: nat, i2: nat, n2: nat)
    requires AltDdmLineLaidOut(s, lat, lon, n1, i2, n2)
    ensures AngleAt(s, 0, LatitudeLetters, false) == Some(AngleHead(DdmCapture(lat), n1))
    ensures AngleAt(s, i2, LongitudeLetters, false) == Some(AngleHead(DdmCapture(lon), n2))
    ensures DmsAt(s, 0).None?
  {
    var w1 := 4 + |lat.degrees| + |lat.whole|;
    DdmPlaced(s, 0, w1, n1, lat, LatitudeLetters);
    DdmPlaced(s, i2, i2 + 4 + |lon.degrees| + |lon.whole|, n2, lon, LongitudeLetters);
    DmsAtStops(s, 0, w1);
  }

  /** The single space between the two axes is the gap both DDM patterns expect there. */
  lemma AltDdmLineGap(s: string, lat: DdmAngle, lon: DdmAngle, n1: nat, i2: nat, n2: nat)
    requires AltDdmLineLaidOut(s, lat, lon, n1, i2, n2)
    ensures Run(s, n1, Spaces) == Some(i2) && Run(s, n1, ApostropheGap) == Some(i2)
  {
    DdmTextStart(lon);
    PlacedStart(s, i2, DdmText(lon));
    SpanOver(s, n1 + 1, i2, Spaces);
    SpanOver(s, n1 + 1, i2, ApostropheGap);
  }

  lemma AltDdmLineMatchLaidOut(s: string, lat: DdmAngle, lon: DdmAngle, n1: nat, i2: nat, n2: nat)
    requires AltDdmLineLaidOut(s, lat, lon, n1, i2, n2)
    ensures AltDdmAt(s, 0) == Some(Hemispheric(DdmCapture(lat), DdmCapture(lon)))
    ensures DmsAt(s, 0).None? && DdmAt(s, 0).None?
  {
    AltDdmLineAngles(s, lat, lon, n1, i2, n2);
    AltDdmLineGap(s, lat, lon, n1, i2, n2);
    AltDdmAtIs(s, 0, DdmCapture(lat), n1, i2, DdmCapture(lon), n2);
    DdmAtNeedsMark(s, 0, n1, i2);
  }

  /** The DDM form without apostrophes is matched by the last pattern at its start; the DMS
      and DDM patterns, tried before it, fail there. */
  lemma AltDdmLineMatch(lat: DdmAngle, lon: DdmAngle)
    requires PrintableDdm(lat) && IsLatitudeLetter(lat.letter)
    requires PrintableDdm(lon) && IsLongitudeLetter(lon.letter)
    ensures AltDdmAt(AltDdmLine(lat, lon), 0) == Some(Hemispheric(DdmCapture(lat), DdmCapture(lon)))
    ensures DmsAt(AltDdmLine(lat, lon), 0).None? && DdmAt(AltDdmLine(lat, lon), 0).None?
  {
    var s := AltDdmLine(lat, lon);
    var n1 := |DdmText(lat)|;
    var i2 := n1 + 1;
    var n2 := i2 + |DdmText(lon)|;
    AltDdmLineLayout(s, lat, lon, n1, i2, n2);
    AltDdmLineMatchLaidOut(s, lat, lon, n1, i2, n2);
  }

  /** `parse_coordinate` takes the DDM form without apostrophes through the last pattern at its
      start. */
  lemma AltDdmLineCapture(lat: DdmAngle, lon: DdmAngle)
    requires PrintableDdm(lat) && IsLatitudeLetter(lat.letter)
    requires PrintableDdm(lon) && IsLongitudeLetter(lon.letter)
    requires WellFormed(DdmCapture(lat)) && WellFormed(DdmCapture(lon))
    ensures ParseCoordinate(AltDdmLine(lat, lon)) == Ok((AngleValue(DdmCapture(lat), 'S'), AngleValue(DdmCapture(lon), 'W')))
  {
    var s := AltDdmLine(lat, lon);
    var t2 := DdmText(lon);
    AltDdmLineMatch(lat, lon);
    InertDdmText(lat);
    InertDdmText(lon);
    assert t2[0] == lon.letter;
    SpacedNoSeparator(DdmText(lat), t2, 1);
    ParseAtStart(s, AltDdmPattern, Hemispheric(DdmCapture(lat), DdmCapture(lon)));
  }

  /** `parse_coordinate` reads the DDM form without apostrophes back to the values its digits
      stand for. */
  lemma AltDdmLineParses(lat: DdmAngle, lon: DdmAngle)
    requires PrintableDdm(lat) && IsLatitudeLetter(lat.letter)
    requires PrintableDdm(lon) && IsLongitudeLetter(lon.letter)
    ensures ParseCoordinate(AltDdmLine(lat, lon)) == Ok((DdmAngleValue(lat, 'S'), DdmAngleValue(lon, 'W')))
  {
    DdmCaptureValue(lat, 'S');
    DdmCaptureValue(lon, 'W');
    AltDdmLineCapture(lat, lon);
  }

  /** Where the pieces of the `"dms"` line sit: the latitude at 0, a space at `n1`, the
      longitude from `i2` to the end. */
  predicate DmsLineLaidOut(s: string, lat: DmsAngle, lon: DmsAngle, n1: nat, i2: nat)
  {
    && PrintableDms(lat) && IsLatitudeLetter(lat.letter)
    && PrintableDms(lon) && IsLongitudeLetter(lon.letter)
    && n1 == |DmsText(lat)| && i2 == n1 + 1 && |s| == i2 + |DmsText(lon)|
    && PlacedAt(s, 0, DmsText(lat)) && PlacedAt(s, i2, DmsText(lon))
    && s[n1] == ' '
  }

  lemma DmsLineLayout(s: string, lat: DmsAngle, lon: DmsAngle, n1: nat, i2: nat)
    requires PrintableDms(lat) && IsLatitudeLetter(lat.letter)
    requires PrintableDms(lon) && IsLongitudeLetter(lon.letter)
    requires s == DmsLine(lat, lon)
    requires n1 == |DmsText(lat)| && i2 == n1 + 1
    ensures DmsLineLaidOut(s, lat, lon, n1, i2)
  {
    var t1 := DmsText(lat);
    var t2 := DmsText(lon);
    PlacedWhole(s);
    PlacedSplit(s, 0, i2, t1 + " ", t2);
    PlacedSplit(s, 0, n1, t1, " ");
    PlacedChar(s, n1, ' ');
  }

  /** The latitude of the `"dms"` line, read up to its seconds mark at `e1`, after which the
      pattern moves on to the longitude letter at `i2`. */
  lemma DmsLineLatitude(s: string, lat: DmsAngle, lon: DmsAngle, n1: nat, i2: nat, e1: nat)
    requires DmsLineLaidOut(s, lat, lon, n1, i2)
    requires e1 + 1 == n1
    ensures DmsAngleAt(s, 0, LatitudeLetters) == Some(AngleHead(DmsCapture(lat), e1))
    ensures LongitudeStart(s, e1) == i2
  {
    var m1 := 4 + |lat.degrees| + |lat.minutes|;
    DmsPlaced(s, 0, m1, m1 + 2, e1, lat, LatitudeLetters);
    DmsLineGap(s, lat, lon, n1, i2, e1);
  }

  /** Between the seconds mark of the latitude and the longitude letter there is one space. */
  lemma DmsLineGap(s: string, lat: DmsAngle, lon: DmsAngle, n1: nat, i2: nat, e1: nat)
    requires DmsLineLaidOut(s, lat, lon, n1, i2)
    requires e1 + 1 == n1 && s[e1] == '"'
    ensures LongitudeStart(s, e1) == i2
  {
    DmsTextStart(lon);
    PlacedStart(s, i2, DmsText(lon));
    LongitudeStartAfterSpace(s, e1, i2);
  }

  /** The longitude of the `"dms"` line, read up to its seconds mark at the last position. */
  lemma DmsLineLongitude(s: string, lat: DmsAngle, lon: DmsAngle, n1: nat, i2: nat, e2: nat)
    requires DmsLineLaidOut(s, lat, lon, n1, i2)
    requires e2 + 1 == |s|
    ensures DmsAngleAt(s, i2, LongitudeLetters) == Some(AngleHead(DmsCapture(lon), e2))
  {
    var m2 := i2 + 4 + |lon.degrees| + |lon.minutes|;
    DmsPlaced(s, i2, m2, m2 + 2, e2, lon, LongitudeLetters);
  }

  lemma DmsLineMatchLaidOut(s: string, lat: DmsAngle, lon: DmsAngle, n1: nat, i2: nat)
    requires DmsLineLaidOut(s, lat, lon, n1, i2)
    ensures DmsAt(s, 0) == Some(Hemispheric(DmsCapture(lat), DmsCapture(lon)))
  {
    var e1 := n1 - 1;
    var e2 := |s| - 1;
    DmsLineLatitude(s, lat, lon, n1, i2, e1);
    DmsLineLongitude(s, lat, lon, n1, i2, e2);
    DmsAtIs(s, 0, DmsCapture(lat), e1, i2, DmsCapture(lon), e2);
  }

  /** The `"dms"` line is matched by the DMS pattern at its start. */
  lemma DmsLineMatch(lat: DmsAngle, lon: DmsAngle)
    requires PrintableDms(lat) && IsLatitudeLetter(lat.letter)
    requires PrintableDms(lon) && IsLongitudeLetter(lon.letter)
    ensures DmsAt(DmsLine(lat, lon), 0) == Some(Hemispheric(DmsCapture(lat), DmsCapture(lon)))
  {
    var s := DmsLine(lat, lon);
    var n1 := |DmsText(lat)|;
    DmsLineLayout(s, lat, lon, n1, n1 + 1);
    DmsLineMatchLaidOut(s, lat, lon, n1, n1 + 1);
  }

  /** `parse_coordinate` takes the `"dms"` line through the DMS pattern at its start. */
  lemma DmsLineCapture(lat: DmsAngle, lon: DmsAngle)
    requires PrintableDms(lat) && IsLatitudeLetter(lat.letter)
    requires PrintableDms(lon) && IsLongitudeLetter(lon.letter)
    requires WellFormed(DmsCapture(lat)) && WellFormed(DmsCapture(lon))
    ensures ParseCoordinate(DmsLine(lat, lon)) == Ok((AngleValue(DmsCapture(lat), 'S'), AngleValue(DmsCapture(lon), 'W')))
  {
    var s := DmsLine(lat, lon);
    DmsLineMatch(lat, lon);
    InertDmsText(lat);
    InertDmsText(lon);
    InertSpaced(DmsText(lat), DmsText(lon), 1);
    InertNoSeparator(s, 1);
    ParseAtStart(s, DmsPattern, Hemispheric(DmsCapture(lat), DmsCapture(lon)));
  }

  /** `parse_coordinate` reads the `"dms"` line back to the values its digits stand for. */
  lemma DmsLineParses(lat: DmsAngle, lon: DmsAngle)
    requires PrintableDms(lat) && IsLatitudeLetter(lat.letter)
    requires PrintableDms(lon) && IsLongitudeLetter(lon.letter)
    ensures ParseCoordinate(DmsLine(lat, lon)) == Ok((DmsAngleValue(lat, 'S'), DmsAngleValue(lon, 'W')))
  {
    DmsCaptureValue(lat, 'S');
    DmsCaptureValue(lon, 'W');
    DmsLineCapture(lat, lon);
  }

  // ---------------------------------------------------------------- format, print, parse

  /** The digits `f"{dir} {deg}° {min:.3f}"` prints for the DDM numbers of one axis. */
  predicate PrintsDdm(p: DdmPart, a: DdmAngle)
  {
    && a.letter == p.hemisphere && a.degrees == DecimalString(p.degrees)
    && PrintsFixed(p.minutes, a.whole, a.fraction, 3)
  }

  /** The digits `f"{dir} {deg}° {min}' {sec:.3f}\""` prints for the DMS numbers of one axis. */
  predicate PrintsDms(p: DmsPart, a: DmsAngle)
  {
    && a.letter == p.hemisphere && a.degrees == DecimalString(p.degrees)
    && a.minutes == DecimalString(p.minutes) && PrintsFixed(p.seconds, a.whole, a.fraction, 3)
  }

  /** Two readings with the same sign and degrees are as far apart as their minutes and
      seconds make them. */
  lemma SexagesimalClose(negative: bool, degrees: real, m1: real, m2: real, s1: real, s2: real)
    ensures Abs(SexagesimalValue(negative, degrees, m1, s1) - SexagesimalValue(negative, degrees, m2, s2))
         <= Abs(m1 - m2) / 60.0 + Abs(s1 - s2) / 3600.0
  {
  }

  /** The printed digits of one DDM axis read back to within half a thousandth of a minute of
      the value that was formatted. */
  lemma DdmAxisReadsBack(p: DdmPart, a: DdmAngle, negativeLetter: char, value: real)
    requires PrintsDdm(p, a) && DdmValue(p, negativeLetter) == value
    ensures PrintableDdm(a)
    ensures Abs(DdmAngleValue(a, negativeLetter) - value) <= HalfUnit(3) / 60.0
  {
    DecimalStringValue(p.degrees);
    SexagesimalClose(Upper(a.letter) == negativeLetter, p.degrees as real,
      FixedValue(a.whole, a.fraction), p.minutes, 0.0, 0.0);
  }

  /** The printed digits of one DMS axis read back to within half a thousandth of a second of
      the value that was formatted. */
  lemma DmsAxisReadsBack(p: DmsPart, a: DmsAngle, negativeLetter: char, value: real)
    requires PrintsDms(p, a) && DmsValue(p, negativeLetter) == value
    ensures PrintableDms(a)
    ensures Abs(DmsAngleValue(a, negativeLetter) - value) <= HalfUnit(3) / 3600.0
  {
    DecimalStringValue(p.degrees);
    DecimalStringValue(p.minutes);
    SexagesimalClose(Upper(a.letter) == negativeLetter, p.degrees as real, p.minutes as real,
      p.minutes as real, FixedValue(a.whole, a.fraction), p.seconds);
  }

  /** A number printed with `places` fraction digits reads back to within half a unit of its
      last place. */
  lemma SignedReadsBack(x: real, n: SignedFixed, places: nat)
    requires PrintsSigned(x, n, places)
    ensures IsPointNumber(n.whole, n.fraction)
    ensures Abs(SignedValue(n) - x) <= HalfUnit(places)
  {
  }

  /** `parse_coordinate(format_coordinate(lat, lon, "decimal"))` gives back the coordinate to
      within the six printed decimal places. */
  lemma DecimalFormatParsesBack(latitude: real, longitude: real, x: real, y: real,
                                lat: SignedFixed, lon: SignedFixed)
    requires FormatCoordinate(latitude, longitude, "decimal") == Ok(DecimalDegrees(x, y))
    requires PrintsSigned(x, lat, 6) && PrintsSigned(y, lon, 6)
    ensures ParseCoordinate(DecimalLine(lat, lon)).Ok?
    ensures Abs(ParseCoordinate(DecimalLine(lat, lon)).value.0 - latitude) <= HalfUnit(6)
    ensures Abs(ParseCoordinate(DecimalLine(lat, lon)).value.1 - longitude) <= HalfUnit(6)
  {
    FormatReadsBack(latitude, longitude, "decimal");
    SignedReadsBack(x, lat, 6);
    SignedReadsBack(y, lon, 6);
    DecimalLineParses(lat, lon);
  }

  /** `parse_coordinate(format_coordinate(lat, lon, "ddm"))` gives back the coordinate to within
      the rounding of the minutes to three decimals. */
  lemma DdmFormatParsesBack(latitude: real, longitude: real, p: DdmPart, q: DdmPart,
                            lat: DdmAngle, lon: DdmAngle)
    requires FormatCoordinate(latitude, longitude, "ddm") == Ok(DegreesMinutes(p, q))
    requires PrintsDdm(p, lat) && PrintsDdm(q, lon)
    ensures ParseCoordinate(DdmLine(lat, lon)).Ok?
    ensures Abs(ParseCoordinate(DdmLine(lat, lon)).value.0 - latitude) <= HalfUnit(3) / 60.0
    ensures Abs(ParseCoordinate(DdmLine(lat, lon)).value.1 - longitude) <= HalfUnit(3) / 60.0
  {
    FormatReadsBack(latitude, longitude, "ddm");
    DdmAxisReadsBack(p, lat, 'S', latitude);
    DdmAxisReadsBack(q, lon, 'W', longitude);
    DdmLineParses(lat, lon);
  }

  /** `parse_coordinate(format_coordinate(lat, lon, "dms"))` gives back the coordinate to within
      the rounding of the seconds to three decimals. */
  lemma DmsFormatParsesBack(latitude: real, longitude: real, p: DmsPart, q: DmsPart,
                            lat: DmsAngle, lon: DmsAngle)
    requires FormatCoordinate(latitude, longitude, "dms") == Ok(DegreesMinutesSeconds(p, q))
    requires PrintsDms(p, lat) && PrintsDms(q, lon)
    ensures ParseCoordinate(DmsLine(lat, lon)).Ok?
    ensures Abs(ParseCoordinate(DmsLine(lat, lon)).value.0 - latitude) <= HalfUnit(3) / 3600.0
    ensures Abs(ParseCoordinate(DmsLine(lat, lon)).value.1 - longitude) <= HalfUnit(3) / 3600.0
  {
    FormatReadsBack(latitude, longitude, "dms");
    DmsAxisReadsBack(p, lat, 'S', latitude);
    DmsAxisReadsBack(q, lon, 'W', longitude);
    DmsLineParses(lat, lon);
  }
}
