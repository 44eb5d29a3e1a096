/**
 * `parse_coordinate` and `format_coordinate` of the coordinates utilities (the two copies of
 * coordinates.py are identical, so one module models both).
 *
 * Parsing tries four regular expressions in a fixed order, each with `re.search`, and converts
 * the first hit. Each pattern is written here as a deterministic matcher anchored at a start
 * position. In every pattern a repeated or optional item is followed by an item that cannot
 * accept the characters it consumes, so the greedy path is the only one backtracking could
 * complete: the matcher succeeds exactly where the regex matches there, with the same groups.
 * `Search` then picks the leftmost start position, as `re.search` does.
 */
module Coordinates {
  import opened Wrappers
  import opened Text
  import opened Numerals

  // ---------------------------------------------------------------- character classes

  const DegreeSign: char := '\U{00B0}'
  const Prime: char := '\U{2032}'
  const DoublePrime: char := '\U{2033}'

  /** `[NS]` under `re.IGNORECASE`. */
  predicate IsLatitudeLetter(c: char) { c == 'N' || c == 'S' || c == 'n' || c == 's' }

  /** `[EW]` under `re.IGNORECASE`. */
  predicate IsLongitudeLetter(c: char) { c == 'E' || c == 'W' || c == 'e' || c == 'w' }

  /** `[°\s]` */
  predicate IsDegreeGap(c: char) { c == DegreeSign || IsSpace(c) }

  /** `['′\s]`, after the whole minutes of the DMS pattern. */
  predicate IsMinuteGap(c: char) { c == '\'' || c == Prime || IsSpace(c) }

  /** `['\s]`, after the decimal minutes of the DDM pattern. */
  predicate IsApostropheGap(c: char) { c == '\'' || IsSpace(c) }

  /** `["″]` */
  predicate IsSecondMark(c: char) { c == '"' || c == DoublePrime }

  /** `[,\s]`, between the two numbers of the decimal pattern. */
  predicate IsPairGap(c: char) { c == ',' || IsSpace(c) }

  /** The character classes the four patterns use, named so the matchers stay first-order. */
  datatype CharClass =
    | Digits | Spaces | DegreeGap | MinuteGap | ApostropheGap | PairGap
    | LatitudeLetters | LongitudeLetters

  predicate InClass(c: char, cls: CharClass) {
    match cls
    case Digits => IsDigit(c)
    case Spaces => IsSpace(c)
    case DegreeGap => IsDegreeGap(c)
    case MinuteGap => IsMinuteGap(c)
    case ApostropheGap => IsApostropheGap(c)
    case PairGap => IsPairGap(c)
    case LatitudeLetters => IsLatitudeLetter(c)
    case LongitudeLetters => IsLongitudeLetter(c)
  }

  // ---------------------------------------------------------------- pattern pieces

  /** The end of the longest run of class characters starting at `i` (`c*`). */
  function Span(s: string, i: nat, cls: CharClass): (j: nat)
    requires i <= |s|
    ensures i <= j <= |s|
    ensures j < |s| ==> !InClass(s[j], cls)
    ensures i < j ==> InClass(s[j - 1], cls)
    decreases |s| - i
  {
    if i < |s| && InClass(s[i], cls) then Span(s, i + 1, cls) else i
  }

  lemma {:induction false} SpanAll(s: string, i: nat, cls: CharClass)
    requires i <= |s|
    ensures forall k :: i <= k < Span(s, i, cls) ==> InClass(s[k], cls)
    decreases |s| - i
  {
    if i < |s| && InClass(s[i], cls) {
      SpanAll(s, i + 1, cls);
    }
  }

  /** `Span` stops at the first character outside the class. */
  lemma {:induction false} SpanOver(s: string, i: nat, j: nat, cls: CharClass)
    requires i <= j <= |s|
    requires forall k :: i <= k < j ==> InClass(s[k], cls)
    requires j < |s| ==> !InClass(s[j], cls)
    ensures Span(s, i, cls) == j
    decreases j - i
  {
    if i < j {
      SpanOver(s, i + 1, j, cls);
    }
  }

  /** `c+`: at least one class character, then as many more as there are. */
  function Run(s: string, i: nat, cls: CharClass): (r: Option<nat>)
    ensures r.Some? ==> i < r.value <= |s| && InClass(s[i], cls) && InClass(s[r.value - 1], cls)
    ensures r.Some? && r.value < |s| ==> !InClass(s[r.value], cls)
    ensures r.None? ==> i >= |s| || !InClass(s[i], cls)
  {
    if i < |s| && InClass(s[i], cls) then Some(Span(s, i + 1, cls)) else None
  }

  lemma RunAll(s: string, i: nat, cls: CharClass)
    requires Run(s, i, cls).Some?
    ensures forall k :: i <= k < Run(s, i, cls).value ==> InClass(s[k], cls)
  {
    SpanAll(s, i + 1, cls);
  }

  /** Digits from `d` to `w`, then either nothing (`w == f`) or a `.` and digits up to `f`,
      form a numeral. */
  lemma NumeralSlice(s: string, d: nat, w: nat, f: nat)
    requires d < w <= f <= |s|
    requires forall k :: d <= k < w ==> IsDigit(s[k])
    requires w < f ==> s[w] == '.'
    requires forall k :: w < k < f ==> IsDigit(s[k])
    ensures IsNumeral(s[d..f]) && s[d] != '-' && IsUnsigned(s[d..f])
  {
    var g := s[d..f];
    assert NumeralBody(g) == g && g[0] == s[d];
    forall i, j | 0 <= i < j < |g| && g[i] == '.'
      ensures g[j] != '.'
    {
      assert d + i == w;
    }
  }

  /** `\d+\.?\d*`: the end of an unsigned number. */
  function NumberEnd(s: string, i: nat): (r: Option<nat>)
    ensures r.Some? ==> i < r.value <= |s| && IsDigit(s[i])
    ensures r.Some? && r.value < |s| ==> !IsDigit(s[r.value])
  {
    var w :- Run(s, i, Digits);
    if w < |s| && s[w] == '.' then Some(Span(s, w + 1, Digits)) else Some(w)
  }

  lemma NumberEndNumeral(s: string, i: nat)
    requires NumberEnd(s, i).Some?
    ensures IsUnsigned(s[i..NumberEnd(s, i).value])
  {
    var w := Run(s, i, Digits).value;
    var f := if w < |s| && s[w] == '.' then Span(s, w + 1, Digits) else w;
    assert NumberEnd(s, i).value == f;
    UnsignedSlice(s, i, w, f);
  }

  lemma UnsignedSlice(s: string, i: nat, w: nat, f: nat)
    requires Run(s, i, Digits) == Some(w)
    requires f == if w < |s| && s[w] == '.' then Span(s, w + 1, Digits) else w
    ensures i < f <= |s| && IsUnsigned(s[i..f])
  {
    DigitRun(s, i, w);
    if w < |s| && s[w] == '.' {
      DigitSpan(s, w + 1, f);
      NumeralSlice(s, i, w, f);
    } else {
      NumeralSlice(s, i, w, w);
    }
  }

  /** The characters a digit run passes over are digits. */
  lemma DigitRun(s: string, i: nat, w: nat)
    requires Run(s, i, Digits) == Some(w)
    ensures i < w <= |s| && forall k :: i <= k < w ==> IsDigit(s[k])
  {
    RunAll(s, i, Digits);
  }

  lemma DigitSpan(s: string, i: nat, f: nat)
    requires i <= |s| && f == Span(s, i, Digits)
    ensures i <= f <= |s| && forall k :: i <= k < f ==> IsDigit(s[k])
  {
    SpanAll(s, i, Digits);
  }

  /** `-?\d+\.\d+`: the end of a signed number with a decimal point. */
  function DecimalNumberEnd(s: string, i: nat): (r: Option<nat>)
    ensures r.Some? ==> i < r.value <= |s|
    ensures r.Some? ==> (s[i] == '-' || IsDigit(s[i])) && IsDigit(s[r.value - 1])
    ensures r.Some? && r.value < |s| ==> !IsDigit(s[r.value])
  {
    var d := if i < |s| && s[i] == '-' then i + 1 else i;
    var w :- Run(s, d, Digits);
    if w < |s| && s[w] == '.' then
      var f :- Run(s, w + 1, Digits);
      Some(f)
    else
      None
  }

  /** What `-?\d+\.\d+` captures is a numeral, with a point in it. */
  lemma DecimalNumberEndNumeral(s: string, i: nat)
    requires DecimalNumberEnd(s, i).Some?
    ensures IsNumeral(s[i..DecimalNumberEnd(s, i).value])
    ensures exists k :: i <= k < DecimalNumberEnd(s, i).value && s[k] == '.'
  {
    var d := if i < |s| && s[i] == '-' then i + 1 else i;
    var w := Run(s, d, Digits).value;
    var f := Run(s, w + 1, Digits).value;
    assert DecimalNumberEnd(s, i).value == f;
    DecimalSlice(s, i, d, w, f);
  }

  lemma DecimalSlice(s: string, i: nat, d: nat, w: nat, f: nat)
    requires d == if i < |s| && s[i] == '-' then i + 1 else i
    requires Run(s, d, Digits) == Some(w) && w < |s| && s[w] == '.'
    requires Run(s, w + 1, Digits) == Some(f)
    ensures i <= w < f <= |s| && s[w] == '.' && IsNumeral(s[i..f])
  {
    DigitRun(s, d, w);
    DigitRun(s, w + 1, f);
    NumeralSlice(s, d, w, f);
    assert NumeralBody(s[i..f]) == s[d..f];
  }

  // ---------------------------------------------------------------- the four patterns

  /** The groups of one hemisphere-lettered angle; `seconds` only in the DMS pattern. */
  datatype Angle = Angle(hemisphere: char, degrees: string, minutes: string, seconds: Option<string>)

  predicate IsUnsigned(g: string) { IsNumeral(g) && g[0] != '-' }

  /** Every captured number of the angle is an unsigned numeral `float()` accepts. */
  predicate WellFormed(a: Angle)
  {
    && IsUnsigned(a.degrees)
    && IsUnsigned(a.minutes)
    && (a.seconds.Some? ==> IsUnsigned(a.seconds.value))
  }

  datatype AngleHead = AngleHead(angle: Angle, end: nat)

  /** `([L])\s*(\d+)[°\s]+(M)` for the letter class `L`, where `M` is `\d+` when
      `wholeMinutes` and `\d+\.?\d*` otherwise. */
  function AngleAt(s: string, i: nat, letters: CharClass, wholeMinutes: bool): (r: Option<AngleHead>)
    ensures r.Some? ==> i < r.value.end <= |s| && InClass(s[i], letters)
    ensures r.Some? ==> r.value.angle.hemisphere == s[i] && r.value.angle.seconds.None?
  {
    if i >= |s| || !InClass(s[i], letters) then None
    else
      var a := Span(s, i + 1, Spaces);
      var b :- Run(s, a, Digits);
      var c :- Run(s, b, DegreeGap);
      var e :- if wholeMinutes then Run(s, c, Digits) else NumberEnd(s, c);
      Some(AngleHead(Angle(s[i], s[a..b], s[c..e], None), e))
  }

  /** The angle head at `i`, given where each of its runs ends. */
  lemma AngleAtIs(s: string, i: nat, letters: CharClass, wholeMinutes: bool, a: nat, b: nat, c: nat, e: nat)
    requires i < |s| && InClass(s[i], letters)
    requires Span(s, i + 1, Spaces) == a
    requires Run(s, a, Digits) == Some(b) && Run(s, b, DegreeGap) == Some(c)
    requires (if wholeMinutes then Run(s, c, Digits) else NumberEnd(s, c)) == Some(e)
    ensures AngleAt(s, i, letters, wholeMinutes) == Some(AngleHead(Angle(s[i], s[a..b], s[c..e], None), e))
  {
  }

  lemma AngleAtWellFormed(s: string, i: nat, letters: CharClass, wholeMinutes: bool)
    requires AngleAt(s, i, letters, wholeMinutes).Some?
    ensures WellFormed(AngleAt(s, i, letters, wholeMinutes).value.angle)
  {
    var a := Span(s, i + 1, Spaces);
    var b := Run(s, a, Digits).value;
    var c := Run(s, b, DegreeGap).value;
    RunAll(s, a, Digits);
    NumeralSlice(s, a, b, b);
    if wholeMinutes {
      var e := Run(s, c, Digits).value;
      RunAll(s, c, Digits);
      NumeralSlice(s, c, e, e);
    } else {
      NumberEndNumeral(s, c);
    }
  }

  /** The groups of one match: two signed numbers, or two lettered angles. */
  datatype Capture = DecimalPair(latitude: string, longitude: string) | Hemispheric(lat: Angle, lon: Angle)

  predicate WellFormedCapture(c: Capture)
  {
    match c
    case DecimalPair(lat, lon) => IsNumeral(lat) && IsNumeral(lon)
    case Hemispheric(lat, lon) =>
      && WellFormed(lat) && WellFormed(lon)
      && IsLatitudeLetter(lat.hemisphere) && IsLongitudeLetter(lon.hemisphere)
  }

  /** `(-?\d+\.\d+)[,\s]+(-?\d+\.\d+)` at position `i`. */
  function DecimalAt(s: string, i: nat): (r: Option<Capture>)
    ensures r.Some? ==> i < |s| && r.value.DecimalPair?
  {
    var a :- DecimalNumberEnd(s, i);
    var b :- Run(s, a, PairGap);
    var c :- DecimalNumberEnd(s, b);
    Some(DecimalPair(s[i..a], s[b..c]))
  }

  /** The DMS pattern at position `i`:
      `([NS])\s*(\d+)[°\s]+(\d+)['′\s]+(\d+\.?\d*)["″]?\s*,?\s*([EW])\s*(\d+)[°\s]+(\d+)['′\s]+(\d+\.?\d*)["″]?`
      (the final optional mark changes neither the outcome nor the groups). */
  function DmsAt(s: string, i: nat): (r: Option<Capture>)
    ensures r.Some? ==> i < |s| && IsLatitudeLetter(s[i]) && r.value.Hemispheric?
  {
    var lat :- DmsAngleAt(s, i, LatitudeLetters);
    var lon :- DmsAngleAt(s, LongitudeStart(s, lat.end), LongitudeLetters);
    Some(Hemispheric(lat.angle, lon.angle))
  }

  /** One angle of the DMS pattern, up to the end of its seconds:
      `([L])\s*(\d+)[°\s]+(\d+)['′\s]+(\d+\.?\d*)` for the letter class `L`. */
  function DmsAngleAt(s: string, i: nat, letters: CharClass): (r: Option<AngleHead>)
    ensures r.Some? ==> i < r.value.end <= |s| && InClass(s[i], letters)
  {
    var head :- AngleAt(s, i, letters, true);
    var g :- Run(s, head.end, MinuteGap);
    var e :- NumberEnd(s, g);
    Some(AngleHead(head.angle.(seconds := Some(s[g..e])), e))
  }

  /** `["″]?\s*,?\s*` of the DMS pattern, from the end of the latitude seconds. */
  function LongitudeStart(s: string, e: nat): (h: nat)
    requires e <= |s|
    ensures e <= h <= |s|
  {
    var m := if e < |s| && IsSecondMark(s[e]) then e + 1 else e;
    var a := Span(s, m, Spaces);
    var c := if a < |s| && s[a] == ',' then a + 1 else a;
    Span(s, c, Spaces)
  }

  /** After a seconds mark and one space, the longitude starts at the next character when that
      is neither whitespace nor a comma. */
  lemma LongitudeStartAfterSpace(s: string, e: nat, h: nat)
    requires h == e + 2 && h < |s|
    requires IsSecondMark(s[e]) && IsSpace(s[e + 1]) && !IsSpace(s[h]) && s[h] != ','
    ensures LongitudeStart(s, e) == h
  {
    assert Span(s, h, Spaces) == h;
    assert Span(s, e + 1, Spaces) == h;
  }

  /** The DDM pattern at position `i`:
      `([NS])\s*(\d+)[°\s]+(\d+\.?\d*)['\s]+([EW])\s*(\d+)[°\s]+(\d+\.?\d*)['\s]+` */
  function DdmAt(s: string, i: nat): (r: Option<Capture>)
    ensures r.Some? ==> i < |s| && IsLatitudeLetter(s[i]) && r.value.Hemispheric?
  {
    var lat :- AngleAt(s, i, LatitudeLetters, false);
    var g :- Run(s, lat.end, ApostropheGap);
    var lon :- AngleAt(s, g, LongitudeLetters, false);
    var _ :- Run(s, lon.end, ApostropheGap);
    Some(Hemispheric(lat.angle, lon.angle))
  }

  /** The DDM pattern without apostrophes at position `i`:
      `([NS])\s*(\d+)[°\s]+(\d+\.?\d*)\s+([EW])\s*(\d+)[°\s]+(\d+\.?\d*)` */
  function AltDdmAt(s: string, i: nat): (r: Option<Capture>)
    ensures r.Some? ==> i < |s| && IsLatitudeLetter(s[i]) && r.value.Hemispheric?
  {
    var lat :- AngleAt(s, i, LatitudeLetters, false);
    var g :- Run(s, lat.end, Spaces);
    var lon :- AngleAt(s, g, LongitudeLetters, false);
    Some(Hemispheric(lat.angle, lon.angle))
  }

  /** The DDM match at `i`, given the angle heads and the runs after them. */
  lemma DdmAtIs(s: string, i: nat, lat: Angle, l: nat, g: nat, lon: Angle, e: nat)
    requires AngleAt(s, i, LatitudeLetters, false) == Some(AngleHead(lat, l))
    requires Run(s, l, ApostropheGap) == Some(g)
    requires AngleAt(s, g, LongitudeLetters, false) == Some(AngleHead(lon, e))
    requires Run(s, e, ApostropheGap).Some?
    ensures DdmAt(s, i) == Some(Hemispheric(lat, lon))
  {
  }

  /** The DDM pattern fails at `i` when the longitude is not followed by an apostrophe or a
      whitespace character. */
  lemma DdmAtNeedsMark(s: string, i: nat, l: nat, g: nat)
    requires AngleAt(s, i, LatitudeLetters, false).Some? && AngleAt(s, i, LatitudeLetters, false).value.end == l
    requires Run(s, l, ApostropheGap) == Some(g)
    requires AngleAt(s, g, LongitudeLetters, false).Some?
    requires Run(s, AngleAt(s, g, LongitudeLetters, false).value.end, ApostropheGap).None?
    ensures DdmAt(s, i).None?
  {
  }

  /** The apostrophe-free DDM match at `i`, given the angle heads and the run between them. */
  lemma AltDdmAtIs(s: string, i: nat, lat: Angle, l: nat, g: nat, lon: Angle, e: nat)
    requires AngleAt(s, i, LatitudeLetters, false) == Some(AngleHead(lat, l))
    requires Run(s, l, Spaces) == Some(g)
    requires AngleAt(s, g, LongitudeLetters, false) == Some(AngleHead(lon, e))
    ensures AltDdmAt(s, i) == Some(Hemispheric(lat, lon))
  {
  }

  /** The DMS angle at `i`, given its head and the runs after it. */
  lemma DmsAngleAtIs(s: string, i: nat, letters: CharClass, a: Angle, l: nat, g: nat, e: nat)
    requires AngleAt(s, i, letters, true) == Some(AngleHead(a, l))
    requires Run(s, l, MinuteGap) == Some(g) && NumberEnd(s, g) == Some(e)
    ensures DmsAngleAt(s, i, letters) == Some(AngleHead(a.(seconds := Some(s[g..e])), e))
  {
  }

  /** The DMS match at `i`, given both angles and where the longitude starts. */
  lemma DmsAtIs(s: string, i: nat, lat: Angle, e: nat, h: nat, lon: Angle, e2: nat)
    requires DmsAngleAt(s, i, LatitudeLetters) == Some(AngleHead(lat, e))
    requires LongitudeStart(s, e) == h
    requires DmsAngleAt(s, h, LongitudeLetters) == Some(AngleHead(lon, e2))
    ensures DmsAt(s, i) == Some(Hemispheric(lat, lon))
  {
  }

  /** The DMS pattern fails at `i` when its latitude minutes are not followed by a minute gap. */
  lemma DmsAtStops(s: string, i: nat, l: nat)
    requires AngleAt(s, i, LatitudeLetters, true).Some? && AngleAt(s, i, LatitudeLetters, true).value.end == l
    requires l < |s| && !IsMinuteGap(s[l])
    ensures DmsAt(s, i).None?
  {
    assert DmsAngleAt(s, i, LatitudeLetters).None?;
  }

  /** The decimal match at `i`, given where each part ends. */
  lemma DecimalAtIs(s: string, i: nat, a: nat, b: nat, c: nat)
    requires DecimalNumberEnd(s, i) == Some(a) && Run(s, a, PairGap) == Some(b)
    requires DecimalNumberEnd(s, b) == Some(c)
    ensures DecimalAt(s, i) == Some(DecimalPair(s[i..a], s[b..c]))
  {
  }

  // ---------------------------------------------------------------- re.search

  /** The four patterns, in the order `parse_coordinate` tries them. */
  datatype Pattern = DecimalPattern | DmsPattern | DdmPattern | AltDdmPattern

  function MatchAt(p: Pattern, s: string, i: nat): (r: Option<Capture>)
    ensures r.Some? ==> i < |s|
    ensures r.Some? ==> (r.value.DecimalPair? <==> p == DecimalPattern)
  {
    match p
    case DecimalPattern => DecimalAt(s, i)
    case DmsPattern => DmsAt(s, i)
    case DdmPattern => DdmAt(s, i)
    case AltDdmPattern => AltDdmAt(s, i)
  }

  /** Every match captures numerals `float()` accepts, with the hemisphere letters in place. */
  lemma MatchWellFormed(p: Pattern, s: string, i: nat)
    requires MatchAt(p, s, i).Some?
    ensures WellFormedCapture(MatchAt(p, s, i).value)
  {
    match p
    case DecimalPattern => DecimalWellFormed(s, i);
    case DmsPattern => DmsWellFormed(s, i);
    case DdmPattern => DdmWellFormed(s, i);
    case AltDdmPattern => AltDdmWellFormed(s, i);
  }

  lemma DecimalWellFormed(s: string, i: nat)
    requires DecimalAt(s, i).Some?
    ensures WellFormedCapture(DecimalAt(s, i).value)
  {
    var a := DecimalNumberEnd(s, i).value;
    var b := Run(s, a, PairGap).value;
    DecimalNumberEndNumeral(s, i);
    DecimalNumberEndNumeral(s, b);
  }

  lemma DmsWellFormed(s: string, i: nat)
    requires DmsAt(s, i).Some?
    ensures WellFormedCapture(DmsAt(s, i).value)
  {
    var lat := DmsAngleAt(s, i, LatitudeLetters).value;
    DmsAngleWellFormed(s, i, LatitudeLetters);
    DmsAngleWellFormed(s, LongitudeStart(s, lat.end), LongitudeLetters);
  }

  lemma DmsAngleWellFormed(s: string, i: nat, letters: CharClass)
    requires DmsAngleAt(s, i, letters).Some?
    ensures WellFormed(DmsAngleAt(s, i, letters).value.angle)
    ensures DmsAngleAt(s, i, letters).value.angle.hemisphere == s[i]
  {
    var head := AngleAt(s, i, letters, true).value;
    var g := Run(s, head.end, MinuteGap).value;
    AngleAtWellFormed(s, i, letters, true);
    NumberEndNumeral(s, g);
  }

  lemma DdmWellFormed(s: string, i: nat)
    requires DdmAt(s, i).Some?
    ensures WellFormedCapture(DdmAt(s, i).value)
  {
    var lat := AngleAt(s, i, LatitudeLetters, false).value;
    var g := Run(s, lat.end, ApostropheGap).value;
    AngleAtWellFormed(s, i, LatitudeLetters, false);
    AngleAtWellFormed(s, g, LongitudeLetters, false);
  }

  lemma AltDdmWellFormed(s: string, i: nat)
    requires AltDdmAt(s, i).Some?
    ensures WellFormedCapture(AltDdmAt(s, i).value)
  {
    var lat := AngleAt(s, i, LatitudeLetters, false).value;
    var g := Run(s, lat.end, Spaces).value;
    AngleAtWellFormed(s, i, LatitudeLetters, false);
    AngleAtWellFormed(s, g, LongitudeLetters, false);
  }

  /** The attempts of a pattern at each start position of `s`, its end included. */
  function Attempts(p: Pattern, s: string): seq<Option<Capture>>
  {
    seq(|s| + 1, j requires 0 <= j <= |s| => MatchAt(p, s, j))
  }

  /** The first successful attempt from `from` on, with its position. */
  function FirstFrom(ms: seq<Option<Capture>>, from: nat): (r: Option<(nat, Capture)>)
    requires from <= |ms|
    ensures r.Some? ==> from <= r.value.0 < |ms| && ms[r.value.0] == Some(r.value.1)
    ensures r.Some? ==> forall j :: from <= j < r.value.0 ==> ms[j].None?
    ensures r.None? ==> forall j :: from <= j < |ms| ==> ms[j].None?
    decreases |ms| - from
  {
    if from == |ms| then None
    else
      match ms[from]
      case Some(c) => Some((from, c))
      case None => FirstFrom(ms, from + 1)
  }

  /** `re.search(pattern, s)`: the leftmost start position where the pattern matches. */
  function Search(p: Pattern, s: string): (r: Option<(nat, Capture)>)
    ensures r.Some? ==> r.value.0 <= |s| && WellFormedCapture(r.value.1)
  {
    var r := FirstFrom(Attempts(p, s), 0);
    if r.Some? then
      MatchWellFormed(p, s, r.value.0);
      r
    else
      r
  }

  // ---------------------------------------------------------------- conversion

  /** `degrees + minutes / 60 + seconds / 3600`, negated for the southern or western letter. */
  function SexagesimalValue(negative: bool, degrees: real, minutes: real, seconds: real): real
  {
    var magnitude := degrees + minutes / 60.0 + seconds / 3600.0;
    if negative then -magnitude else magnitude
  }

  /** The unsigned size of a matched angle. */
  function AngleMagnitude(a: Angle): real
    requires WellFormed(a)
  {
    NumeralValue(a.degrees) + NumeralValue(a.minutes) / 60.0
      + (if a.seconds.Some? then NumeralValue(a.seconds.value) else 0.0) / 3600.0
  }

  /** The value of a matched angle; `negativeLetter` is `S` for a latitude and `W` for a
      longitude, compared after `upper()`. */
  function AngleValue(a: Angle, negativeLetter: char): real
    requires WellFormed(a)
  {
    SexagesimalValue(Upper(a.hemisphere) == negativeLetter, NumeralValue(a.degrees), NumeralValue(a.minutes),
      if a.seconds.Some? then NumeralValue(a.seconds.value) else 0.0)
  }

  /** The `(latitude, longitude)` a match converts to. */
  function CaptureValue(c: Capture): (real, real)
    requires WellFormedCapture(c)
  {
    match c
    case DecimalPair(lat, lon) => (NumeralValue(lat), NumeralValue(lon))
    case Hemispheric(lat, lon) => (AngleValue(lat, 'S'), AngleValue(lon, 'W'))
  }

  const ParseErrorPrefix: string := "Could not parse coordinate string: "

  /** No pattern matches at any position of `s`. */
  predicate NoPatternMatches(s: string)
  {
    forall p: Pattern, i :: 0 <= i <= |s| ==> MatchAt(p, s, i).None?
  }

  /** `parse_coordinate(coord_string)`: `(latitude, longitude)`, or the `ValueError` message. */
  function ParseCoordinate(s: string): (r: Result<(real, real), string>)
    ensures r.Err? ==> r.error == ParseErrorPrefix + s
  {
    match Search(DecimalPattern, s)
    case Some((k, c)) => Ok(CaptureValue(c))
    case None =>
      match Search(DmsPattern, s)
      case Some((k, c)) => Ok(CaptureValue(c))
      case None =>
        match Search(DdmPattern, s)
        case Some((k, c)) => Ok(CaptureValue(c))
        case None =>
          match Search(AltDdmPattern, s)
          case Some((k, c)) => Ok(CaptureValue(c))
          case None => Err(ParseErrorPrefix + s)
  }

  /** `parse_coordinate` raises exactly when no pattern matches anywhere in the string. */
  lemma ParseFailsIffNoMatch(s: string)
    ensures ParseCoordinate(s).Err? <==> NoPatternMatches(s)
  {
    SearchNoneIff(DecimalPattern, s);
    SearchNoneIff(DmsPattern, s);
    SearchNoneIff(DdmPattern, s);
    SearchNoneIff(AltDdmPattern, s);
    if ParseCoordinate(s).Err? {
      forall p: Pattern, i | 0 <= i <= |s| ensures MatchAt(p, s, i).None? {
        match p
        case DecimalPattern =>
        case DmsPattern =>
        case DdmPattern =>
        case AltDdmPattern =>
      }
    }
  }

  /** The position of a pattern in the order `parse_coordinate` tries them. */
  function Rank(p: Pattern): nat
  {
    match p
    case DecimalPattern => 0
    case DmsPattern => 1
    case DdmPattern => 2
    case AltDdmPattern => 3
  }

  /** A match at `i` with none before it is what `re.search` returns. */
  lemma LeftmostMatch(p: Pattern, s: string, i: nat, c: Capture)
    requires MatchAt(p, s, i) == Some(c)
    requires forall j :: 0 <= j < i ==> MatchAt(p, s, j).None?
    ensures Search(p, s) == Some((i, c))
  {
    var ms := Attempts(p, s);
    assert ms[i] == Some(c);
    forall j | 0 <= j < i ensures ms[j].None? {
      assert ms[j] == MatchAt(p, s, j);
    }
    FirstFromFinds(ms, i, c);
  }

  lemma FirstFromFinds(ms: seq<Option<Capture>>, i: nat, c: Capture)
    requires i < |ms| && ms[i] == Some(c)
    requires forall j :: 0 <= j < i ==> ms[j].None?
    ensures FirstFrom(ms, 0) == Some((i, c))
  {
    var r := FirstFrom(ms, 0);
    assert r.Some?;
    assert ms[r.value.0].Some?;
  }

  /** What `re.search` returns is a match with no match before it. */
  lemma SearchIsLeftmost(p: Pattern, s: string)
    requires Search(p, s).Some?
    ensures MatchAt(p, s, Search(p, s).value.0) == Some(Search(p, s).value.1)
    ensures forall j :: 0 <= j < Search(p, s).value.0 ==> MatchAt(p, s, j).None?
  {
    var ms := Attempts(p, s);
    var k := Search(p, s).value.0;
    assert ms[k] == MatchAt(p, s, k);
    forall j | 0 <= j < k ensures MatchAt(p, s, j).None? {
      assert ms[j] == MatchAt(p, s, j);
    }
  }

  /** `re.search` finds nothing exactly when the pattern matches at no position. */
  lemma SearchNoneIff(p: Pattern, s: string)
    ensures Search(p, s).None? <==> forall j :: 0 <= j <= |s| ==> MatchAt(p, s, j).None?
  {
    var ms := Attempts(p, s);
    forall j | 0 <= j <= |s| ensures ms[j] == MatchAt(p, s, j) {
    }
  }

  /** The result comes from the first pattern in order that matches anywhere, at its leftmost
      match, converted by the formula of that pattern. */
  lemma FirstPatternLeftmostMatch(s: string, p: Pattern, i: nat, c: Capture)
    requires MatchAt(p, s, i) == Some(c)
    requires forall j :: 0 <= j < i ==> MatchAt(p, s, j).None?
    requires forall q: Pattern, j :: Rank(q) < Rank(p) && 0 <= j <= |s| ==> MatchAt(q, s, j).None?
    ensures WellFormedCapture(c) && ParseCoordinate(s) == Ok(CaptureValue(c))
  {
    MatchWellFormed(p, s, i);
    LeftmostMatch(p, s, i, c);
    EarlierSearchesFail(s, p);
    ParseFromSearches(s, p, i, c);
  }

  /** The search results decide what `parse_coordinate` returns. */
  lemma ParseFromSearches(s: string, p: Pattern, i: nat, c: Capture)
    requires Search(p, s) == Some((i, c)) && WellFormedCapture(c)
    requires forall q: Pattern :: Rank(q) < Rank(p) ==> Search(q, s).None?
    ensures ParseCoordinate(s) == Ok(CaptureValue(c))
  {
    match p
    case DecimalPattern =>
    case DmsPattern =>
      assert Search(DecimalPattern, s).None?;
    case DdmPattern =>
      assert Search(DecimalPattern, s).None? && Search(DmsPattern, s).None?;
    case AltDdmPattern =>
      assert Search(DecimalPattern, s).None? && Search(DmsPattern, s).None?;
      assert Search(DdmPattern, s).None?;
  }

  lemma EarlierSearchesFail(s: string, p: Pattern)
    requires forall q: Pattern, j :: Rank(q) < Rank(p) && 0 <= j <= |s| ==> MatchAt(q, s, j).None?
    ensures forall q: Pattern :: Rank(q) < Rank(p) ==> Search(q, s).None?
  {
    forall q: Pattern | Rank(q) < Rank(p) ensures Search(q, s).None? {
      SearchNoneIff(q, s);
    }
  }

  /** The decimal pattern needs a `.`: integer-only pairs never take the decimal branch. */
  lemma NoDotNoDecimal(s: string)
    requires forall k :: 0 <= k < |s| ==> s[k] != '.'
    ensures forall i :: 0 <= i <= |s| ==> MatchAt(DecimalPattern, s, i).None?
  {
    forall i | 0 <= i <= |s| ensures MatchAt(DecimalPattern, s, i).None? {
      if DecimalNumberEnd(s, i).Some? {
        DecimalNumberEndNumeral(s, i);
      }
    }
  }

  /** The lettered patterns start at a latitude letter. */
  lemma NoLetterNoAngles(s: string)
    requires forall k :: 0 <= k < |s| ==> !IsLatitudeLetter(s[k])
    ensures forall p: Pattern, i :: p != DecimalPattern && 0 <= i <= |s| ==> MatchAt(p, s, i).None?
  {
  }

  /** A string without a `.` and without any of `N`, `S`, `n`, `s`, such as the integer pair
      `47, -122`, is rejected with its own text in the message. */
  lemma IntegerPairRejected(s: string)
    requires forall k :: 0 <= k < |s| ==> s[k] != '.' && !IsLatitudeLetter(s[k])
    ensures ParseCoordinate(s) == Err(ParseErrorPrefix + s)
  {
    NoDotNoDecimal(s);
    NoLetterNoAngles(s);
    ParseFailsIffNoMatch(s);
  }

  /** At `g` a digit is followed by a comma or whitespace character and then by another such
      character, a digit or a `-`. */
  predicate SeparatorAt(s: string, g: int)
  {
    && 0 < g < |s| - 1
    && IsDigit(s[g - 1]) && IsPairGap(s[g])
    && (IsPairGap(s[g + 1]) || IsDigit(s[g + 1]) || s[g + 1] == '-')
  }

  /** A decimal match contains a separator between its two numbers. */
  lemma DecimalNeedsSeparator(s: string, i: nat)
    requires MatchAt(DecimalPattern, s, i).Some?
    ensures exists g :: SeparatorAt(s, g)
  {
    var a := DecimalNumberEnd(s, i).value;
    var b := Run(s, a, PairGap).value;
    assert DecimalNumberEnd(s, b).Some?;
    if b == a + 1 {
      assert IsDigit(s[a + 1]) || s[a + 1] == '-';
    } else {
      RunAll(s, a, PairGap);
      assert IsPairGap(s[a + 1]);
    }
    assert SeparatorAt(s, a);
  }

  /** Without a digit followed by a number separator, `re.search` finds no decimal match. */
  lemma NoDecimalWithoutSeparator(s: string)
    requires forall g :: !SeparatorAt(s, g)
    ensures Search(DecimalPattern, s).None?
  {
    forall i | 0 <= i <= |s| ensures MatchAt(DecimalPattern, s, i).None? {
      if MatchAt(DecimalPattern, s, i).Some? {
        DecimalNeedsSeparator(s, i);
      }
    }
    SearchNoneIff(DecimalPattern, s);
  }

  /** When a latitude letter occurs only at position `i`, a lettered pattern can only match
      there. */
  lemma LetterOnlyAt(p: Pattern, s: string, i: nat)
    requires p != DecimalPattern && i < |s|
    requires forall k :: 0 <= k < |s| && k != i ==> !IsLatitudeLetter(s[k])
    ensures MatchAt(p, s, i).None? ==> Search(p, s).None?
    ensures MatchAt(p, s, i).Some? ==> Search(p, s) == Some((i, MatchAt(p, s, i).value))
  {
    if MatchAt(p, s, i).Some? {
      LeftmostMatch(p, s, i, MatchAt(p, s, i).value);
    } else {
      SearchNoneIff(p, s);
    }
  }

  /** A string with no number separator whose only latitude letter is its first character is
      read by the first lettered pattern that matches at its start. */
  lemma LetteredParse(s: string, p: Pattern, c: Capture)
    requires p != DecimalPattern && MatchAt(p, s, 0) == Some(c)
    requires forall g :: !SeparatorAt(s, g)
    requires forall k :: 0 < k < |s| ==> !IsLatitudeLetter(s[k])
    requires forall q: Pattern :: q != DecimalPattern && Rank(q) < Rank(p) ==> MatchAt(q, s, 0).None?
    ensures WellFormedCapture(c) && ParseCoordinate(s) == Ok(CaptureValue(c))
  {
    NoDecimalWithoutSeparator(s);
    forall q: Pattern | Rank(q) < Rank(p)
      ensures forall j :: 0 <= j <= |s| ==> MatchAt(q, s, j).None?
    {
      if q != DecimalPattern {
        LetterOnlyAt(q, s, 0);
      }
      SearchNoneIff(q, s);
    }
    FirstPatternLeftmostMatch(s, p, 0, c);
  }

  // ---------------------------------------------------------------- format_coordinate

  /** One axis of the DDM form: hemisphere letter, whole degrees and decimal minutes. */
  datatype DdmPart = DdmPart(hemisphere: char, degrees: nat, minutes: real)

  /** One axis of the DMS form: hemisphere letter, whole degrees, whole minutes, seconds. */
  datatype DmsPart = DmsPart(hemisphere: char, degrees: nat, minutes: nat, seconds: real)

  /** The numbers `format_coordinate` prints, before the f-string renders them. */
  datatype Formatted =
    | DecimalDegrees(latitude: real, longitude: real)
    | DegreesMinutes(latitudeDdm: DdmPart, longitudeDdm: DdmPart)
    | DegreesMinutesSeconds(latitudeDms: DmsPart, longitudeDms: DmsPart)

  function Abs(x: real): (r: real)
    ensures r >= 0.0 && (r == x || r == -x)
  {
    if x >= 0.0 then x else -x
  }

  /** `int()` of a non-negative value: its whole part. */
  function WholePart(x: real): (n: nat)
    requires x >= 0.0
    ensures n as real <= x < n as real + 1.0
  {
    x.Floor
  }

  /** `positive if value >= 0 else negative`, the hemisphere letter of one axis. */
  function Hemisphere(value: real, positive: char, negative: char): char
  {
    if value >= 0.0 then positive else negative
  }

  /** The DDM numbers of one axis: the whole degrees of `abs(value)` and the rest in minutes. */
  function DdmOf(value: real, positive: char, negative: char): (p: DdmPart)
    requires positive != negative
    ensures p.hemisphere == positive <==> value >= 0.0
    ensures p.hemisphere == positive || p.hemisphere == negative
    ensures 0.0 <= p.minutes < 60.0
    ensures p.degrees as real + p.minutes / 60.0 == Abs(value)
  {
    var magnitude := Abs(value);
    var degrees := WholePart(magnitude);
    DdmPart(Hemisphere(value, positive, negative), degrees, (magnitude - degrees as real) * 60.0)
  }

  /** The DMS numbers of one axis: whole degrees, whole minutes, and the rest in seconds. */
  function DmsOf(value: real, positive: char, negative: char): (p: DmsPart)
    requires positive != negative
    ensures p.hemisphere == positive <==> value >= 0.0
    ensures p.hemisphere == positive || p.hemisphere == negative
    ensures p.minutes < 60 && 0.0 <= p.seconds < 60.0
    ensures p.degrees as real + p.minutes as real / 60.0 + p.seconds / 3600.0 == Abs(value)
  {
    var magnitude := Abs(value);
    var degrees := WholePart(magnitude);
    var minutes := (magnitude - degrees as real) * 60.0;
    var wholeMinutes := WholePart(minutes);
    DmsPart(Hemisphere(value, positive, negative), degrees, wholeMinutes, (minutes - wholeMinutes as real) * 60.0)
  }

  const UnsupportedFormatPrefix: string := "Unsupported format: "

  /** `format_coordinate(latitude, longitude, format)`: the numbers of the requested form, or
      the `ValueError` message for any other format name. */
  function FormatCoordinate(latitude: real, longitude: real, format: string): (r: Result<Formatted, string>)
    ensures r.Err? <==> format != "decimal" && format != "ddm" && format != "dms"
    ensures r.Err? ==> r.error == UnsupportedFormatPrefix + format
    ensures r.Ok? ==> (r.value.DecimalDegrees? <==> format == "decimal")
    ensures r.Ok? ==> (r.value.DegreesMinutes? <==> format == "ddm")
  {
    if format == "decimal" then Ok(DecimalDegrees(latitude, longitude))
    else if format == "ddm" then Ok(DegreesMinutes(DdmOf(latitude, 'N', 'S'), DdmOf(longitude, 'E', 'W')))
    else if format == "dms" then Ok(DegreesMinutesSeconds(DmsOf(latitude, 'N', 'S'), DmsOf(longitude, 'E', 'W')))
    else Err(UnsupportedFormatPrefix + format)
  }

  /** The value `parse_coordinate` gives one DDM axis, read back from its numbers. */
  function DdmValue(p: DdmPart, negative: char): real
  {
    SexagesimalValue(Upper(p.hemisphere) == negative, p.degrees as real, p.minutes, 0.0)
  }

  /** The value `parse_coordinate` gives one DMS axis, read back from its numbers. */
  function DmsValue(p: DmsPart, negative: char): real
  {
    SexagesimalValue(Upper(p.hemisphere) == negative, p.degrees as real, p.minutes as real, p.seconds)
  }

  /** Read back with the parser's formula and its `S`/`W` rule, the DDM and DMS numbers are the
      coordinate that was formatted; the decimal form carries it unchanged. */
  lemma {:induction false} FormatReadsBack(latitude: real, longitude: real, format: string)
    requires FormatCoordinate(latitude, longitude, format).Ok?
    ensures var f := FormatCoordinate(latitude, longitude, format).value;
      f.DecimalDegrees? ==> f.latitude == latitude && f.longitude == longitude
    ensures var f := FormatCoordinate(latitude, longitude, format).value;
      f.DegreesMinutes? ==> DdmValue(f.latitudeDdm, 'S') == latitude && DdmValue(f.longitudeDdm, 'W') == longitude
    ensures var f := FormatCoordinate(latitude, longitude, format).value;
      f.DegreesMinutesSeconds? ==>
        DmsValue(f.latitudeDms, 'S') == latitude && DmsValue(f.longitudeDms, 'W') == longitude
  {
    var lat, lon := DdmOf(latitude, 'N', 'S'), DdmOf(longitude, 'E', 'W');
    var latS, lonS := DmsOf(latitude, 'N', 'S'), DmsOf(longitude, 'E', 'W');
  }
}
