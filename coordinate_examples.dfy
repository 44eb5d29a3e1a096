/**
 * The inputs and outputs of the coordinate tests (gc_utils/tests/test_coordinates.py), and the
 * trailing-hemisphere form listed in the docstring of `parse_coordinate`, worked through the
 * model.
 */
module CoordinateExamples {
  import opened Wrappers
  import opened Text
  import opened Numerals
  import opened Coordinates
  import opened CoordinateText

  /** The digits of a natural number read back to it, stated for a given rendering. */
  lemma DigitsOf(n: nat, d: string)
    requires d == DecimalString(n)
    ensures AllDigits(d) && DigitsValue(d) == n
  {
    DecimalStringValue(n);
  }

  // ---------------------------------------------------------------- decimal degrees

  lemma DecimalTestText(lat: SignedFixed, lon: SignedFixed)
    requires lat == SignedFixed(false, "47", "602050") && lon == SignedFixed(true, "122", "324194")
    ensures DecimalLine(lat, lon) == "47.602050, -122.324194"
  {
  }

  lemma DecimalTestValues(lat: SignedFixed, lon: SignedFixed)
    requires lat == SignedFixed(false, "47", "602050") && lon == SignedFixed(true, "122", "324194")
    ensures IsPointNumber(lat.whole, lat.fraction) && IsPointNumber(lon.whole, lon.fraction)
    ensures SignedValue(lat) == 47.602050 && SignedValue(lon) == -122.324194
  {
    DigitsOf(47, lat.whole);
    LatitudeFraction(lat.fraction);
    DecimalTestValue(lat, 47, 602050, 47.602050);
    DigitsOf(122, lon.whole);
    LongitudeFraction(lon.fraction);
    DecimalTestValue(lon, 122, 324194, -122.324194);
  }

  /** Three more digits after `s` multiply its value by a thousand and add theirs. */
  lemma ThreeMoreDigits(s: string, t: string, c1: char, c2: char, c3: char)
    requires AllDigits(s) && IsDigit(c1) && IsDigit(c2) && IsDigit(c3)
    requires t == s + [c1, c2, c3]
    ensures AllDigits(t)
    ensures DigitsValue(t) == DigitsValue(s) * 1000 + DigitValue(c1) * 100 + DigitValue(c2) * 10 + DigitValue(c3)
  {
    DigitsValueAppend(s, c1);
    DigitsValueAppend(s + [c1], c2);
    assert s + [c1] + [c2] == s + [c1, c2];
    DigitsValueAppend(s + [c1, c2], c3);
    assert s + [c1, c2] + [c3] == t;
  }

  lemma LatitudeFraction(d: string)
    requires d == "602050"
    ensures AllDigits(d) && DigitsValue(d) == 602050
  {
    DigitsOf(602, "602");
    ThreeMoreDigits("602", d, '0', '5', '0');
  }

  lemma LongitudeFraction(d: string)
    requires d == "324194"
    ensures AllDigits(d) && DigitsValue(d) == 324194
  {
    DigitsOf(324, "324");
    ThreeMoreDigits("324", d, '1', '9', '4');
  }

  lemma DecimalTestValue(n: SignedFixed, whole: nat, fraction: nat, x: real)
    requires |n.whole| > 0 && AllDigits(n.whole) && DigitsValue(n.whole) == whole
    requires |n.fraction| == 6 && AllDigits(n.fraction) && DigitsValue(n.fraction) == fraction
    requires x == (if n.negative then -1.0 else 1.0) * (whole as real + fraction as real / 1000000.0)
    ensures IsPointNumber(n.whole, n.fraction) && SignedValue(n) == x
  {
    assert Pow10(6) == 1000000;
  }

  /** `parse_coordinate("47.602050, -122.324194")` is exactly `(47.60205, -122.324194)`. */
  lemma DecimalTestParses()
    ensures ParseCoordinate("47.602050, -122.324194") == Ok((47.602050, -122.324194))
  {
    var lat := SignedFixed(false, "47", "602050");
    var lon := SignedFixed(true, "122", "324194");
    DecimalTestText(lat, lon);
    DecimalTestValues(lat, lon);
    DecimalLineParses(lat, lon);
  }

  /** `format_coordinate(47.602050, -122.324194, format="decimal")` prints
      `"47.602050, -122.324194"`: those digits are the six-place renderings of both numbers. */
  lemma DecimalTestFormats()
    ensures FormatCoordinate(47.602050, -122.324194, "decimal") == Ok(DecimalDegrees(47.602050, -122.324194))
    ensures PrintsSigned(47.602050, SignedFixed(false, "47", "602050"), 6)
    ensures PrintsSigned(-122.324194, SignedFixed(true, "122", "324194"), 6)
    ensures DecimalLine(SignedFixed(false, "47", "602050"), SignedFixed(true, "122", "324194"))
         == "47.602050, -122.324194"
  {
    var lat := SignedFixed(false, "47", "602050");
    var lon := SignedFixed(true, "122", "324194");
    DecimalTestText(lat, lon);
    DecimalTestValues(lat, lon);
    assert Pow10(6) == 1000000;
  }

  // ---------------------------------------------------------------- degrees and decimal minutes

  lemma DdmTestText(lat: DdmAngle, lon: DdmAngle)
    requires lat == DdmAngle('N', "47", "36", "123") && lon == DdmAngle('W', "122", "19", "456")
    ensures AltDdmLine(lat, lon) == "N 47\U{00B0} 36.123 W 122\U{00B0} 19.456"
  {
  }

  lemma DdmTestValues(lat: DdmAngle, lon: DdmAngle)
    requires lat == DdmAngle('N', "47", "36", "123") && lon == DdmAngle('W', "122", "19", "456")
    ensures PrintableDdm(lat) && PrintableDdm(lon)
    ensures DdmAngleValue(lat, 'S') == 47.60205
    ensures DdmAngleValue(lon, 'W') == -(122.0 + 19.456 / 60.0)
  {
    DigitsOf(47, "47");
    DigitsOf(36, "36");
    DigitsOf(123, "123");
    DigitsOf(122, "122");
    DigitsOf(19, "19");
    DigitsOf(456, "456");
    assert Pow10(3) == 1000;
  }

  /** `parse_coordinate("N 47° 36.123 W 122° 19.456")` goes through the DDM pattern without
      apostrophes: the latitude is exactly 47.60205 and the longitude agrees with -122.32427 to
      the five places the test compares. */
  lemma DdmTestParses()
    ensures ParseCoordinate("N 47\U{00B0} 36.123 W 122\U{00B0} 19.456").Ok?
    ensures ParseCoordinate("N 47\U{00B0} 36.123 W 122\U{00B0} 19.456").value.0 == 47.60205
    ensures Abs(ParseCoordinate("N 47\U{00B0} 36.123 W 122\U{00B0} 19.456").value.1 - -122.32427) < 0.000005
  {
    var lat := DdmAngle('N', "47", "36", "123");
    var lon := DdmAngle('W', "122", "19", "456");
    DdmTestText(lat, lon);
    DdmTestValues(lat, lon);
    AltDdmLineParses(lat, lon);
  }

  /** `format_coordinate(47.602050, -122.324194, format="ddm")`: 47° 36.123' north and 122°
      19.45164' west, printed as `N 47° 36.123' W 122° 19.452'`, which holds both `N 47°` and
      `W 122°`. */
  lemma DdmTestFormats()
    ensures FormatCoordinate(47.602050, -122.324194, "ddm")
         == Ok(DegreesMinutes(DdmPart('N', 47, 36.123), DdmPart('W', 122, 19.45164)))
    ensures PrintsDdm(DdmPart('N', 47, 36.123), DdmAngle('N', "47", "36", "123"))
    ensures PrintsDdm(DdmPart('W', 122, 19.45164), DdmAngle('W', "122", "19", "452"))
    ensures DdmLine(DdmAngle('N', "47", "36", "123"), DdmAngle('W', "122", "19", "452"))
         == "N 47\U{00B0} 36.123' W 122\U{00B0} 19.452'"
  {
    DdmTestNumbers();
    DdmTestPrints(DdmPart('N', 47, 36.123), DdmAngle('N', "47", "36", "123"), 36, 123);
    DdmTestPrints(DdmPart('W', 122, 19.45164), DdmAngle('W', "122", "19", "452"), 19, 452);
    DdmTestLine(DdmAngle('N', "47", "36", "123"), DdmAngle('W', "122", "19", "452"));
  }

  lemma DdmTestNumbers()
    ensures DdmOf(47.602050, 'N', 'S') == DdmPart('N', 47, 36.123)
    ensures DdmOf(-122.324194, 'E', 'W') == DdmPart('W', 122, 19.45164)
  {
  }

  lemma DdmTestLine(lat: DdmAngle, lon: DdmAngle)
    requires lat == DdmAngle('N', "47", "36", "123") && lon == DdmAngle('W', "122", "19", "452")
    ensures DdmLine(lat, lon) == "N 47\U{00B0} 36.123' W 122\U{00B0} 19.452'"
  {
  }

  lemma DdmTestPrints(p: DdmPart, a: DdmAngle, whole: nat, fraction: nat)
    requires a.letter == p.hemisphere && a.degrees == DecimalString(p.degrees)
    requires a.whole == DecimalString(whole) && a.fraction == DecimalString(fraction)
    requires |a.fraction| == 3
    requires Abs(whole as real + fraction as real / 1000.0 - p.minutes) <= 0.0005
    ensures PrintsDdm(p, a)
  {
    DigitsOf(whole, a.whole);
    DigitsOf(fraction, a.fraction);
    assert Pow10(3) == 1000;
  }

  // ---------------------------------------------------------------- the trailing-hemisphere form

  /** A string whose only latitude letter is directly followed by something other than
      whitespace or a digit, and that holds no separator the decimal pattern needs, matches no
      pattern: `parse_coordinate` raises its `ValueError`. */
  lemma LoneLetterRejected(s: string, i: nat)
    requires i + 1 < |s| && IsLatitudeLetter(s[i]) && !IsSpace(s[i + 1]) && !IsDigit(s[i + 1])
    requires forall k :: 0 <= k < |s| && k != i ==> !IsLatitudeLetter(s[k])
    requires forall g :: !SeparatorAt(s, g)
    ensures ParseCoordinate(s) == Err(ParseErrorPrefix + s)
  {
    NoDecimalWithoutSeparator(s);
    assert Span(s, i + 1, Spaces) == i + 1;
    assert AngleAt(s, i, LatitudeLetters, true).None?;
    assert AngleAt(s, i, LatitudeLetters, false).None?;
    LetterOnlyAt(DmsPattern, s, i);
    LetterOnlyAt(DdmPattern, s, i);
    LetterOnlyAt(AltDdmPattern, s, i);
  }

  /** The docstring of `parse_coordinate` lists `47° 36.123' N, 122° 19.456' W` among the
      supported forms, but every pattern starts with the hemisphere letter, so the code rejects
      it. */
  lemma TrailingHemisphereRejected(s: string)
    requires s == "47\U{00B0} 36.123' N, 122\U{00B0} 19.456' W"
    ensures ParseCoordinate(s) == Err(ParseErrorPrefix + s)
  {
    assert s[12] == 'N' && s[13] == ',';
    assert forall k :: 0 <= k < |s| && k != 12 ==> !IsLatitudeLetter(s[k]);
    forall g ensures !SeparatorAt(s, g) {
      if 0 < g < |s| - 1 && IsPairGap(s[g]) {
        assert !IsDigit(s[g - 1]);
      }
    }
    LoneLetterRejected(s, 12);
  }
}
