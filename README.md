# Geocaching puzzle toolkit: ciphers, puzzle helpers, planar geometry and coordinates

This project is a Dafny model of the computational core of a small Python toolkit for
geocaching puzzles. It covers four areas:

- **Cipher decoders** (`ciphers.py`): Caesar and Vigenère decoding, letter frequency analysis,
  the frequency-rank substitution guesser, and Morse decoding.
- **Puzzle helpers** (`puzzle_helpers.py`): the Atbash cipher, reversal of characters and of
  words, A1Z26 letter/number conversion, ASCII conversion, extraction of digit runs, and the
  permutation branch of the anagram solver.
- **Planar geometry** (`geometry.py`): circumcenter, centroid, midpoint, bounding box, the
  ray-casting point-in-polygon test, and the orthocenter. Each works on `(latitude, longitude)`
  pairs taken as points of a flat plane.
- **Coordinate text** (`coordinates.py`): `parse_coordinate`, which tries four textual grammars
  in a fixed order, and `format_coordinate`, which splits a value into hemisphere, degrees,
  minutes and seconds. The package ships two byte-identical copies of this file, and one module
  models both.

## Modules

| file | module | what it holds |
|---|---|---|
| `wrappers.dfy` | `Wrappers` | `Option` and `Result` |
| `text.dfy` | `Text` | ASCII character classes and Python's `lower`/`upper`, `split()`, `split(sep)`, `strip()`, `join` and `[::-1]` |
| `numerals.dfy` | `Numerals` | `int(token)`, `float()` of a captured numeral (exact over `real`), and `str(n)` |
| `ciphers.dfy` | `Ciphers` | the three decoders: loops as methods, each proved equal to a specification function |
| `frequency.dfy` | `Frequency` | `frequency_analysis`, Python's stable descending sort, and `substitution_bruteforce` |
| `puzzle_helpers.dfy` | `PuzzleHelpers` | the puzzle helpers |
| `geometry.dfy` | `Geometry` | the planar constructions over `real` |
| `coordinates.dfy` | `Coordinates` | the four grammars as deterministic matchers, `re.search`, `parse_coordinate` and `format_coordinate` |
| `coordinate_text.dfy` | `CoordinateText` | the printed output of `format_coordinate`, parsed back |
| `coordinate_examples.dfy` | `CoordinateExamples` | the coordinate test cases and the docstring form the parser rejects |

Where the source mutates state in a loop, the model is a method with a loop. Each such method
ensures that its result equals a specification function. These are `caesar_decode`,
`vigenere_decode`, `morse_decode`, `substitution_bruteforce`, `atbash_cipher`,
`number_to_letter` and `is_point_inside_polygon`. The lemmas then state the source's promises
about those functions. The expression-only functions are Dafny functions.

Some modelling choices:

- **Regular expressions.** Each regular expression is a hand-written matcher anchored at one
  start position. In every pattern, each repeated or optional item is followed by an item that
  cannot take the characters it consumed. So the greedy path is the only one backtracking could
  complete, and the matcher captures the same groups. `Search` returns the leftmost start
  position where the pattern matches, as `re.search` does.
- **Arithmetic.** Python floats are Dafny `real`. The geometry is therefore exact: equidistance
  and lying on the altitudes are proved with `==`, not up to rounding.
- **Orthocenter slopes.** The `float('inf')` sentinel of `orthocenter` is the `Vertical` case
  of a `Slope` datatype. When both altitudes are vertical, Python produces an `inf` or `nan`
  coordinate. The model returns the `NonFinite` error for that case.
- **Exceptions.** Each exception is a `Result` error. `parse_coordinate` gives the message it
  raises, and `vigenere_decode` with an empty key gives `ModuloByZero`. The error messages
  that `ascii_to_text` returns are ordinary results.
- **The docstring form.** The docstring of `parse_coordinate` lists
  `47° 36.123' N, 122° 19.456' W` as a supported form. The code rejects it, because every
  lettered pattern starts with the hemisphere letter. The model follows the code, and
  `CoordinateExamples.TrailingHemisphereRejected` proves the rejection.
- **Format round trips.** Formatting is said to be the inverse of parsing to the printed
  precision. This is proved as a tolerance of half a unit in the last printed place, for each
  of the three formats.

## Model

| member | source | states |
|---|---|---|
| Ciphers.CaesarDecode | gc_utils/gc_utils/utils/ciphers.py:8-28 | the character loop returns exactly the Caesar decoding of the text: each letter moved back `shift` places modulo 26 inside its own case range, every other character kept |
| Ciphers.Caesar | gc_utils/gc_utils/utils/ciphers.py:19-28 | the decoded text has the input's length, every non-letter stays at its position, lower case stays lower and upper case stays upper |
| Ciphers.CaesarCongruentShifts | gc_utils/gc_utils/utils/ciphers.py:24-25 | shifts that agree modulo 26 decode every text identically |
| Ciphers.CaesarRoundTrip | gc_utils/gc_utils/utils/ciphers.py:24-25 | decoding with `shift` and then with `-shift` gives the original text back |
| Ciphers.CaesarRot13Example | gc_utils/tests/test_ciphers.py:14-15 | ROT13 of "Uryyb, jbeyq!" is "Hello, world!" |
| Ciphers.CaesarShiftTwoExample | gc_utils/tests/test_ciphers.py:18-19 | a shift of 2 turns "Jgnnq, yqtnf!" into "Hello, world!" |
| Ciphers.VigenereDecode | gc_utils/gc_utils/utils/ciphers.py:31-61 | the loop, whose key index advances on letters only, returns exactly the Vigenère decoding or the modulo-by-zero failure |
| Ciphers.Vigenere | gc_utils/gc_utils/utils/ciphers.py:37-59 | decoding fails if and only if the key is empty and the text holds a letter; an empty key with no letter gives the text back; a result keeps the length, copies every non-letter to its own position and keeps each letter's case |
| Ciphers.VigenereNonLetterConsumesNoKey | gc_utils/gc_utils/utils/ciphers.py:57-59 | inserting a non-letter anywhere in the text inserts it at the same place in the result and changes nothing else, so non-letters consume no key character |
| Ciphers.LettersBeforeInsert | gc_utils/gc_utils/utils/ciphers.py:57 | the key index before each position shifts by one past an inserted non-letter and is unchanged before it |
| Ciphers.VigenereExample | gc_utils/tests/test_ciphers.py:23-26 | "Rijvs, uyvjn!" under key "key" decodes to "Hello, world!" |
| Ciphers.MorseDecode | gc_utils/gc_utils/utils/ciphers.py:163-174 | the nested loops return exactly the stripped concatenation of each " / "-separated word's symbols followed by a space |
| Ciphers.Morse | gc_utils/gc_utils/utils/ciphers.py:163-174 | the decoded text neither starts nor ends with whitespace |
| Ciphers.MorseWordDecode | gc_utils/gc_utils/utils/ciphers.py:167-171 | the inner loop gives one table symbol, or '?', per whitespace-separated code |
| Ciphers.MorseSymbolNotSpace | gc_utils/gc_utils/utils/ciphers.py:148-171 | no table symbol, and not the '?' for an unknown code, is whitespace |
| Ciphers.SplitOnJoin | gc_utils/gc_utils/utils/ciphers.py:164 | `split(' / ')` of a " / "-join of slash-free pieces that do not end in a space gives the pieces back |
| Ciphers.EncodedWord | gc_utils/gc_utils/utils/ciphers.py:167-171 | the Morse text of one word starts and ends with a code, has no slash, and decodes to the codes' symbols |
| Ciphers.StripDecoded | gc_utils/gc_utils/utils/ciphers.py:172-174 | stripping the concatenated "word + space" pieces leaves the non-empty, whitespace-free words joined by single spaces |
| Ciphers.MorseRoundTrip | gc_utils/gc_utils/utils/ciphers.py:163-174 | decoding the Morse text of any message of dot-dash codes gives each word's symbols (unknown codes as '?') joined by single spaces |
| Ciphers.MorseTwoWords | gc_utils/gc_utils/utils/ciphers.py:163-174 | a two-word message decodes to the two words' symbols around one space |
| Ciphers.MorseExample | gc_utils/tests/test_ciphers.py:28-31 | ".... . .-.. .-.. --- / .-- --- .-. .-.. -.." decodes to "HELLO WORLD" |
| Frequency.LettersSpec | gc_utils/gc_utils/utils/ciphers.py:75 | the filtered text is lower-case letters only, and holds a letter if and only if the text holds it in either case |
| Frequency.DistinctSpec | gc_utils/gc_utils/utils/ciphers.py:76 | the dictionary's keys in first-occurrence order are each element of the text exactly once |
| Frequency.FrequencyCounts | gc_utils/gc_utils/utils/ciphers.py:75-76 | every count is the letter's number of occurrences in the filtered text, and is positive |
| Frequency.FrequencyAnalysis | gc_utils/gc_utils/utils/ciphers.py:64-76 | the keys are distinct and are exactly the lower-cased letters of the text, and the counts add up to the number of those letters |
| Frequency.CountTotal | gc_utils/gc_utils/utils/ciphers.py:76 | `Counter`'s multiplicities of the distinct characters sum to the length of the string |
| Frequency.InsertSpec | gc_utils/gc_utils/utils/ciphers.py:106 | inserting one item into a list sorted by non-increasing count keeps it sorted and adds exactly that item |
| Frequency.InsertWithCount | gc_utils/gc_utils/utils/ciphers.py:106 | an inserted item goes behind every item with its count, so equal counts keep their input order |
| Frequency.SortSpec | gc_utils/gc_utils/utils/ciphers.py:106 | `sorted(..., key=count, reverse=True)` orders by non-increasing count, is a permutation, and is stable: the items of each count keep their input order |
| Frequency.SortOfSorted | gc_utils/gc_utils/utils/ciphers.py:110 | an item list already in non-increasing order comes back unchanged |
| Frequency.EngOrderValue | gc_utils/gc_utils/utils/ciphers.py:95-111 | `sorted_eng_chars` is "etaoinshrdlcumwfgypbvkjxqz" |
| Frequency.EngOrderLength | gc_utils/gc_utils/utils/ciphers.py:95-100 | the English ranking has 26 letters |
| Frequency.RankMappingSpec | gc_utils/gc_utils/utils/ciphers.py:114-117 | with distinct ranked letters, rank `i` maps to English rank `i`, and only ranked letters within the English ranking's length are mapped |
| Frequency.PermutedKeys | gc_utils/gc_utils/utils/ciphers.py:106-107 | reordering an item list keeps its letters distinct and the same |
| Frequency.RankedLetters | gc_utils/gc_utils/utils/ciphers.py:103-107 | `sorted_chars` holds each distinct letter of the text exactly once |
| Frequency.RankedAtMost26 | gc_utils/gc_utils/utils/ciphers.py:115-116 | there are at most 26 ranked letters, so the loop's guard `i < len(sorted_eng_chars)` always holds |
| Frequency.MappingSpec | gc_utils/gc_utils/utils/ciphers.py:113-121 | rank `i` maps to English rank `i` unless a known pattern overrides it, every known pattern is applied, and nothing but the text's letters and the known characters is mapped |
| Frequency.MostFrequentIsE | gc_utils/gc_utils/utils/ciphers.py:103-117 | the first ranked letter is one of the most frequent letters of the text, and is decoded as 'e' unless a known pattern names it |
| Frequency.RankLetters | gc_utils/gc_utils/utils/ciphers.py:114-117 | the mapping loop builds exactly the rank-to-rank map, later assignments overwriting earlier ones |
| Frequency.Rewrite | gc_utils/gc_utils/utils/ciphers.py:124-133 | the output loop over the lower-cased text replaces each mapped character by its image and keeps the others |
| Frequency.SubstitutionBruteforce | gc_utils/gc_utils/utils/ciphers.py:79-135 | the method returns "" for empty text and otherwise exactly the rank mapping, updated by the known patterns, applied to the lower-cased text |
| Frequency.ApplySingle | gc_utils/gc_utils/utils/ciphers.py:124-133 | with single-character images the output has the input's length and position `i` is the image of character `i`, or that character |
| Frequency.Substitution | gc_utils/gc_utils/utils/ciphers.py:79-135 | an empty text gives ""; with single-character known patterns the result is as long as the text, each position is the image of the lower-cased character or that character, and a non-letter the patterns do not name is kept |
| PuzzleHelpers.AtbashCipher | gc_utils/utils/puzzle_helpers.py:111-132 | the loop returns exactly the Atbash image of the text: `chr(155 - ord(c))` for upper case, `chr(219 - ord(c))` for lower case, other characters kept |
| PuzzleHelpers.Atbash | gc_utils/utils/puzzle_helpers.py:122-131 | Atbash keeps the length, the case of every letter, and every non-letter |
| PuzzleHelpers.AtbashInvolution | gc_utils/utils/puzzle_helpers.py:123-129 | applying Atbash twice gives the text back |
| PuzzleHelpers.AtbashExample | gc_utils/tests/test_puzzle_helpers.py:47-54 | "Hello World" becomes "Svool Dliow" and back |
| Text.Reverse | gc_utils/utils/puzzle_helpers.py:95 | `text[::-1]` has the same length, with position `i` holding the character at `len - 1 - i` |
| Text.ReverseReverse | gc_utils/utils/puzzle_helpers.py:95 | reversing twice is the identity |
| PuzzleHelpers.ReverseTextExample | gc_utils/tests/test_puzzle_helpers.py:40-41 | "Hello World" reversed is "dlroW olleH" |
| PuzzleHelpers.SplitWords | gc_utils/utils/puzzle_helpers.py:108 | every piece `split()` returns is non-empty and free of whitespace |
| Text.SplitJoin | gc_utils/utils/puzzle_helpers.py:108 | joining whitespace-free words with single spaces and splitting again gives the words back |
| PuzzleHelpers.ReverseWords | gc_utils/utils/puzzle_helpers.py:98-108 | the words of the result are the words of the text in reverse order |
| PuzzleHelpers.ReverseWordsTwice | gc_utils/utils/puzzle_helpers.py:108 | reversing the words twice gives the text's words joined by single spaces |
| PuzzleHelpers.ReverseTwoWords | gc_utils/utils/puzzle_helpers.py:108 | two words separated by a space come back in the other order |
| PuzzleHelpers.ReverseWordsExample | gc_utils/tests/test_puzzle_helpers.py:44-45 | "Hello World" becomes "World Hello" |
| PuzzleHelpers.NumberToLetter | gc_utils/utils/puzzle_helpers.py:135-155 | a token that is not an integer literal makes the call fail with that token; otherwise the result is the A1Z26 letters of the numbers |
| PuzzleHelpers.LetterToNumber | gc_utils/utils/puzzle_helpers.py:158-169 | at most one number per character, each a letter's place in the alphabet (1 to 26) less the offset |
| PuzzleHelpers.LettersOfNumbers | gc_utils/utils/puzzle_helpers.py:151-155 | the loop appends `chr(n - offset + 64)` exactly for the numbers whose adjusted value is in 1..26 |
| PuzzleHelpers.A1Z26Spec | gc_utils/utils/puzzle_helpers.py:151-155 | only 'A'..'Z' come out, at most one per number, and one per number when every adjusted value is in 1..26 |
| PuzzleHelpers.LetterNumberRoundTrip | gc_utils/utils/puzzle_helpers.py:154-169 | `number_to_letter(letter_to_number(t, k), -k)` is the letters of `t` in upper case |
| PuzzleHelpers.LetterNumberExamples | gc_utils/tests/test_puzzle_helpers.py:59-72 | "ABC" gives [1, 2, 3] and, with offset 1, [0, 1, 2]; those numbers give "ABC" back with offsets 0 and -1 |
| PuzzleHelpers.SpacedNumbersExample | gc_utils/tests/test_puzzle_helpers.py:75-76 | the string "1 2 3" reads as the numbers 1, 2, 3 |
| PuzzleHelpers.ParseDecimals | gc_utils/utils/puzzle_helpers.py:148 | `[int(x) for x in tokens]` over the decimal renderings of naturals gives the naturals |
| Numerals.ParseDecimalString | gc_utils/utils/puzzle_helpers.py:148 | `int(str(n)) == n` |
| PuzzleHelpers.CharsSpec | gc_utils/utils/puzzle_helpers.py:67 | `chr` succeeds on all values if and only if each is a code point, and then the text's codes are the values; otherwise the first failing value decides between `ValueError` and `OverflowError` |
| PuzzleHelpers.TextOfValuesSpec | gc_utils/utils/puzzle_helpers.py:66-69 | all code points give the text of those codes; otherwise the first bad value gives "Error: Invalid ASCII values", or an `OverflowError` beyond the C `int` range |
| PuzzleHelpers.AsciiToText | gc_utils/utils/puzzle_helpers.py:49-69 | a token `int()` rejects gives "Error: Could not parse input as ASCII values"; values that are all code points give the text of those codes; otherwise the first value that is not gives "Error: Invalid ASCII values", or an `OverflowError` when it is outside the C `int` range |
| PuzzleHelpers.TextToAscii | gc_utils/utils/puzzle_helpers.py:72-82 | one code per character, each a code point and none a surrogate |
| PuzzleHelpers.AsciiRoundTrip | gc_utils/utils/puzzle_helpers.py:59-82 | `ascii_to_text(text_to_ascii(t)) == t`, from the list and from the space-separated decimal string alike |
| PuzzleHelpers.AsciiExamples | gc_utils/tests/test_puzzle_helpers.py:11-23 | "Hello" is [72, 101, 108, 108, 111], and both the list and "72 101 108 108 111" give "Hello" |
| PuzzleHelpers.SkipNonDigits | gc_utils/utils/puzzle_helpers.py:182 | `re.findall` skips to a digit or to the end of the text |
| PuzzleHelpers.DigitRunLength | gc_utils/utils/puzzle_helpers.py:182 | `\d+` stops at the first non-digit |
| PuzzleHelpers.DigitRunsAreRuns | gc_utils/utils/puzzle_helpers.py:182 | every match of `\d+` is a non-empty string of digits |
| PuzzleHelpers.DigitRunsSpec | gc_utils/utils/puzzle_helpers.py:182 | together the matches hold exactly the digits of the text, in order |
| PuzzleHelpers.ExtractNumbers | gc_utils/utils/puzzle_helpers.py:172-182 | no number exactly when the text has no digit, and never more numbers than digits |
| PuzzleHelpers.InterleavedRuns | gc_utils/utils/puzzle_helpers.py:182 | digit runs placed between digit-free separators, with any digit-free text after the last run, are found again, one by one and in order |
| PuzzleHelpers.ExtractRoundTrip | gc_utils/utils/puzzle_helpers.py:182 | numbers written in decimal between digit-free separators, with any digit-free text after the last number, are extracted again, in order |
| PuzzleHelpers.ExtractExample | gc_utils/tests/test_puzzle_helpers.py:80-82 | "The coordinates are N 47° 36.123 W 122° 19.456" gives [47, 36, 123, 122, 19, 456] |
| PuzzleHelpers.AnagramSolver | gc_utils/utils/puzzle_helpers.py:21-46 | the single warning is returned if and only if the lower-cased, stripped input is longer than 8 characters |
| PuzzleHelpers.ArrangementsSpec | gc_utils/utils/puzzle_helpers.py:44 | a string is a joined permutation of `s` if and only if it has the same characters the same number of times |
| PuzzleHelpers.ArrangementsSound | gc_utils/utils/puzzle_helpers.py:44 | every joined permutation has the characters of `s` |
| PuzzleHelpers.ArrangementsComplete | gc_utils/utils/puzzle_helpers.py:44 | every rearrangement of `s` is produced |
| PuzzleHelpers.AnagramSolverSpec | gc_utils/utils/puzzle_helpers.py:41-46 | a word is in the result if and only if it is a rearrangement of the lower-cased, stripped input |
| PuzzleHelpers.AnagramShortExample | gc_utils/tests/test_puzzle_helpers.py:28-31 | "abc" yields "abc", "cab" and "bca" |
| PuzzleHelpers.AnagramLongExample | gc_utils/tests/test_puzzle_helpers.py:34-35 | "toolongstring" yields the warning |
| Geometry.Circumcenter | gc_utils/gc_utils/utils/geometry.py:37-56 | raises the collinearity error if and only if the triangle's area is at most 1e-10 |
| Geometry.IsCloseToZero | gc_utils/gc_utils/utils/geometry.py:43 | for a non-negative area, `isclose(area, 0, abs_tol=1e-10)` holds if and only if the area is at most 1e-10 |
| Geometry.CircumcenterEquidistant | gc_utils/gc_utils/utils/geometry.py:47-56 | the returned point is equally far from the three vertices |
| Geometry.CircumcenterUnique | gc_utils/gc_utils/utils/geometry.py:47-56 | the returned point is the only point equally far from the three vertices |
| Geometry.CircumcenterRightTriangle | geocaching_utils/tests/test_geometry.py:39-49 | (0,0), (0,2), (2,0) give (1,1) |
| Geometry.CircumcenterCollinear | geocaching_utils/tests/test_geometry.py:51-58 | (0,0), (1,1), (2,2) raise the collinearity error |
| Geometry.Centroid | gc_utils/gc_utils/utils/geometry.py:93-101 | raises the empty-input error if and only if there are no points |
| Geometry.CentroidSingle | gc_utils/gc_utils/utils/geometry.py:98-101 | a single point is its own centroid |
| Geometry.CentroidInBoundingBox | gc_utils/gc_utils/utils/geometry.py:98-101 | the centroid lies in the bounding box of the same points |
| Geometry.MinOf | gc_utils/gc_utils/utils/geometry.py:136-139 | `min` is a lower bound attained by some element |
| Geometry.MaxOf | gc_utils/gc_utils/utils/geometry.py:136-139 | `max` is an upper bound attained by some element |
| Geometry.BoundingBox | gc_utils/gc_utils/utils/geometry.py:132-141 | raises on an empty list; otherwise every point lies between the two corners and each of the four bounds is attained by some point |
| Geometry.MidpointIsCentroid | gc_utils/gc_utils/utils/geometry.py:116 | the midpoint is the centroid of the two points |
| Geometry.Midpoint | gc_utils/gc_utils/utils/geometry.py:104-116 | the midpoint is as far from the first point as from the second, in each coordinate |
| Geometry.MidpointEquidistant | gc_utils/gc_utils/utils/geometry.py:116 | the midpoint is equally far from both ends, at half their distance |
| Geometry.MidpointExample | geocaching_utils/tests/test_geometry.py:12-20 | (40, -75) and (42, -70) give (41, -72.5) |
| Geometry.CentroidExample | geocaching_utils/tests/test_geometry.py:22-37 | the three test points give (121/3, -217/3), and the empty list raises |
| Geometry.BoundingBoxExample | geocaching_utils/tests/test_geometry.py:76-94 | the three test points give ((39, -75), (42, -70)) |
| Geometry.IsPointInsidePolygon | gc_utils/gc_utils/utils/geometry.py:156-175 | the result is true if and only if the polygon has at least three vertices and the ray crosses an odd number of its edges |
| Geometry.StraddleFraction | gc_utils/gc_utils/utils/geometry.py:168-169 | when the edge straddles the point's longitude, the division is by a non-zero difference and the fraction lies in [0, 1] |
| Geometry.CrossedEdge | gc_utils/gc_utils/utils/geometry.py:168-169 | a crossed edge has one end on each side of the point's longitude and one end at a greater latitude |
| Geometry.SomeCrossing | gc_utils/gc_utils/utils/geometry.py:164-171 | a positive crossing count comes from an actual crossed edge |
| Geometry.InsideWithinBoundingBox | gc_utils/gc_utils/utils/geometry.py:161-175 | a point found inside lies below the greatest latitude and within the range of longitudes of the polygon |
| Geometry.SquareExample | geocaching_utils/tests/test_geometry.py:96-110 | in the test square, the ray from (5,5) crosses one edge and the ray from (15,5) none |
| Geometry.OrthocenterOnAltitudes | gc_utils/gc_utils/utils/geometry.py:209-290 | for non-collinear points the result exists and lies on all three altitudes |
| Geometry.Orthocenter | gc_utils/gc_utils/utils/geometry.py:209-290 | the result is non-finite exactly when both altitude slopes are infinite, and divides by zero exactly when they are the same finite non-zero slope; there is no other failure |
| Geometry.AltitudeSlope | gc_utils/gc_utils/utils/geometry.py:232-240 | the slope is infinite exactly when the side has two latitudes and one longitude; a finite slope is perpendicular to the side |
| Geometry.IntersectAltitudes | gc_utils/gc_utils/utils/geometry.py:266-288 | the finite-slope branches divide by zero exactly when the slopes are equal and not zero; with different slopes the result lies on both lines `y = m * x + b` |
| Geometry.ThirdAltitude | gc_utils/gc_utils/utils/geometry.py:213-215 | a point on two altitudes lies on the third |
| Geometry.VerticalOrthocenter | gc_utils/gc_utils/utils/geometry.py:273-275 | the branch of a vertical altitude through `point1` gives `(x1, m2 * x1 + b2)`, which lies on the three altitudes |
| Geometry.VerticalOrthocenter2 | gc_utils/gc_utils/utils/geometry.py:276-278 | the branch of a vertical altitude through `point2` gives `(x2, m1 * x2 + b1)`, which lies on the three altitudes |
| Geometry.FiniteOrthocenter | gc_utils/gc_utils/utils/geometry.py:279-288 | two different finite slopes give a point on the three altitudes |
| Geometry.HorizontalFirst | gc_utils/gc_utils/utils/geometry.py:279-281 | the `m1 == 0` branch's point `((y1 - b2) / m2, y1)` lies on both lines |
| Geometry.HorizontalSecond | gc_utils/gc_utils/utils/geometry.py:282-284 | the `m2 == 0` branch's point `((y2 - b1) / m1, y2)` lies on both lines |
| Geometry.SlopedLines | gc_utils/gc_utils/utils/geometry.py:285-288 | for different slopes the last branch's point `x = (b2 - b1) / (m1 - m2)` lies on both lines |
| Geometry.DistinctSlopes | gc_utils/gc_utils/utils/geometry.py:287 | for non-collinear points the two finite slopes differ, so `m1 - m2` is never zero |
| Geometry.NotBothVertical | gc_utils/gc_utils/utils/geometry.py:273-278 | for non-collinear points the two altitudes are not both vertical |
| Geometry.OrthocenterUnique | gc_utils/gc_utils/utils/geometry.py:266-290 | for non-collinear points the result is the only point on the altitudes through `point1` and `point2` |
| Geometry.AltitudesMeetOnce | gc_utils/gc_utils/utils/geometry.py:266-288 | two altitudes of a proper triangle meet in one point |
| Geometry.OrthocenterRightTriangle | gc_utils/gc_utils/utils/geometry.py:209-290 | the right triangle (0,0), (4,0), (0,3) has its orthocenter at the right angle |
| Geometry.OrthocenterOneLongitude | gc_utils/gc_utils/utils/geometry.py:232-275 | three points on one longitude make both slopes infinite and the result non-finite |
| Numerals.WholeNumeralValue | gc_utils/gc_utils/utils/coordinates.py:33 | `float()` of a digit string is its integer value |
| Numerals.FractionalNumeralValue | gc_utils/gc_utils/utils/coordinates.py:26 | `float(whole + "." + fraction)` is the whole part plus the fraction digits scaled down by their count |
| Numerals.NegatedNumeralValue | gc_utils/gc_utils/utils/coordinates.py:26 | `float("-" + g)` is `-float(g)` |
| Coordinates.Run | gc_utils/gc_utils/utils/coordinates.py:23 | `c+` takes at least one class character and stops at the first character outside the class |
| Coordinates.NumberEnd | gc_utils/gc_utils/utils/coordinates.py:45 | `\d+\.?\d*` starts with a digit and is not followed by one |
| Coordinates.NumberEndNumeral | gc_utils/gc_utils/utils/coordinates.py:45 | what `\d+\.?\d*` captures is an unsigned numeral `float()` accepts |
| Coordinates.DecimalNumberEnd | gc_utils/gc_utils/utils/coordinates.py:23 | `-?\d+\.\d+` starts with a sign or a digit, ends with a digit and is not followed by one |
| Coordinates.DecimalNumberEndNumeral | gc_utils/gc_utils/utils/coordinates.py:23 | what `-?\d+\.\d+` captures is a numeral with a point in it |
| Coordinates.AngleAt | gc_utils/gc_utils/utils/coordinates.py:45 | a lettered angle starts at its hemisphere letter, which it captures |
| Coordinates.DecimalAt | gc_utils/gc_utils/utils/coordinates.py:23 | the decimal pattern captures two signed numbers |
| Coordinates.DmsAt | gc_utils/gc_utils/utils/coordinates.py:29 | the DMS pattern starts at a latitude letter and captures two angles |
| Coordinates.DdmAt | gc_utils/gc_utils/utils/coordinates.py:45 | the DDM pattern starts at a latitude letter and captures two angles |
| Coordinates.AltDdmAt | gc_utils/gc_utils/utils/coordinates.py:60 | the apostrophe-free DDM pattern starts at a latitude letter and captures two angles |
| Coordinates.MatchAt | gc_utils/gc_utils/utils/coordinates.py:22-61 | a match starts inside the string, and only the decimal pattern captures a decimal pair |
| Coordinates.MatchWellFormed | gc_utils/gc_utils/utils/coordinates.py:22-72 | every match captures numerals `float()` accepts, with the hemisphere letters in place |
| Coordinates.Search | gc_utils/gc_utils/utils/coordinates.py:24 | `re.search` returns a well-formed capture at a position of the string |
| Coordinates.SearchIsLeftmost | gc_utils/gc_utils/utils/coordinates.py:24 | what `re.search` returns is a match at its position, with no match at any earlier position |
| Coordinates.SearchNoneIff | gc_utils/gc_utils/utils/coordinates.py:24 | `re.search` finds nothing if and only if the pattern matches at no position |
| Coordinates.LeftmostMatch | gc_utils/gc_utils/utils/coordinates.py:24 | a match with none before it is what `re.search` returns |
| Coordinates.ParseCoordinate | gc_utils/gc_utils/utils/coordinates.py:8-75 | a failure carries "Could not parse coordinate string: " followed by the input |
| Coordinates.ParseFailsIffNoMatch | geocaching_utils/utils/coordinates.py:22-75 | parsing fails if and only if no pattern matches anywhere in the string |
| Coordinates.FirstPatternLeftmostMatch | geocaching_utils/utils/coordinates.py:22-72 | the result comes from the first pattern in priority order that matches anywhere, at its leftmost match, converted by that pattern's formula and hemisphere signs |
| Coordinates.NoDotNoDecimal | gc_utils/gc_utils/utils/coordinates.py:23 | without a '.' the decimal pattern never matches |
| Coordinates.NoLetterNoAngles | gc_utils/gc_utils/utils/coordinates.py:29-60 | without N, S, n or s the lettered patterns never match |
| Coordinates.IntegerPairRejected | gc_utils/gc_utils/utils/coordinates.py:23-75 | a string with no '.' and no latitude letter, such as an integer pair, is rejected with its own text in the message |
| Coordinates.DecimalNeedsSeparator | gc_utils/gc_utils/utils/coordinates.py:23 | a decimal match holds a digit followed by a comma or whitespace separator |
| Coordinates.NoDecimalWithoutSeparator | gc_utils/gc_utils/utils/coordinates.py:23-25 | without such a separator `re.search` finds no decimal match |
| Coordinates.LetterOnlyAt | gc_utils/gc_utils/utils/coordinates.py:29-61 | when the only latitude letter is at `i`, a lettered pattern matches at `i` or not at all |
| Coordinates.LetteredParse | gc_utils/gc_utils/utils/coordinates.py:28-72 | a separator-free string whose only latitude letter is its first character is read by the first lettered pattern matching at its start |
| Coordinates.Abs | gc_utils/gc_utils/utils/coordinates.py:96-97 | `abs` is non-negative and equals the value or its negation |
| Coordinates.WholePart | gc_utils/gc_utils/utils/coordinates.py:99-100 | `int()` of a non-negative value is the largest natural not above it |
| Coordinates.DdmOf | gc_utils/gc_utils/utils/coordinates.py:93-105 | the hemisphere is the positive letter if and only if the value is non-negative, the minutes lie in [0, 60), and degrees plus minutes/60 is the absolute value |
| Coordinates.DmsOf | geocaching_utils/utils/coordinates.py:93-114 | the hemisphere follows the sign, the minutes are a whole number below 60, the seconds lie in [0, 60), and degrees plus minutes/60 plus seconds/3600 is the absolute value |
| Coordinates.FormatCoordinate | gc_utils/gc_utils/utils/coordinates.py:78-117 | a format other than "decimal", "ddm" or "dms" raises "Unsupported format: " followed by the name; each supported name gives its own form |
| Coordinates.FormatReadsBack | geocaching_utils/utils/coordinates.py:90-114 | read back with the parser's formula and its S/W rule, the formatted numbers are exactly the coordinate; the decimal form carries it unchanged |
| CoordinateText.SignedTextValue | gc_utils/gc_utils/utils/coordinates.py:26 | `float()` of a printed signed fixed-point number is the value of its digits |
| CoordinateText.FixedTextValue | gc_utils/gc_utils/utils/coordinates.py:26 | `float()` of `whole.fraction` is the value of its digits |
| CoordinateText.DdmCaptureValue | gc_utils/gc_utils/utils/coordinates.py:48-55 | the DDM conversion of a printed axis is the value its digits stand for |
| CoordinateText.DmsCaptureValue | gc_utils/gc_utils/utils/coordinates.py:32-40 | the DMS conversion of a printed axis is the value its digits stand for |
| CoordinateText.DecimalLineParses | gc_utils/gc_utils/utils/coordinates.py:23-26 | the "decimal" output parses back to the values of its two printed numbers |
| CoordinateText.DmsLineParses | gc_utils/gc_utils/utils/coordinates.py:29-42 | the "dms" output parses back, through the DMS pattern, to the values of its digits |
| CoordinateText.DdmLineParses | gc_utils/gc_utils/utils/coordinates.py:45-57 | the "ddm" output parses back, through the DDM pattern, to the values of its digits |
| CoordinateText.AltDdmLineParses | gc_utils/gc_utils/utils/coordinates.py:60-72 | the DDM form without apostrophes parses back to the values of its digits |
| CoordinateText.SexagesimalClose | gc_utils/gc_utils/utils/coordinates.py:33-35 | two readings with the same sign and degrees differ by at most their minute and second differences scaled by 1/60 and 1/3600 |
| CoordinateText.SignedReadsBack | gc_utils/gc_utils/utils/coordinates.py:91 | a number printed with `places` fraction digits reads back to within half a unit of its last place |
| CoordinateText.DdmAxisReadsBack | gc_utils/gc_utils/utils/coordinates.py:102-105 | a printed DDM axis reads back to within half a thousandth of a minute |
| CoordinateText.DmsAxisReadsBack | gc_utils/gc_utils/utils/coordinates.py:107-114 | a printed DMS axis reads back to within half a thousandth of a second |
| CoordinateText.DecimalFormatParsesBack | gc_utils/gc_utils/utils/coordinates.py:90-91 | parsing the "decimal" output gives the coordinate back to within the six printed places |
| CoordinateText.DdmFormatParsesBack | gc_utils/gc_utils/utils/coordinates.py:102-105 | parsing the "ddm" output gives the coordinate back to within the rounding of the minutes to three places |
| CoordinateText.DmsFormatParsesBack | gc_utils/gc_utils/utils/coordinates.py:107-114 | parsing the "dms" output gives the coordinate back to within the rounding of the seconds to three places |
| CoordinateExamples.DecimalTestParses | gc_utils/tests/test_coordinates.py:14-16 | "47.602050, -122.324194" parses to exactly (47.60205, -122.324194) |
| CoordinateExamples.DdmTestParses | gc_utils/tests/test_coordinates.py:19-21 | "N 47° 36.123 W 122° 19.456" parses through the apostrophe-free pattern to 47.60205 and a longitude within 5e-6 of -122.32427 |
| CoordinateExamples.DecimalTestFormats | gc_utils/tests/test_coordinates.py:26-28 | the "decimal" format of the test coordinate prints "47.602050, -122.324194" |
| CoordinateExamples.DdmTestFormats | gc_utils/tests/test_coordinates.py:31-34 | the "ddm" format of the test coordinate is N 47° 36.123' and W 122° 19.45164', printed with "N 47°" and "W 122°" |
| CoordinateExamples.LoneLetterRejected | gc_utils/gc_utils/utils/coordinates.py:22-75 | a string whose only latitude letter is followed by neither whitespace nor a digit, and that has no number separator, is rejected |
| CoordinateExamples.TrailingHemisphereRejected | gc_utils/gc_utils/utils/coordinates.py:13 | the docstring form "47° 36.123' N, 122° 19.456' W" is rejected by the code |

## Left out

- Distance and projection: `distance` and `project_waypoint` in coordinates.py, and `circumradius` and `triangle_area` in geometry.py. These are haversine and trigonometric floating-point code with no exact counterpart over `real`.
- Floating point: every float is an exact `real`. Rounding, `inf` and `nan` are not modelled, except for the one non-finite orthocenter case, which becomes an error.
- Fixed-digit rendering: `.6f` and `.3f` are stated as "the printed digits are within half a unit of the last place of the value". Python's round-half-even of the binary double, and a rounding that prints "60.000" minutes, are not modelled.
- Python 3 `str` is Unicode. The letter, case and whitespace tests of the model are the ASCII ones. The loops `Ciphers.CaesarDecode`, `Ciphers.VigenereDecode`, `Ciphers.MorseDecode` and `PuzzleHelpers.AtbashCipher`, and the parsing of a space-separated string of numbers, require ASCII input. The other operations accept any string but treat every non-ASCII character as a character that is neither a letter nor whitespace, and so differ from Python on non-ASCII letters and spaces, as the lines below say.
- Ciphers.Caesar, Ciphers.Vigenere, Ciphers.Morse, PuzzleHelpers.Atbash: on non-ASCII text the specification functions keep every non-ASCII character, where Python's `isalpha` and `isspace` would treat some of them as letters or whitespace.
- Frequency.FrequencyAnalysis: non-ASCII letters are not counted, while Python's `isalpha` counts them: `frequency_analysis("é")` is `{'é': 1}` in Python and has no item in the model.
- Frequency.SubstitutionBruteforce: non-ASCII letters are neither ranked nor mapped, and `lower()` changes only ASCII letters.
- PuzzleHelpers.ReverseWords: only ASCII whitespace separates words, while Python's `split()` also splits at other Unicode whitespace.
- PuzzleHelpers.LetterToNumber: non-ASCII letters are skipped. Python gives `ord(c.upper()) - 64 - offset` for them, which lies outside 1..26 less the offset, or raises `TypeError` when `upper()` gives two characters, as `letter_to_number("ß")` does.
- PuzzleHelpers.AnagramSolver: `lower()` and `strip()` act on ASCII letters and ASCII whitespace only.
- Coordinates.ParseCoordinate: `\d` and `\s` are the ASCII classes and `[NS]`/`[EW]` match only the ASCII letters in either case. Python's Unicode patterns also accept other digits and spaces, and under `re.IGNORECASE` the long s `ſ`.
- PuzzleHelpers.ExtractNumbers: only the ASCII digits count as digits. Python's `\d` and `int` also accept other Unicode decimal digits.
- PuzzleHelpers.AsciiToText: requires that no value is a UTF-16 surrogate, because a Dafny string cannot hold one. The list input holds integers only, so the `TypeError` path for other element types is not modelled.
- PuzzleHelpers.NumberToLetter: a list input holds integers only. `int(x)` of other Python objects is not modelled.
- PuzzleHelpers.AnagramSolver: the wordlist branch reads a file and is not modelled, and neither is `sorted_letters`, which only that branch uses. The result is a set, because `list(set(perms))` has no specified order.
- Frequency.FrequencyAnalysis: the dictionary is an item list in first-occurrence order, which is the insertion order of the `Counter`.
- Frequency.EngOrderValue: the English percentages are exact integer tenths. They have the same order as the float table.
- Frequency.Substitution: known-pattern keys are single characters. A longer key never equals a character of the text, so dropping such keys changes no output.
- Frequency.Substitution: states lengths and positions only for single-character known patterns. A longer pattern string is applied like any other image but may change the length.
- Frequency.Rewrite: the `char.isupper()` branch cannot run on lower-cased ASCII text and is an `assert false`. In Python it can run on a non-ASCII letter that has no lower-case form, such as 'ℋ', which the model does not treat as a letter.
- Geometry.Orthocenter: the slope `m3` and the points `x4`..`x6` are computed but never used, and are not modelled.
- Coordinates.DmsOf: `format_coordinate` does not range-check its input. `parse_coordinate` does not range-check minutes or seconds either, and neither does the model.
- Coordinates.FormatCoordinate: the default `format="ddm"` is passed explicitly.
- Ciphers.CaesarDecode: the default `shift=13` is passed explicitly.
- Frequency.SubstitutionBruteforce: the default `known_patterns=None` is passed as the empty map. `if known_patterns:` skips both alike, so no output changes.
- PuzzleHelpers.NumberToLetter: the default `offset=0` is passed explicitly.
- PuzzleHelpers.LetterToNumber: the default `offset=0` is passed explicitly.
- Numerals.ParseInt: reads a decimal token of any length. CPython 3.11, and the security releases 3.7.14, 3.8.14, 3.9.14 and 3.10.7, raise `ValueError` on a token of more than 4300 digits by default. The package declares support from Python 3.6 on, which has no such limit, and the model follows 3.6.
- PuzzleHelpers.NumberToLetter: on the Python versions with the 4300-digit limit, a longer token raises `ValueError`, which the model does not do.
- PuzzleHelpers.AsciiToText: on those versions a longer token gives "Error: Could not parse input as ASCII values". The model reads it as a value, which then gives the invalid-values message or the `OverflowError`.
- PuzzleHelpers.ExtractNumbers: on those versions a run of more than 4300 digits raises `ValueError`, which the model does not do.
- The command-line programs, the packaging script and the tests are not part of this model. The tests are restated as example lemmas.
