/**
 * The general puzzle helpers: the Atbash cipher, reversal of characters and of words, the
 * A1Z26 letter/number conversions, ASCII conversions, extraction of digit runs, and the
 * permutation branch of the anagram solver.
 */
module PuzzleHelpers {
  import opened Wrappers
  import opened Text
  import opened Numerals
  import Frequency

  // ---------------------------------------------------------------------------------------
  // atbash_cipher
  // ---------------------------------------------------------------------------------------

  /** A=Z, B=Y, ...: an upper-case letter becomes `chr(155 - ord(c))`, a lower-case one
      `chr(219 - ord(c))`, anything else stays. */
  function AtbashChar(c: char): char
  {
    if IsUpper(c) then (155 - c as int) as char
    else if IsLower(c) then (219 - c as int) as char
    else c
  }

  /** The cipher keeps the length, the case of each letter and every non-letter. */
  function Atbash(text: string): (r: string)
    ensures |r| == |text|
    ensures forall i :: 0 <= i < |text| ==>
      (IsUpper(r[i]) <==> IsUpper(text[i]))
      && (IsLower(r[i]) <==> IsLower(text[i]))
      && (!IsAlpha(text[i]) ==> r[i] == text[i])
  {
    seq(|text|, i requires 0 <= i < |text| => AtbashChar(text[i]))
  }

  /** `atbash_cipher(text)`: one character of output per character of input. */
  method AtbashCipher(text: string) returns (result: string)
    requires IsAscii(text)
    ensures result == Atbash(text)
  {
    result := "";
    for i := 0 to |text|
      invariant result == Atbash(text[..i])
    {
      var c := text[i];
      var encoded: char;
      if IsAlpha(c) {
        if IsUpper(c) {
          encoded := (155 - c as int) as char;
        } else {
          encoded := (219 - c as int) as char;
        }
      } else {
        encoded := c;
      }
      assert text[..i + 1] == text[..i] + [c];
      result := result + [encoded];
    }
    assert text[..|text|] == text;
  }

  /** Applying the cipher twice gives the text back. */
  lemma AtbashInvolution(text: string)
    ensures Atbash(Atbash(text)) == text
  {
    var once := Atbash(text);
    forall i | 0 <= i < |text| ensures Atbash(once)[i] == text[i] {
      assert once[i] == AtbashChar(text[i]);
    }
  }

  /** The encoding and the decoding the package's tests check. */
  lemma AtbashExample()
    ensures Atbash("Hello World") == "Svool Dliow"
    ensures Atbash("Svool Dliow") == "Hello World"
  {
    AtbashInvolution("Hello World");
  }

  // ---------------------------------------------------------------------------------------
  // reverse_text, reverse_words
  // ---------------------------------------------------------------------------------------

  /** The reversal the package's tests check; `reverse_text` is `Text.Reverse`. */
  lemma ReverseTextExample()
    ensures Reverse("Hello World") == "dlroW olleH"
  {
  }

  /** `reverse_words(text)`: `' '.join(text.split()[::-1])`. The words of the result are the
      words of the text in reverse order. */
  function ReverseWords(text: string): (r: string)
    ensures Split(r) == Reverse(Split(text))
  {
    var words := Reverse(Split(text));
    SplitWords(text);
    assert forall i :: 0 <= i < |words| ==> IsWord(words[i]);
    SplitJoin(words);
    Join(" ", words)
  }

  /** Every piece `split()` returns is a word. */
  lemma {:induction false} SplitWords(s: string)
    ensures forall i :: 0 <= i < |Split(s)| ==> IsWord(Split(s)[i])
    decreases |s|
  {
    var t := SkipSpaces(s);
    if t != [] {
      var n := WordLength(t);
      SplitWords(t[n..]);
      FirstWord(t, n);
      AllWordsCons(t[..n], Split(t[n..]));
    }
  }

  lemma FirstWord(t: string, n: nat)
    requires t != [] && !IsSpace(t[0]) && n == WordLength(t)
    ensures IsWord(t[..n])
  {
  }

  lemma AllWordsCons(w: string, rest: seq<string>)
    requires IsWord(w) && forall i :: 0 <= i < |rest| ==> IsWord(rest[i])
    ensures forall i :: 0 <= i < |[w] + rest| ==> IsWord(([w] + rest)[i])
  {
    forall i | 0 <= i < |[w] + rest| ensures IsWord(([w] + rest)[i]) {
      if i > 0 {
        assert ([w] + rest)[i] == rest[i - 1];
      }
    }
  }

  /** Reversing the words twice normalises the text to its words joined by single spaces. */
  lemma ReverseWordsTwice(text: string)
    ensures ReverseWords(ReverseWords(text)) == Join(" ", Split(text))
  {
    ReverseReverse(Split(text));
  }

  /** The word reversal the package's tests check. */
  lemma ReverseWordsExample()
    ensures ReverseWords("Hello World") == "World Hello"
  {
    HelloWorldSpaced();
    ReverseTwoWords("Hello", "World");
  }

  lemma HelloWorldSpaced()
    ensures "Hello" + " " + "World" == "Hello World" && "World" + " " + "Hello" == "World Hello"
    ensures IsWord("Hello") && IsWord("World")
  {
  }

  /** Two words separated by a space come back in the other order. */
  lemma ReverseTwoWords(first: string, second: string)
    requires IsWord(first) && IsWord(second)
    ensures ReverseWords(first + " " + second) == second + " " + first
  {
    var text := first + " " + second;
    SplitTwoWords(first, second);
    ReversePair(first, second);
    JoinTwo(second, first);
    assert ReverseWords(text) == Join(" ", Reverse(Split(text)));
  }

  lemma ReversePair(first: string, second: string)
    ensures Reverse([first, second]) == [second, first]
  {
  }

  lemma SplitTwoWords(first: string, second: string)
    requires IsWord(first) && IsWord(second)
    ensures Split(first + " " + second) == [first, second]
  {
    var words := [first, second];
    assert forall i :: 0 <= i < |words| ==> IsWord(words[i]) by {
      assert words[0] == first && words[1] == second;
    }
    SplitJoin(words);
    JoinTwo(first, second);
  }

  lemma JoinTwo(first: string, second: string)
    ensures Join(" ", [first, second]) == first + " " + second
  {
    assert [first, second][1..] == [second];
  }

  // ---------------------------------------------------------------------------------------
  // letter_to_number, number_to_letter
  // ---------------------------------------------------------------------------------------

  /** `letter_to_number(text, offset)`: `ord(c.upper()) - 64 - offset` for each letter. There
      is at most one number per character, and each is a letter's place in the alphabet, 1 to
      26, less the offset. */
  function LetterToNumber(text: string, offset: int): (r: seq<int>)
    ensures |r| <= |text|
    ensures forall i :: 0 <= i < |r| ==> 1 <= r[i] + offset <= 26
  {
    if text == [] then []
    else
      var rest := LetterToNumber(text[..|text| - 1], offset);
      var c := Last(text);
      if IsAlpha(c) then rest + [Upper(c) as int - 64 - offset] else rest
  }

  /** The numbers `number_to_letter` works on: a list of integers, or a string of
      whitespace-separated integer literals. */
  datatype NumberInput = Values(values: seq<int>) | Spaced(text: string)

  /** `[int(x) for x in tokens]`, or the first token `int()` rejects. */
  function ParseInts(tokens: seq<string>): Result<seq<int>, string>
  {
    if tokens == [] then Ok([])
    else
      match ParseInts(tokens[..|tokens| - 1])
      case Err(bad) => Err(bad)
      case Ok(values) =>
        match ParseInt(Last(tokens))
        case None => Err(Last(tokens))
        case Some(v) => Ok(values + [v])
  }

  /** The integers of the input, or the first token `int()` rejects with a `ValueError`. */
  function InputValues(input: NumberInput): Result<seq<int>, string>
  {
    match input
    case Values(values) => Ok(values)
    case Spaced(text) => ParseInts(Split(text))
  }

  /** The letters of the numbers whose offset-adjusted value is in 1..26 (A=1), in order. */
  function A1Z26(numbers: seq<int>, offset: int): string
  {
    if numbers == [] then []
    else
      var rest := A1Z26(numbers[..|numbers| - 1], offset);
      var adjusted := Last(numbers) - offset;
      if 1 <= adjusted <= 26 then rest + [(adjusted + 64) as char] else rest
  }

  /** `number_to_letter(numbers, offset)`: the numbers are read first (a token that is not an
      integer literal raises), then converted. */
  method NumberToLetter(input: NumberInput, offset: int) returns (r: Result<string, string>)
    requires input.Spaced? ==> IsAscii(input.text)
    ensures InputValues(input).Err? ==> r == Err(InputValues(input).error)
    ensures InputValues(input).Ok? ==> r == Ok(A1Z26(InputValues(input).value, offset))
  {
    var parsed := InputValues(input);
    if parsed.Err? {
      return Err(parsed.error);
    }
    var result := LettersOfNumbers(parsed.value, offset);
    r := Ok(result);
  }

  /** The loop of `number_to_letter`: a letter is appended for each number in range. */
  method LettersOfNumbers(numbers: seq<int>, offset: int) returns (result: string)
    ensures result == A1Z26(numbers, offset)
  {
    result := "";
    for k := 0 to |numbers|
      invariant result == A1Z26(numbers[..k], offset)
    {
      assert numbers[..k + 1][..k] == numbers[..k];
      var adjusted := numbers[k] - offset;
      if 1 <= adjusted <= 26 {
        result := result + [(adjusted + 64) as char];
      }
    }
    assert numbers[..|numbers|] == numbers;
  }

  /** Only upper-case letters come out, at most one per number, and an in-range number
      always gives one. */
  lemma {:induction false} A1Z26Spec(numbers: seq<int>, offset: int)
    ensures forall i :: 0 <= i < |A1Z26(numbers, offset)| ==> IsUpper(A1Z26(numbers, offset)[i])
    ensures |A1Z26(numbers, offset)| <= |numbers|
    ensures (forall i :: 0 <= i < |numbers| ==> 1 <= numbers[i] - offset <= 26) ==>
      |A1Z26(numbers, offset)| == |numbers|
    decreases |numbers|
  {
    if numbers != [] {
      var prefix := numbers[..|numbers| - 1];
      A1Z26Spec(prefix, offset);
      assert forall i :: 0 <= i < |prefix| ==> prefix[i] == numbers[i];
    }
  }

  /** Converting letters to numbers and back with the negated offset gives the letters of the
      text in upper case. */
  lemma {:induction false} LetterNumberRoundTrip(text: string, offset: int)
    ensures A1Z26(LetterToNumber(text, offset), -offset)
      == UpperString(Frequency.Letters(text))
    decreases |text|
  {
    if text != [] {
      var prefix := text[..|text| - 1];
      LetterNumberRoundTrip(prefix, offset);
      var c := Last(text);
      var numbers := LetterToNumber(text, offset);
      var letters := Frequency.Letters(text);
      if IsAlpha(c) {
        assert numbers[..|numbers| - 1] == LetterToNumber(prefix, offset);
        assert UpperString(letters) == UpperString(Frequency.Letters(prefix)) + [Upper(c)];
      }
    }
  }

  /** The conversions the package's tests check. */
  lemma LetterNumberExamples(letters: string, numbers: seq<int>, shifted: seq<int>)
    requires letters == "ABC" && numbers == [1, 2, 3] && shifted == [0, 1, 2]
    ensures LetterToNumber(letters, 0) == numbers
    ensures LetterToNumber(letters, 1) == shifted
    ensures A1Z26(numbers, 0) == letters
    ensures A1Z26(shifted, -1) == letters
  {
    NumbersOfABC(letters, 0);
    NumbersOfABC(letters, 1);
    ABCOfNumbers(numbers, 0);
    ABCOfNumbers(shifted, -1);
  }

  lemma NumbersOfABC(t: string, offset: int)
    requires t == "ABC"
    ensures LetterToNumber(t, offset) == [1 - offset, 2 - offset, 3 - offset]
  {
    assert t[..2] == "AB" && t[..2][..1] == "A" && t[..2][..1][..0] == "";
    assert LetterToNumber("A", offset) == [1 - offset];
    assert LetterToNumber("AB", offset) == [1 - offset, 2 - offset];
  }

  lemma ABCOfNumbers(ns: seq<int>, offset: int)
    requires ns == [1 + offset, 2 + offset, 3 + offset]
    ensures A1Z26(ns, offset) == "ABC"
  {
    var ab := [1 + offset, 2 + offset];
    assert ns[..2] == ab && ab[..1] == [1 + offset] && ab[..1][..0] == [];
    assert A1Z26([1 + offset], offset) == "A";
    assert A1Z26(ab, offset) == "AB";
  }

  /** The string input of the tests: "1 2 3" reads as the numbers 1, 2, 3. */
  lemma SpacedNumbersExample()
    ensures InputValues(Spaced("1 2 3")) == Ok([1, 2, 3])
  {
    OneTwoThree([1, 2, 3]);
    SpacedDecimals([1, 2, 3]);
  }

  lemma {:induction false} OneTwoThree(ns: seq<nat>)
    requires ns == [1, 2, 3]
    ensures Join(" ", Decimals(ns)) == "1 2 3"
  {
    assert Decimals(ns) == ["1", "2", "3"];
    JoinThree(" ", ["1", "2", "3"]);
  }

  /** Numbers written out in decimal and separated by spaces read back as themselves. */
  lemma {:induction false} SpacedDecimals(ns: seq<nat>)
    ensures InputValues(Spaced(Join(" ", Decimals(ns)))) == Ok(ns)
  {
    var tokens := Decimals(ns);
    forall i | 0 <= i < |tokens| ensures IsWord(tokens[i]) {
      DecimalStringIsWord(ns[i]);
    }
    SplitJoin(tokens);
    ParseDecimals(ns);
  }

  /** The decimal numerals of a list of naturals. */
  function Decimals(ns: seq<nat>): seq<string>
  {
    seq(|ns|, i requires 0 <= i < |ns| => DecimalString(ns[i]))
  }

  lemma {:induction false} ParseDecimals(ns: seq<nat>)
    ensures ParseInts(Decimals(ns)) == Ok(ns)
    decreases |ns|
  {
    if ns == [] {
      assert Decimals(ns) == [];
    } else {
      ParseDecimals(ns[..|ns| - 1]);
      ParseDecimalsStep(ns);
    }
  }

  lemma ParseDecimalsStep(ns: seq<nat>)
    requires ns != [] && ParseInts(Decimals(ns[..|ns| - 1])) == Ok(ns[..|ns| - 1])
    ensures ParseInts(Decimals(ns)) == Ok(ns)
  {
    assert ns == ns[..|ns| - 1] + [Last(ns)];
    ParseDecimalsAppend(ns, ns[..|ns| - 1], Last(ns));
  }

  lemma ParseDecimalsAppend(ns: seq<nat>, prefix: seq<nat>, last: nat)
    requires ns == prefix + [last] && ParseInts(Decimals(prefix)) == Ok(prefix)
    ensures ParseInts(Decimals(ns)) == Ok(ns)
  {
    var tokens := Decimals(ns);
    assert tokens[..|tokens| - 1] == Decimals(prefix);
    assert Last(tokens) == DecimalString(last);
    ParseDecimalString(last);
  }

  // ---------------------------------------------------------------------------------------
  // text_to_ascii, ascii_to_text
  // ---------------------------------------------------------------------------------------

  /** `text_to_ascii(text)`: `ord` of each character. Each is a code point and none is a
      UTF-16 surrogate. */
  function TextToAscii(text: string): (r: seq<nat>)
    ensures |r| == |text|
    ensures NoSurrogates(r)
    ensures forall i :: 0 <= i < |r| ==> IsCodePoint(r[i])
  {
    seq(|text|, i requires 0 <= i < |text| => text[i] as nat)
  }

  /** How Python's `chr(x)` fails: outside the range of a C `int` it raises `OverflowError`,
      otherwise outside 0..0x10FFFF it raises `ValueError`. */
  datatype ChrFailure = OutOfRange | Overflow

  predicate IsCodePoint(x: int) { 0 <= x <= 0x10FFFF }

  predicate InCInt(x: int) { -0x8000_0000 <= x <= 0x7FFF_FFFF }

  /** A code point of a UTF-16 surrogate, which a string of this model cannot hold. */
  predicate IsSurrogate(x: int) { 0xD800 <= x <= 0xDFFF }

  predicate NoSurrogates(values: seq<int>)
  {
    forall i :: 0 <= i < |values| ==> !IsSurrogate(values[i])
  }

  /** `''.join(chr(x) for x in values)`: the characters, or how the first value `chr` rejects
      makes it fail (the generator stops there). */
  function Chars(values: seq<int>): Result<string, ChrFailure>
    requires NoSurrogates(values)
  {
    if values == [] then Ok("")
    else if !InCInt(values[0]) then Err(Overflow)
    else if !IsCodePoint(values[0]) then Err(OutOfRange)
    else
      assert NoSurrogates(values[1..]) by {
        forall i | 0 <= i < |values| - 1 ensures !IsSurrogate(values[1..][i]) {
          assert values[1..][i] == values[i + 1];
        }
      }
      match Chars(values[1..])
      case Err(failure) => Err(failure)
      case Ok(rest) => Ok([values[0] as char] + rest)
  }

  const ParseFailure := "Error: Could not parse input as ASCII values"

  const InvalidValues := "Error: Invalid ASCII values"

  /** The surrogate-free inputs: those whose values, if they parse, hold no surrogate. */
  predicate Representable(input: NumberInput)
  {
    match InputValues(input)
    case Err(_) => true
    case Ok(values) => NoSurrogates(values)
  }

  /** `ascii_to_text(ascii_list)`: `Ok` holds the string it returns (its two error messages
      included), `Err` the exception that escapes it. A token `int()` rejects gives the parse
      message; values that are all code points give the text of those codes; otherwise the
      first value that is not gives the invalid-values message, or an `OverflowError` when it
      is outside the C `int` range. */
  function AsciiToText(input: NumberInput): (r: Result<string, string>)
    requires input.Spaced? ==> IsAscii(input.text)
    requires Representable(input)
    ensures InputValues(input).Err? ==> r == Ok(ParseFailure)
    ensures var v := InputValues(input);
      v.Ok? && (forall i :: 0 <= i < |v.value| ==> IsCodePoint(v.value[i])) ==>
        r.Ok? && TextToAscii(r.value) == v.value
    ensures var v := InputValues(input);
      v.Ok? ==> forall k: nat :: FirstFailure(v.value, k) ==>
        r == if InCInt(v.value[k]) then Ok(InvalidValues) else Err("OverflowError")
  {
    match InputValues(input)
    case Err(_) => Ok(ParseFailure)
    case Ok(values) =>
      TextOfValuesSpec(values);
      TextOfValues(values)
  }

  /** The second half of `ascii_to_text`, once the values are known. */
  function TextOfValues(values: seq<int>): Result<string, string>
    requires NoSurrogates(values)
  {
    match Chars(values)
    case Ok(text) => Ok(text)
    case Err(OutOfRange) => Ok(InvalidValues)
    case Err(Overflow) => Err("OverflowError")
  }

  /** `chr` succeeds on all values exactly when each is a code point, and then the string has
      those code points; otherwise the first value that is not decides how it fails. */
  lemma {:induction false} CharsSpec(values: seq<int>)
    requires NoSurrogates(values)
    ensures Chars(values).Ok? <==> forall i :: 0 <= i < |values| ==> IsCodePoint(values[i])
    ensures Chars(values).Ok? ==> TextToAscii(Chars(values).value) == values
    ensures Chars(values).Err? ==>
      (exists k: nat :: FirstFailure(values, k) && (Chars(values).error == Overflow <==> !InCInt(values[k])))
    decreases |values|
  {
    if values != [] && InCInt(values[0]) && IsCodePoint(values[0]) {
      var rest := values[1..];
      assert NoSurrogates(rest) by {
        forall i | 0 <= i < |rest| ensures !IsSurrogate(rest[i]) {
          assert rest[i] == values[i + 1];
        }
      }
      CharsSpec(rest);
      match Chars(rest)
      case Ok(text) =>
        assert forall i :: 0 <= i < |rest| ==> IsCodePoint(rest[i]);
        assert forall i :: 1 <= i < |values| ==> values[i] == rest[i - 1];
        var chars := [values[0] as char] + text;
        assert TextToAscii(chars) == values by {
          forall i | 0 <= i < |values| ensures TextToAscii(chars)[i] == values[i] {
            if i > 0 {
              assert chars[i] == text[i - 1];
              assert TextToAscii(text)[i - 1] == rest[i - 1];
            }
          }
        }
      case Err(failure) =>
        var k: nat :| FirstFailure(rest, k) && (failure == Overflow <==> !InCInt(rest[k]));
        assert FirstFailure(values, k + 1) by {
          forall j | 0 <= j < k + 1 ensures IsCodePoint(values[j]) {
            if j > 0 {
              assert values[j] == rest[j - 1];
            }
          }
        }
    } else if values != [] {
      assert FirstFailure(values, 0);
    }
  }

  /** `values[k]` is the first value that is not a code point. */
  predicate FirstFailure(values: seq<int>, k: nat)
  {
    && k < |values|
    && !IsCodePoint(values[k])
    && forall j :: 0 <= j < k ==> IsCodePoint(values[j])
  }

  lemma FirstFailureUnique(values: seq<int>, k: nat, k': nat)
    requires FirstFailure(values, k) && FirstFailure(values, k')
    ensures k == k'
  {
  }

  /** The string of the values gives them back when all of them are code points; when one is
      not, the first such value gives the invalid-values message, or an `OverflowError` when it
      is outside the C `int` range. */
  lemma TextOfValuesSpec(values: seq<int>)
    requires NoSurrogates(values)
    ensures (forall i :: 0 <= i < |values| ==> IsCodePoint(values[i])) ==>
      TextOfValues(values).Ok? && TextToAscii(TextOfValues(values).value) == values
    ensures forall k: nat :: FirstFailure(values, k) ==>
      TextOfValues(values) == if InCInt(values[k]) then Ok(InvalidValues) else Err("OverflowError")
  {
    CharsSpec(values);
    forall k: nat | FirstFailure(values, k)
      ensures TextOfValues(values) == if InCInt(values[k]) then Ok(InvalidValues) else Err("OverflowError")
    {
      var k': nat :| FirstFailure(values, k') && (Chars(values).error == Overflow <==> !InCInt(values[k']));
      FirstFailureUnique(values, k, k');
    }
  }

  /** Converting a text to its codes and back gives the text, from a list and from a string
      of space-separated decimal codes alike. */
  lemma AsciiRoundTrip(text: string)
    ensures NoSurrogates(TextToAscii(text))
    ensures AsciiToText(Values(TextToAscii(text))) == Ok(text)
    ensures IsAscii(Join(" ", Decimals(TextToAscii(text))))
    ensures InputValues(Spaced(Join(" ", Decimals(TextToAscii(text))))) == Ok(TextToAscii(text))
    ensures AsciiToText(Spaced(Join(" ", Decimals(TextToAscii(text))))) == Ok(text)
  {
    var codes := TextToAscii(text);
    CharsSpec(codes);
    var back := Chars(codes).value;
    assert back == text by {
      assert |TextToAscii(back)| == |back|;
      forall i | 0 <= i < |text| ensures back[i] == text[i] {
        assert TextToAscii(back)[i] == codes[i];
      }
    }
    var spaced := Join(" ", Decimals(codes));
    DecimalsAscii(codes);
    JoinChars(" ", Decimals(codes), IsAsciiChar);
    SpacedDecimals(codes);
  }

  lemma DecimalsAscii(ns: seq<nat>)
    ensures forall i, j :: 0 <= i < |Decimals(ns)| && 0 <= j < |Decimals(ns)[i]| ==>
      IsAsciiChar(Decimals(ns)[i][j])
  {
  }

  /** The conversions the package's tests check: "Hello" and its codes 72, 101, 108, 108, 111,
      as a list and as a string. */
  lemma AsciiExamples(text: string, codes: seq<nat>, spaced: string)
    requires text == "Hello" && codes == [72, 101, 108, 108, 111] && spaced == "72 101 108 108 111"
    ensures TextToAscii(text) == codes
    ensures NoSurrogates(codes) && AsciiToText(Values(codes)) == Ok(text)
    ensures IsAscii(spaced) && InputValues(Spaced(spaced)) == Ok(codes)
    ensures AsciiToText(Spaced(spaced)) == Ok(text)
  {
    HelloCodes(text, codes);
    HelloSpaced(codes, spaced);
    AsciiRoundTrip(text);
  }

  lemma HelloCodes(text: string, codes: seq<nat>)
    requires text == "Hello" && codes == [72, 101, 108, 108, 111]
    ensures TextToAscii(text) == codes
  {
  }

  lemma HelloSpaced(codes: seq<nat>, spaced: string)
    requires codes == [72, 101, 108, 108, 111] && spaced == "72 101 108 108 111"
    ensures Join(" ", Decimals(codes)) == spaced
  {
    HelloDecimals(codes);
    JoinFive(" ", ["72", "101", "108", "108", "111"]);
  }

  lemma HelloDecimals(codes: seq<nat>)
    requires codes == [72, 101, 108, 108, 111]
    ensures Decimals(codes) == ["72", "101", "108", "108", "111"]
  {
    HelloDecimal(72, "72");
    HelloDecimal(101, "101");
    HelloDecimal(108, "108");
    HelloDecimal(111, "111");
  }

  lemma HelloDecimal(n: nat, d: string)
    requires (n == 72 && d == "72") || (n == 101 && d == "101") || (n == 108 && d == "108")
      || (n == 111 && d == "111")
    ensures DecimalString(n) == d
  {
    assert DecimalString(n / 10 / 10) == [DigitChar(n / 10 / 10)];
  }

  // ---------------------------------------------------------------------------------------
  // extract_numbers
  // ---------------------------------------------------------------------------------------

  /** Drops everything before the first digit. */
  function SkipNonDigits(s: string): (r: string)
    ensures |r| <= |s|
    ensures r == [] || IsDigit(r[0])
  {
    if s != [] && !IsDigit(s[0]) then SkipNonDigits(s[1..]) else s
  }

  /** Length of the longest prefix of digits. */
  function DigitRunLength(s: string): (n: nat)
    ensures n <= |s|
    ensures n < |s| ==> !IsDigit(s[n])
  {
    if s != [] && IsDigit(s[0]) then 1 + DigitRunLength(s[1..]) else 0
  }

  lemma {:induction false} DigitRunLengthDigits(s: string)
    ensures AllDigits(s[..DigitRunLength(s)])
    decreases |s|
  {
    if s != [] && IsDigit(s[0]) {
      var n := DigitRunLength(s);
      DigitRunLengthDigits(s[1..]);
      assert s[..n] == [s[0]] + s[1..][..n - 1];
    }
  }

  /** `re.findall(r'\d+', text)`: the maximal runs of digits, left to right. */
  function DigitRuns(text: string): seq<string>
    decreases |text|
  {
    var t := SkipNonDigits(text);
    if t == [] then [] else
    var n := DigitRunLength(t);
    [t[..n]] + DigitRuns(t[n..])
  }

  /** `extract_numbers(text)`: `int` of each run. There is no number exactly when the text has
      no digit, and never more numbers than digits. */
  function ExtractNumbers(text: string): (r: seq<nat>)
    ensures r == [] <==> Digits(text) == []
    ensures |r| <= |Digits(text)|
  {
    var runs := DigitRuns(text);
    DigitRunsAreRuns(text);
    DigitRunsSpec(text);
    ConcatNonEmpty(runs);
    seq(|runs|, i requires 0 <= i < |runs| => DigitsValue(runs[i]))
  }

  /** Non-empty parts concatenate to at least one character each. */
  lemma {:induction false} ConcatNonEmpty(parts: seq<string>)
    requires forall i :: 0 <= i < |parts| ==> parts[i] != []
    ensures |parts| <= |Concat(parts)|
    ensures parts == [] <==> Concat(parts) == []
    decreases |parts|
  {
    if parts != [] {
      var prefix := parts[..|parts| - 1];
      assert forall i :: 0 <= i < |prefix| ==> prefix[i] == parts[i];
      ConcatNonEmpty(prefix);
    }
  }

  /** The digits of a text, in order. */
  function Digits(text: string): string
  {
    if text == [] then []
    else (if IsDigit(text[0]) then [text[0]] else []) + Digits(text[1..])
  }

  predicate NoDigits(s: string) { forall i :: 0 <= i < |s| ==> !IsDigit(s[i]) }

  /** Every run is a non-empty string of digits. */
  lemma {:induction false} DigitRunsAreRuns(text: string)
    ensures forall i :: 0 <= i < |DigitRuns(text)| ==>
      DigitRuns(text)[i] != [] && AllDigits(DigitRuns(text)[i])
    decreases |text|
  {
    var t := SkipNonDigits(text);
    if t != [] {
      var n := DigitRunLength(t);
      var runs := DigitRuns(text);
      DigitRunsAreRuns(t[n..]);
      DigitRunLengthDigits(t);
      assert runs == [t[..n]] + DigitRuns(t[n..]);
      forall i | 0 <= i < |runs| ensures runs[i] != [] && AllDigits(runs[i]) {
        if i > 0 {
          assert runs[i] == DigitRuns(t[n..])[i - 1];
        }
      }
    }
  }

  /** Together the runs hold exactly the digits of the text, in order: no digit is lost and
      nothing else is taken. */
  lemma {:induction false} DigitRunsSpec(text: string)
    ensures Concat(DigitRuns(text)) == Digits(text)
    decreases |text|
  {
    var t := SkipNonDigits(text);
    if t == [] {
      SkipNonDigitsDigits(text);
      assert DigitRuns(text) == [];
    } else {
      var n := DigitRunLength(t);
      DigitRunsSpec(t[n..]);
      DigitRunsStep(text);
    }
  }

  /** One run taken off the front keeps the runs and the digits in step. */
  lemma DigitRunsStep(text: string)
    requires SkipNonDigits(text) != []
    requires var t := SkipNonDigits(text); var tail := t[DigitRunLength(t)..];
      Concat(DigitRuns(tail)) == Digits(tail)
    ensures Concat(DigitRuns(text)) == Digits(text)
  {
    var t := SkipNonDigits(text);
    var n := DigitRunLength(t);
    var head, tail := t[..n], t[n..];
    LeadingRun(t, n);
    SkipNonDigitsDigits(text);
    assert DigitRuns(text) == [head] + DigitRuns(tail);
    ConcatCons(head, DigitRuns(tail));
  }

  /** The digits of a string are those of its leading run followed by those of the rest. */
  lemma LeadingRun(t: string, n: nat)
    requires n == DigitRunLength(t)
    ensures Digits(t) == t[..n] + Digits(t[n..])
  {
    DigitRunLengthDigits(t);
    DigitsOfRun(t[..n], t[n..]);
    assert t == t[..n] + t[n..];
  }

  lemma {:induction false} SkipNonDigitsDigits(s: string)
    ensures Digits(SkipNonDigits(s)) == Digits(s)
    decreases |s|
  {
    if s != [] && !IsDigit(s[0]) {
      SkipNonDigitsDigits(s[1..]);
    }
  }

  lemma {:induction false} DigitsOfRun(d: string, rest: string)
    requires AllDigits(d)
    ensures Digits(d + rest) == d + Digits(rest)
    decreases |d|
  {
    if d != [] {
      assert (d + rest)[1..] == d[1..] + rest;
      DigitsOfRun(d[1..], rest);
    } else {
      assert d + rest == rest;
    }
  }

  /** A digit-free prefix adds no run. */
  lemma {:induction false} RunsAfterNoDigits(x: string, y: string)
    requires NoDigits(x)
    ensures DigitRuns(x + y) == DigitRuns(y)
  {
    SkipNoDigits(x, y);
  }

  lemma {:induction false} SkipNoDigits(x: string, y: string)
    requires NoDigits(x)
    ensures SkipNonDigits(x + y) == SkipNonDigits(y)
    decreases |x|
  {
    if x != [] {
      assert (x + y)[1..] == x[1..] + y;
      SkipNoDigits(x[1..], y);
    } else {
      assert x + y == y;
    }
  }

  /** A run of digits followed by a non-digit or the end is one run. */
  lemma {:induction false} RunThen(d: string, y: string)
    requires d != [] && AllDigits(d)
    requires y == [] || !IsDigit(y[0])
    ensures DigitRuns(d + y) == [d] + DigitRuns(y)
  {
    RunLength(d, y);
    assert (d + y)[..|d|] == d;
    assert (d + y)[|d|..] == y;
  }

  lemma {:induction false} RunLength(d: string, y: string)
    requires AllDigits(d)
    requires y == [] || !IsDigit(y[0])
    ensures DigitRunLength(d + y) == |d|
    decreases |d|
  {
    if d != [] {
      assert (d + y)[1..] == d[1..] + y;
      RunLength(d[1..], y);
    }
  }

  /** `seps[0] + runs[0] + seps[1] + runs[1] + ...` */
  function Interleave(seps: seq<string>, runs: seq<string>): string
    requires |seps| == |runs|
  {
    if seps == [] then [] else seps[0] + (runs[0] + Interleave(seps[1..], runs[1..]))
  }

  /** Separators that hold no digit, all but the first non-empty. */
  predicate Separators(seps: seq<string>)
  {
    forall i :: 0 <= i < |seps| ==> NoDigits(seps[i]) && (i > 0 ==> seps[i] != [])
  }

  /** Runs of digits put between digit-free separators, and followed by a digit-free tail,
      are found again, one by one. */
  lemma {:induction false} InterleavedRuns(seps: seq<string>, runs: seq<string>, tail: string)
    requires |seps| == |runs| && Separators(seps)
    requires forall i :: 0 <= i < |runs| ==> runs[i] != [] && AllDigits(runs[i])
    requires NoDigits(tail)
    ensures DigitRuns(Interleave(seps, runs) + tail) == runs
    decreases |seps|
  {
    if seps == [] {
      RunsAfterNoDigits(tail, []);
      assert Interleave(seps, runs) + tail == tail + [];
    } else {
      assert Separators(seps[1..]) by {
        forall i | 0 <= i < |seps| - 1
          ensures NoDigits(seps[1..][i]) && (i > 0 ==> seps[1..][i] != [])
        {
          assert seps[1..][i] == seps[i + 1];
        }
      }
      assert forall i :: 0 <= i < |runs| - 1 ==> runs[1..][i] == runs[i + 1];
      InterleavedRuns(seps[1..], runs[1..], tail);
      InterleavedStep(seps, runs, tail);
    }
  }

  /** The first separator and run, in front of the rest and the tail, add exactly that run. */
  lemma InterleavedStep(seps: seq<string>, runs: seq<string>, tail: string)
    requires |seps| == |runs| > 0 && Separators(seps)
    requires runs[0] != [] && AllDigits(runs[0])
    requires NoDigits(tail)
    requires DigitRuns(Interleave(seps[1..], runs[1..]) + tail) == runs[1..]
    ensures DigitRuns(Interleave(seps, runs) + tail) == runs
  {
    var mid := Interleave(seps[1..], runs[1..]);
    SeparatorsTail(seps);
    InterleaveThenTail(seps[1..], runs[1..], tail);
    PrefixRun(seps[0], runs[0], mid + tail);
    AppendNested(seps[0], runs[0], mid, tail);
    assert [runs[0]] + runs[1..] == runs;
  }

  lemma AppendNested(a: string, b: string, c: string, d: string)
    ensures (a + (b + c)) + d == a + (b + (c + d))
  {
  }

  /** The first separator holds no digit; the later ones hold no digit and are non-empty. */
  lemma SeparatorsTail(seps: seq<string>)
    requires |seps| > 0 && Separators(seps)
    ensures NoDigits(seps[0])
    ensures forall i :: 0 <= i < |seps[1..]| ==> NoDigits(seps[1..][i]) && seps[1..][i] != []
  {
    forall i | 0 <= i < |seps[1..]|
      ensures NoDigits(seps[1..][i]) && seps[1..][i] != []
    {
      assert seps[1..][i] == seps[i + 1];
    }
  }

  /** A digit-free separator, then a run, then something that does not go on with a digit. */
  lemma PrefixRun(sep: string, run: string, rest: string)
    requires NoDigits(sep) && run != [] && AllDigits(run)
    requires rest == [] || !IsDigit(rest[0])
    ensures DigitRuns(sep + (run + rest)) == [run] + DigitRuns(rest)
  {
    RunsAfterNoDigits(sep, run + rest);
    RunThen(run, rest);
  }

  /** Past the first separator, the interleaving and a digit-free tail start with a
      non-digit (or are empty). */
  lemma InterleaveThenTail(seps: seq<string>, runs: seq<string>, tail: string)
    requires |seps| == |runs|
    requires forall i :: 0 <= i < |seps| ==> NoDigits(seps[i]) && seps[i] != []
    requires NoDigits(tail)
    ensures var r := Interleave(seps, runs) + tail; r == [] || !IsDigit(r[0])
  {
    var r := Interleave(seps, runs);
    InterleaveStartsWithSeparator(seps, runs);
    if r == [] {
      assert r + tail == tail;
    } else {
      assert (r + tail)[0] == r[0];
    }
  }

  /** Past the first separator, the interleaving starts with a non-digit (or is empty). */
  lemma InterleaveStartsWithSeparator(seps: seq<string>, runs: seq<string>)
    requires |seps| == |runs|
    requires forall i :: 0 <= i < |seps| ==> NoDigits(seps[i]) && seps[i] != []
    ensures var r := Interleave(seps, runs); r == [] || !IsDigit(r[0])
  {
    if seps != [] {
      var r := Interleave(seps, runs);
      assert r == seps[0] + (runs[0] + Interleave(seps[1..], runs[1..]));
      assert r[0] == seps[0][0];
    }
  }

  /** Numbers written out in decimal between digit-free separators, with any digit-free text
      after the last of them, are extracted again. */
  lemma ExtractRoundTrip(seps: seq<string>, ns: seq<nat>, tail: string)
    requires |seps| == |ns| && Separators(seps) && NoDigits(tail)
    ensures ExtractNumbers(Interleave(seps, Decimals(ns)) + tail) == ns
  {
    var runs := Decimals(ns);
    InterleavedRuns(seps, runs, tail);
    forall i | 0 <= i < |ns| ensures DigitsValue(runs[i]) == ns[i] {
      DecimalStringValue(ns[i]);
    }
  }

  /** The extraction the package's tests check. */
  lemma ExtractExample(text: string)
    requires text == "The coordinates are N 47\U{00B0} 36.123 W 122\U{00B0} 19.456"
    ensures ExtractNumbers(text) == [47, 36, 123, 122, 19, 456]
  {
    var seps := ["The coordinates are N ", "\U{00B0} ", ".", " W ", "\U{00B0} ", "."];
    var ns: seq<nat> := [47, 36, 123, 122, 19, 456];
    CoordinateText(text, seps, ns);
    ExtractRoundTrip(seps, ns, "");
    assert Interleave(seps, Decimals(ns)) + "" == text;
  }

  lemma CoordinateText(text: string, seps: seq<string>, ns: seq<nat>)
    requires text == "The coordinates are N 47\U{00B0} 36.123 W 122\U{00B0} 19.456"
    requires seps == ["The coordinates are N ", "\U{00B0} ", ".", " W ", "\U{00B0} ", "."]
    requires ns == [47, 36, 123, 122, 19, 456]
    ensures |seps| == |ns| && Separators(seps)
    ensures text == Interleave(seps, Decimals(ns))
  {
    CoordinateSeparators(seps);
    var runs := Decimals(ns);
    CoordinateDecimals(ns, runs);
    InterleaveSix(seps, runs);
    CoordinatePieces(text);
  }

  lemma CoordinateSeparators(seps: seq<string>)
    requires seps == ["The coordinates are N ", "\U{00B0} ", ".", " W ", "\U{00B0} ", "."]
    ensures Separators(seps)
  {
  }

  lemma CoordinateDecimals(ns: seq<nat>, runs: seq<string>)
    requires ns == [47, 36, 123, 122, 19, 456] && runs == Decimals(ns)
    ensures runs == ["47", "36", "123", "122", "19", "456"]
  {
    assert DecimalString(4) == "4" && DecimalString(3) == "3" && DecimalString(1) == "1";
    assert DecimalString(12) == "12" && DecimalString(45) == "45";
    assert runs[0] == DecimalString(47) == "47";
    assert runs[1] == DecimalString(36) == "36";
    assert runs[2] == DecimalString(123) == "123";
    assert runs[3] == DecimalString(122) == "122";
    assert runs[4] == DecimalString(19) == "19";
    assert runs[5] == DecimalString(456) == "456";
  }

  lemma InterleaveSix(seps: seq<string>, runs: seq<string>)
    requires |seps| == |runs| == 6
    ensures Interleave(seps, runs) == seps[0] + (runs[0] + (seps[1] + (runs[1] + (seps[2] + (runs[2]
      + (seps[3] + (runs[3] + (seps[4] + (runs[4] + (seps[5] + (runs[5] + "")))))))))))
  {
    assert seps[5..][1..] == [] && runs[5..][1..] == [];
    var r5 := Interleave(seps[5..], runs[5..]);
    assert Interleave(seps[5..][1..], runs[5..][1..]) == "";
    assert seps[5..][0] == seps[5] && runs[5..][0] == runs[5];
    assert r5 == seps[5] + (runs[5] + "");
    assert seps[4..][1..] == seps[5..] && runs[4..][1..] == runs[5..];
    var r4 := Interleave(seps[4..], runs[4..]);
    assert r4 == seps[4] + (runs[4] + r5);
    assert seps[3..][1..] == seps[4..] && runs[3..][1..] == runs[4..];
    var r3 := Interleave(seps[3..], runs[3..]);
    assert r3 == seps[3] + (runs[3] + r4);
    assert seps[2..][1..] == seps[3..] && runs[2..][1..] == runs[3..];
    var r2 := Interleave(seps[2..], runs[2..]);
    assert r2 == seps[2] + (runs[2] + r3);
    assert seps[1..][1..] == seps[2..] && runs[1..][1..] == runs[2..];
    var r1 := Interleave(seps[1..], runs[1..]);
    assert r1 == seps[1] + (runs[1] + r2);
    assert Interleave(seps, runs) == seps[0] + (runs[0] + r1);
  }

  lemma CoordinatePieces(text: string)
    requires text == "The coordinates are N 47\U{00B0} 36.123 W 122\U{00B0} 19.456"
    ensures text == "The coordinates are N " + ("47" + ("\U{00B0} " + ("36" + ("." + ("123"
      + (" W " + ("122" + ("\U{00B0} " + ("19" + ("." + ("456" + "")))))))))))
  {
  }

  // ---------------------------------------------------------------------------------------
  // anagram_solver, without a wordlist
  // ---------------------------------------------------------------------------------------

  /** The longest input, after `lower().strip()`, that is still permuted. */
  const MaxPermutationLength := 8

  const TooLongWarning := "Warning: String too long for permutation (> 8 chars). Provide a wordlist."

  /** The strings `''.join(p)` for the tuples `itertools.permutations(s)` yields: every
      arrangement of the characters of `s`, built by putting `s[0]` at each position of each
      arrangement of the rest. */
  function Arrangements(s: string): set<string>
    decreases |s|
  {
    if s == [] then {[]}
    else set p, k | p in Arrangements(s[1..]) && 0 <= k <= |p| :: p[..k] + [s[0]] + p[k..]
  }

  /** `anagram_solver(letters)` without a wordlist: the single warning for an input longer
      than eight characters, otherwise the arrangements of the input with duplicates removed
      (`list(set(perms))`, whose order Python leaves unspecified, hence a set). */
  datatype Anagrams = Warning(message: string) | Words(words: set<string>)

  function AnagramSolver(letters: string): (r: Anagrams)
    ensures r.Warning? <==> |Strip(LowerString(letters))| > MaxPermutationLength
    ensures r.Warning? ==> r.message == TooLongWarning
  {
    var normalized := Strip(LowerString(letters));
    if |normalized| > MaxPermutationLength then Warning(TooLongWarning)
    else Words(Arrangements(normalized))
  }

  /** A string is an arrangement of `s` exactly when it holds the same characters the same
      number of times. */
  lemma ArrangementsSpec(s: string, w: string)
    ensures w in Arrangements(s) <==> multiset(w) == multiset(s)
  {
    if w in Arrangements(s) {
      ArrangementsSound(s, w);
    }
    if multiset(w) == multiset(s) {
      ArrangementsComplete(s, w);
    }
  }

  lemma InsertMultiset(p: string, k: nat, c: char)
    requires k <= |p|
    ensures multiset(p[..k] + [c] + p[k..]) == multiset(p) + multiset{c}
  {
    assert p == p[..k] + p[k..];
  }

  lemma {:induction false} ArrangementsSound(s: string, w: string)
    requires w in Arrangements(s)
    ensures multiset(w) == multiset(s)
    decreases |s|
  {
    if s != [] {
      // `w` is the first character of `s` put somewhere into an arrangement of the rest.
      var p, k :| p in Arrangements(s[1..]) && 0 <= k <= |p| && w == p[..k] + [s[0]] + p[k..];
      ArrangementsSound(s[1..], p);
      InsertMultiset(p, k, s[0]);
      ConsMultiset(s);
    }
  }

  lemma ConsMultiset(s: string)
    requires s != []
    ensures multiset(s) == multiset(s[1..]) + multiset{s[0]}
  {
    assert s == [s[0]] + s[1..];
  }

  /** Taking out the character at `k` leaves a string that gives `w` back when it is put in. */
  lemma RemoveAt(w: string, k: nat, p: string)
    requires k < |w| && p == w[..k] + w[k + 1..]
    ensures k <= |p| && w == p[..k] + [w[k]] + p[k..]
    ensures multiset(w) == multiset(p) + multiset{w[k]}
  {
    assert p[..k] == w[..k] && p[k..] == w[k + 1..];
    assert w == p[..k] + [w[k]] + p[k..];
    InsertMultiset(p, k, w[k]);
  }

  lemma MultisetCancel(a: multiset<char>, b: multiset<char>, c: char)
    requires a + multiset{c} == b + multiset{c}
    ensures a == b
  {
    forall x ensures a[x] == b[x] {
      assert (a + multiset{c})[x] == (b + multiset{c})[x];
    }
  }

  lemma {:induction false} ArrangementsComplete(s: string, w: string)
    requires multiset(w) == multiset(s)
    ensures w in Arrangements(s)
    decreases |s|
  {
    if s == [] {
      assert |w| == |multiset(w)| == 0;
    } else {
      ConsMultiset(s);
      assert s[0] in multiset(w);
      var k :| 0 <= k < |w| && w[k] == s[0];
      var p := w[..k] + w[k + 1..];
      RemoveAt(w, k, p);
      MultisetCancel(multiset(p), multiset(s[1..]), s[0]);
      ArrangementsComplete(s[1..], p);
    }
  }

  /** Every word the solver returns is a rearrangement of the lower-cased, stripped input,
      and every rearrangement is returned (once, since the result is a set). */
  lemma AnagramSolverSpec(letters: string, w: string)
    requires AnagramSolver(letters).Words?
    ensures w in AnagramSolver(letters).words <==> multiset(w) == multiset(Strip(LowerString(letters)))
  {
    ArrangementsSpec(Strip(LowerString(letters)), w);
  }

  /** The package's tests: "abc" yields "abc", "cab" and "bca". */
  lemma AnagramShortExample(short: string)
    requires short == "abc"
    ensures AnagramSolver(short).Words?
    ensures "abc" in AnagramSolver(short).words && "cab" in AnagramSolver(short).words
    ensures "bca" in AnagramSolver(short).words
  {
    NormalizedUnchanged(short);
    ShortPermutations(short);
  }

  /** The package's tests: "toolongstring" gives the warning. */
  lemma AnagramLongExample(long: string)
    requires long == "toolongstring"
    ensures AnagramSolver(long) == Warning(TooLongWarning)
  {
    NormalizedUnchanged(long);
  }

  lemma ShortPermutations(short: string)
    requires short == "abc"
    ensures "abc" in Arrangements(short) && "cab" in Arrangements(short) && "bca" in Arrangements(short)
  {
    assert multiset("cab") == multiset(short) && multiset("bca") == multiset(short);
    ArrangementsSpec(short, "abc");
    ArrangementsSpec(short, "cab");
    ArrangementsSpec(short, "bca");
  }

  /** Lower-case text without surrounding whitespace is left as it is. */
  lemma NormalizedUnchanged(t: string)
    requires t != [] && forall i :: 0 <= i < |t| ==> IsLower(t[i])
    ensures Strip(LowerString(t)) == t
  {
    assert LowerString(t) == t;
    StripUnchanged(t);
  }
}
