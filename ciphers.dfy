/**
 * The decoders of `ciphers.py`: Caesar and Vigenère decoding, which rebuild the text one
 * character at a time, and Morse decoding, which walks words separated by " / " and codes
 * separated by whitespace.
 */
module Ciphers {
  import opened Wrappers
  import opened Text

  datatype CipherError =
    /** `key[j % key_length]` reached with an empty key: Python raises ZeroDivisionError. */
    | ModuloByZero

  // ---------------------------------------------------------------------------------------
  // Caesar
  // ---------------------------------------------------------------------------------------

  /** `caesar_decode` on one character: a letter moves back `shift` places (mod 26) inside its
      own case range; every other character is kept. */
  function CaesarChar(c: char, shift: int): char
  {
    if IsAlpha(c) then
      var base := if IsLower(c) then 'a' as int else 'A' as int;
      ((c as int - base - shift) % 26 + base) as char
    else c
  }

  /** The text `caesar_decode` returns: as long as the input, every non-letter where it was,
      lower case still lower and upper case still upper. */
  function Caesar(text: string, shift: int): (r: string)
    ensures |r| == |text|
    ensures forall i :: 0 <= i < |text| && !IsAlpha(text[i]) ==> r[i] == text[i]
    ensures forall i :: 0 <= i < |text| && IsLower(text[i]) ==> IsLower(r[i])
    ensures forall i :: 0 <= i < |text| && IsUpper(text[i]) ==> IsUpper(r[i])
  {
    seq(|text|, i requires 0 <= i < |text| => CaesarChar(text[i], shift))
  }

  /** `caesar_decode(text, shift)`: builds the result with `+=` over the characters. */
  method CaesarDecode(text: string, shift: int) returns (result: string)
    requires IsAscii(text)
    ensures result == Caesar(text, shift)
  {
    result := "";
    for i := 0 to |text|
      invariant |result| == i
      invariant forall k :: 0 <= k < i ==> result[k] == CaesarChar(text[k], shift)
    {
      var c := text[i];
      if IsAlpha(c) {
        var offset := if IsLower(c) then 'a' as int else 'A' as int;
        result := result + [((c as int - offset - shift) % 26 + offset) as char];
      } else {
        result := result + [c];
      }
    }
  }

  lemma ModShift(x: int, s: int, t: int)
    requires s % 26 == t % 26
    ensures (x - s) % 26 == (x - t) % 26
  {
    var q := (s - t) / 26;
    assert s - t == 26 * q;
    assert x - t == (x - s) + 26 * q;
  }

  /** Shifts that agree modulo 26 decode every text identically. */
  lemma {:induction false} CaesarCongruentShifts(text: string, s: int, t: int)
    requires s % 26 == t % 26
    ensures Caesar(text, s) == Caesar(text, t)
  {
    forall i | 0 <= i < |text| ensures CaesarChar(text[i], s) == CaesarChar(text[i], t) {
      var c := text[i];
      if IsAlpha(c) {
        var base := if IsLower(c) then 'a' as int else 'A' as int;
        ModShift(c as int - base, s, t);
      }
    }
  }

  lemma ModBack(x: int, s: int)
    requires 0 <= x < 26
    ensures ((x - s) % 26 + s) % 26 == x
  {
    var y := (x - s) % 26;
    var q := (x - s) / 26;
    assert x - s == 26 * q + y;
    assert y + s == x - 26 * q;
  }

  /** Decoding with `shift` and then with `-shift` restores the text. */
  lemma {:induction false} CaesarRoundTrip(text: string, shift: int)
    ensures Caesar(Caesar(text, shift), -shift) == text
  {
    var once := Caesar(text, shift);
    forall i | 0 <= i < |text| ensures CaesarChar(once[i], -shift) == text[i] {
      var c := text[i];
      if IsAlpha(c) {
        var base := if IsLower(c) then 'a' as int else 'A' as int;
        ModBack(c as int - base, shift);
      }
    }
  }

  /** The two decodings the package's tests check: ROT13 ... */
  lemma CaesarRot13Example()
    ensures Caesar("Uryyb, jbeyq!", 13) == "Hello, world!"
  {
  }

  /** ... and a shift of two. */
  lemma CaesarShiftTwoExample()
    ensures Caesar("Jgnnq, yqtnf!", 2) == "Hello, world!"
  {
  }

  // ---------------------------------------------------------------------------------------
  // Vigenère
  // ---------------------------------------------------------------------------------------

  /** The number of letters among the first `n` characters: the key index `j` once the loop
      has passed them, since `j` advances on letters only. */
  function LettersBefore(text: string, n: nat): nat
    requires n <= |text|
  {
    if n == 0 then 0 else LettersBefore(text, n - 1) + (if IsAlpha(text[n - 1]) then 1 else 0)
  }

  predicate HasLetter(text: string) { exists i :: 0 <= i < |text| && IsAlpha(text[i]) }

  /** One letter decoded against one (lower-cased) key character: the difference of their
      offsets from 'a', modulo 26, in the case of the input letter. */
  function VigenereLetter(c: char, k: char): char
    requires IsAlpha(c)
  {
    var decoded := ((Lower(c) as int - 'a' as int) - (k as int - 'a' as int)) % 26;
    var lower := (decoded + 'a' as int) as char;
    if IsUpper(c) then Upper(lower) else lower
  }

  /** The character at position `i` of the decoded text, for a non-empty lower-cased key. */
  function VigenereAt(text: string, key: string, i: nat): char
    requires i < |text| && |key| > 0
  {
    if IsAlpha(text[i]) then VigenereLetter(text[i], key[LettersBefore(text, i) % |key|]) else text[i]
  }

  /** What `vigenere_decode(text, key)` returns or raises. It fails exactly when the key is
      empty and the text holds a letter; with an empty key and no letter the text comes back
      unchanged. A result has the input's length, every non-letter at its own position and
      every letter in its own case. */
  function Vigenere(text: string, key: string): (r: Result<string, CipherError>)
    ensures r.Err? <==> key == [] && HasLetter(text)
    ensures key == [] && !HasLetter(text) ==> r == Ok(text)
    ensures r.Ok? ==> |r.value| == |text|
    ensures r.Ok? ==> forall i :: 0 <= i < |text| && !IsAlpha(text[i]) ==> r.value[i] == text[i]
    ensures r.Ok? ==> forall i :: 0 <= i < |text| && IsLower(text[i]) ==> IsLower(r.value[i])
    ensures r.Ok? ==> forall i :: 0 <= i < |text| && IsUpper(text[i]) ==> IsUpper(r.value[i])
  {
    var k := LowerString(key);
    if |k| == 0 then
      if HasLetter(text) then Err(ModuloByZero) else Ok(text)
    else
      Ok(seq(|text|, i requires 0 <= i < |text| => VigenereAt(text, k, i)))
  }

  /** `vigenere_decode(text, key)`: the key index `j` is advanced after each letter only. */
  method VigenereDecode(text: string, key: string) returns (r: Result<string, CipherError>)
    requires IsAscii(text) && IsAscii(key)
    ensures r == Vigenere(text, key)
  {
    var lowered := LowerString(key);
    var keyLength := |lowered|;
    var result := "";
    var j := 0;
    for i := 0 to |text|
      invariant |result| == i
      invariant j == LettersBefore(text, i)
      invariant keyLength == 0 ==> result == text[..i] && j == 0
      invariant keyLength > 0 ==> forall k :: 0 <= k < i ==> result[k] == VigenereAt(text, lowered, k)
    {
      var c := text[i];
      if IsAlpha(c) {
        if keyLength == 0 {
          assert IsAlpha(text[i]);
          assert HasLetter(text);
          return Err(ModuloByZero);
        }
        var charCode := Lower(c) as int - 'a' as int;
        var keyCode := lowered[j % keyLength] as int - 'a' as int;
        var decodedCode := (charCode - keyCode) % 26;
        var decoded := (decodedCode + 'a' as int) as char;
        if IsUpper(c) {
          decoded := Upper(decoded);
        }
        result := result + [decoded];
        j := j + 1;
      } else {
        result := result + [c];
      }
    }
    if keyLength == 0 {
      assert !HasLetter(text) by {
        forall i | 0 <= i < |text| ensures !IsAlpha(text[i]) {
          if IsAlpha(text[i]) {
            LettersBeforePositive(text, i);
          }
        }
      }
      assert result == text;
    } else {
      assert result == seq(|text|, i requires 0 <= i < |text| => VigenereAt(text, lowered, i));
    }
    r := Ok(result);
  }

  lemma {:induction false} LettersBeforePositive(text: string, i: nat)
    requires i < |text| && IsAlpha(text[i])
    ensures LettersBefore(text, |text|) > 0
  {
    LettersBeforeMonotone(text, i + 1, |text|);
  }

  lemma {:induction false} LettersBeforeMonotone(text: string, m: nat, n: nat)
    requires m <= n <= |text|
    ensures LettersBefore(text, m) <= LettersBefore(text, n)
    decreases n - m
  {
    if m < n {
      LettersBeforeMonotone(text, m, n - 1);
    }
  }

  /** Inserting a non-letter anywhere in the text inserts it at the same place in the result and
      changes nothing else: non-letters consume no key character. */
  lemma {:induction false} VigenereNonLetterConsumesNoKey(text: string, key: string, p: nat, c: char)
    requires |key| > 0 && p <= |text| && !IsAlpha(c)
    ensures Vigenere(text[..p] + [c] + text[p..], key).Ok?
    ensures Vigenere(text[..p] + [c] + text[p..], key).value
         == Vigenere(text, key).value[..p] + [c] + Vigenere(text, key).value[p..]
  {
    var longer := text[..p] + [c] + text[p..];
    var k := LowerString(key);
    var r := Vigenere(text, key).value;
    var r' := Vigenere(longer, key).value;
    forall i | 0 <= i < |longer| ensures r'[i] == (r[..p] + [c] + r[p..])[i] {
      if i < p {
        LettersBeforeInsert(text, p, c, i);
        assert longer[i] == text[i];
      } else if i > p {
        LettersBeforeInsert(text, p, c, i);
        assert longer[i] == text[i - 1];
      }
    }
  }

  /** Letter counts before each position of the text with `c` inserted at `p`. */
  lemma {:induction false} LettersBeforeInsert(text: string, p: nat, c: char, i: nat)
    requires p <= |text| && !IsAlpha(c) && i <= |text| + 1
    ensures i <= p ==> LettersBefore(text[..p] + [c] + text[p..], i) == LettersBefore(text, i)
    ensures i > p ==> LettersBefore(text[..p] + [c] + text[p..], i) == LettersBefore(text, i - 1)
  {
    var longer := text[..p] + [c] + text[p..];
    if i > 0 {
      LettersBeforeInsert(text, p, c, i - 1);
      if i - 1 < p {
        assert longer[i - 1] == text[i - 1];
      } else if i - 1 > p {
        assert longer[i - 1] == text[i - 2];
      }
    }
  }

  /** The decoding the package's tests check. */
  lemma VigenereExample()
    ensures Vigenere("Rijvs, uyvjn!", "key") == Ok("Hello, world!")
  {
    var text, plain := "Rijvs, uyvjn!", "Hello, world!";
    assert LowerString("key") == "key";
    VigenereExampleFront(text, plain);
    VigenereExampleBack(text, plain);
    assert Vigenere(text, "key").value == plain;
  }

  /** The key positions of the example: the count of letters before each character. */
  lemma VigenereExampleCounts(text: string)
    requires text == "Rijvs, uyvjn!"
    ensures LettersBefore(text, 5) == 5 && LettersBefore(text, 7) == 5
  {
    assert LettersBefore(text, 1) == 1;
    assert LettersBefore(text, 2) == 2;
    assert LettersBefore(text, 3) == 3;
    assert LettersBefore(text, 4) == 4;
    assert LettersBefore(text, 5) == 5;
    assert LettersBefore(text, 6) == 5;
  }

  lemma VigenereExampleFront(text: string, plain: string)
    requires text == "Rijvs, uyvjn!" && plain == "Hello, world!"
    ensures forall i :: 0 <= i < 7 ==> VigenereAt(text, "key", i) == plain[i]
  {
    assert LettersBefore(text, 1) == 1;
    assert LettersBefore(text, 2) == 2;
    assert LettersBefore(text, 3) == 3;
    assert LettersBefore(text, 4) == 4;
    assert VigenereAt(text, "key", 0) == 'H';
    assert VigenereAt(text, "key", 1) == 'e';
    assert VigenereAt(text, "key", 2) == 'l';
    assert VigenereAt(text, "key", 3) == 'l';
    assert VigenereAt(text, "key", 4) == 'o';
  }

  lemma VigenereExampleBack(text: string, plain: string)
    requires text == "Rijvs, uyvjn!" && plain == "Hello, world!"
    ensures forall i :: 7 <= i < 13 ==> VigenereAt(text, "key", i) == plain[i]
  {
    VigenereExampleCounts(text);
    assert LettersBefore(text, 8) == 6;
    assert LettersBefore(text, 9) == 7;
    assert LettersBefore(text, 10) == 8;
    assert LettersBefore(text, 11) == 9;
    assert VigenereAt(text, "key", 7) == 'w';
    assert VigenereAt(text, "key", 8) == 'o';
    assert VigenereAt(text, "key", 9) == 'r';
    assert VigenereAt(text, "key", 10) == 'l';
    assert VigenereAt(text, "key", 11) == 'd';
  }

  // ---------------------------------------------------------------------------------------
  // Morse
  // ---------------------------------------------------------------------------------------

  /** The code table of `morse_decode` and its lookup: the symbol for one code, or '?' for a
      code the table does not hold. */
  function MorseSymbol(code: string): char
  {
    match code
    case ".-" => 'A'
    case "-..." => 'B'
    case "-.-." => 'C'
    case "-.." => 'D'
    case "." => 'E'
    case "..-." => 'F'
    case "--." => 'G'
    case "...." => 'H'
    case ".." => 'I'
    case ".---" => 'J'
    case "-.-" => 'K'
    case ".-.." => 'L'
    case "--" => 'M'
    case "-." => 'N'
    case "---" => 'O'
    case ".--." => 'P'
    case "--.-" => 'Q'
    case ".-." => 'R'
    case "..." => 'S'
    case "-" => 'T'
    case "..-" => 'U'
    case "...-" => 'V'
    case ".--" => 'W'
    case "-..-" => 'X'
    case "-.--" => 'Y'
    case "--.." => 'Z'
    case ".----" => '1'
    case "..---" => '2'
    case "...--" => '3'
    case "....-" => '4'
    case "....." => '5'
    case "-...." => '6'
    case "--..." => '7'
    case "---.." => '8'
    case "----." => '9'
    case "-----" => '0'
    case ".-.-.-" => '.'
    case "--..--" => ','
    case "..--.." => '?'
    case ".----." => '\''
    case "-.-.--" => '!'
    case "-..-." => '/'
    case "-.--." => '('
    case "-.--.-" => ')'
    case ".-..." => '&'
    case "---..." => ':'
    case "-.-.-." => ';'
    case "-...-" => '='
    case ".-.-." => '+'
    case "-....-" => '-'
    case "..--.-" => '_'
    case ".-..-." => '"'
    case "...-..-" => '$'
    case ".--.-." => '@'
    case _ => '?'
  }

  /** The symbols of one word's whitespace-separated codes. */
  function MorseWord(word: string): string
  {
    var codes := Split(word);
    seq(|codes|, i requires 0 <= i < |codes| => MorseSymbol(codes[i]))
  }

  /** Python's `morse_code.strip().split(' / ')`. */
  function MorseWords(code: string): seq<string>
  {
    SplitOn(Strip(code), " / ")
  }

  /** Each word's symbols followed by the single space the loop appends after it. */
  function MorsePieces(words: seq<string>): seq<string>
  {
    seq(|words|, i requires 0 <= i < |words| => MorseWord(words[i]) + " ")
  }

  /** What `morse_decode(code)` returns: after the final `strip()` it neither starts nor ends
      with whitespace. */
  function Morse(code: string): (r: string)
    ensures r == [] || (!IsSpace(r[0]) && !IsSpace(r[|r| - 1]))
  {
    Strip(Concat(MorsePieces(MorseWords(code))))
  }

  /** `morse_decode(code)`: the outer loop walks the words, appending each word's symbols and
      then a space; the accumulated text is stripped at the end. */
  method MorseDecode(code: string) returns (text: string)
    requires IsAscii(code)
    ensures text == Morse(code)
  {
    var words := MorseWords(code);
    ghost var pieces := MorsePieces(words);
    var result := "";
    for w := 0 to |words|
      invariant result == Concat(pieces[..w])
    {
      var symbols := MorseWordDecode(words[w]);
      var piece := symbols + " ";
      assert piece == pieces[w];
      ConcatStep(pieces, w);
      result := result + piece;
    }
    assert pieces[..|words|] == pieces;
    text := Strip(result);
  }

  /** The inner loop of `morse_decode`: one symbol per whitespace-separated code of the word. */
  method MorseWordDecode(word: string) returns (symbols: string)
    ensures symbols == MorseWord(word)
  {
    var codes := Split(word);
    symbols := "";
    for c := 0 to |codes|
      invariant symbols == MorseWord(word)[..c]
    {
      var symbol := MorseSymbol(codes[c]);
      assert MorseWord(word)[..c + 1] == MorseWord(word)[..c] + [symbol];
      symbols := symbols + [symbol];
    }
    assert MorseWord(word)[..|codes|] == MorseWord(word);
  }

  /** A Morse code: a non-empty run of dots and dashes. */
  predicate IsCode(code: string)
  {
    |code| > 0 && forall i :: 0 <= i < |code| ==> code[i] == '.' || code[i] == '-'
  }

  /** Morse text as the decoder's input format describes it: the codes of a word separated by
      single spaces, the words separated by " / ". */
  function Encode(message: seq<seq<string>>): string
  {
    Join(" / ", seq(|message|, i requires 0 <= i < |message| => Join(" ", message[i])))
  }

  /** The symbols the decoder gives for a word's codes. */
  function Symbols(codes: seq<string>): string
  {
    seq(|codes|, i requires 0 <= i < |codes| => MorseSymbol(codes[i]))
  }

  predicate NotSlash(c: char) { c != '/' }

  predicate NotSpace(c: char) { !IsSpace(c) }

  /** No symbol of the table, and not the '?' for unknown codes, is whitespace. */
  lemma MorseSymbolNotSpace(code: string)
    ensures !IsSpace(MorseSymbol(code))
  {
  }

  predicate SlashFree(w: string)
  {
    forall j :: 0 <= j < |w| ==> w[j] != '/'
  }

  lemma {:induction false} SlashFreeNoSeparator(w: string)
    requires SlashFree(w)
    ensures FindFrom(w, " / ", 0) == None
  {
    forall j | 0 <= j ensures !OccursAt(w, " / ", j) {
      if j + 3 <= |w| {
        assert w[j..j + 3][1] == w[j + 1] != '/';
      }
    }
    FindFromAbsent(w, " / ", 0);
  }

  /** The separator after a slash-free piece that does not end in a space is found right there. */
  lemma {:induction false} SeparatorAfterPiece(w: string, rest: string)
    requires SlashFree(w) && w != [] && !IsSpace(Last(w))
    ensures FindFrom(w + " / " + rest, " / ", 0) == Some(|w|)
  {
    var s := w + " / " + rest;
    assert OccursAt(s, " / ", |w|) by {
      assert s[|w|..|w| + 3] == " / ";
    }
    forall j | 0 <= j < |w| ensures !OccursAt(s, " / ", j) {
      if j + 3 <= |s| {
        assert s[j..j + 3][0] == s[j] && s[j..j + 3][1] == s[j + 1];
        if j + 1 < |w| {
          assert s[j + 1] == w[j + 1] != '/';
        } else {
          assert s[j] == Last(w) != ' ';
        }
      }
    }
    FindFromFirst(s, " / ", 0, |w|);
  }

  lemma {:induction false} SplitOnStep(w: string, rest: string)
    requires SlashFree(w) && w != [] && !IsSpace(Last(w))
    ensures SplitOn(w + " / " + rest, " / ") == [w] + SplitOn(rest, " / ")
  {
    var s := w + " / " + rest;
    SeparatorAfterPiece(w, rest);
    assert s[..|w|] == w;
    assert s[|w| + 3..] == rest;
  }

  /** Splitting a " / "-join of slash-free pieces that do not end in a space gives the pieces. */
  lemma {:induction false} SplitOnJoin(pieces: seq<string>)
    requires |pieces| > 0
    requires forall i :: 0 <= i < |pieces| ==> SlashFree(pieces[i])
    requires forall i :: 0 <= i < |pieces| ==> pieces[i] != [] && !IsSpace(Last(pieces[i]))
    ensures SplitOn(Join(" / ", pieces), " / ") == pieces
    decreases |pieces|
  {
    if |pieces| == 1 {
      SlashFreeNoSeparator(pieces[0]);
    } else {
      var tail := pieces[1..];
      assert forall i :: 0 <= i < |tail| ==> tail[i] == pieces[i + 1];
      SplitOnJoin(tail);
      assert Join(" / ", pieces) == pieces[0] + " / " + Join(" / ", tail);
      SplitOnStep(pieces[0], Join(" / ", tail));
      assert pieces == [pieces[0]] + tail;
    }
  }

  /** The Morse text of one word starts and ends with a code, has no slash, and decodes to the
      codes' symbols. */
  lemma {:induction false} EncodedWord(codes: seq<string>)
    requires |codes| > 0 && forall j :: 0 <= j < |codes| ==> IsCode(codes[j])
    ensures var w := Join(" ", codes);
      w != [] && !IsSpace(w[0]) && !IsSpace(Last(w)) && SlashFree(w)
    ensures MorseWord(Join(" ", codes)) == Symbols(codes)
  {
    EncodedWordEnds(codes);
    EncodedWordSlashFree(codes);
    forall k | 0 <= k < |codes| ensures IsWord(codes[k]) {
      assert IsCode(codes[k]);
    }
    SplitJoin(codes);
  }

  lemma EncodedWordEnds(codes: seq<string>)
    requires |codes| > 0 && forall j :: 0 <= j < |codes| ==> IsCode(codes[j])
    ensures var w := Join(" ", codes); w != [] && !IsSpace(w[0]) && !IsSpace(Last(w))
  {
    assert forall k :: 0 <= k < |codes| ==> codes[k] != [];
    JoinEnds(" ", codes);
    assert codes[0][0] == '.' || codes[0][0] == '-';
    assert Last(codes[|codes| - 1]) == '.' || Last(codes[|codes| - 1]) == '-';
  }

  lemma EncodedWordSlashFree(codes: seq<string>)
    requires forall j :: 0 <= j < |codes| ==> IsCode(codes[j])
    ensures SlashFree(Join(" ", codes))
  {
    forall k, j | 0 <= k < |codes| && 0 <= j < |codes[k]| ensures NotSlash(codes[k][j]) {
      assert IsCode(codes[k]);
    }
    JoinChars(" ", codes, NotSlash);
  }

  /** Stripping the decoded pieces leaves the words joined by single spaces, as long as every
      word is non-empty and free of whitespace. */
  lemma {:induction false} StripDecoded(parts: seq<string>, words: seq<string>)
    requires |parts| == |words| > 0
    requires forall i :: 0 <= i < |parts| ==> parts[i] == words[i] + " "
    requires forall i :: 0 <= i < |words| ==> words[i] != []
    requires forall i, j :: 0 <= i < |words| && 0 <= j < |words[i]| ==> NotSpace(words[i][j])
    ensures Strip(Concat(parts)) == Join(" ", words)
  {
    ConcatSpaced(parts, words);
    JoinEnds(" ", words);
    var joined := Join(" ", words);
    assert NotSpace(words[0][0]) && NotSpace(Last(words[|words| - 1]));
    StripTrailingSpace(joined);
  }

  /** Decoding the Morse text of a message gives each word's symbols, the words separated by
      single spaces; unknown codes come out as '?'. */
  lemma {:induction false} MorseRoundTrip(message: seq<seq<string>>)
    requires |message| > 0
    requires forall i :: 0 <= i < |message| ==> |message[i]| > 0
    requires forall i, j :: 0 <= i < |message| && 0 <= j < |message[i]| ==> IsCode(message[i][j])
    ensures Morse(Encode(message))
      == Join(" ", seq(|message|, i requires 0 <= i < |message| => Symbols(message[i])))
  {
    var n := |message|;
    var pieces := seq(n, i requires 0 <= i < n => Join(" ", message[i]));
    var syms := seq(n, i requires 0 <= i < n => Symbols(message[i]));
    forall i | 0 <= i < n
      ensures pieces[i] != [] && !IsSpace(pieces[i][0]) && !IsSpace(Last(pieces[i]))
      ensures SlashFree(pieces[i]) && MorseWord(pieces[i]) == syms[i]
    {
      EncodedWord(message[i]);
    }
    var code := Encode(message);
    // The text has no surrounding whitespace, so `strip()` keeps it and " / " splits it.
    JoinEnds(" / ", pieces);
    StripUnchanged(code);
    SplitOnJoin(pieces);
    assert MorseWords(code) == pieces;
    var parts := MorsePieces(pieces);
    forall i | 0 <= i < n ensures parts[i] == syms[i] + " " && syms[i] != [] {
      assert |syms[i]| == |message[i]|;
    }
    forall i, j | 0 <= i < n && 0 <= j < |syms[i]| ensures NotSpace(syms[i][j]) {
      MorseSymbolNotSpace(message[i][j]);
    }
    StripDecoded(parts, syms);
  }

  /** Morse text of two words is the two words' codes around " / ". */
  lemma {:induction false} EncodeTwo(first: seq<string>, second: seq<string>)
    ensures Encode([first, second]) == Join(" ", first) + " / " + Join(" ", second)
  {
    var message := [first, second];
    var pieces := seq(|message|, i requires 0 <= i < |message| => Join(" ", message[i]));
    assert pieces == [Join(" ", first), Join(" ", second)];
    assert pieces[1..] == [Join(" ", second)];
    assert Join(" / ", pieces[1..]) == Join(" ", second);
  }

  /** The round trip for a message of two words. */
  lemma {:induction false} MorseTwoWords(first: seq<string>, second: seq<string>)
    requires |first| > 0 && forall j :: 0 <= j < |first| ==> IsCode(first[j])
    requires |second| > 0 && forall j :: 0 <= j < |second| ==> IsCode(second[j])
    ensures Morse(Encode([first, second])) == Symbols(first) + " " + Symbols(second)
  {
    var message := [first, second];
    MorseRoundTrip(message);
    JoinTwoSymbols(message, first, second);
  }

  lemma JoinTwoSymbols(message: seq<seq<string>>, first: seq<string>, second: seq<string>)
    requires message == [first, second]
    ensures Join(" ", seq(|message|, i requires 0 <= i < |message| => Symbols(message[i])))
      == Symbols(first) + " " + Symbols(second)
  {
    var syms := seq(|message|, i requires 0 <= i < |message| => Symbols(message[i]));
    assert syms == [Symbols(first), Symbols(second)];
    assert syms[1..] == [Symbols(second)];
    assert Join(" ", syms[1..]) == Symbols(second);
  }

  /** The decoding the package's tests check. */
  lemma MorseExample()
    ensures Morse(".... . .-.. .-.. --- / .-- --- .-. .-.. -..") == "HELLO WORLD"
  {
    var hello := ["....", ".", ".-..", ".-..", "---"];
    var world := [".--", "---", ".-.", ".-..", "-.."];
    HelloWorldText(hello, world);
    HelloWorldCodes(hello, world);
    HelloWorldSymbols(hello, world);
    HelloWorldDecoded(hello, world);
  }

  lemma {:induction false} HelloWorldDecoded(hello: seq<string>, world: seq<string>)
    requires |hello| > 0 && forall j :: 0 <= j < |hello| ==> IsCode(hello[j])
    requires |world| > 0 && forall j :: 0 <= j < |world| ==> IsCode(world[j])
    requires Symbols(hello) == "HELLO" && Symbols(world) == "WORLD"
    ensures Morse(Encode([hello, world])) == "HELLO WORLD"
  {
    MorseTwoWords(hello, world);
    HelloSpaceWorld();
  }

  lemma HelloSpaceWorld()
    ensures "HELLO" + " " + "WORLD" == "HELLO WORLD"
  {
  }

  lemma {:induction false} HelloWorldText(hello: seq<string>, world: seq<string>)
    requires hello == ["....", ".", ".-..", ".-..", "---"]
    requires world == [".--", "---", ".-.", ".-..", "-.."]
    ensures Encode([hello, world]) == ".... . .-.. .-.. --- / .-- --- .-. .-.. -.."
  {
    HelloWorldWords(hello, world);
    EncodeTwo(hello, world);
  }

  lemma {:induction false} HelloWorldWords(hello: seq<string>, world: seq<string>)
    requires hello == ["....", ".", ".-..", ".-..", "---"]
    requires world == [".--", "---", ".-.", ".-..", "-.."]
    ensures Join(" ", hello) == ".... . .-.. .-.. ---"
    ensures Join(" ", world) == ".-- --- .-. .-.. -.."
  {
    JoinFive(" ", hello);
    JoinFive(" ", world);
  }

  lemma {:induction false} HelloWorldCodes(hello: seq<string>, world: seq<string>)
    requires hello == ["....", ".", ".-..", ".-..", "---"]
    requires world == [".--", "---", ".-.", ".-..", "-.."]
    ensures forall j :: 0 <= j < |hello| ==> IsCode(hello[j])
    ensures forall j :: 0 <= j < |world| ==> IsCode(world[j])
  {
  }

  lemma {:induction false} HelloWorldSymbols(hello: seq<string>, world: seq<string>)
    requires hello == ["....", ".", ".-..", ".-..", "---"]
    requires world == [".--", "---", ".-.", ".-..", "-.."]
    ensures Symbols(hello) == "HELLO" && Symbols(world) == "WORLD"
  {
  }
}
