/**
 * Character classes and the string primitives of Python that the helpers rely on:
 * `isalpha`/`isupper`/`islower`, `lower`/`upper`, `str.split()` without arguments,
 * `strip()`, `' '.join(...)` and slicing with `[::-1]`, restricted to ASCII text.
 */
module Text {
  import opened Wrappers

  predicate IsUpper(c: char) { 'A' <= c <= 'Z' }

  predicate IsLower(c: char) { 'a' <= c <= 'z' }

  predicate IsAlpha(c: char) { IsUpper(c) || IsLower(c) }

  predicate IsDigit(c: char) { '0' <= c <= '9' }

  /** The ASCII characters Python's `str.isspace()` and the regex class `\s` accept:
      space, tab, line feed, vertical tab, form feed, carriage return and 0x1C-0x1F. */
  predicate IsSpace(c: char) { c == ' ' || 9 <= c as int <= 13 || 28 <= c as int <= 31 }

  predicate IsAsciiChar(c: char) { c as int < 128 }

  predicate IsAscii(s: string) { forall i :: 0 <= i < |s| ==> IsAsciiChar(s[i]) }

  /** A token `str.split()` can produce: non-empty and free of whitespace. */
  predicate IsWord(w: string) { |w| > 0 && forall i :: 0 <= i < |w| ==> !IsSpace(w[i]) }

  function Lower(c: char): char { if IsUpper(c) then (c as int + 32) as char else c }

  function Upper(c: char): char { if IsLower(c) then (c as int - 32) as char else c }

  function LowerString(s: string): (r: string)
    ensures |r| == |s| && forall i :: 0 <= i < |s| ==> r[i] == Lower(s[i])
  {
    seq(|s|, i requires 0 <= i < |s| => Lower(s[i]))
  }

  function UpperString(s: string): (r: string)
    ensures |r| == |s| && forall i :: 0 <= i < |s| ==> r[i] == Upper(s[i])
  {
    seq(|s|, i requires 0 <= i < |s| => Upper(s[i]))
  }

  /** Python's `s[::-1]`. */
  function Reverse<T>(s: seq<T>): (r: seq<T>)
    ensures |r| == |s| && forall i :: 0 <= i < |s| ==> r[i] == s[|s| - 1 - i]
  {
    seq(|s|, i requires 0 <= i < |s| => s[|s| - 1 - i])
  }

  /** Drops leading whitespace. */
  function SkipSpaces(s: string): (r: string)
    ensures |r| <= |s| && r == s[|s| - |r|..]
    ensures r == [] || !IsSpace(r[0])
  {
    if s != [] && IsSpace(s[0]) then SkipSpaces(s[1..]) else s
  }

  /** Drops trailing whitespace. */
  function SkipTrailingSpaces(s: string): (r: string)
    ensures |r| <= |s| && r == s[..|r|]
    ensures r == [] || !IsSpace(r[|r| - 1])
  {
    if s != [] && IsSpace(s[|s| - 1]) then SkipTrailingSpaces(s[..|s| - 1]) else s
  }

  /** The last element of a non-empty sequence. */
  function Last<T>(s: seq<T>): T
    requires |s| > 0
  {
    s[|s| - 1]
  }

  /** Python's `s.strip()` without arguments. */
  function Strip(s: string): string { SkipTrailingSpaces(SkipSpaces(s)) }

  /** Length of the longest whitespace-free prefix. */
  function WordLength(s: string): (n: nat)
    ensures n <= |s|
    ensures forall i :: 0 <= i < n ==> !IsSpace(s[i])
    ensures n < |s| ==> IsSpace(s[n])
  {
    if s != [] && !IsSpace(s[0]) then 1 + WordLength(s[1..]) else 0
  }

  /** Python's `s.split()` without arguments: the maximal whitespace-free runs, in order. */
  function Split(s: string): (words: seq<string>)
    decreases |s|
  {
    var t := SkipSpaces(s);
    if t == [] then [] else
    var n := WordLength(t);
    [t[..n]] + Split(t[n..])
  }

  /** Python's `sep.join(words)`. */
  function Join(sep: string, words: seq<string>): string
  {
    if |words| == 0 then ""
    else if |words| == 1 then words[0]
    else words[0] + sep + Join(sep, words[1..])
  }

  /** `sep.join` of three words, written out. */
  lemma {:induction false} JoinThree(sep: string, w: seq<string>)
    requires |w| == 3
    ensures Join(sep, w) == w[0] + sep + w[1] + sep + w[2]
  {
    assert w[1..][1..] == w[2..];
    assert Join(sep, w[2..]) == w[2];
  }

  /** `sep.join` of five words, written out. */
  lemma {:induction false} JoinFive(sep: string, w: seq<string>)
    requires |w| == 5
    ensures Join(sep, w) == w[0] + sep + w[1] + sep + w[2] + sep + w[3] + sep + w[4]
  {
    assert w[1..][1..] == w[2..];
    assert w[2..][1..] == w[3..];
    assert w[3..][1..] == w[4..];
    assert Join(sep, w[4..]) == w[4];
    assert Join(sep, w[3..]) == w[3] + sep + w[4];
    assert Join(sep, w[2..]) == w[2] + sep + w[3] + sep + w[4];
  }

  /** The concatenation of all parts, as repeated `+=` builds it. */
  function Concat(parts: seq<string>): string
  {
    if parts == [] then "" else Concat(parts[..|parts| - 1]) + parts[|parts| - 1]
  }

  /** `Concat` read from the front. */
  lemma {:induction false} ConcatCons(first: string, rest: seq<string>)
    ensures Concat([first] + rest) == first + Concat(rest)
    decreases |rest|
  {
    if rest != [] {
      var prefix := rest[..|rest| - 1];
      ConcatCons(first, prefix);
      assert ([first] + rest)[..|rest|] == [first] + prefix;
    }
  }

  /** Reversing twice gives back the sequence. */
  lemma {:induction false} ReverseReverse<T>(s: seq<T>)
    ensures Reverse(Reverse(s)) == s
  {
    var r := Reverse(Reverse(s));
    assert |r| == |s|;
    forall i | 0 <= i < |s| ensures r[i] == s[i] {
      assert r[i] == Reverse(s)[|s| - 1 - i];
    }
  }

  lemma {:induction false} SplitLeadingSpace(x: string)
    ensures Split(" " + x) == Split(x)
  {
    assert (" " + x)[1..] == x;
  }

  lemma {:induction false} WordLengthOfWord(w: string, rest: string)
    requires IsWord(w)
    requires rest == [] || IsSpace(rest[0])
    ensures WordLength(w + rest) == |w|
    decreases |w|
  {
    if |w| > 1 {
      assert (w + rest)[1..] == w[1..] + rest;
      WordLengthOfWord(w[1..], rest);
    } else {
      assert (w + rest)[1..] == rest;
    }
  }

  lemma {:induction false} SplitSingleWord(w: string)
    requires IsWord(w)
    ensures Split(w) == [w]
  {
    WordLengthOfWord(w, "");
    assert w + "" == w;
    assert SkipSpaces(w) == w;
    assert w[..|w|] == w;
    assert w[|w|..] == [];
  }

  /** A word followed by whitespace (or nothing) is the first piece `split()` returns. */
  lemma {:induction false} SplitWordThen(w: string, rest: string)
    requires IsWord(w)
    requires rest == [] || IsSpace(rest[0])
    ensures Split(w + rest) == [w] + Split(rest)
  {
    var s := w + rest;
    WordLengthOfWord(w, rest);
    assert SkipSpaces(s) == s;
    assert s[..|w|] == w;
    assert s[|w|..] == rest;
  }

  lemma {:induction false} SplitJoinStep(words: seq<string>)
    requires forall i :: 0 <= i < |words| ==> IsWord(words[i])
    requires |words| > 1
    requires Split(Join(" ", words[1..])) == words[1..]
    ensures Split(Join(" ", words)) == words
  {
    var rest := Join(" ", words[1..]);
    assert Join(" ", words) == words[0] + (" " + rest);
    SplitWordThen(words[0], " " + rest);
    SplitLeadingSpace(rest);
    assert words == [words[0]] + words[1..];
  }

  lemma {:induction false} SplitJoinShort(words: seq<string>)
    requires forall i :: 0 <= i < |words| ==> IsWord(words[i])
    requires |words| <= 1
    ensures Split(Join(" ", words)) == words
  {
    if |words| == 0 {
      assert Join(" ", words) == "";
      assert SkipSpaces("") == "";
    } else {
      assert Join(" ", words) == words[0];
      SplitSingleWord(words[0]);
    }
  }

  /** Joining words with single spaces and splitting again gives the words back. */
  lemma {:induction false} SplitJoin(words: seq<string>)
    requires forall i :: 0 <= i < |words| ==> IsWord(words[i])
    ensures Split(Join(" ", words)) == words
    decreases |words|
  {
    if |words| <= 1 {
      SplitJoinShort(words);
    } else {
      SplitJoin(words[1..]);
      SplitJoinStep(words);
    }
  }

  predicate OccursAt(s: string, sep: string, k: nat)
  {
    k + |sep| <= |s| && s[k..k + |sep|] == sep
  }

  /** First position at or after `from` where `sep` occurs in `s`. */
  function FindFrom(s: string, sep: string, from: nat): (r: Option<nat>)
    requires |sep| > 0
    ensures r.Some? ==> from <= r.value && OccursAt(s, sep, r.value)
    decreases |s| - from
  {
    if from + |sep| > |s| then None
    else if OccursAt(s, sep, from) then Some(from)
    else FindFrom(s, sep, from + 1)
  }

  /** Python's `s.split(sep)`: the pieces between the leftmost non-overlapping occurrences. */
  function SplitOn(s: string, sep: string): (pieces: seq<string>)
    requires |sep| > 0
    ensures |pieces| > 0
    decreases |s|
  {
    match FindFrom(s, sep, 0)
    case None => [s]
    case Some(k) => [s[..k]] + SplitOn(s[k + |sep|..], sep)
  }

  lemma {:induction false} ConcatStep(parts: seq<string>, n: nat)
    requires n < |parts|
    ensures Concat(parts[..n + 1]) == Concat(parts[..n]) + parts[n]
  {
    assert parts[..n + 1][..n] == parts[..n];
  }

  lemma {:induction false} StripTrailingSpace(s: string)
    requires s != [] && !IsSpace(s[0]) && !IsSpace(s[|s| - 1])
    ensures Strip(s + " ") == s
  {
    assert SkipSpaces(s + " ") == s + " ";
    assert (s + " ")[..|s|] == s;
    assert SkipTrailingSpaces(s) == s;
  }

  lemma {:induction false} StripUnchanged(s: string)
    requires s != [] && !IsSpace(s[0]) && !IsSpace(s[|s| - 1])
    ensures Strip(s) == s
  {
    assert SkipSpaces(s) == s;
  }

  /** Appending one more word to a non-empty list adds the separator and the word. */
  lemma {:induction false} JoinSnoc(sep: string, words: seq<string>, x: string)
    requires |words| > 0
    ensures Join(sep, words + [x]) == Join(sep, words) + sep + x
    decreases |words|
  {
    if |words| == 1 {
      assert (words + [x])[1..] == [x];
    } else {
      assert (words + [x])[1..] == words[1..] + [x];
      JoinSnoc(sep, words[1..], x);
    }
  }

  /** The first character of a join is that of the first word, the last that of the last word. */
  lemma {:induction false} JoinEnds(sep: string, words: seq<string>)
    requires |words| > 0 && forall i :: 0 <= i < |words| ==> words[i] != []
    ensures Join(sep, words) != [] && Join(sep, words)[0] == words[0][0]
    ensures Last(Join(sep, words)) == Last(words[|words| - 1])
    decreases |words|
  {
    if |words| > 1 {
      var tail := words[1..];
      assert forall i :: 0 <= i < |tail| ==> tail[i] == words[i + 1];
      JoinEnds(sep, tail);
      assert Join(sep, words) == words[0] + sep + Join(sep, tail);
    }
  }

  /** Every character of a join comes from a word or from the separator. */
  lemma {:induction false} JoinChars(sep: string, words: seq<string>, p: char -> bool)
    requires forall j :: 0 <= j < |sep| ==> p(sep[j])
    requires forall i, j :: 0 <= i < |words| && 0 <= j < |words[i]| ==> p(words[i][j])
    ensures forall k :: 0 <= k < |Join(sep, words)| ==> p(Join(sep, words)[k])
    decreases |words|
  {
    if |words| > 1 {
      var tail := words[1..];
      forall i, j | 0 <= i < |tail| && 0 <= j < |tail[i]| ensures p(tail[i][j]) {
        assert tail[i] == words[i + 1];
      }
      JoinChars(sep, tail, p);
      var r := Join(sep, tail);
      assert Join(sep, words) == words[0] + sep + r;
      forall k | 0 <= k < |Join(sep, words)| ensures p(Join(sep, words)[k]) {
        if k < |words[0]| {
          assert Join(sep, words)[k] == words[0][k];
        } else if k < |words[0]| + |sep| {
          assert Join(sep, words)[k] == sep[k - |words[0]|];
        } else {
          assert Join(sep, words)[k] == r[k - |words[0]| - |sep|];
        }
      }
    } else if |words| == 1 {
      assert Join(sep, words) == words[0];
      forall k | 0 <= k < |words[0]| ensures p(words[0][k]) {
        assert p(words[0][k]);
      }
    }
  }

  /** Concatenating words that each carry a trailing space is joining them and adding one space. */
  lemma {:induction false} ConcatSpaced(parts: seq<string>, words: seq<string>)
    requires |parts| == |words| > 0
    requires forall i :: 0 <= i < |parts| ==> parts[i] == words[i] + " "
    ensures Concat(parts) == Join(" ", words) + " "
    decreases |parts|
  {
    var n := |parts|;
    if n == 1 {
      assert parts[..0] == [];
      assert Join(" ", words) == words[0];
    } else {
      ConcatSpaced(parts[..n - 1], words[..n - 1]);
      JoinSnoc(" ", words[..n - 1], words[n - 1]);
      assert words[..n - 1] + [words[n - 1]] == words;
    }
  }

  /** `FindFrom` stops at the first occurrence. */
  lemma {:induction false} FindFromFirst(s: string, sep: string, from: nat, k: nat)
    requires |sep| > 0 && from <= k && OccursAt(s, sep, k)
    requires forall j :: from <= j < k ==> !OccursAt(s, sep, j)
    ensures FindFrom(s, sep, from) == Some(k)
    decreases k - from
  {
    if from < k {
      FindFromFirst(s, sep, from + 1, k);
    }
  }

  /** `FindFrom` fails when there is no occurrence at or after `from`. */
  lemma {:induction false} FindFromAbsent(s: string, sep: string, from: nat)
    requires |sep| > 0
    requires forall j :: from <= j ==> !OccursAt(s, sep, j)
    ensures FindFrom(s, sep, from) == None
    decreases |s| - from
  {
    if from + |sep| <= |s| {
      FindFromAbsent(s, sep, from + 1);
    }
  }
}
