/**
 * `frequency_analysis` and `substitution_bruteforce` from the cipher helpers: letter counts
 * in first-occurrence order (the order of a `Counter` turned into a `dict`), Python's stable
 * descending `sorted` on those counts, and the frequency-rank substitution with optional
 * known mappings.
 */
module Frequency {
  import opened Text

  /** A letter and how often it occurs: one item of the dictionary `frequency_analysis` returns. */
  type Item = (char, nat)

  // ---------------------------------------------------------------------------------------
  // frequency_analysis
  // ---------------------------------------------------------------------------------------

  /** `''.join(char.lower() for char in text if char.isalpha())`. */
  function Letters(text: string): string
  {
    if text == [] then []
    else Letters(text[..|text| - 1]) + (if IsAlpha(Last(text)) then [Lower(Last(text))] else [])
  }

  /** The distinct elements of `s` in order of first occurrence. */
  function Distinct<T(==)>(s: seq<T>): seq<T>
  {
    if s == [] then []
    else
      var d := Distinct(s[..|s| - 1]);
      if Last(s) in d then d else d + [Last(s)]
  }

  predicate NoDuplicates<T(==)>(s: seq<T>)
  {
    forall i, j :: 0 <= i < j < |s| ==> s[i] != s[j]
  }

  /** What `frequency_analysis(text)` returns: each letter of the filtered text, in order of
      first occurrence, with its number of occurrences. Its letters are distinct and are
      exactly the letters of the text, lower-cased, and its counts add up to the number of
      those letters. */
  function FrequencyAnalysis(text: string): (r: seq<Item>)
    ensures NoDuplicates(Keys(r))
    ensures forall c :: c in Keys(r) <==> c in Letters(text)
    ensures Total(r) == |Letters(text)|
  {
    var letters := Letters(text);
    DistinctSpec(letters);
    CountTotal(letters);
    var r := Tally(Distinct(letters), multiset(letters));
    assert Keys(r) == Distinct(letters);
    r
  }

  /** Each key paired with its number of occurrences in `counts`. */
  function Tally(keys: string, counts: multiset<char>): seq<Item>
  {
    seq(|keys|, i requires 0 <= i < |keys| => (keys[i], counts[keys[i]]))
  }

  /** The letters of an item list, in order. */
  function Keys(items: seq<Item>): string
  {
    seq(|items|, i requires 0 <= i < |items| => items[i].0)
  }

  /** The sum of the counts of an item list. */
  function Total(items: seq<Item>): nat
  {
    if items == [] then 0 else Total(items[..|items| - 1]) + Last(items).1
  }

  /** The filtered text is made of lower-case letters, and holds a letter exactly when the text
      holds it in either case. */
  lemma {:induction false} LettersSpec(text: string)
    ensures |Letters(text)| <= |text|
    ensures forall i :: 0 <= i < |Letters(text)| ==> IsLower(Letters(text)[i])
    ensures forall c :: c in Letters(text) <==> exists i :: 0 <= i < |text| && IsAlpha(text[i]) && Lower(text[i]) == c
    decreases |text|
  {
    if text != [] {
      var prefix := text[..|text| - 1];
      LettersSpec(prefix);
      forall c ensures c in Letters(text) <==> exists i :: 0 <= i < |text| && IsAlpha(text[i]) && Lower(text[i]) == c {
        if c in Letters(prefix) {
          var i :| 0 <= i < |prefix| && IsAlpha(prefix[i]) && Lower(prefix[i]) == c;
          assert text[i] == prefix[i];
        }
        if i :| 0 <= i < |text| && IsAlpha(text[i]) && Lower(text[i]) == c {
          if i < |prefix| {
            assert prefix[i] == text[i];
          }
        }
      }
    }
  }

  /** The distinct elements are exactly the elements, each once. */
  lemma {:induction false} DistinctSpec<T>(s: seq<T>)
    ensures NoDuplicates(Distinct(s))
    ensures forall x :: x in Distinct(s) <==> x in s
    decreases |s|
  {
    if s != [] {
      var prefix := s[..|s| - 1];
      DistinctSpec(prefix);
      assert s == prefix + [Last(s)];
    }
  }

  /** Every count is the letter's number of occurrences in the filtered text, and is positive. */
  lemma FrequencyCounts(text: string)
    ensures var items := FrequencyAnalysis(text);
      forall i :: 0 <= i < |items| ==>
        items[i].1 == multiset(Letters(text))[items[i].0] && items[i].1 > 0
  {
    var letters := Letters(text);
    var keys := Distinct(letters);
    DistinctSpec(letters);
    forall i | 0 <= i < |keys| ensures multiset(letters)[keys[i]] > 0 {
      assert keys[i] in letters;
    }
  }

  /** The sum of the multiplicities of the distinct elements of `s` is the length of `s`. */
  lemma {:induction false} CountTotal(s: string)
    ensures Total(Tally(Distinct(s), multiset(s))) == |s|
    decreases |s|
  {
    if s != [] {
      var prefix := s[..|s| - 1];
      CountTotal(prefix);
      CountTotalStep(s, prefix, Last(s));
    }
  }

  lemma CountTotalStep(s: string, prefix: string, x: char)
    requires s != [] && prefix == s[..|s| - 1] && x == Last(s)
    requires Total(Tally(Distinct(prefix), multiset(prefix))) == |prefix|
    ensures Total(Tally(Distinct(s), multiset(s))) == |s|
  {
    CountTotalFacts(s, prefix, x);
    CountTotalCombine(Distinct(prefix), multiset(prefix), x, Distinct(s), multiset(s));
  }

  lemma CountTotalFacts(s: string, prefix: string, x: char)
    requires s != [] && prefix == s[..|s| - 1] && x == Last(s)
    ensures Distinct(s) == (if x in Distinct(prefix) then Distinct(prefix) else Distinct(prefix) + [x])
    ensures multiset(s) == multiset(prefix) + multiset{x}
    ensures NoDuplicates(Distinct(prefix)) && (x !in Distinct(prefix) ==> multiset(prefix)[x] == 0)
  {
    assert s == prefix + [x];
    DistinctSpec(prefix);
  }

  lemma CountTotalCombine(keys: string, m: multiset<char>, x: char, keys': string, m': multiset<char>)
    requires NoDuplicates(keys) && (x !in keys ==> m[x] == 0)
    requires keys' == (if x in keys then keys else keys + [x]) && m' == m + multiset{x}
    ensures Total(Tally(keys', m')) == Total(Tally(keys, m)) + 1
  {
    TotalBump(keys, m, x);
    if x !in keys {
      CountTotalNew(keys, m, x);
    }
  }

  /** A letter seen for the first time adds an item with count one. */
  lemma CountTotalNew(keys: string, m: multiset<char>, x: char)
    requires m[x] == 0
    ensures Total(Tally(keys + [x], m + multiset{x})) == Total(Tally(keys, m + multiset{x})) + 1
  {
    TallyAppend(keys, x, m + multiset{x});
    TotalAppend(Tally(keys, m + multiset{x}), (x, (m + multiset{x})[x]));
  }

  lemma TallyAppend(keys: string, x: char, counts: multiset<char>)
    ensures Tally(keys + [x], counts) == Tally(keys, counts) + [(x, counts[x])]
  {
  }

  lemma TotalAppend(items: seq<Item>, item: Item)
    ensures Total(items + [item]) == Total(items) + item.1
  {
    assert (items + [item])[..|items|] == items;
  }

  lemma {:induction false} TotalBump(keys: string, m: multiset<char>, x: char)
    requires NoDuplicates(keys)
    ensures Total(Tally(keys, m + multiset{x})) == Total(Tally(keys, m)) + (if x in keys then 1 else 0)
    decreases |keys|
  {
    if keys != [] {
      var prefix := keys[..|keys| - 1];
      var y := Last(keys);
      TotalBump(prefix, m, x);
      assert keys == prefix + [y];
      TallyAppend(prefix, y, m);
      TallyAppend(prefix, y, m + multiset{x});
      TotalAppend(Tally(prefix, m), (y, m[y]));
      TotalAppend(Tally(prefix, m + multiset{x}), (y, (m + multiset{x})[y]));
      assert x in keys <==> x in prefix || x == y;
      assert x == y ==> x !in prefix;
    }
  }

  // ---------------------------------------------------------------------------------------
  // sorted(items, key=lambda x: x[1], reverse=True)
  // ---------------------------------------------------------------------------------------

  /** Non-increasing counts. */
  predicate SortedByCount(s: seq<Item>)
  {
    forall i, j :: 0 <= i < j < |s| ==> s[i].1 >= s[j].1
  }

  /** Places `x` after every item whose count is at least its own. */
  function Insert(s: seq<Item>, x: Item): seq<Item>
  {
    if s == [] then [x]
    else if s[0].1 < x.1 then [x] + s
    else [s[0]] + Insert(s[1..], x)
  }

  /** Python's stable `sorted` by count with `reverse=True`: items are inserted one after
      another, each behind the items already placed whose count is not smaller. */
  function SortByCount(s: seq<Item>): seq<Item>
  {
    if s == [] then [] else Insert(SortByCount(s[..|s| - 1]), Last(s))
  }

  /** The items with count `v`, in order. */
  function WithCount(s: seq<Item>, v: nat): seq<Item>
  {
    if s == [] then [] else (if s[0].1 == v then [s[0]] else []) + WithCount(s[1..], v)
  }

  lemma {:induction false} InsertSpec(s: seq<Item>, x: Item)
    requires SortedByCount(s)
    ensures SortedByCount(Insert(s, x))
    ensures multiset(Insert(s, x)) == multiset(s) + multiset{x}
  {
    InsertPermutes(s, x);
    InsertSorted(s, x);
  }

  lemma {:induction false} InsertPermutes(s: seq<Item>, x: Item)
    ensures multiset(Insert(s, x)) == multiset(s) + multiset{x}
    decreases |s|
  {
    if s != [] {
      assert s == [s[0]] + s[1..];
      if s[0].1 >= x.1 {
        InsertPermutes(s[1..], x);
      }
    }
  }

  lemma {:induction false} InsertSorted(s: seq<Item>, x: Item)
    requires SortedByCount(s)
    ensures SortedByCount(Insert(s, x))
    decreases |s|
  {
    if s != [] && s[0].1 >= x.1 {
      var tail := s[1..];
      InsertSorted(tail, x);
      InsertPermutes(tail, x);
      var r := Insert(tail, x);
      forall k | 0 <= k < |r| ensures s[0].1 >= r[k].1 {
        assert r[k] in multiset(r);
        if r[k] != x {
          assert r[k] in multiset(tail);
          var j :| 0 <= j < |tail| && tail[j] == r[k];
          assert s[j + 1] == r[k];
        }
      }
      assert Insert(s, x) == [s[0]] + r;
    }
  }

  lemma {:induction false} WithCountAppend(a: seq<Item>, b: seq<Item>, v: nat)
    ensures WithCount(a + b, v) == WithCount(a, v) + WithCount(b, v)
    decreases |a|
  {
    if a != [] {
      assert (a + b)[1..] == a[1..] + b;
      WithCountAppend(a[1..], b, v);
    } else {
      assert a + b == b;
    }
  }

  /** In sorted input, the items with the count of `x` all come before the place `x` goes. */
  lemma {:induction false} InsertWithCount(s: seq<Item>, x: Item, v: nat)
    requires SortedByCount(s)
    ensures WithCount(Insert(s, x), v) == WithCount(s, v) + (if x.1 == v then [x] else [])
    decreases |s|
  {
    if s == [] {
      WithCountCons(x, [], v);
    } else if s[0].1 < x.1 {
      WithCountCons(x, s, v);
      if x.1 == v {
        NoneWithCount(s, v);
      }
    } else {
      SortedTail(s);
      InsertWithCount(s[1..], x, v);
      WithCountCons(s[0], Insert(s[1..], x), v);
    }
  }

  lemma WithCountCons(h: Item, r: seq<Item>, v: nat)
    ensures WithCount([h] + r, v) == (if h.1 == v then [h] else []) + WithCount(r, v)
  {
    assert ([h] + r)[1..] == r;
  }

  lemma SortedTail(s: seq<Item>)
    requires s != [] && SortedByCount(s)
    ensures SortedByCount(s[1..])
  {
    forall i, j | 0 <= i < j < |s[1..]| ensures s[1..][i].1 >= s[1..][j].1 {
      assert s[1..][i] == s[i + 1] && s[1..][j] == s[j + 1];
    }
  }

  lemma {:induction false} NoneWithCount(s: seq<Item>, v: nat)
    requires forall i :: 0 <= i < |s| ==> s[i].1 < v
    ensures WithCount(s, v) == []
    decreases |s|
  {
    if s != [] {
      NoneWithCount(s[1..], v);
    }
  }

  /** The sort orders by non-increasing count, is a permutation, and keeps the input order of
      the items with equal counts (stability). */
  lemma {:induction false} SortSpec(s: seq<Item>)
    ensures SortedByCount(SortByCount(s))
    ensures multiset(SortByCount(s)) == multiset(s)
    ensures forall v :: WithCount(SortByCount(s), v) == WithCount(s, v)
    decreases |s|
  {
    if s != [] {
      var prefix := s[..|s| - 1];
      SortSpec(prefix);
      InsertSpec(SortByCount(prefix), Last(s));
      assert s == prefix + [Last(s)];
      forall v ensures WithCount(SortByCount(s), v) == WithCount(s, v) {
        InsertWithCount(SortByCount(prefix), Last(s), v);
        WithCountAppend(prefix, [Last(s)], v);
        assert WithCount([Last(s)], v) == (if Last(s).1 == v then [Last(s)] else []) + WithCount([], v);
      }
    }
  }

  /** Input that is already in order comes back unchanged. */
  lemma {:induction false} SortOfSorted(s: seq<Item>)
    requires SortedByCount(s)
    ensures SortByCount(s) == s
    decreases |s|
  {
    if s != [] {
      var prefix := s[..|s| - 1];
      SortOfSorted(prefix);
      InsertAtEnd(prefix, Last(s));
      assert s == prefix + [Last(s)];
    }
  }

  lemma {:induction false} InsertAtEnd(s: seq<Item>, x: Item)
    requires forall i :: 0 <= i < |s| ==> s[i].1 >= x.1
    ensures Insert(s, x) == s + [x]
    decreases |s|
  {
    if s != [] {
      InsertAtEnd(s[1..], x);
      assert s == [s[0]] + s[1..];
    }
  }

  // ---------------------------------------------------------------------------------------
  // substitution_bruteforce
  // ---------------------------------------------------------------------------------------

  /** The English letter frequencies of `substitution_bruteforce`, in tenths of a percent and
      in the order the dictionary lists them. */
  const EngFreq: seq<Item> := [
    ('e', 127), ('t', 91), ('a', 82), ('o', 75), ('i', 70), ('n', 67), ('s', 63), ('h', 61),
    ('r', 60), ('d', 43), ('l', 40), ('c', 28), ('u', 28), ('m', 24), ('w', 24), ('f', 22),
    ('g', 20), ('y', 20), ('p', 19), ('b', 15), ('v', 10), ('k', 8), ('j', 2), ('x', 2),
    ('q', 1), ('z', 1)
  ]

  /** The English letters from most to least frequent: `sorted_eng_chars`. */
  function EngOrder(): string
  {
    Keys(SortByCount(EngFreq))
  }

  /** Rank `i` of the text's letters is mapped to rank `i` of the English letters, for as
      many ranks as there are English letters; later assignments overwrite earlier ones. */
  function RankMapping(chars: string, eng: string): map<char, string>
  {
    if chars == [] then map[]
    else
      var m := RankMapping(chars[..|chars| - 1], eng);
      var i := |chars| - 1;
      if i < |eng| then m[chars[i] := [eng[i]]] else m
  }

  /** The mapping `substitution_bruteforce` applies: the frequency ranks, overridden by the
      known patterns. */
  function Mapping(text: string, known: map<char, string>): map<char, string>
  {
    RankMapping(Keys(SortByCount(FrequencyAnalysis(text))), EngOrder()) + known
  }

  /** Each character replaced by its image, or kept when the mapping has none. */
  function ApplyMapping(s: string, mapping: map<char, string>): string
  {
    if s == [] then []
    else
      var c := Last(s);
      ApplyMapping(s[..|s| - 1], mapping) + (if c in mapping then mapping[c] else [c])
  }

  /** Known patterns that each replace a letter by one character. */
  predicate SinglePatterns(known: map<char, string>)
  {
    forall c :: c in known ==> |known[c]| == 1
  }

  /** What `substitution_bruteforce(text, known)` returns: "" for an empty text. With
      single-character known patterns the decoded text is as long as the input, each character
      is replaced by the image of its lower-case form, and every non-letter is kept unless a
      known pattern names it. */
  function Substitution(text: string, known: map<char, string>): (r: string)
    ensures text == [] ==> r == []
    ensures SinglePatterns(known) ==> |r| == |text|
    ensures SinglePatterns(known) ==> forall i :: 0 <= i < |text| ==> var c := Lower(text[i]);
      if c in Mapping(text, known) then Mapping(text, known)[c] == [r[i]] else r[i] == c
    ensures SinglePatterns(known) ==> forall i :: 0 <= i < |text| && !IsAlpha(text[i]) && text[i] !in known ==>
      r[i] == text[i]
  {
    if text == [] then []
    else
      SinglePatternsApplied(text, known);
      ApplyMapping(LowerString(text), Mapping(text, known))
  }

  /** `substitution_bruteforce(text, known_patterns)`: a loop that builds the rank mapping, the
      update with the known patterns, and a loop that rewrites the lower-cased text. */
  method SubstitutionBruteforce(text: string, known: map<char, string>) returns (result: string)
    ensures result == Substitution(text, known)
  {
    if |text| == 0 {
      return "";
    }
    var freq := FrequencyAnalysis(text);
    var sortedChars := Keys(SortByCount(freq));
    var sortedEng := EngOrder();
    var mapping := RankLetters(sortedChars, sortedEng);
    mapping := mapping + known;
    result := Rewrite(LowerString(text), mapping);
  }

  /** The first loop of `substitution_bruteforce`: rank `i` of the text's letters is mapped to
      rank `i` of the English letters. */
  method RankLetters(sortedChars: string, sortedEng: string) returns (mapping: map<char, string>)
    ensures mapping == RankMapping(sortedChars, sortedEng)
  {
    mapping := map[];
    for i := 0 to |sortedChars|
      invariant mapping == RankMapping(sortedChars[..i], sortedEng)
    {
      assert sortedChars[..i + 1][..i] == sortedChars[..i];
      if i < |sortedEng| {
        mapping := mapping[sortedChars[i] := [sortedEng[i]]];
      }
    }
    assert sortedChars[..|sortedChars|] == sortedChars;
  }

  /** The second loop of `substitution_bruteforce`, over the lower-cased text: each character
      is replaced by its image, or kept when the mapping has none. */
  method Rewrite(lowered: string, mapping: map<char, string>) returns (result: string)
    requires forall k :: 0 <= k < |lowered| ==> !IsUpper(lowered[k])
    ensures result == ApplyMapping(lowered, mapping)
  {
    result := "";
    for k := 0 to |lowered|
      invariant result == ApplyMapping(lowered[..k], mapping)
    {
      var c := lowered[k];
      assert lowered[..k + 1][..k] == lowered[..k];
      if c in mapping {
        // The text was lower-cased, so the case-restoring branch never runs.
        if IsUpper(c) {
          assert false;
        } else {
          result := result + mapping[c];
        }
      } else {
        result := result + [c];
      }
    }
    assert lowered[..|lowered|] == lowered;
  }

  /** The English table is listed in non-increasing order already, so the stable sort keeps
      it: `sorted_eng_chars` is "etaoinshrdlcumwfgypbvkjxqz". */
  lemma EngOrderValue()
    ensures EngOrder() == "etaoinshrdlcumwfgypbvkjxqz"
  {
    EngFreqAdjacent();
    AdjacentSorted(EngFreq);
    SortOfSorted(EngFreq);
    EngFreqKeys();
  }

  lemma EngFreqAdjacent()
    ensures forall i :: 0 < i < |EngFreq| ==> EngFreq[i - 1].1 >= EngFreq[i].1
  {
  }

  lemma EngFreqKeys()
    ensures Keys(EngFreq) == "etaoinshrdlcumwfgypbvkjxqz"
  {
  }

  lemma {:induction false} AdjacentSorted(s: seq<Item>)
    requires forall i :: 0 < i < |s| ==> s[i - 1].1 >= s[i].1
    ensures SortedByCount(s)
  {
    forall i, j | 0 <= i < j < |s| ensures s[i].1 >= s[j].1 {
      AdjacentSortedFrom(s, i, j);
    }
  }

  lemma {:induction false} AdjacentSortedFrom(s: seq<Item>, i: nat, j: nat)
    requires forall k :: 0 < k < |s| ==> s[k - 1].1 >= s[k].1
    requires i <= j < |s|
    ensures s[i].1 >= s[j].1
    decreases j - i
  {
    if i < j {
      AdjacentSortedFrom(s, i, j - 1);
    }
  }

  /** With distinct letters, rank `i` maps to English rank `i`, and only ranked letters are
      mapped. */
  lemma {:induction false} RankMappingSpec(chars: string, eng: string)
    requires NoDuplicates(chars)
    ensures forall i :: 0 <= i < |chars| && i < |eng| ==>
      chars[i] in RankMapping(chars, eng) && RankMapping(chars, eng)[chars[i]] == [eng[i]]
    ensures forall c :: c in RankMapping(chars, eng) <==>
      exists i :: 0 <= i < |chars| && i < |eng| && chars[i] == c
    decreases |chars|
  {
    if chars != [] {
      var prefix := chars[..|chars| - 1];
      RankMappingSpec(prefix, eng);
      var m := RankMapping(chars, eng);
      forall i | 0 <= i < |chars| && i < |eng| ensures chars[i] in m && m[chars[i]] == [eng[i]] {
        if i < |prefix| {
          assert prefix[i] == chars[i] != Last(chars);
        }
      }
      forall c | c in m ensures exists i :: 0 <= i < |chars| && i < |eng| && chars[i] == c {
        if c in RankMapping(prefix, eng) {
          var i :| 0 <= i < |prefix| && i < |eng| && prefix[i] == c;
          assert chars[i] == c;
        } else {
          assert chars[|chars| - 1] == c;
        }
      }
      forall c | exists i :: 0 <= i < |chars| && i < |eng| && chars[i] == c ensures c in m {
        var i :| 0 <= i < |chars| && i < |eng| && chars[i] == c;
        if i < |prefix| {
          assert prefix[i] == c;
        }
      }
    }
  }

  /** A sequence has no duplicates exactly when no element occurs twice in its multiset. */
  lemma {:induction false} NoDuplicatesMultiset<T>(s: seq<T>)
    ensures NoDuplicates(s) <==> forall x :: multiset(s)[x] <= 1
    decreases |s|
  {
    if s != [] {
      NoDuplicatesMultiset(s[1..]);
      if NoDuplicates(s) {
        DistinctCons(s);
      } else {
        RepeatCounted(s);
      }
    }
  }

  /** A distinct sequence is its head before a distinct tail that lacks the head. */
  lemma DistinctCons<T>(s: seq<T>)
    requires s != [] && NoDuplicates(s)
    ensures NoDuplicates(s[1..]) && s[0] !in s[1..]
    ensures multiset(s) == multiset{s[0]} + multiset(s[1..])
  {
    assert s == [s[0]] + s[1..];
    forall i, j | 0 <= i < j < |s[1..]| ensures s[1..][i] != s[1..][j] {
      assert s[1..][i] == s[i + 1] && s[1..][j] == s[j + 1];
    }
    forall k | 0 <= k < |s[1..]| ensures s[1..][k] != s[0] {
      assert s[1..][k] == s[k + 1];
    }
  }

  /** An element that occurs twice is counted twice. */
  lemma RepeatCounted<T>(s: seq<T>)
    requires !NoDuplicates(s)
    ensures exists x :: multiset(s)[x] > 1
  {
    var i, j :| 0 <= i < j < |s| && s[i] == s[j];
    assert s == s[..j] + s[j..];
    assert s[..j][i] == s[i] && s[j..][0] == s[j];
    assert multiset(s)[s[i]] == multiset(s[..j])[s[i]] + multiset(s[j..])[s[i]];
  }

  /** Reordering an item list with distinct letters keeps its letters distinct and the same. */
  lemma {:induction false} PermutedKeys(a: seq<Item>, b: seq<Item>)
    requires multiset(a) == multiset(b) && NoDuplicates(Keys(a))
    ensures NoDuplicates(Keys(b))
    ensures forall c :: c in Keys(b) <==> c in Keys(a)
  {
    ItemsDistinct(a);
    NoDuplicatesMultiset(a);
    NoDuplicatesMultiset(b);
    forall i, j | 0 <= i < j < |b| ensures Keys(b)[i] != Keys(b)[j] {
      assert b[i] in multiset(a) && b[j] in multiset(a) by {
        assert b[i] in multiset(b) && b[j] in multiset(b);
      }
      var p :| 0 <= p < |a| && a[p] == b[i];
      var q :| 0 <= q < |a| && a[q] == b[j];
      assert Keys(a)[p] == a[p].0 && Keys(a)[q] == a[q].0;
    }
    forall c ensures c in Keys(b) <==> c in Keys(a) {
      if c in Keys(b) {
        var i :| 0 <= i < |b| && Keys(b)[i] == c;
        assert b[i] in multiset(b);
        var p :| 0 <= p < |a| && a[p] == b[i];
        assert Keys(a)[p] == c;
      }
      if c in Keys(a) {
        var p :| 0 <= p < |a| && Keys(a)[p] == c;
        assert a[p] in multiset(a);
        var i :| 0 <= i < |b| && b[i] == a[p];
        assert Keys(b)[i] == c;
      }
    }
  }

  lemma {:induction false} ItemsDistinct(a: seq<Item>)
    requires NoDuplicates(Keys(a))
    ensures NoDuplicates(a)
  {
    forall i, j | 0 <= i < j < |a| ensures a[i] != a[j] {
      assert Keys(a)[i] == a[i].0 && Keys(a)[j] == a[j].0;
    }
  }

  /** The ranked letters of a text are its distinct letters, each once. */
  lemma RankedLetters(text: string)
    ensures var ranked := Keys(SortByCount(FrequencyAnalysis(text)));
      NoDuplicates(ranked) && forall c :: c in ranked <==> c in Letters(text)
  {
    var freq := FrequencyAnalysis(text);
    SortSpec(freq);
    PermutedKeys(freq, SortByCount(freq));
  }

  /** The 26 lower-case ASCII letters. */
  const LowerCase: seq<char> := seq(26, i requires 0 <= i < 26 => (97 + i) as char)

  /** A duplicate-free sequence drawn from another sequence is no longer than it. */
  lemma {:induction false} DistinctWithin<T>(s: seq<T>, pool: seq<T>)
    requires NoDuplicates(s) && forall i :: 0 <= i < |s| ==> s[i] in pool
    ensures |s| <= |pool|
    decreases |s|
  {
    if s != [] {
      var tail := s[1..];
      var k :| 0 <= k < |pool| && pool[k] == s[0];
      var rest := pool[..k] + pool[k + 1..];
      forall i | 0 <= i < |tail| ensures tail[i] in rest {
        assert tail[i] == s[i + 1] != s[0];
        var p :| 0 <= p < |pool| && pool[p] == tail[i];
        if p < k {
          assert rest[p] == pool[p];
        } else {
          assert rest[p - 1] == pool[p];
        }
      }
      assert NoDuplicates(tail) by {
        forall i, j | 0 <= i < j < |tail| ensures tail[i] != tail[j] {
          assert tail[i] == s[i + 1] && tail[j] == s[j + 1];
        }
      }
      DistinctWithin(tail, rest);
    }
  }

  /** There are at most 26 ranked letters, so the guard `i < len(sorted_eng_chars)` of the
      mapping loop always holds. */
  lemma RankedAtMost26(text: string)
    ensures |Keys(SortByCount(FrequencyAnalysis(text)))| <= 26 == |EngOrder()|
  {
    var ranked := Keys(SortByCount(FrequencyAnalysis(text)));
    var letters := Letters(text);
    RankedLetters(text);
    LettersSpec(text);
    LowerCaseLetters(ranked, letters);
    DistinctWithin(ranked, LowerCase);
    EngOrderLength();
  }

  /** Characters found among lower-case letters are among the 26 lower-case letters. */
  lemma LowerCaseLetters(ranked: string, letters: string)
    requires forall c :: c in ranked ==> c in letters
    requires forall i :: 0 <= i < |letters| ==> IsLower(letters[i])
    ensures forall i :: 0 <= i < |ranked| ==> ranked[i] in LowerCase
  {
    forall i | 0 <= i < |ranked| ensures ranked[i] in LowerCase {
      assert ranked[i] in letters;
      var j :| 0 <= j < |letters| && letters[j] == ranked[i];
      assert IsLower(letters[j]);
      assert LowerCase[letters[j] as int - 97] == letters[j];
    }
  }

  lemma EngOrderLength()
    ensures |EngOrder()| == 26
  {
    EngOrderValue();
  }

  /** The mapping sends the letter of rank `i` to the English letter of rank `i` unless a known
      pattern overrides it, sends a known character to its pattern, and maps nothing but the
      text's letters and the known characters. */
  lemma MappingSpec(text: string, known: map<char, string>)
    ensures |Keys(SortByCount(FrequencyAnalysis(text)))| <= |EngOrder()|
    ensures var ranked := Keys(SortByCount(FrequencyAnalysis(text)));
      forall i :: 0 <= i < |ranked| && ranked[i] !in known ==>
        ranked[i] in Mapping(text, known) && Mapping(text, known)[ranked[i]] == [EngOrder()[i]]
    ensures forall c :: c in known ==> Mapping(text, known)[c] == known[c]
    ensures forall c :: c in Mapping(text, known) <==> c in known || c in Letters(text)
  {
    var ranked := Keys(SortByCount(FrequencyAnalysis(text)));
    RankedLetters(text);
    RankedAtMost26(text);
    RankMappingSpec(ranked, EngOrder());
    var rank := RankMapping(ranked, EngOrder());
    forall c ensures c in rank <==> c in Letters(text) {
      if c in Letters(text) {
        var i :| 0 <= i < |ranked| && ranked[i] == c;
      }
    }
  }

  /** The letter that comes first is one of the most frequent letters of the text, and it is
      decoded as 'e' unless a known pattern says otherwise. */
  lemma MostFrequentIsE(text: string, known: map<char, string>)
    requires Letters(text) != []
    ensures var ranked := Keys(SortByCount(FrequencyAnalysis(text)));
      |ranked| > 0
      && (forall c :: c in Letters(text) ==>
            multiset(Letters(text))[c] <= multiset(Letters(text))[ranked[0]])
      && (ranked[0] !in known ==>
            ranked[0] in Mapping(text, known) && Mapping(text, known)[ranked[0]] == "e")
  {
    TopIsMostFrequent(text);
    TopMapsToE(text, known);
  }

  lemma TopIsMostFrequent(text: string)
    requires Letters(text) != []
    ensures var ranked := Keys(SortByCount(FrequencyAnalysis(text)));
      |ranked| > 0
      && forall c :: c in Letters(text) ==>
           multiset(Letters(text))[c] <= multiset(Letters(text))[ranked[0]]
  {
    var freq := FrequencyAnalysis(text);
    var letters := Letters(text);
    SortSpec(freq);
    FrequencyCounts(text);
    TopOfSorted(freq, SortByCount(freq), letters);
  }

  /** The first item of a list sorted by count, holding the same items as a tally of
      `letters`, has a count no letter exceeds. */
  lemma TopOfSorted(freq: seq<Item>, sorted: seq<Item>, letters: string)
    requires letters != []
    requires forall c :: c in Keys(freq) <==> c in letters
    requires forall i :: 0 <= i < |freq| ==> freq[i].1 == multiset(letters)[freq[i].0]
    requires SortedByCount(sorted) && multiset(sorted) == multiset(freq)
    ensures |Keys(sorted)| > 0
    ensures forall c :: c in letters ==> multiset(letters)[c] <= multiset(letters)[Keys(sorted)[0]]
  {
    assert letters[0] in Keys(freq);
    assert |sorted| == |freq| > 0 by {
      assert |multiset(sorted)| == |multiset(freq)|;
    }
    assert sorted[0] in multiset(freq) by {
      assert sorted[0] in multiset(sorted);
    }
    var top :| 0 <= top < |freq| && freq[top] == sorted[0];
    forall c | c in letters ensures multiset(letters)[c] <= multiset(letters)[sorted[0].0] {
      var p :| 0 <= p < |freq| && Keys(freq)[p] == c;
      assert freq[p] in multiset(sorted) by {
        assert freq[p] in multiset(freq);
      }
      var i :| 0 <= i < |sorted| && sorted[i] == freq[p];
      if i > 0 {
        assert sorted[0].1 >= sorted[i].1;
      }
    }
  }

  lemma TopMapsToE(text: string, known: map<char, string>)
    requires |Keys(SortByCount(FrequencyAnalysis(text)))| > 0
    ensures var ranked := Keys(SortByCount(FrequencyAnalysis(text)));
      ranked[0] !in known ==> ranked[0] in Mapping(text, known) && Mapping(text, known)[ranked[0]] == "e"
  {
    MappingSpec(text, known);
    EngOrderValue();
  }

  /** Each character of the result is the image of the matching lower-cased character of the
      text, when every pattern is a single character. */
  lemma {:induction false} ApplySingle(s: string, mapping: map<char, string>)
    requires forall c :: c in mapping ==> |mapping[c]| == 1
    ensures |ApplyMapping(s, mapping)| == |s|
    ensures forall i :: 0 <= i < |s| ==>
      ApplyMapping(s, mapping)[i] == if s[i] in mapping then mapping[s[i]][0] else s[i]
    decreases |s|
  {
    if s != [] {
      var prefix := s[..|s| - 1];
      ApplySingle(prefix, mapping);
      forall i | 0 <= i < |prefix| ensures prefix[i] == s[i] {
      }
    }
  }

  /** With single-character known patterns every image of the mapping is one character, so
      the rewritten text keeps the length and the positions of the lower-cased text. */
  lemma SinglePatternsApplied(text: string, known: map<char, string>)
    requires text != []
    ensures SinglePatterns(known) ==> forall c :: c in Mapping(text, known) ==> |Mapping(text, known)[c]| == 1
    ensures var r := ApplyMapping(LowerString(text), Mapping(text, known));
      SinglePatterns(known) ==> (
        && |r| == |text|
        && (forall i :: 0 <= i < |text| ==> var c := Lower(text[i]);
              if c in Mapping(text, known) then Mapping(text, known)[c] == [r[i]] else r[i] == c)
        && (forall i :: 0 <= i < |text| && !IsAlpha(text[i]) && text[i] !in known ==> r[i] == text[i]))
  {
    if SinglePatterns(known) {
      MappingImagesSingle(text, known);
      ApplySingle(LowerString(text), Mapping(text, known));
      NonLettersUnmapped(text, known);
    }
  }

  lemma MappingImagesSingle(text: string, known: map<char, string>)
    requires SinglePatterns(known)
    ensures forall c :: c in Mapping(text, known) ==> |Mapping(text, known)[c]| == 1
  {
    var m := Mapping(text, known);
    var ranked := Keys(SortByCount(FrequencyAnalysis(text)));
    MappingSpec(text, known);
    RankedLetters(text);
    forall c | c in m ensures |m[c]| == 1 {
      if c !in known {
        var i :| 0 <= i < |ranked| && ranked[i] == c;
      }
    }
  }

  /** A non-letter that no known pattern names has no image. */
  lemma NonLettersUnmapped(text: string, known: map<char, string>)
    ensures forall i :: 0 <= i < |text| && !IsAlpha(text[i]) && text[i] !in known ==>
      text[i] !in Mapping(text, known)
  {
    MappingSpec(text, known);
    LettersSpec(text);
    forall i | 0 <= i < |text| && !IsAlpha(text[i]) && text[i] !in known
      ensures text[i] !in Mapping(text, known)
    {
      forall j | 0 <= j < |text| && IsAlpha(text[j]) ensures Lower(text[j]) != text[i] {
      }
    }
  }
}
