/** The metrics computer: length, palindrome flag, distinct-character count,
    word count, content hash and character-frequency map of a string. The hash
    function itself is a parameter. */
module AnalyzeService {
  import opened Text
  import opened Records

  // ---------------------------------------------------------------- palindrome

  /** The cleaned string reads the same backwards, up to ASCII case. */
  predicate MirrorsIgnoringCase(s: string)
  {
    forall i :: 0 <= i < |s| ==> ToLowerAscii(s[i]) == ToLowerAscii(s[|s| - 1 - i])
  }

  /** A blank input is not a palindrome. Otherwise the input is a palindrome
      exactly when its ASCII letters and digits, in order, read the same
      backwards up to ASCII case; punctuation, spaces and every other character
      are ignored. */
  function IsPalindrome(input: string): (r: bool)
    ensures IsBlank(input) ==> !r
    ensures !IsBlank(input) ==> (r <==> MirrorsIgnoringCase(Where(input, IsAsciiAlphanumeric)))
  {
    if IsBlank(input) then false
    else
      var cleaned := Where(input, IsAsciiAlphanumeric);
      var reversed := Reverse(cleaned);
      EqualsIgnoreCase(cleaned, reversed)
  }

  /** A non-blank input without a single ASCII letter or digit is reported as a
      palindrome: its cleaned form is empty, and so equals its reverse. */
  lemma PunctuationOnlyIsPalindrome(input: string)
    requires !IsBlank(input)
    requires forall i :: 0 <= i < |input| ==> !IsAsciiAlphanumeric(input[i])
    ensures IsPalindrome(input)
  {
  }

  /** The palindrome flag ignores ASCII case. */
  lemma {:induction false} PalindromeIgnoresCase(input: string)
    ensures IsPalindrome(ToLowerInvariant(input)) == IsPalindrome(input)
  {
    var lower := ToLowerInvariant(input);
    assert IsBlank(lower) == IsBlank(input) by {
      forall i | 0 <= i < |input|
        ensures IsWhiteSpace(lower[i]) == IsWhiteSpace(input[i])
      {
      }
    }
    CleanedLowered(input);
  }

  /** Cleaning a lower-cased string yields the lower-cased cleaned string. */
  lemma {:induction false} CleanedLowered(s: string)
    ensures Where(ToLowerInvariant(s), IsAsciiAlphanumeric) == ToLowerInvariant(Where(s, IsAsciiAlphanumeric))
    decreases |s|
  {
    if s == [] {
      assert ToLowerInvariant(s) == [];
    } else {
      var c := s[0];
      var rest := Where(s[1..], IsAsciiAlphanumeric);
      ToLowerInvariantCons(s);
      var lower := ToLowerInvariant(s);
      assert lower[0] == ToLowerAscii(c) && lower[1..] == ToLowerInvariant(s[1..]);
      assert IsAsciiAlphanumeric(ToLowerAscii(c)) == IsAsciiAlphanumeric(c);
      CleanedLowered(s[1..]);
      if IsAsciiAlphanumeric(c) {
        assert Where(s, IsAsciiAlphanumeric) == [c] + rest;
        ToLowerInvariantCons([c] + rest);
        assert ([c] + rest)[1..] == rest;
      } else {
        assert Where(s, IsAsciiAlphanumeric) == rest;
      }
    }
  }

  /** For a word made of ASCII letters and digits only, the palindrome flag
      is the case-insensitive mirror test on the word itself. */
  lemma AlphanumericWordPalindrome(w: string)
    requires w != [] && forall i :: 0 <= i < |w| ==> IsAsciiAlphanumeric(w[i])
    ensures IsPalindrome(w) <==> MirrorsIgnoringCase(w)
  {
    WhereKeepsAll(w, IsAsciiAlphanumeric);
    assert !IsWhiteSpace(w[0]);
  }

  /** The palindromes of the store-and-fetch and natural-language tests. */
  lemma PalindromeExamples(w: string)
    requires w == "racecar" || w == "madam"
    ensures IsPalindrome(w)
  {
    if w == "racecar" {
      assert MirrorsIgnoringCase("racecar");
      AlphanumericWordPalindrome("racecar");
    } else {
      assert MirrorsIgnoringCase("madam");
      AlphanumericWordPalindrome("madam");
    }
  }

  /** The palindromes of the query-parameter filter test. */
  lemma FilterTestPalindromes(w: string)
    requires w == "level" || w == "stats"
    ensures IsPalindrome(w)
  {
    if w == "level" {
      assert MirrorsIgnoringCase("level");
      AlphanumericWordPalindrome("level");
    } else {
      assert MirrorsIgnoringCase("stats");
      AlphanumericWordPalindrome("stats");
    }
  }

  /** The words the integration tests store and expect not to be palindromes. */
  lemma NonPalindromeExamples(w: string)
    requires w == "hello" || w == "world" || w == "test"
    ensures !IsPalindrome(w)
  {
    if w == "hello" {
      AlphanumericWordPalindrome("hello");
      assert ToLowerAscii(w[0]) != ToLowerAscii(w[4]);
    } else if w == "world" {
      AlphanumericWordPalindrome("world");
      assert ToLowerAscii(w[0]) != ToLowerAscii(w[4]);
    } else {
      AlphanumericWordPalindrome("test");
      assert ToLowerAscii(w[1]) != ToLowerAscii(w[2]);
    }
  }

  // --------------------------------------------------------------- word count

  /** The characters CountWords splits at: space, tab, line feed, carriage return. */
  predicate IsWordSeparator(c: char)
  {
    c == ' ' || c == '\t' || c == '\n' || c == '\r'
  }

  /** The index just past the run of non-separators that starts at p. */
  function WordEnd(s: string, p: nat): (q: nat)
    requires p <= |s|
    ensures p <= q <= |s|
    ensures forall i :: p <= i < q ==> !IsWordSeparator(s[i])
    ensures q == |s| || IsWordSeparator(s[q])
    decreases |s| - p
  {
    if p < |s| && !IsWordSeparator(s[p]) then WordEnd(s, p + 1) else p
  }

  /** Splitting at the four separators and dropping the empty pieces
      (string.Split with StringSplitOptions.RemoveEmptyEntries). */
  function SplitWords(s: string): (words: seq<string>)
    ensures forall k :: 0 <= k < |words| ==> words[k] != []
    ensures forall k, i :: 0 <= k < |words| && 0 <= i < |words[k]| ==> !IsWordSeparator(words[k][i])
    decreases |s|
  {
    if s == [] then []
    else if IsWordSeparator(s[0]) then SplitWords(s[1..])
    else
      var n := WordEnd(s, 0);
      [s[..n]] + SplitWords(s[n..])
  }

  /** A reference count of words: scanning left to right, one more each time a
      non-separator follows a separator or the start of the string. inWord
      says whether the previous character was part of a word. */
  function WordStarts(s: string, inWord: bool): nat
  {
    if s == [] then 0
    else if IsWordSeparator(s[0]) then WordStarts(s[1..], false)
    else (if inWord then 0 else 1) + WordStarts(s[1..], true)
  }

  lemma {:induction false} WordStartsBound(s: string, inWord: bool)
    ensures WordStarts(s, inWord) <= |s|
  {
    if s != [] {
      WordStartsBound(s[1..], !IsWordSeparator(s[0]));
    }
  }

  /** Inside a word, skipping the rest of the word starts no new word. */
  lemma {:induction false} WordStartsSkip(s: string, k: nat)
    requires k <= |s|
    requires forall i :: 0 <= i < k ==> !IsWordSeparator(s[i])
    ensures WordStarts(s, true) == WordStarts(s[k..], true)
  {
    if k > 0 {
      WordStartsSkip(s[1..], k - 1);
      assert s[1..][k - 1..] == s[k..];
    }
  }

  /** The pieces of the split are exactly the maximal runs of non-separators:
      there are as many of them as word starts. */
  lemma {:induction false} SplitWordsCountsRuns(s: string)
    ensures |SplitWords(s)| == WordStarts(s, false)
    decreases |s|
  {
    if s == [] {
    } else if IsWordSeparator(s[0]) {
      SplitWordsCountsRuns(s[1..]);
    } else {
      var n := WordEnd(s, 0);
      SplitWordsCountsRuns(s[n..]);
      WordStartsSkip(s[1..], n - 1);
      assert s[1..][n - 1..] == s[n..];
      if n < |s| {
        assert WordStarts(s[n..], true) == WordStarts(s[n..][1..], false);
        assert WordStarts(s[n..], false) == WordStarts(s[n..][1..], false);
      }
    }
  }

  /** The number of words: 0 for the empty string, otherwise the number of
      maximal runs of characters other than space, tab, LF and CR. */
  function CountWords(input: string): (r: nat)
    ensures r == WordStarts(input, false)
    ensures r <= |input|
  {
    SplitWordsCountsRuns(input);
    WordStartsBound(input, false);
    if input == [] then 0 else |SplitWords(input)|
  }

  // ------------------------------------------------------ character frequency

  /** The distinct characters of s. */
  function DistinctCharacters(s: string): set<char>
  {
    set c | c in s
  }

  /** The frequency map of s, built one character at a time: the key of each
      character (the one-character string) gets one more occurrence, or 1 when
      it is new. */
  function CharacterFrequency(s: string): (m: map<string, int>)
    decreases |s|
  {
    if s == [] then map[]
    else
      var m := CharacterFrequency(s[..|s| - 1]);
      var key := [s[|s| - 1]];
      m[key := if key in m then m[key] + 1 else 1]
  }

  /** The keys of the frequency map are exactly the distinct characters of the
      input, each as a one-character string, and each is mapped to the number
      of its occurrences, which is at least 1. */
  lemma {:induction false} FrequencyCountsOccurrences(s: string)
    ensures forall k :: k in CharacterFrequency(s) ==> |k| == 1
    ensures forall c :: [c] in CharacterFrequency(s) <==> c in s
    ensures forall c :: [c] in CharacterFrequency(s) ==> CharacterFrequency(s)[[c]] == multiset(s)[c] >= 1
    decreases |s|
  {
    if s != [] {
      var p, last := s[..|s| - 1], s[|s| - 1];
      assert s == p + [last];
      FrequencyCountsOccurrences(p);
      assert multiset(s) == multiset(p) + multiset{last};
      forall c
        ensures [c] in CharacterFrequency(s) <==> c in s
      {
        assert [c] == [last] <==> c == last;
      }
    }
  }

  /** ComputeCharacterFrequency: one pass over the input, bumping the count of
      each character's key or inserting it with count 1. */
  method ComputeCharacterFrequency(input: string) returns (frequencyMap: map<string, int>)
    ensures frequencyMap == CharacterFrequency(input)
  {
    frequencyMap := map[];
    for i := 0 to |input|
      invariant frequencyMap == CharacterFrequency(input[..i])
    {
      var key := [input[i]];
      assert input[..i + 1][..i] == input[..i];
      if key in frequencyMap {
        frequencyMap := frequencyMap[key := frequencyMap[key] + 1];
      } else {
        frequencyMap := frequencyMap[key := 1];
      }
    }
    assert input[..|input|] == input;
  }

  /** Some key of a non-empty map. */
  ghost function AnyKey(m: map<string, int>): (k: string)
    requires |m| > 0
    ensures k in m
  {
    assert m.Keys != {};
    var k :| k in m; k
  }

  /** The sum of the values of a map. */
  ghost function SumValues(m: map<string, int>): int
    decreases |m|
  {
    if |m| == 0 then 0
    else
      var k := AnyKey(m);
      assert |m - {k}| == |m| - 1 by {
        assert (m - {k}).Keys == m.Keys - {k};
      }
      m[k] + SumValues(m - {k})
  }

  /** The sum does not depend on the key the definition happens to pick. */
  lemma {:induction false} SumValuesRemove(m: map<string, int>, k: string)
    requires k in m
    ensures SumValues(m) == m[k] + SumValues(m - {k})
    decreases |m|
  {
    var j := AnyKey(m);
    if j != k {
      assert (m - {j}).Keys == m.Keys - {j};
      assert (m - {k}).Keys == m.Keys - {k};
      SumValuesRemove(m - {j}, k);
      SumValuesRemove(m - {k}, j);
      assert m - {j} - {k} == m - {k} - {j};
    }
  }

  /** The frequency values add up to the length of the input. */
  lemma {:induction false} FrequencySumIsLength(s: string)
    ensures SumValues(CharacterFrequency(s)) == |s|
    decreases |s|
  {
    if s != [] {
      var p, key := s[..|s| - 1], [s[|s| - 1]];
      FrequencySumIsLength(p);
      var m := CharacterFrequency(p);
      var m' := CharacterFrequency(s);
      assert m' == m[key := if key in m then m[key] + 1 else 1];
      SumValuesRemove(m', key);
      assert m' - {key} == m - {key};
      if key in m {
        SumValuesRemove(m, key);
      } else {
        assert m - {key} == m;
      }
    }
  }

  /** There are as many keys in the frequency map as distinct characters. */
  lemma {:induction false} FrequencyKeysAreDistinctCharacters(s: string)
    ensures |CharacterFrequency(s)| == |DistinctCharacters(s)|
    decreases |s|
  {
    if s != [] {
      var p, c := s[..|s| - 1], s[|s| - 1];
      assert s == p + [c];
      FrequencyKeysAreDistinctCharacters(p);
      FrequencyCountsOccurrences(p);
      var m := CharacterFrequency(p);
      assert DistinctCharacters(s) == DistinctCharacters(p) + {c};
      assert CharacterFrequency(s).Keys == m.Keys + {[c]};
      assert [c] in m <==> c in DistinctCharacters(p);
    } else {
      assert DistinctCharacters(s) == {};
    }
  }

  // ------------------------------------------------------------------ bundle

  /** The metrics bundle of AnalyzeString, with sha256 standing for the hex
      SHA-256 digest of the input. */
  function Analyze(input: string, sha256: string -> string): (p: StringProperties)
    ensures p.length == |input|
    ensures p.uniqueCharacters == |p.characterFrequencyMap|
    ensures SumValues(p.characterFrequencyMap) == p.length
    ensures 0 <= p.wordCount <= p.length
    ensures p.isPalindrome ==> !IsBlank(input)
  {
    FrequencyKeysAreDistinctCharacters(input);
    FrequencySumIsLength(input);
    StringProperties(
      |input|,
      IsPalindrome(input),
      |DistinctCharacters(input)|,
      CountWords(input),
      sha256(input),
      CharacterFrequency(input))
  }

  /** AnalyzeString: computes the frequency map with the loop above and fills
      in the other metrics. */
  method AnalyzeString(input: string, sha256: string -> string) returns (properties: StringProperties)
    ensures properties == Analyze(input, sha256)
  {
    var frequencyMap := ComputeCharacterFrequency(input);
    properties := StringProperties(
      |input|,
      IsPalindrome(input),
      |DistinctCharacters(input)|,
      CountWords(input),
      sha256(input),
      frequencyMap);
  }
}
