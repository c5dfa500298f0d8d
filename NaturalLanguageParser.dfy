/** The heuristic natural-language filter parser. Five rules inspect the
    lower-cased query, each writing at most one key of the filter map; a later
    write to a key replaces an earlier one. Four of the rules are fixed regular
    expressions, modelled here as explicit leftmost-match scans. */
module NaturalLanguageParser {
  import opened Wrappers
  import opened Text

  /** A value of the filter map: a flag, a number or a string. */
  datatype FilterValue = BoolValue(flag: bool) | IntValue(number: int) | StringValue(text: string)

  const IsPalindromeKey: string := "is_palindrome"
  const MinLengthKey: string := "min_length"
  const MaxLengthKey: string := "max_length"
  const WordCountKey: string := "word_count"
  const ContainsCharacterKey: string := "contains_character"

  /** The only keys a filter map may hold. */
  const FilterKeys: set<string> := {IsPalindromeKey, MinLengthKey, MaxLengthKey, WordCountKey, ContainsCharacterKey}

  /** The error the parser reports when no rule fires. */
  const NoFiltersFound: string := "No filters found"

  // ------------------------------------------------------------- the patterns

  /** The four regular expressions of the parser:
      MinLength   "min", optionally "imum", then " length " and a digit run (captured);
      MaxLength   the same with "max";
      WordCount   a digit run (captured) followed by " word";
      Containing  "containing ", an optional apostrophe, a letter a..z (captured). */
  datatype Pattern = MinLength | MaxLength | WordCount | Containing

  predicate DigitAt(s: string, i: nat) { i < |s| && IsAsciiDigit(s[i]) }

  predicate LetterAt(s: string, i: nat) { i < |s| && IsAsciiLower(s[i]) }

  /** stem + "imum length " at p, followed by a digit. The optional group is
      greedy, so this form is tried first. */
  predicate LongLengthAt(s: string, p: nat, stem: string)
  {
    StartsAt(s, p, stem + "imum length ") && DigitAt(s, p + |stem| + 12)
  }

  /** stem + " length " at p, followed by a digit. */
  predicate ShortLengthAt(s: string, p: nat, stem: string)
  {
    StartsAt(s, p, stem + " length ") && DigitAt(s, p + |stem| + 8)
  }

  /** After "containing " at p: an apostrophe and then a letter. */
  predicate QuotedLetterAt(s: string, p: nat)
  {
    p + 12 < |s| && s[p + 11] == '\'' && IsAsciiLower(s[p + 12])
  }

  /** The pattern matches at position p of s. For WordCount the digit run
      taken greedily from p must be followed by " word"; backing off to a
      shorter run never helps, since a digit would then have to equal a space. */
  predicate MatchAt(pat: Pattern, s: string, p: nat)
  {
    match pat
    case MinLength => LongLengthAt(s, p, "min") || ShortLengthAt(s, p, "min")
    case MaxLength => LongLengthAt(s, p, "max") || ShortLengthAt(s, p, "max")
    case WordCount => DigitAt(s, p) && StartsAt(s, DigitRunEnd(s, p), " word")
    case Containing => StartsAt(s, p, "containing ") && (QuotedLetterAt(s, p) || LetterAt(s, p + 11))
  }

  /** Where the captured group of a match at p begins. */
  function GroupStart(pat: Pattern, s: string, p: nat): (g: nat)
    requires MatchAt(pat, s, p)
    ensures g < |s|
    ensures pat != Containing ==> IsAsciiDigit(s[g])
    ensures pat == Containing ==> IsAsciiLower(s[g])
  {
    match pat
    case MinLength => if LongLengthAt(s, p, "min") then p + 15 else p + 11
    case MaxLength => if LongLengthAt(s, p, "max") then p + 15 else p + 11
    case WordCount => p
    case Containing => if QuotedLetterAt(s, p) then p + 12 else p + 11
  }

  /** The captured group of a match at p: a whole digit run for the three
      numeric patterns, one lower-case letter for Containing. */
  function Group(pat: Pattern, s: string, p: nat): (g: string)
    requires MatchAt(pat, s, p)
    ensures pat != Containing ==> g != [] && AllDigits(g)
    ensures pat == Containing ==> |g| == 1 && IsAsciiLower(g[0])
  {
    var start := GroupStart(pat, s, p);
    if pat == Containing then [s[start]] else s[start..DigitRunEnd(s, start)]
  }

  /** p is where the regular-expression engine reports the match: the pattern
      matches there and at no earlier position. */
  predicate IsLeftmost(pat: Pattern, s: string, p: nat)
  {
    MatchAt(pat, s, p) && forall q: nat :: q < p ==> !MatchAt(pat, s, q)
  }

  /** Tries the positions from, from + 1, ... in turn and stops at the first
      one where the pattern matches. */
  function FindFrom(pat: Pattern, s: string, from: nat): (r: Option<nat>)
    ensures r.Some? ==> from <= r.value < |s| && MatchAt(pat, s, r.value)
    ensures r.Some? ==> forall q: nat :: from <= q < r.value ==> !MatchAt(pat, s, q)
    ensures r.None? ==> forall q: nat :: from <= q ==> !MatchAt(pat, s, q)
    decreases |s| - from
  {
    if from >= |s| then
      assert forall q: nat :: from <= q ==> !MatchAt(pat, s, q) by {
        forall q: nat | from <= q
          ensures !MatchAt(pat, s, q)
        {
          if MatchAt(pat, s, q) {
            var g := GroupStart(pat, s, q);
          }
        }
      }
      None
    else if MatchAt(pat, s, from) then Some(from)
    else FindFrom(pat, s, from + 1)
  }

  /** Regex.Match: the leftmost position at which the pattern matches, if any. */
  function FirstMatch(pat: Pattern, s: string): (r: Option<nat>)
    ensures r.Some? ==> IsLeftmost(pat, s, r.value)
    ensures r.None? <==> forall q: nat :: !MatchAt(pat, s, q)
  {
    FindFrom(pat, s, 0)
  }

  // -------------------------------------------------------------- the rules

  /** The key a pattern's rule writes. */
  function KeyOf(pat: Pattern): string
  {
    match pat
    case MinLength => MinLengthKey
    case MaxLength => MaxLengthKey
    case WordCount => WordCountKey
    case Containing => ContainsCharacterKey
  }

  /** The value a pattern's rule writes when the pattern occurs: the decimal
      value of the captured digits, or the captured letter as a string. */
  function RuleValue(pat: Pattern, lower: string): Option<FilterValue>
  {
    match FirstMatch(pat, lower)
    case None => None
    case Some(p) =>
      var g := Group(pat, lower, p);
      if pat == Containing then Some(StringValue(g)) else Some(IntValue(DecimalValue(g)))
  }

  /** What the two palindrome rules leave under is_palindrome. */
  function PalindromeValue(lower: string): Option<FilterValue>
  {
    if Contains(lower, "palindrome") || Contains(lower, "palindromic")
    then Some(BoolValue(!Contains(lower, "not palindrome")))
    else None
  }

  /** What ends up under a key after all five rules ran on the lower-cased
      query. For is_palindrome both palindrome rules are folded into one
      value: present when "palindrome" or "palindromic" occurs, and false
      exactly when "not palindrome" occurs, since that write comes last. */
  function FinalValue(key: string, lower: string): Option<FilterValue>
  {
    if key == IsPalindromeKey then PalindromeValue(lower)
    else if key == MinLengthKey then RuleValue(MinLength, lower)
    else if key == MaxLengthKey then RuleValue(MaxLength, lower)
    else if key == WordCountKey then RuleValue(WordCount, lower)
    else if key == ContainsCharacterKey then RuleValue(Containing, lower)
    else None
  }

  /** m with key set to the value o holds, if any. */
  function Put(m: map<string, FilterValue>, key: string, o: Option<FilterValue>): (r: map<string, FilterValue>)
  {
    if o.Some? then m[key := o.value] else m
  }

  /** The filter map of a lower-cased query: the five rules' values written
      in order into an empty map, the palindrome rules first. */
  function ParsedFilters(lower: string): (m: map<string, FilterValue>)
  {
    Put(Put(Put(Put(Put(map[],
      IsPalindromeKey, PalindromeValue(lower)),
      MinLengthKey, RuleValue(MinLength, lower)),
      MaxLengthKey, RuleValue(MaxLength, lower)),
      WordCountKey, RuleValue(WordCount, lower)),
      ContainsCharacterKey, RuleValue(Containing, lower))
  }

  /** Writing the five keys one after the other into the empty map is the
      same as collecting each key's own value: the keys are distinct, so no
      write undoes another. */
  lemma CollectInOrder(value: string -> Option<FilterValue>)
    ensures Put(Put(Put(Put(Put(map[],
              IsPalindromeKey, value(IsPalindromeKey)),
              MinLengthKey, value(MinLengthKey)),
              MaxLengthKey, value(MaxLengthKey)),
              WordCountKey, value(WordCountKey)),
              ContainsCharacterKey, value(ContainsCharacterKey))
         == (map key | key in FilterKeys && value(key).Some? :: value(key).value)
  {
  }

  /** The filter map key by key: it holds only the five known keys, each
      exactly when its rule fired, with the value that rule gives it. */
  lemma ParsedFiltersByKey(lower: string)
    ensures var m := ParsedFilters(lower);
      && m.Keys <= FilterKeys
      && (forall key :: key in m <==> key in FilterKeys && FinalValue(key, lower).Some?)
      && (forall key :: key in m ==> m[key] == FinalValue(key, lower).value)
  {
    CollectInOrder(key => FinalValue(key, lower));
  }

  /** One regular-expression rule: when the pattern matches the lower-cased
      query, its key is set to the group captured at the leftmost match
      (parsed as an integer by the three numeric rules). */
  method ApplyPatternRule(filters: map<string, FilterValue>, pat: Pattern, lower: string)
    returns (updated: map<string, FilterValue>)
    ensures updated == Put(filters, KeyOf(pat), RuleValue(pat, lower))
  {
    updated := filters;
    var m := FirstMatch(pat, lower);
    if m.Some? {
      var captured := Group(pat, lower, m.value);
      if pat == Containing {
        updated := updated[KeyOf(pat) := StringValue(captured)];
      } else {
        updated := updated[KeyOf(pat) := IntValue(DecimalValue(captured))];
      }
    }
  }

  /** Parse: lower-cases the query, applies the five rules in order to a
      filter map that starts empty, and reports success when some key was set,
      and the error "No filters found" otherwise. */
  method Parse(query: string) returns (success: bool, filters: map<string, FilterValue>, error: Option<string>)
    ensures filters == ParsedFilters(ToLowerInvariant(query))
    ensures success <==> filters != map[]
    ensures error == if success then None else Some(NoFiltersFound)
  {
    filters := map[];
    var lower := ToLowerInvariant(query);

    if Contains(lower, "palindrome") || Contains(lower, "palindromic") {
      filters := filters[IsPalindromeKey := BoolValue(true)];
    }
    if Contains(lower, "not palindrome") {
      NotPalindromeMentionsPalindrome(lower);
      filters := filters[IsPalindromeKey := BoolValue(false)];
    }
    assert filters == Put(map[], IsPalindromeKey, PalindromeValue(lower));

    filters := ApplyPatternRule(filters, MinLength, lower);
    filters := ApplyPatternRule(filters, MaxLength, lower);
    filters := ApplyPatternRule(filters, WordCount, lower);
    filters := ApplyPatternRule(filters, Containing, lower);

    success := |filters| > 0;
    error := if |filters| > 0 then None else Some(NoFiltersFound);
  }

  // ------------------------------------------------------------ properties

  /** A query that says "not palindrome" also says "palindrome". */
  lemma NotPalindromeMentionsPalindrome(lower: string)
    requires Contains(lower, "not palindrome")
    ensures Contains(lower, "palindrome")
  {
    ContainsInner(lower, "not palindrome", 4, "palindrome");
  }

  /** The two palindrome rules: the key is present exactly when "palindrome"
      or "palindromic" occurs, and then it is false exactly when
      "not palindrome" occurs. */
  lemma PalindromeRule(lower: string)
    ensures var m := ParsedFilters(lower);
      && (IsPalindromeKey in m <==> Contains(lower, "palindrome") || Contains(lower, "palindromic"))
      && (Contains(lower, "not palindrome") ==> IsPalindromeKey in m && m[IsPalindromeKey] == BoolValue(false))
      && (IsPalindromeKey in m && !Contains(lower, "not palindrome") ==> m[IsPalindromeKey] == BoolValue(true))
  {
    ParsedFiltersByKey(lower);
    if Contains(lower, "not palindrome") {
      NotPalindromeMentionsPalindrome(lower);
    }
  }

  /** A numeric rule (min_length, max_length, word_count) sets its key exactly
      when its pattern occurs, to the decimal value of the digit run captured
      at the leftmost occurrence. */
  lemma NumericRule(pat: Pattern, lower: string)
    requires pat != Containing
    ensures var m := ParsedFilters(lower);
      && (KeyOf(pat) in m <==> exists p: nat :: MatchAt(pat, lower, p))
      && forall p: nat :: IsLeftmost(pat, lower, p) ==>
           KeyOf(pat) in m && m[KeyOf(pat)] == IntValue(DecimalValue(Group(pat, lower, p)))
  {
    ParsedFiltersByKey(lower);
    var r := FirstMatch(pat, lower);
    forall p: nat | IsLeftmost(pat, lower, p)
      ensures r == Some(p)
    {
      LeftmostIsUnique(pat, lower, p, r.value);
    }
  }

  /** At most one position is the leftmost match. */
  lemma LeftmostIsUnique(pat: Pattern, s: string, p: nat, q: nat)
    requires IsLeftmost(pat, s, p) && IsLeftmost(pat, s, q)
    ensures p == q
  {
  }

  /** A digit run that starts one position earlier ends at the same place. */
  lemma DigitRunEndFromEarlier(s: string, p: nat)
    requires 0 < p <= |s| && IsAsciiDigit(s[p - 1])
    ensures DigitRunEnd(s, p - 1) == DigitRunEnd(s, p)
  {
  }

  /** The number the word-count rule takes is a whole digit run: the leftmost
      match is never preceded by a digit. */
  lemma WordCountTakesWholeRun(lower: string, p: nat)
    requires IsLeftmost(WordCount, lower, p)
    ensures p == 0 || !IsAsciiDigit(lower[p - 1])
  {
    if p > 0 && IsAsciiDigit(lower[p - 1]) {
      DigitRunEndFromEarlier(lower, p);
      assert MatchAt(WordCount, lower, p - 1);
    }
  }

  /** The contains_character rule sets its key exactly when "containing "
      followed by a letter, or by an apostrophe and a letter, occurs; the value
      is that one letter, from a to z. */
  lemma ContainingRule(lower: string)
    ensures var m := ParsedFilters(lower);
      && (ContainsCharacterKey in m <==> exists p: nat :: MatchAt(Containing, lower, p))
      && forall p: nat :: IsLeftmost(Containing, lower, p) ==>
           && ContainsCharacterKey in m
           && m[ContainsCharacterKey].StringValue?
           && var text := m[ContainsCharacterKey].text;
              && |text| == 1 && IsAsciiLower(text[0])
              && text[0] == (if lower[p + 11] == '\'' then lower[p + 12] else lower[p + 11])
  {
    ParsedFiltersByKey(lower);
    var r := FirstMatch(Containing, lower);
    forall p: nat | IsLeftmost(Containing, lower, p)
      ensures r == Some(p)
    {
      LeftmostIsUnique(Containing, lower, p, r.value);
    }
  }

  /** A string without digits gives none of the numeric filters. */
  lemma NoDigitsNoNumbers(lower: string)
    requires forall i :: 0 <= i < |lower| ==> !IsAsciiDigit(lower[i])
    ensures RuleValue(MinLength, lower) == None
    ensures RuleValue(MaxLength, lower) == None
    ensures RuleValue(WordCount, lower) == None
  {
    forall pat: Pattern, q: nat | pat != Containing
      ensures !MatchAt(pat, lower, q)
    {
      if MatchAt(pat, lower, q) {
        var g := GroupStart(pat, lower, q);
      }
    }
  }

  /** A string in which "containing " does not occur gives no
      contains_character filter. */
  lemma NoContainingNoCharacter(lower: string)
    requires !Contains(lower, "containing ")
    ensures RuleValue(Containing, lower) == None
  {
    ContainsIff(lower, "containing ");
  }

  /** When only the palindrome rules fire, the filter map holds
      is_palindrome alone. */
  lemma OnlyPalindromeRuleFires(lower: string)
    requires Contains(lower, "palindrome") || Contains(lower, "palindromic")
    requires RuleValue(MinLength, lower) == None && RuleValue(MaxLength, lower) == None
    requires RuleValue(WordCount, lower) == None && RuleValue(Containing, lower) == None
    ensures ParsedFilters(lower) == map[IsPalindromeKey := BoolValue(!Contains(lower, "not palindrome"))]
  {
  }

  /** A query that mentions palindromes but no digits and no "containing "
      yields the is_palindrome filter alone. */
  lemma PalindromeOnlyQuery(lower: string)
    requires Contains(lower, "palindrome") || Contains(lower, "palindromic")
    requires forall i :: 0 <= i < |lower| ==> !IsAsciiDigit(lower[i])
    requires !Contains(lower, "containing ")
    ensures ParsedFilters(lower) == map[IsPalindromeKey := BoolValue(!Contains(lower, "not palindrome"))]
  {
    NoDigitsNoNumbers(lower);
    NoContainingNoCharacter(lower);
    OnlyPalindromeRuleFires(lower);
  }

  /** The query of the natural-language example holds no digit. */
  lemma PalindromicStringsHasNoDigit(query: string)
    requires query == "palindromic strings"
    ensures forall i :: 0 <= i < |query| ==> !IsAsciiDigit(query[i])
  {
  }

  /** The palindrome words in the natural-language example: "palindromic"
      occurs, "not palindrome" does not. */
  lemma PalindromicStringsWords(query: string)
    requires query == "palindromic strings"
    ensures Contains(query, "palindromic")
    ensures !Contains(query, "not palindrome")
  {
    assert StartsAt(query, 0, "palindromic");
    NotContainsAt(query, "not palindrome", 1);
  }

  /** "containing " does not occur in the natural-language example. */
  lemma PalindromicStringsNoContaining(query: string)
    requires query == "palindromic strings"
    ensures !Contains(query, "containing ")
  {
    NotContainsAt(query, "containing ", 0);
  }

  /** "palindromic strings" asks for palindromes and nothing else. */
  lemma PalindromicStringsQuery(query: string)
    requires query == "palindromic strings"
    ensures ParsedFilters(ToLowerInvariant(query)) == map[IsPalindromeKey := BoolValue(true)]
  {
    var lower := ToLowerInvariant(query);
    assert lower == query;
    PalindromicStringsWords(lower);
    PalindromicStringsNoContaining(lower);
    PalindromicStringsHasNoDigit(lower);
    PalindromeOnlyQuery(lower);
  }
}
