# String Analyzer, modelled in Dafny

String Analyzer is a small web service. It stores strings and computes metrics
for each one: length, palindrome flag, number of distinct characters, word
count, SHA-256 hash and character-frequency map. It lists stored strings,
optionally filtered. A heuristic natural-language parser turns free text such
as "palindromic strings" or "strings longer than minimum length 5 containing
'a'" into the same filters.

This project models three parts of the service and proves what each promises:

- the metrics computer (`AnalyzeService`);
- the natural-language parser (`NaturalLanguageParser.Parse`);
- the controller's store and filter logic (`StringsController`).

Modules:

- `Text`: the string primitives the C# code gets from .NET. These are
  white space, `Trim`, `ToLowerInvariant`, ordinal and case-insensitive
  `Contains`, LINQ `Where`, `Reverse`, digit runs and `int.Parse` on digits.
- `Records`: `StringEntry` and `StringProperties`.
- `AnalyzeService`: the metrics.
  - `IsPalindrome`, `CountWords` and the character-frequency map are functions.
  - The frequency loop is a method proved equal to its function.
  - `AnalyzeString` fills the bundle. The hash is a parameter.
- `NaturalLanguageParser`: the parse.
  - Each regular expression is a `Pattern`. `MatchAt` says whether it matches
    at a position, and a leftmost scan plays `Regex.Match`.
  - `Parse` is a method that writes the filter map step by step, in the
    source's order.
  - It is proved equal to `ParsedFilters`. The lemmas say, key by key, when each
    rule fires and what value it stores.
- `StringsController`: the two filter paths and the store.
  - Both filter paths share one `Criteria` record and one stepwise filter
    method, `ApplyCriteria`, proved equal to a specification `Select`.
  - The database table is a class `Store`. It holds a map from id to record and
    the insertion order of the ids.
  - Each of the five endpoints is a method. HTTP status codes are the error
    cases of a `Response`.

## Model

| member | source | states |
|---|---|---|
| Text.IsBlank | String_Analyzer/AnalyzeService.cs:23 | `string.IsNullOrWhiteSpace` on a non-null string: every character is white space in .NET's sense, so the empty string counts as blank (also used at String_Analyzer/Controllers/StringsController.cs:121 and :150) |
| Text.EqualsIgnoreCase | String_Analyzer/AnalyzeService.cs:33 | `string.Equals` with OrdinalIgnoreCase: equal lengths, and equal characters at each position once ASCII capitals are lowered |
| Text.ToLowerInvariant | String_Analyzer/NaturalLanguageParser.cs:19 | the lower-cased query has the same length, and each character is the ASCII lower case of the original one |
| Text.ContainsIff | String_Analyzer/NaturalLanguageParser.cs:21-22 | `Contains(s, w)` holds exactly when `w` occurs in `s` at some position |
| Text.ContainsInner | String_Analyzer/NaturalLanguageParser.cs:21-23 | a string containing a word also contains every piece of that word |
| Text.ContainsIgnoreCase | String_Analyzer/Controllers/StringsController.cs:174 | `Contains` with OrdinalIgnoreCase: the lowered substring occurs in the lowered value |
| Text.Trim | String_Analyzer/Controllers/StringsController.cs:30 | the trimmed value is no longer than the input and neither starts nor ends with white space |
| Text.TrimIsSlice | String_Analyzer/Controllers/StringsController.cs:30 | the trimmed value is a contiguous slice of the input, and everything dropped before and after it is white space |
| Text.TrimIdempotent | String_Analyzer/Controllers/StringsController.cs:30 | trimming a trimmed value changes nothing |
| Text.TrimEmptyIffBlank | String_Analyzer/Controllers/StringsController.cs:30 | a value trims to the empty string exactly when it is empty or all white space |
| Text.DecimalValue | String_Analyzer/NaturalLanguageParser.cs:27 | `int.Parse` of a run of ASCII digits: the empty run is 0, and each further digit multiplies by ten and adds the digit (also at :31 and :35) |
| Text.Reverse | String_Analyzer/AnalyzeService.cs:30 | the reversal has the same length, and position i holds the character at position length-1-i |
| Text.Where | String_Analyzer/AnalyzeService.cs:27 | the filtered sequence is no longer than the input; it holds only kept elements of the input and every kept element of the input |
| Text.WhereConcat | String_Analyzer/Controllers/StringsController.cs:94-127 | filtering a concatenation is the concatenation of the filtered parts, so filtering keeps the relative order |
| Text.WhereWhere | String_Analyzer/Controllers/StringsController.cs:97-125 | two filters in a row are one filter on the conjunction |
| Text.DigitRunEnd | String_Analyzer/NaturalLanguageParser.cs:25 | the greedy `\d+` run from a position ends at the first non-digit or at the end |
| AnalyzeService.IsPalindrome | String_Analyzer/AnalyzeService.cs:21-34 | a blank input is not a palindrome; any other input is one exactly when its ASCII letters and digits, in order, mirror themselves up to case |
| AnalyzeService.PunctuationOnlyIsPalindrome | String_Analyzer/AnalyzeService.cs:22-33 | a non-blank input without any ASCII letter or digit is reported as a palindrome |
| AnalyzeService.PalindromeIgnoresCase | String_Analyzer/AnalyzeService.cs:27-33 | lower-casing the input does not change the palindrome flag |
| AnalyzeService.AlphanumericWordPalindrome | String_Analyzer/AnalyzeService.cs:27-33 | for a non-empty word of ASCII letters and digits, the flag is the case-insensitive mirror test of the word itself |
| AnalyzeService.PalindromeExamples | test/StringAnalyzer.cs:35-86 | "racecar" and "madam" are palindromes |
| AnalyzeService.FilterTestPalindromes | test/StringAnalyzer.cs:59-62 | "level" and "stats" are palindromes |
| AnalyzeService.NonPalindromeExamples | test/StringAnalyzer.cs:59-78 | "hello", "world" and "test" are not palindromes |
| AnalyzeService.SplitWords | String_Analyzer/AnalyzeService.cs:38 | no piece of the split is empty or holds a space, tab, LF or CR |
| AnalyzeService.SplitWordsCountsRuns | String_Analyzer/AnalyzeService.cs:38 | the split has one piece per maximal run of non-separators, counted by an independent left-to-right scan |
| AnalyzeService.CountWords | String_Analyzer/AnalyzeService.cs:35-39 | the word count is the number of word starts and never exceeds the length |
| AnalyzeService.FrequencyCountsOccurrences | String_Analyzer/AnalyzeService.cs:46-62 | the keys are the one-character strings of the input's characters, and each maps to that character's number of occurrences, at least 1 |
| AnalyzeService.ComputeCharacterFrequency | String_Analyzer/AnalyzeService.cs:46-62 | the loop that bumps or inserts each character's key builds exactly the frequency map |
| AnalyzeService.FrequencySumIsLength | String_Analyzer/AnalyzeService.cs:46-62 | the counts in the frequency map add up to the length of the input |
| AnalyzeService.FrequencyKeysAreDistinctCharacters | String_Analyzer/AnalyzeService.cs:14-17 | the frequency map has as many keys as the input has distinct characters |
| AnalyzeService.Analyze | String_Analyzer/AnalyzeService.cs:8-20 | length is the input length; unique_characters is the number of frequency keys; the counts sum to the length; the word count lies between 0 and the length; a palindrome is never blank |
| AnalyzeService.AnalyzeString | String_Analyzer/AnalyzeService.cs:8-20 | the bundle computed with the frequency loop equals the specification bundle |
| NaturalLanguageParser.MatchAt | String_Analyzer/NaturalLanguageParser.cs:25-37 | MinLength (MaxLength) matches at p exactly when "minimum length " or "min length " ("maximum length " or "max length ") starts at p and a digit follows; WordCount when a digit is at p and the digit run from p is followed by " word"; Containing when "containing " starts at p and is followed by a letter a-z or by an apostrophe and a letter a-z |
| NaturalLanguageParser.GroupStart | String_Analyzer/NaturalLanguageParser.cs:25-39 | the captured group of a match starts inside the query, on a digit for the numeric patterns and on a letter a-z for `containing` |
| NaturalLanguageParser.Group | String_Analyzer/NaturalLanguageParser.cs:25-39 | a numeric group is a non-empty run of digits; the `containing` group is one letter a-z |
| NaturalLanguageParser.FindFrom | String_Analyzer/NaturalLanguageParser.cs:25-37 | the scan returns the first matching position at or after its start, and None only when no later position matches |
| NaturalLanguageParser.FirstMatch | String_Analyzer/NaturalLanguageParser.cs:25-37 | `Regex.Match` succeeds exactly when the pattern matches somewhere, and then at the leftmost position |
| NaturalLanguageParser.LeftmostIsUnique | String_Analyzer/NaturalLanguageParser.cs:25-37 | at most one position is the leftmost match |
| NaturalLanguageParser.ParsedFiltersByKey | String_Analyzer/NaturalLanguageParser.cs:16-41 | the filter map holds only the five known keys, each exactly when its rule fired, with the value the last write gave it |
| NaturalLanguageParser.ApplyPatternRule | String_Analyzer/NaturalLanguageParser.cs:25-39 | one regex rule sets its key to the group captured at the leftmost match, parsed as an integer for the numeric rules, and leaves the map alone when nothing matches |
| NaturalLanguageParser.Parse | String_Analyzer/NaturalLanguageParser.cs:16-42 | the map built step by step is the specification map of the lower-cased query; success exactly when it is non-empty; error "No filters found" exactly on failure |
| NaturalLanguageParser.NotPalindromeMentionsPalindrome | String_Analyzer/NaturalLanguageParser.cs:21-23 | a query with "not palindrome" also contains "palindrome" |
| NaturalLanguageParser.PalindromeRule | String_Analyzer/NaturalLanguageParser.cs:21-23 | is_palindrome is set exactly when "palindrome" or "palindromic" occurs; it is false when "not palindrome" occurs and true otherwise |
| NaturalLanguageParser.NumericRule | String_Analyzer/NaturalLanguageParser.cs:25-35 | min_length, max_length and word_count are each set exactly when their pattern occurs, to the decimal value of the digits captured at the leftmost match |
| NaturalLanguageParser.WordCountTakesWholeRun | String_Analyzer/NaturalLanguageParser.cs:33-35 | the leftmost `(\d+) words?` match starts at the beginning of its digit run, so the whole number is taken |
| NaturalLanguageParser.ContainingRule | String_Analyzer/NaturalLanguageParser.cs:37-39 | contains_character is set exactly when "containing " followed by a letter, or by an apostrophe and a letter, occurs; the value is that letter |
| NaturalLanguageParser.NoDigitsNoNumbers | String_Analyzer/NaturalLanguageParser.cs:25-35 | a query without digits sets none of the numeric filters |
| NaturalLanguageParser.NoContainingNoCharacter | String_Analyzer/NaturalLanguageParser.cs:37-39 | a query without "containing " sets no character filter |
| NaturalLanguageParser.OnlyPalindromeRuleFires | String_Analyzer/NaturalLanguageParser.cs:21-41 | when only the palindrome rule fires, the map is that single entry |
| NaturalLanguageParser.PalindromeOnlyQuery | String_Analyzer/NaturalLanguageParser.cs:16-41 | a query that mentions palindromes, has no digits and no "containing " parses to is_palindrome alone, false exactly when "not palindrome" occurs |
| NaturalLanguageParser.PalindromicStringsQuery | test/StringAnalyzer.cs:82 | "palindromic strings" parses to the single filter is_palindrome = true |
| StringsController.Select | String_Analyzer/Controllers/StringsController.cs:94-127 | the selection holds only records that pass every applied filter, and every such record |
| StringsController.Satisfies | String_Analyzer/Controllers/StringsController.cs:97-174 | a record passes exactly when each applied filter holds: palindrome flag and word count equal to the given ones, length at least min_length and at most max_length, and the value containing the given substring, ordinally for GetAll (:123) and ignoring case for the natural-language path (:174) |
| StringsController.SelectRefine | String_Analyzer/Controllers/StringsController.cs:97-125 | one more `Where` on a selection is the selection with one more filter |
| StringsController.AddPalindromeFilter | String_Analyzer/Controllers/StringsController.cs:97-101 | filtering by the palindrome flag adds is_palindrome to the criteria |
| StringsController.AddMinLengthFilter | String_Analyzer/Controllers/StringsController.cs:103-107 | filtering by length >= n adds min_length to the criteria |
| StringsController.AddMaxLengthFilter | String_Analyzer/Controllers/StringsController.cs:109-113 | filtering by length <= n adds max_length to the criteria |
| StringsController.AddWordCountFilter | String_Analyzer/Controllers/StringsController.cs:115-119 | filtering by an exact word count adds word_count to the criteria |
| StringsController.AddContainsFilter | String_Analyzer/Controllers/StringsController.cs:121-125 | filtering by a substring adds contains_character to the criteria |
| StringsController.ApplyCriteria | String_Analyzer/Controllers/StringsController.cs:94-127 | the chain of `Where` calls, one per supplied filter, yields exactly the selection |
| StringsController.SelectWithoutCriteria | String_Analyzer/Controllers/StringsController.cs:94-127 | with no filter every record is listed, in order |
| StringsController.SelectEmptyRange | String_Analyzer/Controllers/StringsController.cs:103-113 | a min_length above max_length selects nothing |
| StringsController.SelectKeepsOrder | String_Analyzer/Controllers/StringsController.cs:94-127 | selecting from two runs of records is the concatenation of the two selections, so the listing keeps the store's order |
| StringsController.CriteriaOfQuery | String_Analyzer/Controllers/StringsController.cs:97-125 | GetAll compares substrings ordinally and applies contains_character exactly when it is present and not blank |
| StringsController.AnalyzedFlag | String_Analyzer/Controllers/StringsController.cs:31 | a record analysed from its value carries that value's palindrome flag |
| StringsController.SelectPalindromesOfFour | String_Analyzer/Controllers/StringsController.cs:97-101 | is_palindrome=true over four records, the first and last palindromes, lists exactly those two, in order |
| StringsController.SelectPair | String_Analyzer/Controllers/StringsController.cs:94-127 | a two-record selection keeps exactly the records that pass |
| StringsController.FilterTestScenario | test/StringAnalyzer.cs:58-70 | with "level", "hello", "world" and "stats" stored and analysed, is_palindrome=true lists exactly "level" and "stats" |
| StringsController.CriteriaOfParsed | String_Analyzer/Controllers/StringsController.cs:160-174 | the natural-language path compares substrings ignoring case and never filters on an empty substring |
| StringsController.ParsedFiltersAllApplied | String_Analyzer/Controllers/StringsController.cs:160-174 | every key the parser sets has the kind its filter expects, so each parsed filter is applied and no other |
| StringsController.Lookup | String_Analyzer/Controllers/StringsController.cs:94 | enumerating the store yields one record per id when every id has a record |
| StringsController.LookupAppend | String_Analyzer/Controllers/StringsController.cs:49 | appending a stored id appends its record to the enumeration |
| StringsController.LookupFresh | String_Analyzer/Controllers/StringsController.cs:49 | storing under an unlisted id leaves the enumeration of the listed ids unchanged |
| StringsController.LookupRemove | String_Analyzer/Controllers/StringsController.cs:208 | removing an id and its record removes exactly the records with that id from the enumeration |
| StringsController.IdsListedAfterAdd | String_Analyzer/Controllers/StringsController.cs:49 | after an insert the listed ids are still exactly the keys |
| StringsController.EntriesWellFormedAfterAdd | String_Analyzer/Controllers/StringsController.cs:41-49 | inserting a well-formed record under its own id keeps every record well formed |
| StringsController.InvariantAfterAdd | String_Analyzer/Controllers/StringsController.cs:37-49 | inserting a well-formed record under a new id keeps the store invariant |
| StringsController.InvariantAfterRemove | String_Analyzer/Controllers/StringsController.cs:208 | removing a record keeps the store invariant |
| StringsController.ResponseId | String_Analyzer/Controllers/StringsController.cs:54 | the id in a response is the key, an underscore, then the value, and nothing else |
| StringsController.ResponseIdIsNotAKey | String_Analyzer/Controllers/StringsController.cs:54-71 | when no hash holds an underscore, the id a response carries is never a key of the store |
| StringsController.StoredRecordsRetrievable | String_Analyzer/Controllers/StringsController.cs:68-71 | every enumerated record is found again under the id it carries |
| StringsController.Store.StoredRecords | String_Analyzer/Controllers/StringsController.cs:94 | a valid store enumerates one record per listed id |
| StringsController.Store.AddString | String_Analyzer/Controllers/StringsController.cs:21-61 | missing value gives BadRequest and a non-string value gives UnprocessableEntity; a trimmed value whose hash is already a key gives Conflict; otherwise the analysed record is stored under its hash and appended to the enumeration; an error changes nothing; the invariant is kept |
| StringsController.Store.GetString | String_Analyzer/Controllers/StringsController.cs:66-82 | the record stored under the id, or NotFound with " String does not exist in the system" |
| StringsController.Store.DeleteString | String_Analyzer/Controllers/StringsController.cs:201-211 | an unknown id gives NotFound "String not found" and changes nothing; otherwise exactly that record leaves the map and the enumeration; the invariant is kept |
| StringsController.Store.GetAll | String_Analyzer/Controllers/StringsController.cs:87-143 | data is the selection of the stored records by the supplied parameters, count is its size, and filters_applied holds exactly the applied parameters with their values |
| StringsController.Store.FilterByNaturalLanguage | String_Analyzer/Controllers/StringsController.cs:148-195 | a blank query gives BadRequest "Query is required"; a query with no filter gives UnprocessableEntity "No filters found"; otherwise the count, the original query, the parsed filters and the selection by them |

## Left out

- `ComputeSha256Hash` (String_Analyzer/AnalyzeService.cs:40-45) is replaced by
  a function parameter `sha256`. Its bytes, hex
  formatting and collision freedom are not part of this model.
- AddString: a different value whose hash collides with a stored key gets
  Conflict. The model states this as written and does not assume the hash is
  injective.
- The clock (`DateTime.UtcNow`) is the `createdAt` parameter of AddString. The
  ISO-8601 formatting of `created_at` is left out.
- Entity Framework, SQLite, `async`/`await` and `SaveChangesAsync` are left
  out. The table is a map plus the insertion order of its ids.
- The order in which the database enumerates rows is taken to be insertion
  order. The model therefore says nothing about any other order a real
  provider might use.
- HTTP routing, status codes and JSON response shaping are left out.
  - Created, Ok and NoContent are all `Ok`; the error statuses are the
    `ApiError` cases.
  - Response bodies are the records and listings themselves. The `{Id}_{Value}`
    id string is modelled only as `ResponseId`.
- Request-body parsing is reduced to the three cases of the "value" property:
  missing, not a string, or a string.
- ToLowerInvariant and the OrdinalIgnoreCase comparisons fold only ASCII
  letters. Unicode case mapping is not modelled.
- Strings are sequences of characters. UTF-16 surrogate pairs are not split
  into two code units, so lengths and frequency keys of characters outside
  the Basic Multilingual Plane differ from .NET's.
- `\d` in the parser's regular expressions is modelled as the ASCII digits
  0-9. .NET also accepts other Unicode decimal digits.
- `int.Parse` in the parser is modelled as an unbounded decimal value. A
  digit run beyond the 32-bit range, which makes .NET throw
  OverflowException, is not modelled.
- The natural-language path's `int.TryParse(value.ToString())` is modelled as
  accepting exactly the integer values. The parser never stores anything else
  under the numeric keys.
- The natural-language test scenario (test/StringAnalyzer.cs:74-88) is covered
  only in part:
  - the parse of "palindromic strings" is proved;
  - "madam" is proved a palindrome and "test" is proved not one;
  - the flag of "A man a plan a canal Panama" is not proved for that literal.
    `IsPalindrome` states the rule it follows.

## Findings

| source | as written | input that shows it | evidently intended | confidence | as-written member | corrected member |
|---|---|---|---|---|---|---|
| String_Analyzer/Controllers/StringsController.cs:54 | AddString and GetString return `id` as `{hash}_{value}`, while GetString and DeleteString look a record up by the bare hash | POST "racecar", then GET or DELETE with the returned id "&lt;hash&gt;_racecar": no key holds an underscore, so the answer is NotFound | the id a response carries is the key itself, as GetAll already returns it (line 133) | high; not executed | StringsController.ResponseIdIsNotAKey | StringsController.StoredRecordsRetrievable |
