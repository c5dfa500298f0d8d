/** The HTTP controller with its routing and response shaping dropped: a store
    of analysed strings keyed by content hash, the query-parameter filter, the
    natural-language filter, and insertion, lookup and deletion by id. */
module StringsController {
  import opened Wrappers
  import opened Text
  import opened Records
  import opened AnalyzeService
  import opened NaturalLanguageParser

  // ------------------------------------------------------------ results

  /** The error responses of the controller, each with its message. */
  datatype ApiError =
    | BadRequest(message: string)
    | UnprocessableEntity(message: string)
    | NotFound(message: string)
    | Conflict(message: string)

  /** A successful response with its payload, or an error response. */
  datatype Response<T> = Ok(value: T) | Err(error: ApiError)

  const MissingValueMessage: string := "Invalid request body or missing \"value\" field"
  const WrongTypeMessage: string := "Invalid data type for \"value\" (must be string)"
  const AlreadyExistsMessage: string := "String already exists in the system"
  const DoesNotExistMessage: string := " String does not exist in the system"
  const NotFoundMessage: string := "String not found"
  const QueryRequiredMessage: string := "Query is required"

  /** The "value" property of a JSON request body: absent, present with a
      non-string JSON value, or a string. */
  datatype JsonField = Missing | NotAString | StringField(text: string)

  // ------------------------------------------------------------ filtering

  /** How contains_character is compared: ordinal (case-sensitive) for query
      parameters, ordinal ignoring case for natural-language queries. */
  datatype Comparison = Ordinal | OrdinalIgnoreCase

  /** The filters to apply; None means the filter is not applied. */
  datatype Criteria = Criteria(
    isPalindrome: Option<bool>,
    minLength: Option<int>,
    maxLength: Option<int>,
    wordCount: Option<int>,
    containsCharacter: Option<string>,
    comparison: Comparison)

  /** No filter at all. */
  function NoCriteria(comparison: Comparison): Criteria
  {
    Criteria(None, None, None, None, None, comparison)
  }

  predicate ContainsWith(value: string, w: string, comparison: Comparison)
  {
    match comparison
    case Ordinal => Contains(value, w)
    case OrdinalIgnoreCase => ContainsIgnoreCase(value, w)
  }

  /** A record passes every filter that is applied: equality on the
      palindrome flag and the word count, inclusive bounds on the length,
      and a substring test on the value. */
  predicate Satisfies(e: StringEntry, c: Criteria)
  {
    && (c.isPalindrome.Some? ==> e.properties.isPalindrome == c.isPalindrome.value)
    && (c.minLength.Some? ==> e.properties.length >= c.minLength.value)
    && (c.maxLength.Some? ==> e.properties.length <= c.maxLength.value)
    && (c.wordCount.Some? ==> e.properties.wordCount == c.wordCount.value)
    && (c.containsCharacter.Some? ==> ContainsWith(e.value, c.containsCharacter.value, c.comparison))
  }

  function Matches(c: Criteria): StringEntry -> bool
  {
    e => Satisfies(e, c)
  }

  /** The records that pass every applied filter, in their original order. */
  function Select(records: seq<StringEntry>, c: Criteria): (r: seq<StringEntry>)
    ensures |r| <= |records|
    ensures forall i :: 0 <= i < |r| ==> r[i] in records && Satisfies(r[i], c)
    ensures forall i :: 0 <= i < |records| && Satisfies(records[i], c) ==> records[i] in r
  {
    Where(records, Matches(c))
  }

  // The single-field predicates the controller applies one after the other.

  function PalindromeIs(flag: bool): StringEntry -> bool
  {
    (e: StringEntry) => e.properties.isPalindrome == flag
  }

  function LengthAtLeast(n: int): StringEntry -> bool
  {
    (e: StringEntry) => e.properties.length >= n
  }

  function LengthAtMost(n: int): StringEntry -> bool
  {
    (e: StringEntry) => e.properties.length <= n
  }

  function WordCountIs(n: int): StringEntry -> bool
  {
    (e: StringEntry) => e.properties.wordCount == n
  }

  function ValueContains(w: string, comparison: Comparison): StringEntry -> bool
  {
    (e: StringEntry) => ContainsWith(e.value, w, comparison)
  }

  /** Narrowing a selection by one more predicate is selecting by criteria
      that add that predicate. */
  lemma SelectRefine(records: seq<StringEntry>, c: Criteria, c': Criteria, f: StringEntry -> bool)
    requires forall e :: Satisfies(e, c') == (Satisfies(e, c) && f(e))
    ensures Where(Select(records, c), f) == Select(records, c')
  {
    WhereWhere(records, Matches(c), f, Matches(c'));
  }

  // Each filter step of the chain adds one field to the criteria applied so far.

  lemma AddPalindromeFilter(records: seq<StringEntry>, c: Criteria, flag: bool)
    requires c.isPalindrome.None?
    ensures Where(Select(records, c), PalindromeIs(flag)) == Select(records, c.(isPalindrome := Some(flag)))
  {
    SelectRefine(records, c, c.(isPalindrome := Some(flag)), PalindromeIs(flag));
  }

  lemma AddMinLengthFilter(records: seq<StringEntry>, c: Criteria, n: int)
    requires c.minLength.None?
    ensures Where(Select(records, c), LengthAtLeast(n)) == Select(records, c.(minLength := Some(n)))
  {
    SelectRefine(records, c, c.(minLength := Some(n)), LengthAtLeast(n));
  }

  lemma AddMaxLengthFilter(records: seq<StringEntry>, c: Criteria, n: int)
    requires c.maxLength.None?
    ensures Where(Select(records, c), LengthAtMost(n)) == Select(records, c.(maxLength := Some(n)))
  {
    SelectRefine(records, c, c.(maxLength := Some(n)), LengthAtMost(n));
  }

  lemma AddWordCountFilter(records: seq<StringEntry>, c: Criteria, n: int)
    requires c.wordCount.None?
    ensures Where(Select(records, c), WordCountIs(n)) == Select(records, c.(wordCount := Some(n)))
  {
    SelectRefine(records, c, c.(wordCount := Some(n)), WordCountIs(n));
  }

  lemma AddContainsFilter(records: seq<StringEntry>, c: Criteria, w: string)
    requires c.containsCharacter.None?
    ensures Where(Select(records, c), ValueContains(w, c.comparison)) == Select(records, c.(containsCharacter := Some(w)))
  {
    SelectRefine(records, c, c.(containsCharacter := Some(w)), ValueContains(w, c.comparison));
  }

  /** The filter chain of GetAll and FilterByNaturalLanguage: starting from
      all records, each applied filter narrows the sequence in turn. */
  method ApplyCriteria(records: seq<StringEntry>, c: Criteria) returns (matched: seq<StringEntry>)
    ensures matched == Select(records, c)
  {
    matched := records;
    var applied := NoCriteria(c.comparison);
    SelectWithoutCriteria(records, c.comparison);

    if c.isPalindrome.Some? {
      AddPalindromeFilter(records, applied, c.isPalindrome.value);
      matched := Where(matched, PalindromeIs(c.isPalindrome.value));
    }
    applied := applied.(isPalindrome := c.isPalindrome);

    if c.minLength.Some? {
      AddMinLengthFilter(records, applied, c.minLength.value);
      matched := Where(matched, LengthAtLeast(c.minLength.value));
    }
    applied := applied.(minLength := c.minLength);

    if c.maxLength.Some? {
      AddMaxLengthFilter(records, applied, c.maxLength.value);
      matched := Where(matched, LengthAtMost(c.maxLength.value));
    }
    applied := applied.(maxLength := c.maxLength);

    if c.wordCount.Some? {
      AddWordCountFilter(records, applied, c.wordCount.value);
      matched := Where(matched, WordCountIs(c.wordCount.value));
    }
    applied := applied.(wordCount := c.wordCount);

    if c.containsCharacter.Some? {
      AddContainsFilter(records, applied, c.containsCharacter.value);
      matched := Where(matched, ValueContains(c.containsCharacter.value, c.comparison));
    }
    applied := applied.(containsCharacter := c.containsCharacter);
    assert applied == c;
  }

  /** Without filters every record is returned, in order. */
  lemma SelectWithoutCriteria(records: seq<StringEntry>, comparison: Comparison)
    ensures Select(records, NoCriteria(comparison)) == records
  {
    WhereKeepsAll(records, Matches(NoCriteria(comparison)));
  }

  /** The length bounds are inclusive, so a minimum above the maximum selects
      nothing. */
  lemma SelectEmptyRange(records: seq<StringEntry>, c: Criteria)
    requires c.minLength.Some? && c.maxLength.Some? && c.minLength.value > c.maxLength.value
    ensures Select(records, c) == []
  {
    WhereKeepsNone(records, Matches(c));
  }

  /** Selection keeps the records' order: it distributes over concatenation. */
  lemma SelectKeepsOrder(a: seq<StringEntry>, b: seq<StringEntry>, c: Criteria)
    ensures Select(a + b, c) == Select(a, c) + Select(b, c)
  {
    WhereConcat(a, b, Matches(c));
  }

  // ------------------------------------------------------------ query parameters

  /** The query parameters of GET /strings; None when absent. */
  datatype QueryParameters = QueryParameters(
    isPalindrome: Option<bool>,
    minLength: Option<int>,
    maxLength: Option<int>,
    wordCount: Option<int>,
    containsCharacter: Option<string>)

  /** contains_character is applied only when it is neither absent nor
      whitespace-only. */
  predicate HasContainsCharacter(q: QueryParameters)
  {
    q.containsCharacter.Some? && !IsBlank(q.containsCharacter.value)
  }

  /** The filters GetAll applies: each supplied parameter, with an ordinal
      substring test. */
  function CriteriaOfQuery(q: QueryParameters): (c: Criteria)
    ensures c.comparison == Ordinal
    ensures c.containsCharacter.Some? <==> HasContainsCharacter(q)
  {
    Criteria(
      q.isPalindrome, q.minLength, q.maxLength, q.wordCount,
      if HasContainsCharacter(q) then q.containsCharacter else None,
      Ordinal)
  }

  /** The response of GetAll. */
  datatype Listing = Listing(data: seq<StringEntry>, count: int, filtersApplied: map<string, FilterValue>)

  /** The palindrome flag a record carries is the flag of its value. */
  lemma AnalyzedFlag(e: StringEntry, sha256: string -> string)
    requires e.properties == Analyze(e.value, sha256)
    ensures e.properties.isPalindrome == IsPalindrome(e.value)
  {
  }

  /** is_palindrome=true over four records keeps the first and the last when
      exactly those two carry the flag. */
  lemma SelectPalindromesOfFour(a: StringEntry, b: StringEntry, c: StringEntry, d: StringEntry)
    requires a.properties.isPalindrome && !b.properties.isPalindrome
    requires !c.properties.isPalindrome && d.properties.isPalindrome
    ensures Select([a, b, c, d], CriteriaOfQuery(QueryParameters(Some(true), None, None, None, None))) == [a, d]
  {
    var criteria := CriteriaOfQuery(QueryParameters(Some(true), None, None, None, None));
    assert [a, b, c, d] == [a, b] + [c, d];
    SelectKeepsOrder([a, b], [c, d], criteria);
    SelectPair(a, b, criteria);
    SelectPair(c, d, criteria);
  }

  /** Selecting from two records keeps each one that passes. */
  lemma SelectPair(a: StringEntry, b: StringEntry, c: Criteria)
    ensures Select([a, b], c)
         == (if Satisfies(a, c) then [a] else []) + (if Satisfies(b, c) then [b] else [])
  {
    var f := Matches(c);
    assert [a, b][1..] == [b];
    assert [b][1..] == [];
    assert Where([b], f) == (if f(b) then [b] else []) + Where([], f);
    assert Where([a, b], f) == (if f(a) then [a] else []) + Where([b], f);
  }

  /** The test scenario of the query-parameter filter: of level, hello, world
      and stats, is_palindrome=true keeps level and stats. */
  lemma FilterTestScenario(level: StringEntry, hello: StringEntry, world: StringEntry, stats: StringEntry, sha256: string -> string)
    requires level.value == "level" && level.properties == Analyze(level.value, sha256)
    requires hello.value == "hello" && hello.properties == Analyze(hello.value, sha256)
    requires world.value == "world" && world.properties == Analyze(world.value, sha256)
    requires stats.value == "stats" && stats.properties == Analyze(stats.value, sha256)
    ensures Select([level, hello, world, stats], CriteriaOfQuery(QueryParameters(Some(true), None, None, None, None)))
         == [level, stats]
  {
    AnalyzedFlag(level, sha256);
    AnalyzedFlag(hello, sha256);
    AnalyzedFlag(world, sha256);
    AnalyzedFlag(stats, sha256);
    FilterTestPalindromes(level.value);
    FilterTestPalindromes(stats.value);
    NonPalindromeExamples(hello.value);
    NonPalindromeExamples(world.value);
    SelectPalindromesOfFour(level, hello, world, stats);
  }

  // ------------------------------------------------------------ natural language

  /** The filters the natural-language path applies: every parsed key whose
      value has the expected kind (a flag, an integer, a non-empty string),
      with the substring test ignoring case. */
  function CriteriaOfParsed(filters: map<string, FilterValue>): (c: Criteria)
    ensures c.comparison == OrdinalIgnoreCase
    ensures c.containsCharacter.Some? ==> c.containsCharacter.value != []
  {
    Criteria(
      if IsPalindromeKey in filters && filters[IsPalindromeKey].BoolValue?
      then Some(filters[IsPalindromeKey].flag) else None,
      IntFilter(filters, MinLengthKey),
      IntFilter(filters, MaxLengthKey),
      IntFilter(filters, WordCountKey),
      if ContainsCharacterKey in filters && filters[ContainsCharacterKey].StringValue?
         && filters[ContainsCharacterKey].text != []
      then Some(filters[ContainsCharacterKey].text) else None,
      OrdinalIgnoreCase)
  }

  function IntFilter(filters: map<string, FilterValue>, key: string): Option<int>
  {
    if key in filters && filters[key].IntValue? then Some(filters[key].number) else None
  }

  /** Every key the parser sets has the kind the natural-language path
      expects, so each parsed filter is applied. */
  lemma ParsedFiltersAllApplied(lower: string)
    ensures var m := ParsedFilters(lower);
      var c := CriteriaOfParsed(m);
      && (IsPalindromeKey in m <==> c.isPalindrome.Some?)
      && (MinLengthKey in m <==> c.minLength.Some?)
      && (MaxLengthKey in m <==> c.maxLength.Some?)
      && (WordCountKey in m <==> c.wordCount.Some?)
      && (ContainsCharacterKey in m <==> c.containsCharacter.Some?)
  {
    ParsedFiltersByKey(lower);
  }

  /** The response of FilterByNaturalLanguage. */
  datatype Interpretation = Interpretation(
    count: int,
    original: string,
    parsedFilters: map<string, FilterValue>,
    data: seq<StringEntry>)

  // ------------------------------------------------------------ the store

  /** The records in the order of ids, skipping ids without a record. */
  function Lookup(ids: seq<string>, entries: map<string, StringEntry>): (r: seq<StringEntry>)
    ensures |r| <= |ids|
    ensures (forall i :: 0 <= i < |ids| ==> ids[i] in entries) ==> |r| == |ids|
  {
    if ids == [] then []
    else (if ids[0] in entries then [entries[ids[0]]] else []) + Lookup(ids[1..], entries)
  }

  lemma {:induction false} LookupAppend(ids: seq<string>, id: string, entries: map<string, StringEntry>)
    requires id in entries
    ensures Lookup(ids + [id], entries) == Lookup(ids, entries) + [entries[id]]
  {
    if ids != [] {
      assert (ids + [id])[1..] == ids[1..] + [id];
      LookupAppend(ids[1..], id, entries);
    } else {
      assert Lookup([id][1..], entries) == [];
    }
  }

  /** Adding a record under an id that is not listed leaves the lookup of the
      listed ids as it was. */
  lemma {:induction false} LookupFresh(ids: seq<string>, entries: map<string, StringEntry>, id: string, e: StringEntry)
    requires id !in ids
    ensures Lookup(ids, entries[id := e]) == Lookup(ids, entries)
  {
    if ids != [] {
      LookupFresh(ids[1..], entries, id, e);
    }
  }

  function IsNot(id: string): string -> bool
  {
    k => k != id
  }

  function HasOtherId(id: string): StringEntry -> bool
  {
    (e: StringEntry) => e.id != id
  }

  /** Removing an id from the list and its record from the map removes that
      record, and only it, from the lookup. */
  lemma {:induction false} LookupRemove(ids: seq<string>, entries: map<string, StringEntry>, id: string)
    requires forall k :: k in entries ==> entries[k].id == k
    ensures Lookup(Where(ids, IsNot(id)), entries - {id}) == Where(Lookup(ids, entries), HasOtherId(id))
  {
    if ids != [] {
      LookupRemove(ids[1..], entries, id);
      var rest := Lookup(ids[1..], entries);
      if ids[0] in entries {
        assert Lookup(ids, entries) == [entries[ids[0]]] + rest;
        assert ([entries[ids[0]]] + rest)[1..] == rest;
        if ids[0] != id {
          assert Where(ids, IsNot(id)) == [ids[0]] + Where(ids[1..], IsNot(id));
          assert ([ids[0]] + Where(ids[1..], IsNot(id)))[1..] == Where(ids[1..], IsNot(id));
        } else {
          assert Where(ids, IsNot(id)) == Where(ids[1..], IsNot(id));
        }
      } else {
        assert Lookup(ids, entries) == rest;
        if ids[0] != id {
          assert Where(ids, IsNot(id)) == [ids[0]] + Where(ids[1..], IsNot(id));
          assert ([ids[0]] + Where(ids[1..], IsNot(id)))[1..] == Where(ids[1..], IsNot(id));
        } else {
          assert Where(ids, IsNot(id)) == Where(ids[1..], IsNot(id));
        }
      }
    }
  }

  /** A stored record is consistent with its value: the value is trimmed,
      the id is its hash, and the properties are its metrics. */
  predicate WellFormedEntry(e: StringEntry, sha256: string -> string)
  {
    && IsTrimmed(e.value)
    && e.id == sha256(e.value)
    && e.properties == Analyze(e.value, sha256)
  }

  /** Exactly the listed ids have a record. */
  ghost predicate IdsListed(entries: map<string, StringEntry>, order: seq<string>)
  {
    forall id :: id in entries <==> id in order
  }

  /** Every record sits under its own id and is well formed. */
  ghost predicate EntriesWellFormed(entries: map<string, StringEntry>, sha256: string -> string)
  {
    forall id :: id in entries ==> entries[id].id == id && WellFormedEntry(entries[id], sha256)
  }

  /** Every listed id has exactly one record and every record is listed
      once, under its own id. */
  ghost predicate StoreInvariant(entries: map<string, StringEntry>, order: seq<string>, sha256: string -> string)
  {
    Distinct(order) && IdsListed(entries, order) && EntriesWellFormed(entries, sha256)
  }

  lemma IdsListedAfterAdd(entries: map<string, StringEntry>, order: seq<string>, id: string, e: StringEntry)
    requires IdsListed(entries, order)
    ensures IdsListed(entries[id := e], order + [id])
  {
  }

  lemma EntriesWellFormedAfterAdd(entries: map<string, StringEntry>, sha256: string -> string, e: StringEntry)
    requires EntriesWellFormed(entries, sha256) && WellFormedEntry(e, sha256)
    ensures EntriesWellFormed(entries[e.id := e], sha256)
  {
  }

  /** Inserting a well-formed record under a new id keeps the invariant. */
  lemma InvariantAfterAdd(entries: map<string, StringEntry>, order: seq<string>, sha256: string -> string, e: StringEntry)
    requires StoreInvariant(entries, order, sha256)
    requires e.id !in entries && WellFormedEntry(e, sha256)
    ensures StoreInvariant(entries[e.id := e], order + [e.id], sha256)
  {
    assert e.id !in order;
    DistinctAppend(order, e.id);
    IdsListedAfterAdd(entries, order, e.id, e);
    EntriesWellFormedAfterAdd(entries, sha256, e);
  }

  /** Removing an id from the map and from the order keeps the invariant. */
  lemma InvariantAfterRemove(entries: map<string, StringEntry>, order: seq<string>, sha256: string -> string, id: string)
    requires StoreInvariant(entries, order, sha256)
    ensures StoreInvariant(entries - {id}, Where(order, IsNot(id)), sha256)
  {
    var order' := Where(order, IsNot(id));
    WhereDistinct(order, IsNot(id));
    forall k
      ensures k in entries - {id} <==> k in order'
    {
      if k in order' {
        var i :| 0 <= i < |order'| && order'[i] == k;
        assert IsNot(id)(order'[i]);
      }
      if k in entries - {id} {
        var i :| 0 <= i < |order| && order[i] == k;
        assert IsNot(id)(order[i]);
      }
    }
  }

  // ------------------------------------------------------- response ids

  /** The "id" that the AddString and GetString responses carry: the key, an
      underscore and the value. */
  function ResponseId(e: StringEntry): (r: string)
    ensures |r| == |e.id| + 1 + |e.value|
    ensures r[..|e.id|] == e.id && r[|e.id|] == '_'
    ensures r[|e.id| + 1..] == e.value
  {
    e.id + "_" + e.value
  }

  /** As written, a response id is never a key when no hash holds an
      underscore (a lower-case hexadecimal digest holds none), so handing it
      back to GetString or DeleteString always gives NotFound. */
  lemma ResponseIdIsNotAKey(entries: map<string, StringEntry>, order: seq<string>, sha256: string -> string, e: StringEntry)
    requires StoreInvariant(entries, order, sha256)
    requires forall v :: '_' !in sha256(v)
    ensures ResponseId(e) !in entries
  {
    var r := ResponseId(e);
    assert '_' in r;
    forall k | k in entries
      ensures k != r
    {
      assert k == sha256(entries[k].value);
    }
  }

  /** With the key itself as the id a record carries, every stored record is
      found again under that id. */
  lemma {:induction false} StoredRecordsRetrievable(ids: seq<string>, entries: map<string, StringEntry>)
    requires forall k :: k in entries ==> entries[k].id == k
    ensures forall e :: e in Lookup(ids, entries) ==> e.id in entries && entries[e.id] == e
  {
    if ids != [] {
      StoredRecordsRetrievable(ids[1..], entries);
    }
  }

  /** The table of stored strings. Records are keyed by id; order lists the
      ids in insertion order, which is the order in which listings enumerate
      the records. */
  class Store {
    var entries: map<string, StringEntry>
    var order: seq<string>
    /** The SHA-256 hex digest, outside the model. */
    const sha256: string -> string

    /** Every listed id has exactly one record and every record is listed
        once; each record sits under its own id, which is the hash of its
        value; values are stored trimmed, with their metrics. */
    ghost predicate Valid()
      reads this
    {
      StoreInvariant(entries, order, sha256)
    }

    /** The stored records in enumeration order. */
    function StoredRecords(): (r: seq<StringEntry>)
      reads this
      ensures Valid() ==> |r| == |order|
    {
      Lookup(order, entries)
    }

    constructor(sha256: string -> string)
      ensures Valid()
      ensures this.sha256 == sha256
      ensures entries == map[] && order == []
    {
      this.sha256 := sha256;
      entries := map[];
      order := [];
    }

    /** AddString: rejects a body without a string "value"; otherwise trims
        the value, analyses it and stores it under its hash unless a record
        with that id exists already. */
    method AddString(body: JsonField, createdAt: Timestamp) returns (r: Response<StringEntry>)
      requires Valid()
      modifies this
      ensures Valid()
      ensures body.Missing? ==> r == Err(BadRequest(MissingValueMessage))
      ensures body.NotAString? ==> r == Err(UnprocessableEntity(WrongTypeMessage))
      ensures body.StringField? && sha256(Trim(body.text)) in old(entries) ==>
                r == Err(Conflict(AlreadyExistsMessage))
      ensures body.StringField? && sha256(Trim(body.text)) !in old(entries) ==>
                var value := Trim(body.text);
                var e := StringEntry(sha256(value), value, Analyze(value, sha256), createdAt);
                && r == Ok(e)
                && entries == old(entries)[e.id := e]
                && order == old(order) + [e.id]
                && StoredRecords() == old(StoredRecords()) + [e]
      ensures r.Err? ==> entries == old(entries) && order == old(order)
    {
      if body.Missing? {
        return Err(BadRequest(MissingValueMessage));
      }
      if body.NotAString? {
        return Err(UnprocessableEntity(WrongTypeMessage));
      }
      var value := Trim(body.text);
      var props := AnalyzeString(value, sha256);
      var id := props.sha256Hash;
      if id in entries {
        return Err(Conflict(AlreadyExistsMessage));
      }
      var entry := StringEntry(id, value, props, createdAt);
      InvariantAfterAdd(entries, order, sha256, entry);
      LookupFresh(order, entries, id, entry);
      LookupAppend(order, id, entries[id := entry]);
      entries := entries[id := entry];
      order := order + [id];
      r := Ok(entry);
    }

    /** GetString: the record stored under id, or NotFound. */
    method GetString(id: string) returns (r: Response<StringEntry>)
      ensures id in entries ==> r == Ok(entries[id])
      ensures id !in entries ==> r == Err(NotFound(DoesNotExistMessage))
    {
      if id !in entries {
        return Err(NotFound(DoesNotExistMessage));
      }
      r := Ok(entries[id]);
    }

    /** DeleteString: removes the record stored under id, or reports
        NotFound and changes nothing. */
    method DeleteString(id: string) returns (r: Response<()>)
      requires Valid()
      modifies this
      ensures Valid()
      ensures id !in old(entries) ==> r == Err(NotFound(NotFoundMessage)) && entries == old(entries) && order == old(order)
      ensures id in old(entries) ==>
                && r == Ok(())
                && entries == old(entries) - {id}
                && order == Where(old(order), IsNot(id))
                && StoredRecords() == Where(old(StoredRecords()), HasOtherId(id))
    {
      if id !in entries {
        return Err(NotFound(NotFoundMessage));
      }
      LookupRemove(order, entries, id);
      InvariantAfterRemove(entries, order, sha256, id);
      entries := entries - {id};
      order := Where(order, IsNot(id));
      r := Ok(());
    }

    /** GetAll: the records that pass the supplied query parameters, their
        number, and the parameters that were applied. */
    method GetAll(q: QueryParameters) returns (listing: Listing)
      ensures listing.data == Select(StoredRecords(), CriteriaOfQuery(q))
      ensures listing.count == |listing.data|
      ensures var applied := listing.filtersApplied;
        && applied.Keys <= FilterKeys
        && (IsPalindromeKey in applied <==> q.isPalindrome.Some?)
        && (q.isPalindrome.Some? ==> applied[IsPalindromeKey] == BoolValue(q.isPalindrome.value))
        && (MinLengthKey in applied <==> q.minLength.Some?)
        && (q.minLength.Some? ==> applied[MinLengthKey] == IntValue(q.minLength.value))
        && (MaxLengthKey in applied <==> q.maxLength.Some?)
        && (q.maxLength.Some? ==> applied[MaxLengthKey] == IntValue(q.maxLength.value))
        && (WordCountKey in applied <==> q.wordCount.Some?)
        && (q.wordCount.Some? ==> applied[WordCountKey] == IntValue(q.wordCount.value))
        && (ContainsCharacterKey in applied <==> HasContainsCharacter(q))
        && (HasContainsCharacter(q) ==> applied[ContainsCharacterKey] == StringValue(q.containsCharacter.value))
    {
      var applied: map<string, FilterValue> := map[];
      if q.isPalindrome.Some? {
        applied := applied[IsPalindromeKey := BoolValue(q.isPalindrome.value)];
      }
      if q.minLength.Some? {
        applied := applied[MinLengthKey := IntValue(q.minLength.value)];
      }
      if q.maxLength.Some? {
        applied := applied[MaxLengthKey := IntValue(q.maxLength.value)];
      }
      if q.wordCount.Some? {
        applied := applied[WordCountKey := IntValue(q.wordCount.value)];
      }
      if HasContainsCharacter(q) {
        applied := applied[ContainsCharacterKey := StringValue(q.containsCharacter.value)];
      }
      var results := ApplyCriteria(StoredRecords(), CriteriaOfQuery(q));
      listing := Listing(results, |results|, applied);
    }

    /** FilterByNaturalLanguage: rejects a blank query, then a query the
        parser finds no filter in; otherwise applies the parsed filters. */
    method FilterByNaturalLanguage(query: string) returns (r: Response<Interpretation>)
      ensures IsBlank(query) ==> r == Err(BadRequest(QueryRequiredMessage))
      ensures !IsBlank(query) && ParsedFilters(ToLowerInvariant(query)) == map[] ==>
                r == Err(UnprocessableEntity(NoFiltersFound))
      ensures !IsBlank(query) && ParsedFilters(ToLowerInvariant(query)) != map[] ==>
                var filters := ParsedFilters(ToLowerInvariant(query));
                var data := Select(StoredRecords(), CriteriaOfParsed(filters));
                r == Ok(Interpretation(|data|, query, filters, data))
    {
      if IsBlank(query) {
        return Err(BadRequest(QueryRequiredMessage));
      }
      var success, filters, error := Parse(query);
      if !success {
        return Err(UnprocessableEntity(error.value));
      }
      var results := ApplyCriteria(StoredRecords(), CriteriaOfParsed(filters));
      r := Ok(Interpretation(|results|, query, filters, results));
    }
  }
}
