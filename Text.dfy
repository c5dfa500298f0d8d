/** Character classes and string operations shared by the metrics computer,
    the natural-language parser and the filter engine. A string is a sequence
    of characters; lower-casing and case-insensitive comparison are ASCII-only. */
module Text {

  /** The characters that .NET's char.IsWhiteSpace accepts: the controls
      U+0009..U+000D, U+0085, and the Unicode space, line and paragraph
      separators. */
  predicate IsWhiteSpace(c: char)
  {
    || c == ' ' || ('\t' <= c <= '\r') || c == '\U{0085}' || c == '\U{00A0}'
    || c == '\U{1680}' || ('\U{2000}' <= c <= '\U{200A}') || c == '\U{2028}'
    || c == '\U{2029}' || c == '\U{202F}' || c == '\U{205F}' || c == '\U{3000}'
  }

  /** string.IsNullOrWhiteSpace on a non-null string: every character is
      white space, so the empty string qualifies. */
  predicate IsBlank(s: string)
  {
    forall i :: 0 <= i < |s| ==> IsWhiteSpace(s[i])
  }

  predicate IsAsciiDigit(c: char) { '0' <= c <= '9' }

  predicate IsAsciiLower(c: char) { 'a' <= c <= 'z' }

  predicate IsAsciiUpper(c: char) { 'A' <= c <= 'Z' }

  /** The class [a-zA-Z0-9]. */
  predicate IsAsciiAlphanumeric(c: char)
  {
    IsAsciiDigit(c) || IsAsciiLower(c) || IsAsciiUpper(c)
  }

  /** Lower-cases an ASCII capital and leaves every other character alone. */
  function ToLowerAscii(c: char): (r: char)
    ensures !IsAsciiUpper(r)
    ensures IsAsciiUpper(c) ==> IsAsciiLower(r)
    ensures !IsAsciiUpper(c) ==> r == c
  {
    if IsAsciiUpper(c) then (c as int + 32) as char else c
  }

  /** ToLowerInvariant, restricted to ASCII: the same length, character by
      character lower-cased. */
  function ToLowerInvariant(s: string): (r: string)
    ensures |r| == |s|
    ensures forall i :: 0 <= i < |s| ==> r[i] == ToLowerAscii(s[i])
  {
    seq(|s|, i requires 0 <= i < |s| => ToLowerAscii(s[i]))
  }

  /** Lower-casing a non-empty string lower-cases its head and its tail. */
  lemma ToLowerInvariantCons(s: string)
    requires s != []
    ensures ToLowerInvariant(s) == [ToLowerAscii(s[0])] + ToLowerInvariant(s[1..])
  {
    var r := ToLowerInvariant(s);
    var t := [ToLowerAscii(s[0])] + ToLowerInvariant(s[1..]);
    assert |r| == |t|;
    forall i | 0 <= i < |r|
      ensures r[i] == t[i]
    {
      if i > 0 {
        assert t[i] == ToLowerInvariant(s[1..])[i - 1] == ToLowerAscii(s[1..][i - 1]);
      }
    }
  }

  /** string.Equals(a, b, StringComparison.OrdinalIgnoreCase) on ASCII. */
  predicate EqualsIgnoreCase(a: string, b: string)
  {
    |a| == |b| && forall i :: 0 <= i < |a| ==> ToLowerAscii(a[i]) == ToLowerAscii(b[i])
  }

  /** w occurs in s starting at position p. */
  predicate StartsAt(s: string, p: nat, w: string)
  {
    p + |w| <= |s| && s[p..p + |w|] == w
  }

  /** Ordinal substring test (string.Contains), as a left-to-right scan. */
  predicate Contains(s: string, w: string)
    decreases |s|
  {
    StartsAt(s, 0, w) || (|s| > 0 && Contains(s[1..], w))
  }

  /** The scan finds w exactly when w occurs at some position of s. */
  lemma {:induction false} ContainsIff(s: string, w: string)
    ensures Contains(s, w) <==> exists p: nat :: StartsAt(s, p, w)
    decreases |s|
  {
    if |s| > 0 {
      ContainsIff(s[1..], w);
      if Contains(s[1..], w) {
        var p: nat :| StartsAt(s[1..], p, w);
        assert s[1..][p..p + |w|] == s[p + 1..p + 1 + |w|];
        assert StartsAt(s, p + 1, w);
      }
      if p: nat :| StartsAt(s, p, w) && p > 0 {
        assert s[1..][p - 1..p - 1 + |w|] == s[p..p + |w|];
        assert StartsAt(s[1..], p - 1, w);
      }
    } else if p: nat :| StartsAt(s, p, w) {
      assert p == 0;
    }
  }

  /** An occurrence of a word that contains an inner word is an occurrence of
      the inner word too. */
  lemma ContainsInner(s: string, outer: string, k: nat, inner: string)
    requires StartsAt(outer, k, inner)
    requires Contains(s, outer)
    ensures Contains(s, inner)
  {
    ContainsIff(s, outer);
    var p: nat :| StartsAt(s, p, outer);
    forall i | 0 <= i < |inner|
      ensures s[p + k..p + k + |inner|][i] == inner[i]
    {
      assert s[p + k + i] == s[p..p + |outer|][k + i] == outer[k + i];
      assert outer[k + i] == outer[k..k + |inner|][i];
    }
    assert StartsAt(s, p + k, inner);
    ContainsIff(s, inner);
  }

  /** w does not occur in s when its i-th character is missing from every
      position of s where that character would have to sit. */
  lemma NotContainsAt(s: string, w: string, i: nat)
    requires i < |w| <= |s|
    requires w[i] !in s[i..|s| - |w| + i + 1]
    ensures !Contains(s, w)
  {
    forall p: nat | p + |w| <= |s|
      ensures !StartsAt(s, p, w)
    {
      assert s[i..|s| - |w| + i + 1][p] == s[p + i] == s[p..p + |w|][i];
    }
    ContainsIff(s, w);
  }

  /** Ordinal ignore-case substring test (string.Contains with
      StringComparison.OrdinalIgnoreCase) on ASCII. */
  predicate ContainsIgnoreCase(s: string, w: string)
  {
    Contains(ToLowerInvariant(s), ToLowerInvariant(w))
  }

  /** The index of the first character at or after i that is not white
      space, or |s| when there is none. */
  function SkipWhiteSpace(s: string, i: nat): (n: nat)
    requires i <= |s|
    ensures i <= n <= |s|
    ensures forall k :: i <= k < n ==> IsWhiteSpace(s[k])
    ensures n < |s| ==> !IsWhiteSpace(s[n])
    decreases |s| - i
  {
    if i < |s| && IsWhiteSpace(s[i]) then SkipWhiteSpace(s, i + 1) else i
  }

  /** The end of s[lo..j] once its trailing white space is dropped. */
  function SkipWhiteSpaceBack(s: string, lo: nat, j: nat): (m: nat)
    requires lo <= j <= |s|
    ensures lo <= m <= j
    ensures forall k :: m <= k < j ==> IsWhiteSpace(s[k])
    ensures lo < m ==> !IsWhiteSpace(s[m - 1])
    decreases j
  {
    if lo < j && IsWhiteSpace(s[j - 1]) then SkipWhiteSpaceBack(s, lo, j - 1) else j
  }

  /** Neither starts nor ends with white space. */
  predicate IsTrimmed(s: string)
  {
    s == [] || (!IsWhiteSpace(s[0]) && !IsWhiteSpace(s[|s| - 1]))
  }

  /** String.Trim(): drops the leading and the trailing white space. */
  function Trim(s: string): (r: string)
    ensures |r| <= |s|
    ensures IsTrimmed(r)
  {
    var i := SkipWhiteSpace(s, 0);
    s[i..SkipWhiteSpaceBack(s, i, |s|)]
  }

  /** What Trim keeps is a slice of s, and everything it drops on either side
      is white space. */
  lemma TrimIsSlice(s: string)
    ensures exists i: nat, j: nat {:trigger s[i..j]} :: i <= j <= |s| && Trim(s) == s[i..j] && IsBlank(s[..i]) && IsBlank(s[j..])
  {
    var i := SkipWhiteSpace(s, 0);
    var j := SkipWhiteSpaceBack(s, i, |s|);
    forall k | 0 <= k < i
      ensures IsWhiteSpace(s[..i][k])
    {
      assert s[..i][k] == s[k];
    }
    forall k | 0 <= k < |s| - j
      ensures IsWhiteSpace(s[j..][k])
    {
      assert s[j..][k] == s[j + k];
    }
    assert Trim(s) == s[i..j];
  }

  /** Trimming a trimmed string changes nothing. */
  lemma TrimIdempotent(s: string)
    ensures Trim(Trim(s)) == Trim(s)
  {
    var r := Trim(s);
    var i := SkipWhiteSpace(r, 0);
    assert i == 0;
    assert SkipWhiteSpaceBack(r, i, |r|) == |r|;
    assert r[0..|r|] == r;
  }

  /** A string trims to the empty string exactly when it is blank. */
  lemma TrimEmptyIffBlank(s: string)
    ensures IsBlank(s) <==> Trim(s) == []
  {
    var i := SkipWhiteSpace(s, 0);
    var j := SkipWhiteSpaceBack(s, i, |s|);
    if IsBlank(s) {
      assert i == |s|;
    }
    if Trim(s) == [] {
      assert i == |s|;
    }
  }

  /** The characters of s in reverse order. */
  function Reverse<T>(s: seq<T>): (r: seq<T>)
    ensures |r| == |s|
    ensures forall i :: 0 <= i < |s| ==> r[i] == s[|s| - 1 - i]
  {
    if s == [] then [] else Reverse(s[1..]) + [s[0]]
  }

  /** The elements of s that satisfy keep, in their original order (LINQ's
      Where, Regex.Replace with an empty replacement for a character class). */
  function Where<T>(s: seq<T>, keep: T -> bool): (r: seq<T>)
    ensures |r| <= |s|
    ensures forall i :: 0 <= i < |r| ==> r[i] in s && keep(r[i])
    ensures forall i :: 0 <= i < |s| && keep(s[i]) ==> s[i] in r
  {
    if s == [] then [] else (if keep(s[0]) then [s[0]] else []) + Where(s[1..], keep)
  }

  /** Filtering distributes over concatenation, so the relative order of the
      kept elements is the order they had in the input. */
  lemma {:induction false} WhereConcat<T>(a: seq<T>, b: seq<T>, keep: T -> bool)
    ensures Where(a + b, keep) == Where(a, keep) + Where(b, keep)
  {
    if a != [] {
      assert (a + b)[0] == a[0];
      assert (a + b)[1..] == a[1..] + b;
      WhereConcat(a[1..], b, keep);
      var head := if keep(a[0]) then [a[0]] else [];
      calc {
        Where(a + b, keep);
        head + Where(a[1..] + b, keep);
        head + (Where(a[1..], keep) + Where(b, keep));
        (head + Where(a[1..], keep)) + Where(b, keep);
      }
    } else {
      assert a + b == b;
    }
  }

  /** Filtering by f and then by g is filtering once by their conjunction. */
  lemma {:induction false} WhereWhere<T>(s: seq<T>, f: T -> bool, g: T -> bool, h: T -> bool)
    requires forall x :: h(x) == (f(x) && g(x))
    ensures Where(Where(s, f), g) == Where(s, h)
  {
    if s != [] {
      WhereWhere(s[1..], f, g, h);
      var rest := Where(s[1..], f);
      if f(s[0]) {
        assert Where(s, f) == [s[0]] + rest;
        assert ([s[0]] + rest)[0] == s[0];
        assert ([s[0]] + rest)[1..] == rest;
      } else {
        assert Where(s, f) == rest;
      }
    }
  }

  /** A filter that keeps every element returns the input itself. */
  lemma {:induction false} WhereKeepsAll<T>(s: seq<T>, keep: T -> bool)
    requires forall i :: 0 <= i < |s| ==> keep(s[i])
    ensures Where(s, keep) == s
  {
    if s != [] {
      WhereKeepsAll(s[1..], keep);
    }
  }

  /** A filter that keeps no element returns the empty sequence. */
  lemma {:induction false} WhereKeepsNone<T>(s: seq<T>, keep: T -> bool)
    requires forall i :: 0 <= i < |s| ==> !keep(s[i])
    ensures Where(s, keep) == []
  {
    if s != [] {
      WhereKeepsNone(s[1..], keep);
    }
  }

  /** No element occurs twice in s. */
  predicate Distinct<T(==)>(s: seq<T>)
  {
    forall i, j :: 0 <= i < j < |s| ==> s[i] != s[j]
  }

  /** Appending an element that does not occur yet keeps a sequence free of
      repetitions. */
  lemma DistinctAppend<T>(s: seq<T>, x: T)
    requires Distinct(s) && x !in s
    ensures Distinct(s + [x])
  {
    var t := s + [x];
    forall i, j | 0 <= i < j < |t|
      ensures t[i] != t[j]
    {
      assert t[i] == s[i];
    }
  }

  /** A filter never introduces a repetition. */
  lemma {:induction false} WhereDistinct<T>(s: seq<T>, keep: T -> bool)
    requires Distinct(s)
    ensures Distinct(Where(s, keep))
  {
    if s != [] {
      WhereDistinct(s[1..], keep);
      var rest := Where(s[1..], keep);
      assert forall i :: 0 <= i < |rest| ==> rest[i] in s[1..];
      assert s[0] !in s[1..];
      if keep(s[0]) {
        var r := [s[0]] + rest;
        assert Where(s, keep) == r;
        forall i, j | 0 <= i < j < |r|
          ensures r[i] != r[j]
        {
          if i == 0 {
            assert r[j] == rest[j - 1];
          } else {
            assert r[i] == rest[i - 1] && r[j] == rest[j - 1];
          }
        }
      } else {
        assert Where(s, keep) == rest;
      }
    }
  }

  /** The index just past the run of ASCII digits that starts at p. */
  function DigitRunEnd(s: string, p: nat): (q: nat)
    requires p <= |s|
    ensures p <= q <= |s|
    ensures forall i :: p <= i < q ==> IsAsciiDigit(s[i])
    ensures q == |s| || !IsAsciiDigit(s[q])
    decreases |s| - p
  {
    if p < |s| && IsAsciiDigit(s[p]) then DigitRunEnd(s, p + 1) else p
  }

  predicate AllDigits(s: string)
  {
    forall i :: 0 <= i < |s| ==> IsAsciiDigit(s[i])
  }

  /** int.Parse of a string of ASCII digits: its decimal value. */
  function DecimalValue(digits: string): (n: nat)
    requires AllDigits(digits)
  {
    if digits == [] then 0
    else 10 * DecimalValue(digits[..|digits| - 1]) + (digits[|digits| - 1] as int - '0' as int)
  }
}
