/**
 * The .NET string operations the core relies on: `char.IsWhiteSpace`,
 * `string.IsNullOrWhiteSpace`, `Trim`, `string.Join`, `Split(' ', RemoveEmptyEntries)`
 * and ordinal case-insensitive comparison.
 */
module Text {
  /** `char.IsWhiteSpace`: the Unicode White_Space characters as .NET classifies them. */
  predicate IsWhiteSpace(c: char)
  {
    ('\U{9}' <= c <= '\U{D}') || c == ' ' || c == '\U{85}' || c == '\U{A0}'
    || c == '\U{1680}' || ('\U{2000}' <= c <= '\U{200A}') || c == '\U{2028}' || c == '\U{2029}'
    || c == '\U{202F}' || c == '\U{205F}' || c == '\U{3000}'
  }

  /** `string.IsNullOrWhiteSpace` for a non-null string. */
  predicate IsBlank(s: string)
  {
    forall i :: 0 <= i < |s| ==> IsWhiteSpace(s[i])
  }

  /** `String.Trim()`: drops leading and trailing white space. */
  function Trim(s: string): (r: string)
    ensures r == [] <==> IsBlank(s)
    ensures r != [] ==> !IsWhiteSpace(r[0]) && !IsWhiteSpace(r[|r| - 1])
    ensures exists i, j :: 0 <= i <= j <= |s| && r == s[i..j] && IsBlank(s[..i]) && IsBlank(s[j..])
  {
    var i := SkipWhiteSpace(s, 0);
    var j := ContentEnd(s, i, |s|);
    assert IsBlank(s) ==> i == |s|;
    assert i == j ==> forall k :: 0 <= k < |s| ==> IsWhiteSpace(s[k]);
    s[i..j]
  }

  /** The first index at or after `i` that holds no white space, or `|s|`. */
  function SkipWhiteSpace(s: string, i: nat): (r: nat)
    requires i <= |s|
    ensures i <= r <= |s|
    ensures forall k :: i <= k < r ==> IsWhiteSpace(s[k])
    ensures r < |s| ==> !IsWhiteSpace(s[r])
    decreases |s| - i
  {
    if i == |s| || !IsWhiteSpace(s[i]) then i else SkipWhiteSpace(s, i + 1)
  }

  /** The end of `s[lo..j]` once its trailing white space is dropped. */
  function ContentEnd(s: string, lo: nat, j: nat): (r: nat)
    requires lo <= j <= |s|
    ensures lo <= r <= j
    ensures forall k :: r <= k < j ==> IsWhiteSpace(s[k])
    ensures r > lo ==> !IsWhiteSpace(s[r - 1])
    decreases j
  {
    if j == lo || !IsWhiteSpace(s[j - 1]) then j else ContentEnd(s, lo, j - 1)
  }

  /** `string.Join(sep, parts)`. */
  function Join(parts: seq<string>, sep: string): (r: string)
    ensures parts == [] ==> r == []
    ensures |parts| == 1 ==> r == parts[0]
  {
    if parts == [] then []
    else if |parts| == 1 then parts[0]
    else parts[0] + sep + Join(parts[1..], sep)
  }

  /**
   * `s.Split(sep, StringSplitOptions.RemoveEmptyEntries)`: the maximal runs of
   * characters other than `sep`, in order.
   */
  function SplitRemoveEmpty(s: string, sep: char): (r: seq<string>)
  {
    SplitFrom(s, sep, [])
  }

  /** Splitting `s` when the characters of `pending` have already been read into the current field. */
  function SplitFrom(s: string, sep: char, pending: string): (r: seq<string>)
    decreases |s|
  {
    if s == [] then (if pending == [] then [] else [pending])
    else if s[0] == sep then (if pending == [] then [] else [pending]) + SplitFrom(s[1..], sep, [])
    else SplitFrom(s[1..], sep, pending + [s[0]])
  }

  /** A field that `SplitRemoveEmpty` can return unchanged: nonempty and free of the separator. */
  predicate IsField(w: string, sep: char)
  {
    w != [] && sep !in w
  }

  lemma {:induction false} SplitFields(s: string, sep: char, pending: string)
    requires sep !in pending
    ensures forall w :: w in SplitFrom(s, sep, pending) ==> IsField(w, sep)
    decreases |s|
  {
    if s == [] {
    } else if s[0] == sep {
      SplitFields(s[1..], sep, []);
    } else {
      SplitFields(s[1..], sep, pending + [s[0]]);
    }
  }

  /** Every field produced by the split is nonempty and contains no separator. */
  lemma {:induction false} SplitRemoveEmptyFields(s: string, sep: char)
    ensures forall w :: w in SplitRemoveEmpty(s, sep) ==> IsField(w, sep)
  {
    SplitFields(s, sep, []);
  }

  lemma {:induction false} SplitSkipsField(w: string, rest: string, sep: char, pending: string)
    requires sep !in w
    ensures SplitFrom(w + rest, sep, pending) == SplitFrom(rest, sep, pending + w)
    decreases |w|
  {
    if w != [] {
      assert (w + rest)[0] == w[0];
      assert (w + rest)[1..] == w[1..] + rest;
      assert pending + [w[0]] + w[1..] == pending + w;
      SplitSkipsField(w[1..], rest, sep, pending + [w[0]]);
    } else {
      assert w + rest == rest;
      assert pending + w == pending;
    }
  }

  /** Splitting a join of fields on the same separator gives the fields back. */
  lemma {:induction false} SplitJoinRoundTrip(parts: seq<string>, sep: char)
    requires forall w :: w in parts ==> IsField(w, sep)
    ensures SplitRemoveEmpty(Join(parts, [sep]), sep) == parts
    decreases |parts|
  {
    if parts == [] {
    } else if |parts| == 1 {
      assert parts[0] in parts;
      SplitSkipsField(parts[0], [], sep, []);
      assert parts[0] + [] == parts[0] && [] + parts[0] == parts[0];
      assert parts == [parts[0]];
    } else {
      assert parts[0] in parts;
      var rest := Join(parts[1..], [sep]);
      assert Join(parts, [sep]) == parts[0] + ([sep] + rest);
      SplitSkipsField(parts[0], [sep] + rest, sep, []);
      assert ([sep] + rest)[1..] == rest && ([sep] + rest)[0] == sep;
      assert [] + parts[0] == parts[0];
      assert SplitFrom([sep] + rest, sep, parts[0]) == [parts[0]] + SplitFrom(rest, sep, []);
      SplitJoinRoundTrip(parts[1..], sep);
      assert [parts[0]] + parts[1..] == parts;
    }
  }

  /** Ordinal upper-casing restricted to ASCII letters. */
  function UpperAscii(c: char): (r: char)
    ensures 'a' <= c <= 'z' ==> r as int == c as int - 32
    ensures !('a' <= c <= 'z') ==> r == c
  {
    if 'a' <= c <= 'z' then (c as int - 32) as char else c
  }

  /** `string.Equals(a, b, StringComparison.OrdinalIgnoreCase)` on ASCII case. */
  predicate EqualsIgnoreCase(a: string, b: string)
  {
    |a| == |b| && forall i :: 0 <= i < |a| ==> UpperAscii(a[i]) == UpperAscii(b[i])
  }

  /** `s.Contains(t, StringComparison.OrdinalIgnoreCase)` on ASCII case. */
  predicate ContainsIgnoreCase(s: string, t: string)
  {
    exists i :: 0 <= i <= |s| && MatchesAt(s, t, i)
  }

  /** `t` occurs in `s` at index `i`, ignoring ASCII case. */
  predicate MatchesAt(s: string, t: string, i: int)
  {
    0 <= i <= |s| - |t| && EqualsIgnoreCase(s[i..i + |t|], t)
  }

  /** Case-insensitive equality is an equivalence: the lookups built on it are well defined. */
  lemma {:induction false} EqualsIgnoreCaseIsEquivalence(a: string, b: string, c: string)
    ensures EqualsIgnoreCase(a, a)
    ensures EqualsIgnoreCase(a, b) ==> EqualsIgnoreCase(b, a)
    ensures EqualsIgnoreCase(a, b) && EqualsIgnoreCase(b, c) ==> EqualsIgnoreCase(a, c)
  {
  }
}
