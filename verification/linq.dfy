/**
 * The LINQ operators the core relies on: `OrderBy`/`OrderByDescending` (a stable sort),
 * `Take` and `SelectMany`, as used for word layout, region merging, token streams and
 * search ranking.
 *
 * `before(a, b)` means that `a` must come before `b` (for `OrderByDescending(k)`,
 * `k(a) > k(b)`); elements for which neither comes before the other keep their input order.
 */
module Linq {
  /** `Enumerable.Take(s, n)`: a negative count takes nothing. */
  function Take<T>(s: seq<T>, n: int): (r: seq<T>)
    ensures |r| == if n <= 0 then 0 else if n < |s| then n else |s|
    ensures forall i :: 0 <= i < |r| ==> r[i] == s[i]
  {
    if n <= 0 then [] else if n < |s| then s[..n] else s
  }

  /** Puts `x` after the elements of `s` that come before it, and before all the others. */
  function Insert<T>(x: T, s: seq<T>, before: (T, T) -> bool): (r: seq<T>)
    ensures |r| == |s| + 1
  {
    if s == [] then [x]
    else if before(s[0], x) then [s[0]] + Insert(x, s[1..], before)
    else [x] + s
  }

  /** Stable insertion sort: every element is inserted ahead of its equals from later in the input. */
  function SortBy<T>(s: seq<T>, before: (T, T) -> bool): (r: seq<T>)
  {
    if s == [] then [] else Insert(s[0], SortBy(s[1..], before), before)
  }

  /** The position at which `Insert` places `x`. */
  function InsertPos<T>(x: T, s: seq<T>, before: (T, T) -> bool): (k: nat)
    ensures k <= |s|
    ensures forall i :: 0 <= i < k ==> before(s[i], x)
    ensures k < |s| ==> !before(s[k], x)
  {
    if s == [] || !before(s[0], x) then 0 else 1 + InsertPos(x, s[1..], before)
  }

  lemma {:induction false} InsertAt<T>(x: T, s: seq<T>, before: (T, T) -> bool)
    ensures Insert(x, s, before) == s[..InsertPos(x, s, before)] + [x] + s[InsertPos(x, s, before)..]
    decreases |s|
  {
    if s != [] && before(s[0], x) {
      InsertAt(x, s[1..], before);
      var k := InsertPos(x, s[1..], before);
      assert s[..k + 1] == [s[0]] + s[1..][..k];
      assert s[k + 1..] == s[1..][k..];
    }
  }

  lemma {:induction false} InsertPermutes<T>(x: T, s: seq<T>, before: (T, T) -> bool)
    ensures |Insert(x, s, before)| == |s| + 1
    ensures multiset(Insert(x, s, before)) == multiset(s) + multiset{x}
    decreases |s|
  {
    if s != [] {
      assert s == [s[0]] + s[1..];
      if before(s[0], x) {
        InsertPermutes(x, s[1..], before);
      }
    }
  }

  /** Sorting rearranges its input: same length, same elements with the same multiplicities. */
  lemma {:induction false} SortByPermutes<T>(s: seq<T>, before: (T, T) -> bool)
    ensures |SortBy(s, before)| == |s|
    ensures multiset(SortBy(s, before)) == multiset(s)
    decreases |s|
  {
    if s != [] {
      SortByPermutes(s[1..], before);
      InsertPermutes(s[0], SortBy(s[1..], before), before);
      assert s == [s[0]] + s[1..];
    }
  }

  /** `before` is a strict weak order: asymmetric, and "not before" is transitive. */
  ghost predicate StrictWeakOrder<T(!new)>(before: (T, T) -> bool)
  {
    (forall a, b :: before(a, b) ==> !before(b, a))
    && (forall a, b, c :: !before(a, b) && !before(b, c) ==> !before(a, c))
  }

  /** No element comes before an element that precedes it. */
  ghost predicate Ordered<T>(s: seq<T>, before: (T, T) -> bool)
  {
    forall i, j :: 0 <= i < j < |s| ==> !before(s[j], s[i])
  }

  lemma {:induction false} InsertOrdered<T(!new)>(x: T, s: seq<T>, before: (T, T) -> bool)
    requires StrictWeakOrder(before)
    requires Ordered(s, before)
    ensures Ordered(Insert(x, s, before), before)
  {
    InsertAt(x, s, before);
    var k := InsertPos(x, s, before);
    var r := Insert(x, s, before);
    forall i, j | 0 <= i < j < |r|
      ensures !before(r[j], r[i])
    {
      if j < k || i > k {
      } else if i < k && j == k {
      } else if i < k && j > k {
      } else {
        assert i == k && j > k;
        assert !before(s[k], x);
        assert j - 1 == k || !before(s[j - 1], s[k]);
      }
    }
  }

  /** Under a strict weak order the result is sorted. */
  lemma {:induction false} SortByOrdered<T(!new)>(s: seq<T>, before: (T, T) -> bool)
    requires StrictWeakOrder(before)
    ensures Ordered(SortBy(s, before), before)
    decreases |s|
  {
    if s != [] {
      SortByOrdered(s[1..], before);
      InsertOrdered(s[0], SortBy(s[1..], before), before);
    }
  }

  /** Each element paired with its input position. */
  function Tagged<T>(s: seq<T>): (r: seq<(nat, T)>)
    ensures |r| == |s|
    ensures forall i :: 0 <= i < |s| ==> r[i] == (i, s[i])
  {
    seq(|s|, i requires 0 <= i < |s| => (i as nat, s[i]))
  }

  function Untagged<T>(t: seq<(nat, T)>): (r: seq<T>)
    ensures |r| == |t|
    ensures forall i :: 0 <= i < |t| ==> r[i] == t[i].1
  {
    seq(|t|, i requires 0 <= i < |t| => t[i].1)
  }

  /** `before` applied to the elements of tagged pairs. */
  function OnValues<T>(before: (T, T) -> bool): ((nat, T), (nat, T)) -> bool
  {
    (p: (nat, T), q: (nat, T)) => before(p.1, q.1)
  }

  lemma {:induction false} UntaggedInsert<T>(x: (nat, T), t: seq<(nat, T)>, before: (T, T) -> bool)
    ensures Untagged(Insert(x, t, OnValues(before))) == Insert(x.1, Untagged(t), before)
    decreases |t|
  {
    if t != [] && before(t[0].1, x.1) {
      UntaggedInsert(x, t[1..], before);
      assert Untagged(t)[1..] == Untagged(t[1..]);
    }
  }

  lemma {:induction false} UntaggedSortBy<T>(t: seq<(nat, T)>, before: (T, T) -> bool)
    ensures Untagged(SortBy(t, OnValues(before))) == SortBy(Untagged(t), before)
    decreases |t|
  {
    if t != [] {
      UntaggedSortBy(t[1..], before);
      UntaggedInsert(t[0], SortBy(t[1..], OnValues(before)), before);
      assert Untagged(t)[1..] == Untagged(t[1..]);
    }
  }

  /** Tagged elements whose values are tied appear in increasing order of tag. */
  ghost predicate TiesByTag<T>(r: seq<(nat, T)>, before: (T, T) -> bool)
  {
    forall i, j :: 0 <= i < j < |r| && !before(r[i].1, r[j].1) && !before(r[j].1, r[i].1) ==> r[i].0 < r[j].0
  }

  /** Putting `h` in front keeps tied elements in tag order when `h`'s tag is below every tie of it. */
  lemma {:induction false} ConsKeepsTieOrder<T>(h: (nat, T), rest: seq<(nat, T)>, before: (T, T) -> bool)
    requires TiesByTag(rest, before)
    requires forall k :: 0 <= k < |rest| && !before(h.1, rest[k].1) && !before(rest[k].1, h.1) ==> h.0 < rest[k].0
    ensures TiesByTag([h] + rest, before)
  {
    var r := [h] + rest;
    forall i, j | 0 <= i < j < |r| && !before(r[i].1, r[j].1) && !before(r[j].1, r[i].1)
      ensures r[i].0 < r[j].0
    {
      assert r[j] == rest[j - 1];
      if i > 0 {
        assert r[i] == rest[i - 1];
      }
    }
  }

  /** Inserting an element tagged below every tag already present keeps tied elements in tag order. */
  lemma {:induction false} InsertKeepsTieOrder<T>(x: (nat, T), u: seq<(nat, T)>, before: (T, T) -> bool)
    requires TiesByTag(u, before)
    requires forall y :: y in u ==> x.0 < y.0
    ensures TiesByTag(Insert(x, u, OnValues(before)), before)
    decreases |u|
  {
    if u == [] {
    } else if before(u[0].1, x.1) {
      var rest := Insert(x, u[1..], OnValues(before));
      assert TiesByTag(u[1..], before) by {
        forall i, j | 0 <= i < j < |u[1..]|
          ensures u[1..][i] == u[i + 1] && u[1..][j] == u[j + 1]
        {
        }
      }
      InsertKeepsTieOrder(x, u[1..], before);
      InsertPermutes(x, u[1..], OnValues(before));
      forall k | 0 <= k < |rest| && !before(u[0].1, rest[k].1) && !before(rest[k].1, u[0].1)
        ensures u[0].0 < rest[k].0
      {
        var y := rest[k];
        assert y != x;
        assert y in multiset(rest);
        assert y in u[1..];
        var m :| 1 <= m < |u| && u[m] == y;
      }
      ConsKeepsTieOrder(u[0], rest, before);
    } else {
      forall k | 0 <= k < |u|
        ensures x.0 < u[k].0
      {
        assert u[k] in u;
      }
      ConsKeepsTieOrder(x, u, before);
    }
  }

  lemma {:induction false} SortByKeepsTieOrder<T>(t: seq<(nat, T)>, before: (T, T) -> bool)
    requires forall i, j :: 0 <= i < j < |t| ==> t[i].0 < t[j].0
    ensures TiesByTag(SortBy(t, OnValues(before)), before)
    decreases |t|
  {
    if t != [] {
      var u := SortBy(t[1..], OnValues(before));
      SortByKeepsTieOrder(t[1..], before);
      SortByPermutes(t[1..], OnValues(before));
      forall y | y in u
        ensures t[0].0 < y.0
      {
        assert y in multiset(t[1..]);
      }
      InsertKeepsTieOrder(t[0], u, before);
    }
  }

  /**
   * Stability: sorting the input tagged with its positions orders it the same way,
   * and tied elements keep their relative input order.
   */
  lemma {:induction false} SortByStable<T>(s: seq<T>, before: (T, T) -> bool)
    ensures Untagged(SortBy(Tagged(s), OnValues(before))) == SortBy(s, before)
    ensures TiesByTag(SortBy(Tagged(s), OnValues(before)), before)
  {
    UntaggedSortBy(Tagged(s), before);
    assert Untagged(Tagged(s)) == s;
    SortByKeepsTieOrder(Tagged(s), before);
  }

  /**
   * Taking a prefix of the sorted sequence keeps the first elements of the order: what is
   * taken comes from the input, and nothing left out comes before anything taken.
   */
  lemma {:induction false} TakeSortedIsTop<T(!new)>(s: seq<T>, before: (T, T) -> bool, n: int)
    requires StrictWeakOrder(before)
    ensures multiset(Take(SortBy(s, before), n)) <= multiset(s)
    ensures var r := Take(SortBy(s, before), n);
      forall x, i :: x in multiset(s) - multiset(r) && 0 <= i < |r| ==> !before(x, r[i])
  {
    var sorted := SortBy(s, before);
    var r := Take(sorted, n);
    SortByPermutes(s, before);
    SortByOrdered(s, before);
    var k := |r|;
    var rest := sorted[k..];
    assert r == sorted[..k];
    assert sorted == r + rest;
    assert multiset(s) == multiset(r) + multiset(rest);
    forall x, i | x in multiset(s) - multiset(r) && 0 <= i < |r|
      ensures !before(x, r[i])
    {
      assert x in multiset(rest);
      RestNotBefore(sorted, before, k, x, i);
    }
  }

  /** In an ordered sequence nothing after position k comes before anything ahead of it. */
  lemma {:induction false} RestNotBefore<T>(sorted: seq<T>, before: (T, T) -> bool, k: nat, x: T, i: nat)
    requires Ordered(sorted, before) && i < k <= |sorted| && x in multiset(sorted[k..])
    ensures !before(x, sorted[i])
  {
    var rest := sorted[k..];
    var m :| 0 <= m < |rest| && rest[m] == x;
    assert sorted[k + m] == x;
  }

  /** `SelectMany` over a sequence of sequences: the parts concatenated in order. */
  function Flatten<T>(parts: seq<seq<T>>): seq<T>
  {
    if parts == [] then [] else Flatten(parts[..|parts| - 1]) + parts[|parts| - 1]
  }

  lemma {:induction false} FlattenSplit<T>(parts: seq<seq<T>>, i: nat)
    requires i <= |parts|
    ensures Flatten(parts) == Flatten(parts[..i]) + Flatten(parts[i..])
    decreases |parts|
  {
    if i == |parts| {
      assert parts[..i] == parts && parts[i..] == [];
    } else {
      var n := |parts| - 1;
      var init := parts[..n];
      FlattenSplit(init, i);
      assert init[..i] == parts[..i];
      var tail := parts[i..];
      assert tail[..|tail| - 1] == init[i..];
      assert tail[|tail| - 1] == parts[n];
    }
  }

  lemma {:induction false} FlattenAppend<T>(parts: seq<seq<T>>, p: seq<T>)
    ensures Flatten(parts + [p]) == Flatten(parts) + p
  {
    assert (parts + [p])[..|parts|] == parts;
  }
}
