/**
 * The shape shared by the repositories' list queries: an ORDER BY on one
 * integer key, then OFFSET and LIMIT.  Sorting is a stable insertion sort;
 * the queries promise nothing about the order of rows with equal keys, and
 * the lemmas below claim nothing about it either.
 */
module Listing {

  /** `key` never decreases along `s`. */
  ghost predicate SortedBy<T>(s: seq<T>, key: T -> int) {
    forall i, j :: 0 <= i < j < |s| ==> key(s[i]) <= key(s[j])
  }

  /** Puts `x` in front of the first element whose key is not smaller. */
  function Insert<T(==)>(x: T, s: seq<T>, key: T -> int): (r: seq<T>)
    requires SortedBy(s, key)
    ensures multiset(r) == multiset(s) + multiset{x}
    ensures SortedBy(r, key)
  {
    if |s| == 0 then [x]
    else if key(x) <= key(s[0]) then [x] + s
    else
      var rest := Insert(x, s[1..], key);
      assert s == [s[0]] + s[1..];
      HeadBelowInsert(x, s, key, rest);
      [s[0]] + rest
  }

  lemma HeadBelowInsert<T>(x: T, s: seq<T>, key: T -> int, rest: seq<T>)
    requires |s| > 0 && SortedBy(s, key) && key(s[0]) < key(x)
    requires multiset(rest) == multiset(s[1..]) + multiset{x}
    ensures forall j :: 0 <= j < |rest| ==> key(s[0]) <= key(rest[j])
  {
    forall j | 0 <= j < |rest|
      ensures key(s[0]) <= key(rest[j])
    {
      var y := rest[j];
      assert y in multiset(rest);
      if y != x {
        assert y in multiset(s[1..]);
        assert y in s[1..];
        var k :| 0 <= k < |s[1..]| && s[1..][k] == y;
        assert s[k + 1] == y;
      }
    }
  }

  /** The elements of `s` rearranged so that `key` never decreases. */
  function SortBy<T(==)>(s: seq<T>, key: T -> int): (r: seq<T>)
    ensures multiset(r) == multiset(s)
    ensures SortedBy(r, key)
  {
    if |s| == 0 then []
    else
      assert s == [s[0]] + s[1..];
      Insert(s[0], SortBy(s[1..], key), key)
  }

  /** OFFSET `offset` LIMIT `limit`: at most `limit` consecutive elements starting at `offset`. */
  function Window<T>(s: seq<T>, offset: nat, limit: nat): (r: seq<T>)
    ensures |r| == if offset >= |s| then 0 else Min(limit, |s| - offset)
    ensures forall i :: 0 <= i < |r| ==> r[i] == s[offset + i]
  {
    if offset >= |s| then [] else s[offset..offset + Min(limit, |s| - offset)]
  }

  function Min(a: int, b: int): int {
    if a <= b then a else b
  }

  /** A window of a sorted sequence is sorted. */
  lemma WindowSorted<T>(s: seq<T>, offset: nat, limit: nat, key: T -> int)
    requires SortedBy(s, key)
    ensures SortedBy(Window(s, offset, limit), key)
  {
    var w := Window(s, offset, limit);
    forall i, j | 0 <= i < j < |w|
      ensures key(w[i]) <= key(w[j])
    {
      assert w[i] == s[offset + i] && w[j] == s[offset + j];
    }
  }

  /** Consecutive windows of one page size tile the sequence: page k+1 starts where page k ends. */
  lemma {:induction false} WindowsTile<T>(s: seq<T>, offset: nat, limit: nat)
    ensures Window(s, offset, limit) + Window(s, offset + limit, limit)
      == Window(s, offset, 2 * limit)
  {
    var a, b, c := Window(s, offset, limit), Window(s, offset + limit, limit), Window(s, offset, 2 * limit);
    assert |a + b| == |c|;
    forall i | 0 <= i < |c|
      ensures (a + b)[i] == c[i]
    {
      if i < |a| {
        assert (a + b)[i] == s[offset + i];
      } else {
        assert (a + b)[i] == b[i - |a|] == s[offset + limit + (i - |a|)];
      }
    }
  }

  /** The elements of `s` that satisfy `p`, in their original order. */
  function Filter<T>(s: seq<T>, p: T -> bool): (r: seq<T>)
    ensures |r| <= |s|
    ensures forall i :: 0 <= i < |r| ==> p(r[i])
  {
    if |s| == 0 then [] else (if p(s[0]) then [s[0]] else []) + Filter(s[1..], p)
  }

  /** Filter keeps every element satisfying `p` exactly as often as it occurs, and nothing else. */
  lemma {:induction false} FilterCount<T>(s: seq<T>, p: T -> bool)
    ensures multiset(Filter(s, p)) <= multiset(s)
    ensures forall x :: x in s ==> multiset(Filter(s, p))[x] == if p(x) then multiset(s)[x] else 0
  {
    if |s| > 0 {
      FilterCount(s[1..], p);
      assert s == [s[0]] + s[1..];
    }
  }

  /** `p` is the elements of `s` that satisfy `keep`, each as often as in `s`, ordered by `key`. */
  ghost predicate Arranged<T(!new)>(p: seq<T>, s: seq<T>, keep: T -> bool, key: T -> int) {
    multiset(p) == multiset(Filter(s, keep)) && SortedBy(p, key)
  }

  /** WHERE keep ORDER BY key OFFSET offset LIMIT limit: the page is the window starting at
      `offset` of the matching elements in key order (rows with equal keys in some order). */
  function Page<T(==,!new)>(s: seq<T>, keep: T -> bool, key: T -> int, offset: nat, limit: nat): (r: seq<T>)
    ensures exists p :: Arranged(p, s, keep, key) && r == Window(p, offset, limit)
    ensures var n := |Filter(s, keep)|; |r| == if offset >= n then 0 else Min(limit, n - offset)
    ensures multiset(r) <= multiset(Filter(s, keep))
    ensures forall x :: x in r ==> keep(x) && x in s
    ensures SortedBy(r, key)
  {
    var sorted := SortBy(Filter(s, keep), key);
    WindowFacts(s, keep, key, sorted, offset, limit);
    Window(sorted, offset, limit)
  }

  /** The facts `Page` promises, for the window of any arrangement of the matching elements. */
  lemma WindowFacts<T>(s: seq<T>, keep: T -> bool, key: T -> int, sorted: seq<T>, offset: nat, limit: nat)
    requires multiset(sorted) == multiset(Filter(s, keep)) && SortedBy(sorted, key)
    ensures var r := Window(sorted, offset, limit);
      && (var n := |Filter(s, keep)|; |r| == if offset >= n then 0 else Min(limit, n - offset))
      && multiset(r) <= multiset(Filter(s, keep))
      && (forall x :: x in r ==> keep(x) && x in s)
      && SortedBy(r, key)
  {
    var matching := Filter(s, keep);
    FilterCount(s, keep);
    SameLength(sorted, matching);
    WindowSorted(sorted, offset, limit, key);
    WindowSubMultiset(sorted, offset, limit);
    var r := Window(sorted, offset, limit);
    Members(r, matching);
    Members(matching, s);
  }

  lemma SameLength<T>(a: seq<T>, b: seq<T>)
    requires multiset(a) == multiset(b)
    ensures |a| == |b|
  {
    assert |multiset(a)| == |multiset(b)|;
  }

  lemma Members<T>(a: seq<T>, b: seq<T>)
    requires multiset(a) <= multiset(b)
    ensures forall x :: x in a ==> x in b
  {
    forall x | x in a
      ensures x in b
    {
      assert x in multiset(a);
    }
  }

  lemma WindowSubMultiset<T>(s: seq<T>, offset: nat, limit: nat)
    ensures multiset(Window(s, offset, limit)) <= multiset(s)
  {
    if offset < |s| {
      var e := offset + Min(limit, |s| - offset);
      assert s == s[..offset] + s[offset..e] + s[e..];
    }
  }

  /** A page that reaches past the end holds every matching element, as often as it occurs. */
  lemma PageComplete<T(!new)>(s: seq<T>, keep: T -> bool, key: T -> int, limit: nat)
    requires limit >= |Filter(s, keep)|
    ensures multiset(Page(s, keep, key, 0, limit)) == multiset(Filter(s, keep))
  {
    var matching := Filter(s, keep);
    var sorted := SortBy(matching, key);
    SameLength(sorted, matching);
    assert Window(sorted, 0, limit) == sorted;
  }

  /** Filtering distributes over appending one element at the end. */
  lemma {:induction false} FilterAppend<T>(s: seq<T>, x: T, p: T -> bool)
    ensures Filter(s + [x], p) == Filter(s, p) + (if p(x) then [x] else [])
  {
    var sx := s + [x];
    if |s| > 0 {
      assert sx[0] == s[0] && sx[1..] == s[1..] + [x];
      FilterAppend(s[1..], x, p);
      var head := if p(s[0]) then [s[0]] else [];
      assert Filter(sx, p) == head + Filter(s[1..] + [x], p);
      assert Filter(s, p) == head + Filter(s[1..], p);
    } else {
      assert sx == [x] && sx[1..] == [];
    }
  }
}
