/**
 * "Newest first": the order of the store's `sort({ createdAt: -1 })` and of the
 * dashboard's comparator `(a, b) => new Date(b.createdAt) - new Date(a.createdAt)`.
 */
module Ordering {
  import opened Documents

  /** Non-increasing `createdAt`. */
  predicate SortedDesc(s: seq<Artwork>)
  {
    forall i, j :: 0 <= i < j < |s| ==> CreatedKey(s[i]) >= CreatedKey(s[j])
  }

  /** A newest element in front of a newest-first sequence keeps it newest-first. */
  lemma SortedCons(y: Artwork, r: seq<Artwork>)
    requires SortedDesc(r)
    requires forall z :: z in r ==> CreatedKey(z) <= CreatedKey(y)
    ensures SortedDesc([y] + r)
  {
    forall i, j | 0 <= i < j < |[y] + r|
      ensures CreatedKey(([y] + r)[i]) >= CreatedKey(([y] + r)[j])
    {
      if i > 0 {
        assert ([y] + r)[i] == r[i - 1];
      }
      assert ([y] + r)[j] == r[j - 1];
    }
  }

  /** No element of a newest-first sequence is newer than its head. */
  lemma HeadBound(s: seq<Artwork>)
    requires SortedDesc(s) && s != []
    ensures forall z :: z in s ==> CreatedKey(z) <= CreatedKey(s[0])
  {
    forall z | z in s ensures CreatedKey(z) <= CreatedKey(s[0]) {
      var j :| 0 <= j < |s| && s[j] == z;
      if j > 0 {
        assert CreatedKey(s[0]) >= CreatedKey(s[j]);
      }
    }
  }

  /** A bound on the keys of `t` and of `x` bounds every key of a sequence holding exactly those elements. */
  lemma BoundByMultiset(r: seq<Artwork>, t: seq<Artwork>, x: Artwork, y: Artwork)
    requires multiset(r) == multiset(t) + multiset{x}
    requires forall z :: z in t ==> CreatedKey(z) <= CreatedKey(y)
    requires CreatedKey(x) <= CreatedKey(y)
    ensures forall z :: z in r ==> CreatedKey(z) <= CreatedKey(y)
  {
    forall z | z in r ensures CreatedKey(z) <= CreatedKey(y) {
      assert z in multiset(r);
      if z != x {
        assert z in multiset(t);
      }
    }
  }

  /** Places `x` before the first element that is not strictly newer (so equal keys keep their order). */
  function InsertDesc(x: Artwork, s: seq<Artwork>): (r: seq<Artwork>)
    requires SortedDesc(s)
    ensures SortedDesc(r)
    ensures multiset(r) == multiset(s) + multiset{x}
  {
    if s == [] then [x]
    else if CreatedKey(s[0]) > CreatedKey(x) then
      var rest := InsertDesc(x, s[1..]);
      assert s == [s[0]] + s[1..];
      HeadBound(s);
      BoundByMultiset(rest, s[1..], x, s[0]);
      SortedCons(s[0], rest);
      [s[0]] + rest
    else
      HeadBound(s);
      SortedCons(x, s);
      [x] + s
  }

  /** The store's sort: newest first, a permutation of its input. */
  function SortDesc(s: seq<Artwork>): (r: seq<Artwork>)
    ensures SortedDesc(r)
    ensures multiset(r) == multiset(s)
    ensures |r| == |s|
  {
    if s == [] then []
    else
      assert s == [s[0]] + s[1..];
      InsertDesc(s[0], SortDesc(s[1..]))
  }

  /** A prefix of a newest-first sequence is newest-first. */
  lemma SortedPrefix(s: seq<Artwork>, k: nat)
    requires SortedDesc(s) && k <= |s|
    ensures SortedDesc(s[..k])
  {
    var p := s[..k];
    forall i, j | 0 <= i < j < |p| ensures CreatedKey(p[i]) >= CreatedKey(p[j]) {
      assert p[i] == s[i] && p[j] == s[j];
    }
  }

  /**
   * Keeping the first `k` elements of a newest-first permutation of `pool`
   * keeps the newest: every element of `pool` left out is no newer than any
   * element kept.
   */
  lemma TopPrefix(pool: seq<Artwork>, s: seq<Artwork>, k: nat)
    requires SortedDesc(s) && multiset(s) == multiset(pool) && k <= |s|
    ensures forall a, i :: a in pool && a !in s[..k] && 0 <= i < k ==> CreatedKey(a) <= CreatedKey(s[i])
  {
    forall a, i | a in pool && a !in s[..k] && 0 <= i < k
      ensures CreatedKey(a) <= CreatedKey(s[i])
    {
      assert a in multiset(pool);
      assert a in s;
      var j :| 0 <= j < |s| && s[j] == a;
      assert forall t :: 0 <= t < k ==> s[t] in s[..k] by {
        forall t | 0 <= t < k ensures s[t] in s[..k] {
          assert s[..k][t] == s[t];
        }
      }
      assert k <= j;
    }
  }

  /** A prefix of a permutation of `pool` takes each record of `pool` at most as often as `pool` holds it. */
  lemma PrefixOfPermutation(pool: seq<Artwork>, s: seq<Artwork>, k: nat)
    requires multiset(s) == multiset(pool) && k <= |s|
    ensures multiset(s[..k]) <= multiset(pool)
    ensures forall a :: a in s[..k] ==> a in pool
  {
    assert s == s[..k] + s[k..];
    forall a | a in s[..k] ensures a in pool {
      assert a in multiset(s);
    }
  }

  /** Exchanges two neighbouring elements; the contents stay a permutation. */
  method SwapDown(a: array<Artwork>, j: nat)
    requires 0 < j < a.Length
    modifies a
    ensures a[..] == old(a[..])[j - 1 := old(a[j])][j := old(a[j - 1])]
    ensures multiset(a[..]) == multiset(old(a[..]))
  {
    a[j - 1], a[j] := a[j], a[j - 1];
  }

  /** The first `n` cells of `a` are newest first. */
  ghost predicate SortedUpTo(a: array<Artwork>, n: int)
    reads a
  {
    forall p, q :: 0 <= p < q < n && q < a.Length ==> CreatedKey(a[p]) >= CreatedKey(a[q])
  }

  /**
   * One pass of the sort: the record at `i` is swapped down past each older
   * neighbour until the first `i + 1` cells are newest first.
   */
  method SinkAt(a: array<Artwork>, i: nat)
    requires i < a.Length && SortedUpTo(a, i)
    modifies a
    ensures SortedUpTo(a, i + 1)
    ensures multiset(a[..]) == multiset(old(a[..]))
  {
    var j := i;
    while j > 0 && CreatedKey(a[j - 1]) < CreatedKey(a[j])
      invariant 0 <= j <= i
      invariant multiset(a[..]) == multiset(old(a[..]))
      invariant forall p, q :: 0 <= p < q <= i && q != j && p != j ==> CreatedKey(a[p]) >= CreatedKey(a[q])
      invariant forall q :: j < q <= i ==> CreatedKey(a[j]) >= CreatedKey(a[q])
      invariant 0 < j < i ==> CreatedKey(a[j - 1]) >= CreatedKey(a[j + 1])
    {
      SwapDown(a, j);
      j := j - 1;
    }
  }

  /**
   * `userArtworks.sort(...)`: the in-place sort of the fetched array, newest
   * first (an insertion sort by adjacent swaps, stable like the JS sort).
   */
  method SortInPlace(a: array<Artwork>)
    modifies a
    ensures SortedDesc(a[..])
    ensures multiset(a[..]) == multiset(old(a[..]))
  {
    var i := 0;
    while i < a.Length
      invariant 0 <= i <= a.Length
      invariant SortedUpTo(a, i)
      invariant multiset(a[..]) == multiset(old(a[..]))
    {
      SinkAt(a, i);
      i := i + 1;
    }
    ghost var s := a[..];
    forall p, q | 0 <= p < q < |s| ensures CreatedKey(s[p]) >= CreatedKey(s[q]) {
      assert s[p] == a[p] && s[q] == a[q];
    }
  }
}
