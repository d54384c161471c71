/** Order-preserving selection, as both `collection.find(filter)` and `Array.prototype.filter` do it. */
module Seqs {
  import opened Documents

  /** The elements of `s` that satisfy `p`, in their original order. */
  function Filter<T(!new)>(s: seq<T>, p: T -> bool): (r: seq<T>)
    ensures |r| <= |s|
    ensures forall x :: x in r <==> x in s && p(x)
    ensures forall x :: multiset(r)[x] == if p(x) then multiset(s)[x] else 0
  {
    if s == [] then []
    else
      assert s == [s[0]] + s[1..];
      if p(s[0]) then [s[0]] + Filter(s[1..], p)
      else Filter(s[1..], p)
  }

  /** Selection keeps store order: selecting from two runs is selecting from each and concatenating. */
  lemma {:induction false} FilterAppend<T(!new)>(s: seq<T>, t: seq<T>, p: T -> bool)
    ensures Filter(s + t, p) == Filter(s, p) + Filter(t, p)
  {
    if s == [] {
      assert s + t == t;
    } else {
      assert (s + t)[0] == s[0];
      assert (s + t)[1..] == s[1..] + t;
      FilterAppend(s[1..], t, p);
    }
  }

  /** The first element of a selection is the first element of `s` that satisfies `p`. */
  lemma {:induction false} FilterFirst<T(!new)>(s: seq<T>, p: T -> bool, i: nat)
    requires i < |s| && p(s[i])
    requires forall j :: 0 <= j < i ==> !p(s[j])
    ensures |Filter(s, p)| > 0 && Filter(s, p)[0] == s[i]
  {
    if i > 0 {
      assert !p(s[0]);
      FilterFirst(s[1..], p, i - 1);
    }
  }

  /** Every element is either public or not: the two selections split the sequence. */
  lemma {:induction false} PublicPrivateSplit(s: seq<Artwork>)
    ensures |Filter(s, IsPublic)| + |Filter(s, IsNotPublic)| == |s|
  {
    if s != [] {
      PublicPrivateSplit(s[1..]);
    }
  }

  /** `findOne({ _id: id })`: the position of the record with that id, if any. */
  function IndexOfId(t: seq<Artwork>, id: Value): (r: Wrappers.Option<nat>)
    ensures r.Some? ==> r.value < |t| && t[r.value].id == id
    ensures r.None? ==> forall a :: a in t ==> a.id != id
  {
    if t == [] then Wrappers.None
    else if t[0].id == id then Wrappers.Some(0)
    else match IndexOfId(t[1..], id)
      case None => Wrappers.None
      case Some(k) => Wrappers.Some(k + 1)
  }

  /** With unique ids, the record found by id is the only one carrying it. */
  lemma IndexOfIdUnique(t: seq<Artwork>, id: Value, j: nat)
    requires UniqueIds(t)
    requires j < |t| && t[j].id == id
    ensures IndexOfId(t, id) == Wrappers.Some(j)
  {
    var r := IndexOfId(t, id);
    assert r.Some? by { assert t[j] in t; }
  }
}
