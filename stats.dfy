/**
 * The pure aggregations of GET /api/dashboard/stats over the caller's
 * records: totals, the public/private split, the sum of likes and the
 * category histogram.
 */
module Stats {
  import opened Wrappers
  import opened Documents
  import opened Seqs

  /** `art.likes || 0`, for a numeric or missing `likes`. */
  function LikesOf(a: Artwork): (r: int)
    ensures Get(a.doc, "likes").None? ==> r == 0
    ensures Get(a.doc, "likes").Some? && Get(a.doc, "likes").value.Num? ==> r == Get(a.doc, "likes").value.n
  {
    match Get(a.doc, "likes")
    case Some(Num(n)) => n
    case _ => 0
  }

  /** `reduce((sum, art) => sum + (art.likes || 0), 0)`, folded from the left. */
  function TotalLikes(s: seq<Artwork>): (r: int)
    ensures (forall i :: 0 <= i < |s| ==> LikesOf(s[i]) >= 0) ==> r >= 0
    ensures (forall i :: 0 <= i < |s| ==> LikesOf(s[i]) == 0) ==> r == 0
  {
    if s == [] then 0
    else
      assert forall i :: 0 <= i < |s| - 1 ==> s[..|s| - 1][i] == s[i];
      TotalLikes(s[..|s| - 1]) + LikesOf(s[|s| - 1])
  }

  /** The total over two runs of records is the sum of their totals. */
  lemma {:induction false} TotalLikesAppend(s: seq<Artwork>, t: seq<Artwork>)
    ensures TotalLikes(s + t) == TotalLikes(s) + TotalLikes(t)
  {
    if t != [] {
      assert (s + t)[..|s + t| - 1] == s + t[..|t| - 1];
      assert (s + t)[|s + t| - 1] == t[|t| - 1];
      TotalLikesAppend(s, t[..|t| - 1]);
      assert TotalLikes(s + t) == TotalLikes(s + t[..|t| - 1]) + LikesOf(t[|t| - 1]);
      assert TotalLikes(t) == TotalLikes(t[..|t| - 1]) + LikesOf(t[|t| - 1]);
    } else {
      assert s + t == s;
    }
  }

  /** The histogram key of a record: its `category` value (None when undefined). */
  function CategoryOf(a: Artwork): Option<Value>
  {
    Get(a.doc, "category")
  }

  /**
   * Category keys, each with its count, in order of first appearance (the
   * order `Object.keys` gives for keys that are not integer-like).
   */
  type Histogram = seq<(Option<Value>, nat)>

  /** How many records carry category `k`. */
  function CountCategory(s: seq<Artwork>, k: Option<Value>): nat
  {
    if s == [] then 0
    else CountCategory(s[..|s| - 1], k) + (if CategoryOf(s[|s| - 1]) == k then 1 else 0)
  }

  /** A category with a positive count is the category of some record. */
  lemma {:induction false} CountedCategoryOccurs(s: seq<Artwork>, k: Option<Value>)
    requires CountCategory(s, k) > 0
    ensures exists j :: 0 <= j < |s| && CategoryOf(s[j]) == k
  {
    if CategoryOf(s[|s| - 1]) != k {
      CountedCategoryOccurs(s[..|s| - 1], k);
      var j :| 0 <= j < |s| - 1 && CategoryOf(s[..|s| - 1][j]) == k;
      assert s[j] == s[..|s| - 1][j];
    }
  }

  /** The sum of all counts of a histogram. */
  function SumCounts(h: Histogram): nat
  {
    if h == [] then 0 else h[0].1 + SumCounts(h[1..])
  }

  /** No key appears twice (the keys of a JS object). */
  predicate DistinctKeys(h: Histogram)
  {
    forall i, j :: 0 <= i < j < |h| ==> h[i].0 != h[j].0
  }

  /** The position of category `k` in the histogram, if it has one. */
  function KeyIndex(h: Histogram, k: Option<Value>): (r: Option<nat>)
    ensures r.None? <==> forall i :: 0 <= i < |h| ==> h[i].0 != k
    ensures r.Some? ==> r.value < |h| && h[r.value].0 == k
  {
    if h == [] then None
    else if h[0].0 == k then Some(0)
    else
      match KeyIndex(h[1..], k)
      case None =>
        assert forall i :: 1 <= i < |h| ==> h[i] == h[1..][i - 1];
        None
      case Some(j) =>
        assert h[j + 1] == h[1..][j];
        Some(j + 1)
  }

  /** Changing one entry's count changes the sum by the difference. */
  lemma {:induction false} SumCountsUpdate(h: Histogram, i: nat, c: nat)
    requires i < |h|
    ensures SumCounts(h[i := (h[i].0, c)]) == SumCounts(h) - h[i].1 + c
  {
    if i == 0 {
      assert h[i := (h[i].0, c)][1..] == h[1..];
    } else {
      SumCountsUpdate(h[1..], i - 1, c);
      assert h[i := (h[i].0, c)][1..] == h[1..][i - 1 := (h[i].0, c)];
    }
  }

  /** Appending an entry adds its count to the sum. */
  lemma {:induction false} SumCountsAppend(h: Histogram, e: (Option<Value>, nat))
    ensures SumCounts(h + [e]) == SumCounts(h) + e.1
  {
    if h == [] {
      assert ([] + [e])[1..] == [];
    } else {
      SumCountsAppend(h[1..], e);
      assert (h + [e])[1..] == h[1..] + [e];
    }
  }

  /** `acc[key] = (acc[key] || 0) + 1`: counts one more record with category `k`. */
  function Bump(h: Histogram, k: Option<Value>): (r: Histogram)
    requires DistinctKeys(h)
    ensures DistinctKeys(r)
    ensures SumCounts(r) == SumCounts(h) + 1
    ensures |h| <= |r| <= |h| + 1
    ensures forall i :: 0 <= i < |h| ==> r[i] == (h[i].0, if h[i].0 == k then h[i].1 + 1 else h[i].1)
    ensures |r| == |h| + 1 <==> forall i :: 0 <= i < |h| ==> h[i].0 != k
    ensures |r| == |h| + 1 ==> r[|h|] == (k, 1)
  {
    match KeyIndex(h, k)
    case Some(i) =>
      SumCountsUpdate(h, i, h[i].1 + 1);
      h[i := (k, h[i].1 + 1)]
    case None =>
      SumCountsAppend(h, (k, 1));
      h + [(k, 1)]
  }

  /** The `categoryStats` object of the dashboard, built by a left fold over the records. */
  function CategoryHistogram(s: seq<Artwork>): (h: Histogram)
    ensures DistinctKeys(h)
  {
    if s == [] then [] else Bump(CategoryHistogram(s[..|s| - 1]), CategoryOf(s[|s| - 1]))
  }

  /** Category `k` has an entry in `h`. */
  predicate HasEntry(h: Histogram, k: Option<Value>)
  {
    exists i :: 0 <= i < |h| && h[i].0 == k
  }

  /** One `Bump` keeps every entry's count equal to the count of its category. */
  lemma BumpKeepsCounts(h: Histogram, k: Option<Value>, before: Option<Value> -> nat, after: Option<Value> -> nat)
    requires DistinctKeys(h)
    requires forall i :: 0 <= i < |h| ==> h[i].1 == before(h[i].0) && h[i].1 > 0
    requires before(k) > 0 ==> HasEntry(h, k)
    requires forall c :: after(c) == before(c) + (if c == k then 1 else 0)
    ensures var r := Bump(h, k); forall i :: 0 <= i < |r| ==> r[i].1 == after(r[i].0) && r[i].1 > 0
  {
    var r := Bump(h, k);
    forall i | 0 <= i < |r| ensures r[i].1 == after(r[i].0) && r[i].1 > 0 {
      if i < |h| {
        assert r[i] == (h[i].0, if h[i].0 == k then h[i].1 + 1 else h[i].1);
      } else {
        assert !HasEntry(h, k);
      }
    }
  }

  /** Every entry of `h` holds the number of records of `s` with its category, and that number is positive. */
  predicate Counted(h: Histogram, s: seq<Artwork>)
  {
    forall i :: 0 <= i < |h| ==> h[i].1 == CountCategory(s, h[i].0) && h[i].1 > 0
  }

  /** Each entry of the histogram holds a category present in the records, with its count. */
  lemma {:induction false} HistogramCounts(s: seq<Artwork>)
    ensures Counted(CategoryHistogram(s), s)
  {
    if s != [] {
      var init := s[..|s| - 1];
      var k := CategoryOf(s[|s| - 1]);
      HistogramCounts(init);
      HistogramCovers(init);
      var h := CategoryHistogram(init);
      if CountCategory(init, k) > 0 {
        CountedCategoryOccurs(init, k);
        var j :| 0 <= j < |init| && CategoryOf(init[j]) == k;
        assert HasEntry(h, k);
      }
      var before := c => CountCategory(init, c);
      var after := c => CountCategory(s, c);
      forall c ensures after(c) == before(c) + (if c == k then 1 else 0) {
      }
      assert Counted(h, init);
      forall i | 0 <= i < |h| ensures h[i].1 == before(h[i].0) && h[i].1 > 0 {
      }
      BumpKeepsCounts(h, k, before, after);
      var r := CategoryHistogram(s);
      assert r == Bump(h, k);
      forall i | 0 <= i < |r| ensures r[i].1 == CountCategory(s, r[i].0) && r[i].1 > 0 {
        assert r[i].1 == after(r[i].0);
      }
    }
  }

  /** After one `Bump` the bumped category has an entry, and every category that had one still does. */
  lemma BumpCovers(h: Histogram, k: Option<Value>)
    requires DistinctKeys(h)
    ensures HasEntry(Bump(h, k), k)
    ensures forall c :: HasEntry(h, c) ==> HasEntry(Bump(h, k), c)
  {
    var r := Bump(h, k);
    if |r| == |h| {
      assert !forall i :: 0 <= i < |h| ==> h[i].0 != k;
      var i :| 0 <= i < |h| && h[i].0 == k;
      assert r[i].0 == k;
    } else {
      assert r[|h|].0 == k;
    }
    forall c | HasEntry(h, c) ensures HasEntry(r, c) {
      var i :| 0 <= i < |h| && h[i].0 == c;
      assert r[i].0 == c;
    }
  }

  /** Every record's category has an entry in the histogram. */
  lemma {:induction false} HistogramCovers(s: seq<Artwork>)
    ensures forall j :: 0 <= j < |s| ==> HasEntry(CategoryHistogram(s), CategoryOf(s[j]))
  {
    if s != [] {
      var init := s[..|s| - 1];
      HistogramCovers(init);
      var h := CategoryHistogram(init);
      BumpCovers(h, CategoryOf(s[|s| - 1]));
      forall j | 0 <= j < |s| - 1 ensures HasEntry(CategoryHistogram(s), CategoryOf(s[j])) {
        assert init[j] == s[j];
      }
    }
  }

  /** The histogram's counts add up to the number of records. */
  lemma {:induction false} HistogramTotal(s: seq<Artwork>)
    ensures SumCounts(CategoryHistogram(s)) == |s|
  {
    if s != [] {
      HistogramTotal(s[..|s| - 1]);
    }
  }

  /** The `summary` object of the dashboard. */
  datatype Summary = Summary(totalArtworks: nat, totalLikes: int, publicArtworks: nat, privateArtworks: nat)

  /** The summary of the caller's records: every record is either public or private. */
  function Summarize(s: seq<Artwork>): (r: Summary)
    ensures r.totalArtworks == |s|
    ensures r.totalArtworks == r.publicArtworks + r.privateArtworks
    ensures r.publicArtworks == |Filter(s, IsPublic)|
    ensures r.totalLikes == TotalLikes(s)
  {
    PublicPrivateSplit(s);
    Summary(|s|, TotalLikes(s), |Filter(s, IsPublic)|, |Filter(s, IsNotPublic)|)
  }

  /** The two-record example: one public with 3 likes, one private with 2. */
  lemma SummaryExample(owner: string)
    ensures
      var pub := Artwork(Oid(1), map["visibility" := Str("Public"), "likes" := Num(3), "userEmail" := Str(owner)]);
      var priv := Artwork(Oid(2), map["visibility" := Str("Private"), "likes" := Num(2), "userEmail" := Str(owner)]);
      Summarize([pub, priv]) == Summary(2, 5, 1, 1)
  {
    var pub := Artwork(Oid(1), map["visibility" := Str("Public"), "likes" := Num(3), "userEmail" := Str(owner)]);
    var priv := Artwork(Oid(2), map["visibility" := Str("Private"), "likes" := Num(2), "userEmail" := Str(owner)]);
    assert [pub, priv][..1] == [pub];
    assert [pub, priv][1..] == [priv];
    assert IsPublic(pub) && !IsPublic(priv);
    assert Filter([pub, priv], IsPublic) == [pub];
    assert Filter([pub, priv], IsNotPublic) == [priv];
    assert LikesOf(pub) == 3 && LikesOf(priv) == 2;
    assert TotalLikes([pub]) == 3;
  }
}
