/**
 * The two collections and the handlers that change them. Each handler is
 * entered with the email `verifyToken` established (see module Auth) and
 * runs its short fixed sequence of store operations; `now` is the clock and
 * `oid` the result of parsing the path id with `new ObjectId` (None when
 * that throws, which the handler's catch turns into 500).
 */
module Store {
  import opened Wrappers
  import opened Documents
  import opened Seqs
  import opened Ordering
  import opened Queries
  import opened Stats
  import opened Writes

  /** `.slice(0, 5)` of the dashboard's recent list. */
  const RecentLimit: nat := 5

  /** Removing one record keeps ids unique and leaves every other record, and only those. */
  lemma RemoveAt(t: seq<Artwork>, i: nat)
    requires UniqueIds(t) && NoIdField(t) && i < |t|
    ensures UniqueIds(t[..i] + t[i + 1..]) && NoIdField(t[..i] + t[i + 1..])
    ensures forall a :: a in t[..i] + t[i + 1..] <==> a in t && a.id != t[i].id
  {
    var r := t[..i] + t[i + 1..];
    assert forall k :: 0 <= k < |r| ==> r[k] == if k < i then t[k] else t[k + 1];
    forall a | a in t && a.id != t[i].id ensures a in r {
      var k :| 0 <= k < |t| && t[k] == a;
      if k < i {
        assert r[k] == a;
      } else {
        assert r[k - 1] == a;
      }
    }
  }

  /** Replacing a record by one with the same id keeps ids unique. */
  lemma ReplaceAt(t: seq<Artwork>, i: nat, d: Doc)
    requires UniqueIds(t) && NoIdField(t) && i < |t| && "_id" !in d
    ensures UniqueIds(t[i := Artwork(t[i].id, d)]) && NoIdField(t[i := Artwork(t[i].id, d)])
  {
  }

  /**
   * `.sort((a, b) => new Date(b.createdAt) - new Date(a.createdAt)).slice(0, 5)`
   * on the fetched records: the five newest, newest first.
   */
  method Recent(fetchedRecords: seq<Artwork>) returns (recent: seq<Artwork>)
    ensures |recent| == Min(RecentLimit, |fetchedRecords|)
    ensures SortedDesc(recent)
    ensures multiset(recent) <= multiset(fetchedRecords)
    ensures forall a :: a in recent ==> a in fetchedRecords
    ensures forall a, i :: a in fetchedRecords && a !in recent && 0 <= i < |recent| ==>
      CreatedKey(a) <= CreatedKey(recent[i])
  {
    var fetched := new Artwork[|fetchedRecords|](k requires 0 <= k < |fetchedRecords| => fetchedRecords[k]);
    assert fetched[..] == fetchedRecords;
    SortInPlace(fetched);
    var k := Min(RecentLimit, fetched.Length);
    recent := fetched[..k];
    TopPrefix(fetchedRecords, fetched[..], k);
    SortedPrefix(fetched[..], k);
    PrefixOfPermutation(fetchedRecords, fetched[..], k);
    assert fetched[..][..k] == recent;
  }

  class Database {
    /** The `artworks` collection, in natural order. */
    var artworks: seq<Artwork>
    /** The `favorites` collection, in natural order. */
    var favorites: seq<Favorite>

    /** Ids are unique, `_id` is kept apart from the fields, and each favorite pair is stored once. */
    ghost predicate Valid()
      reads this
    {
      UniqueIds(artworks) && NoIdField(artworks) && UniquePairs(favorites)
    }

    constructor ()
      ensures Valid() && artworks == [] && favorites == []
    {
      artworks := [];
      favorites := [];
    }

    /**
     * POST /api/artworks: stores the stamped body under the new id and
     * answers 201; an id already taken makes `insertOne` fail, giving 500.
     */
    method AddArtwork(caller: string, body: Doc, generated: nat, now: nat) returns (status: int, id: Value)
      requires Valid()
      modifies this
      ensures Valid() && favorites == old(favorites)
      ensures id == NewId(body, generated)
      ensures status == 201 <==> forall a :: a in old(artworks) ==> a.id != id
      ensures status == 201 ==> artworks == old(artworks) + [Artwork(id, Stamp(body, caller, now))]
      ensures status != 201 ==> status == 500 && artworks == old(artworks)
    {
      id := NewId(body, generated);
      match IndexOfId(artworks, id) {
        case Some(_) =>
          status := 500;
        case None =>
          ghost var before := artworks;
          artworks := artworks + [Artwork(id, Stamp(body, caller, now))];
          assert forall k :: 0 <= k < |before| ==> before[k] in before;
          status := 201;
      }
    }

    /**
     * PUT /api/artworks/:id: 404 when no record has the id, 403 when the
     * record's owner is not the caller (existence is checked first); both
     * leave the tables unchanged. Otherwise the one record gets the body's
     * fields and a fresh `updatedAt`, keeping its `_id`; `modifiedCount` is 0
     * when that changes nothing.
     */
    method UpdateArtwork(caller: string, oid: Option<nat>, body: Doc, now: nat) returns (status: int, modifiedCount: nat)
      requires Valid()
      modifies this
      ensures Valid() && favorites == old(favorites)
      ensures status != 200 ==> artworks == old(artworks) && modifiedCount == 0
      ensures oid.None? ==> status == 500
      ensures oid.Some? && IndexOfId(old(artworks), Oid(oid.value)).None? ==> status == 404
      ensures oid.Some? && IndexOfId(old(artworks), Oid(oid.value)).Some? ==>
        var i := IndexOfId(old(artworks), Oid(oid.value)).value;
        var rec := old(artworks)[i];
        var merged := MergeUpdate(rec.doc, body, now);
        && (status == 403 <==> !IsOwnedBy(rec, caller))
        && (status == 200 <==> IsOwnedBy(rec, caller))
        && (status == 200 ==> artworks == old(artworks)[i := Artwork(rec.id, merged)])
        && (status == 200 ==> modifiedCount == if merged == rec.doc then 0 else 1)
    {
      modifiedCount := 0;
      if oid.None? {
        status := 500;
        return;
      }
      match IndexOfId(artworks, Oid(oid.value)) {
        case None =>
          status := 404;
        case Some(i) =>
          var rec := artworks[i];
          if !IsOwnedBy(rec, caller) {
            status := 403;
          } else {
            var merged := MergeUpdate(rec.doc, body, now);
            ReplaceAt(artworks, i, merged);
            artworks := artworks[i := Artwork(rec.id, merged)];
            modifiedCount := if merged == rec.doc then 0 else 1;
            status := 200;
          }
      }
    }

    /**
     * DELETE /api/artworks/:id: 404 and 403 as for an update; otherwise
     * exactly the record with that id is removed and `deletedCount` is 1.
     */
    method DeleteArtwork(caller: string, oid: Option<nat>) returns (status: int, deletedCount: nat)
      requires Valid()
      modifies this
      ensures Valid() && favorites == old(favorites)
      ensures status != 200 ==> artworks == old(artworks) && deletedCount == 0
      ensures oid.None? ==> status == 500
      ensures oid.Some? && IndexOfId(old(artworks), Oid(oid.value)).None? ==> status == 404
      ensures oid.Some? && IndexOfId(old(artworks), Oid(oid.value)).Some? ==>
        var i := IndexOfId(old(artworks), Oid(oid.value)).value;
        && (status == 403 <==> !IsOwnedBy(old(artworks)[i], caller))
        && (status == 200 <==> IsOwnedBy(old(artworks)[i], caller))
        && (status == 200 ==> artworks == old(artworks)[..i] + old(artworks)[i + 1..] && deletedCount == 1)
      ensures status == 200 ==> forall a :: a in artworks <==> a in old(artworks) && a.id != Oid(oid.value)
    {
      deletedCount := 0;
      if oid.None? {
        status := 500;
        return;
      }
      match IndexOfId(artworks, Oid(oid.value)) {
        case None =>
          status := 404;
        case Some(i) =>
          if !IsOwnedBy(artworks[i], caller) {
            status := 403;
          } else {
            RemoveAt(artworks, i);
            artworks := artworks[..i] + artworks[i + 1..];
            deletedCount := 1;
            status := 200;
          }
      }
    }

    /**
     * PATCH /api/artworks/:id/like: any authenticated caller (there is no
     * owner check, so the caller is not an input) moves the record's likes by
     * `LikeDelta(action)` and gets the new count. A missing record is not
     * 404: `updatedArtwork.likes` on null throws, giving 500; so does a
     * non-numeric `likes`. Failures change nothing.
     */
    method LikeArtwork(oid: Option<nat>, action: Option<Value>) returns (status: int, likes: Option<Value>)
      requires Valid()
      modifies this
      ensures Valid() && favorites == old(favorites)
      ensures status != 200 ==> status == 500 && artworks == old(artworks) && likes.None?
      ensures status == 200 <==>
        && oid.Some?
        && IndexOfId(old(artworks), Oid(oid.value)).Some?
        && IncLikes(old(artworks)[IndexOfId(old(artworks), Oid(oid.value)).value].doc, LikeDelta(action)).Some?
      ensures status == 200 ==>
        var i := IndexOfId(old(artworks), Oid(oid.value)).value;
        var d := IncLikes(old(artworks)[i].doc, LikeDelta(action)).value;
        && artworks == old(artworks)[i := Artwork(old(artworks)[i].id, d)]
        && likes == Some(d["likes"])
    {
      likes := None;
      if oid.None? {
        status := 500;
        return;
      }
      match IndexOfId(artworks, Oid(oid.value)) {
        case None =>
          status := 500;
        case Some(i) =>
          match IncLikes(artworks[i].doc, LikeDelta(action)) {
            case None =>
              status := 500;
            case Some(d) =>
              ReplaceAt(artworks, i, d);
              artworks := artworks[i := Artwork(artworks[i].id, d)];
              likes := Some(d["likes"]);
              status := 200;
          }
      }
    }

    /**
     * POST /api/favorites: 400 when the caller already favorited the id,
     * otherwise a new favorite and 201. Either way the pair is stored exactly once.
     */
    method AddFavorite(caller: string, artworkId: string, now: nat) returns (status: int)
      requires Valid()
      modifies this
      ensures Valid() && artworks == old(artworks)
      ensures status == 400 <==> HasPair(old(favorites), caller, artworkId)
      ensures status == 400 ==> favorites == old(favorites)
      ensures status != 400 ==> status == 201 && favorites == old(favorites) + [Favorite(caller, artworkId, now)]
      ensures CountPair(favorites, caller, artworkId) == 1
    {
      if HasPair(favorites, caller, artworkId) {
        status := 400;
      } else {
        ghost var before := favorites;
        favorites := favorites + [Favorite(caller, artworkId, now)];
        assert HasPair(favorites, caller, artworkId) by {
          assert IsPair(favorites[|before|], caller, artworkId);
        }
        forall i, j | 0 <= i < j < |favorites| ensures !IsPair(favorites[j], favorites[i].userEmail, favorites[i].artworkId) {
          if j == |before| {
            assert favorites[i] == before[i];
          } else {
            assert favorites[i] == before[i] && favorites[j] == before[j];
          }
        }
        status := 201;
      }
      UniquePairCount(favorites, caller, artworkId);
    }

    /**
     * DELETE /api/favorites/:artworkId: removes the caller's favorite of that
     * id if there is one; `deletedCount` says whether there was, and an absent
     * pair is not an error.
     */
    method RemoveFavorite(caller: string, artworkId: string) returns (status: int, deletedCount: nat)
      requires Valid()
      modifies this
      ensures Valid() && artworks == old(artworks)
      ensures status == 200
      ensures deletedCount == if HasPair(old(favorites), caller, artworkId) then 1 else 0
      ensures favorites == RemoveFirstPair(old(favorites), caller, artworkId)
      ensures |favorites| == |old(favorites)| - deletedCount
      ensures !HasPair(favorites, caller, artworkId)
    {
      deletedCount := if HasPair(favorites, caller, artworkId) then 1 else 0;
      RemoveFirstPairClears(favorites, caller, artworkId);
      favorites := RemoveFirstPair(favorites, caller, artworkId);
      status := 200;
    }

    /**
     * GET /api/dashboard/stats: the caller's records are fetched once, then
     * summarised, tallied by category, and sorted newest first in place, of
     * which the first five are `recent`.
     */
    method DashboardStats(caller: string) returns (summary: Summary, categories: Histogram, recent: seq<Artwork>)
      ensures summary == Summarize(OwnedArtworks(artworks, caller))
      ensures categories == CategoryHistogram(OwnedArtworks(artworks, caller))
      ensures |recent| == Min(RecentLimit, |OwnedArtworks(artworks, caller)|)
      ensures SortedDesc(recent)
      ensures multiset(recent) <= multiset(OwnedArtworks(artworks, caller))
      ensures forall a :: a in recent ==> a in artworks && IsOwnedBy(a, caller)
      ensures forall a, i :: a in artworks && IsOwnedBy(a, caller) && a !in recent && 0 <= i < |recent| ==>
        CreatedKey(a) <= CreatedKey(recent[i])
    {
      var mine := OwnedArtworks(artworks, caller);
      summary := Summarize(mine);
      categories := CategoryHistogram(mine);
      recent := Recent(mine);
    }
  }
}
