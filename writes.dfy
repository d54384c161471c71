/**
 * What the write handlers do to one document, and the favorites-table
 * helpers: the create stamp, the `$set` of an update, the `$inc` of a like,
 * and lookup and removal of a (userEmail, artworkId) pair.
 */
module Writes {
  import opened Wrappers
  import opened Documents

  /** The fields POST /api/artworks writes after spreading the client body. */
  const StampedFields: set<string> := {"userEmail", "likes", "createdAt", "updatedAt"}

  /**
   * `{ ...body, userEmail, likes: 0, createdAt: now, updatedAt: now }` without
   * its `_id`: the stamped fields override whatever the body holds under the
   * same names; every other body field is kept.
   */
  function Stamp(body: Doc, email: string, now: nat): (d: Doc)
    ensures "_id" !in d
    ensures d.Keys == (body.Keys - {"_id"}) + StampedFields
    ensures d["userEmail"] == Str(email) && d["likes"] == Num(0)
    ensures d["createdAt"] == Date(now) && d["updatedAt"] == Date(now)
    ensures forall k :: k in body && k != "_id" && k !in StampedFields ==> d[k] == body[k]
  {
    (body - {"_id"})["userEmail" := Str(email)]["likes" := Num(0)]["createdAt" := Date(now)]["updatedAt" := Date(now)]
  }

  /** The `_id` that `insertOne` stores: the body's own `_id` when it sent one, otherwise the generated ObjectId. */
  function NewId(body: Doc, generated: nat): (id: Value)
    ensures "_id" !in body ==> id == Oid(generated)
    ensures "_id" in body ==> id == body["_id"]
  {
    if "_id" in body then body["_id"] else Oid(generated)
  }

  /**
   * `$set: { ...body, updatedAt: now }` with `_id` deleted: every body field
   * but `_id` is written, `updatedAt` is refreshed, every other field of the
   * stored document is kept.
   */
  function MergeUpdate(doc: Doc, body: Doc, now: nat): (d: Doc)
    ensures d.Keys == doc.Keys + (body.Keys - {"_id"}) + {"updatedAt"}
    ensures d["updatedAt"] == Date(now)
    ensures forall k :: k in body && k != "_id" && k != "updatedAt" ==> d[k] == body[k]
    ensures forall k :: k in doc && k !in body && k != "updatedAt" ==> d[k] == doc[k]
    ensures "_id" !in doc ==> "_id" !in d
  {
    doc + (body - {"_id"})["updatedAt" := Date(now)]
  }

  /** `action === 'like' ? 1 : -1`: anything but the exact string 'like', a missing action included, unlikes. */
  function LikeDelta(action: Option<Value>): (delta: int)
    ensures delta == 1 <==> action == Some(Str("like"))
    ensures delta == 1 || delta == -1
  {
    if action == Some(Str("like")) then 1 else -1
  }

  /**
   * `$inc: { likes: delta }` on one document: a missing `likes` counts from 0,
   * a non-numeric one makes the store fail (None); there is no lower bound.
   */
  function IncLikes(doc: Doc, delta: int): (r: Option<Doc>)
    ensures r.None? <==> "likes" in doc && !doc["likes"].Num?
    ensures r.Some? ==> r.value.Keys == doc.Keys + {"likes"}
    ensures r.Some? ==> r.value["likes"] == Num((if "likes" in doc then doc["likes"].n else 0) + delta)
    ensures r.Some? ==> forall k :: k in doc && k != "likes" ==> r.value[k] == doc[k]
  {
    if "likes" !in doc then Some(doc["likes" := Num(delta)])
    else match doc["likes"]
      case Num(n) => Some(doc["likes" := Num(n + delta)])
      case _ => None
  }

  /** A like followed by an unlike restores a document that had numeric likes. */
  lemma LikeThenUnlike(doc: Doc)
    requires "likes" in doc && doc["likes"].Num?
    ensures IncLikes(doc, LikeDelta(Some(Str("like")))).Some?
    ensures IncLikes(IncLikes(doc, LikeDelta(Some(Str("like")))).value, LikeDelta(None)) == Some(doc)
  {
    assert LikeDelta(Some(Str("like"))) == 1 && LikeDelta(None) == -1;
    var liked := IncLikes(doc, 1).value;
    var back := IncLikes(liked, -1).value;
    assert back.Keys == doc.Keys;
    assert forall k :: k in doc ==> back[k] == doc[k];
    assert back == doc;
  }

  /** The favorite record names this (userEmail, artworkId) pair. */
  predicate IsPair(f: Favorite, email: string, artworkId: string)
  {
    f.userEmail == email && f.artworkId == artworkId
  }

  /** `findOne({ userEmail, artworkId })` finds something. */
  predicate HasPair(favs: seq<Favorite>, email: string, artworkId: string)
    ensures HasPair(favs, email, artworkId) <==> exists f :: f in favs && f.userEmail == email && f.artworkId == artworkId
  {
    exists i :: 0 <= i < |favs| && IsPair(favs[i], email, artworkId)
  }

  /** At most one favorite per (userEmail, artworkId) pair. */
  predicate UniquePairs(favs: seq<Favorite>)
  {
    forall i, j :: 0 <= i < j < |favs| ==> !IsPair(favs[j], favs[i].userEmail, favs[i].artworkId)
  }

  /** How many favorites name this pair. */
  function CountPair(favs: seq<Favorite>, email: string, artworkId: string): nat
  {
    if favs == [] then 0
    else (if IsPair(favs[0], email, artworkId) then 1 else 0) + CountPair(favs[1..], email, artworkId)
  }

  /** With unique pairs, a pair is present exactly once or not at all. */
  lemma {:induction false} UniquePairCount(favs: seq<Favorite>, email: string, artworkId: string)
    requires UniquePairs(favs)
    ensures CountPair(favs, email, artworkId) == if HasPair(favs, email, artworkId) then 1 else 0
  {
    if favs != [] {
      var rest := favs[1..];
      assert UniquePairs(rest) by {
        forall i, j | 0 <= i < j < |rest| ensures !IsPair(rest[j], rest[i].userEmail, rest[i].artworkId) {
          assert rest[i] == favs[i + 1] && rest[j] == favs[j + 1];
        }
      }
      UniquePairCount(rest, email, artworkId);
      if IsPair(favs[0], email, artworkId) {
        forall j | 0 <= j < |rest| ensures !IsPair(rest[j], email, artworkId) {
          assert rest[j] == favs[j + 1];
        }
      } else {
        if HasPair(favs, email, artworkId) {
          var j :| 0 <= j < |favs| && IsPair(favs[j], email, artworkId);
          assert rest[j - 1] == favs[j];
        }
        if HasPair(rest, email, artworkId) {
          var j :| 0 <= j < |rest| && IsPair(rest[j], email, artworkId);
          assert favs[j + 1] == rest[j];
        }
      }
    }
  }

  /** The position of the first favorite naming the pair, if any. */
  function PairIndex(favs: seq<Favorite>, email: string, artworkId: string): (r: Option<nat>)
    ensures r.None? <==> !HasPair(favs, email, artworkId)
    ensures r.Some? ==> r.value < |favs| && IsPair(favs[r.value], email, artworkId)
    ensures r.Some? ==> forall j :: 0 <= j < r.value ==> !IsPair(favs[j], email, artworkId)
  {
    if favs == [] then None
    else if IsPair(favs[0], email, artworkId) then Some(0)
    else
      match PairIndex(favs[1..], email, artworkId)
      case None =>
        assert forall j :: 1 <= j < |favs| ==> favs[j] == favs[1..][j - 1];
        None
      case Some(k) =>
        assert IsPair(favs[1..][k], email, artworkId);
        assert forall j :: 1 <= j <= k ==> favs[j] == favs[1..][j - 1];
        Some(k + 1)
  }

  /** `deleteOne({ userEmail, artworkId })`: removes the first favorite naming the pair, if any. */
  function RemoveFirstPair(favs: seq<Favorite>, email: string, artworkId: string): (r: seq<Favorite>)
    ensures !HasPair(favs, email, artworkId) ==> r == favs
    ensures HasPair(favs, email, artworkId) ==> |r| == |favs| - 1
    ensures HasPair(favs, email, artworkId) ==>
      var i := PairIndex(favs, email, artworkId).value;
      r == favs[..i] + favs[i + 1..]
  {
    match PairIndex(favs, email, artworkId)
    case None => favs
    case Some(i) => favs[..i] + favs[i + 1..]
  }

  /** On a table with unique pairs, the removal keeps pairs unique and leaves no favorite naming the pair. */
  lemma RemoveFirstPairClears(favs: seq<Favorite>, email: string, artworkId: string)
    requires UniquePairs(favs)
    ensures UniquePairs(RemoveFirstPair(favs, email, artworkId))
    ensures !HasPair(RemoveFirstPair(favs, email, artworkId), email, artworkId)
  {
    if HasPair(favs, email, artworkId) {
      var i := PairIndex(favs, email, artworkId).value;
      var r := RemoveFirstPair(favs, email, artworkId);
      assert forall k :: 0 <= k < |r| ==> r[k] == if k < i then favs[k] else favs[k + 1];
      forall p, q | 0 <= p < q < |r| ensures !IsPair(r[q], r[p].userEmail, r[p].artworkId) {
        var p' := if p < i then p else p + 1;
        var q' := if q < i then q else q + 1;
        assert r[p] == favs[p'] && r[q] == favs[q'];
      }
      forall k | 0 <= k < |r| ensures !IsPair(r[k], email, artworkId) {
        if k < i {
          assert r[k] == favs[k];
        } else {
          assert r[k] == favs[k + 1];
          assert !IsPair(favs[k + 1], favs[i].userEmail, favs[i].artworkId);
        }
      }
    }
  }

  /** Adding a favorite the caller did not have and then removing it gives back the original table. */
  lemma AppendThenRemove(favs: seq<Favorite>, email: string, artworkId: string, now: nat)
    requires !HasPair(favs, email, artworkId)
    ensures RemoveFirstPair(favs + [Favorite(email, artworkId, now)], email, artworkId) == favs
  {
    var t := favs + [Favorite(email, artworkId, now)];
    assert IsPair(t[|favs|], email, artworkId);
    assert forall j :: 0 <= j < |favs| ==> t[j] == favs[j];
    var i := PairIndex(t, email, artworkId).value;
    assert i == |favs|;
    assert t[..i] == favs;
  }
}
