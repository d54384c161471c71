/** The optional value used wherever the source has `undefined` or a lookup that can miss. */
module Wrappers {
  datatype Option<+T> = None | Some(value: T)
}

/**
 * Documents of the `artworks` collection as the handlers see them: a stored
 * record is its `_id` plus a map from field names to values. A field that is
 * not in the map is `undefined` in JavaScript.
 */
module Documents {
  import opened Wrappers

  /** A field value: string, number, boolean, JS Date (milliseconds), ObjectId or null. */
  datatype Value = Str(s: string) | Num(n: int) | Bool(b: bool) | Date(ms: nat) | Oid(oid: nat) | Null

  /** A document without its `_id` field. */
  type Doc = map<string, Value>

  /** One record of the `artworks` collection. */
  datatype Artwork = Artwork(id: Value, doc: Doc)

  /** One record of the `favorites` collection: who favorited which artwork id (a string), and when. */
  datatype Favorite = Favorite(userEmail: string, artworkId: string, createdAt: nat)

  /** `doc.k`: the field's value, or None for `undefined`. */
  function Get(d: Doc, k: string): Option<Value>
  {
    if k in d then Some(d[k]) else None
  }

  /** JavaScript truthiness of a field that may be `undefined`. */
  predicate Truthy(v: Option<Value>)
  {
    match v
    case None => false
    case Some(Str(s)) => s != ""
    case Some(Num(n)) => n != 0
    case Some(Bool(b)) => b
    case Some(Date(_)) => true
    case Some(Oid(_)) => true
    case Some(Null) => false
  }

  /** `visibility === 'Public'` (also the store filter `{ visibility: 'Public' }`). */
  predicate IsPublic(a: Artwork)
  {
    Get(a.doc, "visibility") == Some(Str("Public"))
  }

  /** `visibility !== 'Public'`. */
  predicate IsNotPublic(a: Artwork)
  {
    !IsPublic(a)
  }

  /** `userEmail === email` (also the store filter `{ userEmail }`). */
  predicate IsOwnedBy(a: Artwork, email: string)
  {
    Get(a.doc, "userEmail") == Some(Str(email))
  }

  /**
   * The key both "newest first" orders compare: the `createdAt` date, with
   * every non-date value (missing, or a string written by an update) ranked
   * below all dates.
   */
  function CreatedKey(a: Artwork): int
  {
    match Get(a.doc, "createdAt")
    case Some(Date(ms)) => ms
    case _ => -1
  }

  /** No two records of a table share an `_id`. */
  predicate UniqueIds(t: seq<Artwork>)
  {
    forall i, j :: 0 <= i < j < |t| ==> t[i].id != t[j].id
  }

  /** Stored documents keep `_id` apart from their other fields. */
  predicate NoIdField(t: seq<Artwork>)
  {
    forall i :: 0 <= i < |t| ==> "_id" !in t[i].doc
  }

  function Min(a: int, b: int): int
  {
    if a <= b then a else b
  }
}
