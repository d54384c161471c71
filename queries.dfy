/**
 * The read-only handlers: the public listing, the featured list, a single
 * artwork, the caller's own artworks, the artist summary and the caller's
 * favorites joined with the artworks they name.
 */
module Queries {
  import opened Wrappers
  import opened Documents
  import opened Seqs
  import opened Ordering

  /** `.limit(8)` of GET /api/artworks/featured. */
  const FeaturedLimit: nat := 8

  /** `{ $regex: pattern, $options: 'i' }` on one field: only a string field can match; `matches` is the case-insensitive matcher. */
  predicate RegexOn(matches: (string, string) -> bool, pattern: string, v: Option<Value>)
  {
    v.Some? && v.value.Str? && matches(pattern, v.value.s)
  }

  /** The optional clauses of the listing filter; `visibility: 'Public'` is always present. */
  datatype ListingQuery = ListingQuery(search: Option<string>, category: Option<string>)

  /** `if (search)` adds the search clause; `if (category && category !== 'All')` adds the category clause. */
  function ListingFilter(search: Option<string>, category: Option<string>): (q: ListingQuery)
    ensures q.search.Some? <==> search.Some? && search.value != ""
    ensures q.category.Some? <==> category.Some? && category.value != "" && category.value != "All"
    ensures q.search.Some? ==> q.search == search
    ensures q.category.Some? ==> q.category == category
  {
    ListingQuery(
      if search.Some? && search.value != "" then search else None,
      if category.Some? && category.value != "" && category.value != "All" then category else None)
  }

  /** Whether the store's `find(query)` returns this record. */
  predicate Selects(q: ListingQuery, matches: (string, string) -> bool, a: Artwork)
    ensures Selects(q, matches, a) ==> IsPublic(a)
    ensures q.search.None? && q.category.None? ==> (Selects(q, matches, a) <==> IsPublic(a))
    ensures Selects(q, matches, a) && q.category.Some? ==> Get(a.doc, "category") == Some(Str(q.category.value))
  {
    && IsPublic(a)
    && (q.search.Some? ==>
          RegexOn(matches, q.search.value, Get(a.doc, "title"))
          || RegexOn(matches, q.search.value, Get(a.doc, "artistName")))
    && (q.category.Some? ==> Get(a.doc, "category") == Some(Str(q.category.value)))
  }

  /** GET /api/artworks: exactly the public records that pass the optional search and category clauses, in store order. */
  function PublicArtworks(table: seq<Artwork>, search: Option<string>, category: Option<string>,
                          matches: (string, string) -> bool): (r: seq<Artwork>)
    ensures forall a :: a in r ==> IsPublic(a)
    ensures forall a :: a in r <==>
      && a in table
      && IsPublic(a)
      && (search.Some? && search.value != "" ==>
            RegexOn(matches, search.value, Get(a.doc, "title"))
            || RegexOn(matches, search.value, Get(a.doc, "artistName")))
      && (category.Some? && category.value != "" && category.value != "All" ==>
            Get(a.doc, "category") == Some(Str(category.value)))
    ensures forall a :: a in r ==> multiset(r)[a] == multiset(table)[a]
  {
    var q := ListingFilter(search, category);
    Filter(table, a => Selects(q, matches, a))
  }

  /** Category `All` is the same as no category. */
  lemma CategoryAllIsNoFilter(table: seq<Artwork>, search: Option<string>, matches: (string, string) -> bool)
    ensures PublicArtworks(table, search, Some("All"), matches) == PublicArtworks(table, search, None, matches)
  {
  }

  /** An empty search string is the same as no search. */
  lemma EmptySearchIsNoFilter(table: seq<Artwork>, category: Option<string>, matches: (string, string) -> bool)
    ensures PublicArtworks(table, Some(""), category, matches) == PublicArtworks(table, None, category, matches)
  {
  }

  /**
   * GET /api/artworks/featured: the newest public records, at most eight,
   * newest first; no public record left out is newer than one kept.
   */
  function Featured(table: seq<Artwork>): (r: seq<Artwork>)
    ensures |r| == Min(FeaturedLimit, |Filter(table, IsPublic)|)
    ensures forall a :: a in r ==> a in table && IsPublic(a)
    ensures multiset(r) <= multiset(Filter(table, IsPublic))
    ensures SortedDesc(r)
    ensures forall a, i :: a in table && IsPublic(a) && a !in r && 0 <= i < |r| ==> CreatedKey(a) <= CreatedKey(r[i])
  {
    var pool := Filter(table, IsPublic);
    var sorted := SortDesc(pool);
    var k := Min(FeaturedLimit, |sorted|);
    TopPrefix(pool, sorted, k);
    SortedPrefix(sorted, k);
    PrefixOfPermutation(pool, sorted, k);
    sorted[..k]
  }

  /** GET /api/my-artworks (and the store query of the artist and dashboard handlers): exactly the records owned by `email`. */
  function OwnedArtworks(table: seq<Artwork>, email: string): (r: seq<Artwork>)
    ensures forall a :: a in r <==> a in table && IsOwnedBy(a, email)
    ensures forall a :: a in r ==> multiset(r)[a] == multiset(table)[a]
  {
    Filter(table, a => IsOwnedBy(a, email))
  }

  /** `table[i]` is the first record, in store order, owned by `email`. */
  predicate FirstOwnedAt(table: seq<Artwork>, email: string, i: int)
  {
    0 <= i < |table| && IsOwnedBy(table[i], email) && forall j :: 0 <= j < i ==> !IsOwnedBy(table[j], email)
  }

  /** The first owned record in store order is the first element of the owner query. */
  lemma FirstOwned(table: seq<Artwork>, email: string, i: nat)
    requires FirstOwnedAt(table, email, i)
    ensures |OwnedArtworks(table, email)| > 0 && OwnedArtworks(table, email)[0] == table[i]
  {
    FilterFirst(table, a => IsOwnedBy(a, email), i);
  }

  /** A status and, on success, a record. */
  datatype Fetched = Fetched(status: int, artwork: Option<Artwork>)

  /** GET /api/artworks/:id: `oid` is the parsed id (None when `new ObjectId` throws, giving 500). */
  function GetArtwork(table: seq<Artwork>, oid: Option<nat>): (r: Fetched)
    ensures oid.None? ==> r == Fetched(500, None)
    ensures oid.Some? ==> (r.status == 404 <==> forall a :: a in table ==> a.id != Oid(oid.value))
    ensures oid.Some? && r.status != 404 ==>
      r.status == 200 && r.artwork.Some? && r.artwork.value in table && r.artwork.value.id == Oid(oid.value)
  {
    match oid
    case None => Fetched(500, None)
    case Some(n) =>
      match IndexOfId(table, Oid(n))
      case None => Fetched(404, None)
      case Some(k) => Fetched(200, Some(table[k]))
  }

  /** `v || fallback`. */
  function OrElse(v: Option<Value>, fallback: Value): (r: Value)
    ensures Truthy(v) ==> Some(r) == v
    ensures !Truthy(v) ==> r == fallback
  {
    if Truthy(v) then v.value else fallback
  }

  /** The artist summary of GET /api/artists/:email. */
  datatype ArtistSummary = ArtistSummary(email: string, name: Value, photoURL: Value, totalArtworks: nat)

  /**
   * GET /api/artists/:email: the number of records owned by `email`, and the
   * name and photo of the first of them, with 'Unknown Artist' and '' as
   * defaults. The name is always truthy.
   */
  function ArtistInfo(table: seq<Artwork>, email: string): (r: ArtistSummary)
    ensures r.email == email
    ensures r.totalArtworks == |OwnedArtworks(table, email)|
    ensures Truthy(Some(r.name))
    ensures (forall a :: a in table ==> !IsOwnedBy(a, email)) ==>
      r.name == Str("Unknown Artist") && r.photoURL == Str("")
    ensures forall i :: FirstOwnedAt(table, email, i) ==>
      r.name == OrElse(Get(table[i].doc, "artistName"), Str("Unknown Artist"))
      && r.photoURL == OrElse(Get(table[i].doc, "artistPhoto"), Str(""))
  {
    var owned := OwnedArtworks(table, email);
    assert forall i :: FirstOwnedAt(table, email, i) ==> |owned| > 0 && owned[0] == table[i] by {
      forall i | FirstOwnedAt(table, email, i) ensures |owned| > 0 && owned[0] == table[i] {
        FirstOwned(table, email, i);
      }
    }
    assert owned != [] ==> owned[0] in table;
    ArtistSummary(
      email,
      OrElse(if owned == [] then None else Get(owned[0].doc, "artistName"), Str("Unknown Artist")),
      OrElse(if owned == [] then None else Get(owned[0].doc, "artistPhoto"), Str("")),
      |owned|)
  }

  /** `new ObjectId(fav.artworkId)` as an `_id` value, None when it throws. */
  function FavoriteId(parse: string -> Option<nat>, f: Favorite): Option<Value>
  {
    match parse(f.artworkId)
    case None => None
    case Some(n) => Some(Oid(n))
  }

  /** The ids of `favorites.map(fav => new ObjectId(fav.artworkId))`, or None when some parse throws. */
  function FavoriteIds(favs: seq<Favorite>, parse: string -> Option<nat>): (r: Option<set<Value>>)
    ensures r.None? <==> exists f :: f in favs && FavoriteId(parse, f).None?
    ensures r.Some? ==> forall v :: v in r.value <==> exists f :: f in favs && FavoriteId(parse, f) == Some(v)
  {
    if favs == [] then Some({})
    else
      match FavoriteId(parse, favs[0])
      case None => None
      case Some(v) =>
        match FavoriteIds(favs[1..], parse)
        case None =>
          assert forall f :: f in favs[1..] ==> f in favs;
          None
        case Some(rest) =>
          assert forall f :: f in favs ==> f == favs[0] || f in favs[1..];
          Some({v} + rest)
  }

  /** A status and a list of records. */
  datatype Listed = Listed(status: int, artworks: seq<Artwork>)

  /** The caller favorited this `_id`. */
  predicate FavoritedBy(favs: seq<Favorite>, caller: string, parse: string -> Option<nat>, id: Value)
  {
    exists f :: f in favs && f.userEmail == caller && FavoriteId(parse, f) == Some(id)
  }

  /**
   * GET /api/favorites: 500 when one of the caller's favorites holds an id
   * that does not parse; otherwise exactly the artworks the caller favorited,
   * in store order (a favorite of a deleted artwork contributes nothing).
   */
  function FavoriteArtworks(favs: seq<Favorite>, table: seq<Artwork>, caller: string,
                            parse: string -> Option<nat>): (r: Listed)
    ensures r.status == 500 <==> exists f :: f in favs && f.userEmail == caller && FavoriteId(parse, f).None?
    ensures r.status != 500 ==> r.status == 200
    ensures r.status == 200 ==> forall a :: a in r.artworks <==> a in table && FavoritedBy(favs, caller, parse, a.id)
    ensures r.status == 200 ==> forall a :: a in r.artworks ==> multiset(r.artworks)[a] == multiset(table)[a]
  {
    var mine := Filter(favs, (f: Favorite) => f.userEmail == caller);
    match FavoriteIds(mine, parse)
    case None => Listed(500, [])
    case Some(ids) => Listed(200, Filter(table, (a: Artwork) => a.id in ids))
  }
}
