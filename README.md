# Artify handlers: a Dafny model

Artify is an art-sharing REST service. Its core is a set of Express handlers
over two MongoDB collections:

- `artworks`: documents with a title, a category, a visibility, an owner email, a like counter and timestamps;
- `favorites`: (userEmail, artworkId, createdAt) records.

This project models what those handlers decide, with the database as plain
in-memory tables. A handler's outcome is the status code it answers with, plus
the state of the tables after it.

Modules:

- `Documents` and `Wrappers`: a stored artwork is its `_id` plus a map from field names to values. An absent field is `undefined`. JavaScript truthiness, `visibility === 'Public'`, ownership and the `createdAt` sort key are predicates over that map.
- `Seqs`: order-preserving selection. `find(filter)` and `Array.prototype.filter` both behave this way. Also lookup by `_id`.
- `Ordering`: the "newest first" order, used in two places:
  - the featured query's store sort, modelled as a pure insertion sort;
  - the dashboard's in-place `userArtworks.sort(...)`, modelled as a method over an array.
- `Auth`: the `verifyToken` middleware. It takes `authorization.split(' ')[1]` and returns 401 when there is no token and 403 when verification fails. The identity service is a function parameter.
- `Queries`: the read-only handlers:
  - the public listing with its optional search and category clauses;
  - the featured list (public, newest first, at most 8);
  - a single artwork;
  - the caller's own artworks;
  - the artist summary;
  - the favorites listing, joined with the artworks.
- `Stats`: the dashboard's aggregations. These are the total, the public/private split, the sum of likes and the category histogram.
- `Writes`: what the write handlers do to one document:
  - the create stamp, where owner, `likes: 0` and timestamps override the body;
  - the `$set` of an update;
  - the `$inc` of a like;
  - lookup and removal of a favorite pair.
- `Store`: the class `Database`. It holds both collections as sequences in natural order. Its methods are the handlers that change them (create, update, delete, like, add favorite, remove favorite) plus the dashboard handler. `Valid()` holds these invariants:
  - `_id`s are unique;
  - the `_id` is kept apart from the fields;
  - every (userEmail, artworkId) pair is stored at most once.

The collections are sequences rather than maps because their natural order is
observable in two places. The artist summary reads `artworks[0]`, and the
listings return records in store order.

Where the written description of the service and the code disagree, the model follows the code:

- The listing search is a case-insensitive `$regex` on the raw search string, not a substring match. The matcher is a parameter.
- An update only deletes `_id` from the body, so it can overwrite `userEmail`, `likes` and `createdAt`. There is no "owner is immutable" invariant.
- The featured list is capped at 8, although the comment above the route says 6.
- Liking a missing id answers 500, not 404: the handler reads `.likes` of a null result, which throws.
- Likes have no lower bound.

## Model

| member | source | states |
|---|---|---|
| Seqs.Filter | index.js:113 | a store `find` keeps exactly the records satisfying the filter, each as often as the table holds it, and no other record |
| Seqs.FilterAppend | index.js:113 | selection keeps store order: selecting from two runs of records is selecting from each and concatenating |
| Seqs.FilterFirst | index.js:395-401 | the first record of a selection is the first record in store order that satisfies the filter |
| Seqs.PublicPrivateSplit | index.js:423-424 | the public and the non-public selections together have exactly as many records as the input |
| Seqs.IndexOfId | index.js:143 | `findOne({ _id })` returns a position holding that id, or reports that no record carries it |
| Seqs.IndexOfIdUnique | index.js:197 | with unique ids, `findOne` by id finds the one record that carries it |
| Ordering.SortedCons | index.js:128 | an element no older than every element of a newest-first sequence can be put in front of it |
| Ordering.HeadBound | index.js:128 | no record of a newest-first sequence is newer than its first |
| Ordering.BoundByMultiset | index.js:128 | a sequence holding exactly the records of `t` plus `x` is bounded by any key bounding them all |
| Ordering.InsertDesc | index.js:128 | inserting one record into a newest-first sequence keeps it newest-first and adds exactly that record |
| Ordering.SortDesc | index.js:128 | `sort({ createdAt: -1 })` returns a newest-first permutation of its input |
| Ordering.SortedPrefix | index.js:129 | a prefix of a newest-first sequence (`limit`, `slice`) is newest-first |
| Ordering.TopPrefix | index.js:128-129 | keeping the first k of a newest-first permutation keeps the newest: nothing left out is newer than anything kept |
| Ordering.PrefixOfPermutation | index.js:129 | a prefix of a permutation of the selected records takes no record more often than the selection holds it |
| Ordering.SwapDown | index.js:448 | one exchange step of the in-place sort keeps the same records |
| Ordering.SinkAt | index.js:448 | one pass of the in-place sort extends the newest-first prefix by one cell and keeps the same records |
| Ordering.SortInPlace | index.js:447-448 | the dashboard's in-place sort leaves the array newest first and a permutation of what it held |
| Auth.Split | index.js:55 | `split(' ')` yields at least one piece and no piece holds a space |
| Auth.JoinSplit | index.js:55 | joining the pieces of `split(' ')` with single spaces gives back the header: splitting loses nothing |
| Auth.SplitWord | index.js:55 | a word without spaces splits into itself alone |
| Auth.SplitAfterWord | index.js:55 | a space-free word followed by a space is the first piece, and the rest splits on its own |
| Auth.BearerToken | index.js:55-56 | a token exists exactly when the header is present and its second piece is non-empty, and it is that piece |
| Auth.BearerOfScheme | index.js:55 | the header `<scheme> <token>` yields exactly the token |
| Auth.VerifyToken | index.js:53-65 | 401 exactly when there is no token, 403 exactly when the identity service rejects it, and otherwise the request proceeds as the email that service returned |
| Queries.ListingFilter | index.js:97-111 | the search clause is added only for a truthy search, and the category clause only for a truthy category other than `All` |
| Queries.Selects | index.js:98-113 | the built query selects only public records, selects every public record when neither clause was added, and with a category clause only records of that category |
| Queries.PublicArtworks | index.js:92-118 | the listing holds exactly the public records of the table that satisfy the optional search clause (title or artistName) and the optional category clause, each as often as the table holds it |
| Queries.CategoryAllIsNoFilter | index.js:109 | category `All` lists the same records as no category |
| Queries.EmptySearchIsNoFilter | index.js:101 | an empty search lists the same records as no search |
| Queries.Featured | index.js:121-135 | the featured list has min(8, number of public records) entries, drawn from the public records without repeating any more often than the table holds it, newest first, and no public record left out is newer than one listed |
| Queries.OwnedArtworks | index.js:154-165 | the caller's listing holds exactly the records whose `userEmail` is the caller's email, each as often as the table holds it |
| Queries.FirstOwned | index.js:395-401 | `artworks[0]` of the owner query is the first owned record in store order |
| Queries.GetArtwork | index.js:138-151 | 500 for an id that does not parse, 404 exactly when no record has the id, otherwise 200 with the record carrying that id |
| Queries.OrElse | index.js:401-402 | `v \|\| fallback` is `v` when `v` is truthy and otherwise the fallback |
| Queries.ArtistInfo | index.js:389-410 | the artist summary counts the owner's records, always has a truthy name, falls back to 'Unknown Artist' and '' when the email owns nothing, and otherwise takes name and photo from the first owned record in store order |
| Queries.FavoriteIds | index.js:304 | the favorites' ids fail to convert exactly when one favorite's id does not parse, and otherwise are exactly the converted ids |
| Queries.FavoriteArtworks | index.js:294-311 | 500 exactly when one of the caller's favorites holds an unparsable id; otherwise 200 with exactly the artworks whose id the caller favorited, each as often as the table holds it |
| Stats.LikesOf | index.js:422 | `art.likes \|\| 0` is the numeric likes, or 0 when likes is missing |
| Stats.TotalLikesAppend | index.js:422 | the likes total of two runs of records is the sum of their totals |
| Stats.TotalLikes | index.js:422 | the likes total is not negative when no record has negative likes, and is 0 when every record counts 0 |
| Stats.CountedCategoryOccurs | index.js:436-439 | a category with a positive count is the category of some record |
| Stats.KeyIndex | index.js:437 | `acc[key]` finds the entry of that category, or none exactly when the histogram has no entry for it |
| Stats.SumCountsUpdate | index.js:437 | changing one entry's count changes the sum of counts by the difference |
| Stats.SumCountsAppend | index.js:437 | a new entry adds its count to the sum of counts |
| Stats.Bump | index.js:437 | one `acc[key] = (acc[key] \|\| 0) + 1` keeps keys distinct and raises exactly that key's count by one, adding it with count 1 when it is new |
| Stats.CategoryHistogram | index.js:436-444 | the category histogram never lists a key twice |
| Stats.BumpKeepsCounts | index.js:437 | one counting step keeps every entry equal to the count of its category |
| Stats.HistogramCounts | index.js:436-444 | every histogram entry holds the number of the caller's records with that category, and that number is positive |
| Stats.BumpCovers | index.js:437 | after one counting step the counted category has an entry and no entry is lost |
| Stats.HistogramCovers | index.js:436-444 | every record's category has an entry in the histogram |
| Stats.HistogramTotal | index.js:436-444 | the histogram's counts add up to `totalArtworks` |
| Stats.Summarize | index.js:420-424 | the summary's `totalArtworks` is the record count and equals `publicArtworks` + `privateArtworks`; `totalLikes` is the likes total |
| Stats.SummaryExample | index.js:420-424 | records [public with 3 likes, private with 2 likes] give totals 2, 5, 1, 1 |
| Writes.Stamp | index.js:173-179 | a created document has the body's fields, except that `userEmail` is the caller, `likes` is 0 and both timestamps are now, whatever the body held |
| Writes.NewId | index.js:173-180 | `insertOne` stores under the body's own `_id` when it sent one, otherwise under the generated one |
| Writes.MergeUpdate | index.js:205-214 | an update writes every body field except `_id`, refreshes `updatedAt`, keeps every other field of the stored document, and keeps `_id` out of the fields |
| Writes.LikeDelta | index.js:255 | the increment is +1 exactly for `action === 'like'`, and -1 for anything else, a missing action included |
| Writes.IncLikes | index.js:256-259 | `$inc` fails exactly on a non-numeric `likes`, otherwise adds the delta to the likes, counting a missing likes as 0, and leaves every other field alone |
| Writes.LikeThenUnlike | index.js:255-259 | a like followed by an unlike restores a document with numeric likes |
| Writes.HasPair | index.js:323 | `findOne({ userEmail, artworkId })` finds something exactly when some stored favorite has that email and that artwork id |
| Writes.UniquePairCount | index.js:323-333 | when pairs are unique, a pair is stored exactly once or not at all |
| Writes.PairIndex | index.js:348 | the first favorite naming the pair, or none exactly when no favorite names it |
| Writes.RemoveFirstPair | index.js:348 | `deleteOne` removes exactly the first favorite naming the pair, and changes nothing when none does |
| Writes.RemoveFirstPairClears | index.js:348 | on a table with unique pairs, removal keeps pairs unique and leaves no favorite naming the pair |
| Writes.AppendThenRemove | index.js:328-348 | adding a new favorite and then removing it gives back the original table |
| Store.RemoveAt | index.js:239 | removing one record keeps ids unique and keeps exactly the records with a different id |
| Store.ReplaceAt | index.js:211-214 | replacing a record's fields under the same id keeps ids unique |
| Store.Recent | index.js:447-449 | the recent list has min(5, n) of the fetched records, drawn from them without repetition beyond their own, newest first, and none left out is newer than one kept |
| Store.Database.constructor | index.js:95 | the collections start empty and valid |
| Store.Database.AddArtwork | index.js:168-185 | 201 appends exactly the stamped record under the new id; an id already taken gives 500 and changes nothing |
| Store.Database.UpdateArtwork | index.js:188-219 | 500 for an unparsable id, 404 when absent, 403 when not the owner (checked after existence), none of which change anything; otherwise exactly that record gets the merged fields under the same id, and `modifiedCount` is 0 exactly when nothing changed |
| Store.Database.DeleteArtwork | index.js:222-244 | 500, 404 and 403 as for update, changing nothing; otherwise exactly the record with that id is removed and `deletedCount` is 1 |
| Store.Database.LikeArtwork | index.js:247-266 | any caller may like; 200 exactly when the record exists and has numeric or missing likes, and then only that record's likes move by the delta and the new count is returned; otherwise 500 and nothing changes |
| Store.Database.AddFavorite | index.js:314-337 | 400 exactly when the caller already favorited the id, changing nothing; otherwise 201 and the new favorite is appended; afterwards the pair is stored exactly once |
| Store.Database.RemoveFavorite | index.js:340-353 | always 200; `deletedCount` is 1 exactly when the pair was stored; at most one record goes, and afterwards no favorite names the pair |
| Store.Database.DashboardStats | index.js:413-468 | the summary and histogram are those of the caller's records; `recent` has min(5, n) of the caller's records, drawn from them without repetition beyond their own, newest first, and no record left out is newer than one kept |

## Left out

- Express routing, CORS, JSON body parsing, response bodies and messages, and the root and health routes: HTTP plumbing.
- Firebase initialisation and `verifyIdToken`: the identity service is the parameter `verify` of `Auth.VerifyToken`. A decoded token without an email is not modelled. The store handlers take the verified email as `caller`.
- The MongoDB client and `connectDB`. Store failures other than the ones named in the model (unparsable id, duplicate `_id`, non-numeric `$inc`) are not modelled.
- `$regex` semantics: the case-insensitive matcher is the parameter `matches` of `Queries.PublicArtworks`. A search string that is not a valid pattern, and query parameters given as arrays, are not modelled.
- `ObjectId` parsing: the handlers take its result as an `Option` (`oid`), and the favorites listing takes the parser as a parameter.
- Concurrency and the atomicity of `$inc`: every handler runs alone, as one step on the tables.
- The clock is the parameter `now`. The two `new Date()` calls of a create are taken to give the same instant.
- The pie chart data and its colour constants, and the `{ name, value }` reshaping of the bar chart: the model stops at the histogram of counts.
- Stats.CategoryHistogram: keys are field values, not strings. JavaScript turns every key into a string, so an absent category and the string 'undefined' would share one entry; the model keeps them apart.
- Stats.CategoryHistogram: entries are in order of first appearance. `Object.keys` lists integer-like keys such as "7" or "2024" first, in ascending numeric order; the model does not reorder them.
- Stats.Bump and Stats.CategoryHistogram: `categoryStats` is a plain object, so a category named after an `Object.prototype` member behaves differently in JavaScript. For "constructor" or "toString", `acc[key] || 0` reads the inherited function and the stored value becomes a string; for "__proto__" the assignment is ignored and no entry appears. The model counts every category as an ordinary key, so HistogramCounts, HistogramCovers and HistogramTotal do not hold of the source for such categories.
- Ordering.SortDesc: equal `createdAt` values keep store order. The store's own tie order is unspecified.
- Ordering.SortDesc and Ordering.SortInPlace: any `createdAt` that is not a date ranks below every date. The store's cross-type order and the JavaScript comparator's NaN for an invalid date are not modelled.
- Stats.LikesOf: a non-numeric truthy `likes` counts 0. JavaScript would coerce it or concatenate strings.
- Numbers are integers: floating-point likes and values are not modelled, nor are nested objects and arrays as field values.
- Writes.NewId: a client-supplied `_id` of any value is taken as the key. The store's rules on `_id` types are not modelled.
- A missing `artworkId` in the body of POST /api/favorites is not modelled; it is always a string.
- `$set` keys with dots or a leading `$` are not modelled; fields are flat.
