# DocumentManager in Dafny

A model of `DocumentManager`. It is an in-memory document store: a hash map
from document id to `Document`, with three operations.

- `save` is an upsert. It rejects null. It gives an id-less document a generated id and writes that id back into the caller's document. It stores a merge of the incoming document with any entry already under that id, and returns the stored document.
- `findById` is a point lookup. It returns empty for a null or empty id.
- `search` is a full scan. It keeps the stored documents that pass four filters: title prefix, content substring, author id and an inclusive creation-time range.

Files and modules:

- `records.dfy` (`Records`) holds the three records `Author`, `Document` and `SearchRequest`. Java's null is `Option`, a thrown exception is a `Result`, and `Instant` is `int`.
- `builtins.dfy` (`Builtins`) holds the library calls the filters make: `String.startsWith`, `String.contains` (a scan over offsets) and `Stream.anyMatch` (a scan over the list). `Contains` and `AnyMatch` are proved equal to their declarative meanings. `StartsWith` is defined directly as Dafny's prefix relation.
- `store.dfy` (`Store`) holds the table and the pure meaning of save and findById. `Consistent` is the table invariant: every key is non-empty, names a document that carries that id, and has a creation time. Its lemmas prove the merge rules, the round trip, and that no sequence of saves ever changes a stored creation time. These results concern changes made through save; see the aliasing line under "## Left out".
- `query.dfy` (`Query`) holds search. Each filter is written as the source computes it (`Matches*`) and as what it means (`TitleOk`, `ContentOk`, `AuthorOk`, `DateOk`), and the two are proved to agree. `Search` is then characterised exactly, error cases included. Its lemmas cover the empty request, intersection of criteria, author lists as alternatives, result counting and two worked tables.
- `manager.dfy` (`Manager`) holds the class `DocumentManager`. Its `storage` field is a `map` that `Save` reassigns in place. `FindById` and `Search` read it. A small client method exercises save twice.

Behaviours of the code that a reader might not expect, all modelled as the code has them:

- A document whose title is null passes every title-prefix list (`DocumentManager.java:84`), so a non-empty prefix list never excludes an untitled document.
- A null `containsContents` content is not "no match". When the title filter passes, the content list is non-empty and the stored content is null, the scan throws a `NullPointerException`, and so the whole search throws. The short-circuit `&&` means a document whose title fails never reaches the content filter.
- A null request is not an empty request. The filter dereferences it for the first document it sees, so `search(null)` throws on a non-empty store and returns an empty list on an empty one.
- `save`, `findById` and `search` hand out the stored objects themselves, not copies, and a stored document shares the caller's `Author` object.

## Model

| member | source | states |
|---|---|---|
| Store.Get | src/main/java/tz/test/DocumentManager.java:119 | HashMap.get: some entry exactly when the key is stored, and then the stored document |
| Store.Find | src/main/java/tz/test/DocumentManager.java:114-122 | findById is empty for a null or empty id, and otherwise is the table's entry for the id, or empty when there is none |
| Store.FindExactlyStored | src/main/java/tz/test/DocumentManager.java:114-121 | in a table built by save, a non-empty id is found exactly when it is a key, and the found document carries that id |
| Store.WithId | src/main/java/tz/test/DocumentManager.java:37-39 | the caller's document after the id check has a non-empty id; it is the generated one when the id was null or empty, and the document is untouched otherwise; no other field changes |
| Store.KeyOf | src/main/java/tz/test/DocumentManager.java:37-41 | the key save uses is never empty; it is the generated id for a blank id and the document's own id otherwise |
| Store.Upsert | src/main/java/tz/test/DocumentManager.java:41-61 | save adds the document's key to the table's keys and leaves every other entry as it was |
| Store.UpdateKeepsIdAndCreated | src/main/java/tz/test/DocumentManager.java:43-50 | saving over a stored id keeps the stored id and creation time, takes title, content and author from the argument, and ignores the argument's creation time |
| Store.InsertTakesCreatedOrNow | src/main/java/tz/test/DocumentManager.java:51-59 | saving a new id stores the argument's id, title, content and author, with the argument's creation time, or the clock reading when that is null |
| Store.BlankIdGetsFreshKey | src/main/java/tz/test/DocumentManager.java:37-41 | a document with a null or empty id is saved under the generated id, and the returned document carries it |
| Store.UpsertConsistent | src/main/java/tz/test/DocumentManager.java:41-61 | save keeps the table invariant: non-empty keys, each entry carrying its key as id and a creation time |
| Store.SaveThenFind | src/main/java/tz/test/DocumentManager.java:41-62 | round trip: findById of the saved document's id returns exactly the document save returned |
| Store.GeneratedIdsDiffer | src/main/java/tz/test/DocumentManager.java:37-39 | two id-less documents saved with generated ids not yet in the table get different ids |
| Store.CreatedNeverChanges | src/main/java/tz/test/DocumentManager.java:43-50 | once an id is stored, any later sequence of saves keeps it stored, with the same id and the same creation time |
| Store.SaveAllConsistent | src/main/java/tz/test/DocumentManager.java:32-62 | any sequence of saves from a consistent table (the empty one included) leaves it consistent |
| Store.EntriesDistinct | src/main/java/tz/test/DocumentManager.java:44-54 | because each entry carries its own key as id, the entries under a set of keys are exactly as many as the keys |
| Builtins.Contains | src/main/java/tz/test/DocumentManager.java:90 | String.contains holds exactly when the needle occurs in the string at some offset |
| Builtins.AnyMatch | src/main/java/tz/test/DocumentManager.java:85 | Stream.anyMatch holds exactly when some element of the list satisfies the predicate |
| Query.MatchesTitlePrefixes | src/main/java/tz/test/DocumentManager.java:83-86 | the title filter passes exactly when the title is null, the list is null or empty, or some listed prefix starts the title |
| Query.MatchesContainsContents | src/main/java/tz/test/DocumentManager.java:88-91 | the content filter throws exactly when the list is non-empty and the content is null; otherwise it passes exactly when the list is unset or some listed string occurs in the content |
| Query.MatchesAuthorIds | src/main/java/tz/test/DocumentManager.java:93-98 | the author filter passes exactly when the list is unset, or the author and its id are non-null and the id is listed |
| Query.MatchesCreatedDate | src/main/java/tz/test/DocumentManager.java:100-105 | the date filter passes exactly when the creation time is non-null and lies within the inclusive bounds that are set |
| Query.Matches | src/main/java/tz/test/DocumentManager.java:74-79 | the filter lambda throws exactly when the title passes, the content list is non-empty and the content is null; otherwise it keeps the document exactly when all four criteria hold |
| Query.Search | src/main/java/tz/test/DocumentManager.java:71-81 | search throws exactly when the request is null on a non-empty table or some stored document faults; otherwise it returns exactly the stored documents meeting all four criteria |
| Query.EmptyRequestKeepsDated | src/main/java/tz/test/DocumentManager.java:100-101 | with all criteria null, search returns every stored document whose creation time is set, and no document without one |
| Query.EmptyRequestReturnsAll | src/main/java/tz/test/DocumentManager.java:71-81 | on a table built by save, the empty request returns all stored documents |
| Query.ResultsAreFindable | src/main/java/tz/test/DocumentManager.java:73-80 | every search result is a stored document, and findById of its id returns it |
| Query.ResultCountsMatchingKeys | src/main/java/tz/test/DocumentManager.java:73-80 | the result has exactly as many documents as there are stored keys meeting the request, so the list the source collects has no repeated element |
| Query.CombinedIsIntersection | src/main/java/tz/test/DocumentManager.java:74-78 | when the request sets no content list, or no stored content is null, every search succeeds, and the combined request returns the intersection of the four single-criterion searches |
| Query.AuthorListsUnite | src/main/java/tz/test/DocumentManager.java:93-98 | author ids are alternatives: searching with the concatenation of two non-empty id lists returns the union of the two searches |
| Query.SavedIsFoundBySearch | src/main/java/tz/test/DocumentManager.java:73-80 | after save, a successful search contains the saved document exactly when it meets the request |
| Query.TitlePrefixesExample | src/main/java/tz/test/DocumentManager.java:83-86 | on Alpha/Beta/Gamma plus an untitled document, prefixes "Al" or "Ga" return Alpha, Gamma and the untitled document |
| Query.AuthorIdsExample | src/main/java/tz/test/DocumentManager.java:93-98 | on documents by a1, a2, a3 plus one without author, the id list ["a2"] returns only a2's document |
| Manager.DocumentManager.constructor | src/main/java/tz/test/DocumentManager.java:21 | the store starts empty and consistent |
| Manager.DocumentManager.Save | src/main/java/tz/test/DocumentManager.java:32-63 | null throws IllegalArgument with the source's message and leaves the table unchanged; otherwise the caller's document gets its id, the table becomes the upsert of the old one, the stored document is returned, and findById of its id finds it |
| Manager.DocumentManager.FindById | src/main/java/tz/test/DocumentManager.java:114-122 | returns the lookup of the current table without changing it; a found document carries the id asked for |
| Manager.DocumentManager.Search | src/main/java/tz/test/DocumentManager.java:71-81 | returns the search of the current table; every result is findable by its id |
| Manager.SaveTwiceKeepsCreated | src/main/java/tz/test/DocumentManager.java:41-62 | a document saved with no id and no creation time gets the generated id and the clock reading; re-saving it with another creation time keeps the first one and takes the new title |

## Left out

- Id generation: `UUID.randomUUID()` becomes the `freshId` parameter of save, which must be non-empty (a UUID string always is). It is not required to be absent from the table. If it were present, the code would merge with that entry, and the model does the same.
- The clock: `Instant.now()` becomes the `now` parameter; `Instant` is an `int`, since only its order is used.
- The Lombok-generated builders, getters, setters and `equals`: records are Dafny datatypes and compare structurally.
- Result order: `search` returns a `set`, because HashMap iteration order is unspecified. `Query.ResultCountsMatchingKeys` shows that the list the source builds has no duplicates, so nothing is lost.
- Object aliasing: documents and authors are immutable values. The in-place `setId` on the caller's document is returned as save's `argument` result. In the source, `save` (line 62), `findById` and `search` return live references into the table. A stored document also holds the caller's own `Author` object (lines 48, 57). So a caller can change stored state without going through save: `setCreated` on the document save returned changes a stored creation time, and `setId` on the Author it passed changes what the author filter sees. The model does not capture such changes. `Consistent`, `Store.CreatedNeverChanges` and `Store.SaveAllConsistent` cover only changes made through save.
- Null elements inside the request's lists: the lists hold non-null strings. A null prefix or content string makes `startsWith`/`contains` throw in the source, and the model does not capture that.
- Exceptions are outcome values: the `IllegalArgumentException` of save, and the `NullPointerException`s of search at lines 75 and 90, are `Failure` results rather than JVM exceptions.
- Concurrency: none exists, and the class comment disclaims it.
- Strings are sequences of `char`, which are Unicode scalar values. For well-formed strings, equality, prefix and substring tests agree with Java's, but lengths differ: Java counts UTF-16 code units, so a character outside the Basic Multilingual Plane is two units there and one here. Java strings holding unpaired surrogates cannot be represented and are not modelled.
