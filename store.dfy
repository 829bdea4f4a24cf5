/** The storage table of the document manager and the pure meaning of its
    two table operations: the upsert performed by save and the lookup
    performed by findById. */
module Store {
  import opened Records

  /** The HashMap from document id to stored document. */
  type Table = map<string, Document>

  /** What every table built by save satisfies: each key is a non-empty id,
      the document stored under it carries that id, and its creation time
      is set. */
  predicate Consistent(storage: Table) {
    forall k :: k in storage ==> k != [] && storage[k].id == Some(k) && storage[k].created.Some?
  }

  /** HashMap.get: the entry for `key`, or null. */
  function Get(storage: Table, key: string): (r: Option<Document>)
    ensures r.Some? <==> key in storage
    ensures r.Some? ==> r.value == storage[key]
  {
    if key in storage then Some(storage[key]) else None
  }

  /** findById: nothing for a null or empty id, otherwise the stored entry if there is one. */
  function Find(storage: Table, id: Option<string>): (r: Option<Document>)
    ensures IsBlank(id) ==> r.None?
    ensures !IsBlank(id) ==> r == Get(storage, id.value)
  {
    if id.None? || |id.value| == 0 then None else Get(storage, id.value)
  }

  /** In a consistent table the blank-id guard hides nothing: an id is found
      exactly when it is a key, and what is found carries that id. */
  lemma FindExactlyStored(storage: Table, k: string)
    requires Consistent(storage)
    ensures Find(storage, Some(k)).Some? <==> k in storage
    ensures Find(storage, Some(k)).Some? ==> Find(storage, Some(k)).value.id == Some(k)
  {
  }

  /** The caller's document after the id check of save: a null or empty id
      is replaced by the generated one, and nothing else is touched. */
  function WithId(d: Document, freshId: string): (r: Document)
    requires freshId != []
    ensures !IsBlank(r.id)
    ensures IsBlank(d.id) ==> r.id == Some(freshId)
    ensures !IsBlank(d.id) ==> r == d
    ensures r.(id := d.id) == d
  {
    if d.id.None? || |d.id.value| == 0 then d.(id := Some(freshId)) else d
  }

  /** The key save stores the document under. */
  function KeyOf(d: Document, freshId: string): (k: string)
    requires freshId != []
    ensures k != []
    ensures IsBlank(d.id) ==> k == freshId
    ensures !IsBlank(d.id) ==> Some(k) == d.id
  {
    WithId(d, freshId).id.value
  }

  /** The function save passes to HashMap.compute: the document to store,
      given the entry already there (if any) and the incoming document. */
  function Merge(existing: Option<Document>, incoming: Document, now: Instant): Document {
    match existing
    case Some(stored) =>
      Document(stored.id, incoming.title, incoming.content, incoming.author, stored.created)
    case None =>
      Document(incoming.id, incoming.title, incoming.content, incoming.author,
               if incoming.created.Some? then incoming.created else Some(now))
  }

  /** The document save stores and returns. */
  function Saved(storage: Table, d: Document, freshId: string, now: Instant): Document
    requires freshId != []
  {
    var key := KeyOf(d, freshId);
    Merge(Get(storage, key), WithId(d, freshId), now)
  }

  /** The table after save: only the entry under the document's key changes. */
  function Upsert(storage: Table, d: Document, freshId: string, now: Instant): (r: Table)
    requires freshId != []
    ensures r.Keys == storage.Keys + {KeyOf(d, freshId)}
    ensures forall k :: k in storage && k != KeyOf(d, freshId) ==> r[k] == storage[k]
    ensures KeyOf(d, freshId) in r
  {
    storage[KeyOf(d, freshId) := Saved(storage, d, freshId, now)]
  }

  /** Saving over an existing id keeps the stored id and creation time and
      takes title, content and author from the argument; the argument's
      creation time is ignored. */
  lemma UpdateKeepsIdAndCreated(storage: Table, d: Document, freshId: string, now: Instant)
    requires freshId != []
    requires KeyOf(d, freshId) in storage
    ensures var s := Saved(storage, d, freshId, now); var prior := storage[KeyOf(d, freshId)];
      s.id == prior.id && s.created == prior.created &&
      s.title == d.title && s.content == d.content && s.author == d.author
  {
  }

  /** Saving under a new id stores the argument with its (possibly generated)
      id, and with its creation time, or `now` when it has none. */
  lemma InsertTakesCreatedOrNow(storage: Table, d: Document, freshId: string, now: Instant)
    requires freshId != []
    requires KeyOf(d, freshId) !in storage
    ensures var s := Saved(storage, d, freshId, now);
      s.id == Some(KeyOf(d, freshId)) &&
      s.title == d.title && s.content == d.content && s.author == d.author &&
      (d.created.Some? ==> s.created == d.created) &&
      (d.created.None? ==> s.created == Some(now))
  {
  }

  /** A document with a null or empty id receives the generated id: the
      saved document carries it and it is now a key of the table. */
  lemma BlankIdGetsFreshKey(storage: Table, d: Document, freshId: string, now: Instant)
    requires Consistent(storage)
    requires freshId != []
    requires IsBlank(d.id)
    ensures Saved(storage, d, freshId, now).id == Some(freshId)
    ensures freshId in Upsert(storage, d, freshId, now)
  {
  }

  /** Save keeps the table consistent. */
  lemma UpsertConsistent(storage: Table, d: Document, freshId: string, now: Instant)
    requires Consistent(storage)
    requires freshId != []
    ensures Consistent(Upsert(storage, d, freshId, now))
  {
  }

  /** Round trip: looking up the id of the saved document finds exactly it. */
  lemma SaveThenFind(storage: Table, d: Document, freshId: string, now: Instant)
    requires Consistent(storage)
    requires freshId != []
    ensures var s := Saved(storage, d, freshId, now);
      s.id == Some(KeyOf(d, freshId)) &&
      Find(Upsert(storage, d, freshId, now), s.id) == Some(s)
  {
  }

  /** Two saves of id-less documents with generated ids that are not yet
      keys produce two different ids. */
  lemma GeneratedIdsDiffer(storage: Table, d1: Document, fresh1: string, now1: Instant,
                           d2: Document, fresh2: string, now2: Instant)
    requires Consistent(storage)
    requires fresh1 != [] && fresh1 !in storage && IsBlank(d1.id)
    requires fresh2 != [] && fresh2 !in Upsert(storage, d1, fresh1, now1) && IsBlank(d2.id)
    ensures var s1 := Upsert(storage, d1, fresh1, now1);
      Saved(storage, d1, fresh1, now1).id != Saved(s1, d2, fresh2, now2).id
  {
  }

  /** One call of save: the argument, the generated id it would receive,
      and the clock reading. */
  datatype SaveCall = SaveCall(document: Document, freshId: string, now: Instant)

  predicate WellFormed(calls: seq<SaveCall>) {
    forall i :: 0 <= i < |calls| ==> calls[i].freshId != []
  }

  /** The table after a sequence of saves, in order. */
  function SaveAll(storage: Table, calls: seq<SaveCall>): Table
    requires WellFormed(calls)
    decreases |calls|
  {
    if calls == [] then storage
    else
      var c := calls[0];
      SaveAll(Upsert(storage, c.document, c.freshId, c.now), calls[1..])
  }

  /** Creation time is immutable under save: once an id is stored, no later
      sequence of saves removes it or changes its id or its creation time. */
  lemma {:induction false} CreatedNeverChanges(storage: Table, calls: seq<SaveCall>, k: string)
    requires WellFormed(calls)
    requires k in storage
    ensures k in SaveAll(storage, calls)
    ensures SaveAll(storage, calls)[k].id == storage[k].id
    ensures SaveAll(storage, calls)[k].created == storage[k].created
    decreases |calls|
  {
    if calls != [] {
      var c := calls[0];
      var next := Upsert(storage, c.document, c.freshId, c.now);
      assert next[k].id == storage[k].id && next[k].created == storage[k].created by {
        if k == KeyOf(c.document, c.freshId) {
          UpdateKeepsIdAndCreated(storage, c.document, c.freshId, c.now);
        }
      }
      CreatedNeverChanges(next, calls[1..], k);
    }
  }

  /** Every table built by saves from an empty one is consistent. */
  lemma {:induction false} SaveAllConsistent(storage: Table, calls: seq<SaveCall>)
    requires WellFormed(calls)
    requires Consistent(storage)
    ensures Consistent(SaveAll(storage, calls))
    decreases |calls|
  {
    if calls != [] {
      var c := calls[0];
      UpsertConsistent(storage, c.document, c.freshId, c.now);
      SaveAllConsistent(Upsert(storage, c.document, c.freshId, c.now), calls[1..]);
    }
  }

  /** Distinct keys of a consistent table hold distinct documents, so the
      entries under a set of keys are as many as the keys. */
  lemma {:induction false} EntriesDistinct(storage: Table, keys: set<string>)
    requires Consistent(storage)
    requires keys <= storage.Keys
    ensures |set k | k in keys :: storage[k]| == |keys|
    decreases |keys|
  {
    if keys != {} {
      var k :| k in keys;
      var rest := keys - {k};
      EntriesDistinct(storage, rest);
      var entries := set j | j in keys :: storage[j];
      var restEntries := set j | j in rest :: storage[j];
      assert entries == restEntries + {storage[k]};
      assert storage[k] !in restEntries;
    }
  }
}
