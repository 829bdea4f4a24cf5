/** The document manager: an in-memory table of documents keyed by id,
    updated in place by save and read by findById and search. */
module Manager {
  import opened Records
  import Store
  import Query

  /** The message of the IllegalArgumentException save throws for null. */
  const NullDocumentMessage := "Document cannot be null"

  class DocumentManager {
    var storage: Store.Table

    /** The table is only ever written by Save, which keeps it consistent. */
    ghost predicate Valid()
      reads this
    {
      Store.Consistent(storage)
    }

    constructor ()
      ensures Valid() && storage == map[]
    {
      storage := map[];
    }

    /** save. `freshId` is the random UUID drawn when the document has no id
        and `now` the clock reading; `argument` is the caller's document
        afterwards, whose id save fills in. A null document throws and leaves
        the table as it was. Otherwise the merged document is stored under
        the document's id, every other entry stays as it was, and the stored
        document is returned. */
    method Save(document: Option<Document>, freshId: string, now: Instant)
      returns (r: Result<Document, Exception>, argument: Option<Document>)
      requires Valid()
      requires freshId != []
      modifies this
      ensures Valid()
      ensures document.None? ==>
        r == Failure(IllegalArgument(NullDocumentMessage)) && argument == None && storage == old(storage)
      ensures document.Some? ==>
        argument == Some(Store.WithId(document.value, freshId)) &&
        r == Success(Store.Saved(old(storage), document.value, freshId, now)) &&
        storage == Store.Upsert(old(storage), document.value, freshId, now)
      ensures r.Success? ==> Store.Find(storage, r.value.id) == Some(r.value)
    {
      if document.None? {
        return Failure(IllegalArgument(NullDocumentMessage)), None;
      }
      var d := document.value;
      if d.id.None? || |d.id.value| == 0 {
        d := d.(id := Some(freshId));
      }
      argument := Some(d);
      var key := d.id.value;
      var merged;
      if key in storage {
        var existing := storage[key];
        merged := Document(existing.id, d.title, d.content, d.author, existing.created);
      } else {
        var created := if d.created.Some? then d.created else Some(now);
        merged := Document(d.id, d.title, d.content, d.author, created);
      }
      Store.UpsertConsistent(storage, document.value, freshId, now);
      Store.SaveThenFind(storage, document.value, freshId, now);
      storage := storage[key := merged];
      r := Success(storage[key]);
    }

    /** findById: empty for a null or empty id, otherwise the stored entry if
        there is one; what it finds carries the id asked for. */
    method FindById(id: Option<string>) returns (r: Option<Document>)
      requires Valid()
      ensures r == Store.Find(storage, id)
      ensures r.Some? ==> r.value.id == id
    {
      if id.None? || |id.value| == 0 {
        return None;
      }
      if id.value in storage {
        r := Some(storage[id.value]);
      } else {
        r := None;
      }
    }

    /** search over the current table; each result is findable by its id. */
    method Search(request: Option<SearchRequest>) returns (r: Result<set<Document>, Exception>)
      requires Valid()
      ensures r == Query.Search(storage, request)
      ensures r.Success? ==> forall d :: d in r.value ==> Store.Find(storage, d.id) == Some(d)
    {
      r := Query.Search(storage, request);
      if r.Success? {
        forall d | d in r.value ensures Store.Find(storage, d.id) == Some(d) {
          Query.ResultsAreFindable(storage, request, d);
        }
      }
    }
  }

  /** A client of the class: a document saved without id or creation time
      receives the generated id and the clock reading; saving it again under
      that id with another creation time keeps the first one; findById then
      returns the second version. */
  method SaveTwiceKeepsCreated(title: string, freshId: string, t0: Instant, t1: Instant)
    returns (first: Document, second: Document)
    requires freshId != []
    ensures first.id == Some(freshId) && first.created == Some(t0)
    ensures second.id == Some(freshId) && second.created == Some(t0) && second.title == Some(title + "!")
  {
    var m := new DocumentManager();
    var r1, _ := m.Save(Some(Document(None, Some(title), None, None, None)), freshId, t0);
    first := r1.value;
    var r2, _ := m.Save(Some(first.(title := Some(title + "!"), created := Some(t1))), "unused", t1);
    second := r2.value;
    var found := m.FindById(Some(freshId));
    assert found == Some(second);
  }
}
