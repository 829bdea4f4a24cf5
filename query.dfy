/** search: a full scan of the stored documents keeping those that pass all
    four filters. Each filter is given twice: as the source computes it
    (with anyMatch over the request's list) and as what it means, and the
    two are proved to agree. */
module Query {
  import opened Records
  import opened Builtins
  import Store

  // ---- What each criterion means ----

  /** A null title passes every prefix list; otherwise some prefix must start the title. */
  predicate TitleOk(title: Option<string>, prefixes: Option<seq<string>>) {
    title.None? || IsUnset(prefixes) ||
    exists p :: p in prefixes.value && StartsWith(title.value, p)
  }

  /** Some string of the list occurs in the content. */
  predicate ContentOk(content: Option<string>, contains: Option<seq<string>>) {
    IsUnset(contains) ||
    (content.Some? && exists c :: c in contains.value && Occurs(c, content.value))
  }

  /** The author is present, has an id, and that id is listed. */
  predicate AuthorOk(author: Option<Author>, authorIds: Option<seq<string>>) {
    IsUnset(authorIds) ||
    (author.Some? && author.value.id.Some? && author.value.id.value in authorIds.value)
  }

  /** The creation time is set and lies in the inclusive range [from, to]. */
  predicate DateOk(created: Option<Instant>, from: Option<Instant>, to: Option<Instant>) {
    created.Some? &&
    (from.None? || from.value <= created.value) &&
    (to.None? || created.value <= to.value)
  }

  /** The document passes all four criteria of the request. */
  predicate Selected(d: Document, req: SearchRequest) {
    TitleOk(d.title, req.titlePrefixes) &&
    ContentOk(d.content, req.containsContents) &&
    AuthorOk(d.author, req.authorIds) &&
    DateOk(d.created, req.createdFrom, req.createdTo)
  }

  /** Scanning the document throws: its title passes, so the content filter
      runs, and that filter dereferences a null content. */
  predicate Faults(d: Document, req: SearchRequest) {
    TitleOk(d.title, req.titlePrefixes) && !IsUnset(req.containsContents) && d.content.None?
  }

  // ---- The filters as the source computes them ----

  function MatchesTitlePrefixes(title: Option<string>, prefixes: Option<seq<string>>): (r: bool)
    ensures r <==> TitleOk(title, prefixes)
  {
    if title.None? || prefixes.None? || |prefixes.value| == 0 then true
    else AnyMatch(prefixes.value, p => StartsWith(title.value, p))
  }

  /** Throws on a null content once the list is non-empty. */
  function MatchesContainsContents(content: Option<string>, contains: Option<seq<string>>): (r: Result<bool, Exception>)
    ensures r.Failure? <==> !IsUnset(contains) && content.None?
    ensures r.Failure? ==> r.error == NullPointer
    ensures r.Success? ==> (r.value <==> ContentOk(content, contains))
  {
    if contains.None? || |contains.value| == 0 then Success(true)
    else if content.None? then Failure(NullPointer)
    else Success(AnyMatch(contains.value, c => Contains(content.value, c)))
  }

  function MatchesAuthorIds(author: Option<Author>, authorIds: Option<seq<string>>): (r: bool)
    ensures r <==> AuthorOk(author, authorIds)
  {
    if authorIds.None? || |authorIds.value| == 0 then true
    else author.Some? && author.value.id.Some? && author.value.id.value in authorIds.value
  }

  /** Instant.isBefore and Instant.isAfter, negated. */
  function MatchesCreatedDate(created: Option<Instant>, from: Option<Instant>, to: Option<Instant>): (r: bool)
    ensures r <==> DateOk(created, from, to)
  {
    if created.None? then false
    else
      var matchesFrom := from.None? || !(created.value < from.value);
      var matchesTo := to.None? || !(created.value > to.value);
      matchesFrom && matchesTo
  }

  /** The filter lambda: the four helpers joined by short-circuit `&&`, so a
      document whose title fails never reaches the content filter. */
  function Matches(d: Document, req: SearchRequest): (r: Result<bool, Exception>)
    ensures r.Failure? <==> Faults(d, req)
    ensures r.Failure? ==> r.error == NullPointer
    ensures r.Success? ==> (r.value <==> Selected(d, req))
  {
    if !MatchesTitlePrefixes(d.title, req.titlePrefixes) then Success(false)
    else
      match MatchesContainsContents(d.content, req.containsContents)
      case Failure(e) => Failure(e)
      case Success(c) =>
        Success(c && MatchesAuthorIds(d.author, req.authorIds) &&
                MatchesCreatedDate(d.created, req.createdFrom, req.createdTo))
  }

  /** search. A null request throws as soon as the filter runs on a first
      document, so only on a non-empty table; a document that faults makes
      the whole scan throw. Otherwise the result is the set of stored
      documents the filter keeps. */
  function Search(storage: Store.Table, request: Option<SearchRequest>): (r: Result<set<Document>, Exception>)
    ensures r.Failure? <==>
      (request.None? && storage != map[]) ||
      (request.Some? && exists k :: k in storage && Faults(storage[k], request.value))
    ensures r.Failure? ==> r.error == NullPointer
    ensures r.Success? ==>
      forall d :: d in r.value <==> d in storage.Values && request.Some? && Selected(d, request.value)
  {
    if request.None? then
      if storage == map[] then Success({}) else Failure(NullPointer)
    else
      var req := request.value;
      if exists k :: k in storage && Matches(storage[k], req).Failure? then Failure(NullPointer)
      else Success(set k | k in storage && Matches(storage[k], req) == Success(true) :: storage[k])
  }

  // ---- Properties of search ----

  /** With every criterion null, search returns every stored document whose
      creation time is set; documents without one are never returned. */
  lemma EmptyRequestKeepsDated(storage: Store.Table)
    ensures Search(storage, Some(EmptyRequest)) ==
      Success(set d | d in storage.Values && d.created.Some?)
  {
    assert forall k :: k in storage ==> !Faults(storage[k], EmptyRequest);
    var r := Search(storage, Some(EmptyRequest));
    assert forall d :: Selected(d, EmptyRequest) <==> d.created.Some?;
    assert r.value == set d | d in storage.Values && d.created.Some?;
  }

  /** On a table built by save, the empty request returns all of it. */
  lemma EmptyRequestReturnsAll(storage: Store.Table)
    requires Store.Consistent(storage)
    ensures Search(storage, Some(EmptyRequest)) == Success(storage.Values)
  {
    EmptyRequestKeepsDated(storage);
    forall d | d in storage.Values ensures d.created.Some? {
      var k :| k in storage && storage[k] == d;
    }
    assert (set d | d in storage.Values && d.created.Some?) == storage.Values;
  }

  /** Every document search returns is stored under its own id, so findById
      of its id yields exactly it. */
  lemma ResultsAreFindable(storage: Store.Table, request: Option<SearchRequest>, d: Document)
    requires Store.Consistent(storage)
    requires Search(storage, request).Success? && d in Search(storage, request).value
    ensures d.id.Some? && Store.Find(storage, d.id) == Some(d)
  {
    var k :| k in storage && storage[k] == d;
  }

  /** The result has exactly one document per matching key: no two keys
      share a stored document, so collecting into a list loses nothing. */
  lemma ResultCountsMatchingKeys(storage: Store.Table, req: SearchRequest)
    requires Store.Consistent(storage)
    requires Search(storage, Some(req)).Success?
    ensures |Search(storage, Some(req)).value| == |set k | k in storage && Selected(storage[k], req)|
  {
    var keys := set k | k in storage && Selected(storage[k], req);
    var r := Search(storage, Some(req)).value;
    assert r == set k | k in keys :: storage[k];
    Store.EntriesDistinct(storage, keys);
  }

  /** A request with one criterion of `req` and no other. */
  function TitleOnly(req: SearchRequest): SearchRequest { EmptyRequest.(titlePrefixes := req.titlePrefixes) }
  function ContentOnly(req: SearchRequest): SearchRequest { EmptyRequest.(containsContents := req.containsContents) }
  function AuthorOnly(req: SearchRequest): SearchRequest { EmptyRequest.(authorIds := req.authorIds) }
  function DateOnly(req: SearchRequest): SearchRequest {
    EmptyRequest.(createdFrom := req.createdFrom, createdTo := req.createdTo)
  }

  /** Combined criteria give the intersection of the single-criterion
      searches whenever nothing can throw: the request sets no content list,
      or no stored content is null (with a null content the content-only
      search can throw where the combined one does not). */
  lemma CombinedIsIntersection(storage: Store.Table, req: SearchRequest)
    requires IsUnset(req.containsContents) || forall k :: k in storage ==> storage[k].content.Some?
    ensures Search(storage, Some(req)).Success?
    ensures Search(storage, Some(TitleOnly(req))).Success?
    ensures Search(storage, Some(ContentOnly(req))).Success?
    ensures Search(storage, Some(AuthorOnly(req))).Success?
    ensures Search(storage, Some(DateOnly(req))).Success?
    ensures Search(storage, Some(req)).value ==
      Search(storage, Some(TitleOnly(req))).value * Search(storage, Some(ContentOnly(req))).value *
      Search(storage, Some(AuthorOnly(req))).value * Search(storage, Some(DateOnly(req))).value
  {
  }

  /** After save, the saved document is in a search result exactly when it
      meets the request. */
  lemma SavedIsFoundBySearch(storage: Store.Table, d: Document, freshId: string, now: Instant, req: SearchRequest)
    requires Store.Consistent(storage)
    requires freshId != []
    requires Search(Store.Upsert(storage, d, freshId, now), Some(req)).Success?
    ensures var s := Store.Saved(storage, d, freshId, now);
      s in Search(Store.Upsert(storage, d, freshId, now), Some(req)).value <==> Selected(s, req)
  {
    var key := Store.KeyOf(d, freshId);
    assert Store.Upsert(storage, d, freshId, now)[key] == Store.Saved(storage, d, freshId, now);
  }

  /** Author ids are alternatives: a list that is the concatenation of two
      non-empty lists returns the union of what each list returns. */
  lemma AuthorListsUnite(storage: Store.Table, a: seq<string>, b: seq<string>)
    requires a != [] && b != []
    ensures Search(storage, Some(EmptyRequest.(authorIds := Some(a + b)))).Success?
    ensures Search(storage, Some(EmptyRequest.(authorIds := Some(a)))).Success?
    ensures Search(storage, Some(EmptyRequest.(authorIds := Some(b)))).Success?
    ensures Search(storage, Some(EmptyRequest.(authorIds := Some(a + b)))).value ==
      Search(storage, Some(EmptyRequest.(authorIds := Some(a)))).value +
      Search(storage, Some(EmptyRequest.(authorIds := Some(b)))).value
  {
    forall x: string ensures x in a + b <==> x in a || x in b {
      if x in a + b {
        var i :| 0 <= i < |a + b| && (a + b)[i] == x;
        if i >= |a| { assert b[i - |a|] == x; }
      }
      if x in b {
        var j :| 0 <= j < |b| && b[j] == x;
        assert (a + b)[|a| + j] == x;
      }
    }
  }

  // ---- A worked table ----

  function Dated(id: string, title: Option<string>, author: Option<Author>): Document {
    Document(Some(id), title, Some(""), author, Some(0))
  }

  /** Documents "Alpha", "Beta" and "Gamma" by authors a1, a2 and a3, and
      one document with neither title nor author. */
  function SampleTable(): Store.Table {
    map[
      "1" := Dated("1", Some("Alpha"), Some(Author(Some("a1"), None))),
      "2" := Dated("2", Some("Beta"), Some(Author(Some("a2"), None))),
      "3" := Dated("3", Some("Gamma"), Some(Author(Some("a3"), None))),
      "4" := Dated("4", None, None)]
  }

  /** Prefixes are alternatives: "Al" or "Ga" keeps Alpha and Gamma, drops
      Beta, and keeps the untitled document, which no prefix list excludes. */
  lemma TitlePrefixesExample()
    ensures Search(SampleTable(), Some(EmptyRequest.(titlePrefixes := Some(["Al", "Ga"])))) ==
      Success({SampleTable()["1"], SampleTable()["3"], SampleTable()["4"]})
  {
    var t := SampleTable();
    var req := EmptyRequest.(titlePrefixes := Some(["Al", "Ga"]));
    assert StartsWith("Alpha", "Al") by { assert "Alpha"[..2] == "Al"; }
    assert StartsWith("Gamma", "Ga") by { assert "Gamma"[..2] == "Ga"; }
    assert !StartsWith("Beta", "Al") by { assert "Beta"[0] != "Al"[0]; }
    assert !StartsWith("Beta", "Ga") by { assert "Beta"[0] != "Ga"[0]; }
    assert Selected(t["1"], req) && !Selected(t["2"], req) && Selected(t["3"], req) && Selected(t["4"], req);
    assert t.Values == {t["1"], t["2"], t["3"], t["4"]};
    var r := Search(t, Some(req));
    assert r.Success?;
    assert r.value == {t["1"], t["3"], t["4"]};
  }

  /** An author filter keeps only the listed author's document; a document
      without an author never passes a non-empty list. */
  lemma AuthorIdsExample()
    ensures Search(SampleTable(), Some(EmptyRequest.(authorIds := Some(["a2"])))) ==
      Success({SampleTable()["2"]})
  {
    var t := SampleTable();
    var req := EmptyRequest.(authorIds := Some(["a2"]));
    assert "a1" != "a2" && "a3" != "a2" by { assert "a1"[1] != "a2"[1] && "a3"[1] != "a2"[1]; }
    assert !Selected(t["1"], req) && Selected(t["2"], req) && !Selected(t["3"], req) && !Selected(t["4"], req);
    assert t.Values == {t["1"], t["2"], t["3"], t["4"]};
    var r := Search(t, Some(req));
    assert r.Success?;
    assert r.value == {t["2"]};
  }
}
