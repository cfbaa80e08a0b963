/** StartSearch (LuceneSearch.cs:126-203): the guard on the raw term, the
    result-count floor, the query plan, the call into the searcher and the
    hydration of the hits, plus the hit and result records
    (LuceneSearch.cs:236-239). */
module Search {
  import opened Wrappers
  import opened NetStrings
  import opened Normalizer
  import opened Documents
  import opened IndexStore
  import opened QueryPlan
  import opened Corpus

  /** A float score, carried as its bit pattern and never inspected. */
  datatype Score = Score(bits: bv32)

  /** Lucene's ScoreDoc: the number of a document in the reader, and its score. */
  datatype Hit = Hit(doc: nat, score: Score)

  /** SearchResult: ID and title read back from the index, the score, and
      the contents copied from a source record (null when none matched). */
  datatype SearchResult = SearchResult(id: int32, title: Option<string>, contents: Option<string>, score: Score)

  /** IndexSearcher.Search(query, n).ScoreDocs over the documents of the
      reader: matching, scoring and ranking belong to Lucene and stay opaque. */
  type Searcher = (seq<IndexedDocument>, seq<Clause>, int) -> seq<Hit>

  predicate HitsInRange(hits: seq<Hit>, docCount: nat) {
    forall k :: 0 <= k < |hits| ==> hits[k].doc < docCount
  }

  /** What Lucene guarantees of a search: at most n hits, each naming a
      document of the reader. */
  ghost predicate WellBehaved(searcher: Searcher) {
    forall docs, query, n :: n >= 0 ==>
      |searcher(docs, query, n)| <= n && HitsInRange(searcher(docs, query, n), |docs|)
  }

  /** The guard of StartSearch, on the raw term: null, empty, or shorter
      than three UTF-16 code units. */
  predicate TooShort(term: Option<string>) {
    IsNullOrEmpty(term) || Utf16Length(term.value) < 3
  }

  /** The parts StartSearch plans its query from: the cleaned term split
      on single spaces (LuceneSearch.cs:139, 149). */
  function TermParts(term: Option<string>, u: UnicodeTables): seq<string>
    requires !TooShort(term)
  {
    Split(CleanSearchTerm(term, u).value, ' ')
  }

  /** How StartSearch can throw: BooleanQuery.Add past MaxClauseCount
      clauses, or Convert.ToInt32 on a stored ID. */
  datatype SearchError = TooManyClauses | BadId(error: ConvertError)

  function WithSearchError(h: Result<seq<SearchResult>, ConvertError>): Result<seq<SearchResult>, SearchError> {
    match h
    case Success(results) => Success(results)
    case Failure(e) => Failure(BadId(e))
  }

  /** The number of hits asked of the searcher: TotalResults, raised to 3. */
  function AtLeastThree(n: int32): (r: int32)
    ensures r >= 3 && r >= n
    ensures r == n || r == 3
  {
    if n < 3 then 3 else n
  }

  /** Where(x => x.ID == id).FirstOrDefault(): the first item with that ID,
      or null when there is none. */
  function FirstWithId(items: seq<SearchIndexItem>, id: int32): (r: Option<SearchIndexItem>)
    ensures r.None? <==> forall k :: 0 <= k < |items| ==> items[k].id != id
    ensures r.Some? ==> (r.value.id == id &&
      exists k :: 0 <= k < |items| && items[k] == r.value && forall j :: 0 <= j < k ==> items[j].id != id)
  {
    if items == [] then None
    else if items[0].id == id then Some(items[0])
    else
      var r := FirstWithId(items[1..], id);
      assert r.Some? ==> exists k :: 1 <= k < |items| && items[k] == r.value && forall j :: 0 <= j < k ==> items[j].id != id by {
        if r.Some? {
          var k :| 0 <= k < |items[1..]| && items[1..][k] == r.value && forall j :: 0 <= j < k ==> items[1..][j].id != id;
          assert items[k + 1] == r.value;
          forall j | 0 <= j < k + 1 ensures items[j].id != id {
            if j > 0 { assert items[j] == items[1..][j - 1]; }
          }
        }
      }
      r
  }

  /** With distinct IDs, the lookup of an item's ID finds that item. */
  lemma FirstWithIdDistinct(items: seq<SearchIndexItem>, k: nat)
    requires DistinctIds(items) && k < |items|
    ensures FirstWithId(items, items[k].id) == Some(items[k])
  {
    var r := FirstWithId(items, items[k].id);
    var m :| 0 <= m < |items| && items[m] == r.value && forall j :: 0 <= j < m ==> items[j].id != items[k].id;
  }

  /** The body of the hydration loop for one hit: read the stored document,
      convert its ID (which may throw), copy title and score, look the ID up
      in the source records for the contents. */
  function HitToResult(docs: seq<IndexedDocument>, hit: Hit, items: seq<SearchIndexItem>): Result<SearchResult, ConvertError>
    requires hit.doc < |docs|
  {
    var stored := docs[hit.doc];
    match ConvertToInt32(GetStored(stored, Id))
    case Failure(e) => Failure(e)
    case Success(id) =>
      var found := FirstWithId(items, id);
      Success(SearchResult(id, GetStored(stored, Title), if found.Some? then found.value.contents else None, hit.score))
  }

  /** The hydration loop over all hits; the first failing conversion ends it. */
  function HydrateAll(docs: seq<IndexedDocument>, hits: seq<Hit>, items: seq<SearchIndexItem>): Result<seq<SearchResult>, ConvertError>
    requires HitsInRange(hits, |docs|)
  {
    if hits == [] then Success([])
    else
      match HydrateAll(docs, hits[..|hits| - 1], items)
      case Failure(e) => Failure(e)
      case Success(prefix) =>
        match HitToResult(docs, hits[|hits| - 1], items)
        case Failure(e) => Failure(e)
        case Success(x) => Success(prefix + [x])
  }

  /** Hydration that succeeds yields one result per hit, in hit order. */
  lemma {:induction false} HydrateSuccessPointwise(docs: seq<IndexedDocument>, hits: seq<Hit>, items: seq<SearchIndexItem>)
    requires HitsInRange(hits, |docs|)
    requires HydrateAll(docs, hits, items).Success?
    ensures |HydrateAll(docs, hits, items).value| == |hits|
    ensures forall k :: 0 <= k < |hits| ==> HitToResult(docs, hits[k], items) == Success(HydrateAll(docs, hits, items).value[k])
  {
    if hits != [] {
      var init := hits[..|hits| - 1];
      var last := hits[|hits| - 1];
      var prefix := HydrateAll(docs, init, items).value;
      var x := HitToResult(docs, last, items).value;
      var all := HydrateAll(docs, hits, items).value;
      assert all == prefix + [x];
      HydrateSuccessPointwise(docs, init, items);
      forall k | 0 <= k < |hits|
        ensures HitToResult(docs, hits[k], items) == Success(all[k])
      {
        if k < |init| {
          assert hits[k] == init[k] && all[k] == prefix[k];
        }
      }
    }
  }

  /** Hydration succeeds when every hit converts. */
  lemma {:induction false} HydrateSucceeds(docs: seq<IndexedDocument>, hits: seq<Hit>, items: seq<SearchIndexItem>)
    requires HitsInRange(hits, |docs|)
    requires forall k :: 0 <= k < |hits| ==> HitToResult(docs, hits[k], items).Success?
    ensures HydrateAll(docs, hits, items).Success?
  {
    if hits != [] {
      var init := hits[..|hits| - 1];
      assert forall k :: 0 <= k < |init| ==> init[k] == hits[k];
      HydrateSucceeds(docs, init, items);
    }
  }

  /** Hydration that fails reports the error of the first hit that fails. */
  lemma {:induction false} HydrateFailsAtFirst(docs: seq<IndexedDocument>, hits: seq<Hit>, items: seq<SearchIndexItem>)
    requires HitsInRange(hits, |docs|)
    requires HydrateAll(docs, hits, items).Failure?
    ensures exists k :: 0 <= k < |hits| && HitToResult(docs, hits[k], items) == Failure(HydrateAll(docs, hits, items).error) &&
              (forall j :: 0 <= j < k ==> HitToResult(docs, hits[j], items).Success?)
  {
    var init := hits[..|hits| - 1];
    var last := |hits| - 1;
    assert forall k :: 0 <= k < |init| ==> init[k] == hits[k];
    if HydrateAll(docs, init, items).Failure? {
      HydrateFailsAtFirst(docs, init, items);
      var k :| 0 <= k < |init| && HitToResult(docs, init[k], items) == Failure(HydrateAll(docs, init, items).error) &&
        forall j :: 0 <= j < k ==> HitToResult(docs, init[j], items).Success?;
      assert HitToResult(docs, hits[k], items) == Failure(HydrateAll(docs, hits, items).error);
    } else {
      HydrateSuccessPointwise(docs, init, items);
      assert HitToResult(docs, hits[last], items) == Failure(HydrateAll(docs, hits, items).error);
    }
  }

  /** Once a prefix of the hits fails, the whole hydration fails the same way. */
  lemma {:induction false} HydratePrefixFails(docs: seq<IndexedDocument>, hits: seq<Hit>, i: nat, items: seq<SearchIndexItem>)
    requires HitsInRange(hits, |docs|) && i <= |hits|
    requires HydrateAll(docs, hits[..i], items).Failure?
    ensures HydrateAll(docs, hits, items) == HydrateAll(docs, hits[..i], items)
    decreases |hits|
  {
    if i < |hits| {
      var init := hits[..|hits| - 1];
      assert init[..i] == hits[..i];
      HydratePrefixFails(docs, init, i, items);
    } else {
      assert hits[..i] == hits;
    }
  }

  /** A hit on a document the rebuild made from source[j] gives back that
      item's ID (the stored text converts without error), its title (null
      when it was null or empty, since no title field was indexed) and the
      hit's score. Its contents come from the lookup records: unset when no
      record has the ID, and the item's own contents when the records have
      distinct IDs and include the item. */
  lemma HitOnRebuiltIndex(source: seq<SearchIndexItem>, j: nat, score: Score, items: seq<SearchIndexItem>)
    requires j < |source|
    ensures HitToResult(Indexed(source), Hit(j, score), items).Success?
    ensures HitToResult(Indexed(source), Hit(j, score), items).value.id == source[j].id
    ensures HitToResult(Indexed(source), Hit(j, score), items).value.title == (if IsNullOrEmpty(source[j].title) then None else source[j].title)
    ensures HitToResult(Indexed(source), Hit(j, score), items).value.score == score
    ensures (forall k :: 0 <= k < |items| ==> items[k].id != source[j].id) ==>
      HitToResult(Indexed(source), Hit(j, score), items).value.contents == None
    ensures DistinctIds(items) && source[j] in items ==>
      HitToResult(Indexed(source), Hit(j, score), items).value.contents == source[j].contents
  {
    IndexedDocumentsOfSource(source, j);
    Int32RoundTrip(source[j].id);
    if DistinctIds(items) && source[j] in items {
      var k :| 0 <= k < |items| && items[k] == source[j];
      FirstWithIdDistinct(items, k);
    }
  }

  /** The result a hit on document k of an index rebuilt from source should
      give when the records looked up are the source itself. */
  function ResultOf(source: seq<SearchIndexItem>, hit: Hit): SearchResult
    requires hit.doc < |source|
  {
    var item := source[hit.doc];
    SearchResult(item.id, if IsNullOrEmpty(item.title) then None else item.title, item.contents, hit.score)
  }

  /** Rebuild then search is consistent: when the records have distinct IDs,
      hydrating any hits on an index rebuilt from them succeeds and gives,
      hit by hit, the record each hit names. */
  lemma RebuildThenHydrate(source: seq<SearchIndexItem>, hits: seq<Hit>)
    requires DistinctIds(source) && HitsInRange(hits, |source|)
    ensures |Indexed(source)| == |source|
    ensures HydrateAll(Indexed(source), hits, source) ==
      Success(seq(|hits|, k requires 0 <= k < |hits| => ResultOf(source, hits[k])))
  {
    var docs := Indexed(source);
    forall k | 0 <= k < |hits|
      ensures HitToResult(docs, hits[k], source) == Success(ResultOf(source, hits[k]))
    {
      var j := hits[k].doc;
      HitOnRebuiltIndex(source, j, hits[k].score, source);
      assert source[j] in source;
    }
    HydrateSucceeds(docs, hits, source);
    HydrateSuccessPointwise(docs, hits, source);
    var expected := seq(|hits|, k requires 0 <= k < |hits| => ResultOf(source, hits[k]));
    assert HydrateAll(docs, hits, source).value == expected;
  }

  /** The sample case: searching an index rebuilt from the sample records
      hands back, for every hit, exactly the sample record it names (all of
      them have a title), with the hit's score. */
  lemma DemoHydration(hits: seq<Hit>)
    requires HitsInRange(hits, 4)
    ensures HydrateAll(Indexed(CreateDummyData()), hits, CreateDummyData()).Success?
    ensures |HydrateAll(Indexed(CreateDummyData()), hits, CreateDummyData()).value| == |hits|
    ensures forall k :: 0 <= k < |hits| ==>
      HydrateAll(Indexed(CreateDummyData()), hits, CreateDummyData()).value[k] ==
        SearchResult(CreateDummyData()[hits[k].doc].id, CreateDummyData()[hits[k].doc].title,
                     CreateDummyData()[hits[k].doc].contents, hits[k].score)
  {
    var d := CreateDummyData();
    DummyDataShape();
    RebuildThenHydrate(d, hits);
  }

  /** The guard looks at the raw term only: "***" is long enough, cleans
      to the empty string, and the empty string still splits into one
      (empty) part, so the searcher is asked the nine clauses of that part. */
  lemma StarsOnlyTermIsSearched(u: UnicodeTables)
    requires u.decompose([]) == []
    ensures !TooShort(Some("***"))
    ensures CleanSearchTerm(Some("***"), u) == Some([])
    ensures Plan(Split(CleanSearchTerm(Some("***"), u).value, ' ')) == PartClauses([])
  {
    CleanStarsOnly(u);
    SplitNoSeparator([], ' ');
    assert Plan([[]]) == Plan([]) + PartClauses([]);
  }

  /** The hydration loop of StartSearch (LuceneSearch.cs:176-198): for each
      hit, read the stored document, convert its ID, copy title and score,
      and take the contents of the first lookup record with that ID. */
  method HydrateHits(docs: seq<IndexedDocument>, hits: seq<Hit>, items: seq<SearchIndexItem>)
    returns (r: Result<seq<SearchResult>, ConvertError>)
    requires HitsInRange(hits, |docs|)
    ensures r == HydrateAll(docs, hits, items)
  {
    var results: seq<SearchResult> := [];

    for i := 0 to |hits|
      invariant HydrateAll(docs, hits[..i], items) == Success(results)
    {
      var hit := hits[i];
      assert hits[..i + 1][..i] == hits[..i];
      var document := docs[hit.doc];

      var id := ConvertToInt32(GetStored(document, Id));
      if id.Failure? {
        HydratePrefixFails(docs, hits, i + 1, items);
        return Failure(id.error);
      }
      var searchhit := SearchResult(id.value, GetStored(document, Title), None, hit.score);

      var contents := FirstWithId(items, searchhit.id);
      if contents.Some? {
        searchhit := searchhit.(contents := contents.value.contents);
      }

      results := results + [searchhit];
    }
    assert hits[..|hits|] == hits;

    return Success(results);
  }

  /** StartSearch. A null, empty or too short raw term returns no results
      without the index being read. A term of more parts than the query can
      hold (nine clauses a part, MaxClauseCount in all) throws while the query
      is built. Otherwise the searcher is asked, over the documents of the
      index, for the query planned from the parts of the cleaned term and for
      max(TotalResults, 3) hits, and the hits are hydrated from the sample
      records. A stored ID that does not convert makes the call fail as
      Convert.ToInt32 throws. */
  method StartSearch(searchTerm: Option<string>, totalResults: int32, index: IndexDirectory,
                     searcher: Searcher, u: UnicodeTables)
    returns (r: Result<seq<SearchResult>, SearchError>)
    requires WellBehaved(searcher)
    ensures TooShort(searchTerm) ==> r == Success([])
    ensures !TooShort(searchTerm) && 9 * |TermParts(searchTerm, u)| > MaxClauseCount ==>
      r == Failure(TooManyClauses)
    ensures !TooShort(searchTerm) && 9 * |TermParts(searchTerm, u)| <= MaxClauseCount ==>
      r == WithSearchError(HydrateAll(index.docs,
                                      searcher(index.docs, Plan(TermParts(searchTerm, u)), AtLeastThree(totalResults) as int),
                                      CreateDummyData()))
    ensures r.Success? ==> |r.value| <= AtLeastThree(totalResults) as int
  {
    if searchTerm.None? || searchTerm.value == [] || Utf16Length(searchTerm.value) < 3 {
      return Success([]);
    }

    var total := totalResults;
    if total < 3 {
      total := 3;
    }

    var term := CleanSearchTerm(searchTerm, u).value;

    // the reader sees the documents of the index as they are now
    var docs := index.docs;
    var parts := Split(term, ' ');
    var built := BuildQuery(parts);
    if built.None? {
      return Failure(TooManyClauses);
    }
    var query := built.value;

    var hits := searcher(docs, query, total as int);

    var hydrated := HydrateHits(docs, hits, CreateDummyData());
    if hydrated.Success? {
      HydrateSuccessPointwise(docs, hits, CreateDummyData());
    }
    r := WithSearchError(hydrated);
  }
}
