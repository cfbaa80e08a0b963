/** The boolean query StartSearch builds from the parts of the cleaned term
    (LuceneSearch.cs:146-170), as data: for each part, in order, a term, a
    fuzzy and a wildcard clause on each of the fields ID, title and
    contents, all of them SHOULD. */
module QueryPlan {
  import opened Wrappers
  import opened Documents

  datatype QueryKind = TermQuery | FuzzyQuery | WildcardQuery

  /** Lucene's Occur. */
  datatype Occur = Must | Should | MustNot

  /** One clause added to the BooleanQuery. */
  datatype Clause = Clause(kind: QueryKind, field: FieldName, text: string, occur: Occur)

  /** The pattern of the wildcard clauses: the part anywhere in a term. */
  function WildcardText(part: string): (w: string)
    ensures |w| == |part| + 2 && w[0] == '*' && w[|w| - 1] == '*' && w[1..|w| - 1] == part
  {
    "*" + part + "*"
  }

  /** The nine clauses for one part, in the order the code adds them. */
  function PartClauses(part: string): seq<Clause> {
    [ Clause(TermQuery, Id, part, Should),
      Clause(TermQuery, Title, part, Should),
      Clause(TermQuery, Contents, part, Should),
      Clause(FuzzyQuery, Id, part, Should),
      Clause(FuzzyQuery, Title, part, Should),
      Clause(FuzzyQuery, Contents, part, Should),
      Clause(WildcardQuery, Id, WildcardText(part), Should),
      Clause(WildcardQuery, Title, WildcardText(part), Should),
      Clause(WildcardQuery, Contents, WildcardText(part), Should) ]
  }

  /** The query for a sequence of parts. */
  function Plan(parts: seq<string>): (query: seq<Clause>)
    ensures |query| == 9 * |parts|
  {
    if parts == [] then [] else Plan(parts[..|parts| - 1]) + PartClauses(parts[|parts| - 1])
  }

  /** BooleanQuery.MaxClauseCount, at Lucene's default. */
  const MaxClauseCount: nat := 1024

  /** BooleanQuery.Add: a query that already holds MaxClauseCount clauses
      throws TooManyClausesException (None) instead of growing. */
  method Add(query: seq<Clause>, c: Clause) returns (r: Option<seq<Clause>>)
    ensures |query| < MaxClauseCount ==> r == Some(query + [c])
    ensures |query| >= MaxClauseCount ==> r == None
  {
    if |query| >= MaxClauseCount {
      return None;
    }
    return Some(query + [c]);
  }

  /** One pass of the foreach over the parts in StartSearch
      (LuceneSearch.cs:155-169): nine Add calls, in the order of the code.
      The part's clauses are appended when they fit; otherwise one of the
      Add calls throws. */
  method AddPart(query: seq<Clause>, item: string) returns (r: Option<seq<Clause>>)
    ensures |query| + 9 <= MaxClauseCount ==> r == Some(query + PartClauses(item))
    ensures |query| + 9 > MaxClauseCount ==> r == None
  {
    var q := query;
    var wildcard := WildcardText(item);

    q :- Add(q, Clause(TermQuery, Id, item, Should));
    q :- Add(q, Clause(TermQuery, Title, item, Should));
    q :- Add(q, Clause(TermQuery, Contents, item, Should));

    q :- Add(q, Clause(FuzzyQuery, Id, item, Should));
    q :- Add(q, Clause(FuzzyQuery, Title, item, Should));
    q :- Add(q, Clause(FuzzyQuery, Contents, item, Should));

    q :- Add(q, Clause(WildcardQuery, Id, wildcard, Should));
    q :- Add(q, Clause(WildcardQuery, Title, wildcard, Should));
    q :- Add(q, Clause(WildcardQuery, Contents, wildcard, Should));

    assert q == query + PartClauses(item);
    return Some(q);
  }

  /** The foreach over the parts in StartSearch (LuceneSearch.cs:152-170).
      The query is the plan of the parts when it fits in MaxClauseCount
      clauses; otherwise an Add throws. */
  method BuildQuery(parts: seq<string>) returns (r: Option<seq<Clause>>)
    ensures 9 * |parts| <= MaxClauseCount ==> r == Some(Plan(parts))
    ensures 9 * |parts| > MaxClauseCount ==> r == None
  {
    var query := [];
    for i := 0 to |parts|
      invariant query == Plan(parts[..i])
      invariant 9 * i <= MaxClauseCount
    {
      query :- AddPart(query, parts[i]);
      assert parts[..i + 1][..i] == parts[..i];
    }
    assert parts[..|parts|] == parts;
    return Some(query);
  }

  /** The strategy of clause j of a part: three term clauses, three fuzzy
      clauses, three wildcard clauses. */
  function KindAt(j: nat): QueryKind
    requires j < 9
  {
    if j < 3 then TermQuery else if j < 6 then FuzzyQuery else WildcardQuery
  }

  /** The field of clause j of a part: ID, title, contents, in turn. */
  function FieldAt(j: nat): FieldName
    requires j < 9
  {
    if j % 3 == 0 then Id else if j % 3 == 1 then Title else Contents
  }

  /** Clause j of the given part, described independently of the order of
      the code's statements. */
  function Expected(part: string, j: nat): Clause
    requires j < 9
  {
    Clause(KindAt(j), FieldAt(j), if KindAt(j) == WildcardQuery then WildcardText(part) else part, Should)
  }

  /** Clause j of part i sits at position 9 * i + j. */
  function ClauseAt(query: seq<Clause>, i: nat, j: nat): Clause
    requires j < 9 && 9 * i + j < |query|
  {
    query[9 * i + j]
  }

  lemma PartClausesShape(part: string)
    ensures |PartClauses(part)| == 9
    ensures forall j :: 0 <= j < 9 ==> PartClauses(part)[j] == Expected(part, j)
  {
  }

  /** The query has nine clauses per part and clause j of part i is the
      expected one. */
  lemma {:induction false} PlanShape(parts: seq<string>)
    ensures |Plan(parts)| == 9 * |parts|
    ensures forall i, j :: 0 <= i < |parts| && 0 <= j < 9 ==> ClauseAt(Plan(parts), i, j) == Expected(parts[i], j)
  {
    if parts != [] {
      var init := parts[..|parts| - 1];
      PlanShape(init);
      PartClausesShape(parts[|parts| - 1]);
      forall i, j | 0 <= i < |parts| && 0 <= j < 9
        ensures ClauseAt(Plan(parts), i, j) == Expected(parts[i], j)
      {
        if i < |init| {
          assert parts[i] == init[i];
          assert ClauseAt(Plan(parts), i, j) == ClauseAt(Plan(init), i, j);
        } else {
          assert Plan(parts)[9 * i + j] == PartClauses(parts[i])[j];
        }
      }
    }
  }

  /** Every clause is SHOULD: a document matching any single clause matches. */
  lemma {:induction false} PlanAllShould(parts: seq<string>)
    ensures forall c :: c in Plan(parts) ==> c.occur == Should
  {
    if parts != [] {
      PlanAllShould(parts[..|parts| - 1]);
    }
  }

  /** The position among a part's nine clauses of the clause with the given
      strategy and field. */
  function SlotOf(kind: QueryKind, field: FieldName): (j: nat)
    ensures j < 9 && KindAt(j) == kind && FieldAt(j) == field
  {
    (match kind case TermQuery => 0 case FuzzyQuery => 3 case WildcardQuery => 6)
    + (match field case Id => 0 case Title => 1 case Contents => 2)
  }

  /** Every part is tried with every strategy against every field. */
  lemma PlanCoversEveryPart(parts: seq<string>, i: nat, kind: QueryKind, field: FieldName)
    requires i < |parts|
    ensures Clause(kind, field, if kind == WildcardQuery then WildcardText(parts[i]) else parts[i], Should) in Plan(parts)
  {
    PlanShape(parts);
    var j := SlotOf(kind, field);
    assert ClauseAt(Plan(parts), i, j) == Expected(parts[i], j);
    assert Plan(parts)[9 * i + j] == Expected(parts[i], j);
  }
}
