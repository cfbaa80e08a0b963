# Lucene.Net search demo: cleaning, indexing, query plan and hydration

This project models the logic of `LuceneSearch.cs`, the one class of the
Lucene.Net 4.8 demo with real logic, and proves properties of the model. The
class does four things:

- **Cleans a search term** (`CleanSearchTerm`). It trims the term and makes one
  pass replacing double spaces by single ones. It then deletes every `*`,
  decomposes the text to Unicode Form D, drops the non-spacing marks and
  lower-cases the result.
- **Rebuilds the index** (`CreateSearchIndex`). It deletes every document, then
  adds one document per source record, in order. Each document has:
  - an ID field: stored, boost 0.5;
  - a title field, only when the title is non-empty: stored, boost 2;
  - a contents field, only when the contents are non-empty: not stored, boost 1.
- **Plans and runs a query** (`StartSearch`):
  - a null, empty or shorter-than-3 raw term gives no results;
  - the result count is raised to at least 3;
  - the cleaned term is split on `' '`;
  - each part contributes nine SHOULD clauses: term, fuzzy and wildcard queries on ID, title and contents, the wildcard text being `*part*`;
  - `BooleanQuery.Add` throws `TooManyClausesException` once the query holds Lucene's default `MaxClauseCount` of 1024 clauses, so a cleaned term of 114 or more parts makes the search throw.
- **Hydrates the hits** (`StartSearch`). Each hit becomes a result with three
  parts:
  - the stored ID, converted to `int`;
  - the stored title and the hit's score;
  - the contents of the first sample record with that ID, or none if no
    record has it.

  The sample records come from `CreateDummyData`.

Modules:

| module | file | models |
|---|---|---|
| `Wrappers` | wrappers.dfy | `Option` (C# null, or a call that throws with nothing to report) and `Result` (a call that may throw) |
| `NetStrings` | netstrings.dfy | the .NET string and number behaviour the code relies on |
| `Normalizer` | normalizer.dfy | `CleanSearchTerm` |
| `Documents` | documents.dfy | `SearchIndexItem`, Lucene fields and documents, `Document.Add` |
| `IndexStore` | indexstore.dfy | the index directory (a class) and `CreateSearchIndex` |
| `QueryPlan` | queryplan.dfy | the BooleanQuery as a list of clauses, and the loop that builds it |
| `Corpus` | corpus.dfy | `CreateDummyData` |
| `Search` | search.dfy | `SearchResult`, the hydration loop, `StartSearch` |

The `NetStrings` module writes out the .NET behaviour the code depends on:
- `String.Length` counts UTF-16 code units.
- `Char.IsWhiteSpace` and `Trim` use the full .NET white-space list.
- Ordinal `Replace` makes one left-to-right pass and does not rescan what it inserted.
- `Split(char)` keeps empty parts.
- `Int32.ToString` and `Convert.ToInt32(string)`: null converts to 0; white space (U+0009 to U+000D and the space) around the sign and digits is skipped; malformed text throws `FormatException`, and out-of-range text throws `OverflowException`.

More modelling choices:
- `int` is a 32-bit newtype.
- A `float` score is an opaque 32-bit pattern that is never inspected.
- A boost is an exact `real` constant.

Lucene's matching, scoring and ranking are a function parameter, the
`Searcher`. It maps the index's documents, the clauses and the requested count
to a list of (document number, score) hits. The one thing assumed of it
(`WellBehaved`) is that it returns at most the requested number of hits, each
naming a document of the index.

Form D, the non-spacing-mark test and `ToLower` are abstract: they are the
fields of `UnicodeTables`, which is passed in. The properties that need
something of them (no `*`, no mark, lower case) say what they need, as
predicates on those tables.

Properties the code does not have:
- **Cleaning is not idempotent.** `Replace("  ", " ")` is a single pass, so
  four spaces become two. Cleaning the result again changes it further
  (`Normalizer.CleanIsNotIdempotent`, for any Unicode tables that leave
  ASCII letters and spaces alone).
- **The guard is on the raw term.** The length check comes before cleaning.
  So `"***"` passes the guard, cleans to the empty string, and the searcher is
  still asked for the nine clauses of one empty part
  (`Search.StarsOnlyTermIsSearched`).
- **Deleting `*` can leave a space at an end.** It happens after trimming, so
  `"a *"` prepares to `"a "` (`Normalizer.PrepareCanEndInSpace`).

Shape of the imperative code:
- `StartSearch` calls the two loops of its body as methods of their own:
  - `QueryPlan.BuildQuery` is the `foreach` over the parts that adds the clauses, through `QueryPlan.Add`, which models `BooleanQuery.Add` and its clause limit;
  - `Search.HydrateHits` is the `foreach` over the hits that adds the results.
- Each method is proved equal to a specification function (`Plan`,
  `HydrateAll`), and the lemmas about those functions state the properties.
- The index is a class whose `docs` field the rebuild rewrites.
- Each document is a class filled by `Add`, one field after another, under the
  same conditions as the code.

## Model

| member | source | states |
|---|---|---|
| NetStrings.IsNullOrEmpty | LuceneSearch.cs:131 | `String.IsNullOrEmpty`: the term is null or has no characters (definition; used by the guard and by `CleanSearchTerm` at line 213) |
| NetStrings.Utf16Length | LuceneSearch.cs:131 | `SearchTerm.Length` counts UTF-16 code units: between the number of characters and twice that, and exactly that number when every character is in the Basic Multilingual Plane |
| NetStrings.IsWhiteSpace | LuceneSearch.cs:217 | `Char.IsWhiteSpace`: the .NET white-space characters (tab to carriage return, space, U+0085, U+00A0, U+1680, U+2000 to U+200A, U+2028, U+2029, U+202F, U+205F, U+3000); definition used by the three trims |
| NetStrings.TrimStart | LuceneSearch.cs:217 | the result is the suffix of the input left after dropping the leading white space, and it does not start with white space |
| NetStrings.TrimEnd | LuceneSearch.cs:217 | the result is the prefix of the input left after dropping the trailing white space, and it does not end with white space |
| NetStrings.Trim | LuceneSearch.cs:217 | the result is a contiguous slice of the input, with white space only before and after it, and it neither starts nor ends with white space |
| NetStrings.Replace | LuceneSearch.cs:217 | ordinal `String.Replace`: one left-to-right pass that replaces each occurrence of the old value and resumes after it, never rescanning what it inserted (definition; its properties are the lemmas below) |
| NetStrings.ReplaceAbsent | LuceneSearch.cs:217 | a text that does not contain the old value is left unchanged by `Replace` |
| NetStrings.Without | LuceneSearch.cs:217 | the deleted character occurs nowhere in the result |
| NetStrings.WithoutCounts | LuceneSearch.cs:217 | deleting a character keeps every other character exactly as often as it occurred (multiset) |
| NetStrings.ReplaceCharByEmpty | LuceneSearch.cs:217 | `Replace("*", "")` deletes every `*` and nothing else |
| NetStrings.ReplaceDoubleSpaceRemovesOnlySpaces | LuceneSearch.cs:217 | `Replace("  ", " ")` never lengthens the text and, spaces aside, leaves it exactly as it was |
| NetStrings.ReplaceDoubleSpaceOnRun | LuceneSearch.cs:217 | the single pass turns a run of n spaces into ceil(n/2) spaces, not one |
| NetStrings.Split | LuceneSearch.cs:149 | `Split(' ')` yields one part more than there are separators, and no part contains the separator |
| NetStrings.JoinSplit | LuceneSearch.cs:149 | joining the parts of a split with the separator gives back the original text, so splitting loses nothing |
| NetStrings.SplitJoin | LuceneSearch.cs:149 | splitting a join of separator-free parts gives back exactly those parts |
| NetStrings.NatToDecimal | LuceneSearch.cs:81 | the decimal rendering of a number is a non-empty string of digits with no leading zero |
| NetStrings.DecimalRoundTrip | LuceneSearch.cs:81 | reading back the decimal rendering of a number gives the number |
| NetStrings.Int32ToString | LuceneSearch.cs:81 | `item.ID.ToString()` is never empty |
| NetStrings.ParseInt32 | LuceneSearch.cs:183 | `Int32.Parse` under `NumberStyles.Integer`: the padding is trimmed, then an optional sign and digits are read (definition; paired with `Int32ToString` by `Int32RoundTrip`, and `ParseIgnoresPadding` states that padding does not matter) |
| NetStrings.ParseSignedDigits | LuceneSearch.cs:183 | an optional sign and decimal digits: `FormatException` for anything else, `OverflowException` outside the 32-bit range (definition) |
| NetStrings.NumberTrimStart | LuceneSearch.cs:183 | the leading number padding removed: the result is the suffix left after it and does not start with padding |
| NetStrings.NumberTrimEnd | LuceneSearch.cs:183 | the trailing number padding removed: the result is the prefix left before it and does not end with padding |
| NetStrings.TrimNumberWhite | LuceneSearch.cs:183 | the text of a number without its padding neither starts nor ends with padding |
| NetStrings.TrimNumberWhitePadded | LuceneSearch.cs:183 | padding on either side of an unpadded text is exactly what the trimming removes |
| NetStrings.ParseIgnoresPadding | LuceneSearch.cs:183 | white space before and after a number does not change what it converts to |
| NetStrings.PaddedDigitConverts | LuceneSearch.cs:183 | a digit after a space converts to its value, as `" 7"` converts to 7 |

| NetStrings.ConvertToInt32 | LuceneSearch.cs:183 | `Convert.ToInt32(null)` is 0 |
| NetStrings.Int32ToStringUnpadded | LuceneSearch.cs:81 | `ToString` writes no white space around the number |
| NetStrings.SignedDigitsRoundTrip | LuceneSearch.cs:81 | the sign and digits `ToString` writes read back as the number |
| NetStrings.Int32RoundTrip | LuceneSearch.cs:183 | converting the stored text of an ID written by `ToString` (line 81) gives back the ID without an exception |
| Normalizer.LowerAll | LuceneSearch.cs:224 | `ToLower()` character by character, through the tables' mapping (definition; `CleanIsLowerCase` states its property) |
| Normalizer.RemoveMarks | LuceneSearch.cs:221 | the filter never lengthens the text and leaves no non-spacing mark |
| Normalizer.RemoveMarksAppend | LuceneSearch.cs:221 | the filter keeps the order: filtering a concatenation is concatenating the filtered halves |
| Normalizer.RemoveMarksOne | LuceneSearch.cs:221 | a single character is dropped exactly when it is a non-spacing mark |
| Normalizer.RemoveMarksKeepsBase | LuceneSearch.cs:221 | the filter keeps every other character as often as it occurred |
| Normalizer.RemoveMarksHasNoNew | LuceneSearch.cs:221 | the filter introduces no character that was not there |
| Normalizer.Prepare | LuceneSearch.cs:217 | `Trim().Replace("  ", " ").Replace("*", "")` (definition; its properties are the `Prepare…` lemmas below) |
| Normalizer.CleanText | LuceneSearch.cs:217-224 | the whole cleaning of a non-empty term: prepare, Form D, drop the marks, lower-case (definition; its properties are `CleanHasNoStar`, `CleanHasNoMarks`, `CleanIsLowerCase`, `CleanIsNotIdempotent`) |
| Normalizer.CleanSearchTerm | LuceneSearch.cs:211-225 | a null or empty term comes back unchanged, and the result is null exactly when the term is null |
| Normalizer.PrepareHasNoStar | LuceneSearch.cs:217 | after `Trim().Replace("  ", " ").Replace("*", "")` no `*` is left |
| Normalizer.PrepareChangesOnlySpacesAndStars | LuceneSearch.cs:217 | spaces aside, the prepared text is the trimmed text with its `*` deleted: nothing else is lost, added or moved |
| Normalizer.CleanHasNoStar | LuceneSearch.cs:217-224 | a cleaned non-empty term contains no `*`, given that decomposition and lower-casing do not create one |
| Normalizer.CleanHasNoMarks | LuceneSearch.cs:220-224 | a cleaned non-empty term contains no non-spacing mark, given that lower-casing does not create one |
| Normalizer.CleanIsLowerCase | LuceneSearch.cs:220-224 | every character of a cleaned non-empty term is its own lower case, given that lower-casing is idempotent |
| Normalizer.PrepareSpacedPair | LuceneSearch.cs:217 | two characters that are neither white space nor `*`, with n spaces between them, keep ceil(n/2) spaces between them |
| Normalizer.FourSpacesBecomeTwo | LuceneSearch.cs:217 | `"a    b"` prepares to `"a  b"` |
| Normalizer.TwoSpacesBecomeOne | LuceneSearch.cs:217 | `"a  b"` prepares to `"a b"` |
| Normalizer.PrepareIsNotIdempotent | LuceneSearch.cs:217 | preparing the prepared text again can change it: `"a    b"` prepares to `"a  b"`, which prepares to `"a b"` |
| Normalizer.RemoveMarksNone | LuceneSearch.cs:221 | the filter keeps a text without non-spacing marks whole |
| Normalizer.CleanTextIsPrepare | LuceneSearch.cs:217-224 | under tables that fix the prepared text, cleaning it is just preparing it |
| Normalizer.CleanTwiceDiffers | LuceneSearch.cs:211-225 | cleaning a cleaned term again changes it whenever a second preparation changes the prepared text and the tables leave both texts alone |
| Normalizer.CleanIsNotIdempotent | LuceneSearch.cs:211-225 | `CleanSearchTerm(CleanSearchTerm("a    b")) != CleanSearchTerm("a    b")` under any tables that leave `"a  b"` and `"a b"` alone: cleaning is not idempotent |
| Normalizer.PrepareLetterSpaceStar | LuceneSearch.cs:217 | a character, a space and a `*` prepare to the character and a trailing space |
| Normalizer.PrepareCanEndInSpace | LuceneSearch.cs:217 | `"a *"` prepares to `"a "`: deleting `*` after trimming can leave white space at an end |
| Normalizer.PrepareStarsOnly | LuceneSearch.cs:217 | a text made only of `*` prepares to the empty string |
| Normalizer.CleanStarsOnly | LuceneSearch.cs:211-225 | `"***"` cleans to the empty string, not to null |
| Normalizer.NoStarUnchanged | LuceneSearch.cs:217 | `Replace("*", "")` leaves a text without `*` unchanged |
| Normalizer.ReplaceDoubleSpaceOnRunThen | LuceneSearch.cs:217 | a run of n spaces followed by a non-space keeps ceil(n/2) spaces, and the pass goes on after the run |
| Documents.BuildDocument | LuceneSearch.cs:78-103 | the document written for one record: the ID field, then the title field when the title is non-empty, then the contents field when the contents are non-empty (definition; `BuildDocumentFields`, `BuildDocumentBoosts` and `BuildDocumentStored` state its properties) |
| Documents.FindField | LuceneSearch.cs:81-103 | no field is found exactly when no field has the name; otherwise the found field is the first field with the name |
| Documents.GetStored | LuceneSearch.cs:184 | `document.Get(name)` gives the value of the first stored field of that name, or null exactly when no stored field has the name |
| Documents.GetStoredFrom | LuceneSearch.cs:184 | the same, over a list of fields |
| Documents.BuildDocumentFields | LuceneSearch.cs:78-103 | a built document always has the ID field (the ID's text, boost 0.5, stored). It has a title field (boost 2, stored) iff the title is non-empty, and a contents field (boost 1, not stored) iff the contents are non-empty. No field name occurs twice |
| Documents.BuildDocumentBoosts | LuceneSearch.cs:84-101 | every field of a built document has the fixed positive boost of its name, and only the contents field is unstored |
| Documents.BuildDocumentStored | LuceneSearch.cs:81-99 | reading back a built document gives the ID text, the title (null when none was indexed), and never the contents |
| Documents.Document.constructor | LuceneSearch.cs:78 | a new document has no fields |
| Documents.Document.Add | LuceneSearch.cs:85 | `doc.Add` appends the field and changes nothing else |
| IndexStore.IndexDirectory.constructor | LuceneSearch.cs:69-70 | opening a directory shows the documents it already holds |
| IndexStore.IndexDirectory.DeleteAll | LuceneSearch.cs:74 | `DeleteAll` leaves the index empty |
| IndexStore.IndexDirectory.AddDocument | LuceneSearch.cs:106 | `AddDocument` appends the document's current fields after the existing documents |
| IndexStore.Indexed | LuceneSearch.cs:76-106 | the documents a rebuild writes: one per source record, in source order, each built by `BuildDocument` (definition; `CreateSearchIndex` is proved to produce it) |
| IndexStore.CreateSearchIndex | LuceneSearch.cs:64-117 | afterwards the index holds exactly one document per source item, in source order, each built as above, whatever it held before |
| IndexStore.IndexedDocumentsOfSource | LuceneSearch.cs:76-106 | the rebuilt index has one document per item. Document k gives back item k's ID text and its title, or null when the title was null or empty |
| QueryPlan.WildcardText | LuceneSearch.cs:164 | the wildcard text is the part with one `*` before and one after |
| QueryPlan.PartClauses | LuceneSearch.cs:155-169 | the nine clauses of one part, in the order the code adds them (definition; `PartClausesShape` states its shape) |
| QueryPlan.Plan | LuceneSearch.cs:152-170 | the clauses of the parts, part after part: nine clauses per part |
| QueryPlan.Add | LuceneSearch.cs:155 | `BooleanQuery.Add` appends the clause while the query holds fewer than `MaxClauseCount` (1024) clauses, and throws `TooManyClausesException` once it holds that many |
| QueryPlan.AddPart | LuceneSearch.cs:155-169 | the nine `Add` calls of one part append exactly the part's clauses when they fit under the limit, and throw otherwise |
| QueryPlan.BuildQuery | LuceneSearch.cs:152-170 | when the parts' nine clauses each fit in `MaxClauseCount`, the clauses the loop adds are exactly the plan of the parts, in order; with more parts (114 or more) an `Add` throws |
| QueryPlan.PartClausesShape | LuceneSearch.cs:155-169 | one part gives nine clauses. Clause j has the strategy term, fuzzy or wildcard (by j div 3) and the field ID, title or contents (by j mod 3). All are SHOULD; the wildcard ones carry `*part*` |
| QueryPlan.PlanShape | LuceneSearch.cs:149-170 | k parts give exactly 9k clauses, and clause 9i+j is the j-th expected clause of part i |
| QueryPlan.PlanAllShould | LuceneSearch.cs:155-169 | every clause of the plan is SHOULD |
| QueryPlan.SlotOf | LuceneSearch.cs:155-169 | each strategy and field has a slot j < 9 among a part's clauses, with that strategy and field |
| QueryPlan.PlanCoversEveryPart | LuceneSearch.cs:152-170 | every part is tried with every strategy on every field |
| Corpus.CreateDummyData | LuceneSearch.cs:27-57 | there are four sample records |
| Corpus.DummyDataShape | LuceneSearch.cs:27-57 | the sample records have the IDs 1, 2, 3 and 4 in that order, no ID twice, and each has a non-empty title and non-empty contents |
| Search.TooShort | LuceneSearch.cs:131 | the guard: the raw term is null, empty, or shorter than three UTF-16 code units (definition) |
| Search.AtLeastThree | LuceneSearch.cs:135-136 | the count asked of the searcher is max(TotalResults, 3) |
| Search.TermParts | LuceneSearch.cs:139-149 | the parts of the cleaned term, split on `' '` (definition) |
| Search.FirstWithId | LuceneSearch.cs:189 | `Where(x => x.ID == id).FirstOrDefault()` is null exactly when no record has the ID. Otherwise it is a record with that ID, and no earlier record has it |
| Search.FirstWithIdDistinct | LuceneSearch.cs:189 | when IDs are distinct, looking up a record's ID finds that record |
| Search.HitToResult | LuceneSearch.cs:178-194 | one hit as a result: the stored ID converted, the stored title, the score, and the contents of the first record with that ID, or the conversion's exception (definition; `HitOnRebuiltIndex` and `HydrateFailsAtFirst` state its properties) |
| Search.HydrateAll | LuceneSearch.cs:176-198 | the results of the hits in hit order, or the exception of the first failing one (definition; its properties are the `Hydrate…` lemmas below) |
| Search.HydrateSuccessPointwise | LuceneSearch.cs:176-198 | a successful hydration gives one result per hit, in hit order, each the conversion of its own hit |
| Search.HydrateSucceeds | LuceneSearch.cs:176-198 | hydration succeeds when every hit converts |
| Search.HydrateFailsAtFirst | LuceneSearch.cs:183 | a failed hydration reports the exception of the first hit whose stored ID fails to convert, and every earlier hit converts |
| Search.HydratePrefixFails | LuceneSearch.cs:176-198 | once the hits so far fail, the whole loop fails with the same exception |
| Search.HitOnRebuiltIndex | LuceneSearch.cs:178-193 | a hit on a rebuilt document converts without error and carries the item's ID, the title (null when none was indexed) and the hit's score. Its contents are unset when no record has the ID, and are the item's own when the records have distinct IDs and include the item |
| Search.RebuildThenHydrate | LuceneSearch.cs:176-198 | after a rebuild from records with distinct IDs, hydrating any hits against those records succeeds and gives, hit by hit, the record each hit names |
| Search.DemoHydration | LuceneSearch.cs:176-198 | on an index rebuilt from the sample records, every hit hydrates to exactly the sample record it names, with the hit's score |
| Search.StarsOnlyTermIsSearched | LuceneSearch.cs:131-152 | `"***"` passes the guard on the raw term and cleans to the empty string. It still plans the nine clauses of one empty part |
| Search.HydrateHits | LuceneSearch.cs:176-198 | the loop over the hits computes exactly the hydration of the hits, including the exception of the first failing conversion |
| Search.StartSearch | LuceneSearch.cs:126-203 | a null, empty or short raw term gives no results. A cleaned term whose parts need more than `MaxClauseCount` clauses throws `TooManyClausesException`. Otherwise the searcher is asked, over the index's documents, for the plan of the cleaned term's parts and max(TotalResults, 3) hits, and the result is their hydration from the sample records, a failed ID conversion being reported as such. A successful search returns at most max(TotalResults, 3) results |

## Left out

- Lucene's own behaviour is not modelled: `StandardAnalyzer` tokenisation, fuzzy and wildcard matching, relevance scoring and tie order. The searcher is a parameter, and all the model assumes of it is `WellBehaved`.
- Search.StartSearch: the early return does not open the index. The model can only show this as a result that does not depend on the index.
- Search.StartSearch: document numbers are the positions of documents in the index, in the order they were added. This holds for an index that was freshly rebuilt, with no deletions or segment merges.
- Disk I/O is not modelled: `FSDirectory.Open`, the `IndexWriter` configuration, `Flush`, `Commit`, the path from `HostingEnvironment`, and the exception `DirectoryReader.Open` throws when no index exists yet. The index is an object in memory.
- Disposing of the index writer and reader (the `using` blocks) is not modelled.
- The code has no concurrency and promises no atomicity, so neither is modelled.
- `MaxClauseCount` is global, settable state in Lucene.Net; the model fixes it at its default of 1024, which the code never changes.
- Float boosts and scores are not computed: boosts are exact constants and scores are opaque values.
- The Unicode tables are abstract functions: Form D decomposition, the non-spacing-mark category and culture-sensitive lower-casing. The model lower-cases character by character, as .NET's simple case mapping does.
- Normalizer.CleanHasNoStar: holds only under the stated assumptions on the Unicode tables, not for the real .NET tables, which the model does not contain.
- Normalizer.CleanHasNoMarks: holds only under the stated assumptions on the Unicode tables, not for the real .NET tables.
- Normalizer.CleanIsLowerCase: holds only under the stated assumptions on the Unicode tables, not for the real .NET tables.
- Normalizer.CleanSearchTerm: unpaired surrogates are not modelled, because Dafny characters are Unicode scalar values. On such input `String.Normalize` throws.
- Normalizer.CleanSearchTerm: the mark filter sees whole characters. .NET filters UTF-16 code units, so a non-spacing mark outside the Basic Multilingual Plane reaches it as two surrogates and is kept. A faithful choice of the mark test treats such characters as no mark.
- NetStrings.ConvertToInt32: inherits the gaps of `ParseInt32` below. In the program they do not arise, because its index is written only by `CreateSearchIndex`, so every stored ID comes from `ToString` (`HitOnRebuiltIndex`). On an index written some other way, with an ID in a culture's own sign or followed by NUL characters, the model's `StartSearch` reports `FormatException` where .NET might convert the ID.
- NetStrings.ParseInt32: the signs are fixed to `-` and `+`. .NET reads the current culture's `NegativeSign` and `PositiveSign`, and it also accepts trailing NUL characters; neither is modelled.
- NetStrings.Int32ToString: the negative sign is fixed to `-`. .NET writes the current culture's `NegativeSign`, and parses it back with the same culture, so the round trip holds as long as `ToString` and `Convert.ToInt32` run under the same culture.
- Null elements in the source list are not modelled; the code would throw `NullReferenceException` on them. The model's list holds records, never null.
- `Controllers/HomeController.cs` (which calls `StartSearch(term, 10)`) and the length validation in `Models/HomeViewModel.cs` are framework glue and are not modelled.
