/** CreateDummyData (LuceneSearch.cs:27-57): the four sample records that
    both feed the index and serve as the source of contents when results
    are hydrated. */
module Corpus {
  import opened Wrappers
  import opened NetStrings
  import opened Documents

  function CreateDummyData(): (items: seq<SearchIndexItem>)
    ensures |items| == 4
  {
    [ SearchIndexItem(1, Some("Lorem Ipsum"), Some(LoremContents)),
      SearchIndexItem(2, Some("Bootstrap"), Some(BootstrapContents)),
      SearchIndexItem(3, Some("Lucene.Net"), Some(LuceneContents)),
      SearchIndexItem(4, Some("Weird Characters"), Some(WeirdContents)) ]
  }

  const LoremContents: string :=
    "Lorem ipsum dolor sit amet, consectetur adipisci"
    + "ng elit, sed do eiusmod tempor incididunt ut lab"
    + "ore et dolore magna aliqua. Ut enim ad minim ven"
    + "iam, quis nostrud exercitation ullamco laboris n"
    + "isi ut aliquip ex ea commodo consequat. VDWWD ."

  const BootstrapContents: string :=
    "Quickly design and customize responsive mobile-f"
    + "irst sites with Bootstrap, the world’s most popu"
    + "lar front-end open source toolkit, featuring Sas"
    + "s variables and mixins, responsive grid system, "
    + "extensive prebuilt components, and powerful Java"
    + "Script plugins. VDWWD."

  const LuceneContents: string :=
    "Lucene.Net is a port of the Lucene search engine"
    + " library, written in C# and targeted at .NET run"
    + "time users. VDWWD."

  const WeirdContents: string :=
    "Thè qüick brôwn fox jùmps õver thë låzy døg. VDW"
    + "WD."

  /** No two items share an ID. */
  ghost predicate DistinctIds(items: seq<SearchIndexItem>) {
    forall i, j :: 0 <= i < |items| && 0 <= j < |items| && items[i].id == items[j].id ==> i == j
  }

  /** The sample records have the IDs 1 to 4, each once, and every one of
      them has a title and contents. */
  lemma DummyDataShape()
    ensures DistinctIds(CreateDummyData())
    ensures forall k :: 0 <= k < 4 ==> CreateDummyData()[k].id as int == k + 1
    ensures forall k :: 0 <= k < 4 ==> !IsNullOrEmpty(CreateDummyData()[k].title) && !IsNullOrEmpty(CreateDummyData()[k].contents)
  {
    var d := CreateDummyData();
    assert d[0].id == 1 && d[1].id == 2 && d[2].id == 3 && d[3].id == 4;
  }
}
