/** The index on disk and its rebuild, CreateSearchIndex
    (LuceneSearch.cs:64-117). */
module IndexStore {
  import opened Wrappers
  import opened NetStrings
  import opened Documents

  /** The index directory, as the writer and the readers see it: the
      sequence of documents in the order they were added. The on-disk
      format, flushing and committing are not modelled. */
  class IndexDirectory {
    var docs: seq<IndexedDocument>

    /** Opening a directory that already holds documents. */
    constructor(existing: seq<IndexedDocument>)
      ensures docs == existing
    {
      docs := existing;
    }

    /** IndexWriter.DeleteAll. */
    method DeleteAll()
      modifies this
      ensures docs == []
    {
      docs := [];
    }

    /** IndexWriter.AddDocument: the document's current fields are appended. */
    method AddDocument(doc: Document)
      modifies this
      ensures docs == old(docs) + [doc.Value()]
    {
      docs := docs + [doc.Value()];
    }
  }

  /** The index a rebuild from source leaves: one document per item, in order. */
  function Indexed(source: seq<SearchIndexItem>): seq<IndexedDocument> {
    seq(|source|, i requires 0 <= i < |source| => BuildDocument(source[i]))
  }

  /** CreateSearchIndex: delete everything, then add one document per source
      item, built field by field. Whatever the index held before is gone. */
  method CreateSearchIndex(index: IndexDirectory, source: seq<SearchIndexItem>)
    modifies index
    ensures index.docs == Indexed(source)
  {
    index.DeleteAll();
    for i := 0 to |source|
      invariant |index.docs| == i
      invariant forall k :: 0 <= k < i ==> index.docs[k] == BuildDocument(source[k])
    {
      var item := source[i];
      var doc := new Document();

      doc.Add(IdField(item));

      if !IsNullOrEmpty(item.title) {
        doc.Add(TitleField(item.title.value));
      }

      if !IsNullOrEmpty(item.contents) {
        doc.Add(ContentsField(item.contents.value));
      }

      assert doc.Value() == BuildDocument(item);
      index.AddDocument(doc);
    }
  }

  /** Document k of a rebuilt index comes from item k, and the index holds
      exactly one document per item. */
  lemma IndexedDocumentsOfSource(source: seq<SearchIndexItem>, k: nat)
    requires k < |source|
    ensures |Indexed(source)| == |source|
    ensures GetStored(Indexed(source)[k], Id) == Some(Int32ToString(source[k].id))
    ensures GetStored(Indexed(source)[k], Title) == (if IsNullOrEmpty(source[k].title) then None else source[k].title)
  {
    BuildDocumentStored(source[k]);
  }
}
