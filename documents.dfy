/** The records of LuceneSearch.cs and the Lucene documents built from
    them (LuceneSearch.cs:76-106, 228-233). */
module Documents {
  import opened Wrappers
  import opened NetStrings

  /** SearchIndexItem: a source record; title and contents may be null. */
  datatype SearchIndexItem = SearchIndexItem(id: int32, title: Option<string>, contents: Option<string>)

  /** The three index fields, named "ID", "title" and "contents" in the index. */
  datatype FieldName = Id | Title | Contents

  /** A Lucene TextField with its boost (an exact number, not a float) and
      whether the index stores its raw value. */
  datatype Field = Field(name: FieldName, value: string, boost: real, stored: bool)

  /** A Lucene Document as it is handed to IndexWriter.AddDocument. */
  datatype IndexedDocument = IndexedDocument(fields: seq<Field>)

  /** The fixed weight of each field. */
  function BoostOf(name: FieldName): real {
    match name
    case Id => 0.5
    case Title => 2.0
    case Contents => 1.0
  }

  function IdField(item: SearchIndexItem): Field {
    Field(Id, Int32ToString(item.id), BoostOf(Id), true)
  }

  function TitleField(title: string): Field {
    Field(Title, title, BoostOf(Title), true)
  }

  function ContentsField(contents: string): Field {
    Field(Contents, contents, BoostOf(Contents), false)
  }

  /** The document the indexing loop builds for one item: the ID always,
      the title and the contents only when they are neither null nor empty. */
  function BuildDocument(item: SearchIndexItem): IndexedDocument {
    IndexedDocument(
      [IdField(item)]
      + (if !IsNullOrEmpty(item.title) then [TitleField(item.title.value)] else [])
      + (if !IsNullOrEmpty(item.contents) then [ContentsField(item.contents.value)] else []))
  }

  /** The first field of the document with the given name. */
  function FindField(fields: seq<Field>, name: FieldName): (r: Option<Field>)
    ensures r.None? <==> forall i :: 0 <= i < |fields| ==> fields[i].name != name
    ensures r.Some? ==> r.value.name == name
    ensures r.Some? ==> exists i :: 0 <= i < |fields| && fields[i] == r.value && forall j :: 0 <= j < i ==> fields[j].name != name
  {
    if fields == [] then None
    else if fields[0].name == name then Some(fields[0])
    else
      var r := FindField(fields[1..], name);
      assert r.Some? ==> exists i :: 1 <= i < |fields| && fields[i] == r.value && forall j :: 0 <= j < i ==> fields[j].name != name by {
        if r.Some? {
          var i :| 0 <= i < |fields[1..]| && fields[1..][i] == r.value && forall j :: 0 <= j < i ==> fields[1..][j].name != name;
          assert fields[i + 1] == r.value;
          forall j | 0 <= j < i + 1 ensures fields[j].name != name {
            if j > 0 { assert fields[j] == fields[1..][j - 1]; }
          }
        }
      }
      r
  }

  /** Document.Get(key) on the document IndexSearcher.Doc returns: the value
      of the first STORED field with that name, or null. */
  function GetStored(doc: IndexedDocument, name: FieldName): (r: Option<string>)
    ensures r.Some? ==> (exists i :: 0 <= i < |doc.fields| && doc.fields[i] == Field(name, r.value, doc.fields[i].boost, true) &&
                          (forall j :: 0 <= j < i ==> !(doc.fields[j].stored && doc.fields[j].name == name)))
    ensures r.None? ==> forall i :: 0 <= i < |doc.fields| ==> !doc.fields[i].stored || doc.fields[i].name != name
  {
    GetStoredFrom(doc.fields, name)
  }

  function GetStoredFrom(fields: seq<Field>, name: FieldName): (r: Option<string>)
    ensures r.Some? ==> (exists i :: 0 <= i < |fields| && fields[i] == Field(name, r.value, fields[i].boost, true) &&
                          (forall j :: 0 <= j < i ==> !(fields[j].stored && fields[j].name == name)))
    ensures r.None? ==> forall i :: 0 <= i < |fields| ==> !fields[i].stored || fields[i].name != name
  {
    if fields == [] then None
    else if fields[0].stored && fields[0].name == name then Some(fields[0].value)
    else
      var r := GetStoredFrom(fields[1..], name);
      assert r.Some? ==> (exists i :: 1 <= i < |fields| && fields[i] == Field(name, r.value, fields[i].boost, true) &&
                            (forall j :: 0 <= j < i ==> !(fields[j].stored && fields[j].name == name))) by {
        if r.Some? {
          var i :| 0 <= i < |fields[1..]| && fields[1..][i] == Field(name, r.value, fields[1..][i].boost, true) &&
            forall j :: 0 <= j < i ==> !(fields[1..][j].stored && fields[1..][j].name == name);
          assert fields[i + 1] == fields[1..][i];
          forall j | 0 <= j < i + 1 ensures !(fields[j].stored && fields[j].name == name) {
            if j > 0 { assert fields[j] == fields[1..][j - 1]; }
          }
        }
      }
      r
  }

  /** What a built document holds: an ID field (the item's ID as text, boost
      0.5, stored); a title field (boost 2, stored) exactly when the title is
      neither null nor empty; a contents field (boost 1, not stored) exactly
      when the contents are neither null nor empty; no field twice. */
  lemma BuildDocumentFields(item: SearchIndexItem)
    ensures FindField(BuildDocument(item).fields, Id) == Some(Field(Id, Int32ToString(item.id), 0.5, true))
    ensures FindField(BuildDocument(item).fields, Title).Some? <==> !IsNullOrEmpty(item.title)
    ensures !IsNullOrEmpty(item.title) ==> FindField(BuildDocument(item).fields, Title) == Some(Field(Title, item.title.value, 2.0, true))
    ensures FindField(BuildDocument(item).fields, Contents).Some? <==> !IsNullOrEmpty(item.contents)
    ensures !IsNullOrEmpty(item.contents) ==> FindField(BuildDocument(item).fields, Contents) == Some(Field(Contents, item.contents.value, 1.0, false))
    ensures forall i, j :: 0 <= i < j < |BuildDocument(item).fields| ==> BuildDocument(item).fields[i].name != BuildDocument(item).fields[j].name
  {
    var fs := BuildDocument(item).fields;
    assert fs[0] == IdField(item);
    if !IsNullOrEmpty(item.title) {
      assert fs[1] == TitleField(item.title.value);
      assert FindField(fs[1..], Title) == Some(fs[1]);
    }
    if !IsNullOrEmpty(item.contents) {
      var last := |fs| - 1;
      assert fs[last] == ContentsField(item.contents.value);
      assert FindField(fs[last..], Contents) == Some(fs[last]);
      assert fs[1..][last - 1..] == fs[last..];
      if last == 2 {
        assert FindField(fs[1..], Contents) == FindField(fs[2..], Contents);
      }
    }
  }

  /** Every field of a built document carries the fixed weight of its name,
      a positive one, and only the contents go unstored. */
  lemma BuildDocumentBoosts(item: SearchIndexItem)
    ensures forall f :: f in BuildDocument(item).fields ==>
      f.boost == BoostOf(f.name) && f.boost > 0.0 && f.stored == (f.name != Contents)
  {
  }

  /** The stored view of a built document, as a search hit reads it back:
      the ID text, the title or null when none was indexed, and never the
      contents. */
  lemma BuildDocumentStored(item: SearchIndexItem)
    ensures GetStored(BuildDocument(item), Id) == Some(Int32ToString(item.id))
    ensures GetStored(BuildDocument(item), Title) == (if IsNullOrEmpty(item.title) then None else item.title)
    ensures GetStored(BuildDocument(item), Contents) == None
  {
    var fs := BuildDocument(item).fields;
    if !IsNullOrEmpty(item.title) {
      assert GetStoredFrom(fs[1..], Title) == Some(item.title.value);
    } else if !IsNullOrEmpty(item.contents) {
      assert fs[1..] == [ContentsField(item.contents.value)];
    }
  }

  /** A Lucene Document object, filled field by field by Add. */
  class Document {
    var fields: seq<Field>

    constructor()
      ensures fields == []
    {
      fields := [];
    }

    method Add(f: Field)
      modifies this
      ensures fields == old(fields) + [f]
    {
      fields := fields + [f];
    }

    function Value(): IndexedDocument
      reads this
    {
      IndexedDocument(fields)
    }
  }
}
