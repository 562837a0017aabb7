/** The index manager of backend/core/search.py: the Whoosh schema (which
    fields are stored and which is the unique key), the create-or-open decision
    of `get_index`, and `index_file`, which replaces the document under one id
    and commits.

    The index is the sequence of its live documents in the order they were
    added. `update_document` deletes every live document whose unique `id`
    matches and then adds the new one; tokenising, scoring and the on-disk
    segment layout are not modelled. */
module SearchIndex {
  import opened Text

  /** The Whoosh field types SCHEMA uses, with the flags it sets. */
  datatype FieldType = IdField(stored: bool, unique: bool) | StoredField | TextField(stored: bool)

  predicate IsStored(t: FieldType) {
    match t
    case IdField(s, _) => s
    case StoredField => true
    case TextField(s) => s
  }

  predicate IsUnique(t: FieldType) {
    t.IdField? && t.unique
  }

  /** Searchable fields are those with terms in the index; `STORED` has none. */
  predicate IsIndexed(t: FieldType) {
    !t.StoredField?
  }

  const SCHEMA: seq<(string, FieldType)> := [
    ("id", IdField(true, true)),
    ("path", StoredField),
    ("title", TextField(true)),
    ("content", TextField(false))
  ]

  function StoredNames(schema: seq<(string, FieldType)>): set<string> {
    set i | 0 <= i < |schema| && IsStored(schema[i].1) :: schema[i].0
  }

  function UniqueNames(schema: seq<(string, FieldType)>): set<string> {
    set i | 0 <= i < |schema| && IsUnique(schema[i].1) :: schema[i].0
  }

  function IndexedNames(schema: seq<(string, FieldType)>): set<string> {
    set i | 0 <= i < |schema| && IsIndexed(schema[i].1) :: schema[i].0
  }

  /** Only `id`, `path` and `title` are stored; `id` alone is the unique key;
      `title` and `content` are searchable but `content` cannot be read back. */
  lemma SchemaFlags()
    ensures StoredNames(SCHEMA) == {"id", "path", "title"}
    ensures UniqueNames(SCHEMA) == {"id"}
    ensures "content" in IndexedNames(SCHEMA) && "content" !in StoredNames(SCHEMA)
    ensures "path" !in IndexedNames(SCHEMA)
  {
    assert SCHEMA[0].0 == "id" && SCHEMA[1].0 == "path" && SCHEMA[2].0 == "title";
    assert SCHEMA[3].0 == "content";
  }

  datatype Document = Document(id: string, path: string, title: string, content: string)

  function FieldValues(d: Document): map<string, string> {
    map["id" := d.id, "path" := d.path, "title" := d.title, "content" := d.content]
  }

  /** What a search hit exposes for a document. */
  function StoredFields(d: Document): map<string, string> {
    map["id" := d.id, "path" := d.path, "title" := d.title]
  }

  /** A hit exposes exactly the fields SCHEMA stores, with the document's
      values; `content` is never among them. */
  lemma StoredFieldsFollowSchema(d: Document)
    ensures StoredFields(d).Keys == StoredNames(SCHEMA)
    ensures forall n :: n in StoredFields(d) ==> StoredFields(d)[n] == FieldValues(d)[n]
    ensures "content" !in StoredFields(d)
  {
    SchemaFlags();
  }

  /** The text `index_file` puts in `content` in place of the file's text. */
  const PENDING: string := " (Content extraction pending)"

  /** The document `index_file` writes for a catalog record. */
  function IndexDocument(id: nat, path: string, name: string): Document {
    Document(Decimal(id), path, name, name + PENDING)
  }

  /** The live documents whose id is `key`, in index order. */
  function WithId(docs: seq<Document>, key: string): (r: seq<Document>)
    ensures forall d :: d in r <==> d in docs && d.id == key
  {
    if docs == [] then []
    else (if docs[0].id == key then [docs[0]] else []) + WithId(docs[1..], key)
  }

  /** The live documents after deleting every document whose id is `key`. */
  function RemoveId(docs: seq<Document>, key: string): (r: seq<Document>)
    ensures forall d :: d in r <==> d in docs && d.id != key
    ensures |r| <= |docs|
  {
    if docs == [] then []
    else (if docs[0].id == key then [] else [docs[0]]) + RemoveId(docs[1..], key)
  }

  /** `writer.update_document(**fields)` with `id` the unique field. */
  function Upsert(docs: seq<Document>, d: Document): (r: seq<Document>)
    ensures |r| <= |docs| + 1
    ensures forall x :: x in r <==> x == d || (x in docs && x.id != d.id)
  {
    RemoveId(docs, d.id) + [d]
  }

  /** At most one live document per id. */
  ghost predicate UniqueIds(docs: seq<Document>) {
    forall key :: |WithId(docs, key)| <= 1
  }

  /** Same live document under every id (index order may differ). */
  ghost predicate SameDocuments(a: seq<Document>, b: seq<Document>) {
    forall key :: WithId(a, key) == WithId(b, key)
  }

  lemma {:induction false} WithIdAppend(a: seq<Document>, b: seq<Document>, key: string)
    ensures WithId(a + b, key) == WithId(a, key) + WithId(b, key)
  {
    if a != [] {
      assert (a + b)[1..] == a[1..] + b;
      WithIdAppend(a[1..], b, key);
    } else {
      assert a + b == b;
    }
  }

  lemma {:induction false} WithIdRemoveId(docs: seq<Document>, gone: string, key: string)
    ensures WithId(RemoveId(docs, gone), key) == if key == gone then [] else WithId(docs, key)
  {
    if docs != [] {
      var head := if docs[0].id == gone then [] else [docs[0]];
      WithIdAppend(head, RemoveId(docs[1..], gone), key);
      WithIdRemoveId(docs[1..], gone, key);
    }
  }

  /** After an upsert the index holds exactly the new document under its id,
      and the documents under every other id are unchanged, in order. */
  lemma UpsertWithId(docs: seq<Document>, d: Document, key: string)
    ensures WithId(Upsert(docs, d), key) == if key == d.id then [d] else WithId(docs, key)
  {
    WithIdAppend(RemoveId(docs, d.id), [d], key);
    WithIdRemoveId(docs, d.id, key);
  }

  lemma {:induction false} RemoveIdAppend(a: seq<Document>, b: seq<Document>, key: string)
    ensures RemoveId(a + b, key) == RemoveId(a, key) + RemoveId(b, key)
  {
    if a != [] {
      assert (a + b)[1..] == a[1..] + b;
      RemoveIdAppend(a[1..], b, key);
      var head := if a[0].id == key then [] else [a[0]];
      assert RemoveId(a + b, key) == head + RemoveId(a[1..] + b, key);
      assert RemoveId(a, key) == head + RemoveId(a[1..], key);
    } else {
      assert a + b == b;
    }
  }

  lemma {:induction false} RemoveIdTwice(docs: seq<Document>, key: string)
    ensures RemoveId(RemoveId(docs, key), key) == RemoveId(docs, key)
  {
    if docs != [] {
      var head := if docs[0].id == key then [] else [docs[0]];
      RemoveIdAppend(head, RemoveId(docs[1..], key), key);
      RemoveIdTwice(docs[1..], key);
    }
  }

  /** Upserting the same document twice gives the index of upserting it once. */
  lemma UpsertIdempotent(docs: seq<Document>, d: Document)
    ensures Upsert(Upsert(docs, d), d) == Upsert(docs, d)
  {
    RemoveIdAppend(RemoveId(docs, d.id), [d], d.id);
    RemoveIdTwice(docs, d.id);
  }

  lemma UpsertKeepsUniqueIds(docs: seq<Document>, d: Document)
    requires UniqueIds(docs)
    ensures UniqueIds(Upsert(docs, d))
  {
    forall key ensures |WithId(Upsert(docs, d), key)| <= 1 {
      UpsertWithId(docs, d, key);
    }
  }

  /** Upserting a document that is already the one live document under its id
      leaves the same documents under every id. */
  lemma UpsertPresent(docs: seq<Document>, d: Document)
    requires WithId(docs, d.id) == [d]
    ensures SameDocuments(Upsert(docs, d), docs)
  {
    forall key ensures WithId(Upsert(docs, d), key) == WithId(docs, key) {
      UpsertWithId(docs, d, key);
    }
  }

  /** The on-disk situation `get_index` inspects and changes: whether
      INDEX_DIR exists, whether an index is stored in it, and its documents. */
  datatype IndexState = IndexState(dirExists: bool, hasIndex: bool, docs: seq<Document>)

  ghost predicate ValidState(s: IndexState) {
    && (s.hasIndex ==> s.dirExists)
    && (!s.hasIndex ==> s.docs == [])
    && UniqueIds(s.docs)
  }

  /** Which branch of `get_index` ran. */
  datatype Opening = CreatedDirAndIndex | CreatedIndex | OpenedExisting

  /** `get_index`: create the directory and an empty index, create an empty
      index in the existing directory, or open the index that is there. */
  function GetIndexSpec(s: IndexState): (IndexState, Opening) {
    if !s.dirExists then (IndexState(true, true, []), CreatedDirAndIndex)
    else if !s.hasIndex then (IndexState(true, true, []), CreatedIndex)
    else (s, OpenedExisting)
  }

  /** After `get_index` an index exists; an existing index is never reset, and
      calling it again only opens what the first call left. */
  lemma GetIndexProperties(s: IndexState)
    ensures var (s1, how) := GetIndexSpec(s);
            && s1.dirExists && s1.hasIndex
            && (s.hasIndex && s.dirExists <==> how == OpenedExisting)
            && (s.hasIndex && s.dirExists ==> s1 == s)
            && (!s.hasIndex ==> s1.docs == [])
            && GetIndexSpec(s1) == (s1, OpenedExisting)
  {
  }

  /** `index_file(f)`: open the index, replace the document under `str(f.id)`,
      commit. */
  function IndexFileSpec(s: IndexState, id: nat, path: string, name: string): IndexState {
    var s1 := GetIndexSpec(s).0;
    s1.(docs := Upsert(s1.docs, IndexDocument(id, path, name)))
  }

  /** After `index_file(f)` exactly one live document has id `str(f.id)`: its
      path and title are the record's and its content is the record's name
      followed by the placeholder text, whatever the file holds. Every other
      id keeps its documents. */
  lemma IndexFileResult(s: IndexState, id: nat, path: string, name: string, key: string)
    requires ValidState(s)
    ensures var s2 := IndexFileSpec(s, id, path, name);
            && ValidState(s2) && s2.dirExists && s2.hasIndex
            && WithId(s2.docs, Decimal(id)) == [Document(Decimal(id), path, name, name + PENDING)]
            && (key != Decimal(id) ==> WithId(s2.docs, key) == WithId(s.docs, key))
  {
    var s1 := GetIndexSpec(s).0;
    var d := IndexDocument(id, path, name);
    UpsertWithId(s1.docs, d, Decimal(id));
    UpsertWithId(s1.docs, d, key);
    UpsertKeepsUniqueIds(s1.docs, d);
  }

  /** Indexing the same record twice gives the same index as indexing it once. */
  lemma IndexFileIdempotent(s: IndexState, id: nat, path: string, name: string)
    ensures IndexFileSpec(IndexFileSpec(s, id, path, name), id, path, name)
         == IndexFileSpec(s, id, path, name)
  {
    var s1 := GetIndexSpec(s).0;
    UpsertIdempotent(s1.docs, IndexDocument(id, path, name));
  }

  /** The process-wide index at INDEX_DIR. */
  class IndexStore {
    var dirExists: bool
    var hasIndex: bool
    var docs: seq<Document>

    ghost predicate Valid()
      reads this
    {
      ValidState(State())
    }

    function State(): IndexState
      reads this
    {
      IndexState(dirExists, hasIndex, docs)
    }

    constructor (s: IndexState)
      requires ValidState(s)
      ensures Valid() && State() == s
    {
      dirExists, hasIndex, docs := s.dirExists, s.hasIndex, s.docs;
    }

    /** `get_index()`. */
    method GetIndex() returns (how: Opening)
      requires Valid()
      modifies this
      ensures Valid()
      ensures (State(), how) == GetIndexSpec(old(State()))
    {
      if !dirExists {
        dirExists := true;
        hasIndex, docs := true, [];
        return CreatedDirAndIndex;
      }
      if !hasIndex {
        hasIndex, docs := true, [];
        return CreatedIndex;
      }
      return OpenedExisting;
    }

    /** `index_file(file_obj)` for a record with the given id, path and name. */
    method IndexFile(id: nat, path: string, name: string)
      requires Valid()
      modifies this
      ensures Valid()
      ensures State() == IndexFileSpec(old(State()), id, path, name)
    {
      var _ := GetIndex();
      var pending := Upsert(docs, IndexDocument(id, path, name));
      UpsertKeepsUniqueIds(docs, IndexDocument(id, path, name));
      docs := pending;
    }
  }
}
