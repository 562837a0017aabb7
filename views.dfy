/** The decision logic of three request handlers in backend/core/views.py:
    `SearchFileView.get`, `FileUploadView.post` and `IngestView.post`.

    Whoosh's query parser, scorer and highlighter are not modelled: the
    ranked hits for a query over the live documents, and the snippet for a
    hit, reach the model as functions passed in. The highlighter is handed
    what the hit exposes, that is the stored fields only. */
module Views {
  import opened Text
  import opened PosixPath
  import opened Models
  import opened SearchIndex
  import opened Catalog
  import opened Ingest

  datatype Option<T> = None | Some(value: T)

  const HTTP_200_OK: nat := 200
  const HTTP_201_CREATED: nat := 201
  const HTTP_400_BAD_REQUEST: nat := 400
  const HTTP_404_NOT_FOUND: nat := 404
  const HTTP_500_INTERNAL_SERVER_ERROR: nat := 500

  /** One element of the search response. */
  datatype SearchRecord = SearchRecord(id: Option<string>, title: Option<string>, path: Option<string>, snippet: string)

  /** The JSON bodies the three handlers send. */
  datatype Body =
    | ErrorBody(error: string)
    | SearchBody(records: seq<SearchRecord>)
    | FileBody(id: nat, file: FileRecord)
    | IngestBody(status: string, count: nat, errors: seq<string>)

  datatype Response = Response(body: Body, status: nat)

  // ---------------------------------------------------------------------
  // SearchFileView.get

  const SEARCH_LIMIT: nat := 20
  const QUERY_REQUIRED: string := "Query parameter 'q' is required"

  /** `request.query_params.get('q', '')`. */
  function QueryOf(q: Option<string>): string {
    if q.Some? then q.value else ""
  }

  /** `hit.get(name)`: the stored value, or None. */
  function Get(fields: map<string, string>, name: string): (r: Option<string>)
    ensures r.Some? <==> name in fields
    ensures r.Some? ==> r.value == fields[name]
  {
    if name in fields then Some(fields[name]) else None
  }

  /** The hits `searcher.search(query, limit=20)` yields: the first twenty of
      the ranking, in ranked order. */
  function Hits(ranked: seq<Document>): (r: seq<Document>)
    ensures |r| == if |ranked| < SEARCH_LIMIT then |ranked| else SEARCH_LIMIT
    ensures r == ranked[..|r|]
  {
    if |ranked| <= SEARCH_LIMIT then ranked else ranked[..SEARCH_LIMIT]
  }

  /** The record built for one hit, from what the hit exposes. */
  function Project(d: Document, query: string, highlight: (map<string, string>, string) -> string): SearchRecord {
    var fields := StoredFields(d);
    SearchRecord(Get(fields, "id"), Get(fields, "title"), Get(fields, "path"), highlight(fields, query))
  }

  /** The records of the response, one per hit, in the hits' order. */
  function Projections(hits: seq<Document>, query: string, highlight: (map<string, string>, string) -> string)
    : (r: seq<SearchRecord>)
    ensures |r| == |hits|
    ensures forall i :: 0 <= i < |hits| ==> r[i] == Project(hits[i], query, highlight)
  {
    seq(|hits|, i requires 0 <= i < |hits| => Project(hits[i], query, highlight))
  }

  /** The response of `SearchFileView.get` for a non-empty query, over the
      documents of the index `get_index` opened. */
  function SearchRecords(docs: seq<Document>, query: string,
                         rank: (seq<Document>, string) -> seq<Document>,
                         highlight: (map<string, string>, string) -> string): seq<SearchRecord>
  {
    Projections(Hits(rank(docs, query)), query, highlight)
  }

  /** `SearchFileView.get`. */
  method SearchFiles(q: Option<string>, ix: IndexStore,
                     rank: (seq<Document>, string) -> seq<Document>,
                     highlight: (map<string, string>, string) -> string)
    returns (resp: Response)
    requires ix.Valid()
    modifies ix
    ensures ix.Valid()
    ensures QueryOf(q) == "" ==>
              && resp == Response(ErrorBody(QUERY_REQUIRED), HTTP_400_BAD_REQUEST)
              && ix.State() == old(ix.State())
    ensures QueryOf(q) != "" ==>
              && ix.State() == GetIndexSpec(old(ix.State())).0
              && resp == Response(SearchBody(SearchRecords(ix.docs, QueryOf(q), rank, highlight)), HTTP_200_OK)
  {
    var query := QueryOf(q);
    if query == "" {
      return Response(ErrorBody(QUERY_REQUIRED), HTTP_400_BAD_REQUEST);
    }
    var _ := ix.GetIndex();
    var results := Hits(rank(ix.docs, query));
    var records := [];
    var i := 0;
    while i < |results|
      invariant 0 <= i <= |results|
      invariant |records| == i
      invariant forall j :: 0 <= j < i ==> records[j] == Project(results[j], query, highlight)
    {
      records := records + [Project(results[i], query, highlight)];
      i := i + 1;
    }
    assert records == Projections(results, query, highlight);
    return Response(SearchBody(records), HTTP_200_OK);
  }

  /** A search returns at most twenty records: the first twenty ranked hits
      in ranked order, each carrying its hit's stored id, title and path. */
  lemma SearchRecordsAreRankedHits(docs: seq<Document>, query: string,
                                   rank: (seq<Document>, string) -> seq<Document>,
                                   highlight: (map<string, string>, string) -> string)
    ensures var ranked, records := rank(docs, query), SearchRecords(docs, query, rank, highlight);
            && |records| <= SEARCH_LIMIT
            && |records| == (if |ranked| < SEARCH_LIMIT then |ranked| else SEARCH_LIMIT)
            && forall i :: 0 <= i < |records| ==>
                 && records[i].id == Some(ranked[i].id)
                 && records[i].title == Some(ranked[i].title)
                 && records[i].path == Some(ranked[i].path)
                 && records[i].snippet == highlight(StoredFields(ranked[i]), query)
  {
  }

  /** `content` is not stored, so no part of a search record, snippet
      included, depends on a hit's content. */
  lemma RecordIgnoresContent(d: Document, content: string, query: string,
                             highlight: (map<string, string>, string) -> string)
    ensures Project(d.(content := content), query, highlight) == Project(d, query, highlight)
  {
    var fields := StoredFields(d);
    var fields2 := StoredFields(d.(content := content));
    assert fields2 == fields;
  }

  // ---------------------------------------------------------------------
  // FileUploadView.post

  /** The uploaded file part: its name and its size in bytes. */
  datatype Upload = Upload(name: string, size: nat)

  const NO_FILE: string := "No file provided"

  /** `not file_obj`: no part, or a part whose name is empty (a Django file
      object is true exactly when it has a name). */
  predicate Missing(file: Option<Upload>) {
    file.None? || file.value.name == ""
  }

  lemma RemoveLeadingDot(e: string)
    requires StartsWith(e, '.') && '.' !in e[1..]
    ensures RemoveAll(e, '.') == e[1..]
  {
  }

  /** `os.path.splitext(file_name)[1].replace('.', '')`: the extension without
      its dot, case kept, and empty when the name has no extension. */
  function UploadFileType(name: string): (r: string)
    ensures '.' !in r
    ensures HasExtension(name) ==> "." + r == Ext(name)
    ensures !HasExtension(name) ==> r == ""
  {
    var e := Ext(name);
    if e != "" then
      RemoveLeadingDot(e);
      assert e == "." + e[1..];
      RemoveAll(e, '.')
    else
      RemoveAll(e, '.')
  }

  /** The two handlers disagree only in case: lower-casing the upload's file
      type gives the ingestor's. */
  lemma UploadTypeLowersToIngestType(name: string)
    ensures Lower(UploadFileType(name)) == IngestFileType(name)
  {
    var e := Ext(name);
    StripExtDot(name);
    if e != "" {
      RemoveLeadingDot(e);
    }
  }

  lemma SeparatorsOfExample()
    ensures RFind("a.PDF", '/') == -1 && RFind("a.PDF", '.') == 1
  {
    var p := "a.PDF";
    assert p[..4] == "a.PD" && p[..4][..3] == "a.P" && p[..4][..3][..2] == "a.";
    assert RFind("a.", '.') == 1;
    assert RFind("a.P", '.') == 1;
    assert RFind("a.PD", '.') == 1;
  }

  lemma ExtOfExample()
    ensures Ext("a.PDF") == ".PDF"
  {
    var p := "a.PDF";
    SeparatorsOfExample();
    assert HasNonDot(p, 0, 1) by {
      assert p[0] != '.';
    }
    assert p[1..] == ".PDF";
  }

  /** `a.PDF` is catalogued as `PDF` when uploaded and as `pdf` when ingested. */
  lemma UploadKeepsCase()
    ensures UploadFileType("a.PDF") == "PDF"
    ensures IngestFileType("a.PDF") == "pdf"
  {
    UploadTypeOfExample();
    IngestTypeOfExample();
  }

  lemma IngestTypeOfExample()
    ensures IngestFileType("a.PDF") == "pdf"
  {
    UploadTypeOfExample();
    UploadTypeLowersToIngestType("a.PDF");
    LowerOfExample();
  }

  lemma LowerOfExample()
    ensures Lower("PDF") == "pdf"
  {
    var r := Lower("PDF");
    assert r[0] == 'p' && r[1] == 'd' && r[2] == 'f';
  }

  lemma UploadTypeOfExample()
    ensures UploadFileType("a.PDF") == "PDF"
  {
    ExtOfExample();
    RemoveLeadingDot(".PDF");
    assert ".PDF"[1..] == "PDF";
  }

  /** The record `File.objects.create` receives for an upload saved under
      `mediaRoot`. */
  function UploadRecord(mediaRoot: string, u: Upload): FileRecord {
    FileRecord(Join(mediaRoot, u.name), u.name, UploadFileType(u.name), u.size)
  }

  /** An uploaded file is saved under its own name in the media directory, so
      the saved path ends in that name and carries its extension. */
  lemma UploadPathEndsWithName(mediaRoot: string, u: Upload)
    requires '/' !in u.name
    ensures var r := UploadRecord(mediaRoot, u);
            BaseName(r.path) == r.name && Ext(r.path) == Ext(r.name)
  {
    BaseNameOfJoin(mediaRoot, u.name);
    ExtOfJoin(mediaRoot, u.name);
  }

  /** `FileUploadView.post`: writing the bytes is not modelled. */
  method UploadFile(file: Option<Upload>, mediaRoot: string, table: FileTable, ix: IndexStore)
    returns (resp: Response)
    requires ix.Valid()
    modifies table, ix
    ensures ix.Valid()
    ensures Missing(file) ==>
              && resp == Response(ErrorBody(NO_FILE), HTTP_400_BAD_REQUEST)
              && table.rows == old(table.rows) && ix.State() == old(ix.State())
    ensures !Missing(file) ==>
              var row := UploadRecord(mediaRoot, file.value);
              var (st, id) := CreateSpec(Store(old(table.rows), old(ix.State())), row);
              && Store(table.rows, ix.State()) == st
              && resp == Response(FileBody(id, row), HTTP_201_CREATED)
  {
    if Missing(file) {
      return Response(ErrorBody(NO_FILE), HTTP_400_BAD_REQUEST);
    }
    var row := UploadRecord(mediaRoot, file.value);
    var id := table.Create(row, ix);
    return Response(FileBody(id, row), HTTP_201_CREATED);
  }

  /** Every upload adds a row, even when a row with the same path exists. */
  lemma UploadAlwaysAddsRow(st: Store, mediaRoot: string, u: Upload)
    ensures var row := UploadRecord(mediaRoot, u);
            var (st2, id) := CreateSpec(st, row);
            && st2.rows == st.rows + [row]
            && id == IdAt(|st.rows|)
            && PathCount(st2.rows, row.path) == PathCount(st.rows, row.path) + 1
  {
    PathsOfAppend(st.rows, UploadRecord(mediaRoot, u));
  }

  // ---------------------------------------------------------------------
  // IngestView.post

  const PATH_REQUIRED: string := "Path is required"
  const DIRECTORY_NOT_FOUND: string := "Directory not found"

  /** How the call `ingest_directory(path)` ended: it returned, raised
      `FileNotFoundError`, or raised another exception with a message. */
  datatype IngestOutcome = Returned(count: nat, errors: seq<string>) | RaisedNotFound | RaisedOther(message: string)

  function OutcomeOf(r: IngestResult): IngestOutcome {
    match r
    case Ingested(count, errors) => Returned(count, errors)
    case DirectoryNotFound(_) => RaisedNotFound
  }

  /** The response for a given path (absent, empty, or given) and outcome:
      400 exactly for a missing path, and otherwise 200, 404 or 500 exactly as
      the call returned, raised `FileNotFoundError`, or raised something
      else; count, errors and message pass through unchanged. */
  function IngestResponse(path: Option<string>, outcome: IngestOutcome): (resp: Response)
    ensures var given := path.Some? && path.value != "";
            && (resp.status == HTTP_400_BAD_REQUEST <==> !given)
            && (resp.status == HTTP_200_OK <==> given && outcome.Returned?)
            && (resp.status == HTTP_404_NOT_FOUND <==> given && outcome.RaisedNotFound?)
            && (resp.status == HTTP_500_INTERNAL_SERVER_ERROR <==> given && outcome.RaisedOther?)
            && (resp.status == HTTP_200_OK ==> resp.body == IngestBody("success", outcome.count, outcome.errors))
            && (resp.status == HTTP_500_INTERNAL_SERVER_ERROR ==> resp.body == ErrorBody(outcome.message))
  {
    if path.None? || path.value == "" then Response(ErrorBody(PATH_REQUIRED), HTTP_400_BAD_REQUEST)
    else
      match outcome
      case Returned(count, errors) => Response(IngestBody("success", count, errors), HTTP_200_OK)
      case RaisedNotFound => Response(ErrorBody(DIRECTORY_NOT_FOUND), HTTP_404_NOT_FOUND)
      case RaisedOther(message) => Response(ErrorBody(message), HTTP_500_INTERNAL_SERVER_ERROR)
  }

  /** `IngestView.post`, given whether the path names a directory and the
      files a walk of it reports. */
  method IngestPost(path: Option<string>, isDir: bool, tree: seq<WalkEntry>, table: FileTable, ix: IndexStore)
    returns (resp: Response)
    requires ix.Valid()
    modifies table, ix
    ensures ix.Valid()
    ensures path.None? || path.value == "" ==>
              && resp == Response(ErrorBody(PATH_REQUIRED), HTTP_400_BAD_REQUEST)
              && table.rows == old(table.rows) && ix.State() == old(ix.State())
    ensures path.Some? && path.value != "" ==>
              var (st, r) := IngestSpec(isDir, path.value, Store(old(table.rows), old(ix.State())), tree);
              && Store(table.rows, ix.State()) == st
              && resp == IngestResponse(path, OutcomeOf(r))
  {
    if path.None? || path.value == "" {
      return Response(ErrorBody(PATH_REQUIRED), HTTP_400_BAD_REQUEST);
    }
    var r := IngestDirectory(path.value, isDir, tree, table, ix);
    resp := IngestResponse(path, OutcomeOf(r));
  }

  /** A path that is not a directory answers 404 and leaves catalog and
      index as they were. */
  lemma MissingDirectoryAnswers404(path: string, store: Store, tree: seq<WalkEntry>)
    requires path != ""
    ensures var (st, r) := IngestSpec(false, path, store, tree);
            && st == store
            && IngestResponse(Some(path), OutcomeOf(r)) == Response(ErrorBody(DIRECTORY_NOT_FOUND), HTTP_404_NOT_FOUND)
  {
  }
}
