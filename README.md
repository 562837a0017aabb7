# pkse core in Dafny

A Dafny model of the backend core of pkse, a personal file catalog with full-text search built on Django and Whoosh. The model covers:

- **The directory ingestor** (`backend/core/ingest.py`, module `Ingest`). It walks a directory tree and skips hidden file names. It derives a file type from the extension and upserts one catalog row per joined path. It counts the saves and collects one error string per failing file.
- **The `post_save` receiver** (`backend/core/signals.py`, module `Signals`). Every catalog save indexes the saved row once.
- **The text extractor** (`backend/core/utils.py`, module `Extract`). It dispatches on the lower-cased extension. Its PDF page loop concatenates page texts. Any failure degrades to `""`.
- **The index manager** (`backend/core/search.py`, module `SearchIndex`). This covers the schema, the create-or-open decision of `get_index`, and `index_file`, which replaces the document under one id.
- **Three request handlers** (`backend/core/views.py`, module `Views`):
  - `SearchFileView.get`: the query check, the cap of twenty hits, and the projection of hits to records;
  - `FileUploadView.post`: the missing-file check and the upload's file type;
  - `IngestView.post`: the mapping from outcome to status code.

Python's `posixpath.join`, `posixpath.splitext`, `str.lower`, `str.lstrip`, `str.replace` and `str(int)` are modelled once, in the modules `PosixPath` and `Text`.

## State and how it is represented

**The `File` table** (class `Catalog.FileTable`):
- It is a sequence of rows. The row at position `i` has id `i + 1`, because the core never deletes a row.
- `File.path` carries no uniqueness constraint, and uploads use `create`. So several rows can share a path.
- `update_or_create` looks a path up with `get`, which raises `MultipleObjectsReturned` when two or more rows match. The ingestor turns that into one error string. The model keeps this behaviour and proves it reachable (`Catalog.CreateTwiceDuplicatesPath`).

**The Whoosh index** (class `SearchIndex.IndexStore`):
- It has two flags: whether `INDEX_DIR` exists, and whether an index is stored in it.
- Its contents are the sequence of live documents. `update_document` deletes every live document with the same unique `id` and then appends the new one.

**Functions and methods.** Every imperative operation is a method whose `ensures` ties the new state to a specification function:
- `IngestDirectory` to `IngestSpec` (a left fold of `Step` over the walk);
- `FileTable.UpdateOrCreate` to `SaveSpec`;
- `IndexStore.IndexFile` to `IndexFileSpec`;
- `ExtractFromPdf` to `PdfText`;
- `SearchFiles` to `SearchRecords`.

The properties are lemmas about those functions.

**Inputs given as values.** `os.walk`, `os.stat` and `os.path.isdir` are not executed. The walk arrives as a sequence of `(root, filename, stat outcome)` entries in visit order, together with a flag saying whether the start path is a directory. The PDF reader and the text decoder arrive as values describing what reading the file yields. Whoosh's ranking and highlighting arrive as function parameters.

## Model

| member | source | states |
|---|---|---|
| Text.Lower | backend/core/utils.py:9 | `str.lower` keeps length and positions and leaves no upper-case letter |
| Text.LStrip | backend/core/ingest.py:38 | `lstrip(c)` removes exactly the leading run of `c`: the rest is a suffix not starting with `c` |
| Text.RemoveAll | backend/core/views.py:41 | `replace('.', '')` leaves no dot, keeps every other character with its multiplicity, and changes a dot-free string not at all |
| Text.RemoveAllAppend | backend/core/views.py:41 | removal works piece by piece, so the kept characters stay in their order |
| Text.DecimalInjective | backend/core/search.py:40 | `str(id)` is injective on ids, via the round trip `int(str(n)) == n` |
| Text.ParseDecimalRoundTrip | backend/core/search.py:40 | parsing the decimal string of `n` gives back `n` |
| PosixPath.Join | backend/core/ingest.py:20 | `os.path.join`: an absolute second part wins; otherwise the result is exactly the first part, then one `/` unless the first part is empty or already ends with one, then the second part |
| PosixPath.BaseNameOfJoin | backend/core/views.py:25 | joining a directory with a slash-free name gives back that name as the last component |
| PosixPath.Splitext | backend/core/utils.py:8 | `splitext`: root plus extension is the path; the extension is empty or a single dot followed by dot-free, slash-free text; it is non-empty exactly when a non-dot precedes a dot in the last component |
| PosixPath.ExtOfJoin | backend/core/ingest.py:30 | the joined path has the extension of the file name it was joined with |
| PosixPath.ExtOfLastComponent | backend/core/utils.py:8 | only the last path component decides the extension |
| PosixPath.ExtOfLower | backend/core/utils.py:8-9 | the extension of the lower-cased path is the lower-cased extension |
| Extract.ChooseExtractor | backend/core/utils.py:8-16 | a reader is chosen only for a path that has an extension |
| Extract.ChooseExtractorIgnoresCase | backend/core/utils.py:8-9 | `X.PDF` and `x.pdf` go to the same reader |
| Extract.PdfChosenExactly | backend/core/utils.py:11-12 | the PDF reader is chosen exactly when the path has an extension and ends, in any case, with `.pdf` |
| Extract.TextChosenExactly | backend/core/utils.py:13-14 | the text reader is chosen exactly when the path has an extension and ends, in any case, with one of the seven listed ones |
| Extract.PdfIsNotText | backend/core/utils.py:11-14 | `.pdf` is not among the text extensions, so the two branches never overlap |
| Extract.UnsupportedIgnoresFile | backend/core/utils.py:15-16 | any other extension, or none, yields `""` whatever the file holds |
| Extract.ExtractFromPdf | backend/core/utils.py:18-27 | the page loop returns `PdfText`: every page's text plus a newline in page order, or `""` when opening or any page raised |
| Extract.JoinPagesLength | backend/core/utils.py:22-23 | the output has one added newline per page and nothing else |
| Extract.JoinPagesPage | backend/core/utils.py:22-23 | page `i`'s text and its newline follow the output for the pages before it |
| Extract.JoinPagesEnds | backend/core/utils.py:21-24 | a document with no pages gives `""`; otherwise the output ends with a newline |
| Extract.PdfTextOfPages | backend/core/utils.py:20-27 | readable pages appear in page order; one failing page discards the whole document |
| Extract.FailuresDegradeToEmpty | backend/core/utils.py:25-35 | unreadable PDF and text files yield `""` instead of raising |
| Extract.ExtractTextFromFile | backend/core/utils.py:4-16 | the dispatcher returns `ExtractedText`: the chosen reader's result, or `""` |
| SearchIndex.SchemaFlags | backend/core/search.py:10-15 | only `id`, `path` and `title` are stored; `id` alone is unique; `content` is indexed but not stored; `path` is not searchable |
| SearchIndex.StoredFieldsFollowSchema | backend/core/search.py:10-15 | a hit exposes exactly the stored fields, with the document's values, never `content` |
| SearchIndex.GetIndexProperties | backend/core/search.py:19-25 | after `get_index` an index exists; an existing one is opened unchanged; a new one is empty; a second call only opens |
| SearchIndex.IndexStore.GetIndex | backend/core/search.py:19-25 | the three-way create-or-open decision, as `GetIndexSpec` |
| SearchIndex.Upsert | backend/core/search.py:39-44 | `update_document` leaves the new document and the documents under other ids, and nothing else, and adds at most one document |
| SearchIndex.UpsertWithId | backend/core/search.py:39-44 | after `update_document`, the new document is the only one under its id; other ids keep their documents in order |
| SearchIndex.UpsertKeepsUniqueIds | backend/core/search.py:11 | with `id` unique, upserts keep at most one live document per id |
| SearchIndex.UpsertIdempotent | backend/core/search.py:39-44 | upserting the same document twice equals upserting it once |
| SearchIndex.UpsertPresent | backend/core/search.py:39-44 | upserting the document already live under its id leaves the same document under every id |
| SearchIndex.IndexFileResult | backend/core/search.py:27-44 | after `index_file(f)` exactly one document has id `str(f.id)`: path `f.path`, title `f.name`, content `f.name` plus the placeholder; every other id is unchanged; the index stays well formed |
| SearchIndex.IndexFileIdempotent | backend/core/search.py:39-45 | indexing the same row twice gives the index of indexing it once |
| SearchIndex.IndexStore.IndexFile | backend/core/search.py:27-45 | the in-place update is `IndexFileSpec` and keeps the index well formed |
| Signals.UpdateIndex | backend/core/signals.py:6-9 | the receiver applies `index_file` once to the saved row |
| Catalog.UpdateOrCreateRows | backend/core/ingest.py:34-41 | `update_or_create` adds at most one row, and adds one exactly when it reports a creation; when `get` raises, nothing is written and two or more rows are reported; otherwise the reported id names a row holding the new values |
| Catalog.UpdateOrCreateResult | backend/core/ingest.py:34-41 | with at most one row under the path, exactly one row holds it afterwards, with the new name, type and size, and the reported id is its id; with several rows `get` raises, reporting their count, and nothing is written |
| Catalog.UpdateOrCreateFrame | backend/core/ingest.py:34-41 | rows under other paths keep position and contents, no row changes its path, at most one row is added |
| Catalog.UpdateOrCreateIdempotent | backend/core/ingest.py:34-41 | repeating `update_or_create` with the same values writes nothing new |
| Catalog.SaveIndexesSavedRow | backend/core/signals.py:6-9 | a successful save leaves exactly one live index document for the saved row, keyed by its id; a save that raised changes nothing |
| Catalog.SaveFrame | backend/core/ingest.py:34-41 | a save writes only rows under its path and only the index document under such a row's id |
| Catalog.SaveUnchanged | backend/core/ingest.py:34-41 | saving the values the sole row already holds, with its document already indexed, changes no row and leaves the same documents |
| Catalog.CreateTwiceDuplicatesPath | backend/core/models.py:4 | `create` does not look for an existing row; two creates under one path make `update_or_create` on that path raise |
| Catalog.FileTable.UpdateOrCreate | backend/core/ingest.py:34-41 | the in-place save followed by the receiver is `SaveSpec` |
| Catalog.FileTable.Create | backend/core/views.py:37-42 | the in-place create followed by the receiver is `CreateSpec` |
| Ingest.IngestDirectory | backend/core/ingest.py:4-55 | the loop leaves catalog and index as `IngestSpec` says and returns its count and errors, or reports a missing directory |
| Ingest.IngestEntry | backend/core/ingest.py:19-51 | one inner iteration is `Step` |
| Ingest.SaveEntry | backend/core/ingest.py:26-47 | the `try` block for a file whose stat succeeded saves it and counts it, or records the `get` error, as `Step` says |
| Ingest.IngestFileType | backend/core/ingest.py:38 | the ingestor's file type holds no dot and no upper-case letter |
| Ingest.MultipleMessage | backend/core/ingest.py:49-51 | the text of `MultipleObjectsReturned`: below 21 rows the count can be read back from it; from 21 rows on it says `more than 20` |
| Ingest.StepBalance | backend/core/ingest.py:19-51 | one walked file leaves `count + len(errors)` unchanged when hidden and raises it by one otherwise; count never drops; earlier errors stay in place |
| Ingest.IngestFileTypeOfExtension | backend/core/ingest.py:30-38 | the file type is the extension without its dot, lower-cased; it is empty exactly when there is no extension or a bare dot |
| Ingest.ScanIgnoresHidden | backend/core/ingest.py:23-24 | hidden files never matter: the scan equals the scan with them removed |
| Ingest.InsideHiddenDirectory | backend/core/ingest.py:18-24 | a non-hidden file inside a hidden directory is still walked and is counted or reported |
| Ingest.StepOutcome | backend/core/ingest.py:26-51 | one step counts the file or appends one error, as `EntryOutcome` says |
| Ingest.StepKeepsConflicts | backend/core/ingest.py:34-41 | a step never changes which paths make `get` raise, nor the reported count |
| Ingest.ScanOutcomes | backend/core/ingest.py:15-53 | the returned count is the saved files and the errors are one message per failing file in visit order, decided by the catalog as it was at the start |
| Ingest.OutcomesCoverNonHidden | backend/core/ingest.py:26-51 | every non-hidden file yields exactly one of a count or an error |
| Ingest.CountPlusErrors | backend/core/ingest.py:15-55 | `count + len(errors)` is the number of non-hidden files walked |
| Ingest.ErrorsAreStatFailures | backend/core/ingest.py:49-51 | with no duplicated paths in the catalog, the errors are exactly the failed stats as `Error processing <name>: <reason>`, in visit order |
| Ingest.ErrorsAccumulate | backend/core/ingest.py:49-51 | earlier errors are kept in place; processing continues past a failure |
| Ingest.StepFrame | backend/core/ingest.py:34-41 | one step writes only rows and index documents under the walked file's path |
| Ingest.ScanFrame | backend/core/ingest.py:18-55 | rows whose path is not walked keep their contents and index documents; no row is deleted or moves; new rows carry walked paths |
| Ingest.ScanKeepsValidIndex | backend/core/ingest.py:18-55 | the scan keeps the index well formed |
| Ingest.IngestedFileRow | backend/core/ingest.py:28-41 | a saved file's path is held by one row with the file name, the stat size and the derived type, indexed under its id |
| Ingest.StepSettles | backend/core/ingest.py:34-41 | after processing a file, the catalog and index already reflect its save |
| Ingest.StepKeepsSettled | backend/core/ingest.py:34-41 | processing a file under another path does not undo that |
| Ingest.ScanSettles | backend/core/ingest.py:18-41 | after a scan over distinct paths, every walked file is reflected |
| Ingest.StepOnSettled | backend/core/ingest.py:34-41 | re-processing a reflected file changes no row and no document |
| Ingest.ScanOnSettled | backend/core/ingest.py:18-41 | a scan over reflected files changes no row and no document |
| Ingest.IngestIdempotent | backend/core/ingest.py:18-41 | re-running on an unchanged tree creates no row, changes no row, keeps the same document under every id, and returns the same count and errors |
| Views.SearchFiles | backend/core/views.py:51-74 | an absent or empty `q` answers 400 and leaves the index alone; otherwise `get_index` runs and the answer is 200 with `SearchRecords` |
| Views.SearchRecordsAreRankedHits | backend/core/views.py:61-72 | at most twenty records, the first twenty ranked hits in ranked order, each with its hit's id, title and path and the highlighter's snippet |
| Views.RecordIgnoresContent | backend/core/views.py:64-72 | no part of a record, the snippet included, depends on a hit's content |
| Views.Hits | backend/core/views.py:62 | the hits are the ranking's first `min(20, n)` entries |
| Views.UploadFileType | backend/core/views.py:41 | the upload's file type has no dot; it is the extension without its dot, case kept, or empty with no extension |
| Views.UploadTypeLowersToIngestType | backend/core/views.py:41 | lower-casing the upload's file type gives the ingestor's |
| Views.UploadKeepsCase | backend/core/views.py:41 | `a.PDF` is typed `PDF` on upload and `pdf` on ingest |
| Views.UploadPathEndsWithName | backend/core/views.py:24-25 | the saved path ends in the uploaded name and has its extension |
| Views.UploadFile | backend/core/views.py:17-45 | a missing file answers 400 and changes nothing; otherwise one row is created, indexed, and returned with 201 |
| Views.UploadAlwaysAddsRow | backend/core/views.py:37-42 | every upload appends a row, even under a path already catalogued |
| Views.IngestResponse | backend/core/views.py:94-108 | 400 exactly for a missing path; otherwise 200, 404 or 500 exactly as the call returned, raised `FileNotFoundError`, or raised something else; count, errors and message pass through |
| Views.IngestPost | backend/core/views.py:92-108 | a missing path answers 400 and changes nothing; otherwise the ingest runs as `IngestSpec` and its outcome is mapped |
| Views.MissingDirectoryAnswers404 | backend/core/ingest.py:9-10 | a path that is not a directory leaves catalog and index as they were and answers 404 |

## Left out

- The frontend (`frontend/src`), `OpenFileView`, `PickDirectoryView` and `FileListView` are not modelled. They cover UI, process spawning and listing.
- The management command `backend/core/management/commands/ingest_files.py` is not modelled. It only prints the result of `ingest_directory`.
- The directory walk itself, `os.stat` and `os.path.isdir` are not executed. Their results are inputs: a sequence of walk entries in visit order, and a flag. Walk order, unreadable subdirectories and symlink handling are therefore not modelled.
- Ingest.IngestIdempotent: assumes that the walk reports each joined path at most once, as `os.walk` does.
- Ingest.IngestIdempotent: states that the second run keeps the same document under every id, not that the index sequence is identical. `update_document` re-adds a document at the end of the live sequence.
- Ingest.IngestedFileRow: assumes distinct walked paths and at most one catalog row under the file's path beforehand. With two or more rows the file is reported as an error instead (`Ingest.ScanOutcomes`).
- Exceptions other than a failed stat and `MultipleObjectsReturned` inside the ingest loop are not modelled. This includes database errors and an index commit failure raised through the receiver; the source would turn each of them into one more error string.
- The 500 branch of `IngestView.post` is modelled in `Views.IngestResponse`, but no modelled ingest reaches it, for the same reason.
- The stat error text, such as `[Errno 2] ...`, is an input string. `str(MultipleObjectsReturned)` follows Django's wording and its cap of 21 fetched rows.
- Progress output to `stdout` in `ingest_directory` and the `print` calls in `utils.py` are not modelled.
- Text.Lower: models `str.lower` on ASCII letters only. Non-ASCII case mapping is not modelled.
- PDF page-text extraction and UTF-8 decoding with dropped bytes are not modelled. Their outcomes are inputs (`Extract.PdfSource`, `Extract.TextSource`).
- Whoosh's query parsing, scoring and highlighting are not modelled. The ranking is a function of the live documents and the query. The snippet is a function of the hit's stored fields and the query, which is all a hit exposes. Whoosh's `Hit.highlights("content")` needs the field's text, and `content` is not stored, so on a non-empty result the source may well raise instead of answering 200. The model does not capture that: it answers 200 with whatever the highlighter function returns for the stored fields.
- The ranking function is not required to return only live documents of the index. The model promises records for whatever it returns.
- Whoosh's on-disk segments, locking and a corrupt index are not modelled.
- Writing the uploaded bytes to disk and creating `MEDIA_ROOT` are not modelled. Only the row that `create` receives is.
- Django strips directory parts from an uploaded file name. `Views.UploadPathEndsWithName` takes that as its premise.
- A non-string `path` in the ingest request body is not modelled.
- Timestamps (`created_at`, `indexed_at`) and the serializer's output format are not modelled. The upload answer carries the new row and its id.
- Ids are the row positions plus one. Ids left by rows deleted outside the core are not modelled.
- File sizes and ids are unbounded naturals. The 64-bit bound of `BigIntegerField` and the field-length limits in `backend/core/models.py` are not modelled.
- `backend/core/tests.py:44-50` expects the stored `content` to contain the file text. The schema does not store `content` (`SearchIndex.StoredFieldsFollowSchema`), and `index_file` writes only the placeholder. That expectation is not modelled.
- `index_file` does not call the text extractor. The two are modelled separately, as the code has them.
