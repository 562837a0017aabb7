/** The two catalog writes the core performs through the `File` manager:
    `update_or_create(path=..., defaults=...)` (the ingestor) and
    `create(...)` (the upload handler). Each successful save fires the
    `post_save` receiver, so every write here is paired with one
    `index_file` call.

    `File.path` carries no uniqueness constraint, so the table may hold
    several rows with one path; `update_or_create` looks the path up with
    `get`, which raises `MultipleObjectsReturned` in that case. */
module Catalog {
  import opened Models
  import opened SearchIndex
  import Signals

  function PathsOf(rows: seq<FileRecord>): (r: seq<string>)
    ensures |r| == |rows|
    ensures forall i :: 0 <= i < |rows| ==> r[i] == rows[i].path
  {
    seq(|rows|, i requires 0 <= i < |rows| => rows[i].path)
  }

  /** How many rows carry path `p`. */
  function PathCount(rows: seq<FileRecord>, p: string): nat {
    multiset(PathsOf(rows))[p]
  }

  /** The first row whose path is `p`. */
  function FindPath(rows: seq<FileRecord>, p: string): (i: nat)
    requires p in PathsOf(rows)
    ensures i < |rows| && rows[i].path == p
    ensures forall j :: 0 <= j < i ==> rows[j].path != p
  {
    if rows[0].path == p then 0
    else
      assert PathsOf(rows[1..]) == PathsOf(rows)[1..];
      1 + FindPath(rows[1..], p)
  }

  lemma TwoRowsSamePath(rows: seq<FileRecord>, p: string, j: nat, k: nat)
    requires j < k < |rows| && rows[j].path == p && rows[k].path == p
    ensures PathCount(rows, p) >= 2
  {
    var s := PathsOf(rows);
    assert s == s[..j] + [s[j]] + s[j + 1..k] + [s[k]] + s[k + 1..];
  }

  /** With a single row under `p`, that row is the one `FindPath` finds. */
  lemma SoleRow(rows: seq<FileRecord>, p: string, j: nat)
    requires PathCount(rows, p) == 1 && j < |rows| && rows[j].path == p
    ensures p in PathsOf(rows) && FindPath(rows, p) == j
  {
    assert p in multiset(PathsOf(rows));
    var i := FindPath(rows, p);
    if i < j {
      TwoRowsSamePath(rows, p, i, j);
    }
  }

  /** What `update_or_create` reports. */
  datatype SaveOutcome = Created(id: nat) | Updated(id: nat) | MultipleFound(count: nat)

  /** The rows after `update_or_create(path=path, defaults={name, file_type,
      size})`: a new row when no row has the path, that row overwritten when
      exactly one has it, nothing written when several have it. */
  function UpdateOrCreateRows(rows: seq<FileRecord>, path: string, name: string, fileType: string, size: nat)
    : (r: (seq<FileRecord>, SaveOutcome))
    ensures |rows| <= |r.0| <= |rows| + 1
    ensures r.1.Created? <==> |r.0| == |rows| + 1
    ensures r.1.MultipleFound? ==> r.0 == rows && r.1.count >= 2
    ensures !r.1.MultipleFound? ==> 1 <= r.1.id <= |r.0| && r.0[r.1.id - 1] == FileRecord(path, name, fileType, size)
  {
    var row := FileRecord(path, name, fileType, size);
    var n := PathCount(rows, path);
    if n == 0 then (rows + [row], Created(IdAt(|rows|)))
    else if n == 1 then
      assert path in multiset(PathsOf(rows));
      var i := FindPath(rows, path);
      (rows[i := row], Updated(IdAt(i)))
    else (rows, MultipleFound(n))
  }

  lemma PathsOfAppend(rows: seq<FileRecord>, row: FileRecord)
    ensures PathsOf(rows + [row]) == PathsOf(rows) + [row.path]
  {
  }

  lemma PathsOfUpdate(rows: seq<FileRecord>, i: nat, row: FileRecord)
    requires i < |rows| && rows[i].path == row.path
    ensures PathsOf(rows[i := row]) == PathsOf(rows)
  {
  }

  /** `update_or_create` touches only rows with the given path: every other
      row keeps its position and contents, no row changes its path, and only
      the given path's row count can change. */
  lemma UpdateOrCreateFrame(rows: seq<FileRecord>, path: string, name: string, fileType: string, size: nat, q: string)
    ensures var (rows2, _) := UpdateOrCreateRows(rows, path, name, fileType, size);
            && |rows| <= |rows2| <= |rows| + 1
            && (forall j :: 0 <= j < |rows| ==> rows2[j].path == rows[j].path)
            && (forall j :: 0 <= j < |rows| && rows[j].path != path ==> rows2[j] == rows[j])
            && (forall j :: |rows| <= j < |rows2| ==> rows2[j].path == path)
            && (q != path ==> PathCount(rows2, q) == PathCount(rows, q))
  {
    var row := FileRecord(path, name, fileType, size);
    var n := PathCount(rows, path);
    if n == 0 {
      PathsOfAppend(rows, row);
    } else if n == 1 {
      assert path in multiset(PathsOf(rows));
      PathsOfUpdate(rows, FindPath(rows, path), row);
    }
  }

  /** After `update_or_create` on a path held by at most one row, exactly one
      row holds it and it carries the new name, type and size; the reported
      id is that row's. With several rows under the path, `get` raises and
      the count of them is reported. */
  lemma UpdateOrCreateResult(rows: seq<FileRecord>, path: string, name: string, fileType: string, size: nat)
    ensures var (rows2, out) := UpdateOrCreateRows(rows, path, name, fileType, size);
            var n := PathCount(rows, path);
            && (n == 0 <==> out.Created?)
            && (n == 1 <==> out.Updated?)
            && (n >= 2 <==> out == MultipleFound(n))
            && (n >= 2 ==> rows2 == rows)
            && (n <= 1 ==>
                  && PathCount(rows2, path) == 1
                  && path in PathsOf(rows2)
                  && rows2[FindPath(rows2, path)] == FileRecord(path, name, fileType, size)
                  && out.id == IdAt(FindPath(rows2, path)))
  {
    var row := FileRecord(path, name, fileType, size);
    var (rows2, out) := UpdateOrCreateRows(rows, path, name, fileType, size);
    var n := PathCount(rows, path);
    if n == 0 {
      PathsOfAppend(rows, row);
      SoleRow(rows2, path, |rows|);
    } else if n == 1 {
      assert path in multiset(PathsOf(rows));
      var i := FindPath(rows, path);
      PathsOfUpdate(rows, i, row);
      SoleRow(rows2, path, i);
    }
  }

  /** Repeating `update_or_create` with the same values writes nothing new. */
  lemma UpdateOrCreateIdempotent(rows: seq<FileRecord>, path: string, name: string, fileType: string, size: nat)
    ensures var rows2 := UpdateOrCreateRows(rows, path, name, fileType, size).0;
            UpdateOrCreateRows(rows2, path, name, fileType, size).0 == rows2
  {
    var rows2 := UpdateOrCreateRows(rows, path, name, fileType, size).0;
    UpdateOrCreateResult(rows, path, name, fileType, size);
    UpdateOrCreateResult(rows2, path, name, fileType, size);
  }

  /** `update_or_create` with the values the sole row under `path` already
      holds rewrites that row unchanged and reports it as updated. */
  lemma UpdateOrCreateUnchanged(rows: seq<FileRecord>, path: string, name: string, fileType: string, size: nat)
    requires PathCount(rows, path) == 1 && path in PathsOf(rows)
    requires rows[FindPath(rows, path)] == FileRecord(path, name, fileType, size)
    ensures UpdateOrCreateRows(rows, path, name, fileType, size) == (rows, Updated(IdAt(FindPath(rows, path))))
  {
    var i := FindPath(rows, path);
    assert rows[i := FileRecord(path, name, fileType, size)] == rows;
  }

  /** The catalog table together with the search index it feeds. */
  datatype Store = Store(rows: seq<FileRecord>, index: IndexState)

  /** `update_or_create` followed, when a row was saved, by the `post_save`
      receiver indexing that row. */
  function SaveSpec(st: Store, path: string, name: string, fileType: string, size: nat): (Store, SaveOutcome) {
    var (rows2, out) := UpdateOrCreateRows(st.rows, path, name, fileType, size);
    match out
    case MultipleFound(_) => (st, out)
    case Created(id) => (Store(rows2, IndexFileSpec(st.index, id, path, name)), out)
    case Updated(id) => (Store(rows2, IndexFileSpec(st.index, id, path, name)), out)
  }

  /** A save writes only rows under `path`, and only the index document
      under such a row's id; the index stays well formed. */
  lemma SaveFrame(st: Store, path: string, name: string, fileType: string, size: nat)
    requires ValidState(st.index)
    ensures var st2 := SaveSpec(st, path, name, fileType, size).0;
            var rows, rows2 := st.rows, st2.rows;
            && ValidState(st2.index)
            && |rows| <= |rows2|
            && (forall j :: 0 <= j < |rows| ==> rows2[j].path == rows[j].path)
            && (forall j :: 0 <= j < |rows| && rows[j].path != path ==>
                  && rows2[j] == rows[j]
                  && WithId(st2.index.docs, Text.Decimal(IdAt(j))) == WithId(st.index.docs, Text.Decimal(IdAt(j))))
            && (forall j :: |rows| <= j < |rows2| ==> rows2[j].path == path)
  {
    SaveIndexesSavedRow(st, path, name, fileType, size);
    UpdateOrCreateFrame(st.rows, path, name, fileType, size, path);
    UpdateOrCreateResult(st.rows, path, name, fileType, size);
    var (rows3, out) := UpdateOrCreateRows(st.rows, path, name, fileType, size);
    if !out.MultipleFound? {
      var k := FindPath(rows3, path);
      forall j | 0 <= j < |st.rows| && st.rows[j].path != path
        ensures WithId(SaveSpec(st, path, name, fileType, size).0.index.docs, Text.Decimal(IdAt(j)))
             == WithId(st.index.docs, Text.Decimal(IdAt(j)))
      {
        assert k != j;
        Text.DecimalInjective(IdAt(k), IdAt(j));
        IndexFileResult(st.index, out.id, path, name, Text.Decimal(IdAt(j)));
      }
    }
  }

  /** Saving the values the sole row under `path` already holds, when the
      index already holds that row's document, changes no row and leaves the
      same document under every id. */
  lemma SaveUnchanged(st: Store, path: string, name: string, fileType: string, size: nat)
    requires PathCount(st.rows, path) == 1 && path in PathsOf(st.rows)
    requires st.rows[FindPath(st.rows, path)] == FileRecord(path, name, fileType, size)
    requires st.index.hasIndex && st.index.dirExists
    requires var id := IdAt(FindPath(st.rows, path));
             WithId(st.index.docs, Text.Decimal(id)) == [IndexDocument(id, path, name)]
    ensures var st2 := SaveSpec(st, path, name, fileType, size).0;
            && st2.rows == st.rows
            && st2.index.hasIndex && st2.index.dirExists
            && SameDocuments(st2.index.docs, st.index.docs)
  {
    var id := IdAt(FindPath(st.rows, path));
    var d := IndexDocument(id, path, name);
    UpdateOrCreateUnchanged(st.rows, path, name, fileType, size);
    assert SaveSpec(st, path, name, fileType, size).0 == Store(st.rows, IndexFileSpec(st.index, id, path, name));
    assert IndexFileSpec(st.index, id, path, name).docs == Upsert(st.index.docs, d);
    UpsertPresent(st.index.docs, d);
  }

  /** `File.objects.create(...)` followed by the `post_save` receiver. */
  function CreateSpec(st: Store, row: FileRecord): (Store, nat) {
    var id := IdAt(|st.rows|);
    (Store(st.rows + [row], IndexFileSpec(st.index, id, row.path, row.name)), id)
  }

  /** Every successful save leaves exactly one live index document for the
      saved row, keyed by its id, with the row's path and name; a save that
      raised leaves catalog and index as they were. */
  lemma SaveIndexesSavedRow(st: Store, path: string, name: string, fileType: string, size: nat)
    requires ValidState(st.index)
    ensures var (st2, out) := SaveSpec(st, path, name, fileType, size);
            && ValidState(st2.index)
            && (out.MultipleFound? ==> st2 == st)
            && (!out.MultipleFound? ==>
                  WithId(st2.index.docs, Text.Decimal(out.id)) == [IndexDocument(out.id, path, name)])
  {
    var (rows2, out) := UpdateOrCreateRows(st.rows, path, name, fileType, size);
    if !out.MultipleFound? {
      IndexFileResult(st.index, out.id, path, name, "");
    }
  }

  /** `create` never looks for an existing row: creating twice under one path
      leaves two rows with that path, after which `update_or_create` on that
      path raises instead of saving. */
  lemma CreateTwiceDuplicatesPath(st: Store, row: FileRecord)
    ensures var st2 := CreateSpec(CreateSpec(st, row).0, row).0;
            && PathCount(st2.rows, row.path) == PathCount(st.rows, row.path) + 2
            && UpdateOrCreateRows(st2.rows, row.path, row.name, row.fileType, row.size).1.MultipleFound?
  {
    PathsOfAppend(st.rows, row);
    PathsOfAppend(st.rows + [row], row);
  }

  /** The `File` table. */
  class FileTable {
    var rows: seq<FileRecord>

    constructor (rows: seq<FileRecord>)
      ensures this.rows == rows
    {
      this.rows := rows;
    }

    /** `File.objects.update_or_create(path=path, defaults=...)`, with the
        `post_save` receiver run on a successful save. */
    method UpdateOrCreate(path: string, name: string, fileType: string, size: nat, ix: IndexStore)
      returns (out: SaveOutcome)
      requires ix.Valid()
      modifies this, ix
      ensures ix.Valid()
      ensures (Store(rows, ix.State()), out)
           == SaveSpec(Store(old(rows), old(ix.State())), path, name, fileType, size)
    {
      var row := FileRecord(path, name, fileType, size);
      var n := PathCount(rows, path);
      if n == 0 {
        out := Created(IdAt(|rows|));
        rows := rows + [row];
      } else if n == 1 {
        assert path in multiset(PathsOf(rows));
        var i := FindPath(rows, path);
        out := Updated(IdAt(i));
        rows := rows[i := row];
      } else {
        return MultipleFound(n);
      }
      Signals.UpdateIndex(ix, out.id, row);
    }

    /** `File.objects.create(...)`, with the `post_save` receiver. */
    method Create(row: FileRecord, ix: IndexStore) returns (id: nat)
      requires ix.Valid()
      modifies this, ix
      ensures ix.Valid()
      ensures (Store(rows, ix.State()), id) == CreateSpec(Store(old(rows), old(ix.State())), row)
    {
      id := IdAt(|rows|);
      rows := rows + [row];
      Signals.UpdateIndex(ix, id, row);
    }
  }
}
