/** The directory ingestor of backend/core/ingest.py.

    `os.walk` is not modelled: the files it reports reach the model as a
    sequence of `(root, filename, stat outcome)` entries in visit order, and
    whether the start path is a directory as a flag. Each entry that is not
    hidden is either saved with `update_or_create` (which also indexes the row,
    through the `post_save` receiver) and counted, or turned into one error
    string. `Scan` is that loop as a function; `IngestDirectory` is the loop
    itself, proved to compute it. */
module Ingest {
  import opened Text
  import opened PosixPath
  import opened Models
  import opened SearchIndex
  import opened Catalog

  /** What `os.stat(file_path)` yields: the size, or the message of the
      exception it raised. */
  datatype StatResult = StatOk(size: nat) | StatFailed(message: string)

  /** One file reported by `os.walk`: its directory, its name, and what
      statting it yields. */
  datatype WalkEntry = WalkEntry(root: string, filename: string, stat: StatResult)

  /** `os.path.join(root, filename)`, the catalog key. */
  function FilePath(e: WalkEntry): string {
    Join(e.root, e.filename)
  }

  /** `filename.startswith('.')`. */
  predicate IsHidden(filename: string) {
    StartsWith(filename, '.')
  }

  /** `os.path.splitext(filename)[1].lstrip('.').lower()`: never a dot, never
      an upper-case letter. */
  function IngestFileType(filename: string): (r: string)
    ensures '.' !in r
    ensures forall i :: 0 <= i < |r| ==> !IsUpper(r[i])
  {
    ExtTailDotFree(filename);
    Lower(LStrip(Ext(filename), '.'))
  }

  /** `lstrip('.')` on an extension drops exactly its one leading dot. */
  lemma StripExtDot(filename: string)
    ensures var e := Ext(filename);
            LStrip(e, '.') == if e == "" then "" else e[1..]
  {
    var e := Ext(filename);
    if e != "" {
      assert e[0] == '.';
      if |e| > 1 {
        assert e[1..][0] == e[1];
      }
      assert !StartsWith(e[1..], '.');
    }
  }

  /** What is left of an extension after `lstrip('.')` holds no dot, and
      lower-casing adds none. */
  lemma ExtTailDotFree(filename: string)
    ensures '.' !in LStrip(Ext(filename), '.')
    ensures '.' !in Lower(LStrip(Ext(filename), '.'))
  {
    StripExtDot(filename);
    LowerKeepsAbsent(LStrip(Ext(filename), '.'), '.');
  }

  /** The ingestor's file type is the extension without its dot, lower-cased,
      and empty exactly when the name has no extension or a bare dot one. */
  lemma IngestFileTypeOfExtension(filename: string)
    ensures var t := IngestFileType(filename);
            && (t == "" <==> !HasExtension(filename) || |Ext(filename)| == 1)
            && (HasExtension(filename) ==> "." + t == Lower(Ext(filename)))
  {
    var e := Ext(filename);
    StripExtDot(filename);
    if e != "" {
      LowerAfterDot(e);
    }
  }

  lemma LowerAfterDot(e: string)
    requires StartsWith(e, '.')
    ensures "." + Lower(e[1..]) == Lower(e)
  {
    assert e == "." + e[1..];
    LowerAppend(".", e[1..]);
  }

  const ERROR_PREFIX: string := "Error processing "

  /** `f'Error processing {filename}: {e}'`. */
  function ErrorMessage(filename: string, reason: string): string {
    ERROR_PREFIX + filename + ": " + reason
  }

  /** `get` fetches at most this many rows when reporting duplicates. */
  const MAX_GET_RESULTS: nat := 21

  const MULTIPLE_PREFIX: string := "get() returned more than one File -- it returned "

  /** `str(MultipleObjectsReturned)` as raised by `File.objects.get` when `n`
      rows match: the count itself, or "more than 20" once the fetch cap is
      reached. */
  function MultipleMessage(n: nat): (r: string)
    ensures |MULTIPLE_PREFIX| < |r| && r[..|MULTIPLE_PREFIX|] == MULTIPLE_PREFIX && r[|r| - 1] == '!'
    ensures n < MAX_GET_RESULTS ==>
              && (forall i :: |MULTIPLE_PREFIX| <= i < |r| - 1 ==> IsDigit(r[i]))
              && ParseDecimal(r[|MULTIPLE_PREFIX|..|r| - 1]) == n
    ensures n >= MAX_GET_RESULTS ==> r[|MULTIPLE_PREFIX|..|r| - 1] == "more than 20"
  {
    var count := if n < MAX_GET_RESULTS then Decimal(n) else "more than " + Decimal(MAX_GET_RESULTS - 1);
    var r := MULTIPLE_PREFIX + count + "!";
    assert r[..|MULTIPLE_PREFIX|] == MULTIPLE_PREFIX;
    assert r[|MULTIPLE_PREFIX|..|r| - 1] == count;
    assert Decimal(MAX_GET_RESULTS - 1) == "20";
    ParseDecimalRoundTrip(n);
    r
  }

  /** The loop's variables: the catalog with its index, `count` and `errors`. */
  datatype ScanState = ScanState(store: Store, count: nat, errors: seq<string>)

  /** One iteration of the inner loop of `ingest_directory`. */
  function Step(st: ScanState, e: WalkEntry): ScanState {
    if IsHidden(e.filename) then st
    else
      match e.stat
      case StatFailed(msg) =>
        st.(errors := st.errors + [ErrorMessage(e.filename, msg)])
      case StatOk(size) =>
        var saved := SaveSpec(st.store, FilePath(e), e.filename, IngestFileType(e.filename), size);
        if saved.1.MultipleFound? then
          st.(errors := st.errors + [ErrorMessage(e.filename, MultipleMessage(saved.1.count))])
        else
          ScanState(saved.0, st.count + 1, st.errors)
  }

  /** A walked file is either skipped, when hidden, or adds exactly one to
      `count + len(errors)`; the count never drops and earlier errors stay. */
  lemma StepBalance(st: ScanState, e: WalkEntry)
    ensures var r := Step(st, e);
            && r.count + |r.errors| == st.count + |st.errors| + (if IsHidden(e.filename) then 0 else 1)
            && st.count <= r.count
            && |st.errors| <= |r.errors| && r.errors[..|st.errors|] == st.errors
  {
    if !IsHidden(e.filename) && e.stat.StatOk? {
      StepOfStatOk(st, e);
    }
  }

  /** The loop over every walked file, in visit order. */
  function Scan(st: ScanState, tree: seq<WalkEntry>): ScanState {
    if tree == [] then st else Step(Scan(st, tree[..|tree| - 1]), tree[|tree| - 1])
  }

  /** What `ingest_directory` returns or raises. */
  datatype IngestResult = Ingested(count: nat, errors: seq<string>) | DirectoryNotFound(message: string)

  /** `ingest_directory(directory)`: the new catalog and index, and the result. */
  function IngestSpec(isDir: bool, directory: string, store: Store, tree: seq<WalkEntry>): (Store, IngestResult) {
    if !isDir then (store, DirectoryNotFound("Directory not found: " + directory))
    else
      var st := Scan(ScanState(store, 0, []), tree);
      (st.store, Ingested(st.count, st.errors))
  }

  /** One pass of the inner loop: skip a hidden file, record a failed stat,
      or save the file and count it unless `get` raised. */
  method IngestEntry(e: WalkEntry, table: FileTable, ix: IndexStore, count: nat, errors: seq<string>)
    returns (count2: nat, errors2: seq<string>)
    requires ix.Valid()
    modifies table, ix
    ensures ix.Valid()
    ensures ScanState(Store(table.rows, ix.State()), count2, errors2)
         == Step(ScanState(Store(old(table.rows), old(ix.State())), count, errors), e)
  {
    if IsHidden(e.filename) {
      return count, errors;
    }
    match e.stat
    case StatFailed(msg) =>
      count2, errors2 := count, errors + [ErrorMessage(e.filename, msg)];
    case StatOk(size) =>
      count2, errors2 := SaveEntry(e, table, ix, count, errors);
  }

  /** The `try` block for a file whose stat succeeded: save it, and count it
      unless `get` raised, in which case record the error. */
  method SaveEntry(e: WalkEntry, table: FileTable, ix: IndexStore, count: nat, errors: seq<string>)
    returns (count2: nat, errors2: seq<string>)
    requires ix.Valid() && !IsHidden(e.filename) && e.stat.StatOk?
    modifies table, ix
    ensures ix.Valid()
    ensures ScanState(Store(table.rows, ix.State()), count2, errors2)
         == Step(ScanState(Store(old(table.rows), old(ix.State())), count, errors), e)
  {
    ghost var st := ScanState(Store(table.rows, ix.State()), count, errors);
    StepOfStatOk(st, e);
    var out := table.UpdateOrCreate(FilePath(e), e.filename, IngestFileType(e.filename), e.stat.size, ix);
    if out.MultipleFound? {
      count2, errors2 := count, errors + [ErrorMessage(e.filename, MultipleMessage(out.count))];
    } else {
      count2, errors2 := count + 1, errors;
    }
  }

  /** `Step` on a file whose stat succeeded, spelled out for the loop body. */
  lemma StepOfStatOk(st: ScanState, e: WalkEntry)
    requires !IsHidden(e.filename) && e.stat.StatOk?
    ensures var saved := SaveSpec(st.store, FilePath(e), e.filename, IngestFileType(e.filename), e.stat.size);
            Step(st, e) == if saved.1.MultipleFound?
                           then st.(errors := st.errors + [ErrorMessage(e.filename, MultipleMessage(saved.1.count))])
                           else ScanState(saved.0, st.count + 1, st.errors)
  {
    assert e.stat == StatOk(e.stat.size);
  }

  /** `ingest_directory(directory)`, given whether `directory` is a directory
      and the files `os.walk(directory)` reports. */
  method IngestDirectory(directory: string, isDir: bool, tree: seq<WalkEntry>, table: FileTable, ix: IndexStore)
    returns (r: IngestResult)
    requires ix.Valid()
    modifies table, ix
    ensures ix.Valid()
    ensures (Store(table.rows, ix.State()), r)
         == IngestSpec(isDir, directory, Store(old(table.rows), old(ix.State())), tree)
  {
    if !isDir {
      return DirectoryNotFound("Directory not found: " + directory);
    }
    ghost var init := ScanState(Store(table.rows, ix.State()), 0, []);
    var count := 0;
    var errors := [];
    var i := 0;
    while i < |tree|
      invariant 0 <= i <= |tree|
      invariant ix.Valid()
      invariant ScanState(Store(table.rows, ix.State()), count, errors) == Scan(init, tree[..i])
    {
      assert tree[..i + 1][..i] == tree[..i];
      count, errors := IngestEntry(tree[i], table, ix, count, errors);
      i := i + 1;
    }
    assert tree[..i] == tree;
    return Ingested(count, errors);
  }

  // ---------------------------------------------------------------------
  // Hidden files

  /** The walked files whose name does not start with a dot, in order. */
  function NonHidden(tree: seq<WalkEntry>): (r: seq<WalkEntry>)
    ensures |r| <= |tree|
    ensures forall e :: e in r <==> e in tree && !IsHidden(e.filename)
  {
    if tree == [] then []
    else
      var last := tree[|tree| - 1];
      NonHidden(tree[..|tree| - 1]) + (if IsHidden(last.filename) then [] else [last])
  }

  /** A hidden file is never catalogued, indexed, counted or reported: the
      scan gives the same result with every hidden file taken out. The test is
      on the file name only, so files inside hidden directories stay in. */
  lemma {:induction false} ScanIgnoresHidden(st: ScanState, tree: seq<WalkEntry>)
    ensures Scan(st, tree) == Scan(st, NonHidden(tree))
  {
    if tree != [] {
      var init, last := tree[..|tree| - 1], tree[|tree| - 1];
      ScanIgnoresHidden(st, init);
      var mid := Scan(st, init);
      assert Scan(st, tree) == Step(mid, last);
      if IsHidden(last.filename) {
        assert NonHidden(tree) == NonHidden(init) + [];
        assert NonHidden(tree) == NonHidden(init);
      } else {
        var nh := NonHidden(init) + [last];
        assert NonHidden(tree) == nh;
        assert nh[..|nh| - 1] == NonHidden(init);
        assert Scan(st, nh) == Step(Scan(st, NonHidden(init)), last);
      }
    }
  }

  /** Only the file name is tested: a file inside a hidden directory is still
      walked, and it is counted or reported like any other. The hidden
      directory plays no part in the proof, which is the point: nothing in
      the scan looks at `root` when deciding whether to skip. */
  lemma InsideHiddenDirectory(tree: seq<WalkEntry>, e: WalkEntry, rows: seq<FileRecord>)
    requires e in tree && !IsHidden(e.filename) && IsHidden(BaseName(e.root))
    ensures e in NonHidden(tree)
    ensures EntryOutcome(rows, e) != Skipped
  {
  }

  // ---------------------------------------------------------------------
  // Counting and errors

  /** `n` rows under one path make `get` raise and report `n`; fewer do not. */
  function Conflict(rows: seq<FileRecord>, p: string): nat {
    if PathCount(rows, p) >= 2 then PathCount(rows, p) else 0
  }

  ghost predicate SameConflicts(a: seq<FileRecord>, b: seq<FileRecord>) {
    forall p :: Conflict(a, p) == Conflict(b, p)
  }

  /** What happens to one walked file, given the rows the scan started from. */
  datatype Outcome = Skipped | Failed(message: string) | Saved

  function EntryOutcome(rows: seq<FileRecord>, e: WalkEntry): Outcome {
    if IsHidden(e.filename) then Skipped
    else
      match e.stat
      case StatFailed(msg) => Failed(ErrorMessage(e.filename, msg))
      case StatOk(_) =>
        var n := Conflict(rows, FilePath(e));
        if n >= 2 then Failed(ErrorMessage(e.filename, MultipleMessage(n))) else Saved
  }

  /** The number of walked files that are saved. */
  function SavedIn(rows: seq<FileRecord>, tree: seq<WalkEntry>): nat {
    if tree == [] then 0
    else SavedIn(rows, tree[..|tree| - 1]) + (if EntryOutcome(rows, tree[|tree| - 1]).Saved? then 1 else 0)
  }

  /** The error strings of the walked files that fail, in visit order. */
  function ErrorsIn(rows: seq<FileRecord>, tree: seq<WalkEntry>): seq<string> {
    if tree == [] then []
    else
      var o := EntryOutcome(rows, tree[|tree| - 1]);
      ErrorsIn(rows, tree[..|tree| - 1]) + (if o.Failed? then [o.message] else [])
  }

  /** A step never changes which paths make `get` raise, nor with what count:
      a saved path has one row afterwards, a raising path is not written. */
  lemma StepKeepsConflicts(st: ScanState, e: WalkEntry, p: string)
    ensures Conflict(Step(st, e).store.rows, p) == Conflict(st.store.rows, p)
  {
    if !IsHidden(e.filename) && e.stat.StatOk? {
      var path := FilePath(e);
      UpdateOrCreateFrame(st.store.rows, path, e.filename, IngestFileType(e.filename), e.stat.size, p);
      UpdateOrCreateResult(st.store.rows, path, e.filename, IngestFileType(e.filename), e.stat.size);
    }
  }

  lemma {:induction false} ScanKeepsConflicts(st: ScanState, tree: seq<WalkEntry>)
    ensures SameConflicts(Scan(st, tree).store.rows, st.store.rows)
  {
    if tree != [] {
      var init, last := tree[..|tree| - 1], tree[|tree| - 1];
      ScanKeepsConflicts(st, init);
      forall p ensures Conflict(Scan(st, tree).store.rows, p) == Conflict(st.store.rows, p) {
        StepKeepsConflicts(Scan(st, init), last, p);
      }
    }
  }

  /** A step leaves the catalog and index as `SaveSpec` does for a file it
      saves (whether or not `get` raised), and untouched otherwise. */
  lemma StepStore(st: ScanState, e: WalkEntry)
    ensures Step(st, e).store
         == if IsHidden(e.filename) || e.stat.StatFailed? then st.store
            else SaveSpec(st.store, FilePath(e), e.filename, IngestFileType(e.filename), e.stat.size).0
  {
  }

  /** One step counts the file or appends its error, as `EntryOutcome` says
      for the rows the step starts from. */
  lemma StepOutcome(st: ScanState, e: WalkEntry)
    ensures var o := EntryOutcome(st.store.rows, e);
            && Step(st, e).count == st.count + (if o.Saved? then 1 else 0)
            && Step(st, e).errors == st.errors + (if o.Failed? then [o.message] else [])
  {
    if IsHidden(e.filename) {
      assert Step(st, e) == st;
    } else if e.stat.StatFailed? {
      assert Step(st, e) == st.(errors := st.errors + [ErrorMessage(e.filename, e.stat.message)]);
    } else {
      StepOutcomeOfSave(st, e);
    }
  }

  /** `StepOutcome` for a file whose stat succeeded: `get` raising is the only
      way it can fail. */
  lemma StepOutcomeOfSave(st: ScanState, e: WalkEntry)
    requires !IsHidden(e.filename) && e.stat.StatOk?
    ensures var o := EntryOutcome(st.store.rows, e);
            && Step(st, e).count == st.count + (if o.Saved? then 1 else 0)
            && Step(st, e).errors == st.errors + (if o.Failed? then [o.message] else [])
  {
    var path, t := FilePath(e), IngestFileType(e.filename);
    var out := SaveSpec(st.store, path, e.filename, t, e.stat.size).1;
    assert Step(st, e).count == st.count + (if out.MultipleFound? then 0 else 1);
    assert Step(st, e).errors
        == st.errors + (if out.MultipleFound? then [ErrorMessage(e.filename, MultipleMessage(out.count))] else []);
    SaveOutcomeFollowsConflict(st.store, path, e.filename, t, e.stat.size);
  }

  /** Whether a save raises, and with what count, is `Conflict` of its path. */
  lemma SaveOutcomeFollowsConflict(store: Store, path: string, name: string, fileType: string, size: nat)
    ensures var out := SaveSpec(store, path, name, fileType, size).1;
            && (out.MultipleFound? <==> Conflict(store.rows, path) >= 2)
            && (out.MultipleFound? ==> out.count == Conflict(store.rows, path))
  {
    UpdateOrCreateResult(store.rows, path, name, fileType, size);
  }

  /** The count and the errors `ingest_directory` returns: the saved files,
      and one error string per failing file in visit order, each decided by
      the catalog as it was when the scan started. */
  lemma {:induction false} ScanOutcomes(st: ScanState, tree: seq<WalkEntry>)
    ensures Scan(st, tree).count == st.count + SavedIn(st.store.rows, tree)
    ensures Scan(st, tree).errors == st.errors + ErrorsIn(st.store.rows, tree)
  {
    if tree != [] {
      var init, last := tree[..|tree| - 1], tree[|tree| - 1];
      ScanOutcomes(st, init);
      ScanKeepsConflicts(st, init);
      var mid := Scan(st, init);
      assert Scan(st, tree) == Step(mid, last);
      StepOutcomeFrom(mid, st.store.rows, last);
      var o := EntryOutcome(st.store.rows, last);
      assert SavedIn(st.store.rows, tree) == SavedIn(st.store.rows, init) + (if o.Saved? then 1 else 0);
      assert ErrorsIn(st.store.rows, tree) == ErrorsIn(st.store.rows, init) + (if o.Failed? then [o.message] else []);
    }
  }

  /** `StepOutcome` judged against rows with the same conflicts as the ones
      the step starts from. */
  lemma StepOutcomeFrom(mid: ScanState, rows: seq<FileRecord>, e: WalkEntry)
    requires SameConflicts(mid.store.rows, rows)
    ensures var o := EntryOutcome(rows, e);
            && Step(mid, e).count == mid.count + (if o.Saved? then 1 else 0)
            && Step(mid, e).errors == mid.errors + (if o.Failed? then [o.message] else [])
  {
    assert Conflict(mid.store.rows, FilePath(e)) == Conflict(rows, FilePath(e));
    assert EntryOutcome(mid.store.rows, e) == EntryOutcome(rows, e);
    StepOutcome(mid, e);
  }

  /** Every non-hidden walked file is either counted or yields one error. */
  lemma {:induction false} OutcomesCoverNonHidden(rows: seq<FileRecord>, tree: seq<WalkEntry>)
    ensures SavedIn(rows, tree) + |ErrorsIn(rows, tree)| == |NonHidden(tree)|
  {
    if tree != [] {
      OutcomesCoverNonHidden(rows, tree[..|tree| - 1]);
    }
  }

  /** `count + len(errors)` is the number of non-hidden files walked. */
  lemma CountPlusErrors(isDir: bool, directory: string, store: Store, tree: seq<WalkEntry>)
    requires isDir
    ensures var r := IngestSpec(isDir, directory, store, tree).1;
            r.Ingested? && r.count + |r.errors| == |NonHidden(tree)|
  {
    ScanOutcomes(ScanState(store, 0, []), tree);
    OutcomesCoverNonHidden(store.rows, tree);
  }

  /** No two rows share a path. */
  ghost predicate PathsUnique(rows: seq<FileRecord>) {
    forall p :: PathCount(rows, p) <= 1
  }

  /** The walked files whose stat raised, as error strings in visit order. */
  function StatErrors(tree: seq<WalkEntry>): seq<string> {
    if tree == [] then []
    else
      var e := tree[|tree| - 1];
      StatErrors(tree[..|tree| - 1])
        + (if !IsHidden(e.filename) && e.stat.StatFailed? then [ErrorMessage(e.filename, e.stat.message)] else [])
  }

  /** When no two rows share a path, the only errors are the failed stats, in
      visit order, and each has the form `Error processing <name>: <reason>`. */
  lemma {:induction false} ErrorsAreStatFailures(rows: seq<FileRecord>, tree: seq<WalkEntry>)
    requires PathsUnique(rows)
    ensures ErrorsIn(rows, tree) == StatErrors(tree)
  {
    if tree != [] {
      ErrorsAreStatFailures(rows, tree[..|tree| - 1]);
    }
  }

  /** Errors only accumulate: earlier errors stay, in place. */
  lemma ErrorsAccumulate(st: ScanState, tree: seq<WalkEntry>)
    ensures |st.errors| <= |Scan(st, tree).errors|
    ensures Scan(st, tree).errors[..|st.errors|] == st.errors
  {
    ScanOutcomes(st, tree);
  }

  // ---------------------------------------------------------------------
  // The state the scan leaves

  lemma {:induction false} ScanKeepsValidIndex(st: ScanState, tree: seq<WalkEntry>)
    requires ValidState(st.store.index)
    ensures ValidState(Scan(st, tree).store.index)
  {
    if tree != [] {
      var init, last := tree[..|tree| - 1], tree[|tree| - 1];
      ScanKeepsValidIndex(st, init);
      var mid := Scan(st, init);
      if !IsHidden(last.filename) && last.stat.StatOk? {
        SaveIndexesSavedRow(mid.store, FilePath(last), last.filename, IngestFileType(last.filename), last.stat.size);
      }
    }
  }

  /** The catalog paths the walk reports. */
  function WalkedPaths(tree: seq<WalkEntry>): set<string> {
    set e | e in tree :: FilePath(e)
  }

  /** One step writes only rows under the walked file's path, and only the
      index document under such a row's id. */
  lemma StepFrame(st: ScanState, e: WalkEntry)
    requires ValidState(st.store.index)
    ensures var st2 := Step(st, e);
            var rows, rows2 := st.store.rows, st2.store.rows;
            && ValidState(st2.store.index)
            && |rows| <= |rows2|
            && (forall j :: 0 <= j < |rows| ==> rows2[j].path == rows[j].path)
            && (forall j :: 0 <= j < |rows| && rows[j].path != FilePath(e) ==>
                  && rows2[j] == rows[j]
                  && WithId(st2.store.index.docs, Decimal(IdAt(j))) == WithId(st.store.index.docs, Decimal(IdAt(j))))
            && (forall j :: |rows| <= j < |rows2| ==> rows2[j].path == FilePath(e))
  {
    StepStore(st, e);
    if !IsHidden(e.filename) && e.stat.StatOk? {
      SaveFrame(st.store, FilePath(e), e.filename, IngestFileType(e.filename), e.stat.size);
    }
  }

  /** Rows present before the scan keep their position and path; rows whose
      path the walk does not report keep their contents and their index
      documents; new rows only carry walked paths. Nothing is deleted. */
  lemma {:induction false} ScanFrame(st: ScanState, tree: seq<WalkEntry>)
    requires ValidState(st.store.index)
    ensures var st2 := Scan(st, tree);
            var rows, rows2 := st.store.rows, st2.store.rows;
            && ValidState(st2.store.index)
            && |rows| <= |rows2|
            && (forall j :: 0 <= j < |rows| ==> rows2[j].path == rows[j].path)
            && (forall j :: 0 <= j < |rows| && rows[j].path !in WalkedPaths(tree) ==>
                  && rows2[j] == rows[j]
                  && WithId(st2.store.index.docs, Decimal(IdAt(j))) == WithId(st.store.index.docs, Decimal(IdAt(j))))
            && (forall j :: |rows| <= j < |rows2| ==> rows2[j].path in WalkedPaths(tree))
  {
    if tree != [] {
      var init, last := tree[..|tree| - 1], tree[|tree| - 1];
      ScanFrame(st, init);
      var mid := Scan(st, init);
      assert Scan(st, tree) == Step(mid, last);
      StepFrame(mid, last);
      assert WalkedPaths(tree) == WalkedPaths(init) + {FilePath(last)};
    }
  }

  // ---------------------------------------------------------------------
  // Re-running on an unchanged tree

  /** `os.walk` reports each joined path at most once. */
  ghost predicate DistinctPaths(tree: seq<WalkEntry>) {
    forall i, j :: 0 <= i < j < |tree| ==> FilePath(tree[i]) != FilePath(tree[j])
  }

  /** The row `update_or_create` writes for a walked file. */
  function ExpectedRow(e: WalkEntry): FileRecord
    requires e.stat.StatOk?
  {
    FileRecord(FilePath(e), e.filename, IngestFileType(e.filename), e.stat.size)
  }

  /** A walked file whose save the catalog and index already reflect: its
      path is held by one row equal to what the ingestor writes, indexed under
      that row's id; or its path is held by several rows, so `get` raises. */
  ghost predicate Settled(s: Store, e: WalkEntry) {
    !IsHidden(e.filename) && e.stat.StatOk? ==>
      var p := FilePath(e);
      || PathCount(s.rows, p) >= 2
      || (&& PathCount(s.rows, p) == 1
          && p in PathsOf(s.rows)
          && s.rows[FindPath(s.rows, p)] == ExpectedRow(e)
          && s.index.hasIndex && s.index.dirExists
          && var id := IdAt(FindPath(s.rows, p));
             WithId(s.index.docs, Decimal(id)) == [IndexDocument(id, p, e.filename)])
  }

  /** After a scan over distinct paths, a saved file's path is held by one
      row whose name is the file name, whose size is the stat size and whose
      type is `IngestFileType`; the index holds that row's document under
      its id. */
  lemma IngestedFileRow(directory: string, store: Store, tree: seq<WalkEntry>, e: WalkEntry)
    requires ValidState(store.index) && DistinctPaths(tree)
    requires e in tree && !IsHidden(e.filename) && e.stat.StatOk?
    requires PathCount(store.rows, FilePath(e)) <= 1
    ensures var s, p := IngestSpec(true, directory, store, tree).0, FilePath(e);
            && PathCount(s.rows, p) == 1 && p in PathsOf(s.rows)
            && s.rows[FindPath(s.rows, p)] == FileRecord(p, e.filename, IngestFileType(e.filename), e.stat.size)
            && var id := IdAt(FindPath(s.rows, p));
               WithId(s.index.docs, Decimal(id)) == [IndexDocument(id, p, e.filename)]
  {
    var init := ScanState(store, 0, []);
    ScanSettles(init, tree);
    ScanKeepsConflicts(init, tree);
    assert Conflict(Scan(init, tree).store.rows, FilePath(e)) == Conflict(store.rows, FilePath(e));
  }

  /** The same rows, the same index flags, the same document under every id. */
  ghost predicate Equivalent(a: Store, b: Store) {
    && a.rows == b.rows
    && a.index.dirExists == b.index.dirExists
    && a.index.hasIndex == b.index.hasIndex
    && SameDocuments(a.index.docs, b.index.docs)
  }

  lemma StepSettles(st: ScanState, e: WalkEntry)
    requires ValidState(st.store.index)
    ensures Settled(Step(st, e).store, e)
  {
    if !IsHidden(e.filename) && e.stat.StatOk? {
      var path, name, ft, size := FilePath(e), e.filename, IngestFileType(e.filename), e.stat.size;
      UpdateOrCreateResult(st.store.rows, path, name, ft, size);
      var out := UpdateOrCreateRows(st.store.rows, path, name, ft, size).1;
      if !out.MultipleFound? {
        IndexFileResult(st.store.index, out.id, path, name, "");
      }
    }
  }

  lemma StepKeepsSettled(st: ScanState, e: WalkEntry, e2: WalkEntry)
    requires ValidState(st.store.index)
    requires FilePath(e) != FilePath(e2)
    requires Settled(st.store, e2)
    ensures Settled(Step(st, e).store, e2)
  {
    if !IsHidden(e.filename) && e.stat.StatOk? && !IsHidden(e2.filename) && e2.stat.StatOk? {
      var path, name, ft, size := FilePath(e), e.filename, IngestFileType(e.filename), e.stat.size;
      var p2 := FilePath(e2);
      var rows := st.store.rows;
      UpdateOrCreateFrame(rows, path, name, ft, size, p2);
      UpdateOrCreateResult(rows, path, name, ft, size);
      var (rows3, out) := UpdateOrCreateRows(rows, path, name, ft, size);
      if PathCount(rows, p2) == 1 && !out.MultipleFound? {
        var i2 := FindPath(rows, p2);
        assert rows3[i2] == rows[i2];
        SoleRow(rows3, p2, i2);
        var k := FindPath(rows3, path);
        assert k != i2;
        DecimalInjective(IdAt(k), IdAt(i2));
        IndexFileResult(st.store.index, out.id, path, name, Decimal(IdAt(i2)));
      }
    }
  }

  /** After a scan over distinct paths, every walked file is settled. */
  lemma {:induction false} ScanSettles(st: ScanState, tree: seq<WalkEntry>)
    requires ValidState(st.store.index)
    requires DistinctPaths(tree)
    ensures forall e :: e in tree ==> Settled(Scan(st, tree).store, e)
  {
    if tree != [] {
      var init, last := tree[..|tree| - 1], tree[|tree| - 1];
      ScanSettles(st, init);
      ScanKeepsValidIndex(st, init);
      var mid := Scan(st, init);
      StepSettles(mid, last);
      forall e | e in init ensures Settled(Step(mid, last).store, e) {
        var i :| 0 <= i < |init| && init[i] == e;
        assert tree[i] == e;
        StepKeepsSettled(mid, last, e);
      }
    }
  }

  lemma SettledTransfers(a: Store, b: Store, e: WalkEntry)
    requires Equivalent(a, b) && Settled(a, e)
    ensures Settled(b, e)
  {
    if !IsHidden(e.filename) && e.stat.StatOk? && PathCount(a.rows, FilePath(e)) == 1 {
      var id := IdAt(FindPath(a.rows, FilePath(e)));
      assert WithId(a.index.docs, Decimal(id)) == WithId(b.index.docs, Decimal(id));
    }
  }

  lemma StepOnSoleRow(st: ScanState, e: WalkEntry)
    requires ValidState(st.store.index)
    requires Settled(st.store, e)
    requires !IsHidden(e.filename) && e.stat.StatOk? && PathCount(st.store.rows, FilePath(e)) < 2
    ensures Equivalent(Step(st, e).store, st.store)
  {
    StepStore(st, e);
    SaveUnchanged(st.store, FilePath(e), e.filename, IngestFileType(e.filename), e.stat.size);
  }

  /** Re-processing a settled file leaves an equivalent catalog and index. */
  lemma StepOnSettled(st: ScanState, e: WalkEntry)
    requires ValidState(st.store.index)
    requires Settled(st.store, e)
    ensures Equivalent(Step(st, e).store, st.store)
  {
    var s := st.store;
    if IsHidden(e.filename) || e.stat.StatFailed? {
      assert Step(st, e).store == s;
    } else if PathCount(s.rows, FilePath(e)) >= 2 {
      UpdateOrCreateResult(s.rows, FilePath(e), e.filename, IngestFileType(e.filename), e.stat.size);
      assert Step(st, e).store == s;
    } else {
      StepOnSoleRow(st, e);
    }
  }

  lemma {:induction false} ScanOnSettled(st: ScanState, tree: seq<WalkEntry>, ref: Store)
    requires ValidState(st.store.index)
    requires Equivalent(st.store, ref)
    requires forall e :: e in tree ==> Settled(ref, e)
    ensures Equivalent(Scan(st, tree).store, ref)
  {
    if tree != [] {
      var init, last := tree[..|tree| - 1], tree[|tree| - 1];
      ScanOnSettled(st, init, ref);
      ScanKeepsValidIndex(st, init);
      var mid := Scan(st, init);
      SettledTransfers(ref, mid.store, last);
      StepOnSettled(mid, last);
    }
  }

  lemma {:induction false} OutcomesFollowConflicts(a: seq<FileRecord>, b: seq<FileRecord>, tree: seq<WalkEntry>)
    requires SameConflicts(a, b)
    ensures SavedIn(a, tree) == SavedIn(b, tree) && ErrorsIn(a, tree) == ErrorsIn(b, tree)
  {
    if tree != [] {
      OutcomesFollowConflicts(a, b, tree[..|tree| - 1]);
      assert Conflict(a, FilePath(tree[|tree| - 1])) == Conflict(b, FilePath(tree[|tree| - 1]));
    }
  }

  /** Running `ingest_directory` again on an unchanged tree creates no row,
      changes no row, leaves the same document under every index id, and
      returns the same count and errors. */
  lemma IngestIdempotent(directory: string, store: Store, tree: seq<WalkEntry>)
    requires ValidState(store.index)
    requires DistinctPaths(tree)
    ensures var (s1, r1) := IngestSpec(true, directory, store, tree);
            var (s2, r2) := IngestSpec(true, directory, s1, tree);
            && s2.rows == s1.rows
            && s2.index.dirExists == s1.index.dirExists && s2.index.hasIndex == s1.index.hasIndex
            && SameDocuments(s2.index.docs, s1.index.docs)
            && r2 == r1
  {
    var first := Scan(ScanState(store, 0, []), tree);
    var s1 := first.store;
    ScanKeepsValidIndex(ScanState(store, 0, []), tree);
    ScanSettles(ScanState(store, 0, []), tree);
    ScanOnSettled(ScanState(s1, 0, []), tree, s1);
    ScanOutcomes(ScanState(store, 0, []), tree);
    ScanOutcomes(ScanState(s1, 0, []), tree);
    ScanKeepsConflicts(ScanState(store, 0, []), tree);
    OutcomesFollowConflicts(s1.rows, store.rows, tree);
  }
}
