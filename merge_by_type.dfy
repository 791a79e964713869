/** merge_csv_files_by_type: for each category ("primary", "secondary"),
    every CSV file whose name matches `*{category}*.csv` is tagged with a
    `source_file` column and folded into one table; the first non-empty
    table fixes the schema and later tables with a different column list
    are skipped. */
module MergeByType {
  import opened Wrappers
  import opened Strings
  import opened Tables

  const FILE_TYPES: seq<string> := ["primary", "secondary"]
  const SOURCE_FILE: string := "source_file"

  /** A directory entry as glob sees it, with the table read_csv loads from it. */
  datatype DirEntry = DirEntry(name: string, table: Table)

  /** A file on glob's result list: its path and its loaded table. */
  datatype CsvFile = CsvFile(path: string, table: Table)

  function OutputName(fileType: string): string {
    "merged_usda_fsis_data_" + fileType + ".csv"
  }

  /** Whether a directory entry matches the glob pattern `*{fileType}*.csv`:
      `*` does not match a leading dot, the name ends in ".csv", and the
      category occurs before that suffix. */
  predicate GlobMatches(name: string, fileType: string) {
    && !StartsWith(name, ".")
    && EndsWith(name, ".csv")
    && Contains(name[..|name| - 4], fileType)
  }

  /** glob.glob(os.path.join(directory, pattern)) in directory order. */
  function CategoryFiles(dir: string, listing: seq<DirEntry>, fileType: string): (files: seq<CsvFile>)
    ensures |files| <= |listing|
  {
    if listing == [] then []
    else
      var rest := CategoryFiles(dir, listing[1..], fileType);
      var e := listing[0];
      if GlobMatches(e.name, fileType) then [CsvFile(PathJoin(dir, e.name), e.table)] + rest else rest
  }

  /** The file list holds exactly the matching entries, each joined to the
      directory. */
  lemma {:induction false} CategoryFilesExact(dir: string, listing: seq<DirEntry>, fileType: string)
    ensures forall f :: f in CategoryFiles(dir, listing, fileType) ==>
      exists e :: e in listing && GlobMatches(e.name, fileType) && f == CsvFile(PathJoin(dir, e.name), e.table)
    ensures forall e :: e in listing && GlobMatches(e.name, fileType) ==>
      CsvFile(PathJoin(dir, e.name), e.table) in CategoryFiles(dir, listing, fileType)
    decreases |listing|
  {
    if listing != [] {
      CategoryFilesExact(dir, listing[1..], fileType);
      forall e | e in listing
        ensures e == listing[0] || e in listing[1..]
      {
        var i :| 0 <= i < |listing| && listing[i] == e;
        if i > 0 { assert listing[1..][i - 1] == e; }
      }
    }
  }

  /** `data["source_file"] = os.path.basename(file)` */
  function Tag(f: CsvFile): Table {
    WithConstColumn(f.table, SOURCE_FILE, Some(Text(Basename(f.path))))
  }

  /** Tagging adds `source_file` after the file's own columns (or keeps its
      place when the file already has one) and no other column; every row
      gets the file's base name there, and no other cell changes. */
  lemma TagSetsSourceFile(f: CsvFile)
    ensures var t := Tag(f);
      && SOURCE_FILE in t.columns
      && t.columns[..|f.table.columns|] == f.table.columns
      && ColumnSet(t.columns) == ColumnSet(f.table.columns) + {SOURCE_FILE}
      && |t.columns| == (if SOURCE_FILE in f.table.columns then |f.table.columns| else |f.table.columns| + 1)
      && |t.rows| == |f.table.rows|
      && (forall i :: 0 <= i < |t.rows| ==> Get(t.rows[i], SOURCE_FILE) == Some(Text(Basename(f.path))))
      && (forall i, d :: 0 <= i < |t.rows| && d != SOURCE_FILE ==> Get(t.rows[i], d) == Get(f.table.rows[i], d))
      && (WellFormed(f.table) ==> WellFormed(t))
  {
    WithConstColumnSets(f.table, SOURCE_FILE, Some(Text(Basename(f.path))));
  }

  /** One turn of the loop: an empty accumulator is replaced, a table with
      a different column list is skipped, a compatible one is appended. */
  function MergeStep(acc: Table, data: Table): Table {
    if IsEmpty(acc) then data
    else if acc.columns != data.columns then acc
    else Table(acc.columns, acc.rows + data.rows)
  }

  /** The loop over file_list as a left fold from accumulator `acc`. */
  function MergeFrom(acc: Table, files: seq<CsvFile>): Table
    decreases |files|
  {
    if files == [] then acc else MergeFrom(MergeStep(acc, Tag(files[0])), files[1..])
  }

  /** The merge loop for one category, starting from pd.DataFrame(). */
  method MergeFiles(files: seq<CsvFile>) returns (merged: Table)
    ensures merged == MergeFrom(EMPTY_FRAME, files)
  {
    merged := EMPTY_FRAME;
    var i := 0;
    while i < |files|
      invariant 0 <= i <= |files|
      invariant MergeFrom(merged, files[i..]) == MergeFrom(EMPTY_FRAME, files)
    {
      assert files[i..][1..] == files[i + 1..];
      var data := Tag(files[i]);
      if IsEmpty(merged) {
        merged := data;
      } else {
        if merged.columns != data.columns {
          i := i + 1;
          continue;
        }
        merged := Table(merged.columns, merged.rows + data.rows);
      }
      i := i + 1;
    }
  }

  /** What one turn of the outer loop writes for a category: nothing when
      no file matches, otherwise the category's merged table. */
  function CategoryOutput(dir: string, listing: seq<DirEntry>, fileType: string): Option<Table> {
    var files := CategoryFiles(dir, listing, fileType);
    if files == [] then None else Some(MergeFrom(EMPTY_FRAME, files))
  }

  /** The files written by the outer loop after the categories `types`,
      as a map from output file name to content, where `outputOf` says
      what each category writes. */
  function Outputs(types: seq<string>, outputOf: string -> Option<Table>): map<string, Table>
    decreases |types|
  {
    if types == [] then map[]
    else
      var written := Outputs(types[..|types| - 1], outputOf);
      var fileType := types[|types| - 1];
      match outputOf(fileType)
      case None => written
      case Some(merged) => written[OutputName(fileType) := merged]
  }

  /** The outer loop over the two categories: a category without matching
      files writes nothing; otherwise its merged table is written under
      merged_usda_fsis_data_{category}.csv. The result maps each written
      file name to its content. */
  method MergeCsvFilesByType(dir: string, listing: seq<DirEntry>) returns (written: map<string, Table>)
    ensures written == Outputs(FILE_TYPES, t => CategoryOutput(dir, listing, t))
  {
    var outputOf := t => CategoryOutput(dir, listing, t);
    written := map[];
    var k := 0;
    while k < |FILE_TYPES|
      invariant 0 <= k <= |FILE_TYPES|
      invariant written == Outputs(FILE_TYPES[..k], outputOf)
    {
      var fileType := FILE_TYPES[k];
      assert FILE_TYPES[..k + 1][..k] == FILE_TYPES[..k];
      var fileList := CategoryFiles(dir, listing, fileType);
      if fileList == [] {
        k := k + 1;
        continue;
      }
      var merged := MergeFiles(fileList);
      written := written[OutputName(fileType) := merged];
      k := k + 1;
    }
    assert FILE_TYPES[..k] == FILE_TYPES;
  }

  /** What merge_csv_files_by_type leaves behind: one file per category
      with matching files, named after the category and holding that
      category's merged table. */
  lemma WrittenFiles(dir: string, listing: seq<DirEntry>)
    ensures var written := Outputs(FILE_TYPES, t => CategoryOutput(dir, listing, t));
      && written.Keys == (set t | t in FILE_TYPES && CategoryFiles(dir, listing, t) != [] :: OutputName(t))
      && (forall t :: t in FILE_TYPES && CategoryFiles(dir, listing, t) != [] ==>
        written[OutputName(t)] == MergeFrom(EMPTY_FRAME, CategoryFiles(dir, listing, t)))
  {
    var outputOf := t => CategoryOutput(dir, listing, t);
    assert Distinct(FILE_TYPES) by { assert |FILE_TYPES[0]| != |FILE_TYPES[1]|; }
    OutputsKeys(FILE_TYPES, outputOf);
    forall t | t in FILE_TYPES && CategoryFiles(dir, listing, t) != [] {
      OutputsAt(FILE_TYPES, outputOf, t);
    }
  }

  /** Distinct categories have distinct output file names. */
  lemma OutputNameInjective(a: string, b: string)
    requires OutputName(a) == OutputName(b)
    ensures a == b
  {
    var n := |"merged_usda_fsis_data_"|;
    assert a == OutputName(a)[n..|OutputName(a)| - 4];
    assert b == OutputName(b)[n..|OutputName(b)| - 4];
  }

  /** Which files the loop writes: one per category that writes one. */
  lemma {:induction false} OutputsKeys(types: seq<string>, outputOf: string -> Option<Table>)
    ensures Outputs(types, outputOf).Keys == set t | t in types && outputOf(t).Some? :: OutputName(t)
    decreases |types|
  {
    if types != [] {
      var init := types[..|types| - 1];
      var last := types[|types| - 1];
      OutputsKeys(init, outputOf);
      assert types == init + [last];
    }
  }

  /** What the loop writes for one category: that category's output,
      which no later category overwrites. */
  lemma {:induction false} OutputsAt(types: seq<string>, outputOf: string -> Option<Table>, t: string)
    requires Distinct(types)
    requires t in types && outputOf(t).Some?
    ensures OutputName(t) in Outputs(types, outputOf)
    ensures Outputs(types, outputOf)[OutputName(t)] == outputOf(t).value
    decreases |types|
  {
    var init := types[..|types| - 1];
    var last := types[|types| - 1];
    assert types == init + [last];
    if t != last {
      assert t in init;
      assert Distinct(init) by {
        forall i, j | 0 <= i < j < |init| ensures init[i] != init[j] { assert init[i] == types[i] && init[j] == types[j]; }
      }
      OutputsAt(init, outputOf, t);
      assert OutputName(t) != OutputName(last) by {
        if OutputName(t) == OutputName(last) { OutputNameInjective(t, last); }
      }
    }
  }

  // ---------------------------------------------------------------------
  // An independent description of the fold's result

  /** Index of the first file whose table has rows. */
  function FirstWithRows(files: seq<CsvFile>): (r: Option<nat>)
    ensures r.None? ==> forall j :: 0 <= j < |files| ==> |files[j].table.rows| == 0
    ensures r.Some? ==>
      && r.value < |files| && |files[r.value].table.rows| > 0
      && forall j :: 0 <= j < r.value ==> |files[j].table.rows| == 0
  {
    if files == [] then None
    else if |files[0].table.rows| > 0 then Some(0)
    else match FirstWithRows(files[1..])
      case None => None
      case Some(k) => Some(k + 1)
  }

  /** The files whose tagged column list is exactly `cols`, in order. */
  function Compatible(cols: seq<string>, files: seq<CsvFile>): seq<CsvFile> {
    if files == [] then []
    else (if Tag(files[0]).columns == cols then [files[0]] else []) + Compatible(cols, files[1..])
  }

  lemma {:induction false} CompatibleSubset(cols: seq<string>, files: seq<CsvFile>, f: CsvFile)
    requires f in Compatible(cols, files)
    ensures f in files && Tag(f).columns == cols
    decreases |files|
  {
    if files[0] != f || Tag(f).columns != cols {
      CompatibleSubset(cols, files[1..], f);
    }
  }

  /** The tagged rows of the files, file after file. */
  function TaggedRows(files: seq<CsvFile>): seq<Row> {
    if files == [] then [] else Tag(files[0]).rows + TaggedRows(files[1..])
  }

  /** Total number of rows of the files as loaded. */
  function FileRows(files: seq<CsvFile>): nat {
    if files == [] then 0 else |files[0].table.rows| + FileRows(files[1..])
  }

  /** What the merge produces: if some file has rows, the first such file
      fixes the column list and the result holds, in order, the rows of
      every file from it on whose tagged column list equals that one;
      otherwise (all tables empty) the last file's tagged table, or
      pd.DataFrame() for no files. */
  function MergedReference(files: seq<CsvFile>): Table {
    match FirstWithRows(files)
    case None => if files == [] then EMPTY_FRAME else Tag(files[|files| - 1])
    case Some(k) =>
      var cols := Tag(files[k]).columns;
      Table(cols, TaggedRows(Compatible(cols, files[k..])))
  }

  lemma AppendAssociative<T>(a: seq<T>, b: seq<T>, c: seq<T>)
    ensures a + b + c == a + (b + c)
  {
  }

  lemma CompatibleFirst(cols: seq<string>, files: seq<CsvFile>)
    requires files != []
    ensures TaggedRows(Compatible(cols, files))
      == (if Tag(files[0]).columns == cols then Tag(files[0]).rows else []) + TaggedRows(Compatible(cols, files[1..]))
  {
    var rest := Compatible(cols, files[1..]);
    if Tag(files[0]).columns == cols {
      var c := [files[0]] + rest;
      assert c[0] == files[0] && c[1..] == rest;
    } else {
      assert [] + rest == rest;
    }
  }

  /** Once the accumulator is non-empty its column list never changes and
      exactly the compatible tables' rows are appended. */
  lemma {:induction false} MergeFromNonEmpty(acc: Table, files: seq<CsvFile>)
    requires !IsEmpty(acc)
    ensures MergeFrom(acc, files) == Table(acc.columns, acc.rows + TaggedRows(Compatible(acc.columns, files)))
    decreases |files|
  {
    if files == [] {
      assert acc.rows + [] == acc.rows;
    } else {
      var data := Tag(files[0]);
      var next := MergeStep(acc, data);
      assert MergeFrom(acc, files) == MergeFrom(next, files[1..]);
      assert !IsEmpty(next) && next.columns == acc.columns;
      MergeFromNonEmpty(next, files[1..]);
      CompatibleFirst(acc.columns, files);
      var added := if data.columns == acc.columns then data.rows else [];
      assert next.rows == acc.rows + added;
      AppendAssociative(acc.rows, added, TaggedRows(Compatible(acc.columns, files[1..])));
    }
  }

  lemma {:induction false} MergeFromEmpty(acc: Table, files: seq<CsvFile>)
    requires IsEmpty(acc)
    ensures MergeFrom(acc, files) == if files == [] then acc else MergedReference(files)
    decreases |files|
  {
    if files != [] {
      var data := Tag(files[0]);
      assert MergeFrom(acc, files) == MergeFrom(data, files[1..]);
      if |files[0].table.rows| > 0 {
        MergeFromFirstWithRows(data, files);
      } else {
        MergeFromEmpty(data, files[1..]);
        if files[1..] == [] {
          assert FirstWithRows(files) == None;
        } else {
          ReferenceSkipsEmptyHead(files);
        }
      }
    }
  }

  /** A first file with rows becomes the accumulator and fixes the schema. */
  lemma MergeFromFirstWithRows(data: Table, files: seq<CsvFile>)
    requires files != [] && data == Tag(files[0]) && |files[0].table.rows| > 0
    ensures MergeFrom(data, files[1..]) == MergedReference(files)
  {
    assert !IsEmpty(data);
    MergeFromNonEmpty(data, files[1..]);
    assert FirstWithRows(files) == Some(0);
    assert files[0..] == files;
    CompatibleFirst(data.columns, files);
  }

  /** The reference ignores a leading file without rows, unless it is the
      only file. */
  lemma ReferenceSkipsEmptyHead(files: seq<CsvFile>)
    requires |files| >= 2 && |files[0].table.rows| == 0
    ensures MergedReference(files) == MergedReference(files[1..])
  {
    assert files[1..][|files[1..]| - 1] == files[|files| - 1];
    match FirstWithRows(files[1..])
    case None =>
      assert FirstWithRows(files) == None;
    case Some(k) =>
      assert FirstWithRows(files) == Some(k + 1);
      assert files[1..][k] == files[k + 1];
      assert files[1..][k..] == files[k + 1..];
  }

  /** The fold the source runs equals the reference description. */
  lemma MergeMatchesReference(files: seq<CsvFile>)
    ensures MergeFrom(EMPTY_FRAME, files) == MergedReference(files)
  {
    MergeFromEmpty(EMPTY_FRAME, files);
  }

  /** Schema stability: once the accumulator is non-empty, the result has
      its column list and stays non-empty, whatever tables follow. */
  lemma SchemaFixedOnceNonEmpty(acc: Table, files: seq<CsvFile>)
    requires !IsEmpty(acc)
    ensures MergeFrom(acc, files).columns == acc.columns
    ensures !IsEmpty(MergeFrom(acc, files))
  {
    MergeFromNonEmpty(acc, files);
  }

  lemma {:induction false} TaggedRowsCount(files: seq<CsvFile>)
    ensures |TaggedRows(files)| == FileRows(files)
    decreases |files|
  {
    if files != [] {
      TaggedRowsCount(files[1..]);
    }
  }

  /** The merged row count is the sum of the accepted tables' row counts:
      the tables from the first non-empty one on that share its columns. */
  lemma MergedRowCount(files: seq<CsvFile>)
    ensures |MergeFrom(EMPTY_FRAME, files).rows| == match FirstWithRows(files)
      case None => 0
      case Some(k) => FileRows(Compatible(Tag(files[k]).columns, files[k..]))
  {
    MergeMatchesReference(files);
    match FirstWithRows(files)
    case None =>
    case Some(k) =>
      TaggedRowsCount(Compatible(Tag(files[k]).columns, files[k..]));
  }

  lemma {:induction false} TaggedRowsSource(files: seq<CsvFile>, r: Row)
    requires r in TaggedRows(files)
    ensures exists f :: f in files && Get(r, SOURCE_FILE) == Some(Text(Basename(f.path)))
    decreases |files|
  {
    var t := Tag(files[0]);
    if r in t.rows {
      var i :| 0 <= i < |t.rows| && t.rows[i] == r;
      assert files[0] in files;
    } else {
      TaggedRowsSource(files[1..], r);
      var f :| f in files[1..] && Get(r, SOURCE_FILE) == Some(Text(Basename(f.path)));
      assert f in files;
    }
  }

  /** Every merged row carries in `source_file` the base name of one of
      the merged files. */
  lemma MergedRowsNameTheirFile(files: seq<CsvFile>, r: Row)
    requires r in MergeFrom(EMPTY_FRAME, files).rows
    ensures exists f :: f in files && Get(r, SOURCE_FILE) == Some(Text(Basename(f.path)))
  {
    MergeMatchesReference(files);
    match FirstWithRows(files)
    case None =>
    case Some(k) =>
      var cols := Tag(files[k]).columns;
      TaggedRowsSource(Compatible(cols, files[k..]), r);
      var f :| f in Compatible(cols, files[k..]) && Get(r, SOURCE_FILE) == Some(Text(Basename(f.path)));
      CompatibleSubset(cols, files[k..], f);
      assert f in files[k..];
      assert f in files;
  }

  /** For the files of one category: each merged row's `source_file` is
      the name of a directory entry matching the category's pattern. */
  lemma CategoryRowsNameTheirEntry(dir: string, listing: seq<DirEntry>, fileType: string, r: Row)
    requires forall e :: e in listing ==> '/' !in e.name
    requires r in MergeFrom(EMPTY_FRAME, CategoryFiles(dir, listing, fileType)).rows
    ensures exists e :: e in listing && GlobMatches(e.name, fileType) && Get(r, SOURCE_FILE) == Some(Text(e.name))
  {
    var files := CategoryFiles(dir, listing, fileType);
    MergedRowsNameTheirFile(files, r);
    var f :| f in files && Get(r, SOURCE_FILE) == Some(Text(Basename(f.path)));
    CategoryFilesExact(dir, listing, fileType);
    var e :| e in listing && GlobMatches(e.name, fileType) && f == CsvFile(PathJoin(dir, e.name), e.table);
    BasenameOfJoin(dir, e.name);
  }
}
