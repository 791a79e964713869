/** ncbi_tsv_merge: read every listed file whose name ends with a pattern,
    label its rows with a value computed from the file name, concatenate
    the frames (outer union of columns), and in `main` keep the columns
    common to the merged frame. */
module NcbiMerge {
  import opened Wrappers
  import opened Strings
  import opened Tables

  /** A directory entry: the file name and the frame read from it. */
  datatype TsvFile = TsvFile(name: string, table: Table)

  /** The label function raised while naming the file. */
  datatype ReadError = LabelFailed(filename: string)

  const METADATA_PATTERN: string := ".metadata.tsv"
  const LABEL_COLUMN: string := "type"

  // ---------------------------------------------------------------------
  // read_and_label_files

  /** The entries the loop reads: those whose name ends with the pattern. */
  function Matching(files: seq<TsvFile>, pattern: string): seq<TsvFile> {
    if files == [] then []
    else (if EndsWith(files[0].name, pattern) then [files[0]] else []) + Matching(files[1..], pattern)
  }

  /** An entry is read iff it is listed and its name ends with the pattern. */
  lemma {:induction false} MatchingHas(files: seq<TsvFile>, pattern: string, f: TsvFile)
    ensures f in Matching(files, pattern) <==> f in files && EndsWith(f.name, pattern)
    decreases |files|
  {
    if files != [] {
      MatchingHas(files[1..], pattern, f);
      assert files == [files[0]] + files[1..];
    }
  }

  /** One frame after `df[label_column] = label_value(filename)`; no column
      is added when the label column is empty (falsy). None when the label
      function fails on the name. */
  function Labelled(f: TsvFile, labelColumn: string, labelOf: string -> Option<string>): Option<Table> {
    if labelColumn == "" then Some(f.table)
    else
      match labelOf(f.name)
      case None => None
      case Some(v) => Some(WithConstColumn(f.table, labelColumn, Some(Text(v))))
  }

  /** The loop over the listing, one entry at a time, collecting frames. */
  function Collect(acc: seq<Table>, files: seq<TsvFile>, pattern: string, labelColumn: string,
                   labelOf: string -> Option<string>): Result<seq<Table>, ReadError>
    decreases |files|
  {
    if files == [] then Ok(acc)
    else if !EndsWith(files[0].name, pattern) then Collect(acc, files[1..], pattern, labelColumn, labelOf)
    else
      match Labelled(files[0], labelColumn, labelOf)
      case None => Err(LabelFailed(files[0].name))
      case Some(t) => Collect(acc + [t], files[1..], pattern, labelColumn, labelOf)
  }

  /** The columns of pd.concat: each frame's new columns appended in order. */
  function AddNew(cols: seq<string>, more: seq<string>): (r: seq<string>)
    ensures ColumnSet(r) == ColumnSet(cols) + ColumnSet(more)
    ensures |cols| <= |r| && r[..|cols|] == cols
    ensures Distinct(cols) ==> Distinct(r)
    decreases |more|
  {
    if more == [] then cols
    else
      var next := WithColumnName(cols, more[0]);
      var r := AddNew(next, more[1..]);
      assert r[..|cols|] == r[..|next|][..|cols|];
      assert ColumnSet(more) == {more[0]} + ColumnSet(more[1..]);
      r
  }

  function UnionColumns(ts: seq<Table>): (cols: seq<string>)
    ensures Distinct(cols)
  {
    if ts == [] then [] else AddNew(UnionColumns(ts[..|ts| - 1]), ts[|ts| - 1].columns)
  }

  /** A column is in AddNew's result iff it is in either list. */
  lemma AddNewHas(cols: seq<string>, more: seq<string>, c: string)
    ensures c in AddNew(cols, more) <==> c in cols || c in more
  {
    assert c in ColumnSet(AddNew(cols, more)) <==> c in ColumnSet(cols) + ColumnSet(more);
  }

  /** Every column of some frame is in the union. */
  lemma {:induction false} UnionColumnsOf(ts: seq<Table>, k: nat, c: string)
    requires k < |ts| && c in ts[k].columns
    ensures c in UnionColumns(ts)
    decreases |ts|
  {
    var init := ts[..|ts| - 1];
    var last := ts[|ts| - 1];
    AddNewHas(UnionColumns(init), last.columns, c);
    if k < |ts| - 1 {
      assert init[k] == ts[k];
      UnionColumnsOf(init, k, c);
    }
  }

  /** Every column of the union comes from some frame. */
  lemma {:induction false} UnionColumnsFrom(ts: seq<Table>, c: string) returns (k: nat)
    requires c in UnionColumns(ts)
    ensures k < |ts| && c in ts[k].columns
    decreases |ts|
  {
    assert ts != [];
    var init := ts[..|ts| - 1];
    var last := ts[|ts| - 1];
    assert UnionColumns(ts) == AddNew(UnionColumns(init), last.columns);
    AddNewHas(UnionColumns(init), last.columns, c);
    if c in last.columns {
      k := |ts| - 1;
    } else {
      k := UnionColumnsFrom(init, c);
      assert init[k] == ts[k];
    }
  }

  /** The union holds exactly the columns some frame has. */
  lemma UnionColumnsHas(ts: seq<Table>, c: string)
    ensures c in UnionColumns(ts) <==> exists k :: 0 <= k < |ts| && c in ts[k].columns
  {
    if c in UnionColumns(ts) {
      var k := UnionColumnsFrom(ts, c);
    }
    if k :| 0 <= k < |ts| && c in ts[k].columns {
      UnionColumnsOf(ts, k, c);
    }
  }

  /** A row reindexed to the union: a column the row lacks holds NaN. */
  function PadRow(r: Row, cols: seq<string>): Row {
    map c | c in ColumnSet(cols) :: Get(r, c)
  }

  function ConcatRows(ts: seq<Table>, cols: seq<string>): (rows: seq<Row>)
    ensures |rows| == TotalRows(ts)
  {
    if ts == [] then []
    else
      var last := ts[|ts| - 1];
      ConcatRows(ts[..|ts| - 1], cols) + seq(|last.rows|, j requires 0 <= j < |last.rows| => PadRow(last.rows[j], cols))
  }

  /** pd.concat(dfs, ignore_index=True) if dfs else pd.DataFrame(). */
  function Concat(ts: seq<Table>): Table {
    if ts == [] then EMPTY_FRAME
    else Table(UnionColumns(ts), ConcatRows(ts, UnionColumns(ts)))
  }

  function ReadAndLabel(files: seq<TsvFile>, pattern: string, labelColumn: string,
                        labelOf: string -> Option<string>): Result<Table, ReadError>
  {
    var dfs :- Collect([], files, pattern, labelColumn, labelOf);
    Ok(Concat(dfs))
  }

  method ReadAndLabelFiles(files: seq<TsvFile>, pattern: string, labelColumn: string,
                           labelOf: string -> Option<string>) returns (r: Result<Table, ReadError>)
    ensures r == ReadAndLabel(files, pattern, labelColumn, labelOf)
  {
    var dfs: seq<Table> := [];
    var i := 0;
    while i < |files|
      invariant 0 <= i <= |files|
      invariant Collect(dfs, files[i..], pattern, labelColumn, labelOf) == Collect([], files, pattern, labelColumn, labelOf)
    {
      var f := files[i];
      assert files[i..][0] == f && files[i..][1..] == files[i + 1..];
      if EndsWith(f.name, pattern) {
        var df := f.table;
        if labelColumn != "" {
          var v := labelOf(f.name);
          if v.None? {
            return Err(LabelFailed(f.name));
          }
          df := WithConstColumn(df, labelColumn, Some(Text(v.value)));
        }
        dfs := dfs + [df];
      }
      i := i + 1;
    }
    assert files[i..] == [];
    r := Ok(Concat(dfs));
  }

  // ---------------------------------------------------------------------
  // Reference description of the loop

  /** The label function is defined on the name of every file listed. */
  predicate AllLabelled(fs: seq<TsvFile>, labelColumn: string, labelOf: string -> Option<string>) {
    forall k :: 0 <= k < |fs| ==> Labelled(fs[k], labelColumn, labelOf).Some?
  }

  lemma AllLabelledCons(f: TsvFile, fs: seq<TsvFile>, labelColumn: string, labelOf: string -> Option<string>)
    ensures AllLabelled([f] + fs, labelColumn, labelOf) <==>
      Labelled(f, labelColumn, labelOf).Some? && AllLabelled(fs, labelColumn, labelOf)
  {
    var m := [f] + fs;
    assert m[0] == f;
    assert forall k :: 0 <= k < |fs| ==> m[k + 1] == fs[k];
  }

  /** The loop succeeds iff the label exists for every matching file. */
  lemma {:induction false} CollectSucceeds(acc: seq<Table>, files: seq<TsvFile>, pattern: string,
                                           labelColumn: string, labelOf: string -> Option<string>)
    ensures Collect(acc, files, pattern, labelColumn, labelOf).Ok? <==>
      AllLabelled(Matching(files, pattern), labelColumn, labelOf)
    decreases |files|
  {
    if files != [] {
      var f := files[0];
      var mr := Matching(files[1..], pattern);
      if !EndsWith(f.name, pattern) {
        assert Matching(files, pattern) == [] + mr;
        assert [] + mr == mr;
        CollectSucceeds(acc, files[1..], pattern, labelColumn, labelOf);
      } else {
        assert Matching(files, pattern) == [f] + mr;
        AllLabelledCons(f, mr, labelColumn, labelOf);
        match Labelled(f, labelColumn, labelOf)
        case None =>
        case Some(t) =>
          CollectSucceeds(acc + [t], files[1..], pattern, labelColumn, labelOf);
      }
    }
  }

  /** r is acc followed by the labelled frames of the files m, in order. */
  predicate FramesAfter(acc: seq<Table>, m: seq<TsvFile>, labelColumn: string,
                        labelOf: string -> Option<string>, r: seq<Table>)
  {
    && |r| == |acc| + |m|
    && r[..|acc|] == acc
    && forall k :: 0 <= k < |m| ==> Labelled(m[k], labelColumn, labelOf).Some? && r[|acc| + k] == Labelled(m[k], labelColumn, labelOf).value
  }

  /** On success the loop appends the labelled frames of exactly the
      matching files, in listing order. */
  lemma {:induction false} CollectFrames(acc: seq<Table>, files: seq<TsvFile>, pattern: string,
                                         labelColumn: string, labelOf: string -> Option<string>)
    requires Collect(acc, files, pattern, labelColumn, labelOf).Ok?
    ensures FramesAfter(acc, Matching(files, pattern), labelColumn, labelOf, Collect(acc, files, pattern, labelColumn, labelOf).value)
    decreases |files|
  {
    if files != [] {
      var f := files[0];
      var mr := Matching(files[1..], pattern);
      if !EndsWith(f.name, pattern) {
        assert Matching(files, pattern) == mr;
        CollectFrames(acc, files[1..], pattern, labelColumn, labelOf);
      } else {
        assert Matching(files, pattern) == [f] + mr;
        var t := Labelled(f, labelColumn, labelOf).value;
        var r := Collect(acc + [t], files[1..], pattern, labelColumn, labelOf);
        assert Collect(acc, files, pattern, labelColumn, labelOf) == r;
        CollectFrames(acc + [t], files[1..], pattern, labelColumn, labelOf);
        FramesCons(acc, f, mr, labelColumn, labelOf, r.value);
      }
    }
  }

  /** The frames collected after a matching file: the file's frame, then
      the frames of the later matching files. */
  lemma FramesCons(acc: seq<Table>, f: TsvFile, mr: seq<TsvFile>, labelColumn: string,
                   labelOf: string -> Option<string>, r: seq<Table>)
    requires Labelled(f, labelColumn, labelOf).Some?
    requires FramesAfter(acc + [Labelled(f, labelColumn, labelOf).value], mr, labelColumn, labelOf, r)
    ensures FramesAfter(acc, [f] + mr, labelColumn, labelOf, r)
  {
    ShiftCons(acc, f, mr, g => Labelled(g, labelColumn, labelOf), r);
  }

  /** The index shift behind FramesCons, for any labelling function. */
  lemma ShiftCons<A, B>(acc: seq<B>, f: A, mr: seq<A>, lab: A -> Option<B>, r: seq<B>)
    requires lab(f).Some?
    requires |r| == |acc| + 1 + |mr| && r[..|acc| + 1] == acc + [lab(f).value]
    requires forall k :: 0 <= k < |mr| ==> lab(mr[k]).Some? && r[|acc| + 1 + k] == lab(mr[k]).value
    ensures r[..|acc|] == acc
    ensures forall k :: 0 <= k < |[f] + mr| ==> lab(([f] + mr)[k]).Some? && r[|acc| + k] == lab(([f] + mr)[k]).value
  {
    var m := [f] + mr;
    var acc1 := acc + [lab(f).value];
    assert r[..|acc|] == r[..|acc1|][..|acc|];
    forall k | 0 <= k < |m|
      ensures lab(m[k]).Some? && r[|acc| + k] == lab(m[k]).value
    {
      if k == 0 {
        assert r[|acc|] == r[..|acc1|][|acc|];
      } else {
        assert m[k] == mr[k - 1];
        assert r[|acc| + k] == r[|acc1| + (k - 1)];
      }
    }
  }

  // ---------------------------------------------------------------------
  // Properties of the concatenation

  lemma {:induction false} ConcatRowsAt(ts: seq<Table>, cols: seq<string>, k: nat, j: nat)
    requires k < |ts| && j < |ts[k].rows|
    ensures TotalRows(ts[..k]) + j < |ConcatRows(ts, cols)|
    ensures ConcatRows(ts, cols)[TotalRows(ts[..k]) + j] == PadRow(ts[k].rows[j], cols)
    decreases |ts|
  {
    var init := ts[..|ts| - 1];
    var last := ts[|ts| - 1];
    if k == |ts| - 1 {
      assert init == ts[..k];
    } else {
      assert init[..k] == ts[..k] && init[k] == ts[k];
      ConcatRowsAt(init, cols, k, j);
      TotalRowsAppend(init, [last]);
      assert init + [last] == ts;
    }
  }

  /** Frames with the same row counts have the same total. */
  lemma {:induction false} TotalRowsSame(ts: seq<Table>, us: seq<Table>)
    requires |ts| == |us| && forall k :: 0 <= k < |ts| ==> |ts[k].rows| == |us[k].rows|
    ensures TotalRows(ts) == TotalRows(us)
    decreases |ts|
  {
    if ts != [] {
      TotalRowsSame(ts[..|ts| - 1], us[..|us| - 1]);
    }
  }

  /** The frames of the given files, before labelling. */
  function FileTables(fs: seq<TsvFile>): (ts: seq<Table>)
    ensures |ts| == |fs| && forall k :: 0 <= k < |fs| ==> ts[k] == fs[k].table
  {
    seq(|fs|, k requires 0 <= k < |fs| => fs[k].table)
  }

  /** Labelling keeps a frame's rows, their cells and its columns in place,
      adds the label cell to every row, and adds the label column and no
      other. */
  lemma LabelledShape(f: TsvFile, labelColumn: string, labelOf: string -> Option<string>)
    requires Labelled(f, labelColumn, labelOf).Some?
    ensures var t := Labelled(f, labelColumn, labelOf).value;
      && |t.rows| == |f.table.rows|
      && (forall c :: c in f.table.columns ==> c in t.columns)
      && t.columns[..|f.table.columns|] == f.table.columns
      && ColumnSet(t.columns) == ColumnSet(f.table.columns) + (if labelColumn != "" then {labelColumn} else {})
      && (labelColumn != "" ==> labelColumn in t.columns)
      && (forall j, c :: 0 <= j < |t.rows| && c != labelColumn ==> Get(t.rows[j], c) == Get(f.table.rows[j], c))
      && (labelColumn != "" ==> forall j :: 0 <= j < |t.rows| ==>
            Get(t.rows[j], labelColumn) == Some(Text(labelOf(f.name).value)))
  {
    if labelColumn != "" {
      WithConstColumnSets(f.table, labelColumn, Some(Text(labelOf(f.name).value)));
      var t := Labelled(f, labelColumn, labelOf).value;
      forall c | c in f.table.columns ensures c in t.columns {
        var i :| 0 <= i < |f.table.columns| && f.table.columns[i] == c;
        assert t.columns[..|f.table.columns|][i] == c;
      }
    }
  }

  /** Reading fails only when the label function fails on a matched name;
      with no matching file the result is the empty frame. */
  lemma ReadAndLabelFails(files: seq<TsvFile>, pattern: string, labelColumn: string, labelOf: string -> Option<string>)
    ensures var m := Matching(files, pattern);
      && (ReadAndLabel(files, pattern, labelColumn, labelOf).Err? <==>
            labelColumn != "" && exists k :: 0 <= k < |m| && labelOf(m[k].name).None?)
      && (m == [] ==> ReadAndLabel(files, pattern, labelColumn, labelOf) == Ok(EMPTY_FRAME))
  {
    CollectSucceeds([], files, pattern, labelColumn, labelOf);
  }

  /** The merged frame has one row per row of the matched files, file by
      file in listing order: the row at offset j of the k-th matched file
      carries that file's labelOf, and every other column holds that file's
      cell (NaN where the file lacks the column). The merged columns are
      the union of the labelled files' columns, without repetition. */
  lemma ReadAndLabelRows(files: seq<TsvFile>, pattern: string, labelColumn: string,
                         labelOf: string -> Option<string>, k: nat, j: nat)
    requires ReadAndLabel(files, pattern, labelColumn, labelOf).Ok?
    requires k < |Matching(files, pattern)| && j < |Matching(files, pattern)[k].table.rows|
    ensures var m := Matching(files, pattern);
      var t := ReadAndLabel(files, pattern, labelColumn, labelOf).value;
      var at := TotalRows(FileTables(m)[..k]) + j;
      && |t.rows| == TotalRows(FileTables(m))
      && at < |t.rows|
      && (labelColumn != "" ==>
            && labelOf(m[k].name).Some?
            && labelColumn in t.columns
            && Get(t.rows[at], labelColumn) == Some(Text(labelOf(m[k].name).value)))
      && (forall c :: c in t.columns && c != labelColumn ==> Get(t.rows[at], c) == Get(m[k].table.rows[j], c))
      && (forall c :: c in m[k].table.columns ==> c in t.columns)
  {
    var m := Matching(files, pattern);
    var t := ReadAndLabel(files, pattern, labelColumn, labelOf).value;
    ReadAndLabelCount(files, pattern, labelColumn, labelOf);
    var dfs := ReadFrames(files, pattern, labelColumn, labelOf);
    var r := MergedRowAt(files, pattern, labelColumn, labelOf, k, j);
    LabelledShape(m[k], labelColumn, labelOf);
    assert dfs[k] == Labelled(m[k], labelColumn, labelOf).value;
    forall c | c in m[k].table.columns ensures c in t.columns {
      UnionColumnsOf(dfs, k, c);
    }
    if labelColumn != "" {
      UnionColumnsOf(dfs, k, labelColumn);
    }
    PaddedRowCells(m[k], labelColumn, labelOf, j, t.columns);
  }

  /** A labelled file has its own columns and the label column, if set. */
  lemma LabelledColumnsHas(f: TsvFile, labelColumn: string, labelOf: string -> Option<string>, c: string)
    requires Labelled(f, labelColumn, labelOf).Some?
    ensures c in Labelled(f, labelColumn, labelOf).value.columns <==>
      c in f.table.columns || (labelColumn != "" && c == labelColumn)
  {
    LabelledShape(f, labelColumn, labelOf);
    var t := Labelled(f, labelColumn, labelOf).value;
    assert c in t.columns <==> c in ColumnSet(t.columns);
    assert c in f.table.columns <==> c in ColumnSet(f.table.columns);
  }

  /** The merged frame's columns are exactly the matched files' own
      columns, plus the label column when one is set and some file matched. */
  lemma ReadAndLabelColumns(files: seq<TsvFile>, pattern: string, labelColumn: string,
                            labelOf: string -> Option<string>, c: string)
    requires ReadAndLabel(files, pattern, labelColumn, labelOf).Ok?
    ensures var m := Matching(files, pattern);
      c in ReadAndLabel(files, pattern, labelColumn, labelOf).value.columns <==>
        (exists k :: 0 <= k < |m| && c in m[k].table.columns) || (labelColumn != "" && m != [] && c == labelColumn)
  {
    var m := Matching(files, pattern);
    var t := ReadAndLabel(files, pattern, labelColumn, labelOf).value;
    var dfs := ReadFrames(files, pattern, labelColumn, labelOf);
    if m != [] {
      assert t.columns == UnionColumns(dfs);
      UnionColumnsHas(dfs, c);
      if c in t.columns {
        var k :| 0 <= k < |dfs| && c in dfs[k].columns;
        LabelledColumnsHas(m[k], labelColumn, labelOf, c);
      }
      if k :| 0 <= k < |m| && c in m[k].table.columns {
        LabelledColumnsHas(m[k], labelColumn, labelOf, c);
      }
      if labelColumn != "" && c == labelColumn {
        LabelledColumnsHas(m[0], labelColumn, labelOf, c);
      }
    }
  }

  /** A labelled file's row reindexed to columns that include the label
      column: the label where the file was labelled, the file's own cell
      (NaN where it has none) everywhere else. */
  lemma PaddedRowCells(f: TsvFile, labelColumn: string, labelOf: string -> Option<string>, j: nat, cols: seq<string>)
    requires Labelled(f, labelColumn, labelOf).Some?
    requires j < |f.table.rows|
    requires labelColumn != "" ==> labelColumn in cols
    ensures var r := PadRow(Labelled(f, labelColumn, labelOf).value.rows[j], cols);
      && (labelColumn != "" ==> labelOf(f.name).Some? && Get(r, labelColumn) == Some(Text(labelOf(f.name).value)))
      && (forall c :: c in cols && c != labelColumn ==> Get(r, c) == Get(f.table.rows[j], c))
  {
    LabelledShape(f, labelColumn, labelOf);
    var lr := Labelled(f, labelColumn, labelOf).value.rows[j];
    forall c | c in cols ensures Get(PadRow(lr, cols), c) == Get(lr, c) {
    }
  }

  /** Where the j-th row of the k-th matched file lands in the merged frame. */
  lemma MergedRowAt(files: seq<TsvFile>, pattern: string, labelColumn: string,
                    labelOf: string -> Option<string>, k: nat, j: nat) returns (r: Row)
    requires ReadAndLabel(files, pattern, labelColumn, labelOf).Ok?
    requires k < |Matching(files, pattern)| && j < |Matching(files, pattern)[k].table.rows|
    ensures var m := Matching(files, pattern);
      var t := ReadAndLabel(files, pattern, labelColumn, labelOf).value;
      var at := TotalRows(FileTables(m)[..k]) + j;
      && Labelled(m[k], labelColumn, labelOf).Some?
      && j < |Labelled(m[k], labelColumn, labelOf).value.rows|
      && r == Labelled(m[k], labelColumn, labelOf).value.rows[j]
      && at < |t.rows|
      && t.rows[at] == PadRow(r, t.columns)
  {
    var m := Matching(files, pattern);
    var dfs := ReadFrames(files, pattern, labelColumn, labelOf);
    var cols := UnionColumns(dfs);
    LabelledShape(m[k], labelColumn, labelOf);
    var fk := FileTables(m)[..k];
    assert |dfs[..k]| == |fk|;
    forall i | 0 <= i < k ensures |dfs[..k][i].rows| == |fk[i].rows| {
      assert dfs[..k][i] == dfs[i] && fk[i] == m[i].table;
      LabelledShape(m[i], labelColumn, labelOf);
    }
    TotalRowsSame(dfs[..k], fk);
    ConcatRowsAt(dfs, cols, k, j);
    r := dfs[k].rows[j];
  }

  /** The labelled frames a successful read concatenates. */
  lemma ReadFrames(files: seq<TsvFile>, pattern: string, labelColumn: string, labelOf: string -> Option<string>)
    returns (dfs: seq<Table>)
    requires ReadAndLabel(files, pattern, labelColumn, labelOf).Ok?
    ensures var m := Matching(files, pattern);
      && |dfs| == |m|
      && ReadAndLabel(files, pattern, labelColumn, labelOf).value == Concat(dfs)
      && forall i :: 0 <= i < |m| ==> Labelled(m[i], labelColumn, labelOf).Some? && dfs[i] == Labelled(m[i], labelColumn, labelOf).value
  {
    CollectFrames([], files, pattern, labelColumn, labelOf);
    dfs := Collect([], files, pattern, labelColumn, labelOf).value;
    FramesFromStart(Matching(files, pattern), labelColumn, labelOf, dfs);
  }

  /** Frames collected from an empty start are the labelled files themselves. */
  lemma FramesFromStart(m: seq<TsvFile>, labelColumn: string, labelOf: string -> Option<string>, r: seq<Table>)
    requires FramesAfter([], m, labelColumn, labelOf, r)
    ensures |r| == |m|
    ensures forall i :: 0 <= i < |m| ==> Labelled(m[i], labelColumn, labelOf).Some? && r[i] == Labelled(m[i], labelColumn, labelOf).value
  {
    var start: seq<Table> := [];
    forall i | 0 <= i < |m| ensures Labelled(m[i], labelColumn, labelOf).Some? && r[i] == Labelled(m[i], labelColumn, labelOf).value {
      assert r[|start| + i] == r[i];
    }
  }

  /** The merged frame has as many rows as the matched files together. */
  lemma ReadAndLabelCount(files: seq<TsvFile>, pattern: string, labelColumn: string, labelOf: string -> Option<string>)
    requires ReadAndLabel(files, pattern, labelColumn, labelOf).Ok?
    ensures |ReadAndLabel(files, pattern, labelColumn, labelOf).value.rows| == TotalRows(FileTables(Matching(files, pattern)))
  {
    var m := Matching(files, pattern);
    var dfs := ReadFrames(files, pattern, labelColumn, labelOf);
    forall i | 0 <= i < |m| ensures |dfs[i].rows| == |FileTables(m)[i].rows| {
      LabelledShape(m[i], labelColumn, labelOf);
    }
    TotalRowsSame(dfs, FileTables(m));
  }

  /** With a falsy label column no column is added: the result is the
      plain concatenation of the matched frames. */
  lemma ReadUnlabelled(files: seq<TsvFile>, pattern: string, labelOf: string -> Option<string>)
    ensures ReadAndLabel(files, pattern, "", labelOf) == Ok(Concat(FileTables(Matching(files, pattern))))
  {
    var m := Matching(files, pattern);
    CollectSucceeds([], files, pattern, "", labelOf);
    var dfs := ReadFrames(files, pattern, "", labelOf);
    assert dfs == FileTables(m);
  }

  // ---------------------------------------------------------------------
  // main

  /** lambda f: f.split('.')[1]; None where the split has one field. */
  function MetadataLabel(name: string): Option<string> {
    var fields := Split(name, '.');
    if |fields| >= 2 then Some(fields[1]) else None
  }

  /** A name ending in ".metadata.tsv" contains a dot, so the label exists
      and is the text between the first and the second dot. */
  lemma MetadataLabelDefined(name: string)
    requires EndsWith(name, METADATA_PATTERN)
    ensures MetadataLabel(name).Some?
    ensures '.' !in MetadataLabel(name).value
  {
    var n := |name| - |METADATA_PATTERN|;
    assert name[n..][0] == '.';
    assert name[n] in name;
    SplitHasSecondField(name, '.');
    SplitFieldsFree(name, '.');
  }

  /** Reading the metadata files never fails. */
  lemma MetadataReadSucceeds(files: seq<TsvFile>)
    ensures ReadAndLabel(files, METADATA_PATTERN, LABEL_COLUMN, MetadataLabel).Ok?
  {
    var m := Matching(files, METADATA_PATTERN);
    forall k | 0 <= k < |m| ensures MetadataLabel(m[k].name).Some? {
      MatchingHas(files, METADATA_PATTERN, m[k]);
      MetadataLabelDefined(m[k].name);
    }
    ReadAndLabelFails(files, METADATA_PATTERN, LABEL_COLUMN, MetadataLabel);
  }

  /** The merged metadata frame of a listing. */
  function MergedMetadata(files: seq<TsvFile>): Table {
    MetadataReadSucceeds(files);
    ReadAndLabel(files, METADATA_PATTERN, LABEL_COLUMN, MetadataLabel).value
  }

  /** set.intersection(*sets): the elements common to every set. */
  function Intersection(sets: seq<set<string>>): (r: set<string>)
    requires |sets| >= 1
    ensures forall c :: c in r <==> forall k :: 0 <= k < |sets| ==> c in sets[k]
  {
    if |sets| == 1 then sets[0]
    else
      var r := Intersection(sets[1..]) * sets[0];
      assert forall k :: 1 <= k < |sets| ==> sets[1..][k - 1] == sets[k];
      r
  }

  /** df[cols]: the frame restricted to the listed columns, in that order. */
  function Project(t: Table, cols: seq<string>): Table {
    Table(cols, seq(|t.rows|, i requires 0 <= i < |t.rows| => map c | c in ColumnSet(cols) :: Get(t.rows[i], c)))
  }

  /** list(s): the set's elements once each, in an order the model leaves open. */
  method SetToSeq(s: set<string>) returns (xs: seq<string>)
    ensures Distinct(xs) && ColumnSet(xs) == s
  {
    xs := [];
    var rest := s;
    while rest != {}
      invariant Distinct(xs) && ColumnSet(xs) + rest == s && ColumnSet(xs) !! rest
      decreases |rest|
    {
      var c :| c in rest;
      xs := xs + [c];
      rest := rest - {c};
    }
  }

  /** The body of main after argument parsing: None when the merged frame
      is empty (nothing is written); otherwise the frame restricted to its
      common columns, which are exactly its own columns, so nothing is
      dropped: the same rows with the same cells, in some column order. */
  method MergeMetadata(files: seq<TsvFile>) returns (output: Option<Table>)
    ensures output.None? <==> IsEmpty(MergedMetadata(files))
    ensures Matching(files, METADATA_PATTERN) == [] ==> output.None?
    ensures output.Some? ==>
      var merged := MergedMetadata(files);
      && Distinct(output.value.columns)
      && ColumnSet(output.value.columns) == ColumnSet(merged.columns)
      && |output.value.rows| == |merged.rows|
      && forall i, c :: 0 <= i < |merged.rows| && c in merged.columns ==>
           Get(output.value.rows[i], c) == Get(merged.rows[i], c)
  {
    var read := ReadAndLabelFiles(files, METADATA_PATTERN, LABEL_COLUMN, MetadataLabel);
    MetadataReadSucceeds(files);
    ReadAndLabelFails(files, METADATA_PATTERN, LABEL_COLUMN, MetadataLabel);
    var metadata := read.value;
    if IsEmpty(metadata) {
      return None;
    }
    var common := Intersection([ColumnSet(metadata.columns)]);
    var commonColumns := SetToSeq(common);
    output := Some(Project(metadata, commonColumns));
  }
}
