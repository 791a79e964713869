/** join_primary_secondary: deduplicate the primary table on form_id,
    derive year and month from collection_date, reduce the secondary table
    to form_id plus three coalesced accession columns, and inner-join the
    two on form_id. */
module PrimarySecondaryJoin {
  import opened Wrappers
  import opened Tables

  const FORM_ID: string := "form_id"
  const COLLECTION_DATE: string := "collection_date"
  const YEAR: string := "year"
  const MONTH: string := "month"

  const SAL_PROJECT: string := "salmonella_bio_project_number"
  const CAMPY_PROJECT: string := "campylobacter_bio_project_number"
  const SAL_SAMPLE: string := "salmonella_bio_sample_accession_number"
  const CAMPY_SAMPLE: string := "campylobacter_bio_sample_accession_number"
  const SAL_SRA: string := "salmonella_sra_accession_number"
  const CAMPY_SRA: string := "campylobacter_sra_accession_number"

  const BIO_PROJECT: string := "bio_project_number"
  const BIO_SAMPLE: string := "bio_sample_number"
  const SRA_ACCESSION: string := "sra_accession_number"

  /** The columns the secondary table is restricted to first. */
  const SECONDARY_COLUMNS: seq<string> :=
    [FORM_ID, SAL_PROJECT, CAMPY_PROJECT, SAL_SAMPLE, CAMPY_SAMPLE, SAL_SRA, CAMPY_SRA]

  /** The secondary table's columns once the pairs are coalesced and dropped. */
  const SIMPLIFIED_COLUMNS: seq<string> := [FORM_ID, BIO_PROJECT, BIO_SAMPLE, SRA_ACCESSION]

  /** KeyError for absent columns; MergeError for clashing output labels. */
  datatype JoinError = MissingColumns(names: seq<string>) | DuplicateColumns(names: seq<string>)

  /** The wanted columns the table lacks, in the order they were asked for. */
  function MissingFrom(cols: seq<string>, wanted: seq<string>): (m: seq<string>)
    ensures forall c :: c in m <==> c in wanted && c !in cols
    ensures m == [] <==> forall c :: c in wanted ==> c in cols
  {
    if wanted == [] then []
    else (if wanted[0] in cols then [] else [wanted[0]]) + MissingFrom(cols, wanted[1..])
  }

  // ---------------------------------------------------------------------
  // Keys

  /** The set of values of column `key` over the rows. */
  function KeysOf(rows: seq<Row>, key: string): set<Cell> {
    set j | 0 <= j < |rows| :: Get(rows[j], key)
  }

  /** No two rows share a value of column `key`. */
  predicate UniqueKeys(rows: seq<Row>, key: string) {
    forall a, b :: 0 <= a < b < |rows| ==> Get(rows[a], key) != Get(rows[b], key)
  }

  lemma {:induction false} SameKeys(xs: seq<Row>, ys: seq<Row>, key: string)
    requires |xs| == |ys|
    requires forall i :: 0 <= i < |xs| ==> Get(xs[i], key) == Get(ys[i], key)
    ensures KeysOf(xs, key) == KeysOf(ys, key)
  {
    forall v | v in KeysOf(xs, key) ensures v in KeysOf(ys, key) {
      var j :| 0 <= j < |xs| && Get(xs[j], key) == v;
      assert Get(ys[j], key) == v;
    }
    forall v | v in KeysOf(ys, key) ensures v in KeysOf(xs, key) {
      var j :| 0 <= j < |ys| && Get(ys[j], key) == v;
      assert Get(xs[j], key) == v;
    }
  }

  // ---------------------------------------------------------------------
  // Step 1: df[~df.duplicated(subset=key)]

  /** duplicated(keep='first') is false exactly for the first row of each
      key value (NaN keys compare equal to each other). */
  predicate IsFirstOccurrence(rows: seq<Row>, key: string, i: nat)
    requires i < |rows|
  {
    forall j :: 0 <= j < i ==> Get(rows[j], key) != Get(rows[i], key)
  }

  /** The rows that are not duplicates of an earlier row, in input order. */
  function KeepFirst(rows: seq<Row>, key: string): seq<Row> {
    if rows == [] then []
    else
      var init := rows[..|rows| - 1];
      var last := rows[|rows| - 1];
      KeepFirst(init, key) + (if Get(last, key) in KeysOf(init, key) then [] else [last])
  }

  function DropDuplicateKeys(t: Table, key: string): Result<Table, JoinError> {
    if key !in t.columns then Err(MissingColumns([key])) else Ok(Table(t.columns, KeepFirst(t.rows, key)))
  }

  /** Deduplication fails exactly when the key column is absent, and then
      names it; otherwise it keeps the column list. */
  lemma DropDuplicateKeysFails(t: Table, key: string)
    ensures DropDuplicateKeys(t, key).Err? <==> key !in t.columns
    ensures key !in t.columns ==> DropDuplicateKeys(t, key) == Err(MissingColumns([key]))
    ensures key in t.columns ==> DropDuplicateKeys(t, key).value.columns == t.columns
  {
  }

  lemma {:induction false} KeysOfAppend(xs: seq<Row>, ys: seq<Row>, key: string)
    ensures KeysOf(xs + ys, key) == KeysOf(xs, key) + KeysOf(ys, key)
  {
    var zs := xs + ys;
    forall v | v in KeysOf(zs, key) ensures v in KeysOf(xs, key) + KeysOf(ys, key) {
      var j :| 0 <= j < |zs| && Get(zs[j], key) == v;
      if j >= |xs| {
        assert ys[j - |xs|] == zs[j];
      }
    }
    forall v | v in KeysOf(xs, key) ensures v in KeysOf(zs, key) {
      var j :| 0 <= j < |xs| && Get(xs[j], key) == v;
      assert zs[j] == xs[j];
    }
    forall v | v in KeysOf(ys, key) ensures v in KeysOf(zs, key) {
      var j :| 0 <= j < |ys| && Get(ys[j], key) == v;
      assert zs[|xs| + j] == ys[j];
    }
  }

  /** Deduplication loses no key value. */
  lemma {:induction false} KeepFirstKeySet(rows: seq<Row>, key: string)
    ensures KeysOf(KeepFirst(rows, key), key) == KeysOf(rows, key)
    decreases |rows|
  {
    if rows != [] {
      var init := rows[..|rows| - 1];
      var last := rows[|rows| - 1];
      KeepFirstKeySet(init, key);
      var added := if Get(last, key) in KeysOf(init, key) then [] else [last];
      KeysOfAppend(KeepFirst(init, key), added, key);
      assert KeysOf([last], key) == {Get(last, key)} by {
        assert [last][0] == last;
      }
      assert KeysOf([], key) == {};
    }
  }

  /** Deduplication leaves no key twice. */
  lemma {:induction false} KeepFirstUnique(rows: seq<Row>, key: string)
    ensures UniqueKeys(KeepFirst(rows, key), key)
    decreases |rows|
  {
    if rows != [] {
      var init := rows[..|rows| - 1];
      var last := rows[|rows| - 1];
      KeepFirstUnique(init, key);
      KeepFirstKeySet(init, key);
      var prev := KeepFirst(init, key);
      if Get(last, key) !in KeysOf(init, key) {
        var out := prev + [last];
        assert KeepFirst(rows, key) == out;
        forall a, b | 0 <= a < b < |out| ensures Get(out[a], key) != Get(out[b], key) {
          assert out[a] == prev[a];
          if b == |prev| {
            assert Get(prev[a], key) in KeysOf(prev, key);
          } else {
            assert out[b] == prev[b];
          }
        }
      } else {
        assert KeepFirst(rows, key) == prev + [];
        assert prev + [] == prev;
      }
    }
  }

  /** `kept` is `rows` at the positions `idx`. */
  predicate Picks(rows: seq<Row>, kept: seq<Row>, idx: seq<nat>) {
    && |idx| == |kept|
    && (forall k :: 0 <= k < |idx| ==> idx[k] < |rows| && kept[k] == rows[idx[k]])
  }

  predicate Increasing(idx: seq<nat>) {
    forall k, l :: 0 <= k < l < |idx| ==> idx[k] < idx[l]
  }

  /** The positions in `idx` are exactly the first occurrences of their keys. */
  predicate FirstsAre(rows: seq<Row>, key: string, idx: seq<nat>) {
    forall i :: 0 <= i < |rows| ==> (i in idx <==> IsFirstOccurrence(rows, key, i))
  }

  /** `kept` is `rows` at the positions `idx`, which are strictly
      increasing and are exactly the first occurrences of their keys. */
  predicate SurvivorIndexes(rows: seq<Row>, key: string, kept: seq<Row>, idx: seq<nat>) {
    Picks(rows, kept, idx) && Increasing(idx) && FirstsAre(rows, key, idx)
  }

  /** The survivors are exactly the first occurrences, in input order:
      idx lists the kept input positions, strictly increasing, and a
      position is kept iff no earlier row has the same key. */
  lemma {:induction false} KeepFirstOccurrences(rows: seq<Row>, key: string) returns (idx: seq<nat>)
    ensures SurvivorIndexes(rows, key, KeepFirst(rows, key), idx)
    decreases |rows|
  {
    if rows == [] {
      idx := [];
    } else {
      var n := |rows| - 1;
      var init := rows[..n];
      var prevIdx := KeepFirstOccurrences(init, key);
      OccurrencesInPrefix(rows, key);
      PicksPrefix(rows, KeepFirst(init, key), prevIdx);
      if Get(rows[n], key) !in KeysOf(init, key) {
        idx := prevIdx + [n];
        assert KeepFirst(rows, key) == KeepFirst(init, key) + [rows[n]];
        PicksSnoc(rows, KeepFirst(init, key), prevIdx);
        IncreasingSnoc(prevIdx, n);
        FirstsSnoc(rows, key, prevIdx, true);
      } else {
        idx := prevIdx;
        assert KeepFirst(rows, key) == KeepFirst(init, key) + [];
        assert KeepFirst(init, key) + [] == KeepFirst(init, key);
        FirstsSnoc(rows, key, prevIdx, false);
      }
    }
  }

  /** Positions picked from a prefix pick the same rows from the whole. */
  lemma PicksPrefix(rows: seq<Row>, kept: seq<Row>, idx: seq<nat>)
    requires rows != [] && Picks(rows[..|rows| - 1], kept, idx)
    ensures Picks(rows, kept, idx)
    ensures forall k :: 0 <= k < |idx| ==> idx[k] < |rows| - 1
  {
    forall k | 0 <= k < |idx| ensures kept[k] == rows[idx[k]] {
      assert rows[..|rows| - 1][idx[k]] == rows[idx[k]];
    }
  }

  /** Keeping the last row as well. */
  lemma PicksSnoc(rows: seq<Row>, kept: seq<Row>, idx: seq<nat>)
    requires rows != [] && Picks(rows, kept, idx)
    ensures Picks(rows, kept + [rows[|rows| - 1]], idx + [|rows| - 1])
  {
    var idx' := idx + [|rows| - 1];
    var kept' := kept + [rows[|rows| - 1]];
    forall k | 0 <= k < |idx'| ensures idx'[k] < |rows| && kept'[k] == rows[idx'[k]] {
      if k < |idx| { assert idx'[k] == idx[k] && kept'[k] == kept[k]; }
    }
  }

  lemma IncreasingSnoc(idx: seq<nat>, n: nat)
    requires Increasing(idx) && forall k :: 0 <= k < |idx| ==> idx[k] < n
    ensures Increasing(idx + [n])
  {
    var idx' := idx + [n];
    forall k, l | 0 <= k < l < |idx'| ensures idx'[k] < idx'[l] {
      assert idx'[k] == idx[k];
      if l < |idx| { assert idx'[l] == idx[l]; }
    }
  }

  /** The first occurrences of `rows` are those of its prefix, plus the
      last position when its key is new. */
  lemma FirstsSnoc(rows: seq<Row>, key: string, idx: seq<nat>, added: bool)
    requires rows != []
    requires var n := |rows| - 1;
      && FirstsAre(rows[..n], key, idx)
      && (forall k :: 0 <= k < |idx| ==> idx[k] < n)
      && (forall i :: 0 <= i < n ==> (IsFirstOccurrence(rows[..n], key, i) <==> IsFirstOccurrence(rows, key, i)))
      && (added <==> IsFirstOccurrence(rows, key, n))
    ensures FirstsAre(rows, key, if added then idx + [|rows| - 1] else idx)
  {
    var n := |rows| - 1;
    var idx' := if added then idx + [n] else idx;
    forall i | 0 <= i < |rows| ensures i in idx' <==> IsFirstOccurrence(rows, key, i) {
      assert i in idx' <==> i in idx || (added && i == n);
      if i == n { assert n !in idx; }
    }
  }

  /** Dropping the last row changes no earlier row's first-occurrence
      status, and the last row is a first occurrence iff its key is new. */
  lemma OccurrencesInPrefix(rows: seq<Row>, key: string)
    requires rows != []
    ensures var n := |rows| - 1;
      && (forall i :: 0 <= i < n ==> (IsFirstOccurrence(rows[..n], key, i) <==> IsFirstOccurrence(rows, key, i)))
      && (Get(rows[n], key) !in KeysOf(rows[..n], key) <==> IsFirstOccurrence(rows, key, n))
  {
    var n := |rows| - 1;
    var init := rows[..n];
    assert forall i :: 0 <= i < n ==> init[i] == rows[i];
    if Get(rows[n], key) in KeysOf(init, key) {
      var j :| 0 <= j < n && Get(init[j], key) == Get(rows[n], key);
      assert Get(rows[j], key) == Get(rows[n], key);
    }
  }

  // ---------------------------------------------------------------------
  // Step 2: to_datetime(errors="coerce"), .dt.year, .dt.month

  /** The timestamp to_datetime gives a cell: NaT for a missing cell, and
      for a value whatever the (abstract, partial) parser returns. */
  function ParsedDate(r: Row, parse: Value -> Option<Date>): Option<Date> {
    match Get(r, COLLECTION_DATE)
    case None => None
    case Some(v) => parse(v)
  }

  function DatedRow(r: Row, parse: Value -> Option<Date>): Row {
    var d := ParsedDate(r, parse);
    r[COLLECTION_DATE := if d.Some? then Some(Stamp(d.value)) else None]
     [YEAR := if d.Some? then Some(Number(d.value.year)) else None]
     [MONTH := if d.Some? then Some(Number(d.value.month)) else None]
  }

  function DeriveYearMonth(t: Table, parse: Value -> Option<Date>): Result<Table, JoinError> {
    if COLLECTION_DATE !in t.columns then Err(MissingColumns([COLLECTION_DATE]))
    else
      Ok(Table(WithColumnName(WithColumnName(t.columns, YEAR), MONTH),
               seq(|t.rows|, i requires 0 <= i < |t.rows| => DatedRow(t.rows[i], parse))))
  }

  /** Date derivation fails only for a missing collection_date column and
      never drops a row; an unparseable or missing date becomes null and so
      do that row's year and month; a parsed date gives its year and month;
      every other cell is unchanged, and year and month are added after the
      existing columns. */
  lemma DeriveYearMonthRow(t: Table, parse: Value -> Option<Date>, i: nat)
    requires COLLECTION_DATE in t.columns && i < |t.rows|
    ensures var r := DeriveYearMonth(t, parse);
      && r.Ok?
      && |r.value.rows| == |t.rows|
      && r.value.columns[..|t.columns|] == t.columns
      && YEAR in r.value.columns && MONTH in r.value.columns
      && var d := ParsedDate(t.rows[i], parse);
         var o := r.value.rows[i];
         && (d.None? ==> Get(o, COLLECTION_DATE) == None && Get(o, YEAR) == None && Get(o, MONTH) == None)
         && (d.Some? ==> && Get(o, COLLECTION_DATE) == Some(Stamp(d.value))
                         && Get(o, YEAR) == Some(Number(d.value.year))
                         && Get(o, MONTH) == Some(Number(d.value.month)))
         && forall c :: c != COLLECTION_DATE && c != YEAR && c != MONTH ==> Get(o, c) == Get(t.rows[i], c)
  {
    DerivedColumns(t.columns);
    DatedRowCells(t.rows[i], parse);
    assert DeriveYearMonth(t, parse).value.rows[i] == DatedRow(t.rows[i], parse);
  }

  /** Date derivation fails exactly when the collection_date column is
      absent, and then names it. */
  lemma DeriveYearMonthFails(t: Table, parse: Value -> Option<Date>)
    ensures DeriveYearMonth(t, parse).Err? <==> COLLECTION_DATE !in t.columns
    ensures COLLECTION_DATE !in t.columns ==> DeriveYearMonth(t, parse) == Err(MissingColumns([COLLECTION_DATE]))
  {
  }

  /** year and month are added after the existing columns, and no other
      column is. */
  lemma DerivedColumns(cols: seq<string>)
    ensures var r := WithColumnName(WithColumnName(cols, YEAR), MONTH);
      && r[..|cols|] == cols
      && YEAR in r && MONTH in r
      && ColumnSet(r) == ColumnSet(cols) + {YEAR, MONTH}
      && |r| <= |cols| + 2
  {
    var cols1 := WithColumnName(cols, YEAR);
    var cols2 := WithColumnName(cols1, MONTH);
    assert cols2[..|cols|] == cols2[..|cols1|][..|cols|];
    assert YEAR in ColumnSet(cols2);
  }

  /** One row after date derivation: an unparseable or missing date nulls
      the date, year and month; a parsed date gives all three; nothing
      else changes. */
  lemma DatedRowCells(r: Row, parse: Value -> Option<Date>)
    ensures var d := ParsedDate(r, parse);
      var o := DatedRow(r, parse);
      && (d.None? ==> Get(o, COLLECTION_DATE) == None && Get(o, YEAR) == None && Get(o, MONTH) == None)
      && (d.Some? ==> && Get(o, COLLECTION_DATE) == Some(Stamp(d.value))
                      && Get(o, YEAR) == Some(Number(d.value.year))
                      && Get(o, MONTH) == Some(Number(d.value.month)))
      && forall c :: c != COLLECTION_DATE && c != YEAR && c != MONTH ==> Get(o, c) == Get(r, c)
  {
    assert COLLECTION_DATE != YEAR && COLLECTION_DATE != MONTH && YEAR != MONTH by {
      assert |COLLECTION_DATE| != |YEAR| && |COLLECTION_DATE| != |MONTH| && |YEAR| != |MONTH|;
    }
  }

  // ---------------------------------------------------------------------
  // Step 3: restrict the secondary table, coalesce the pairs, drop them

  /** df[[a, b]].bfill(axis=1).iloc[:, 0]: the first non-null of the pair. */
  function Coalesce(first: Cell, second: Cell): Cell {
    if first.Some? then first else second
  }

  function SimplifiedRow(r: Row): Row {
    map[FORM_ID := Get(r, FORM_ID),
        BIO_PROJECT := Coalesce(Get(r, SAL_PROJECT), Get(r, CAMPY_PROJECT)),
        BIO_SAMPLE := Coalesce(Get(r, SAL_SAMPLE), Get(r, CAMPY_SAMPLE)),
        SRA_ACCESSION := Coalesce(Get(r, SAL_SRA), Get(r, CAMPY_SRA))]
  }

  function SimplifySecondary(t: Table): Result<Table, JoinError> {
    var missing := MissingFrom(t.columns, SECONDARY_COLUMNS);
    if missing != [] then Err(MissingColumns(missing))
    else Ok(Table(SIMPLIFIED_COLUMNS, seq(|t.rows|, i requires 0 <= i < |t.rows| => SimplifiedRow(t.rows[i]))))
  }

  /** The restriction fails exactly when a listed column is absent, and
      then names the absent ones. */
  lemma SimplifySecondaryFails(t: Table)
    ensures SimplifySecondary(t).Err? <==> exists c :: c in SECONDARY_COLUMNS && c !in t.columns
    ensures SimplifySecondary(t).Err? ==>
      SimplifySecondary(t).error == MissingColumns(MissingFrom(t.columns, SECONDARY_COLUMNS))
  {
  }

  /** The simplified secondary table has exactly form_id and the three
      merged columns, keeps every row, and each merged column holds the
      salmonella value when it is non-null and the campylobacter value
      otherwise. */
  lemma SimplifySecondaryRow(t: Table, i: nat)
    requires forall c :: c in SECONDARY_COLUMNS ==> c in t.columns
    requires i < |t.rows|
    ensures var r := SimplifySecondary(t);
      && r.Ok?
      && r.value.columns == [FORM_ID, BIO_PROJECT, BIO_SAMPLE, SRA_ACCESSION]
      && |r.value.rows| == |t.rows|
      && var o := r.value.rows[i];
         var s := t.rows[i];
         && o.Keys == {FORM_ID, BIO_PROJECT, BIO_SAMPLE, SRA_ACCESSION}
         && Get(o, FORM_ID) == Get(s, FORM_ID)
         && Get(o, BIO_PROJECT) == (if Get(s, SAL_PROJECT) != None then Get(s, SAL_PROJECT) else Get(s, CAMPY_PROJECT))
         && Get(o, BIO_SAMPLE) == (if Get(s, SAL_SAMPLE) != None then Get(s, SAL_SAMPLE) else Get(s, CAMPY_SAMPLE))
         && Get(o, SRA_ACCESSION) == (if Get(s, SAL_SRA) != None then Get(s, SAL_SRA) else Get(s, CAMPY_SRA))
  {
  }

  // ---------------------------------------------------------------------
  // Step 4: pd.merge(left, right, on=key, how="inner")

  /** Overlapping non-key columns get the suffixes "_x" (left) and "_y" (right). */
  function LeftName(c: string, key: string, right: seq<string>): string {
    if c != key && c in right then c + "_x" else c
  }

  function RightName(c: string, left: seq<string>): string {
    if c in left then c + "_y" else c
  }

  function LeftNames(cols: seq<string>, key: string, right: seq<string>): (r: seq<string>)
    ensures |r| == |cols| && forall k :: 0 <= k < |cols| ==> r[k] == LeftName(cols[k], key, right)
  {
    if cols == [] then [] else [LeftName(cols[0], key, right)] + LeftNames(cols[1..], key, right)
  }

  /** The right table's columns without the key, which merge drops. */
  function RightNames(cols: seq<string>, key: string, left: seq<string>): (r: seq<string>)
    ensures forall n :: n in r <==> exists c :: c in cols && c != key && n == RightName(c, left)
  {
    if cols == [] then []
    else (if cols[0] == key then [] else [RightName(cols[0], left)]) + RightNames(cols[1..], key, left)
  }

  function JoinedColumns(left: seq<string>, right: seq<string>, key: string): seq<string> {
    LeftNames(left, key, right) + RightNames(right, key, left)
  }

  /** The left row's cells under their output names. */
  function LeftPart(pr: Row, cols: seq<string>, key: string, right: seq<string>): (m: Row)
    ensures m.Keys == ColumnSet(LeftNames(cols, key, right))
  {
    if cols == [] then map[]
    else LeftPart(pr, cols[1..], key, right)[LeftName(cols[0], key, right) := Get(pr, cols[0])]
  }

  /** The right row's non-key cells under their output names. */
  function RightPart(sr: Row, cols: seq<string>, key: string, left: seq<string>): (m: Row)
    ensures m.Keys == ColumnSet(RightNames(cols, key, left))
  {
    if cols == [] then map[]
    else if cols[0] == key then RightPart(sr, cols[1..], key, left)
    else RightPart(sr, cols[1..], key, left)[RightName(cols[0], left) := Get(sr, cols[0])]
  }

  function Combine(pr: Row, sr: Row, left: seq<string>, right: seq<string>, key: string): Row {
    LeftPart(pr, left, key, right) + RightPart(sr, right, key, left)
  }

  /** The output rows for one left row: one per right row with the same key. */
  function Matches(pr: Row, srows: seq<Row>, left: seq<string>, right: seq<string>, key: string): seq<Row> {
    if srows == [] then []
    else
      (if Get(srows[0], key) == Get(pr, key) then [Combine(pr, srows[0], left, right, key)] else [])
      + Matches(pr, srows[1..], left, right, key)
  }

  /** Left rows in order, each followed by its matches in right order. */
  function JoinRows(prows: seq<Row>, srows: seq<Row>, left: seq<string>, right: seq<string>, key: string): seq<Row> {
    if prows == [] then []
    else Matches(prows[0], srows, left, right, key) + JoinRows(prows[1..], srows, left, right, key)
  }

  function InnerJoin(p: Table, s: Table, key: string): Result<Table, JoinError> {
    if key !in p.columns || key !in s.columns then Err(MissingColumns([key]))
    else
      var cols := JoinedColumns(p.columns, s.columns, key);
      if !Distinct(cols) then Err(DuplicateColumns(cols))
      else Ok(Table(cols, JoinRows(p.rows, s.rows, p.columns, s.columns, key)))
  }

  /** Under distinct output names, the left part holds each left cell under its new name. */
  lemma {:induction false} LeftPartAt(pr: Row, cols: seq<string>, key: string, right: seq<string>, k: nat)
    requires k < |cols| && Distinct(LeftNames(cols, key, right))
    ensures LeftName(cols[k], key, right) in LeftPart(pr, cols, key, right)
    ensures LeftPart(pr, cols, key, right)[LeftName(cols[k], key, right)] == Get(pr, cols[k])
    decreases |cols|
  {
    if k > 0 {
      var names := LeftNames(cols, key, right);
      assert names[0] != names[k];
      assert names[1..] == LeftNames(cols[1..], key, right);
      DistinctTail(names);
      assert cols[1..][k - 1] == cols[k];
      LeftPartAt(pr, cols[1..], key, right, k - 1);
    }
  }

  /** The right part holds each non-key right cell under its new name. */
  lemma {:induction false} RightPartAt(sr: Row, cols: seq<string>, key: string, left: seq<string>, k: nat)
    requires k < |cols| && cols[k] != key && Distinct(RightNames(cols, key, left))
    ensures RightName(cols[k], left) in RightPart(sr, cols, key, left)
    ensures RightPart(sr, cols, key, left)[RightName(cols[k], left)] == Get(sr, cols[k])
    decreases |cols|
  {
    if k > 0 {
      var names := RightNames(cols, key, left);
      var tail := RightNames(cols[1..], key, left);
      assert cols[1..][k - 1] == cols[k];
      if cols[0] == key {
        assert names == [] + tail;
        assert [] + tail == tail;
      } else {
        assert names == [RightName(cols[0], left)] + tail;
        assert names[1..] == tail;
        DistinctTail(names);
        assert RightName(cols[k], left) in tail;
        var m :| 0 <= m < |tail| && tail[m] == RightName(cols[k], left);
        assert names[m + 1] == tail[m];
        assert names[0] != names[m + 1];
      }
      RightPartAt(sr, cols[1..], key, left, k - 1);
    }
  }

  lemma DistinctTail<T>(s: seq<T>)
    requires s != [] && Distinct(s)
    ensures Distinct(s[1..])
  {
    forall a, b | 0 <= a < b < |s| - 1 ensures s[1..][a] != s[1..][b] {
      assert s[1..][a] == s[a + 1] && s[1..][b] == s[b + 1];
    }
  }

  /** A joined row has exactly the output columns; each left cell sits
      under its left name and each non-key right cell under its right name,
      and the key cell is the left row's. */
  lemma CombineCells(pr: Row, sr: Row, left: seq<string>, right: seq<string>, key: string)
    requires Distinct(JoinedColumns(left, right, key))
    ensures var o := Combine(pr, sr, left, right, key);
      && o.Keys == ColumnSet(JoinedColumns(left, right, key))
      && (forall k :: 0 <= k < |left| ==> Get(o, LeftName(left[k], key, right)) == Get(pr, left[k]))
      && (forall k :: 0 <= k < |right| && right[k] != key ==> Get(o, RightName(right[k], left)) == Get(sr, right[k]))
      && (key in left ==> Get(o, key) == Get(pr, key))
  {
    var o := Combine(pr, sr, left, right, key);
    var ln := LeftNames(left, key, right);
    var rn := RightNames(right, key, left);
    var jc := JoinedColumns(left, right, key);
    assert forall a :: 0 <= a < |ln| ==> jc[a] == ln[a];
    assert forall m :: 0 <= m < |rn| ==> jc[|ln| + m] == rn[m];
    assert Distinct(ln) && Distinct(rn) by {
      forall a, b | 0 <= a < b < |rn| ensures rn[a] != rn[b] {
        assert jc[|ln| + a] != jc[|ln| + b];
      }
    }
    assert ColumnSet(jc) == ColumnSet(ln) + ColumnSet(rn);
    forall k | 0 <= k < |left| ensures Get(o, LeftName(left[k], key, right)) == Get(pr, left[k]) {
      LeftPartAt(pr, left, key, right, k);
      assert ln[k] !in rn by {
        forall m | 0 <= m < |rn| ensures rn[m] != ln[k] {
          assert jc[|ln| + m] != jc[k];
        }
      }
    }
    forall k | 0 <= k < |right| && right[k] != key
      ensures Get(o, RightName(right[k], left)) == Get(sr, right[k])
    {
      RightPartAt(sr, right, key, left, k);
    }
    if key in left {
      var k :| 0 <= k < |left| && left[k] == key;
      assert LeftName(left[k], key, right) == key;
    }
  }

  lemma CombineKey(pr: Row, sr: Row, left: seq<string>, right: seq<string>, key: string)
    requires key in left && Distinct(JoinedColumns(left, right, key))
    ensures Get(Combine(pr, sr, left, right, key), key) == Get(pr, key)
  {
    CombineCells(pr, sr, left, right, key);
  }

  /** How many rows have key value v. */
  function CountKey(rows: seq<Row>, key: string, v: Cell): nat {
    if rows == [] then 0 else (if Get(rows[0], key) == v then 1 else 0) + CountKey(rows[1..], key, v)
  }

  /** How many rows have a key value in ks. */
  function CountKeyIn(rows: seq<Row>, key: string, ks: set<Cell>): (n: nat)
    ensures n <= |rows|
  {
    if rows == [] then 0 else (if Get(rows[0], key) in ks then 1 else 0) + CountKeyIn(rows[1..], key, ks)
  }

  lemma {:induction false} MatchesCount(pr: Row, srows: seq<Row>, left: seq<string>, right: seq<string>, key: string)
    ensures |Matches(pr, srows, left, right, key)| == CountKey(srows, key, Get(pr, key))
    decreases |srows|
  {
    if srows != [] {
      MatchesCount(pr, srows[1..], left, right, key);
    }
  }

  lemma {:induction false} CountKeyInAdd(rows: seq<Row>, key: string, ks: set<Cell>, v: Cell)
    requires v !in ks
    ensures CountKeyIn(rows, key, ks + {v}) == CountKey(rows, key, v) + CountKeyIn(rows, key, ks)
    decreases |rows|
  {
    if rows != [] {
      CountKeyInAdd(rows[1..], key, ks, v);
    }
  }

  lemma {:induction false} KeysOfCons(rows: seq<Row>, key: string)
    requires rows != []
    ensures KeysOf(rows, key) == {Get(rows[0], key)} + KeysOf(rows[1..], key)
  {
    forall v | v in KeysOf(rows, key) ensures v in {Get(rows[0], key)} + KeysOf(rows[1..], key) {
      var j :| 0 <= j < |rows| && Get(rows[j], key) == v;
      if j > 0 {
        assert rows[1..][j - 1] == rows[j];
      }
    }
    forall v | v in KeysOf(rows[1..], key) ensures v in KeysOf(rows, key) {
      var j :| 0 <= j < |rows[1..]| && Get(rows[1..][j], key) == v;
      assert rows[j + 1] == rows[1..][j];
    }
  }

  /** With a left side unique by key, each right row meets at most one left
      row: the join has as many rows as there are right rows whose key
      occurs on the left. */
  lemma {:induction false} JoinRowsCount(prows: seq<Row>, srows: seq<Row>, left: seq<string>, right: seq<string>, key: string)
    requires UniqueKeys(prows, key)
    ensures |JoinRows(prows, srows, left, right, key)| == CountKeyIn(srows, key, KeysOf(prows, key))
    decreases |prows|
  {
    if prows == [] {
      assert KeysOf(prows, key) == {};
      CountEmpty(srows, key);
    } else {
      var rest := prows[1..];
      assert UniqueKeys(rest, key) by {
        forall a, b | 0 <= a < b < |rest| ensures Get(rest[a], key) != Get(rest[b], key) {
          assert rest[a] == prows[a + 1] && rest[b] == prows[b + 1];
        }
      }
      JoinRowsCount(rest, srows, left, right, key);
      MatchesCount(prows[0], srows, left, right, key);
      KeysOfCons(prows, key);
      var v := Get(prows[0], key);
      forall j | 0 <= j < |rest| ensures Get(rest[j], key) != v {
        assert rest[j] == prows[j + 1];
      }
      CountKeyInAdd(srows, key, KeysOf(rest, key), v);
      assert KeysOf(prows, key) == KeysOf(rest, key) + {v};
    }
  }

  lemma {:induction false} CountEmpty(rows: seq<Row>, key: string)
    ensures CountKeyIn(rows, key, {}) == 0
    decreases |rows|
  {
    if rows != [] {
      CountEmpty(rows[1..], key);
    }
  }

  lemma {:induction false} MatchesOrigin(pr: Row, srows: seq<Row>, left: seq<string>, right: seq<string>, key: string, o: Row)
    requires o in Matches(pr, srows, left, right, key)
    ensures exists j :: 0 <= j < |srows| && Get(srows[j], key) == Get(pr, key) && o == Combine(pr, srows[j], left, right, key)
    decreases |srows|
  {
    if !(Get(srows[0], key) == Get(pr, key) && o == Combine(pr, srows[0], left, right, key)) {
      MatchesOrigin(pr, srows[1..], left, right, key, o);
      var j :| 0 <= j < |srows[1..]| && Get(srows[1..][j], key) == Get(pr, key)
        && o == Combine(pr, srows[1..][j], left, right, key);
      assert srows[1..][j] == srows[j + 1];
    }
  }

  lemma {:induction false} MatchesComplete(pr: Row, srows: seq<Row>, left: seq<string>, right: seq<string>, key: string, j: nat)
    requires j < |srows| && Get(srows[j], key) == Get(pr, key)
    ensures Combine(pr, srows[j], left, right, key) in Matches(pr, srows, left, right, key)
    decreases |srows|
  {
    if j > 0 {
      assert srows[1..][j - 1] == srows[j];
      MatchesComplete(pr, srows[1..], left, right, key, j - 1);
    }
  }

  /** Every output row combines a left row and a right row with equal keys. */
  lemma {:induction false} JoinRowsOrigin(prows: seq<Row>, srows: seq<Row>, left: seq<string>, right: seq<string>, key: string, o: Row)
    requires o in JoinRows(prows, srows, left, right, key)
    ensures exists i, j ::
      && 0 <= i < |prows| && 0 <= j < |srows|
      && Get(srows[j], key) == Get(prows[i], key)
      && o == Combine(prows[i], srows[j], left, right, key)
    decreases |prows|
  {
    if o in Matches(prows[0], srows, left, right, key) {
      MatchesOrigin(prows[0], srows, left, right, key, o);
      var j :| 0 <= j < |srows| && Get(srows[j], key) == Get(prows[0], key)
        && o == Combine(prows[0], srows[j], left, right, key);
      assert Get(srows[j], key) == Get(prows[0], key);
    } else {
      JoinRowsOrigin(prows[1..], srows, left, right, key, o);
      var i, j :| 0 <= i < |prows[1..]| && 0 <= j < |srows| && Get(srows[j], key) == Get(prows[1..][i], key)
        && o == Combine(prows[1..][i], srows[j], left, right, key);
      assert prows[1..][i] == prows[i + 1];
    }
  }

  /** Every left/right pair with equal keys yields an output row. */
  lemma {:induction false} JoinRowsComplete(prows: seq<Row>, srows: seq<Row>, left: seq<string>, right: seq<string>, key: string, i: nat, j: nat)
    requires i < |prows| && j < |srows| && Get(srows[j], key) == Get(prows[i], key)
    ensures Combine(prows[i], srows[j], left, right, key) in JoinRows(prows, srows, left, right, key)
    decreases |prows|
  {
    if i == 0 {
      MatchesComplete(prows[0], srows, left, right, key, j);
    } else {
      assert prows[1..][i - 1] == prows[i];
      JoinRowsComplete(prows[1..], srows, left, right, key, i - 1, j);
    }
  }

  /** The inner join keeps exactly the keys present on both sides, every
      output row's key comes from both, and with a left side unique by key
      the output has at most as many rows as the right side. */
  lemma InnerJoinKeys(p: Table, s: Table, key: string)
    requires InnerJoin(p, s, key).Ok?
    ensures var out := InnerJoin(p, s, key).value;
      && KeysOf(out.rows, key) == KeysOf(p.rows, key) * KeysOf(s.rows, key)
      && (UniqueKeys(p.rows, key) ==>
            |out.rows| == CountKeyIn(s.rows, key, KeysOf(p.rows, key)) && |out.rows| <= |s.rows|)
  {
    var rows := JoinRows(p.rows, s.rows, p.columns, s.columns, key);
    assert InnerJoin(p, s, key).value.rows == rows;
    forall v | v in KeysOf(rows, key) ensures v in KeysOf(p.rows, key) * KeysOf(s.rows, key) {
      var n :| 0 <= n < |rows| && Get(rows[n], key) == v;
      JoinedKeyFromBoth(p.rows, s.rows, p.columns, s.columns, key, n);
    }
    forall v | v in KeysOf(p.rows, key) * KeysOf(s.rows, key) ensures v in KeysOf(rows, key) {
      JoinedKeyOfBoth(p.rows, s.rows, p.columns, s.columns, key, v);
    }
    if UniqueKeys(p.rows, key) {
      JoinRowsCount(p.rows, s.rows, p.columns, s.columns, key);
    }
  }

  /** Each joined row's key is a key of both sides. */
  lemma JoinedKeyFromBoth(prows: seq<Row>, srows: seq<Row>, left: seq<string>, right: seq<string>, key: string, n: nat)
    requires key in left && Distinct(JoinedColumns(left, right, key))
    requires n < |JoinRows(prows, srows, left, right, key)|
    ensures Get(JoinRows(prows, srows, left, right, key)[n], key) in KeysOf(prows, key) * KeysOf(srows, key)
  {
    var o := JoinRows(prows, srows, left, right, key)[n];
    JoinRowsOrigin(prows, srows, left, right, key, o);
    var i, j :| 0 <= i < |prows| && 0 <= j < |srows| && Get(srows[j], key) == Get(prows[i], key)
      && o == Combine(prows[i], srows[j], left, right, key);
    CombineKey(prows[i], srows[j], left, right, key);
  }

  /** A key of both sides is the key of some joined row. */
  lemma JoinedKeyOfBoth(prows: seq<Row>, srows: seq<Row>, left: seq<string>, right: seq<string>, key: string, v: Cell)
    requires key in left && Distinct(JoinedColumns(left, right, key))
    requires v in KeysOf(prows, key) && v in KeysOf(srows, key)
    ensures v in KeysOf(JoinRows(prows, srows, left, right, key), key)
  {
    var rows := JoinRows(prows, srows, left, right, key);
    var i :| 0 <= i < |prows| && Get(prows[i], key) == v;
    var j :| 0 <= j < |srows| && Get(srows[j], key) == v;
    JoinRowsComplete(prows, srows, left, right, key, i, j);
    var o := Combine(prows[i], srows[j], left, right, key);
    CombineKey(prows[i], srows[j], left, right, key);
    var n :| 0 <= n < |rows| && rows[n] == o;
  }

  /** The inner join's rows are exactly the combinations of a left row and
      a right row with equal keys (NaN keys match each other). */
  lemma InnerJoinPairs(p: Table, s: Table, key: string)
    requires InnerJoin(p, s, key).Ok?
    ensures var out := InnerJoin(p, s, key).value;
      && out.columns == JoinedColumns(p.columns, s.columns, key)
      && Distinct(out.columns)
      && (forall o :: o in out.rows ==>
            exists i, j ::
              && 0 <= i < |p.rows| && 0 <= j < |s.rows|
              && Get(s.rows[j], key) == Get(p.rows[i], key)
              && o == Combine(p.rows[i], s.rows[j], p.columns, s.columns, key))
      && (forall i, j :: 0 <= i < |p.rows| && 0 <= j < |s.rows| && Get(s.rows[j], key) == Get(p.rows[i], key) ==>
            Combine(p.rows[i], s.rows[j], p.columns, s.columns, key) in out.rows)
  {
    forall o | o in InnerJoin(p, s, key).value.rows
      ensures exists i, j ::
              && 0 <= i < |p.rows| && 0 <= j < |s.rows|
              && Get(s.rows[j], key) == Get(p.rows[i], key)
              && o == Combine(p.rows[i], s.rows[j], p.columns, s.columns, key)
    {
      JoinRowsOrigin(p.rows, s.rows, p.columns, s.columns, key, o);
    }
    forall i, j | 0 <= i < |p.rows| && 0 <= j < |s.rows| && Get(s.rows[j], key) == Get(p.rows[i], key)
      ensures Combine(p.rows[i], s.rows[j], p.columns, s.columns, key) in InnerJoin(p, s, key).value.rows
    {
      JoinRowsComplete(p.rows, s.rows, p.columns, s.columns, key, i, j);
    }
  }

  /** The join fails with a missing-column error exactly when a side lacks the key. */
  lemma InnerJoinFails(p: Table, s: Table, key: string)
    ensures InnerJoin(p, s, key).Err? && InnerJoin(p, s, key).error.MissingColumns? <==>
      key !in p.columns || key !in s.columns
  {
  }

  // ---------------------------------------------------------------------
  // The whole function

  function JoinPrimarySecondary(pri: Table, sec: Table, parse: Value -> Option<Date>): Result<Table, JoinError> {
    var unique :- DropDuplicateKeys(pri, FORM_ID);
    var dated :- DeriveYearMonth(unique, parse);
    var simplified :- SimplifySecondary(sec);
    InnerJoin(dated, simplified, FORM_ID)
  }

  /** A missing-column error arises exactly when the primary table lacks
      form_id or collection_date or the secondary table lacks one of its
      seven listed columns. */
  lemma JoinPrimarySecondaryFails(pri: Table, sec: Table, parse: Value -> Option<Date>)
    ensures var r := JoinPrimarySecondary(pri, sec, parse);
      r.Err? && r.error.MissingColumns? <==>
        || FORM_ID !in pri.columns
        || COLLECTION_DATE !in pri.columns
        || exists c :: c in SECONDARY_COLUMNS && c !in sec.columns
  {
    var r := JoinPrimarySecondary(pri, sec, parse);
    SimplifySecondaryFails(sec);
    if FORM_ID !in pri.columns {
      assert r == Err(MissingColumns([FORM_ID]));
    } else if COLLECTION_DATE !in pri.columns {
      var unique := DropDuplicateKeys(pri, FORM_ID).value;
      assert unique.columns == pri.columns;
      assert r == Err(MissingColumns([COLLECTION_DATE]));
    } else {
      var unique := DropDuplicateKeys(pri, FORM_ID).value;
      DatedKeepsColumn(unique, parse, FORM_ID);
      var dated := DeriveYearMonth(unique, parse).value;
      var simplified := SimplifySecondary(sec);
      if simplified.Err? {
        assert r == Err(simplified.error);
      } else {
        assert r == InnerJoin(dated, simplified.value, FORM_ID);
        assert FORM_ID in simplified.value.columns by {
          assert simplified.value.columns == SIMPLIFIED_COLUMNS;
          assert SIMPLIFIED_COLUMNS[0] == FORM_ID;
        }
        InnerJoinFails(dated, simplified.value, FORM_ID);
      }
    }
  }

  /** Date derivation keeps every existing column. */
  lemma DatedKeepsColumn(t: Table, parse: Value -> Option<Date>, c: string)
    requires COLLECTION_DATE in t.columns && c in t.columns
    ensures DeriveYearMonth(t, parse).Ok? && c in DeriveYearMonth(t, parse).value.columns
  {
    assert c in ColumnSet(WithColumnName(WithColumnName(t.columns, YEAR), MONTH));
  }

  lemma {:induction false} SameCount(xs: seq<Row>, ys: seq<Row>, key: string, ks: set<Cell>)
    requires |xs| == |ys|
    requires forall i :: 0 <= i < |xs| ==> Get(xs[i], key) == Get(ys[i], key)
    ensures CountKeyIn(xs, key, ks) == CountKeyIn(ys, key, ks)
    decreases |xs|
  {
    if xs != [] {
      assert forall i :: 0 <= i < |xs| - 1 ==> xs[1..][i] == xs[i + 1] && ys[1..][i] == ys[i + 1];
      SameCount(xs[1..], ys[1..], key, ks);
    }
  }

  /** Date derivation keeps each row's form_id. */
  lemma DatedKeys(t: Table, parse: Value -> Option<Date>)
    requires COLLECTION_DATE in t.columns
    ensures DeriveYearMonth(t, parse).Ok?
    ensures KeysOf(DeriveYearMonth(t, parse).value.rows, FORM_ID) == KeysOf(t.rows, FORM_ID)
    ensures UniqueKeys(t.rows, FORM_ID) ==> UniqueKeys(DeriveYearMonth(t, parse).value.rows, FORM_ID)
  {
    var dated := DeriveYearMonth(t, parse).value;
    forall i | 0 <= i < |t.rows| ensures Get(dated.rows[i], FORM_ID) == Get(t.rows[i], FORM_ID) {
      assert |FORM_ID| != |COLLECTION_DATE| && |FORM_ID| != |YEAR| && |FORM_ID| != |MONTH|;
    }
    SameKeys(dated.rows, t.rows, FORM_ID);
  }

  /** The simplified secondary table keeps each row's form_id. */
  lemma SimplifiedKeys(t: Table, ks: set<Cell>)
    requires SimplifySecondary(t).Ok?
    ensures KeysOf(SimplifySecondary(t).value.rows, FORM_ID) == KeysOf(t.rows, FORM_ID)
    ensures CountKeyIn(SimplifySecondary(t).value.rows, FORM_ID, ks) == CountKeyIn(t.rows, FORM_ID, ks)
  {
    var simplified := SimplifySecondary(t).value;
    assert forall i :: 0 <= i < |t.rows| ==> Get(simplified.rows[i], FORM_ID) == Get(t.rows[i], FORM_ID);
    SameKeys(simplified.rows, t.rows, FORM_ID);
    SameCount(simplified.rows, t.rows, FORM_ID, ks);
  }

  /** The joined table holds exactly the form_ids present in both inputs;
      since the primary side is deduplicated first, it has one row per
      secondary row whose form_id occurs in the primary table, so never
      more rows than the secondary input. */
  lemma JoinPrimarySecondaryKeys(pri: Table, sec: Table, parse: Value -> Option<Date>)
    requires JoinPrimarySecondary(pri, sec, parse).Ok?
    ensures var out := JoinPrimarySecondary(pri, sec, parse).value;
      && KeysOf(out.rows, FORM_ID) == KeysOf(pri.rows, FORM_ID) * KeysOf(sec.rows, FORM_ID)
      && |out.rows| == CountKeyIn(sec.rows, FORM_ID, KeysOf(pri.rows, FORM_ID))
      && |out.rows| <= |sec.rows|
  {
    var unique := DropDuplicateKeys(pri, FORM_ID).value;
    KeepFirstKeySet(pri.rows, FORM_ID);
    KeepFirstUnique(pri.rows, FORM_ID);
    DatedKeys(unique, parse);
    var dated := DeriveYearMonth(unique, parse).value;
    SimplifiedKeys(sec, KeysOf(pri.rows, FORM_ID));
    var simplified := SimplifySecondary(sec).value;
    assert JoinPrimarySecondary(pri, sec, parse) == InnerJoin(dated, simplified, FORM_ID);
    InnerJoinKeys(dated, simplified, FORM_ID);
  }

  /** One primary row with form_id "A" and no collection date. */
  function ExamplePrimary(): Table {
    Table([FORM_ID, COLLECTION_DATE], [map[FORM_ID := Some(Text("A")), COLLECTION_DATE := None]])
  }

  /** Two identical secondary rows with form_id "A" and null accessions. */
  function ExampleSecondary(): Table {
    var twice := map c | c in SECONDARY_COLUMNS :: if c == FORM_ID then Some(Text("A")) else None;
    Table(SECONDARY_COLUMNS, [twice, twice])
  }

  /** The row count is not bounded by the number of distinct primary
      form_ids: one primary row whose form_id the secondary table lists
      twice joins into two rows. */
  lemma JoinCanExceedPrimary(parse: Value -> Option<Date>)
    ensures var r := JoinPrimarySecondary(ExamplePrimary(), ExampleSecondary(), parse);
      r.Ok? && |r.value.rows| == 2 && |KeysOf(ExamplePrimary().rows, FORM_ID)| == 1
  {
    ExampleJoinSucceeds(parse);
    JoinPrimarySecondaryKeys(ExamplePrimary(), ExampleSecondary(), parse);
    ExampleCounts();
  }

  lemma ExampleJoinSucceeds(parse: Value -> Option<Date>)
    ensures JoinPrimarySecondary(ExamplePrimary(), ExampleSecondary(), parse).Ok?
  {
    ExamplePrimaryColumns(parse);
    var dated := DeriveYearMonth(DropDuplicateKeys(ExamplePrimary(), FORM_ID).value, parse).value;
    var simplified := SimplifySecondary(ExampleSecondary()).value;
    JoinedColumnsExample(dated.columns);
    ExampleColumnsDistinct(JoinedColumns(dated.columns, SIMPLIFIED_COLUMNS, FORM_ID));
    assert JoinPrimarySecondary(ExamplePrimary(), ExampleSecondary(), parse) == InnerJoin(dated, simplified, FORM_ID);
  }

  lemma ExamplePrimaryColumns(parse: Value -> Option<Date>)
    ensures DropDuplicateKeys(ExamplePrimary(), FORM_ID).Ok?
    ensures DeriveYearMonth(DropDuplicateKeys(ExamplePrimary(), FORM_ID).value, parse).Ok?
    ensures DeriveYearMonth(DropDuplicateKeys(ExamplePrimary(), FORM_ID).value, parse).value.columns
         == [FORM_ID, COLLECTION_DATE, YEAR, MONTH]
  {
    var unique := DropDuplicateKeys(ExamplePrimary(), FORM_ID).value;
    assert unique.columns == [FORM_ID, COLLECTION_DATE];
    assert YEAR !in unique.columns by {
      assert |YEAR| != |FORM_ID| && |YEAR| != |COLLECTION_DATE|;
    }
    assert MONTH !in unique.columns + [YEAR] by {
      assert |MONTH| != |FORM_ID| && |MONTH| != |COLLECTION_DATE| && |MONTH| != |YEAR|;
    }
  }

  lemma ExampleCounts()
    ensures KeysOf(ExamplePrimary().rows, FORM_ID) == {Some(Text("A"))}
    ensures CountKeyIn(ExampleSecondary().rows, FORM_ID, {Some(Text("A"))}) == 2
  {
    var rows := ExampleSecondary().rows;
    assert Get(rows[0], FORM_ID) == Some(Text("A"));
    assert rows[1..][0] == rows[1];
    assert rows[1..][1..] == [];
    assert ExamplePrimary().rows[0][FORM_ID] == Some(Text("A"));
  }

  lemma ExampleColumnsDistinct(cols: seq<string>)
    requires cols == [FORM_ID, COLLECTION_DATE, YEAR, MONTH, BIO_PROJECT, BIO_SAMPLE, SRA_ACCESSION]
    ensures Distinct(cols)
  {
    var lens := [7, 15, 4, 5, 18, 17, 20];
    assert forall k :: 0 <= k < 7 ==> |cols[k]| == lens[k];
    forall i, j | 0 <= i < j < |cols| ensures cols[i] != cols[j] {
      assert lens[i] != lens[j];
    }
  }

  lemma JoinedColumnsExample(left: seq<string>)
    requires left == [FORM_ID, COLLECTION_DATE, YEAR, MONTH]
    ensures JoinedColumns(left, SIMPLIFIED_COLUMNS, FORM_ID)
         == [FORM_ID, COLLECTION_DATE, YEAR, MONTH, BIO_PROJECT, BIO_SAMPLE, SRA_ACCESSION]
  {
    LeftNamesExample(left);
    RightNamesExample(left);
  }

  /** No dated primary column clashes with a simplified one except form_id. */
  lemma LeftNamesExample(left: seq<string>)
    requires left == [FORM_ID, COLLECTION_DATE, YEAR, MONTH]
    ensures LeftNames(left, FORM_ID, SIMPLIFIED_COLUMNS) == left
  {
    var right := SIMPLIFIED_COLUMNS;
    assert COLLECTION_DATE !in right && YEAR !in right && MONTH !in right by {
      assert forall d :: d in right ==> |d| != |COLLECTION_DATE| && |d| != |YEAR| && |d| != |MONTH|;
    }
    var ln := LeftNames(left, FORM_ID, right);
    assert ln[0] == FORM_ID && ln[1] == COLLECTION_DATE && ln[2] == YEAR && ln[3] == MONTH;
  }

  /** The simplified columns other than form_id keep their names. */
  lemma RightNamesExample(left: seq<string>)
    requires left == [FORM_ID, COLLECTION_DATE, YEAR, MONTH]
    ensures RightNames(SIMPLIFIED_COLUMNS, FORM_ID, left) == [BIO_PROJECT, BIO_SAMPLE, SRA_ACCESSION]
  {
    var right := SIMPLIFIED_COLUMNS;
    assert BIO_PROJECT !in left && BIO_SAMPLE !in left && SRA_ACCESSION !in left by {
      assert forall d :: d in left ==> |d| != |BIO_PROJECT| && |d| != |BIO_SAMPLE| && |d| != |SRA_ACCESSION|;
    }
    assert RightNames(right[3..], FORM_ID, left) == [SRA_ACCESSION] by {
      assert right[3..][1..] == [];
    }
    assert right[2..][1..] == right[3..];
    assert RightNames(right[2..], FORM_ID, left) == [BIO_SAMPLE, SRA_ACCESSION];
    assert right[1..][1..] == right[2..];
    assert RightNames(right[1..], FORM_ID, left) == [BIO_PROJECT, BIO_SAMPLE, SRA_ACCESSION];
  }
}
