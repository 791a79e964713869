/** extract_tables_from_list: walks a top-level JSON array and names one
    table `list_item_{i}_{key}` for every list- or dict-valued field of
    every object in it. */
module JsonTables {
  import opened Strings

  /** A parsed JSON document (json.load). Object fields keep their order;
      numbers are integers. */
  datatype Json =
    | JNull
    | JBool(b: bool)
    | JNum(n: int)
    | JStr(s: string)
    | JArr(items: seq<Json>)
    | JObj(fields: seq<(string, Json)>)

  /** The table built from a field value: pd.DataFrame(list) for a list,
      pd.json_normalize(dict) for a dict. Column inference is not modelled;
      the frame keeps its payload. */
  datatype Frame = ListFrame(elements: seq<Json>) | NormalizedFrame(record: seq<(string, Json)>)

  /** Row count of the frame: one per list element; json_normalize of a
      single dict gives one row. */
  function FrameRows(f: Frame): nat {
    match f
    case ListFrame(es) => |es|
    case NormalizedFrame(_) => 1
  }

  predicate IsContainer(v: Json) {
    v.JArr? || v.JObj?
  }

  function FrameOf(v: Json): (f: Frame)
    requires IsContainer(v)
    ensures v.JArr? ==> FrameRows(f) == |v.items|
  {
    if v.JArr? then ListFrame(v.items) else NormalizedFrame(v.fields)
  }

  /** f"list_item_{i}_{key}" */
  function TableName(i: nat, key: string): string {
    "list_item_" + NatToString(i) + "_" + key
  }

  /** Position of the first occurrence of ch in s, or |s|. */
  function FirstIndexOf(s: string, ch: char): nat
    decreases |s|
  {
    if s == [] || s[0] == ch then 0 else 1 + FirstIndexOf(s[1..], ch)
  }

  lemma {:induction false} FirstIndexAfterPrefix(a: string, ch: char, b: string)
    requires ch !in a
    ensures FirstIndexOf(a + [ch] + b, ch) == |a|
    decreases |a|
  {
    if a != [] {
      assert (a + [ch] + b)[1..] == a[1..] + [ch] + b;
      assert a[0] in a;
      FirstIndexAfterPrefix(a[1..], ch, b);
    }
  }

  lemma SplitAtSeparator(a: string, b: string, c: string, d: string)
    requires '_' !in a && '_' !in c
    requires a + "_" + b == c + "_" + d
    ensures a == c && b == d
  {
    var s := a + "_" + b;
    FirstIndexAfterPrefix(a, '_', b);
    FirstIndexAfterPrefix(c, '_', d);
    assert |a| == |c|;
    assert a == s[..|a|];
    assert c == (c + "_" + d)[..|c|];
    assert b == s[|a| + 1..];
    assert d == (c + "_" + d)[|c| + 1..];
  }

  /** Since str(i) has no underscore, distinct (index, key) pairs give
      distinct table names: no extracted table overwrites another. */
  lemma TableNameInjective(i: nat, key: string, i': nat, key': string)
    requires TableName(i, key) == TableName(i', key')
    ensures i == i' && key == key'
  {
    var p := "list_item_";
    var s := NatToString(i);
    var s' := NatToString(i');
    assert TableName(i, key) == p + (s + "_" + key);
    assert TableName(i', key') == p + (s' + "_" + key');
    assert s + "_" + key == TableName(i, key)[|p|..];
    assert s' + "_" + key' == TableName(i', key')[|p|..];
    assert '_' !in s by {
      forall k | 0 <= k < |s| ensures s[k] != '_' { assert IsDigit(s[k]); }
    }
    assert '_' !in s' by {
      forall k | 0 <= k < |s'| ensures s'[k] != '_' { assert IsDigit(s'[k]); }
    }
    SplitAtSeparator(s, key, s', key');
    NatToStringInjective(i, i');
  }

  // The specification: the two nested loops as left folds over the items
  // and over each object's fields.

  function AddFieldTables(i: nat, fields: seq<(string, Json)>, acc: map<string, Frame>): map<string, Frame>
    decreases |fields|
  {
    if fields == [] then acc
    else
      var (key, value) := fields[0];
      AddFieldTables(i, fields[1..], if IsContainer(value) then acc[TableName(i, key) := FrameOf(value)] else acc)
  }

  function AddItemTables(items: seq<Json>, i: nat, acc: map<string, Frame>): map<string, Frame>
    decreases |items| - i
  {
    if i >= |items| then acc
    else AddItemTables(items, i + 1, if items[i].JObj? then AddFieldTables(i, items[i].fields, acc) else acc)
  }

  function ExtractTables(json: Json): map<string, Frame> {
    if json.JArr? then AddItemTables(json.items, 0, map[]) else map[]
  }

  /** The source's loop: an empty dict unless the document is a list; for
      each object item, one entry per list- or dict-valued field. */
  method ExtractTablesFromList(json: Json) returns (tables: map<string, Frame>)
    ensures tables == ExtractTables(json)
  {
    tables := map[];
    if json.JArr? {
      var items := json.items;
      var i := 0;
      while i < |items|
        invariant 0 <= i <= |items|
        invariant AddItemTables(items, i, tables) == ExtractTables(json)
      {
        var item := items[i];
        if item.JObj? {
          var fields := item.fields;
          ghost var before := tables;
          var j := 0;
          while j < |fields|
            invariant 0 <= j <= |fields|
            invariant AddFieldTables(i, fields[j..], tables) == AddFieldTables(i, fields, before)
          {
            var (key, value) := fields[j];
            assert fields[j..][1..] == fields[j + 1..];
            if value.JArr? {
              tables := tables[TableName(i, key) := ListFrame(value.items)];
            } else if value.JObj? {
              tables := tables[TableName(i, key) := NormalizedFrame(value.fields)];
            }
            j := j + 1;
          }
        }
        i := i + 1;
      }
    }
  }

  // Properties of the specification

  /** Field i, j of the array is a list or dict inside an object item. */
  predicate IsContainerField(items: seq<Json>, i: nat, j: nat) {
    i < |items| && items[i].JObj? && j < |items[i].fields| && IsContainer(items[i].fields[j].1)
  }

  /** A Python dict: no key occurs twice. */
  predicate DistinctKeys(fields: seq<(string, Json)>) {
    forall a, b :: 0 <= a < b < |fields| ==> fields[a].0 != fields[b].0
  }

  lemma {:induction false} FieldTablesKeep(i: nat, fields: seq<(string, Json)>, acc: map<string, Frame>, name: string)
    requires forall j :: 0 <= j < |fields| ==> name != TableName(i, fields[j].0)
    ensures name in AddFieldTables(i, fields, acc) <==> name in acc
    ensures name in acc ==> AddFieldTables(i, fields, acc)[name] == acc[name]
    decreases |fields|
  {
    if fields != [] {
      var (key, value) := fields[0];
      assert name != TableName(i, fields[0].0);
      FieldTablesKeep(i, fields[1..], if IsContainer(value) then acc[TableName(i, key) := FrameOf(value)] else acc, name);
    }
  }

  lemma {:induction false} ItemTablesKeep(items: seq<Json>, from: nat, acc: map<string, Frame>, i: nat, key: string)
    requires i < from
    ensures TableName(i, key) in AddItemTables(items, from, acc) <==> TableName(i, key) in acc
    ensures TableName(i, key) in acc ==> AddItemTables(items, from, acc)[TableName(i, key)] == acc[TableName(i, key)]
    decreases |items| - from
  {
    if from < |items| {
      var acc' := if items[from].JObj? then AddFieldTables(from, items[from].fields, acc) else acc;
      if items[from].JObj? {
        var fields := items[from].fields;
        forall j | 0 <= j < |fields| ensures TableName(i, key) != TableName(from, fields[j].0) {
          if TableName(i, key) == TableName(from, fields[j].0) {
            TableNameInjective(i, key, from, fields[j].0);
          }
        }
        FieldTablesKeep(from, fields, acc, TableName(i, key));
      }
      ItemTablesKeep(items, from + 1, acc', i, key);
    }
  }

  lemma {:induction false} FieldTablesProduce(i: nat, fields: seq<(string, Json)>, acc: map<string, Frame>, j: nat)
    requires j < |fields| && IsContainer(fields[j].1) && DistinctKeys(fields)
    ensures TableName(i, fields[j].0) in AddFieldTables(i, fields, acc)
    ensures AddFieldTables(i, fields, acc)[TableName(i, fields[j].0)] == FrameOf(fields[j].1)
    decreases |fields|
  {
    var (key, value) := fields[0];
    var acc' := if IsContainer(value) then acc[TableName(i, key) := FrameOf(value)] else acc;
    if j == 0 {
      forall l | 0 <= l < |fields[1..]| ensures TableName(i, key) != TableName(i, fields[1..][l].0) {
        assert fields[1..][l] == fields[l + 1];
        if TableName(i, key) == TableName(i, fields[l + 1].0) {
          TableNameInjective(i, key, i, fields[l + 1].0);
        }
      }
      FieldTablesKeep(i, fields[1..], acc', TableName(i, key));
    } else {
      assert fields[1..][j - 1] == fields[j];
      FieldTablesProduce(i, fields[1..], acc', j - 1);
    }
  }

  lemma {:induction false} ItemTablesProduce(items: seq<Json>, from: nat, acc: map<string, Frame>, i: nat, j: nat)
    requires from <= i && IsContainerField(items, i, j) && DistinctKeys(items[i].fields)
    ensures TableName(i, items[i].fields[j].0) in AddItemTables(items, from, acc)
    ensures AddItemTables(items, from, acc)[TableName(i, items[i].fields[j].0)] == FrameOf(items[i].fields[j].1)
    decreases |items| - from
  {
    var acc' := if items[from].JObj? then AddFieldTables(from, items[from].fields, acc) else acc;
    if from == i {
      FieldTablesProduce(i, items[i].fields, acc, j);
      ItemTablesKeep(items, i + 1, acc', i, items[i].fields[j].0);
    } else {
      ItemTablesProduce(items, from + 1, acc', i, j);
    }
  }

  /** Every list- or dict-valued field of every object item yields exactly
      the table list_item_{i}_{key}, built from that field's value; a list
      value gives one row per element. */
  lemma ExtractProduces(json: Json, i: nat, j: nat)
    requires json.JArr? && IsContainerField(json.items, i, j) && DistinctKeys(json.items[i].fields)
    ensures var (key, value) := json.items[i].fields[j];
      && TableName(i, key) in ExtractTables(json)
      && ExtractTables(json)[TableName(i, key)] == FrameOf(value)
      && (value.JArr? ==> FrameRows(ExtractTables(json)[TableName(i, key)]) == |value.items|)
  {
    ItemTablesProduce(json.items, 0, map[], i, j);
  }

  lemma {:induction false} FieldTablesOrigin(i: nat, fields: seq<(string, Json)>, acc: map<string, Frame>, name: string)
    requires name in AddFieldTables(i, fields, acc)
    ensures || (name in acc && AddFieldTables(i, fields, acc)[name] == acc[name])
            || exists j: nat :: j < |fields| && IsContainer(fields[j].1)
                 && name == TableName(i, fields[j].0) && AddFieldTables(i, fields, acc)[name] == FrameOf(fields[j].1)
    decreases |fields|
  {
    if fields != [] {
      var (key, value) := fields[0];
      var acc' := if IsContainer(value) then acc[TableName(i, key) := FrameOf(value)] else acc;
      FieldTablesOrigin(i, fields[1..], acc', name);
      var r := AddFieldTables(i, fields, acc);
      if name in acc' && r[name] == acc'[name] {
        if IsContainer(value) && name == TableName(i, key) {
          assert fields[0].0 == key && fields[0].1 == value;
          assert r[name] == FrameOf(fields[0].1);
        }
      } else {
        var l: nat :| l < |fields[1..]| && IsContainer(fields[1..][l].1)
          && name == TableName(i, fields[1..][l].0) && r[name] == FrameOf(fields[1..][l].1);
        assert fields[1..][l] == fields[l + 1];
      }
    }
  }

  lemma {:induction false} ItemTablesOrigin(items: seq<Json>, from: nat, acc: map<string, Frame>, name: string)
    requires name in AddItemTables(items, from, acc)
    ensures || (name in acc && AddItemTables(items, from, acc)[name] == acc[name])
            || exists i: nat, j: nat :: from <= i && IsContainerField(items, i, j)
                 && name == TableName(i, items[i].fields[j].0) && AddItemTables(items, from, acc)[name] == FrameOf(items[i].fields[j].1)
    decreases |items| - from
  {
    if from < |items| {
      var acc' := if items[from].JObj? then AddFieldTables(from, items[from].fields, acc) else acc;
      ItemTablesOrigin(items, from + 1, acc', name);
      var r := AddItemTables(items, from, acc);
      if name in acc' && r[name] == acc'[name] {
        if items[from].JObj? {
          FieldTablesOrigin(from, items[from].fields, acc, name);
          if !(name in acc && acc'[name] == acc[name]) {
            var j: nat :| j < |items[from].fields| && IsContainer(items[from].fields[j].1)
              && name == TableName(from, items[from].fields[j].0) && acc'[name] == FrameOf(items[from].fields[j].1);
            assert IsContainerField(items, from, j);
          }
        }
      }
    }
  }

  /** Conversely, every extracted table comes from a list- or dict-valued
      field of an object item of a top-level array: a document that is not
      a list, items that are not objects and scalar fields give nothing. */
  lemma OnlyContainerFieldsProduce(json: Json, name: string)
    requires name in ExtractTables(json)
    ensures json.JArr?
    ensures exists i: nat, j: nat ::
      && IsContainerField(json.items, i, j)
      && name == TableName(i, json.items[i].fields[j].0)
      && ExtractTables(json)[name] == FrameOf(json.items[i].fields[j].1)
  {
    ItemTablesOrigin(json.items, 0, map[], name);
  }
}
