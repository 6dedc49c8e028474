/**
  The selection list's state as values: the rows of its list store and the ids
  waiting to be selected (`__to_select_ids`), with one function per change the
  list makes and the lemmas that say what each change does.
 */
module SelectionRows {
  import opened PyList
  import opened SelectionRules

  /** The list store's rows and the pending-selection list. */
  datatype Store = Store(rows: seq<Row>, pending: seq<int>)

  /** The ids of the rows, in row order. */
  function Ids(rows: seq<Row>): seq<int> {
    seq(|rows|, k requires 0 <= k < |rows| => rows[k].id)
  }

  /** The set of the rows' ids. */
  function IdSet(rows: seq<Row>): set<int> {
    set id | id in Ids(rows)
  }

  /** The ids of the selected rows, in row order (the `selected_ids` property). */
  function SelectedOf(rows: seq<Row>): seq<int>
    decreases |rows|
  {
    if rows == [] then []
    else
      var n := |rows| - 1;
      SelectedOf(rows[..n]) + if rows[n].selected then [rows[n].id] else []
  }

  /** An id is among the selected ids exactly when some selected row carries it. */
  lemma {:induction false} SelectedOfMembers(rows: seq<Row>, id: int)
    ensures id in SelectedOf(rows) <==> exists k :: 0 <= k < |rows| && rows[k].selected && rows[k].id == id
    decreases |rows|
  {
    if rows != [] {
      var n := |rows| - 1;
      var front := rows[..n];
      SelectedOfMembers(front, id);
      assert forall k :: 0 <= k < n ==> front[k] == rows[k];
      if id in SelectedOf(rows) && id !in SelectedOf(front) {
        assert rows[n].selected && rows[n].id == id;
      }
    }
  }

  /** The selected ids are exactly the ids of the selected rows, and there are no more of them than rows. */
  lemma SelectedOfAll(rows: seq<Row>)
    ensures forall id :: id in SelectedOf(rows) <==> exists k :: 0 <= k < |rows| && rows[k].selected && rows[k].id == id
    ensures |SelectedOf(rows)| <= |rows|
  {
    forall id ensures id in SelectedOf(rows) <==> exists k :: 0 <= k < |rows| && rows[k].selected && rows[k].id == id {
      SelectedOfMembers(rows, id);
    }
    SelectedOfLength(rows);
  }

  lemma {:induction false} SelectedOfLength(rows: seq<Row>)
    ensures |SelectedOf(rows)| <= |rows|
    decreases |rows|
  {
    if rows != [] {
      SelectedOfLength(rows[..|rows| - 1]);
    }
  }

  /** A row added at the end adds its id at the end of the selected ids when it is selected. */
  lemma SelectedOfSnoc(rows: seq<Row>, x: Row)
    ensures SelectedOf(rows + [x]) == SelectedOf(rows) + if x.selected then [x.id] else []
  {
    assert (rows + [x])[..|rows|] == rows;
  }

  /** The text of the first row with that id, or '' when there is none (get_value). */
  function LabelOf(rows: seq<Row>, id: int): (text: string)
    ensures id !in Ids(rows) ==> text == ""
  {
    var k := IndexOf(Ids(rows), id);
    if k < 0 then "" else rows[k].text
  }

  /** The search loops stop at the first row whose id matches. */
  lemma FirstMatch(rows: seq<Row>, id: int, i: int)
    requires 0 <= i < |rows| && rows[i].id == id
    requires forall k :: 0 <= k < i ==> rows[k].id != id
    ensures IndexOf(Ids(rows), id) == i
  {
    var ids := Ids(rows);
    assert ids == ids[..i] + ids[i..];
    IndexOfAfterPrefix(ids[..i], ids[i..], id);
  }

  /** get_value answers the text of the first row carrying the id. */
  lemma LabelOfFirst(rows: seq<Row>, id: int, k: int)
    requires 0 <= k < |rows| && rows[k].id == id
    requires forall j :: 0 <= j < k ==> rows[j].id != id
    ensures LabelOf(rows, id) == rows[k].text
  {
    FirstMatch(rows, id, k);
  }

  /** The row __add_value appends for v, selected when its id was pending. */
  function NewRow(t: TypeIds, isArtists: bool, v: Value, pending: seq<int>): Row {
    Row(v.id, DisplayLabel(v.name), IconName(t, isArtists, v.id), v.id in pending)
  }

  /** __add_value: append the row and take its id off the pending list. */
  function AddRow(t: TypeIds, isArtists: bool, s: Store, v: Value): Store {
    Store(s.rows + [NewRow(t, isArtists, v, s.pending)], RemoveFirst(s.pending, v.id))
  }

  /**
    __add_value appends one row after the others, with the value's id and "Unknown" for an
    empty name; the row is selected exactly when its id was pending, and then one copy of
    the id leaves the pending list.
   */
  lemma AddRowSpec(t: TypeIds, isArtists: bool, s: Store, v: Value)
    ensures var r := AddRow(t, isArtists, s, v);
      && |r.rows| == |s.rows| + 1 && r.rows[..|s.rows|] == s.rows
      && r.rows[|s.rows|].id == v.id
      && r.rows[|s.rows|].text == (if v.name == "" then "Unknown" else v.name)
      && (r.rows[|s.rows|].selected <==> v.id in s.pending)
      && (v.id in s.pending ==> |r.pending| == |s.pending| - 1)
      && multiset(r.pending) == multiset(s.pending) - multiset{v.id}
  {
    var r := AddRow(t, isArtists, s, v);
    assert r.rows[..|s.rows|] == s.rows;
    RemoveFirstMultiset(s.pending, v.id);
  }

  /** The loop of __add_values, without the final reset of the pending list: one __add_value per value, in order. */
  function AddAll(t: TypeIds, isArtists: bool, s: Store, vs: seq<Value>): Store
    decreases |vs|
  {
    if vs == [] then s
    else AddRow(t, isArtists, AddAll(t, isArtists, s, vs[..|vs| - 1]), vs[|vs| - 1])
  }

  /** One more value at the end adds one more row at the end. */
  lemma AddAllSnoc(t: TypeIds, isArtists: bool, s: Store, vs: seq<Value>, v: Value)
    ensures AddAll(t, isArtists, s, vs + [v]) == AddRow(t, isArtists, AddAll(t, isArtists, s, vs), v)
  {
    assert (vs + [v])[..|vs|] == vs;
  }

  /** The loop of __add_values after one more value. */
  lemma AddAllPrefix(t: TypeIds, isArtists: bool, s: Store, vs: seq<Value>, i: int)
    requires 0 <= i < |vs|
    ensures AddAll(t, isArtists, s, vs[..i + 1]) == AddRow(t, isArtists, AddAll(t, isArtists, s, vs[..i]), vs[i])
  {
    assert vs[..i + 1][..i] == vs[..i];
  }

  /** Adding values keeps the existing rows in front and appends one row per value. */
  lemma {:induction false} AddAllRows(t: TypeIds, isArtists: bool, s: Store, vs: seq<Value>)
    ensures var r := AddAll(t, isArtists, s, vs);
      |r.rows| == |s.rows| + |vs| && r.rows[..|s.rows|] == s.rows
    decreases |vs|
  {
    if vs != [] {
      var n := |vs| - 1;
      AddAllRows(t, isArtists, s, vs[..n]);
      var m := AddAll(t, isArtists, s, vs[..n]);
      assert AddAll(t, isArtists, s, vs).rows[..|s.rows|] == m.rows[..|s.rows|];
    }
  }

  /** The row added for the k-th value carries that value's id and displayed name. */
  lemma {:induction false} AddAllRowAt(t: TypeIds, isArtists: bool, s: Store, vs: seq<Value>, k: int)
    requires 0 <= k < |vs|
    ensures |AddAll(t, isArtists, s, vs).rows| == |s.rows| + |vs|
    ensures var x := AddAll(t, isArtists, s, vs).rows[|s.rows| + k];
      x.id == vs[k].id && x.text == DisplayLabel(vs[k].name)
    decreases |vs|
  {
    AddAllRows(t, isArtists, s, vs);
    var n := |vs| - 1;
    var front := vs[..n];
    var m := AddAll(t, isArtists, s, front);
    AddAllRows(t, isArtists, s, front);
    assert AddAll(t, isArtists, s, vs) == AddRow(t, isArtists, m, vs[n]);
    var r := AddAll(t, isArtists, s, vs);
    if k < n {
      AddAllRowAt(t, isArtists, s, front, k);
      assert r.rows[|s.rows| + k] == m.rows[|s.rows| + k];
      assert front[k] == vs[k];
    } else {
      assert k == n;
      assert r.rows[|s.rows| + k] == NewRow(t, isArtists, vs[n], m.pending);
    }
  }

  /** __add_values only takes ids off the pending list. */
  lemma {:induction false} AddAllPendingShrinks(t: TypeIds, isArtists: bool, s: Store, vs: seq<Value>)
    ensures multiset(AddAll(t, isArtists, s, vs).pending) <= multiset(s.pending)
    decreases |vs|
  {
    if vs != [] {
      var m := AddAll(t, isArtists, s, vs[..|vs| - 1]);
      AddAllPendingShrinks(t, isArtists, s, vs[..|vs| - 1]);
      RemoveFirstMultiset(m.pending, vs[|vs| - 1].id);
    }
  }

  /** A row added by __add_values is selected only when its id was pending. */
  lemma {:induction false} AddAllSelectsPending(t: TypeIds, isArtists: bool, s: Store, vs: seq<Value>, k: int)
    requires |s.rows| <= k < |AddAll(t, isArtists, s, vs).rows|
    requires AddAll(t, isArtists, s, vs).rows[k].selected
    ensures AddAll(t, isArtists, s, vs).rows[k].id in s.pending
    decreases |vs|
  {
    var n := |vs| - 1;
    var front := vs[..n];
    var m := AddAll(t, isArtists, s, front);
    if k < |m.rows| {
      AddAllSelectsPending(t, isArtists, s, front, k);
    } else {
      AddAllPendingShrinks(t, isArtists, s, front);
      assert multiset(m.pending)[vs[n].id] > 0;
    }
  }

  /** add_value: nothing happens when a row with that id exists; otherwise the row is added. */
  function AddValueResult(t: TypeIds, isArtists: bool, s: Store, v: Value): Store {
    if v.id in Ids(s.rows) then s else AddRow(t, isArtists, s, v)
  }

  /** add_value adds a row only for an absent id, and then exactly one row with that id, at the end. */
  lemma AddValueSpec(t: TypeIds, isArtists: bool, s: Store, v: Value)
    ensures var r := AddValueResult(t, isArtists, s, v);
      && v.id in Ids(r.rows)
      && (v.id in Ids(s.rows) ==> r == s)
      && (v.id !in Ids(s.rows) ==>
            |r.rows| == |s.rows| + 1 && r.rows[..|s.rows|] == s.rows && r.rows[|s.rows|].id == v.id &&
            Ids(r.rows) == Ids(s.rows) + [v.id])
  {
    var r := AddValueResult(t, isArtists, s, v);
    if v.id !in Ids(s.rows) {
      assert r.rows[|s.rows|].id == v.id;
      assert Ids(r.rows) == Ids(s.rows) + [v.id];
    }
  }

  /** add_value is idempotent: adding the same id again, under any name, changes nothing. */
  lemma AddValueIdempotent(t: TypeIds, isArtists: bool, s: Store, v: Value, name: string)
    ensures var r := AddValueResult(t, isArtists, s, v);
      AddValueResult(t, isArtists, r, Value(v.id, name)) == r
  {
    AddValueSpec(t, isArtists, s, v);
  }

  /** add_value keeps the row ids distinct. */
  lemma AddValueKeepsIdsDistinct(t: TypeIds, isArtists: bool, s: Store, v: Value)
    requires NoDup(Ids(s.rows))
    ensures NoDup(Ids(AddValueResult(t, isArtists, s, v).rows))
  {
    AddValueSpec(t, isArtists, s, v);
    if v.id !in Ids(s.rows) {
      var ids := Ids(s.rows) + [v.id];
      assert forall i, j :: 0 <= i < j < |ids| ==> ids[i] != ids[j] by {
        forall i, j | 0 <= i < j < |ids| ensures ids[i] != ids[j] {
          if j == |ids| - 1 {
            assert ids[i] == Ids(s.rows)[i];
          }
        }
      }
    }
  }

  /** remove_value: drop the first row with that id, if any. */
  function RemoveFirstRow(rows: seq<Row>, id: int): seq<Row> {
    var k := IndexOf(Ids(rows), id);
    if k < 0 then rows else rows[..k] + rows[k + 1..]
  }

  /** remove_value changes nothing when no row has the id, and otherwise removes one id as Python's list.remove does. */
  lemma RemoveValueIds(rows: seq<Row>, id: int)
    ensures id !in Ids(rows) ==> RemoveFirstRow(rows, id) == rows
    ensures Ids(RemoveFirstRow(rows, id)) == RemoveFirst(Ids(rows), id)
  {
    var ids := Ids(rows);
    var k := IndexOf(ids, id);
    if k >= 0 {
      assert Ids(rows[..k] + rows[k + 1..]) == ids[..k] + ids[k + 1..];
    }
  }

  /** The row remove_value takes out is the first one with that id; the others keep their order. */
  lemma RemoveValueFirst(rows: seq<Row>, id: int)
    requires id in Ids(rows)
    ensures var k := IndexOf(Ids(rows), id);
      && 0 <= k < |rows| && rows[k].id == id
      && (forall j :: 0 <= j < k ==> rows[j].id != id)
      && RemoveFirstRow(rows, id) == rows[..k] + rows[k + 1..]
  {
    var ids := Ids(rows);
    var k := IndexOf(ids, id);
    forall j | 0 <= j < k ensures rows[j].id != id {
      assert ids[..k][j] == rows[j].id;
    }
  }

  /** With distinct row ids, remove_value leaves no row with that id, and the ids stay distinct. */
  lemma RemoveValueKeepsIdsDistinct(rows: seq<Row>, id: int)
    requires NoDup(Ids(rows))
    ensures id !in Ids(RemoveFirstRow(rows, id)) && NoDup(Ids(RemoveFirstRow(rows, id)))
  {
    RemoveValueIds(rows, id);
    RemoveFirstIsWithout(Ids(rows), id);
  }

  /** update_value: rename the first row with that id, or add (id, name) when there is none. */
  function Relabelled(t: TypeIds, isArtists: bool, s: Store, id: int, name: string): Store {
    var k := IndexOf(Ids(s.rows), id);
    if k >= 0 then Store(s.rows[k := s.rows[k].(text := name)], s.pending)
    else AddRow(t, isArtists, s, Value(id, name))
  }

  /**
    update_value on a present id changes the text of that one row and nothing else, and
    get_value then answers the new name; on an absent id it is add_value.
   */
  lemma UpdateValueSpec(t: TypeIds, isArtists: bool, s: Store, id: int, name: string)
    ensures var r := Relabelled(t, isArtists, s, id, name);
      && (id in Ids(s.rows) ==>
            && r.pending == s.pending
            && |r.rows| == |s.rows|
            && Ids(r.rows) == Ids(s.rows)
            && r.rows[IndexOf(Ids(s.rows), id)] == s.rows[IndexOf(Ids(s.rows), id)].(text := name)
            && (forall k :: 0 <= k < |s.rows| && k != IndexOf(Ids(s.rows), id) ==> r.rows[k] == s.rows[k])
            && LabelOf(r.rows, id) == name)
      && (id !in Ids(s.rows) ==> r == AddValueResult(t, isArtists, s, Value(id, name)))
  {
    var k := IndexOf(Ids(s.rows), id);
    if k >= 0 {
      var r := Relabelled(t, isArtists, s, id, name);
      assert Ids(r.rows) == Ids(s.rows);
    }
  }

  /** update_value keeps the row ids distinct. */
  lemma UpdateValueKeepsIdsDistinct(t: TypeIds, isArtists: bool, s: Store, id: int, name: string)
    requires NoDup(Ids(s.rows))
    ensures NoDup(Ids(Relabelled(t, isArtists, s, id, name).rows))
  {
    UpdateValueSpec(t, isArtists, s, id, name);
    if id !in Ids(s.rows) {
      AddValueKeepsIdsDistinct(t, isArtists, s, Value(id, name));
    }
  }

  /** The ids of a snapshot, as a set (`value_ids` of update_values). */
  function ValueIds(values: seq<Value>): set<int> {
    set v | v in values :: v.id
  }

  /** The rows update_values keeps, in order: those at or below `devices`, and those whose id is in the snapshot. */
  function Kept(rows: seq<Row>, valueIds: set<int>, devices: int): (r: seq<Row>)
    ensures |r| <= |rows|
    decreases |rows|
  {
    if rows == [] then []
    else
      var n := |rows| - 1;
      var x := rows[n];
      Kept(rows[..n], valueIds, devices) + if x.id > devices && x.id !in valueIds then [] else [x]
  }

  /** A row is kept exactly when it was there and is protected or in the snapshot. */
  lemma {:induction false} KeptMembers(rows: seq<Row>, valueIds: set<int>, devices: int, x: Row)
    ensures x in Kept(rows, valueIds, devices) <==> x in rows && (x.id <= devices || x.id in valueIds)
    decreases |rows|
  {
    if rows != [] {
      var n := |rows| - 1;
      KeptMembers(rows[..n], valueIds, devices, x);
      assert rows == rows[..n] + [rows[n]];
    }
  }

  /** One more row looked at by the removal loop of update_values. */
  lemma KeptSnoc(rows: seq<Row>, n: int, valueIds: set<int>, devices: int)
    requires 0 <= n < |rows|
    ensures Kept(rows[..n + 1], valueIds, devices) ==
            Kept(rows[..n], valueIds, devices) + if rows[n].id > devices && rows[n].id !in valueIds then [] else [rows[n]]
  {
    assert rows[..n + 1][..n] == rows[..n];
  }

  /** The snapshot's values whose id is not among the ids of the rows kept. */
  function Missing(values: seq<Value>, itemIds: set<int>): (r: seq<Value>)
    ensures |r| <= |values|
    decreases |values|
  {
    if values == [] then []
    else
      var n := |values| - 1;
      Missing(values[..n], itemIds) + if values[n].id in itemIds then [] else [values[n]]
  }

  /** The adding loop of update_values after one more value of the snapshot. */
  lemma MissingPrefix(values: seq<Value>, itemIds: set<int>, j: int)
    requires 0 <= j < |values|
    ensures Missing(values[..j + 1], itemIds) ==
            Missing(values[..j], itemIds) + if values[j].id in itemIds then [] else [values[j]]
  {
    assert values[..j + 1][..j] == values[..j];
  }

  /** A value is added exactly when it is in the snapshot and its id has no row. */
  lemma {:induction false} MissingMembers(values: seq<Value>, itemIds: set<int>, v: Value)
    ensures v in Missing(values, itemIds) <==> v in values && v.id !in itemIds
    decreases |values|
  {
    if values != [] {
      var n := |values| - 1;
      MissingMembers(values[..n], itemIds, v);
      assert values == values[..n] + [values[n]];
    }
  }

  /** update_values: drop unprotected rows missing from the snapshot, then add the snapshot's new ids. */
  function UpdateValuesResult(t: TypeIds, isArtists: bool, s: Store, values: seq<Value>): Store {
    var kept := Kept(s.rows, ValueIds(values), t.devices);
    AddAll(t, isArtists, Store(kept, s.pending), Missing(values, IdSet(kept)))
  }

  /** update_values keeps every protected row, and keeps any other row exactly when its id is in the snapshot. */
  lemma UpdateValuesKeeps(t: TypeIds, isArtists: bool, s: Store, values: seq<Value>, x: Row)
    requires x in s.rows
    ensures var r := UpdateValuesResult(t, isArtists, s, values);
      && (x.id <= t.devices ==> x in r.rows)
      && (x.id > t.devices ==> (x in r.rows <==> x.id in ValueIds(values)))
  {
    var valueIds := ValueIds(values);
    var kept := Kept(s.rows, valueIds, t.devices);
    var missing := Missing(values, IdSet(kept));
    var r := UpdateValuesResult(t, isArtists, s, values);
    AddAllRows(t, isArtists, Store(kept, s.pending), missing);
    KeptMembers(s.rows, valueIds, t.devices, x);
    if x in kept {
      var k :| 0 <= k < |kept| && kept[k] == x;
      assert r.rows[..|kept|][k] == x;
    } else if x in r.rows {
      var k :| 0 <= k < |r.rows| && r.rows[k] == x;
      if k >= |kept| {
        NewRowFromSnapshot(t, isArtists, kept, s.pending, missing, k);
        var v :| v in missing && v.id == r.rows[k].id;
        MissingMembers(values, IdSet(kept), v);
      }
    }
  }

  /** After update_values every id of the snapshot has a row. */
  lemma UpdateValuesCovers(t: TypeIds, isArtists: bool, s: Store, values: seq<Value>, v: Value)
    requires v in values
    ensures v.id in Ids(UpdateValuesResult(t, isArtists, s, values).rows)
  {
    var kept := Kept(s.rows, ValueIds(values), t.devices);
    var missing := Missing(values, IdSet(kept));
    MissingMembers(values, IdSet(kept), v);
    if v.id in Ids(kept) {
      AddAllKeepsIds(t, isArtists, Store(kept, s.pending), missing, v.id);
    } else {
      AddAllCovers(t, isArtists, Store(kept, s.pending), missing, v);
    }
  }

  /** Adding values keeps every id that had a row. */
  lemma AddAllKeepsIds(t: TypeIds, isArtists: bool, s: Store, vs: seq<Value>, id: int)
    requires id in Ids(s.rows)
    ensures id in Ids(AddAll(t, isArtists, s, vs).rows)
  {
    AddAllRows(t, isArtists, s, vs);
    var rows := AddAll(t, isArtists, s, vs).rows;
    var k :| 0 <= k < |s.rows| && Ids(s.rows)[k] == id;
    assert rows[..|s.rows|][k] == s.rows[k];
    assert Ids(rows)[k] == id;
  }

  /** Adding values gives each of them a row. */
  lemma AddAllCovers(t: TypeIds, isArtists: bool, s: Store, vs: seq<Value>, v: Value)
    requires v in vs
    ensures v.id in Ids(AddAll(t, isArtists, s, vs).rows)
  {
    var j :| 0 <= j < |vs| && vs[j] == v;
    AddAllRowAt(t, isArtists, s, vs, j);
    var rows := AddAll(t, isArtists, s, vs).rows;
    assert Ids(rows)[|s.rows| + j] == v.id;
  }

  /** After update_values every row's id was there before or is in the snapshot. */
  lemma UpdateValuesNoStrangers(t: TypeIds, isArtists: bool, s: Store, values: seq<Value>, id: int)
    requires id in Ids(UpdateValuesResult(t, isArtists, s, values).rows)
    ensures id in Ids(s.rows) || id in ValueIds(values)
  {
    var valueIds := ValueIds(values);
    var kept := Kept(s.rows, valueIds, t.devices);
    var missing := Missing(values, IdSet(kept));
    var r := UpdateValuesResult(t, isArtists, s, values);
    AddAllRows(t, isArtists, Store(kept, s.pending), missing);
    var k :| 0 <= k < |r.rows| && Ids(r.rows)[k] == id;
    if k < |kept| {
      var x := kept[k];
      assert r.rows[..|kept|][k] == x;
      assert x in kept;
      KeptMembers(s.rows, valueIds, t.devices, x);
      var k0 :| 0 <= k0 < |s.rows| && s.rows[k0] == x;
      assert Ids(s.rows)[k0] == id;
    } else {
      NewRowFromSnapshot(t, isArtists, kept, s.pending, missing, k);
      var v :| v in missing && v.id == r.rows[k].id;
      MissingMembers(values, IdSet(kept), v);
    }
  }

  /** A row update_values appends carries the id of one of the values it added. */
  lemma NewRowFromSnapshot(t: TypeIds, isArtists: bool, kept: seq<Row>, pending: seq<int>, missing: seq<Value>, k: int)
    requires |kept| <= k < |kept| + |missing|
    ensures |AddAll(t, isArtists, Store(kept, pending), missing).rows| == |kept| + |missing|
    ensures exists v :: v in missing && v.id == AddAll(t, isArtists, Store(kept, pending), missing).rows[k].id
  {
    var j := k - |kept|;
    AddAllRowAt(t, isArtists, Store(kept, pending), missing, j);
    assert missing[j] in missing;
  }

  /** All rows deselected (unselect_all). */
  function Unselected(rows: seq<Row>): (r: seq<Row>)
    ensures |r| == |rows|
    ensures forall k :: 0 <= k < |rows| ==> r[k] == rows[k].(selected := false)
  {
    seq(|rows|, k requires 0 <= k < |rows| => rows[k].(selected := false))
  }

  /** After unselect_all no id is selected. */
  lemma {:induction false} UnselectedNone(rows: seq<Row>)
    ensures SelectedOf(Unselected(rows)) == []
    decreases |rows|
  {
    if rows != [] {
      var n := |rows| - 1;
      UnselectedNone(rows[..n]);
      assert Unselected(rows)[..n] == Unselected(rows[..n]);
    }
  }

  /** The rows whose id was requested become selected (select_iter for each row found). */
  function SelectMatching(rows: seq<Row>, ids: seq<int>): (r: seq<Row>)
    ensures |r| == |rows| && Ids(r) == Ids(rows)
    ensures forall k :: 0 <= k < |rows| ==> r[k] == rows[k].(selected := rows[k].selected || rows[k].id in ids)
  {
    seq(|rows|, k requires 0 <= k < |rows| =>
      if rows[k].id in ids then rows[k].(selected := true) else rows[k])
  }

  /** The progress of select_ids' search: the ids not yet found, and whether list.remove raised. */
  datatype Scan = Scan(remaining: seq<int>, failed: bool)

  /** One row looked at for requested id i: a match takes one copy of i off the list, or raises when none is left. */
  function ScanRow(st: Scan, rowId: int, i: int): Scan {
    if st.failed || rowId != i then st
    else if i in st.remaining then Scan(RemoveFirst(st.remaining, i), false)
    else Scan(st.remaining, true)
  }

  /** The inner loop of select_ids: every row, in order, for one requested id. */
  function ScanRows(st: Scan, rowIds: seq<int>, i: int): Scan
    decreases |rowIds|
  {
    if rowIds == [] then st
    else ScanRow(ScanRows(st, rowIds[..|rowIds| - 1], i), rowIds[|rowIds| - 1], i)
  }

  /** The outer loop of select_ids: every requested id of the copy `list(ids)`, in order. */
  function ScanIds(st: Scan, rowIds: seq<int>, ids: seq<int>): Scan
    decreases |ids|
  {
    if ids == [] then st
    else ScanRows(ScanIds(st, rowIds, ids[..|ids| - 1]), rowIds, ids[|ids| - 1])
  }

  /**
    select_ids: an empty request deselects everything; otherwise, when the search
    raised or left ids unfound, those ids become pending and nothing is selected,
    and when it found them all the matching rows are selected.
   */
  function SelectIdsResult(rows: seq<Row>, ids: seq<int>): Store {
    if ids == [] then Store(Unselected(rows), [])
    else
      var sc := ScanIds(Scan(ids, false), Ids(rows), ids);
      if sc.failed || sc.remaining != [] then Store(rows, sc.remaining)
      else Store(SelectMatching(rows, ids), [])
  }

  /** The requested ids that no row has, in request order. */
  function Absent(ids: seq<int>, rowIds: seq<int>): (r: seq<int>)
    ensures |r| <= |ids|
    decreases |ids|
  {
    if ids == [] then []
    else
      var n := |ids| - 1;
      Absent(ids[..n], rowIds) + if ids[n] in rowIds then [] else [ids[n]]
  }

  /** An id is reported absent exactly when it was requested and no row has it. */
  lemma {:induction false} AbsentMembers(ids: seq<int>, rowIds: seq<int>, i: int)
    ensures i in Absent(ids, rowIds) <==> i in ids && i !in rowIds
    decreases |ids|
  {
    if ids != [] {
      var n := |ids| - 1;
      AbsentMembers(ids[..n], rowIds, i);
      assert ids == ids[..n] + [ids[n]];
    }
  }

  /** No requested id is absent exactly when every requested id has a row. */
  lemma AbsentEmpty(ids: seq<int>, rowIds: seq<int>)
    ensures Absent(ids, rowIds) == [] <==> forall i :: i in ids ==> i in rowIds
  {
    var a := Absent(ids, rowIds);
    if a != [] {
      AbsentMembers(ids, rowIds, a[0]);
    } else {
      forall i | i in ids ensures i in rowIds {
        AbsentMembers(ids, rowIds, i);
      }
    }
  }

  /** A scan once raised stays raised. */
  lemma {:induction false} ScanRowsFailed(st: Scan, rowIds: seq<int>, i: int)
    requires st.failed
    ensures ScanRows(st, rowIds, i) == st
    decreases |rowIds|
  {
    if rowIds != [] {
      ScanRowsFailed(st, rowIds[..|rowIds| - 1], i);
    }
  }

  /** A scan once raised stays raised over the remaining requested ids. */
  lemma {:induction false} ScanIdsFailed(st: Scan, rowIds: seq<int>, ids: seq<int>)
    requires st.failed
    ensures ScanIds(st, rowIds, ids) == st
    decreases |ids|
  {
    if ids != [] {
      ScanIdsFailed(st, rowIds, ids[..|ids| - 1]);
      ScanRowsFailed(st, rowIds, ids[|ids| - 1]);
    }
  }

  /** With distinct row ids, the rows for one requested id take at most one copy of it off the list. */
  lemma {:induction false} ScanRowsDistinct(st: Scan, rowIds: seq<int>, i: int)
    requires NoDup(rowIds) && !st.failed
    requires i in rowIds ==> i in st.remaining
    ensures ScanRows(st, rowIds, i) == if i in rowIds then Scan(RemoveFirst(st.remaining, i), false) else st
    decreases |rowIds|
  {
    if rowIds != [] {
      var n := |rowIds| - 1;
      var front := rowIds[..n];
      assert rowIds == front + [rowIds[n]];
      assert NoDup(front);
      if rowIds[n] == i {
        assert i !in front;
      }
      ScanRowsDistinct(st, front, i);
    }
  }

  /** With distinct row ids, after the requested ids p the list holds those of p not found, then the rest q. */
  lemma {:induction false} ScanIdsDistinct(rowIds: seq<int>, p: seq<int>, q: seq<int>)
    requires NoDup(rowIds)
    ensures ScanIds(Scan(p + q, false), rowIds, p) == Scan(Absent(p, rowIds) + q, false)
    decreases |p|
  {
    if p != [] {
      var n := |p| - 1;
      var i := p[n];
      var front := p[..n];
      assert p == front + [i];
      assert p + q == front + ([i] + q);
      ScanIdsDistinct(rowIds, front, [i] + q);
      ScanOneId(rowIds, front, i, q);
    }
  }

  /** The step of ScanIdsDistinct: looking for one more requested id i. */
  lemma ScanOneId(rowIds: seq<int>, front: seq<int>, i: int, q: seq<int>)
    requires NoDup(rowIds)
    ensures ScanRows(Scan(Absent(front, rowIds) + ([i] + q), false), rowIds, i) ==
            Scan(Absent(front + [i], rowIds) + q, false)
  {
    var a := Absent(front, rowIds);
    AbsentSnoc(front, i, rowIds);
    if i in rowIds {
      AbsentMembers(front, rowIds, i);
      ScanFound(rowIds, a, i, q);
    } else {
      ScanMissing(rowIds, a, i, q);
    }
  }

  /** One more requested id is reported absent exactly when no row has it. */
  lemma AbsentSnoc(front: seq<int>, i: int, rowIds: seq<int>)
    ensures Absent(front + [i], rowIds) == Absent(front, rowIds) + if i in rowIds then [] else [i]
  {
    var p := front + [i];
    assert p[..|p| - 1] == front && p[|p| - 1] == i;
  }

  /** A requested id with a row takes its own copy off the list, which follows the ids not found before it. */
  lemma ScanFound(rowIds: seq<int>, a: seq<int>, i: int, q: seq<int>)
    requires NoDup(rowIds) && i in rowIds && i !in a
    ensures ScanRows(Scan(a + ([i] + q), false), rowIds, i) == Scan(a + q, false)
  {
    var rem := a + ([i] + q);
    assert rem == a + [i] + q;
    assert i in rem by { assert rem[|a|] == i; }
    ScanRowsDistinct(Scan(rem, false), rowIds, i);
    RemoveFirstAfterPrefix(a, i, q);
  }

  /** A requested id without a row stays on the list. */
  lemma ScanMissing(rowIds: seq<int>, a: seq<int>, i: int, q: seq<int>)
    requires NoDup(rowIds) && i !in rowIds
    ensures ScanRows(Scan(a + ([i] + q), false), rowIds, i) == Scan(a + [i] + q, false)
  {
    ScanRowsDistinct(Scan(a + ([i] + q), false), rowIds, i);
    assert a + ([i] + q) == a + [i] + q;
  }

  /**
    With distinct row ids, select_ids never raises: when every requested id has a row
    those rows are selected and nothing stays pending; otherwise exactly the ids not
    found become pending, in request order, and no row changes.
   */
  lemma SelectIdsSpec(rows: seq<Row>, ids: seq<int>)
    requires NoDup(Ids(rows))
    ensures var r := SelectIdsResult(rows, ids);
      && (ids == [] ==> r.pending == [] && SelectedOf(r.rows) == [])
      && (ids != [] && (forall i :: i in ids ==> i in Ids(rows)) ==>
            r.pending == [] && r.rows == SelectMatching(rows, ids))
      && (ids != [] && (exists i :: i in ids && i !in Ids(rows)) ==>
            r.rows == rows && r.pending == Absent(ids, Ids(rows)))
  {
    if ids == [] {
      UnselectedNone(rows);
    } else {
      ScanIdsDistinct(Ids(rows), ids, []);
      assert ids + [] == ids;
      AbsentEmpty(ids, Ids(rows));
    }
  }

  /** Every requested id that has a row is selected once select_ids finds them all. */
  lemma SelectMatchingSelects(rows: seq<Row>, ids: seq<int>)
    ensures forall i :: i in ids && i in Ids(rows) ==> i in SelectedOf(SelectMatching(rows, ids))
    ensures forall k :: 0 <= k < |rows| && rows[k].selected ==> SelectMatching(rows, ids)[k].selected
  {
    var r := SelectMatching(rows, ids);
    forall i | i in ids && i in Ids(rows) ensures i in SelectedOf(r) {
      var k :| 0 <= k < |rows| && rows[k].id == i;
      assert r[k].selected && r[k].id == i;
      SelectedOfMembers(r, i);
    }
  }

  /**
    A selection requested before its row exists is pending, and it is made when the
    row is added: the new row is selected and nothing stays pending.
   */
  lemma PendingSelectionResolved(t: TypeIds, isArtists: bool, rows: seq<Row>, id: int, name: string)
    requires NoDup(Ids(rows)) && id !in Ids(rows)
    ensures SelectIdsResult(rows, [id]) == Store(rows, [id])
    ensures var r := AddValueResult(t, isArtists, SelectIdsResult(rows, [id]), Value(id, name));
      r.pending == [] && SelectedOf(r.rows) == SelectedOf(rows) + [id]
  {
    SelectIdsSpec(rows, [id]);
    assert Absent([id], Ids(rows)) == [id] by {
      assert [id][..0] == [];
    }
    var r := AddValueResult(t, isArtists, Store(rows, [id]), Value(id, name));
    assert r.rows == rows + [NewRow(t, isArtists, Value(id, name), [id])];
    SelectedOfSnoc(rows, NewRow(t, isArtists, Value(id, name), [id]));
  }

  /**
    Two rows with the same id make list.remove raise inside select_ids: the search stops,
    no row is selected, and what was left of the request at that point stays pending.
    With rows [7, 7], the request [7] leaves nothing pending and the request [7, 8]
    leaves [8] pending.
   */
  lemma DuplicateRowsDropRequest(t: TypeIds, isArtists: bool)
    ensures var rows := [Row(7, "A", "", false), Row(7, "A", "", false)];
      && SelectIdsResult(rows, [7]) == Store(rows, [])
      && SelectIdsResult(rows, [7, 8]) == Store(rows, [8])
  {
    var rows := [Row(7, "A", "", false), Row(7, "A", "", false)];
    assert Ids(rows) == [7, 7];
    assert [7, 7][..1] == [7];
    assert [7][..0] == [];
    assert ScanRows(Scan([7], false), [7], 7) == Scan([], false);
    assert ScanRows(Scan([7], false), [7, 7], 7) == Scan([], true);
    assert ScanIds(Scan([7], false), [7, 7], [7]) == Scan([], true);
    assert [7, 8][..1] == [7];
    assert ScanRows(Scan([7, 8], false), [7], 7) == Scan([8], false);
    assert ScanRows(Scan([7, 8], false), [7, 7], 7) == Scan([8], true);
    assert ScanIds(Scan([7, 8], false), [7, 7], [7]) == Scan([8], true);
    ScanRowsFailed(Scan([8], true), [7, 7], 8);
  }

  /** The list does not keep its row ids distinct: populate on a list that already has a row for an id adds a second row for it. */
  lemma PopulateCanRepeatIds(t: TypeIds, isArtists: bool)
    ensures Ids(AddAll(t, isArtists, Store([Row(7, "A", "", false)], []), [Value(7, "A")]).rows) == [7, 7]
  {
    var v := Value(7, "A");
    var s1 := Store([Row(7, "A", "", false)], []);
    AddAllSnoc(t, isArtists, s1, [], v);
    assert [] + [v] == [v];
    var r1 := AddAll(t, isArtists, s1, [v]);
    assert |r1.rows| == 2 && r1.rows[0].id == 7 && r1.rows[1].id == 7;
  }

  /** Nor does update_values keep them distinct: an id that the snapshot repeats gets two rows. */
  lemma UpdateValuesCanRepeatIds(t: TypeIds, isArtists: bool)
    ensures Ids(UpdateValuesResult(t, isArtists, Store([], []), [Value(7, "A"), Value(7, "A")]).rows) == [7, 7]
  {
    var v := Value(7, "A");
    var vs := [v, v];
    var none: set<int> := {};
    assert Kept([], ValueIds(vs), t.devices) == [];
    assert IdSet([]) == none;
    MissingTwice(v, none);
    var e := Store([], []);
    assert UpdateValuesResult(t, isArtists, e, vs) == AddAll(t, isArtists, e, vs);
    AddTwice(t, isArtists, v);
  }

  lemma MissingTwice(v: Value, itemIds: set<int>)
    requires v.id !in itemIds
    ensures Missing([v, v], itemIds) == [v, v]
  {
    MissingPrefix([v, v], itemIds, 0);
    MissingPrefix([v, v], itemIds, 1);
    assert [v, v][..0] == [] && [v, v][..1] == [v] && [v, v][..2] == [v, v];
  }

  lemma AddTwice(t: TypeIds, isArtists: bool, v: Value)
    ensures Ids(AddAll(t, isArtists, Store([], []), [v, v]).rows) == [v.id, v.id]
  {
    var e := Store([], []);
    AddAllSnoc(t, isArtists, e, [], v);
    assert [] + [v] == [v];
    var m := AddAll(t, isArtists, e, [v]);
    assert |m.rows| == 1 && m.rows[0].id == v.id;
    AddAllSnoc(t, isArtists, e, [v], v);
    assert [v] + [v] == [v, v];
    var r := AddAll(t, isArtists, e, [v, v]);
    assert |r.rows| == 2 && r.rows[0].id == v.id && r.rows[1].id == v.id;
  }
}
