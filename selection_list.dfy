/**
  The SelectionList widget of src/selectionlist.py with the GTK parts taken away:
  the rows of its list store (each with GTK's selection state of that row), the ids
  waiting to be selected when their row appears, the `__updating` and `__populating`
  flags, and the count of the "populated" and "item-selected" signals emitted.
  Each method is proved against the function of SelectionRows that describes it.
 */
module Selection {
  import opened PyList
  import opened SelectionRules
  import opened SelectionRows

  class SelectionList {
    /** lollypop's reserved ids, fixed for the program's lifetime. */
    const types: TypeIds
    var rows: seq<Row>
    var toSelect: seq<int>
    var updating: bool
    var populating: bool
    var isArtists: bool
    var populatedSignals: nat
    var itemSelectedSignals: nat

    constructor (types: TypeIds)
      ensures this.types == types
      ensures rows == [] && toSelect == []
      ensures !updating && !populating && !isArtists
      ensures populatedSignals == 0 && itemSelectedSignals == 0
    {
      this.types := types;
      rows := [];
      toSelect := [];
      updating := false;
      populating := false;
      isArtists := false;
      populatedSignals := 0;
      itemSelectedSignals := 0;
    }

    /** mark_as_artists: the list's kind decides icons and sort keys of what comes later; the rows stay as they are. */
    method MarkAsArtists(isArtists: bool)
      modifies this`isArtists
      ensures this.isArtists == isArtists
    {
      this.isArtists := isArtists;
    }

    /** __add_value: append the row; a pending id is taken off the list and its row selected. */
    method AddValueRow(value: Value)
      modifies this`rows, this`toSelect
      ensures Store(rows, toSelect) == AddRow(types, isArtists, Store(old(rows), old(toSelect)), value)
    {
      var text := DisplayLabel(value.name);
      rows := rows + [Row(value.id, text, IconName(types, isArtists, value.id), false)];
      if value.id in toSelect {
        toSelect := RemoveFirst(toSelect, value.id);
        rows := rows[|rows| - 1 := rows[|rows| - 1].(selected := true)];
      }
    }

    /** __add_value for the i-th value: one more step of the loop of __add_values. */
    method AddValueStep(values: seq<Value>, i: int, ghost s0: Store)
      requires 0 <= i < |values|
      requires Store(rows, toSelect) == AddAll(types, isArtists, s0, values[..i])
      modifies this`rows, this`toSelect
      ensures Store(rows, toSelect) == AddAll(types, isArtists, s0, values[..i + 1])
    {
      AddAllPrefix(types, isArtists, s0, values, i);
      AddValueRow(values[i]);
    }

    /** __add_values: one __add_value per value, in order, then nothing stays pending. */
    method AddValues(values: seq<Value>)
      modifies this`rows, this`toSelect
      ensures rows == AddAll(types, isArtists, Store(old(rows), old(toSelect)), values).rows
      ensures toSelect == []
    {
      ghost var s0 := Store(rows, toSelect);
      assert values[..0] == [];
      var i := 0;
      while i < |values|
        invariant 0 <= i <= |values|
        invariant Store(rows, toSelect) == AddAll(types, isArtists, s0, values[..i])
      {
        AddValueStep(values, i, s0);
        i := i + 1;
      }
      assert values[..|values|] == values;
      toSelect := [];
    }

    /**
      populate: ignored while a population is running; otherwise the values are
      added, "populated" is emitted and both flags end cleared.
     */
    method Populate(values: seq<Value>)
      modifies this`rows, this`toSelect, this`updating, this`populating, this`populatedSignals
      ensures old(populating) ==>
                rows == old(rows) && toSelect == old(toSelect) && updating == old(updating) &&
                populating && populatedSignals == old(populatedSignals)
      ensures !old(populating) ==>
                rows == AddAll(types, isArtists, Store(old(rows), old(toSelect)), values).rows &&
                toSelect == [] && !updating && !populating && populatedSignals == old(populatedSignals) + 1
    {
      if populating {
        return;
      }
      populating := true;
      if |rows| > 0 {
        updating := true;
      }
      AddValues(values);
      populatedSignals := populatedSignals + 1;
      updating := false;
      populating := false;
    }

    /** remove_value: drop the first row with that id, if there is one. */
    method RemoveValue(id: int)
      modifies this`rows
      ensures rows == RemoveFirstRow(old(rows), id)
    {
      var i := 0;
      while i < |rows|
        invariant 0 <= i <= |rows|
        invariant rows == old(rows)
        invariant forall k :: 0 <= k < i ==> rows[k].id != id
      {
        if rows[i].id == id {
          FirstMatch(rows, id, i);
          rows := rows[..i] + rows[i + 1..];
          return;
        }
        i := i + 1;
      }
      assert id !in Ids(rows);
    }

    /** add_value: nothing happens when a row has the id; otherwise __add_value, inside an update. */
    method AddValue(value: Value)
      modifies this`rows, this`toSelect, this`updating
      ensures Store(rows, toSelect) == AddValueResult(types, isArtists, Store(old(rows), old(toSelect)), value)
      ensures updating == if value.id in Ids(old(rows)) then old(updating) else false
    {
      var i := 0;
      while i < |rows|
        invariant 0 <= i <= |rows|
        invariant forall k :: 0 <= k < i ==> rows[k].id != value.id
      {
        if rows[i].id == value.id {
          assert Ids(rows)[i] == value.id;
          return;
        }
        i := i + 1;
      }
      assert value.id !in Ids(rows);
      updating := true;
      AddValueRow(value);
      updating := false;
    }

    /** update_value: rename the first row with that id, or add (id, name) when there is none. */
    method UpdateValue(id: int, name: string)
      modifies this`rows, this`toSelect, this`updating
      ensures Store(rows, toSelect) == Relabelled(types, isArtists, Store(old(rows), old(toSelect)), id, name)
      ensures !updating
    {
      updating := true;
      var found := false;
      var i := 0;
      while i < |rows|
        invariant 0 <= i <= |rows|
        invariant rows == old(rows) && toSelect == old(toSelect)
        invariant forall k :: 0 <= k < i ==> rows[k].id != id
      {
        if rows[i].id == id {
          FirstMatch(rows, id, i);
          rows := rows[i := rows[i].(text := name)];
          found := true;
          break;
        }
        i := i + 1;
      }
      if !found {
        assert id !in Ids(rows);
        AddValueRow(Value(id, name));
      }
      updating := false;
    }

    /**
      update_values: drop every row above `devices` whose id is not in the snapshot,
      then add the snapshot's values whose id has no row left, inside an update.
     */
    method UpdateValues(values: seq<Value>)
      modifies this`rows, this`toSelect, this`updating
      ensures Store(rows, toSelect) == UpdateValuesResult(types, isArtists, Store(old(rows), old(toSelect)), values)
      ensures !updating
    {
      updating := true;
      var valueIds := ValueIds(values);
      RemoveUnlisted(valueIds);
      var itemIds := IdSet(rows);
      AddMissing(values, itemIds);
      updating := false;
    }

    /** The removal loop of update_values: GTK's iteration goes on past a removed row, so this filters the rows. */
    method RemoveUnlisted(valueIds: set<int>)
      modifies this`rows
      ensures rows == Kept(old(rows), valueIds, types.devices)
    {
      ghost var r0 := rows;
      ghost var n := 0;
      var i := 0;
      while i < |rows|
        invariant 0 <= n <= |r0| && 0 <= i <= |rows|
        invariant rows == Kept(r0[..n], valueIds, types.devices) + r0[n..]
        invariant i == |Kept(r0[..n], valueIds, types.devices)|
        decreases |rows| - i
      {
        i := RemoveUnlistedStep(valueIds, i, r0, n);
        n := n + 1;
      }
      assert r0[..|r0|] == r0;
    }

    /** The removal loop of update_values looking at one more row, the n-th of the original rows. */
    method RemoveUnlistedStep(valueIds: set<int>, i: int, ghost r0: seq<Row>, ghost n: int) returns (next: int)
      requires 0 <= n < |r0|
      requires rows == Kept(r0[..n], valueIds, types.devices) + r0[n..]
      requires i == |Kept(r0[..n], valueIds, types.devices)|
      modifies this`rows
      ensures rows == Kept(r0[..n + 1], valueIds, types.devices) + r0[n + 1..]
      ensures next == |Kept(r0[..n + 1], valueIds, types.devices)|
    {
      KeptSnoc(r0, n, valueIds, types.devices);
      var kept := Kept(r0[..n], valueIds, types.devices);
      assert r0[n..] == [r0[n]] + r0[n + 1..];
      assert rows == kept + [r0[n]] + r0[n + 1..];
      if rows[i].id > types.devices && rows[i].id !in valueIds {
        rows := rows[..i] + rows[i + 1..];
        next := i;
      } else {
        next := i + 1;
      }
    }

    /** The adding loop of update_values: __add_value for each value whose id had no row. */
    method AddMissing(values: seq<Value>, itemIds: set<int>)
      modifies this`rows, this`toSelect
      ensures Store(rows, toSelect) == AddAll(types, isArtists, Store(old(rows), old(toSelect)), Missing(values, itemIds))
    {
      ghost var s0 := Store(rows, toSelect);
      assert values[..0] == [];
      var j := 0;
      while j < |values|
        invariant 0 <= j <= |values|
        invariant Store(rows, toSelect) == AddAll(types, isArtists, s0, Missing(values[..j], itemIds))
      {
        AddMissingStep(values, itemIds, j, s0);
        j := j + 1;
      }
      assert values[..|values|] == values;
    }

    /** The adding loop of update_values looking at one more value. */
    method AddMissingStep(values: seq<Value>, itemIds: set<int>, j: int, ghost s0: Store)
      requires 0 <= j < |values|
      requires Store(rows, toSelect) == AddAll(types, isArtists, s0, Missing(values[..j], itemIds))
      modifies this`rows, this`toSelect
      ensures Store(rows, toSelect) == AddAll(types, isArtists, s0, Missing(values[..j + 1], itemIds))
    {
      MissingPrefix(values, itemIds, j);
      var missing := Missing(values[..j], itemIds);
      if values[j].id !in itemIds {
        AddAllSnoc(types, isArtists, s0, missing, values[j]);
        AddValueRow(values[j]);
      } else {
        assert missing + [] == missing;
      }
    }

    /** get_value: the text of the first row with that id, or '' when there is none. */
    method GetValue(id: int) returns (text: string)
      ensures text == LabelOf(rows, id)
      ensures id !in Ids(rows) ==> text == ""
      ensures forall k :: 0 <= k < |rows| && rows[k].id == id && (forall j :: 0 <= j < k ==> rows[j].id != id) ==>
                text == rows[k].text
    {
      var i := 0;
      while i < |rows|
        invariant 0 <= i <= |rows|
        invariant forall k :: 0 <= k < i ==> rows[k].id != id
      {
        if rows[i].id == id {
          LabelOfFirst(rows, id, i);
          return rows[i].text;
        }
        i := i + 1;
      }
      assert id !in Ids(rows);
      return "";
    }

    /** will_be_selected: whether some ids wait for their row. */
    function WillBeSelected(): (r: bool)
      reads this
      ensures r <==> |toSelect| > 0
    {
      toSelect != []
    }

    /** selected_ids: the ids of the selected rows, in row order. */
    function SelectedIds(): (r: seq<int>)
      reads this
      ensures forall id :: id in r <==> exists k :: 0 <= k < |rows| && rows[k].selected && rows[k].id == id
      ensures |r| <= |rows|
    {
      SelectedOfAll(rows);
      SelectedOf(rows)
    }

    /**
      select_ids: with no ids every row is deselected; otherwise the rows are searched
      for each requested id and either the rows found are selected or what is left of
      the request waits for its rows.
     */
    method SelectIds(ids: seq<int>)
      modifies this`rows, this`toSelect
      ensures Store(rows, toSelect) == SelectIdsResult(old(rows), ids)
    {
      toSelect := [];
      if ids == [] {
        rows := Unselected(rows);
        return;
      }
      var remaining, failed, iters := FindRows(ids);
      if failed || remaining != [] {
        toSelect := remaining;
      } else {
        ghost var r0 := rows;
        SelectRowsAt(iters);
        assert rows == SelectMatching(r0, ids);
      }
    }

    /**
      The search of select_ids over a copy of the request: each row matching a requested
      id is remembered and takes one copy of that id off the request; `failed` says that
      list.remove raised because no copy was left.
     */
    method FindRows(ids: seq<int>) returns (remaining: seq<int>, failed: bool, iters: seq<int>)
      ensures Scan(remaining, failed) == ScanIds(Scan(ids, false), Ids(rows), ids)
      ensures !failed ==> forall k :: k in iters <==> 0 <= k < |rows| && rows[k].id in ids
    {
      remaining := ids;
      failed := false;
      iters := [];
      assert ids[..0] == [];
      var j := 0;
      while j < |ids|
        invariant 0 <= j <= |ids|
        invariant Scan(remaining, failed) == ScanIds(Scan(ids, false), Ids(rows), ids[..j])
        invariant !failed ==> forall k :: k in iters <==> 0 <= k < |rows| && rows[k].id in ids[..j]
      {
        ghost var before := Scan(remaining, failed);
        var found;
        remaining, failed, found := FindRowsFor(ids[j], remaining, failed);
        if before.failed {
          ScanRowsFailed(before, Ids(rows), ids[j]);
        }
        assert ids[..j + 1][..j] == ids[..j];
        assert forall x :: x in ids[..j + 1] <==> x in ids[..j] || x == ids[j];
        iters := iters + found;
        j := j + 1;
      }
      assert ids[..|ids|] == ids;
    }

    /** The inner loop of select_ids: every row, in order, for the requested id i. */
    method FindRowsFor(i: int, remaining0: seq<int>, failed0: bool) returns (remaining: seq<int>, failed: bool, found: seq<int>)
      ensures Scan(remaining, failed) == ScanRows(Scan(remaining0, failed0), Ids(rows), i)
      ensures !failed ==> forall k :: k in found <==> 0 <= k < |rows| && rows[k].id == i
    {
      remaining, failed, found := remaining0, failed0, [];
      var rowIds := Ids(rows);
      assert rowIds[..0] == [];
      var m := 0;
      while m < |rows|
        invariant 0 <= m <= |rows|
        invariant Scan(remaining, failed) == ScanRows(Scan(remaining0, failed0), rowIds[..m], i)
        invariant !failed ==> forall k :: k in found <==> 0 <= k < m && rows[k].id == i
      {
        assert rowIds[..m + 1][..m] == rowIds[..m] && rowIds[m] == rows[m].id;
        if !failed && rows[m].id == i {
          found := found + [m];
          if i in remaining {
            remaining := RemoveFirst(remaining, i);
          } else {
            failed := true;
          }
        }
        m := m + 1;
      }
      assert rowIds[..|rows|] == rowIds;
    }

    /** select_iter for each row found: the rows at the given positions become selected. */
    method SelectRowsAt(iters: seq<int>)
      requires forall k :: k in iters ==> 0 <= k < |rows|
      modifies this`rows
      ensures |rows| == |old(rows)|
      ensures forall k :: 0 <= k < |rows| ==> rows[k] == old(rows)[k].(selected := old(rows)[k].selected || k in iters)
    {
      var q := 0;
      while q < |iters|
        invariant 0 <= q <= |iters|
        invariant |rows| == |old(rows)|
        invariant forall k :: 0 <= k < |rows| ==>
                    rows[k] == old(rows)[k].(selected := old(rows)[k].selected || k in iters[..q])
      {
        var k := iters[q];
        assert k in iters;
        assert iters[..q + 1] == iters[..q] + [k];
        rows := rows[k := rows[k].(selected := true)];
        q := q + 1;
      }
      assert iters[..|iters|] == iters;
    }

    /** clear: empty the list store, inside an update. */
    method Clear()
      modifies this`rows, this`updating
      ensures rows == [] && !updating
    {
      updating := true;
      rows := [];
      updating := false;
    }

    /** _on_selection_changed: "item-selected" is forwarded unless the list is updating or ids are pending. */
    method OnSelectionChanged()
      modifies this`itemSelectedSignals
      ensures itemSelectedSignals == old(itemSelectedSignals) + if !updating && toSelect == [] then 1 else 0
    {
      if !updating && toSelect == [] {
        itemSelectedSignals := itemSelectedSignals + 1;
      }
    }
  }
}
