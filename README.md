# lollypop play queue and selection list, modelled in Dafny

This project models two small data-structure cores of the lollypop music player.

- **The play queue** (`QueuePlayer`, `src/player_queue.py`) is an ordered list of
  track ids. Appending or inserting a track that is already queued moves it, so an
  id never occurs twice. A web track is refused while the network is down. The
  queue can also be deleted from, cleared and queried (membership, position,
  whole album, next track).
- **The artist/genre selection list** (`SelectionList`, `src/selectionlist.py`)
  with its GTK widget taken away. What is left is the rows of its list store
  `(id, text, icon)` with the selection state of each row, and the ids waiting to
  be selected once their row appears (`__to_select_ids`). It also keeps the
  `__updating` and `__populating` flags. On top of that come the decision rules:
  the sort comparator, the multi-selection validation and the icon choice.

Files:

- `pylist.dfy` (module `PyList`): the Python list builtins the code relies on.
  These are `x in l`, `l.index(x)`, `l.remove(x)` and `l.insert(pos, x)`, with
  pos clamped as Python clamps it. The module also defines `NoDup` and `Without`,
  which state the effect of these builtins.
- `player_queue.dfy` (module `PlayerQueue`): the queue as a class whose methods
  reassign a `seq<int>` field. The specification functions `Appended`,
  `Inserted` and `Apply`/`Run` describe the methods, and lemmas prove the
  queue's properties about them.
- `selection_rules.dfy` (module `SelectionRules`): the reserved `Type` ids, a
  row, `__get_icon_name`, `__sort_items` and `__selection_validation`.
- `selection_rows.dfy` (module `SelectionRows`): the list's state as a value
  (`Store`), with one function per change and lemmas saying what each change does.
- `selection_list.dfy` (module `Selection`): the `SelectionList` class. Each of
  its methods loops over the rows as the source does and is proved equal to the
  matching function of `SelectionRows`.

Inputs that the source reads from elsewhere are parameters of the model:

- `track.is_web` and `get_network_available()` are booleans.
- lollypop's `Type` constants are a `TypeIds` value given to the list's
  constructor. Only `Valid()` (all negative) is assumed of them, and only where a
  lemma says so.
- `locale.strcoll` and `Lp().artists.get_sortname` are function parameters of
  `SortItems`.
- The modifier-key state is a parameter of `SelectionValidation`.
- Signal emissions (`queue-changed`, `populated`, `item-selected`) are counters.

Behaviour of the code worth knowing:

- `update_values` protects only rows with `id <= Type.DEVICES`. A static row with
  an id between `Type.DEVICES` and 0 is removed when the snapshot lacks it.
- `select_ids` selects nothing unless every requested id has a row. It does not
  select the rows it found while leaving the others pending.
- The list does not keep its row ids distinct. `populate` on a non-empty list
  appends every value without looking for its id, and `update_values` adds a
  snapshot id twice when the snapshot repeats it (`PopulateCanRepeatIds`, `UpdateValuesCanRepeatIds`). With two
  rows for a requested id, `select_ids` raises inside its search and takes its
  `except` path (`DuplicateRowsDropRequest`). The lemmas about `select_ids` and
  about keeping ids distinct therefore assume distinct row ids.
- `__sort_items` returns 0 ("equal") when a static row is compared with a
  natural one in that order, and 1 in the other order. So the comparator is not
  antisymmetric there (`StaticAgainstNatural`). Between two static rows, the row
  with the smaller id compares as "after" the other (`StaticsDescending`).

## Model

| member | source | states |
|---|---|---|
| PyList.IndexOf | src/player_queue.py:141 | `l.index(x)`: the index of the first occurrence of x, with no earlier x before it, or -1 exactly when x is absent |
| PyList.InsertIndex | src/player_queue.py:71 | the index `l.insert(pos, x)` uses: pos itself within the list, counted from the end when negative, and saturated to 0 or the length beyond either end |
| PyList.RemoveFirst | src/player_queue.py:46-47 | `if x in l: l.remove(x)` leaves the list unchanged when x is absent and otherwise shortens it by one |
| PyList.RemoveFirstMultiset | src/player_queue.py:46-47 | the removal takes exactly one copy of x out of the list's multiset |
| PyList.RemoveFirstIsWithout | src/player_queue.py:83-84 | on a list without duplicates, removing the first occurrence equals dropping every occurrence with the other elements kept in order |
| PyList.InsertAt | src/player_queue.py:71 | `l.insert(pos, x)` lengthens the list by one and puts x at InsertIndex(pos), with the elements before it in place and those after it shifted by one |
| PyList.InsertAtKeepsNoDup | src/player_queue.py:71 | inserting an element that is not in the list keeps the list free of duplicates |
| PyList.ElementsCount | src/player_queue.py:130-131 | a list has at most as many distinct elements as entries, and exactly as many iff it has no duplicate |
| PlayerQueue.AppendedSpec | src/player_queue.py:46-48 | after append the track is last and occurs exactly once, and the other tracks are the old queue without it, in order |
| PlayerQueue.AppendedIdempotent | src/player_queue.py:46-48 | appending the same track twice gives the same queue as appending it once |
| PlayerQueue.InsertedSpec | src/player_queue.py:69-71 | after insert the track sits at the clamped position pos of the queue it was removed from, occurs once, and the queue has no duplicates |
| PlayerQueue.InsertedKeepsNoDup | src/player_queue.py:69-71 | insert keeps a queue without duplicates free of duplicates |
| PlayerQueue.InsertedAtFront | src/player_queue.py:69-71 | inserting at position 0 makes the track the first element of the queue |
| PlayerQueue.DeletedSpec | src/player_queue.py:83-84 | deletion removes every occurrence of the track, keeps the other tracks in order, and keeps the queue free of duplicates |
| PlayerQueue.ApplyKeepsNoDup | src/player_queue.py:39-48 | any one append, insert, delete or clear, refused or not, keeps the queue free of duplicates |
| PlayerQueue.RunKeepsNoDup | src/player_queue.py:31-100 | no sequence of appends, inserts, deletes and clears ever creates a duplicate |
| PlayerQueue.MoveToFrontScenario | src/player_queue.py:54-71 | on an empty queue, inserting 10, then 20, then 10 again at the front gives [10, 20] |
| PlayerQueue.IntersectionCoversAlbum | src/player_queue.py:130-131 | the queued album ids number as many as the album's track list iff the album's ids are distinct and all queued |
| PlayerQueue.QueuePlayer.constructor | src/player_queue.py:25-29 | a new player has an empty queue and has emitted no signal |
| PlayerQueue.QueuePlayer.AppendToQueue | src/player_queue.py:31-52 | a web track with no network leaves the queue unchanged and emits nothing; otherwise the queue becomes Appended of the old queue, the track is last, uniqueness is kept, and "queue-changed" is emitted when notify is set |
| PlayerQueue.QueuePlayer.InsertInQueue | src/player_queue.py:54-75 | the same guard; otherwise the queue becomes Inserted of the old queue, uniqueness is kept, and with pos 0 the track's position is 1 |
| PlayerQueue.QueuePlayer.DelFromQueue | src/player_queue.py:77-88 | the track is removed if present and the queue is unchanged if absent; on a queue without duplicates the others keep their order; the signal is emitted whenever notify is set |
| PlayerQueue.QueuePlayer.ClearQueue | src/player_queue.py:90-100 | the queue is empty afterwards and Next then yields none |
| PlayerQueue.QueuePlayer.GetQueue | src/player_queue.py:102-110 | returns the queue, which is [] when empty |
| PlayerQueue.QueuePlayer.TrackInQueue | src/player_queue.py:112-121 | true iff the track id is queued, with the empty queue answering false |
| PlayerQueue.QueuePlayer.AlbumInQueue | src/player_queue.py:123-133 | false for an empty queue |
| PlayerQueue.QueuePlayer.AlbumInQueueIff | src/player_queue.py:129-133 | true iff the queue is non-empty and the album's track ids are distinct and all queued |
| PlayerQueue.QueuePlayer.GetTrackPosition | src/player_queue.py:135-141 | for a queued track, the 1-based index p of its first occurrence, with queue[p-1] the track |
| PlayerQueue.QueuePlayer.Next | src/player_queue.py:143-151 | none iff the queue is empty, otherwise the front track, whose position is 1 |
| SelectionRules.DisplayLabel | src/selectionlist.py:387-390 | the label stored is never empty: an empty name becomes "Unknown" and any other name is kept |
| SelectionRules.IconName | src/selectionlist.py:408-439 | a row has an icon iff its id is one of the named reserved ids or lies below Type.DEVICES; a natural id gets none; the reserved ids map to their icons in the code's order of tests |
| SelectionRules.SortItems | src/selectionlist.py:441-468 | 0 when not updating; for two static rows 1 iff a < b; for a natural a and a static b 1; for a static a and a natural b 0 |
| SelectionRules.NaturalsCollate | src/selectionlist.py:460-468 | two natural rows compare by collating their labels, or their artist sort names in artist mode |
| SelectionRules.StaticAgainstNatural | src/selectionlist.py:454-459 | a natural row compares as after a static row, and the reverse comparison answers equal |
| SelectionRules.StaticsDescending | src/selectionlist.py:451-453 | between two static rows, the one with the smaller id compares as after the other |
| SelectionRules.SelectionValidation | src/selectionlist.py:478-507 | a row may be selected iff nothing is selected, no modifier is held, or it has a positive id and no selected id is negative; with a modifier, a static candidate never joins a selection of two or more |
| SelectionRows.SelectedOfAll | src/selectionlist.py:278-289 | the selected ids are exactly the ids of the selected rows, and there are at most as many as rows |
| SelectionRows.LabelOfFirst | src/selectionlist.py:233-242 | get_value answers the text of the first row with that id |
| SelectionRows.AddRowSpec | src/selectionlist.py:381-396 | __add_value appends one row with the value's id and "Unknown" for an empty name; the row is selected iff its id was pending, and then one copy of the id leaves the pending list |
| SelectionRows.AddAllRows | src/selectionlist.py:398-405 | adding values keeps the old rows in front and appends one row per value |
| SelectionRows.AddAllRowAt | src/selectionlist.py:398-405 | the row added for the k-th value carries that value's id and displayed label |
| SelectionRows.AddAllPendingShrinks | src/selectionlist.py:394-395 | adding rows only takes ids off the pending list |
| SelectionRows.AddAllSelectsPending | src/selectionlist.py:394-396 | a row added is selected only when its id was pending |
| SelectionRows.AddValueSpec | src/selectionlist.py:184-195 | add_value leaves the state unchanged when a row has the id, and otherwise appends exactly one row with that id |
| SelectionRows.AddValueIdempotent | src/selectionlist.py:189-192 | adding the same id again, under any name, changes nothing |
| SelectionRows.AddValueKeepsIdsDistinct | src/selectionlist.py:189-195 | add_value keeps the row ids distinct |
| SelectionRows.RemoveValueIds | src/selectionlist.py:179-182 | remove_value changes nothing when no row has the id, and otherwise removes exactly the first occurrence of that id |
| SelectionRows.RemoveValueFirst | src/selectionlist.py:179-182 | the row removed is the first row with that id, and the other rows keep their order |
| SelectionRows.RemoveValueKeepsIdsDistinct | src/selectionlist.py:179-182 | with distinct row ids, no row with that id is left and the ids stay distinct |
| SelectionRows.UpdateValueSpec | src/selectionlist.py:197-212 | on a present id, update_value gives the first row with that id the new text, keeping its id, icon and selection, and changes no other row and not the pending list, and get_value then answers the new name; on an absent id it is add_value |
| SelectionRows.UpdateValueKeepsIdsDistinct | src/selectionlist.py:197-212 | update_value keeps the row ids distinct |
| SelectionRows.KeptMembers | src/selectionlist.py:223-225 | the removal loop keeps a row iff its id is at most Type.DEVICES or in the snapshot |
| SelectionRows.MissingMembers | src/selectionlist.py:227-230 | the adding loop adds a value iff it is in the snapshot and its id has no row left |
| SelectionRows.UpdateValuesKeeps | src/selectionlist.py:220-231 | after update_values every row at or below Type.DEVICES remains, and any other row remains iff its id is in the snapshot |
| SelectionRows.UpdateValuesCovers | src/selectionlist.py:227-230 | after update_values every id of the snapshot has a row |
| SelectionRows.UpdateValuesNoStrangers | src/selectionlist.py:220-231 | after update_values every row's id was there before or is in the snapshot |
| SelectionRows.UnselectedNone | src/selectionlist.py:275-276 | after unselect_all no id is selected |
| SelectionRows.AbsentEmpty | src/selectionlist.py:261-268 | no requested id is left over iff every requested id has a row |
| SelectionRows.ScanIdsDistinct | src/selectionlist.py:258-265 | with distinct row ids, the search never raises and leaves exactly the requested ids that have no row, in request order |
| SelectionRows.SelectIdsSpec | src/selectionlist.py:251-276 | with distinct row ids: an empty request deselects everything and leaves nothing pending; if every id has a row, those rows are selected and nothing is pending; otherwise pending is exactly the ids not found and no row changes |
| SelectionRows.SelectMatchingSelects | src/selectionlist.py:269-271 | every requested id that has a row ends up selected, and rows selected before stay selected |
| SelectionRows.PendingSelectionResolved | src/selectionlist.py:266-268 | selecting an id before its row exists leaves it pending, and adding the row then selects it and empties the pending list |
| SelectionRows.DuplicateRowsDropRequest | src/selectionlist.py:272-274 | with rows [7, 7], list.remove raises on the second row: the request [7] leaves nothing pending and the request [7, 8] leaves [8] pending; no row is selected in either case |
| SelectionRows.PopulateCanRepeatIds | src/selectionlist.py:398-405 | populate on a list with a row for 7, given the value (7, "A"), gives row ids [7, 7] |
| SelectionRows.UpdateValuesCanRepeatIds | src/selectionlist.py:227-230 | update_values on an empty list with a snapshot that repeats 7 gives row ids [7, 7] |
| Selection.SelectionList.constructor | src/selectionlist.py:78-87 | a new list has no rows, nothing pending, both flags cleared and the list not in artist mode |
| Selection.SelectionList.MarkAsArtists | src/selectionlist.py:144-150 | sets artist mode |
| Selection.SelectionList.AddValueRow | src/selectionlist.py:381-396 | the state becomes AddRow of the old state |
| Selection.SelectionList.AddValues | src/selectionlist.py:398-406 | the rows become those of one __add_value per value, in order, and nothing stays pending |
| Selection.SelectionList.Populate | src/selectionlist.py:158-172 | while a populate runs nothing changes; otherwise the values are added, pending is empty, "populated" is emitted once and both flags end false |
| Selection.SelectionList.RemoveValue | src/selectionlist.py:174-182 | the rows become RemoveFirstRow of the old rows |
| Selection.SelectionList.AddValue | src/selectionlist.py:184-195 | the state becomes AddValueResult of the old state; the updating flag is cleared only when a row was added |
| Selection.SelectionList.UpdateValue | src/selectionlist.py:197-212 | the state becomes Relabelled of the old state and the updating flag ends false |
| Selection.SelectionList.UpdateValues | src/selectionlist.py:214-231 | the state becomes UpdateValuesResult of the old state and the updating flag ends false |
| Selection.SelectionList.RemoveUnlisted | src/selectionlist.py:223-225 | the rows become those Kept by the removal loop |
| Selection.SelectionList.AddMissing | src/selectionlist.py:227-230 | one __add_value for each value whose id had no row, in snapshot order |
| Selection.SelectionList.GetValue | src/selectionlist.py:233-242 | the text of the first row with the id, or '' when no row has it |
| Selection.SelectionList.WillBeSelected | src/selectionlist.py:244-249 | true iff some ids are pending |
| Selection.SelectionList.SelectedIds | src/selectionlist.py:278-289 | an id is in the result iff some selected row carries it, and there are no more of them than rows |
| Selection.SelectionList.SelectIds | src/selectionlist.py:251-276 | the state becomes SelectIdsResult of the old rows and the request |
| Selection.SelectionList.FindRows | src/selectionlist.py:258-265 | the search over the request's copy ends in the state ScanIds describes; without a raise it remembers exactly the rows whose id was requested |
| Selection.SelectionList.FindRowsFor | src/selectionlist.py:262-265 | the scan of every row for one requested id ends in the state ScanRows describes; without a raise it remembers exactly the rows with that id |
| Selection.SelectionList.SelectRowsAt | src/selectionlist.py:269-271 | the rows at the remembered positions become selected and no other row changes |
| Selection.SelectionList.Clear | src/selectionlist.py:291-297 | no rows are left and the updating flag ends false |
| Selection.SelectionList.OnSelectionChanged | src/selectionlist.py:370-376 | "item-selected" is emitted iff the list is not updating and no id is pending |

## Left out

- Row order in the list store: the store is kept sorted by `__sort_items`, and the model keeps rows in the order they were added. The comparator is modelled on its own (`SortItems`), but GTK's sorting algorithm is not part of this model. So "the first row with that id" means the first in insertion order.
- GTK's select function is consulted by `select_iter` as well as by clicks, and the selection mode comes from a UI file outside the shown code. The model selects the found rows directly; `SelectionValidation` is modelled on its own.
- PlayerQueue.QueuePlayer.constructor: `QueuePlayer.__init__` does nothing, and `_queue` is created outside the shown files; the model starts the queue empty.
- The selection's "changed" signal is not wired to `OnSelectionChanged`. In the code, the `select_iter` calls of `__add_value` and `select_ids` and `unselect_all` fire that handler, which may emit "item-selected". In the model the handler is a method of its own that no other method calls, so the model does not count those emissions.
- `get_queue` returns the player's own list object, so a caller can change the queue through it, and `will_be_selected` returns the pending list itself rather than a boolean. The model returns a copy of the queue and the truth value of the pending list.
- `select_ids` stores the caller's own list object as the pending list, so the two alias each other. The model keeps a copy.
- `set_next` and `set_prev` are defined outside the shown files, so they are not part of this model.
- `Lp().notify.send` (the "no network" message) and the construction of `Track` objects are left out. `next` returns the track id, or none, instead of a `Track`.
- The `emit` calls are counters, not callbacks.
- Thread safety and the GTK main loop are left out; the model is sequential.
- Left out as widget plumbing with no list logic: `SelectionPopover`, `MotionEvent`, the constructor's widget wiring, `_on_query_tooltip`, `__on_scroll`, `__on_motion_notify`, the enter and leave handlers, `__on_button_clicked`, `__hide_popover`, `__on_artist_artwork_changed`, `__row_separator_func`, `get_headers`, and the button press and release handlers that set the modifier flag.
- `lollypop/window.py` is not part of this model.
- Python ints are unbounded, so no wrap-around arises.
