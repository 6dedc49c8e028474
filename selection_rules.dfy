/**
  The values and decision rules of the artist/genre selection list
  (src/selectionlist.py), apart from the list store itself: the reserved
  ids, a row, the icon a row gets, and the comparator GTK sorts rows with.
 */
module SelectionRules {

  /**
    The reserved negative ids of lollypop's `Type` class that the list consults.
    Their values are defined outside this model; `Valid` is all it assumes of them.
   */
  datatype TypeIds = TypeIds(
    populars: int, recents: int, randoms: int, playlists: int, radios: int,
    all: int, compilations: int, loved: int, never: int, charts: int, devices: int)
  {
    predicate Valid() {
      && populars < 0 && recents < 0 && randoms < 0 && playlists < 0 && radios < 0
      && all < 0 && compilations < 0 && loved < 0 && never < 0 && charts < 0 && devices < 0
    }

    /** The ids that have an icon of their own. */
    function Named(): set<int> {
      {populars, playlists, all, compilations, recents, radios, randoms, loved, never, charts}
    }
  }

  /** A value handed to the list: (id, name). */
  datatype Value = Value(id: int, name: string)

  /** A row of the list store (id, text, icon name), with GTK's selection state of that row. */
  datatype Row = Row(id: int, text: string, icon: string, selected: bool)

  /** The label a new row shows: an empty name is shown as "Unknown". */
  function DisplayLabel(name: string): (text: string)
    ensures text != ""
    ensures name == "" ==> text == "Unknown"
    ensures name != "" ==> text == name
  {
    if name == "" then "Unknown" else name
  }

  /** __get_icon_name: the first matching reserved id decides; device ids lie below `devices`. */
  function IconName(t: TypeIds, isArtists: bool, id: int): (icon: string)
    ensures icon != "" <==> id in t.Named() || id < t.devices
    ensures t.Valid() && id >= 0 ==> icon == ""
    ensures id == t.populars ==> icon == "starred-symbolic"
    ensures id != t.populars && id == t.playlists ==> icon == "emblem-documents-symbolic"
    ensures id !in {t.populars, t.playlists} && id == t.all ==>
              icon == if isArtists then "media-optical-cd-audio-symbolic" else "avatar-default-symbolic"
    ensures id !in {t.populars, t.playlists, t.all} && id == t.compilations ==> icon == "system-users-symbolic"
    ensures id !in {t.populars, t.playlists, t.all, t.compilations} && id == t.recents ==>
              icon == "document-open-recent-symbolic"
    ensures id !in {t.populars, t.playlists, t.all, t.compilations, t.recents} && id == t.radios ==>
              icon == "audio-input-microphone-symbolic"
    ensures id !in {t.populars, t.playlists, t.all, t.compilations, t.recents, t.radios} && id < t.devices ==>
              icon == "multimedia-player-symbolic"
    ensures id !in {t.populars, t.playlists, t.all, t.compilations, t.recents, t.radios} && id >= t.devices ==>
              && (id == t.randoms ==> icon == "media-playlist-shuffle-symbolic")
              && (id != t.randoms && id == t.loved ==> icon == "emblem-favorite-symbolic")
              && (id !in {t.randoms, t.loved} && id == t.never ==> icon == "document-new-symbolic")
              && (id !in {t.randoms, t.loved, t.never} && id == t.charts ==> icon == "application-rss+xml-symbolic")
  {
    if id == t.populars then "starred-symbolic"
    else if id == t.playlists then "emblem-documents-symbolic"
    else if id == t.all then
      (if isArtists then "media-optical-cd-audio-symbolic" else "avatar-default-symbolic")
    else if id == t.compilations then "system-users-symbolic"
    else if id == t.recents then "document-open-recent-symbolic"
    else if id == t.radios then "audio-input-microphone-symbolic"
    else if id < t.devices then "multimedia-player-symbolic"
    else if id == t.randoms then "media-playlist-shuffle-symbolic"
    else if id == t.loved then "emblem-favorite-symbolic"
    else if id == t.never then "document-new-symbolic"
    else if id == t.charts then "application-rss+xml-symbolic"
    else ""
  }

  /**
    __sort_items, with Python's True read by GTK as 1 and False as 0. A row with a
    negative id is a static entry; `strcoll` and `sortName` stand for the locale's
    collation and the artist store's sort-name lookup.
   */
  function SortItems(updating: bool, isArtists: bool, a: Row, b: Row,
                     sortName: int -> string, strcoll: (string, string) -> int): (r: int)
    ensures !updating ==> r == 0
    ensures a.id < 0 || b.id < 0 ==> r == 0 || r == 1
    ensures updating && a.id < 0 && b.id < 0 ==> (r == 1 <==> a.id < b.id)
    ensures updating && (a.id < 0) != (b.id < 0) ==> (r == 1 <==> b.id < 0)
  {
    if !updating then 0
    else if a.id < 0 && b.id < 0 then (if a.id < b.id then 1 else 0)
    else if b.id < 0 then 1
    else if a.id < 0 then 0
    else if isArtists then strcoll(sortName(a.id), sortName(b.id))
    else strcoll(a.text, b.text)
  }

  /** Two natural rows are ordered by collating their labels, or their artist sort names in artist mode. */
  lemma NaturalsCollate(isArtists: bool, a: Row, b: Row,
                        sortName: int -> string, strcoll: (string, string) -> int)
    requires a.id >= 0 && b.id >= 0
    ensures SortItems(true, isArtists, a, b, sortName, strcoll) ==
            if isArtists then strcoll(sortName(a.id), sortName(b.id)) else strcoll(a.text, b.text)
  {
  }

  /**
    A natural row always compares as "after" a static one, while the reverse
    comparison answers "equal" rather than "before": the comparator is not
    antisymmetric when a static row meets a natural one.
   */
  lemma StaticAgainstNatural(isArtists: bool, s: Row, n: Row,
                             sortName: int -> string, strcoll: (string, string) -> int)
    requires s.id < 0 <= n.id
    ensures SortItems(true, isArtists, n, s, sortName, strcoll) > 0
    ensures SortItems(true, isArtists, s, n, sortName, strcoll) == 0
  {
  }

  /** Between two static rows, the one with the smaller id compares as "after" the other: statics fall in descending id order. */
  lemma StaticsDescending(isArtists: bool, a: Row, b: Row,
                          sortName: int -> string, strcoll: (string, string) -> int)
    requires a.id < b.id < 0
    ensures SortItems(true, isArtists, a, b, sortName, strcoll) > 0
    ensures SortItems(true, isArtists, b, a, sortName, strcoll) == 0
  {
  }

  /**
    __selection_validation for the row at the clicked path: with nothing selected or
    no modifier held any row may be selected; otherwise the row joins the selection
    only when it is a natural row with a positive id and no static row is selected.
   */
  method SelectionValidation(selectedIds: seq<int>, modifier: bool, candidate: int) returns (ok: bool)
    ensures ok <==> selectedIds == [] || !modifier ||
                    (candidate > 0 && forall k :: 0 <= k < |selectedIds| ==> selectedIds[k] >= 0)
    ensures modifier && |selectedIds| > 1 && candidate < 0 ==> !ok
  {
    if selectedIds == [] {
      return true;
    } else if modifier {
      if candidate < 0 && |selectedIds| > 1 {
        return false;
      }
      var hasStatic := false;
      var k := 0;
      while k < |selectedIds|
        invariant 0 <= k <= |selectedIds|
        invariant hasStatic <==> exists j :: 0 <= j < k && selectedIds[j] < 0
      {
        if selectedIds[k] < 0 {
          hasStatic := true;
        }
        k := k + 1;
      }
      if hasStatic {
        return false;
      } else if candidate > 0 {
        return true;
      } else {
        return false;
      }
    } else {
      return true;
    }
  }
}
