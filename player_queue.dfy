/**
  The player's play queue (src/player_queue.py): an ordered list of track ids
  that the user asked to hear next. Appending or inserting a track that is
  already queued moves it; a web track is refused while the network is down.
 */
module PlayerQueue {
  import opened PyList

  datatype Option<T> = None | Some(value: T)

  /** The guard of append_to_queue and insert_in_queue: a web track with no network. */
  predicate Refused(isWeb: bool, networkAvailable: bool) {
    isWeb && !networkAvailable
  }

  /** The queue after a successful append_to_queue: remove the earlier occurrence, then append. */
  function Appended(q: seq<int>, id: int): seq<int> {
    RemoveFirst(q, id) + [id]
  }

  /** The queue after a successful insert_in_queue at pos. */
  function Inserted(q: seq<int>, id: int, pos: int): seq<int> {
    InsertAt(RemoveFirst(q, id), pos, id)
  }

  /** After append the track is last and occurs once; the other tracks keep their order. */
  lemma AppendedSpec(q: seq<int>, id: int)
    requires NoDup(q)
    ensures var r := Appended(q, id);
      && |r| > 0 && r[|r| - 1] == id
      && r[..|r| - 1] == Without(q, id)
      && NoDup(r)
      && multiset(r)[id] == 1
  {
    RemoveFirstIsWithout(q, id);
    var r := Appended(q, id);
    assert r[..|r| - 1] == Without(q, id);
    assert r == Without(q, id) + [id];
    assert id !in Without(q, id);
    assert multiset(r)[id] == multiset(Without(q, id))[id] + 1;
    forall i, j | 0 <= i < j < |r| ensures r[i] != r[j] {
      if j == |r| - 1 {
        assert r[i] in Without(q, id);
      }
    }
  }

  /** Appending the same track twice is the same as appending it once. */
  lemma AppendedIdempotent(q: seq<int>, id: int)
    requires NoDup(q)
    ensures Appended(Appended(q, id), id) == Appended(q, id)
  {
    AppendedSpec(q, id);
    var r := Appended(q, id);
    var w := Without(q, id);
    assert r == w + [id];
    assert id !in w;
    IndexOfAfterPrefix(w, [id], id);
    assert RemoveFirst(r, id) == w;
  }

  /** After insert the track sits at the clamped position of the list it was removed from, once. */
  lemma InsertedSpec(q: seq<int>, id: int, pos: int)
    requires NoDup(q)
    ensures var w := Without(q, id);
      var k := InsertIndex(pos, |w|);
      && Inserted(q, id, pos) == w[..k] + [id] + w[k..]
      && Inserted(q, id, pos)[k] == id
      && NoDup(Inserted(q, id, pos))
      && multiset(Inserted(q, id, pos))[id] == 1
  {
    RemoveFirstIsWithout(q, id);
    var w := Without(q, id);
    assert id !in w;
    InsertAtKeepsNoDup(w, pos, id);
    InsertAtMultiset(w, pos, id);
  }

  /** Insert keeps the queue free of duplicates. */
  lemma InsertedKeepsNoDup(q: seq<int>, id: int, pos: int)
    requires NoDup(q)
    ensures NoDup(Inserted(q, id, pos))
  {
    RemoveFirstIsWithout(q, id);
    InsertAtKeepsNoDup(Without(q, id), pos, id);
  }

  /** Inserting at the front makes the track the one that plays next. */
  lemma InsertedAtFront(q: seq<int>, id: int)
    requires NoDup(q)
    ensures Inserted(q, id, 0) != [] && Inserted(q, id, 0)[0] == id
    ensures IndexOf(Inserted(q, id, 0), id) == 0
  {
    InsertedSpec(q, id, 0);
  }

  /** del_from_queue drops the track if present, keeping every other track in order. */
  lemma DeletedSpec(q: seq<int>, id: int)
    requires NoDup(q)
    ensures RemoveFirst(q, id) == Without(q, id)
    ensures id !in RemoveFirst(q, id)
    ensures NoDup(RemoveFirst(q, id))
  {
    RemoveFirstIsWithout(q, id);
  }

  /** One call on the queue, with the inputs the source reads from elsewhere turned into arguments. */
  datatype QueueOp =
    | AppendOp(id: int, isWeb: bool, networkAvailable: bool)
    | InsertOp(id: int, pos: int, isWeb: bool, networkAvailable: bool)
    | DeleteOp(id: int)
    | ClearOp

  /** The queue after one call. */
  function Apply(q: seq<int>, op: QueueOp): seq<int> {
    match op
    case AppendOp(id, isWeb, net) => if Refused(isWeb, net) then q else Appended(q, id)
    case InsertOp(id, pos, isWeb, net) => if Refused(isWeb, net) then q else Inserted(q, id, pos)
    case DeleteOp(id) => RemoveFirst(q, id)
    case ClearOp => []
  }

  /** The queue after a sequence of calls, first to last. */
  function Run(q: seq<int>, ops: seq<QueueOp>): seq<int>
    decreases |ops|
  {
    if ops == [] then q else Run(Apply(q, ops[0]), ops[1..])
  }

  /** One call keeps the queue free of duplicates. */
  lemma ApplyKeepsNoDup(q: seq<int>, op: QueueOp)
    requires NoDup(q)
    ensures NoDup(Apply(q, op))
  {
    match op
    case AppendOp(id, _, _) => AppendedSpec(q, id);
    case InsertOp(id, pos, _, _) => InsertedSpec(q, id, pos);
    case DeleteOp(id) => DeletedSpec(q, id);
    case ClearOp =>
  }

  /** No sequence of append, insert, delete and clear ever creates a duplicate. */
  lemma {:induction false} RunKeepsNoDup(q: seq<int>, ops: seq<QueueOp>)
    requires NoDup(q)
    ensures NoDup(Run(q, ops))
    decreases |ops|
  {
    if ops != [] {
      ApplyKeepsNoDup(q, ops[0]);
      RunKeepsNoDup(Apply(q, ops[0]), ops[1..]);
    }
  }

  /** Some tracks queued, then the first one moved back to the front. */
  lemma MoveToFrontScenario()
    ensures Run([], [InsertOp(10, 0, false, true), InsertOp(20, 0, false, true), InsertOp(10, 0, false, true)]) == [10, 20]
  {
    var ops := [InsertOp(10, 0, false, true), InsertOp(20, 0, false, true), InsertOp(10, 0, false, true)];
    assert Apply([], ops[0]) == [10];
    assert Apply([10], ops[1]) == [20, 10];
    assert IndexOf([20, 10], 10) == 1;
    assert Apply([20, 10], ops[2]) == [10, 20];
  }

  /** For any intersection of a queue with an album, the count equals the album's length exactly
      when all of the album's ids are distinct and queued. */
  lemma IntersectionCoversAlbum(q: seq<int>, album: seq<int>)
    ensures |Elements(q) * Elements(album)| == |album| <==>
            NoDup(album) && forall t :: t in album ==> t in q
  {
    var e := Elements(album);
    var i := Elements(q) * e;
    ElementsCount(album);
    assert i <= e;
    SubsetCard(i, e);
    if forall t :: t in album ==> t in q {
      assert i == e;
    }
    if |i| == |album| {
      assert i == e;
      forall t | t in album ensures t in q {
        assert t in e;
      }
    }
  }

  /** QueuePlayer's share of the player: the queue and how often "queue-changed" was emitted. */
  class QueuePlayer {
    var queue: seq<int>
    var changeSignals: nat

    constructor ()
      ensures queue == [] && changeSignals == 0
    {
      queue := [];
      changeSignals := 0;
    }

    /** append_to_queue: move the track to the end, unless it is a web track and the network is down. */
    method AppendToQueue(trackId: int, isWeb: bool, networkAvailable: bool, notify: bool := true)
      modifies this
      ensures queue == if Refused(isWeb, networkAvailable) then old(queue) else Appended(old(queue), trackId)
      ensures changeSignals == old(changeSignals) + if !Refused(isWeb, networkAvailable) && notify then 1 else 0
      ensures NoDup(old(queue)) ==> NoDup(queue)
      ensures !Refused(isWeb, networkAvailable) ==> queue != [] && queue[|queue| - 1] == trackId
    {
      if isWeb && !networkAvailable {
        return;
      }
      ghost var q0 := queue;
      if trackId in queue {
        queue := RemoveFirst(queue, trackId);
      }
      assert queue == RemoveFirst(q0, trackId);
      queue := queue + [trackId];
      assert queue == Appended(q0, trackId);
      if NoDup(q0) {
        AppendedSpec(q0, trackId);
      }
      if notify {
        changeSignals := changeSignals + 1;
      }
    }

    /** insert_in_queue: move the track to position pos, by default the front, under the same guard. */
    method InsertInQueue(trackId: int, isWeb: bool, networkAvailable: bool, pos: int := 0, notify: bool := true)
      modifies this
      ensures queue == if Refused(isWeb, networkAvailable) then old(queue) else Inserted(old(queue), trackId, pos)
      ensures changeSignals == old(changeSignals) + if !Refused(isWeb, networkAvailable) && notify then 1 else 0
      ensures NoDup(old(queue)) ==> NoDup(queue)
      ensures !Refused(isWeb, networkAvailable) && pos == 0 && NoDup(old(queue)) ==>
                TrackInQueue(trackId) && GetTrackPosition(trackId) == 1
    {
      if isWeb && !networkAvailable {
        return;
      }
      ghost var q0 := queue;
      var rest := queue;
      if trackId in queue {
        rest := RemoveFirst(queue, trackId);
      }
      assert rest == RemoveFirst(q0, trackId);
      if NoDup(q0) {
        InsertedKeepsNoDup(q0, trackId, pos);
        if pos == 0 {
          InsertedAtFront(q0, trackId);
        }
      }
      queue := InsertAt(rest, pos, trackId);
      if notify {
        changeSignals := changeSignals + 1;
      }
    }

    /** del_from_queue: drop the track if it is queued; "queue-changed" is emitted either way. */
    method DelFromQueue(trackId: int, notify: bool := true)
      modifies this
      ensures queue == RemoveFirst(old(queue), trackId)
      ensures trackId !in old(queue) ==> queue == old(queue)
      ensures NoDup(old(queue)) ==> NoDup(queue) && queue == Without(old(queue), trackId)
      ensures changeSignals == old(changeSignals) + if notify then 1 else 0
    {
      if NoDup(queue) {
        DeletedSpec(queue, trackId);
      }
      if trackId in queue {
        queue := RemoveFirst(queue, trackId);
      }
      if notify {
        changeSignals := changeSignals + 1;
      }
    }

    /** clear_queue: nothing is queued afterwards, so nothing plays next from the queue. */
    method ClearQueue(notify: bool := true)
      modifies this
      ensures queue == []
      ensures Next() == None
      ensures changeSignals == old(changeSignals) + if notify then 1 else 0
    {
      queue := [];
      if notify {
        changeSignals := changeSignals + 1;
      }
    }

    /** get_queue. */
    function GetQueue(): (r: seq<int>)
      reads this
      ensures r == queue
    {
      if queue != [] then queue else []
    }

    /** track_in_queue, by the track's id. */
    function TrackInQueue(trackId: int): (r: bool)
      reads this
      ensures r <==> trackId in queue
    {
      if queue != [] then trackId in queue else false
    }

    /** album_in_queue: the queued ids shared with the album are as many as the album's track list. */
    function AlbumInQueue(albumTrackIds: seq<int>): (r: bool)
      reads this
      ensures queue == [] ==> !r
    {
      if queue != [] then
        |Elements(queue) * Elements(albumTrackIds)| == |albumTrackIds|
      else false
    }

    /** album_in_queue holds exactly when the queue is not empty and the album's ids are distinct and all queued. */
    lemma AlbumInQueueIff(albumTrackIds: seq<int>)
      ensures AlbumInQueue(albumTrackIds) <==>
              queue != [] && NoDup(albumTrackIds) && forall t :: t in albumTrackIds ==> t in queue
    {
      IntersectionCoversAlbum(queue, albumTrackIds);
    }

    /** get_track_position: the 1-based position of the track; only defined for a queued track. */
    function GetTrackPosition(trackId: int): (p: int)
      reads this
      requires trackId in queue
      ensures 1 <= p <= |queue| && queue[p - 1] == trackId
      ensures trackId !in queue[..p - 1]
    {
      IndexOf(queue, trackId) + 1
    }

    /** next: the track at the front of the queue, or none when nothing is queued. */
    function Next(): (r: Option<int>)
      reads this
      ensures r == None <==> queue == []
      ensures r.Some? ==> r.value == queue[0] && TrackInQueue(r.value) && GetTrackPosition(r.value) == 1
    {
      if queue != [] then Some(queue[0]) else None
    }
  }
}
