/** Avatars: a reservation per user and kind, and the swap that puts a new avatar in the
    place of the old one (internal/avatars/service.go). Each handler is one step here; the module
    AvatarSteps lets their statements interleave. */
module Avatars {

  /** Seconds after which a pending row may be reclaimed. */
  const RESERVE_WINDOW := 3600

  datatype Status = Pending | Committed

  datatype Row = Row(user: string, kind: string, objectKey: string, size: int, status: Status, created: int)

  /** The table under its primary key, and the sizes of the stored objects. */
  datatype State = State(rows: map<string, Row>, objects: map<string, int>)

  const EMPTY := State(map[], map[])

  /** `Upload` is a client writing through its presigned URL. */
  datatype Event =
    | Request(user: string, kind: string, size: int, id: string, objectKey: string, now: int)
    | Upload(objectKey: string, size: int)
    | Commit(id: string, user: string)
    | DeleteCustom(user: string)
    | Cleanup(now: int)

  predicate ValidKind(kind: string) {
    kind == "default" || kind == "custom"
  }

  predicate Is(r: Row, user: string, kind: string, status: Status) {
    r.user == user && r.kind == kind && r.status == status
  }

  function Matching(rows: map<string, Row>, user: string, kind: string, status: Status): set<string> {
    set id | id in rows && Is(rows[id], user, kind, status)
  }

  function Keys(rows: map<string, Row>, ids: set<string>): set<string> {
    set id | id in ids && id in rows :: rows[id].objectKey
  }

  /** Rows together with their objects. */
  function Dropped(st: State, ids: set<string>): State {
    State(st.rows - ids, st.objects - Keys(st.rows, ids))
  }

  predicate Fresh(rows: map<string, Row>, id: string, objectKey: string) {
    id !in rows && forall other | other in rows :: rows[other].objectKey != objectKey
  }

  predicate CanCommit(st: State, id: string, user: string) {
    && id in st.rows && st.rows[id].user == user && st.rows[id].status == Pending
    && st.rows[id].objectKey in st.objects && st.objects[st.rows[id].objectKey] == st.rows[id].size
  }

  function Requested(st: State, user: string, kind: string, size: int, id: string, objectKey: string, now: int): State {
    var cleared := Dropped(st, Matching(st.rows, user, kind, Pending));
    if Fresh(cleared.rows, id, objectKey)
    then cleared.(rows := cleared.rows[id := Row(user, kind, objectKey, size, Pending, now)])
    else cleared
  }

  function Swapped(st: State, id: string): State
    requires id in st.rows
  {
    var r := st.rows[id];
    var cleared := Dropped(st, Matching(st.rows, r.user, r.kind, Committed) - {id});
    cleared.(rows := cleared.rows[id := r.(status := Committed)])
  }

  function CustomIds(rows: map<string, Row>, user: string): set<string> {
    set id | id in rows && rows[id].user == user && rows[id].kind == "custom"
  }

  function StaleIds(rows: map<string, Row>, now: int): set<string> {
    set id | id in rows && rows[id].status == Pending && rows[id].created < now - RESERVE_WINDOW
  }

  function Step(st: State, e: Event, maxBytes: int): State {
    match e
    case Request(user, kind, size, id, objectKey, now) =>
      if ValidKind(kind) && 0 < size <= maxBytes then Requested(st, user, kind, size, id, objectKey, now) else st
    case Upload(objectKey, size) => st.(objects := st.objects[objectKey := size])
    case Commit(id, user) => if CanCommit(st, id, user) then Swapped(st, id) else st
    case DeleteCustom(user) => Dropped(st, CustomIds(st.rows, user))
    case Cleanup(now) => Dropped(st, StaleIds(st.rows, now))
  }

  function After(es: seq<Event>, j: nat, maxBytes: int): State
    requires j <= |es|
  {
    if j == 0 then EMPTY else Step(After(es, j - 1, maxBytes), es[j - 1], maxBytes)
  }

  // ---- What every run keeps ----

  /** One row per user, kind and status; one row per object; and every committed row has
      its object. */
  ghost predicate Invariant(st: State) {
    && (forall a, b | a in st.rows && b in st.rows && a != b ::
          st.rows[a].objectKey != st.rows[b].objectKey
          && !Is(st.rows[b], st.rows[a].user, st.rows[a].kind, st.rows[a].status))
    && (forall id | id in st.rows && st.rows[id].status == Committed :: st.rows[id].objectKey in st.objects)
  }

  lemma DroppedInvariant(st: State, ids: set<string>)
    requires Invariant(st)
    ensures Invariant(Dropped(st, ids))
    ensures forall id | id in Dropped(st, ids).rows && st.rows[id].objectKey in st.objects ::
      st.rows[id].objectKey in Dropped(st, ids).objects
  {
  }

  lemma RequestedInvariant(st: State, user: string, kind: string, size: int, id: string, objectKey: string, now: int)
    requires Invariant(st)
    ensures Invariant(Requested(st, user, kind, size, id, objectKey, now))
  {
    DroppedInvariant(st, Matching(st.rows, user, kind, Pending));
  }

  lemma SwappedInvariant(st: State, id: string, user: string)
    requires Invariant(st) && CanCommit(st, id, user)
    ensures Invariant(Swapped(st, id))
  {
    var r := st.rows[id];
    DroppedInvariant(st, Matching(st.rows, r.user, r.kind, Committed) - {id});
  }

  lemma StepInvariant(st: State, e: Event, maxBytes: int)
    requires Invariant(st)
    ensures Invariant(Step(st, e, maxBytes))
  {
    match e
    case Request(user, kind, size, id, objectKey, now) => RequestedInvariant(st, user, kind, size, id, objectKey, now);
    case Upload(_, _) =>
    case Commit(id, user) => if CanCommit(st, id, user) { SwappedInvariant(st, id, user); }
    case DeleteCustom(user) => DroppedInvariant(st, CustomIds(st.rows, user));
    case Cleanup(now) => DroppedInvariant(st, StaleIds(st.rows, now));
  }

  /** In every reachable state a user has at most one pending and one committed avatar of each
      kind, and no committed avatar has lost its object. */
  lemma {:induction false} RunInvariant(es: seq<Event>, j: nat, maxBytes: int)
    requires j <= |es|
    ensures Invariant(After(es, j, maxBytes))
  {
    if j > 0 {
      RunInvariant(es, j - 1, maxBytes);
      StepInvariant(After(es, j - 1, maxBytes), es[j - 1], maxBytes);
    }
  }

  lemma AtMostOne(st: State, user: string, kind: string, status: Status)
    requires Invariant(st)
    ensures |Matching(st.rows, user, kind, status)| <= 1
  {
    var ids := Matching(st.rows, user, kind, status);
    if ids != {} {
      var id :| id in ids;
      assert ids == {id};
    }
  }

  /** One step never leaves a user who has a committed default avatar without one. */
  lemma StepKeepsDefault(st: State, e: Event, maxBytes: int, user: string)
    requires Invariant(st) && Matching(st.rows, user, "default", Committed) != {}
    ensures Matching(Step(st, e, maxBytes).rows, user, "default", Committed) != {}
  {
    var id :| id in Matching(st.rows, user, "default", Committed);
    var st' := Step(st, e, maxBytes);
    if id !in st'.rows {
      assert e.id in Matching(st'.rows, user, "default", Committed);
    } else {
      assert id in Matching(st'.rows, user, "default", Committed);
    }
  }

  lemma {:induction false} DefaultStays(es: seq<Event>, i: nat, j: nat, maxBytes: int, user: string)
    requires i <= j <= |es| && Matching(After(es, i, maxBytes).rows, user, "default", Committed) != {}
    ensures Matching(After(es, j, maxBytes).rows, user, "default", Committed) != {}
  {
    if i < j {
      var st := After(es, j - 1, maxBytes);
      DefaultStays(es, i, j - 1, maxBytes, user);
      RunInvariant(es, j - 1, maxBytes);
      StepKeepsDefault(st, es[j - 1], maxBytes, user);
    }
  }

  /** Once a default avatar is committed, exactly one committed default exists for ever after. */
  lemma DefaultForGood(es: seq<Event>, i: nat, j: nat, maxBytes: int, user: string)
    requires i <= j <= |es| && Matching(After(es, i, maxBytes).rows, user, "default", Committed) != {}
    ensures |Matching(After(es, j, maxBytes).rows, user, "default", Committed)| == 1
  {
    var st := After(es, j, maxBytes);
    DefaultStays(es, i, j, maxBytes, user);
    RunInvariant(es, j, maxBytes);
    AtMostOne(st, user, "default", Committed);
    assert |Matching(st.rows, user, "default", Committed)| != 0;
  }

  /** The service deletes no object of a row that stays committed, and leaves its size alone. */
  lemma CommittedObjectKept(st: State, e: Event, maxBytes: int, id: string)
    requires Invariant(st) && !e.Upload?
    requires id in st.rows && st.rows[id].status == Committed && id in Step(st, e, maxBytes).rows
    ensures var st', key := Step(st, e, maxBytes), st.rows[id].objectKey;
            st'.rows[id] == st.rows[id] && key in st'.objects && st'.objects[key] == st.objects[key]
  {
    var cleared := match e
      case Request(user, kind, _, _, _, _) => Matching(st.rows, user, kind, Pending)
      case Commit(next, _) =>
        if next in st.rows then Matching(st.rows, st.rows[next].user, st.rows[next].kind, Committed) - {next} else {}
      case DeleteCustom(user) => CustomIds(st.rows, user)
      case Cleanup(now) => StaleIds(st.rows, now)
      case _ => {};
    DroppedInvariant(st, cleared);
  }

  /** A commit leaves the new avatar as the only committed one of its kind, takes away the
      object of the one before, and touches no other row. */
  lemma CommitSwaps(st: State, id: string, user: string, maxBytes: int)
    requires Invariant(st) && CanCommit(st, id, user)
    ensures var st', kind := Step(st, Commit(id, user), maxBytes), st.rows[id].kind;
            var before := Matching(st.rows, user, kind, Committed);
            && Matching(st'.rows, user, kind, Committed) == {id}
            && Matching(st'.rows, user, kind, Pending) == {}
            && (forall prev | prev in before :: st.rows[prev].objectKey !in st'.objects)
            && (forall other | other in st.rows && other !in before && other != id ::
                  other in st'.rows && st'.rows[other] == st.rows[other])
  {
  }

  // ---- The service ----

  lemma DropOneMore(st: State, ids: set<string>, id: string)
    requires Invariant(st) && id in st.rows
    ensures Dropped(st, ids + {id}).rows == Dropped(st, ids).rows - {id}
    ensures Dropped(st, ids + {id}).objects == Dropped(st, ids).objects - {st.rows[id].objectKey}
  {
    assert Keys(st.rows, ids + {id}) == Keys(st.rows, ids) + {st.rows[id].objectKey};
  }

  lemma DropNone(st: State)
    ensures Dropped(st, {}) == st
  {
    assert Keys(st.rows, {}) == {};
    assert st.rows - {} == st.rows && st.objects - {} == st.objects;
  }

  lemma SwapOne(st: State, id: string, user: string, oldId: string)
    requires Invariant(st) && CanCommit(st, id, user)
    requires oldId in st.rows && Is(st.rows[oldId], user, st.rows[id].kind, Committed)
    ensures Swapped(st, id) == State((st.rows - {oldId})[id := st.rows[id].(status := Committed)],
                                     st.objects - {st.rows[oldId].objectKey})
  {
    assert Matching(st.rows, user, st.rows[id].kind, Committed) - {id} == {oldId};
    DropNone(st);
    DropOneMore(st, {}, oldId);
    assert {} + {oldId} == {oldId};
  }

  lemma SwapNone(st: State, id: string, user: string)
    requires CanCommit(st, id, user) && Matching(st.rows, user, st.rows[id].kind, Committed) == {}
    ensures Swapped(st, id) == State(st.rows[id := st.rows[id].(status := Committed)], st.objects)
  {
    assert Matching(st.rows, user, st.rows[id].kind, Committed) - {id} == {};
    DropNone(st);
  }

  datatype Reply = Done | BadKind | TooLarge | NotFound | SizeMismatch | Failed

  class Service {
    const maxBytes: int
    var rows: map<string, Row>
    var objects: map<string, int>

    ghost function Abs(): State
      reads this
    {
      State(rows, objects)
    }

    ghost predicate Valid()
      reads this
    {
      Invariant(Abs())
    }

    constructor (maxBytes: int)
      ensures Valid() && this.maxBytes == maxBytes && Abs() == EMPTY
    {
      this.maxBytes := maxBytes;
      rows, objects := map[], map[];
    }

    /** Deletes the one row that a lookup finds, with its object, if there is one. */
    method DropFound(user: string, kind: string, status: Status)
      requires Valid()
      modifies this
      ensures Valid()
      ensures Abs() == Dropped(old(Abs()), Matching(old(rows), user, kind, status))
    {
      DroppedInvariant(Abs(), Matching(rows, user, kind, status));
      if id :| id in rows && Is(rows[id], user, kind, status) {
        assert Matching(rows, user, kind, status) == {id};
        objects := objects - {rows[id].objectKey};
        rows := rows - {id};
      } else {
        assert Matching(rows, user, kind, status) == {};
      }
    }

    method RequestUpload(user: string, kind: string, size: int, id: string, objectKey: string, now: int)
      returns (reply: Reply)
      requires Valid()
      modifies this
      ensures Valid()
      ensures reply == BadKind <==> kind != "default" && kind != "custom"
      ensures reply == TooLarge <==> (kind == "default" || kind == "custom") && !(0 < size <= maxBytes)
      ensures reply == BadKind || reply == TooLarge ==> rows == old(rows) && objects == old(objects)
      ensures reply == Failed || reply == Done ==>
        && (forall other :: other in rows && !(reply == Done && other == id) <==>
              other in old(rows) && !(old(rows)[other].user == user && old(rows)[other].kind == kind
                                      && old(rows)[other].status == Pending))
        && (forall other | other in rows && !(reply == Done && other == id) :: rows[other] == old(rows)[other])
        && (forall k :: k in objects <==>
              k in old(objects)
              && forall other | other in old(rows) && old(rows)[other].user == user && old(rows)[other].kind == kind
                                && old(rows)[other].status == Pending :: old(rows)[other].objectKey != k)
        && (forall k | k in objects :: objects[k] == old(objects)[k])
      ensures reply in {BadKind, TooLarge, Failed, Done}
      ensures reply == Done ==>
        && id in rows && rows[id].user == user && rows[id].kind == kind && rows[id].objectKey == objectKey
        && rows[id].size == size && rows[id].status == Pending && rows[id].created == now
      ensures Abs() == Step(old(Abs()), Request(user, kind, size, id, objectKey, now), maxBytes)
    {
      if !ValidKind(kind) {
        return BadKind;
      }
      if size <= 0 || size > maxBytes {
        return TooLarge;
      }
      RequestedInvariant(Abs(), user, kind, size, id, objectKey, now);
      DropFound(user, kind, Pending);
      if id in rows || exists other | other in rows :: rows[other].objectKey == objectKey {
        return Failed;
      }
      rows := rows[id := Row(user, kind, objectKey, size, Pending, now)];
      return Done;
    }

    /** The database drops the old row and promotes the new one in one transaction; the old
        object goes afterwards. */
    method CommitAvatar(id: string, user: string) returns (reply: Reply)
      requires Valid()
      modifies this
      ensures Valid()
      ensures reply == Done <==>
        && id in old(rows) && old(rows)[id].user == user && old(rows)[id].status == Pending
        && old(rows)[id].objectKey in old(objects) && old(objects)[old(rows)[id].objectKey] == old(rows)[id].size
      ensures reply != Done ==> rows == old(rows) && objects == old(objects)
      ensures reply == Done ==>
        && id in rows && rows[id] == old(rows)[id].(status := Committed)
        && (forall other | other != id :: other in rows <==>
              other in old(rows) && !(old(rows)[other].user == user && old(rows)[other].kind == old(rows)[id].kind
                                      && old(rows)[other].status == Committed))
        && (forall other | other in rows && other != id :: rows[other] == old(rows)[other])
        && (forall k :: k in objects <==>
              k in old(objects)
              && forall other | other in old(rows) && old(rows)[other].user == user
                                && old(rows)[other].kind == old(rows)[id].kind
                                && old(rows)[other].status == Committed :: old(rows)[other].objectKey != k)
        && (forall k | k in objects :: objects[k] == old(objects)[k])
      ensures reply == SizeMismatch <==>
        id in old(rows) && old(rows)[id].user == user && old(rows)[id].status == Pending
        && old(rows)[id].objectKey in old(objects) && old(objects)[old(rows)[id].objectKey] != old(rows)[id].size
      ensures reply == NotFound <==>
        id !in old(rows) || old(rows)[id].user != user || old(rows)[id].status != Pending
      ensures Abs() == Step(old(Abs()), Commit(id, user), maxBytes)
    {
      if id !in rows || rows[id].user != user || rows[id].status != Pending {
        return NotFound;
      }
      var r := rows[id];
      if r.objectKey !in objects {
        return Failed;
      }
      if objects[r.objectKey] != r.size {
        return SizeMismatch;
      }
      SwappedInvariant(Abs(), id, user);
      if oldId :| oldId in rows && Is(rows[oldId], user, r.kind, Committed) {
        SwapOne(Abs(), id, user, oldId);
        var oldObjectKey := rows[oldId].objectKey;
        rows := (rows - {oldId})[id := r.(status := Committed)];
        objects := objects - {oldObjectKey};
      } else {
        assert Matching(rows, user, r.kind, Committed) == {};
        SwapNone(Abs(), id, user);
        rows := rows[id := r.(status := Committed)];
      }
      return Done;
    }

    /** Deletes rows and objects one by one. */
    method DropAll(ids: set<string>)
      requires Valid() && ids <= rows.Keys
      modifies this
      ensures Valid()
      ensures Abs() == Dropped(old(Abs()), ids)
    {
      DroppedInvariant(Abs(), ids);
      DropNone(Abs());
      var todo := ids;
      ghost var done: set<string> := {};
      while todo != {}
        invariant todo !! done && todo + done == ids
        invariant Abs() == Dropped(old(Abs()), done)
        decreases todo
      {
        var id :| id in todo;
        DropOneMore(old(Abs()), done, id);
        assert id in rows && rows[id] == old(rows)[id];
        objects := objects - {rows[id].objectKey};
        rows := rows - {id};
        todo := todo - {id};
        done := done + {id};
      }
      assert done == ids;
    }

    method DeleteCustomAvatars(user: string)
      requires Valid()
      modifies this
      ensures Valid()
      ensures Abs() == Step(old(Abs()), DeleteCustom(user), maxBytes)
      ensures forall id :: id in rows <==>
        id in old(rows) && !(old(rows)[id].user == user && old(rows)[id].kind == "custom")
      ensures forall id | id in rows ::
        rows[id] == old(rows)[id] && (rows[id].objectKey in old(objects) ==> rows[id].objectKey in objects)
      ensures forall k :: k in objects <==>
        k in old(objects)
        && forall id | id in old(rows) && old(rows)[id].user == user && old(rows)[id].kind == "custom" ::
             old(rows)[id].objectKey != k
      ensures forall k | k in objects :: objects[k] == old(objects)[k]
    {
      DropAll(CustomIds(rows, user));
    }

    method CleanupOrphans(now: int)
      requires Valid()
      modifies this
      ensures Valid()
      ensures Abs() == Step(old(Abs()), Cleanup(now), maxBytes)
      ensures forall id :: id in rows <==>
        id in old(rows) && !(old(rows)[id].status == Pending && old(rows)[id].created < now - 3600)
      ensures forall id | id in rows ::
        rows[id] == old(rows)[id] && (rows[id].objectKey in old(objects) ==> rows[id].objectKey in objects)
      ensures forall k :: k in objects <==>
        k in old(objects)
        && forall id | id in old(rows) && old(rows)[id].status == Pending && old(rows)[id].created < now - 3600 ::
             old(rows)[id].objectKey != k
      ensures forall k | k in objects :: objects[k] == old(objects)[k]
    {
      DropAll(StaleIds(rows, now));
    }
  }
}
