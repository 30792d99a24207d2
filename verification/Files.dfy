/** Uploads: a reservation against the sender's quota, the commit that links it to a
    message, and the sweep that reclaims what was abandoned (internal/files/service.go). */
module Files {
  import opened Wrappers

  /** Seconds a pending reservation counts against the quota. */
  const RESERVE_WINDOW := 3600

  /** `at` is the time of the commit. The table does not store it; it is history that the
      quota result speaks about. */
  datatype Status = Pending | Committed(at: int)

  datatype FileRow = FileRow(
    id: string, sender: string, receiver: string, objectKey: string, size: int,
    status: Status, messageId: Option<string>, created: int)

  datatype Config = Config(maxFile: nat, maxPerUser: nat)

  predicate Live(r: FileRow, now: int) {
    r.created >= now - RESERVE_WINDOW
  }

  /** The rows the sweep takes. */
  predicate Reapable(r: FileRow, now: int) {
    !Live(r, now) && (r.status.Pending? || r.messageId.None?)
  }

  /** Bytes of one row that count against the quota of `user`. */
  function UsedBy(r: FileRow, user: string, now: int): int {
    if r.sender == user && (r.status.Committed? || Live(r, now)) then r.size else 0
  }

  /** Bytes of a row that was committed after its reserve window had passed. */
  function LateBy(r: FileRow, user: string): int {
    if r.sender == user && r.status.Committed? && !Live(r, r.status.at) then r.size else 0
  }

  function Used(rows: seq<FileRow>, user: string, now: int): int {
    if rows == [] then 0 else Used(rows[..|rows| - 1], user, now) + UsedBy(rows[|rows| - 1], user, now)
  }

  function LateBytes(rows: seq<FileRow>, user: string): int {
    if rows == [] then 0 else LateBytes(rows[..|rows| - 1], user) + LateBy(rows[|rows| - 1], user)
  }

  function Find(rows: seq<FileRow>, id: string): (found: Option<FileRow>)
    ensures found.Some? ==> found.value in rows && found.value.id == id
    ensures found.None? ==> forall r | r in rows :: r.id != id
  {
    if rows == [] then None
    else if rows[|rows| - 1].id == id then Some(rows[|rows| - 1])
    else Find(rows[..|rows| - 1], id)
  }

  // ---- The statements ----

  /** DELETE FROM files WHERE id = ..., for each of `ids` */
  function RemoveIds(rows: seq<FileRow>, ids: set<string>): seq<FileRow> {
    if rows == [] then []
    else RemoveIds(rows[..|rows| - 1], ids) + if rows[|rows| - 1].id in ids then [] else [rows[|rows| - 1]]
  }

  function CommitRow(r: FileRow, messageId: string, now: int): FileRow {
    r.(status := if r.status.Pending? then Committed(now) else r.status, messageId := Some(messageId))
  }

  /** UPDATE files SET status = 'committed', message_id = ... WHERE id = ... */
  function SetCommitted(rows: seq<FileRow>, id: string, messageId: string, now: int): seq<FileRow> {
    seq(|rows|, i requires 0 <= i < |rows| =>
      if rows[i].id == id then CommitRow(rows[i], messageId, now) else rows[i])
  }

  /** UPDATE files SET message_id = NULL WHERE message_id IN ... */
  function Unlink(rows: seq<FileRow>, messageIds: set<string>): seq<FileRow> {
    seq(|rows|, i requires 0 <= i < |rows| =>
      if rows[i].messageId.Some? && rows[i].messageId.value in messageIds
      then rows[i].(messageId := None) else rows[i])
  }

  function ReapableIds(rows: seq<FileRow>, now: int): set<string> {
    set r | r in rows && Reapable(r, now) :: r.id
  }

  function Sweep(rows: seq<FileRow>, now: int): seq<FileRow> {
    RemoveIds(rows, ReapableIds(rows, now))
  }

  predicate IsLinked(r: FileRow, messageId: string, sender: string) {
    r.messageId == Some(messageId) && r.sender == sender
  }

  function LinkedIds(rows: seq<FileRow>, messageId: string, sender: string): set<string> {
    set r | r in rows && IsLinked(r, messageId, sender) :: r.id
  }

  function Ids(rows: seq<FileRow>): set<string> {
    set r | r in rows :: r.id
  }

  function Keys(rows: seq<FileRow>): set<string> {
    set r | r in rows :: r.objectKey
  }

  /** The rows a SELECT returns. */
  function Where(rows: seq<FileRow>, p: FileRow -> bool): (selected: seq<FileRow>)
    ensures forall r :: r in selected <==> r in rows && p(r)
  {
    if rows == [] then []
    else
      assert rows == rows[..|rows| - 1] + [rows[|rows| - 1]];
      Where(rows[..|rows| - 1], p) + if p(rows[|rows| - 1]) then [rows[|rows| - 1]] else []
  }

  /** The row an upload request inserts. */
  function Reservation(id: string, sender: string, receiver: string, objectKey: string, size: int, now: int): FileRow {
    FileRow(id, sender, receiver, objectKey, size, Pending, None, now)
  }

  lemma SumsAppend(rows: seq<FileRow>, r: FileRow, user: string, now: int)
    ensures Used(rows + [r], user, now) == Used(rows, user, now) + UsedBy(r, user, now)
    ensures LateBytes(rows + [r], user) == LateBytes(rows, user) + LateBy(r, user)
  {
    assert (rows + [r])[..|rows|] == rows;
  }

  predicate Unique(rows: seq<FileRow>) {
    forall i, j | 0 <= i < j < |rows| :: rows[i].id != rows[j].id && rows[i].objectKey != rows[j].objectKey
  }

  predicate IsFresh(rows: seq<FileRow>, id: string, objectKey: string) {
    forall r | r in rows :: r.id != id && r.objectKey != objectKey
  }

  lemma {:induction false} RemoveIdsMembers(rows: seq<FileRow>, ids: set<string>)
    ensures forall r :: r in RemoveIds(rows, ids) <==> r in rows && r.id !in ids
  {
    if rows != [] {
      RemoveIdsMembers(rows[..|rows| - 1], ids);
      assert rows == rows[..|rows| - 1] + [rows[|rows| - 1]];
    }
  }

  lemma {:induction false} RemoveIdsTwice(rows: seq<FileRow>, a: set<string>, b: set<string>)
    ensures RemoveIds(RemoveIds(rows, a), b) == RemoveIds(rows, a + b)
  {
    if rows != [] {
      var init, last := rows[..|rows| - 1], rows[|rows| - 1];
      RemoveIdsTwice(init, a, b);
      if last.id !in a {
        assert (RemoveIds(init, a) + [last])[..|RemoveIds(init, a)|] == RemoveIds(init, a);
      } else {
        assert RemoveIds(init, a) + [] == RemoveIds(init, a);
      }
    }
  }

  lemma {:induction false} RemoveNothing(rows: seq<FileRow>)
    ensures RemoveIds(rows, {}) == rows
  {
    if rows != [] {
      RemoveNothing(rows[..|rows| - 1]);
    }
  }

  lemma {:induction false} RemoveIdsUnique(rows: seq<FileRow>, ids: set<string>)
    requires Unique(rows)
    ensures Unique(RemoveIds(rows, ids))
  {
    if rows != [] {
      var init, last := rows[..|rows| - 1], rows[|rows| - 1];
      RemoveIdsUnique(init, ids);
      RemoveIdsMembers(init, ids);
      assert forall r | r in init :: r.id != last.id && r.objectKey != last.objectKey;
    }
  }

  lemma SelectedGrows(selected: seq<FileRow>, i: nat)
    requires i < |selected|
    ensures Ids(selected[..i + 1]) == Ids(selected[..i]) + {selected[i].id}
    ensures Keys(selected[..i + 1]) == Keys(selected[..i]) + {selected[i].objectKey}
  {
    assert selected[..i + 1] == selected[..i] + [selected[i]];
  }

  lemma OthersKeepObjects(rows: seq<FileRow>, selected: seq<FileRow>)
    requires Unique(rows) && forall r | r in selected :: r in rows
    ensures forall r | r in RemoveIds(rows, Ids(selected)) :: r.objectKey !in Keys(selected)
  {
    RemoveIdsMembers(rows, Ids(selected));
    forall r, q | r in RemoveIds(rows, Ids(selected)) && q in selected
      ensures r.objectKey != q.objectKey
    {
      assert r in rows && q in rows && r.id != q.id;
    }
  }

  /** What a deletion by message leaves: every file that is not linked to it, and every file of
      another sender. */
  lemma LinkedMembers(rows: seq<FileRow>, messageId: string, sender: string)
    requires Unique(rows)
    ensures forall r :: r in RemoveIds(rows, LinkedIds(rows, messageId, sender)) <==>
      r in rows && !(r.messageId == Some(messageId) && r.sender == sender)
  {
    RemoveIdsMembers(rows, LinkedIds(rows, messageId, sender));
  }

  /** The rows a sweep leaves are exactly those that are not reapable. */
  lemma SweepMembers(rows: seq<FileRow>, now: int)
    requires Unique(rows)
    ensures forall r :: r in Sweep(rows, now) <==> r in rows && !Reapable(r, now)
  {
    RemoveIdsMembers(rows, ReapableIds(rows, now));
  }

  // ---- The service ----

  predicate IsReserved(r: FileRow, id: string, sender: string) {
    r.id == id && r.sender == sender && r.status.Pending?
  }

  /** The uploaded object has the declared size. */
  predicate Stores(objects: map<string, int>, r: FileRow) {
    r.objectKey in objects && objects[r.objectKey] == r.size
  }

  datatype Error = TooLarge | StorageFull | NotFound | SizeMismatch | NotContacts | Failed

  datatype Result = Ok | Err(error: Error)

  class Service {
    const config: Config
    var rows: seq<FileRow>
    /** The object store: key and size of every stored object. */
    var objects: map<string, int>

    ghost predicate Valid()
      reads this
    {
      Unique(rows)
    }

    constructor (config: Config)
      ensures Valid() && this.config == config && rows == [] && objects == map[]
    {
      this.config := config;
      rows, objects := [], map[];
    }

    /** A request passes if and only if its receiver is a contact, its size is one that is
        allowed, and the sender stays within the quota when the file has been added. */
    method CheckUpload(sender: string, receiver: string, isContact: bool, size: int, now: int) returns (res: Result)
      ensures res.Ok? <==>
        && isContact && 0 < size <= config.maxFile
        && forall id, objectKey ::
             Used(rows + [Reservation(id, sender, receiver, objectKey, size, now)], sender, now) <= config.maxPerUser
      ensures res == Err(NotContacts) <==> !isContact
      ensures res == Err(TooLarge) <==> isContact && !(0 < size <= config.maxFile)
      ensures res == Err(StorageFull) ==> Used(rows, sender, now) > config.maxPerUser - size
      ensures res.Err? ==> res.error in {NotContacts, TooLarge, StorageFull}
    {
      if !isContact {
        return Err(NotContacts);
      }
      if size <= 0 || size > config.maxFile {
        return Err(TooLarge);
      }
      var used := Used(rows, sender, now);
      forall id, objectKey
        ensures Used(rows + [Reservation(id, sender, receiver, objectKey, size, now)], sender, now) == used + size
      {
        SumsAppend(rows, Reservation(id, sender, receiver, objectKey, size, now), sender, now);
      }
      if used + size > config.maxPerUser {
        assert Used(rows + [Reservation("", sender, receiver, "", size, now)], sender, now) > config.maxPerUser;
        return Err(StorageFull);
      }
      return Ok;
    }

    /** The insert of an upload request; the primary key and the unique object key may refuse it. */
    method InsertPending(id: string, sender: string, receiver: string, objectKey: string, size: int, now: int)
      returns (res: Result)
      requires Valid()
      modifies this`rows
      ensures Valid()
      ensures res == if IsFresh(old(rows), id, objectKey) then Ok else Err(Failed)
      ensures rows == if res.Ok? then old(rows) + [Reservation(id, sender, receiver, objectKey, size, now)]
                      else old(rows)
      ensures res.Ok? <==> forall r | r in old(rows) :: r.id != id && r.objectKey != objectKey
    {
      if exists r | r in rows :: r.id == id || r.objectKey == objectKey {
        return Err(Failed);
      }
      rows := rows + [Reservation(id, sender, receiver, objectKey, size, now)];
      return Ok;
    }

    method RequestUpload(sender: string, receiver: string, isContact: bool, size: int,
                         id: string, objectKey: string, now: int) returns (res: Result)
      requires Valid()
      modifies this`rows
      ensures Valid()
      ensures res.Ok? <==> isContact && 0 < size <= config.maxFile && IsFresh(old(rows), id, objectKey)
                           && Used(old(rows), sender, now) + size <= config.maxPerUser
      ensures rows == if res.Ok? then old(rows) + [Reservation(id, sender, receiver, objectKey, size, now)]
                      else old(rows)
      ensures res.Ok? ==>
        && |rows| == |old(rows)| + 1 && rows[..|old(rows)|] == old(rows)
        && var r := rows[|old(rows)|];
           && r.id == id && r.sender == sender && r.receiver == receiver && r.objectKey == objectKey
           && r.size == size && r.status == Pending && r.messageId == None && r.created == now
    {
      res := CheckUpload(sender, receiver, isContact, size, now);
      if res.Ok? {
        SumsAppend(rows, Reservation(id, sender, receiver, objectKey, size, now), sender, now);
        res := InsertPending(id, sender, receiver, objectKey, size, now);
      }
    }

    /** A commit is accepted for the sender's own pending row whose object has the declared
        size; it does not look at the age of the reservation. */
    method Commit(id: string, sender: string, messageId: string, now: int) returns (res: Result)
      requires Valid()
      modifies this`rows
      ensures Valid()
      ensures res.Ok? <==> exists r :: r in old(rows) && IsReserved(r, id, sender) && Stores(objects, r)
      ensures res == Err(NotFound) <==> forall r | r in old(rows) :: !IsReserved(r, id, sender)
      ensures res == Err(SizeMismatch) <==>
        exists r :: r in old(rows) && IsReserved(r, id, sender) && r.objectKey in objects && !Stores(objects, r)
      ensures rows == if res.Ok? then SetCommitted(old(rows), id, messageId, now) else old(rows)
      ensures res.Ok? <==> exists r :: r in old(rows) && r.id == id && r.sender == sender && r.status == Pending
                                       && r.objectKey in objects && objects[r.objectKey] == r.size
      ensures res.Ok? ==>
        && |rows| == |old(rows)|
        && forall i | 0 <= i < |rows| ::
             rows[i] == if old(rows)[i].id != id then old(rows)[i]
                        else old(rows)[i].(status := Committed(now), messageId := Some(messageId))
    {
      var found := Find(rows, id);
      if found.None? || found.value.sender != sender || !found.value.status.Pending? {
        assert found.Some? ==> forall r | r in rows && r.id == id :: r == found.value;
        return Err(NotFound);
      }
      var r := found.value;
      assert forall r' | r' in rows && r'.id == id :: r' == r;
      if r.objectKey !in objects {
        return Err(Failed);
      }
      if objects[r.objectKey] != r.size {
        return Err(SizeMismatch);
      }
      rows := SetCommitted(rows, id, messageId, now);
      return Ok;
    }

    /** Deletes objects and rows one by one. */
    method DeleteRows(selected: seq<FileRow>)
      modifies this
      ensures rows == RemoveIds(old(rows), Ids(selected))
      ensures objects == old(objects) - Keys(selected)
    {
      RemoveNothing(rows);
      assert Ids([]) == {} && Keys([]) == {};
      for i := 0 to |selected|
        invariant rows == RemoveIds(old(rows), Ids(selected[..i]))
        invariant objects == old(objects) - Keys(selected[..i])
      {
        var r := selected[i];
        RemoveIdsTwice(old(rows), Ids(selected[..i]), {r.id});
        SelectedGrows(selected, i);
        objects := objects - {r.objectKey};
        rows := RemoveIds(rows, {r.id});
      }
      assert selected[..|selected|] == selected;
    }

    /** Only the sender's own files of that message go; no remaining row loses its object. */
    method DeleteByMessage(messageId: string, sender: string)
      requires Valid()
      modifies this
      ensures Valid()
      ensures rows == RemoveIds(old(rows), LinkedIds(old(rows), messageId, sender))
      ensures forall r :: r in rows <==> r in old(rows) && !(r.messageId == Some(messageId) && r.sender == sender)
      ensures forall r | r in rows && r.objectKey in old(objects) :: r.objectKey in objects
      ensures objects == old(objects) - set r | r in old(rows) && IsLinked(r, messageId, sender) :: r.objectKey
      ensures forall k :: k in objects <==>
        k in old(objects)
        && forall r | r in old(rows) && r.messageId == Some(messageId) && r.sender == sender :: r.objectKey != k
      ensures forall k | k in objects :: objects[k] == old(objects)[k]
      ensures forall r | r in old(rows) && r.sender != sender ::
        r in rows && (r.objectKey in old(objects) ==> r.objectKey in objects)
    {
      var selected := Where(rows, r => IsLinked(r, messageId, sender));
      assert Ids(selected) == LinkedIds(rows, messageId, sender);
      assert Keys(selected) == set r | r in rows && IsLinked(r, messageId, sender) :: r.objectKey;
      RemoveIdsUnique(rows, Ids(selected));
      OthersKeepObjects(rows, selected);
      LinkedMembers(rows, messageId, sender);
      DeleteRows(selected);
    }

    /** Only reapable rows go; no remaining row loses its object. */
    method CleanupOrphans(now: int)
      requires Valid()
      modifies this
      ensures Valid()
      ensures rows == Sweep(old(rows), now)
      ensures forall r :: r in rows <==>
        r in old(rows) && !(r.created < now - 3600 && (r.status == Pending || r.messageId == None))
      ensures forall r | r in rows && r.objectKey in old(objects) :: r.objectKey in objects
      ensures objects == old(objects) - set r | r in old(rows) && Reapable(r, now) :: r.objectKey
      ensures forall k :: k in objects <==>
        k in old(objects)
        && forall r | r in old(rows) && r.created < now - 3600 && (r.status == Pending || r.messageId == None) ::
             r.objectKey != k
      ensures forall k | k in objects :: objects[k] == old(objects)[k]
    {
      var selected := Where(rows, r => Reapable(r, now));
      assert Ids(selected) == ReapableIds(rows, now);
      assert Keys(selected) == set r | r in rows && Reapable(r, now) :: r.objectKey;
      RemoveIdsUnique(rows, Ids(selected));
      OthersKeepObjects(rows, selected);
      SweepMembers(rows, now);
      DeleteRows(selected);
    }
  }

  // ---- Lifecycle of a file ----

  /** A pending row either counts against its sender's quota or can be reclaimed, never both
      and never neither; a committed row always counts. */
  lemma CountsOrReapable(r: FileRow, now: int)
    requires r.size > 0
    ensures r.status.Pending? ==> (UsedBy(r, r.sender, now) == r.size <==> !Reapable(r, now))
    ensures r.status.Pending? ==> (UsedBy(r, r.sender, now) == 0 <==> Reapable(r, now))
    ensures r.status.Committed? ==> UsedBy(r, r.sender, now) == r.size
  {
  }

  /** The window in numbers: a reservation counts for 3600 seconds and is reapable from the next
      second on; a commit is late from then on, too. A file counts for its sender only. */
  lemma WindowInSeconds(r: FileRow, user: string, now: int)
    ensures r.status == Pending ==>
      && UsedBy(r, user, now) == (if r.sender == user && now - r.created <= 3600 then r.size else 0)
      && (Reapable(r, now) <==> now - r.created >= 3601)
      && LateBy(r, user) == 0
    ensures r.status != Pending ==>
      && UsedBy(r, user, now) == (if r.sender == user then r.size else 0)
      && (Reapable(r, now) <==> now - r.created >= 3601 && r.messageId == None)
      && LateBy(r, user) == (if r.sender == user && r.status.at - r.created >= 3601 then r.size else 0)
  {
  }

  /** Committed bytes of `user` that are past the window and linked to no message. */
  function AbandonedBytes(rows: seq<FileRow>, user: string, now: int): int {
    if rows == [] then 0
    else
      var r := rows[|rows| - 1];
      AbandonedBytes(rows[..|rows| - 1], user, now)
      + if r.sender == user && r.status.Committed? && r.messageId.None? && !Live(r, now) then r.size else 0
  }

  lemma {:induction false} RemoveReapable(rows: seq<FileRow>, ids: set<string>, user: string, now: int)
    requires forall r | r in rows :: r.id in ids <==> Reapable(r, now)
    ensures Used(RemoveIds(rows, ids), user, now) == Used(rows, user, now) - AbandonedBytes(rows, user, now)
  {
    if rows != [] {
      var init, last := rows[..|rows| - 1], rows[|rows| - 1];
      RemoveReapable(init, ids, user, now);
      if last.id !in ids {
        assert RemoveIds(rows, ids)[..|RemoveIds(init, ids)|] == RemoveIds(init, ids);
      } else {
        assert RemoveIds(rows, ids) == RemoveIds(init, ids);
      }
    }
  }

  /** A sweep lowers the used bytes of each user by exactly the abandoned committed bytes,
      and takes no committed file that is linked to a message. */
  lemma SweepFrees(rows: seq<FileRow>, user: string, now: int)
    requires Unique(rows)
    ensures Used(Sweep(rows, now), user, now) == Used(rows, user, now) - AbandonedBytes(rows, user, now)
    ensures forall r | r in rows && r.status.Committed? && r.messageId.Some? :: r in Sweep(rows, now)
  {
    SweepMembers(rows, now);
    forall r | r in rows
      ensures r.id in ReapableIds(rows, now) <==> Reapable(r, now)
    {
    }
    RemoveReapable(rows, ReapableIds(rows, now), user, now);
  }
}
