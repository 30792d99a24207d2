/** The per-user quota over whole runs, with the check of an upload request and its insert
    as separate steps (internal/files/service.go). */
module Quota {
  import opened Wrappers
  import opened Files

  /** An upload request that has passed its checks and is not inserted yet. */
  datatype Request = Request(sender: string, receiver: string, size: int)

  datatype State = State(rows: seq<FileRow>, inflight: seq<Request>, clock: int)

  /** Single statements of the handlers, so that any interleaving of requests, commits,
      deletions, sweeps and purges of old messages is a sequence of events. `Put` is the
      UPDATE of a commit and `Delete` one DELETE of DeleteByMessage or of a sweep that others
      interrupt; both go by id alone, whatever became of the row since it was read.
      `Reclaim` is a sweep that runs undisturbed. */
  datatype Event =
    | Check(sender: string, receiver: string, size: int)
    | Insert(i: nat, id: string, objectKey: string)
    | Put(id: string, messageId: string)
    | Delete(id: string)
    | Reclaim
    | Forget(messageIds: set<string>)
    | Tick(seconds: nat)

  function Start(clock: int): State {
    State([], [], clock)
  }

  predicate Passes(st: State, sender: string, size: int, c: Config) {
    0 < size <= c.maxFile && Used(st.rows, sender, st.clock) + size <= c.maxPerUser
  }

  function Inserted(st: State, i: nat, id: string, objectKey: string): State {
    if i >= |st.inflight| then st
    else
      var req := st.inflight[i];
      State(if IsFresh(st.rows, id, objectKey)
            then st.rows + [FileRow(id, req.sender, req.receiver, objectKey, req.size, Pending, None, st.clock)]
            else st.rows,
            st.inflight[..i] + st.inflight[i + 1..],
            st.clock)
  }

  function Step(st: State, e: Event, c: Config): State {
    match e
    case Check(sender, receiver, size) =>
      if Passes(st, sender, size, c) then st.(inflight := st.inflight + [Request(sender, receiver, size)]) else st
    case Insert(i, id, objectKey) => Inserted(st, i, id, objectKey)
    case Put(id, messageId) => st.(rows := SetCommitted(st.rows, id, messageId, st.clock))
    case Delete(id) => st.(rows := RemoveIds(st.rows, {id}))
    case Reclaim => st.(rows := Sweep(st.rows, st.clock))
    case Forget(messageIds) => st.(rows := Unlink(st.rows, messageIds))
    case Tick(seconds) => st.(clock := st.clock + seconds)
  }

  /** The state after the first `j` events of a run. */
  function After(st: State, es: seq<Event>, j: nat, c: Config): State
    requires j <= |es|
  {
    if j == 0 then st else Step(After(st, es, j - 1, c), es[j - 1], c)
  }

  /** Bytes and number of the requests of `user` in flight. */
  function InFlight(reqs: seq<Request>, user: string): int {
    if reqs == [] then 0
    else InFlight(reqs[..|reqs| - 1], user) + if reqs[|reqs| - 1].sender == user then reqs[|reqs| - 1].size else 0
  }

  function Count(reqs: seq<Request>, user: string): nat {
    if reqs == [] then 0
    else Count(reqs[..|reqs| - 1], user) + if reqs[|reqs| - 1].sender == user then 1 else 0
  }

  /** A request without interference is its check followed at once by its insert. */
  lemma RequestIsCheckThenInsert(rows: seq<FileRow>, sender: string, receiver: string, size: int,
                                 id: string, objectKey: string, now: int, c: Config)
    ensures var st := Step(Step(State(rows, [], now), Check(sender, receiver, size), c), Insert(0, id, objectKey), c);
            st.rows == (if 0 < size <= c.maxFile && Used(rows, sender, now) + size <= c.maxPerUser
                           && IsFresh(rows, id, objectKey)
                        then rows + [FileRow(id, sender, receiver, objectKey, size, Pending, None, now)]
                        else rows)
            && st.inflight == []
  {
  }

  /** The deletions that DeleteByMessage and a sweep make one after the other. */
  function Deletions(selected: seq<FileRow>): seq<Event> {
    seq(|selected|, i requires 0 <= i < |selected| => Delete(selected[i].id))
  }

  lemma {:induction false} DeletionsRemove(st: State, selected: seq<FileRow>, j: nat, c: Config)
    requires j <= |selected|
    ensures After(st, Deletions(selected), j, c) == st.(rows := RemoveIds(st.rows, Ids(selected[..j])))
  {
    hide RemoveIds;
    if j == 0 {
      RemoveNothing(st.rows);
      assert Ids(selected[..0]) == {};
    } else {
      DeletionsRemove(st, selected, j - 1, c);
      SelectedGrows(selected, j - 1);
      RemoveIdsTwice(st.rows, Ids(selected[..j - 1]), {selected[j - 1].id});
      hide Ids;
    }
  }

  /** DeleteByMessage, undisturbed, is the deletions of the rows it read. */
  lemma DeleteByMessageIsDeletions(st: State, messageId: string, sender: string, c: Config)
    ensures var selected := Where(st.rows, r => IsLinked(r, messageId, sender));
            After(st, Deletions(selected), |selected|, c)
            == st.(rows := RemoveIds(st.rows, LinkedIds(st.rows, messageId, sender)))
  {
    var selected := Where(st.rows, r => IsLinked(r, messageId, sender));
    DeletionsRemove(st, selected, |selected|, c);
    assert selected[..|selected|] == selected;
    assert Ids(selected) == LinkedIds(st.rows, messageId, sender);
  }

  /** A sweep, undisturbed, is the deletions of the rows it read. */
  lemma ReclaimIsDeletions(st: State, c: Config)
    ensures var selected := Where(st.rows, r => Reapable(r, st.clock));
            After(st, Deletions(selected), |selected|, c) == Step(st, Reclaim, c)
  {
    var selected := Where(st.rows, r => Reapable(r, st.clock));
    DeletionsRemove(st, selected, |selected|, c);
    assert selected[..|selected|] == selected;
    assert Ids(selected) == ReapableIds(st.rows, st.clock);
  }

  // ---- The bytes that were charged in time ----

  function ChargeBy(r: FileRow, user: string, now: int): int {
    UsedBy(r, user, now) - LateBy(r, user)
  }

  function Charged(rows: seq<FileRow>, user: string, now: int): int {
    if rows == [] then 0 else Charged(rows[..|rows| - 1], user, now) + ChargeBy(rows[|rows| - 1], user, now)
  }

  predicate WellFormed(st: State, c: Config) {
    && Unique(st.rows)
    && (forall r | r in st.rows :: r.size > 0)
    && (forall q | q in st.inflight :: 0 < q.size <= c.maxFile)
  }

  lemma {:induction false} ChargedIs(rows: seq<FileRow>, user: string, now: int)
    ensures Charged(rows, user, now) == Used(rows, user, now) - LateBytes(rows, user)
  {
    if rows != [] {
      ChargedIs(rows[..|rows| - 1], user, now);
    }
  }

  lemma {:induction false} LateNonNegative(rows: seq<FileRow>, user: string)
    requires forall r | r in rows :: r.size > 0
    ensures LateBytes(rows, user) >= 0
  {
    if rows != [] {
      LateNonNegative(rows[..|rows| - 1], user);
    }
  }

  lemma {:induction false} ChargedRemove(rows: seq<FileRow>, ids: set<string>, user: string, now: int)
    requires forall r | r in rows :: r.size > 0
    ensures Charged(RemoveIds(rows, ids), user, now) <= Charged(rows, user, now)
  {
    if rows != [] {
      var init, last := rows[..|rows| - 1], rows[|rows| - 1];
      ChargedRemove(init, ids, user, now);
      if last.id in ids {
        assert RemoveIds(rows, ids) == RemoveIds(init, ids);
      } else {
        assert RemoveIds(rows, ids)[..|RemoveIds(init, ids)|] == RemoveIds(init, ids);
      }
    }
  }

  lemma {:induction false} ChargedLater(rows: seq<FileRow>, user: string, now: int, later: int)
    requires now <= later && forall r | r in rows :: r.size > 0
    ensures Charged(rows, user, later) <= Charged(rows, user, now)
  {
    if rows != [] {
      ChargedLater(rows[..|rows| - 1], user, now, later);
    }
  }

  /** A commit moves a row from live to charged for good, or from expired to late. */
  lemma {:induction false} ChargedCommit(rows: seq<FileRow>, id: string, messageId: string, user: string, now: int)
    ensures Charged(SetCommitted(rows, id, messageId, now), user, now) == Charged(rows, user, now)
  {
    if rows != [] {
      ChargedCommit(rows[..|rows| - 1], id, messageId, user, now);
      assert SetCommitted(rows, id, messageId, now)[..|rows| - 1]
             == SetCommitted(rows[..|rows| - 1], id, messageId, now);
    }
  }

  lemma {:induction false} ChargedUnlink(rows: seq<FileRow>, messageIds: set<string>, user: string, now: int)
    ensures Charged(Unlink(rows, messageIds), user, now) == Charged(rows, user, now)
  {
    if rows != [] {
      ChargedUnlink(rows[..|rows| - 1], messageIds, user, now);
      assert Unlink(rows, messageIds)[..|rows| - 1] == Unlink(rows[..|rows| - 1], messageIds);
    }
  }

  lemma InFlightAppend(reqs: seq<Request>, q: Request, user: string)
    ensures InFlight(reqs + [q], user) == InFlight(reqs, user) + if q.sender == user then q.size else 0
    ensures Count(reqs + [q], user) == Count(reqs, user) + if q.sender == user then 1 else 0
  {
    assert (reqs + [q])[..|reqs|] == reqs;
  }

  lemma {:induction false} InFlightRemove(reqs: seq<Request>, i: nat, user: string)
    requires i < |reqs|
    ensures InFlight(reqs[..i] + reqs[i + 1..], user)
            == InFlight(reqs, user) - if reqs[i].sender == user then reqs[i].size else 0
    ensures Count(reqs[..i] + reqs[i + 1..], user) == Count(reqs, user) - if reqs[i].sender == user then 1 else 0
  {
    var init, last := reqs[..|reqs| - 1], reqs[|reqs| - 1];
    assert reqs == init + [last];
    InFlightAppend(init, last, user);
    if i == |init| {
      assert reqs[..i] + reqs[i + 1..] == init;
    } else {
      InFlightRemove(init, i, user);
      assert reqs[..i] == init[..i] && reqs[i + 1..] == init[i + 1..] + [last];
      assert reqs[..i] + reqs[i + 1..] == (init[..i] + init[i + 1..]) + [last];
      InFlightAppend(init[..i] + init[i + 1..], last, user);
    }
  }

  lemma {:induction false} InFlightBound(reqs: seq<Request>, user: string, c: Config)
    requires forall q | q in reqs :: 0 < q.size <= c.maxFile
    ensures 0 <= InFlight(reqs, user) <= Count(reqs, user) * c.maxFile
  {
    if reqs != [] {
      InFlightBound(reqs[..|reqs| - 1], user, c);
    }
  }

  /** What is charged in time plus what is in flight, for at most `k` requests at once. */
  predicate Bounded(st: State, user: string, c: Config, k: nat) {
    Charged(st.rows, user, st.clock) + InFlight(st.inflight, user) <= c.maxPerUser + (k - 1) * c.maxFile
  }

  lemma TimesMonotone(a: int, b: int, m: nat)
    requires a <= b
    ensures a * m <= b * m
  {
  }

  lemma CheckBounded(st: State, sender: string, receiver: string, size: int, user: string, c: Config, k: nat)
    requires WellFormed(st, c) && Bounded(st, user, c, k)
    requires Count(Step(st, Check(sender, receiver, size), c).inflight, user) <= k
    ensures Bounded(Step(st, Check(sender, receiver, size), c), user, c, k)
  {
    if Passes(st, sender, size, c) {
      InFlightAppend(st.inflight, Request(sender, receiver, size), user);
      if sender == user {
        ChargedIs(st.rows, user, st.clock);
        LateNonNegative(st.rows, user);
        InFlightBound(st.inflight, user, c);
        TimesMonotone(Count(st.inflight, user), k - 1, c.maxFile);
      }
    }
  }

  lemma ChargedAppend(rows: seq<FileRow>, r: FileRow, user: string, now: int)
    ensures Charged(rows + [r], user, now) == Charged(rows, user, now) + ChargeBy(r, user, now)
  {
    assert (rows + [r])[..|rows|] == rows;
  }

  lemma InsertBounded(st: State, i: nat, id: string, objectKey: string, user: string, c: Config, k: nat)
    requires WellFormed(st, c) && Bounded(st, user, c, k)
    ensures Bounded(Inserted(st, i, id, objectKey), user, c, k)
  {
    if i < |st.inflight| {
      var req := st.inflight[i];
      InFlightRemove(st.inflight, i, user);
      ChargedAppend(st.rows, FileRow(id, req.sender, req.receiver, objectKey, req.size, Pending, None, st.clock),
                    user, st.clock);
    }
  }

  lemma StepBounded(st: State, e: Event, user: string, c: Config, k: nat)
    requires WellFormed(st, c) && Bounded(st, user, c, k)
    requires Count(Step(st, e, c).inflight, user) <= k
    ensures Bounded(Step(st, e, c), user, c, k)
  {
    match e
    case Check(sender, receiver, size) => CheckBounded(st, sender, receiver, size, user, c, k);
    case Insert(i, id, objectKey) => InsertBounded(st, i, id, objectKey, user, c, k);
    case Put(id, messageId) => ChargedCommit(st.rows, id, messageId, user, st.clock);
    case Delete(id) => ChargedRemove(st.rows, {id}, user, st.clock);
    case Reclaim => ChargedRemove(st.rows, ReapableIds(st.rows, st.clock), user, st.clock);
    case Forget(messageIds) => ChargedUnlink(st.rows, messageIds, user, st.clock);
    case Tick(seconds) => ChargedLater(st.rows, user, st.clock, st.clock + seconds);
  }

  lemma StepWellFormed(st: State, e: Event, c: Config)
    requires WellFormed(st, c)
    ensures WellFormed(Step(st, e, c), c)
  {
    match e
    case Delete(id) =>
      RemoveIdsMembers(st.rows, {id});
      RemoveIdsUnique(st.rows, {id});
    case Reclaim =>
      RemoveIdsMembers(st.rows, ReapableIds(st.rows, st.clock));
      RemoveIdsUnique(st.rows, ReapableIds(st.rows, st.clock));
    case _ =>
  }

  lemma {:induction false} RunWellFormed(clock: int, es: seq<Event>, j: nat, c: Config)
    requires j <= |es|
    ensures WellFormed(After(Start(clock), es, j, c), c)
  {
    if j > 0 {
      RunWellFormed(clock, es, j - 1, c);
      StepWellFormed(After(Start(clock), es, j - 1, c), es[j - 1], c);
    }
  }

  /** At most `k` requests of `user` are in flight at any time of the run. */
  predicate AtMost(clock: int, es: seq<Event>, user: string, c: Config, k: nat) {
    forall j | 0 <= j <= |es| :: Count(After(Start(clock), es, j, c).inflight, user) <= k
  }

  lemma {:induction false} RunBounded(clock: int, es: seq<Event>, j: nat, user: string, c: Config, k: nat)
    requires j <= |es| && k > 0 && AtMost(clock, es, user, c, k)
    ensures Bounded(After(Start(clock), es, j, c), user, c, k)
  {
    if j > 0 {
      RunBounded(clock, es, j - 1, user, c, k);
      RunWellFormed(clock, es, j - 1, c);
      assert Count(After(Start(clock), es, j, c).inflight, user) <= k;
      StepBounded(After(Start(clock), es, j - 1, c), es[j - 1], user, c, k);
    }
  }

  /** The main result, for every interleaving: used bytes plus bytes in flight stay within
      the quota, plus one file for each further request in flight, plus what was committed
      after its window and still exists. */
  lemma QuotaHolds(clock: int, es: seq<Event>, j: nat, user: string, c: Config, k: nat)
    requires j <= |es| && k > 0 && AtMost(clock, es, user, c, k)
    ensures var st := After(Start(clock), es, j, c);
            Used(st.rows, user, st.clock) + InFlight(st.inflight, user)
            <= c.maxPerUser + (k - 1) * c.maxFile + LateBytes(st.rows, user)
  {
    var st := After(Start(clock), es, j, c);
    RunBounded(clock, es, j, user, c, k);
    ChargedIs(st.rows, user, st.clock);
  }

  /** In particular, with one request at a time and no late commit, within the quota. */
  lemma OneAtATime(clock: int, es: seq<Event>, j: nat, user: string, c: Config)
    requires j <= |es| && AtMost(clock, es, user, c, 1)
    requires LateBytes(After(Start(clock), es, j, c).rows, user) == 0
    ensures var st := After(Start(clock), es, j, c);
            Used(st.rows, user, st.clock) + InFlight(st.inflight, user) <= c.maxPerUser
  {
    QuotaHolds(clock, es, j, user, c, 1);
  }

  // ---- Exactly when the quota is kept ----

  /** The row with this id is a reservation of `user` that no longer counts. */
  predicate Expired(rows: seq<FileRow>, id: string, user: string, now: int) {
    var r := Find(rows, id);
    r.Some? && r.value.sender == user && r.value.status.Pending? && !Live(r.value, now)
  }

  /** The two steps that break the quota of `user`, as a guard on the state before: a reservation
      is inserted that no longer fits, or an expired reservation is committed that does not fit. */
  predicate Overruns(st: State, e: Event, user: string, c: Config) {
    match e
    case Insert(i, id, objectKey) =>
      && i < |st.inflight| && st.inflight[i].sender == user && IsFresh(st.rows, id, objectKey)
      && Used(st.rows, user, st.clock) + st.inflight[i].size > c.maxPerUser
    case Put(id, _) =>
      && Expired(st.rows, id, user, st.clock)
      && Used(st.rows, user, st.clock) + Find(st.rows, id).value.size > c.maxPerUser
    case _ => false
  }

  predicate Within(st: State, user: string, c: Config) {
    Used(st.rows, user, st.clock) <= c.maxPerUser
  }

  lemma {:induction false} UsedRemove(rows: seq<FileRow>, ids: set<string>, user: string, now: int)
    requires forall r | r in rows :: r.size > 0
    ensures Used(RemoveIds(rows, ids), user, now) <= Used(rows, user, now)
  {
    if rows != [] {
      var init, last := rows[..|rows| - 1], rows[|rows| - 1];
      UsedRemove(init, ids, user, now);
      if last.id in ids {
        assert RemoveIds(rows, ids) == RemoveIds(init, ids);
      } else {
        SumsAppend(RemoveIds(init, ids), last, user, now);
      }
    }
  }

  lemma {:induction false} UsedLater(rows: seq<FileRow>, user: string, now: int, later: int)
    requires now <= later && forall r | r in rows :: r.size > 0
    ensures Used(rows, user, later) <= Used(rows, user, now)
  {
    if rows != [] {
      UsedLater(rows[..|rows| - 1], user, now, later);
    }
  }

  lemma {:induction false} UsedUnlink(rows: seq<FileRow>, messageIds: set<string>, user: string, now: int)
    ensures Used(Unlink(rows, messageIds), user, now) == Used(rows, user, now)
  {
    if rows != [] {
      UsedUnlink(rows[..|rows| - 1], messageIds, user, now);
      assert Unlink(rows, messageIds)[..|rows| - 1] == Unlink(rows[..|rows| - 1], messageIds);
    }
  }

  /** A commit adds to the used bytes exactly when the reservation had expired. */
  lemma {:induction false} UsedCommit(rows: seq<FileRow>, id: string, messageId: string, user: string, now: int)
    requires Unique(rows)
    ensures Used(SetCommitted(rows, id, messageId, now), user, now)
            == Used(rows, user, now) + if Expired(rows, id, user, now) then Find(rows, id).value.size else 0
  {
    if rows != [] {
      var init, last := rows[..|rows| - 1], rows[|rows| - 1];
      UsedCommit(init, id, messageId, user, now);
      assert SetCommitted(rows, id, messageId, now)[..|init|] == SetCommitted(init, id, messageId, now);
      if last.id == id {
        assert SetCommitted(init, id, messageId, now) == init;
      }
    }
  }

  lemma WithinInsert(st: State, i: nat, id: string, objectKey: string, user: string, c: Config)
    requires Within(st, user, c)
    ensures Within(Inserted(st, i, id, objectKey), user, c) <==> !Overruns(st, Insert(i, id, objectKey), user, c)
  {
    if i < |st.inflight| {
      var q := st.inflight[i];
      SumsAppend(st.rows, FileRow(id, q.sender, q.receiver, objectKey, q.size, Pending, None, st.clock),
                 user, st.clock);
    }
    hide Used, IsFresh;
  }

  lemma WithinPut(st: State, id: string, messageId: string, user: string, c: Config)
    requires Within(st, user, c) && Unique(st.rows)
    ensures Within(Step(st, Put(id, messageId), c), user, c) <==> !Overruns(st, Put(id, messageId), user, c)
  {
    UsedCommit(st.rows, id, messageId, user, st.clock);
    hide Used, SetCommitted, Find, Unique;
  }

  lemma WithinStep(st: State, e: Event, user: string, c: Config)
    requires WellFormed(st, c) && Within(st, user, c)
    ensures Within(Step(st, e, c), user, c) <==> !Overruns(st, e, user, c)
  {
    hide Used, Inserted;
    match e
    case Insert(i, id, objectKey) => WithinInsert(st, i, id, objectKey, user, c);
    case Put(id, messageId) => WithinPut(st, id, messageId, user, c);
    case Delete(id) => UsedRemove(st.rows, {id}, user, st.clock);
    case Reclaim => UsedRemove(st.rows, ReapableIds(st.rows, st.clock), user, st.clock);
    case Forget(messageIds) => UsedUnlink(st.rows, messageIds, user, st.clock);
    case Tick(seconds) => UsedLater(st.rows, user, st.clock, st.clock + seconds);
    case Check(_, _, _) =>
  }

  predicate WithinUpTo(clock: int, es: seq<Event>, j: nat, user: string, c: Config)
    requires j <= |es|
  {
    forall i | 0 <= i <= j :: Within(After(Start(clock), es, i, c), user, c)
  }

  predicate OverrunsBefore(clock: int, es: seq<Event>, j: nat, user: string, c: Config)
    requires j <= |es|
  {
    exists i :: 0 <= i < j && Overruns(After(Start(clock), es, i, c), es[i], user, c)
  }

  /** For every interleaving, with any number of requests in flight: the used bytes of a user
      stay within the quota all along if and only if the run makes neither of the two steps. */
  lemma {:induction false} QuotaExactly(clock: int, es: seq<Event>, j: nat, user: string, c: Config)
    requires j <= |es|
    ensures WithinUpTo(clock, es, j, user, c) <==> !OverrunsBefore(clock, es, j, user, c)
  {
    hide Step, Overruns;
    if j > 0 {
      var p := j - 1;
      var st := After(Start(clock), es, p, c);
      QuotaExactly(clock, es, p, user, c);
      RunWellFormed(clock, es, p, c);
      assert WithinUpTo(clock, es, j, user, c) <==>
             WithinUpTo(clock, es, p, user, c) && Within(After(Start(clock), es, j, c), user, c);
      assert OverrunsBefore(clock, es, j, user, c) <==>
             OverrunsBefore(clock, es, p, user, c) || Overruns(st, es[p], user, c);
      if WithinUpTo(clock, es, p, user, c) {
        WithinStep(st, es[p], user, c);
      }
    }
  }

  /** The user whose upload a step is about; None for steps about nobody in particular. */
  function Actor(st: State, e: Event): Option<string> {
    match e
    case Check(sender, _, _) => Some(sender)
    case Insert(i, _, _) => if i < |st.inflight| then Some(st.inflight[i].sender) else None
    case Put(id, _) => var r := Find(st.rows, id); if r.Some? then Some(r.value.sender) else None
    case Delete(id) => var r := Find(st.rows, id); if r.Some? then Some(r.value.sender) else None
    case _ => None
  }

  lemma {:induction false} OthersRemoved(rows: seq<FileRow>, id: string, user: string, now: int)
    requires forall r | r in rows && r.id == id :: r.sender != user
    ensures Used(RemoveIds(rows, {id}), user, now) == Used(rows, user, now)
    ensures LateBytes(RemoveIds(rows, {id}), user) == LateBytes(rows, user)
  {
    if rows != [] {
      var init, last := rows[..|rows| - 1], rows[|rows| - 1];
      OthersRemoved(init, id, user, now);
      assert rows == init + [last];
      SumsAppend(init, last, user, now);
      if last.id == id {
        assert last in rows;
        assert RemoveIds(rows, {id}) == RemoveIds(init, {id});
      } else {
        assert RemoveIds(rows, {id}) == RemoveIds(init, {id}) + [last];
        SumsAppend(RemoveIds(init, {id}), last, user, now);
      }
    }
  }

  lemma {:induction false} OthersCommitted(rows: seq<FileRow>, id: string, messageId: string, user: string, now: int)
    requires forall r | r in rows && r.id == id :: r.sender != user
    ensures Used(SetCommitted(rows, id, messageId, now), user, now) == Used(rows, user, now)
    ensures LateBytes(SetCommitted(rows, id, messageId, now), user) == LateBytes(rows, user)
  {
    if rows != [] {
      var init := rows[..|rows| - 1];
      OthersCommitted(init, id, messageId, user, now);
      assert SetCommitted(rows, id, messageId, now)[..|init|] == SetCommitted(init, id, messageId, now);
    }
  }

  lemma OnlyRow(rows: seq<FileRow>, id: string)
    requires Unique(rows) && Find(rows, id).Some?
    ensures forall r | r in rows && r.id == id :: r == Find(rows, id).value
  {
  }

  /** Nobody's uploads, commits or deletions change another user's figures. */
  lemma QuotaIsPersonal(st: State, e: Event, user: string, c: Config)
    requires WellFormed(st, c) && Actor(st, e).Some? && Actor(st, e).value != user
    ensures var st' := Step(st, e, c);
            && Used(st'.rows, user, st'.clock) == Used(st.rows, user, st.clock)
            && LateBytes(st'.rows, user) == LateBytes(st.rows, user)
            && InFlight(st'.inflight, user) == InFlight(st.inflight, user)
  {
    var st' := Step(st, e, c);
    match e
    case Check(sender, receiver, size) =>
      InFlightAppend(st.inflight, Request(sender, receiver, size), user);
    case Insert(i, id, objectKey) =>
      var req := st.inflight[i];
      InFlightRemove(st.inflight, i, user);
      SumsAppend(st.rows, FileRow(id, req.sender, req.receiver, objectKey, req.size, Pending, None, st.clock),
                 user, st.clock);
    case Put(id, messageId) =>
      OnlyRow(st.rows, id);
      OthersCommitted(st.rows, id, messageId, user, st.clock);
    case Delete(id) =>
      OnlyRow(st.rows, id);
      OthersRemoved(st.rows, id, user, st.clock);
  }

  // ---- Both extra terms are needed ----

  const TEN := Config(10, 10)

  const FIRST := FileRow("f", "u", "v", "k", 10, Pending, None, 0)

  lemma PairSums(a: FileRow, b: FileRow, user: string, now: int)
    ensures Used([a, b], user, now) == UsedBy(a, user, now) + UsedBy(b, user, now)
    ensures LateBytes([a, b], user) == LateBy(a, user) + LateBy(b, user)
  {
    SumsAppend([], a, user, now);
    SumsAppend([a], b, user, now);
    assert [] + [a] == [a] && [a] + [b] == [a, b];
  }

  const TWIN_RUN := [Check("u", "v", 10), Check("u", "v", 10), Insert(0, "f", "k"), Insert(0, "g", "l")]

  const TWIN := FileRow("g", "u", "v", "l", 10, Pending, None, 0)

  lemma TwinRunStates()
    ensures After(Start(0), TWIN_RUN, 3, TEN) == State([FIRST], [Request("u", "v", 10)], 0)
    ensures After(Start(0), TWIN_RUN, 4, TEN) == State([FIRST, TWIN], [], 0)
  {
    var req := Request("u", "v", 10);
    assert After(Start(0), TWIN_RUN, 0, TEN) == Start(0);
    assert After(Start(0), TWIN_RUN, 1, TEN) == State([], [req], 0);
    assert After(Start(0), TWIN_RUN, 2, TEN) == State([], [req, req], 0);
    assert After(Start(0), TWIN_RUN, 3, TEN) == State([FIRST], [req], 0);
  }

  /** Two requests of one user that are checked before either is inserted both pass. */
  lemma TwoInFlightOverrun()
    ensures var st := After(Start(0), TWIN_RUN, 4, TEN);
            Used(st.rows, "u", st.clock) == 20 && LateBytes(st.rows, "u") == 0
  {
    TwinRunStates();
    PairSums(FIRST, TWIN, "u", 0);
  }

  const LATE_RUN := [Check("u", "v", 10), Insert(0, "f", "k"), Tick(RESERVE_WINDOW + 1),
                     Check("u", "v", 10), Insert(0, "g", "l"), Put("f", "m")]

  const SECOND := FileRow("g", "u", "v", "l", 10, Pending, None, 3601)

  lemma LateRunStart()
    ensures After(Start(0), LATE_RUN, 0, TEN) == Start(0)
    ensures After(Start(0), LATE_RUN, 1, TEN) == State([], [Request("u", "v", 10)], 0)
    ensures After(Start(0), LATE_RUN, 2, TEN) == State([FIRST], [], 0)
    ensures After(Start(0), LATE_RUN, 3, TEN) == State([FIRST], [], 3601)
  {
    assert After(Start(0), LATE_RUN, 0, TEN) == Start(0);
    assert After(Start(0), LATE_RUN, 1, TEN) == State([], [Request("u", "v", 10)], 0);
    assert After(Start(0), LATE_RUN, 2, TEN) == State([FIRST], [], 0);
  }

  lemma LateRunEnd()
    ensures After(Start(0), LATE_RUN, 4, TEN) == State([FIRST], [Request("u", "v", 10)], 3601)
    ensures After(Start(0), LATE_RUN, 5, TEN) == State([FIRST, SECOND], [], 3601)
    ensures After(Start(0), LATE_RUN, 6, TEN) == State([CommitRow(FIRST, "m", 3601), SECOND], [], 3601)
  {
    LateRunStart();
    assert [FIRST][..0] == [];
    assert Used([FIRST], "u", 3601) == 0;
    assert After(Start(0), LATE_RUN, 4, TEN) == State([FIRST], [Request("u", "v", 10)], 3601);
    assert After(Start(0), LATE_RUN, 5, TEN) == State([FIRST, SECOND], [], 3601);
  }

  /** One request at a time, but the first reservation is committed after it expired. */
  lemma LateCommitOverrun()
    ensures var st := After(Start(0), LATE_RUN, 6, TEN);
            Used(st.rows, "u", st.clock) == 20 && AtMost(0, LATE_RUN, "u", TEN, 1)
  {
    LateRunStart();
    LateRunEnd();
    var late := CommitRow(FIRST, "m", 3601);
    PairSums(late, SECOND, "u", 3601);
    assert [Request("u", "v", 10)][..0] == [];
    assert Count([], "u") == 0 && Count([Request("u", "v", 10)], "u") == 1;
    forall j | 0 <= j <= |LATE_RUN|
      ensures Count(After(Start(0), LATE_RUN, j, TEN).inflight, "u") <= 1
    {
      assert j == 0 || j == 1 || j == 2 || j == 3 || j == 4 || j == 5 || j == 6;
    }
  }
}
