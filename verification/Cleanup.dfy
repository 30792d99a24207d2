/** The periodic jobs on the database, and what the purge of old messages means for files
    (internal/db/cleanup.go, internal/files/service.go). */
module Cleanup {
  import opened Wrappers
  import opened Files
  import opened Messages
  import ContactCodes
  import Quota

  class Jobs {
    var files: seq<FileRow>
    var messages: map<string, Message>
    var retired: map<string, int>

    constructor (files: seq<FileRow>, messages: map<string, Message>, retired: map<string, int>)
      ensures this.files == files && this.messages == messages && this.retired == retired
    {
      this.files, this.messages, this.retired := files, messages, retired;
    }

    /** UPDATE files SET message_id = NULL for the messages that are stale now. */
    method UnlinkStale(cutoff: int)
      modifies this`files
      ensures files == Unlink(old(files), StaleIds(messages, cutoff))
      ensures |files| == |old(files)|
      ensures forall i | 0 <= i < |files| ::
        var m := old(files)[i].messageId;
        files[i] == if m.Some? && m.value in messages && messages[m.value].timestamp < cutoff
                       && !messages[m.value].delivered
                    then old(files)[i].(messageId := None) else old(files)[i]
    {
      files := Unlink(files, StaleIds(messages, cutoff));
    }

    /** DELETE FROM messages WHERE timestamp < ... AND delivered = 0 */
    method DeleteStale(cutoff: int) returns (deleted: nat)
      modifies this`messages
      ensures messages == old(messages) - StaleIds(old(messages), cutoff)
      ensures forall id :: id in messages <==>
        id in old(messages) && !(old(messages)[id].timestamp < cutoff && !old(messages)[id].delivered)
      ensures forall id | id in messages :: messages[id] == old(messages)[id]
      ensures deleted == |old(messages)| - |messages|
    {
      var stale := StaleIds(messages, cutoff);
      ghost var before := messages;
      messages := messages - stale;
      deleted := |stale|;
      assert before.Keys == messages.Keys + stale;
      assert |before.Keys| == |before| && |messages.Keys| == |messages|;
    }

    /** Unlinks the files of the messages it is about to delete, then deletes those; here with
        nothing in between. */
    method CleanupStaleMessages(now: int) returns (deleted: nat)
      modifies this`files, this`messages
      ensures var stale := StaleIds(old(messages), now - STALE_AFTER);
              files == Unlink(old(files), stale) && messages == old(messages) - stale
      ensures forall id :: id in messages <==>
        id in old(messages) && !(old(messages)[id].timestamp < now - 2592000 && !old(messages)[id].delivered)
      ensures forall id | id in messages :: messages[id] == old(messages)[id]
      ensures |files| == |old(files)|
      ensures forall i | 0 <= i < |files| ::
        var m := old(files)[i].messageId;
        files[i] == if m.Some? && m.value in old(messages) && m.value !in messages
                    then old(files)[i].(messageId := None) else old(files)[i]
      ensures deleted == |old(messages)| - |messages|
    {
      UnlinkStale(now - STALE_AFTER);
      deleted := DeleteStale(now - STALE_AFTER);
    }

    method CleanupRetiredCodes(now: int) returns (deleted: nat)
      modifies this`retired
      ensures retired == ContactCodes.Kept(old(retired), now)
      ensures forall code :: code in retired <==> code in old(retired) && now - old(retired)[code] <= 86400
      ensures forall code | code in retired :: retired[code] == old(retired)[code]
      ensures deleted == |old(retired)| - |retired|
    {
      var cutoff := now - ContactCodes.RETIREMENT;
      var expired := set c | c in retired && retired[c] < cutoff;
      ghost var before := retired;
      retired := retired - expired;
      deleted := |expired|;
      assert before.Keys == retired.Keys + expired;
      assert |before.Keys| == |before| && |retired.Keys| == |retired|;
    }
  }

  // ---- Purge, then sweep, with anything in between ----

  /** Whatever row has this id, it is linked to no message and as old as it was. */
  predicate Forgotten(rows: seq<FileRow>, id: string, created: int) {
    forall r | r in rows && r.id == id :: r.messageId.None? && r.created == created
  }

  /** Neither a commit of this file nor a new file under its id. */
  predicate LeavesForgotten(e: Quota.Event, id: string) {
    match e
    case Put(other, _) => other != id
    case Insert(_, other, _) => other != id
    case _ => true
  }

  lemma StepForgotten(st: Quota.State, e: Quota.Event, c: Config, id: string, created: int)
    requires Forgotten(st.rows, id, created) && LeavesForgotten(e, id)
    ensures Forgotten(Quota.Step(st, e, c).rows, id, created)
  {
    match e
    case Delete(other) => RemoveIdsMembers(st.rows, {other});
    case Reclaim => RemoveIdsMembers(st.rows, ReapableIds(st.rows, st.clock));
    case _ =>
  }

  lemma {:induction false} RunForgotten(
    st: Quota.State, es: seq<Quota.Event>, j: nat, c: Config, id: string, created: int)
    requires j <= |es| && Forgotten(st.rows, id, created)
    requires forall i | 0 <= i < |es| :: LeavesForgotten(es[i], id)
    ensures Forgotten(Quota.After(st, es, j, c).rows, id, created)
  {
    if j > 0 {
      RunForgotten(st, es, j - 1, c, id, created);
      StepForgotten(Quota.After(st, es, j - 1, c), es[j - 1], c, id, created);
    }
  }

  lemma {:induction false} RunUnique(st: Quota.State, es: seq<Quota.Event>, j: nat, c: Config)
    requires j <= |es| && Quota.WellFormed(st, c)
    ensures Quota.WellFormed(Quota.After(st, es, j, c), c)
  {
    if j > 0 {
      RunUnique(st, es, j - 1, c);
      Quota.StepWellFormed(Quota.After(st, es, j - 1, c), es[j - 1], c);
    }
  }

  lemma UnlinkForgets(rows: seq<FileRow>, purged: set<string>, r: FileRow)
    requires Unique(rows) && r in rows && r.messageId.Some? && r.messageId.value in purged
    ensures Forgotten(Unlink(rows, purged), r.id, r.created)
  {
    var i :| 0 <= i < |rows| && rows[i] == r;
    forall q | q in Unlink(rows, purged) && q.id == r.id
      ensures q.messageId.None? && q.created == r.created
    {
      var k :| 0 <= k < |rows| && Unlink(rows, purged)[k] == q;
      assert rows[k].id == r.id;
      assert k == i;
    }
  }

  lemma SweepTakesForgotten(rows: seq<FileRow>, id: string, created: int, now: int)
    requires Unique(rows) && Forgotten(rows, id, created) && created < now - RESERVE_WINDOW
    ensures forall q | q in Sweep(rows, now) :: q.id != id
  {
    SweepMembers(rows, now);
  }

  /** A file linked to a purged message is gone after any later sweep that finds it past its
      window, whatever happens in between, unless it is committed anew. */
  lemma PurgedFileReaped(st: Quota.State, purged: set<string>, es: seq<Quota.Event>, c: Config, r: FileRow)
    requires Quota.WellFormed(st, c) && r in st.rows && r.messageId.Some? && r.messageId.value in purged
    requires forall i | 0 <= i < |es| :: LeavesForgotten(es[i], r.id)
    ensures var end := Quota.After(Quota.Step(st, Quota.Forget(purged), c), es, |es|, c);
            !Live(r, end.clock) ==> forall q | q in Sweep(end.rows, end.clock) :: q.id != r.id
  {
    var start := Quota.Step(st, Quota.Forget(purged), c);
    UnlinkForgets(st.rows, purged, r);
    Quota.StepWellFormed(st, Quota.Forget(purged), c);
    RunUnique(start, es, |es|, c);
    RunForgotten(start, es, |es|, c, r.id, r.created);
    var end := Quota.After(start, es, |es|, c);
    if !Live(r, end.clock) {
      SweepTakesForgotten(end.rows, r.id, r.created, end.clock);
    }
  }

  /** Neither deletes this file nor commits it again nor purges its message. */
  predicate Spares(e: Quota.Event, r: FileRow) {
    match e
    case Delete(id) => id != r.id
    case Put(id, _) => id != r.id
    case Forget(messageIds) => r.messageId.Some? && r.messageId.value !in messageIds
    case _ => true
  }

  lemma StepKeepsLinked(st: Quota.State, e: Quota.Event, c: Config, r: FileRow)
    requires Unique(st.rows) && r in st.rows && r.status.Committed? && r.messageId.Some? && Spares(e, r)
    ensures r in Quota.Step(st, e, c).rows
  {
    var i :| 0 <= i < |st.rows| && st.rows[i] == r;
    match e
    case Delete(id) => RemoveIdsMembers(st.rows, {id});
    case Reclaim => SweepMembers(st.rows, st.clock);
    case Put(id, messageId) => assert SetCommitted(st.rows, id, messageId, st.clock)[i] == r;
    case Forget(messageIds) => assert Unlink(st.rows, messageIds)[i] == r;
    case _ =>
  }

  /** A committed file linked to a message stays as it is through every sweep, every purge of
      other messages and everything others do. */
  lemma {:induction false} LinkedFileKept(st: Quota.State, es: seq<Quota.Event>, j: nat, c: Config, r: FileRow)
    requires j <= |es| && Quota.WellFormed(st, c)
    requires r in st.rows && r.status.Committed? && r.messageId.Some?
    requires forall i | 0 <= i < |es| :: Spares(es[i], r)
    ensures r in Quota.After(st, es, j, c).rows
  {
    if j > 0 {
      LinkedFileKept(st, es, j - 1, c, r);
      RunUnique(st, es, j - 1, c);
      StepKeepsLinked(Quota.After(st, es, j - 1, c), es[j - 1], c, r);
    }
  }

  // ---- A sweep that others interrupt ----

  /** The row with this id is linked to message `m`. */
  predicate LinkedTo(rows: seq<FileRow>, id: string, m: string) {
    exists r :: r in rows && r.id == id && r.messageId == Some(m)
  }

  /** Reservations are not linked to anything. */
  predicate PendingUnlinked(rows: seq<FileRow>) {
    forall r | r in rows && r.status.Pending? :: r.messageId.None?
  }

  lemma StepPendingUnlinked(st: Quota.State, e: Quota.Event, c: Config)
    requires PendingUnlinked(st.rows)
    ensures PendingUnlinked(Quota.Step(st, e, c).rows)
  {
    match e
    case Delete(id) => RemoveIdsMembers(st.rows, {id});
    case Reclaim => RemoveIdsMembers(st.rows, ReapableIds(st.rows, st.clock));
    case _ =>
  }

  lemma {:induction false} RunPendingUnlinked(clock: int, es: seq<Quota.Event>, j: nat, c: Config)
    requires j <= |es|
    ensures PendingUnlinked(Quota.After(Quota.Start(clock), es, j, c).rows)
  {
    if j > 0 {
      RunPendingUnlinked(clock, es, j - 1, c);
      StepPendingUnlinked(Quota.After(Quota.Start(clock), es, j - 1, c), es[j - 1], c);
    }
  }

  /** The step leaves alone a link of the file with this id to message `m`. */
  predicate KeepsLink(e: Quota.Event, id: string, m: string) {
    match e
    case Put(other, _) => other != id
    case Delete(other) => other != id
    case Forget(messageIds) => m !in messageIds
    case _ => true
  }

  predicate Links(st: Quota.State, e: Quota.Event, id: string, m: string) {
    e == Quota.Put(id, m) && Find(st.rows, id).Some?
  }

  lemma CommitMembers(rows: seq<FileRow>, id: string, messageId: string, now: int, q: FileRow)
    ensures q in SetCommitted(rows, id, messageId, now) <==>
              exists r :: r in rows && q == if r.id == id then CommitRow(r, messageId, now) else r
  {
    var rows' := SetCommitted(rows, id, messageId, now);
    if q in rows' {
      var i :| 0 <= i < |rows'| && rows'[i] == q;
      assert rows[i] in rows;
    }
    if r :| r in rows && q == if r.id == id then CommitRow(r, messageId, now) else r {
      var i :| 0 <= i < |rows| && rows[i] == r;
      assert rows'[i] == q;
    }
  }

  lemma UnlinkMembers(rows: seq<FileRow>, messageIds: set<string>, q: FileRow)
    requires q.messageId.Some?
    ensures q in Unlink(rows, messageIds) <==> q in rows && q.messageId.value !in messageIds
  {
    var rows' := Unlink(rows, messageIds);
    if q in rows' {
      var i :| 0 <= i < |rows'| && rows'[i] == q;
      assert rows[i] in rows;
    }
    if q in rows && q.messageId.value !in messageIds {
      var i :| 0 <= i < |rows| && rows[i] == q;
      assert rows'[i] == q;
    }
  }

  lemma PutLinks(st: Quota.State, id: string, put: string, m: string, c: Config)
    ensures LinkedTo(Quota.Step(st, Quota.Put(id, put), c).rows, id, m) <==> put == m && Find(st.rows, id).Some?
  {
    var rows' := SetCommitted(st.rows, id, put, st.clock);
    if q :| q in rows' && q.id == id && q.messageId == Some(m) {
      CommitMembers(st.rows, id, put, st.clock, q);
    }
    if put == m && Find(st.rows, id).Some? {
      var r := Find(st.rows, id).value;
      CommitMembers(st.rows, id, put, st.clock, CommitRow(r, put, st.clock));
    }
  }

  /** A step links the file to `m` if it is the commit that does so, and otherwise leaves it
      linked to `m` exactly if it was and the step does not touch that link. */
  lemma StepLinks(st: Quota.State, e: Quota.Event, c: Config, id: string, m: string)
    requires Unique(st.rows) && PendingUnlinked(st.rows)
    ensures LinkedTo(Quota.Step(st, e, c).rows, id, m) <==>
              Links(st, e, id, m) || (LinkedTo(st.rows, id, m) && KeepsLink(e, id, m))
  {
    var rows' := Quota.Step(st, e, c).rows;
    match e
    case Put(other, put) =>
      if other == id {
        PutLinks(st, id, put, m, c);
      } else {
        forall q: FileRow | q.id == id
          ensures q in rows' <==> q in st.rows
        {
          CommitMembers(st.rows, other, put, st.clock, q);
        }
      }
    case Delete(other) => RemoveIdsMembers(st.rows, {other});
    case Reclaim => SweepMembers(st.rows, st.clock);
    case Forget(messageIds) =>
      forall q: FileRow | q.messageId == Some(m)
        ensures q in rows' <==> q in st.rows && m !in messageIds
      {
        UnlinkMembers(st.rows, messageIds, q);
      }
    case _ =>
  }

  /** Event `p`, between `s` and `j`, links the file to `m`, and nothing touches that link since. */
  predicate LinkStands(clock: int, es: seq<Quota.Event>, c: Config, s: nat, p: int, j: nat, id: string, m: string) {
    && s <= p < j <= |es| && Links(Quota.After(Quota.Start(clock), es, p, c), es[p], id, m)
    && forall i | p < i < j :: KeepsLink(es[i], id, m)
  }

  /** Nothing between `s` and `j` touches a link of the file to `m`. */
  predicate KeptBetween(es: seq<Quota.Event>, s: nat, j: nat, id: string, m: string) {
    forall i | s <= i < j && i < |es| :: KeepsLink(es[i], id, m)
  }

  /** In every run: a file is linked to `m` if and only if it was at an earlier time and nothing
      touched that link since, or a commit with `m` found it in between and nothing touched the
      link after that. */
  lemma {:induction false} LinkExactly(
    clock: int, es: seq<Quota.Event>, c: Config, s: nat, j: nat, id: string, m: string)
    requires s <= j <= |es|
    ensures LinkedTo(Quota.After(Quota.Start(clock), es, j, c).rows, id, m) <==>
              (LinkedTo(Quota.After(Quota.Start(clock), es, s, c).rows, id, m) && KeptBetween(es, s, j, id, m))
              || exists p :: LinkStands(clock, es, c, s, p, j, id, m)
  {
    hide Quota.Step, KeepsLink, Links, LinkedTo;
    if s < j {
      var p := j - 1;
      var st := Quota.After(Quota.Start(clock), es, p, c);
      LinkExactly(clock, es, c, s, p, id, m);
      RunPendingUnlinked(clock, es, p, c);
      Quota.RunWellFormed(clock, es, p, c);
      StepLinks(st, es[p], c, id, m);
      assert KeptBetween(es, s, j, id, m) <==> KeptBetween(es, s, p, id, m) && KeepsLink(es[p], id, m);
      if Links(st, es[p], id, m) {
        assert LinkStands(clock, es, c, s, p, j, id, m);
      }
      if q :| LinkStands(clock, es, c, s, q, p, id, m) && KeepsLink(es[p], id, m) {
        assert LinkStands(clock, es, c, s, q, j, id, m);
      }
      if q :| LinkStands(clock, es, c, s, q, j, id, m) && q < p {
        assert LinkStands(clock, es, c, s, q, p, id, m);
      }
    }
  }

  /** What a sweep meets that read its rows at `s` and deletes the row of file `r` at `j`: the file
      is by then linked to `m` if and only if a commit with `m` found it there in between and
      since then it was not committed again, not deleted, and `m` was not purged. */
  lemma InterruptedSweepExactly(
    clock: int, es: seq<Quota.Event>, c: Config, s: nat, j: nat, r: FileRow, m: string)
    requires s <= j <= |es|
    requires var st := Quota.After(Quota.Start(clock), es, s, c); r in st.rows && Reapable(r, st.clock)
    ensures LinkedTo(Quota.After(Quota.Start(clock), es, j, c).rows, r.id, m) <==>
              exists p :: LinkStands(clock, es, c, s, p, j, r.id, m)
  {
    RunPendingUnlinked(clock, es, s, c);
    Quota.RunWellFormed(clock, es, s, c);
    LinkExactly(clock, es, c, s, j, r.id, m);
  }

  /** Hence undisturbed by commits of the file, a sweep never takes a linked one. */
  lemma SweepWithoutCommits(clock: int, es: seq<Quota.Event>, c: Config, s: nat, j: nat, r: FileRow, m: string)
    requires s <= j <= |es|
    requires var st := Quota.After(Quota.Start(clock), es, s, c); r in st.rows && Reapable(r, st.clock)
    requires forall i | s <= i < j :: es[i] != Quota.Put(r.id, m)
    ensures !LinkedTo(Quota.After(Quota.Start(clock), es, j, c).rows, r.id, m)
  {
    InterruptedSweepExactly(clock, es, c, s, j, r, m);
  }

  const ONE := Config(1, 1)

  const SWEEP_RUN := [Quota.Check("u", "v", 1), Quota.Insert(0, "f", "k"), Quota.Tick(RESERVE_WINDOW + 1),
                      Quota.Put("f", "m"), Quota.Delete("f")]

  /** Such a commit can come between the read of a sweep and its delete: the reservation is read
      as expired, then committed and linked to a message, and then deleted. */
  lemma InterruptedSweepTakesLinkedFile()
    ensures var read := Quota.After(Quota.Start(0), SWEEP_RUN, 3, ONE);
            var committed := Quota.After(Quota.Start(0), SWEEP_RUN, 4, ONE);
            && "f" in ReapableIds(read.rows, read.clock)
            && LinkedTo(committed.rows, "f", "m") && "f" !in ReapableIds(committed.rows, committed.clock)
            && Quota.After(Quota.Start(0), SWEEP_RUN, 5, ONE).rows == []
  {
    var r, q := FileRow("f", "u", "v", "k", 1, Status.Pending, None, 0), Quota.Request("u", "v", 1);
    var linked := CommitRow(r, "m", 3601);
    assert Quota.After(Quota.Start(0), SWEEP_RUN, 0, ONE) == Quota.Start(0);
    assert Quota.After(Quota.Start(0), SWEEP_RUN, 1, ONE) == Quota.State([], [q], 0);
    assert Quota.After(Quota.Start(0), SWEEP_RUN, 2, ONE) == Quota.State([r], [], 0);
    assert Quota.After(Quota.Start(0), SWEEP_RUN, 3, ONE) == Quota.State([r], [], 3601);
    assert Quota.After(Quota.Start(0), SWEEP_RUN, 4, ONE) == Quota.State([linked], [], 3601);
    assert Reapable(r, 3601) && r in [r] && linked in [linked];
    assert [linked][..0] == [] && RemoveIds([], {"f"}) == [];
  }

  // ---- A purge that others interrupt ----

  /** Between `p` and `q` a message with this id and an old timestamp was sent. */
  predicate OldSentBetween(ms: seq<Messages.Event>, p: nat, q: nat, m: string, cutoff: int) {
    exists d :: p <= d < q && d < |ms| && ms[d].Send? && ms[d].id == m && ms[d].timestamp < cutoff
  }

  lemma {:induction false} LateStale(ms: seq<Messages.Event>, p: nat, q: nat, m: string, cutoff: int)
    requires p <= q <= |ms|
    requires m in StaleIds(Messages.After(ms, q).messages, cutoff)
    requires m !in StaleIds(Messages.After(ms, p).messages, cutoff)
    ensures OldSentBetween(ms, p, q, m, cutoff)
  {
    if m in StaleIds(Messages.After(ms, q - 1).messages, cutoff) {
      LateStale(ms, p, q - 1, m, cutoff);
    } else {
      assert ms[q - 1].Send? && ms[q - 1].id == m && ms[q - 1].timestamp < cutoff;
    }
  }

  /** What a purge misses, in every interleaving. Its UPDATE is event `u` of the files and acts on
      the messages that are stale at `p`; its DELETE takes message `m` at `q`, and `j` is any later
      time of the files. A file is then still linked to the message that is gone if and only if it
      was linked before the UPDATE, which did not see `m` because a message with that id was
      sent afterwards with an old timestamp, or it was committed with `m` after the UPDATE. */
  lemma InterruptedPurgeExactly(
    clock: int, es: seq<Quota.Event>, c: Config, u: nat, j: nat, id: string,
    ms: seq<Messages.Event>, p: nat, q: nat, m: string, cutoff: int)
    requires u < j <= |es| && p <= q <= |ms|
    requires es[u] == Quota.Forget(StaleIds(Messages.After(ms, p).messages, cutoff))
    requires m in StaleIds(Messages.After(ms, q).messages, cutoff)
    ensures var missed := m !in StaleIds(Messages.After(ms, p).messages, cutoff);
            && (missed ==> OldSentBetween(ms, p, q, m, cutoff))
            && (LinkedTo(Quota.After(Quota.Start(clock), es, j, c).rows, id, m) <==>
                  (missed && LinkedTo(Quota.After(Quota.Start(clock), es, u, c).rows, id, m)
                   && KeptBetween(es, u + 1, j, id, m))
                  || exists d :: LinkStands(clock, es, c, u, d, j, id, m))
  {
    LinkExactly(clock, es, c, u, j, id, m);
    if m !in StaleIds(Messages.After(ms, p).messages, cutoff) {
      LateStale(ms, p, q, m, cutoff);
    }
    assert KeptBetween(es, u, j, id, m) <==> KeepsLink(es[u], id, m) && KeptBetween(es, u + 1, j, id, m);
  }

  const PURGED_FILE_RUN := [Quota.Check("u", "v", 1), Quota.Insert(0, "f", "k"), Quota.Put("f", "m"), Quota.Forget({})]

  /** A message with an old timestamp that is stored between the two statements is deleted, and its
      file stays linked to it. */
  lemma PurgeMissesFile()
    ensures var ms := [Messages.Send("u", "m", "v", "c", "n", 0)];
            && StaleIds(Messages.After(ms, 0).messages, 1) == {} && "m" in StaleIds(Messages.After(ms, 1).messages, 1)
            && LinkedTo(Quota.After(Quota.Start(0), PURGED_FILE_RUN, 4, ONE).rows, "f", "m")
  {
    var ms := [Messages.Send("u", "m", "v", "c", "n", 0)];
    assert Messages.After(ms, 0) == Messages.EMPTY;
    var r, q := FileRow("f", "u", "v", "k", 1, Status.Pending, None, 0), Quota.Request("u", "v", 1);
    var linked := CommitRow(r, "m", 0);
    assert Quota.After(Quota.Start(0), PURGED_FILE_RUN, 0, ONE) == Quota.Start(0);
    assert Quota.After(Quota.Start(0), PURGED_FILE_RUN, 1, ONE) == Quota.State([], [q], 0);
    assert Quota.After(Quota.Start(0), PURGED_FILE_RUN, 2, ONE) == Quota.State([r], [], 0);
    assert Quota.After(Quota.Start(0), PURGED_FILE_RUN, 3, ONE) == Quota.State([linked], [], 0);
    assert Quota.After(Quota.Start(0), PURGED_FILE_RUN, 4, ONE) == Quota.State([linked], [], 0);
    assert linked in [linked];
  }
}
