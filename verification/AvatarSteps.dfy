/** The avatar handlers statement by statement, so that they may interleave: what a handler has
    read it acts on later, by id alone (internal/avatars/service.go). */
module AvatarSteps {
  import opened Wrappers
  import opened Avatars

  /** A checked upload request whose row is not inserted yet. */
  datatype Upload = Upload(user: string, kind: string, size: int)

  /** The committed avatar that a commit is about to replace. */
  datatype Old = Old(id: string, objectKey: string)

  /** What a handler at work has still to do. A commit that has read its pending row checks the
      size of the object, looks up the old avatar, then runs its transaction, then discards the old
      object. A request, a deletion and a sweep delete first the object and then the row of
      what they read; a request then inserts its own row. */
  datatype Task =
    | Check(id: string, user: string, kind: string, objectKey: string, size: int)
    | FindOld(id: string, user: string, kind: string)
    | Swap(id: string, prior: Option<Old>)
    | Discard(objectKey: string)
    | Erase(id: string, objectKey: string, next: Option<Upload>)
    | Remove(id: string, next: Option<Upload>)
    | Insert(upload: Upload)

  datatype System = System(st: State, tasks: multiset<Task>)

  const START := System(EMPTY, multiset{})

  /** `Begin...` are the reads that start a handler, with the answer of a lookup where several rows
      might match; `Run...` carries out one task. `Put` is a client writing an object. */
  datatype Move =
    | BeginRequest(upload: Upload, found: Option<string>)
    | BeginCommit(id: string, user: string)
    | BeginDeleteCustom(user: string)
    | BeginCleanup(now: int)
    | Put(objectKey: string, size: int)
    | RunCheck(task: Task)
    | RunFindOld(task: Task, found: Option<string>)
    | RunInsert(task: Task, id: string, objectKey: string, now: int)
    | Run(task: Task)

  /** What a lookup of one row may answer. */
  predicate Finds(rows: map<string, Row>, user: string, kind: string, status: Status, found: Option<string>) {
    match found
    case None => Matching(rows, user, kind, status) == {}
    case Some(id) => id in rows && Is(rows[id], user, kind, status)
  }

  function With(sys: System, task: Task): System {
    sys.(tasks := sys.tasks + multiset{task})
  }

  function Done(sys: System, task: Task): System {
    sys.(tasks := sys.tasks - multiset{task})
  }

  function Erasures(rows: map<string, Row>, ids: set<string>): multiset<Task> {
    multiset(set id | id in ids && id in rows :: Erase(id, rows[id].objectKey, None))
  }

  function Requesting(sys: System, up: Upload, found: Option<string>): System {
    if !Finds(sys.st.rows, up.user, up.kind, Pending, found) then sys
    else if found.None? then With(sys, Insert(up))
    else With(sys, Erase(found.value, sys.st.rows[found.value].objectKey, Some(up)))
  }

  /** A commit goes on only if the object has the declared size. */
  function Checking(sys: System, task: Task): System {
    if task !in sys.tasks || !task.Check? then sys
    else if task.objectKey in sys.st.objects && sys.st.objects[task.objectKey] == task.size
    then With(Done(sys, task), FindOld(task.id, task.user, task.kind))
    else Done(sys, task)
  }

  function Looking(sys: System, task: Task, found: Option<string>): System {
    if task !in sys.tasks || !task.FindOld? || !Finds(sys.st.rows, task.user, task.kind, Committed, found) then sys
    else
      var prior := if found.None? then None else Some(Old(found.value, sys.st.rows[found.value].objectKey));
      With(Done(sys, task), Swap(task.id, prior))
  }

  function Inserting(sys: System, task: Task, id: string, objectKey: string, now: int): System {
    if task !in sys.tasks || !task.Insert? then sys
    else
      var up := task.upload;
      var rows := sys.st.rows;
      var rows' := if Fresh(rows, id, objectKey)
                   then rows[id := Row(up.user, up.kind, objectKey, up.size, Pending, now)] else rows;
      Done(sys, task).(st := sys.st.(rows := rows'))
  }

  /** DELETE the old row, then UPDATE by id, in one transaction. */
  function Swapped'(rows: map<string, Row>, id: string, prior: Option<Old>): map<string, Row> {
    var rest := if prior.Some? then rows - {prior.value.id} else rows;
    if id in rest then rest[id := rest[id].(status := Committed)] else rest
  }

  /** What a task does to the table and the objects. */
  function Effect(st: State, task: Task): State {
    match task
    case Swap(id, prior) => st.(rows := Swapped'(st.rows, id, prior))
    case Discard(objectKey) => st.(objects := st.objects - {objectKey})
    case Erase(_, objectKey, _) => st.(objects := st.objects - {objectKey})
    case Remove(id, _) => st.(rows := st.rows - {id})
    case _ => st
  }

  /** What its handler does next. */
  function Following(task: Task): multiset<Task> {
    match task
    case Swap(_, prior) => if prior.Some? then multiset{Discard(prior.value.objectKey)} else multiset{}
    case Erase(id, _, next) => multiset{Remove(id, next)}
    case Remove(_, next) => if next.Some? then multiset{Insert(next.value)} else multiset{}
    case _ => multiset{}
  }

  function Running(sys: System, task: Task): System {
    if task !in sys.tasks || task.Check? || task.FindOld? || task.Insert? then sys
    else System(Effect(sys.st, task), Done(sys, task).tasks + Following(task))
  }

  /** What a commit has read of its pending row. */
  function CheckOf(rows: map<string, Row>, id: string): Task
    requires id in rows
  {
    Check(id, rows[id].user, rows[id].kind, rows[id].objectKey, rows[id].size)
  }

  function Next(sys: System, m: Move, maxBytes: int): System {
    match m
    case BeginRequest(up, found) =>
      if ValidKind(up.kind) && 0 < up.size <= maxBytes then Requesting(sys, up, found) else sys
    case BeginCommit(id, user) =>
      var rows := sys.st.rows;
      if id in rows && rows[id].user == user && rows[id].status == Pending then With(sys, CheckOf(rows, id)) else sys
    case BeginDeleteCustom(user) =>
      sys.(tasks := sys.tasks + Erasures(sys.st.rows, CustomIds(sys.st.rows, user)))
    case BeginCleanup(now) => sys.(tasks := sys.tasks + Erasures(sys.st.rows, StaleIds(sys.st.rows, now)))
    case Put(objectKey, size) => sys.(st := sys.st.(objects := sys.st.objects[objectKey := size]))
    case RunCheck(task) => Checking(sys, task)
    case RunFindOld(task, found) => Looking(sys, task, found)
    case RunInsert(task, id, objectKey, now) => Inserting(sys, task, id, objectKey, now)
    case Run(task) => Running(sys, task)
  }

  /** The system after the first `j` moves. */
  function Reach(start: System, ms: seq<Move>, j: nat, maxBytes: int): System
    requires j <= |ms|
  {
    if j == 0 then start else Next(Reach(start, ms, j - 1, maxBytes), ms[j - 1], maxBytes)
  }

  // ---- What the reads take ----

  lemma ErasuresExactly(rows: map<string, Row>, ids: set<string>, task: Task)
    ensures Erasures(rows, ids)[task] ==
      if task.Erase? && task.next == None && task.id in ids && task.id in rows
         && task.objectKey == rows[task.id].objectKey
      then 1 else 0
  {
    var erasures := set id | id in ids && id in rows :: Erase(id, rows[id].objectKey, None);
    assert multiset(erasures)[task] == if task in erasures then 1 else 0;
  }

  /** A deletion takes on the custom avatars of its user, each once, and nothing else. */
  lemma DeletionReads(sys: System, user: string, maxBytes: int, task: Task)
    ensures var rows, sys' := sys.st.rows, Next(sys, BeginDeleteCustom(user), maxBytes);
      && sys'.st == sys.st
      && sys'.tasks[task] == sys.tasks[task] +
           if task.Erase? && task.next == None && task.id in rows && task.objectKey == rows[task.id].objectKey
              && rows[task.id].user == user && rows[task.id].kind == "custom"
           then 1 else 0
  {
    ErasuresExactly(sys.st.rows, CustomIds(sys.st.rows, user), task);
  }

  /** A sweep takes on the reservations that are more than 3600 seconds old, each once, and nothing
      else. */
  lemma CleanupReads(sys: System, now: int, maxBytes: int, task: Task)
    ensures var rows, sys' := sys.st.rows, Next(sys, BeginCleanup(now), maxBytes);
      && sys'.st == sys.st
      && sys'.tasks[task] == sys.tasks[task] +
           if task.Erase? && task.next == None && task.id in rows && task.objectKey == rows[task.id].objectKey
              && rows[task.id].status == Pending && now - rows[task.id].created > 3600
           then 1 else 0
  {
    ErasuresExactly(sys.st.rows, StaleIds(sys.st.rows, now), task);
  }

  /** An upload request of a good kind and size takes on the pending avatar that its lookup finds,
      with its own insert to follow, or goes straight to that insert. */
  lemma RequestReads(sys: System, up: Upload, id: string, maxBytes: int)
    requires id in sys.st.rows
    ensures var r := sys.st.rows[id];
      Next(sys, BeginRequest(up, Some(id)), maxBytes) == sys.(tasks := sys.tasks +
        if (up.kind == "default" || up.kind == "custom") && 0 < up.size <= maxBytes
           && r.user == up.user && r.kind == up.kind && r.status == Pending
        then multiset{Erase(id, r.objectKey, Some(up))} else multiset{})
    ensures Next(sys, BeginRequest(up, None), maxBytes) == sys.(tasks := sys.tasks +
        if (up.kind == "default" || up.kind == "custom") && 0 < up.size <= maxBytes
           && forall other | other in sys.st.rows ::
                sys.st.rows[other].user != up.user || sys.st.rows[other].kind != up.kind
                || sys.st.rows[other].status != Pending
        then multiset{Insert(up)} else multiset{})
  {
    var pending := Matching(sys.st.rows, up.user, up.kind, Pending);
    if pending == {} {
      forall other | other in sys.st.rows
        ensures !Is(sys.st.rows[other], up.user, up.kind, Pending)
      {
        assert other !in pending;
      }
    }
    assert sys.tasks + multiset{} == sys.tasks;
  }

  /** A commit takes on the caller's own pending avatar and nothing else. */
  lemma CommitReads(sys: System, id: string, user: string, maxBytes: int)
    ensures Next(sys, BeginCommit(id, user), maxBytes) == sys.(tasks := sys.tasks +
      if id in sys.st.rows && sys.st.rows[id].user == user && sys.st.rows[id].status == Pending
      then multiset{Check(id, user, sys.st.rows[id].kind, sys.st.rows[id].objectKey, sys.st.rows[id].size)}
      else multiset{})
  {
    assert sys.tasks + multiset{} == sys.tasks;
  }

  /** It goes on if and only if the object has the declared size. */
  lemma CheckDecides(sys: System, task: Task, maxBytes: int)
    requires task.Check? && task in sys.tasks
    ensures Next(sys, RunCheck(task), maxBytes) == sys.(tasks := sys.tasks - multiset{task} +
      if task.objectKey in sys.st.objects && sys.st.objects[task.objectKey] == task.size
      then multiset{FindOld(task.id, task.user, task.kind)} else multiset{})
  {
  }

  /** What the transaction, the deletions and the insert do to the table and the objects. */
  lemma RunDoes(sys: System, task: Task, maxBytes: int)
    requires task in sys.tasks
    ensures var st, st' := sys.st, Next(sys, Run(task), maxBytes).st;
      match task
      case Swap(id, prior) =>
        && st'.objects == st.objects
        && (forall other :: other in st'.rows <==> other in st.rows && !(prior.Some? && prior.value.id == other))
        && forall other | other in st'.rows ::
             st'.rows[other] == if other == id then st.rows[other].(status := Committed) else st.rows[other]
      case Discard(objectKey) => st'.rows == st.rows && st'.objects == st.objects - {objectKey}
      case Erase(_, objectKey, _) => st'.rows == st.rows && st'.objects == st.objects - {objectKey}
      case Remove(id, _) => st'.rows == st.rows - {id} && st'.objects == st.objects
      case _ => st' == st
  {
    hide CanCommit, Erasures, Finds, ValidKind, CustomIds, StaleIds, Fresh;
  }

  // ---- Handlers that are not disturbed ----

  lemma DoneWith(sys: System, task: Task)
    ensures task in With(sys, task).tasks && Done(With(sys, task), task) == sys
  {
    assert sys.tasks + multiset{task} - multiset{task} == sys.tasks;
  }

  lemma RunsTo(sys: System, task: Task)
    requires !task.Check? && !task.FindOld? && !task.Insert?
    ensures Running(With(sys, task), task) == System(Effect(sys.st, task), sys.tasks + Following(task))
  {
    DoneWith(sys, task);
  }

  /** Object first, then row. */
  lemma DropRow(sys: System, id: string, next: Option<Upload>)
    requires id in sys.st.rows
    ensures var key := sys.st.rows[id].objectKey;
            var erase, remove := Erase(id, key, next), Remove(id, next);
            var dropped := sys.(st := Dropped(sys.st, {id}));
            Running(Running(With(sys, erase), erase), remove)
            == if next.Some? then With(dropped, Insert(next.value)) else dropped
  {
    var key := sys.st.rows[id].objectKey;
    var erase, remove := Erase(id, key, next), Remove(id, next);
    var erased := System(Effect(sys.st, erase), sys.tasks);
    assert Keys(sys.st.rows, {id}) == {key};
    RunsTo(sys, erase);
    RunsTo(erased, remove);
    assert Effect(erased.st, remove) == Dropped(sys.st, {id});
    hide Running, Effect, Dropped;
    assert sys.tasks + multiset{} == sys.tasks;
  }

  lemma InsertRow(sys: System, up: Upload, id: string, objectKey: string, now: int)
    ensures var rows := sys.st.rows;
            Inserting(With(sys, Insert(up)), Insert(up), id, objectKey, now)
            == sys.(st := sys.st.(rows := if Fresh(rows, id, objectKey)
                 then rows[id := Row(up.user, up.kind, objectKey, up.size, Pending, now)] else rows))
  {
    DoneWith(sys, Insert(up));
  }

  function RequestMoves(
    rows: map<string, Row>, up: Upload, found: Option<string>, id: string, objectKey: string, now: int): seq<Move>
    requires Finds(rows, up.user, up.kind, Pending, found)
  {
    match found
    case None => [BeginRequest(up, found), RunInsert(Insert(up), id, objectKey, now)]
    case Some(prior) =>
      [BeginRequest(up, found), Run(Erase(prior, rows[prior].objectKey, Some(up))), Run(Remove(prior, Some(up))),
       RunInsert(Insert(up), id, objectKey, now)]
  }

  lemma OnlyMatch(st: State, user: string, kind: string, status: Status, id: string)
    requires Invariant(st) && id in Matching(st.rows, user, kind, status)
    ensures Matching(st.rows, user, kind, status) == {id}
  {
  }

  lemma Reach2(sys: System, a: Move, b: Move, maxBytes: int)
    ensures Reach(sys, [a, b], 2, maxBytes) == Next(Next(sys, a, maxBytes), b, maxBytes)
  {
    hide Next;
    assert Reach(sys, [a, b], 1, maxBytes) == Next(Reach(sys, [a, b], 0, maxBytes), a, maxBytes);
  }

  lemma Reach4(sys: System, ms: seq<Move>, maxBytes: int)
    requires |ms| == 4
    ensures Reach(sys, ms, 4, maxBytes)
            == Next(Next(Next(Next(sys, ms[0], maxBytes), ms[1], maxBytes), ms[2], maxBytes), ms[3], maxBytes)
  {
    hide Next;
    assert Reach(sys, ms, 1, maxBytes) == Next(Reach(sys, ms, 0, maxBytes), ms[0], maxBytes);
    assert Reach(sys, ms, 2, maxBytes) == Next(Reach(sys, ms, 1, maxBytes), ms[1], maxBytes);
    assert Reach(sys, ms, 3, maxBytes) == Next(Reach(sys, ms, 2, maxBytes), ms[2], maxBytes);
  }

  lemma RequestFirst(sys: System, up: Upload, id: string, objectKey: string, now: int, maxBytes: int)
    requires ValidKind(up.kind) && 0 < up.size <= maxBytes
    requires Matching(sys.st.rows, up.user, up.kind, Pending) == {}
    ensures Next(Next(sys, BeginRequest(up, None), maxBytes), RunInsert(Insert(up), id, objectKey, now), maxBytes)
            == sys.(st := Requested(sys.st, up.user, up.kind, up.size, id, objectKey, now))
  {
    DropNone(sys.st);
    InsertRow(sys, up, id, objectKey, now);
    hide Inserting, Matching, Dropped, Fresh;
  }

  lemma NextIs(sys: System, task: Task, maxBytes: int)
    ensures Next(sys, Run(task), maxBytes) == Running(sys, task)
  {
  }

  lemma NextInserts(
    sys: System, task: Task, id: string, objectKey: string, now: int, maxBytes: int)
    ensures Next(sys, RunInsert(task, id, objectKey, now), maxBytes) == Inserting(sys, task, id, objectKey, now)
  {
  }

  lemma NextBegins(sys: System, up: Upload, prior: string, maxBytes: int)
    requires ValidKind(up.kind) && 0 < up.size <= maxBytes
    requires Finds(sys.st.rows, up.user, up.kind, Pending, Some(prior))
    ensures Next(sys, BeginRequest(up, Some(prior)), maxBytes)
            == With(sys, Erase(prior, sys.st.rows[prior].objectKey, Some(up)))
  {
  }

  lemma RequestAgain(sys: System, up: Upload, prior: string, id: string, objectKey: string, now: int, maxBytes: int)
    requires Invariant(sys.st) && ValidKind(up.kind) && 0 < up.size <= maxBytes
    requires Finds(sys.st.rows, up.user, up.kind, Pending, Some(prior))
    ensures var ms := RequestMoves(sys.st.rows, up, Some(prior), id, objectKey, now);
            Next(Next(Next(Next(sys, ms[0], maxBytes), ms[1], maxBytes), ms[2], maxBytes), ms[3], maxBytes)
            == sys.(st := Requested(sys.st, up.user, up.kind, up.size, id, objectKey, now))
  {
    var erase, remove := Erase(prior, sys.st.rows[prior].objectKey, Some(up)), Remove(prior, Some(up));
    var dropped := sys.(st := Dropped(sys.st, {prior}));
    hide Next, Inserting, Running, Effect, Following, With;
    NextBegins(sys, up, prior, maxBytes);
    NextIs(With(sys, erase), erase, maxBytes);
    NextIs(Running(With(sys, erase), erase), remove, maxBytes);
    DropRow(sys, prior, Some(up));
    NextInserts(With(dropped, Insert(up)), Insert(up), id, objectKey, now, maxBytes);
    InsertRow(dropped, up, id, objectKey, now);
    OnlyMatch(sys.st, up.user, up.kind, Pending, prior);
    hide Matching, Dropped, Fresh, Invariant;
  }

  /** An upload request that nobody disturbs is the request as a single step. */
  lemma RequestUndisturbed(
    sys: System, up: Upload, found: Option<string>, id: string, objectKey: string, now: int, maxBytes: int)
    requires Invariant(sys.st) && ValidKind(up.kind) && 0 < up.size <= maxBytes
    requires Finds(sys.st.rows, up.user, up.kind, Pending, found)
    ensures var ms := RequestMoves(sys.st.rows, up, found, id, objectKey, now);
            Reach(sys, ms, |ms|, maxBytes)
            == sys.(st := Step(sys.st, Request(up.user, up.kind, up.size, id, objectKey, now), maxBytes))
  {
    var ms := RequestMoves(sys.st.rows, up, found, id, objectKey, now);
    hide Next, Requested;
    if found.None? {
      RequestFirst(sys, up, id, objectKey, now, maxBytes);
      Reach2(sys, ms[0], ms[1], maxBytes);
    } else {
      RequestAgain(sys, up, found.value, id, objectKey, now, maxBytes);
      Reach4(sys, ms, maxBytes);
    }
  }

  function CommitMoves(rows: map<string, Row>, id: string, user: string, found: Option<string>): seq<Move>
    requires id in rows && Finds(rows, user, rows[id].kind, Committed, found)
  {
    var kind := rows[id].kind;
    match found
    case None =>
      [BeginCommit(id, user), RunCheck(CheckOf(rows, id)), RunFindOld(FindOld(id, user, kind), found),
       Run(Swap(id, None))]
    case Some(prior) =>
      var key := rows[prior].objectKey;
      [BeginCommit(id, user), RunCheck(CheckOf(rows, id)), RunFindOld(FindOld(id, user, kind), found),
       Run(Swap(id, Some(Old(prior, key)))), Run(Discard(key))]
  }

  lemma Reach5(sys: System, ms: seq<Move>, maxBytes: int)
    requires |ms| == 5
    ensures Reach(sys, ms, 5, maxBytes)
            == Next(Next(Next(Next(Next(sys, ms[0], maxBytes), ms[1], maxBytes), ms[2], maxBytes), ms[3], maxBytes),
                    ms[4], maxBytes)
  {
    hide Next;
    assert Reach(sys, ms, 1, maxBytes) == Next(Reach(sys, ms, 0, maxBytes), ms[0], maxBytes);
    assert Reach(sys, ms, 2, maxBytes) == Next(Reach(sys, ms, 1, maxBytes), ms[1], maxBytes);
    assert Reach(sys, ms, 3, maxBytes) == Next(Reach(sys, ms, 2, maxBytes), ms[2], maxBytes);
    assert Reach(sys, ms, 4, maxBytes) == Next(Reach(sys, ms, 3, maxBytes), ms[3], maxBytes);
  }

  /** A commit that finds its row and an object of the declared size goes on to the old avatar. */
  lemma ChecksPass(sys: System, id: string, user: string, maxBytes: int)
    requires CanCommit(sys.st, id, user)
    ensures Next(Next(sys, BeginCommit(id, user), maxBytes), RunCheck(CheckOf(sys.st.rows, id)), maxBytes)
            == With(sys, FindOld(id, user, sys.st.rows[id].kind))
  {
    var check := CheckOf(sys.st.rows, id);
    assert Next(sys, BeginCommit(id, user), maxBytes) == With(sys, check);
    DoneWith(sys, check);
  }

  /** The lookup of the old avatar turns a commit into its transaction. */
  lemma LookupOld(sys: System, task: Task, found: Option<string>, maxBytes: int)
    requires task.FindOld? && Finds(sys.st.rows, task.user, task.kind, Committed, found)
    ensures var rows := sys.st.rows;
            Next(With(sys, task), RunFindOld(task, found), maxBytes)
            == With(sys, Swap(task.id, if found.None? then None
                                       else Some(Old(found.value, rows[found.value].objectKey))))
  {
    DoneWith(sys, task);
  }

  lemma SwapAlone(sys: System, id: string, user: string)
    requires CanCommit(sys.st, id, user) && Matching(sys.st.rows, user, sys.st.rows[id].kind, Committed) == {}
    ensures Running(With(sys, Swap(id, None)), Swap(id, None)) == sys.(st := Swapped(sys.st, id))
  {
    DoneWith(sys, Swap(id, None));
    SwapNone(sys.st, id, user);
  }

  lemma SwapOut(sys: System, id: string, user: string, prior: string)
    requires Invariant(sys.st) && CanCommit(sys.st, id, user)
    requires prior in sys.st.rows && Is(sys.st.rows[prior], user, sys.st.rows[id].kind, Committed)
    ensures var key := sys.st.rows[prior].objectKey;
            var swap := Swap(id, Some(Old(prior, key)));
            Running(Running(With(sys, swap), swap), Discard(key)) == sys.(st := Swapped(sys.st, id))
  {
    var key := sys.st.rows[prior].objectKey;
    var swap := Swap(id, Some(Old(prior, key)));
    DoneWith(sys, swap);
    SwapOne(sys.st, id, user, prior);
    DoneWith(sys.(st := sys.st.(rows := Swapped'(sys.st.rows, id, Some(Old(prior, key))))), Discard(key));
  }

  /** A commit that nobody disturbs is the commit as a single step. */
  lemma CommitUndisturbed(sys: System, id: string, user: string, found: Option<string>, maxBytes: int)
    requires Invariant(sys.st) && CanCommit(sys.st, id, user)
    requires Finds(sys.st.rows, user, sys.st.rows[id].kind, Committed, found)
    ensures var ms := CommitMoves(sys.st.rows, id, user, found);
            Reach(sys, ms, |ms|, maxBytes) == sys.(st := Step(sys.st, Commit(id, user), maxBytes))
  {
    var ms := CommitMoves(sys.st.rows, id, user, found);
    var find := FindOld(id, user, sys.st.rows[id].kind);
    ChecksPass(sys, id, user, maxBytes);
    LookupOld(sys, find, found, maxBytes);
    if found.None? {
      Reach4(sys, ms, maxBytes);
      SwapAlone(sys, id, user);
      NextIs(With(sys, Swap(id, None)), Swap(id, None), maxBytes);
      hide Next, Running, Swapped, Invariant, With;
    } else {
      var key := sys.st.rows[found.value].objectKey;
      var swap := Swap(id, Some(Old(found.value, key)));
      Reach5(sys, ms, maxBytes);
      SwapOut(sys, id, user, found.value);
      NextIs(With(sys, swap), swap, maxBytes);
      NextIs(Running(With(sys, swap), swap), Discard(key), maxBytes);
      hide Next, Running, Swapped, Invariant, With;
    }
  }

  /** Takes away, one after the other and each object before its row, the rows named in `order`. */
  function DropMoves(rows: map<string, Row>, order: seq<string>): seq<Move>
    requires forall id | id in order :: id in rows
  {
    if order == [] then []
    else
      var init, id := order[..|order| - 1], order[|order| - 1];
      DropMoves(rows, init) + [Run(Erase(id, rows[id].objectKey, None)), Run(Remove(id, None))]
  }

  lemma {:induction false} ReachAppend(sys: System, ms: seq<Move>, a: Move, b: Move, j: nat, maxBytes: int)
    requires j <= |ms|
    ensures Reach(sys, ms + [a, b], j, maxBytes) == Reach(sys, ms, j, maxBytes)
    ensures j == |ms| ==>
      Reach(sys, ms + [a, b], j + 2, maxBytes) == Next(Next(Reach(sys, ms, j, maxBytes), a, maxBytes), b, maxBytes)
  {
    hide Next;
    if j > 0 {
      ReachAppend(sys, ms, a, b, j - 1, maxBytes);
    }
    if j == |ms| {
      assert Reach(sys, ms + [a, b], j + 1, maxBytes) == Next(Reach(sys, ms + [a, b], j, maxBytes), a, maxBytes);
    }
  }

  function Elements(order: seq<string>): set<string> {
    set id | id in order
  }

  predicate Distinct(order: seq<string>) {
    forall i, j | 0 <= i < j < |order| :: order[i] != order[j]
  }

  lemma ErasuresGrow(rows: map<string, Row>, ids: set<string>, id: string)
    requires id in rows && id !in ids
    ensures Erasures(rows, ids + {id}) == Erasures(rows, ids) + multiset{Erase(id, rows[id].objectKey, None)}
  {
    var a, b := set i | i in ids && i in rows :: Erase(i, rows[i].objectKey, None),
                set i | i in ids + {id} && i in rows :: Erase(i, rows[i].objectKey, None);
    assert b == a + {Erase(id, rows[id].objectKey, None)};
  }

  lemma DropTwice(st: State, ids: set<string>, id: string)
    requires Invariant(st) && id in st.rows && id !in ids
    ensures Dropped(Dropped(st, ids), {id}) == Dropped(st, ids + {id})
    ensures id in Dropped(st, ids).rows && Dropped(st, ids).rows[id] == st.rows[id]
  {
    DropOneMore(st, ids, id);
    assert Keys(Dropped(st, ids).rows, {id}) == {st.rows[id].objectKey};
  }

  /** A deletion or a sweep that nobody disturbs drops the rows it read, in whatever order. */
  lemma {:induction false} DropUndisturbed(sys: System, order: seq<string>, maxBytes: int)
    requires Invariant(sys.st) && Distinct(order) && forall id | id in order :: id in sys.st.rows
    ensures var ms := DropMoves(sys.st.rows, order);
            Reach(sys.(tasks := sys.tasks + Erasures(sys.st.rows, Elements(order))), ms, |ms|, maxBytes)
            == sys.(st := Dropped(sys.st, Elements(order)))
    decreases |order|
  {
    if order == [] {
      DropNone(sys.st);
      assert Erasures(sys.st.rows, {}) == multiset{};
      assert Elements(order) == {};
    } else {
      var init, id := order[..|order| - 1], order[|order| - 1];
      var rows := sys.st.rows;
      var erase, remove := Erase(id, rows[id].objectKey, None), Remove(id, None);
      assert order == init + [id];
      assert id !in init;
      assert Elements(order) == Elements(init) + {id};
      ErasuresGrow(rows, Elements(init), id);
      var more := With(sys, erase);
      DropUndisturbed(more, init, maxBytes);
      assert more.tasks + Erasures(rows, Elements(init)) == sys.tasks + Erasures(rows, Elements(order));
      var begun := sys.(tasks := sys.tasks + Erasures(rows, Elements(order)));
      var ms := DropMoves(rows, init);
      var between := sys.(st := Dropped(sys.st, Elements(init)));
      assert Reach(begun, ms, |ms|, maxBytes) == With(between, erase);
      ReachAppend(begun, ms, Run(erase), Run(remove), |ms|, maxBytes);
      DropRow(between, id, None);
      NextIs(With(between, erase), erase, maxBytes);
      NextIs(Running(With(between, erase), erase), remove, maxBytes);
      DropTwice(sys.st, Elements(init), id);
      hide Next, Running, Dropped, With;
    }
  }

  // ---- Exactly when interleaved handlers keep what undisturbed ones keep ----

  ghost predicate Throughout(start: System, ms: seq<Move>, j: nat, maxBytes: int, good: State -> bool)
    requires j <= |ms|
  {
    forall i | 0 <= i <= j :: good(Reach(start, ms, i, maxBytes).st)
  }

  ghost predicate Ever(start: System, ms: seq<Move>, j: nat, maxBytes: int, bad: (System, Move) -> bool)
    requires j <= |ms|
  {
    exists i :: 0 <= i < j && bad(Reach(start, ms, i, maxBytes), ms[i])
  }

  /** What holds at the start holds all along if and only if no bad move is made, for anything
      that each move from a good state keeps exactly if it is not bad. */
  lemma {:induction false} AllAlong(
    start: System, ms: seq<Move>, j: nat, maxBytes: int, good: State -> bool, bad: (System, Move) -> bool)
    requires j <= |ms| && good(start.st)
    requires forall sys: System, m | good(sys.st) :: good(Next(sys, m, maxBytes).st) <==> !bad(sys, m)
    ensures Throughout(start, ms, j, maxBytes, good) <==> !Ever(start, ms, j, maxBytes, bad)
  {
    hide Next;
    if j > 0 {
      var p := j - 1;
      AllAlong(start, ms, p, maxBytes, good, bad);
      var sys := Reach(start, ms, p, maxBytes);
      assert Reach(start, ms, j, maxBytes) == Next(sys, ms[p], maxBytes);
      assert Throughout(start, ms, j, maxBytes, good) <==>
             Throughout(start, ms, p, maxBytes, good) && good(Next(sys, ms[p], maxBytes).st);
      assert Ever(start, ms, j, maxBytes, bad) <==> Ever(start, ms, p, maxBytes, bad) || bad(sys, ms[p]);
    }
  }

  predicate Inserts(sys: System, m: Move) {
    m.RunInsert? && m.task in sys.tasks && m.task.Insert? && Fresh(sys.st.rows, m.id, m.objectKey)
  }

  predicate Swaps(sys: System, m: Move) {
    m.Run? && m.task in sys.tasks && m.task.Swap?
  }

  predicate Removes(sys: System, m: Move) {
    m.Run? && m.task in sys.tasks && m.task.Remove?
  }

  lemma RunRows(sys: System, task: Task)
    ensures var rows, rows' := sys.st.rows, Running(sys, task).st.rows;
            if task !in sys.tasks then rows' == rows
            else if task.Swap? then rows' == Swapped'(rows, task.id, task.prior)
            else if task.Remove? then rows' == rows - {task.id}
            else rows' == rows
  {
  }

  /** The moves that only read. */
  lemma ReadsOnly(sys: System, m: Move, maxBytes: int)
    requires !m.Run? && !m.RunInsert? && !m.Put?
    ensures Next(sys, m, maxBytes).st == sys.st
  {
    hide Inserting, Running, Erasures, Finds, ValidKind, CustomIds, StaleIds;
    match m
    case BeginRequest(up, found) => assert Requesting(sys, up, found).st == sys.st;
    case RunCheck(task) => assert Checking(sys, task).st == sys.st;
    case RunFindOld(task, found) => assert Looking(sys, task, found).st == sys.st;
    case _ =>
  }

  /** The three moves that touch the table. */
  lemma RowsAfter(sys: System, m: Move, maxBytes: int)
    ensures var rows, rows' := sys.st.rows, Next(sys, m, maxBytes).st.rows;
            if Inserts(sys, m) then
              var up := m.task.upload;
              rows' == rows[m.id := Row(up.user, up.kind, m.objectKey, up.size, Pending, m.now)]
            else if Swaps(sys, m) then rows' == Swapped'(rows, m.task.id, m.task.prior)
            else if Removes(sys, m) then rows' == rows - {m.task.id}
            else rows' == rows
  {
    if m.Run? {
      RunRows(sys, m.task);
      NextIs(sys, m.task, maxBytes);
      hide Next, Running, Swapped';
    } else if m.RunInsert? {
      assert Next(sys, m, maxBytes) == Inserting(sys, m.task, m.id, m.objectKey, m.now);
      hide Next, Swapped', Fresh;
    } else {
      assert Next(sys, m, maxBytes).st.rows == sys.st.rows by {
        if !m.Put? {
          ReadsOnly(sys, m, maxBytes);
        }
      }
      hide Next, Swapped', Fresh;
    }
  }

  lemma RunObjects(sys: System, task: Task)
    ensures var objects, objects' := sys.st.objects, Running(sys, task).st.objects;
            if task in sys.tasks && (task.Discard? || task.Erase?)
            then objects' == objects - {task.objectKey}
            else objects' == objects
  {
  }

  lemma BeginObjects(sys: System, m: Move, maxBytes: int)
    requires !m.Run?
    ensures Next(sys, m, maxBytes).st.objects
            == if m.Put? then sys.st.objects[m.objectKey := m.size] else sys.st.objects
  {
    if m.RunInsert? {
      assert Inserting(sys, m.task, m.id, m.objectKey, m.now).st.objects == sys.st.objects;
    } else if !m.Put? {
      ReadsOnly(sys, m, maxBytes);
    }
    hide Inserting, Requesting, Looking, Checking, CanCommit, Erasures, CustomIds, StaleIds;
  }

  /** The moves that touch the objects. */
  lemma ObjectsAfter(sys: System, m: Move, maxBytes: int)
    ensures var objects, objects' := sys.st.objects, Next(sys, m, maxBytes).st.objects;
            if m.Run? && m.task in sys.tasks && (m.task.Discard? || m.task.Erase?)
            then objects' == objects - {m.task.objectKey}
            else objects' == if m.Put? then objects[m.objectKey := m.size] else objects
  {
    if m.Run? {
      RunObjects(sys, m.task);
      NextIs(sys, m.task, maxBytes);
      hide Next, Running;
    } else {
      BeginObjects(sys, m, maxBytes);
      hide Next;
    }
  }

  /** A user has at most one avatar of this kind and status. */
  predicate Single(st: State, user: string, kind: string, status: Status) {
    var ids := Matching(st.rows, user, kind, status);
    forall a, b | a in ids && b in ids :: a == b
  }

  /** The row the transaction deletes. */
  function Replaced(swap: Task): set<string>
    requires swap.Swap?
  {
    if swap.prior.Some? then {swap.prior.value.id} else {}
  }

  /** The transaction turns a pending row of this user and kind into a committed one. */
  predicate Promotes(rows: map<string, Row>, swap: Task, user: string, kind: string)
    requires swap.Swap?
  {
    swap.id in rows && swap.id !in Replaced(swap) && Is(rows[swap.id], user, kind, Pending)
  }

  /** The move that makes two of them, as a guard on the state before. Two pending ones: a request
      inserts its row while another pending row is there, which was not when it looked. Two
      committed ones: a transaction promotes its pending row while a committed one is there that
      is not the one it deletes. */
  predicate Crowds(sys: System, m: Move, user: string, kind: string, status: Status) {
    match status
    case Pending =>
      && Inserts(sys, m) && m.task.upload.user == user && m.task.upload.kind == kind
      && Matching(sys.st.rows, user, kind, Pending) != {}
    case Committed =>
      && Swaps(sys, m) && Promotes(sys.st.rows, m.task, user, kind)
      && Matching(sys.st.rows, user, kind, Committed) - Replaced(m.task) != {}
  }

  lemma SwappedCommitted(rows: map<string, Row>, swap: Task, user: string, kind: string)
    requires swap.Swap?
    ensures Matching(Swapped'(rows, swap.id, swap.prior), user, kind, Committed)
            == Matching(rows, user, kind, Committed) - Replaced(swap)
               + if Promotes(rows, swap, user, kind) then {swap.id} else {}
    ensures Matching(Swapped'(rows, swap.id, swap.prior), user, kind, Pending)
            <= Matching(rows, user, kind, Pending)
  {
  }

  lemma SinglePending(sys: System, m: Move, user: string, kind: string, maxBytes: int)
    requires Single(sys.st, user, kind, Pending)
    ensures Single(Next(sys, m, maxBytes).st, user, kind, Pending) <==> !Crowds(sys, m, user, kind, Pending)
  {
    RowsAfter(sys, m, maxBytes);
    hide Next;
    var before, after := Matching(sys.st.rows, user, kind, Pending),
                         Matching(Next(sys, m, maxBytes).st.rows, user, kind, Pending);
    if Inserts(sys, m) {
      var up := m.task.upload;
      assert after == before + if up.user == user && up.kind == kind then {m.id} else {};
      assert m.id !in before;
      if Crowds(sys, m, user, kind, Pending) {
        var other :| other in before;
        assert other in after && m.id in after;
      }
    } else if Swaps(sys, m) {
      SwappedCommitted(sys.st.rows, m.task, user, kind);
    } else {
      assert after <= before;
    }
  }

  lemma SingleCommitted(sys: System, m: Move, user: string, kind: string, maxBytes: int)
    requires Single(sys.st, user, kind, Committed)
    ensures Single(Next(sys, m, maxBytes).st, user, kind, Committed) <==> !Crowds(sys, m, user, kind, Committed)
  {
    RowsAfter(sys, m, maxBytes);
    hide Next;
    var before, after := Matching(sys.st.rows, user, kind, Committed),
                         Matching(Next(sys, m, maxBytes).st.rows, user, kind, Committed);
    if Swaps(sys, m) {
      SwappedCommitted(sys.st.rows, m.task, user, kind);
      if Crowds(sys, m, user, kind, Committed) {
        var other :| other in before - Replaced(m.task);
        assert other in after && m.task.id in after && other != m.task.id;
      }
    } else {
      assert after <= before;
    }
  }

  /** The main result on uniqueness, for every interleaving of any handlers, from the start or any
      other state in which it holds: a user has at most one pending avatar of a kind all along, and
      likewise at most one committed one, if and only if no move of the run crowds it. */
  lemma SingleExactly(
    start: System, ms: seq<Move>, j: nat, user: string, kind: string, status: Status, maxBytes: int)
    requires j <= |ms| && Single(start.st, user, kind, status)
    ensures Throughout(start, ms, j, maxBytes, (st: State) => Single(st, user, kind, status))
            <==> !Ever(start, ms, j, maxBytes, (sys, m) => Crowds(sys, m, user, kind, status))
  {
    forall sys: System, m: Move | Single(sys.st, user, kind, status)
      ensures Single(Next(sys, m, maxBytes).st, user, kind, status) <==> !Crowds(sys, m, user, kind, status)
    {
      match status
      case Pending => SinglePending(sys, m, user, kind, maxBytes);
      case Committed => SingleCommitted(sys, m, user, kind, maxBytes);
    }
    AllAlong(start, ms, j, maxBytes, (st: State) => Single(st, user, kind, status),
             (sys, m) => Crowds(sys, m, user, kind, status));
  }

  predicate Shown(st: State, user: string, kind: string) {
    Matching(st.rows, user, kind, Committed) != {}
  }

  /** The move that takes the last committed avatar of this kind away, as a guard on the state
      before: a transaction deletes it while its own pending row is gone, or is that very row; or a
      row is removed that was read before it was committed (or, for custom avatars, on purpose). */
  predicate Loses(sys: System, m: Move, user: string, kind: string) {
    var shown := Matching(sys.st.rows, user, kind, Committed);
    || (Swaps(sys, m) && shown == Replaced(m.task) && !Promotes(sys.st.rows, m.task, user, kind))
    || (Removes(sys, m) && shown == {m.task.id})
  }

  lemma ShownStep(sys: System, m: Move, user: string, kind: string, maxBytes: int)
    requires Shown(sys.st, user, kind)
    ensures Shown(Next(sys, m, maxBytes).st, user, kind) <==> !Loses(sys, m, user, kind)
  {
    RowsAfter(sys, m, maxBytes);
    hide Next;
    var before, after := Matching(sys.st.rows, user, kind, Committed),
                         Matching(Next(sys, m, maxBytes).st.rows, user, kind, Committed);
    if Swaps(sys, m) {
      SwappedCommitted(sys.st.rows, m.task, user, kind);
      assert before - Replaced(m.task) == {} <==> before == Replaced(m.task);
    } else if Removes(sys, m) {
      assert after == before - {m.task.id};
      assert before - {m.task.id} == {} <==> before == {m.task.id};
    } else {
      assert before <= after;
    }
  }

  /** The main result on the default avatar, for every interleaving: from any state on in which a
      user has a committed default avatar, one is there all along if and only if no move of the run
      loses it. The same holds for custom avatars. */
  lemma ShownExactly(start: System, ms: seq<Move>, j: nat, user: string, kind: string, maxBytes: int)
    requires j <= |ms| && Shown(start.st, user, kind)
    ensures Throughout(start, ms, j, maxBytes, (st: State) => Shown(st, user, kind))
            <==> !Ever(start, ms, j, maxBytes, (sys, m) => Loses(sys, m, user, kind))
  {
    forall sys: System, m: Move | Shown(sys.st, user, kind)
      ensures Shown(Next(sys, m, maxBytes).st, user, kind) <==> !Loses(sys, m, user, kind)
    {
      ShownStep(sys, m, user, kind, maxBytes);
    }
    AllAlong(start, ms, j, maxBytes, (st: State) => Shown(st, user, kind), (sys, m) => Loses(sys, m, user, kind));
  }

  /** Every committed avatar has its object. */
  predicate Backed(st: State) {
    forall id | id in st.rows && st.rows[id].status == Committed :: st.rows[id].objectKey in st.objects
  }

  predicate InUse(rows: map<string, Row>, objectKey: string) {
    exists id :: id in rows && rows[id].status == Committed && rows[id].objectKey == objectKey
  }

  /** The move that leaves a committed avatar without its object, as a guard on the state before:
      an object is deleted for a row that has been committed since it was read, or a transaction
      promotes a row whose object has been deleted since it was checked. */
  predicate Bares(sys: System, m: Move) {
    var rows := sys.st.rows;
    || (Swaps(sys, m) && m.task.id in rows && m.task.id !in Replaced(m.task) && rows[m.task.id].status == Pending
        && rows[m.task.id].objectKey !in sys.st.objects)
    || (m.Run? && m.task in sys.tasks && (m.task.Discard? || m.task.Erase?) && InUse(rows, m.task.objectKey))
  }

  lemma BackedStep(sys: System, m: Move, maxBytes: int)
    requires Backed(sys.st)
    ensures Backed(Next(sys, m, maxBytes).st) <==> !Bares(sys, m)
  {
    RowsAfter(sys, m, maxBytes);
    ObjectsAfter(sys, m, maxBytes);
    hide Next;
    var rows, st' := sys.st.rows, Next(sys, m, maxBytes).st;
    if Swaps(sys, m) {
      var id := m.task.id;
      if id in rows && id !in Replaced(m.task) {
        assert id in st'.rows && st'.rows[id] == rows[id].(status := Committed);
      }
      assert forall other | other in st'.rows && other != id :: other in rows && st'.rows[other] == rows[other];
    }
  }

  /** The main result on objects, for every interleaving, from the start or any other state in
      which it holds: every committed avatar has its object all along if and only if no move of the
      run bares one. */
  lemma BackedExactly(start: System, ms: seq<Move>, j: nat, maxBytes: int)
    requires j <= |ms| && Backed(start.st)
    ensures Throughout(start, ms, j, maxBytes, (st: State) => Backed(st)) <==> !Ever(start, ms, j, maxBytes, Bares)
  {
    forall sys: System, m: Move | Backed(sys.st)
      ensures Backed(Next(sys, m, maxBytes).st) <==> !Bares(sys, m)
    {
      BackedStep(sys, m, maxBytes);
    }
    AllAlong(start, ms, j, maxBytes, (st: State) => Backed(st), Bares);
  }

  // ---- Runs that break it ----

  const UP := Upload.Upload("u", "default", 1)

  function Avatar(objectKey: string, status: Status): Row {
    Row("u", "default", objectKey, 1, status, 0)
  }

  const TWIN_RUN := [
    BeginRequest(UP, None), BeginRequest(UP, None), RunInsert(Insert(UP), "a", "ka", 0),
    RunInsert(Insert(UP), "b", "kb", 0), Put("ka", 1), Put("kb", 1)]

  const TWINS := System(
    State(map["a" := Avatar("ka", Pending), "b" := Avatar("kb", Pending)], map["ka" := 1, "kb" := 1]), multiset{})

  lemma NextFirst(sys: System, up: Upload, maxBytes: int)
    requires ValidKind(up.kind) && 0 < up.size <= maxBytes && Finds(sys.st.rows, up.user, up.kind, Pending, None)
    ensures Next(sys, BeginRequest(up, None), maxBytes) == With(sys, Insert(up))
  {
  }

  /** The insert of the next row, when its id and key are new. */
  lemma NextRow(sys: System, id: string, objectKey: string)
    requires Fresh(sys.st.rows, id, objectKey)
    ensures Next(With(sys, Insert(UP)), RunInsert(Insert(UP), id, objectKey, 0), 1)
            == sys.(st := sys.st.(rows := sys.st.rows[id := Avatar(objectKey, Pending)]))
  {
    NextInserts(With(sys, Insert(UP)), Insert(UP), id, objectKey, 0, 1);
    InsertRow(sys, UP, id, objectKey, 0);
  }

  lemma NextPut(sys: System, objectKey: string, size: int)
    ensures Next(sys, Put(objectKey, size), 1) == sys.(st := sys.st.(objects := sys.st.objects[objectKey := size]))
  {
  }

  /** Two requests that both look before either inserts leave two pending avatars. */
  lemma TwoPending()
    ensures Reach(START, TWIN_RUN, 6, 1) == TWINS
    ensures !Single(TWINS.st, "u", "default", Pending)
  {
    hide Next;
    var a, b := Avatar("ka", Pending), Avatar("kb", Pending);
    var first := With(START, Insert(UP));
    var inserted := START.(st := EMPTY.(rows := map["a" := a]));
    NextFirst(START, UP, 1);
    NextFirst(first, UP, 1);
    NextRow(first, "a", "ka");
    assert Reach(START, TWIN_RUN, 1, 1) == first;
    assert Reach(START, TWIN_RUN, 2, 1) == With(first, Insert(UP));
    assert Reach(START, TWIN_RUN, 3, 1) == With(inserted, Insert(UP));
    NextRow(inserted, "b", "kb");
    assert Reach(START, TWIN_RUN, 4, 1).st == State(map["a" := a, "b" := b], map[]);
    NextPut(Reach(START, TWIN_RUN, 4, 1), "ka", 1);
    NextPut(Reach(START, TWIN_RUN, 5, 1), "kb", 1);
    assert "a" in Matching(TWINS.st.rows, "u", "default", Pending);
    assert "b" in Matching(TWINS.st.rows, "u", "default", Pending);
  }

  /** What a commit of the user's avatar has read. */
  function Sized(id: string, objectKey: string): Task {
    Check(id, "u", "default", objectKey, 1)
  }

  function Find(id: string): Task {
    FindOld(id, "u", "default")
  }

  lemma ReachTwo(start: System, ms: seq<Move>, j: nat)
    requires j + 2 <= |ms|
    ensures Reach(start, ms, j + 2, 1) == Next(Next(Reach(start, ms, j, 1), ms[j], 1), ms[j + 1], 1)
  {
    hide Next;
    assert Reach(start, ms, j + 1, 1) == Next(Reach(start, ms, j, 1), ms[j], 1);
  }

  /** The two moves in which a commit reads and checks. */
  lemma NextCommit(sys: System, id: string, objectKey: string)
    requires CanCommit(sys.st, id, "u") && sys.st.rows[id] == Avatar(objectKey, Pending)
    ensures Next(Next(sys, BeginCommit(id, "u"), 1), RunCheck(Sized(id, objectKey)), 1) == With(sys, Find(id))
  {
    ChecksPass(sys, id, "u", 1);
  }

  lemma NextTask(sys: System, task: Task)
    requires !task.Check? && !task.FindOld? && !task.Insert?
    ensures Next(With(sys, task), Run(task), 1) == System(Effect(sys.st, task), sys.tasks + Following(task))
  {
    NextIs(With(sys, task), task, 1);
    RunsTo(sys, task);
  }

  const TWIN_COMMITS := [
    BeginCommit("a", "u"), RunCheck(Sized("a", "ka")), BeginCommit("b", "u"), RunCheck(Sized("b", "kb")),
    RunFindOld(Find("b"), None), RunFindOld(Find("a"), None), Run(Swap("a", None)), Run(Swap("b", None))]

  lemma BothRead()
    ensures Reach(TWINS, TWIN_COMMITS, 6, 1) == With(With(TWINS, Swap("b", None)), Swap("a", None))
  {
    hide Next;
    var swapB := Swap("b", None);
    var readA := With(TWINS, Find("a"));
    NextCommit(TWINS, "a", "ka");
    NextCommit(readA, "b", "kb");
    LookupOld(readA, Find("b"), None, 1);
    ReachTwo(TWINS, TWIN_COMMITS, 0);
    assert Reach(TWINS, TWIN_COMMITS, 2, 1) == readA;
    ReachTwo(TWINS, TWIN_COMMITS, 2);
    assert Reach(TWINS, TWIN_COMMITS, 4, 1) == With(readA, Find("b"));
    assert Reach(TWINS, TWIN_COMMITS, 5, 1) == With(readA, swapB) == With(With(TWINS, swapB), Find("a"));
    LookupOld(With(TWINS, swapB), Find("a"), None, 1);
  }

  /** Two pending avatars that are committed at the same time are both committed. */
  lemma TwoCommitted()
    ensures !Single(Reach(TWINS, TWIN_COMMITS, 8, 1).st, "u", "default", Committed)
  {
    hide Next;
    var swapA, swapB := Swap("a", None), Swap("b", None);
    BothRead();
    NextTask(With(TWINS, swapB), swapA);
    var one := System(Effect(TWINS.st, swapA), multiset{});
    assert Reach(TWINS, TWIN_COMMITS, 7, 1) == With(one, swapB);
    NextTask(one, swapB);
    var rows := Reach(TWINS, TWIN_COMMITS, 8, 1).st.rows;
    assert rows == map["a" := Avatar("ka", Committed), "b" := Avatar("kb", Committed)];
    assert "a" in Matching(rows, "u", "default", Committed) && "b" in Matching(rows, "u", "default", Committed);
  }

  const SETUP := [
    BeginRequest(UP, None), RunInsert(Insert(UP), "o", "ko", 0), Put("ko", 1),
    BeginCommit("o", "u"), RunCheck(Sized("o", "ko")), RunFindOld(Find("o"), None), Run(Swap("o", None)),
    BeginRequest(UP, None), RunInsert(Insert(UP), "a", "ka", 0), Put("ka", 1)]

  /** A committed default avatar, and a new one that is uploaded and not committed yet. */
  const READY := System(
    State(map["o" := Avatar("ko", Committed), "a" := Avatar("ka", Pending)], map["ko" := 1, "ka" := 1]), multiset{})

  lemma ReadyReached()
    ensures Reach(START, SETUP, 10, 1) == READY
  {
    hide Next;
    var requested := System(State(map["o" := Avatar("ko", Pending)], map["ko" := 1]), multiset{});
    var shown := System(State(map["o" := Avatar("ko", Committed)], map["ko" := 1]), multiset{});
    NextFirst(START, UP, 1);
    NextRow(START, "o", "ko");
    assert Reach(START, SETUP, 1, 1) == With(START, Insert(UP));
    NextPut(Reach(START, SETUP, 2, 1), "ko", 1);
    assert Reach(START, SETUP, 3, 1) == requested;
    NextCommit(requested, "o", "ko");
    LookupOld(requested, Find("o"), None, 1);
    NextTask(requested, Swap("o", None));
    ReachTwo(START, SETUP, 3);
    assert Reach(START, SETUP, 5, 1) == With(requested, Find("o"));
    assert Reach(START, SETUP, 6, 1) == With(requested, Swap("o", None));
    assert Reach(START, SETUP, 7, 1) == shown;
    NextFirst(shown, UP, 1);
    NextRow(shown, "a", "ka");
    assert Reach(START, SETUP, 8, 1) == With(shown, Insert(UP));
    NextPut(Reach(START, SETUP, 9, 1), "ka", 1);
  }

  const REPLACE := Swap("a", Some(Old("o", "ko")))

  const REQUEST_DURING_COMMIT := [
    BeginCommit("a", "u"), RunCheck(Sized("a", "ka")), RunFindOld(Find("a"), Some("o")),
    BeginRequest(UP, Some("a")), Run(Erase("a", "ka", Some(UP))), Run(Remove("a", Some(UP))),
    RunInsert(Insert(UP), "b", "kb", 0), Run(REPLACE)]

  lemma RequestTakesRow()
    ensures var dropped := System(State(map["o" := Avatar("ko", Committed)], map["ko" := 1]), multiset{});
            Reach(READY, REQUEST_DURING_COMMIT, 6, 1) == With(With(dropped, REPLACE), Insert(UP))
  {
    hide Next;
    var ms := REQUEST_DURING_COMMIT;
    var erase, remove := Erase("a", "ka", Some(UP)), Remove("a", Some(UP));
    var swapping := With(READY, REPLACE);
    NextCommit(READY, "a", "ka");
    LookupOld(READY, Find("a"), Some("o"), 1);
    NextBegins(swapping, UP, "a", 1);
    ReachTwo(READY, ms, 0);
    assert Reach(READY, ms, 2, 1) == With(READY, Find("a"));
    assert Reach(READY, ms, 3, 1) == swapping;
    assert Reach(READY, ms, 4, 1) == With(swapping, erase);
    NextTask(swapping, erase);
    var erased := System(State(READY.st.rows, map["ko" := 1]), swapping.tasks);
    assert Reach(READY, ms, 5, 1) == With(erased, remove);
    NextTask(erased, remove);
  }

  /** A request between the reads of a commit and its transaction takes the pending row away; the
      transaction then deletes the old avatar and promotes nothing. */
  lemma RequestDuringCommit()
    ensures !Shown(Reach(READY, REQUEST_DURING_COMMIT, 8, 1).st, "u", "default")
  {
    hide Next;
    var ms := REQUEST_DURING_COMMIT;
    RequestTakesRow();
    var dropped := System(State(map["o" := Avatar("ko", Committed)], map["ko" := 1]), multiset{});
    NextRow(With(dropped, REPLACE), "b", "kb");
    var rows := map["o" := Avatar("ko", Committed), "b" := Avatar("kb", Pending)];
    var inserted := System(State(rows, map["ko" := 1]), multiset{});
    assert Reach(READY, ms, 7, 1) == With(inserted, REPLACE);
    NextTask(inserted, REPLACE);
    assert Reach(READY, ms, 8, 1).st.rows == map["b" := Avatar("kb", Pending)];
  }

  const COMMIT_TWICE := [
    BeginCommit("a", "u"), RunCheck(Sized("a", "ka")), BeginCommit("a", "u"), RunCheck(Sized("a", "ka")),
    RunFindOld(Find("a"), Some("o")), Run(REPLACE), Run(Discard("ko")),
    RunFindOld(Find("a"), Some("a")), Run(Swap("a", Some(Old("a", "ka")))), Run(Discard("ka"))]

  /** A commit that is sent twice can take the new avatar for the old one and delete both, with
      their objects. */
  lemma CommitTwice()
    ensures Reach(READY, COMMIT_TWICE, 10, 1) == START
  {
    hide Next;
    var ms := COMMIT_TWICE;
    var read := With(READY, Find("a"));
    NextCommit(READY, "a", "ka");
    NextCommit(read, "a", "ka");
    LookupOld(read, Find("a"), Some("o"), 1);
    NextTask(read, REPLACE);
    ReachTwo(READY, ms, 0);
    assert Reach(READY, ms, 2, 1) == read;
    ReachTwo(READY, ms, 2);
    assert Reach(READY, ms, 4, 1) == With(read, Find("a"));
    assert Reach(READY, ms, 5, 1) == With(read, REPLACE);
    var swapped := System(State(map["a" := Avatar("ka", Committed)], map["ko" := 1, "ka" := 1]), multiset{});
    assert Reach(READY, ms, 6, 1) == With(With(swapped, Find("a")), Discard("ko"));
    NextTask(With(swapped, Find("a")), Discard("ko"));
    var alone := System(State(swapped.st.rows, map["ka" := 1]), multiset{});
    assert Reach(READY, ms, 7, 1) == With(alone, Find("a"));
    LookupOld(alone, Find("a"), Some("a"), 1);
    assert Reach(READY, ms, 8, 1) == With(alone, Swap("a", Some(Old("a", "ka"))));
    NextTask(alone, Swap("a", Some(Old("a", "ka"))));
    var gone := System(State(map[], map["ka" := 1]), multiset{});
    assert Reach(READY, ms, 9, 1) == With(gone, Discard("ka"));
    NextTask(gone, Discard("ka"));
    assert Reach(READY, ms, 10, 1).tasks == multiset{};
  }

  const SWEEP_DURING_COMMIT := [
    BeginCleanup(RESERVE_WINDOW + 1), BeginCommit("a", "u"), RunCheck(Sized("a", "ka")),
    RunFindOld(Find("a"), Some("o")), Run(REPLACE),
    Run(Erase("a", "ka", None)), Run(Remove("a", None))]

  lemma SweepReads(id: string)
    requires StaleIds(READY.st.rows, RESERVE_WINDOW + 1) == {id}
    ensures Next(READY, BeginCleanup(RESERVE_WINDOW + 1), 1)
            == With(READY, Erase(id, READY.st.rows[id].objectKey, None))
  {
    ErasuresGrow(READY.st.rows, {}, id);
    assert {} + {id} == {id};
    assert Erasures(READY.st.rows, {}) == multiset{};
  }

  lemma CommitAfterSweepRead()
    ensures var rows := map["a" := Avatar("ka", Committed)];
            var swapped := System(State(rows, map["ko" := 1, "ka" := 1]), multiset{Discard("ko")});
            Reach(READY, SWEEP_DURING_COMMIT, 5, 1) == With(swapped, Erase("a", "ka", None))
  {
    hide Next;
    var ms := SWEEP_DURING_COMMIT;
    var swept := With(READY, Erase("a", "ka", None));
    assert StaleIds(READY.st.rows, RESERVE_WINDOW + 1) == {"a"};
    SweepReads("a");
    hide StaleIds;
    NextCommit(swept, "a", "ka");
    LookupOld(swept, Find("a"), Some("o"), 1);
    NextTask(swept, REPLACE);
    assert Reach(READY, ms, 1, 1) == swept;
    ReachTwo(READY, ms, 1);
    assert Reach(READY, ms, 3, 1) == With(swept, Find("a"));
    assert Reach(READY, ms, 4, 1) == With(swept, REPLACE);
  }

  lemma SweepErases()
    ensures var rows := map["a" := Avatar("ka", Committed)];
            && Reach(READY, SWEEP_DURING_COMMIT, 6, 1).st == State(rows, map["ko" := 1])
            && Reach(READY, SWEEP_DURING_COMMIT, 7, 1).st == State(map[], map["ko" := 1])
  {
    hide Next;
    var ms := SWEEP_DURING_COMMIT;
    var erase := Erase("a", "ka", None);
    var rows := map["a" := Avatar("ka", Committed)];
    var swapped := System(State(rows, map["ko" := 1, "ka" := 1]), multiset{Discard("ko")});
    CommitAfterSweepRead();
    NextTask(swapped, erase);
    var bared := System(State(rows, map["ko" := 1]), multiset{Discard("ko")});
    assert Reach(READY, ms, 6, 1) == With(bared, Remove("a", None));
    NextTask(bared, Remove("a", None));
  }

  /** A sweep that has read an expired reservation deletes the object and the row even when the
      reservation is committed in between. */
  lemma SweepDuringCommit()
    ensures Shown(Reach(READY, SWEEP_DURING_COMMIT, 5, 1).st, "u", "default")
    ensures !Backed(Reach(READY, SWEEP_DURING_COMMIT, 6, 1).st)
    ensures !Shown(Reach(READY, SWEEP_DURING_COMMIT, 7, 1).st, "u", "default")
  {
    CommitAfterSweepRead();
    SweepErases();
    hide Reach;
    var rows := map["a" := Avatar("ka", Committed)];
    assert "a" in Matching(rows, "u", "default", Committed);
    assert !Backed(State(rows, map["ko" := 1])) by {
      assert rows["a"].status == Committed;
    }
  }
}
