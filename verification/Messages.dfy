/** Store and forward: messages wait for the receiver's acknowledgement, relayed events wait
    for the receiver's next app connection (internal/socketio/chat.go, delivery.go,
    internal/db/cleanup.go). */
module Messages {
  import opened Wrappers
  import Files
  import Queries

  /** Thirty days in seconds. */
  const STALE_AFTER := 30 * 86400

  /** A row of the message table; `send` numbers the successful sends of the run. */
  datatype Message = Message(
    id: string, sender: string, receiver: string, ciphertext: string, nonce: string,
    timestamp: int, delivered: bool, send: nat)

  /** A row of the pending-event table, under its id. */
  datatype Pending = Pending(user: string, kind: string, payload: string, timestamp: int)

  /** How a message left the table. */
  datatype Fate = Acked(who: string) | Deleted(who: string) | Purged(cutoff: int)

  /** The two tables, and the history: every successful send, what became of those no longer
      stored, and the pending events handed to their user. */
  datatype State = State(
    messages: map<string, Message>, pending: map<string, Pending>,
    sends: seq<Message>, fates: map<nat, Fate>, handed: map<string, Pending>)

  const EMPTY := State(map[], map[], [], map[], map[])

  /** An acknowledgement reads the message by id and receiver and then deletes it by id alone: `Ack`
      is both at once, `LateAck` only the DELETE, at a later time. A connecting app socket is sent
      the pending events, and then those of its user are deleted: `Drain` is both at once,
      `Collect` and `Clear` are the two halves. */
  datatype Event =
    | Send(sender: string, id: string, receiver: string, ciphertext: string, nonce: string, timestamp: int)
    | Ack(who: string, id: string)
    | LateAck(who: string, id: string)
    | Delete(who: string, id: string)
    | Purge(now: int)
    | Enqueue(id: string, event: Pending)
    | Drain(user: string)
    | Collect(user: string)
    | Clear(user: string)

  predicate Stale(m: Message, cutoff: int) {
    m.timestamp < cutoff && !m.delivered
  }

  function StaleIds(messages: map<string, Message>, cutoff: int): set<string> {
    set id | id in messages && Stale(messages[id], cutoff)
  }

  function Removed(st: State, id: string, fate: Fate): State
    requires id in st.messages
  {
    st.(messages := st.messages - {id}, fates := st.fates[st.messages[id].send := fate])
  }

  function PurgedSends(st: State, cutoff: int): set<nat> {
    set id | id in StaleIds(st.messages, cutoff) :: st.messages[id].send
  }

  function Purged'(st: State, cutoff: int): State {
    st.(messages := st.messages - StaleIds(st.messages, cutoff),
        fates := st.fates + map n | n in PurgedSends(st, cutoff) :: Purged(cutoff))
  }

  function QueuedBy(pending: map<string, Pending>, user: string): map<string, Pending> {
    map id | id in pending && pending[id].user == user :: pending[id]
  }

  function Collected(st: State, user: string): State {
    st.(handed := st.handed + QueuedBy(st.pending, user))
  }

  /** DELETE FROM pending_events WHERE user_id = ... */
  function Cleared(st: State, user: string): State {
    st.(pending := st.pending - QueuedBy(st.pending, user).Keys)
  }

  function Step(st: State, e: Event): State {
    match e
    case Send(sender, id, receiver, ciphertext, nonce, timestamp) =>
      if id in st.messages then st
      else
        var m := Message(id, sender, receiver, ciphertext, nonce, timestamp, false, |st.sends|);
        st.(messages := st.messages[id := m], sends := st.sends + [m])
    case Ack(who, id) =>
      if id in st.messages && st.messages[id].receiver == who then Removed(st, id, Acked(who)) else st
    case LateAck(who, id) => if id in st.messages then Removed(st, id, Acked(who)) else st
    case Delete(who, id) =>
      if id in st.messages && st.messages[id].sender == who then Removed(st, id, Deleted(who)) else st
    case Purge(now) => Purged'(st, now - STALE_AFTER)
    case Enqueue(id, event) => if id in st.pending then st else st.(pending := st.pending[id := event])
    case Drain(user) => Cleared(Collected(st, user), user)
    case Collect(user) => Collected(st, user)
    case Clear(user) => Cleared(st, user)
  }

  function After(es: seq<Event>, j: nat): State
    requires j <= |es|
  {
    if j == 0 then EMPTY else Step(After(es, j - 1), es[j - 1])
  }

  // ---- The fate of a message ----

  predicate Holds(messages: map<string, Message>, m: Message) {
    m.id in messages && messages[m.id] == m
  }

  predicate Stored(st: State, m: Message) {
    Holds(st.messages, m)
  }

  predicate Fits(fate: Fate, m: Message) {
    match fate
    case Acked(who) => who == m.receiver
    case Deleted(who) => who == m.sender
    case Purged(cutoff) => m.timestamp < cutoff
  }

  /** Every successful send is either stored, unchanged, or has one fate. */
  ghost predicate Accounted(st: State) {
    && (forall n | 0 <= n < |st.sends| :: st.sends[n].send == n && (n in st.fates <==> !Stored(st, st.sends[n])))
    && (forall n | n in st.fates :: n < |st.sends|)
    && (forall id | id in st.messages ::
          st.messages[id].id == id && !st.messages[id].delivered
          && st.messages[id].send < |st.sends| && st.sends[st.messages[id].send] == st.messages[id])
  }

  /** Every fate befits its message: acknowledged by its receiver, deleted by its sender, or
      purged after it became stale. */
  predicate Fitting(st: State) {
    forall n | n in st.fates && n < |st.sends| :: Fits(st.fates[n], st.sends[n])
  }

  lemma SendAccounted(st: State, e: Event)
    requires Accounted(st) && e.Send?
    ensures Accounted(Step(st, e))
  {
    var st' := Step(st, e);
    if st' != st {
      assert forall n | 0 <= n < |st.sends| :: st'.sends[n] == st.sends[n];
      assert |st.sends| !in st.fates;
    }
  }

  lemma RemovedAccounted(st: State, id: string, fate: Fate)
    requires Accounted(st) && id in st.messages
    ensures Accounted(Removed(st, id, fate))
  {
    var st' := Removed(st, id, fate);
    forall n | 0 <= n < |st.sends|
      ensures n in st'.fates <==> !Stored(st', st.sends[n])
    {
    }
  }

  /** The messages that a purge takes away are those to which it gives a fate. */
  lemma PurgedExactly(st: State, cutoff: int, n: nat)
    requires Accounted(st) && n < |st.sends|
    ensures n in PurgedSends(st, cutoff) <==> Stored(st, st.sends[n]) && Stale(st.sends[n], cutoff)
  {
    var m := st.sends[n];
    if n in PurgedSends(st, cutoff) {
      var id :| id in StaleIds(st.messages, cutoff) && st.messages[id].send == n;
      assert st.messages[id] == m && m.id == id;
    }
    if Stored(st, m) && Stale(m, cutoff) {
      assert m.id in StaleIds(st.messages, cutoff) && st.messages[m.id].send == n;
    }
  }

  lemma PurgedAccounted(st: State, cutoff: int)
    requires Accounted(st)
    ensures Accounted(Purged'(st, cutoff))
  {
    var st', gone := Purged'(st, cutoff), PurgedSends(st, cutoff);
    assert forall n :: n in st'.fates <==> n in st.fates || n in gone;
    forall n | 0 <= n < |st.sends|
      ensures n in st'.fates <==> !Stored(st', st.sends[n])
    {
      PurgedExactly(st, cutoff, n);
    }
  }

  lemma SameMessages(st: State, st': State)
    requires Accounted(st) && st'.messages == st.messages && st'.sends == st.sends && st'.fates == st.fates
    ensures Accounted(st')
  {
    assert forall m :: Stored(st', m) <==> Stored(st, m);
  }

  lemma StepAccounted(st: State, e: Event)
    requires Accounted(st)
    ensures Accounted(Step(st, e))
  {
    hide Accounted;
    match e
    case Send(_, _, _, _, _, _) => SendAccounted(st, e);
    case Ack(who, id) => if id in st.messages { RemovedAccounted(st, id, Acked(who)); }
    case LateAck(who, id) => if id in st.messages { RemovedAccounted(st, id, Acked(who)); }
    case Delete(who, id) => if id in st.messages { RemovedAccounted(st, id, Deleted(who)); }
    case Purge(now) => PurgedAccounted(st, now - STALE_AFTER);
    case Enqueue(id, event) => SameMessages(st, st.(pending := st.pending[id := event]));
    case Drain(user) => SameMessages(st, Cleared(Collected(st, user), user));
    case Collect(user) => SameMessages(st, Collected(st, user));
    case Clear(user) => SameMessages(st, Cleared(st, user));
  }

  /** The main result: in every run, however acknowledgements interleave, each successful send is
      stored or has exactly one fate. */
  lemma {:induction false} EverySendAccounted(es: seq<Event>, j: nat)
    requires j <= |es|
    ensures Accounted(After(es, j))
  {
    if j > 0 {
      EverySendAccounted(es, j - 1);
      StepAccounted(After(es, j - 1), es[j - 1]);
    }
  }

  /** The step that gives a message a fate that is not its own, as a guard on the state before: the
      DELETE of an acknowledgement meets, under the id of the message it read, a later message to
      somebody else. */
  predicate Misfires(st: State, e: Event) {
    e.LateAck? && e.id in st.messages && st.messages[e.id].receiver != e.who
  }

  lemma RemovedFitting(st: State, id: string, fate: Fate)
    requires Accounted(st) && Fitting(st) && id in st.messages
    ensures Fitting(Removed(st, id, fate)) <==> Fits(fate, st.messages[id])
  {
    var st', n := Removed(st, id, fate), st.messages[id].send;
    assert st'.fates[n] == fate && st'.sends[n] == st.messages[id];
  }

  lemma PurgedFitting(st: State, cutoff: int)
    requires Accounted(st) && Fitting(st)
    ensures Fitting(Purged'(st, cutoff))
  {
    var st' := Purged'(st, cutoff);
    forall n | n in st'.fates && n < |st'.sends|
      ensures Fits(st'.fates[n], st'.sends[n])
    {
      if n in PurgedSends(st, cutoff) {
        PurgedExactly(st, cutoff, n);
      }
    }
  }

  lemma StepFitting(st: State, e: Event)
    requires Accounted(st) && Fitting(st)
    ensures Fitting(Step(st, e)) <==> !Misfires(st, e)
  {
    match e
    case Ack(who, id) => if id in st.messages { RemovedFitting(st, id, Acked(who)); }
    case LateAck(who, id) => if id in st.messages { RemovedFitting(st, id, Acked(who)); }
    case Delete(who, id) => if id in st.messages { RemovedFitting(st, id, Deleted(who)); }
    case Purge(now) => PurgedFitting(st, now - STALE_AFTER);
    case _ => hide Fits;
  }

  predicate MisfiresBefore(es: seq<Event>, j: nat)
    requires j <= |es|
  {
    exists i :: 0 <= i < j && Misfires(After(es, i), es[i])
  }

  ghost predicate FittingUpTo(es: seq<Event>, j: nat)
    requires j <= |es|
  {
    forall i | 0 <= i <= j :: Fitting(After(es, i))
  }

  lemma EmptyFitting()
    ensures Fitting(EMPTY)
  {
  }

  /** The main result on fates: in every run each message was acknowledged by its receiver, deleted
      by its sender or purged as stale, all along, if and only if no late DELETE misfires. */
  lemma {:induction false} FatesFitExactly(es: seq<Event>, j: nat)
    requires j <= |es|
    ensures FittingUpTo(es, j) <==> !MisfiresBefore(es, j)
  {
    hide Step, Misfires, Fitting;
    if j == 0 {
      EmptyFitting();
    } else {
      var p := j - 1;
      var st := After(es, p);
      FatesFitExactly(es, p);
      EverySendAccounted(es, p);
      assert After(es, j) == Step(st, es[p]);
      assert FittingUpTo(es, j) <==> FittingUpTo(es, p) && Fitting(After(es, j));
      assert MisfiresBefore(es, j) <==> MisfiresBefore(es, p) || Misfires(st, es[p]);
      if FittingUpTo(es, p) {
        StepFitting(st, es[p]);
      }
    }
  }

  /** Between the read of an acknowledgement and its DELETE the sender deletes the message and
      somebody else uses its id again: the new message is lost to its receiver. */
  lemma LateAckTakesNewMessage()
    ensures var es := [Send("s", "x", "r", "c", "n", 1), Delete("s", "x"), Send("t", "x", "q", "d", "m", 2),
                       LateAck("r", "x")];
            var read, lost := After(es, 1), After(es, 4);
            && "x" in read.messages && read.messages["x"].receiver == "r"
            && Misfires(After(es, 3), es[3]) && |lost.sends| == 2 && lost.sends[1].receiver == "q"
            && lost.messages == map[] && 1 in lost.fates && lost.fates[1] == Acked("r")
  {
    var es := [Send("s", "x", "r", "c", "n", 1), Delete("s", "x"), Send("t", "x", "q", "d", "m", 2),
               LateAck("r", "x")];
    var first, second := Message("x", "s", "r", "c", "n", 1, false, 0), Message("x", "t", "q", "d", "m", 2, false, 1);
    assert After(es, 0) == EMPTY;
    assert After(es, 1) == EMPTY.(messages := map["x" := first], sends := [first]);
    assert After(es, 2) == EMPTY.(sends := [first], fates := map[0 := Deleted("s")]);
    assert After(es, 3)
           == EMPTY.(messages := map["x" := second], sends := [first, second], fates := map[0 := Deleted("s")]);
    assert After(es, 4) == Removed(After(es, 3), "x", Acked("r"));
  }

  /** The events that take message `m` off the table: its receiver acknowledges it, a late
      acknowledgement of its id deletes it, its sender deletes it, or a purge finds it stale. */
  predicate Retires(e: Event, m: Message) {
    || e == Ack(m.receiver, m.id)
    || (e.LateAck? && e.id == m.id)
    || e == Delete(m.sender, m.id)
    || (e.Purge? && m.timestamp < e.now - STALE_AFTER)
  }

  lemma StepRetires(st: State, e: Event, m: Message)
    requires Accounted(st) && m.send < |st.sends| && st.sends[m.send] == m
    ensures Stored(Step(st, e), m) <==> Stored(st, m) && !Retires(e, m)
    ensures m.send < |Step(st, e).sends| && Step(st, e).sends[m.send] == m
  {
  }

  predicate RetiredBetween(es: seq<Event>, i: nat, j: nat, m: Message) {
    exists d :: i <= d < j && d < |es| && Retires(es[d], m)
  }

  /** From any time at which a message is stored, it is still stored at a later time if and only
      if no such event happened in between, even when its id is used again. */
  lemma {:induction false} StoredFrom(es: seq<Event>, i: nat, j: nat, m: Message)
    requires i <= j <= |es| && Stored(After(es, i), m)
    ensures m.send < |After(es, j).sends| && After(es, j).sends[m.send] == m
    ensures Stored(After(es, j), m) <==> !RetiredBetween(es, i, j, m)
  {
    hide Step;
    if i == j {
      EverySendAccounted(es, i);
    } else {
      var p := j - 1;
      StoredFrom(es, i, p, m);
      EverySendAccounted(es, p);
      StepRetires(After(es, p), es[p], m);
      assert RetiredBetween(es, i, j, m) <==> RetiredBetween(es, i, p, m) || Retires(es[p], m);
    }
  }

  /** In particular from the moment it is sent. */
  lemma SentThenStored(es: seq<Event>, i: nat, j: nat)
    requires i < j <= |es| && es[i].Send? && es[i].id !in After(es, i).messages
    ensures es[i].id in After(es, i + 1).messages
    ensures var m := After(es, i + 1).messages[es[i].id];
            && m.sender == es[i].sender && m.receiver == es[i].receiver && m.timestamp == es[i].timestamp
            && m.ciphertext == es[i].ciphertext && m.nonce == es[i].nonce
            && (Stored(After(es, j), m) <==> !RetiredBetween(es, i + 1, j, m))
  {
    StoredFrom(es, i + 1, j, After(es, i + 1).messages[es[i].id]);
  }

  predicate Causes(e: Event, fate: Fate, m: Message) {
    match fate
    case Acked(who) => e == Ack(who, m.id) || e == LateAck(who, m.id)
    case Deleted(who) => e == Delete(who, m.id)
    case Purged(cutoff) => e.Purge? && e.now - STALE_AFTER == cutoff
  }

  lemma PurgedFates(st: State, cutoff: int)
    requires Accounted(st)
    ensures forall n | n in st.fates :: n in Purged'(st, cutoff).fates && Purged'(st, cutoff).fates[n] == st.fates[n]
    ensures forall n | n in Purged'(st, cutoff).fates && n !in st.fates ::
      n < |st.sends| && Purged'(st, cutoff).fates[n] == Purged(cutoff)
  {
    forall n | n in PurgedSends(st, cutoff)
      ensures n < |st.sends| && n !in st.fates
    {
      var id :| id in StaleIds(st.messages, cutoff) && st.messages[id].send == n;
      assert Stored(st, st.sends[n]);
    }
  }

  /** One step forgets no send, changes no fate, and gives a new fate only for its own reason. */
  lemma StepFates(st: State, e: Event)
    requires Accounted(st)
    ensures st.sends <= Step(st, e).sends
    ensures forall n | n in st.fates :: n in Step(st, e).fates && Step(st, e).fates[n] == st.fates[n]
    ensures forall n | n in Step(st, e).fates && n !in st.fates ::
      n < |st.sends| && Causes(e, Step(st, e).fates[n], st.sends[n])
  {
    if e.Purge? {
      PurgedFates(st, e.now - STALE_AFTER);
      hide PurgedSends;
    }
  }

  /** A fate is final: nothing changes it, and sends are never forgotten. */
  lemma {:induction false} FateFinal(es: seq<Event>, i: nat, j: nat)
    requires i <= j <= |es|
    ensures After(es, i).sends <= After(es, j).sends
    ensures forall n | n in After(es, i).fates ::
      n in After(es, j).fates && After(es, j).fates[n] == After(es, i).fates[n]
  {
    hide Step;
    if i < j {
      FateFinal(es, i, j - 1);
      EverySendAccounted(es, j - 1);
      StepFates(After(es, j - 1), es[j - 1]);
    }
  }

  /** Event `i` brought about the fate that message `n` has in `st`. */
  predicate CausedBy(es: seq<Event>, i: int, st: State, n: nat) {
    0 <= i < |es| && n in st.fates && n < |st.sends| && Causes(es[i], st.fates[n], st.sends[n])
  }

  /** Every fate was brought about by an event of the right kind, by the right user, on the
      id of that message. */
  lemma {:induction false} FateHasCause(es: seq<Event>, j: nat, n: nat)
    requires j <= |es| && n in After(es, j).fates
    ensures exists i :: i < j && CausedBy(es, i, After(es, j), n)
  {
    hide Step;
    if j > 0 {
      var st, st' := After(es, j - 1), After(es, j);
      EverySendAccounted(es, j - 1);
      StepFates(st, es[j - 1]);
      if n in st.fates {
        FateHasCause(es, j - 1, n);
        var i :| i < j - 1 && CausedBy(es, i, st, n);
        assert CausedBy(es, i, st', n);
      } else {
        assert CausedBy(es, j - 1, st', n);
      }
    }
  }

  // ---- The fate of a pending event ----

  predicate EnqueuedBefore(es: seq<Event>, j: nat, id: string) {
    exists k :: 0 <= k < j && k < |es| && es[k].Enqueue? && es[k].id == id
  }

  lemma StepNotQueued(st: State, e: Event, id: string)
    requires id !in st.pending && id !in st.handed && !(e.Enqueue? && e.id == id)
    ensures id !in Step(st, e).pending && id !in Step(st, e).handed
  {
  }

  lemma {:induction false} NotYetQueued(es: seq<Event>, j: nat, id: string)
    requires j <= |es| && !EnqueuedBefore(es, j, id)
    ensures id !in After(es, j).pending && id !in After(es, j).handed
  {
    hide Step;
    if j > 0 {
      NotYetQueued(es, j - 1, id);
      StepNotQueued(After(es, j - 1), es[j - 1], id);
    }
  }

  /** The event hands what waits for the user to a socket. */
  predicate Hands(e: Event, user: string) {
    e == Drain(user) || e == Collect(user)
  }

  /** The event deletes what waits for the user. */
  predicate Clears(e: Event, user: string) {
    e == Drain(user) || e == Clear(user)
  }

  predicate ClearedBetween(es: seq<Event>, i: nat, j: nat, user: string) {
    exists d :: i < d < j && d < |es| && Clears(es[d], user)
  }

  /** Some event hands it over before it is deleted. */
  predicate HandedBetween(es: seq<Event>, i: nat, j: nat, user: string) {
    exists d :: i < d < j && d < |es| && Hands(es[d], user) && !ClearedBetween(es, i, d, user)
  }

  predicate IsQueued(st: State, id: string, event: Pending) {
    id in st.pending && st.pending[id] == event
  }

  predicate IsHanded(st: State, id: string, event: Pending) {
    id in st.handed && st.handed[id] == event
  }

  lemma StepQueued(st: State, e: Event, id: string, event: Pending)
    requires !(e.Enqueue? && e.id == id)
    requires (id in st.pending ==> st.pending[id] == event) && (id in st.handed ==> st.handed[id] == event)
    ensures id in Step(st, e).pending ==> Step(st, e).pending[id] == event
    ensures id in Step(st, e).handed ==> Step(st, e).handed[id] == event
    ensures id in Step(st, e).pending <==> id in st.pending && !Clears(e, event.user)
    ensures id in Step(st, e).handed <==> id in st.handed || (id in st.pending && Hands(e, event.user))
  {
  }

  /** The main result on pending events, in every run: an event queued under a fresh id waits,
      unchanged, exactly until the first deletion for its user, and has been handed over, unchanged,
      exactly if a socket of its user was sent the waiting events before that. */
  lemma {:induction false} QueuedExactly(es: seq<Event>, i: nat, j: nat)
    requires i < j <= |es| && es[i].Enqueue?
    requires forall k | 0 <= k < j && k != i && es[k].Enqueue? :: es[k].id != es[i].id
    ensures var Enqueue(id, event) := es[i];
            && (id in After(es, j).pending <==> !ClearedBetween(es, i, j, event.user))
            && (id in After(es, j).handed <==> HandedBetween(es, i, j, event.user))
            && (id in After(es, j).pending ==> After(es, j).pending[id] == event)
            && (id in After(es, j).handed ==> After(es, j).handed[id] == event)
  {
    var Enqueue(id, event) := es[i];
    if j == i + 1 {
      NotYetQueued(es, i, id);
    } else {
      hide Step, Hands, Clears;
      var p := j - 1;
      QueuedExactly(es, i, p);
      StepQueued(After(es, p), es[p], id, event);
      assert ClearedBetween(es, i, j, event.user) <==>
             ClearedBetween(es, i, p, event.user) || Clears(es[p], event.user);
      assert HandedBetween(es, i, j, event.user) <==>
             HandedBetween(es, i, p, event.user)
             || (Hands(es[p], event.user) && !ClearedBetween(es, i, p, event.user));
    }
  }

  lemma {:induction false} FirstClear(es: seq<Event>, i: nat, j: nat, user: string)
    requires j <= |es| && ClearedBetween(es, i, j, user)
    requires forall k | 0 <= k < |es| :: !es[k].Collect? && !es[k].Clear?
    ensures HandedBetween(es, i, j, user)
  {
    var d :| i < d < j && Clears(es[d], user);
    if ClearedBetween(es, i, d, user) {
      FirstClear(es, i, d, user);
    } else {
      assert Hands(es[d], user);
    }
  }

  /** In particular, when every drain is one step, it is handed over at the first connection. */
  lemma {:induction false} QueuedThenHanded(es: seq<Event>, i: nat, j: nat)
    requires i < j <= |es| && es[i].Enqueue?
    requires forall k | 0 <= k < j && k != i && es[k].Enqueue? :: es[k].id != es[i].id
    requires forall k | 0 <= k < |es| :: !es[k].Collect? && !es[k].Clear?
    ensures var Enqueue(id, event) := es[i];
            if ClearedBetween(es, i, j, event.user)
            then IsHanded(After(es, j), id, event) && id !in After(es, j).pending
            else IsQueued(After(es, j), id, event) && id !in After(es, j).handed
  {
    var user := es[i].event.user;
    QueuedExactly(es, i, j);
    hide Step, After;
    if ClearedBetween(es, i, j, user) {
      FirstClear(es, i, j, user);
    }
  }

  /** An event that is queued between the two halves of a drain is deleted without having been
      handed to anybody. */
  lemma QueuedDuringDrain(first: Pending, second: Pending)
    requires first.user == second.user
    ensures var es := [Enqueue("a", first), Collect(first.user), Enqueue("b", second), Clear(first.user)];
            "a" in After(es, 4).handed && "b" !in After(es, 4).handed && "b" !in After(es, 4).pending
  {
    var es := [Enqueue("a", first), Collect(first.user), Enqueue("b", second), Clear(first.user)];
    QueuedExactly(es, 0, 4);
    QueuedExactly(es, 2, 4);
    assert Clears(es[3], first.user) && Hands(es[1], first.user);
    assert HandedBetween(es, 0, 4, first.user);
    assert ClearedBetween(es, 2, 4, first.user);
  }

  // ---- The handlers ----

  /** What a socket is sent when it connects. */
  datatype Emit = Online(user: string) | Receive(m: Message) | Forwarded(event: Pending)

  datatype SendResult = Sent(timestamp: int) | MissingFields | NotContacts | DbError

  predicate WaitsFor(m: Message, user: string) {
    m.receiver == user && !m.delivered
  }

  function WaitingFor(user: string): Message -> bool {
    (m: Message) => WaitsFor(m, user)
  }

  function QueuedFor(user: string): Pending -> bool {
    (e: Pending) => e.user == user
  }

  const SENT_AT := (m: Message) => m.timestamp

  const QUEUED_AT := (e: Pending) => e.timestamp

  /** The undelivered messages of `user`, each exactly once, by timestamp. */
  ghost predicate Answers(rows: seq<(string, Message)>, messages: map<string, Message>, user: string) {
    Queries.Answers(rows, messages, WaitingFor(user), SENT_AT)
  }

  /** The pending events of `user`, each exactly once, by timestamp. */
  ghost predicate AnswersEvents(events: seq<(string, Pending)>, pending: map<string, Pending>, user: string) {
    Queries.Answers(events, pending, QueuedFor(user), QUEUED_AT)
  }

  /** The same in the terms of the table: exactly the messages to `user` that are not delivered,
      each once, the oldest first. */
  ghost predicate Waiting(rows: seq<(string, Message)>, messages: map<string, Message>, user: string) {
    && (forall id :: id in messages && messages[id].receiver == user && !messages[id].delivered <==>
          exists i :: 0 <= i < |rows| && rows[i].0 == id)
    && (forall i | 0 <= i < |rows| :: rows[i].0 in messages && rows[i].1 == messages[rows[i].0])
    && (forall i, j | 0 <= i < j < |rows| :: rows[i].0 != rows[j].0 && rows[i].1.timestamp <= rows[j].1.timestamp)
  }

  ghost predicate WaitingEvents(events: seq<(string, Pending)>, pending: map<string, Pending>, user: string) {
    && (forall id :: id in pending && pending[id].user == user <==> exists i :: 0 <= i < |events| && events[i].0 == id)
    && (forall i | 0 <= i < |events| :: events[i].0 in pending && events[i].1 == pending[events[i].0])
    && (forall i, j | 0 <= i < j < |events| ::
          events[i].0 != events[j].0 && events[i].1.timestamp <= events[j].1.timestamp)
  }

  lemma AnswersAreWaiting(rows: seq<(string, Message)>, messages: map<string, Message>, user: string)
    requires Answers(rows, messages, user)
    ensures Waiting(rows, messages, user)
  {
    forall id
      ensures id in messages && messages[id].receiver == user && !messages[id].delivered <==>
        exists i :: 0 <= i < |rows| && rows[i].0 == id
    {
      if id in messages && messages[id].receiver == user && !messages[id].delivered {
        assert WaitingFor(user)(messages[id]);
        assert (id, messages[id]) in rows;
      }
    }
    forall i, j | 0 <= i < j < |rows|
      ensures rows[i].1.timestamp <= rows[j].1.timestamp
    {
      assert SENT_AT(rows[i].1) <= SENT_AT(rows[j].1);
    }
  }

  lemma AnswersAreWaitingEvents(events: seq<(string, Pending)>, pending: map<string, Pending>, user: string)
    requires AnswersEvents(events, pending, user)
    ensures WaitingEvents(events, pending, user)
  {
    forall id
      ensures id in pending && pending[id].user == user <==> exists i :: 0 <= i < |events| && events[i].0 == id
    {
      if id in pending && pending[id].user == user {
        assert QueuedFor(user)(pending[id]);
        assert (id, pending[id]) in events;
      }
    }
    forall i, j | 0 <= i < j < |events|
      ensures events[i].1.timestamp <= events[j].1.timestamp
    {
      assert QUEUED_AT(events[i].1) <= QUEUED_AT(events[j].1);
    }
  }

  function OnlineEmits(contacts: seq<string>, apps: set<string>): seq<Emit> {
    if contacts == [] then []
    else OnlineEmits(contacts[..|contacts| - 1], apps)
         + if contacts[|contacts| - 1] in apps then [Online(contacts[|contacts| - 1])] else []
  }

  /** Each contact with an app socket is announced as often as it stands in the list, and nobody
      and nothing else is. */
  lemma {:induction false} OnlineExactly(contacts: seq<string>, apps: set<string>, e: Emit)
    ensures multiset(OnlineEmits(contacts, apps))[e]
            == if e.Online? && e.user in apps then multiset(contacts)[e.user] else 0
  {
    if contacts != [] {
      var init, last := contacts[..|contacts| - 1], contacts[|contacts| - 1];
      OnlineExactly(init, apps, e);
      assert contacts == init + [last];
      assert multiset(contacts) == multiset(init) + multiset{last};
      if last in apps {
        assert multiset(OnlineEmits(contacts, apps)) == multiset(OnlineEmits(init, apps)) + multiset{Online(last)};
      } else {
        assert OnlineEmits(contacts, apps) == OnlineEmits(init, apps);
      }
    }
  }

  function ReceiveEmits(rows: seq<(string, Message)>): seq<Emit> {
    seq(|rows|, i requires 0 <= i < |rows| => Receive(rows[i].1))
  }

  function ForwardedEmits(events: seq<(string, Pending)>): seq<Emit> {
    seq(|events|, i requires 0 <= i < |events| => Forwarded(events[i].1))
  }

  /** Where things stand in what an app socket is sent. */
  lemma InThreeParts(online: seq<Emit>, received: seq<Emit>, forwarded: seq<Emit>)
    ensures var emitted, first := online + received + forwarded, |online|;
      && |emitted| == first + |received| + |forwarded| && emitted[..first] == online
      && emitted[first..first + |received|] == received && emitted[first + |received|..] == forwarded
  {
  }

  class Server {
    /** The files service, if there is one. */
    const files: Files.Service?
    var messages: map<string, Message>
    var pending: map<string, Pending>
    /** Number of successful sends so far. */
    var count: nat
    ghost var sends: seq<Message>
    ghost var fates: map<nat, Fate>
    ghost var handed: map<string, Pending>

    ghost function Abs(): State
      reads this
    {
      State(messages, pending, sends, fates, handed)
    }

    ghost predicate Valid()
      reads this
    {
      Accounted(Abs()) && count == |sends|
    }

    constructor (files: Files.Service?)
      ensures Valid() && Abs() == EMPTY && this.files == files
    {
      this.files := files;
      messages, pending, count := map[], map[], 0;
      sends, fates, handed := [], map[], map[];
    }

    method MessageSend(sender: string, id: string, to: string, ciphertext: string, nonce: string,
                       timestamp: int, isContact: bool, now: int) returns (res: SendResult)
      requires Valid()
      modifies this
      ensures Valid()
      ensures id == "" || to == "" || ciphertext == "" || nonce == "" <==> res == MissingFields
      ensures res == NotContacts ==> !isContact
      ensures res == DbError ==> isContact && id in old(messages)
      ensures res.Sent? ==>
        isContact && id !in old(messages) && res.timestamp == if timestamp == 0 then now else timestamp
      ensures Abs() == if res.Sent? then Step(old(Abs()), Send(sender, id, to, ciphertext, nonce, res.timestamp))
                       else old(Abs())
      ensures res.Sent? ==>
        && messages.Keys == old(messages).Keys + {id} && pending == old(pending)
        && (forall other | other in old(messages) :: messages[other] == old(messages)[other])
        && var m := messages[id];
           && m.id == id && m.sender == sender && m.receiver == to && m.ciphertext == ciphertext && m.nonce == nonce
           && m.timestamp == res.timestamp && !m.delivered
    {
      if id == "" || to == "" || ciphertext == "" || nonce == "" {
        return MissingFields;
      }
      if !isContact {
        return NotContacts;
      }
      var ts := timestamp;
      if ts == 0 {
        ts := now;
      }
      if id in messages {
        return DbError;
      }
      SendAccounted(Abs(), Send(sender, id, to, ciphertext, nonce, ts));
      var m := Message(id, sender, to, ciphertext, nonce, ts, false, count);
      messages := messages[id := m];
      sends := sends + [m];
      count := count + 1;
      return Sent(ts);
    }

    /** The sender is told only of a delivery that took place. */
    method MessageAck(who: string, id: string) returns (told: seq<string>)
      requires Valid()
      modifies this
      ensures Valid()
      ensures Abs() == if id == "" then old(Abs()) else Step(old(Abs()), Ack(who, id))
      ensures told == if id != "" && id in old(messages) && old(messages)[id].receiver == who
                      then [old(messages)[id].sender] else []
      ensures messages == old(messages) - (if told == [] then {} else {id}) && pending == old(pending)
    {
      if id == "" || id !in messages || messages[id].receiver != who {
        return [];
      }
      RemovedAccounted(Abs(), id, Acked(who));
      told := [messages[id].sender];
      fates := fates[messages[id].send := Acked(who)];
      messages := messages - {id};
    }

    /** DELETE FROM messages WHERE id = ... AND sender_id = ... */
    method DeleteOwn(who: string, id: string)
      requires Valid()
      modifies this
      ensures Valid()
      ensures Abs() == Step(old(Abs()), Delete(who, id))
      ensures messages == old(messages) - if id in old(messages) && old(messages)[id].sender == who then {id} else {}
      ensures pending == old(pending)
    {
      if id in messages && messages[id].sender == who {
        RemovedAccounted(Abs(), id, Deleted(who));
        fates := fates[messages[id].send := Deleted(who)];
        messages := messages - {id};
      }
    }

    method InsertPending(eventId: string, event: Pending)
      requires Valid() && eventId !in pending
      modifies this`pending
      ensures Valid()
      ensures Abs() == Step(old(Abs()), Enqueue(eventId, event))
      ensures pending == old(pending)[eventId := event]
    {
      StepAccounted(Abs(), Enqueue(eventId, event));
      pending := pending[eventId := event];
    }

    /** `online` and `hasApp` describe the sockets of `to`. With a service socket only, the
        deletion is neither emitted nor queued. The files that `who` linked to the message go
        with it, whether or not the message was still there. */
    method MessageDelete(who: string, id: string, to: string, online: bool, hasApp: bool,
                         eventId: string, payload: string, now: int) returns (emitted: bool)
      requires Valid() && (hasApp ==> online) && eventId !in pending && (files != null ==> files.Valid())
      modifies this, files
      ensures Valid() && (files != null ==> files.Valid())
      ensures id == "" || to == "" ==> Abs() == old(Abs()) && !emitted
      ensures files != null ==>
        files.rows == if id == "" || to == "" then old(files.rows)
                      else Files.RemoveIds(old(files.rows), Files.LinkedIds(old(files.rows), id, who))
      ensures files != null && id != "" && to != "" ==>
        && (forall r :: r in files.rows <==> r in old(files.rows) && !(r.messageId == Some(id) && r.sender == who))
        && (forall k :: k in files.objects <==>
              k in old(files.objects)
              && forall r | r in old(files.rows) && r.messageId == Some(id) && r.sender == who :: r.objectKey != k)
        && (forall k | k in files.objects :: files.objects[k] == old(files.objects)[k])
      ensures files != null && (id == "" || to == "") ==> files.objects == old(files.objects)
      ensures id != "" && to != "" ==>
        && messages == old(messages) - (if id in old(messages) && old(messages)[id].sender == who then {id} else {})
        && pending.Keys == old(pending).Keys + (if online then {} else {eventId})
        && (forall other | other in old(pending) :: pending[other] == old(pending)[other])
        && (!online ==>
              var e := pending[eventId];
              e.user == to && e.kind == "message:deleted" && e.payload == payload && e.timestamp == now)
      ensures id != "" && to != "" ==>
        && emitted == hasApp
        && (online ==> Abs() == Step(old(Abs()), Delete(who, id)))
        && (!online ==>
             Abs() == Step(Step(old(Abs()), Delete(who, id)),
                           Enqueue(eventId, Pending(to, "message:deleted", payload, now))))
    {
      hide Accounted, Step, Files.RemoveIds, Files.LinkedIds, Files.Unique;
      if id == "" || to == "" {
        return false;
      }
      DeleteOwn(who, id);
      if files != null {
        files.DeleteByMessage(id, who);
      }
      if online {
        return hasApp;
      }
      InsertPending(eventId, Pending(to, "message:deleted", payload, now));
      return false;
    }

    method EmitMessages(rows: seq<(string, Message)>) returns (emitted: seq<Emit>)
      ensures emitted == ReceiveEmits(rows)
      ensures |emitted| == |rows| && forall i | 0 <= i < |rows| :: emitted[i] == Receive(rows[i].1)
    {
      emitted := [];
      for i := 0 to |rows|
        invariant emitted == ReceiveEmits(rows)[..i]
      {
        emitted := emitted + [Receive(rows[i].1)];
      }
    }

    /** A service socket gets the waiting messages, and nothing is used up. */
    method DeliverMessagesToService(user: string) returns (emitted: seq<Emit>, rows: seq<(string, Message)>)
      ensures Answers(rows, messages, user) && emitted == ReceiveEmits(rows)
      ensures Waiting(rows, messages, user)
      ensures |emitted| == |rows| && forall i | 0 <= i < |rows| :: emitted[i] == Receive(rows[i].1)
    {
      rows := Queries.Select(messages, WaitingFor(user), SENT_AT);
      AnswersAreWaiting(rows, messages, user);
      emitted := EmitMessages(rows);
    }

    method EmitOnline(contacts: seq<string>, apps: set<string>) returns (emitted: seq<Emit>)
      ensures emitted == OnlineEmits(contacts, apps)
      ensures forall e :: multiset(emitted)[e] == if e.Online? && e.user in apps then multiset(contacts)[e.user] else 0
    {
      emitted := [];
      for i := 0 to |contacts|
        invariant emitted == OnlineEmits(contacts[..i], apps)
      {
        assert contacts[..i + 1][..i] == contacts[..i];
        if contacts[i] in apps {
          emitted := emitted + [Online(contacts[i])];
        }
      }
      assert contacts[..|contacts|] == contacts;
      forall e
        ensures multiset(emitted)[e] == if e.Online? && e.user in apps then multiset(contacts)[e.user] else 0
      {
        OnlineExactly(contacts, apps, e);
      }
    }

    method DrainEvents(user: string) returns (emitted: seq<Emit>, events: seq<(string, Pending)>)
      requires Valid()
      modifies this
      ensures Valid()
      ensures AnswersEvents(events, old(pending), user) && emitted == ForwardedEmits(events)
      ensures Abs() == Step(old(Abs()), Drain(user)) && messages == old(messages)
      ensures WaitingEvents(events, old(pending), user)
      ensures |emitted| == |events| && forall i | 0 <= i < |events| :: emitted[i] == Forwarded(events[i].1)
      ensures forall id :: id in pending <==> id in old(pending) && old(pending)[id].user != user
      ensures forall id | id in pending :: pending[id] == old(pending)[id]
    {
      StepAccounted(Abs(), Drain(user));
      hide Accounted;
      events := Queries.Select(pending, QueuedFor(user), QUEUED_AT);
      AnswersAreWaitingEvents(events, pending, user);
      hide WaitingEvents, AnswersEvents;
      emitted := [];
      for i := 0 to |events|
        invariant emitted == ForwardedEmits(events)[..i]
      {
        emitted := emitted + [Forwarded(events[i].1)];
      }
      ghost var mine := QueuedBy(pending, user);
      handed := handed + mine;
      if |events| > 0 {
        pending := pending - QueuedBy(pending, user).Keys;
      } else {
        assert pending - mine.Keys == pending;
      }
    }

    /** An app socket learns which contacts are online, then gets exactly the waiting messages
        and exactly the pending events of its user, each once and by timestamp. The messages
        stay as they are; the events are used up. */
    method DeliverPending(user: string, contacts: seq<string>, apps: set<string>)
      returns (emitted: seq<Emit>, rows: seq<(string, Message)>, events: seq<(string, Pending)>)
      requires Valid()
      modifies this
      ensures Valid()
      ensures Answers(rows, old(messages), user) && AnswersEvents(events, old(pending), user)
      ensures emitted == OnlineEmits(contacts, apps) + ReceiveEmits(rows) + ForwardedEmits(events)
      ensures Abs() == Step(old(Abs()), Drain(user)) && messages == old(messages)
      ensures Waiting(rows, messages, user) && WaitingEvents(events, old(pending), user)
      ensures var first := |emitted| - |rows| - |events|;
        && first >= 0
        && (forall i | 0 <= i < |rows| :: emitted[first..first + |rows|][i] == Receive(rows[i].1))
        && (forall i | 0 <= i < |events| :: emitted[first + |rows|..][i] == Forwarded(events[i].1))
        && forall e ::
             multiset(emitted[..first])[e] == if e.Online? && e.user in apps then multiset(contacts)[e.user] else 0
      ensures forall id :: id in pending <==> id in old(pending) && old(pending)[id].user != user
      ensures forall id | id in pending :: pending[id] == old(pending)[id]
    {
      hide Accounted, Step, Answers, AnswersEvents, Waiting, WaitingEvents, OnlineEmits, ReceiveEmits, ForwardedEmits;
      var online := EmitOnline(contacts, apps);
      var received, forwarded;
      received, rows := DeliverMessagesToService(user);
      forwarded, events := DrainEvents(user);
      emitted := online + received + forwarded;
      InThreeParts(online, received, forwarded);
    }
  }
}
