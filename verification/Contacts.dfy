/** Contact requests and accepted contacts: one row per direction
    (internal/routes/contacts.go), and the queries that rely on them. */
module Contacts {
  import opened Wrappers

  /** Who asked, and who was asked. */
  type Pair = (string, string)

  datatype Status = Pending | Accepted | Blocked

  /** The table, and the additions that have passed their check and are not inserted yet. */
  datatype State = State(rows: map<Pair, Status>, adding: multiset<Pair>)

  const EMPTY := State(map[], multiset{})

  /** `Check` and `Insert` are the two halves of an addition. `Accept` reads the request and
      runs its transaction at once; `Promote` is that transaction alone, at a later time. */
  datatype Event =
    | Check(user: string, target: string)
    | Insert(user: string, target: string)
    | Accept(user: string, from: string)
    | Promote(user: string, from: string)
    | Reject(user: string, from: string)

  predicate IsPending(rows: map<Pair, Status>, a: string, b: string) {
    (a, b) in rows && rows[(a, b)] == Pending
  }

  /** The one-way test that guards messages, files and avatars. */
  predicate IsAccepted(rows: map<Pair, Status>, a: string, b: string) {
    (a, b) in rows && rows[(a, b)] == Accepted
  }

  predicate Related(rows: map<Pair, Status>, a: string, b: string) {
    (a, b) in rows || (b, a) in rows
  }

  function Checked(st: State, user: string, target: string): State {
    if user == target || Related(st.rows, user, target) then st
    else st.(adding := st.adding + multiset{(user, target)})
  }

  function Inserted(st: State, user: string, target: string): State {
    if (user, target) !in st.adding then st
    else State(if (user, target) in st.rows then st.rows else st.rows[(user, target) := Pending],
               st.adding - multiset{(user, target)})
  }

  /** UPDATE the request, then INSERT the opposite row; if the insert fails, neither happens. */
  function Promoted(rows: map<Pair, Status>, user: string, from: string): map<Pair, Status> {
    if (user, from) in rows then rows
    else (if (from, user) in rows then rows[(from, user) := Accepted] else rows)[(user, from) := Accepted]
  }

  function Step(st: State, e: Event): State {
    match e
    case Check(user, target) => Checked(st, user, target)
    case Insert(user, target) => Inserted(st, user, target)
    case Accept(user, from) =>
      if IsPending(st.rows, from, user) then st.(rows := Promoted(st.rows, user, from)) else st
    case Promote(user, from) => st.(rows := Promoted(st.rows, user, from))
    case Reject(user, from) =>
      if IsPending(st.rows, from, user) then st.(rows := st.rows - {(from, user)}) else st
  }

  function After(es: seq<Event>, j: nat): State
    requires j <= |es|
  {
    if j == 0 then EMPTY else Step(After(es, j - 1), es[j - 1])
  }

  // ---- Symmetry ----

  /** No row relates a user to themselves or is blocked, and accepted rows come in pairs. */
  ghost predicate Consistent(rows: map<Pair, Status>) {
    && (forall a, b | (a, b) in rows :: a != b && rows[(a, b)] != Blocked)
    && (forall a, b | (a, b) in rows && rows[(a, b)] == Accepted :: IsAccepted(rows, b, a))
  }

  ghost predicate ProperAdds(st: State) {
    forall a, b | (a, b) in st.adding :: a != b
  }

  /** The step that breaks symmetry, as a guard on the state before: the transaction of an
      accept runs after the request it read is gone. */
  predicate Dangles(st: State, e: Event) {
    e.Promote? && !Related(st.rows, e.user, e.from)
  }

  lemma PromotedExactly(rows: map<Pair, Status>, user: string, from: string)
    requires Consistent(rows)
    ensures Consistent(Promoted(rows, user, from)) <==> Related(rows, user, from)
  {
    var rows' := Promoted(rows, user, from);
    if (user, from) !in rows {
      assert (user, from) in rows' && rows'[(user, from)] == Accepted;
    }
  }

  lemma InsertedConsistent(st: State, user: string, target: string)
    requires Consistent(st.rows) && ProperAdds(st)
    ensures Consistent(Inserted(st, user, target).rows)
  {
    var rows' := Inserted(st, user, target).rows;
    assert forall a, b | (a, b) in rows' && rows'[(a, b)] == Accepted ::
      (a, b) in st.rows && IsAccepted(st.rows, b, a);
  }

  lemma RejectedConsistent(rows: map<Pair, Status>, a: string, b: string)
    requires Consistent(rows) && IsPending(rows, a, b)
    ensures Consistent(rows - {(a, b)})
  {
    var rows' := rows - {(a, b)};
    assert forall c, d | (c, d) in rows' && rows'[(c, d)] == Accepted :: IsAccepted(rows, d, c);
  }

  /** From a consistent table a step leads to a consistent table if and only if it is not
      such a late transaction. */
  lemma StepExactly(st: State, e: Event)
    requires Consistent(st.rows) && ProperAdds(st)
    ensures Consistent(Step(st, e).rows) <==> !Dangles(st, e)
  {
    hide Consistent, Promoted, Inserted, ProperAdds;
    match e
    case Accept(user, from) => if IsPending(st.rows, from, user) { PromotedExactly(st.rows, user, from); }
    case Promote(user, from) => PromotedExactly(st.rows, user, from);
    case Insert(user, target) => InsertedConsistent(st, user, target);
    case Reject(user, from) => if IsPending(st.rows, from, user) { RejectedConsistent(st.rows, from, user); }
    case Check(_, _) =>
  }

  lemma StepProperAdds(st: State, e: Event)
    requires ProperAdds(st)
    ensures ProperAdds(Step(st, e))
  {
  }

  lemma {:induction false} RunProperAdds(es: seq<Event>, j: nat)
    requires j <= |es|
    ensures ProperAdds(After(es, j))
  {
    if j > 0 {
      RunProperAdds(es, j - 1);
      StepProperAdds(After(es, j - 1), es[j - 1]);
    }
  }

  ghost predicate ConsistentUpTo(es: seq<Event>, j: nat)
    requires j <= |es|
  {
    forall i | 0 <= i <= j :: Consistent(After(es, i).rows)
  }

  predicate DanglesBefore(es: seq<Event>, j: nat)
    requires j <= |es|
  {
    exists i :: 0 <= i < j && Dangles(After(es, i), es[i])
  }

  lemma DanglesStep(es: seq<Event>, p: nat)
    requires p < |es|
    ensures DanglesBefore(es, p + 1) <==> DanglesBefore(es, p) || Dangles(After(es, p), es[p])
  {
  }

  lemma ConsistentStep(es: seq<Event>, p: nat)
    requires p < |es|
    ensures ConsistentUpTo(es, p + 1) <==> ConsistentUpTo(es, p) && Consistent(After(es, p + 1).rows)
  {
  }

  /** The main result, for every run, however additions interleave: the table is consistent
      all along if and only if no accept transaction runs after its request is gone. */
  lemma {:induction false} ConsistentExactly(es: seq<Event>, j: nat)
    requires j <= |es|
    ensures ConsistentUpTo(es, j) <==> !DanglesBefore(es, j)
  {
    if j > 0 {
      var p := j - 1;
      ConsistentExactly(es, p);
      RunProperAdds(es, p);
      DanglesStep(es, p);
      ConsistentStep(es, p);
      if ConsistentUpTo(es, p) {
        assert Consistent(After(es, p).rows);
        StepExactly(After(es, p), es[p]);
      }
    }
  }

  /** In particular, when every accept is one step, in every run. */
  lemma AtomicAcceptConsistent(es: seq<Event>, j: nat)
    requires j <= |es| && forall i | 0 <= i < |es| :: !es[i].Promote?
    ensures Consistent(After(es, j).rows)
  {
    ConsistentExactly(es, j);
    assert ConsistentUpTo(es, j);
  }

  lemma StepKeepsAccepted(st: State, e: Event, a: string, b: string)
    requires IsAccepted(st.rows, a, b)
    ensures IsAccepted(Step(st, e).rows, a, b)
  {
  }

  /** Once accepted, accepted for ever, in every run. */
  lemma {:induction false} AcceptedForGood(es: seq<Event>, i: nat, j: nat, a: string, b: string)
    requires i <= j <= |es| && IsAccepted(After(es, i).rows, a, b)
    ensures IsAccepted(After(es, j).rows, a, b)
  {
    hide Step;
    if i < j {
      AcceptedForGood(es, i, j - 1, a, b);
      StepKeepsAccepted(After(es, j - 1), es[j - 1], a, b);
    }
  }

  function Row(st: State, a: string, b: string): Option<Status> {
    if (a, b) in st.rows then Some(st.rows[(a, b)]) else None
  }

  /** What one step does to the row of any pair: only an addition, an accept or a rejection of that
      very pair changes it, and only in these ways. */
  lemma RowExactly(st: State, e: Event, a: string, b: string)
    requires a != b
    ensures Row(Step(st, e), a, b) ==
      if e == Insert(a, b) && (a, b) in st.adding && Row(st, a, b) == None then Some(Pending)
      else if e == Accept(b, a) && Row(st, a, b) == Some(Pending) && Row(st, b, a) == None then Some(Accepted)
      else if e == Accept(a, b) && Row(st, b, a) == Some(Pending) && Row(st, a, b) == None then Some(Accepted)
      else if e == Promote(b, a) && Row(st, b, a) == None && Row(st, a, b) != None then Some(Accepted)
      else if e == Promote(a, b) && Row(st, a, b) == None then Some(Accepted)
      else if e == Reject(b, a) && Row(st, a, b) == Some(Pending) then None
      else Row(st, a, b)
  {
    match e
    case Check(_, _) =>
    case Insert(_, _) =>
    case Accept(_, _) =>
    case Promote(_, _) =>
    case Reject(_, _) =>
  }

  /** And what it does to the additions that are under way. */
  lemma AddingExactly(st: State, e: Event)
    ensures Step(st, e).adding ==
      match e
      case Check(user, target) =>
        st.adding + if user != target && (user, target) !in st.rows && (target, user) !in st.rows
                    then multiset{(user, target)} else multiset{}
      case Insert(user, target) => st.adding - multiset{(user, target)}
      case _ => st.adding
  {
    assert st.adding + multiset{} == st.adding;
  }

  predicate NamesPair(e: Event, a: string, b: string) {
    match e
    case Check(_, _) => false
    case Insert(user, target) => user == a && target == b
    case Accept(user, from) => (user == a && from == b) || (user == b && from == a)
    case Promote(user, from) => (user == a && from == b) || (user == b && from == a)
    case Reject(user, from) => from == a && user == b
  }

  /** So in every run a row stays as it is as long as nobody adds, accepts or rejects that pair. */
  lemma {:induction false} OtherRowsKept(es: seq<Event>, i: nat, j: nat, a: string, b: string)
    requires i <= j <= |es| && a != b && forall k | i <= k < j :: !NamesPair(es[k], a, b)
    ensures Row(After(es, j), a, b) == Row(After(es, i), a, b)
  {
    hide Step;
    if i < j {
      OtherRowsKept(es, i, j - 1, a, b);
      RowExactly(After(es, j - 1), es[j - 1], a, b);
    }
  }

  /** In every state: accepting a pending request does nothing if and only if there is a row in
      the other direction, for then the transaction is rolled back. */
  lemma AcceptVoidExactly(st: State, a: string, b: string)
    requires IsPending(st.rows, a, b)
    ensures Step(st, Accept(b, a)) == st <==> (b, a) in st.rows
  {
    if (b, a) !in st.rows {
      assert Promoted(st.rows, b, a)[(b, a)] == Accepted;
    }
  }

  /** On a consistent table such a row is a crossing request, and neither of the two can be
      accepted until one of them is rejected. */
  lemma CrossingRequests(st: State, a: string, b: string)
    requires Consistent(st.rows) && IsPending(st.rows, a, b)
    ensures Step(st, Accept(b, a)) == st <==> IsPending(st.rows, b, a)
    ensures IsPending(st.rows, b, a) ==>
      var end := Step(Step(st, Reject(a, b)), Accept(b, a)).rows;
      Step(st, Accept(a, b)) == st && IsAccepted(end, a, b) && IsAccepted(end, b, a)
  {
    AcceptVoidExactly(st, a, b);
    var rows' := Promoted(st.rows - {(b, a)}, b, a);
    assert rows'[(b, a)] == Accepted;
  }

  /** A request that is rejected between the read of an accept and its transaction: the UPDATE
      finds no row, the INSERT goes through, and only one direction is accepted. */
  lemma AcceptAfterReject(a: string, b: string)
    requires a != b
    ensures var es := [Check(a, b), Insert(a, b), Reject(b, a), Promote(b, a)];
            var end := After(es, 4).rows;
            && IsPending(After(es, 2).rows, a, b) && Dangles(After(es, 3), es[3])
            && IsAccepted(end, b, a) && !IsAccepted(end, a, b) && !Consistent(end)
  {
    var es := [Check(a, b), Insert(a, b), Reject(b, a), Promote(b, a)];
    assert After(es, 0) == EMPTY;
    assert After(es, 1) == State(map[], multiset{(a, b)});
    assert After(es, 2) == State(map[(a, b) := Pending], multiset{});
    assert After(es, 3) == State(map[], multiset{});
    assert After(es, 4) == State(map[(b, a) := Accepted], multiset{});
    assert IsAccepted(After(es, 4).rows, b, a);
  }

  const STUCK_RUN := [
    Check("a", "b"), Check("a", "b"), Insert("a", "b"), Reject("b", "a"), Promote("b", "a"), Insert("a", "b")]

  lemma StuckStates()
    ensures After(STUCK_RUN, 3) == State(map[("a", "b") := Pending], multiset{("a", "b")})
  {
    assert After(STUCK_RUN, 0) == EMPTY;
    assert After(STUCK_RUN, 1) == State(map[], multiset{("a", "b")});
    assert After(STUCK_RUN, 2) == State(map[], multiset{("a", "b"), ("a", "b")});
  }

  /** After such a transaction a second addition, checked together with the first, leaves a request
      that cannot be accepted although no request crosses it. */
  lemma StuckRequest()
    ensures var st := After(STUCK_RUN, 6);
            IsPending(st.rows, "a", "b") && !IsPending(st.rows, "b", "a") && Step(st, Accept("b", "a")) == st
  {
    StuckStates();
    assert After(STUCK_RUN, 4) == State(map[], multiset{("a", "b")});
    assert After(STUCK_RUN, 5) == State(map[("b", "a") := Accepted], multiset{("a", "b")});
    var st := After(STUCK_RUN, 6);
    assert st == State(map[("b", "a") := Accepted, ("a", "b") := Pending], multiset{});
    hide After, Step;
    AcceptVoidExactly(st, "a", "b");
  }

  function Crossing(a: string, b: string): seq<Event> {
    [Check(a, b), Check(b, a), Insert(a, b), Insert(b, a), Accept(a, b), Accept(b, a), Reject(a, b), Accept(b, a)]
  }

  lemma CrossingChecked(a: string, b: string)
    requires a != b
    ensures After(Crossing(a, b), 2) == State(map[], multiset{(a, b), (b, a)})
  {
    assert After(Crossing(a, b), 0) == EMPTY;
    assert After(Crossing(a, b), 1) == State(map[], multiset{(a, b)});
  }

  lemma CrossingInserted(a: string, b: string)
    requires a != b
    ensures After(Crossing(a, b), 4) == State(map[(a, b) := Pending, (b, a) := Pending], multiset{})
  {
    CrossingChecked(a, b);
    assert After(Crossing(a, b), 3) == State(map[(a, b) := Pending], multiset{(b, a)});
  }

  lemma CrossingSteps(a: string, b: string)
    ensures var es := Crossing(a, b);
            && After(es, 5) == Step(After(es, 4), Accept(a, b)) && After(es, 6) == Step(After(es, 5), Accept(b, a))
            && After(es, 7) == Step(After(es, 6), Reject(a, b)) && After(es, 8) == Step(After(es, 7), Accept(b, a))
  {
    hide Step;
  }

  /** Two users who ask each other at the same time both end up with a pending request; both
      accepts are refused, until one of the two requests is rejected. */
  lemma CrossingRun(a: string, b: string)
    requires a != b
    ensures var es := Crossing(a, b);
            && IsPending(After(es, 4).rows, a, b) && IsPending(After(es, 4).rows, b, a)
            && After(es, 5) == After(es, 4) && After(es, 6) == After(es, 4)
            && IsAccepted(After(es, 8).rows, a, b) && IsAccepted(After(es, 8).rows, b, a)
  {
    var es := Crossing(a, b);
    CrossingInserted(a, b);
    CrossingSteps(a, b);
    var crossed := After(es, 4);
    assert IsPending(crossed.rows, a, b) && IsPending(crossed.rows, b, a) && Consistent(crossed.rows);
    hide After, Step, Consistent;
    CrossingRequests(crossed, a, b);
    CrossingRequests(crossed, b, a);
  }

  // ---- The queries ----

  /** WHERE (user_id = ... OR contact_id = ...) AND status = 'accepted' */
  function TwoWay(rows: map<Pair, Status>, user: string): set<Pair> {
    set p | p in rows && (p.0 == user || p.1 == user) && rows[p] == Accepted
  }

  /** CASE WHEN user_id = ... THEN contact_id ELSE user_id END */
  function Other(p: Pair, user: string): string {
    if p.0 == user then p.1 else p.0
  }

  function Hits(found: set<Pair>, user: string, c: string): set<Pair> {
    set p | p in found && Other(p, user) == c
  }

  ghost predicate Counts(ids: seq<string>, found: set<Pair>, user: string) {
    forall c :: multiset(ids)[c] == |Hits(found, user, c)|
  }

  lemma HitsSize(found: set<Pair>, user: string, p: Pair, c: string)
    requires p !in found
    ensures |Hits(found + {p}, user, c)| == |Hits(found, user, c)| + if Other(p, user) == c then 1 else 0
  {
    if Other(p, user) == c {
      assert Hits(found + {p}, user, c) == Hits(found, user, c) + {p};
    } else {
      assert Hits(found + {p}, user, c) == Hits(found, user, c);
    }
  }

  lemma HitsStep(ids: seq<string>, found: set<Pair>, user: string, p: Pair)
    requires p !in found && Counts(ids, found, user)
    ensures Counts(ids + [Other(p, user)], found + {p}, user)
  {
    var ids' := ids + [Other(p, user)];
    assert multiset(ids') == multiset(ids) + multiset{Other(p, user)};
    forall c
      ensures multiset(ids')[c] == |Hits(found + {p}, user, c)|
    {
      HitsSize(found, user, p, c);
    }
  }

  /** How often the two-way query returns `c`. */
  function Times(rows: map<Pair, Status>, user: string, c: string): nat {
    |Hits(TwoWay(rows, user), user, c)|
  }

  // ---- The contact list ----

  datatype Pointer = Pointer(ciphertext: string, nonce: string)

  /** A row of the list: a contact, and the avatar pointer that contact left for the user. */
  datatype Entry = Entry(id: string, avatar: Option<Pointer>)

  /** The pointer table under its primary key: owner, recipient. */
  type Pointers = map<Pair, Pointer>

  /** The row of the contact table, joined with the other user and that user's pointer. */
  function Joined(p: Pair, pointers: Pointers, user: string): Entry {
    var other := Other(p, user);
    Entry(other, if (other, user) in pointers then Some(pointers[(other, user)]) else None)
  }

  /** How often `c` stands in a list. */
  function Occurrences(list: seq<Entry>, c: string): nat {
    if list == [] then 0
    else Occurrences(list[..|list| - 1], c) + if list[|list| - 1].id == c then 1 else 0
  }

  /** What GROUP BY id, ciphertext, nonce may return: every group once, in any order. */
  ghost predicate Groups(list: seq<Entry>, found: set<Pair>, pointers: Pointers, user: string) {
    && (forall i, j | 0 <= i < j < |list| :: list[i] != list[j])
    && (forall e :: e in list <==> exists p :: p in found && e == Joined(p, pointers, user))
  }

  lemma GroupsStep(list: seq<Entry>, found: set<Pair>, pointers: Pointers, user: string, p: Pair)
    requires Groups(list, found, pointers, user)
    ensures var entry := Joined(p, pointers, user);
            Groups(if entry in list then list else list + [entry], found + {p}, pointers, user)
  {
    var entry := Joined(p, pointers, user);
    var list' := if entry in list then list else list + [entry];
    forall e
      ensures e in list' <==> exists q :: q in found + {p} && e == Joined(q, pointers, user)
    {
      assert e in list' <==> e in list || e == entry;
      if e == entry {
        assert p in found + {p};
      } else if q :| q in found && e == Joined(q, pointers, user) {
        assert q in found + {p};
      }
    }
  }

  lemma {:induction false} NoOccurrence(list: seq<Entry>, c: string)
    ensures Occurrences(list, c) == 0 <==> forall e | e in list :: e.id != c
  {
    if list != [] {
      var init, last := list[..|list| - 1], list[|list| - 1];
      NoOccurrence(init, c);
      assert list == init + [last];
    }
  }

  /** Entries of one id that do not repeat are one entry at most, if the id settles the pointer. */
  lemma {:induction false} OccursOnce(list: seq<Entry>, c: string, one: Entry)
    requires forall i, j | 0 <= i < j < |list| :: list[i] != list[j]
    requires forall e | e in list && e.id == c :: e == one
    ensures Occurrences(list, c) == if exists e :: e in list && e.id == c then 1 else 0
  {
    if list != [] {
      var init, last := list[..|list| - 1], list[|list| - 1];
      OccursOnce(init, c, one);
      NoOccurrence(init, c);
      assert list == init + [last];
      assert last !in init;
      if last.id == c {
        assert forall e | e in init :: e.id != c;
      }
    }
  }

  lemma TwiceEach(rows: map<Pair, Status>, user: string, c: string)
    requires Consistent(rows)
    ensures IsAccepted(rows, user, c) <==> IsAccepted(rows, c, user)
    ensures Times(rows, user, c) == if IsAccepted(rows, user, c) then 2 else 0
    ensures Hits(TwoWay(rows, user), user, c) == if IsAccepted(rows, user, c) then {(user, c), (c, user)} else {}
  {
    var hits := Hits(TwoWay(rows, user), user, c);
    if IsAccepted(rows, user, c) {
      assert (user, c) in TwoWay(rows, user) && (c, user) in TwoWay(rows, user);
      assert Other((user, c), user) == c && Other((c, user), user) == c;
      assert hits == {(user, c), (c, user)};
    } else {
      forall p | p in TwoWay(rows, user)
        ensures Other(p, user) != c
      {
        assert p == (p.0, p.1);
        assert IsAccepted(rows, p.0, p.1) && IsAccepted(rows, p.1, p.0);
      }
      assert hits == {};
    }
  }

  /** On a consistent table the one-way test does not depend on the direction, the two-way query
      returns each of those who pass it exactly twice and nobody else, and the grouped list has
      each of them exactly once, with the pointer they left for the user, and nobody else. */
  lemma QueriesAgree(rows: map<Pair, Status>, pointers: Pointers, user: string, list: seq<Entry>, c: string)
    requires Consistent(rows) && Groups(list, TwoWay(rows, user), pointers, user)
    ensures IsAccepted(rows, user, c) <==> IsAccepted(rows, c, user)
    ensures Times(rows, user, c) == if IsAccepted(rows, user, c) then 2 else 0
    ensures Occurrences(list, c) == if IsAccepted(rows, user, c) then 1 else 0
    ensures IsAccepted(rows, user, c) ==>
      Entry(c, if (c, user) in pointers then Some(pointers[(c, user)]) else None) in list
  {
    TwiceEach(rows, user, c);
    var one := Joined((user, c), pointers, user);
    forall e | e in list && e.id == c
      ensures e == one && IsAccepted(rows, user, c)
    {
      var p :| p in TwoWay(rows, user) && e == Joined(p, pointers, user);
      assert p in Hits(TwoWay(rows, user), user, c);
    }
    OccursOnce(list, c, one);
    if IsAccepted(rows, user, c) {
      assert (user, c) in TwoWay(rows, user);
      assert one in list;
    }
  }

  /** So in every run with atomic accepts, in every reachable state. */
  lemma QueriesAgreeAlways(es: seq<Event>, j: nat, pointers: Pointers, user: string, list: seq<Entry>, c: string)
    requires j <= |es| && forall i | 0 <= i < |es| :: !es[i].Promote?
    requires Groups(list, TwoWay(After(es, j).rows, user), pointers, user)
    ensures var rows := After(es, j).rows;
            && (IsAccepted(rows, user, c) <==> IsAccepted(rows, c, user))
            && Times(rows, user, c) == (if IsAccepted(rows, user, c) then 2 else 0)
            && Occurrences(list, c) == if IsAccepted(rows, user, c) then 1 else 0
  {
    AtomicAcceptConsistent(es, j);
    QueriesAgree(After(es, j).rows, pointers, user, list, c);
  }

  // ---- The handlers ----

  datatype Reply = Done | BadRequest | NotFound | Conflict | DbError

  class Book {
    var rows: map<Pair, Status>
    var pointers: Pointers

    constructor ()
      ensures rows == map[] && pointers == map[]
    {
      rows, pointers := map[], map[];
    }

    /** `target` is the owner of the contact code, if any. */
    method AddContact(user: string, target: Option<string>) returns (reply: Reply)
      modifies this`rows
      ensures reply == Done <==> target.Some? && target.value != user && !Related(old(rows), user, target.value)
      ensures reply == NotFound <==> target.None?
      ensures reply == BadRequest <==> target == Some(user)
      ensures reply in {Done, NotFound, BadRequest, Conflict}
      ensures reply == Done <==> target.Some? && target.value != user
                                 && (user, target.value) !in old(rows) && (target.value, user) !in old(rows)
      ensures rows == if reply == Done then old(rows)[(user, target.value) := Pending] else old(rows)
      ensures target.Some? ==>
        var st := Step(State(old(rows), multiset{}), Check(user, target.value));
        rows == Step(st, Insert(user, target.value)).rows
    {
      if target.None? {
        return NotFound;
      }
      if target.value == user {
        return BadRequest;
      }
      if (user, target.value) in rows || (target.value, user) in rows {
        return Conflict;
      }
      rows := rows[(user, target.value) := Pending];
      return Done;
    }

    method AcceptContact(user: string, from: string) returns (reply: Reply)
      modifies this`rows
      ensures from == "" <==> reply == BadRequest
      ensures reply == NotFound <==> from != "" && !IsPending(old(rows), from, user)
      ensures reply == DbError <==> from != "" && IsPending(old(rows), from, user) && (user, from) in old(rows)
      ensures reply == Done <==>
        from != "" && (from, user) in old(rows) && old(rows)[(from, user)] == Pending && (user, from) !in old(rows)
      ensures reply == Done ==> rows == old(rows)[(from, user) := Accepted][(user, from) := Accepted]
      ensures reply != Done ==> rows == old(rows)
      ensures rows == if from == "" then old(rows) else Step(State(old(rows), multiset{}), Accept(user, from)).rows
    {
      if from == "" {
        return BadRequest;
      }
      if (from, user) !in rows || rows[(from, user)] != Pending {
        return NotFound;
      }
      var tx := rows[(from, user) := Accepted];
      if (user, from) in tx {
        return DbError;
      }
      rows := tx[(user, from) := Accepted];
      return Done;
    }

    method RejectContact(user: string, from: string) returns (reply: Reply)
      modifies this`rows
      ensures reply == if from == "" then BadRequest else Done
      ensures rows == old(rows)
                      - if from != "" && (from, user) in old(rows) && old(rows)[(from, user)] == Pending
                        then {(from, user)} else {}
      ensures rows == if from == "" then old(rows) else Step(State(old(rows), multiset{}), Reject(user, from)).rows
    {
      if from == "" {
        return BadRequest;
      }
      if (from, user) in rows && rows[(from, user)] == Pending {
        rows := rows - {(from, user)};
      }
      return Done;
    }

    /** The ids in the rows that name the user on either side. */
    method AcceptedContactIds(user: string) returns (ids: seq<string>)
      ensures forall c :: multiset(ids)[c] == Times(rows, user, c)
    {
      ids := [];
      var todo := TwoWay(rows, user);
      ghost var done: set<Pair> := {};
      while todo != {}
        invariant todo !! done && todo + done == TwoWay(rows, user)
        invariant Counts(ids, done, user)
        decreases todo
      {
        var p :| p in todo;
        HitsStep(ids, done, user, p);
        ids := ids + [Other(p, user)];
        todo := todo - {p};
        done := done + {p};
      }
      assert done == TwoWay(rows, user);
    }

    /** The handler of profile:avatar keeps the latest pointer that `owner` left for a contact. */
    method RetainPointer(owner: string, recipient: string, pointer: Pointer)
      modifies this`pointers
      ensures recipient == "" || pointer.ciphertext == "" || pointer.nonce == "" || !IsAccepted(rows, owner, recipient)
              ==> pointers == old(pointers)
      ensures recipient != "" && pointer.ciphertext != "" && pointer.nonce != "" && IsAccepted(rows, owner, recipient)
              ==> pointers == old(pointers)[(owner, recipient) := pointer]
    {
      if recipient == "" || pointer.ciphertext == "" || pointer.nonce == "" {
        return;
      }
      if (owner, recipient) !in rows || rows[(owner, recipient)] != Accepted {
        return;
      }
      pointers := pointers[(owner, recipient) := pointer];
    }

    /** The two-way query joined with the pointers and grouped; a group that is there already
        takes no further row. */
    method ListContacts(user: string) returns (list: seq<Entry>)
      ensures Groups(list, TwoWay(rows, user), pointers, user)
      ensures Consistent(rows) ==>
        forall c :: Occurrences(list, c) == if IsAccepted(rows, user, c) then 1 else 0
    {
      list := [];
      var todo := TwoWay(rows, user);
      ghost var done: set<Pair> := {};
      while todo != {}
        invariant todo !! done && todo + done == TwoWay(rows, user)
        invariant Groups(list, done, pointers, user)
        decreases todo
      {
        var p :| p in todo;
        var entry := Joined(p, pointers, user);
        GroupsStep(list, done, pointers, user, p);
        if entry !in list {
          list := list + [entry];
        }
        todo := todo - {p};
        done := done + {p};
      }
      assert done == TwoWay(rows, user);
      if Consistent(rows) {
        forall c
          ensures Occurrences(list, c) == if IsAccepted(rows, user, c) then 1 else 0
        {
          QueriesAgree(rows, pointers, user, list, c);
        }
      }
    }
  }
}
