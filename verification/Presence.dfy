/** Who is online: app and service sockets per user, and the debounced broadcasts to the
    user's contacts (internal/socketio/presence.go). */
module Presence {

  /** A broadcast to the contacts of `user`. */
  datatype Update = Update(user: string, online: bool)

  /** The sockets of each connected user with their types, the users whose offline timer
      is armed, and every broadcast so far. */
  datatype State = State(users: map<string, map<string, string>>, timers: set<string>, sent: seq<Update>)

  const EMPTY := State(map[], {}, [])

  datatype Event =
    | Connect(user: string, socket: string, kind: string)
    | Disconnect(user: string, socket: string)
    | TimerFires(user: string)

  function Sockets(users: map<string, map<string, string>>, user: string): map<string, string> {
    if user in users then users[user] else map[]
  }

  predicate AnyApp(sockets: map<string, string>) {
    exists s :: s in sockets && sockets[s] != "service"
  }

  predicate HasApp(st: State, user: string) {
    AnyApp(Sockets(st.users, user))
  }

  function Connected(st: State, user: string, socket: string, kind: string): State {
    var announce := kind != "service" && !HasApp(st, user) && user !in st.timers;
    State(st.users[user := Sockets(st.users, user)[socket := kind]],
          st.timers - {user},
          if announce then st.sent + [Update(user, true)] else st.sent)
  }

  function Disconnected(st: State, user: string, socket: string): State {
    var sockets := Sockets(st.users, user);
    if socket !in sockets then st
    else
      var rest := sockets - {socket};
      if rest == map[] then st.(users := st.users - {user}, timers := st.timers + {user})
      else if sockets[socket] != "service" && !AnyApp(rest)
      then st.(users := st.users[user := rest], timers := st.timers + {user})
      else st.(users := st.users[user := rest])
  }

  /** A timer that was stopped in time does not fire. */
  function Fired(st: State, user: string): State {
    if user !in st.timers then st
    else st.(timers := st.timers - {user},
             sent := if HasApp(st, user) then st.sent else st.sent + [Update(user, false)])
  }

  function Step(st: State, e: Event): State {
    match e
    case Connect(user, socket, kind) => Connected(st, user, socket, kind)
    case Disconnect(user, socket) => Disconnected(st, user, socket)
    case TimerFires(user) => Fired(st, user)
  }

  function After(es: seq<Event>, j: nat): State
    requires j <= |es|
  {
    if j == 0 then EMPTY else Step(After(es, j - 1), es[j - 1])
  }

  // ---- The service ----

  class Tracker {
    var users: map<string, map<string, string>>
    var timers: set<string>
    ghost var sent: seq<Update>

    ghost function Abs(): State
      reads this
    {
      State(users, timers, sent)
    }

    constructor ()
      ensures Abs() == EMPTY
    {
      users, timers, sent := map[], {}, [];
    }

    method HasAppSocketLocked(user: string) returns (found: bool)
      ensures found <==> HasApp(Abs(), user)
      ensures found <==> user in users && exists s :: s in users[user] && users[user][s] != "service"
    {
      if user !in users {
        return false;
      }
      var todo := users[user].Keys;
      while todo != {}
        invariant todo <= users[user].Keys
        invariant forall s | s in users[user].Keys - todo :: users[user][s] == "service"
        decreases todo
      {
        var s :| s in todo;
        if users[user][s] != "service" {
          return true;
        }
        todo := todo - {s};
      }
      return false;
    }

    method AddRaw(user: string, socket: string, kind: string)
      modifies this
      ensures Abs() == Step(old(Abs()), Connect(user, socket, kind))
      ensures user in users && timers == old(timers) - {user}
      ensures users[user] == (if user in old(users) then old(users)[user] else map[])[socket := kind]
      ensures forall u | u != user :: u in users <==> u in old(users)
      ensures forall u | u in users && u != user :: users[u] == old(users)[u]
      ensures sent == old(sent) + if kind != "service" && user !in old(timers)
                                     && (user in old(users) ==> forall s | s in old(users)[user] ::
                                                                  old(users)[user][s] == "service")
                                  then [Update(user, true)] else []
    {
      var cancelledTimer := false;
      if user in timers {
        timers := timers - {user};
        cancelledTimer := true;
      }
      var hadAppSocket := HasAppSocketLocked(user);
      var sockets := map[];
      if user in users {
        sockets := users[user];
      }
      users := users[user := sockets[socket := kind]];
      if kind != "service" && !hadAppSocket && !cancelledTimer {
        sent := sent + [Update(user, true)];
      }
    }

    method RemoveRaw(user: string, socket: string)
      modifies this
      ensures Abs() == Step(old(Abs()), Disconnect(user, socket))
      ensures sent == old(sent)
      ensures user in users ==> user in old(users) && users[user] == old(users)[user] - {socket}
      ensures forall u | u != user :: u in users <==> u in old(users)
      ensures forall u | u in users && u != user :: users[u] == old(users)[u]
      ensures user in old(users) && socket in old(users)[user] ==>
        && (user in users <==> exists s :: s in old(users)[user] && s != socket)
        && timers == old(timers)
                     + if user !in users || (old(users)[user][socket] != "service"
                                             && forall s | s in users[user] :: users[user][s] == "service")
                       then {user} else {}
      ensures !(user in old(users) && socket in old(users)[user]) ==> users == old(users) && timers == old(timers)
    {
      if user !in users || socket !in users[user] {
        return;
      }
      var kind := users[user][socket];
      users := users[user := users[user] - {socket}];
      assert forall s | s in old(users)[user] && s != socket :: s in users[user];
      if users[user] == map[] {
        users := users - {user};
        timers := timers + {user};
        return;
      }
      var hasApp := HasAppSocketLocked(user);
      if kind != "service" && !hasApp {
        timers := timers + {user};
      }
    }

    /** The timer callback; it runs only while its timer is armed. */
    method OfflineTimer(user: string)
      modifies this
      ensures Abs() == Step(old(Abs()), TimerFires(user))
      ensures users == old(users) && timers == old(timers) - {user}
      ensures sent == old(sent) + if user in old(timers)
                                     && (user in users ==> forall s | s in users[user] :: users[user][s] == "service")
                                  then [Update(user, false)] else []
    {
      if user in timers {
        timers := timers - {user};
        var hasApp := HasAppSocketLocked(user);
        if !hasApp {
          sent := sent + [Update(user, false)];
        }
      }
    }

    /** Every socket is counted once, in the column of its type. */
    method GetConnectionCounts() returns (app: nat, service: nat)
      ensures app == |set u, s | u in users && s in users[u] && users[u][s] != "service" :: (u, s)|
      ensures service == |set u, s | u in users && s in users[u] && users[u][s] == "service" :: (u, s)|
    {
      app, service := 0, 0;
      ghost var apps: set<(string, string)>, services: set<(string, string)> := {}, {};
      ghost var allApps := set u, s | u in users && s in users[u] && users[u][s] != "service" :: (u, s);
      ghost var allServices := set u, s | u in users && s in users[u] && users[u][s] == "service" :: (u, s);
      var todo := users.Keys;
      while todo != {}
        invariant todo <= users.Keys && |apps| == app && |services| == service
        invariant forall p :: p in apps <==> p in allApps && p.0 !in todo
        invariant forall p :: p in services <==> p in allServices && p.0 !in todo
        decreases todo
      {
        var u :| u in todo;
        todo := todo - {u};
        var rest := users[u].Keys;
        while rest != {}
          invariant rest <= users[u].Keys && |apps| == app && |services| == service
          invariant forall p :: p in apps <==> p in allApps && p.0 !in todo && (p.0 == u ==> p.1 !in rest)
          invariant forall p :: p in services <==> p in allServices && p.0 !in todo && (p.0 == u ==> p.1 !in rest)
          decreases rest
        {
          var s :| s in rest;
          rest := rest - {s};
          if users[u][s] == "service" {
            services := services + {(u, s)};
            service := service + 1;
          } else {
            apps := apps + {(u, s)};
            app := app + 1;
          }
        }
      }
      assert apps == allApps && services == allServices;
    }
  }

  // ---- Which sockets are open ----

  predicate Open(st: State, user: string, socket: string, kind: string) {
    user in st.users && socket in st.users[user] && st.users[user][socket] == kind
  }

  /** The event is about this socket of this user. */
  predicate About(e: Event, user: string, socket: string) {
    !e.TimerFires? && e.user == user && e.socket == socket
  }

  /** Event `i` is the connect of this socket, and nothing happened to the socket since. */
  predicate StaysConnected(es: seq<Event>, i: int, j: nat, user: string, socket: string, kind: string) {
    && 0 <= i < j <= |es| && es[i] == Connect(user, socket, kind)
    && forall k | i < k < j :: !About(es[k], user, socket)
  }

  lemma StepOpen(st: State, e: Event, user: string, socket: string, kind: string)
    ensures Open(Step(st, e), user, socket, kind) <==>
              e == Connect(user, socket, kind) || (Open(st, user, socket, kind) && !About(e, user, socket))
  {
    if e.Disconnect? && e.user == user && e.socket in Sockets(st.users, user) {
      var rest := Sockets(st.users, user) - {e.socket};
      assert socket in rest <==> socket in Sockets(st.users, user) && socket != e.socket;
    }
  }

  /** In every run a socket is open, with its type, exactly if it connected with that type and has
      neither connected again nor disconnected since. */
  lemma {:induction false} OpenExactly(es: seq<Event>, j: nat, user: string, socket: string, kind: string)
    requires j <= |es|
    ensures Open(After(es, j), user, socket, kind) <==> exists i :: StaysConnected(es, i, j, user, socket, kind)
  {
    if j > 0 {
      var p := j - 1;
      OpenExactly(es, p, user, socket, kind);
      StepOpen(After(es, p), es[p], user, socket, kind);
      hide Step, Open;
      if es[p] == Connect(user, socket, kind) {
        assert StaysConnected(es, p, j, user, socket, kind);
      }
      if i :| StaysConnected(es, i, p, user, socket, kind) && !About(es[p], user, socket) {
        assert StaysConnected(es, i, j, user, socket, kind);
      }
      if i :| StaysConnected(es, i, j, user, socket, kind) && i < p {
        assert StaysConnected(es, i, p, user, socket, kind);
      }
    }
  }

  /** Nobody is kept without a socket. */
  predicate NoneEmpty(st: State) {
    forall u | u in st.users :: st.users[u] != map[]
  }

  lemma StepNoneEmpty(st: State, e: Event)
    requires NoneEmpty(st)
    ensures NoneEmpty(Step(st, e))
  {
    if e.Connect? {
      assert e.socket in Sockets(st.users, e.user)[e.socket := e.kind];
    }
  }

  lemma {:induction false} RunNoneEmpty(es: seq<Event>, j: nat)
    requires j <= |es|
    ensures NoneEmpty(After(es, j))
  {
    if j > 0 {
      RunNoneEmpty(es, j - 1);
      StepNoneEmpty(After(es, j - 1), es[j - 1]);
    }
  }

  /** So in every run a user is reachable exactly while one of their sockets is open. */
  lemma ReachableExactly(es: seq<Event>, j: nat, user: string)
    requires j <= |es|
    ensures user in After(es, j).users <==> exists i, s, k :: StaysConnected(es, i, j, user, s, k)
  {
    var st := After(es, j);
    RunNoneEmpty(es, j);
    if user in st.users {
      var s :| s in st.users[user];
      OpenExactly(es, j, user, s, st.users[user][s]);
    }
    if i, s, k :| StaysConnected(es, i, j, user, s, k) {
      OpenExactly(es, j, user, s, k);
    }
  }

  /** And they have an app socket exactly while a socket of another type than service is open. */
  lemma AppExactly(es: seq<Event>, j: nat, user: string)
    requires j <= |es|
    ensures HasApp(After(es, j), user) <==>
              exists i, s, k :: k != "service" && StaysConnected(es, i, j, user, s, k)
  {
    var st := After(es, j);
    if HasApp(st, user) {
      var s :| s in Sockets(st.users, user) && Sockets(st.users, user)[s] != "service";
      OpenExactly(es, j, user, s, st.users[user][s]);
    }
    if i, s, k :| k != "service" && StaysConnected(es, i, j, user, s, k) {
      OpenExactly(es, j, user, s, k);
      assert Open(st, user, s, k);
      assert s in Sockets(st.users, user);
    }
  }

  // ---- What contacts see ----

  /** The last thing the contacts of `user` were told; nothing yet means offline. */
  function View(sent: seq<Update>, user: string): bool {
    if sent == [] then false
    else if sent[|sent| - 1].user == user then sent[|sent| - 1].online
    else View(sent[..|sent| - 1], user)
  }

  /** Contacts see the user online exactly while an app socket is open or the debounce runs. */
  predicate Accurate(st: State, user: string) {
    View(st.sent, user) <==> HasApp(st, user) || user in st.timers
  }

  /** Holds in every reachable state: no app socket is open while the offline timer is armed. */
  predicate Invariant(st: State) {
    forall u | u in st.timers :: !HasApp(st, u)
  }

  /** The steps that make the contacts' view wrong, as a guard on the state before:
      a service socket connects while the offline timer runs; a service socket takes over
      the id of the only app socket; or the last socket, a service socket, leaves while no
      timer runs. */
  predicate Breaks(st: State, e: Event) {
    match e
    case Connect(user, socket, kind) =>
      kind == "service" &&
      (user in st.timers || (HasApp(st, user) && !AnyApp(Sockets(st.users, user)[socket := kind])))
    case Disconnect(user, socket) =>
      var sockets := Sockets(st.users, user);
      socket in sockets && sockets[socket] == "service" && sockets - {socket} == map[] && user !in st.timers
    case TimerFires(_) => false
  }

  lemma StepInvariant(st: State, e: Event)
    requires Invariant(st)
    ensures Invariant(Step(st, e))
  {
    var st' := Step(st, e);
    forall u | u in st'.timers
      ensures !HasApp(st', u)
    {
      if u != e.user {
        assert Sockets(st'.users, u) == Sockets(st.users, u);
      }
    }
  }

  lemma ViewAppend(sent: seq<Update>, up: Update, user: string)
    ensures View(sent + [up], user) == if up.user == user then up.online else View(sent, user)
  {
    assert (sent + [up])[..|sent|] == sent;
  }

  lemma PutSocket(sockets: map<string, string>, socket: string, kind: string)
    ensures kind != "service" ==> AnyApp(sockets[socket := kind])
    ensures kind == "service" && AnyApp(sockets[socket := kind]) ==> AnyApp(sockets)
  {
    assert sockets[socket := kind][socket] == kind;
  }

  lemma DropSocket(sockets: map<string, string>, socket: string)
    requires socket in sockets
    ensures sockets[socket] == "service" ==> (AnyApp(sockets - {socket}) <==> AnyApp(sockets))
    ensures sockets[socket] != "service" ==> AnyApp(sockets)
    ensures AnyApp(sockets - {socket}) ==> AnyApp(sockets)
  {
    if sockets[socket] == "service" && AnyApp(sockets) {
      var s :| s in sockets && sockets[s] != "service";
      assert s in sockets - {socket};
    }
  }

  lemma ConnectExactly(st: State, user: string, socket: string, kind: string)
    requires Invariant(st) && Accurate(st, user)
    ensures Accurate(Connected(st, user, socket, kind), user) <==> !Breaks(st, Connect(user, socket, kind))
  {
    ViewAppend(st.sent, Update(user, true), user);
    PutSocket(Sockets(st.users, user), socket, kind);
    assert Sockets(Connected(st, user, socket, kind).users, user) == Sockets(st.users, user)[socket := kind];
  }

  lemma DisconnectExactly(st: State, user: string, socket: string)
    requires Invariant(st) && Accurate(st, user)
    ensures Accurate(Disconnected(st, user, socket), user) <==> !Breaks(st, Disconnect(user, socket))
  {
    var sockets := Sockets(st.users, user);
    if socket in sockets {
      DropSocket(sockets, socket);
      assert Sockets(Disconnected(st, user, socket).users, user) == sockets - {socket};
    }
  }

  lemma FireExactly(st: State, user: string)
    requires Invariant(st) && Accurate(st, user)
    ensures Accurate(Fired(st, user), user)
  {
    ViewAppend(st.sent, Update(user, false), user);
  }

  lemma OthersView(st: State, e: Event, user: string)
    requires e.user != user
    ensures Accurate(Step(st, e), user) <==> Accurate(st, user)
  {
    match e
    case Connect(other, socket, kind) =>
      ViewAppend(st.sent, Update(other, true), user);
      assert Sockets(Connected(st, other, socket, kind).users, user) == Sockets(st.users, user);
    case Disconnect(other, socket) =>
      assert Sockets(Disconnected(st, other, socket).users, user) == Sockets(st.users, user);
    case TimerFires(other) => ViewAppend(st.sent, Update(other, false), user);
  }

  /** From a right view a step leads to a right view if and only if it is not one of the
      three; nobody else's view is concerned. */
  lemma StepExactly(st: State, e: Event, user: string)
    requires Invariant(st) && Accurate(st, user)
    ensures Accurate(Step(st, e), user) <==> !(e.user == user && Breaks(st, e))
  {
    if e.user != user {
      OthersView(st, e, user);
    } else {
      match e
      case Connect(_, socket, kind) => ConnectExactly(st, user, socket, kind);
      case Disconnect(_, socket) => DisconnectExactly(st, user, socket);
      case TimerFires(_) => FireExactly(st, user);
    }
  }

  lemma {:induction false} RunInvariant(es: seq<Event>, j: nat)
    requires j <= |es|
    ensures Invariant(After(es, j))
  {
    if j > 0 {
      RunInvariant(es, j - 1);
      StepInvariant(After(es, j - 1), es[j - 1]);
    }
  }

  ghost predicate BreaksBefore(es: seq<Event>, j: nat, user: string)
    requires j <= |es|
  {
    exists i :: 0 <= i < j && es[i].user == user && Breaks(After(es, i), es[i])
  }

  ghost predicate AccurateUpTo(es: seq<Event>, j: nat, user: string)
    requires j <= |es|
  {
    forall i | 0 <= i <= j :: Accurate(After(es, i), user)
  }

  lemma BreaksStep(es: seq<Event>, p: nat, user: string)
    requires p < |es|
    ensures BreaksBefore(es, p + 1, user) <==>
              BreaksBefore(es, p, user) || (es[p].user == user && Breaks(After(es, p), es[p]))
  {
  }

  lemma AccurateStep(es: seq<Event>, p: nat, user: string)
    requires p < |es|
    ensures AccurateUpTo(es, p + 1, user) <==> AccurateUpTo(es, p, user) && Accurate(After(es, p + 1), user)
    ensures AccurateUpTo(es, p, user) ==> Accurate(After(es, p), user)
  {
  }

  /** The main result, for every run: contacts have the right view of a user all along if
      and only if the run makes none of the three breaking steps for that user. */
  lemma {:induction false} AccurateExactly(es: seq<Event>, j: nat, user: string)
    requires j <= |es|
    ensures AccurateUpTo(es, j, user) <==> !BreaksBefore(es, j, user)
  {
    if j > 0 {
      var p := j - 1;
      AccurateExactly(es, p, user);
      BreaksStep(es, p, user);
      AccurateStep(es, p, user);
      RunInvariant(es, p);
      if AccurateUpTo(es, p, user) {
        StepExactly(After(es, p), es[p], user);
      }
    }
  }

  /** Whatever happened before, a broadcast leaves the view of that user right. */
  lemma BroadcastHeals(st: State, e: Event)
    requires Invariant(st) && Step(st, e).sent != st.sent
    ensures Accurate(Step(st, e), e.user)
  {
    ViewAppend(st.sent, Update(e.user, true), e.user);
    ViewAppend(st.sent, Update(e.user, false), e.user);
    if e.Connect? {
      assert Step(st, e).users[e.user][e.socket] == e.kind;
    }
  }

  /** The broadcasts about one user. */
  function Told(sent: seq<Update>, user: string): seq<bool> {
    if sent == [] then []
    else Told(sent[..|sent| - 1], user) + if sent[|sent| - 1].user == user then [sent[|sent| - 1].online] else []
  }

  /** online, offline, online, ... and the last one is the view. */
  ghost predicate Alternates(sent: seq<Update>, user: string) {
    var told := Told(sent, user);
    && (forall i | 0 <= i < |told| :: told[i] == (i % 2 == 0))
    && View(sent, user) == (|told| % 2 == 1)
  }

  /** The two steps that tell contacts what they were told last, as a guard on the state before:
      the first app socket connects, with no timer running, while they see the user online; or
      the timer fires, with no app socket open, while they see the user offline. */
  predicate Repeats(st: State, e: Event) {
    match e
    case Connect(user, _, kind) =>
      kind != "service" && !HasApp(st, user) && user !in st.timers && View(st.sent, user)
    case Disconnect(_, _) => false
    case TimerFires(user) => user in st.timers && !HasApp(st, user) && !View(st.sent, user)
  }

  lemma {:induction false} ViewIsLast(sent: seq<Update>, user: string)
    ensures var told := Told(sent, user); View(sent, user) == (|told| > 0 && told[|told| - 1])
  {
    if sent != [] && sent[|sent| - 1].user != user {
      ViewIsLast(sent[..|sent| - 1], user);
    }
  }

  lemma AlternatesAppend(sent: seq<Update>, up: Update, user: string)
    ensures Alternates(sent + [up], user) <==>
              Alternates(sent, user) && (up.user == user ==> up.online != View(sent, user))
  {
    var before, after := Told(sent, user), Told(sent + [up], user);
    ViewAppend(sent, up, user);
    ViewIsLast(sent, user);
    assert (sent + [up])[..|sent|] == sent;
    if up.user == user {
      assert after == before + [up.online];
      assert after[|before|] == up.online;
      assert forall i | 0 <= i < |before| :: after[i] == before[i];
      assert |before| > 0 && Alternates(sent + [up], user) ==> after[|before| - 1] == ((|before| - 1) % 2 == 0);
    } else {
      assert after == before;
    }
  }

  lemma StepAlternates(st: State, e: Event, user: string)
    ensures Alternates(Step(st, e).sent, user) <==> Alternates(st.sent, user) && !(e.user == user && Repeats(st, e))
  {
    AlternatesAppend(st.sent, Update(e.user, true), user);
    AlternatesAppend(st.sent, Update(e.user, false), user);
  }

  ghost predicate RepeatsBefore(es: seq<Event>, j: nat, user: string)
    requires j <= |es|
  {
    exists i :: 0 <= i < j && es[i].user == user && Repeats(After(es, i), es[i])
  }

  /** In every run the broadcasts about a user strictly alternate, starting with online, if and
      only if the run makes neither of the two steps for that user. */
  lemma {:induction false} AlternatesExactly(es: seq<Event>, j: nat, user: string)
    requires j <= |es|
    ensures Alternates(After(es, j).sent, user) <==> !RepeatsBefore(es, j, user)
  {
    hide Step, Repeats;
    if j > 0 {
      var p := j - 1;
      AlternatesExactly(es, p, user);
      StepAlternates(After(es, p), es[p], user);
      hide Alternates;
      assert RepeatsBefore(es, j, user) <==>
             RepeatsBefore(es, p, user) || (es[p].user == user && Repeats(After(es, p), es[p]));
    }
  }

  /** From a right view no step repeats itself. */
  lemma RightViewNeverRepeats(st: State, e: Event)
    requires Invariant(st) && Accurate(st, e.user)
    ensures !Repeats(st, e)
  {
  }

  /** In particular they alternate in a run without breaking steps. */
  lemma RunAlternates(es: seq<Event>, j: nat, user: string)
    requires j <= |es| && !BreaksBefore(es, j, user)
    ensures Alternates(After(es, j).sent, user)
  {
    AccurateExactly(es, j, user);
    forall i | 0 <= i < j && es[i].user == user
      ensures !Repeats(After(es, i), es[i])
    {
      RunInvariant(es, i);
      RightViewNeverRepeats(After(es, i), es[i]);
    }
    AlternatesExactly(es, j, user);
  }

  // ---- The plain claim fails ----

  /** An app that goes away while a service socket comes up stays online for its contacts,
      with no timer left to correct it. */
  lemma StaysOnline()
    ensures var es := [Connect("u", "a", "app"), Disconnect("u", "a"), Connect("u", "s", "service")];
            var st := After(es, 3);
            View(st.sent, "u") && !HasApp(st, "u") && "u" !in st.timers
  {
    var es := [Connect("u", "a", "app"), Disconnect("u", "a"), Connect("u", "s", "service")];
    assert After(es, 0) == EMPTY;
    var one := After(es, 1);
    assert one == Connected(EMPTY, "u", "a", "app");
    assert Sockets(one.users, "u") == map["a" := "app"];
    assert one.sent == [Update("u", true)];
    var two := After(es, 2);
    assert two == Disconnected(one, "u", "a");
    assert map["a" := "app"] - {"a"} == map[];
    var three := After(es, 3);
    assert three == Connected(two, "u", "s", "service");
    assert Sockets(three.users, "u") == map["s" := "service"];
  }

  /** A user whose only socket, a service socket, left and whose app then connects is never
      announced. */
  lemma NeverAnnounced()
    ensures var es := [Connect("u", "s", "service"), Disconnect("u", "s"), Connect("u", "a", "app")];
            var st := After(es, 3);
            !View(st.sent, "u") && HasApp(st, "u") && "u" !in st.timers
  {
    var es := [Connect("u", "s", "service"), Disconnect("u", "s"), Connect("u", "a", "app")];
    assert After(es, 0) == EMPTY;
    var one := After(es, 1);
    assert one == Connected(EMPTY, "u", "s", "service");
    assert Sockets(one.users, "u") == map["s" := "service"];
    var two := After(es, 2);
    assert two == Disconnected(one, "u", "s");
    assert map["s" := "service"] - {"s"} == map[];
    var three := After(es, 3);
    assert three == Connected(two, "u", "a", "app");
    assert three.users["u"]["a"] == "app";
  }
}
