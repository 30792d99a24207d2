/** Calls in progress: three maps with one key per pair of users, filled by offers and
    answers and emptied by hangup, reject and disconnect cleanup
    (internal/socketio/signaling.go). */
module CallTracking {
  import opened CallKeys

  /** A forwarded offer on record; `offer` numbers the forwarded offers of the run and
      stands for the identity of the record. */
  datatype Timing = Timing(caller: string, callee: string, callType: string, answered: bool, offer: nat)

  datatype Bucket = Bucket(host: nat, srflx: nat, relay: nat, prflx: nat)

  datatype IceCounts = IceCounts(caller: Bucket, callee: Bucket)

  const NO_ICE := IceCounts(Bucket(0, 0, 0, 0), Bucket(0, 0, 0, 0))

  /** A call:missed event queued for the callee. */
  datatype Missed = Missed(from: string, to: string, callType: string)

  /** The three maps, followed by the history of the run: how many offers were forwarded,
      the records that endCall consumed, the records a later offer replaced, and the
      missed-call events queued by endCall and by the offer handler. */
  datatype State = State(
    timings: map<string, Timing>,
    active: set<string>,
    ice: map<string, IceCounts>,
    offers: nat,
    consumed: seq<nat>,
    replaced: seq<nat>,
    missed: seq<Missed>,
    unavailable: seq<Missed>)

  const EMPTY := State(map[], {}, map[], 0, [], [], [], [])

  /** `apps` are the users with an app socket when the call ends. Cleanup after a
      disconnect is a `Snapshot` and, later, one `End` for every key it found. */
  datatype Event =
    | Unavailable(from: string, to: string, callType: string)
    | Offer(from: string, to: string, callType: string)
    | Answer(who: string, to: string)
    | Ice(who: string, to: string, candidate: string)
    | End(key: string, reason: string, apps: set<string>)
    | Snapshot(user: string)

  function Offered(st: State, from: string, to: string, callType: string): State {
    var k := CallKey(from, to);
    st.(timings := st.timings[k := Timing(from, to, callType, false, st.offers)],
        ice := st.ice[k := NO_ICE],
        offers := st.offers + 1,
        replaced := if k in st.timings then st.replaced + [st.timings[k].offer] else st.replaced)
  }

  function Answered(st: State, who: string, to: string): State {
    var k := CallKey(who, to);
    st.(timings := if k in st.timings then st.timings[k := st.timings[k].(answered := true)] else st.timings,
        active := st.active + {k})
  }

  function Bump(b: Bucket, candidate: string): Bucket {
    if candidate == "host" then b.(host := b.host + 1)
    else if candidate == "srflx" then b.(srflx := b.srflx + 1)
    else if candidate == "relay" then b.(relay := b.relay + 1)
    else if candidate == "prflx" then b.(prflx := b.prflx + 1)
    else b
  }

  function Counted(st: State, who: string, to: string, candidate: string): State {
    var k := CallKey(who, to);
    if k !in st.ice then st
    else if k in st.timings && st.timings[k].caller == who
    then st.(ice := st.ice[k := st.ice[k].(caller := Bump(st.ice[k].caller, candidate))])
    else st.(ice := st.ice[k := st.ice[k].(callee := Bump(st.ice[k].callee, candidate))])
  }

  predicate Misses(st: State, key: string, reason: string, apps: set<string>) {
    key in st.timings && key !in st.active && reason != "reject" && st.timings[key].callee !in apps
  }

  function Ended(st: State, key: string, reason: string, apps: set<string>): State {
    st.(timings := st.timings - {key},
        active := st.active - {key},
        ice := st.ice - {key},
        consumed := if key in st.timings then st.consumed + [st.timings[key].offer] else st.consumed,
        missed := if Misses(st, key, reason, apps)
                  then st.missed + [Missed(st.timings[key].caller, st.timings[key].callee, st.timings[key].callType)]
                  else st.missed)
  }

  function Step(st: State, e: Event): State {
    match e
    case Unavailable(from, to, callType) => st.(unavailable := st.unavailable + [Missed(from, to, callType)])
    case Offer(from, to, callType) => Offered(st, from, to, callType)
    case Answer(who, to) => Answered(st, who, to)
    case Ice(who, to, candidate) => Counted(st, who, to, candidate)
    case End(key, reason, apps) => Ended(st, key, reason, apps)
    case Snapshot(_) => st
  }

  function After(es: seq<Event>, j: nat): State
    requires j <= |es|
  {
    if j == 0 then EMPTY else Step(After(es, j - 1), es[j - 1])
  }

  /** The keys that cleanup for `user` takes down. */
  function Selected(timings: map<string, Timing>, user: string): set<string> {
    set k | k in timings && Contains(k, user)
  }

  function EndedAll(st: State, keys: seq<string>, apps: set<string>): State {
    if keys == [] then st
    else Ended(EndedAll(st, keys[..|keys| - 1], apps), keys[|keys| - 1], "disconnect", apps)
  }

  function Elements(keys: seq<string>): set<string> {
    set k | k in keys
  }

  /** The keys of the calls that nobody answered and whose callee has no app socket. */
  function DueKeys(st: State, keys: seq<string>, apps: set<string>): seq<string> {
    if keys == [] then []
    else
      var k := keys[|keys| - 1];
      DueKeys(st, keys[..|keys| - 1], apps)
      + if k in st.timings && k !in st.active && st.timings[k].callee !in apps then [k] else []
  }

  function MissedFor(timings: map<string, Timing>, keys: seq<string>): seq<Missed>
    requires forall k | k in keys :: k in timings
  {
    seq(|keys|, i requires 0 <= i < |keys| =>
      Missed(timings[keys[i]].caller, timings[keys[i]].callee, timings[keys[i]].callType))
  }

  function OffersFor(timings: map<string, Timing>, keys: seq<string>): seq<nat>
    requires forall k | k in keys :: k in timings
  {
    seq(|keys|, i requires 0 <= i < |keys| => timings[keys[i]].offer)
  }

  predicate Apart(keys: seq<string>) {
    forall i, j | 0 <= i < j < |keys| :: keys[i] != keys[j]
  }

  lemma {:induction false} DueExactly(st: State, keys: seq<string>, apps: set<string>)
    requires Apart(keys)
    ensures Apart(DueKeys(st, keys, apps))
    ensures forall k :: k in DueKeys(st, keys, apps) <==>
      k in keys && k in st.timings && k !in st.active && st.timings[k].callee !in apps
  {
    if keys != [] {
      var init, last := keys[..|keys| - 1], keys[|keys| - 1];
      DueExactly(st, init, apps);
      assert keys == init + [last] && last !in init;
    }
  }

  /** What ending these calls leaves in the maps: nothing under their keys, everything else. */
  lemma {:induction false} EndedAllMaps(st: State, keys: seq<string>, apps: set<string>)
    ensures var st', ks := EndedAll(st, keys, apps), Elements(keys);
            st'.timings == st.timings - ks && st'.active == st.active - ks && st'.ice == st.ice - ks
            && st'.offers == st.offers && st'.replaced == st.replaced && st'.unavailable == st.unavailable
  {
    if keys != [] {
      var init, last := keys[..|keys| - 1], keys[|keys| - 1];
      EndedAllMaps(st, init, apps);
      assert keys == init + [last];
      assert Elements(keys) == Elements(init) + {last};
    } else {
      assert Elements(keys) == {};
    }
  }

  lemma ForAppend(timings: map<string, Timing>, keys: seq<string>, k: string)
    requires k in timings && forall key | key in keys :: key in timings
    ensures OffersFor(timings, keys + [k]) == OffersFor(timings, keys) + [timings[k].offer]
    ensures MissedFor(timings, keys + [k])
            == MissedFor(timings, keys) + [Missed(timings[k].caller, timings[k].callee, timings[k].callType)]
  {
  }

  /** And what it adds to the history: each record once, ... */
  lemma {:induction false} EndedAllConsumed(st: State, keys: seq<string>, apps: set<string>)
    requires Apart(keys) && forall k | k in keys :: k in st.timings
    ensures EndedAll(st, keys, apps).consumed == st.consumed + OffersFor(st.timings, keys)
  {
    if keys != [] {
      var init, last := keys[..|keys| - 1], keys[|keys| - 1];
      assert keys == init + [last] && last !in init;
      EndedAllConsumed(st, init, apps);
      EndedAllMaps(st, init, apps);
      ForAppend(st.timings, init, last);
      assert last in EndedAll(st, init, apps).timings;
      hide OffersFor;
    }
  }

  /** ... and the missed calls that are due. */
  lemma {:induction false} EndedAllMissed(st: State, keys: seq<string>, apps: set<string>)
    requires Apart(keys) && forall k | k in keys :: k in st.timings
    ensures forall k | k in DueKeys(st, keys, apps) :: k in st.timings
    ensures EndedAll(st, keys, apps).missed == st.missed + MissedFor(st.timings, DueKeys(st, keys, apps))
  {
    DueExactly(st, keys, apps);
    if keys != [] {
      var init, last := keys[..|keys| - 1], keys[|keys| - 1];
      assert keys == init + [last] && last !in init;
      EndedAllMissed(st, init, apps);
      EndedAllMaps(st, init, apps);
      ForAppend(st.timings, DueKeys(st, init, apps), last);
      assert last in EndedAll(st, init, apps).timings;
      hide MissedFor, Apart;
    }
  }

  // ---- The handlers ----

  class Tracker {
    var callTimings: map<string, Timing>
    var activeCalls: set<string>
    var callIceCount: map<string, IceCounts>
    var pendingEvents: seq<Missed>
    var offers: nat
    ghost var consumed: seq<nat>
    ghost var replaced: seq<nat>
    ghost var missed: seq<Missed>
    ghost var unavailable: seq<Missed>

    ghost function Abs(): State
      reads this
    {
      State(callTimings, activeCalls, callIceCount, offers, consumed, replaced, missed, unavailable)
    }

    constructor ()
      ensures Abs() == EMPTY && pendingEvents == []
    {
      callTimings, activeCalls, callIceCount, pendingEvents := map[], {}, map[], [];
      offers, consumed, replaced, missed, unavailable := 0, [], [], [], [];
    }

    /** `reachable` says whether the callee has a socket, at once or after being woken. */
    method CallOffer(from: string, to: string, sdp: string, callType: string, reachable: bool)
      modifies this
      ensures to == "" || sdp == "" ==> Abs() == old(Abs()) && pendingEvents == old(pendingEvents)
      ensures to != "" && sdp != "" ==>
        var kind := if callType == "" then "voice" else callType;
        if reachable then Abs() == Step(old(Abs()), Offer(from, to, kind)) && pendingEvents == old(pendingEvents)
        else
          && Abs() == Step(old(Abs()), Unavailable(from, to, kind))
          && pendingEvents == old(pendingEvents) + [Missed(from, to, kind)]
      ensures to != "" && sdp != "" && reachable ==>
        var k := CallKey(from, to);
        && activeCalls == old(activeCalls)
        && callTimings.Keys == old(callTimings).Keys + {k} && callIceCount.Keys == old(callIceCount).Keys + {k}
        && (forall other | other in old(callTimings) && other != k :: callTimings[other] == old(callTimings)[other])
        && (forall other | other in old(callIceCount) && other != k ::
              callIceCount[other] == old(callIceCount)[other])
        && callIceCount[k] == IceCounts(Bucket(0, 0, 0, 0), Bucket(0, 0, 0, 0))
        && callTimings[k].caller == from && callTimings[k].callee == to
        && callTimings[k].callType == (if callType == "" then "voice" else callType)
        && !callTimings[k].answered && callTimings[k].offer == old(offers)
      ensures to != "" && sdp != "" && !reachable ==>
        && callTimings == old(callTimings) && activeCalls == old(activeCalls) && callIceCount == old(callIceCount)
        && |pendingEvents| == |old(pendingEvents)| + 1
        && var m := pendingEvents[|old(pendingEvents)|];
           m.from == from && m.to == to && m.callType == if callType == "" then "voice" else callType
    {
      if to == "" || sdp == "" {
        return;
      }
      var kind := callType;
      if kind == "" {
        kind := "voice";
      }
      if !reachable {
        pendingEvents := pendingEvents + [Missed(from, to, kind)];
        unavailable := unavailable + [Missed(from, to, kind)];
        return;
      }
      var k := CallKey(from, to);
      if k in callTimings {
        replaced := replaced + [callTimings[k].offer];
      }
      callTimings := callTimings[k := Timing(from, to, kind, false, offers)];
      callIceCount := callIceCount[k := NO_ICE];
      offers := offers + 1;
    }

    method CallAnswer(who: string, to: string, sdp: string)
      modifies this
      ensures pendingEvents == old(pendingEvents)
      ensures Abs() == if to == "" || sdp == "" then old(Abs()) else Step(old(Abs()), Answer(who, to))
      ensures to != "" && sdp != "" ==> activeCalls == old(activeCalls) + {CallKey(who, to)}
      ensures callTimings.Keys == old(callTimings).Keys && callIceCount == old(callIceCount)
      ensures forall k | k in callTimings ::
        callTimings[k] == if to != "" && sdp != "" && k == CallKey(who, to)
                          then old(callTimings)[k].(answered := true) else old(callTimings)[k]
    {
      if to == "" || sdp == "" {
        return;
      }
      var k := CallKey(who, to);
      if k in callTimings {
        callTimings := callTimings[k := callTimings[k].(answered := true)];
      }
      activeCalls := activeCalls + {k};
    }

    method CallIce(who: string, to: string, candidate: string)
      modifies this
      ensures pendingEvents == old(pendingEvents)
      ensures Abs() == if to == "" then old(Abs()) else Step(old(Abs()), Ice(who, to, candidate))
      ensures callTimings == old(callTimings) && activeCalls == old(activeCalls)
      ensures callIceCount.Keys == old(callIceCount).Keys
      ensures forall k | k in callIceCount && (to == "" || k != CallKey(who, to)) ::
        callIceCount[k] == old(callIceCount)[k]
      ensures to != "" && CallKey(who, to) in callIceCount ==>
        var k := CallKey(who, to);
        var before, after, byCaller := old(callIceCount)[k], callIceCount[k],
                                       k in callTimings && callTimings[k].caller == who;
        && (if byCaller then after.callee == before.callee else after.caller == before.caller)
        && var b, a := if byCaller then before.caller else before.callee,
                       if byCaller then after.caller else after.callee;
           && a.host == b.host + (if candidate == "host" then 1 else 0)
           && a.srflx == b.srflx + (if candidate == "srflx" then 1 else 0)
           && a.relay == b.relay + (if candidate == "relay" then 1 else 0)
           && a.prflx == b.prflx + if candidate == "prflx" then 1 else 0
    {
      if to == "" {
        return;
      }
      var k := CallKey(who, to);
      var isCaller := k in callTimings && callTimings[k].caller == who;
      if k in callIceCount {
        var ice := callIceCount[k];
        if isCaller {
          callIceCount := callIceCount[k := ice.(caller := Bump(ice.caller, candidate))];
        } else {
          callIceCount := callIceCount[k := ice.(callee := Bump(ice.callee, candidate))];
        }
      }
    }

    method EndCall(key: string, reason: string, apps: set<string>)
      modifies this
      ensures Abs() == Step(old(Abs()), End(key, reason, apps))
      ensures callTimings == old(callTimings) - {key} && activeCalls == old(activeCalls) - {key}
      ensures callIceCount == old(callIceCount) - {key}
      ensures pendingEvents == old(pendingEvents) + missed[|old(missed)|..]
      ensures offers == old(offers) && replaced == old(replaced) && unavailable == old(unavailable)
      ensures consumed == old(consumed) + if key in old(callTimings) then [old(callTimings)[key].offer] else []
      ensures missed == old(missed) +
        if key in old(callTimings) && key !in old(activeCalls) && reason != "reject"
           && old(callTimings)[key].callee !in apps
        then var t := old(callTimings)[key]; [Missed(t.caller, t.callee, t.callType)] else []
    {
      var found, hadAnswer := key in callTimings, key in activeCalls;
      if found {
        var t := callTimings[key];
        consumed := consumed + [t.offer];
        if !hadAnswer && reason != "reject" && t.callee !in apps {
          pendingEvents := pendingEvents + [Missed(t.caller, t.callee, t.callType)];
          missed := missed + [Missed(t.caller, t.callee, t.callType)];
        }
      }
      callTimings := callTimings - {key};
      callIceCount := callIceCount - {key};
      activeCalls := activeCalls - {key};
    }

    method CallHangup(who: string, to: string, apps: set<string>)
      modifies this
      ensures Abs() == if to == "" then old(Abs()) else Step(old(Abs()), End(CallKey(who, to), "hangup", apps))
      ensures to != "" ==>
        var k := CallKey(who, to);
        && k !in callTimings && k !in activeCalls && k !in callIceCount
        && (|missed| > |old(missed)| <==>
              k in old(callTimings) && k !in old(activeCalls) && old(callTimings)[k].callee !in apps)
      ensures pendingEvents == old(pendingEvents) + missed[|old(missed)|..]
    {
      if to != "" {
        EndCall(CallKey(who, to), "hangup", apps);
      }
    }

    method CallReject(who: string, to: string, apps: set<string>)
      modifies this
      ensures Abs() == if to == "" then old(Abs()) else Step(old(Abs()), End(CallKey(who, to), "reject", apps))
      ensures missed == old(missed)
      ensures pendingEvents == old(pendingEvents) + missed[|old(missed)|..]
    {
      if to != "" {
        EndCall(CallKey(who, to), "reject", apps);
      }
    }

    /** The part of cleanup that runs under the lock. */
    method SnapshotKeys(user: string) returns (keys: seq<string>)
      ensures forall k :: k in keys <==> k in Selected(callTimings, user)
      ensures forall i, j | 0 <= i < j < |keys| :: keys[i] != keys[j]
    {
      keys := [];
      var todo := callTimings.Keys;
      while todo != {}
        invariant todo <= callTimings.Keys
        invariant forall k :: k in keys <==> k in Selected(callTimings, user) && k !in todo
        invariant forall i, j | 0 <= i < j < |keys| :: keys[i] != keys[j]
        decreases todo
      {
        var k :| k in todo;
        if Contains(k, user) {
          keys := keys + [k];
        }
        todo := todo - {k};
      }
    }

    /** The part of cleanup after the lock, when nothing else happens. */
    method EndEach(keys: seq<string>, apps: set<string>)
      modifies this
      ensures Abs() == EndedAll(old(Abs()), keys, apps)
      ensures |old(missed)| <= |missed| && pendingEvents == old(pendingEvents) + missed[|old(missed)|..]
    {
      for i := 0 to |keys|
        invariant Abs() == EndedAll(old(Abs()), keys[..i], apps)
        invariant |old(missed)| <= |missed| && pendingEvents == old(pendingEvents) + missed[|old(missed)|..]
      {
        EndCall(keys[i], "disconnect", apps);
        assert keys[..i + 1][..i] == keys[..i];
      }
      assert keys[..|keys|] == keys;
    }

    /** Cleanup when nothing happens between its snapshot and its last endCall: it ends the calls
        whose key contains the user and no others, and queues one missed call for each of them that
        nobody answered and whose callee has no app socket. `due` are the keys of these calls. */
    method CleanupCallTracking(user: string, apps: set<string>) returns (keys: seq<string>, ghost due: seq<string>)
      modifies this
      ensures forall k :: k in keys <==> k in old(callTimings) && Contains(k, user)
      ensures forall i, j | 0 <= i < j < |keys| :: keys[i] != keys[j]
      ensures Abs() == EndedAll(old(Abs()), keys, apps)
      ensures forall k | k in keys :: k !in callTimings && k !in activeCalls && k !in callIceCount
      ensures forall k | k !in keys ::
        && (k in callTimings <==> k in old(callTimings)) && (k in callIceCount <==> k in old(callIceCount))
        && (k in activeCalls <==> k in old(activeCalls))
      ensures forall k | k in callTimings :: callTimings[k] == old(callTimings)[k]
      ensures forall k | k in callIceCount :: callIceCount[k] == old(callIceCount)[k]
      ensures forall k :: k in due <==>
        k in old(callTimings) && Contains(k, user) && k !in old(activeCalls) && old(callTimings)[k].callee !in apps
      ensures forall i, j | 0 <= i < j < |due| :: due[i] != due[j]
      ensures |missed| == |old(missed)| + |due| && missed[..|old(missed)|] == old(missed)
      ensures forall i | 0 <= i < |due| ::
        var t, m := old(callTimings)[due[i]], missed[|old(missed)|..][i];
        m.from == t.caller && m.to == t.callee && m.callType == t.callType
      ensures pendingEvents == old(pendingEvents) + missed[|old(missed)|..]
      ensures |consumed| == |old(consumed)| + |keys| && consumed[..|old(consumed)|] == old(consumed)
      ensures forall i | 0 <= i < |keys| :: consumed[|old(consumed)|..][i] == old(callTimings)[keys[i]].offer
      ensures offers == old(offers) && replaced == old(replaced) && unavailable == old(unavailable)
    {
      hide CallKey, Contains, EndedAll, DueKeys;
      keys := SnapshotKeys(user);
      due := DueKeys(Abs(), keys, apps);
      DueExactly(Abs(), keys, apps);
      EndedAllMaps(Abs(), keys, apps);
      EndedAllConsumed(Abs(), keys, apps);
      EndedAllMissed(Abs(), keys, apps);
      EndEach(keys, apps);
    }
  }

  // ---- What every interleaving keeps ----

  predicate Distinct(s: seq<nat>) {
    forall i, j | 0 <= i < j < |s| :: s[i] != s[j]
  }

  predicate Keyed(timings: map<string, Timing>) {
    forall k | k in timings :: k == CallKey(timings[k].caller, timings[k].callee)
  }

  /** The live records have numbers of their own. */
  predicate Numbered(timings: map<string, Timing>, offers: nat, consumed: seq<nat>, replaced: seq<nat>) {
    && (forall k | k in timings :: timings[k].offer < offers)
    && (forall k | k in timings :: timings[k].offer !in consumed && timings[k].offer !in replaced)
    && (forall k, k' | k in timings && k' in timings && k != k' :: timings[k].offer != timings[k'].offer)
  }

  ghost predicate Records(st: State) {
    && st.timings.Keys == st.ice.Keys
    && Keyed(st.timings)
    && Numbered(st.timings, st.offers, st.consumed, st.replaced)
  }

  /** Live, consumed and replaced records are disjoint, none counts twice, and together they
      are as many as the offers that were forwarded: each offer has exactly one of them. */
  ghost predicate Invariant(st: State) {
    && Records(st)
    && (forall n | n in st.consumed :: n < st.offers && n !in st.replaced)
    && (forall n | n in st.replaced :: n < st.offers)
    && Distinct(st.consumed) && Distinct(st.replaced)
    && |st.timings| + |st.consumed| + |st.replaced| == st.offers
    && |st.missed| <= |st.consumed|
  }

  lemma PutSize<V>(m: map<string, V>, k: string, v: V)
    ensures |m[k := v]| == if k in m then |m| else |m| + 1
  {
    assert m[k := v].Keys == m.Keys + {k};
    assert |m.Keys| == |m| && |m[k := v].Keys| == |m[k := v]|;
  }

  lemma DropSize<V>(m: map<string, V>, k: string)
    ensures |m - {k}| == if k in m then |m| - 1 else |m|
  {
    assert (m - {k}).Keys == m.Keys - {k};
    assert |m.Keys| == |m| && |(m - {k}).Keys| == |m - {k}|;
  }

  lemma NumberedPut(
    timings: map<string, Timing>, offers: nat, consumed: seq<nat>, replaced: seq<nat>, k: string, t: Timing)
    requires Numbered(timings, offers, consumed, replaced) && t.offer == offers
    requires forall n | n in consumed || n in replaced :: n < offers
    ensures Numbered(timings[k := t], offers + 1, consumed,
                     if k in timings then replaced + [timings[k].offer] else replaced)
  {
  }

  lemma KeyedPut(timings: map<string, Timing>, k: string, t: Timing)
    requires Keyed(timings) && k == CallKey(t.caller, t.callee)
    ensures Keyed(timings[k := t])
  {
  }

  lemma OfferRecords(st: State, from: string, to: string, callType: string)
    requires Records(st) && forall n | n in st.consumed || n in st.replaced :: n < st.offers
    ensures Records(Offered(st, from, to, callType))
  {
    var st', k := Offered(st, from, to, callType), CallKey(from, to);
    KeyedPut(st.timings, k, st'.timings[k]);
    NumberedPut(st.timings, st.offers, st.consumed, st.replaced, k, st'.timings[k]);
    assert st'.timings.Keys == st'.ice.Keys;
    hide CallKey, Numbered, Keyed;
  }

  lemma AppendDistinct(s: seq<nat>, n: nat)
    requires Distinct(s) && n !in s
    ensures Distinct(s + [n])
  {
  }

  lemma OfferInvariant(st: State, from: string, to: string, callType: string)
    requires Invariant(st)
    ensures Invariant(Offered(st, from, to, callType))
  {
    OfferRecords(st, from, to, callType);
    if CallKey(from, to) in st.timings {
      AppendDistinct(st.replaced, st.timings[CallKey(from, to)].offer);
    }
    PutSize(st.timings, CallKey(from, to), Timing(from, to, callType, false, st.offers));
  }

  lemma AnswerRecords(st: State, who: string, to: string)
    requires Records(st)
    ensures Records(Answered(st, who, to))
  {
    var k := CallKey(who, to);
    hide CallKey;
    if k in st.timings {
      var timings := st.timings[k := st.timings[k].(answered := true)];
      assert timings.Keys == st.timings.Keys;
      assert forall k' | k' in timings :: timings[k'] == st.timings[k'].(answered := timings[k'].answered);
    }
  }

  lemma AnswerInvariant(st: State, who: string, to: string)
    requires Invariant(st)
    ensures Invariant(Answered(st, who, to))
  {
    var k := CallKey(who, to);
    AnswerRecords(st, who, to);
    hide Records, CallKey;
    if k in st.timings {
      PutSize(st.timings, k, st.timings[k].(answered := true));
    }
  }

  lemma EndRecords(st: State, key: string, reason: string, apps: set<string>)
    requires Records(st)
    ensures Records(Ended(st, key, reason, apps))
  {
    var timings, st' := st.timings - {key}, Ended(st, key, reason, apps);
    assert timings.Keys == st.timings.Keys - {key} && (st.ice - {key}).Keys == st.ice.Keys - {key};
    forall k | k in timings
      ensures timings[k] == st.timings[k] && timings[k].offer !in st'.consumed && timings[k].offer !in st'.replaced
    {
      assert k in st.timings && k != key;
    }
  }

  lemma EndInvariant(st: State, key: string, reason: string, apps: set<string>)
    requires Invariant(st)
    ensures Invariant(Ended(st, key, reason, apps))
  {
    EndRecords(st, key, reason, apps);
    DropSize(st.timings, key);
    if key in st.timings {
      AppendDistinct(st.consumed, st.timings[key].offer);
    }
  }

  lemma IceInvariant(st: State, who: string, to: string, candidate: string)
    requires Invariant(st)
    ensures Invariant(Counted(st, who, to, candidate))
  {
    hide CallKey, Numbered, Keyed, Bump;
    var st' := Counted(st, who, to, candidate);
    assert st'.timings == st.timings && st'.ice.Keys == st.ice.Keys;
    assert Records(st');
  }

  lemma UnavailableInvariant(st: State, missed: Missed)
    requires Invariant(st)
    ensures Invariant(st.(unavailable := st.unavailable + [missed]))
  {
    assert Records(st.(unavailable := st.unavailable + [missed]));
  }

  lemma StepInvariant(st: State, e: Event)
    requires Invariant(st)
    ensures Invariant(Step(st, e))
  {
    hide Invariant;
    match e
    case Offer(from, to, callType) => OfferInvariant(st, from, to, callType);
    case Answer(who, to) => AnswerInvariant(st, who, to);
    case Ice(who, to, candidate) => IceInvariant(st, who, to, candidate);
    case End(key, reason, apps) => EndInvariant(st, key, reason, apps);
    case Unavailable(from, to, callType) => UnavailableInvariant(st, Missed(from, to, callType));
    case Snapshot(_) =>
  }

  lemma EmptyInvariant()
    ensures Invariant(EMPTY)
  {
  }

  lemma {:induction false} RunInvariant(es: seq<Event>, j: nat)
    requires j <= |es|
    ensures Invariant(After(es, j))
  {
    hide Step, Invariant;
    if j == 0 {
      EmptyInvariant();
    } else {
      RunInvariant(es, j - 1);
      StepInvariant(After(es, j - 1), es[j - 1]);
    }
  }

  /** Missed-call events from endCall never exceed the forwarded offers. */
  lemma MissedBounded(es: seq<Event>, j: nat)
    requires j <= |es|
    ensures |After(es, j).missed| <= |After(es, j).consumed| <= After(es, j).offers
  {
    RunInvariant(es, j);
  }

  // ---- What the maps say about the history ----

  predicate OffersOn(e: Event, k: string) {
    e.Offer? && CallKey(e.from, e.to) == k
  }

  predicate AnswersOn(e: Event, k: string) {
    e.Answer? && CallKey(e.who, e.to) == k
  }

  predicate EndsOn(e: Event, k: string) {
    e.End? && e.key == k
  }

  /** Event `g` is the latest offer forwarded on `k` before `j`, and nothing ended the call since. */
  predicate OpenOffer(es: seq<Event>, g: int, j: nat, k: string) {
    && 0 <= g < j <= |es| && OffersOn(es[g], k)
    && forall i | g < i < j :: !OffersOn(es[i], k) && !EndsOn(es[i], k)
  }

  /** Event `a` is an answer on `k` before `j`, and nothing ended the call since. */
  predicate OpenAnswer(es: seq<Event>, a: int, j: nat, k: string) {
    && 0 <= a < j <= |es| && AnswersOn(es[a], k)
    && forall i | a < i < j :: !EndsOn(es[i], k)
  }

  lemma OpenOfferStep(es: seq<Event>, g: int, p: nat, k: string)
    requires p < |es|
    ensures OpenOffer(es, g, p + 1, k) <==>
              (g == p && OffersOn(es[p], k)) || (OpenOffer(es, g, p, k) && !OffersOn(es[p], k) && !EndsOn(es[p], k))
  {
  }

  predicate SameCall(t: Timing, e: Event, n: nat) {
    e.Offer? && t.caller == e.from && t.callee == e.to && t.callType == e.callType && t.offer == n
  }

  lemma StepRecord(st: State, e: Event, k: string)
    ensures var timings := Step(st, e).timings;
            if OffersOn(e, k) then k in timings && SameCall(timings[k], e, st.offers)
            else if EndsOn(e, k) then k !in timings
            else (k in timings <==> k in st.timings) &&
                 (k in timings ==> timings[k] == st.timings[k].(answered := timings[k].answered))
  {
    hide LexLeq;
  }

  /** An answer does not change what a record says about its offer. */
  lemma SameCallStays(es: seq<Event>, p: nat, k: string)
    requires p < |es| && k in After(es, p).timings && k in After(es, p + 1).timings
    requires !OffersOn(es[p], k) && !EndsOn(es[p], k)
    ensures forall e, n :: SameCall(After(es, p).timings[k], e, n) ==> SameCall(After(es, p + 1).timings[k], e, n)
  {
    StepRecord(After(es, p), es[p], k);
    assert After(es, p + 1) == Step(After(es, p), es[p]);
    hide Step, OffersOn, EndsOn;
  }

  /** A record is on file exactly while the latest offer on its key is open, and it is
      that offer's, with its parties, its type and its number. */
  lemma {:induction false} RecordExactly(es: seq<Event>, j: nat, k: string)
    requires j <= |es|
    ensures var timings := After(es, j).timings;
            (k in timings <==> exists g :: OpenOffer(es, g, j, k)) &&
            forall g | OpenOffer(es, g, j, k) :: k in timings && SameCall(timings[k], es[g], After(es, g).offers)
  {
    hide Step, OffersOn, EndsOn, SameCall;
    if j > 0 {
      var p := j - 1;
      RecordExactly(es, p, k);
      StepRecord(After(es, p), es[p], k);
      forall g
        ensures OpenOffer(es, g, j, k) <==>
                  (g == p && OffersOn(es[p], k))
                  || (OpenOffer(es, g, p, k) && !OffersOn(es[p], k) && !EndsOn(es[p], k))
      {
        OpenOfferStep(es, g, p, k);
      }
      if k in After(es, p).timings && !OffersOn(es[p], k) && !EndsOn(es[p], k) {
        SameCallStays(es, p, k);
      }
      if OffersOn(es[p], k) {
        assert OpenOffer(es, p, j, k);
      } else if k in After(es, j).timings {
        var g :| OpenOffer(es, g, p, k);
        assert OpenOffer(es, g, j, k);
      }
    }
  }

  lemma {:induction false} ActiveExactly(es: seq<Event>, j: nat, k: string)
    requires j <= |es|
    ensures k in After(es, j).active <==> exists a :: OpenAnswer(es, a, j, k)
  {
    if j > 0 {
      var p := j - 1;
      ActiveExactly(es, p, k);
      if AnswersOn(es[p], k) {
        assert OpenAnswer(es, p, j, k);
      } else {
        if a :| OpenAnswer(es, a, p, k) {
          assert !EndsOn(es[p], k) ==> OpenAnswer(es, a, j, k);
        }
        if a :| OpenAnswer(es, a, j, k) {
          assert OpenAnswer(es, a, p, k);
        }
      }
    }
  }

  /** The main result. endCall queues a missed call if and only if an offer on the pair is
      open, nobody answered on the pair since the pair's previous endCall, the end is not a
      reject and the callee has no app socket; the event names the two parties of that offer. */
  lemma MissedExactly(es: seq<Event>, j: nat)
    requires j < |es| && es[j].End?
    ensures var k, before, after := es[j].key, After(es, j).missed, After(es, j + 1).missed;
            (after != before <==>
              exists g :: OpenOffer(es, g, j, k) && es[g].to !in es[j].apps && es[j].reason != "reject"
                          && !exists a :: OpenAnswer(es, a, j, k)) &&
            (after != before ==>
              exists g :: OpenOffer(es, g, j, k) && after == before + [Missed(es[g].from, es[g].to, es[g].callType)])
  {
    RecordExactly(es, j, es[j].key);
    ActiveExactly(es, j, es[j].key);
  }

  function CountIn(b: Bucket, candidate: string): nat {
    if candidate == "host" then b.host
    else if candidate == "srflx" then b.srflx
    else if candidate == "relay" then b.relay
    else if candidate == "prflx" then b.prflx
    else 0
  }

  lemma BumpCount(b: Bucket, sent: string, candidate: string)
    requires candidate in {"host", "srflx", "relay", "prflx"}
    ensures CountIn(Bump(b, sent), candidate) == CountIn(b, candidate) + if sent == candidate then 1 else 0
  {
  }

  /** The event is a candidate of this type on `k`, from the user `caller` or from the other party. */
  predicate Tallies(e: Event, k: string, caller: string, fromCaller: bool, candidate: string) {
    e.Ice? && CallKey(e.who, e.to) == k && (e.who == caller) == fromCaller && e.candidate == candidate
  }

  /** How many such events stand after `g` and before `j`. */
  function Tally(es: seq<Event>, g: nat, j: nat, k: string, caller: string, fromCaller: bool, candidate: string): nat
    requires g < j <= |es|
  {
    if j == g + 1 then 0
    else
      Tally(es, g, j - 1, k, caller, fromCaller, candidate)
      + if Tallies(es[j - 1], k, caller, fromCaller, candidate) then 1 else 0
  }

  lemma StepTally(st: State, e: Event, k: string, candidate: string)
    requires k in st.timings && k in st.ice && !OffersOn(e, k) && !EndsOn(e, k)
    requires candidate in {"host", "srflx", "relay", "prflx"}
    ensures var st', caller := Step(st, e), st.timings[k].caller;
            && k in st'.ice
            && CountIn(st'.ice[k].caller, candidate)
               == CountIn(st.ice[k].caller, candidate) + (if Tallies(e, k, caller, true, candidate) then 1 else 0)
            && CountIn(st'.ice[k].callee, candidate)
               == CountIn(st.ice[k].callee, candidate) + (if Tallies(e, k, caller, false, candidate) then 1 else 0)
  {
    if e.Ice? && CallKey(e.who, e.to) == k {
      BumpCount(st.ice[k].caller, e.candidate, candidate);
      BumpCount(st.ice[k].callee, e.candidate, candidate);
    }
  }

  /** The candidate counts of an open call are those of the events since its offer, each in
      the bucket of its sender's role and its type. */
  lemma {:induction false} IceExactly(es: seq<Event>, g: nat, j: nat, k: string, candidate: string)
    requires j <= |es| && OpenOffer(es, g, j, k) && candidate in {"host", "srflx", "relay", "prflx"}
    ensures k in After(es, j).ice
    ensures CountIn(After(es, j).ice[k].caller, candidate) == Tally(es, g, j, k, es[g].from, true, candidate)
    ensures CountIn(After(es, j).ice[k].callee, candidate) == Tally(es, g, j, k, es[g].from, false, candidate)
  {
    if j > g + 1 {
      var p := j - 1;
      assert OpenOffer(es, g, p, k);
      IceExactly(es, g, p, k, candidate);
      RecordExactly(es, p, k);
      StepTally(After(es, p), es[p], k, candidate);
    }
  }

  /** In a run where all ids have one length and no colon, cleanup selects the open calls
      of that user and no others. */
  lemma CleanupSelectsOwnCalls(es: seq<Event>, j: nat, user: string, length: nat)
    requires j <= |es| && ProperId(user, length)
    requires forall i | 0 <= i < |es| && es[i].Offer? :: ProperId(es[i].from, length) && ProperId(es[i].to, length)
    ensures var timings := After(es, j).timings;
            Selected(timings, user) ==
            set k | k in timings && (timings[k].caller == user || timings[k].callee == user)
  {
    var timings := After(es, j).timings;
    RunInvariant(es, j);
    forall k | k in timings
      ensures Contains(k, user) <==> timings[k].caller == user || timings[k].callee == user
    {
      RecordExactly(es, j, k);
      var g :| OpenOffer(es, g, j, k);
      ContainsParty(timings[k].caller, timings[k].callee, user, length);
    }
  }

  lemma {:induction false} OffersGrow(es: seq<Event>, i: nat, j: nat)
    requires i <= j <= |es|
    ensures After(es, i).offers <= After(es, j).offers
  {
    if i < j {
      OffersGrow(es, i, j - 1);
    }
  }

  /** Event `j` is an endCall of the cleanup whose snapshot for `user` is event `s` and found `k`. */
  predicate CleansUp(es: seq<Event>, s: nat, j: nat, user: string, k: string) {
    && s < j < |es| && es[s] == Snapshot(user) && k in Selected(After(es, s).timings, user)
    && EndsOn(es[j], k) && es[j].reason == "disconnect"
  }

  /** The record on file at `j` is the one that was on file at `s` exactly if its offer came before. */
  lemma SameRecord(es: seq<Event>, s: nat, j: nat, k: string, g: int)
    requires s <= j <= |es| && k in After(es, s).timings && OpenOffer(es, g, j, k)
    ensures k in After(es, j).timings
    ensures After(es, j).timings[k].offer == After(es, s).timings[k].offer <==> g < s
  {
    hide CallKey;
    RecordExactly(es, s, k);
    RecordExactly(es, j, k);
    var first :| OpenOffer(es, first, s, k);
    if g < s {
      assert OpenOffer(es, g, s, k);
    } else {
      OffersGrow(es, first + 1, g);
      assert After(es, first + 1).offers == After(es, first).offers + 1;
    }
  }

  predicate Untouched(es: seq<Event>, s: nat, j: nat, k: string) {
    forall i | s < i < j && i < |es| :: !OffersOn(es[i], k) && !EndsOn(es[i], k)
  }

  /** An offer that is open at `s` is open at `j` exactly if nothing touched the pair in between. */
  lemma UntouchedExactly(es: seq<Event>, s: nat, j: nat, k: string, first: int)
    requires s < j <= |es| && es[s].Snapshot? && OpenOffer(es, first, s, k)
    ensures Untouched(es, s, j, k) <==> exists g :: g < s && OpenOffer(es, g, j, k)
  {
    assert !OffersOn(es[s], k) && !EndsOn(es[s], k);
    hide OffersOn, EndsOn;
    if Untouched(es, s, j, k) {
      assert OpenOffer(es, first, j, k);
    }
  }

  /** What cleanup ends, in every interleaving: the call it saw, if and only if no offer was
      forwarded and no call ended on the pair in between; a call that it did not see, if and only
      if one that was offered after the snapshot is open; and otherwise none. */
  lemma CleanupEndsExactly(es: seq<Event>, s: nat, j: nat, user: string, k: string)
    requires CleansUp(es, s, j, user, k)
    ensures var seen, met := After(es, s).timings[k].offer, After(es, j).timings;
            && (k in met && met[k].offer == seen <==> Untouched(es, s, j, k))
            && (k in met && met[k].offer != seen <==> exists g :: s < g && OpenOffer(es, g, j, k))
            && After(es, j + 1).consumed == After(es, j).consumed + if k in met then [met[k].offer] else []
  {
    RecordExactly(es, s, k);
    var first :| OpenOffer(es, first, s, k);
    UntouchedExactly(es, s, j, k, first);
    RecordExactly(es, j, k);
    forall g | OpenOffer(es, g, j, k)
      ensures g != s && (After(es, j).timings[k].offer == After(es, s).timings[k].offer <==> g < s)
    {
      SameRecord(es, s, j, k, g);
    }
    assert After(es, j + 1) == Ended(After(es, j), k, es[j].reason, es[j].apps);
  }

  /** A key found by a snapshot can be reused before cleanup gets to it: the late endCall
      then takes down the new call. */
  lemma LateCleanupEndsNewCall(apps: set<string>)
    ensures var k := CallKey("a", "b");
            var es := [Offer("a", "b", "voice"), Snapshot("a"), End(k, "hangup", apps),
                       Offer("b", "a", "video"), End(k, "disconnect", apps)];
            && CleansUp(es, 1, 4, "a", k) && k in After(es, 4).timings
            && After(es, 4).timings[k].offer != After(es, 1).timings[k].offer
            && k !in After(es, 5).timings && After(es, 5).consumed == [0, 1]
  {
    var k := CallKey("a", "b");
    KeySymmetric("a", "b");
    KeyContains("a", "b", "a");
    assert FoundAt("a", "a", 0) && Contains(k, "a");
    var es := [Offer("a", "b", "voice"), Snapshot("a"), End(k, "hangup", apps),
               Offer("b", "a", "video"), End(k, "disconnect", apps)];
    assert After(es, 0) == EMPTY;
    assert After(es, 1) == Offered(EMPTY, "a", "b", "voice");
    assert After(es, 2) == After(es, 1);
    assert After(es, 3) == Ended(After(es, 2), k, "hangup", apps);
    assert After(es, 4) == Offered(After(es, 3), "b", "a", "video");
    assert After(es, 5) == Ended(After(es, 4), k, "disconnect", apps);
  }
}
