/** Contact codes: how they are made, who holds which, and when a given-up code may return
    (internal/contactcode/code.go, internal/routes/contacts.go, internal/db/cleanup.go). */
module ContactCodes {
  import opened Wrappers

  // ---- Making a code ----

  const CHARSET := "ABCDEFGHJKLMNPQRSTUVWXYZ23456789"

  const ATTEMPTS := 10

  /** Seconds for which a given-up code is kept. */
  const RETIREMENT := 86400

  function Letter(b: bv8): char {
    CHARSET[b as int % 32]
  }

  function Letters(b: seq<bv8>): string {
    seq(|b|, i requires 0 <= i < |b| => Letter(b[i]))
  }

  /** XXXX-XXXX from eight random bytes. */
  function CodeOf(b: seq<bv8>): string
    requires |b| == 8
  {
    Letters(b[..4]) + "-" + Letters(b[4..])
  }

  method RandomCode(b: seq<bv8>) returns (code: string)
    requires |b| == 8
    ensures code == CodeOf(b)
    ensures |code| == 9 && code[4] == '-'
    ensures forall k | 0 <= k < 4 :: code[k] == "ABCDEFGHJKLMNPQRSTUVWXYZ23456789"[b[k] as int % 32]
    ensures forall k | 4 <= k < 8 :: code[k + 1] == "ABCDEFGHJKLMNPQRSTUVWXYZ23456789"[b[k] as int % 32]
  {
    var raw := new char[8];
    for i := 0 to 8
      invariant forall k | 0 <= k < i :: raw[k] == Letter(b[k])
    {
      raw[i] := CHARSET[b[i] as int % |CHARSET|];
    }
    assert raw[..4] == Letters(b[..4]) && raw[4..] == Letters(b[4..]);
    code := raw[..4] + "-" + raw[4..];
  }

  /** No letter is favoured: the letter at `j` comes from the eight bytes that are `j` modulo
      32, and no other letter does. */
  lemma LettersUniform(b: bv8, j: nat)
    requires j < 32
    ensures Letter(b) == CHARSET[j] <==> b as int % 32 == j
  {
    assert forall k | 0 <= k < 8 :: CHARSET[k] as int == 'A' as int + k;
    assert forall k | 8 <= k < 13 :: CHARSET[k] as int == 'J' as int + k - 8;
    assert forall k | 13 <= k < 24 :: CHARSET[k] as int == 'P' as int + k - 13;
    assert forall k | 24 <= k < 32 :: CHARSET[k] as int == '2' as int + k - 24;
  }

  // ---- Holding and giving up codes ----

  /** The code each user holds, the retired codes with the time of retirement, the clock. */
  datatype State = State(users: map<string, string>, retired: map<string, int>, clock: int)

  /** `code` is what Generate proposed. `Register` and `Regenerate` are undisturbed: they are void if
      the code is not free. `Enroll` and `Replace` are the transactions of the two alone, at a later
      time than the search for the code and than the read of the user's old code. */
  datatype Event =
    | Register(user: string, code: string)
    | Regenerate(user: string, code: string)
    | Enroll(user: string, code: string)
    | Replace(user: string, oldCode: string, code: string)
    | Cleanup
    | Tick(seconds: nat)

  predicate Taken(users: map<string, string>, retired: map<string, int>, code: string) {
    code in users.Values || code in retired
  }

  /** The first `n` draws all make taken codes. */
  predicate Exhausted(users: map<string, string>, retired: map<string, int>, draws: seq<seq<bv8>>, n: nat)
    requires n <= |draws| && forall k | 0 <= k < |draws| :: |draws[k]| == 8
  {
    forall k | 0 <= k < n :: Taken(users, retired, CodeOf(draws[k]))
  }

  predicate Free(st: State, code: string) {
    !Taken(st.users, st.retired, code)
  }

  /** INSERT OR IGNORE INTO retired_codes */
  function Retire(retired: map<string, int>, code: string, now: int): map<string, int> {
    if code in retired then retired else retired[code := now]
  }

  function Kept(retired: map<string, int>, now: int): map<string, int> {
    map c | c in retired && retired[c] >= now - RETIREMENT :: retired[c]
  }

  /** The UNIQUE column lets the transaction through. */
  predicate Unheld(users: map<string, string>, user: string, code: string) {
    forall u | u in users && u != user :: users[u] != code
  }

  function Step(st: State, e: Event): State {
    match e
    case Register(user, code) =>
      if user in st.users || !Free(st, code) then st else st.(users := st.users[user := code])
    case Regenerate(user, code) =>
      if user !in st.users || !Free(st, code) then st
      else st.(users := st.users[user := code], retired := Retire(st.retired, st.users[user], st.clock))
    case Enroll(user, code) =>
      if user in st.users || !Unheld(st.users, user, code) then st else st.(users := st.users[user := code])
    case Replace(user, oldCode, code) =>
      if user !in st.users || !Unheld(st.users, user, code) then st
      else st.(users := st.users[user := code], retired := Retire(st.retired, oldCode, st.clock))
    case Cleanup => st.(retired := Kept(st.retired, st.clock))
    case Tick(seconds) => st.(clock := st.clock + seconds)
  }

  function After(clock: int, es: seq<Event>, j: nat): State
    requires j <= |es|
  {
    if j == 0 then State(map[], map[], clock) else Step(After(clock, es, j - 1), es[j - 1])
  }

  class Registry {
    var users: map<string, string>
    var retired: map<string, int>

    constructor ()
      ensures users == map[] && retired == map[]
    {
      users, retired := map[], map[];
    }

    /** `draws` are the random bytes of the attempts. The first free code is taken; after ten
        taken ones the method gives up. */
    method Generate(draws: seq<seq<bv8>>) returns (code: Option<string>)
      requires |draws| == ATTEMPTS && forall k | 0 <= k < ATTEMPTS :: |draws[k]| == 8
      ensures code.None? <==> Exhausted(users, retired, draws, ATTEMPTS)
      ensures code.Some? ==> !Taken(users, retired, code.value)
      ensures code.Some? ==> code.value !in users.Values && code.value !in retired
      ensures code.None? ==> forall k | 0 <= k < 10 :: CodeOf(draws[k]) in users.Values || CodeOf(draws[k]) in retired
      ensures code.Some? ==>
        exists k :: 0 <= k < ATTEMPTS && code.value == CodeOf(draws[k]) && Exhausted(users, retired, draws, k)
    {
      for attempt := 0 to ATTEMPTS
        invariant Exhausted(users, retired, draws, attempt)
      {
        var candidate := RandomCode(draws[attempt]);
        if candidate in users.Values {
          continue;
        }
        if candidate in retired {
          continue;
        }
        return Some(candidate);
      }
      return None;
    }

    method RegenerateCode(user: string, draws: seq<seq<bv8>>, now: int) returns (code: Option<string>)
      requires |draws| == ATTEMPTS && forall k | 0 <= k < ATTEMPTS :: |draws[k]| == 8
      modifies this
      ensures code.None? <==> user !in old(users) || Exhausted(old(users), old(retired), draws, ATTEMPTS)
      ensures State(users, retired, now) ==
        if code.None? then State(old(users), old(retired), now)
        else Step(State(old(users), old(retired), now), Regenerate(user, code.value))
      ensures code.Some? ==>
        && code.value !in old(users).Values && code.value !in old(retired)
        && user in old(users) && users == old(users)[user := code.value]
        && retired.Keys == old(retired).Keys + {old(users)[user]}
        && (forall c | c in old(retired) :: retired[c] == old(retired)[c])
        && (old(users)[user] !in old(retired) ==> retired[old(users)[user]] == now)
      ensures code.None? ==> users == old(users) && retired == old(retired)
    {
      if user !in users {
        return None;
      }
      var oldCode := users[user];
      code := Generate(draws);
      if code.None? {
        return;
      }
      if oldCode !in retired {
        retired := retired[oldCode := now];
      }
      users := users[user := code.value];
    }
  }

  // ---- What every run keeps ----

  predicate DistinctCodes(users: map<string, string>) {
    forall u, v | u in users && v in users && u != v :: users[u] != users[v]
  }

  /** No held code is retired. */
  predicate NoneRetired(st: State) {
    forall u | u in st.users :: st.users[u] !in st.retired
  }

  /** The steps that leave a code both held and retired, as a guard on the state before: a
      transaction assigns a code that has been retired since it was found free, or is the very one
      it retires; or it retires, for a user who had it once, a code that somebody else holds. */
  predicate Revives(st: State, e: Event) {
    match e
    case Enroll(user, code) => user !in st.users && Unheld(st.users, user, code) && code in st.retired
    case Replace(user, oldCode, code) =>
      && user in st.users && Unheld(st.users, user, code)
      && (code in st.retired || code == oldCode || !Unheld(st.users, user, oldCode))
    case _ => false
  }

  lemma FreeIsUnheld(st: State, user: string, code: string)
    requires Free(st, code)
    ensures Unheld(st.users, user, code) && code !in st.retired
  {
    assert forall u | u in st.users :: st.users[u] in st.users.Values;
  }

  lemma StepDistinct(st: State, e: Event)
    requires DistinctCodes(st.users)
    ensures DistinctCodes(Step(st, e).users)
  {
    if (e.Register? || e.Regenerate?) && Free(st, e.code) {
      FreeIsUnheld(st, e.user, e.code);
    }
  }

  lemma StepExactly(st: State, e: Event)
    requires DistinctCodes(st.users) && NoneRetired(st)
    ensures NoneRetired(Step(st, e)) <==> !Revives(st, e)
  {
    var st' := Step(st, e);
    if (e.Register? || e.Regenerate?) && Free(st, e.code) {
      FreeIsUnheld(st, e.user, e.code);
      if e.Regenerate? && e.user in st.users {
        assert st.users[e.user] != e.code by {
          assert st.users[e.user] in st.users.Values;
        }
      }
    }
    if Revives(st, e) {
      assert st'.users[e.user] == e.code;
      if e.Replace? {
        assert e.oldCode in st'.retired;
        if v :| v in st.users && v != e.user && st.users[v] == e.oldCode {
          assert st'.users[v] == e.oldCode;
        }
      }
    }
  }

  /** Held codes are distinct in every run, whatever interleaves. */
  lemma {:induction false} AlwaysDistinct(clock: int, es: seq<Event>, j: nat)
    requires j <= |es|
    ensures DistinctCodes(After(clock, es, j).users)
  {
    if j > 0 {
      AlwaysDistinct(clock, es, j - 1);
      StepDistinct(After(clock, es, j - 1), es[j - 1]);
    }
  }

  predicate NoneRetiredUpTo(clock: int, es: seq<Event>, j: nat)
    requires j <= |es|
  {
    forall i | 0 <= i <= j :: NoneRetired(After(clock, es, i))
  }

  predicate RevivesBefore(clock: int, es: seq<Event>, j: nat)
    requires j <= |es|
  {
    exists i :: 0 <= i < j && Revives(After(clock, es, i), es[i])
  }

  /** In every run, however searches and transactions interleave: no held code is retired, all
      along, if and only if no step of the run revives one. */
  lemma {:induction false} NoneRetiredExactly(clock: int, es: seq<Event>, j: nat)
    requires j <= |es|
    ensures NoneRetiredUpTo(clock, es, j) <==> !RevivesBefore(clock, es, j)
  {
    hide Step, Revives;
    if j > 0 {
      var p := j - 1;
      var st := After(clock, es, p);
      NoneRetiredExactly(clock, es, p);
      AlwaysDistinct(clock, es, p);
      assert After(clock, es, j) == Step(st, es[p]);
      assert NoneRetiredUpTo(clock, es, j) <==> NoneRetiredUpTo(clock, es, p) && NoneRetired(After(clock, es, j));
      assert RevivesBefore(clock, es, j) <==> RevivesBefore(clock, es, p) || Revives(st, es[p]);
      if NoneRetiredUpTo(clock, es, p) {
        StepExactly(st, es[p]);
      }
    }
  }

  /** In particular when every handler is one step. */
  lemma RunInvariant(clock: int, es: seq<Event>, j: nat)
    requires j <= |es| && forall i | 0 <= i < |es| :: !es[i].Enroll? && !es[i].Replace?
    ensures DistinctCodes(After(clock, es, j).users) && NoneRetired(After(clock, es, j))
  {
    AlwaysDistinct(clock, es, j);
    NoneRetiredExactly(clock, es, j);
    assert NoneRetiredUpTo(clock, es, j);
  }

  /** With a free code and the old code just read, the transactions are the handlers. */
  lemma UndisturbedTransactions(st: State, user: string, code: string)
    requires Free(st, code)
    ensures Step(st, Enroll(user, code)) == Step(st, Register(user, code))
    ensures user in st.users ==> Step(st, Replace(user, st.users[user], code)) == Step(st, Regenerate(user, code))
  {
    FreeIsUnheld(st, user, code);
  }

  /** Whom a step gives which code: a registration to a new user, a regeneration to one who is there,
      and only a code that nobody else holds; and, unless it is a late transaction, that is not
      retired. */
  lemma HolderExactly(st: State, e: Event, u: string)
    ensures var st' := Step(st, e);
      var given := && !e.Cleanup? && !e.Tick? && e.user == u
                   && ((e.Register? || e.Enroll?) <==> u !in st.users)
                   && (forall v | v in st.users && v != u :: st.users[v] != e.code)
                   && (e.Regenerate? && u in st.users ==> st.users[u] != e.code)
                   && (e.Register? || e.Regenerate? ==> e.code !in st.retired);
      && (u in st'.users <==> u in st.users || given)
      && (u in st'.users ==> st'.users[u] == if given then e.code else st.users[u])
  {
    if !e.Cleanup? && !e.Tick? {
      assert e.code in st.users.Values <==> exists v :: v in st.users && st.users[v] == e.code;
    }
  }

  /** What a step does to the record of a code: it is made, with the time, when its holder, or the
      handler that read it, gives it up, and goes when a cleanup finds it more than a day old. */
  lemma RecordExactly(st: State, e: Event, c: string)
    ensures var st' := Step(st, e);
      var made := c !in st.retired && match e
        case Regenerate(user, code) =>
          user in st.users && st.users[user] == c && code !in st.retired
          && forall v | v in st.users :: st.users[v] != code
        case Replace(user, oldCode, code) =>
          user in st.users && oldCode == c && forall v | v in st.users && v != user :: st.users[v] != code
        case _ => false;
      var kept := c in st.retired && !(e.Cleanup? && st.clock - st.retired[c] > 86400);
      && (c in st'.retired <==> made || kept)
      && (c in st'.retired ==> st'.retired[c] == if made then st.clock else st.retired[c])
  {
    if e.Regenerate? {
      assert e.code in st.users.Values <==> exists v :: v in st.users && st.users[v] == e.code;
    }
  }

  /** The step takes code `c` away from its holder. */
  predicate GivesUp(st: State, e: Event, c: string) {
    && (e.Regenerate? || e.Replace?) && e.user in st.users && st.users[e.user] == c && e.code != c
    && Step(st, e) != st && Step(st, e).users[e.user] == e.code
  }

  /** The step hands code `c` to somebody who did not hold it. */
  predicate Assigns(st: State, e: Event, c: string) {
    && (e.Register? || e.Regenerate? || e.Enroll? || e.Replace?) && e.code == c
    && (e.user in st.users ==> st.users[e.user] != c)
    && e.user in Step(st, e).users && Step(st, e).users[e.user] == c
  }

  /** The transaction retires the code that its handler read, whoever holds what by now. */
  predicate ReadStale(st: State, e: Event) {
    e.Replace? && e.user in st.users && e.oldCode != st.users[e.user]
  }

  /** The step leaves a record that code `c` is retired as of now. A code that is retired already
      keeps its older record, for the insert is ignored then. */
  predicate Records(st: State, e: Event, c: string) {
    if c in st.retired then st.retired[c] == st.clock else !ReadStale(st, e)
  }

  /** In every state: a given-up code is on record as retired at that time if and only if it was
      not on record before and its handler had read it, or was on record as of that very time. */
  lemma RetiredExactly(st: State, e: Event, c: string)
    requires GivesUp(st, e, c)
    ensures var st' := Step(st, e);
            c in st'.retired && st'.retired[c] == st'.clock <==> Records(st, e, c)
  {
    if e.Regenerate? {
      assert e.user in st.users;
    }
  }

  predicate RetiredSince(st: State, c: string, t: int) {
    (c in st.retired && st.retired[c] == t) || st.clock > t + RETIREMENT
  }

  lemma StepRetired(st: State, e: Event, c: string, t: int)
    requires RetiredSince(st, c, t)
    ensures RetiredSince(Step(st, e), c, t)
  {
  }

  /** A record stays until the retirement period is over. */
  lemma {:induction false} StaysRetired(clock: int, es: seq<Event>, i: nat, j: nat, c: string)
    requires i <= j <= |es| && c in After(clock, es, i).retired
    ensures RetiredSince(After(clock, es, j), c, After(clock, es, i).retired[c])
  {
    if i < j {
      StaysRetired(clock, es, i, j - 1, c);
      hide Step, RetiredSince;
      StepRetired(After(clock, es, j - 1), es[j - 1], c, After(clock, es, i).retired[c]);
    }
  }

  /** A transaction, later than its search, assigns a code that is retired by now. */
  predicate AssignsRetired(st: State, e: Event, c: string) {
    (e.Enroll? || e.Replace?) && e.code == c && c in st.retired
  }

  /** In every interleaving: a code on record as retired is not assigned until more than a day
      after that, except by a transaction that found it free earlier. */
  lemma RetirementKept(clock: int, es: seq<Event>, i: nat, j: nat, c: string)
    requires i <= j < |es| && c in After(clock, es, i).retired && Assigns(After(clock, es, j), es[j], c)
    ensures After(clock, es, j).clock > After(clock, es, i).retired[c] + 86400
            || AssignsRetired(After(clock, es, j), es[j], c)
  {
    StaysRetired(clock, es, i, j, c);
  }

  lemma FirstRecord(clock: int, es: seq<Event>, i: nat, c: string)
    requires i < |es| && GivesUp(After(clock, es, i), es[i], c) && Records(After(clock, es, i), es[i], c)
    ensures c in After(clock, es, i + 1).retired
    ensures After(clock, es, i + 1).retired[c] == After(clock, es, i).clock
  {
    var st := After(clock, es, i);
    assert After(clock, es, i + 1) == Step(st, es[i]);
    hide After;
    RetiredExactly(st, es[i], c);
    assert Step(st, es[i]).clock == st.clock;
  }

  /** The main result, in every interleaving: a given-up code that got its record is not assigned
      again until more than a day later, except by a transaction that found it free earlier. */
  lemma NoEarlyReuse(clock: int, es: seq<Event>, i: nat, j: nat, c: string)
    requires i < j < |es| && GivesUp(After(clock, es, i), es[i], c) && Records(After(clock, es, i), es[i], c)
    requires Assigns(After(clock, es, j), es[j], c)
    ensures After(clock, es, j).clock > After(clock, es, i).clock + 86400
            || AssignsRetired(After(clock, es, j), es[j], c)
  {
    hide After, Step, GivesUp, Records, Assigns, AssignsRetired;
    FirstRecord(clock, es, i, c);
    RetirementKept(clock, es, i + 1, j, c);
  }

  /** Two regenerations of one user that read the same old code: the code that the first one
      assigned is given up by the second without a record, and can be assigned at once. */
  lemma ReusedAtOnce()
    ensures var es := [Register("u", "A"), Replace("u", "A", "B"), Replace("u", "A", "C"), Register("v", "B")];
            var read, st := After(0, es, 1), After(0, es, 2);
            && "u" in read.users && read.users["u"] == "A" && Free(read, "B") && Free(read, "C")
            && GivesUp(st, es[2], "B") && !Records(st, es[2], "B")
            && Assigns(After(0, es, 3), es[3], "B") && After(0, es, 3).clock == st.clock
  {
    var es := [Register("u", "A"), Replace("u", "A", "B"), Replace("u", "A", "C"), Register("v", "B")];
    assert After(0, es, 0) == State(map[], map[], 0);
    assert After(0, es, 1) == State(map["u" := "A"], map[], 0);
    assert After(0, es, 2) == State(map["u" := "B"], map["A" := 0], 0);
    assert After(0, es, 3) == State(map["u" := "C"], map["A" := 0], 0);
    assert After(0, es, 4).users == map["u" := "C", "v" := "B"];
  }

  /** A code that is found free, then assigned to somebody else and given up, is assigned all the
      same, and is then held and retired. */
  lemma HeldAndRetired()
    ensures var es := [Register("u", "A"), Regenerate("u", "B"), Enroll("v", "A")];
            && Free(After(0, es, 0), "A") && Revives(After(0, es, 2), es[2])
            && Assigns(After(0, es, 2), es[2], "A") && !NoneRetired(After(0, es, 3))
  {
    var es := [Register("u", "A"), Regenerate("u", "B"), Enroll("v", "A")];
    assert After(0, es, 0) == State(map[], map[], 0);
    assert After(0, es, 1) == State(map["u" := "A"], map[], 0);
    assert After(0, es, 2) == State(map["u" := "B"], map["A" := 0], 0);
    assert After(0, es, 3) == State(map["u" := "B", "v" := "A"], map["A" := 0], 0);
    assert !NoneRetired(After(0, es, 3)) by {
      assert After(0, es, 3).users["v"] in After(0, es, 3).retired;
    }
  }

  const OLD_RECORD_RUN := [
    Register("u", "A"), Regenerate("u", "B"), Enroll("v", "A"), Tick(86000), Regenerate("v", "C"), Tick(500), Cleanup,
    Register("w", "A")]

  lemma OldRecordStates()
    ensures After(0, OLD_RECORD_RUN, 0) == State(map[], map[], 0)
    ensures After(0, OLD_RECORD_RUN, 2) == State(map["u" := "B"], map["A" := 0], 0)
    ensures After(0, OLD_RECORD_RUN, 4) == State(map["u" := "B", "v" := "A"], map["A" := 0], 86000)
  {
    assert After(0, OLD_RECORD_RUN, 1) == State(map["u" := "A"], map[], 0);
    assert After(0, OLD_RECORD_RUN, 2) == State(map["u" := "B"], map["A" := 0], 0);
    assert After(0, OLD_RECORD_RUN, 3) == State(map["u" := "B", "v" := "A"], map["A" := 0], 0);
  }

  /** A code that is both held and retired is given up: its record keeps the older time, and after
      500 seconds the code is assigned again. */
  lemma ReusedAfterOldRecord()
    ensures var es := OLD_RECORD_RUN;
            var st, end := After(0, es, 4), After(0, es, 7);
            && GivesUp(st, es[4], "A") && !ReadStale(st, es[4]) && !Records(st, es[4], "A")
            && Assigns(end, es[7], "A") && end.clock == st.clock + 500
  {
    var es := OLD_RECORD_RUN;
    OldRecordStates();
    assert After(0, es, 5) == State(map["u" := "B", "v" := "C"], map["A" := 0], 86000);
    assert After(0, es, 6) == State(map["u" := "B", "v" := "C"], map["A" := 0], 86500);
    assert Kept(map["A" := 0], 86500) == map[];
    assert After(0, es, 7) == State(map["u" := "B", "v" := "C"], map[], 86500);
    assert After(0, es, 8).users["w"] == "A";
  }
}
