/** Registration by invitation: one use of the inviter's code is consumed in the same
    transaction that inserts the new user (internal/routes/auth.go). */
module Registration {
  import opened Wrappers

  /** Uses a new user may give away. */
  const USES := 3

  /** A row of the user table, in order of registration. `inviter` (an index) and `granted`
      (the uses the user started with) are history. */
  datatype User = User(
    id: string, contactCode: string, name: string, key: string, chatKey: Option<string>,
    invite: Option<string>, uses: int, inviter: Option<nat>, granted: int)

  /** A request after trimming and upper-casing, with the proof-of-work verdict and the id and
      codes generated for it; `gotCode` and `gotInvite` say whether a free one was found. */
  datatype Request = Request(
    challenge: string, hasNonce: bool, powOk: bool, name: string, key: string, chatKey: string,
    invite: string, id: string, gotCode: bool, contactCode: string, gotInvite: bool, ownInvite: string)

  datatype Reply =
    | Missing | BadName | BadPow | KeyTaken | NameTaken | NoContactCode | NoInvitationCode | InviteInvalid
    | DbError | Created

  predicate Redeems(u: User, invite: string) {
    u.invite == Some(invite) && u.uses > 0
  }

  /** UPDATE users SET invitation_code_usages = invitation_code_usages - 1
      WHERE invitation_code = ... AND invitation_code_usages > 0 */
  function Consumed(users: seq<User>, invite: string): seq<User> {
    seq(|users|, i requires 0 <= i < |users| =>
      if Redeems(users[i], invite) then users[i].(uses := users[i].uses - 1) else users[i])
  }

  /** The query of inviteValidate. */
  predicate ValidInvite(users: seq<User>, invite: string) {
    exists i :: 0 <= i < |users| && Redeems(users[i], invite)
  }

  /** The position of a user who can still invite with this code. */
  function InviterOf(users: seq<User>, invite: string): (i: nat)
    requires ValidInvite(users, invite)
    ensures i < |users| && Redeems(users[i], invite)
  {
    if Redeems(users[|users| - 1], invite) then |users| - 1 else InviterOf(users[..|users| - 1], invite)
  }

  /** The UNIQUE columns leave room for the new row. */
  predicate RoomFor(users: seq<User>, r: Request) {
    forall u | u in users ::
      && u.id != r.id && u.contactCode != r.contactCode && u.key != r.key
      && u.chatKey != Some(r.chatKey) && u.invite != Some(r.ownInvite)
  }

  function NewUser(r: Request, inviter: nat): User {
    User(r.id, r.contactCode, r.name, r.key, Some(r.chatKey), Some(r.ownInvite), USES, Some(inviter), USES)
  }

  function CharBytes(c: char): nat {
    if c as int < 0x80 then 1 else if c as int < 0x800 then 2 else if c as int < 0x1_0000 then 3 else 4
  }

  /** len of a Go string: the bytes of its UTF-8 form. */
  function ByteLength(s: string): nat {
    if s == "" then 0
    else ByteLength(s[..|s| - 1]) + CharBytes(s[|s| - 1])
  }

  predicate ProperName(name: string) {
    1 <= ByteLength(name) <= 50
  }

  /** Everything but the invitation is in order. */
  predicate Acceptable(users: seq<User>, r: Request) {
    && r.challenge != "" && r.hasNonce && r.key != "" && r.chatKey != "" && ProperName(r.name) && r.invite != ""
    && r.powOk && (forall u | u in users :: u.name != r.name) && r.gotCode && r.gotInvite && RoomFor(users, r)
  }

  /** `Transact` is the transaction of a registration alone, at a later time than its checks. */
  datatype Event = Register(r: Request) | Transact(r: Request)

  predicate Succeeds(users: seq<User>, e: Event) {
    ValidInvite(users, e.r.invite) && if e.Register? then Acceptable(users, e.r) else RoomFor(users, e.r)
  }

  function Step(users: seq<User>, e: Event): seq<User> {
    if Succeeds(users, e) then Consumed(users, e.r.invite) + [NewUser(e.r, InviterOf(users, e.r.invite))] else users
  }

  function After(seeds: seq<User>, es: seq<Event>, j: nat): seq<User>
    requires j <= |es|
  {
    if j == 0 then seeds else Step(After(seeds, es, j - 1), es[j - 1])
  }

  /** The UPDATE changes a row exactly when some user with this code has uses left. */
  lemma ConsumesExactly(users: seq<User>, invite: string)
    ensures Consumed(users, invite) != users <==> ValidInvite(users, invite)
  {
    if ValidInvite(users, invite) {
      var i := InviterOf(users, invite);
      assert Consumed(users, invite)[i].uses == users[i].uses - 1;
    }
  }

  class Registry {
    var users: seq<User>

    constructor (seeds: seq<User>)
      ensures users == seeds
    {
      users := seeds;
    }

    /** Yes if and only if the code is one that the UPDATE of a registration takes a use from, so
        that a registration with this code and nothing else amiss adds a user. */
    method InviteValidate(invite: string) returns (valid: bool)
      ensures valid <==> invite != "" && Consumed(users, invite) != users
      ensures valid <==> invite != "" && exists u :: u in users && u.invite == Some(invite) && u.uses > 0
      ensures forall r: Request | r.invite == invite && Acceptable(users, r) ::
        |Step(users, Event.Register(r))| == |users| + if valid then 1 else 0
    {
      ConsumesExactly(users, invite);
      valid := invite != "" && exists i :: 0 <= i < |users| && Redeems(users[i], invite);
    }

    /** Consume, then insert; a failed insert takes the consumed use back. */
    method Transaction(r: Request) returns (reply: Reply)
      modifies this
      ensures reply == if !ValidInvite(old(users), r.invite) then InviteInvalid
                       else if RoomFor(old(users), r) then Created else DbError
      ensures users == Step(old(users), Transact(r))
      ensures reply == Created <==>
        && (exists u :: u in old(users) && u.invite == Some(r.invite) && u.uses > 0)
        && forall u | u in old(users) ::
             && u.id != r.id && u.contactCode != r.contactCode && u.key != r.key
             && u.chatKey != Some(r.chatKey) && u.invite != Some(r.ownInvite)
      ensures reply != Created ==> users == old(users)
      ensures reply == Created ==> |users| == |old(users)| + 1
      ensures reply == Created ==>
        var u := users[|old(users)|];
        && u.id == r.id && u.contactCode == r.contactCode && u.name == r.name && u.key == r.key
        && u.chatKey == Some(r.chatKey) && u.invite == Some(r.ownInvite) && u.uses == 3
      ensures reply == Created ==> forall i | 0 <= i < |old(users)| ::
        users[i] == if old(users)[i].invite == Some(r.invite) && old(users)[i].uses > 0
                    then old(users)[i].(uses := old(users)[i].uses - 1) else old(users)[i]
    {
      if !ValidInvite(users, r.invite) {
        return InviteInvalid;
      }
      var inviter := InviterOf(users, r.invite);
      var tx := Consumed(users, r.invite);
      if exists u | u in tx :: u.id == r.id || u.contactCode == r.contactCode || u.key == r.key
                               || u.chatKey == Some(r.chatKey) || u.invite == Some(r.ownInvite) {
        ghost var u :| u in tx && (u.id == r.id || u.contactCode == r.contactCode || u.key == r.key
                                   || u.chatKey == Some(r.chatKey) || u.invite == Some(r.ownInvite));
        ghost var i :| 0 <= i < |tx| && tx[i] == u;
        assert users[i] in users;
        return DbError;
      }
      assert RoomFor(users, r) by {
        forall u | u in users
          ensures u.id != r.id && u.contactCode != r.contactCode && u.key != r.key
                  && u.chatKey != Some(r.chatKey) && u.invite != Some(r.ownInvite)
        {
          var i :| 0 <= i < |users| && users[i] == u;
          assert tx[i] in tx;
        }
      }
      users := tx + [NewUser(r, inviter)];
      return Created;
    }

    method Register(r: Request) returns (reply: Reply)
      modifies this
      ensures users == Step(old(users), Event.Register(r))
      ensures reply == Created <==> Acceptable(old(users), r) && ValidInvite(old(users), r.invite)
      ensures reply == Created <==>
        && r.challenge != "" && r.hasNonce && r.key != "" && r.chatKey != "" && r.invite != ""
        && 1 <= ByteLength(r.name) <= 50 && r.powOk && r.gotCode && r.gotInvite
        && (exists u :: u in old(users) && u.invite == Some(r.invite) && u.uses > 0)
        && forall u | u in old(users) ::
             && u.id != r.id && u.contactCode != r.contactCode && u.key != r.key && u.name != r.name
             && u.chatKey != Some(r.chatKey) && u.invite != Some(r.ownInvite)
      ensures reply != Created ==> users == old(users)
      ensures reply == Created ==> |users| == |old(users)| + 1
      ensures reply == Created ==>
        var u := users[|old(users)|];
        && u.id == r.id && u.contactCode == r.contactCode && u.name == r.name && u.key == r.key
        && u.chatKey == Some(r.chatKey) && u.invite == Some(r.ownInvite) && u.uses == 3
      ensures reply == Created ==> forall i | 0 <= i < |old(users)| ::
        users[i] == if old(users)[i].invite == Some(r.invite) && old(users)[i].uses > 0
                    then old(users)[i].(uses := old(users)[i].uses - 1) else old(users)[i]
      ensures reply == BadPow ==> !r.powOk
      ensures reply == KeyTaken ==> exists u :: u in old(users) && u.key == r.key
      ensures reply == NameTaken ==> exists u :: u in old(users) && u.name == r.name
      ensures reply == NoContactCode ==> !r.gotCode
      ensures reply == NoInvitationCode ==> r.gotCode && !r.gotInvite
      ensures reply == InviteInvalid ==> !ValidInvite(old(users), r.invite)
      ensures reply == DbError ==> ValidInvite(old(users), r.invite) && !RoomFor(old(users), r)
      ensures reply == BadName ==> !ProperName(r.name)
      ensures reply == Missing ==> r.challenge == "" || !r.hasNonce || r.key == "" || r.chatKey == "" || r.invite == ""
    {
      if r.challenge == "" || !r.hasNonce || r.key == "" || r.chatKey == "" {
        return Missing;
      }
      var length := ByteLength(r.name);
      if length < 1 || length > 50 {
        return BadName;
      }
      if r.invite == "" {
        return Missing;
      }
      if !r.powOk {
        return BadPow;
      }
      if exists u | u in users :: u.key == r.key {
        return KeyTaken;
      }
      if exists u | u in users :: u.name == r.name {
        return NameTaken;
      }
      if !r.gotCode {
        return NoContactCode;
      }
      if !r.gotInvite {
        return NoInvitationCode;
      }
      reply := Transaction(r);
    }
  }

  // ---- Conservation ----

  function TotalUses(users: seq<User>): int {
    if users == [] then 0 else TotalUses(users[..|users| - 1]) + users[|users| - 1].uses
  }

  /** How many users `i` has invited directly. */
  function Invitees(users: seq<User>, i: nat): nat {
    if users == [] then 0
    else Invitees(users[..|users| - 1], i) + if users[|users| - 1].inviter == Some(i) then 1 else 0
  }

  /** Invitation codes are distinct, no count is negative, every inviter registered earlier,
      and the uses left plus the direct invitees are the uses a user started with. */
  ghost predicate Invariant(users: seq<User>, seeds: nat) {
    && seeds <= |users|
    && (forall i, k | 0 <= i < k < |users| && users[i].invite.Some? :: users[i].invite != users[k].invite)
    && (forall i | 0 <= i < |users| :: users[i].uses >= 0)
    && (forall i | 0 <= i < |users| :: users[i].uses + Invitees(users, i) == users[i].granted)
    && (forall i | 0 <= i < seeds :: users[i].inviter.None?)
    && (forall i | seeds <= i < |users| ::
          users[i].inviter.Some? && users[i].inviter.value < i && users[i].granted == USES)
  }

  /** What is assumed of the users that were there before the run. */
  ghost predicate ProperSeeds(seeds: seq<User>) {
    && (forall i, k | 0 <= i < k < |seeds| && seeds[i].invite.Some? :: seeds[i].invite != seeds[k].invite)
    && (forall i | 0 <= i < |seeds| :: seeds[i].inviter.None? && seeds[i].uses == seeds[i].granted >= 0)
  }

  lemma {:induction false} NoInvitees(users: seq<User>, i: nat)
    requires forall u | u in users :: u.inviter != Some(i)
    ensures Invitees(users, i) == 0
  {
    if users != [] {
      NoInvitees(users[..|users| - 1], i);
    }
  }

  lemma {:induction false} SameInvitees(a: seq<User>, b: seq<User>, i: nat)
    requires |a| == |b| && forall k | 0 <= k < |a| :: a[k].inviter == b[k].inviter
    ensures Invitees(a, i) == Invitees(b, i)
  {
    if a != [] {
      SameInvitees(a[..|a| - 1], b[..|b| - 1], i);
    }
  }

  lemma InviteesAppend(users: seq<User>, u: User, i: nat)
    ensures Invitees(users + [u], i) == Invitees(users, i) + if u.inviter == Some(i) then 1 else 0
  {
    assert (users + [u])[..|users|] == users;
  }

  lemma {:induction false} SameTotal(a: seq<User>, b: seq<User>)
    requires |a| == |b| && forall k | 0 <= k < |a| :: a[k].uses == b[k].uses
    ensures TotalUses(a) == TotalUses(b)
  {
    if a != [] {
      SameTotal(a[..|a| - 1], b[..|b| - 1]);
    }
  }

  lemma {:induction false} OneLess(a: seq<User>, b: seq<User>, i: nat)
    requires |a| == |b| && i < |a|
    requires forall k | 0 <= k < |a| :: b[k].uses == if k == i then a[k].uses - 1 else a[k].uses
    ensures TotalUses(b) == TotalUses(a) - 1
  {
    if i == |a| - 1 {
      SameTotal(a[..i], b[..i]);
    } else {
      OneLess(a[..|a| - 1], b[..|b| - 1], i);
    }
  }

  /** With distinct codes exactly one user pays for an invitation. */
  lemma OnlyInviterPays(users: seq<User>, seeds: nat, invite: string)
    requires Invariant(users, seeds) && ValidInvite(users, invite)
    ensures forall k | 0 <= k < |users| :: Redeems(users[k], invite) <==> k == InviterOf(users, invite)
  {
  }

  lemma TotalAppend(users: seq<User>, u: User)
    ensures TotalUses(users + [u]) == TotalUses(users) + u.uses
  {
    assert (users + [u])[..|users|] == users;
  }

  /** A successful registration moves one use to an invitee and grants three new ones. */
  lemma RegisteredBalance(users: seq<User>, seeds: nat, r: Request, i: nat)
    requires Invariant(users, seeds) && ValidInvite(users, r.invite) && i <= |users|
    ensures var users' := Consumed(users, r.invite) + [NewUser(r, InviterOf(users, r.invite))];
            users'[i].uses + Invitees(users', i) == users'[i].granted
  {
    var inviter, paid := InviterOf(users, r.invite), Consumed(users, r.invite);
    OnlyInviterPays(users, seeds, r.invite);
    InviteesAppend(paid, NewUser(r, inviter), i);
    SameInvitees(users, paid, i);
    if i == |users| {
      NoInvitees(users, i);
    }
  }

  lemma RegisteredTotal(users: seq<User>, seeds: nat, r: Request)
    requires Invariant(users, seeds) && ValidInvite(users, r.invite)
    ensures TotalUses(Consumed(users, r.invite) + [NewUser(r, InviterOf(users, r.invite))]) == TotalUses(users) + 2
  {
    OnlyInviterPays(users, seeds, r.invite);
    OneLess(users, Consumed(users, r.invite), InviterOf(users, r.invite));
    TotalAppend(Consumed(users, r.invite), NewUser(r, InviterOf(users, r.invite)));
  }

  lemma RegisteredDistinct(users: seq<User>, seeds: nat, r: Request, i: nat, k: nat)
    requires Invariant(users, seeds) && ValidInvite(users, r.invite) && RoomFor(users, r) && i < k <= |users|
    ensures var users' := Consumed(users, r.invite) + [NewUser(r, InviterOf(users, r.invite))];
            users'[i].invite.Some? ==> users'[i].invite != users'[k].invite
  {
    assert users[i] in users;
    assert Consumed(users, r.invite)[i].invite == users[i].invite;
    if k < |users| {
      assert Consumed(users, r.invite)[k].invite == users[k].invite;
    }
  }

  lemma RegisteredInvariant(users: seq<User>, seeds: nat, r: Request)
    requires Invariant(users, seeds) && ValidInvite(users, r.invite) && RoomFor(users, r)
    ensures Invariant(Consumed(users, r.invite) + [NewUser(r, InviterOf(users, r.invite))], seeds)
  {
    var users' := Consumed(users, r.invite) + [NewUser(r, InviterOf(users, r.invite))];
    forall i | 0 <= i < |users'|
      ensures users'[i].uses + Invitees(users', i) == users'[i].granted
    {
      RegisteredBalance(users, seeds, r, i);
    }
    forall i, k | 0 <= i < k < |users'| && users'[i].invite.Some?
      ensures users'[i].invite != users'[k].invite
    {
      RegisteredDistinct(users, seeds, r, i, k);
    }
  }

  lemma StepInvariant(users: seq<User>, seeds: nat, e: Event)
    requires Invariant(users, seeds)
    ensures Invariant(Step(users, e), seeds)
    ensures TotalUses(Step(users, e)) == TotalUses(users) + 2 * (|Step(users, e)| - |users|)
  {
    if Succeeds(users, e) {
      RegisteredTotal(users, seeds, e.r);
      RegisteredInvariant(users, seeds, e.r);
    }
  }

  lemma SeedInvariant(seeds: seq<User>)
    requires ProperSeeds(seeds)
    ensures Invariant(seeds, |seeds|)
  {
    forall i | 0 <= i < |seeds|
      ensures Invitees(seeds, i) == 0
    {
      NoInvitees(seeds, i);
    }
  }

  /** The main result, over every run of successful and failed registrations, however their
      checks and transactions interleave: the uses left grow by exactly two with every
      registration, and the invariant holds: no count below zero, and each registered user's
      uses left plus direct invitees are three. */
  lemma {:induction false} UsesConserved(seeds: seq<User>, es: seq<Event>, j: nat)
    requires ProperSeeds(seeds) && j <= |es|
    ensures var users := After(seeds, es, j);
            Invariant(users, |seeds|) && TotalUses(users) == TotalUses(seeds) + 2 * (|users| - |seeds|)
            && forall i | |seeds| <= i < |users| :: users[i].uses + Invitees(users, i) == 3
  {
    if j == 0 {
      SeedInvariant(seeds);
    } else {
      UsesConserved(seeds, es, j - 1);
      StepInvariant(After(seeds, es, j - 1), |seeds|, es[j - 1]);
    }
  }

  /** Following inviters back from user `i`. */
  function Root(users: seq<User>, seeds: nat, i: nat): nat
    requires i < |users|
    requires forall k | seeds <= k < |users| :: users[k].inviter.Some? && users[k].inviter.value < k
    decreases i
  {
    if i < seeds then i else Root(users, seeds, users[i].inviter.value)
  }

  /** The inviter relation is a forest: from every user it leads back, without a cycle, to
      one of the users that were there before the run, who has a code of their own. */
  lemma {:induction false} DescendsFromSeed(seeds: seq<User>, es: seq<Event>, j: nat, i: nat)
    requires ProperSeeds(seeds) && j <= |es| && i < |After(seeds, es, j)|
    ensures Invariant(After(seeds, es, j), |seeds|)
    ensures Root(After(seeds, es, j), |seeds|, i) < |seeds|
    decreases i
  {
    UsesConserved(seeds, es, j);
    if i >= |seeds| {
      DescendsFromSeed(seeds, es, j, After(seeds, es, j)[i].inviter.value);
    }
  }

  // ---- Names ----

  predicate DistinctNames(users: seq<User>) {
    forall i, k | 0 <= i < k < |users| :: users[i].name != users[k].name
  }

  /** The step that gives a name twice, as a guard on the state before: a transaction runs
      after its name, free when it was checked, has been taken. No column forbids it. */
  predicate Doubles(users: seq<User>, e: Event) {
    e.Transact? && Succeeds(users, e) && exists u :: u in users && u.name == e.r.name
  }

  lemma NamesAppend(users: seq<User>, paid: seq<User>, u: User)
    requires |paid| == |users| && forall i | 0 <= i < |users| :: paid[i].name == users[i].name
    ensures DistinctNames(paid + [u]) <==> DistinctNames(users) && forall v | v in users :: v.name != u.name
  {
    var users', n := paid + [u], |users|;
    assert forall i | 0 <= i < n :: users'[i].name == users[i].name && users[i] in users;
    assert users'[n] == u;
    if v :| v in users && v.name == u.name {
      var i :| 0 <= i < n && users[i] == v;
      assert users'[i].name == users'[n].name;
    }
    if i, k :| 0 <= i < k < n && users[i].name == users[k].name {
      assert users'[i].name == users'[k].name;
    }
  }

  lemma NamesStep(users: seq<User>, e: Event)
    ensures DistinctNames(Step(users, e)) <==> DistinctNames(users) && !Doubles(users, e)
  {
    if Succeeds(users, e) {
      NamesAppend(users, Consumed(users, e.r.invite), NewUser(e.r, InviterOf(users, e.r.invite)));
      hide DistinctNames, Consumed, ValidInvite, RoomFor;
    }
  }

  predicate DoublesBefore(seeds: seq<User>, es: seq<Event>, j: nat)
    requires j <= |es|
  {
    exists i :: 0 <= i < j && Doubles(After(seeds, es, i), es[i])
  }

  /** In every run display names are distinct if and only if no such late transaction occurs. */
  lemma {:induction false} NamesExactly(seeds: seq<User>, es: seq<Event>, j: nat)
    requires j <= |es| && DistinctNames(seeds)
    ensures DistinctNames(After(seeds, es, j)) <==> !DoublesBefore(seeds, es, j)
  {
    hide Doubles, DistinctNames, Step;
    if j > 0 {
      NamesExactly(seeds, es, j - 1);
      NamesStep(After(seeds, es, j - 1), es[j - 1]);
      assert DoublesBefore(seeds, es, j) <==>
             DoublesBefore(seeds, es, j - 1) || Doubles(After(seeds, es, j - 1), es[j - 1]);
    }
  }

  const SEED := User("s", "s", "seed", "s", None, Some("CODE"), USES, None, USES)

  const FIRST := Request("c", true, true, "name", "a", "a", "CODE", "a", true, "a", true, "a")

  const SECOND := Request("d", true, true, "name", "b", "b", "CODE", "b", true, "b", true, "b")

  /** The limit on names counts bytes; bytes and characters agree exactly on ASCII text. */
  lemma {:induction false} BytesExactly(s: string)
    ensures |s| <= ByteLength(s) <= 4 * |s|
    ensures ByteLength(s) == |s| <==> forall i | 0 <= i < |s| :: s[i] as int < 0x80
  {
    if s != "" {
      BytesExactly(s[..|s| - 1]);
    }
  }

  /** Of four characters none can make a name too long. */
  lemma ShortName(s: string)
    requires |s| == 4
    ensures ProperName(s)
  {
    BytesExactly(s);
  }

  /** Two registrations that pass their checks before either transaction both get the name. */
  lemma RacingNames()
    ensures Acceptable([SEED], FIRST) && Acceptable([SEED], SECOND)
    ensures var users := After([SEED], [Transact(FIRST), Transact(SECOND)], 2);
            |users| == 3 && users[1].name == users[2].name
  {
    var es := [Transact(FIRST), Transact(SECOND)];
    ShortName("name");
    assert Redeems([SEED][0], "CODE");
    var one := After([SEED], es, 1);
    assert After([SEED], es, 0) == [SEED];
    assert Redeems(one[0], "CODE");
    assert one[1] == NewUser(FIRST, 0);
    assert After([SEED], es, 2) == Step(one, es[1]);
  }

  /** How many bytes a letter takes. */
  lemma LetterBytes(c: char)
    ensures ByteLength([c]) == if c as int <= 0x7f then 1 else if c as int <= 0x7ff then 2
                               else if c as int <= 0xffff then 3 else 4
  {
    assert [c][..0] == "";
  }

  /** A name of two-byte letters is refused from 26 letters on. */
  lemma {:induction false} LongName(s: string)
    requires forall i | 0 <= i < |s| :: 0x80 <= s[i] as int < 0x800
    ensures ByteLength(s) == 2 * |s|
    ensures ProperName(s) <==> 1 <= |s| <= 25
  {
    if s != "" {
      LongName(s[..|s| - 1]);
    }
  }

  /** What validation promises: with a valid code an otherwise acceptable registration goes
      through and uses it up by one; with an invalid code nothing changes. */
  lemma ValidationIsHonest(users: seq<User>, seeds: nat, r: Request)
    requires Invariant(users, seeds) && Acceptable(users, r)
    ensures Step(users, Event.Register(r)) != users <==> ValidInvite(users, r.invite)
    ensures ValidInvite(users, r.invite) ==>
      var i, users' := InviterOf(users, r.invite), Step(users, Event.Register(r));
      users'[i].uses == users[i].uses - 1 && users'[|users|].inviter == Some(i)
  {
    assert |Step(users, Event.Register(r))| == |users| + 1 <==> ValidInvite(users, r.invite);
  }
}
