/** The store of issued proof-of-work challenges: a challenge can be redeemed once, within
    five minutes, and a background sweep may drop what has expired (internal/pow/pow.go). */
module Challenges {
  import opened ProofOfWork

  datatype Entry = Entry(difficulty: int, expires: int, used: bool)

  type Store = map<string, Entry>

  /** Five minutes in milliseconds. */
  const LIFETIME := 300000

  /** SHA-256 of "challenge:nonce"; nothing is assumed about it. */
  type Digest = (string, int) -> seq<bv8>

  /** One call. Times are Unix milliseconds. */
  datatype Op =
    | Generate(c: string, now: int)
    | Verify(c: string, nonce: int, now: int)
    | Gc(now: int)

  predicate Redeemable(store: Store, c: string, now: int) {
    c in store && !store[c].used && now <= store[c].expires
  }

  predicate Accepts(store: Store, c: string, now: int, hash: seq<bv8>) {
    Redeemable(store, c, now) && MeetsTarget(hash, store[c].difficulty)
  }

  /** The store after an attempt to redeem `c`, whatever the nonce is worth. */
  function Attempted(store: Store, c: string, now: int): Store {
    if c !in store || store[c].used then store
    else if store[c].expires < now then store - {c}
    else store[c := store[c].(used := true)]
  }

  function Swept(store: Store, now: int): Store {
    map c | c in store && now <= store[c].expires :: store[c]
  }

  function Step(store: Store, op: Op, difficulty: int): Store {
    match op
    case Generate(c, now) => store[c := Entry(difficulty, now + LIFETIME, false)]
    case Verify(c, _, now) => Attempted(store, c, now)
    case Gc(now) => Swept(store, now)
  }

  class Service {
    const difficulty: int
    var store: Store

    constructor (difficulty: int)
      ensures this.difficulty == difficulty && store == map[]
    {
      this.difficulty := difficulty;
      store := map[];
    }

    /** `c` is the text built from the action, the time and eight random bytes. */
    method Generate(c: string, now: int) returns (challenge: string, bits: int)
      modifies this
      ensures challenge == c && bits == difficulty
      ensures store == Step(old(store), Op.Generate(c, now), difficulty)
      ensures store.Keys == old(store).Keys + {c} && forall k | k in old(store) && k != c :: store[k] == old(store)[k]
      ensures store[c].difficulty == difficulty && store[c].expires == now + 300000 && !store[c].used
    {
      store := store[c := Entry(difficulty, now + LIFETIME, false)];
      return c, difficulty;
    }

    /** `hash` is the digest of the challenge and the nonce. */
    method Verify(challenge: string, now: int, hash: seq<bv8>) returns (ok: bool)
      modifies this
      ensures ok <==> Accepts(old(store), challenge, now, hash)
      ensures store == Attempted(old(store), challenge, now)
      ensures ok ==> challenge in old(store) && !old(store)[challenge].used && now <= old(store)[challenge].expires
      ensures forall k | k != challenge :: k in store <==> k in old(store)
      ensures forall k | k in store && k != challenge :: store[k] == old(store)[k]
      ensures challenge !in old(store) || old(store)[challenge].used ==> store == old(store)
      ensures challenge in old(store) && !old(store)[challenge].used ==>
        if now <= old(store)[challenge].expires
        then challenge in store && store[challenge] == old(store)[challenge].(used := true)
        else challenge !in store
    {
      if challenge !in store {
        return false;
      }
      var e := store[challenge];
      if e.used {
        return false;
      }
      if e.expires < now {
        store := store - {challenge};
        return false;
      }
      store := store[challenge := e.(used := true)];
      ok := HasLeadingZeroBits(hash, e.difficulty);
    }

    method Gc(now: int)
      modifies this
      ensures store == Swept(old(store), now)
      ensures forall k :: k in store <==> k in old(store) && now <= old(store)[k].expires
      ensures forall k | k in store :: store[k] == old(store)[k]
    {
      var keys := store.Keys;
      while keys != {}
        invariant keys <= store.Keys <= old(store).Keys
        invariant forall k | k in store :: store[k] == old(store)[k]
        invariant forall k | k in old(store).Keys - keys :: k in store <==> now <= old(store)[k].expires
        decreases keys
      {
        var k :| k in keys;
        if store[k].expires < now {
          store := store - {k};
        }
        keys := keys - {k};
      }
    }
  }

  // ---- Whole runs ----

  /** The store after the first `j` calls of a run. */
  function After(ops: seq<Op>, j: nat, difficulty: int): Store
    requires j <= |ops|
  {
    if j == 0 then map[] else Step(After(ops, j - 1, difficulty), ops[j - 1], difficulty)
  }

  /** The clock does not run backwards. A sweep may act on an older reading, because it
      takes the time before it takes the lock. */
  predicate Monotone(ops: seq<Op>) {
    forall i, j | 0 <= i < j < |ops| && !ops[j].Gc? :: ops[i].now <= ops[j].now
  }

  predicate Touches(op: Op, c: string) {
    !op.Gc? && op.c == c
  }

  /** Call `g` issued `c`, and before call `j` nobody issued or tried `c` again. */
  predicate OpenSince(ops: seq<Op>, g: int, j: nat, c: string) {
    && 0 <= g < j <= |ops|
    && ops[g].Generate? && ops[g].c == c
    && forall i | g < i < j :: !Touches(ops[i], c)
  }

  predicate OpenIn(ops: seq<Op>, g: int, j: nat, c: string, now: int) {
    OpenSince(ops, g, j, c) && now <= ops[g].now + LIFETIME
  }

  lemma OthersLeaveAlone(store: Store, op: Op, difficulty: int, c: string, now: int)
    requires !Touches(op, c) && op.now <= now
    ensures Redeemable(Step(store, op, difficulty), c, now) <==> Redeemable(store, c, now)
    ensures Redeemable(store, c, now) ==> Step(store, op, difficulty)[c] == store[c]
  {
  }

  /** What the store says about `c` at time `now`, in terms of the calls alone. */
  lemma {:induction false} RedeemableExactly(ops: seq<Op>, j: nat, difficulty: int, c: string, now: int)
    requires j <= |ops|
    requires forall i | 0 <= i < j :: ops[i].now <= now
    ensures Redeemable(After(ops, j, difficulty), c, now) <==> exists g :: OpenIn(ops, g, j, c, now)
    ensures Redeemable(After(ops, j, difficulty), c, now) ==> After(ops, j, difficulty)[c].difficulty == difficulty
  {
    if j > 0 {
      var p, op := j - 1, ops[j - 1];
      RedeemableExactly(ops, p, difficulty, c, now);
      if Touches(op, c) {
        if op.Generate? {
          assert OpenIn(ops, p, j, c, now) <==> now <= op.now + LIFETIME;
        }
        assert forall g | OpenIn(ops, g, j, c, now) :: g == p;
      } else {
        OthersLeaveAlone(After(ops, p, difficulty), op, difficulty, c, now);
        if g :| OpenIn(ops, g, p, c, now) {
          assert OpenIn(ops, g, j, c, now);
        }
        if g :| OpenIn(ops, g, j, c, now) {
          assert OpenIn(ops, g, p, c, now);
        }
      }
    }
  }

  /** The lifetime in numbers: a challenge that is issued at `t` can be redeemed for 300000
      milliseconds and no longer, and after one attempt not at all. */
  lemma FiveMinutes(c: string, nonce: int, t: int, now: int, difficulty: int)
    ensures Redeemable(After([Generate(c, t)], 1, difficulty), c, now) <==> now - t <= 300000
    ensures !Redeemable(After([Generate(c, t), Verify(c, nonce, t)], 2, difficulty), c, now)
  {
    assert After([Generate(c, t)], 0, difficulty) == map[];
    assert After([Generate(c, t), Verify(c, nonce, t)], 0, difficulty) == map[];
    assert After([Generate(c, t), Verify(c, nonce, t)], 1, difficulty) == After([Generate(c, t)], 1, difficulty);
  }

  /** The main result. An attempt succeeds if and only if its challenge was issued at most
      five minutes ago, was not tried or issued again since, and the hash is below the
      target. Sweeps do not appear on the right-hand side. */
  lemma VerifyExactly(ops: seq<Op>, j: nat, difficulty: int, digest: Digest)
    requires Monotone(ops) && j < |ops| && ops[j].Verify?
    ensures var Verify(c, nonce, now) := ops[j];
            Accepts(After(ops, j, difficulty), c, now, digest(c, nonce)) <==>
            (exists g :: OpenIn(ops, g, j, c, now)) && MeetsTarget(digest(c, nonce), difficulty)
  {
    RedeemableExactly(ops, j, difficulty, ops[j].c, ops[j].now);
  }

  /** A second success, or a success after any other attempt, needs a fresh issue in between. */
  lemma NoSecondAttempt(ops: seq<Op>, i: nat, j: nat, difficulty: int, digest: Digest)
    requires Monotone(ops) && i < j < |ops| && ops[i].Verify? && ops[j].Verify? && ops[i].c == ops[j].c
    requires Accepts(After(ops, j, difficulty), ops[j].c, ops[j].now, digest(ops[j].c, ops[j].nonce))
    ensures exists g :: i < g < j && ops[g].Generate? && ops[g].c == ops[j].c
  {
    VerifyExactly(ops, j, difficulty, digest);
    var g :| OpenIn(ops, g, j, ops[j].c, ops[j].now);
    assert Touches(ops[i], ops[j].c);
  }

  /** The random part keeps challenges apart: each text is issued once in the run. */
  predicate FreshChallenges(ops: seq<Op>) {
    forall g, g' | 0 <= g < |ops| && 0 <= g' < |ops| && ops[g].Generate? && ops[g'].Generate? && ops[g].c == ops[g'].c
      :: g == g'
  }

  /** With fresh challenges no attempt made after the issue, good or bad, is followed by a success. */
  lemma SingleUse(ops: seq<Op>, g: nat, i: nat, j: nat, difficulty: int, digest: Digest)
    requires Monotone(ops) && FreshChallenges(ops) && g < i < j < |ops|
    requires ops[g].Generate? && ops[i].Verify? && ops[j].Verify? && ops[g].c == ops[i].c == ops[j].c
    ensures !Accepts(After(ops, j, difficulty), ops[j].c, ops[j].now, digest(ops[j].c, ops[j].nonce))
  {
    if Accepts(After(ops, j, difficulty), ops[j].c, ops[j].now, digest(ops[j].c, ops[j].nonce)) {
      NoSecondAttempt(ops, i, j, difficulty, digest);
    }
  }

  // ---- Sweeps are invisible ----

  /** The answers of the attempts of a run, in order. */
  function Verdicts(store: Store, ops: seq<Op>, difficulty: int, digest: Digest): seq<bool>
    decreases |ops|
  {
    if ops == [] then []
    else
      var op := ops[0];
      (if op.Verify? then [Accepts(store, op.c, op.now, digest(op.c, op.nonce))] else [])
      + Verdicts(Step(store, op, difficulty), ops[1..], difficulty, digest)
  }

  function WithoutSweeps(ops: seq<Op>): seq<Op> {
    if ops == [] then []
    else (if ops[0].Gc? then [] else [ops[0]]) + WithoutSweeps(ops[1..])
  }

  /** `swept` lacks only entries that every later call finds expired. */
  ghost predicate Lags(swept: Store, full: Store, later: seq<Op>) {
    && (forall c | c in swept :: c in full && swept[c] == full[c])
    && (forall c, i | c in full && c !in swept && 0 <= i < |later| && !later[i].Gc? ::
          full[c].expires < later[i].now)
  }

  lemma LagsStep(swept: Store, full: Store, ops: seq<Op>, difficulty: int)
    requires Monotone(ops) && ops != [] && Lags(swept, full, ops)
    ensures Lags(Step(swept, ops[0], difficulty),
                 if ops[0].Gc? then full else Step(full, ops[0], difficulty), ops[1..])
  {
    var op := ops[0];
    var swept', full' := Step(swept, op, difficulty), if op.Gc? then full else Step(full, op, difficulty);
    forall c, i | c in full' && c !in swept' && 0 <= i < |ops[1..]| && !ops[1..][i].Gc?
      ensures full'[c].expires < ops[1..][i].now
    {
      assert ops[1..][i] == ops[i + 1];
      assert c in full;
    }
  }

  /** Wherever sweeps stand in a run, removing them changes no answer. */
  lemma {:induction false} SweepsInvisible(swept: Store, full: Store, ops: seq<Op>, difficulty: int, digest: Digest)
    requires Monotone(ops) && Lags(swept, full, ops)
    ensures Verdicts(swept, ops, difficulty, digest) == Verdicts(full, WithoutSweeps(ops), difficulty, digest)
    decreases |ops|
  {
    if ops != [] {
      var op, tail := ops[0], ops[1..];
      LagsStep(swept, full, ops, difficulty);
      assert Monotone(tail) by {
        assert forall i | 0 <= i < |tail| :: tail[i] == ops[i + 1];
      }
      var swept' := Step(swept, op, difficulty);
      if op.Gc? {
        SweepsInvisible(swept', full, tail, difficulty, digest);
        assert WithoutSweeps(ops) == WithoutSweeps(tail);
      } else {
        SweepsInvisible(swept', Step(full, op, difficulty), tail, difficulty, digest);
        assert WithoutSweeps(ops)[1..] == WithoutSweeps(tail);
      }
    }
  }

  /** Two runs that make the same calls and differ only in their sweeps answer alike. */
  lemma SameAnswers(ops: seq<Op>, ops': seq<Op>, difficulty: int, digest: Digest)
    requires Monotone(ops) && Monotone(ops') && WithoutSweeps(ops) == WithoutSweeps(ops')
    ensures Verdicts(map[], ops, difficulty, digest) == Verdicts(map[], ops', difficulty, digest)
  {
    SweepsInvisible(map[], map[], ops, difficulty, digest);
    SweepsInvisible(map[], map[], ops', difficulty, digest);
  }
}
