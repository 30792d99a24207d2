/** The canonical key of a call between two users, and the substring test that disconnect
    cleanup applies to it (internal/socketio/signaling.go). */
module CallKeys {

  /** The order in which sort.Strings puts two ids. */
  predicate LexLeq(a: string, b: string) {
    a == "" || (b != "" && (a[0] < b[0] || (a[0] == b[0] && LexLeq(a[1..], b[1..]))))
  }

  function CallKey(a: string, b: string): string {
    if LexLeq(a, b) then a + ":" + b else b + ":" + a
  }

  predicate FoundAt(s: string, t: string, i: int) {
    0 <= i <= |s| - |t| && s[i..i + |t|] == t
  }

  /** strings.Contains */
  predicate Contains(s: string, t: string) {
    exists i :: 0 <= i <= |s| - |t| && FoundAt(s, t, i)
  }

  /** As uuid.NewString makes them: one length, no colon. */
  predicate ProperId(id: string, length: nat) {
    |id| == length && ':' !in id
  }

  lemma {:induction false} LexTotal(a: string, b: string)
    ensures LexLeq(a, b) || LexLeq(b, a)
    ensures LexLeq(a, b) && LexLeq(b, a) ==> a == b
  {
    if a != "" && b != "" {
      LexTotal(a[1..], b[1..]);
      assert a == [a[0]] + a[1..] && b == [b[0]] + b[1..];
    }
  }

  /** The lesser id comes first, then a colon, then the other; letters count before length. */
  lemma KeyForm()
    ensures CallKey("ab", "b") == "ab:b" && CallKey("b", "ab") == "ab:b" && CallKey("a", "aa") == "a:aa"
  {
    assert "aa"[1..] == "a" && "a"[1..] == "";
  }

  /** The key does not depend on who calls whom. */
  lemma KeySymmetric(a: string, b: string)
    ensures CallKey(a, b) == CallKey(b, a)
  {
    LexTotal(a, b);
  }

  lemma JoinInjective(x: string, y: string, z: string, w: string)
    requires ':' !in x && ':' !in z && x + ":" + y == z + ":" + w
    ensures x == z && y == w
  {
    var s := x + ":" + y;
    assert s[|x|] == ':' && s[|z|] == ':';
    assert forall k | 0 <= k < |x| :: s[k] == x[k];
    assert forall k | 0 <= k < |z| :: s[k] == z[k];
    assert |x| == |z|;
    assert s[..|x|] == x && s[..|z|] == z;
    assert s[|x| + 1..] == y && s[|z| + 1..] == w;
  }

  /** Two pairs of colon-free ids share a key only if they are the same pair. */
  lemma KeyInjective(a: string, b: string, c: string, d: string)
    requires ':' !in a && ':' !in b && ':' !in c && ':' !in d
    requires CallKey(a, b) == CallKey(c, d)
    ensures (a == c && b == d) || (a == d && b == c)
  {
    var (x, y) := if LexLeq(a, b) then (a, b) else (b, a);
    var (z, w) := if LexLeq(c, d) then (c, d) else (d, c);
    JoinInjective(x, y, z, w);
  }

  lemma ContainsIn(s: string, pre: string, post: string, t: string)
    requires Contains(s, t)
    ensures Contains(pre + s + post, t)
  {
    var i :| 0 <= i <= |s| - |t| && FoundAt(s, t, i);
    var whole, k := pre + s + post, |pre| + i;
    assert whole[|pre|..|pre| + |s|] == s;
    assert whole[k..k + |t|] == s[i..i + |t|];
    assert FoundAt(whole, t, k);
  }

  /** A text without colon lies on one side of the colon. */
  lemma FoundInPart(x: string, y: string, t: string, i: nat)
    requires ':' !in t && i <= |x + ":" + y| - |t| && FoundAt(x + ":" + y, t, i)
    ensures Contains(x, t) || Contains(y, t)
  {
    var s := x + ":" + y;
    assert forall k | i <= k < i + |t| :: s[k] == t[k - i];
    assert s[|x|] == ':';
    if i + |t| <= |x| {
      assert FoundAt(x, t, i);
    } else {
      assert s[|x| + 1..] == y;
      assert s[i..i + |t|] == y[i - |x| - 1..i - |x| - 1 + |t|];
      assert FoundAt(y, t, i - |x| - 1);
    }
  }

  lemma JoinContains(x: string, y: string, t: string)
    requires ':' !in t
    ensures Contains(x + ":" + y, t) <==> Contains(x, t) || Contains(y, t)
  {
    var s := x + ":" + y;
    if Contains(x, t) {
      ContainsIn(x, "", ":" + y, t);
      assert "" + x + (":" + y) == s;
    }
    if Contains(y, t) {
      ContainsIn(y, x + ":", "", t);
      assert x + ":" + y + "" == s;
    }
    if i :| 0 <= i <= |s| - |t| && FoundAt(s, t, i) {
      FoundInPart(x, y, t, i);
    }
  }

  /** For any two parties the test finds a colon-free text in their key exactly when it is
      part of one of the two ids. */
  lemma KeyContains(a: string, b: string, t: string)
    requires ':' !in t
    ensures Contains(CallKey(a, b), t) <==> Contains(a, t) || Contains(b, t)
  {
    JoinContains(a, b, t);
    JoinContains(b, a, t);
  }

  /** Hence, for ids of one length, exactly when it is one of the two ids. */
  lemma ContainsParty(a: string, b: string, user: string, length: nat)
    requires ProperId(a, length) && ProperId(b, length) && ProperId(user, length)
    ensures Contains(CallKey(a, b), user) <==> user == a || user == b
  {
    KeyContains(a, b, user);
    assert forall s: string | |s| == length :: Contains(s, user) <==> s == user by {
      forall s: string | |s| == length
        ensures Contains(s, user) <==> s == user
      {
        assert FoundAt(s, user, 0) <==> s == user;
      }
    }
  }

  /** Why one length is needed: with ids of different lengths, which uuid.NewString never makes, the
      test would also pick calls of strangers. */
  lemma ContainsStranger()
    ensures Contains(CallKey("u10", "u2"), "u1")
  {
    assert LexLeq("u10", "u2") by {
      assert "u10"[1..] == "10" && "u2"[1..] == "2";
    }
    var key := CallKey("u10", "u2");
    assert key == "u10:u2";
    assert FoundAt(key, "u1", 0);
  }
}
