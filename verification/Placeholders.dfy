/** The placeholder rewriter of the PostgreSQL driver: each `?` of a query becomes a
    numbered parameter `$1`, `$2`, ... (internal/db/postgres.go). */
module Placeholders {

  /** One item of a query. */
  datatype Token = Text(c: char) | Param(number: nat)

  predicate IsDigit(c: char) {
    '0' <= c <= '9'
  }

  predicate AllDigits(s: string) {
    forall i | 0 <= i < |s| :: IsDigit(s[i])
  }

  /** A non-negative number in decimal, without leading zeros. */
  function Decimal(n: nat): (ds: string)
    ensures ds != "" && AllDigits(ds)
  {
    var last := [('0' as int + n % 10) as char];
    if n < 10 then last else Decimal(n / 10) + last
  }

  /** The number a string of decimal digits stands for. */
  function Value(ds: string): nat
    requires AllDigits(ds)
  {
    if ds == "" then 0
    else Value(ds[..|ds| - 1]) * 10 + (ds[|ds| - 1] as int - '0' as int)
  }

  lemma {:induction false} ValueDecimal(n: nat)
    ensures Value(Decimal(n)) == n
  {
    var last := [('0' as int + n % 10) as char];
    if n < 10 {
      assert last[..0] == "";
    } else {
      ValueDecimal(n / 10);
      assert (Decimal(n / 10) + last)[..|Decimal(n / 10)|] == Decimal(n / 10);
    }
  }

  /** Ten digits, the most significant one first. */
  lemma DecimalForm(n: nat, d: nat)
    requires n > 0 && d < 10
    ensures Decimal(d) == ["0123456789"[d]]
    ensures Decimal(10 * n + d) == Decimal(n) + ["0123456789"[d]]
  {
    assert ('0' as int + d) as char == "0123456789"[d];
  }

  /** What one character becomes; `n` is the count of `?`s up to and including it. */
  function Item(c: char, n: nat): string {
    if c == '?' then "$" + Decimal(n) else [c]
  }

  /** The rewritten text when `n` parameters have been numbered already. */
  function Convert(sql: string, n: nat): string {
    if sql == "" then ""
    else
      var m := if sql[0] == '?' then n + 1 else n;
      Item(sql[0], m) + Convert(sql[1..], m)
  }

  lemma Assoc(a: string, b: string, c: string)
    ensures (a + b) + c == a + (b + c)
  {
  }

  // ---- How the result is read back ----

  /** Length of the run of digits a text starts with. */
  function LeadDigits(s: string): (n: nat)
    ensures n <= |s| && AllDigits(s[..n])
    ensures n < |s| ==> !IsDigit(s[n])
  {
    if s == "" || !IsDigit(s[0]) then 0 else 1 + LeadDigits(s[1..])
  }

  /** Reading a query by maximal munch: a `$` with digits behind it is a parameter
      whose number takes in every digit that follows; anything else is text. */
  function Munch(s: string): seq<Token>
    decreases |s|
  {
    if s == "" then []
    else
      var digits := LeadDigits(s[1..]);
      if s[0] == '$' && digits > 0
      then [Param(Value(s[1..][..digits]))] + Munch(s[1 + digits..])
      else [Text(s[0])] + Munch(s[1..])
  }

  /** What the author of the query meant: every `?` is a parameter, numbered in order
      after the first `n`; every other character is text. */
  function Numbered(sql: string, n: nat): (ts: seq<Token>)
    ensures |ts| == |sql|
  {
    if sql == "" then []
    else if sql[0] == '?' then [Param(n + 1)] + Numbered(sql[1..], n + 1)
    else [Text(sql[0])] + Numbered(sql[1..], n)
  }

  /** The text of a token sequence with the parameter numbers forgotten. */
  function Erase(ts: seq<Token>): string {
    if ts == [] then "" else [if ts[0].Param? then '?' else ts[0].c] + Erase(ts[1..])
  }

  /** The parameter numbers of a token sequence in order of appearance. */
  function Params(ts: seq<Token>): seq<nat> {
    if ts == [] then []
    else (if ts[0].Param? then [ts[0].number] else []) + Params(ts[1..])
  }

  function Marks(sql: string): nat {
    if sql == "" then 0 else (if sql[0] == '?' then 1 else 0) + Marks(sql[1..])
  }

  /** No `?` and no `$` stands directly before a digit. */
  predicate Clean(sql: string) {
    forall i | 0 <= i < |sql| - 1 :: sql[i] == '?' || sql[i] == '$' ==> !IsDigit(sql[i + 1])
  }

  /** Erasing the numbers gives the text back. */
  lemma {:induction false} NumberedText(sql: string, n: nat)
    ensures Erase(Numbered(sql, n)) == sql
  {
    if sql != "" {
      var m := if sql[0] == '?' then n + 1 else n;
      NumberedText(sql[1..], m);
      assert Numbered(sql, n)[1..] == Numbered(sql[1..], m);
      assert sql == [sql[0]] + sql[1..];
    }
  }

  /** The `?`s are numbered n+1, n+2, ... in order and without gap. */
  lemma {:induction false} NumberedParams(sql: string, n: nat)
    ensures |Params(Numbered(sql, n))| == Marks(sql)
    ensures forall i | 0 <= i < Marks(sql) :: Params(Numbered(sql, n))[i] == n + 1 + i
  {
    if sql != "" {
      var m := if sql[0] == '?' then n + 1 else n;
      NumberedParams(sql[1..], m);
      assert Numbered(sql, n)[1..] == Numbered(sql[1..], m);
    }
  }

  lemma ConvertTail(sql: string, n: nat)
    requires sql != "" && sql[0] != '?'
    ensures Convert(sql, n) == [sql[0]] + Convert(sql[1..], n)
    ensures Convert(sql, n)[1..] == Convert(sql[1..], n)
  {
  }

  /** The digits a text starts with pass through the conversion, and what follows them
      is converted on its own. */
  lemma {:induction false} LeadDigitsConvert(sql: string, n: nat)
    ensures var j := LeadDigits(sql);
            Convert(sql, n) == sql[..j] + Convert(sql[j..], n) &&
            LeadDigits(Convert(sql[j..], n)) == 0
  {
    if sql != "" && IsDigit(sql[0]) {
      var j, head, tail := LeadDigits(sql[1..]), [sql[0]], sql[1..];
      ConvertTail(sql, n);
      LeadDigitsConvert(tail, n);
      assert tail[j..] == sql[1 + j..];
      Assoc(head, tail[..j], Convert(tail[j..], n));
      assert sql[..1 + j] == head + tail[..j];
    } else {
      assert sql[0..] == sql;
      assert Convert(sql, n) != "" ==> !IsDigit(Convert(sql, n)[0]);
    }
  }

  lemma {:induction false} LeadDigitsAppend(ds: string, s: string)
    requires AllDigits(ds)
    ensures LeadDigits(ds + s) == |ds| + LeadDigits(s)
  {
    if ds == "" {
      assert ds + s == s;
    } else {
      assert (ds + s)[1..] == ds[1..] + s;
      LeadDigitsAppend(ds[1..], s);
    }
  }

  lemma MunchStep(ds: string, rest: string)
    requires AllDigits(ds) && ds != "" && LeadDigits(rest) == 0
    ensures Munch("$" + (ds + rest)) == [Param(Value(ds))] + Munch(rest)
  {
    LeadDigitsAppend(ds, rest);
    var s := "$" + (ds + rest);
    assert s[1..] == ds + rest;
    assert s[1..][..|ds|] == ds;
    assert s[1 + |ds|..] == rest;
  }

  /** Reading `$`, digits `ds`, and the converted form of a text: the parameter also
      swallows the digits that text starts with. */
  lemma MunchParam(ds: string, sql: string, n: nat)
    requires AllDigits(ds) && (ds != "" || LeadDigits(sql) > 0)
    ensures var j := LeadDigits(sql);
            AllDigits(ds + sql[..j]) &&
            Munch("$" + (ds + Convert(sql, n))) == [Param(Value(ds + sql[..j]))] + Munch(Convert(sql[j..], n))
  {
    var j := LeadDigits(sql);
    LeadDigitsConvert(sql, n);
    Assoc(ds, sql[..j], Convert(sql[j..], n));
    MunchStep(ds + sql[..j], Convert(sql[j..], n));
  }

  lemma MunchText(c: char, s: string)
    requires c != '$' || LeadDigits(s) == 0
    ensures Munch([c] + s) == [Text(c)] + Munch(s)
  {
    assert ([c] + s)[1..] == s;
  }

  /** One character and the reading of what it became. Either it is read on its own, or
      (a `?` or `$` before `j` digits) it swallows those digits. */
  lemma MunchItem(sql: string, n: nat)
    requires sql != ""
    ensures var tail, j := sql[1..], LeadDigits(sql[1..]);
            var m := if sql[0] == '?' then n + 1 else n;
            if (sql[0] == '?' || sql[0] == '$') && j > 0
            then |Munch(Convert(sql, n))| == 1 + |Munch(Convert(tail[j..], m))|
            else Munch(Convert(sql, n)) == [Numbered(sql, n)[0]] + Munch(Convert(tail, m))
  {
    var c, tail, j := sql[0], sql[1..], LeadDigits(sql[1..]);
    if c == '?' {
      var ds := Decimal(n + 1);
      Assoc("$", ds, Convert(tail, n + 1));
      MunchParam(ds, tail, n + 1);
      if j == 0 {
        assert ds + tail[..j] == ds && tail[j..] == tail;
        ValueDecimal(n + 1);
      }
    } else {
      ConvertTail(sql, n);
      if c == '$' && j > 0 {
        assert "" + Convert(tail, n) == Convert(tail, n);
        MunchParam("", tail, n);
      } else {
        LeadDigitsConvert(tail, n);
        if j == 0 { assert tail[j..] == tail; }
        MunchText(c, Convert(tail, n));
      }
    }
  }

  /** Reading the converted text never finds more items than the original has characters. */
  lemma {:induction false} MunchLength(sql: string, n: nat)
    ensures |Munch(Convert(sql, n))| <= |sql|
    decreases |sql|
  {
    if sql != "" {
      var m := if sql[0] == '?' then n + 1 else n;
      MunchItem(sql, n);
      MunchLength(sql[1..], m);
      MunchLength(sql[1..][LeadDigits(sql[1..])..], m);
    }
  }

  predicate CleanHead(sql: string)
    requires sql != ""
  {
    sql[0] == '?' || sql[0] == '$' ==> LeadDigits(sql[1..]) == 0
  }

  lemma CleanStep(sql: string)
    requires sql != ""
    ensures Clean(sql) <==> CleanHead(sql) && Clean(sql[1..])
  {
    var tail := sql[1..];
    if Clean(sql) {
      forall i | 0 <= i < |tail| - 1
        ensures tail[i] == '?' || tail[i] == '$' ==> !IsDigit(tail[i + 1])
      {
        assert tail[i] == sql[i + 1] && tail[i + 1] == sql[i + 2];
      }
    }
    if CleanHead(sql) && Clean(tail) {
      forall i | 0 <= i < |sql| - 1
        ensures sql[i] == '?' || sql[i] == '$' ==> !IsDigit(sql[i + 1])
      {
        if i == 0 {
          assert tail[0] == sql[1];
        } else {
          assert tail[i - 1] == sql[i] && tail[i] == sql[i + 1];
        }
      }
    }
  }

  lemma SameHead(t: Token, a: seq<Token>, b: seq<Token>)
    ensures [t] + a == [t] + b <==> a == b
  {
    assert ([t] + a)[1..] == a && ([t] + b)[1..] == b;
  }

  /** The main result, for every text: maximal munch on `$digits` reads the rewritten query as the
      author meant it if and only if no `?` and no `$` stands directly before a digit. */
  lemma {:induction false} ReadBackExactly(sql: string, n: nat)
    ensures Munch(Convert(sql, n)) == Numbered(sql, n) <==> Clean(sql)
  {
    if sql != "" {
      var m := if sql[0] == '?' then n + 1 else n;
      CleanStep(sql);
      MunchItem(sql, n);
      if CleanHead(sql) {
        ReadBackExactly(sql[1..], m);
        var t := Numbered(sql, n)[0];
        assert Numbered(sql, n) == [t] + Numbered(sql[1..], m);
        SameHead(t, Munch(Convert(sql[1..], m)), Numbered(sql[1..], m));
      } else {
        MunchLength(sql[1..][LeadDigits(sql[1..])..], m);
      }
    }
  }

  method ConvertPlaceholders(sql: string) returns (out: string)
    ensures out == Convert(sql, 0)
    ensures Munch(out) == Numbered(sql, 0) <==> Clean(sql)
  {
    out := "";
    var n := 0;
    for i := 0 to |sql|
      invariant n >= 0
      invariant out + Convert(sql[i..], n) == Convert(sql, 0)
    {
      assert sql[i..][1..] == sql[i + 1..];
      ghost var m := if sql[i] == '?' then n + 1 else n;
      Assoc(out, Item(sql[i], m), Convert(sql[i + 1..], m));
      if sql[i] == '?' {
        n := n + 1;
        out := out + ("$" + Decimal(n));
      } else {
        out := out + [sql[i]];
      }
    }
    assert out + "" == out;
    ReadBackExactly(sql, 0);
  }

  /** Hence a clean query comes back whole: its text, with the parameters 1..n in order. */
  lemma RecoverQuery(sql: string)
    requires Clean(sql)
    ensures var read := Munch(Convert(sql, 0));
            Erase(read) == sql && |Params(read)| == Marks(sql) &&
            forall i | 0 <= i < Marks(sql) :: Params(read)[i] == i + 1
  {
    ReadBackExactly(sql, 0);
    NumberedText(sql, 0);
    NumberedParams(sql, 0);
  }

  // ---- A decoder that knows which number comes next ----

  function Decode(out: string, n: nat): string
    decreases |out|
  {
    if out == "" then ""
    else if out[0] == '$' && Decimal(n + 1) <= out[1..]
    then "?" + Decode(out[1 + |Decimal(n + 1)|..], n + 1)
    else [out[0]] + Decode(out[1..], n)
  }

  lemma DecodeMark(rest: string, n: nat)
    ensures Decode("$" + (Decimal(n + 1) + rest), n) == "?" + Decode(rest, n + 1)
  {
    var ds := Decimal(n + 1);
    var out := "$" + (ds + rest);
    assert out[1..] == ds + rest;
    assert out[1 + |ds|..] == rest;
  }

  lemma DecodeText(c: char, rest: string, n: nat)
    requires c == '$' ==> !(Decimal(n + 1) <= rest)
    ensures Decode([c] + rest, n) == [c] + Decode(rest, n)
  {
    assert ([c] + rest)[1..] == rest;
  }

  lemma {:induction false} DigitsPrefix(ds: string, s: string)
    requires AllDigits(ds)
    ensures ds <= s <==> |ds| <= LeadDigits(s) && ds == s[..|ds|]
  {
    if ds != "" && s != "" {
      DigitsPrefix(ds[1..], s[1..]);
      if ds <= s {
        assert ds[0] == s[0];
        assert s[..|ds|][1..] == s[1..][..|ds| - 1];
      }
    }
  }

  /** Digits that the rewritten text starts with stand in the original. */
  lemma ConvertPrefix(ds: string, sql: string, n: nat)
    requires AllDigits(ds)
    ensures ds <= Convert(sql, n) <==> ds <= sql
  {
    var j := LeadDigits(sql);
    LeadDigitsConvert(sql, n);
    LeadDigitsAppend(sql[..j], Convert(sql[j..], n));
    DigitsPrefix(ds, sql);
    DigitsPrefix(ds, Convert(sql, n));
  }

  /** The `$` at position `i` is mistaken for the next parameter: the digits of its number follow. */
  predicate Mistaken(sql: string, n: nat, i: nat)
    requires i < |sql|
  {
    sql[i] == '$' && Decimal(n + Marks(sql[..i]) + 1) <= sql[i + 1..]
  }

  predicate Decodable(sql: string, n: nat) {
    forall i | 0 <= i < |sql| :: !Mistaken(sql, n, i)
  }

  lemma MistakenTail(sql: string, n: nat, i: nat)
    requires 0 < i < |sql|
    ensures var m := if sql[0] == '?' then n + 1 else n;
            Mistaken(sql, n, i) <==> Mistaken(sql[1..], m, i - 1)
  {
    assert sql[..i][1..] == sql[1..][..i - 1];
    assert sql[i + 1..] == sql[1..][i..];
  }

  lemma DecodableStep(sql: string, n: nat)
    requires sql != ""
    ensures var m := if sql[0] == '?' then n + 1 else n;
            Decodable(sql, n) <==> !Mistaken(sql, n, 0) && Decodable(sql[1..], m)
  {
    var m := if sql[0] == '?' then n + 1 else n;
    forall i | 0 < i < |sql|
      ensures Mistaken(sql, n, i) <==> Mistaken(sql[1..], m, i - 1)
    {
      MistakenTail(sql, n, i);
    }
    if Decodable(sql, n) {
      forall i | 0 <= i < |sql[1..]|
        ensures !Mistaken(sql[1..], m, i)
      {
        assert !Mistaken(sql, n, i + 1);
      }
    }
  }

  lemma SameTail(c: char, a: string, b: string)
    ensures [c] + a == [c] + b <==> a == b
  {
    assert ([c] + a)[1..] == a && ([c] + b)[1..] == b;
  }

  lemma DecodeHead(sql: string, n: nat)
    requires sql != ""
    ensures var m := if sql[0] == '?' then n + 1 else n;
            Decode(Convert(sql, n), n) == sql <==>
              !Mistaken(sql, n, 0) && Decode(Convert(sql[1..], m), m) == sql[1..]
  {
    var m := if sql[0] == '?' then n + 1 else n;
    var rest := Convert(sql[1..], m);
    assert sql[..0] == "" && Marks("") == 0;
    if sql[0] == '?' {
      Assoc("$", Decimal(n + 1), rest);
      DecodeMark(rest, n);
    } else {
      ConvertTail(sql, n);
      ConvertPrefix(Decimal(n + 1), sql[1..], n);
      if !Mistaken(sql, n, 0) {
        DecodeText(sql[0], rest, n);
      } else {
        assert Decode(Convert(sql, n), n)[0] == '?';
      }
    }
    assert sql == [sql[0]] + sql[1..];
    SameTail(sql[0], Decode(rest, m), sql[1..]);
  }

  /** The decoder gives the query back if and only if no `$` of the text stands directly before
      the number of the parameter that comes next; a digit behind a `?` does no harm. */
  lemma {:induction false} DecodeExactly(sql: string, n: nat)
    ensures Decode(Convert(sql, n), n) == sql <==> Decodable(sql, n)
  {
    if sql != "" {
      DecodeHead(sql, n);
      DecodableStep(sql, n);
      DecodeExactly(sql[1..], if sql[0] == '?' then n + 1 else n);
      hide Decode, Convert, Decodable, Mistaken;
    }
  }

  /** In particular on text without `$`. */
  lemma DecodeConvert(sql: string, n: nat)
    requires '$' !in sql
    ensures Decode(Convert(sql, n), n) == sql
  {
    DecodeExactly(sql, n);
  }

  /** So of two different queries that become the same one, one has such a `$`. */
  lemma CollisionNeedsDollar(a: string, b: string, n: nat)
    requires a != b && Convert(a, n) == Convert(b, n)
    ensures !Decodable(a, n) || !Decodable(b, n)
  {
    DecodeExactly(a, n);
    DecodeExactly(b, n);
  }

  /** With `$` in the text two different queries can become the same one. */
  lemma DollarCollision()
    ensures Convert("$1", 0) == Convert("?", 0) && !Decodable("$1", 0) && Decodable("?", 0)
  {
    assert Decimal(1) == "1";
    assert "$1"[1..] == "1" && "1"[1..] == "" && "?"[1..] == "";
    assert Convert("1", 0) == "1";
    assert "$1"[..0] == "" && Mistaken("$1", 0, 0);
  }
}
