/** A query with ORDER BY: the wanted rows of a table, ascending by time. */
module Queries {

  /** What the database may answer: every wanted row exactly once, under its id, by time;
      ties in any order. */
  ghost predicate Answers<V>(
    rows: seq<(string, V)>, table: map<string, V>, wanted: V -> bool, time: V -> int)
  {
    && (forall i, j | 0 <= i < j < |rows| :: time(rows[i].1) <= time(rows[j].1))
    && (forall i, j | 0 <= i < j < |rows| :: rows[i].0 != rows[j].0)
    && (forall i | 0 <= i < |rows| :: rows[i].0 in table && table[rows[i].0] == rows[i].1 && wanted(rows[i].1))
    && (forall id | id in table && wanted(table[id]) :: (id, table[id]) in rows)
  }

  lemma {:induction false} Earliest<V>(table: map<string, V>, time: V -> int, todo: set<string>) returns (id: string)
    requires todo != {} && todo <= table.Keys
    ensures id in todo && forall id' | id' in todo :: time(table[id]) <= time(table[id'])
    decreases todo
  {
    id :| id in todo;
    if todo != {id} {
      var other := Earliest(table, time, todo - {id});
      if time(table[other]) < time(table[id]) {
        id := other;
      }
    }
  }

  ghost predicate InOrder<V>(rows: seq<(string, V)>, todo: set<string>, table: map<string, V>, time: V -> int) {
    && (forall i, id | 0 <= i < |rows| && id in todo && id in table ::
          rows[i].0 != id && time(rows[i].1) <= time(table[id]))
    && (forall i, j | 0 <= i < j < |rows| :: time(rows[i].1) <= time(rows[j].1))
    && (forall i, j | 0 <= i < j < |rows| :: rows[i].0 != rows[j].0)
  }

  /** An answer that still lacks the rows in `todo`, none of which comes before a row it has. */
  ghost predicate Picked<V>(
    rows: seq<(string, V)>, todo: set<string>, table: map<string, V>, wanted: V -> bool, time: V -> int)
  {
    && InOrder(rows, todo, table, time)
    && (forall id | id in todo :: id in table && wanted(table[id]))
    && (forall i | 0 <= i < |rows| :: rows[i].0 in table && table[rows[i].0] == rows[i].1 && wanted(rows[i].1))
    && (forall id | id in table && wanted(table[id]) :: id in todo || (id, table[id]) in rows)
  }

  lemma NextInOrder<V>(rows: seq<(string, V)>, todo: set<string>, table: map<string, V>, time: V -> int, id: string)
    requires InOrder(rows, todo, table, time) && todo <= table.Keys
    requires id in todo && forall id' | id' in todo :: time(table[id]) <= time(table[id'])
    ensures InOrder(rows + [(id, table[id])], todo - {id}, table, time)
  {
    var rows' := rows + [(id, table[id])];
    assert forall i | 0 <= i < |rows| :: rows'[i] == rows[i] && rows[i].0 != id;
    assert rows'[|rows|] == (id, table[id]);
  }

  lemma PickNext<V>(
    rows: seq<(string, V)>, todo: set<string>, table: map<string, V>, wanted: V -> bool, time: V -> int, id: string)
    requires Picked(rows, todo, table, wanted, time)
    requires id in todo && forall id' | id' in todo :: time(table[id]) <= time(table[id'])
    ensures Picked(rows + [(id, table[id])], todo - {id}, table, wanted, time)
  {
    NextInOrder(rows, todo, table, time, id);
    hide InOrder;
    var rows' := rows + [(id, table[id])];
    assert forall i | 0 <= i < |rows| :: rows'[i] == rows[i];
    assert rows'[|rows|] == (id, table[id]);
    forall other | other in table && wanted(table[other]) && other !in todo - {id}
      ensures (other, table[other]) in rows'
    {
      if other != id {
        assert (other, table[other]) in rows;
      }
    }
  }

  method Select<V>(table: map<string, V>, wanted: V -> bool, time: V -> int) returns (rows: seq<(string, V)>)
    ensures Answers(rows, table, wanted, time)
  {
    rows := [];
    var todo := set id | id in table && wanted(table[id]);
    while todo != {}
      invariant Picked(rows, todo, table, wanted, time)
      decreases todo
    {
      ghost var first := Earliest(table, time, todo);
      var id :| id in todo && forall id' | id' in todo :: time(table[id]) <= time(table[id']);
      PickNext(rows, todo, table, wanted, time, id);
      rows := rows + [(id, table[id])];
      todo := todo - {id};
    }
  }
}
