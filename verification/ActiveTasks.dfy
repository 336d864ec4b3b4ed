/** active-tasks.tsx: how the handle and the drop build the order that is submitted. */
module ActiveTasks {
  import opened Wrappers
  import opened Ordering
  import opened Schema
  import opened Store
  import opened TaskOrder

  /** `rows.findIndex((t) => t.id === id)`, None for -1. */
  method FindIndex(rows: seq<Task>, id: Option<nat>) returns (at: Option<nat>)
    ensures match at
            case None => forall i | 0 <= i < |rows| :: Some(rows[i].id) != id
            case Some(k) => k < |rows| && Some(rows[k].id) == id && forall i | 0 <= i < k :: Some(rows[i].id) != id
  {
    for i := 0 to |rows|
      invariant forall k | 0 <= k < i :: Some(rows[k].id) != id
    {
      if Some(rows[i].id) == id { return Some(i); }
    }
    return None;
  }

  /** `next.splice(at, 1)` and `next.splice(at, 0, row)`. */
  function Removed<T>(q: seq<T>, at: nat): seq<T>
    requires at < |q|
  {
    q[..at] + q[at + 1..]
  }

  function Inserted<T>(q: seq<T>, at: nat, x: T): seq<T>
    requires at <= |q|
  {
    q[..at] + [x] + q[at..]
  }

  /** The rows in their order, without the row `x`. */
  function Others<T(==)>(q: seq<T>, x: T): seq<T> {
    if q == [] then [] else Others(q[..|q| - 1], x) + (if q[|q| - 1] == x then [] else [q[|q| - 1]])
  }

  /** `x` stands directly before `y`. */
  ghost predicate JustBefore<T>(q: seq<T>, x: T, y: T) {
    exists i :: 0 <= i < |q| - 1 && q[i] == x && q[i + 1] == y
  }

  /** The order after dropping row `from` on row `target`: the dragged row goes directly
      before its target, and the others keep their order. */
  ghost predicate IsDrop(rows: seq<Task>, from: nat, target: nat, next: seq<Task>)
    requires from < |rows| && target < |rows|
  {
    && Others(next, rows[from]) == Others(rows, rows[from])
    && |next| == |rows| && rows[from] in next
    && (from != target ==> JustBefore(next, rows[from], rows[target]))
    && (from == target ==> next == rows)
  }

  /** A drop on row `target`. Nothing is submitted when the dragged row is not here, or
      when the drop would leave the order as it is: on itself, or on the row just after. */
  method DropOn(rows: seq<Task>, dragging: Option<nat>, target: nat) returns (submitted: Option<seq<Task>>)
    requires target < |rows| && Distinct(Ids(rows))
    ensures submitted.Some? <==>
              exists from :: 0 <= from < |rows| && Some(rows[from].id) == dragging
                             && target != from && target != from + 1
    ensures submitted.Some? ==>
              forall from | 0 <= from < |rows| && Some(rows[from].id) == dragging ::
                IsDrop(rows, from, target, submitted.value)
  {
    var found := FindIndex(rows, dragging);
    if found == None { return None; }
    var from := found.value;
    OneRowEach(rows, from);
    DistinctRows(rows);
    hide Others, JustBefore, IsDrop, SameIds, Distinct;
    var next := rows;
    var moved := next[from];
    next := Removed(next, from);
    var at := if from < target then target - 1 else target;
    next := Inserted(next, at, moved);
    DropFacts(rows, from, target, next);
    if SameIds(next, rows) { return None; }
    return Some(next);
  }

  /** `next.every((task, i) => task.id === rows[i].id)`. */
  predicate SameIds(next: seq<Task>, rows: seq<Task>)
    requires |next| == |rows|
  {
    forall i | 0 <= i < |next| :: next[i].id == rows[i].id
  }

  /** The handle's arrow keys: the row changes places with the one `delta` away, if there
      is one. */
  method Move(rows: seq<Task>, index: nat, delta: int) returns (submitted: Option<seq<Task>>)
    requires index < |rows|
    ensures submitted.Some? <==> 0 <= index + delta < |rows|
    ensures submitted.Some? ==>
              var next, target := submitted.value, index + delta;
              && |next| == |rows| && next[target] == rows[index] && next[index] == rows[target]
              && forall i | 0 <= i < |rows| && i != index && i != target :: next[i] == rows[i]
  {
    var target := index + delta;
    if target < 0 || target >= |rows| { return None; }
    var next := new Task[|rows|](i requires 0 <= i < |rows| => rows[i]);
    next[index], next[target] := next[target], next[index];
    submitted := Some(next[..]);
  }

  // ---------- facts of a drop ----------

  lemma OneRowEach(rows: seq<Task>, from: nat)
    requires Distinct(Ids(rows)) && from < |rows|
    ensures forall i | 0 <= i < |rows| && rows[i].id == rows[from].id :: i == from
  {
    assert forall i | 0 <= i < |rows| :: Ids(rows)[i] == rows[i].id;
  }

  lemma DistinctRows(rows: seq<Task>)
    requires Distinct(Ids(rows))
    ensures Distinct(rows)
  {
    forall i, j | 0 <= i < j < |rows| ensures rows[i] != rows[j] {
      assert Ids(rows)[i] != Ids(rows)[j];
    }
  }

  lemma {:induction false} OthersConcat<T>(a: seq<T>, b: seq<T>, x: T)
    ensures Others(a + b, x) == Others(a, x) + Others(b, x)
  {
    if b == [] {
      assert a + b == a;
    } else {
      var n := |b| - 1;
      assert (a + b)[..|a + b| - 1] == a + b[..n];
      OthersConcat(a, b[..n], x);
    }
  }

  lemma OthersOne<T>(x: T)
    ensures Others([x], x) == []
  {
    assert [x][..0] == [];
  }

  lemma OthersWithout(a: seq<Task>, x: Task, b: seq<Task>)
    ensures Others(a + [x] + b, x) == Others(a + b, x)
  {
    OthersOne(x);
    OthersConcat(a + [x], b, x);
    OthersConcat(a, [x], x);
    OthersConcat(a, b, x);
  }

  lemma OthersKept(rows: seq<Task>, from: nat, at: nat)
    requires from < |rows| && at < |rows|
    ensures Others(Inserted(Removed(rows, from), at, rows[from]), rows[from]) == Others(rows, rows[from])
  {
    hide Others;
    var x, rest := rows[from], Removed(rows, from);
    SplitRow(rows, from);
    OthersWithout(rows[..from], x, rows[from + 1..]);
    SplitAt(rest, at);
    OthersWithout(rest[..at], x, rest[at..]);
  }

  lemma SplitRow(rows: seq<Task>, at: nat)
    requires at < |rows|
    ensures rows[..at] + [rows[at]] + rows[at + 1..] == rows
  {}

  lemma SplitAt(rows: seq<Task>, at: nat)
    requires at <= |rows|
    ensures rows[..at] + rows[at..] == rows
  {}

  lemma DropFacts(rows: seq<Task>, from: nat, target: nat, next: seq<Task>)
    requires from < |rows| && target < |rows| && Distinct(Ids(rows)) && Distinct(rows)
    requires next == Inserted(Removed(rows, from), if from < target then target - 1 else target, rows[from])
    ensures IsDrop(rows, from, target, next)
    ensures SameIds(next, rows) <==> target == from || target == from + 1
  {
    var at := if from < target then target - 1 else target;
    OthersKept(rows, from, at);
    SameOnlyNearby(rows, from, target, next);
    hide Others, SameIds, Distinct;
    assert next[at] == rows[from];
    if from != target {
      assert next[at + 1] == rows[target];
      assert JustBefore(next, rows[from], rows[target]);
    }
  }

  lemma SameOnlyNearby(rows: seq<Task>, from: nat, target: nat, next: seq<Task>)
    requires from < |rows| && target < |rows| && Distinct(Ids(rows))
    requires next == Inserted(Removed(rows, from), if from < target then target - 1 else target, rows[from])
    ensures SameIds(next, rows) <==> target == from || target == from + 1
    ensures target == from ==> next == rows
  {
    var at := if from < target then target - 1 else target;
    if at == from {
      assert next == rows;
    } else {
      assert next[at] == rows[from];
      assert Ids(rows)[at] != Ids(rows)[from];
    }
  }

  // ---------- what is submitted is accepted ----------

  lemma {:induction false} OthersMembers<T>(q: seq<T>, x: T)
    ensures forall y :: y in Others(q, x) <==> y in q && y != x
  {
    if q != [] {
      var n := |q| - 1;
      OthersMembers(q[..n], x);
      assert q == q[..n] + [q[n]];
    }
  }

  lemma SameRowsSameOrder(rows: seq<Task>, next: seq<Task>, s: set<nat>)
    requires IsOrderOf(Ids(rows), s) && |next| == |rows|
    requires forall t :: t in next <==> t in rows
    ensures IsOrderOf(Ids(next), s)
  {
    forall id ensures id in Ids(next) <==> id in Ids(rows) {
      if id in Ids(next) {
        var i :| 0 <= i < |next| && Ids(next)[i] == id;
        assert next[i] in rows;
        var k :| 0 <= k < |rows| && rows[k] == next[i];
        assert Ids(rows)[k] == id;
      }
      if id in Ids(rows) {
        var i :| 0 <= i < |rows| && Ids(rows)[i] == id;
        assert rows[i] in next;
        var k :| 0 <= k < |next| && next[k] == rows[i];
        assert Ids(next)[k] == id;
      }
    }
    assert Elements(Ids(next)) == Elements(Ids(rows));
    DistinctSize(Ids(next));
    DistinctSize(Ids(rows));
  }

  /** An order built by a drop from the section the server shows is always accepted. */
  lemma DropIsAccepted(db: Db, owner: nat, list: nat, from: nat, target: nat, next: seq<Task>)
    requires OwnsList(db, owner, list)
    requires var rows := ActiveView(db, owner, list);
             from < |rows| && target < |rows| && IsDrop(rows, from, target, next)
    ensures TasksReordered(db, owner, list, Ids(next)).1 == Done
  {
    var rows := ActiveView(db, owner, list);
    ActiveViewFacts(db, owner, list);
    hide ActiveView, Others, JustBefore;
    OthersMembers(next, rows[from]);
    OthersMembers(rows, rows[from]);
    SameRowsSameOrder(rows, next, ActiveIds(db, owner, list));
    ReorderExact(db, owner, list, Ids(next));
  }

  /** And so is one built by a move. */
  lemma MoveIsAccepted(db: Db, owner: nat, list: nat, index: nat, target: nat, next: seq<Task>)
    requires OwnsList(db, owner, list)
    requires var rows := ActiveView(db, owner, list);
             && index < |rows| && target < |rows| && |next| == |rows|
             && next[target] == rows[index] && next[index] == rows[target]
             && forall i | 0 <= i < |rows| && i != index && i != target :: next[i] == rows[i]
    ensures TasksReordered(db, owner, list, Ids(next)).1 == Done
  {
    var rows := ActiveView(db, owner, list);
    ActiveViewFacts(db, owner, list);
    hide ActiveView;
    forall t ensures t in next <==> t in rows {
      if t in next {
        var i :| 0 <= i < |next| && next[i] == t;
        assert t == rows[if i == index then target else if i == target then index else i];
      }
      if t in rows {
        var i :| 0 <= i < |rows| && rows[i] == t;
        assert t == next[if i == index then target else if i == target then index else i];
      }
    }
    SameRowsSameOrder(rows, next, ActiveIds(db, owner, list));
    ReorderExact(db, owner, list, Ids(next));
  }
}
