/**
 * The repair-request lifecycle as the four guarded UPDATE statements of
 * `actionHandler` define it. Each statement names one request by id, and
 * rewrites it with its effect when its guard holds; the guard and the effect
 * are given per action, and a statement's meaning on the whole table is
 * `Updated` (the rows after) and `Affected` (the rows-affected count).
 */
module Lifecycle {
  import opened Wrappers
  import opened Structs

  /** The guarded update an action issues; `actor` is the session's uid. */
  datatype Op = AssignTo(master: int) | Cancel | Start(actor: int) | Finish(actor: int)

  /** The condition of the statement's WHERE clause besides `id = ?`. */
  predicate Guard(op: Op, r: Request) {
    match op
    case AssignTo(_) => r.status == New
    case Cancel => r.status == New || r.status == Assigned
    case Start(actor) => r.status == Assigned && r.assignedTo == Some(actor)
    case Finish(actor) => r.status == InProgress && r.assignedTo == Some(actor)
  }

  /** The statement's SET clause. */
  function Effect(op: Op, r: Request): Request {
    match op
    case AssignTo(m) => r.(status := Assigned, assignedTo := Some(m))
    case Cancel => r.(status := Canceled)
    case Start(_) => r.(status := InProgress, version := r.version + 1)
    case Finish(_) => r.(status := Done)
  }

  /** Whether the statement for `id` changes row `r`. */
  predicate Hit(id: int, op: Op, r: Request) {
    r.id == id && Guard(op, r)
  }

  /** Row `r` after the statement. */
  function UpdateRow(id: int, op: Op, r: Request): Request {
    if Hit(id, op, r) then Effect(op, r) else r
  }

  /** The table after the statement, row by row in storage order. */
  function Updated(rows: seq<Request>, id: int, op: Op): (after: seq<Request>)
    ensures |after| == |rows|
  {
    if rows == [] then []
    else Updated(rows[..|rows| - 1], id, op) + [UpdateRow(id, op, rows[|rows| - 1])]
  }

  /** The rows-affected count the statement reports. */
  function Affected(rows: seq<Request>, id: int, op: Op): nat {
    if rows == [] then 0
    else Affected(rows[..|rows| - 1], id, op) + (if Hit(id, op, rows[|rows| - 1]) then 1 else 0)
  }

  /** `id` is a primary key: no two rows share one. */
  predicate UniqueIds(rows: seq<Request>) {
    forall i, j :: 0 <= i < j < |rows| ==> rows[i].id != rows[j].id
  }

  // ---------------------------------------------------------------------
  // The state diagram, as an independent reference
  // ---------------------------------------------------------------------

  /** new → assigned → in_progress → done, and new or assigned → canceled. */
  predicate Edge(from: Status, to: Status) {
    || (from == New && to == Assigned)
    || (from == Assigned && to == InProgress)
    || (from == InProgress && to == Done)
    || ((from == New || from == Assigned) && to == Canceled)
  }

  predicate Terminal(s: Status) {
    s == Done || s == Canceled
  }

  /** Zero or more edges lead from `from` to `to` (the diagram has no cycles). */
  predicate Reachable(from: Status, to: Status) {
    || from == to
    || Edge(from, to)
    || (exists mid :: Edge(from, mid) && Edge(mid, to))
    || (exists mid1, mid2 :: Edge(from, mid1) && Edge(mid1, mid2) && Edge(mid2, to))
  }

  /**
   * Every guarded update moves its row along one edge of the diagram,
   * leaves the id and the four intake fields alone, and raises the version
   * only on start, by exactly one.
   */
  lemma GuardedUpdateFollowsDiagram(op: Op, r: Request)
    requires Guard(op, r)
    ensures Edge(r.status, Effect(op, r).status)
    ensures var e := Effect(op, r);
      && e.id == r.id && e.clientName == r.clientName && e.phone == r.phone
      && e.address == r.address && e.problemText == r.problemText
    ensures Effect(op, r).version == r.version + (if op.Start? then 1 else 0)
    ensures op.AssignTo? ==> Effect(op, r).assignedTo == Some(op.master)
    ensures !op.AssignTo? ==> Effect(op, r).assignedTo == r.assignedTo
  {
  }

  /** Conversely, every edge of the diagram is taken by some guarded update. */
  lemma EveryEdgeHasAnAction(from: Status, to: Status)
    requires Edge(from, to)
    ensures exists op: Op, r: Request :: r.status == from && Guard(op, r) && Effect(op, r).status == to
  {
    var r := Request(1, "", "", "", "", from, Some(1), 0);
    if from == New && to == Assigned {
      assert Guard(AssignTo(1), r) && Effect(AssignTo(1), r).status == to;
    } else if from == Assigned && to == InProgress {
      assert Guard(Start(1), r) && Effect(Start(1), r).status == to;
    } else if from == InProgress && to == Done {
      assert Guard(Finish(1), r) && Effect(Finish(1), r).status == to;
    } else {
      assert Guard(Cancel, r) && Effect(Cancel, r).status == to;
    }
  }

  /** No guard matches a done or canceled request. */
  lemma TerminalMatchesNoGuard(op: Op, r: Request)
    requires Terminal(r.status)
    ensures !Guard(op, r)
  {
  }

  // ---------------------------------------------------------------------
  // A statement on the whole table
  // ---------------------------------------------------------------------

  /** Row `i` after the statement is row `i` before, updated when the statement hits it. */
  lemma {:induction false} UpdatedAt(rows: seq<Request>, id: int, op: Op, i: int)
    requires 0 <= i < |rows|
    ensures Updated(rows, id, op)[i] == UpdateRow(id, op, rows[i])
  {
    if i < |rows| - 1 {
      UpdatedAt(rows[..|rows| - 1], id, op, i);
    }
  }

  /** A table whose every row is the statement's rewrite of the old one is `Updated`. */
  lemma UpdatedRowByRow(rows: seq<Request>, id: int, op: Op, after: seq<Request>)
    requires |after| == |rows|
    requires forall k :: 0 <= k < |rows| ==> after[k] == UpdateRow(id, op, rows[k])
    ensures after == Updated(rows, id, op)
  {
    forall k | 0 <= k < |rows| ensures after[k] == Updated(rows, id, op)[k] {
      UpdatedAt(rows, id, op, k);
    }
  }

  /**
   * A statement changes only the row whose id it names, and only when the
   * guard holds; every row keeps its id and its intake fields, and every
   * status change is an edge of the diagram.
   */
  lemma OnlyTargetRowChanges(rows: seq<Request>, id: int, op: Op)
    ensures var after := Updated(rows, id, op);
      forall i :: 0 <= i < |rows| ==>
        && (after[i] != rows[i] ==> rows[i].id == id && Guard(op, rows[i]))
        && after[i].id == rows[i].id
        && after[i].clientName == rows[i].clientName && after[i].phone == rows[i].phone
        && after[i].address == rows[i].address && after[i].problemText == rows[i].problemText
        && (after[i].status == rows[i].status || Edge(rows[i].status, after[i].status))
  {
    forall i | 0 <= i < |rows|
      ensures var after := Updated(rows, id, op);
        && (after[i] != rows[i] ==> rows[i].id == id && Guard(op, rows[i]))
        && after[i].id == rows[i].id
        && after[i].clientName == rows[i].clientName && after[i].phone == rows[i].phone
        && after[i].address == rows[i].address && after[i].problemText == rows[i].problemText
        && (after[i].status == rows[i].status || Edge(rows[i].status, after[i].status))
    {
      UpdatedAt(rows, id, op, i);
      if Hit(id, op, rows[i]) {
        GuardedUpdateFollowsDiagram(op, rows[i]);
      }
    }
  }

  /** Done and canceled rows come out of every statement unchanged. */
  lemma TerminalRowsUnchanged(rows: seq<Request>, id: int, op: Op)
    ensures forall i :: 0 <= i < |rows| && Terminal(rows[i].status) ==> Updated(rows, id, op)[i] == rows[i]
  {
    forall i | 0 <= i < |rows| && Terminal(rows[i].status)
      ensures Updated(rows, id, op)[i] == rows[i]
    {
      UpdatedAt(rows, id, op, i);
    }
  }

  /** Ids stay unique through a statement. */
  lemma UpdatedKeepsIds(rows: seq<Request>, id: int, op: Op)
    requires UniqueIds(rows)
    ensures UniqueIds(Updated(rows, id, op))
  {
    OnlyTargetRowChanges(rows, id, op);
  }

  /**
   * With unique ids, the rows-affected count is 1 exactly when the row
   * named by `id` exists and satisfies the guard, and 0 otherwise.
   */
  lemma {:induction false} AffectedIsOneExactlyOnHit(rows: seq<Request>, id: int, op: Op)
    requires UniqueIds(rows)
    ensures Affected(rows, id, op) <= 1
    ensures Affected(rows, id, op) == 1 <==> exists i :: 0 <= i < |rows| && Hit(id, op, rows[i])
  {
    if rows != [] {
      var front := rows[..|rows| - 1];
      AffectedIsOneExactlyOnHit(front, id, op);
      if Hit(id, op, rows[|rows| - 1]) {
        forall i | 0 <= i < |front| ensures !Hit(id, op, front[i]) {
          assert front[i].id == rows[i].id != rows[|rows| - 1].id;
        }
      }
      if exists i :: 0 <= i < |rows| && Hit(id, op, rows[i]) {
        var i :| 0 <= i < |rows| && Hit(id, op, rows[i]);
        if i < |front| { assert Hit(id, op, front[i]); }
      }
    }
  }

  /** The count is 0 exactly when no row is hit (ids unique or not). */
  lemma {:induction false} AffectedZeroIffNoHit(rows: seq<Request>, id: int, op: Op)
    ensures Affected(rows, id, op) == 0 <==> forall i :: 0 <= i < |rows| ==> !Hit(id, op, rows[i])
  {
    if rows != [] {
      var front := rows[..|rows| - 1];
      AffectedZeroIffNoHit(front, id, op);
      assert forall i :: 0 <= i < |front| ==> front[i] == rows[i];
    }
  }

  /**
   * With unique ids, a statement on the id of row `k` rewrites row `k` and
   * nothing else, and affects one row exactly when its guard holds there.
   */
  lemma UpdatedKeyed(rows: seq<Request>, id: int, op: Op, k: int)
    requires UniqueIds(rows)
    requires 0 <= k < |rows| && rows[k].id == id
    ensures Updated(rows, id, op) == rows[k := UpdateRow(id, op, rows[k])]
    ensures Affected(rows, id, op) == if Hit(id, op, rows[k]) then 1 else 0
  {
    var after := rows[k := UpdateRow(id, op, rows[k])];
    forall j | 0 <= j < |rows| ensures after[j] == UpdateRow(id, op, rows[j]) {
      if j != k {
        assert rows[j].id != id;
      }
    }
    UpdatedRowByRow(rows, id, op, after);
    AffectedIsOneExactlyOnHit(rows, id, op);
    if !Hit(id, op, rows[k]) {
      forall i | 0 <= i < |rows| ensures !Hit(id, op, rows[i]) {
        if i != k {
          assert rows[i].id != id;
        }
      }
    }
  }

  /** A statement that affects no row leaves the table exactly as it was. */
  lemma {:induction false} NoHitNoChange(rows: seq<Request>, id: int, op: Op)
    requires Affected(rows, id, op) == 0
    ensures Updated(rows, id, op) == rows
  {
    if rows != [] {
      var front := rows[..|rows| - 1];
      NoHitNoChange(front, id, op);
      assert rows == front + [rows[|rows| - 1]];
    }
  }

  /**
   * A second start on the same request by the same master matches no row,
   * whatever the table held: the first one either moved the row to
   * in_progress or found it not startable, and neither has changed.
   */
  lemma SecondStartMatchesNothing(rows: seq<Request>, id: int, actor: int)
    ensures Affected(Updated(rows, id, Start(actor)), id, Start(actor)) == 0
  {
    var after := Updated(rows, id, Start(actor));
    forall i | 0 <= i < |after| ensures !Hit(id, Start(actor), after[i]) {
      UpdatedAt(rows, id, Start(actor), i);
    }
    AffectedZeroIffNoHit(after, id, Start(actor));
  }

  /**
   * With unique ids, once a start has been applied no start by any master
   * matches the request again, and its version rose by exactly one.
   */
  lemma StartWinsOnce(rows: seq<Request>, id: int, actor: int, other: int, k: int)
    requires UniqueIds(rows)
    requires 0 <= k < |rows| && rows[k].id == id
    requires Affected(rows, id, Start(actor)) == 1
    ensures Affected(Updated(rows, id, Start(actor)), id, Start(other)) == 0
    ensures Updated(rows, id, Start(actor))[k].version == rows[k].version + 1
    ensures Updated(rows, id, Start(actor))[k].status == InProgress
  {
    var after := Updated(rows, id, Start(actor));
    AffectedIsOneExactlyOnHit(rows, id, Start(actor));
    var h :| 0 <= h < |rows| && Hit(id, Start(actor), rows[h]);
    assert h == k;
    forall i | 0 <= i < |after| ensures !Hit(id, Start(other), after[i]) {
      UpdatedAt(rows, id, Start(actor), i);
    }
    UpdatedAt(rows, id, Start(actor), k);
    AffectedZeroIffNoHit(after, id, Start(other));
  }

  /** Reachability never runs backwards, and nothing leaves a terminal state. */
  lemma ReachableIsAcyclic(a: Status, b: Status)
    ensures Reachable(a, b) && Reachable(b, a) ==> a == b
    ensures Terminal(a) && Reachable(a, b) ==> a == b
  {
  }

  lemma ReachableTransitive(a: Status, b: Status, c: Status)
    requires Reachable(a, b) && Reachable(b, c)
    ensures Reachable(a, c)
  {
    if a != b && b != c && !Edge(a, c) {
      if a == New && c == InProgress {
        assert Edge(a, Assigned) && Edge(Assigned, c);
      } else if a == New && c == Done {
        assert Edge(a, Assigned) && Edge(Assigned, InProgress) && Edge(InProgress, c);
      } else if a == Assigned && c == Done {
        assert Edge(a, InProgress) && Edge(InProgress, c);
      }
    }
  }

  // ---------------------------------------------------------------------
  // Histories: statements applied one after another
  // ---------------------------------------------------------------------

  /** One executed statement: the request id it names and the update it makes. */
  datatype Statement = Statement(id: int, op: Op)

  /** The table after the statements of `history`, each applied atomically in turn. */
  function Run(rows: seq<Request>, history: seq<Statement>): seq<Request>
    decreases |history|
  {
    if history == [] then rows
    else Run(Updated(rows, history[0].id, history[0].op), history[1..])
  }

  /**
   * Over any history, every row keeps its id and intake fields, and its
   * status only moves forward along the diagram: the statuses a row shows
   * over time form a path of the diagram.
   */
  lemma {:induction false} RunFollowsDiagram(rows: seq<Request>, history: seq<Statement>)
    ensures |Run(rows, history)| == |rows|
    ensures forall i :: 0 <= i < |rows| ==>
      && Run(rows, history)[i].id == rows[i].id
      && Run(rows, history)[i].clientName == rows[i].clientName
      && Run(rows, history)[i].phone == rows[i].phone
      && Run(rows, history)[i].address == rows[i].address
      && Run(rows, history)[i].problemText == rows[i].problemText
      && Reachable(rows[i].status, Run(rows, history)[i].status)
    decreases |history|
  {
    if history != [] {
      var next := Updated(rows, history[0].id, history[0].op);
      OnlyTargetRowChanges(rows, history[0].id, history[0].op);
      RunFollowsDiagram(next, history[1..]);
      forall i | 0 <= i < |rows|
        ensures Reachable(rows[i].status, Run(rows, history)[i].status)
      {
        ReachableTransitive(rows[i].status, next[i].status, Run(next, history[1..])[i].status);
      }
    }
  }

  // ---------------------------------------------------------------------
  // The lifecycle invariant of a row created by intake
  // ---------------------------------------------------------------------

  /**
   * A row that started as a fresh intake (status new, no master, version 0)
   * and has only been changed by the four statements: the master is unset
   * while new and set from assigned onwards, and the version counts the one
   * start the row can have had.
   */
  predicate Consistent(r: Request) {
    && (r.status == New ==> r.assignedTo.None?)
    && (r.status in {Assigned, InProgress, Done} ==> r.assignedTo.Some?)
    && r.version == (if r.status in {InProgress, Done} then 1 else 0)
  }

  lemma EffectKeepsConsistent(op: Op, r: Request)
    requires Consistent(r) && Guard(op, r)
    ensures Consistent(Effect(op, r))
  {
  }

  /** Every statement keeps every row consistent. */
  lemma UpdatedKeepsConsistent(rows: seq<Request>, id: int, op: Op)
    requires forall i :: 0 <= i < |rows| ==> Consistent(rows[i])
    ensures forall i :: 0 <= i < |rows| ==> Consistent(Updated(rows, id, op)[i])
  {
    forall i | 0 <= i < |rows| ensures Consistent(Updated(rows, id, op)[i]) {
      UpdatedAt(rows, id, op, i);
    }
  }

  /** Every history keeps every row consistent. */
  lemma {:induction false} RunKeepsConsistent(rows: seq<Request>, history: seq<Statement>)
    requires forall i :: 0 <= i < |rows| ==> Consistent(rows[i])
    ensures |Run(rows, history)| == |rows|
    ensures forall i :: 0 <= i < |rows| ==> Consistent(Run(rows, history)[i])
    decreases |history|
  {
    if history != [] {
      UpdatedKeepsConsistent(rows, history[0].id, history[0].op);
      RunKeepsConsistent(Updated(rows, history[0].id, history[0].op), history[1..]);
    }
  }

}
