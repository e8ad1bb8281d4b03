/**
 * `actionHandler` as a function of the table: which guarded statement an
 * action issues for the session's role, what the table becomes, and which
 * of the two redirects (`/dashboard` or `/dashboard?error=conflict`) the
 * user gets.
 */
module Actions {
  import opened Wrappers
  import opened Structs
  import opened Session
  import opened Lifecycle

  /** The redirect target: plain, or with the conflict flag. */
  datatype Redirect = ToDashboard | ToDashboardConflict

  /** The posted form: the request id as text, the action name, and the chosen master. */
  datatype ActionForm = ActionForm(id: string, action: string, masterId: int)

  /** The role each action demands; `None` for a name the switch has no case for. */
  function RequiredRole(action: string): Option<string> {
    if action == "assign" || action == "cancel" then Some(Dispatcher)
    else if action == "start" || action == "finish" then Some(Master)
    else None
  }

  /** The action name that issues each statement. */
  function ActionName(op: Op): string {
    match op
    case AssignTo(_) => "assign"
    case Cancel => "cancel"
    case Start(_) => "start"
    case Finish(_) => "finish"
  }

  /**
   * The statement the switch issues, or `None` when it breaks out on a
   * wrong role or has no case for the action. Start and finish act for
   * the session's own uid; assign targets the posted master.
   */
  function Dispatch(s: Session, action: string, masterId: int): (op: Option<Op>)
    ensures op.Some? <==> RequiredRole(action) == Some(s.role)
    ensures op.Some? ==> ActionName(op.value) == action
    ensures op.Some? && (op.value.Start? || op.value.Finish?) ==> op.value.actor == s.uid
    ensures op.Some? && op.value.AssignTo? ==> op.value.master == masterId
  {
    if action == "assign" && s.role == Dispatcher then Some(AssignTo(masterId))
    else if action == "cancel" && s.role == Dispatcher then Some(Cancel)
    else if action == "start" && s.role == Master then Some(Start(s.uid))
    else if action == "finish" && s.role == Master then Some(Finish(s.uid))
    else None
  }

  /** The table after the handler and the redirect it sends. */
  datatype ActionResult = ActionResult(rows: seq<Request>, redirect: Redirect)

  /**
   * One call of the handler, as one atomic step. A store error (`execFails`)
   * means the statement did not run; the handler then sees a non-nil error
   * and redirects with the conflict flag. A start that affects no row is
   * turned into an error too; every other outcome is the plain redirect.
   */
  function HandleAction(rows: seq<Request>, s: Session, form: ActionForm, execFails: bool): ActionResult {
    var id := Atoi(form.id);
    match Dispatch(s, form.action, form.masterId)
    case None => ActionResult(rows, ToDashboard)
    case Some(op) =>
      if execFails then ActionResult(rows, ToDashboardConflict)
      else
        var redirect := if op.Start? && Affected(rows, id, op) == 0 then ToDashboardConflict else ToDashboard;
        ActionResult(Updated(rows, id, op), redirect)
  }

  // ---------------------------------------------------------------------
  // Outcome classification
  // ---------------------------------------------------------------------

  /** A wrong role or an unknown action issues nothing and redirects plainly. */
  lemma NoStatementIsPlain(rows: seq<Request>, s: Session, form: ActionForm, execFails: bool)
    requires RequiredRole(form.action) != Some(s.role)
    ensures HandleAction(rows, s, form, execFails) == ActionResult(rows, ToDashboard)
  {
  }

  /** A store error leaves the table alone and reads as a conflict. */
  lemma StoreErrorIsConflict(rows: seq<Request>, s: Session, form: ActionForm)
    requires RequiredRole(form.action) == Some(s.role)
    ensures HandleAction(rows, s, form, true) == ActionResult(rows, ToDashboardConflict)
  {
  }

  /**
   * When the statement runs, the conflict flag is set exactly for a start
   * that matched no row; assign, cancel and finish that match no row
   * redirect plainly. A statement that matched no row changed nothing.
   */
  lemma OnlyStartReportsConflict(rows: seq<Request>, s: Session, form: ActionForm)
    requires RequiredRole(form.action) == Some(s.role)
    ensures var op := Dispatch(s, form.action, form.masterId).value;
      var id := Atoi(form.id);
      var res := HandleAction(rows, s, form, false);
      && (res.redirect == ToDashboardConflict <==>
            form.action == "start" && forall i :: 0 <= i < |rows| ==> !Hit(id, op, rows[i]))
      && ((forall i :: 0 <= i < |rows| ==> !Hit(id, op, rows[i])) ==> res.rows == rows)
  {
    var op := Dispatch(s, form.action, form.masterId).value;
    var id := Atoi(form.id);
    AffectedZeroIffNoHit(rows, id, op);
    if Affected(rows, id, op) == 0 {
      NoHitNoChange(rows, id, op);
    }
  }

  // ---------------------------------------------------------------------
  // The four actions, row by row
  // ---------------------------------------------------------------------

  /**
   * assign by a dispatcher: exactly the row with the posted id that is
   * still new becomes assigned to the posted master; nothing else changes,
   * and the redirect is plain whether or not a row matched.
   */
  lemma AssignByDispatcher(rows: seq<Request>, s: Session, form: ActionForm)
    requires form.action == "assign" && s.role == Dispatcher
    ensures var res := HandleAction(rows, s, form, false);
      && res.redirect == ToDashboard
      && |res.rows| == |rows|
      && forall i :: 0 <= i < |rows| ==>
           res.rows[i] == if rows[i].id == Atoi(form.id) && rows[i].status == New
                          then rows[i].(status := Assigned, assignedTo := Some(form.masterId))
                          else rows[i]
  {
    var res := HandleAction(rows, s, form, false);
    forall i | 0 <= i < |rows| ensures res.rows[i] == UpdateRow(Atoi(form.id), AssignTo(form.masterId), rows[i]) {
      UpdatedAt(rows, Atoi(form.id), AssignTo(form.masterId), i);
    }
  }

  /**
   * cancel by a dispatcher: exactly the row with the posted id that is new
   * or assigned becomes canceled; in_progress, done and canceled rows are
   * untouched, and the redirect is plain.
   */
  lemma CancelByDispatcher(rows: seq<Request>, s: Session, form: ActionForm)
    requires form.action == "cancel" && s.role == Dispatcher
    ensures var res := HandleAction(rows, s, form, false);
      && res.redirect == ToDashboard
      && |res.rows| == |rows|
      && forall i :: 0 <= i < |rows| ==>
           res.rows[i] == if rows[i].id == Atoi(form.id) && rows[i].status in {New, Assigned}
                          then rows[i].(status := Canceled)
                          else rows[i]
  {
    var res := HandleAction(rows, s, form, false);
    forall i | 0 <= i < |rows| ensures res.rows[i] == UpdateRow(Atoi(form.id), Cancel, rows[i]) {
      UpdatedAt(rows, Atoi(form.id), Cancel, i);
    }
  }

  /**
   * start by a master: exactly the row with the posted id that is assigned
   * to this master becomes in_progress with its version one higher; when no
   * such row exists the table is unchanged and the redirect carries the
   * conflict flag.
   */
  lemma StartByMaster(rows: seq<Request>, s: Session, form: ActionForm)
    requires form.action == "start" && s.role == Master
    ensures var res := HandleAction(rows, s, form, false);
      var id := Atoi(form.id);
      && |res.rows| == |rows|
      && (forall i :: 0 <= i < |rows| ==>
           res.rows[i] == if rows[i].id == id && rows[i].status == Assigned && rows[i].assignedTo == Some(s.uid)
                          then rows[i].(status := InProgress, version := rows[i].version + 1)
                          else rows[i])
      && (res.redirect == ToDashboardConflict <==>
            forall i :: 0 <= i < |rows| ==>
              !(rows[i].id == id && rows[i].status == Assigned && rows[i].assignedTo == Some(s.uid)))
  {
    var res := HandleAction(rows, s, form, false);
    var id := Atoi(form.id);
    forall i | 0 <= i < |rows| ensures res.rows[i] == UpdateRow(id, Start(s.uid), rows[i]) {
      UpdatedAt(rows, id, Start(s.uid), i);
    }
    AffectedZeroIffNoHit(rows, id, Start(s.uid));
  }

  /**
   * finish by a master: exactly the row with the posted id that is
   * in_progress and assigned to this master becomes done; the redirect is
   * plain whether or not a row matched.
   */
  lemma FinishByMaster(rows: seq<Request>, s: Session, form: ActionForm)
    requires form.action == "finish" && s.role == Master
    ensures var res := HandleAction(rows, s, form, false);
      && res.redirect == ToDashboard
      && |res.rows| == |rows|
      && forall i :: 0 <= i < |rows| ==>
           res.rows[i] == if rows[i].id == Atoi(form.id) && rows[i].status == InProgress && rows[i].assignedTo == Some(s.uid)
                          then rows[i].(status := Done)
                          else rows[i]
  {
    var res := HandleAction(rows, s, form, false);
    forall i | 0 <= i < |rows| ensures res.rows[i] == UpdateRow(Atoi(form.id), Finish(s.uid), rows[i]) {
      UpdatedAt(rows, Atoi(form.id), Finish(s.uid), i);
    }
  }

  // ---------------------------------------------------------------------
  // The row the posted id names
  // ---------------------------------------------------------------------

  /**
   * With unique ids, the handler on the id of row `k` rewrites that row by
   * the statement and leaves every other row alone; a start that does not
   * hit it gets the conflict flag.
   */
  lemma KeyedRow(rows: seq<Request>, s: Session, form: ActionForm, k: int)
    requires UniqueIds(rows)
    requires 0 <= k < |rows| && rows[k].id == Atoi(form.id)
    requires RequiredRole(form.action) == Some(s.role)
    ensures var op := Dispatch(s, form.action, form.masterId).value;
      var id := Atoi(form.id);
      HandleAction(rows, s, form, false) ==
        ActionResult(rows[k := UpdateRow(id, op, rows[k])],
                     if op.Start? && !Hit(id, op, rows[k]) then ToDashboardConflict else ToDashboard)
  {
    UpdatedKeyed(rows, Atoi(form.id), Dispatch(s, form.action, form.masterId).value, k);
  }

  /**
   * A master starts an assigned request that is assigned to someone else:
   * no row matches, the table is unchanged and the redirect carries the
   * conflict flag.
   */
  lemma StartByOtherMaster(rows: seq<Request>, s: Session, form: ActionForm, k: int)
    requires UniqueIds(rows) && 0 <= k < |rows| && rows[k].id == Atoi(form.id)
    requires form.action == "start" && s.role == Master
    requires rows[k].status == Assigned && rows[k].assignedTo != Some(s.uid)
    ensures HandleAction(rows, s, form, false) == ActionResult(rows, ToDashboardConflict)
  {
    KeyedRow(rows, s, form, k);
    assert rows[k := rows[k]] == rows;
  }

  /**
   * The master the request is assigned to starts it: that row goes in
   * progress one version higher, every other row is unchanged, and the
   * redirect is plain.
   */
  lemma StartByAssignedMaster(rows: seq<Request>, s: Session, form: ActionForm, k: int)
    requires UniqueIds(rows) && 0 <= k < |rows| && rows[k].id == Atoi(form.id)
    requires form.action == "start" && s.role == Master
    requires rows[k].status == Assigned && rows[k].assignedTo == Some(s.uid)
    ensures HandleAction(rows, s, form, false) ==
      ActionResult(rows[k := rows[k].(status := InProgress, version := rows[k].version + 1)], ToDashboard)
  {
    KeyedRow(rows, s, form, k);
  }

  /**
   * A dispatcher cancels a request already in progress: no row matches,
   * the table is unchanged, and the redirect is plain.
   */
  lemma CancelTooLate(rows: seq<Request>, s: Session, form: ActionForm, k: int)
    requires UniqueIds(rows) && 0 <= k < |rows| && rows[k].id == Atoi(form.id)
    requires form.action == "cancel" && s.role == Dispatcher
    requires rows[k].status == InProgress
    ensures HandleAction(rows, s, form, false) == ActionResult(rows, ToDashboard)
  {
    KeyedRow(rows, s, form, k);
    assert rows[k := rows[k]] == rows;
  }

  /**
   * The assigned master finishes a request in progress: that row becomes
   * done, every other row is unchanged, and the redirect is plain.
   */
  lemma FinishByAssignedMaster(rows: seq<Request>, s: Session, form: ActionForm, k: int)
    requires UniqueIds(rows) && 0 <= k < |rows| && rows[k].id == Atoi(form.id)
    requires form.action == "finish" && s.role == Master
    requires rows[k].status == InProgress && rows[k].assignedTo == Some(s.uid)
    ensures HandleAction(rows, s, form, false) == ActionResult(rows[k := rows[k].(status := Done)], ToDashboard)
  {
    KeyedRow(rows, s, form, k);
  }

  // ---------------------------------------------------------------------
  // Races, as two handler calls in a row
  // ---------------------------------------------------------------------

  /**
   * The same master starting the same request twice: the second call
   * always gets the conflict flag and changes nothing.
   */
  lemma RepeatedStartConflicts(rows: seq<Request>, s: Session, form: ActionForm)
    requires form.action == "start" && s.role == Master
    ensures var first := HandleAction(rows, s, form, false);
      HandleAction(first.rows, s, form, false) == ActionResult(first.rows, ToDashboardConflict)
  {
    var id := Atoi(form.id);
    var first := HandleAction(rows, s, form, false);
    SecondStartMatchesNothing(rows, id, s.uid);
    NoHitNoChange(first.rows, id, Start(s.uid));
  }

  /**
   * Two masters racing to start the same request: once the first call is
   * applied (plain redirect), the second, by any master, gets the conflict
   * flag and changes nothing, and the request's version rose by one in all.
   */
  lemma RacingStartsOneWins(rows: seq<Request>, s1: Session, s2: Session, form1: ActionForm, form2: ActionForm, k: int)
    requires UniqueIds(rows)
    requires form1.action == "start" && form2.action == "start" && Atoi(form1.id) == Atoi(form2.id)
    requires s1.role == Master && s2.role == Master
    requires HandleAction(rows, s1, form1, false).redirect == ToDashboard
    requires 0 <= k < |rows| && rows[k].id == Atoi(form1.id)
    ensures var first := HandleAction(rows, s1, form1, false);
      var second := HandleAction(first.rows, s2, form2, false);
      && second == ActionResult(first.rows, ToDashboardConflict)
      && second.rows[k].status == InProgress
      && second.rows[k].version == rows[k].version + 1
  {
    var id := Atoi(form1.id);
    AffectedIsOneExactlyOnHit(rows, id, Start(s1.uid));
    StartWinsOnce(rows, id, s1.uid, s2.uid, k);
    NoHitNoChange(Updated(rows, id, Start(s1.uid)), id, Start(s2.uid));
  }

}
