/**
 * The handlers over the shared `requests` table. The table is an object
 * whose rows the handlers change in place; each handler call is one atomic
 * step, so two concurrent calls are modelled as two calls in a row.
 */
module Handlers {
  import opened Wrappers
  import opened Structs
  import opened Session
  import opened Lifecycle
  import opened Actions
  import opened Listing
  import opened Intake

  /**
   * What the dashboard handler answers. `Panicked` is the panic of
   * iterating the nil result of a failed masters query, whose error the
   * handler discards; the server then drops the connection with no page.
   */
  datatype DashboardView =
    | GoHome
    | ServerError
    | Panicked
    | Page(user: string, role: string, requests: seq<Request>, masters: seq<User>)

  /** What the POST branch of the create handler answers. */
  datatype CreatePage = CreateBadInput | CreateInternalError | CreateToDashboard

  /**
   * The scan an UPDATE makes: each row the statement hits is rewritten in
   * place by its SET clause, and the hits are counted.
   */
  method Scan(rows: seq<Request>, id: int, op: Op) returns (after: seq<Request>, affected: nat)
    ensures after == Updated(rows, id, op)
    ensures affected == Affected(rows, id, op)
  {
    after := rows;
    affected := 0;
    var i := 0;
    while i < |rows|
      invariant 0 <= i <= |rows| == |after|
      invariant forall k :: 0 <= k < i ==> after[k] == UpdateRow(id, op, rows[k])
      invariant forall k :: i <= k < |rows| ==> after[k] == rows[k]
      invariant affected == Affected(rows[..i], id, op)
    {
      assert rows[..i + 1][..i] == rows[..i];
      if Hit(id, op, rows[i]) {
        after := after[i := Effect(op, rows[i])];
        affected := affected + 1;
      }
      i := i + 1;
    }
    assert rows[..|rows|] == rows;
    UpdatedRowByRow(rows, id, op, after);
  }

  /** The dashboard's request query, read row by row into a list. */
  method SelectRequests(rows: seq<Request>, s: Session, statusFilter: string) returns (reqs: seq<Request>)
    ensures reqs == Listed(rows, s, statusFilter)
  {
    reqs := [];
    var i := 0;
    while i < |rows|
      invariant 0 <= i <= |rows|
      invariant reqs == Listed(rows[..i], s, statusFilter)
    {
      assert rows[..i + 1][..i] == rows[..i];
      if Visible(rows[i], s, statusFilter) {
        reqs := reqs + [rows[i]];
      }
      i := i + 1;
    }
    assert rows[..|rows|] == rows;
  }

  /** The masters query, read row by row; only `id` and `name` are scanned. */
  method SelectMasters(users: seq<User>) returns (ms: seq<User>)
    ensures ms == MasterUsers(users)
  {
    ms := [];
    var j := 0;
    while j < |users|
      invariant 0 <= j <= |users|
      invariant ms == MasterUsers(users[..j])
    {
      assert users[..j + 1][..j] == users[..j];
      if users[j].role == Master {
        ms := ms + [User(users[j].id, users[j].name, "")];
      }
      j := j + 1;
    }
    assert users[..|users|] == users;
  }

  /** A statement keeps ids unique, below the counter, and every row consistent. */
  lemma UpdatedKeepsRowInvariant(rows: seq<Request>, id: int, op: Op, nextId: int)
    requires UniqueIds(rows)
    requires forall i :: 0 <= i < |rows| ==> rows[i].id < nextId && Consistent(rows[i])
    ensures var after := Updated(rows, id, op);
      && UniqueIds(after)
      && forall i :: 0 <= i < |after| ==> after[i].id < nextId && Consistent(after[i])
  {
    UpdatedKeepsIds(rows, id, op);
    UpdatedKeepsConsistent(rows, id, op);
    OnlyTargetRowChanges(rows, id, op);
  }

  /** The `requests` table. */
  class RequestTable {
    /** The rows, in storage order. */
    var rows: seq<Request>
    /** The id the next inserted row gets (the auto-increment counter). */
    var nextId: int

    /**
     * Ids are unique and below the counter, and every row is in a state
     * the lifecycle can reach from a fresh intake.
     */
    ghost predicate Valid()
      reads this
    {
      && UniqueIds(rows)
      && (forall i :: 0 <= i < |rows| ==> rows[i].id < nextId && Consistent(rows[i]))
    }

    constructor()
      ensures Valid() && rows == [] && nextId == 1
    {
      rows := [];
      nextId := 1;
    }

    /**
     * One guarded UPDATE: every row the statement hits is rewritten by its
     * SET clause, and the hits are counted.
     */
    method Exec(id: int, op: Op) returns (affected: nat)
      requires Valid()
      modifies this
      ensures Valid()
      ensures rows == Updated(old(rows), id, op) && nextId == old(nextId)
      ensures affected == Affected(old(rows), id, op) && affected <= 1
    {
      var after;
      after, affected := Scan(rows, id, op);
      AffectedIsOneExactlyOnHit(rows, id, op);
      UpdatedKeepsRowInvariant(rows, id, op, nextId);
      rows := after;
    }

    /** Assignment: a new request becomes assigned to the posted master. */
    method Assign(id: int, masterId: int) returns (affected: nat)
      requires Valid()
      modifies this
      ensures Valid()
      ensures rows == Updated(old(rows), id, AssignTo(masterId)) && nextId == old(nextId)
      ensures affected == Affected(old(rows), id, AssignTo(masterId)) && affected <= 1
    {
      affected := Exec(id, AssignTo(masterId));
    }

    /** Cancellation: a new or assigned request becomes canceled. */
    method Cancel(id: int) returns (affected: nat)
      requires Valid()
      modifies this
      ensures Valid()
      ensures rows == Updated(old(rows), id, Lifecycle.Cancel) && nextId == old(nextId)
      ensures affected == Affected(old(rows), id, Lifecycle.Cancel) && affected <= 1
    {
      affected := Exec(id, Lifecycle.Cancel);
    }

    /** Start: a request assigned to this master goes in progress and its version rises by one. */
    method Start(id: int, uid: int) returns (affected: nat)
      requires Valid()
      modifies this
      ensures Valid()
      ensures rows == Updated(old(rows), id, Lifecycle.Start(uid)) && nextId == old(nextId)
      ensures affected == Affected(old(rows), id, Lifecycle.Start(uid)) && affected <= 1
    {
      affected := Exec(id, Lifecycle.Start(uid));
    }

    /** Finish: a request in progress under this master becomes done. */
    method Finish(id: int, uid: int) returns (affected: nat)
      requires Valid()
      modifies this
      ensures Valid()
      ensures rows == Updated(old(rows), id, Lifecycle.Finish(uid)) && nextId == old(nextId)
      ensures affected == Affected(old(rows), id, Lifecycle.Finish(uid)) && affected <= 1
    {
      affected := Exec(id, Lifecycle.Finish(uid));
    }

    /**
     * `actionHandler`: read the session, pick the statement by action and
     * role, run it unless the store fails, and choose the redirect. Only an
     * error sets the conflict flag; a start that affects no row is made an
     * error.
     */
    method Act(jar: seq<Cookie>, form: ActionForm, execFails: bool) returns (redirect: Redirect)
      requires Valid()
      modifies this
      ensures Valid() && nextId == old(nextId)
      ensures var res := HandleAction(old(rows), GetSession(jar), form, execFails);
        rows == res.rows && redirect == res.redirect
    {
      var s := GetSession(jar);
      var id := Atoi(form.id);
      var failed := false;
      if form.action == "assign" {
        if s.role == Dispatcher {
          if execFails { failed := true; } else { var n := Assign(id, form.masterId); }
        }
      } else if form.action == "cancel" {
        if s.role == Dispatcher {
          if execFails { failed := true; } else { var n := Cancel(id); }
        }
      } else if form.action == "start" {
        if s.role == Master {
          if execFails {
            failed := true;
          } else {
            var n := Start(id, s.uid);
            if n == 0 { failed := true; }
          }
        }
      } else if form.action == "finish" {
        if s.role == Master {
          if execFails { failed := true; } else { var n := Finish(id, s.uid); }
        }
      }
      redirect := if failed then ToDashboardConflict else ToDashboard;
    }

    /**
     * `dashboardHandler`: no session id sends the visitor home before any
     * query; a failed request query is a server error; otherwise the
     * selected requests are collected row by row, then the masters, unless
     * the masters query fails, which panics.
     */
    method Dashboard(jar: seq<Cookie>, statusFilter: string, users: seq<User>, queryFails: bool, mastersFail: bool)
      returns (view: DashboardView)
      ensures view == GoHome <==> GetSession(jar).uid == 0
      ensures view == ServerError <==> GetSession(jar).uid != 0 && queryFails
      ensures view == Panicked <==> GetSession(jar).uid != 0 && !queryFails && mastersFail
      ensures view.Page? ==> var s := GetSession(jar);
        view == Page(s.name, s.role, Listed(rows, s, statusFilter), MasterUsers(users))
    {
      var s := GetSession(jar);
      if s.uid == 0 {
        return GoHome;
      }
      if queryFails {
        return ServerError;
      }
      var reqs := SelectRequests(rows, s, statusFilter);
      if mastersFail {
        return Panicked;
      }
      var ms := SelectMasters(users);
      view := Page(s.name, s.role, reqs, ms);
    }

    /** The intended store insert: a new row with the next id, status new, no master, version 0. */
    method StoreCreate(f: IntakeForm) returns (id: int)
      requires Valid()
      modifies this
      ensures Valid()
      ensures id == old(nextId) && nextId == old(nextId) + 1
      ensures rows == old(rows) + [NewRequest(id, f)]
    {
      id := nextId;
      rows := rows + [NewRequest(id, f)];
      nextId := nextId + 1;
    }

    /**
     * The POST branch of the create handler: an empty field is rejected
     * before the store is called; a store error is an internal error;
     * otherwise the request is stored and the user is sent to the dashboard.
     */
    method Create(f: IntakeForm, execFails: bool) returns (page: CreatePage)
      requires Valid()
      modifies this
      ensures Valid()
      ensures page == CreateBadInput <==> !Complete(f)
      ensures page == CreateInternalError <==> Complete(f) && execFails
      ensures page != CreateToDashboard ==> rows == old(rows) && nextId == old(nextId)
      ensures page == CreateToDashboard ==>
        rows == old(rows) + [NewRequest(old(nextId), f)] && nextId == old(nextId) + 1
    {
      if !Complete(f) {
        return CreateBadInput;
      }
      if execFails {
        return CreateInternalError;
      }
      var id := StoreCreate(f);
      page := CreateToDashboard;
    }
  }


  /** The cookies a login of user `uid` with this role and name leaves in the browser. */
  function SignedInJar(uid: int, role: string, name: string): seq<Cookie> {
    [Cookie(UidCookie, Itoa(uid)), Cookie(RoleCookie, role), Cookie(NameCookie, name)]
  }

  /**
   * `SignedInJar` is what the browser holds after a login that posted this
   * id, role and name, when role and name are made of cookie characters.
   */
  lemma SignedInJarIsLogin(uid: int, role: string, name: string)
    requires MinInt <= uid <= MaxInt
    requires role != "" && name != "" && CookieText(role) && CookieText(name)
    ensures var login := Login(LoginForm(Itoa(uid), role, name));
      login.SignedIn? && Transmit(login.cookies) == SignedInJar(uid, role, name)
  {
    AtoiItoa(uid);
    ItoaIsCookieText(uid);
    var login := Login(LoginForm(Itoa(uid), role, name));
    assert login == SignedIn(SignedInJar(uid, role, name));
    var jar := Transmit(login.cookies);
    assert jar[0] == SignedInJar(uid, role, name)[0];
  }

  /** Such a jar reads back as the signed-in user. */
  lemma SignedInJarSession(uid: int, role: string, name: string)
    requires MinInt <= uid <= MaxInt
    ensures GetSession(SignedInJar(uid, role, name)) == Session(uid, role, name)
  {
    SessionCookiesRead(Itoa(uid), role, name);
    AtoiItoa(uid);
  }

  /**
   * One request through its whole life on a fresh table: intake, assignment
   * to master 7, a start by master 9 (conflict), the start by master 7, a
   * cancel that no longer matches (plain redirect, nothing changes), and
   * the finish.
   */
  method LifecycleScenario() returns (redirects: seq<Redirect>, final: Request)
    ensures redirects == [ToDashboard, ToDashboardConflict, ToDashboard, ToDashboard, ToDashboard]
    ensures final.id == 1 && final.clientName == "Alice"
    ensures final.status == Done && final.assignedTo == Some(7) && final.version == 1
  {
    var table := new RequestTable();
    var f := IntakeForm("Alice", "555", "1 Rd", "leak");
    var page := table.Create(f, false);
    var r := NewRequest(1, f);
    assert table.rows[0] == r;

    var idText := Itoa(1);
    AtoiItoa(1);
    var dispatcher := SignedInJar(3, Dispatcher, "Dana");
    SignedInJarSession(3, Dispatcher, "Dana");
    var master7 := SignedInJar(7, Master, "Olga");
    SignedInJarSession(7, Master, "Olga");
    var master9 := SignedInJar(9, Master, "Ivan");
    SignedInJarSession(9, Master, "Ivan");

    var assign := ActionForm(idText, "assign", 7);
    KeyedRow(table.rows, Session(3, Dispatcher, "Dana"), assign, 0);
    var r1 := table.Act(dispatcher, assign, false);
    assert table.rows[0] == r.(status := Assigned, assignedTo := Some(7));

    var start := ActionForm(idText, "start", 0);
    StartByOtherMaster(table.rows, Session(9, Master, "Ivan"), start, 0);
    var r2 := table.Act(master9, start, false);
    StartByAssignedMaster(table.rows, Session(7, Master, "Olga"), start, 0);
    var r3 := table.Act(master7, start, false);

    var cancel := ActionForm(idText, "cancel", 0);
    CancelTooLate(table.rows, Session(3, Dispatcher, "Dana"), cancel, 0);
    var r4 := table.Act(dispatcher, cancel, false);
    var finish := ActionForm(idText, "finish", 0);
    FinishByAssignedMaster(table.rows, Session(7, Master, "Olga"), finish, 0);
    var r5 := table.Act(master7, finish, false);

    redirects := [r1, r2, r3, r4, r5];
    final := table.rows[0];
  }

}
