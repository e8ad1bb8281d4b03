/**
 * What `dashboardHandler` lists: the requests its query selects for the
 * session (a master sees only requests assigned to them; a `status`
 * parameter narrows to that status) and the masters offered for assignment.
 */
module Listing {
  import opened Wrappers
  import opened Structs
  import opened Session

  /** The WHERE clause the handler builds: `1=1`, plus the assignee and the status tests. */
  predicate Visible(r: Request, s: Session, status: string) {
    && (s.role == Master ==> r.assignedTo == Some(s.uid))
    && (status != "" ==> StatusName(r.status) == status)
  }

  /** The selected rows, in storage order. */
  function Listed(rows: seq<Request>, s: Session, status: string): seq<Request> {
    if rows == [] then []
    else
      var last := rows[|rows| - 1];
      Listed(rows[..|rows| - 1], s, status) + (if Visible(last, s, status) then [last] else [])
  }

  /**
   * The masters query selects only `id` and `name`, so each listed user
   * carries the empty role.
   */
  function MasterUsers(users: seq<User>): seq<User> {
    if users == [] then []
    else
      var last := users[|users| - 1];
      MasterUsers(users[..|users| - 1]) + (if last.role == Master then [User(last.id, last.name, "")] else [])
  }

  /** A request is listed exactly when it is in the table and passes the WHERE clause. */
  lemma {:induction false} ListedMembers(rows: seq<Request>, s: Session, status: string)
    ensures |Listed(rows, s, status)| <= |rows|
    ensures forall r :: r in Listed(rows, s, status) <==> r in rows && Visible(r, s, status)
  {
    if rows != [] {
      var front := rows[..|rows| - 1];
      ListedMembers(front, s, status);
      assert rows == front + [rows[|rows| - 1]];
    }
  }

  /** A master's dashboard lists only requests assigned to that master. */
  lemma MasterSeesOnlyOwn(rows: seq<Request>, s: Session, status: string)
    requires s.role == Master
    ensures forall r :: r in Listed(rows, s, status) ==> r.assignedTo == Some(s.uid)
  {
    ListedMembers(rows, s, status);
  }

  /** With a status parameter, every listed request has that status. */
  lemma StatusFilterIsExact(rows: seq<Request>, s: Session, status: string)
    requires status != ""
    ensures forall r :: r in Listed(rows, s, status) ==> StatusName(r.status) == status
  {
    ListedMembers(rows, s, status);
  }

  /** A status parameter that names none of the five states lists nothing. */
  lemma {:induction false} UnknownStatusListsNothing(rows: seq<Request>, s: Session, status: string)
    requires status != "" && forall t: Status :: StatusName(t) != status
    ensures Listed(rows, s, status) == []
  {
    if rows != [] {
      UnknownStatusListsNothing(rows[..|rows| - 1], s, status);
      assert StatusName(rows[|rows| - 1].status) != status;
    }
  }

  /** Anyone but a master, with no status parameter, sees the whole table in order. */
  lemma {:induction false} EveryoneElseSeesAll(rows: seq<Request>, s: Session)
    requires s.role != Master
    ensures Listed(rows, s, "") == rows
  {
    if rows != [] {
      EveryoneElseSeesAll(rows[..|rows| - 1], s);
      assert rows == rows[..|rows| - 1] + [rows[|rows| - 1]];
    }
  }

  /** The masters list holds each master of the directory, with the role left empty. */
  lemma {:induction false} MasterUsersMembers(users: seq<User>)
    ensures |MasterUsers(users)| <= |users|
    ensures forall u: User :: u in MasterUsers(users) <==>
      u.role == "" && exists v :: v in users && v.role == Master && v.id == u.id && v.name == u.name
  {
    if users != [] {
      var front := users[..|users| - 1];
      MasterUsersMembers(front);
      assert users == front + [users[|users| - 1]];
      forall u: User | u.role == "" && (exists v :: v in users && v.role == Master && v.id == u.id && v.name == u.name)
        ensures u in MasterUsers(users)
      {
        var v :| v in users && v.role == Master && v.id == u.id && v.name == u.name;
        if v != users[|users| - 1] {
          assert v in front;
        } else {
          assert u == User(v.id, v.name, "");
        }
      }
    }
  }

  /**
   * The masters list of two directories in a row is the list of the first
   * followed by that of the second: the list keeps directory order.
   */
  lemma {:induction false} MasterUsersAppend(a: seq<User>, b: seq<User>)
    ensures MasterUsers(a + b) == MasterUsers(a) + MasterUsers(b)
  {
    if b == [] {
      assert a + b == a;
    } else {
      var front := b[..|b| - 1];
      assert (a + b)[..|a + b| - 1] == a + front;
      assert (a + b)[|a + b| - 1] == b[|b| - 1];
      MasterUsersAppend(a, front);
    }
  }

}
