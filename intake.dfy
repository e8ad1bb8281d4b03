/**
 * Intake: the field check of the `Create` handler and the record a new
 * request starts as. The store's `Create` as written is kept here too, next
 * to the intended insert, because the two differ for every valid form.
 */
module Intake {
  import opened Wrappers
  import opened Structs
  import opened Session
  import opened Lifecycle
  import opened Listing

  /** The four fields the create form posts. */
  datatype IntakeForm = IntakeForm(clientName: string, phone: string, address: string, problemText: string)

  /** The handler goes on to the store only when no field is empty. */
  predicate Complete(f: IntakeForm) {
    f.clientName != "" && f.phone != "" && f.address != "" && f.problemText != ""
  }

  /**
   * The row an accepted form becomes: its four fields, status new, no
   * master, version 0; it starts the lifecycle in a consistent state.
   */
  function NewRequest(id: int, f: IntakeForm): (r: Request)
    ensures r.id == id && r.status == New && r.assignedTo.None? && r.version == 0
    ensures r.clientName == f.clientName && r.phone == f.phone
    ensures r.address == f.address && r.problemText == f.problemText
    ensures Consistent(r)
  {
    Request(id, f.clientName, f.phone, f.address, f.problemText, New, None, 0)
  }

  /**
   * The store's `Create` as written: the error it tests is the one `Begin`
   * already returned as nil, the lookup's own error is dropped, so the
   * insert is never reached. It reports success and the table is what it was.
   */
  function StoreCreateAsWritten(rows: seq<Request>, f: IntakeForm): (seq<Request>, bool) {
    (rows, true)
  }

  /**
   * Whatever the table holds, a form sent to the store as written is
   * reported as stored, the table is unchanged, and no dashboard, for any
   * session and any status filter, lists the row the insert was meant to
   * add under an id not yet in use.
   */
  lemma AsWrittenIntakeIsLost(rows: seq<Request>, id: int, f: IntakeForm, s: Session, status: string)
    requires forall i :: 0 <= i < |rows| ==> rows[i].id != id
    ensures var (after, ok) := StoreCreateAsWritten(rows, f);
      && ok && after == rows
      && NewRequest(id, f) !in Listed(after, s, status)
  {
    ListedMembers(rows, s, status);
  }

  /**
   * With the insert that was meant: after a new row is appended, a
   * non-master's unfiltered dashboard, and the dashboard filtered on
   * `new`, both list it with status new, no master and version 0.
   */
  lemma IntakeThenListed(rows: seq<Request>, id: int, f: IntakeForm, s: Session)
    requires s.role != Master
    ensures NewRequest(id, f) in Listed(rows + [NewRequest(id, f)], s, "")
    ensures NewRequest(id, f) in Listed(rows + [NewRequest(id, f)], s, "new")
  {
    ListedMembers(rows + [NewRequest(id, f)], s, "");
    ListedMembers(rows + [NewRequest(id, f)], s, "new");
  }

}
