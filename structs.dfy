/**
 * Record shapes of the repair-request service: the `requests` row, the
 * `users` row, and the five lifecycle statuses the `status` column holds.
 */
module Structs {
  import opened Wrappers

  /** The lifecycle state of a request. */
  datatype Status = New | Assigned | InProgress | Canceled | Done

  /** The text stored in the `status` column for each state. */
  function StatusName(s: Status): (name: string)
    ensures name != ""
  {
    match s
    case New => "new"
    case Assigned => "assigned"
    case InProgress => "in_progress"
    case Canceled => "canceled"
    case Done => "done"
  }

  /** Distinct states are stored as distinct texts, so a filter on the text selects one state. */
  lemma StatusNameInjective(s: Status, t: Status)
    ensures StatusName(s) == StatusName(t) <==> s == t
  {
  }

  /**
   * One row of the `requests` table. `assignedTo` is `None` while the
   * column is NULL (a request nobody was assigned to yet).
   */
  datatype Request = Request(
    id: int,
    clientName: string,
    phone: string,
    address: string,
    problemText: string,
    status: Status,
    assignedTo: Option<int>,
    version: int)

  /** One row of the `users` table, as the dashboard reads it. */
  datatype User = User(id: int, name: string, role: string)

  /** The two roles the handlers check for. */
  const Dispatcher: string := "dispatcher"
  const Master: string := "master"

}
