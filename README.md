# Repair-request lifecycle

A model of the request lifecycle of a small repair-service web application
(`app/handlers/handlers.go`). Clients' requests are taken in by a form,
dispatchers assign them to masters or cancel them, and masters start and
finish them. Each lifecycle action is one guarded update of one row of the
`requests` table. The update rewrites the row only when its status (and,
for a master, its assignee) still allows it. The number of rows it affected
decides, for `start`, whether the user is sent back with the conflict flag.

The modules follow the handler file:

- `Structs`: the request and user records and the five statuses.
- `Session`: `getSession` over the cookies a browser sends, Go's
  `strconv.Atoi`/`strconv.Itoa` on a 64-bit platform, and the POST branch of
  `Login` that sets those cookies, through the value sanitiser of
  `http.SetCookie`.
- `Lifecycle`: the four guarded statements. `Updated` is the table after a
  statement and `Affected` is its rows-affected count. The state diagram
  (new → assigned → in_progress → done, new/assigned → canceled) is an
  independent reference the statements are proved against. A lifecycle
  invariant (`Consistent`) holds for every row that started as a fresh
  intake.
- `Actions`: `actionHandler` as a function of the table. It covers which
  statement an action issues for the session's role, what the table
  becomes, and which of the two redirects (`/dashboard`,
  `/dashboard?error=conflict`) is sent.
- `Listing`: what `dashboardHandler` selects (role and status filters) and
  the masters list.
- `Intake`: the empty-field check of `Create` and the row an accepted form
  becomes. It also holds the store's `Create` as written (see Findings).
- `Handlers`: the `requests` table as a class whose methods change its rows
  in place. An UPDATE is a loop over the rows, and each statement a method.
  It also holds the handlers `Act` (`actionHandler`), `Dashboard` (with its
  two row-reading loops) and `Create`, and a walk-through of one request's
  life.

Concurrency is modelled as the database provides it: each statement is
atomic, so two racing handler calls are two calls in a row, and the second
sees the first one's result.

The outcomes are those the code produces:

- The code has two redirects, not separate applied, conflict,
  unauthorized and invalid-input outcomes.
- A wrong role and an unknown action issue nothing and redirect plainly.
- An `assign`, `cancel` or `finish` that matches no row also redirects
  plainly. Only `start` turns zero affected rows into the conflict flag.
  So "cancel on a done request" and "assign on a request that is not new"
  are plain redirects that change nothing, not conflicts.
- A store error is not kept apart from a conflict. Any error the statement
  returns sets the conflict flag (`HandleAction` with `execFails`).
- In the walk-through of one request, the late cancel therefore redirects
  plainly. The model proves that it changes nothing.

## Model

| member | source | states |
|---|---|---|
| Structs.StatusNameInjective | app/handlers/handlers.go:157-160 | distinct statuses have distinct texts, so a status filter selects exactly one state |
| Session.CookieValue | app/handlers/handlers.go:17-33 | no value exactly when no cookie has that name; a value is that of the first cookie with the name |
| Session.FirstNamedValue | app/handlers/handlers.go:17-33 | when cookie i is the first with the name, the value looked up is cookie i's value |
| Session.Atoi | app/handlers/handlers.go:21 | the parsed id lies in Go's 64-bit `int` range; text that is neither a numeral nor an overflowing digit run gives 0; a leading digit run above 2^64 - 1 gives the largest `int`, or the smallest after a `-`, whatever follows it |
| Session.OverflowThenAnything | app/handlers/handlers.go:21 | digits worth more than 2^64 - 1 followed by any text parse as the largest `int` |
| Session.NegativeOverflowThenAnything | app/handlers/handlers.go:21 | `-`, then digits worth more than 2^64 - 1, then any text parse as the smallest `int` |
| Session.DigitsRoundTrip | app/handlers/handlers.go:65 | the digits `Itoa` prints for a natural number read back as that number |
| Session.Itoa | app/handlers/handlers.go:65 | its partner is `Atoi`: `AtoiItoa` and `DigitsRoundTrip` carry its contract, `ItoaIsCookieText` says the text passes the cookie sanitiser unchanged |
| Session.AtoiItoa | app/handlers/handlers.go:63-65 | `Atoi(Itoa(n)) == n` for every `n` in the 64-bit range |
| Session.GetSession | app/handlers/handlers.go:16-35 | no uid cookie gives (0, "", ""); a uid that `Atoi` maps to 0 (not a numeral, no overflowing digit run) gives 0; a missing role or name cookie gives "" for that field |
| Session.GetSessionReadsFirstCookies | app/handlers/handlers.go:16-35 | with the cookies present, the uid is `Atoi` of the first `user_id` cookie, and role and name are the first `role` and `name` cookies' values |
| Session.Login | app/handlers/handlers.go:52-68 | the form is rejected exactly when the uid, role or name field is empty |
| Session.SanitizeValue | app/handlers/handlers.go:65-67 | the value `http.SetCookie` writes holds only cookie characters, is no longer than the given one, and is the given one when that is made of cookie characters; `SanitizeValueAppend`, `SanitizeValueChar` and `SanitizeValueCounts` pin it down character by character |
| Session.SanitizeValueAppend | app/handlers/handlers.go:65-67 | the sanitised concatenation is the concatenation of the sanitised parts, so kept characters stay in order |
| Session.SanitizeValueChar | app/handlers/handlers.go:65-67 | one character is kept exactly when it is a cookie character |
| Session.SanitizeValueCounts | app/handlers/handlers.go:65-67 | every cookie character of the value is kept as often as it occurs, and every other character is dropped |
| Session.SanitizeDropsSemicolon | app/handlers/handlers.go:67 | the name "O;lga" is sent back as "Olga" |
| Session.Transmit | app/handlers/handlers.go:65-67 | the cookies come back with the same names, in the same order, each value the sanitised value that was set |
| Session.ItoaIsCookieText | app/handlers/handlers.go:65 | the text `Itoa` prints is made of cookie characters |
| Session.LoginThenSession | app/handlers/handlers.go:63-67 | the cookies a successful login sets, as the browser sends them back after the sanitiser, read through `getSession` as (Atoi(uid), sanitised role, sanitised name), and exactly as posted when role and name are made of cookie characters |
| Lifecycle.Guard | app/handlers/handlers.go:202-224 | the WHERE condition of each statement beyond the id; its contract is carried by `GuardedUpdateFollowsDiagram` and `TerminalMatchesNoGuard` |
| Lifecycle.Effect | app/handlers/handlers.go:202-224 | the SET clause of each statement; its contract is carried by `GuardedUpdateFollowsDiagram` and `EffectKeepsConsistent` |
| Lifecycle.UpdateRow | app/handlers/handlers.go:202-224 | one row through a statement; its contract is carried by `UpdatedAt` and `OnlyTargetRowChanges` |
| Lifecycle.Updated | app/handlers/handlers.go:202-224 | the table after a statement, as long as before; its contract is carried by `UpdatedAt`, `OnlyTargetRowChanges`, `UpdatedKeyed` and `NoHitNoChange` |
| Lifecycle.Affected | app/handlers/handlers.go:213-216 | the rows-affected count; its contract is carried by `AffectedIsOneExactlyOnHit`, `AffectedZeroIffNoHit` and `UpdatedKeyed` |
| Lifecycle.UpdatedAt | app/handlers/handlers.go:202-224 | row i after a statement is row i before, rewritten exactly when the statement's id and guard match it |
| Lifecycle.UpdatedRowByRow | app/handlers/handlers.go:202-224 | a table rewritten row by row by the statement is the statement's result |
| Lifecycle.GuardedUpdateFollowsDiagram | app/handlers/handlers.go:202-224 | every guarded update moves its row along one edge of the diagram, keeps id and intake fields, raises the version only on start and by one, and sets the master only on assign |
| Lifecycle.EveryEdgeHasAnAction | app/handlers/handlers.go:202-224 | every edge of the diagram is taken by some guarded update |
| Lifecycle.TerminalMatchesNoGuard | app/handlers/handlers.go:202-224 | no guard matches a done or canceled request |
| Lifecycle.OnlyTargetRowChanges | app/handlers/handlers.go:202-224 | a statement changes only a row with its id whose guard holds; ids and intake fields stay; a status changes only along an edge |
| Lifecycle.TerminalRowsUnchanged | app/handlers/handlers.go:202-224 | done and canceled rows come out of every statement unchanged |
| Lifecycle.UpdatedKeepsIds | app/handlers/handlers.go:202-224 | ids stay unique through a statement |
| Lifecycle.AffectedIsOneExactlyOnHit | app/handlers/handlers.go:213-216 | with unique ids the rows-affected count is at most 1, and 1 exactly when the named row exists and satisfies the guard |
| Lifecycle.AffectedZeroIffNoHit | app/handlers/handlers.go:213-217 | the count is 0 exactly when no row is matched |
| Lifecycle.UpdatedKeyed | app/handlers/handlers.go:202-224 | with unique ids, a statement on the id of row k rewrites row k and nothing else, and affects one row exactly when its guard holds there |
| Lifecycle.NoHitNoChange | app/handlers/handlers.go:202-224 | a statement that affects no row leaves the table as it was |
| Lifecycle.SecondStartMatchesNothing | app/handlers/handlers.go:213 | a second start of the same request by the same master matches no row, whatever the table held |
| Lifecycle.StartWinsOnce | app/handlers/handlers.go:212-219 | once a start has been applied, no start by any master matches the request again, and its version rose by exactly one and it is in progress |
| Lifecycle.ReachableIsAcyclic | app/handlers/handlers.go:202-224 | the diagram has no cycle and nothing leaves done or canceled |
| Lifecycle.ReachableTransitive | app/handlers/handlers.go:202-224 | reachability in the diagram composes |
| Lifecycle.RunFollowsDiagram | app/handlers/handlers.go:188-232 | over any history of statements, every row keeps its id and intake fields and its status is reachable in the diagram from where it started |
| Lifecycle.EffectKeepsConsistent | app/handlers/handlers.go:202-224 | a guarded update keeps the lifecycle invariant: no master while new, a master from assigned on, version 1 exactly once started |
| Lifecycle.UpdatedKeepsConsistent | app/handlers/handlers.go:202-224 | every statement keeps every row consistent |
| Lifecycle.RunKeepsConsistent | app/handlers/handlers.go:188-232 | every history keeps every row consistent |
| Actions.Dispatch | app/handlers/handlers.go:196-225 | a statement is issued exactly when the session has the role the action requires; it is the action's own statement; start and finish act for the session's uid; assign targets the posted master |
| Actions.HandleAction | app/handlers/handlers.go:188-232 | one call of the handler on the table; its contract is carried by `NoStatementIsPlain`, `StoreErrorIsConflict`, `OnlyStartReportsConflict`, the four per-action lemmas, `KeyedRow` and the race lemmas below |
| Actions.NoStatementIsPlain | app/handlers/handlers.go:196-231 | a wrong role or an unknown action changes nothing and redirects plainly |
| Actions.StoreErrorIsConflict | app/handlers/handlers.go:227-228 | a store error leaves the table alone and redirects with the conflict flag |
| Actions.OnlyStartReportsConflict | app/handlers/handlers.go:214-231 | when the statement runs, the conflict flag is set exactly for a start that matched no row, and a statement that matched no row changed nothing |
| Actions.AssignByDispatcher | app/handlers/handlers.go:197-202 | exactly the row with the posted id that is new becomes assigned to the posted master; every other row and field is unchanged; plain redirect |
| Actions.CancelByDispatcher | app/handlers/handlers.go:203-207 | exactly the row with the posted id that is new or assigned becomes canceled; every other row is unchanged; plain redirect |
| Actions.StartByMaster | app/handlers/handlers.go:208-219 | exactly the row with the posted id, assigned and assigned to this master, becomes in progress with version + 1; conflict exactly when no such row exists |
| Actions.FinishByMaster | app/handlers/handlers.go:220-224 | exactly the row with the posted id, in progress and assigned to this master, becomes done; plain redirect |
| Actions.KeyedRow | app/handlers/handlers.go:188-232 | with unique ids, the handler on the id of row k rewrites row k by the chosen statement and nothing else, and conflicts exactly for a start that does not match row k |
| Actions.StartByOtherMaster | app/handlers/handlers.go:208-219 | on any table with unique ids, a master starting an assigned request that is assigned to someone else gets the conflict flag and changes nothing |
| Actions.StartByAssignedMaster | app/handlers/handlers.go:208-219 | on any table with unique ids, the assigned master's start moves that request to in progress with version + 1, changes no other row, and redirects plainly |
| Actions.CancelTooLate | app/handlers/handlers.go:203-207 | on any table with unique ids, a dispatcher's cancel of a request in progress changes nothing and redirects plainly |
| Actions.FinishByAssignedMaster | app/handlers/handlers.go:220-224 | on any table with unique ids, the assigned master's finish moves that request to done, changes no other row, and redirects plainly |
| Actions.RepeatedStartConflicts | app/handlers/handlers.go:208-228 | the same master starting the same request twice: the second call always conflicts and changes nothing |
| Actions.RacingStartsOneWins | app/handlers/handlers.go:212-228 | after one master's start is applied, a start of the same request by any master conflicts and changes nothing; the version rose by one in all |
| Listing.Visible | app/handlers/handlers.go:151-160 | the role and status tests of the query; its contract is carried by `ListedMembers`, `MasterSeesOnlyOwn` and `StatusFilterIsExact` |
| Listing.Listed | app/handlers/handlers.go:151-173 | the requests the dashboard selects; its contract is carried by `ListedMembers`, `EveryoneElseSeesAll` and `UnknownStatusListsNothing` |
| Listing.ListedMembers | app/handlers/handlers.go:151-173 | a request is listed exactly when it is in the table and passes the role and status tests; the list is no longer than the table |
| Listing.MasterSeesOnlyOwn | app/handlers/handlers.go:153-156 | a master's dashboard lists only requests assigned to that master |
| Listing.StatusFilterIsExact | app/handlers/handlers.go:157-160 | with a status parameter every listed request has that status |
| Listing.UnknownStatusListsNothing | app/handlers/handlers.go:157-160 | a status parameter naming none of the five states lists nothing |
| Listing.EveryoneElseSeesAll | app/handlers/handlers.go:151-160 | a non-master with no status parameter sees the whole table, in storage order |
| Listing.MasterUsers | app/handlers/handlers.go:175-182 | the masters list; its contract is carried by `MasterUsersMembers` and `MasterUsersAppend` |
| Listing.MasterUsersMembers | app/handlers/handlers.go:175-182 | the masters list holds exactly the masters of the directory, with id and name and an empty role, and is no longer than the directory |
| Listing.MasterUsersAppend | app/handlers/handlers.go:175-182 | the masters list of two directories in a row is the first one's list followed by the second's: the list keeps directory order |
| Intake.Complete | app/handlers/handlers.go:111-115 | the empty-field check; its contract is carried by `Handlers.RequestTable.Create`: the page is the bad-input page exactly when the check fails, and then the table is unchanged |
| Intake.NewRequest | app/consts/consts.go:7 | an accepted form becomes a row with its four fields, status new, no master, version 0, consistent |
| Intake.StoreCreateAsWritten | app/database/database.go:50-85 | the store's `Create` as written: table unchanged, success reported; its contract is carried by `AsWrittenIntakeIsLost` |
| Intake.AsWrittenIntakeIsLost | app/database/database.go:64-84 | for any table and form, the store's `Create` as written reports success, leaves the table unchanged, and no dashboard lists the row the insert was meant to add |
| Intake.IntakeThenListed | app/handlers/handlers.go:151-160 | after the intended insert, a non-master's dashboard lists the new request unfiltered and under the filter `new` |
| Handlers.Scan | app/handlers/handlers.go:202-224 | the row-by-row scan an UPDATE makes yields exactly `Updated` and counts exactly `Affected` |
| Handlers.SelectRequests | app/handlers/handlers.go:168-173 | the reading loop collects exactly the listed requests, in storage order |
| Handlers.SelectMasters | app/handlers/handlers.go:175-182 | the reading loop collects exactly the masters list |
| Handlers.UpdatedKeepsRowInvariant | app/handlers/handlers.go:202-224 | a statement keeps ids unique and below the counter and every row consistent |
| Handlers.RequestTable.Exec | app/handlers/handlers.go:202-224 | the table becomes `Updated` of the old rows, the count is `Affected` and at most 1, and the table invariant is kept |
| Handlers.RequestTable.Assign | app/handlers/handlers.go:202 | the assign statement applied in place: the rows become `Updated` by it, the count is `Affected` and at most 1, the invariant is kept |
| Handlers.RequestTable.Cancel | app/handlers/handlers.go:207 | the cancel statement applied in place: the rows become `Updated` by it, the count is `Affected` and at most 1, the invariant is kept |
| Handlers.RequestTable.Start | app/handlers/handlers.go:213 | the start statement applied in place: the rows become `Updated` by it, the count is `Affected` and at most 1, the invariant is kept |
| Handlers.RequestTable.Finish | app/handlers/handlers.go:224 | the finish statement applied in place: the rows become `Updated` by it, the count is `Affected` and at most 1, the invariant is kept |
| Handlers.RequestTable.Act | app/handlers/handlers.go:188-232 | the new rows and the redirect are exactly those of `HandleAction` on the old rows and the cookies' session; the table invariant is kept |
| Handlers.RequestTable.Dashboard | app/handlers/handlers.go:144-182 | no session id sends the visitor home; otherwise a failed request query is a server error; otherwise a failed masters query panics; otherwise the page holds the session's name and role, the listed requests and the masters list |
| Handlers.RequestTable.StoreCreate | app/consts/consts.go:7 | the intended insert appends one new-status row under the next id and keeps the invariant |
| Handlers.RequestTable.Create | app/handlers/handlers.go:105-138 | an empty field is rejected with the table unchanged; a store error is an internal error with the table unchanged; otherwise exactly one new row is appended |
| Handlers.SignedInJarIsLogin | app/handlers/handlers.go:63-67 | the jar `SignedInJar` describes is what the browser holds after a login with that id, role and name, when role and name are made of cookie characters |
| Handlers.SignedInJarSession | app/handlers/handlers.go:16-35 | the cookies of a signed-in user read back as that user's session |
| Handlers.LifecycleScenario | app/handlers/handlers.go:188-232 | through `Create` and `Act` on one table, with the cookies of a signed-in dispatcher and two masters: intake of Alice's request, assignment to master 7, a start by master 9 (conflict), the start by master 7, a late cancel and the finish end in done, master 7, version 1, with the redirects plain, conflict, plain, plain, plain |

## Left out

- HTTP transport: the model takes the parsed cookies, form fields and
  URL parameter as values, and returns the outcome (redirect, page, or
  error) instead of writing a response.
- `Home`, `Logout` and the GET branch of `Login` are rendering and cookie
  clearing, and hold no logic this model states anything about.
- Template rendering and the messages set on the login and create pages.
  The handler returns without writing them.
- The SQL text the dashboard builds. The model has the predicate it
  expresses instead: its role and status tests.
- Collation of the text comparisons in the database: the dashboard's
  `status` filter and the masters query's `role = 'master'` test. The model
  compares both texts exactly.
- The row type the dashboard scans into is not part of this model. Listed
  rows are the stored rows.
- `created_at` and `updated_at`: no statement shown sets them.
- Integer width of `version`: the model's counter is unbounded. One start
  per request makes it at most 1 for a row created by intake.
- Real concurrency and transaction isolation: each statement is one atomic
  step, and racing calls are calls in sequence.
- Store and query failures are boolean parameters (`execFails`,
  `queryFails`, `mastersFail`). Why a store fails is not modelled.
- The masters are read from a given user list instead of a query. When
  that query fails, the handler discards its error and iterates a nil
  result, which panics; `Dashboard` returns `Panicked` for it
  (`mastersFail`). What the server does after the panic (log it and drop
  the connection) is not modelled.
- Row order: neither query has an ORDER BY, so the database may return
  rows in any order. The model fixes one: the order of the table's
  sequence ("storage order" above) and of the given user list
  ("directory order").
- `master_id` is posted as text and handed to the database as is. The
  model takes it as an integer id.
- `GetUsers` and `DBConn` in `app/database/database.go` are row reading and
  connection I/O.
- `app/main.go` (environment, routes, server) and `app/errs/errs.go`
  (error pages) are wiring and rendering.
- The store's `Create` as written never inserts (see Findings). The rest
  of the model uses the intended insert: append a new row. The code also
  sketches a lookup that would insert only when it finds no row. Its query
  takes no argument and reads the first request of the whole table, so
  its intent is unclear. The model drops that lookup on purpose.
- The transaction the store's `Create` opens is neither committed nor
  rolled back on the path the code takes. The model has no transactions.
  A failing `Begin`, which panics, is not modelled.
- Cookie parsing: the model takes the cookies Go's parser accepted, in
  the order the browser sent them. Cookie attributes (path, expiry) are
  not modelled. What `http.SetCookie` writes is modelled by
  `SanitizeValue`. It does not model the header being dropped for an
  invalid cookie name, and all names here are valid.

## Findings

| source | as written | input that shows it | evidently intended | confidence | as-written member | corrected member |
|---|---|---|---|---|---|---|
| app/database/database.go:64-84 | the error tested after the lookup is the already-nil one from `Begin`, the lookup's own error is dropped, and the insert text begins with "inset"; `Create` therefore always returns (nil, true) without inserting | any complete form, e.g. client "Alice", phone "555", address "1 Rd", problem "leak" on an empty table: reported stored, dashboard empty | a complete form is stored as a new request with status new, no master, version 0 | not executed | Intake.AsWrittenIntakeIsLost | Handlers.RequestTable.StoreCreate |
