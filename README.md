# A verified model of a multi-tenant HR backend

The system is a small HR service. Organisations register with an admin user. Each
organisation keeps its own employees and teams, links employees to teams, and keeps an
audit log of who did what. This project models its core in Dafny:

- **The store and its request handlers** (`Backend.Store`, `store.dfy`). These are the
  employee, team and auth controllers. One class holds every table:
  - organisations;
  - users keyed by email;
  - employees and teams keyed by their autoincrement id;
  - the employee/team join table;
  - the append-only log.

  Each handler is a method. It checks its input in the source's order, returns the
  source's status and message on every error path, and leaves the state unchanged on
  failure. On success it makes the write and appends the log entry. Every handler keeps
  the store invariant `Valid()`:
  - rows are keyed;
  - required columns are non-empty;
  - each join row links an employee and a team of one organisation;
  - no pair is linked twice.

  Every handler called for organisation `org` also keeps `TenantIsolated(org)`: no other
  organisation's rows or join rows change, and the log only grows, with `org`'s entries.
- **The tenant-scoped queries and the join table** (`Tables`, `tables.dfy`). This covers
  the scoped `findAll`/`findOne`, the team and member sets that `include` returns, the
  three deletions of join rows (two foreign-key cascades and the unassign), and lemmas on
  what each keeps.
- **Request bodies** (`JsValues`, `Records`). A body field is absent, `null` or a string,
  and JavaScript truthiness decides the checks. `f || current` and
  `f !== undefined ? f : current` are the two fallbacks of the updates.
- **The log query** (`AuditQuery`, `audit_query.dfy`). This is `listLogs` as a pure
  function: scope, optional action, inclusive date bounds, newest first, at most `limit`.
- **The error middleware** (`ErrorHandler`). A pure case split on the error's name.
- **The Teams page's list logic** (`TeamsPage`):
  - the checkbox toggle;
  - the add and remove lists of "save assignments";
  - the selection "manage" starts from;
  - the list filter after a delete.
- **Client scenarios** (`Scenarios`):
  - register then log in;
  - assign one pair twice;
  - the register/create/assign/delete walk-through,
  
  each proved from the handlers' contracts.

Time, the password hash and the password check are inputs. Each handler takes the log
timestamp `now`. The store is built with a `hash` function and a `passwordMatches`
predicate. A token is represented by its claims.

Facts about the code that the model keeps:

- Each write and its log entry are separate statements, with no transaction around them.
  The model does the same and claims no rollback.
- The log query uses a given `limit` as parsed, with no upper cap.
- An unassign of a pair that is not linked fails with 404 and logs nothing. On success
  the code logs only when the employee is found in the caller's organisation. Under the
  invariant every linked pair's employee is in the team's organisation, so that branch is
  dead. `UnassignEmployee` proves that a successful unassign always appends exactly one
  entry.
- The walk-through's log has five entries:
  - `organisation_created`;
  - `employee_created`;
  - `team_created`;
  - `employee_assigned_to_team`;
  - `employee_deleted`.

  `Scenarios.AcmeScenario` proves these five, in order.

## Model

| member | source | states |
|---|---|---|
| Backend.Store.ListEmployees | backend/src/controllers/employeeController.js:3-19 | exactly the caller's organisation's employees, each once, in strictly decreasing id (creation) order, each with its linked teams (built by `Tables.WithTeams` from `Tables.TeamsOf`), all of which belong to the caller's organisation |
| Backend.Store.GetEmployee | backend/src/controllers/employeeController.js:21-43 | succeeds iff the id is an employee of the caller's organisation (`Tables.InOrg`, the scoped `findOne`), else 404 "Employee not found"; the linked teams are all the caller's organisation's |
| Backend.Store.CreateEmployee | backend/src/controllers/employeeController.js:45-74 | 400 with no change unless first name, last name and email are non-empty (`Backend.EmployeeFieldsPresent`, built on `JsValues.Truthy`); otherwise one new row under the caller's organisation with a fresh id, phone stored as given (`JsValues.ToColumn`: absent or `null` becomes a null column), one `employee_created` entry with the id and the three names; keeps the invariant and isolation |
| Backend.Store.UpdateEmployee | backend/src/controllers/employeeController.js:76-110 | 404 with no change for an id absent or of another organisation (`Tables.InOrg`); otherwise only that row changes, to `PatchEmployee` of it, and one `employee_updated` entry records the body's four modelled keys |
| Backend.Store.DeleteEmployee | backend/src/controllers/employeeController.js:112-140 | 404 with no change outside the organisation (`Tables.InOrg`); otherwise the row and every join row naming it are gone, and one `employee_deleted` entry records the name (`Records.FullName`) captured before the delete |
| Backend.Store.ListTeams | backend/src/controllers/teamController.js:3-19 | exactly the caller's organisation's teams, newest first, each with its members (built by `Tables.WithMembers` from `Tables.MembersOf`), all of them the caller's organisation's employees |
| Backend.Store.GetTeam | backend/src/controllers/teamController.js:21-43 | succeeds iff the id is a team of the caller's organisation (`Tables.InOrg`), else 404 "Team not found"; its members are all the caller's organisation's |
| Backend.Store.CreateTeam | backend/src/controllers/teamController.js:45-71 | 400 with no change without a non-empty name (`JsValues.Truthy`); otherwise one new team of the caller's organisation, its description stored through `JsValues.ToColumn`, and one `team_created` entry |
| Backend.Store.UpdateTeam | backend/src/controllers/teamController.js:73-105 | 404 with no change outside the organisation (`Tables.InOrg`); otherwise only that team changes, to `PatchTeam` of it, with one `team_updated` entry holding the body's two modelled keys |
| Backend.Store.DeleteTeam | backend/src/controllers/teamController.js:107-135 | 404 with no change outside the organisation (`Tables.InOrg`); otherwise the team and its join rows are gone, it has no members left, and one `team_deleted` entry records its old name |
| Backend.Store.AssignEmployee | backend/src/controllers/teamController.js:137-202 | failures in the source's order, 400 missing id (`JsValues.TruthyId`: absent, `null` or `0`), 404 team, 404 employee, 409 already linked, each changing nothing; success iff none applies, adding exactly one join row and one `employee_assigned_to_team` entry with both names (`Records.FullName`), so the member set gains exactly that employee |
| Backend.Store.UnassignEmployee | backend/src/controllers/teamController.js:204-264 | 400 missing id (`JsValues.TruthyId`), 404 team, 404 "Assignment not found" when the pair is not linked, each changing nothing; success iff the pair is linked, removing exactly one row and that member, and appending exactly one `employee_unassigned_from_team` entry |
| Backend.Store.Register | backend/src/controllers/authController.js:4-86 | 400 on a missing or empty field (`Backend.RegisterFieldsPresent`), 400 on a password shorter than 6, 409 on a registered email, in that order and creating nothing; success iff none applies, adding one organisation, one user of it with the hashed password and an id no other user has, one `organisation_created` entry, and a token with the new user id, organisation id and email |
| Backend.RegisterKeepsKeys | backend/src/controllers/authController.js:24-44 | with a new email and the next ids, organisations stay keyed by id and users by email, with distinct ids and an existing organisation |
| Backend.Store.Login | backend/src/controllers/authController.js:88-151 | 400 without both fields; the same 401 for an unknown email and a wrong password, with nothing logged; success iff the user exists and the password matches, logging `user_login` under the user's own organisation, with a token carrying that organisation |
| Backend.Store.Logout | backend/src/controllers/authController.js:153-166 | always 200 with exactly one `user_logout` entry carrying the caller's organisation, user and email; keeps the invariant and isolation |
| Backend.Store.AppendLog | backend/src/models/log.js:4-44 | appends exactly the given entry at the end of the log and changes no other field |
| Backend.EntryFound | backend/src/controllers/employeeController.js:62-68 | an entry a handler appends carries the caller's user; the log query of the caller's organisation whose action and date filters admit it (`Backend.Admits`) selects it, and returns it when no more entries match than the limit |
| Backend.Store.ListLogs | backend/src/controllers/logController.js:4-40 | the log query over the current log, changing nothing; every entry returned is in the log and of the caller's organisation, newest first, within the limit |
| Scenarios.RegisterThenLogin | backend/src/controllers/authController.js:4-151 | after a successful register, a login with the same email and password succeeds with the same token claims and the same organisation, given that the password check accepts the hash of a password |
| Scenarios.AssignTwice | backend/src/controllers/teamController.js:170-183 | when a first assign succeeds, the same assign again is 409; exactly one join row and one entry were added, and pairs remain unique |
| Scenarios.AcmeScenario | backend/src/models/employeeTeam.js:10-27 | register, create an employee and a team, assign, read, delete the employee, read: the team's members are exactly that employee and then none, and the log's actions are the five in order |
| Records.PatchEmployee | backend/src/controllers/employeeController.js:91-96 | names and email take the body's value only when it is a non-empty string (`JsValues.Or`) and are otherwise kept; phone (`JsValues.IfDefined`) is kept only when absent, null clears it, and any string, even empty, replaces it; completeness is kept |
| Records.PatchTeam | backend/src/controllers/teamController.js:88-91 | the name is replaced only by a non-empty string (`JsValues.Or`); the description (`JsValues.IfDefined`) is kept only when absent, null clears it, and a string replaces it; a non-empty name stays non-empty |
| Records.PatchIdempotent | backend/src/controllers/employeeController.js:91-96 | applying the same update body twice gives the row the first application gave, for employees and teams |
| Tables.ScopedList | backend/src/controllers/employeeController.js:5-13 | every listed row is a stored row of the organisation, every stored row of the organisation is listed, ids strictly decrease, so no row is listed twice |
| Tables.TeamsOf | backend/src/controllers/employeeController.js:7-11 | a team id is included for an employee iff the pair is linked (`Tables.HasPair`, the same test as the 409 check), that is, iff some join row links that employee to it |
| Tables.MembersOf | backend/src/controllers/teamController.js:7-11 | an employee id is included for a team iff the pair is linked (`Tables.HasPair`), that is, iff some join row links it to that team |
| Tables.TeamsOfInOrg | backend/src/controllers/employeeController.js:28-32 | the teams an employee of an organisation is linked to are all teams of that organisation |
| Tables.MembersOfInOrg | backend/src/controllers/teamController.js:28-32 | the members of a team of an organisation are all employees of that organisation |
| Tables.WithoutEmployee | backend/src/models/employeeTeam.js:10-18 | the cascade of an employee delete keeps exactly the join rows not naming that employee |
| Tables.WithoutTeam | backend/src/models/employeeTeam.js:19-27 | the cascade of a team delete keeps exactly the join rows not naming that team |
| Tables.WithoutPair | backend/src/controllers/teamController.js:234-239 | the unassign's destroy keeps exactly the join rows of other pairs |
| Tables.WithoutPairCount | backend/src/controllers/teamController.js:234-243 | with unique pairs, the destroy deletes nothing iff the pair is not linked, and otherwise exactly one row |
| Tables.FilterKeepsPairsUnique | backend/src/controllers/teamController.js:234-239 | deleting any join rows never creates a duplicate pair |
| Tables.CascadesKeepPairsUnique | backend/src/models/employeeTeam.js:10-27 | both cascades and the unassign keep pairs unique |
| Tables.PairsUniqueTail | backend/src/controllers/teamController.js:171-177 | in a duplicate-free join table, the rows after the first are duplicate-free and none repeats the first pair |
| Tables.AppendKeepsPairsUnique | backend/src/controllers/teamController.js:171-183 | adding a row only when the pair is not yet linked, as the 409 check does, keeps pairs unique |
| Tables.AppendMembers | backend/src/controllers/teamController.js:180-183 | a new join row adds exactly its employee to its team's members and no other team changes |
| Tables.WithoutPairMembers | backend/src/controllers/teamController.js:234-239 | the unassign removes exactly that employee from that team's members and no other team changes |
| Tables.UnassignKeeps | backend/src/controllers/teamController.js:226-246 | a destroy of a linked pair of the caller's team removes exactly one row, keeps pairs unique and join rows within one organisation and of other organisations' teams, removes exactly that member, and finds the employee in the caller's organisation |
| Tables.PairInOrg | backend/src/controllers/teamController.js:226-246 | when join rows never cross organisations, a linked pair whose team is the caller's has an employee of the caller's organisation, so the conditional log always happens |
| Tables.KeyedWrite | backend/src/controllers/employeeController.js:91-96 | writing a row under its own id keeps the table keyed |
| Tables.SameTenantWriteEmployee | backend/src/controllers/employeeController.js:54-60 | creating or updating an employee without moving it to another organisation keeps every join row within one organisation |
| Tables.SameTenantWriteTeam | backend/src/controllers/teamController.js:53-57 | the same for creating or updating a team |
| Tables.SameTenantWithoutEmployee | backend/src/models/employeeTeam.js:10-18 | deleting an employee with its cascade leaves no dangling or cross-organisation join row |
| Tables.SameTenantWithoutTeam | backend/src/models/employeeTeam.js:19-27 | deleting a team with its cascade leaves no dangling or cross-organisation join row |
| Tables.SameTenantWithoutPair | backend/src/controllers/teamController.js:234-239 | the unassign keeps the remaining join rows within one organisation each |
| Tables.SameTenantAppend | backend/src/controllers/teamController.js:146-183 | a join row between an employee and a team both checked to be the caller's keeps join rows within one organisation |
| Tables.WriteInOrg | backend/src/controllers/employeeController.js:80-96 | writing a row of the caller's organisation leaves every other organisation's rows as they were |
| Tables.DeleteInOrg | backend/src/controllers/employeeController.js:114-126 | deleting a row of the caller's organisation leaves every other organisation's rows as they were |
| Tables.WithoutEmployeeIsolated | backend/src/models/employeeTeam.js:10-18 | the employee cascade removes only join rows of the caller's organisation's teams |
| Tables.WithoutTeamIsolated | backend/src/models/employeeTeam.js:19-27 | the team cascade removes only join rows of the caller's team |
| Tables.WithoutPairIsolated | backend/src/controllers/teamController.js:214-239 | the unassign removes only join rows of a team of the caller's organisation |
| AuditQuery.Matches | backend/src/controllers/logController.js:8-24 | a matching entry is always of the scoped organisation, and without action and date filters an entry matches iff it is of that organisation |
| AuditQuery.Selected | backend/src/controllers/logController.js:26-28 | every selected entry is in the log and matches; every log entry that matches is selected |
| AuditQuery.SelectedCounts | backend/src/controllers/logController.js:26-28 | each matching entry is selected exactly as often as it occurs in the log, and a non-matching one never |
| AuditQuery.Insert | backend/src/controllers/logController.js:32 | inserting keeps every entry and adds the new one, as a multiset |
| AuditQuery.InsertNewestFirst | backend/src/controllers/logController.js:32 | inserting into a newest-first sequence keeps it newest first |
| AuditQuery.InsertAtMost | backend/src/controllers/logController.js:32 | inserting an entry no newer than a bound keeps every entry no newer than it |
| AuditQuery.SortNewestFirst | backend/src/controllers/logController.js:32 | the result is a permutation of the input in non-increasing timestamp order |
| AuditQuery.Take | backend/src/controllers/logController.js:33 | a prefix of length `n` when `0 <= n` is below the length, otherwise everything |
| AuditQuery.ListLogs | backend/src/controllers/logController.js:26-34 | a prefix of the selected entries sorted newest first |
| AuditQuery.ListLogsSelected | backend/src/controllers/logController.js:8-24 | every returned entry is in the log and satisfies the whole `where` |
| AuditQuery.ListLogsScoped | backend/src/controllers/logController.js:8-10 | every returned entry has the caller's organisation, the scope `AuditQuery.BuildWhere` always sets |
| AuditQuery.ListLogsAction | backend/src/controllers/logController.js:12-14 | a non-empty action keeps only that action; an empty one gives the same result as none, since `AuditQuery.BuildWhere` sets the filter only for a truthy action |
| AuditQuery.ListLogsWithinDates | backend/src/controllers/logController.js:16-24 | each given date bound (passed through by `AuditQuery.BuildWhere`) holds inclusively for every returned entry; with a bound absent, every log entry that passes the scope, the action filter (`AuditQuery.ScopeAndAction`) and the other bound is selected, whatever its timestamp on that side |
| AuditQuery.ListLogsNewestFirst | backend/src/controllers/logController.js:32 | the result is in non-increasing timestamp order |
| AuditQuery.ListLogsLimit | backend/src/controllers/logController.js:26-34 | at most `limit` entries, 50 when none is given (`AuditQuery.EffectiveLimit`); when no more match, every matching entry is returned, as often as it occurs |
| ErrorHandler.Handle | backend/src/middlewares/errorHandler.js:1-28 | the status is never 0 and the message never empty; a per-error list is present iff the error is a validation or uniqueness error, one per underlying error; a stack is present only in development and is then the error's own |
| ErrorHandler.FieldErrors | backend/src/middlewares/errorHandler.js:4-9 | one `{field, message}` per underlying error, in order, from its path and message |
| ErrorHandler.DatabaseErrors | backend/src/middlewares/errorHandler.js:4-22 | validation errors give 400 and uniqueness errors 409, each with the per-error list; foreign-key errors give 400 with a fixed message and no list |
| ErrorHandler.DatabaseErrorsHideInternals | backend/src/middlewares/errorHandler.js:4-22 | a database error's reply depends only on its name and field list, never on its own status, message, stack or the environment |
| ErrorHandler.OtherErrors | backend/src/middlewares/errorHandler.js:24-27 | any other error: its status if truthy else 500, its message if non-empty else "Internal server error", no list, the stack only in development |
| ErrorHandler.NoStackOutsideDevelopment | backend/src/middlewares/errorHandler.js:26 | outside development no reply carries a stack |
| Seqs.Filter | frontend/src/pages/Teams.jsx:79 | the kept elements are elements of the input satisfying the predicate, every element satisfying it is kept, and the result is no longer |
| Seqs.FilterMultiset | frontend/src/pages/Teams.jsx:43 | filtering keeps each element satisfying the predicate exactly as often as it occurs, and no other element |
| Seqs.FilterIsSubsequence | frontend/src/pages/Teams.jsx:43 | filtering keeps the surviving elements in their original order |
| Seqs.FilterKeepsAll | frontend/src/pages/Teams.jsx:43 | filtering has the input's length iff every element satisfies the predicate, and is then the identity |
| Seqs.FilterKeepsNone | frontend/src/pages/Teams.jsx:91-93 | filtering keeps nothing when no element satisfies the predicate |
| JsValues.Or | backend/src/controllers/employeeController.js:92-94 | the logical-or fallback: the field's string when truthy, else the current value, so a non-empty current value never becomes empty |
| TeamsPage.Toggle | frontend/src/pages/Teams.jsx:76-82 | the id is in the result iff it was not in the selection |
| TeamsPage.ToAdd | frontend/src/pages/Teams.jsx:91 | every id to add is selected and not a current member, and there are no more of them than selected ids |
| TeamsPage.ToRemove | frontend/src/pages/Teams.jsx:93 | every id to remove is a current member and not selected, and there are no more of them than current members |
| TeamsPage.RemoveTeam | frontend/src/pages/Teams.jsx:43 | every remaining card is one of the old cards and none has the deleted id; the list does not grow |
| TeamsPage.ToggleFlips | frontend/src/pages/Teams.jsx:76-82 | after a toggle the id is selected iff it was not, every other id keeps its state, an absent id is appended, and a present one loses every occurrence |
| TeamsPage.ToggleTwice | frontend/src/pages/Teams.jsx:76-82 | toggling the same id twice restores the selected set |
| TeamsPage.DiffExact | frontend/src/pages/Teams.jsx:88-93 | `toAdd` is exactly selected-and-not-current, `toRemove` exactly current-and-not-selected, so `toAdd` avoids the members, `toRemove` lies within them, and no id is in both |
| TeamsPage.AssignAllUnion | frontend/src/pages/Teams.jsx:96-98 | `TeamsPage.AssignAll`, the assign loop, adds exactly its ids to the member set |
| TeamsPage.UnassignAllDifference | frontend/src/pages/Teams.jsx:101-103 | `TeamsPage.UnassignAll`, the unassign loop, removes exactly its ids from the member set |
| TeamsPage.SaveReachesSelection | frontend/src/pages/Teams.jsx:84-103 | applying every add and then every remove to the current members yields exactly the selected set |
| TeamsPage.UnchangedSelectionIsNoOp | frontend/src/pages/Teams.jsx:56-93 | a selection left as "manage" seeded it (`TeamsPage.MemberIds`, the team's member ids or none) produces no add and no remove |
| TeamsPage.RemoveTeamExact | frontend/src/pages/Teams.jsx:43 | after a delete exactly the cards with other ids remain, in their order and each as often as before, and nothing changes when no card has the id |

## Left out

- JWT signing, the secret and its fallback, and the 8-hour expiry are not modelled. A token is its claims.
- The password hash and `validatePassword` belong to the user model, which is not part of this model. They are the store's `hash` and `passwordMatches` inputs.
- Sequelize and SQLite are not modelled. Their effect is folded into the state:
  - autoincrement ids that are never reused (the `next…` counters);
  - the two cascades;
  - nullable `phone` and `description`;
  - nullable log organisation and user.
- The employee and user model files are not part of this model. Any validators they declare (for example on email format) are not modelled. An error they would raise goes to `ErrorHandler.Handle`.
- The log's `meta` is stored as JSON text through a getter and setter. This is not modelled: `meta` is a structured value.
- Clock and dates are not modelled. `created_at` order is id order, and timestamps and query dates are integers. `new Date(...)` parsing and invalid dates are left out.
- The query's `limit` is the parsed number. A non-numeric limit (`parseInt` giving `NaN`) is not modelled. A negative limit is read as no bound, as SQLite does.
- Non-numeric ids in paths or bodies are not modelled. Ids are integers, and `0`, absent and `null` are falsy.
- The `assigned_at` column of the join table is kept in the state, but the views return only the linked ids. The attribute lists of `include` and the users attached to log entries are not modelled.
- Backend.Store.Register: the password length check uses the Dafny string length. JavaScript counts UTF-16 code units, which differs for characters outside the basic plane.
- Transactions and partial failure are not modelled. There is no rollback, because the code has none; a write and its log entry are consecutive steps.
- Concurrency is not modelled: requests run one at a time. This leaves out the check-then-insert race in assign and the parallel loads of the page.
- Not modelled: `console` output, the routes, the auth middleware (the caller is a parameter), the error handler's response writing beyond its value, React state and rendering, the `api` calls, and `alert`/`confirm`.
- Request bodies are modelled by the keys the handlers read, each absent, `null` or a string. Keys a client sends beyond those are not modelled, so the bodies `UpdateEmployee` and `UpdateTeam` log (`changes: req.body`) hold only the modelled keys. Values of other JSON types are not expressible. For example, a numeric password such as `1234` passes the presence check of `register` and `login` in the source, but cannot be written in the model.
- AuditQuery.SortNewestFirst: entries with equal timestamps come out with the later-appended entry first. SQL leaves the order of ties open, and with a limit this choice decides which of the tied entries are returned.
- TeamsPage.SaveReachesSelection: the page issues its assign and unassign calls one by one and stops on the first failure. The lemma describes the member set when every call succeeds, using set union and difference.
