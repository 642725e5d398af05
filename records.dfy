/** The rows of the HR store and what the handlers return: organisations, users,
    employees, teams, employee-team assignments, audit log entries, request bodies,
    session tokens and HTTP replies. */
module Records {
  import opened JsValues

  /** `req.user`: the authenticated caller, as the auth middleware attaches it. */
  datatype Caller = Caller(orgId: int, userId: int, email: string)

  /** The claims a signed session token carries; signing itself is not modelled. */
  datatype Claims = Claims(userId: int, orgId: int, email: string)

  datatype Organisation = Organisation(id: int, name: string)

  /** `passwordHash` is whatever the user model's hashing hook stored. */
  datatype User = User(id: int, orgId: int, email: string, name: string, passwordHash: string)

  datatype EmployeeFields = EmployeeFields(firstName: string, lastName: string, email: string, phone: Option<string>)

  datatype TeamFields = TeamFields(name: string, description: Option<string>)

  /** A tenant-owned row: its autoincrement id, its organisation and its columns. */
  datatype Row<T> = Row(id: int, orgId: int, fields: T)

  /** A row of the `employee_teams` join table. */
  datatype Assignment = Assignment(employeeId: int, teamId: int, assignedAt: int)

  /** A response body entry with the ids of the rows linked through `employee_teams`
      (an employee's teams, a team's employees). */
  datatype View<T> = View(row: Row<T>, linked: set<int>)

  datatype EmployeeBody = EmployeeBody(firstName: Field, lastName: Field, email: Field, phone: Field)

  datatype TeamBody = TeamBody(name: Field, description: Field)

  datatype RegisterBody = RegisterBody(orgName: Field, adminName: Field, email: Field, password: Field)

  datatype LoginBody = LoginBody(email: Field, password: Field)

  /** The `meta` payload of a log entry, one shape per action. */
  datatype Meta =
    | OrgCreated(orgName: string, adminName: string, email: string)
    | UserEmail(email: string)
    | EmployeeCreated(employeeId: int, firstName: string, lastName: string, email: string)
    | EmployeeUpdated(employeeId: int, employeeChanges: EmployeeBody)
    | EmployeeDeleted(employeeId: int, employeeName: string)
    | TeamCreated(teamId: int, name: string)
    | TeamUpdated(teamId: int, teamChanges: TeamBody)
    | TeamDeleted(teamId: int, teamName: string)
    | Membership(employeeId: int, employeeName: string, teamId: int, teamName: string)

  /** A row of the `logs` table. Organisation and user are nullable columns. */
  datatype LogEntry = LogEntry(orgId: Option<int>, userId: Option<int>, action: string, meta: Meta, timestamp: int)

  const OrganisationCreatedAction := "organisation_created"
  const UserLoginAction := "user_login"
  const UserLogoutAction := "user_logout"
  const EmployeeCreatedAction := "employee_created"
  const EmployeeUpdatedAction := "employee_updated"
  const EmployeeDeletedAction := "employee_deleted"
  const TeamCreatedAction := "team_created"
  const TeamUpdatedAction := "team_updated"
  const TeamDeletedAction := "team_deleted"
  const AssignedAction := "employee_assigned_to_team"
  const UnassignedAction := "employee_unassigned_from_team"

  /** What a successful register or login responds with. */
  datatype Session = Session(token: Claims, userId: int, name: string, email: string, orgId: int, orgName: string)

  /** An HTTP reply: a status with a value, or an error status with its message. */
  datatype Reply<T> = Ok(status: int, value: T) | Fail(status: int, message: string)

  /** `${first_name} ${last_name}`, the name the log records. */
  function FullName(e: EmployeeFields): string
  {
    e.firstName + " " + e.lastName
  }

  /** The columns an employee cannot be created without are all non-empty. */
  predicate EmployeeComplete(e: EmployeeFields)
  {
    e.firstName != "" && e.lastName != "" && e.email != ""
  }

  predicate TeamComplete(t: TeamFields)
  {
    t.name != ""
  }

  /** The columns `updateEmployee` writes: the three required columns fall back to their
      current value when the body leaves them out or empty, phone only when it is left out. */
  function PatchEmployee(cur: EmployeeFields, body: EmployeeBody): (r: EmployeeFields)
    ensures Truthy(body.firstName) ==> r.firstName == body.firstName.s
    ensures !Truthy(body.firstName) ==> r.firstName == cur.firstName
    ensures Truthy(body.lastName) ==> r.lastName == body.lastName.s
    ensures !Truthy(body.lastName) ==> r.lastName == cur.lastName
    ensures Truthy(body.email) ==> r.email == body.email.s
    ensures !Truthy(body.email) ==> r.email == cur.email
    ensures body.phone.Absent? ==> r.phone == cur.phone
    ensures body.phone.Null? ==> r.phone == None
    ensures body.phone.Text? ==> r.phone == Some(body.phone.s)
    ensures EmployeeComplete(cur) ==> EmployeeComplete(r)
  {
    EmployeeFields(Or(body.firstName, cur.firstName), Or(body.lastName, cur.lastName),
                   Or(body.email, cur.email), IfDefined(body.phone, cur.phone))
  }

  /** The columns `updateTeam` writes: the name falls back when left out or empty, the
      description only when left out. */
  function PatchTeam(cur: TeamFields, body: TeamBody): (r: TeamFields)
    ensures Truthy(body.name) ==> r.name == body.name.s
    ensures !Truthy(body.name) ==> r.name == cur.name
    ensures body.description.Absent? ==> r.description == cur.description
    ensures body.description.Null? ==> r.description == None
    ensures body.description.Text? ==> r.description == Some(body.description.s)
    ensures TeamComplete(cur) ==> TeamComplete(r)
  {
    TeamFields(Or(body.name, cur.name), IfDefined(body.description, cur.description))
  }

  /** Sending the same update twice has the effect of sending it once. */
  lemma PatchIdempotent(e: EmployeeFields, eb: EmployeeBody, t: TeamFields, tb: TeamBody)
    ensures PatchEmployee(PatchEmployee(e, eb), eb) == PatchEmployee(e, eb)
    ensures PatchTeam(PatchTeam(t, tb), tb) == PatchTeam(t, tb)
  {
  }
}
