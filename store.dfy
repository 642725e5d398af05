/** The backend: one store holding every table, and the request handlers of the employee,
    team and auth controllers as its methods. Each handler takes the caller that the auth
    middleware put on the request, checks its input in the source's order, changes the
    tables and appends to the audit log. Password hashing and checking are oracles fixed
    when the store is built; a token is represented by its claims. */
module Backend {
  import opened JsValues
  import opened Records
  import opened Tables
  import AuditQuery

  /** `Log.create` with the caller's organisation and user. */
  function Entry(caller: Caller, action: string, meta: Meta, now: int): LogEntry
  {
    LogEntry(Some(caller.orgId), Some(caller.userId), action, meta, now)
  }

  /** Whether a log query's filters admit an entry with this action and timestamp. */
  predicate Admits(q: AuditQuery.LogQuery, action: string, now: int)
  {
    && (q.action.Some? && q.action.value != "" ==> q.action.value == action)
    && (q.startDate.Some? ==> q.startDate.value <= now)
    && (q.endDate.Some? ==> now <= q.endDate.value)
  }

  /** An entry a handler appends is attributed to the caller's user, and the log query of the
      caller's organisation whose filters admit its action and timestamp selects it; it
      returns it too when no more entries match than its limit. */
  lemma EntryFound(caller: Caller, action: string, meta: Meta, now: int, logs: seq<LogEntry>, q: AuditQuery.LogQuery)
    ensures Entry(caller, action, meta, now).userId == Some(caller.userId)
    ensures Admits(q, action, now) ==>
      Entry(caller, action, meta, now) in AuditQuery.Selected(logs + [Entry(caller, action, meta, now)], caller.orgId, q)
    ensures Admits(q, action, now)
            && (|AuditQuery.Selected(logs + [Entry(caller, action, meta, now)], caller.orgId, q)| <= AuditQuery.EffectiveLimit(q)
                || AuditQuery.EffectiveLimit(q) < 0) ==>
      Entry(caller, action, meta, now) in AuditQuery.ListLogs(logs + [Entry(caller, action, meta, now)], caller.orgId, q)
  {
    var e := Entry(caller, action, meta, now);
    var all := logs + [e];
    if Admits(q, action, now) {
      assert all[|logs|] == e;
      assert AuditQuery.Matches(AuditQuery.BuildWhere(caller.orgId, q), e);
      assert e in AuditQuery.Selected(all, caller.orgId, q);
      AuditQuery.ListLogsLimit(all, caller.orgId, q);
      assert e in multiset(AuditQuery.Selected(all, caller.orgId, q));
    }
  }

  predicate RegisterFieldsPresent(body: RegisterBody)
  {
    Truthy(body.orgName) && Truthy(body.adminName) && Truthy(body.email) && Truthy(body.password)
  }

  predicate EmployeeFieldsPresent(body: EmployeeBody)
  {
    Truthy(body.firstName) && Truthy(body.lastName) && Truthy(body.email)
  }

  ghost predicate OrgsKeyed(orgs: map<int, Organisation>, next: int)
  {
    forall k :: k in orgs ==> orgs[k].id == k && 0 < k < next
  }

  /** Users are keyed by their (unique) email, have distinct ids and belong to a stored organisation. */
  ghost predicate UsersKeyed(users: map<string, User>, orgs: map<int, Organisation>, next: int)
  {
    && (forall e :: e in users ==> users[e].email == e && 0 < users[e].id < next && users[e].orgId in orgs)
    && (forall e, e' :: e in users && e' in users && e != e' ==> users[e].id != users[e'].id)
  }

  ghost predicate EmployeesComplete(t: Table<EmployeeFields>)
  {
    forall k :: k in t ==> EmployeeComplete(t[k].fields)
  }

  ghost predicate TeamsComplete(t: Table<TeamFields>)
  {
    forall k :: k in t ==> TeamComplete(t[k].fields)
  }

  /** Registering adds an organisation under the next organisation id and its admin under
      the next user id and a new email: the keys stay consistent. */
  lemma RegisterKeepsKeys(orgs: map<int, Organisation>, users: map<string, User>, nextOrgId: int, nextUserId: int,
                          organisation: Organisation, user: User)
    requires OrgsKeyed(orgs, nextOrgId) && UsersKeyed(users, orgs, nextUserId)
    requires organisation.id == nextOrgId > 0 && user.id == nextUserId > 0
    requires user.orgId == organisation.id && user.email !in users
    ensures OrgsKeyed(orgs[organisation.id := organisation], nextOrgId + 1)
    ensures UsersKeyed(users[user.email := user], orgs[organisation.id := organisation], nextUserId + 1)
    ensures forall e :: e in users ==> users[e].id != user.id
  {
  }

  class Store {
    var orgs: map<int, Organisation>
    var users: map<string, User>
    var employees: Table<EmployeeFields>
    var teams: Table<TeamFields>
    var assignments: seq<Assignment>
    var logs: seq<LogEntry>
    var nextOrgId: int
    var nextUserId: int
    var nextEmployeeId: int
    var nextTeamId: int

    /** The user model's hook that hashes a password before it is stored. */
    const hash: string -> string
    /** `user.validatePassword`: does a password match a stored hash? */
    const passwordMatches: (string, string) -> bool

    /** The store's invariant: rows sit under their ids, emails key the users and user ids
        are distinct, every stored employee and team has its required columns, and every
        join row links an employee and a team of the same organisation, at most once. */
    ghost predicate Valid()
      reads this
    {
      && 0 < nextOrgId && 0 < nextUserId && 0 < nextEmployeeId && 0 < nextTeamId
      && Keyed(employees, nextEmployeeId)
      && Keyed(teams, nextTeamId)
      && OrgsKeyed(orgs, nextOrgId)
      && UsersKeyed(users, orgs, nextUserId)
      && EmployeesComplete(employees)
      && TeamsComplete(teams)
      && SameTenant(assignments, employees, teams)
      && PairsUnique(assignments)
    }

    /** What a handler called on behalf of organisation `org` may not do: change, add or
        delete another organisation's employees, teams or join rows, or log under another
        organisation. The log only grows. */
    twostate predicate TenantIsolated(org: int)
      reads this
    {
      && OthersUnchanged(org, old(employees), employees)
      && OthersUnchanged(org, old(teams), teams)
      && JoinIsolated(org, old(teams), teams, old(assignments), assignments)
      && LogIsolated(org, old(logs), logs)
    }

    constructor (hash: string -> string, passwordMatches: (string, string) -> bool)
      ensures Valid()
      ensures orgs == map[] && users == map[] && employees == map[] && teams == map[]
      ensures assignments == [] && logs == []
      ensures this.hash == hash && this.passwordMatches == passwordMatches
    {
      this.hash := hash;
      this.passwordMatches := passwordMatches;
      orgs, users, employees, teams := map[], map[], map[], map[];
      assignments, logs := [], [];
      nextOrgId, nextUserId, nextEmployeeId, nextTeamId := 1, 1, 1, 1;
    }

    /** `Log.create`: the log is append-only. */
    method AppendLog(entry: LogEntry)
      modifies this`logs
      ensures logs == old(logs) + [entry]
    {
      logs := logs + [entry];
    }

    // ---------------------------------------------------------------- employees

    /** `listEmployees`: exactly the caller's organisation's employees, newest first, each
        with the teams it is linked to, all of which are the caller's organisation's too. */
    method ListEmployees(caller: Caller) returns (r: seq<View<EmployeeFields>>)
      requires Valid()
      ensures forall i :: 0 <= i < |r| ==> InOrg(employees, caller.orgId, r[i].row.id) && employees[r[i].row.id] == r[i].row
      ensures forall k :: InOrg(employees, caller.orgId, k) ==> exists i :: 0 <= i < |r| && r[i].row == employees[k]
      ensures forall i, j :: 0 <= i < j < |r| ==> r[i].row.id > r[j].row.id
      ensures forall i :: 0 <= i < |r| ==> r[i].linked == TeamsOf(assignments, r[i].row.id)
      ensures forall i, t :: 0 <= i < |r| && t in r[i].linked ==> InOrg(teams, caller.orgId, t)
    {
      var rows := ScopedList(employees, caller.orgId, nextEmployeeId);
      r := WithTeams(rows, assignments);
      forall k | InOrg(employees, caller.orgId, k) ensures exists i :: 0 <= i < |r| && r[i].row == employees[k] {
        var i :| 0 <= i < |rows| && rows[i] == employees[k];
        assert r[i].row == rows[i];
      }
      forall i | 0 <= i < |r| ensures forall t :: t in r[i].linked ==> InOrg(teams, caller.orgId, t) {
        TeamsOfInOrg(assignments, employees, teams, r[i].row.id, caller.orgId);
      }
    }

    /** `getEmployee`: found only when the id is one of the caller's organisation's
        employees; another organisation's id reads as not found. */
    method GetEmployee(caller: Caller, id: int) returns (r: Reply<View<EmployeeFields>>)
      requires Valid()
      ensures r.Ok? <==> InOrg(employees, caller.orgId, id)
      ensures r.Ok? ==> r == Ok(200, View(employees[id], TeamsOf(assignments, id)))
      ensures r.Fail? ==> r == Fail(404, "Employee not found")
      ensures r.Ok? ==> forall t :: t in r.value.linked ==> InOrg(teams, caller.orgId, t)
    {
      if !InOrg(employees, caller.orgId, id) {
        return Fail(404, "Employee not found");
      }
      TeamsOfInOrg(assignments, employees, teams, id, caller.orgId);
      r := Ok(200, View(employees[id], TeamsOf(assignments, id)));
    }

    /** `createEmployee`: rejected unless first name, last name and email are all non-empty;
        otherwise one new employee of the caller's organisation and one log entry. */
    method CreateEmployee(caller: Caller, body: EmployeeBody, now: int) returns (r: Reply<Row<EmployeeFields>>)
      requires Valid()
      modifies this`employees, this`nextEmployeeId, this`logs
      ensures Valid()
      ensures !EmployeeFieldsPresent(body) ==>
        r == Fail(400, "First name, last name, and email are required")
        && employees == old(employees) && nextEmployeeId == old(nextEmployeeId) && logs == old(logs)
      ensures EmployeeFieldsPresent(body) ==>
        var row := Row(old(nextEmployeeId), caller.orgId,
                       EmployeeFields(body.firstName.s, body.lastName.s, body.email.s, ToColumn(body.phone)));
        && r == Ok(201, row)
        && row.id !in old(employees)
        && employees == old(employees)[row.id := row]
        && nextEmployeeId == old(nextEmployeeId) + 1
        && logs == old(logs) + [Entry(caller, EmployeeCreatedAction,
                                      EmployeeCreated(row.id, body.firstName.s, body.lastName.s, body.email.s), now)]
      ensures TenantIsolated(caller.orgId)
    {
      if !EmployeeFieldsPresent(body) {
        return Fail(400, "First name, last name, and email are required");
      }
      var row := Row(nextEmployeeId, caller.orgId,
                     EmployeeFields(body.firstName.s, body.lastName.s, body.email.s, ToColumn(body.phone)));
      KeyedWrite(employees, nextEmployeeId, nextEmployeeId + 1, row.id, row);
      SameTenantWriteEmployee(assignments, employees, teams, row.id, row);
      WriteInOrg(caller.orgId, employees, row.id, row);
      employees := employees[row.id := row];
      nextEmployeeId := nextEmployeeId + 1;
      AppendLog(Entry(caller, EmployeeCreatedAction,
                      EmployeeCreated(row.id, body.firstName.s, body.lastName.s, body.email.s), now));
      r := Ok(201, row);
    }

    /** `updateEmployee`: not found (and nothing changes) outside the caller's organisation;
        otherwise only that employee's columns change, as `PatchEmployee` says, and one log
        entry records the request body as it came. */
    method UpdateEmployee(caller: Caller, id: int, body: EmployeeBody, now: int) returns (r: Reply<Row<EmployeeFields>>)
      requires Valid()
      modifies this`employees, this`logs
      ensures Valid()
      ensures !InOrg(old(employees), caller.orgId, id) ==>
        r == Fail(404, "Employee not found") && employees == old(employees) && logs == old(logs)
      ensures InOrg(old(employees), caller.orgId, id) ==>
        var row := old(employees)[id].(fields := PatchEmployee(old(employees)[id].fields, body));
        && r == Ok(200, row)
        && employees == old(employees)[id := row]
        && logs == old(logs) + [Entry(caller, EmployeeUpdatedAction, EmployeeUpdated(id, body), now)]
      ensures TenantIsolated(caller.orgId)
    {
      if !InOrg(employees, caller.orgId, id) {
        return Fail(404, "Employee not found");
      }
      var row := employees[id].(fields := PatchEmployee(employees[id].fields, body));
      KeyedWrite(employees, nextEmployeeId, nextEmployeeId, id, row);
      SameTenantWriteEmployee(assignments, employees, teams, id, row);
      WriteInOrg(caller.orgId, employees, id, row);
      employees := employees[id := row];
      AppendLog(Entry(caller, EmployeeUpdatedAction, EmployeeUpdated(id, body), now));
      r := Ok(200, row);
    }

    /** `deleteEmployee`: not found outside the caller's organisation; otherwise the employee
        and, by the foreign key's cascade, every join row naming it are gone, and the log
        records the name it had. */
    method DeleteEmployee(caller: Caller, id: int, now: int) returns (r: Reply<string>)
      requires Valid()
      modifies this`employees, this`assignments, this`logs
      ensures Valid()
      ensures !InOrg(old(employees), caller.orgId, id) ==>
        r == Fail(404, "Employee not found")
        && employees == old(employees) && assignments == old(assignments) && logs == old(logs)
      ensures InOrg(old(employees), caller.orgId, id) ==>
        && r == Ok(200, "Employee deleted successfully")
        && employees == old(employees) - {id}
        && assignments == WithoutEmployee(old(assignments), id)
        && (forall t :: id !in MembersOf(assignments, t))
        && logs == old(logs) + [Entry(caller, EmployeeDeletedAction,
                                      EmployeeDeleted(id, FullName(old(employees)[id].fields)), now)]
      ensures TenantIsolated(caller.orgId)
    {
      if !InOrg(employees, caller.orgId, id) {
        return Fail(404, "Employee not found");
      }
      var employeeName := FullName(employees[id].fields);
      CascadesKeepPairsUnique(assignments, id, 0);
      SameTenantWithoutEmployee(assignments, employees, teams, id);
      WithoutEmployeeIsolated(caller.orgId, assignments, employees, teams, id);
      DeleteInOrg(caller.orgId, employees, id);
      employees := employees - {id};
      assignments := WithoutEmployee(assignments, id);
      AppendLog(Entry(caller, EmployeeDeletedAction, EmployeeDeleted(id, employeeName), now));
      r := Ok(200, "Employee deleted successfully");
    }

    // ---------------------------------------------------------------- teams

    /** `listTeams`: exactly the caller's organisation's teams, newest first, each with its
        members, all of which are the caller's organisation's employees. */
    method ListTeams(caller: Caller) returns (r: seq<View<TeamFields>>)
      requires Valid()
      ensures forall i :: 0 <= i < |r| ==> InOrg(teams, caller.orgId, r[i].row.id) && teams[r[i].row.id] == r[i].row
      ensures forall k :: InOrg(teams, caller.orgId, k) ==> exists i :: 0 <= i < |r| && r[i].row == teams[k]
      ensures forall i, j :: 0 <= i < j < |r| ==> r[i].row.id > r[j].row.id
      ensures forall i :: 0 <= i < |r| ==> r[i].linked == MembersOf(assignments, r[i].row.id)
      ensures forall i, e :: 0 <= i < |r| && e in r[i].linked ==> InOrg(employees, caller.orgId, e)
    {
      var rows := ScopedList(teams, caller.orgId, nextTeamId);
      r := WithMembers(rows, assignments);
      forall k | InOrg(teams, caller.orgId, k) ensures exists i :: 0 <= i < |r| && r[i].row == teams[k] {
        var i :| 0 <= i < |rows| && rows[i] == teams[k];
        assert r[i].row == rows[i];
      }
      forall i | 0 <= i < |r| ensures forall e :: e in r[i].linked ==> InOrg(employees, caller.orgId, e) {
        MembersOfInOrg(assignments, employees, teams, r[i].row.id, caller.orgId);
      }
    }

    /** `getTeam`: found only when the id is one of the caller's organisation's teams. */
    method GetTeam(caller: Caller, id: int) returns (r: Reply<View<TeamFields>>)
      requires Valid()
      ensures r.Ok? <==> InOrg(teams, caller.orgId, id)
      ensures r.Ok? ==> r == Ok(200, View(teams[id], MembersOf(assignments, id)))
      ensures r.Fail? ==> r == Fail(404, "Team not found")
      ensures r.Ok? ==> forall e :: e in r.value.linked ==> InOrg(employees, caller.orgId, e)
    {
      if !InOrg(teams, caller.orgId, id) {
        return Fail(404, "Team not found");
      }
      MembersOfInOrg(assignments, employees, teams, id, caller.orgId);
      r := Ok(200, View(teams[id], MembersOf(assignments, id)));
    }

    /** `createTeam`: rejected without a non-empty name; otherwise one new team of the
        caller's organisation and one log entry. */
    method CreateTeam(caller: Caller, body: TeamBody, now: int) returns (r: Reply<Row<TeamFields>>)
      requires Valid()
      modifies this`teams, this`nextTeamId, this`logs
      ensures Valid()
      ensures !Truthy(body.name) ==>
        r == Fail(400, "Team name is required")
        && teams == old(teams) && nextTeamId == old(nextTeamId) && logs == old(logs)
      ensures Truthy(body.name) ==>
        var row := Row(old(nextTeamId), caller.orgId, TeamFields(body.name.s, ToColumn(body.description)));
        && r == Ok(201, row)
        && row.id !in old(teams)
        && teams == old(teams)[row.id := row]
        && nextTeamId == old(nextTeamId) + 1
        && logs == old(logs) + [Entry(caller, TeamCreatedAction, TeamCreated(row.id, body.name.s), now)]
      ensures TenantIsolated(caller.orgId)
    {
      if !Truthy(body.name) {
        return Fail(400, "Team name is required");
      }
      var row := Row(nextTeamId, caller.orgId, TeamFields(body.name.s, ToColumn(body.description)));
      KeyedWrite(teams, nextTeamId, nextTeamId + 1, row.id, row);
      SameTenantWriteTeam(assignments, employees, teams, row.id, row);
      WriteInOrg(caller.orgId, teams, row.id, row);
      teams := teams[row.id := row];
      nextTeamId := nextTeamId + 1;
      AppendLog(Entry(caller, TeamCreatedAction, TeamCreated(row.id, body.name.s), now));
      r := Ok(201, row);
    }

    /** `updateTeam`: not found outside the caller's organisation; otherwise only that team's
        columns change, as `PatchTeam` says, and one log entry records the body. */
    method UpdateTeam(caller: Caller, id: int, body: TeamBody, now: int) returns (r: Reply<Row<TeamFields>>)
      requires Valid()
      modifies this`teams, this`logs
      ensures Valid()
      ensures !InOrg(old(teams), caller.orgId, id) ==>
        r == Fail(404, "Team not found") && teams == old(teams) && logs == old(logs)
      ensures InOrg(old(teams), caller.orgId, id) ==>
        var row := old(teams)[id].(fields := PatchTeam(old(teams)[id].fields, body));
        && r == Ok(200, row)
        && teams == old(teams)[id := row]
        && logs == old(logs) + [Entry(caller, TeamUpdatedAction, TeamUpdated(id, body), now)]
      ensures TenantIsolated(caller.orgId)
    {
      if !InOrg(teams, caller.orgId, id) {
        return Fail(404, "Team not found");
      }
      var row := teams[id].(fields := PatchTeam(teams[id].fields, body));
      KeyedWrite(teams, nextTeamId, nextTeamId, id, row);
      SameTenantWriteTeam(assignments, employees, teams, id, row);
      WriteInOrg(caller.orgId, teams, id, row);
      teams := teams[id := row];
      AppendLog(Entry(caller, TeamUpdatedAction, TeamUpdated(id, body), now));
      r := Ok(200, row);
    }

    /** `deleteTeam`: not found outside the caller's organisation; otherwise the team and
        every join row naming it are gone, and the log records the name it had. */
    method DeleteTeam(caller: Caller, id: int, now: int) returns (r: Reply<string>)
      requires Valid()
      modifies this`teams, this`assignments, this`logs
      ensures Valid()
      ensures !InOrg(old(teams), caller.orgId, id) ==>
        r == Fail(404, "Team not found")
        && teams == old(teams) && assignments == old(assignments) && logs == old(logs)
      ensures InOrg(old(teams), caller.orgId, id) ==>
        && r == Ok(200, "Team deleted successfully")
        && teams == old(teams) - {id}
        && assignments == WithoutTeam(old(assignments), id)
        && MembersOf(assignments, id) == {}
        && logs == old(logs) + [Entry(caller, TeamDeletedAction, TeamDeleted(id, old(teams)[id].fields.name), now)]
      ensures TenantIsolated(caller.orgId)
    {
      if !InOrg(teams, caller.orgId, id) {
        return Fail(404, "Team not found");
      }
      var teamName := teams[id].fields.name;
      CascadesKeepPairsUnique(assignments, 0, id);
      SameTenantWithoutTeam(assignments, employees, teams, id);
      WithoutTeamIsolated(caller.orgId, assignments, teams, id);
      DeleteInOrg(caller.orgId, teams, id);
      teams := teams - {id};
      assignments := WithoutTeam(assignments, id);
      AppendLog(Entry(caller, TeamDeletedAction, TeamDeleted(id, teamName), now));
      r := Ok(200, "Team deleted successfully");
    }

    /** `assignEmployee`: fails, changing nothing, on a missing employee id (400), a team
        outside the caller's organisation (404), an employee outside it (404) or a pair that
        is already linked (409), in that order; otherwise exactly one join row and one log
        entry are added. */
    method AssignEmployee(caller: Caller, teamId: int, employeeId: Option<int>, now: int) returns (r: Reply<string>)
      requires Valid()
      modifies this`assignments, this`logs
      ensures Valid()
      ensures !TruthyId(employeeId) ==> r == Fail(400, "Employee ID is required")
      ensures TruthyId(employeeId) && !InOrg(teams, caller.orgId, teamId) ==> r == Fail(404, "Team not found")
      ensures TruthyId(employeeId) && InOrg(teams, caller.orgId, teamId) && !InOrg(employees, caller.orgId, employeeId.value) ==>
        r == Fail(404, "Employee not found")
      ensures TruthyId(employeeId) && InOrg(teams, caller.orgId, teamId) && InOrg(employees, caller.orgId, employeeId.value)
              && HasPair(old(assignments), employeeId.value, teamId) ==>
        r == Fail(409, "Employee already assigned to this team")
      ensures r.Fail? ==> assignments == old(assignments) && logs == old(logs)
      ensures r.Ok? <==> TruthyId(employeeId) && InOrg(teams, caller.orgId, teamId)
                         && InOrg(employees, caller.orgId, employeeId.value)
                         && !HasPair(old(assignments), employeeId.value, teamId)
      ensures r.Ok? ==>
        && r == Ok(201, "Employee assigned to team successfully")
        && assignments == old(assignments) + [Assignment(employeeId.value, teamId, now)]
        && MembersOf(assignments, teamId) == MembersOf(old(assignments), teamId) + {employeeId.value}
        && logs == old(logs) + [Entry(caller, AssignedAction,
                                      Membership(employeeId.value, FullName(employees[employeeId.value].fields),
                                                 teamId, teams[teamId].fields.name), now)]
      ensures TenantIsolated(caller.orgId)
    {
      if !TruthyId(employeeId) {
        return Fail(400, "Employee ID is required");
      }
      var id := employeeId.value;
      if !InOrg(teams, caller.orgId, teamId) {
        return Fail(404, "Team not found");
      }
      var team := teams[teamId];
      if !InOrg(employees, caller.orgId, id) {
        return Fail(404, "Employee not found");
      }
      var employee := employees[id];
      if HasPair(assignments, id, teamId) {
        return Fail(409, "Employee already assigned to this team");
      }
      var row := Assignment(id, teamId, now);
      AppendKeepsPairsUnique(assignments, row);
      SameTenantAppend(assignments, employees, teams, row, caller.orgId);
      AppendMembers(assignments, row);
      assignments := assignments + [row];
      AppendLog(Entry(caller, AssignedAction, Membership(id, FullName(employee.fields), teamId, team.fields.name), now));
      r := Ok(201, "Employee assigned to team successfully");
    }

    /** `unassignEmployee`: fails, changing nothing, on a missing employee id (400), a team
        outside the caller's organisation (404) or a pair that is not linked (404); otherwise
        the pair's join row is deleted. The source logs only when the employee is found in
        the caller's organisation; because join rows never cross organisations, a
        successful unassign always finds it, so it always appends exactly one entry. */
    method UnassignEmployee(caller: Caller, teamId: int, employeeId: Option<int>, now: int) returns (r: Reply<string>)
      requires Valid()
      modifies this`assignments, this`logs
      ensures Valid()
      ensures !TruthyId(employeeId) ==> r == Fail(400, "Employee ID is required")
      ensures TruthyId(employeeId) && !InOrg(teams, caller.orgId, teamId) ==> r == Fail(404, "Team not found")
      ensures TruthyId(employeeId) && InOrg(teams, caller.orgId, teamId) && !HasPair(old(assignments), employeeId.value, teamId) ==>
        r == Fail(404, "Assignment not found")
      ensures r.Fail? ==> assignments == old(assignments) && logs == old(logs)
      ensures r.Ok? <==> TruthyId(employeeId) && InOrg(teams, caller.orgId, teamId)
                         && HasPair(old(assignments), employeeId.value, teamId)
      ensures r.Ok? ==>
        && r == Ok(200, "Employee unassigned from team successfully")
        && assignments == WithoutPair(old(assignments), employeeId.value, teamId)
        && |assignments| == |old(assignments)| - 1
        && MembersOf(assignments, teamId) == MembersOf(old(assignments), teamId) - {employeeId.value}
        && InOrg(employees, caller.orgId, employeeId.value)
        && logs == old(logs) + [Entry(caller, UnassignedAction,
                                      Membership(employeeId.value, FullName(employees[employeeId.value].fields),
                                                 teamId, teams[teamId].fields.name), now)]
      ensures TenantIsolated(caller.orgId)
    {
      if !TruthyId(employeeId) {
        return Fail(400, "Employee ID is required");
      }
      var id := employeeId.value;
      if !InOrg(teams, caller.orgId, teamId) {
        return Fail(404, "Team not found");
      }
      var team := teams[teamId];
      var employee: Option<Row<EmployeeFields>> := if InOrg(employees, caller.orgId, id) then Some(employees[id]) else None;
      var remaining := WithoutPair(assignments, id, teamId);
      var deleted := |assignments| - |remaining|;
      WithoutPairCount(assignments, id, teamId);
      if deleted == 0 {
        return Fail(404, "Assignment not found");
      }
      UnassignKeeps(assignments, employees, teams, id, teamId, caller.orgId);
      assignments := remaining;
      if employee.Some? {
        AppendLog(Entry(caller, UnassignedAction, Membership(id, FullName(employee.value.fields), teamId, team.fields.name), now));
      }
      r := Ok(200, "Employee unassigned from team successfully");
    }

    // ---------------------------------------------------------------- auth

    /** `register`: rejected, creating nothing, when a field is missing or empty (400), the
        password is shorter than 6 (400) or the email is registered already (409), checked
        in that order and all before the organisation is created; otherwise one new
        organisation, one new user of it, one log entry, and a token for that user. */
    method Register(body: RegisterBody, now: int) returns (r: Reply<Session>)
      requires Valid()
      modifies this`orgs, this`users, this`logs, this`nextOrgId, this`nextUserId
      ensures Valid()
      ensures !RegisterFieldsPresent(body) ==> r == Fail(400, "All fields are required")
      ensures RegisterFieldsPresent(body) && |body.password.s| < 6 ==>
        r == Fail(400, "Password must be at least 6 characters")
      ensures RegisterFieldsPresent(body) && |body.password.s| >= 6 && body.email.s in old(users) ==>
        r == Fail(409, "Email already registered")
      ensures r.Fail? ==>
        orgs == old(orgs) && users == old(users) && logs == old(logs)
        && nextOrgId == old(nextOrgId) && nextUserId == old(nextUserId)
      ensures r.Ok? <==> RegisterFieldsPresent(body) && |body.password.s| >= 6 && body.email.s !in old(users)
      ensures r.Ok? ==>
        var orgId := old(nextOrgId);
        var userId := old(nextUserId);
        && orgId !in old(orgs)
        && orgs == old(orgs)[orgId := Organisation(orgId, body.orgName.s)]
        && users == old(users)[body.email.s := User(userId, orgId, body.email.s, body.adminName.s, hash(body.password.s))]
        && (forall e :: e in old(users) ==> users[e].id != userId)
        && nextOrgId == orgId + 1 && nextUserId == userId + 1
        && logs == old(logs) + [LogEntry(Some(orgId), Some(userId), OrganisationCreatedAction,
                                         OrgCreated(body.orgName.s, body.adminName.s, body.email.s), now)]
        && r == Ok(201, Session(Claims(userId, orgId, body.email.s), userId, body.adminName.s, body.email.s,
                                orgId, body.orgName.s))
    {
      if !RegisterFieldsPresent(body) {
        return Fail(400, "All fields are required");
      }
      var email, password := body.email.s, body.password.s;
      if |password| < 6 {
        return Fail(400, "Password must be at least 6 characters");
      }
      if email in users {
        return Fail(409, "Email already registered");
      }
      var organisation := Organisation(nextOrgId, body.orgName.s);
      var user := User(nextUserId, organisation.id, email, body.adminName.s, hash(password));
      RegisterKeepsKeys(orgs, users, nextOrgId, nextUserId, organisation, user);
      orgs, users := orgs[organisation.id := organisation], users[email := user];
      nextOrgId, nextUserId := nextOrgId + 1, nextUserId + 1;
      AppendLog(LogEntry(Some(organisation.id), Some(user.id), OrganisationCreatedAction,
                         OrgCreated(body.orgName.s, body.adminName.s, email), now));
      var token := Claims(user.id, organisation.id, user.email);
      r := Ok(201, Session(token, user.id, user.name, user.email, organisation.id, organisation.name));
    }

    /** `login`: 400 without both fields; the same 401 for an unknown email and for a wrong
        password, with nothing logged; otherwise one log entry under the user's own
        organisation and a token carrying that organisation. */
    method Login(body: LoginBody, now: int) returns (r: Reply<Session>)
      requires Valid()
      modifies this`logs
      ensures Valid()
      ensures !(Truthy(body.email) && Truthy(body.password)) ==> r == Fail(400, "Email and password are required")
      ensures Truthy(body.email) && Truthy(body.password)
              && (body.email.s !in users || !passwordMatches(users[body.email.s].passwordHash, body.password.s)) ==>
        r == Fail(401, "Invalid email or password")
      ensures r.Fail? ==> logs == old(logs)
      ensures r.Ok? <==> Truthy(body.email) && Truthy(body.password) && body.email.s in users
                         && passwordMatches(users[body.email.s].passwordHash, body.password.s)
      ensures r.Ok? ==>
        var u := users[body.email.s];
        && r == Ok(200, Session(Claims(u.id, u.orgId, u.email), u.id, u.name, u.email, u.orgId, orgs[u.orgId].name))
        && logs == old(logs) + [LogEntry(Some(u.orgId), Some(u.id), UserLoginAction, UserEmail(body.email.s), now)]
    {
      if !(Truthy(body.email) && Truthy(body.password)) {
        return Fail(400, "Email and password are required");
      }
      var email := body.email.s;
      if email !in users {
        return Fail(401, "Invalid email or password");
      }
      var user := users[email];
      if !passwordMatches(user.passwordHash, body.password.s) {
        return Fail(401, "Invalid email or password");
      }
      AppendLog(LogEntry(Some(user.orgId), Some(user.id), UserLoginAction, UserEmail(email), now));
      var token := Claims(user.id, user.orgId, user.email);
      r := Ok(200, Session(token, user.id, user.name, user.email, user.orgId, orgs[user.orgId].name));
    }

    /** `logout`: exactly one log entry with the caller's organisation, user and email. */
    method Logout(caller: Caller, now: int) returns (r: Reply<string>)
      requires Valid()
      modifies this`logs
      ensures Valid()
      ensures r == Ok(200, "Logout successful")
      ensures logs == old(logs) + [Entry(caller, UserLogoutAction, UserEmail(caller.email), now)]
      ensures TenantIsolated(caller.orgId)
    {
      AppendLog(Entry(caller, UserLogoutAction, UserEmail(caller.email), now));
      r := Ok(200, "Logout successful");
    }

    // ---------------------------------------------------------------- logs

    /** `listLogs`: the query over the current log; it changes nothing. Every entry returned
        is the caller's organisation's, newest first. */
    method ListLogs(caller: Caller, q: AuditQuery.LogQuery) returns (r: seq<LogEntry>)
      ensures r == AuditQuery.ListLogs(logs, caller.orgId, q)
      ensures forall e :: e in r ==> e in logs && e.orgId == Some(caller.orgId)
      ensures forall i, j :: 0 <= i < j < |r| ==> r[i].timestamp >= r[j].timestamp
      ensures AuditQuery.EffectiveLimit(q) >= 0 ==> |r| <= AuditQuery.EffectiveLimit(q)
    {
      r := AuditQuery.ListLogs(logs, caller.orgId, q);
      forall e | e in r ensures e in logs && e.orgId == Some(caller.orgId) {
        AuditQuery.ListLogsSelected(logs, caller.orgId, q, e);
      }
      AuditQuery.ListLogsNewestFirst(logs, caller.orgId, q);
      AuditQuery.ListLogsLimit(logs, caller.orgId, q);
    }
  }
}
