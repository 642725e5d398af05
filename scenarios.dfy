/** Clients of the store: request sequences whose outcome follows from the handlers'
    contracts alone. */
module Scenarios {
  import opened JsValues
  import opened Records
  import opened Tables
  import opened Backend

  /** The caller the auth middleware derives from a session's token. */
  function CallerOf(s: Session): Caller
  {
    Caller(s.token.orgId, s.token.userId, s.token.email)
  }

  /** A registration that succeeds is followed by a login with the same credentials that
      succeeds too, as the same user of the same organisation, provided the password check
      accepts what the hash produced. */
  method RegisterThenLogin(store: Store, body: RegisterBody, now: int, later: int)
    returns (registered: Reply<Session>, loggedIn: Reply<Session>)
    requires store.Valid()
    requires forall p :: store.passwordMatches(store.hash(p), p)
    modifies store
    ensures store.Valid()
    ensures registered.Ok? ==>
      && loggedIn.Ok?
      && loggedIn.value.token == registered.value.token
      && loggedIn.value.orgId == registered.value.orgId
      && loggedIn.value.orgName == registered.value.orgName
  {
    registered := store.Register(body, now);
    loggedIn := store.Login(LoginBody(body.email, body.password), later);
  }

  /** Assigning one pair twice: when the first call succeeds the second is a conflict, and
      the join table has gained exactly one row and still has no duplicate. */
  method AssignTwice(store: Store, caller: Caller, teamId: int, employeeId: int, now: int, later: int)
    returns (first: Reply<string>, second: Reply<string>)
    requires store.Valid()
    modifies store
    ensures store.Valid() && PairsUnique(store.assignments)
    ensures first.Ok? ==>
      && second == Fail(409, "Employee already assigned to this team")
      && |store.assignments| == |old(store.assignments)| + 1
      && |store.logs| == |old(store.logs)| + 1
  {
    first := store.AssignEmployee(caller, teamId, Some(employeeId), now);
    second := store.AssignEmployee(caller, teamId, Some(employeeId), later);
  }

  /** The actions of a log, in order. */
  function Actions(logs: seq<LogEntry>): seq<string>
  {
    seq(|logs|, i requires 0 <= i < |logs| => logs[i].action)
  }

  /** Registering "Acme" with its admin Jane in a new store. */
  method AcmeRegister(hash: string -> string, passwordMatches: (string, string) -> bool)
    returns (store: Store, caller: Caller)
    ensures fresh(store) && store.Valid()
    ensures store.assignments == []
    ensures |store.logs| == 1 && store.logs[0].action == OrganisationCreatedAction
  {
    store := new Store(hash, passwordMatches);
    var body := RegisterBody(Text("Acme"), Text("Jane"), Text("jane@acme.com"), Text("secret1"));
    assert RegisterFieldsPresent(body) && |body.password.s| >= 6 && body.email.s !in store.users;
    var registered := store.Register(body, 1);
    caller := CallerOf(registered.value);
  }

  /** The first three requests of the scenario below: register "Acme", create the employee
      Bob Lee and the team Engineering. */
  method AcmeSetup(hash: string -> string, passwordMatches: (string, string) -> bool)
    returns (store: Store, caller: Caller, bob: int, team: int)
    ensures fresh(store) && store.Valid()
    ensures InOrg(store.employees, caller.orgId, bob) && InOrg(store.teams, caller.orgId, team) && bob != 0
    ensures store.assignments == []
    ensures |store.logs| == 3
    ensures store.logs[0].action == OrganisationCreatedAction
    ensures store.logs[1].action == EmployeeCreatedAction
    ensures store.logs[2].action == TeamCreatedAction
  {
    store, caller := AcmeRegister(hash, passwordMatches);
    var fields := EmployeeBody(Text("Bob"), Text("Lee"), Text("bob@acme.com"), Absent);
    assert EmployeeFieldsPresent(fields);
    var employee := store.CreateEmployee(caller, fields, 2);
    bob := employee.value.id;
    var name := TeamBody(Text("Engineering"), Absent);
    assert Truthy(name.name);
    var created := store.CreateTeam(caller, name, 3);
    team := created.value.id;
  }

  /** The scenario below up to reading the team after the assign. */
  method AcmeAssign(hash: string -> string, passwordMatches: (string, string) -> bool)
    returns (store: Store, caller: Caller, bob: int, team: int, members: set<int>)
    ensures fresh(store) && store.Valid()
    ensures InOrg(store.employees, caller.orgId, bob) && InOrg(store.teams, caller.orgId, team)
    ensures store.assignments == [Assignment(bob, team, 4)]
    ensures members == {bob}
    ensures |store.logs| == 4
    ensures store.logs[0].action == OrganisationCreatedAction
    ensures store.logs[1].action == EmployeeCreatedAction
    ensures store.logs[2].action == TeamCreatedAction
    ensures store.logs[3].action == AssignedAction
  {
    store, caller, bob, team := AcmeSetup(hash, passwordMatches);
    var linked := store.AssignEmployee(caller, team, Some(bob), 4);
    var read := store.GetTeam(caller, team);
    members := read.value.linked;
  }

  /** Register "Acme", create the employee Bob Lee and the team Engineering, assign Bob, read
      the team, delete Bob, read the team again: Bob is the team's one member in between and
      it has none at the end, and the log holds five entries in order. */
  method AcmeScenario(hash: string -> string, passwordMatches: (string, string) -> bool)
    returns (membersBefore: set<int>, membersAfter: set<int>, bob: int, actions: seq<string>)
    ensures membersBefore == {bob}
    ensures membersAfter == {}
    ensures actions == [OrganisationCreatedAction, EmployeeCreatedAction, TeamCreatedAction,
                        AssignedAction, EmployeeDeletedAction]
  {
    var store, caller, team;
    store, caller, bob, team, membersBefore := AcmeAssign(hash, passwordMatches);
    var deleted := store.DeleteEmployee(caller, bob, 5);
    var after := store.GetTeam(caller, team);
    membersAfter := after.value.linked;
    actions := Actions(store.logs);
  }
}
