/** Tenant-scoped tables and the employee-team relation. Every query a handler makes
    filters by the caller's organisation; the functions here are those queries, and the
    lemmas say what they return and which invariants the writes keep. */
module Tables {
  import opened JsValues
  import opened Records
  import Seqs

  /** An autoincrement table: rows keyed by their id. */
  type Table<T> = map<int, Row<T>>

  /** Every row sits under its own id, and ids are positive and below the next id to hand out. */
  ghost predicate Keyed<T>(t: Table<T>, next: int)
  {
    forall k :: k in t ==> t[k].id == k && 0 < k < next
  }

  /** `findOne({ where: { id, organisation_id } })` finds a row. */
  predicate InOrg<T>(t: Table<T>, org: int, id: int)
  {
    id in t && t[id].orgId == org
  }

  /** `findAll({ where: { organisation_id }, order: [['created_at', 'DESC']] })`: ids are
      handed out in creation order, so newest first is descending id. Only ids below `n`
      are looked at. */
  function ScopedList<T>(t: Table<T>, org: int, n: int): (r: seq<Row<T>>)
    requires Keyed(t, n)
    ensures forall i :: 0 <= i < |r| ==> r[i].orgId == org && r[i].id in t && t[r[i].id] == r[i]
    ensures forall k :: k in t && t[k].orgId == org ==> t[k] in r
    ensures forall i, j :: 0 <= i < j < |r| ==> r[i].id > r[j].id
    ensures forall i :: 0 <= i < |r| ==> r[i].id < n
    decreases n
  {
    if n <= 1 then []
    else
      var below := t - {n - 1};
      var rest := ScopedList(below, org, n - 1);
      assert forall k :: k in t && k != n - 1 ==> k in below && below[k] == t[k];
      if InOrg(t, org, n - 1) then [t[n - 1]] + rest else rest
  }

  /** The team ids an employee is linked to. */
  function TeamsOf(s: seq<Assignment>, employeeId: int): (r: set<int>)
    ensures forall t :: t in r <==> HasPair(s, employeeId, t)
  {
    set a | a in s && a.employeeId == employeeId :: a.teamId
  }

  /** The employee ids a team is linked to. */
  function MembersOf(s: seq<Assignment>, teamId: int): (r: set<int>)
    ensures forall e :: e in r <==> HasPair(s, e, teamId)
  {
    set a | a in s && a.teamId == teamId :: a.employeeId
  }

  /** Listed employees with the teams each is linked to (`include: [Team]`). */
  function WithTeams<T>(rows: seq<Row<T>>, s: seq<Assignment>): (r: seq<View<T>>)
    ensures |r| == |rows|
    ensures forall i :: 0 <= i < |r| ==> r[i].row == rows[i] && r[i].linked == TeamsOf(s, rows[i].id)
  {
    seq(|rows|, i requires 0 <= i < |rows| => View(rows[i], TeamsOf(s, rows[i].id)))
  }

  /** Listed teams with the employees each is linked to (`include: [Employee]`). */
  function WithMembers<T>(rows: seq<Row<T>>, s: seq<Assignment>): (r: seq<View<T>>)
    ensures |r| == |rows|
    ensures forall i :: 0 <= i < |r| ==> r[i].row == rows[i] && r[i].linked == MembersOf(s, rows[i].id)
  {
    seq(|rows|, i requires 0 <= i < |rows| => View(rows[i], MembersOf(s, rows[i].id)))
  }

  /** `EmployeeTeam.findOne({ where: { employee_id, team_id } })` finds a row. */
  predicate HasPair(s: seq<Assignment>, employeeId: int, teamId: int): (b: bool)
    ensures b <==> exists i :: 0 <= i < |s| && s[i].employeeId == employeeId && s[i].teamId == teamId
  {
    exists a :: a in s && a.employeeId == employeeId && a.teamId == teamId
  }

  /** No two rows of the join table link the same employee and team. */
  ghost predicate PairsUnique(s: seq<Assignment>)
  {
    forall i, j :: 0 <= i < j < |s| ==> !(s[i].employeeId == s[j].employeeId && s[i].teamId == s[j].teamId)
  }

  /** Every row of the join table links an existing employee and an existing team of one organisation. */
  ghost predicate SameTenant<E, T>(s: seq<Assignment>, employees: Table<E>, teams: Table<T>)
  {
    forall a :: a in s ==>
      a.employeeId in employees && a.teamId in teams && employees[a.employeeId].orgId == teams[a.teamId].orgId
  }

  /** The cascade of deleting an employee: the join rows that remain. */
  function WithoutEmployee(s: seq<Assignment>, employeeId: int): (r: seq<Assignment>)
    ensures forall a :: a in r <==> a in s && a.employeeId != employeeId
  {
    Seqs.Filter(s, (a: Assignment) => a.employeeId != employeeId)
  }

  /** The cascade of deleting a team: the join rows that remain. */
  function WithoutTeam(s: seq<Assignment>, teamId: int): (r: seq<Assignment>)
    ensures forall a :: a in r <==> a in s && a.teamId != teamId
  {
    Seqs.Filter(s, (a: Assignment) => a.teamId != teamId)
  }

  /** `EmployeeTeam.destroy({ where: { employee_id, team_id } })`: the join rows that remain. */
  function WithoutPair(s: seq<Assignment>, employeeId: int, teamId: int): (r: seq<Assignment>)
    ensures forall a :: a in r <==> a in s && !(a.employeeId == employeeId && a.teamId == teamId)
  {
    Seqs.Filter(s, (a: Assignment) => !(a.employeeId == employeeId && a.teamId == teamId))
  }

  predicate SamePair(a: Assignment, b: Assignment)
  {
    a.employeeId == b.employeeId && a.teamId == b.teamId
  }

  /** The rows after the first are unique too, and none repeats the first one's pair. */
  lemma PairsUniqueTail(s: seq<Assignment>)
    requires s != [] && PairsUnique(s)
    ensures PairsUnique(s[1..])
    ensures forall a :: a in s[1..] ==> !SamePair(s[0], a)
  {
    forall i, j | 0 <= i < j < |s[1..]|
      ensures !SamePair(s[1..][i], s[1..][j])
    {
      assert s[1..][i] == s[i + 1] && s[1..][j] == s[j + 1];
    }
    forall a | a in s[1..] ensures !SamePair(s[0], a) {
      var k :| 0 <= k < |s[1..]| && s[1..][k] == a;
      assert s[k + 1] == a;
    }
  }

  /** Deleting join rows never creates a duplicate. */
  lemma {:induction false} FilterKeepsPairsUnique(s: seq<Assignment>, p: Assignment -> bool)
    requires PairsUnique(s)
    ensures PairsUnique(Seqs.Filter(s, p))
  {
    if s != [] {
      PairsUniqueTail(s);
      FilterKeepsPairsUnique(s[1..], p);
      var rest := Seqs.Filter(s[1..], p);
      if p(s[0]) {
        var r := [s[0]] + rest;
        assert Seqs.Filter(s, p) == r;
        forall i, j | 0 <= i < j < |r|
          ensures !SamePair(r[i], r[j])
        {
          assert r[j] == rest[j - 1] && rest[j - 1] in s[1..];
          if i > 0 {
            assert r[i] == rest[i - 1];
          }
        }
      }
    }
  }

  /** Adding a row for a pair that is not yet linked keeps the pairs unique. */
  lemma AppendKeepsPairsUnique(s: seq<Assignment>, a: Assignment)
    requires PairsUnique(s) && !HasPair(s, a.employeeId, a.teamId)
    ensures PairsUnique(s + [a])
  {
    var r := s + [a];
    forall i, j | 0 <= i < j < |r|
      ensures !SamePair(r[i], r[j])
    {
      if j == |s| {
        assert r[i] == s[i] && r[i] in s;
      } else {
        assert r[i] == s[i] && r[j] == s[j];
      }
    }
  }

  /** `destroy` reports zero deleted rows exactly when the pair is not linked; while pairs are
      unique it deletes exactly one row otherwise. */
  lemma {:induction false} WithoutPairCount(s: seq<Assignment>, employeeId: int, teamId: int)
    requires PairsUnique(s)
    ensures !HasPair(s, employeeId, teamId) ==> WithoutPair(s, employeeId, teamId) == s
    ensures HasPair(s, employeeId, teamId) ==> |WithoutPair(s, employeeId, teamId)| == |s| - 1
  {
    var p := (a: Assignment) => !(a.employeeId == employeeId && a.teamId == teamId);
    assert WithoutPair(s, employeeId, teamId) == Seqs.Filter(s, p);
    Seqs.FilterKeepsAll(s, p);
    if s != [] && HasPair(s, employeeId, teamId) {
      PairsUniqueTail(s);
      WithoutPairCount(s[1..], employeeId, teamId);
      assert WithoutPair(s[1..], employeeId, teamId) == Seqs.Filter(s[1..], p);
      if !p(s[0]) {
        assert !HasPair(s[1..], employeeId, teamId) by {
          forall a | a in s[1..]
            ensures !(a.employeeId == employeeId && a.teamId == teamId)
          {
            assert !SamePair(s[0], a);
          }
        }
      } else {
        var a :| a in s && a.employeeId == employeeId && a.teamId == teamId;
        assert a in s[1..];
      }
    }
  }

  /** The teams an employee of organisation `org` is linked to all belong to `org`. */
  lemma TeamsOfInOrg<E, T>(s: seq<Assignment>, employees: Table<E>, teams: Table<T>, employeeId: int, org: int)
    requires SameTenant(s, employees, teams) && InOrg(employees, org, employeeId)
    ensures forall t :: t in TeamsOf(s, employeeId) ==> InOrg(teams, org, t)
  {
  }

  /** The employees linked to a team of organisation `org` all belong to `org`. */
  lemma MembersOfInOrg<E, T>(s: seq<Assignment>, employees: Table<E>, teams: Table<T>, teamId: int, org: int)
    requires SameTenant(s, employees, teams) && InOrg(teams, org, teamId)
    ensures forall e :: e in MembersOf(s, teamId) ==> InOrg(employees, org, e)
  {
  }

  /** The three deletions of join rows keep the pairs unique. */
  lemma CascadesKeepPairsUnique(s: seq<Assignment>, employeeId: int, teamId: int)
    requires PairsUnique(s)
    ensures PairsUnique(WithoutEmployee(s, employeeId))
    ensures PairsUnique(WithoutTeam(s, teamId))
    ensures PairsUnique(WithoutPair(s, employeeId, teamId))
  {
    var byEmployee := (a: Assignment) => a.employeeId != employeeId;
    var byTeam := (a: Assignment) => a.teamId != teamId;
    var byPair := (a: Assignment) => !(a.employeeId == employeeId && a.teamId == teamId);
    assert WithoutEmployee(s, employeeId) == Seqs.Filter(s, byEmployee);
    assert WithoutTeam(s, teamId) == Seqs.Filter(s, byTeam);
    assert WithoutPair(s, employeeId, teamId) == Seqs.Filter(s, byPair);
    FilterKeepsPairsUnique(s, byEmployee);
    FilterKeepsPairsUnique(s, byTeam);
    FilterKeepsPairsUnique(s, byPair);
  }

  /** Writing a row under id `k` keeps the table keyed. */
  lemma KeyedWrite<T>(t: Table<T>, next: int, next': int, k: int, row: Row<T>)
    requires Keyed(t, next) && next <= next' && row.id == k && 0 < k < next'
    ensures Keyed(t[k := row], next')
  {
  }

  // ------------------------------------------------------------ the join rows' tenancy

  /** A write of employee row `k` that keeps its organisation (or adds a new row) keeps every
      join row within one organisation. */
  lemma SameTenantWriteEmployee<E, T>(s: seq<Assignment>, employees: Table<E>, teams: Table<T>, k: int, row: Row<E>)
    requires SameTenant(s, employees, teams)
    requires k in employees ==> employees[k].orgId == row.orgId
    ensures SameTenant(s, employees[k := row], teams)
  {
    forall a | a in s ensures a.employeeId in employees[k := row] && a.teamId in teams
      && employees[k := row][a.employeeId].orgId == teams[a.teamId].orgId
    {
    }
  }

  /** The same for a write of team row `k`. */
  lemma SameTenantWriteTeam<E, T>(s: seq<Assignment>, employees: Table<E>, teams: Table<T>, k: int, row: Row<T>)
    requires SameTenant(s, employees, teams)
    requires k in teams ==> teams[k].orgId == row.orgId
    ensures SameTenant(s, employees, teams[k := row])
  {
    forall a | a in s ensures a.employeeId in employees && a.teamId in teams[k := row]
      && employees[a.employeeId].orgId == teams[k := row][a.teamId].orgId
    {
    }
  }

  /** Deleting an employee together with its join rows leaves no join row dangling. */
  lemma SameTenantWithoutEmployee<E, T>(s: seq<Assignment>, employees: Table<E>, teams: Table<T>, id: int)
    requires SameTenant(s, employees, teams)
    ensures SameTenant(WithoutEmployee(s, id), employees - {id}, teams)
  {
  }

  /** Deleting a team together with its join rows leaves no join row dangling. */
  lemma SameTenantWithoutTeam<E, T>(s: seq<Assignment>, employees: Table<E>, teams: Table<T>, id: int)
    requires SameTenant(s, employees, teams)
    ensures SameTenant(WithoutTeam(s, id), employees, teams - {id})
  {
  }

  /** Deleting join rows keeps the rest within one organisation each. */
  lemma SameTenantWithoutPair<E, T>(s: seq<Assignment>, employees: Table<E>, teams: Table<T>, employeeId: int, teamId: int)
    requires SameTenant(s, employees, teams)
    ensures SameTenant(WithoutPair(s, employeeId, teamId), employees, teams)
  {
  }

  /** Adding a join row between an employee and a team of one organisation. */
  lemma SameTenantAppend<E, T>(s: seq<Assignment>, employees: Table<E>, teams: Table<T>, a: Assignment, org: int)
    requires SameTenant(s, employees, teams)
    requires InOrg(employees, org, a.employeeId) && InOrg(teams, org, a.teamId)
    ensures SameTenant(s + [a], employees, teams)
  {
  }

  // ------------------------------------------------------------ tenant isolation

  /** The rows of every organisation other than `org` are the same before and after. */
  ghost predicate OthersUnchanged<T>(org: int, before: Table<T>, after: Table<T>)
  {
    && (forall k :: k in before && before[k].orgId != org ==> k in after && after[k] == before[k])
    && (forall k :: k in after && after[k].orgId != org ==> k in before && before[k] == after[k])
  }

  /** The join rows of other organisations' teams all survive, and every new join row is
      for a team of `org`. */
  ghost predicate JoinIsolated<T>(org: int, teamsBefore: Table<T>, teamsAfter: Table<T>,
                                  before: seq<Assignment>, after: seq<Assignment>)
  {
    && (forall a :: a in before && a.teamId in teamsBefore && teamsBefore[a.teamId].orgId != org ==> a in after)
    && (forall a :: a in after && a !in before ==> InOrg(teamsAfter, org, a.teamId))
  }

  /** The log only grows, and only with entries of `org`. */
  ghost predicate LogIsolated(org: int, before: seq<LogEntry>, after: seq<LogEntry>)
  {
    && before <= after
    && (forall i :: |before| <= i < |after| ==> after[i].orgId == Some(org))
  }

  /** Writing a row of `org` changes no other organisation's rows. */
  lemma WriteInOrg<T>(org: int, t: Table<T>, k: int, row: Row<T>)
    requires (k in t ==> t[k].orgId == org) && row.orgId == org
    ensures OthersUnchanged(org, t, t[k := row])
  {
  }

  /** Deleting a row of `org` changes no other organisation's rows. */
  lemma DeleteInOrg<T>(org: int, t: Table<T>, k: int)
    requires InOrg(t, org, k)
    ensures OthersUnchanged(org, t, t - {k})
  {
  }

  /** The employee cascade only removes join rows of `org`'s teams. */
  lemma WithoutEmployeeIsolated<E, T>(org: int, s: seq<Assignment>, employees: Table<E>, teams: Table<T>, id: int)
    requires SameTenant(s, employees, teams) && InOrg(employees, org, id)
    ensures JoinIsolated(org, teams, teams, s, WithoutEmployee(s, id))
  {
  }

  /** The team cascade only removes join rows of the team, which is `org`'s. */
  lemma WithoutTeamIsolated<T>(org: int, s: seq<Assignment>, teams: Table<T>, id: int)
    requires InOrg(teams, org, id)
    ensures JoinIsolated(org, teams, teams - {id}, s, WithoutTeam(s, id))
  {
  }

  /** Unassigning only removes the join rows of a team of `org`. */
  lemma WithoutPairIsolated<T>(org: int, s: seq<Assignment>, teams: Table<T>, employeeId: int, teamId: int)
    requires InOrg(teams, org, teamId)
    ensures JoinIsolated(org, teams, teams, s, WithoutPair(s, employeeId, teamId))
  {
  }

  /** An assign adds exactly the employee to the team's members and changes no other team's. */
  lemma AppendMembers(s: seq<Assignment>, a: Assignment)
    ensures MembersOf(s + [a], a.teamId) == MembersOf(s, a.teamId) + {a.employeeId}
    ensures forall t :: t != a.teamId ==> MembersOf(s + [a], t) == MembersOf(s, t)
  {
    forall t ensures MembersOf(s + [a], t) == MembersOf(s, t) + (if t == a.teamId then {a.employeeId} else {}) {
      assert a in s + [a];
      forall b | b in s + [a] ensures b in s || b == a {
        var k :| 0 <= k < |s + [a]| && (s + [a])[k] == b;
        if k < |s| {
          assert s[k] == b;
        }
      }
      forall b | b in s ensures b in s + [a] {
        var k :| 0 <= k < |s| && s[k] == b;
        assert (s + [a])[k] == b;
      }
    }
  }

  /** An unassign removes exactly the employee from the team's members and changes no other team's. */
  lemma WithoutPairMembers(s: seq<Assignment>, employeeId: int, teamId: int)
    ensures MembersOf(WithoutPair(s, employeeId, teamId), teamId) == MembersOf(s, teamId) - {employeeId}
    ensures forall t :: t != teamId ==> MembersOf(WithoutPair(s, employeeId, teamId), t) == MembersOf(s, t)
  {
  }

  /** A linked pair whose team is `org`'s has an employee of `org`. */
  /** What the unassign's destroy keeps when the pair is linked and its team is the caller's:
      one row fewer, pairs unique, join rows within one organisation and isolated, the
      member set less that employee, and the employee in the caller's organisation. */
  lemma UnassignKeeps<E, T>(s: seq<Assignment>, employees: Table<E>, teams: Table<T>, employeeId: int, teamId: int, org: int)
    requires PairsUnique(s) && SameTenant(s, employees, teams)
    requires HasPair(s, employeeId, teamId) && InOrg(teams, org, teamId)
    ensures |WithoutPair(s, employeeId, teamId)| == |s| - 1
    ensures PairsUnique(WithoutPair(s, employeeId, teamId))
    ensures SameTenant(WithoutPair(s, employeeId, teamId), employees, teams)
    ensures JoinIsolated(org, teams, teams, s, WithoutPair(s, employeeId, teamId))
    ensures MembersOf(WithoutPair(s, employeeId, teamId), teamId) == MembersOf(s, teamId) - {employeeId}
    ensures InOrg(employees, org, employeeId)
  {
    WithoutPairCount(s, employeeId, teamId);
    CascadesKeepPairsUnique(s, employeeId, teamId);
    SameTenantWithoutPair(s, employees, teams, employeeId, teamId);
    WithoutPairIsolated(org, s, teams, employeeId, teamId);
    WithoutPairMembers(s, employeeId, teamId);
    PairInOrg(s, employees, teams, employeeId, teamId, org);
  }

  lemma PairInOrg<E, T>(s: seq<Assignment>, employees: Table<E>, teams: Table<T>, employeeId: int, teamId: int, org: int)
    requires SameTenant(s, employees, teams) && HasPair(s, employeeId, teamId) && InOrg(teams, org, teamId)
    ensures InOrg(employees, org, employeeId)
  {
  }
}
