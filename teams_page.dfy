/** The list arithmetic of the Teams page: the checkbox toggle, the add and remove lists
    computed when assignments are saved, the selection a "manage" dialog starts from, and
    the list update after a team is deleted. Rendering and the API calls are not modelled. */
module TeamsPage {
  import opened JsValues
  import Seqs

  /** A team as the page holds it: `Employees` is the list of member ids, if present. */
  datatype TeamCard = TeamCard(id: int, name: string, employees: Option<seq<int>>)

  /** `handleEmployeeToggle`: drop every occurrence of a selected id, append an unselected one. */
  function Toggle(selected: seq<int>, id: int): (r: seq<int>)
    ensures id in r <==> id !in selected
  {
    if id in selected then Seqs.Filter(selected, (x: int) => x != id) else selected + [id]
  }

  /** After a toggle, `id` is selected exactly when it was not; nothing else changes. */
  lemma ToggleFlips(selected: seq<int>, id: int)
    ensures forall x :: x in Toggle(selected, id) <==> (if x == id then id !in selected else x in selected)
    ensures id in selected ==> id !in Toggle(selected, id)
    ensures id !in selected ==> Toggle(selected, id) == selected + [id]
  {
    if id in selected {
      var r := Toggle(selected, id);
      forall x | x in selected && x != id ensures x in r {
        var i :| 0 <= i < |selected| && selected[i] == x;
      }
      forall x | x in r ensures x in selected && x != id {
        var i :| 0 <= i < |r| && r[i] == x;
      }
    }
  }

  /** Toggling the same id twice gives back the same selected set. */
  lemma ToggleTwice(selected: seq<int>, id: int)
    ensures Seqs.Elems(Toggle(Toggle(selected, id), id)) == Seqs.Elems(selected)
  {
    ToggleFlips(selected, id);
    ToggleFlips(Toggle(selected, id), id);
    var r := Toggle(Toggle(selected, id), id);
    forall x ensures x in Seqs.Elems(r) <==> x in Seqs.Elems(selected) {
      ElemsIn(r, x);
      ElemsIn(selected, x);
    }
  }

  lemma ElemsIn(s: seq<int>, x: int)
    ensures x in Seqs.Elems(s) <==> x in s
  {
    if x in s {
      var i :| 0 <= i < |s| && s[i] == x;
    }
  }

  /** `currentEmployeeIds` and the dialog's initial selection: `team.Employees?.map(e => e.id) || []`. */
  function MemberIds(team: TeamCard): (r: seq<int>)
    ensures team.employees.Some? ==> r == team.employees.value
    ensures team.employees.None? ==> r == []
  {
    team.employees.GetOr([])
  }

  /** `toAdd`: the selected ids that are not current members. */
  function ToAdd(selected: seq<int>, current: seq<int>): (r: seq<int>)
    ensures |r| <= |selected|
    ensures forall i :: 0 <= i < |r| ==> r[i] in selected && r[i] !in current
  {
    Seqs.Filter(selected, (id: int) => id !in current)
  }

  /** `toRemove`: the current members that are no longer selected. */
  function ToRemove(current: seq<int>, selected: seq<int>): (r: seq<int>)
    ensures |r| <= |current|
    ensures forall i :: 0 <= i < |r| ==> r[i] in current && r[i] !in selected
  {
    Seqs.Filter(current, (id: int) => id !in selected)
  }

  /** The two lists, element by element: `toAdd` is selected-but-not-current, `toRemove`
      current-but-not-selected; so `toAdd` avoids the members, `toRemove` is among them, and
      no id is in both. */
  lemma DiffExact(selected: seq<int>, current: seq<int>)
    ensures forall x :: x in ToAdd(selected, current) <==> x in selected && x !in current
    ensures forall x :: x in ToRemove(current, selected) <==> x in current && x !in selected
    ensures forall x :: x in ToAdd(selected, current) ==> x !in current
    ensures forall x :: x in ToRemove(current, selected) ==> x in current
    ensures forall x :: !(x in ToAdd(selected, current) && x in ToRemove(current, selected))
  {
    var add := ToAdd(selected, current);
    var rem := ToRemove(current, selected);
    forall x ensures x in add <==> x in selected && x !in current {
      if x in selected && x !in current {
        var i :| 0 <= i < |selected| && selected[i] == x;
      }
      if x in add {
        var i :| 0 <= i < |add| && add[i] == x;
      }
    }
    forall x ensures x in rem <==> x in current && x !in selected {
      if x in current && x !in selected {
        var i :| 0 <= i < |current| && current[i] == x;
      }
      if x in rem {
        var i :| 0 <= i < |rem| && rem[i] == x;
      }
    }
  }

  /** The member set after one successful `assign` per id, in order. */
  function AssignAll(members: set<int>, ids: seq<int>): set<int>
    decreases |ids|
  {
    if ids == [] then members else AssignAll(members + {ids[0]}, ids[1..])
  }

  /** The member set after one successful `unassign` per id, in order. */
  function UnassignAll(members: set<int>, ids: seq<int>): set<int>
    decreases |ids|
  {
    if ids == [] then members else UnassignAll(members - {ids[0]}, ids[1..])
  }

  lemma {:induction false} AssignAllUnion(members: set<int>, ids: seq<int>)
    ensures AssignAll(members, ids) == members + Seqs.Elems(ids)
    decreases |ids|
  {
    if ids != [] {
      AssignAllUnion(members + {ids[0]}, ids[1..]);
      assert Seqs.Elems(ids) == {ids[0]} + Seqs.Elems(ids[1..]) by {
        forall x ensures x in Seqs.Elems(ids) <==> x == ids[0] || x in Seqs.Elems(ids[1..]) {
          ElemsIn(ids, x);
          ElemsIn(ids[1..], x);
          if x in ids[1..] {
            var i :| 0 <= i < |ids[1..]| && ids[1..][i] == x;
            assert ids[i + 1] == x;
          }
        }
      }
    }
  }

  lemma {:induction false} UnassignAllDifference(members: set<int>, ids: seq<int>)
    ensures UnassignAll(members, ids) == members - Seqs.Elems(ids)
    decreases |ids|
  {
    if ids != [] {
      UnassignAllDifference(members - {ids[0]}, ids[1..]);
      assert Seqs.Elems(ids) == {ids[0]} + Seqs.Elems(ids[1..]) by {
        forall x ensures x in Seqs.Elems(ids) <==> x == ids[0] || x in Seqs.Elems(ids[1..]) {
          ElemsIn(ids, x);
          ElemsIn(ids[1..], x);
          if x in ids[1..] {
            var i :| 0 <= i < |ids[1..]| && ids[1..][i] == x;
            assert ids[i + 1] == x;
          }
        }
      }
    }
  }

  /** `handleSaveAssignments`: assigning every id of `toAdd` and then unassigning every id of
      `toRemove` turns the current member set into exactly the selected set. */
  lemma SaveReachesSelection(selected: seq<int>, current: seq<int>)
    ensures UnassignAll(AssignAll(Seqs.Elems(current), ToAdd(selected, current)), ToRemove(current, selected))
            == Seqs.Elems(selected)
  {
    AssignAllUnion(Seqs.Elems(current), ToAdd(selected, current));
    UnassignAllDifference(Seqs.Elems(current) + Seqs.Elems(ToAdd(selected, current)), ToRemove(current, selected));
    DiffExact(selected, current);
    forall x ensures x in Seqs.Elems(ToAdd(selected, current)) <==> x in ToAdd(selected, current) {
      ElemsIn(ToAdd(selected, current), x);
    }
    forall x ensures x in Seqs.Elems(ToRemove(current, selected)) <==> x in ToRemove(current, selected) {
      ElemsIn(ToRemove(current, selected), x);
    }
    forall x ensures x in Seqs.Elems(current) <==> x in current {
      ElemsIn(current, x);
    }
    forall x ensures x in Seqs.Elems(selected) <==> x in selected {
      ElemsIn(selected, x);
    }
  }

  /** Saving a dialog whose selection is still the one `handleManage` seeded issues no call. */
  lemma UnchangedSelectionIsNoOp(team: TeamCard)
    ensures ToAdd(MemberIds(team), MemberIds(team)) == []
    ensures ToRemove(MemberIds(team), MemberIds(team)) == []
  {
    var ids := MemberIds(team);
    var p := (id: int) => id !in ids;
    assert ToAdd(ids, ids) == Seqs.Filter(ids, p) && ToRemove(ids, ids) == Seqs.Filter(ids, p);
    Seqs.FilterKeepsNone(ids, p);
  }

  /** `handleDelete`: `teams.filter(team => team.id !== id)`. */
  function RemoveTeam(teams: seq<TeamCard>, id: int): (r: seq<TeamCard>)
    ensures |r| <= |teams|
    ensures forall i :: 0 <= i < |r| ==> r[i] in teams && r[i].id != id
  {
    Seqs.Filter(teams, (t: TeamCard) => t.id != id)
  }

  /** The deleted team's cards are gone, every other card stays, as often as it occurred,
      and in its order. */
  lemma RemoveTeamExact(teams: seq<TeamCard>, id: int)
    ensures forall t :: t in RemoveTeam(teams, id) <==> t in teams && t.id != id
    ensures forall t :: multiset(RemoveTeam(teams, id))[t] == if t.id != id then multiset(teams)[t] else 0
    ensures Seqs.Subsequence(RemoveTeam(teams, id), teams)
    ensures (forall t :: t in teams ==> t.id != id) ==> RemoveTeam(teams, id) == teams
  {
    var p := (t: TeamCard) => t.id != id;
    var r := RemoveTeam(teams, id);
    Seqs.FilterIsSubsequence(teams, p);
    Seqs.FilterKeepsAll(teams, p);
    Seqs.FilterMultiset(teams, p);
    forall t ensures t in r <==> t in teams && t.id != id {
      if t in teams && t.id != id {
        var i :| 0 <= i < |teams| && teams[i] == t;
      }
      if t in r {
        var i :| 0 <= i < |r| && r[i] == t;
      }
    }
  }
}
