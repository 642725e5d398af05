/** The audit-log query of `listLogs`: scope the log to the caller's organisation, apply
    the optional action and date filters, order newest first and keep at most `limit`
    entries. The query only reads the log. */
module AuditQuery {
  import opened JsValues
  import opened Records
  import Seqs

  /** The query string. An empty `action`, `startDate` or `endDate` is falsy and reads as
      absent; dates are already timestamps here. `limit` is the parsed number, if given. */
  datatype LogQuery = LogQuery(action: Option<string>, startDate: Option<int>, endDate: Option<int>, limit: Option<int>)

  const DefaultLimit := 50

  /** The `where` object the handler builds: the organisation always, the other keys only
      when their parameter is truthy. */
  datatype Where = Where(orgId: int, action: Option<string>, since: Option<int>, until: Option<int>)

  function BuildWhere(org: int, q: LogQuery): (w: Where)
    ensures w.orgId == org
    ensures w.action.Some? <==> q.action.Some? && q.action.value != ""
    ensures w.action.Some? ==> w.action == q.action
    ensures w.since == q.startDate && w.until == q.endDate
  {
    Where(org,
          if q.action.Some? && q.action.value != "" then q.action else None,
          q.startDate,
          q.endDate)
  }

  /** Whether the database's `where` selects `e`. Without action or dates, the scope alone decides. */
  predicate Matches(w: Where, e: LogEntry): (b: bool)
    ensures b ==> e.orgId == Some(w.orgId)
    ensures w.action.None? && w.since.None? && w.until.None? ==> (b <==> e.orgId == Some(w.orgId))
  {
    && e.orgId == Some(w.orgId)
    && (w.action.Some? ==> e.action == w.action.value)
    && (w.since.Some? ==> e.timestamp >= w.since.value)
    && (w.until.Some? ==> e.timestamp <= w.until.value)
  }

  ghost predicate NewestFirst(s: seq<LogEntry>)
  {
    forall i, j :: 0 <= i < j < |s| ==> s[i].timestamp >= s[j].timestamp
  }

  /** Puts `e` into a newest-first sequence, after the entries with the same timestamp. */
  function Insert(e: LogEntry, s: seq<LogEntry>): (r: seq<LogEntry>)
    ensures multiset(r) == multiset(s) + multiset{e}
    ensures |r| == |s| + 1
  {
    if s == [] || s[0].timestamp < e.timestamp then [e] + s
    else
      assert s == [s[0]] + s[1..];
      [s[0]] + Insert(e, s[1..])
  }

  ghost predicate AtMost(s: seq<LogEntry>, t: int)
  {
    forall k :: 0 <= k < |s| ==> s[k].timestamp <= t
  }

  lemma {:induction false} InsertAtMost(e: LogEntry, s: seq<LogEntry>, t: int)
    requires e.timestamp <= t && AtMost(s, t)
    ensures AtMost(Insert(e, s), t)
  {
    if s != [] && s[0].timestamp >= e.timestamp {
      InsertAtMost(e, s[1..], t);
      var r := Insert(e, s);
      assert forall k :: 0 < k < |r| ==> r[k] == Insert(e, s[1..])[k - 1];
    }
  }

  lemma {:induction false} InsertNewestFirst(e: LogEntry, s: seq<LogEntry>)
    requires NewestFirst(s)
    ensures NewestFirst(Insert(e, s))
  {
    if s != [] && s[0].timestamp >= e.timestamp {
      var rest := Insert(e, s[1..]);
      assert NewestFirst(s[1..]) by {
        forall i, j | 0 <= i < j < |s[1..]| ensures s[1..][i].timestamp >= s[1..][j].timestamp {
          assert s[1..][i] == s[i + 1] && s[1..][j] == s[j + 1];
        }
      }
      InsertNewestFirst(e, s[1..]);
      assert AtMost(s[1..], s[0].timestamp) by {
        forall k | 0 <= k < |s[1..]| ensures s[1..][k].timestamp <= s[0].timestamp {
          assert s[1..][k] == s[k + 1];
        }
      }
      InsertAtMost(e, s[1..], s[0].timestamp);
      var r := [s[0]] + rest;
      assert Insert(e, s) == r;
      forall i, j | 0 <= i < j < |r| ensures r[i].timestamp >= r[j].timestamp {
        if i == 0 {
          assert r[j] == rest[j - 1];
        } else {
          assert r[i] == rest[i - 1] && r[j] == rest[j - 1];
        }
      }
    }
  }

  /** `order: [['timestamp', 'DESC']]`: an insertion sort by timestamp, newest first. The
      database leaves the order of equal timestamps open; this one puts later-appended
      entries first. */
  function SortNewestFirst(s: seq<LogEntry>): (r: seq<LogEntry>)
    ensures multiset(r) == multiset(s)
    ensures NewestFirst(r)
  {
    if s == [] then []
    else
      assert s == [s[0]] + s[1..];
      var rest := SortNewestFirst(s[1..]);
      InsertNewestFirst(s[0], rest);
      Insert(s[0], rest)
  }

  /** The row limit in force: 50 when the parameter is absent. */
  function EffectiveLimit(q: LogQuery): int
  {
    q.limit.GetOr(DefaultLimit)
  }

  /** SQL `LIMIT n`: the first `n` rows; a negative limit sets no bound. */
  function Take(s: seq<LogEntry>, n: int): (r: seq<LogEntry>)
    ensures r <= s
    ensures |r| == if 0 <= n < |s| then n else |s|
  {
    if 0 <= n < |s| then s[..n] else s
  }

  /** The entries of `logs` that the query's `where` selects, in log order. */
  function Selected(logs: seq<LogEntry>, org: int, q: LogQuery): (r: seq<LogEntry>)
    ensures forall i :: 0 <= i < |r| ==> r[i] in logs && Matches(BuildWhere(org, q), r[i])
    ensures forall i :: 0 <= i < |logs| && Matches(BuildWhere(org, q), logs[i]) ==> logs[i] in r
  {
    Seqs.Filter(logs, (e: LogEntry) => Matches(BuildWhere(org, q), e))
  }

  function ListLogs(logs: seq<LogEntry>, org: int, q: LogQuery): (r: seq<LogEntry>)
    ensures r <= SortNewestFirst(Selected(logs, org, q))
  {
    Take(SortNewestFirst(Selected(logs, org, q)), EffectiveLimit(q))
  }

  /** The selection holds each matching entry exactly as often as the log does, and no other. */
  lemma SelectedCounts(logs: seq<LogEntry>, org: int, q: LogQuery)
    ensures forall e ::
      multiset(Selected(logs, org, q))[e] == if Matches(BuildWhere(org, q), e) then multiset(logs)[e] else 0
  {
    var p := (e: LogEntry) => Matches(BuildWhere(org, q), e);
    assert Selected(logs, org, q) == Seqs.Filter(logs, p);
    Seqs.FilterMultiset(logs, p);
  }

  /** Every returned entry matches the whole `where`: a result is a selected entry. */
  lemma ListLogsSelected(logs: seq<LogEntry>, org: int, q: LogQuery, e: LogEntry)
    requires e in ListLogs(logs, org, q)
    ensures e in logs && Matches(BuildWhere(org, q), e)
  {
    var sorted := SortNewestFirst(Selected(logs, org, q));
    assert e in sorted;
    assert e in multiset(sorted);
    assert e in Selected(logs, org, q);
    var i :| 0 <= i < |Selected(logs, org, q)| && Selected(logs, org, q)[i] == e;
  }

  /** Only the caller's organisation's entries are returned. */
  lemma ListLogsScoped(logs: seq<LogEntry>, org: int, q: LogQuery)
    ensures forall e :: e in ListLogs(logs, org, q) ==> e.orgId == Some(org)
  {
    forall e | e in ListLogs(logs, org, q) ensures e.orgId == Some(org) {
      ListLogsSelected(logs, org, q, e);
    }
  }

  /** A non-empty `action` keeps exactly that action; an empty or missing one filters nothing. */
  lemma ListLogsAction(logs: seq<LogEntry>, org: int, q: LogQuery)
    ensures q.action.Some? && q.action.value != "" ==>
      forall e :: e in ListLogs(logs, org, q) ==> e.action == q.action.value
    ensures q.action == Some("") ==> ListLogs(logs, org, q) == ListLogs(logs, org, q.(action := None))
  {
    forall e | e in ListLogs(logs, org, q) ensures q.action.Some? && q.action.value != "" ==> e.action == q.action.value {
      ListLogsSelected(logs, org, q, e);
    }
    assert q.action == Some("") ==> BuildWhere(org, q) == BuildWhere(org, q.(action := None));
  }

  /** Whether an entry passes the scope and the action filter, the filters besides the dates. */
  predicate ScopeAndAction(org: int, q: LogQuery, e: LogEntry)
  {
    e.orgId == Some(org) && (q.action.Some? && q.action.value != "" ==> e.action == q.action.value)
  }

  /** The inclusive date bounds, each one only when given: an absent bound filters nothing,
      so an entry that passes the other filters is selected whatever its timestamp on that side. */
  lemma ListLogsWithinDates(logs: seq<LogEntry>, org: int, q: LogQuery)
    ensures q.startDate.Some? ==> forall e :: e in ListLogs(logs, org, q) ==> e.timestamp >= q.startDate.value
    ensures q.endDate.Some? ==> forall e :: e in ListLogs(logs, org, q) ==> e.timestamp <= q.endDate.value
    ensures q.startDate.None? ==> forall e ::
      e in logs && ScopeAndAction(org, q, e) && (q.endDate.Some? ==> e.timestamp <= q.endDate.value) ==>
      e in Selected(logs, org, q)
    ensures q.endDate.None? ==> forall e ::
      e in logs && ScopeAndAction(org, q, e) && (q.startDate.Some? ==> e.timestamp >= q.startDate.value) ==>
      e in Selected(logs, org, q)
  {
    forall e | e in logs && ScopeAndAction(org, q, e)
      ensures (q.startDate.None? || e.timestamp >= q.startDate.value) && (q.endDate.None? || e.timestamp <= q.endDate.value) ==>
        e in Selected(logs, org, q)
    {
      var i :| 0 <= i < |logs| && logs[i] == e;
    }
    forall e | e in ListLogs(logs, org, q)
      ensures q.startDate.Some? ==> e.timestamp >= q.startDate.value
      ensures q.endDate.Some? ==> e.timestamp <= q.endDate.value
    {
      ListLogsSelected(logs, org, q, e);
    }
  }

  /** Newest first. */
  lemma ListLogsNewestFirst(logs: seq<LogEntry>, org: int, q: LogQuery)
    ensures NewestFirst(ListLogs(logs, org, q))
  {
    var sorted := SortNewestFirst(Selected(logs, org, q));
    var r := ListLogs(logs, org, q);
    forall i, j | 0 <= i < j < |r| ensures r[i].timestamp >= r[j].timestamp {
      assert r[i] == sorted[i] && r[j] == sorted[j];
    }
  }

  /** At most `limit` entries (50 by default); when no more than that many match, all of
      them are returned, each as often as it occurs in the log. */
  lemma ListLogsLimit(logs: seq<LogEntry>, org: int, q: LogQuery)
    ensures EffectiveLimit(q) >= 0 ==> |ListLogs(logs, org, q)| <= EffectiveLimit(q)
    ensures q.limit.None? ==> |ListLogs(logs, org, q)| <= 50
    ensures |Selected(logs, org, q)| <= EffectiveLimit(q) || EffectiveLimit(q) < 0 ==>
      multiset(ListLogs(logs, org, q)) == multiset(Selected(logs, org, q))
    ensures |Selected(logs, org, q)| <= EffectiveLimit(q) || EffectiveLimit(q) < 0 ==>
      forall e :: multiset(ListLogs(logs, org, q))[e] == if Matches(BuildWhere(org, q), e) then multiset(logs)[e] else 0
  {
    var sorted := SortNewestFirst(Selected(logs, org, q));
    assert |sorted| == |multiset(sorted)| == |Selected(logs, org, q)|;
    SelectedCounts(logs, org, q);
  }
}
