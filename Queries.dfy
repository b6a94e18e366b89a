/**
 * The five dashboard queries over the scored fact relation
 * (`mart.ai_success_score_operational`, one row per employee, vacancy and talent
 * variable) and the organisation view (`mart.v_employees_org`), as pure functions.
 * Each query first resolves its scope with `Registry.ResolveScope` and keeps the fact
 * rows of that vacancy only; a NULL scope matches no row.
 */
module Queries {
  import opened Wrappers
  import opened Seqs
  import opened Aggregates
  import opened Text
  import opened Registry

  /** One scored row: an employee's match on one talent variable (TV) of one talent group (TGV). */
  datatype FactRow = FactRow(
    vacancyId: string,
    employeeId: string,
    directorate: string,
    role: string,
    grade: string,
    tgvName: string,
    tvName: string,
    baselineScore: Option<real>,
    userScore: Option<real>,
    tvMatchRate: Option<real>,
    tgvMatchRate: Option<real>,
    finalMatchRate: Option<real>)

  /** One row of the organisation view. */
  datatype OrgRow = OrgRow(employeeId: string, fullname: string, education: string, major: string)

  /** A fact row joined `using (employee_id)` with an organisation row. */
  datatype Joined = Joined(fact: FactRow, org: OrgRow)

  /** `join jid_final jf on jf.job_vacancy_id = a.job_vacancy_id`. */
  predicate InScope(scope: Option<string>, a: FactRow) {
    scope == Some(a.vacancyId)
  }

  function Scoped(scope: Option<string>, facts: seq<FactRow>): (r: seq<FactRow>)
    ensures forall a :: a in r <==> a in facts && InScope(scope, a)
  {
    Filter(facts, a => InScope(scope, a))
  }

  /** The organisation rows of `a`'s employee, each paired with `a`. */
  function Matches(a: FactRow, org: seq<OrgRow>): (js: seq<Joined>)
    ensures forall j :: j in js <==> j.fact == a && j.org in org && j.org.employeeId == a.employeeId
    decreases |org|
  {
    if org == [] then []
    else
      assert forall e :: e in org <==> e == org[0] || e in org[1..];
      (if org[0].employeeId == a.employeeId then [Joined(a, org[0])] else []) + Matches(a, org[1..])
  }

  /** Inner join `using (employee_id)`: a fact row without an organisation row drops out. */
  function JoinOrg(facts: seq<FactRow>, org: seq<OrgRow>): (js: seq<Joined>)
    ensures forall j :: j in js <==> j.fact in facts && j.org in org && j.org.employeeId == j.fact.employeeId
    decreases |facts|
  {
    if facts == [] then []
    else
      assert forall a :: a in facts <==> a == facts[0] || a in facts[1..];
      Matches(facts[0], org) + JoinOrg(facts[1..], org)
  }

  function Finals(js: seq<Joined>): (xs: seq<Option<real>>)
    ensures |xs| == |js|
  {
    Map(js, (j: Joined) => j.fact.finalMatchRate)
  }

  /* ---------------------------------------------------------------- leaderboard */

  /** The `group by` key of the leaderboard. */
  datatype LeaderKey = LeaderKey(employeeId: string, fullname: string, directorate: string, role: string, grade: string)

  /** A leaderboard row: the group key, the best final rate and the four pivoted group rates. */
  datatype LeaderRow = LeaderRow(
    key: LeaderKey,
    finalMatchRate: Option<real>,
    tgvComp: Option<real>,
    tgvPsy: Option<real>,
    tgvStr: Option<real>,
    tgvCtx: Option<real>)

  function LeaderKeyOf(j: Joined): LeaderKey {
    LeaderKey(j.fact.employeeId, j.org.fullname, j.fact.directorate, j.fact.role, j.fact.grade)
  }

  function LeaderGroup(js: seq<Joined>, k: LeaderKey): seq<Joined> {
    Filter(js, j => LeaderKeyOf(j) == k)
  }

  /** `case when a.tgv_name = name then a.tgv_match_rate end`, row by row. */
  function GroupRates(js: seq<Joined>, name: string): (xs: seq<Option<real>>)
    ensures |xs| == |js|
  {
    Map(js, (j: Joined) => if j.fact.tgvName == name then j.fact.tgvMatchRate else None)
  }

  function LeaderRowOf(js: seq<Joined>, k: LeaderKey): LeaderRow {
    var g := LeaderGroup(js, k);
    LeaderRow(k, Max(Finals(g)),
      Max(GroupRates(g, "Competency")), Max(GroupRates(g, "Psychometric")),
      Max(GroupRates(g, "Strengths")), Max(GroupRates(g, "Context")))
  }

  /** `order by final_match_rate desc`; PostgreSQL puts NULLs first in a descending order. */
  predicate FinalDesc(x: LeaderRow, y: LeaderRow) {
    x.finalMatchRate.None? || (y.finalMatchRate.Some? && y.finalMatchRate.value <= x.finalMatchRate.value)
  }

  /** The joined rows the leaderboard aggregates. */
  function LeaderSource(explicit: Option<string>, registry: seq<Benchmark>,
                        facts: seq<FactRow>, org: seq<OrgRow>): seq<Joined> {
    JoinOrg(Scoped(ResolveScope(explicit, registry), facts), org)
  }

  /** One row per group, before ordering and `limit`. */
  function LeaderRows(js: seq<Joined>): seq<LeaderRow> {
    Map(Distinct(Map(js, LeaderKeyOf)), k => LeaderRowOf(js, k))
  }

  /** `order by final_match_rate desc limit n` over the groups of `js`. */
  function Rank(js: seq<Joined>, limit: nat): seq<LeaderRow> {
    Take(Sort(LeaderRows(js), FinalDesc), limit)
  }

  /** `fetch_leaderboard`: as many rows as `limit` allows, one per group at most. */
  function Leaderboard(limit: nat, explicit: Option<string>, registry: seq<Benchmark>,
                       facts: seq<FactRow>, org: seq<OrgRow>): (rows: seq<LeaderRow>)
    ensures |rows| <= limit
    ensures var groups := |LeaderRows(LeaderSource(explicit, registry, facts, org))|;
      |rows| == if limit < groups then limit else groups
  {
    Rank(LeaderSource(explicit, registry, facts, org), limit)
  }

  lemma FinalDescOrder()
    ensures TotalPreorder(FinalDesc)
  {
  }

  lemma LeaderRowsMembers(js: seq<Joined>, r: LeaderRow)
    ensures r in LeaderRows(js) <==> r == LeaderRowOf(js, r.key) && exists j :: j in js && LeaderKeyOf(j) == r.key
  {
    var keys := Distinct(Map(js, LeaderKeyOf));
    MapMembers(keys, k => LeaderRowOf(js, k), r);
    MapMembers(js, LeaderKeyOf, r.key);
  }

  lemma LeaderRowsDistinct(js: seq<Joined>)
    ensures NoDuplicates(LeaderRows(js))
  {
    var keys := Distinct(Map(js, LeaderKeyOf));
    var rows := LeaderRows(js);
    forall i, j | 0 <= i < j < |rows| ensures rows[i] != rows[j] {
      assert rows[i].key == keys[i] && rows[j].key == keys[j];
    }
  }

  /** The leaderboard is ordered by final rate, best first (NULL rates ahead of all). */
  lemma LeaderboardSorted(limit: nat, explicit: Option<string>, registry: seq<Benchmark>,
                          facts: seq<FactRow>, org: seq<OrgRow>)
    ensures Sorted(Leaderboard(limit, explicit, registry, facts, org), FinalDesc)
  {
    var rows := LeaderRows(LeaderSource(explicit, registry, facts, org));
    FinalDescOrder();
    SortSorted(rows, FinalDesc);
    TakeSorted(Sort(rows, FinalDesc), limit, FinalDesc);
  }

  /** Each row of `LeaderRows` is the aggregate of a non-empty group named by its key. */
  lemma LeaderRowsGroups(js: seq<Joined>)
    ensures forall r :: r in LeaderRows(js) ==> LeaderGroup(js, r.key) != [] && r == LeaderRowOf(js, r.key)
  {
    forall r | r in LeaderRows(js)
      ensures LeaderGroup(js, r.key) != [] && r == LeaderRowOf(js, r.key)
    {
      LeaderRowsMembers(js, r);
      var j :| j in js && LeaderKeyOf(j) == r.key;
      assert j in LeaderGroup(js, r.key);
    }
  }

  lemma RankMembers(js: seq<Joined>, limit: nat)
    ensures forall r :: r in Rank(js, limit) ==> LeaderGroup(js, r.key) != [] && r == LeaderRowOf(js, r.key)
  {
    SortMembers(LeaderRows(js), FinalDesc);
    LeaderRowsGroups(js);
  }

  lemma RankKeysDistinct(js: seq<Joined>, limit: nat)
    ensures forall i, j :: 0 <= i < j < |Rank(js, limit)| ==> Rank(js, limit)[i].key != Rank(js, limit)[j].key
  {
    var rows := LeaderRows(js);
    var sorted := Sort(rows, FinalDesc);
    var board := Rank(js, limit);
    RankMembers(js, limit);
    LeaderRowsDistinct(js);
    NoDuplicatesPermutation(rows, sorted);
    forall i, j | 0 <= i < j < |board| ensures board[i].key != board[j].key {
      assert board[i] == sorted[i] && board[j] == sorted[j];
      assert board[i] in board && board[j] in board;
    }
  }

  /** The aggregates of one group: SQL `max` of its final rates and of each pivoted group rate. */
  lemma LeaderRowMax(js: seq<Joined>, k: LeaderKey)
    ensures var r := LeaderRowOf(js, k);
      var g := LeaderGroup(js, k);
      && IsMaxOf(r.finalMatchRate, Finals(g))
      && IsMaxOf(r.tgvComp, GroupRates(g, "Competency"))
      && IsMaxOf(r.tgvPsy, GroupRates(g, "Psychometric"))
      && IsMaxOf(r.tgvStr, GroupRates(g, "Strengths"))
      && IsMaxOf(r.tgvCtx, GroupRates(g, "Context"))
  {
  }

  /**
   * Every leaderboard row stands for a non-empty group of in-scope joined rows that
   * share its key; its final rate is the SQL `max` of the group's final rates and each
   * pivot column the `max` of the group's rates for that talent group.
   */
  lemma LeaderboardRows(limit: nat, explicit: Option<string>, registry: seq<Benchmark>,
                        facts: seq<FactRow>, org: seq<OrgRow>)
    ensures var js := LeaderSource(explicit, registry, facts, org);
      forall r :: r in Leaderboard(limit, explicit, registry, facts, org) ==>
        var g := LeaderGroup(js, r.key);
        && g != []
        && IsMaxOf(r.finalMatchRate, Finals(g))
        && IsMaxOf(r.tgvComp, GroupRates(g, "Competency"))
        && IsMaxOf(r.tgvPsy, GroupRates(g, "Psychometric"))
        && IsMaxOf(r.tgvStr, GroupRates(g, "Strengths"))
        && IsMaxOf(r.tgvCtx, GroupRates(g, "Context"))
  {
    var js := LeaderSource(explicit, registry, facts, org);
    RankMembers(js, limit);
    forall r | r in Rank(js, limit)
      ensures var g := LeaderGroup(js, r.key);
        && g != []
        && IsMaxOf(r.finalMatchRate, Finals(g))
        && IsMaxOf(r.tgvComp, GroupRates(g, "Competency"))
        && IsMaxOf(r.tgvPsy, GroupRates(g, "Psychometric"))
        && IsMaxOf(r.tgvStr, GroupRates(g, "Strengths"))
        && IsMaxOf(r.tgvCtx, GroupRates(g, "Context"))
    {
      LeaderRowMax(js, r.key);
    }
  }

  /** No two leaderboard rows share a group key: `group by` yields one row per employee group. */
  lemma LeaderboardKeysDistinct(limit: nat, explicit: Option<string>, registry: seq<Benchmark>,
                                facts: seq<FactRow>, org: seq<OrgRow>)
    ensures var board := Leaderboard(limit, explicit, registry, facts, org);
      forall i, j :: 0 <= i < j < |board| ==> board[i].key != board[j].key
  {
    RankKeysDistinct(LeaderSource(explicit, registry, facts, org), limit);
  }

  /** With a limit no smaller than the number of groups, every group of in-scope joined rows gets a row. */
  lemma LeaderboardComplete(limit: nat, explicit: Option<string>, registry: seq<Benchmark>,
                            facts: seq<FactRow>, org: seq<OrgRow>)
    requires |LeaderRows(LeaderSource(explicit, registry, facts, org))| <= limit
    ensures var js := LeaderSource(explicit, registry, facts, org);
      forall j :: j in js ==> exists r :: r in Leaderboard(limit, explicit, registry, facts, org) && r.key == LeaderKeyOf(j)
  {
    var js := LeaderSource(explicit, registry, facts, org);
    forall j | j in js
      ensures exists r :: r in Leaderboard(limit, explicit, registry, facts, org) && r.key == LeaderKeyOf(j)
    {
      RankComplete(js, limit, j);
    }
  }

  /** A limit no smaller than the number of groups keeps every group. */
  lemma RankComplete(js: seq<Joined>, limit: nat, j: Joined)
    requires |LeaderRows(js)| <= limit && j in js
    ensures LeaderRowOf(js, LeaderKeyOf(j)) in Rank(js, limit)
  {
    var rows := LeaderRows(js);
    var r := LeaderRowOf(js, LeaderKeyOf(j));
    LeaderRowsMembers(js, r);
    SortMembers(rows, FinalDesc);
    assert Take(Sort(rows, FinalDesc), limit) == Sort(rows, FinalDesc);
  }

  /** `limit` keeps the best rows: a group left out ranks no higher than any row kept. */
  lemma RankTop(js: seq<Joined>, limit: nat)
    ensures forall r, b :: r in LeaderRows(js) && r !in Rank(js, limit) && b in Rank(js, limit) ==> FinalDesc(b, r)
  {
    var rows := LeaderRows(js);
    FinalDescOrder();
    SortSorted(rows, FinalDesc);
    SortMembers(rows, FinalDesc);
    TakeTop(Sort(rows, FinalDesc), limit, FinalDesc);
  }

  /**
   * The leaderboard holds the best groups: every group of in-scope joined rows that
   * is left out ranks no higher than any row shown.
   */
  lemma LeaderboardTop(limit: nat, explicit: Option<string>, registry: seq<Benchmark>,
                       facts: seq<FactRow>, org: seq<OrgRow>)
    ensures var js := LeaderSource(explicit, registry, facts, org);
      var board := Leaderboard(limit, explicit, registry, facts, org);
      forall j, b :: j in js && LeaderRowOf(js, LeaderKeyOf(j)) !in board && b in board ==>
        FinalDesc(b, LeaderRowOf(js, LeaderKeyOf(j)))
  {
    var js := LeaderSource(explicit, registry, facts, org);
    RankTop(js, limit);
    forall j | j in js ensures LeaderRowOf(js, LeaderKeyOf(j)) in LeaderRows(js) {
      LeaderRowsMembers(js, LeaderRowOf(js, LeaderKeyOf(j)));
    }
  }

  /* ---------------------------------------------------------- group breakdown */

  /** The `group by` key of the per-employee talent group breakdown. */
  datatype TgvKey = TgvKey(vacancyId: string, employeeId: string, directorate: string,
                           role: string, grade: string, tgvName: string)

  datatype TgvRow = TgvRow(employeeId: string, directorate: string, role: string,
                           grade: string, tgvName: string, tgvMatchRate: Option<real>)

  function TgvKeyOf(a: FactRow): TgvKey {
    TgvKey(a.vacancyId, a.employeeId, a.directorate, a.role, a.grade, a.tgvName)
  }

  function TgvGroup(facts: seq<FactRow>, k: TgvKey): seq<FactRow> {
    Filter(facts, a => TgvKeyOf(a) == k)
  }

  function TvRates(facts: seq<FactRow>): (xs: seq<Option<real>>)
    ensures |xs| == |facts|
  {
    Map(facts, (a: FactRow) => a.tvMatchRate)
  }

  /** `where employee_id = %s`. */
  function EmployeeFacts(facts: seq<FactRow>, employeeId: string): seq<FactRow> {
    Filter(facts, (a: FactRow) => a.employeeId == employeeId)
  }

  function TgvRowOf(mine: seq<FactRow>, k: TgvKey): TgvRow {
    TgvRow(k.employeeId, k.directorate, k.role, k.grade, k.tgvName, Avg(TvRates(TgvGroup(mine, k))))
  }

  /** `order by tgv_name`. */
  predicate ByTgvName(x: TgvRow, y: TgvRow) {
    StrLe(x.tgvName, y.tgvName)
  }

  /** The groups of the employee's rows that belong to the scope vacancy. */
  function TgvKeys(scope: Option<string>, mine: seq<FactRow>): seq<TgvKey> {
    Filter(Distinct(Map(mine, TgvKeyOf)), (k: TgvKey) => scope == Some(k.vacancyId))
  }

  /**
   * `fetch_candidate_tgv`: the employee's rows are grouped over every vacancy, each
   * group's rate is recomputed as the mean TV match rate, and only the groups of the
   * scope vacancy are kept.
   */
  function CandidateTgv(employeeId: string, explicit: Option<string>, registry: seq<Benchmark>,
                        facts: seq<FactRow>): seq<TgvRow> {
    var mine := EmployeeFacts(facts, employeeId);
    Sort(TgvRows(mine, TgvKeys(ResolveScope(explicit, registry), mine)), ByTgvName)
  }

  /** One aggregated row per group key. */
  function TgvRows(mine: seq<FactRow>, keys: seq<TgvKey>): seq<TgvRow> {
    Map(keys, k => TgvRowOf(mine, k))
  }

  lemma TgvRowsMembers(mine: seq<FactRow>, keys: seq<TgvKey>, r: TgvRow)
    ensures r in TgvRows(mine, keys) <==> exists k :: k in keys && TgvRowOf(mine, k) == r
  {
    MapMembers(keys, k => TgvRowOf(mine, k), r);
  }

  lemma TgvKeysMembers(scope: Option<string>, mine: seq<FactRow>, k: TgvKey)
    ensures k in TgvKeys(scope, mine) <==> scope == Some(k.vacancyId) && exists a :: a in mine && TgvKeyOf(a) == k
  {
    MapMembers(mine, TgvKeyOf, k);
  }

  lemma ByTgvNameOrder()
    ensures TotalPreorder(ByTgvName)
  {
    forall x: TgvRow, y: TgvRow ensures ByTgvName(x, y) || ByTgvName(y, x) {
      StrLeTotal(x.tgvName, y.tgvName);
    }
    forall x: TgvRow, y: TgvRow, z: TgvRow | ByTgvName(x, y) && ByTgvName(y, z) ensures ByTgvName(x, z) {
      StrLeTransitive(x.tgvName, y.tgvName, z.tgvName);
    }
  }

  lemma CandidateTgvSorted(employeeId: string, explicit: Option<string>, registry: seq<Benchmark>,
                           facts: seq<FactRow>)
    ensures Sorted(CandidateTgv(employeeId, explicit, registry, facts), ByTgvName)
  {
    var mine := EmployeeFacts(facts, employeeId);
    ByTgvNameOrder();
    SortSorted(TgvRows(mine, TgvKeys(ResolveScope(explicit, registry), mine)), ByTgvName);
  }

  lemma CandidateTgvMembers(employeeId: string, explicit: Option<string>, registry: seq<Benchmark>,
                            facts: seq<FactRow>, r: TgvRow)
    ensures var scope := ResolveScope(explicit, registry);
      var mine := EmployeeFacts(facts, employeeId);
      r in CandidateTgv(employeeId, explicit, registry, facts) <==>
        exists a :: a in mine && InScope(scope, a) && r == TgvRowOf(mine, TgvKeyOf(a))
  {
    var scope := ResolveScope(explicit, registry);
    var mine := EmployeeFacts(facts, employeeId);
    var keys := TgvKeys(scope, mine);
    SortMembers(TgvRows(mine, keys), ByTgvName);
    TgvRowsMembers(mine, keys, r);
    if k :| k in keys && TgvRowOf(mine, k) == r {
      TgvKeysMembers(scope, mine, k);
      var a :| a in mine && TgvKeyOf(a) == k;
      assert InScope(scope, a);
    }
    if a :| a in mine && InScope(scope, a) && r == TgvRowOf(mine, TgvKeyOf(a)) {
      TgvKeysMembers(scope, mine, TgvKeyOf(a));
      assert TgvKeyOf(a) in keys;
    }
  }

  /** The columns a row of the group breakdown is grouped by, besides the vacancy. */
  function TgvRowGroup(r: TgvRow): (string, string, string, string, string) {
    (r.employeeId, r.directorate, r.role, r.grade, r.tgvName)
  }

  /** `group by` gives one row per group: no two rows of the breakdown share their group columns. */
  lemma CandidateTgvDistinct(employeeId: string, explicit: Option<string>, registry: seq<Benchmark>,
                             facts: seq<FactRow>)
    ensures var rows := CandidateTgv(employeeId, explicit, registry, facts);
      && NoDuplicates(rows)
      && forall i, j :: 0 <= i < j < |rows| ==> TgvRowGroup(rows[i]) != TgvRowGroup(rows[j])
  {
    var scope := ResolveScope(explicit, registry);
    var mine := EmployeeFacts(facts, employeeId);
    var keys := TgvKeys(scope, mine);
    FilterNoDuplicates(Distinct(Map(mine, TgvKeyOf)), (k: TgvKey) => scope == Some(k.vacancyId));
    TgvRowsDistinct(mine, keys);
    var unsorted := TgvRows(mine, keys);
    NoDuplicatesPermutation(unsorted, Sort(unsorted, ByTgvName));
    DistinctKeysPermutation(unsorted, Sort(unsorted, ByTgvName), TgvRowGroup);
  }

  /** Distinct keys of one vacancy give rows that differ in their group columns. */
  lemma TgvRowsDistinct(mine: seq<FactRow>, keys: seq<TgvKey>)
    requires NoDuplicates(keys)
    requires forall i, j :: 0 <= i < j < |keys| ==> keys[i].vacancyId == keys[j].vacancyId
    ensures var rows := TgvRows(mine, keys);
      forall i, j :: 0 <= i < j < |rows| ==> TgvRowGroup(rows[i]) != TgvRowGroup(rows[j])
  {
    var rows := TgvRows(mine, keys);
    forall i, j | 0 <= i < j < |rows| ensures TgvRowGroup(rows[i]) != TgvRowGroup(rows[j]) {
      assert keys[i] != keys[j];
    }
  }

  /**
   * Each row of the group breakdown is the employee's in-scope group named by the
   * row: its rate is the mean of the non-NULL TV match rates of the fact rows with
   * that vacancy, employee, directorate, role, grade and group name, and there is at
   * least one such row.
   */
  lemma CandidateTgvRates(employeeId: string, explicit: Option<string>, registry: seq<Benchmark>,
                          facts: seq<FactRow>)
    ensures var scope := ResolveScope(explicit, registry);
      forall r :: r in CandidateTgv(employeeId, explicit, registry, facts) ==>
        && scope.Some?
        && r.employeeId == employeeId
        && var g := TgvGroup(facts, TgvKey(scope.value, employeeId, r.directorate, r.role, r.grade, r.tgvName));
        && g != []
        && r.tgvMatchRate == Avg(TvRates(g))
  {
    var scope := ResolveScope(explicit, registry);
    var mine := EmployeeFacts(facts, employeeId);
    forall r | r in CandidateTgv(employeeId, explicit, registry, facts)
      ensures && scope.Some?
              && r.employeeId == employeeId
              && var g := TgvGroup(facts, TgvKey(scope.value, employeeId, r.directorate, r.role, r.grade, r.tgvName));
              && g != []
              && r.tgvMatchRate == Avg(TvRates(g))
    {
      CandidateTgvMembers(employeeId, explicit, registry, facts, r);
      var a :| a in mine && InScope(scope, a) && r == TgvRowOf(mine, TgvKeyOf(a));
      var k := TgvKeyOf(a);
      assert k == TgvKey(scope.value, employeeId, r.directorate, r.role, r.grade, r.tgvName);
      FilterNarrow(facts, (a: FactRow) => a.employeeId == employeeId, (a: FactRow) => TgvKeyOf(a) == k);
      assert a in TgvGroup(facts, k);
    }
  }

  /** When every TV match rate lies in [0, 1], so does every recomputed group rate. */
  lemma CandidateTgvBounds(employeeId: string, explicit: Option<string>, registry: seq<Benchmark>,
                           facts: seq<FactRow>)
    requires forall i :: 0 <= i < |facts| && facts[i].tvMatchRate.Some? ==> 0.0 <= facts[i].tvMatchRate.value <= 1.0
    ensures forall r :: r in CandidateTgv(employeeId, explicit, registry, facts) && r.tgvMatchRate.Some? ==>
      0.0 <= r.tgvMatchRate.value <= 1.0
  {
    var scope := ResolveScope(explicit, registry);
    CandidateTgvRates(employeeId, explicit, registry, facts);
    forall r | r in CandidateTgv(employeeId, explicit, registry, facts) && r.tgvMatchRate.Some?
      ensures 0.0 <= r.tgvMatchRate.value <= 1.0
    {
      var g := TgvGroup(facts, TgvKey(scope.value, employeeId, r.directorate, r.role, r.grade, r.tgvName));
      forall i | 0 <= i < |g| ensures g[i] in facts {
        assert g[i] in g;
      }
      AvgBounds(TvRates(g), 0.0, 1.0);
    }
  }

  /** The group breakdown is empty exactly when the employee has no fact row in scope. */
  lemma CandidateTgvEmpty(employeeId: string, explicit: Option<string>, registry: seq<Benchmark>,
                          facts: seq<FactRow>)
    ensures CandidateTgv(employeeId, explicit, registry, facts) == [] <==>
      forall a :: a in facts && a.employeeId == employeeId ==> !InScope(ResolveScope(explicit, registry), a)
  {
    var scope := ResolveScope(explicit, registry);
    var mine := EmployeeFacts(facts, employeeId);
    var result := CandidateTgv(employeeId, explicit, registry, facts);
    if a :| a in facts && a.employeeId == employeeId && InScope(scope, a) {
      CandidateTgvMembers(employeeId, explicit, registry, facts, TgvRowOf(mine, TgvKeyOf(a)));
      assert TgvRowOf(mine, TgvKeyOf(a)) in result;
    }
    if result != [] {
      CandidateTgvMembers(employeeId, explicit, registry, facts, result[0]);
    }
  }

  /* ------------------------------------------------------- variable breakdown */

  datatype TvRow = TvRow(tvName: string, baselineScore: Option<real>, userScore: Option<real>, tvMatchRate: Option<real>)

  function TvRowOf(a: FactRow): TvRow {
    TvRow(a.tvName, a.baselineScore, a.userScore, a.tvMatchRate)
  }

  /** `order by a.tv_name`. */
  predicate ByTvName(x: TvRow, y: TvRow) {
    StrLe(x.tvName, y.tvName)
  }

  /** The in-scope fact rows of one employee and one talent group. */
  function TvSource(scope: Option<string>, employeeId: string, tgvName: string, facts: seq<FactRow>): seq<FactRow> {
    Filter(facts, a => InScope(scope, a) && a.employeeId == employeeId && a.tgvName == tgvName)
  }

  /** `fetch_candidate_tv`: the matching fact rows, projected and ordered, without aggregation. */
  function CandidateTv(employeeId: string, tgvName: string, explicit: Option<string>,
                       registry: seq<Benchmark>, facts: seq<FactRow>): seq<TvRow> {
    Sort(Map(TvSource(ResolveScope(explicit, registry), employeeId, tgvName, facts), TvRowOf), ByTvName)
  }

  lemma ByTvNameOrder()
    ensures TotalPreorder(ByTvName)
  {
    forall x: TvRow, y: TvRow ensures ByTvName(x, y) || ByTvName(y, x) {
      StrLeTotal(x.tvName, y.tvName);
    }
    forall x: TvRow, y: TvRow, z: TvRow | ByTvName(x, y) && ByTvName(y, z) ensures ByTvName(x, z) {
      StrLeTransitive(x.tvName, y.tvName, z.tvName);
    }
  }

  /**
   * The variable breakdown holds one row per matching in-scope fact row (a permutation
   * of their projections, so as many rows as there are such facts), ordered by TV name.
   */
  lemma CandidateTvRows(employeeId: string, tgvName: string, explicit: Option<string>,
                        registry: seq<Benchmark>, facts: seq<FactRow>)
    ensures var src := TvSource(ResolveScope(explicit, registry), employeeId, tgvName, facts);
      var rows := CandidateTv(employeeId, tgvName, explicit, registry, facts);
      && multiset(rows) == multiset(Map(src, TvRowOf))
      && |rows| == |src|
      && Sorted(rows, ByTvName)
      && (forall r :: r in rows <==>
            exists a :: a in facts && InScope(ResolveScope(explicit, registry), a) &&
              a.employeeId == employeeId && a.tgvName == tgvName && TvRowOf(a) == r)
  {
    var src := TvSource(ResolveScope(explicit, registry), employeeId, tgvName, facts);
    ByTvNameOrder();
    SortSorted(Map(src, TvRowOf), ByTvName);
    forall r ensures r in CandidateTv(employeeId, tgvName, explicit, registry, facts) <==>
        exists a :: a in facts && InScope(ResolveScope(explicit, registry), a) &&
          a.employeeId == employeeId && a.tgvName == tgvName && TvRowOf(a) == r {
      CandidateTvMember(employeeId, tgvName, explicit, registry, facts, r);
    }
  }

  lemma CandidateTvMember(employeeId: string, tgvName: string, explicit: Option<string>,
                          registry: seq<Benchmark>, facts: seq<FactRow>, r: TvRow)
    ensures r in CandidateTv(employeeId, tgvName, explicit, registry, facts) <==>
      exists a :: a in facts && InScope(ResolveScope(explicit, registry), a) &&
        a.employeeId == employeeId && a.tgvName == tgvName && TvRowOf(a) == r
  {
    var src := TvSource(ResolveScope(explicit, registry), employeeId, tgvName, facts);
    SortMembers(Map(src, TvRowOf), ByTvName);
    MapMembers(src, TvRowOf, r);
  }

  /* ------------------------------------------------------------- distribution */

  datatype DistRow = DistRow(employeeId: string, finalMatchRate: Option<real>)

  function DistRowOf(a: FactRow): DistRow {
    DistRow(a.employeeId, a.finalMatchRate)
  }

  /** `fetch_distribution`: `select distinct employee_id, final_match_rate` over the scope. */
  function Distribution(explicit: Option<string>, registry: seq<Benchmark>, facts: seq<FactRow>): seq<DistRow> {
    Distinct(Map(Scoped(ResolveScope(explicit, registry), facts), DistRowOf))
  }

  /** Distinct pairs, exactly those of the in-scope fact rows. */
  lemma DistributionRows(explicit: Option<string>, registry: seq<Benchmark>, facts: seq<FactRow>)
    ensures var rows := Distribution(explicit, registry, facts);
      && NoDuplicates(rows)
      && forall d :: d in rows <==>
           exists a :: a in facts && InScope(ResolveScope(explicit, registry), a) && DistRowOf(a) == d
  {
    var src := Scoped(ResolveScope(explicit, registry), facts);
    forall d ensures d in Map(src, DistRowOf) <==> exists a :: a in src && DistRowOf(a) == d {
      MapMembers(src, DistRowOf, d);
    }
  }

  /** Every in-scope fact row of an employee carries the same final rate. */
  predicate FinalPerEmployee(rows: seq<FactRow>) {
    forall a, b :: a in rows && b in rows && a.employeeId == b.employeeId ==> a.finalMatchRate == b.finalMatchRate
  }

  /** With one final rate per employee, the distribution has one row per distinct in-scope employee. */
  lemma DistributionCount(explicit: Option<string>, registry: seq<Benchmark>, facts: seq<FactRow>)
    requires FinalPerEmployee(Scoped(ResolveScope(explicit, registry), facts))
    ensures |Distribution(explicit, registry, facts)| ==
      |Distinct(Map(Scoped(ResolveScope(explicit, registry), facts), (a: FactRow) => a.employeeId))|
  {
    var src := Scoped(ResolveScope(explicit, registry), facts);
    var pairs := Map(src, DistRowOf);
    var emp := (d: DistRow) => d.employeeId;
    forall x, y | x in pairs && y in pairs && emp(x) == emp(y) ensures x == y {
      MapMembers(src, DistRowOf, x);
      MapMembers(src, DistRowOf, y);
    }
    DistinctMap(pairs, emp);
    assert Map(pairs, emp) == Map(src, (a: FactRow) => a.employeeId);
  }

  /* ----------------------------------------------------------------- fairness */

  datatype FairKey = FairKey(grade: string, education: string, major: string)

  datatype FairRow = FairRow(grade: string, education: string, major: string, avgMatch: Option<real>)

  function FairKeyOf(j: Joined): FairKey {
    FairKey(j.fact.grade, j.org.education, j.org.major)
  }

  function FairGroup(js: seq<Joined>, k: FairKey): seq<Joined> {
    Filter(js, j => FairKeyOf(j) == k)
  }

  function FairRowOf(js: seq<Joined>, k: FairKey): FairRow {
    FairRow(k.grade, k.education, k.major, Avg(Finals(FairGroup(js, k))))
  }

  /** `order by a.grade, e.education, e.major`. */
  predicate ByFairKey(x: FairRow, y: FairRow) {
    || StrLt(x.grade, y.grade)
    || (x.grade == y.grade && (StrLt(x.education, y.education) ||
                               (x.education == y.education && StrLe(x.major, y.major))))
  }

  /** The joined rows fairness aggregates. */
  function FairSource(explicit: Option<string>, registry: seq<Benchmark>,
                      facts: seq<FactRow>, org: seq<OrgRow>): seq<Joined> {
    JoinOrg(Scoped(ResolveScope(explicit, registry), facts), org)
  }

  /**
   * `fetch_fairness`: the mean final rate per (grade, education, major), taken over
   * joined fact rows, so an employee with more rows weighs more.
   */
  function Fairness(explicit: Option<string>, registry: seq<Benchmark>,
                    facts: seq<FactRow>, org: seq<OrgRow>): seq<FairRow> {
    var js := FairSource(explicit, registry, facts, org);
    Sort(Map(Distinct(Map(js, FairKeyOf)), k => FairRowOf(js, k)), ByFairKey)
  }

  lemma ByFairKeyOrder()
    ensures TotalPreorder(ByFairKey)
  {
    forall x: FairRow, y: FairRow ensures ByFairKey(x, y) || ByFairKey(y, x) {
      StrLtTotal(x.grade, y.grade);
      StrLtTotal(x.education, y.education);
      StrLeTotal(x.major, y.major);
    }
    forall x: FairRow, y: FairRow, z: FairRow | ByFairKey(x, y) && ByFairKey(y, z) ensures ByFairKey(x, z) {
      StrLeReflexive(y.grade);
      StrLeReflexive(y.education);
      if x.grade != y.grade || y.grade != z.grade {
        StrLtLe(x.grade, y.grade, z.grade);
      } else if x.education != y.education || y.education != z.education {
        StrLtLe(x.education, y.education, z.education);
      } else {
        StrLeTransitive(x.major, y.major, z.major);
      }
    }
  }

  /**
   * Fairness rows are ordered by (grade, education, major), one per key; each stands
   * for a non-empty group of in-scope joined rows and holds the SQL `avg` of their
   * final rates.
   */
  lemma FairnessRows(explicit: Option<string>, registry: seq<Benchmark>,
                     facts: seq<FactRow>, org: seq<OrgRow>)
    ensures var js := FairSource(explicit, registry, facts, org);
      var rows := Fairness(explicit, registry, facts, org);
      && Sorted(rows, ByFairKey)
      && (forall r :: r in rows ==>
            var g := FairGroup(js, FairKey(r.grade, r.education, r.major));
            g != [] && r.avgMatch == Avg(Finals(g)))
      && (forall i, j :: 0 <= i < j < |rows| ==>
            FairKey(rows[i].grade, rows[i].education, rows[i].major) !=
            FairKey(rows[j].grade, rows[j].education, rows[j].major))
      && (forall j :: j in js ==> FairRowOf(js, FairKeyOf(j)) in rows)
  {
    FairnessComplete(explicit, registry, facts, org);
    var js := FairSource(explicit, registry, facts, org);
    var keys := Distinct(Map(js, FairKeyOf));
    var unsorted := Map(keys, k => FairRowOf(js, k));
    var rows := Fairness(explicit, registry, facts, org);
    ByFairKeyOrder();
    SortSorted(unsorted, ByFairKey);
    SortMembers(unsorted, ByFairKey);
    forall r | r in rows
      ensures var k := FairKey(r.grade, r.education, r.major);
        FairGroup(js, k) != [] && r == FairRowOf(js, k)
    {
      MapMembers(keys, k => FairRowOf(js, k), r);
      var k :| k in keys && FairRowOf(js, k) == r;
      MapMembers(js, FairKeyOf, k);
      var j :| j in js && FairKeyOf(j) == k;
      assert j in FairGroup(js, k);
    }
    forall i, j | 0 <= i < j < |unsorted| ensures unsorted[i] != unsorted[j] {
      assert unsorted[i] == FairRowOf(js, keys[i]);
    }
    NoDuplicatesPermutation(unsorted, rows);
    forall i, j | 0 <= i < j < |rows|
      ensures FairKey(rows[i].grade, rows[i].education, rows[i].major) !=
              FairKey(rows[j].grade, rows[j].education, rows[j].major)
    {
      assert rows[i] in rows && rows[j] in rows;
    }
  }

  /** Every (grade, education, major) group of in-scope joined rows has its row. */
  lemma FairnessComplete(explicit: Option<string>, registry: seq<Benchmark>,
                         facts: seq<FactRow>, org: seq<OrgRow>)
    ensures var js := FairSource(explicit, registry, facts, org);
      forall j :: j in js ==> FairRowOf(js, FairKeyOf(j)) in Fairness(explicit, registry, facts, org)
  {
    var js := FairSource(explicit, registry, facts, org);
    var keys := Distinct(Map(js, FairKeyOf));
    var unsorted := Map(keys, k => FairRowOf(js, k));
    SortMembers(unsorted, ByFairKey);
    forall j | j in js ensures FairRowOf(js, FairKeyOf(j)) in unsorted {
      MapMembers(js, FairKeyOf, FairKeyOf(j));
      MapMembers(keys, k => FairRowOf(js, k), FairRowOf(js, FairKeyOf(j)));
    }
  }

  /** When every final rate lies in [0, 1], so does every fairness average. */
  lemma FairnessBounds(explicit: Option<string>, registry: seq<Benchmark>,
                       facts: seq<FactRow>, org: seq<OrgRow>)
    requires forall i :: 0 <= i < |facts| && facts[i].finalMatchRate.Some? ==> 0.0 <= facts[i].finalMatchRate.value <= 1.0
    ensures forall r :: r in Fairness(explicit, registry, facts, org) && r.avgMatch.Some? ==> 0.0 <= r.avgMatch.value <= 1.0
  {
    var js := FairSource(explicit, registry, facts, org);
    FairnessRows(explicit, registry, facts, org);
    forall r | r in Fairness(explicit, registry, facts, org) && r.avgMatch.Some?
      ensures 0.0 <= r.avgMatch.value <= 1.0
    {
      var g := FairGroup(js, FairKey(r.grade, r.education, r.major));
      forall i | 0 <= i < |g| ensures g[i].fact in facts {
        assert g[i] in g;
      }
      AvgBounds(Finals(g), 0.0, 1.0);
    }
  }

  /* --------------------------------------------------------------- no scope */

  /** With no explicit vacancy and an empty registry the scope is NULL and every query returns no rows. */
  lemma NoScopeNoRows(limit: nat, employeeId: string, tgvName: string,
                      facts: seq<FactRow>, org: seq<OrgRow>)
    ensures Leaderboard(limit, None, [], facts, org) == []
    ensures CandidateTgv(employeeId, None, [], facts) == []
    ensures CandidateTv(employeeId, tgvName, None, [], facts) == []
    ensures Distribution(None, [], facts) == []
    ensures Fairness(None, [], facts, org) == []
  {
    FilterNone(facts, a => InScope(None, a));
    assert LeaderRows([]) == [];
    FilterNone(facts, a => InScope(None, a) && a.employeeId == employeeId && a.tgvName == tgvName);
    var keys := Distinct(Map(EmployeeFacts(facts, employeeId), TgvKeyOf));
    FilterNone(keys, (k: TgvKey) => None == Some(k.vacancyId));
  }
}
