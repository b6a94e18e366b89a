/**
 * The benchmark registry (`config.talent_benchmarks`): an append-only table of
 * job vacancies, each naming the benchmark employees chosen for a role, and the
 * scope rule every dashboard query shares — use the vacancy id the caller gave,
 * otherwise the vacancy of the newest benchmark.
 */
module Registry {
  import opened Wrappers

  /** The JSON document stored in `weights_config`; it is stored as given. */
  datatype Json =
    | JNull
    | JBool(b: bool)
    | JNum(n: real)
    | JStr(s: string)
    | JArr(items: seq<Json>)
    | JObj(fields: seq<(string, Json)>)

  /** One row of the registry; `createdAt` is the database's insertion timestamp. */
  datatype Benchmark = Benchmark(
    vacancyId: string,
    roleName: string,
    jobLevel: string,
    rolePurpose: string,
    selectedIds: seq<nat>,
    weights: Json,
    createdAt: nat)

  /** No row carries the vacancy id `id` yet. */
  predicate IsFreshId(id: string, rows: seq<Benchmark>) {
    forall i :: 0 <= i < |rows| ==> rows[i].vacancyId != id
  }

  /** Vacancy ids identify rows. */
  predicate UniqueIds(rows: seq<Benchmark>) {
    forall i, j :: 0 <= i < j < |rows| ==> rows[i].vacancyId != rows[j].vacancyId
  }

  /** Rows appear in strictly increasing order of creation time. */
  predicate Chronological(rows: seq<Benchmark>) {
    forall i, j :: 0 <= i < j < |rows| ==> rows[i].createdAt < rows[j].createdAt
  }

  /**
   * The position `order by created_at desc limit 1` picks: a row whose `createdAt`
   * no row exceeds. Equal timestamps, which the query leaves unordered, go to the
   * row inserted last.
   */
  function NewestIndex(rows: seq<Benchmark>): (k: nat)
    requires |rows| > 0
    ensures k < |rows|
    ensures forall i :: 0 <= i < |rows| ==> rows[i].createdAt <= rows[k].createdAt
    ensures forall i :: k < i < |rows| ==> rows[i].createdAt < rows[k].createdAt
    decreases |rows|
  {
    if |rows| == 1 then 0
    else
      var k := NewestIndex(rows[..|rows| - 1]);
      if rows[k].createdAt <= rows[|rows| - 1].createdAt then |rows| - 1 else k
  }

  /** The vacancy id of the newest benchmark, if there is any benchmark at all. */
  function Latest(rows: seq<Benchmark>): (id: Option<string>)
    ensures id.None? <==> rows == []
    ensures id.Some? ==>
      (exists k :: 0 <= k < |rows| && rows[k].vacancyId == id.value &&
        (forall i :: 0 <= i < |rows| ==> rows[i].createdAt <= rows[k].createdAt))
  {
    if rows == [] then None else Some(rows[NewestIndex(rows)].vacancyId)
  }

  /**
   * `coalesce(explicit, newest vacancy id)`: the explicit id is taken verbatim, with
   * no check that such a benchmark exists.
   */
  function ResolveScope(explicit: Option<string>, rows: seq<Benchmark>): (scope: Option<string>)
    ensures explicit.Some? ==> scope == explicit
    ensures scope.None? <==> explicit.None? && rows == []
  {
    if explicit.Some? then explicit else Latest(rows)
  }

  /** In a chronological registry the newest benchmark is the one appended last. */
  lemma LatestIsLast(rows: seq<Benchmark>)
    requires Chronological(rows) && rows != []
    ensures Latest(rows) == Some(rows[|rows| - 1].vacancyId)
  {
  }

  /** Without an explicit id the scope is the newest vacancy; with no benchmark there is none. */
  lemma ImplicitScope(rows: seq<Benchmark>)
    requires Chronological(rows)
    ensures rows == [] ==> ResolveScope(None, rows) == None
    ensures rows != [] ==> ResolveScope(None, rows) == Some(rows[|rows| - 1].vacancyId)
  {
    if rows != [] {
      LatestIsLast(rows);
    }
  }

  /** Appending a row stamped with the current clock and a fresh id keeps the table valid. */
  lemma AppendNewest(rows: seq<Benchmark>, b: Benchmark, clock: nat)
    requires Chronological(rows) && UniqueIds(rows)
    requires forall i :: 0 <= i < |rows| ==> rows[i].createdAt < clock
    requires IsFreshId(b.vacancyId, rows) && b.createdAt == clock
    ensures Chronological(rows + [b]) && UniqueIds(rows + [b])
    ensures forall i :: 0 <= i < |rows + [b]| ==> (rows + [b])[i].createdAt < clock + 1
  {
    var t := rows + [b];
    assert forall i :: 0 <= i < |rows| ==> t[i] == rows[i];
  }

  /** The registry as the application sees it: its rows and the database clock. */
  class BenchmarkRegistry {
    var rows: seq<Benchmark>
    var clock: nat

    /** Timestamps increase along the table and lie in the past; vacancy ids are unique. */
    ghost predicate Valid()
      reads this
    {
      && Chronological(rows)
      && (forall i :: 0 <= i < |rows| ==> rows[i].createdAt < clock)
      && UniqueIds(rows)
    }

    constructor()
      ensures Valid()
      ensures rows == [] && clock == 0
    {
      rows := [];
      clock := 0;
    }

    /**
     * `upsert_benchmark`: despite its name, always inserts one new row under the
     * freshly generated `newId` and returns that id. The fields and the weights
     * document are stored unchanged and no existing row is touched. The caller only
     * submits a non-empty role name and a non-empty id list.
     */
    method Upsert(roleName: string, jobLevel: string, rolePurpose: string,
                  selectedIds: seq<nat>, weights: Json, newId: string) returns (id: string)
      requires Valid()
      requires roleName != "" && selectedIds != []
      requires IsFreshId(newId, rows)
      modifies this
      ensures Valid()
      ensures rows == old(rows) + [Benchmark(newId, roleName, jobLevel, rolePurpose, selectedIds, weights, old(clock))]
      ensures clock == old(clock) + 1
      ensures id == newId
      ensures ResolveScope(None, rows) == Some(id)
    {
      var b := Benchmark(newId, roleName, jobLevel, rolePurpose, selectedIds, weights, clock);
      AppendNewest(rows, b, clock);
      LatestIsLast(rows + [b]);
      rows := rows + [b];
      clock := clock + 1;
      id := newId;
    }
  }
}
