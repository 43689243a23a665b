/**
 * The parameters of the integer program assembled from the league's slot configuration,
 * the week, the rostering team and the scraped table (ffbot/optimizer.py, "Game rules" and
 * "Pre-process data"): the `Instance` the re-solve loop works on.
 */
module Problem {
  import opened Wrappers
  import opened Eligibility
  import opened Parameters
  import opened Assignment

  /** `df["Position"]`, whose distinct values are the position strings of the player pool. */
  function PoolPositions(rows: seq<Row>): (positions: seq<string>)
    ensures |positions| == |rows|
  {
    seq(|rows|, i requires 0 <= i < |rows| => rows[i].position)
  }

  /** `order` is an iteration order of `PLAYERS`: every identifier of the table, once. */
  predicate Enumerates(order: seq<int>, rows: seq<Row>)
  {
    (forall k, l :: 0 <= k < l < |order| ==> order[k] != order[l]) &&
    (forall k :: 0 <= k < |order| ==> order[k] in Ids(rows)) &&
    (forall id :: id in Ids(rows) ==> id in order)
  }

  /** The program's view of one player from the record the parameter loop kept. */
  function ToPlayer(d: PlayerData, slots: set<string>, times: seq<int>): (p: Player)
    requires forall k :: 0 <= k < |times| ==> times[k] in d.projections
    ensures |p.projections| == |times|
  {
    Player(d.name, d.position, d.owner, d.roster0, d.freeAgent, d.available, slots,
           seq(|times|, k requires 0 <= k < |times| => d.projections[times[k]]), d.vor)
  }

  /** What the program holds about the player of `row`: its cells, its flags for `team` and
      a projection per week of the horizon `times`. */
  ghost predicate ValuesOf(p: Player, row: Row, times: seq<int>, team: int)
    requires HasWeeks(row, times)
  {
    p.name == row.name && p.position == row.position && p.owner == row.owner && p.vor == row.vor &&
    (p.roster0 <==> row.ownerId == Some(team)) &&
    (p.available <==> row.ownerId.None?) &&
    (p.freeAgent <==> row.ownerId.None? && row.owner == FreeAgentOwner) &&
    p.projections == seq(|times|, k requires 0 <= k < |times| => row.weeks[times[k]])
  }

  /** The slots of the player of `row`: the league's labels its position may fill, the
      bench, and IR when its status names a reserve designation. */
  ghost predicate SlotsOf(slots: set<string>, row: Row, labels: seq<string>)
  {
    forall n :: n in slots <==>
      n in labels && (n in ComponentSlots(Filtered(labels), row.position) || n == "BN" ||
                      (n == "IR" && ReserveEligible(row.status)))
  }

  /** The player of `row`, with its values and its slots. */
  ghost predicate FromRow(p: Player, row: Row, labels: seq<string>, times: seq<int>, team: int)
  {
    HasWeeks(row, times) && ValuesOf(p, row, times, team) && SlotsOf(p.slots, row, labels)
  }

  /** Lines 34-119: the slot labels and their counts, the eligibility table, the horizon and
      its discounts, the per-player values and the player-to-slot pairs, gathered into one
      instance whose `k`-th player is the one of the last row with identifier `order[k]`;
      a missing "Week t" column is reported with its week. */
  method BuildInstance(config: string, week: int, team: int, rows: seq<Row>, order: seq<int>)
    returns (r: Result<Instance, int>)
    requires Enumerates(order, rows)
    ensures r.Success? <==> forall i :: 0 <= i < |rows| ==> HasWeeks(rows[i], Horizon(week))
    ensures r.Failure? ==> r.error in Horizon(week) && exists i :: 0 <= i < |rows| && r.error !in rows[i].weeks
    ensures r.Success? ==> WellFormed(r.value)
    ensures r.Success? ==>
      r.value.positions == Distinct(SlotLabels(config)) && r.value.capacity == Capacity(SlotLabels(config))
    ensures r.Success? ==> |r.value.discounts| == |Horizon(week)|
    ensures r.Success? ==> forall k :: 0 <= k < |r.value.discounts| ==> r.value.discounts[k] == Factor(k)
    ensures r.Success? ==> |r.value.players| == |order|
    ensures r.Success? ==> forall k :: 0 <= k < |order| ==>
      FromRow(r.value.players[k], rows[LastIndex(rows, order[k])], SlotLabels(config), Horizon(week), team)
  {
    var labels := SlotLabels(config);
    var times := Horizon(week);
    var table := ResolveEligibility(labels, PoolPositions(rows));
    var built := BuildPlayers(rows, times, team);
    if built.Failure? {
      return Failure(built.error);
    }
    KeptRecords(rows, order, built.value, table, times, team);
    var inst := Assemble(labels, times, team, rows, order, table, built.value);
    r := Success(inst);
  }

  /** Lines 96-119 once the records are kept: the pairs, then the instance. */
  method Assemble(labels: seq<string>, times: seq<int>, team: int, rows: seq<Row>, order: seq<int>,
                  table: map<string, set<string>>, players: map<int, PlayerData>) returns (inst: Instance)
    requires forall i, j :: 0 <= i < j < |times| ==> times[i] < times[j]
    requires forall k :: 0 <= k < |order| ==> order[k] in Ids(rows)
    requires Resolved(Filtered(labels), table)
    requires forall k :: 0 <= k < |order| ==> order[k] in players && players[order[k]].position in table
    requires forall k :: 0 <= k < |order| ==> Describes(players[order[k]], rows[LastIndex(rows, order[k])], times, team)
    ensures WellFormed(inst)
    ensures inst.positions == Distinct(labels) && inst.capacity == Capacity(labels)
    ensures |inst.discounts| == |times| && forall k :: 0 <= k < |times| ==> inst.discounts[k] == Factor(k)
    ensures |inst.players| == |order|
    ensures forall k :: 0 <= k < |order| ==>
      FromRow(inst.players[k], rows[LastIndex(rows, order[k])], labels, times, team)
  {
    var positions := Distinct(labels);
    var pairs := PositionPairs(order, players, table, positions);
    var all := AddBenchAndReserve(order, players, pairs);
    forall k | 0 <= k < |order|
      ensures forall j :: 0 <= j < |times| ==> times[j] in players[order[k]].projections
      ensures FromRow(ToPlayer(players[order[k]], PlayerSlots(order[k], positions, all), times),
                      rows[LastIndex(rows, order[k])], labels, times, team)
    {
      PlayerFromRow(order, players, table, labels, all, times, team, rows[LastIndex(rows, order[k])], k);
    }
    var ps := seq(|order|, k requires 0 <= k < |order| =>
      ToPlayer(players[order[k]], PlayerSlots(order[k], positions, all), times));
    inst := Instance(ps, positions, Capacity(labels), Weights(times));
    forall k | 0 <= k < |order|
      ensures |ps[k].projections| == |times| && !(ps[k].roster0 && ps[k].available) &&
              (ps[k].freeAgent ==> ps[k].available)
    {
      FlagsOf(ps[k], rows[LastIndex(rows, order[k])], labels, times, team);
    }
    InDistinct(labels);
  }

  /** `Discounts` laid out along the horizon: week `k` of it gets factor `k`. */
  function Weights(times: seq<int>): (w: seq<real>)
    requires forall i, j :: 0 <= i < j < |times| ==> times[i] < times[j]
    ensures |w| == |times| && forall k :: 0 <= k < |times| ==> w[k] == Factor(k)
  {
    var discount := Discounts(times);
    seq(|times|, k requires 0 <= k < |times| => discount[times[k]])
  }

  /** The player of a row has a projection per week and consistent flags. */
  lemma FlagsOf(p: Player, row: Row, labels: seq<string>, times: seq<int>, team: int)
    requires FromRow(p, row, labels, times, team)
    ensures |p.projections| == |times| && !(p.roster0 && p.available) && (p.freeAgent ==> p.available)
  {
  }

  /** The `k`-th player, read back: its record gives it the values and slots of its row. */
  lemma PlayerFromRow(order: seq<int>, players: map<int, PlayerData>, table: map<string, set<string>>,
                      labels: seq<string>, all: seq<(int, string)>, times: seq<int>, team: int,
                      row: Row, k: nat)
    requires forall j :: 0 <= j < |order| ==> order[j] in players && players[order[j]].position in table
    requires Resolved(Filtered(labels), table)
    requires forall q, n :: (q, n) in all <==>
      (q, n) in PositionPairs(order, players, table, Distinct(labels)) ||
      (q in order && (n == "BN" || (n == "IR" && ReserveEligible(players[q].status))))
    requires k < |order| && Describes(players[order[k]], row, times, team)
    ensures forall j :: 0 <= j < |times| ==> times[j] in players[order[k]].projections
    ensures FromRow(ToPlayer(players[order[k]], PlayerSlots(order[k], Distinct(labels), all), times),
                    row, labels, times, team)
  {
    PlayerValues(players[order[k]], PlayerSlots(order[k], Distinct(labels), all), row, times, team);
    PlayerSlotsOf(order, players, table, labels, all, row, k);
  }

  /** Every identifier of `order` has a record, and it describes the last row with that
      identifier, whose position the eligibility table covers. */
  lemma KeptRecords(rows: seq<Row>, order: seq<int>, players: map<int, PlayerData>,
                    table: map<string, set<string>>, times: seq<int>, team: int)
    requires forall k :: 0 <= k < |order| ==> order[k] in Ids(rows)
    requires players.Keys == Ids(rows) && LabelSet(PoolPositions(rows)) <= table.Keys
    requires forall i :: 0 <= i < |rows| && LastWithId(rows, i) ==> Describes(players[rows[i].id], rows[i], times, team)
    ensures forall k :: 0 <= k < |order| ==> order[k] in players && players[order[k]].position in table
    ensures forall k :: 0 <= k < |order| ==> Describes(players[order[k]], rows[LastIndex(rows, order[k])], times, team)
  {
    forall k | 0 <= k < |order|
      ensures order[k] in players && players[order[k]].position in table
      ensures Describes(players[order[k]], rows[LastIndex(rows, order[k])], times, team)
    {
      var i := LastIndex(rows, order[k]);
      assert PoolPositions(rows)[i] in LabelSet(PoolPositions(rows));
    }
  }

  /** The index of the last row with identifier `id`, whose values the parameter loop keeps. */
  function LastIndex(rows: seq<Row>, id: int): (i: nat)
    requires id in Ids(rows)
    ensures i < |rows| && rows[i].id == id && LastWithId(rows, i)
  {
    if rows[|rows| - 1].id == id then |rows| - 1
    else
      var init := rows[..|rows| - 1];
      assert id in Ids(init) by {
        var j :| 0 <= j < |rows| && rows[j].id == id;
        assert init[j].id == id;
      }
      LastIndex(init, id)
  }

  /** A record that describes a row becomes a player with that row's values. */
  lemma PlayerValues(d: PlayerData, slots: set<string>, row: Row, times: seq<int>, team: int)
    requires Describes(d, row, times, team)
    ensures forall k :: 0 <= k < |times| ==> times[k] in d.projections
    ensures HasWeeks(row, times) && ValuesOf(ToPlayer(d, slots, times), row, times, team)
  {
    assert ProjectionsOf(row, times, d.projections);
    forall j | 0 <= j < |times|
      ensures times[j] in d.projections && times[j] in row.weeks && d.projections[times[j]] == row.weeks[times[j]]
    {
      var t := times[j];
      assert t in d.projections;
      assert t in row.weeks && d.projections[t] == row.weeks[t];
    }
  }

  /** The slots of the `k`-th player, read back over the pairs of lines 101-112. */
  lemma PlayerSlotsOf(order: seq<int>, players: map<int, PlayerData>, table: map<string, set<string>>,
                      labels: seq<string>, all: seq<(int, string)>, row: Row, k: nat)
    requires forall j :: 0 <= j < |order| ==> order[j] in players && players[order[j]].position in table
    requires Resolved(Filtered(labels), table)
    requires forall q, n :: (q, n) in all <==>
      (q, n) in PositionPairs(order, players, table, Distinct(labels)) ||
      (q in order && (n == "BN" || (n == "IR" && ReserveEligible(players[q].status))))
    requires k < |order| && players[order[k]].position == row.position && players[order[k]].status == row.status
    ensures SlotsOf(PlayerSlots(order[k], Distinct(labels), all), row, labels)
  {
    SlotsOfPlayer(order, players, table, Distinct(labels), all, order[k]);
    InDistinct(labels);
  }

  /** A label is one of `PositionMax.keys()` exactly when it occurs in the configuration. */
  lemma InDistinct(labels: seq<string>)
    ensures forall n :: n in Distinct(labels) <==> n in labels
  {
    forall n ensures n in Distinct(labels) <==> n in labels {
      var keys := Distinct(labels);
      if n in keys {
        var k :| 0 <= k < |keys| && keys[k] == n;
        assert n in LabelSet(keys);
      }
      if n in labels {
        var k :| 0 <= k < |labels| && labels[k] == n;
        assert n in LabelSet(labels);
      }
    }
  }
}
