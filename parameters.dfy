/**
 * Parameter building of the roster optimizer (ffbot/optimizer.py, "Pre-process data"
 * and "create other parameters"): the week horizon, the discount of each week, the
 * per-player flags filled row by row, and the player-to-slot pairs.
 */
module Parameters {
  import opened Wrappers
  import opened Eligibility

  /** `range(week, 18)` ends after week 17, the last week of the regular season. */
  const EndWeek: int := 18

  // ---------------------------------------------------------------------------
  // Horizon and discounts
  // ---------------------------------------------------------------------------

  /** `TIMES`: the weeks from `week` up to and including 17. */
  function Horizon(week: int): (times: seq<int>)
    ensures forall t :: t in times <==> week <= t < EndWeek
    ensures forall i, j :: 0 <= i < j < |times| ==> times[i] < times[j]
    ensures |times| == if week < EndWeek then EndWeek - week else 0
    ensures forall k :: 0 <= k < |times| ==> times[k] == week + k
    decreases EndWeek - week
  {
    if week >= EndWeek then [] else [week] + Horizon(week + 1)
  }

  /** `WEEKLY_POINTS_INTEREST_RATE`. */
  const WeeklyInterestRate: real := 0.4

  function Power(b: real, k: nat): real
  {
    if k == 0 then 1.0 else b * Power(b, k - 1)
  }

  lemma {:induction false} PowerAtLeastOne(b: real, k: nat)
    requires b >= 1.0
    ensures Power(b, k) >= 1.0
  {
    if k > 0 {
      PowerAtLeastOne(b, k - 1);
    }
  }

  /** `1 / (1 + rate) ** k`, computed exactly. */
  function Factor(k: nat): (r: real)
    ensures 0.0 < r <= 1.0
  {
    PowerAtLeastOne(1.0 + WeeklyInterestRate, k);
    1.0 / Power(1.0 + WeeklyInterestRate, k)
  }

  /** The first week of the horizon is not discounted, and every later week weighs less. */
  lemma FactorLaw(k: nat)
    ensures Factor(0) == 1.0
    ensures Factor(k + 1) < Factor(k)
  {
    var p := Power(1.0 + WeeklyInterestRate, k);
    PowerAtLeastOne(1.0 + WeeklyInterestRate, k);
    assert Power(1.0 + WeeklyInterestRate, k + 1) == 1.4 * p;
    assert 1.0 / (1.4 * p) < 1.0 / p;
  }

  /** `Discounts`: the week at position `k` of the horizon gets factor `k` (`enumerate`). */
  function Discounts(times: seq<int>): map<int, real>
    requires forall i, j :: 0 <= i < j < |times| ==> times[i] < times[j]
  {
    map k | 0 <= k < |times| :: times[k] := Factor(k)
  }

  /** Week `t` of the horizon starting at `week` is discounted by exponent `t - week`. */
  lemma DiscountOfWeek(week: int, t: int)
    requires week <= t < EndWeek
    ensures t in Discounts(Horizon(week)) && Discounts(Horizon(week))[t] == Factor(t - week)
  {
    var times := Horizon(week);
    assert times[t - week] == t;
    forall k | 0 <= k < |times| && times[k] == t ensures k == t - week {
    }
  }

  // ---------------------------------------------------------------------------
  // The player table, row by row
  // ---------------------------------------------------------------------------

  /** One row of the scraped table. `None` stands for a missing (NaN) cell; `weeks` holds
      the "Week t" columns that are present. */
  datatype Row = Row(
    id: int, name: string, position: string, ownerId: Option<int>, owner: string,
    status: Option<string>, weeks: map<int, real>, vor: real)

  /** What the optimizer records about one player. */
  datatype PlayerData = PlayerData(
    name: string, position: string, roster0: bool, owner: string, status: Option<string>,
    freeAgent: bool, available: bool, projections: map<int, real>, vor: real)

  /** The value of the "Owner" cell that marks a free agent (as opposed to a waiver claim). */
  const FreeAgentOwner: string := "Free Agent"

  /** The flags of one row for the rostering team `team`. */
  function RowFlags(row: Row, team: int, projections: map<int, real>): (d: PlayerData)
    ensures d.roster0 <==> row.ownerId == Some(team)
    ensures d.available <==> row.ownerId.None?
    ensures d.freeAgent <==> d.available && row.owner == FreeAgentOwner
    ensures !(d.roster0 && d.available)
  {
    PlayerData(row.name, row.position, row.ownerId == Some(team), row.owner, row.status,
               row.ownerId.None? && row.owner == FreeAgentOwner, row.ownerId.None?, projections, row.vor)
  }

  /** Every week of the horizon has a column in this row. */
  predicate HasWeeks(row: Row, times: seq<int>)
  {
    forall k :: 0 <= k < |times| ==> times[k] in row.weeks
  }

  /** `m` holds exactly the row's projections for the weeks of the horizon. */
  predicate ProjectionsOf(row: Row, times: seq<int>, m: map<int, real>)
  {
    (forall k :: 0 <= k < |times| ==> times[k] in m) &&
    (forall t :: t in m ==> t in times && t in row.weeks && m[t] == row.weeks[t])
  }

  /** What the optimizer keeps about the player of `row`. */
  predicate Describes(d: PlayerData, row: Row, times: seq<int>, team: int)
  {
    d == RowFlags(row, team, d.projections) && ProjectionsOf(row, times, d.projections)
  }

  /** No later row has the same identifier, so this row's values are the ones kept. */
  predicate LastWithId(rows: seq<Row>, i: int)
    requires 0 <= i < |rows|
  {
    forall j :: i < j < |rows| ==> rows[j].id != rows[i].id
  }

  function Ids(rows: seq<Row>): set<int>
  {
    set i | 0 <= i < |rows| :: rows[i].id
  }

  /** One more row adds its identifier. */
  lemma IdsExtend(rows: seq<Row>, i: nat)
    requires i < |rows|
    ensures Ids(rows[..i + 1]) == Ids(rows[..i]) + {rows[i].id}
  {
    var a, b := rows[..i], rows[..i + 1];
    forall x | x in Ids(b) ensures x in Ids(a) + {rows[i].id} {
      var j :| 0 <= j < |b| && b[j].id == x;
      if j < i { assert a[j] == b[j]; }
    }
    forall x | x in Ids(a) + {rows[i].id} ensures x in Ids(b) {
      if x == rows[i].id {
        assert b[i] == rows[i];
      } else {
        var j :| 0 <= j < |a| && a[j].id == x;
        assert b[j] == a[j];
      }
    }
  }

  /** Lines 93-94: the projection of every week of the horizon, read from the "Week t" column;
      the first missing column is a `KeyError`, reported with the week it names. */
  method ReadProjections(row: Row, times: seq<int>) returns (r: Result<map<int, real>, int>)
    ensures r.Success? <==> HasWeeks(row, times)
    ensures r.Success? ==> ProjectionsOf(row, times, r.value)
    ensures r.Failure? ==> r.error in times && r.error !in row.weeks
  {
    var projections: map<int, real> := map[];
    var k := 0;
    while k < |times|
      invariant 0 <= k <= |times|
      invariant forall l :: 0 <= l < k ==> times[l] in row.weeks
      invariant forall l :: 0 <= l < k ==> times[l] in projections
      invariant forall t :: t in projections ==> t in times[..k] && t in row.weeks && projections[t] == row.weeks[t]
    {
      var t := times[k];
      if t !in row.weeks {
        return Failure(t);
      }
      assert times[..k + 1] == times[..k] + [t];
      projections := projections[t := row.weeks[t]];
      k := k + 1;
    }
    assert times[..k] == times;
    r := Success(projections);
  }

  /** Lines 81-95: fills the per-player dictionaries row by row; a row seen again for the
      same identifier overwrites the earlier one. */
  method BuildPlayers(rows: seq<Row>, times: seq<int>, team: int) returns (r: Result<map<int, PlayerData>, int>)
    ensures r.Success? <==> forall i :: 0 <= i < |rows| ==> HasWeeks(rows[i], times)
    ensures r.Failure? ==> r.error in times && exists i :: 0 <= i < |rows| && r.error !in rows[i].weeks
    ensures r.Success? ==> r.value.Keys == Ids(rows)
    ensures r.Success? ==> forall i :: 0 <= i < |rows| && LastWithId(rows, i) ==>
      Describes(r.value[rows[i].id], rows[i], times, team)
  {
    var players: map<int, PlayerData> := map[];
    var i := 0;
    while i < |rows|
      invariant 0 <= i <= |rows|
      invariant forall j :: 0 <= j < i ==> HasWeeks(rows[j], times)
      invariant players.Keys == Ids(rows[..i])
      invariant Kept(players, rows, i, times, team)
    {
      var row := rows[i];
      var projections := ReadProjections(row, times);
      if projections.Failure? {
        return Failure(projections.error);
      }
      var d := RowFlags(row, team, projections.value);
      IdsExtend(rows, i);
      KeptStep(players, rows, i, times, team, d);
      players := players[row.id := d];
      i := i + 1;
    }
    assert rows[..i] == rows;
    r := Success(players);
  }

  /** After the first `i` rows, each identifier holds the values of its last row so far. */
  predicate Kept(players: map<int, PlayerData>, rows: seq<Row>, i: nat, times: seq<int>, team: int)
    requires i <= |rows| && players.Keys == Ids(rows[..i])
  {
    forall j :: 0 <= j < i && (forall l :: j < l < i ==> rows[l].id != rows[j].id) ==>
      rows[j].id in players && Describes(players[rows[j].id], rows[j], times, team)
  }

  /** Storing row `i`'s values under its identifier keeps every identifier's last row. */
  lemma KeptStep(players: map<int, PlayerData>, rows: seq<Row>, i: nat, times: seq<int>, team: int, d: PlayerData)
    requires i < |rows| && players.Keys == Ids(rows[..i]) && Ids(rows[..i + 1]) == Ids(rows[..i]) + {rows[i].id}
    requires Kept(players, rows, i, times, team) && Describes(d, rows[i], times, team)
    ensures Kept(players[rows[i].id := d], rows, i + 1, times, team)
  {
    var players' := players[rows[i].id := d];
    forall j | 0 <= j < i + 1 && (forall l :: j < l < i + 1 ==> rows[l].id != rows[j].id)
      ensures rows[j].id in players' && Describes(players'[rows[j].id], rows[j], times, team)
    {
      if j < i {
        assert rows[i].id != rows[j].id;
      }
    }
  }

  // ---------------------------------------------------------------------------
  // Player-to-slot pairs
  // ---------------------------------------------------------------------------

  /** The part of `[(p, n) for p in PLAYERS for n in POSITIONS if n in PossiblePositions[Position[p]]]`
      that belongs to player `p`. */
  function StartingPairs(p: int, eligible: set<string>, positions: seq<string>): (pairs: seq<(int, string)>)
    ensures forall q, n :: (q, n) in pairs <==> q == p && n in positions && n in eligible
  {
    if positions == [] then []
    else
      var rest := StartingPairs(p, eligible, positions[1..]);
      assert forall n :: n in positions <==> n == positions[0] || n in positions[1..];
      if positions[0] in eligible then [(p, positions[0])] + rest else rest
  }

  /** Lines 101-106 for the players in `order` (the iteration order of `PLAYERS`). */
  function PositionPairs(order: seq<int>, players: map<int, PlayerData>, table: map<string, set<string>>,
                         positions: seq<string>): (pairs: seq<(int, string)>)
    requires forall k :: 0 <= k < |order| ==> order[k] in players && players[order[k]].position in table
    ensures forall p, n :: (p, n) in pairs <==>
      p in order && n in positions && n in table[players[p].position]
  {
    if order == [] then []
    else
      var p := order[0];
      var rest := PositionPairs(order[1..], players, table, positions);
      assert forall q :: q in order <==> q == p || q in order[1..];
      StartingPairs(p, table[players[p].position], positions) + rest
  }

  /** Lines 107-112: every player may sit on the bench, and a player whose status names a
      reserve designation may also sit on IR. */
  method AddBenchAndReserve(order: seq<int>, players: map<int, PlayerData>, pairs: seq<(int, string)>)
    returns (all: seq<(int, string)>)
    requires forall k :: 0 <= k < |order| ==> order[k] in players
    ensures forall p, n :: (p, n) in all <==>
      (p, n) in pairs || (p in order && (n == "BN" || (n == "IR" && ReserveEligible(players[p].status))))
  {
    all := pairs;
    var i := 0;
    while i < |order|
      invariant 0 <= i <= |order|
      invariant forall p, n :: (p, n) in all <==>
        (p, n) in pairs || (p in order[..i] && (n == "BN" || (n == "IR" && ReserveEligible(players[p].status))))
    {
      var p := order[i];
      assert forall q :: q in order[..i + 1] <==> q in order[..i] || q == p by {
        assert order[..i + 1] == order[..i] + [p];
      }
      all := all + [(p, "BN")];
      if ReserveEligible(players[p].status) {
        all := all + [(p, "IR")];
      }
      i := i + 1;
    }
    assert order[..i] == order;
  }

  /** Lines 113-119: the slots a player may be assigned to, which are the league's labels
      paired with that player. */
  function PlayerSlots(p: int, positions: seq<string>, pairs: seq<(int, string)>): (slots: set<string>)
    ensures forall n :: n in slots <==> n in positions && (p, n) in pairs
  {
    set n | n in positions && (p, n) in pairs
  }

  /** Over the pairs of lines 101-112, a player's slots are the league's labels that its
      position may fill, the bench, and IR when its status names a reserve designation. */
  lemma SlotsOfPlayer(order: seq<int>, players: map<int, PlayerData>, table: map<string, set<string>>,
                      positions: seq<string>, all: seq<(int, string)>, p: int)
    requires forall k :: 0 <= k < |order| ==> order[k] in players && players[order[k]].position in table
    requires forall q, n :: (q, n) in all <==>
      (q, n) in PositionPairs(order, players, table, positions) ||
      (q in order && (n == "BN" || (n == "IR" && ReserveEligible(players[q].status))))
    requires p in order
    ensures forall n :: n in PlayerSlots(p, positions, all) <==>
      n in positions && (n in table[players[p].position] || n == "BN" ||
                         (n == "IR" && ReserveEligible(players[p].status)))
  {
    var pairs := PositionPairs(order, players, table, positions);
    forall n ensures n in PlayerSlots(p, positions, all) <==>
      n in positions && (n in table[players[p].position] || n == "BN" ||
                         (n == "IR" && ReserveEligible(players[p].status)))
    {
      assert (p, n) in pairs <==> n in positions && n in table[players[p].position];
    }
  }
}
