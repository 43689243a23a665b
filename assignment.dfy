/**
 * The integer program of the roster optimizer (ffbot/optimizer.py, "Define optimization
 * problem" and "Define constraints"): its decision variables as a `Solution`, its
 * constraints as predicates, its objective as sums, and the contract of the solver.
 */
module Assignment {
  import opened Wrappers

  /** What the program knows about one player, indexed by the iteration order of `PLAYERS`. */
  datatype Player = Player(
    name: string, position: string, owner: string, roster0: bool, freeAgent: bool,
    available: bool, slots: set<string>, projections: seq<real>, vor: real)

  /** `slots` are the labels of `POSITIONS` paired with the player (`PlayerPosition`);
      `capacity` is `PositionMax`; `discounts[k]` belongs to the `k`-th week of the horizon. */
  datatype Instance = Instance(
    players: seq<Player>, positions: seq<string>, capacity: map<string, nat>, discounts: seq<real>)

  const Bench: string := "BN"
  const Reserve: string := "IR"

  /** What the parameter-building code guarantees: one projection per week, a rostered
      player is never available, and every free agent is available. */
  predicate WellFormed(inst: Instance)
  {
    (forall n :: n in inst.positions ==> n in inst.capacity) &&
    (forall p :: 0 <= p < |inst.players| ==>
      |inst.players[p].projections| == |inst.discounts| &&
      !(inst.players[p].roster0 && inst.players[p].available) &&
      (inst.players[p].freeAgent ==> inst.players[p].available))
  }

  // ---------------------------------------------------------------------------
  // Decision variables and constraints
  // ---------------------------------------------------------------------------

  /** Values of the binary variables `roster`, `add`, `drop` per player and, per player and
      week, the slot whose `assign` variable is 1 (`None` when all are 0). */
  datatype Solution = Solution(roster: seq<bool>, add: seq<bool>, drop: seq<bool>, slot: seq<seq<Option<string>>>)

  predicate Shaped(inst: Instance, s: Solution)
  {
    |s.roster| == |inst.players| && |s.add| == |inst.players| && |s.drop| == |inst.players| &&
    |s.slot| == |inst.players| &&
    forall p :: 0 <= p < |s.slot| ==> |s.slot[p]| == |inst.discounts|
  }

  function Bit(b: bool): int
  {
    if b then 1 else 0
  }

  /** The number of players assigned to slot `n` in week `k`. */
  function Occupancy(inst: Instance, s: Solution, k: nat, n: string): nat
    requires Shaped(inst, s) && k < |inst.discounts|
  {
    |set p | 0 <= p < |inst.players| && s.slot[p][k] == Some(n)|
  }

  /** Lines 145-173 except the objective's defining equations: a rostered player holds
      exactly one eligible slot each week and an unrostered one none; only rostered players
      are dropped and only available ones added; `roster = Roster0 + add - drop`; no slot
      holds more players than the league has of it. */
  predicate Structural(inst: Instance, s: Solution)
  {
    Shaped(inst, s) &&
    (forall p, k :: 0 <= p < |inst.players| && 0 <= k < |inst.discounts| ==>
      (s.slot[p][k].Some? <==> s.roster[p]) &&
      (s.slot[p][k].Some? ==> s.slot[p][k].value in inst.positions && s.slot[p][k].value in inst.players[p].slots)) &&
    (forall p :: 0 <= p < |inst.players| ==>
      (s.drop[p] ==> inst.players[p].roster0) &&
      (s.add[p] ==> inst.players[p].available) &&
      Bit(s.roster[p]) == Bit(inst.players[p].roster0) + Bit(s.add[p]) - Bit(s.drop[p])) &&
    (forall k, n :: 0 <= k < |inst.discounts| && n in inst.positions && n in inst.capacity ==>
      Occupancy(inst, s, k, n) <= inst.capacity[n])
  }

  /** The indices below `n` whose flag is set. */
  function Marked(flags: seq<bool>, n: nat): set<nat>
    requires n <= |flags|
  {
    set p: nat | p < n && flags[p]
  }

  lemma MarkedStep(flags: seq<bool>, n: nat)
    requires n < |flags|
    ensures Marked(flags, n + 1) == Marked(flags, n) + (if flags[n] then {n} else {})
  {
  }

  function AddSet(inst: Instance, s: Solution): set<nat>
    requires Shaped(inst, s)
  {
    Marked(s.add, |inst.players|)
  }

  function DropSet(inst: Instance, s: Solution): set<nat>
    requires Shaped(inst, s)
  {
    Marked(s.drop, |inst.players|)
  }

  /** The constraints the enumerator changes between solves. `None` stands for a constraint
      that is absent: `max_adds` after it is deleted, `max_drops` before it is added. */
  datatype Control = Control(
    maxAdds: Option<int>, freeAgentsOnly: bool, maxDrops: Option<int>,
    lockedAdds: set<nat>, lockedDrops: set<nat>)

  /** `max_adds`, `only_add_free_agents`, `max_drops` and the `add[p] == 1` / `drop[p] == 1`
      locks. */
  predicate ControlOK(inst: Instance, c: Control, s: Solution)
    requires Shaped(inst, s)
  {
    (c.maxAdds.Some? ==> |AddSet(inst, s)| <= c.maxAdds.value) &&
    (c.freeAgentsOnly ==> forall p :: p in AddSet(inst, s) ==> inst.players[p].freeAgent) &&
    (c.maxDrops.Some? ==> |DropSet(inst, s)| <= c.maxDrops.value) &&
    c.lockedAdds <= AddSet(inst, s) && c.lockedDrops <= DropSet(inst, s)
  }

  predicate Feasible(inst: Instance, c: Control, s: Solution)
  {
    Structural(inst, s) && ControlOK(inst, c, s)
  }

  // ---------------------------------------------------------------------------
  // Objective
  // ---------------------------------------------------------------------------

  /** `points[p, t]`: the projection when the player starts, nothing on the bench or IR. */
  function Points(inst: Instance, s: Solution, p: nat, k: nat): real
    requires WellFormed(inst) && Shaped(inst, s) && p < |inst.players| && k < |inst.discounts|
  {
    if s.slot[p][k].Some? && s.slot[p][k].value != Bench && s.slot[p][k].value != Reserve
    then inst.players[p].projections[k] else 0.0
  }

  /** The points of player `p` over the first `k` weeks, discounted or not. */
  function WeekSum(inst: Instance, s: Solution, p: nat, k: nat, discounted: bool): real
    requires WellFormed(inst) && Shaped(inst, s) && p < |inst.players| && k <= |inst.discounts|
  {
    if k == 0 then 0.0
    else
      WeekSum(inst, s, p, k - 1, discounted) +
      (if discounted then inst.discounts[k - 1] else 1.0) * Points(inst, s, p, k - 1)
  }

  /** The sum over the first `m` players of their (discounted) points over the horizon. */
  function PlayerSum(inst: Instance, s: Solution, m: nat, discounted: bool): real
    requires WellFormed(inst) && Shaped(inst, s) && m <= |inst.players|
  {
    if m == 0 then 0.0
    else PlayerSum(inst, s, m - 1, discounted) + WeekSum(inst, s, m - 1, |inst.discounts|, discounted)
  }

  /** The sum over the first `m` players of the VOR of those on the roster. */
  function VorSum(inst: Instance, s: Solution, m: nat): real
    requires Shaped(inst, s) && m <= |inst.players|
  {
    if m == 0 then 0.0
    else VorSum(inst, s, m - 1) + (if s.roster[m - 1] then inst.players[m - 1].vor else 0.0)
  }

  /** The objective: the sum of `discounted_points_total`. */
  function Discounted(inst: Instance, s: Solution): real
    requires WellFormed(inst) && Shaped(inst, s)
  {
    PlayerSum(inst, s, |inst.players|, true)
  }

  /** An optimal solution of the program under control `c`. */
  ghost predicate Optimal(inst: Instance, c: Control, s: Solution)
    requires WellFormed(inst)
  {
    Feasible(inst, c, s) &&
    forall t :: Feasible(inst, c, t) ==> Discounted(inst, t) <= Discounted(inst, s)
  }

  /** The solver, seen from outside: whenever it reports an answer (status "Optimal"), the
      answer is optimal. Which optimum it picks among ties is left open. */
  ghost predicate OptimalSolver(inst: Instance, solve: Control -> Option<Solution>)
    requires WellFormed(inst)
  {
    forall c :: solve(c).Some? ==> Optimal(inst, c, solve(c).value)
  }

  /** A solver that answers every feasible program. */
  ghost predicate Complete(inst: Instance, solve: Control -> Option<Solution>)
  {
    forall c, t :: Feasible(inst, c, t) ==> solve(c).Some?
  }

  // ---------------------------------------------------------------------------
  // Properties of the constraints
  // ---------------------------------------------------------------------------

  /** The roster equation with the drop and add restrictions: a player ends up on the roster
      exactly when kept from the current roster or added, and never is both added and dropped. */
  lemma RosterEquation(inst: Instance, s: Solution, p: nat)
    requires WellFormed(inst) && Structural(inst, s) && p < |inst.players|
    ensures s.roster[p] <==> (inst.players[p].roster0 && !s.drop[p]) || s.add[p]
    ensures !(s.add[p] && s.drop[p])
  {
  }

  /** No player is both added and dropped. */
  predicate Exclusive(s: Solution)
  {
    forall p :: 0 <= p < |s.add| && p < |s.drop| ==> !(s.add[p] && s.drop[p])
  }

  lemma StructuralExclusive(inst: Instance, s: Solution)
    requires WellFormed(inst) && Structural(inst, s)
    ensures Exclusive(s)
  {
    forall p | 0 <= p < |s.add| && p < |s.drop| ensures !(s.add[p] && s.drop[p]) {
      RosterEquation(inst, s, p);
    }
  }

  /** Added and dropped players are disjoint, so the locks the enumerator places never clash. */
  lemma MovesDisjoint(inst: Instance, s: Solution)
    requires WellFormed(inst) && Structural(inst, s)
    ensures AddSet(inst, s) * DropSet(inst, s) == {}
  {
    forall p | p in AddSet(inst, s) * DropSet(inst, s) ensures false {
      RosterEquation(inst, s, p);
    }
  }

  /** A player who is not on the roster scores nothing, discounted or not. */
  lemma {:induction false} IdleScoresNothing(inst: Instance, s: Solution, p: nat, k: nat, discounted: bool)
    requires WellFormed(inst) && Structural(inst, s) && p < |inst.players| && k <= |inst.discounts|
    requires !s.roster[p]
    ensures WeekSum(inst, s, p, k, discounted) == 0.0
  {
    if k > 0 {
      IdleScoresNothing(inst, s, p, k - 1, discounted);
    }
  }

  /** Dropping every rostered player, adding nobody and filling no slot. */
  function DropAll(inst: Instance): (s: Solution)
    ensures Shaped(inst, s)
  {
    var n := |inst.players|;
    Solution(seq(n, p => false), seq(n, p => false),
             seq(n, p requires 0 <= p < n => inst.players[p].roster0),
             seq(n, p => seq(|inst.discounts|, k => None)))
  }

  /** The first solve always has a solution, since nothing bounds the drops yet. */
  lemma DropAllFeasible(inst: Instance)
    requires WellFormed(inst)
    ensures Feasible(inst, Control(Some(0), true, None, {}, {}), DropAll(inst))
  {
    var s := DropAll(inst);
    forall k, n | 0 <= k < |inst.discounts| && n in inst.positions && n in inst.capacity
      ensures Occupancy(inst, s, k, n) == 0
    {
      assert (set p | 0 <= p < |inst.players| && s.slot[p][k] == Some(n)) == {};
    }
    assert AddSet(inst, s) == {};
  }

  /** The indices below `n`. */
  function Range(n: nat): (r: set<nat>)
    ensures forall p: nat :: p in r <==> p < n
    ensures |r| == n
  {
    if n == 0 then {} else Range(n - 1) + {n - 1}
  }
}
