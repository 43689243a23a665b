/**
 * The re-solve loop of the roster optimizer (ffbot/optimizer.py, "Solve optimization
 * problem" to the end): a first solve, then four phases of re-solving with looser limits,
 * each locking in the moves it finds and recording them with their change of totals.
 */
module Enumerator {
  import opened Wrappers
  import opened Assignment

  // ---------------------------------------------------------------------------
  // The result table
  // ---------------------------------------------------------------------------

  /** Total points, discounted points (the objective) and VOR. */
  datatype Totals = Totals(points: real, discounted: real, vor: real)

  const Zero: Totals := Totals(0.0, 0.0, 0.0)

  function Plus(a: Totals, b: Totals): Totals
  {
    Totals(a.points + b.points, a.discounted + b.discounted, a.vor + b.vor)
  }

  function Minus(a: Totals, b: Totals): Totals
  {
    Totals(a.points - b.points, a.discounted - b.discounted, a.vor - b.vor)
  }

  /** `total_points`, `value(prob.objective)` and `vor` of a solution. */
  function TotalsOf(inst: Instance, s: Solution): Totals
    requires WellFormed(inst) && Shaped(inst, s)
  {
    Totals(PlayerSum(inst, s, |inst.players|, false), Discounted(inst, s), VorSum(inst, s, |inst.players|))
  }

  /** One row of the result: the add, the drop, and the totals (absolute on the baseline
      row, a change on a move row, absent on a row of the first solve's forced drops). */
  datatype Record = Record(add: string, drop: string, delta: Option<Totals>)

  const CurrentRoster: string := "<current roster>"

  function DeltaOf(r: Record): Totals
  {
    if r.delta.Some? then r.delta.value else Zero
  }

  /** The running sum of the rows' totals. */
  function Accumulate(rs: seq<Record>): Totals
  {
    if rs == [] then Zero else Plus(Accumulate(rs[..|rs| - 1]), DeltaOf(rs[|rs| - 1]))
  }

  /** The layout of the result: the forced drops, the baseline row, then moves that each
      name something and never lower the objective. */
  predicate Ledger(rs: seq<Record>, base: nat)
  {
    base < |rs| &&
    (forall i :: 0 <= i < base ==> rs[i].add == "" && rs[i].drop != "" && rs[i].delta.None?) &&
    rs[base].add == CurrentRoster && rs[base].drop == "" && rs[base].delta.Some? &&
    (forall i :: base < i < |rs| ==>
      (rs[i].add != "" || rs[i].drop != "") && rs[i].delta.Some? && rs[i].delta.value.discounted >= 0.0)
  }

  /** The forced-drop rows followed by the baseline row form a ledger whose running sum is
      the baseline's totals. */
  lemma LedgerStart(rows: seq<Record>, now: Totals)
    requires forall i :: 0 <= i < |rows| ==> rows[i].add == "" && rows[i].drop != "" && rows[i].delta.None?
    ensures Ledger(rows + [Record(CurrentRoster, "", Some(now))], |rows|)
    ensures Accumulate((rows + [Record(CurrentRoster, "", Some(now))])[|rows|..]) == now
  {
    var all := rows + [Record(CurrentRoster, "", Some(now))];
    assert all[|rows|..] == [all[|rows|]];
    assert all[|rows|..][..0] == [];
  }

  /** Appending a move row to a ledger keeps it a ledger and adds the move's change to the
      running sum. */
  lemma LedgerAppend(rs: seq<Record>, base: nat, r: Record)
    requires Ledger(rs, base)
    requires (r.add != "" || r.drop != "") && r.delta.Some? && r.delta.value.discounted >= 0.0
    ensures Ledger(rs + [r], base)
    ensures Accumulate((rs + [r])[base..]) == Plus(Accumulate(rs[base..]), r.delta.value)
  {
    assert (rs + [r])[base..] == rs[base..] + [r];
    assert (rs[base..] + [r])[..|rs[base..]|] == rs[base..];
  }

  /** The running sum from the baseline row, after a move, is the new solution's totals. */
  lemma RunningTotal(before: Totals, after: Totals)
    ensures Plus(before, Minus(after, before)) == after
  {
  }

  // ---------------------------------------------------------------------------
  // Labels
  // ---------------------------------------------------------------------------

  /** `f"{Names[p]} ({Position[p]})"`. */
  function PlayerLabel(p: Player): (text: string)
    ensures text != ""
  {
    p.name + " (" + p.position + ")"
  }

  /** The label of an add: in the waiver phases it also names the team that owns the claim. */
  function AddLabel(p: Player, claim: bool): (text: string)
    ensures text != ""
  {
    if claim then PlayerLabel(p) + " - " + p.owner else PlayerLabel(p)
  }

  /** The label a scan over the first `n` players in index order leaves behind: that of the
      last member of `moved`, or nothing when none is below `n`. */
  function LastLabel(inst: Instance, moved: set<nat>, n: nat, claim: bool, add: bool): (text: string)
    requires n <= |inst.players|
    ensures text == "" <==> forall q :: q in moved ==> q >= n
  {
    if n == 0 then ""
    else if n - 1 in moved then
      (if add then AddLabel(inst.players[n - 1], claim) else PlayerLabel(inst.players[n - 1]))
    else LastLabel(inst, moved, n - 1, claim, add)
  }

  /** Over players only, the label of the players of `a` not in `known` is empty exactly when
      `known` holds all of `a`. */
  lemma LastLabelEmpty(inst: Instance, a: set<nat>, known: set<nat>, claim: bool, add: bool)
    requires forall q :: q in a ==> q < |inst.players|
    ensures LastLabel(inst, a - known, |inst.players|, claim, add) == "" <==> a <= known
  {
    if !(a <= known) {
      var q :| q in a && q !in known;
      assert q in a - known;
    }
  }

  // ---------------------------------------------------------------------------
  // Scans of a solution
  // ---------------------------------------------------------------------------

  /** The forced-drop rows of the first `n` players, in player order: one per dropped player,
      with its label as the drop and no totals. */
  function DropRows(inst: Instance, s: Solution, n: nat): (rows: seq<Record>)
    requires Shaped(inst, s) && n <= |inst.players|
    ensures |rows| == |Marked(s.drop, n)|
    ensures forall i :: 0 <= i < |rows| ==> rows[i].add == "" && rows[i].drop != "" && rows[i].delta.None?
  {
    if n == 0 then []
    else
      MarkedStep(s.drop, n - 1);
      DropRows(inst, s, n - 1) + (if s.drop[n - 1] then [Record("", PlayerLabel(inst.players[n - 1]), None)] else [])
  }

  /** Lines 181-189: every player the first solve drops is locked in and gets a row. */
  method ScanDrops(inst: Instance, s: Solution) returns (known: set<nat>, rows: seq<Record>)
    requires Shaped(inst, s)
    ensures known == DropSet(inst, s)
    ensures rows == DropRows(inst, s, |inst.players|)
    ensures |rows| == |known|
    ensures forall i :: 0 <= i < |rows| ==> rows[i].add == "" && rows[i].drop != "" && rows[i].delta.None?
  {
    known := {};
    rows := [];
    var p := 0;
    while p < |inst.players|
      invariant 0 <= p <= |inst.players|
      invariant known == Marked(s.drop, p)
      invariant rows == DropRows(inst, s, p)
    {
      MarkedStep(s.drop, p);
      if s.drop[p] {
        rows := rows + [Record("", PlayerLabel(inst.players[p]), None)];
        known := known + {p};
      }
      p := p + 1;
    }
  }

  /** Lines 206-211 (and 275-280 with `claim`): every new add is locked in; the label is
      that of the last one. */
  method ScanAdds(inst: Instance, s: Solution, known: set<nat>, claim: bool) returns (known': set<nat>, name: string)
    requires Shaped(inst, s)
    ensures known' == known + AddSet(inst, s)
    ensures name == LastLabel(inst, AddSet(inst, s) - known, |inst.players|, claim, true)
  {
    known' := known;
    name := "";
    var p := 0;
    while p < |inst.players|
      invariant 0 <= p <= |inst.players|
      invariant known' == known + Marked(s.add, p)
      invariant name == LastLabel(inst, AddSet(inst, s) - known, p, claim, true)
    {
      MarkedStep(s.add, p);
      if s.add[p] && p !in known' {
        name := AddLabel(inst.players[p], claim);
        known' := known' + {p};
      }
      p := p + 1;
    }
  }

  /** What a swap scan has gathered so far: known adds and drops, the number of new adds,
      and the labels of the last new add and drop. */
  datatype ScanState = ScanState(ka: set<nat>, kd: set<nat>, added: nat, addLabel: string, dropLabel: string)

  /** The state of a swap scan after the first `p` players. */
  predicate SwapScanned(inst: Instance, s: Solution, ka: set<nat>, kd: set<nat>, claim: bool, p: nat, st: ScanState)
    requires Shaped(inst, s)
  {
    p <= |inst.players| &&
    st.ka == ka + Marked(s.add, p) && st.kd == kd + Marked(s.drop, p) && st.added == |st.ka - ka| &&
    st.addLabel == LastLabel(inst, AddSet(inst, s) - ka, p, claim, true) &&
    st.dropLabel == LastLabel(inst, DropSet(inst, s) - kd, p, false, false)
  }

  /** One player of a scan over `flags` that locks every flagged player not yet known. */
  lemma ScanFlagStep(flags: seq<bool>, base: set<nat>, known: set<nat>, p: nat)
    requires p < |flags| && known == base + Marked(flags, p)
    ensures p in Marked(flags, |flags|) - base <==> flags[p] && p !in known
    ensures flags[p] && p !in known ==>
      known + {p} == base + Marked(flags, p + 1) && (known + {p}) - base == (known - base) + {p} &&
      p !in known - base
    ensures !(flags[p] && p !in known) ==> known == base + Marked(flags, p + 1)
  {
    MarkedStep(flags, p);
  }

  /** One player of the swap scan: a new drop is locked; otherwise a new add is. */
  function ScanOne(inst: Instance, s: Solution, claim: bool, st: ScanState, q: nat): ScanState
    requires Shaped(inst, s) && q < |inst.players|
  {
    if s.drop[q] && q !in st.kd then st.(kd := st.kd + {q}, dropLabel := PlayerLabel(inst.players[q]))
    else if s.add[q] && q !in st.ka then
      st.(ka := st.ka + {q}, added := st.added + 1, addLabel := AddLabel(inst.players[q], claim))
    else st
  }

  /** One step keeps the meaning of the scan state, because no player is both added and dropped. */
  lemma SwapScanStep(inst: Instance, s: Solution, ka: set<nat>, kd: set<nat>, claim: bool, p: nat, st: ScanState)
    requires Shaped(inst, s) && Exclusive(s) && 0 < p <= |inst.players|
    requires SwapScanned(inst, s, ka, kd, claim, p - 1, st)
    ensures SwapScanned(inst, s, ka, kd, claim, p, ScanOne(inst, s, claim, st, p - 1))
  {
    var q := p - 1;
    ScanFlagStep(s.add, ka, st.ka, q);
    ScanFlagStep(s.drop, kd, st.kd, q);
    if s.drop[q] && q !in st.kd {
      assert !s.add[q];
    }
  }

  /** The swap scan after the first `p` players, one player at a time. */
  function SwapScan(inst: Instance, s: Solution, ka: set<nat>, kd: set<nat>, claim: bool, p: nat): ScanState
    requires Shaped(inst, s) && p <= |inst.players|
  {
    if p == 0 then ScanState(ka, kd, 0, "", "")
    else ScanOne(inst, s, claim, SwapScan(inst, s, ka, kd, claim, p - 1), p - 1)
  }

  /** The scan locks exactly the solution's moves and counts its new adds. */
  lemma {:induction false} SwapScanMeaning(inst: Instance, s: Solution, ka: set<nat>, kd: set<nat>, claim: bool, p: nat)
    requires Shaped(inst, s) && Exclusive(s) && p <= |inst.players|
    ensures SwapScanned(inst, s, ka, kd, claim, p, SwapScan(inst, s, ka, kd, claim, p))
  {
    if p == 0 {
      SwapScanStart(inst, s, ka, kd, claim);
    } else {
      SwapScanMeaning(inst, s, ka, kd, claim, p - 1);
      SwapScanStep(inst, s, ka, kd, claim, p, SwapScan(inst, s, ka, kd, claim, p - 1));
    }
  }

  /** Lines 238-249 (and 306-316 with `claim`): every new drop and, failing that, every new
      add is locked in; `added` counts the new adds. */
  method ScanSwaps(inst: Instance, s: Solution, ka: set<nat>, kd: set<nat>, claim: bool)
    returns (ka': set<nat>, kd': set<nat>, added: nat, addLabel: string, dropLabel: string)
    requires Shaped(inst, s) && Exclusive(s)
    ensures ka' == ka + AddSet(inst, s) && kd' == kd + DropSet(inst, s)
    ensures added == |AddSet(inst, s) - ka|
    ensures addLabel == LastLabel(inst, AddSet(inst, s) - ka, |inst.players|, claim, true)
    ensures dropLabel == LastLabel(inst, DropSet(inst, s) - kd, |inst.players|, false, false)
  {
    ka', kd' := ka, kd;
    added := 0;
    addLabel, dropLabel := "", "";
    var p := 0;
    while p < |inst.players|
      invariant p <= |inst.players|
      invariant ScanState(ka', kd', added, addLabel, dropLabel) == SwapScan(inst, s, ka, kd, claim, p)
    {
      assert SwapScan(inst, s, ka, kd, claim, p + 1) == ScanOne(inst, s, claim, SwapScan(inst, s, ka, kd, claim, p), p);
      if s.drop[p] && p !in kd' {
        dropLabel := PlayerLabel(inst.players[p]);
        kd' := kd' + {p};
      } else if s.add[p] && p !in ka' {
        addLabel := AddLabel(inst.players[p], claim);
        ka' := ka' + {p};
        added := added + 1;
      }
      p := p + 1;
    }
    SwapScanResult(inst, s, ka, kd, claim);
  }

  lemma SwapScanStart(inst: Instance, s: Solution, ka: set<nat>, kd: set<nat>, claim: bool)
    requires Shaped(inst, s)
    ensures SwapScanned(inst, s, ka, kd, claim, 0, ScanState(ka, kd, 0, "", ""))
  {
    assert ka - ka == {};
    assert Marked(s.add, 0) == {} && Marked(s.drop, 0) == {};
  }

  /** The whole swap scan locks exactly the solution's moves and counts its new adds. */
  lemma SwapScanResult(inst: Instance, s: Solution, ka: set<nat>, kd: set<nat>, claim: bool)
    requires Shaped(inst, s) && Exclusive(s)
    ensures var st := SwapScan(inst, s, ka, kd, claim, |inst.players|);
      st.ka == ka + AddSet(inst, s) && st.kd == kd + DropSet(inst, s) &&
      st.added == |AddSet(inst, s) - ka| &&
      st.addLabel == LastLabel(inst, AddSet(inst, s) - ka, |inst.players|, claim, true) &&
      st.dropLabel == LastLabel(inst, DropSet(inst, s) - kd, |inst.players|, false, false)
  {
    SwapScanMeaning(inst, s, ka, kd, claim, |inst.players|);
    var st := SwapScan(inst, s, ka, kd, claim, |inst.players|);
    assert st.ka - ka == AddSet(inst, s) - ka;
  }

  // ---------------------------------------------------------------------------
  // Facts about sets of players and controls
  // ---------------------------------------------------------------------------

  lemma SubsetCard(a: set<nat>, b: set<nat>)
    requires a <= b
    ensures |b| == |a| + |b - a|
  {
    assert b == a + (b - a);
  }

  lemma MarkedInRange(flags: seq<bool>, n: nat)
    requires n <= |flags|
    ensures Marked(flags, n) <= Range(n)
  {
  }

  /** A control at least as permissive as `c`: no bound lower, no constraint or lock added. */
  predicate Looser(c: Control, c': Control)
  {
    (c'.maxAdds.Some? ==> c.maxAdds.Some? && c.maxAdds.value <= c'.maxAdds.value) &&
    (c'.freeAgentsOnly ==> c.freeAgentsOnly) &&
    (c'.maxDrops.Some? ==> c.maxDrops.Some? && c.maxDrops.value <= c'.maxDrops.value) &&
    c'.lockedAdds == c.lockedAdds && c'.lockedDrops == c.lockedDrops
  }

  /** Loosening the control keeps every feasible solution feasible. */
  lemma LooserFeasible(inst: Instance, c: Control, c': Control, s: Solution)
    requires Looser(c, c') && Feasible(inst, c, s)
    ensures Feasible(inst, c', s)
  {
  }

  /** A solve under a control the current solution satisfies never lowers the objective, and
      a complete solver always answers it. */
  lemma NoWorse(inst: Instance, solve: Control -> Option<Solution>, c: Control, cur: Solution)
    requires WellFormed(inst) && OptimalSolver(inst, solve) && Feasible(inst, c, cur)
    ensures Complete(inst, solve) ==> solve(c).Some?
    ensures solve(c).Some? ==> Feasible(inst, c, solve(c).value) && Discounted(inst, cur) <= Discounted(inst, solve(c).value)
  {
  }

  // ---------------------------------------------------------------------------
  // The enumerator's invariant, on values
  // ---------------------------------------------------------------------------

  /** The solver answers optimally on a well-formed instance. */
  ghost predicate SolverOK(inst: Instance, solve: Control -> Option<Solution>)
  {
    WellFormed(inst) && OptimalSolver(inst, solve)
  }

  /** Every add of `cur` is locked, the locked players are players, and the adds locked while
      only free agents could be added are free agents. */
  predicate LocksOK(inst: Instance, c: Control, cur: Solution, fa: set<nat>)
    requires Shaped(inst, cur)
  {
    c.lockedAdds == AddSet(inst, cur) &&
    c.lockedAdds + c.lockedDrops <= Range(|inst.players|) &&
    fa <= c.lockedAdds &&
    (forall p :: p in fa ==> p < |inst.players| && inst.players[p].freeAgent)
  }

  /** The rows form a ledger whose running sum from the baseline row is `cur`'s totals, with
      at most one row per locked player besides the baseline. */
  predicate BooksOK(inst: Instance, c: Control, cur: Solution, rows: seq<Record>, base: nat, last: Totals)
    requires WellFormed(inst) && Shaped(inst, cur)
  {
    Ledger(rows, base) && last == TotalsOf(inst, cur) && Accumulate(rows[base..]) == last &&
    |rows| <= |c.lockedAdds + c.lockedDrops| + 1
  }

  /** What holds between solves: the last recorded solution `cur` satisfies the current
      control, its locks and its rows are in order. */
  ghost predicate Consistent(inst: Instance, solve: Control -> Option<Solution>, c: Control, cur: Solution,
                             fa: set<nat>, rows: seq<Record>, base: nat, last: Totals)
  {
    SolverOK(inst, solve) && Feasible(inst, c, cur) && LocksOK(inst, c, cur, fa) &&
    BooksOK(inst, c, cur, rows, base, last)
  }

  /** Lines 177-196: the first solve, its forced drops and the baseline row establish the
      invariant. */
  lemma BaselineConsistent(inst: Instance, solve: Control -> Option<Solution>, s: Solution,
                           known: set<nat>, rows: seq<Record>)
    requires SolverOK(inst, solve)
    requires solve(Control(Some(0), true, None, {}, {})) == Some(s)
    requires known == DropSet(inst, s) && |rows| == |known|
    requires forall i :: 0 <= i < |rows| ==> rows[i].add == "" && rows[i].drop != "" && rows[i].delta.None?
    ensures Consistent(inst, solve, Control(Some(0), true, Some(|rows|), {}, known), s, {},
                       rows + [Record(CurrentRoster, "", Some(TotalsOf(inst, s)))], |rows|, TotalsOf(inst, s))
  {
    var c := Control(Some(0), true, Some(|rows|), {}, known);
    assert Feasible(inst, c, s) && AddSet(inst, s) == {} by {
      assert Optimal(inst, Control(Some(0), true, None, {}, {}), s);
    }
    MarkedInRange(s.drop, |inst.players|);
    BaselineBooks(inst, c, s, rows);
  }

  lemma BaselineBooks(inst: Instance, c: Control, s: Solution, rows: seq<Record>)
    requires WellFormed(inst) && Shaped(inst, s) && |rows| == |c.lockedDrops|
    requires forall i :: 0 <= i < |rows| ==> rows[i].add == "" && rows[i].drop != "" && rows[i].delta.None?
    ensures BooksOK(inst, c, s, rows + [Record(CurrentRoster, "", Some(TotalsOf(inst, s)))], |rows|, TotalsOf(inst, s))
  {
    LedgerStart(rows, TotalsOf(inst, s));
    SubsetCard(c.lockedDrops, c.lockedAdds + c.lockedDrops);
  }

  /** Lines 212-229 (and the same steps of the later phases): a solve that finds a move,
      once its moves are locked and its row appended, keeps the invariant and locks at least
      one player more. */
  lemma RecordMove(inst: Instance, solve: Control -> Option<Solution>, c: Control, cur: Solution,
                   fa: set<nat>, rows: seq<Record>, base: nat, last: Totals,
                   s: Solution, ka: set<nat>, kd: set<nat>, r: Record)
    requires Consistent(inst, solve, c, cur, fa, rows, base, last)
    requires solve(c) == Some(s)
    requires ka == c.lockedAdds + AddSet(inst, s)
    requires kd == c.lockedDrops || kd == c.lockedDrops + DropSet(inst, s)
    requires (ka - c.lockedAdds) + (kd - c.lockedDrops) != {}
    requires (r.add != "" || r.drop != "") && r.delta == Some(Minus(TotalsOf(inst, s), last))
    ensures Consistent(inst, solve, c.(lockedAdds := ka, lockedDrops := kd), s, fa, rows + [r], base, TotalsOf(inst, s))
    ensures |ka + kd| > |c.lockedAdds + c.lockedDrops|
  {
    NoWorse(inst, solve, c, cur);
    var c' := c.(lockedAdds := ka, lockedDrops := kd);
    assert Feasible(inst, c', s);
    RecordLocks(inst, c, s, fa, ka, kd);
    RecordBooks(inst, c, c', cur, rows, base, last, s, r);
  }

  lemma RecordLocks(inst: Instance, c: Control, s: Solution, fa: set<nat>, ka: set<nat>, kd: set<nat>)
    requires WellFormed(inst) && Feasible(inst, c, s)
    requires c.lockedAdds + c.lockedDrops <= Range(|inst.players|)
    requires fa <= c.lockedAdds && (forall p :: p in fa ==> p < |inst.players| && inst.players[p].freeAgent)
    requires ka == c.lockedAdds + AddSet(inst, s)
    requires kd == c.lockedDrops || kd == c.lockedDrops + DropSet(inst, s)
    requires (ka - c.lockedAdds) + (kd - c.lockedDrops) != {}
    ensures LocksOK(inst, c.(lockedAdds := ka, lockedDrops := kd), s, fa)
    ensures |ka + kd| > |c.lockedAdds + c.lockedDrops|
  {
    MarkedInRange(s.add, |inst.players|);
    MarkedInRange(s.drop, |inst.players|);
    assert ka == AddSet(inst, s);
    assert kd <= DropSet(inst, s);
    MovesDisjoint(inst, s);
    assert ka * kd == {};
    LockGrowth(c.lockedAdds, c.lockedDrops, ka, kd);
  }

  /** Locking a new add or a new drop, where no player is both, locks one player more. */
  lemma LockGrowth(a: set<nat>, d: set<nat>, ka: set<nat>, kd: set<nat>)
    requires a <= ka && d <= kd && ka * kd == {}
    requires (ka - a) + (kd - d) != {}
    ensures |ka + kd| > |a + d|
  {
    var q :| q in (ka - a) + (kd - d);
    assert q !in ka * kd;
    assert q !in a + d;
    SubsetCard(a + d + {q}, ka + kd);
  }

  lemma RecordBooks(inst: Instance, c: Control, c': Control, cur: Solution, rows: seq<Record>, base: nat,
                    last: Totals, s: Solution, r: Record)
    requires WellFormed(inst) && Shaped(inst, cur) && Shaped(inst, s)
    requires BooksOK(inst, c, cur, rows, base, last)
    requires |c'.lockedAdds + c'.lockedDrops| > |c.lockedAdds + c.lockedDrops|
    requires Discounted(inst, cur) <= Discounted(inst, s)
    requires (r.add != "" || r.drop != "") && r.delta == Some(Minus(TotalsOf(inst, s), last))
    ensures BooksOK(inst, c', s, rows + [r], base, TotalsOf(inst, s))
  {
    LedgerAppend(rows, base, r);
    RunningTotal(last, TotalsOf(inst, s));
  }

  /** The locked moves obey the eligibility rules: every locked drop was on the roster, and
      every locked add was available (lines 158-162). */
  lemma LockedMovesEligible(inst: Instance, solve: Control -> Option<Solution>, c: Control, cur: Solution,
                            fa: set<nat>, rows: seq<Record>, base: nat, last: Totals)
    requires Consistent(inst, solve, c, cur, fa, rows, base, last)
    ensures forall p :: p in c.lockedDrops ==> p < |inst.players| && inst.players[p].roster0
    ensures forall p :: p in c.lockedAdds ==> p < |inst.players| && inst.players[p].available
    ensures forall p :: p in fa ==> p in c.lockedAdds && inst.players[p].freeAgent
  {
  }

  /** The number of rows and solves the invariant allows. */
  lemma LockedBound(inst: Instance, solve: Control -> Option<Solution>, c: Control, cur: Solution,
                    fa: set<nat>, rows: seq<Record>, base: nat, last: Totals)
    requires Consistent(inst, solve, c, cur, fa, rows, base, last)
    ensures |c.lockedAdds + c.lockedDrops| <= |inst.players|
    ensures |rows| <= |inst.players| + 1
    ensures c.maxAdds.Some? ==> |c.lockedAdds| <= c.maxAdds.value
    ensures c.maxDrops.Some? ==> |c.lockedDrops| <= c.maxDrops.value
  {
    SubsetCard(c.lockedAdds + c.lockedDrops, Range(|inst.players|));
    SubsetCard(c.lockedDrops, DropSet(inst, cur));
  }

  /** Lines 232, 269-270, 301 and the bound updates at the head of each loop: changing the
      bounds and the free-agent rule keeps the invariant while the last solution still meets
      them; the adds locked so far may be recorded as free-agent adds while only free agents
      could be added. */
  lemma ConsistentRelax(inst: Instance, solve: Control -> Option<Solution>, c: Control, c': Control,
                        cur: Solution, fa: set<nat>, fa': set<nat>, rows: seq<Record>, base: nat, last: Totals)
    requires Consistent(inst, solve, c, cur, fa, rows, base, last)
    requires c'.lockedAdds == c.lockedAdds && c'.lockedDrops == c.lockedDrops
    requires c'.maxAdds.Some? ==> |c.lockedAdds| <= c'.maxAdds.value
    requires c'.freeAgentsOnly ==> c.freeAgentsOnly
    requires c'.maxDrops.Some? ==> c.maxDrops.Some? && c.maxDrops.value <= c'.maxDrops.value
    requires fa' == fa || (fa' == c.lockedAdds && c.freeAgentsOnly)
    ensures Consistent(inst, solve, c', cur, fa', rows, base, last)
  {
  }

  // ---------------------------------------------------------------------------
  // The enumerator
  // ---------------------------------------------------------------------------

  /** Lines 179-196 on values: the first solve under the program as built, the rows of its
      forced drops, its totals, and the invariant they establish. */
  method FirstSolve(inst: Instance, solve: Control -> Option<Solution>)
    returns (ok: bool, s: Solution, known: set<nat>, rows: seq<Record>, now: Totals)
    requires SolverOK(inst, solve)
    ensures Complete(inst, solve) ==> ok
    ensures ok ==> Consistent(inst, solve, Control(Some(0), true, Some(|rows|), {}, known), s, {},
                              rows + [Record(CurrentRoster, "", Some(now))], |rows|, now)
    ensures ok ==> known == DropSet(inst, s) && |rows| == |known|
    ensures ok ==> rows == DropRows(inst, s, |inst.players|)
    ensures ok ==> solve(Control(Some(0), true, None, {}, {})) == Some(s) && now == TotalsOf(inst, s)
  {
    var answer := solve(Control(Some(0), true, None, {}, {}));
    if answer.None? {
      DropAllFeasible(inst);
      NoWorse(inst, solve, Control(Some(0), true, None, {}, {}), DropAll(inst));
      ok, s, known, rows, now := false, DropAll(inst), {}, [], Zero;
      return;
    }
    ok, s := true, answer.value;
    known, rows := ScanDrops(inst, s);
    now := TotalsOf(inst, s);
    BaselineConsistent(inst, solve, s, known, rows);
  }

  /** A solution that moves no player beyond the locked ones: every add is in `ka` and, when
      drops are scanned too, every drop in `kd`. */
  predicate Settled(inst: Instance, s: Solution, ka: set<nat>, kd: set<nat>, swap: bool)
  {
    Shaped(inst, s) && AddSet(inst, s) <= ka && (swap ==> DropSet(inst, s) <= kd)
  }

  /** The scan of a solution's moves a re-solve makes: its adds, and its drops too when `swap`. */
  method ScanMoves(inst: Instance, s: Solution, ka: set<nat>, kd: set<nat>, swap: bool, claim: bool)
    returns (ka': set<nat>, kd': set<nat>, added: nat, addLabel: string, dropLabel: string)
    requires Shaped(inst, s) && Exclusive(s)
    ensures ka' == ka + AddSet(inst, s)
    ensures kd' == if swap then kd + DropSet(inst, s) else kd
    ensures addLabel == LastLabel(inst, ka' - ka, |inst.players|, claim, true)
    ensures dropLabel == if swap then LastLabel(inst, kd' - kd, |inst.players|, false, false) else ""
    ensures swap ==> added == |ka' - ka|
    ensures addLabel == "" <==> AddSet(inst, s) <= ka
    ensures swap ==> (dropLabel == "" <==> DropSet(inst, s) <= kd)
  {
    if swap {
      ka', kd', added, addLabel, dropLabel := ScanSwaps(inst, s, ka, kd, claim);
      assert kd' - kd == DropSet(inst, s) - kd;
      LastLabelEmpty(inst, DropSet(inst, s), kd, false, false);
    } else {
      ka', addLabel := ScanAdds(inst, s, ka, claim);
      kd', dropLabel, added := kd, "", 0;
    }
    assert ka' - ka == AddSet(inst, s) - ka;
    LastLabelEmpty(inst, AddSet(inst, s), ka, claim, true);
  }

  /** One re-solve on values: the solve under `c`, the scan of its moves, and, when it moves a
      player not yet locked, the new locks and the new row. */
  method Resolve(inst: Instance, solve: Control -> Option<Solution>, c: Control, ghost cur: Solution,
                 ghost fa: set<nat>, rows: seq<Record>, ghost base: nat, last: Totals, swap: bool, claim: bool)
    returns (ok: bool, moved: bool, added: nat, c': Control, ghost s': Solution, rows': seq<Record>, last': Totals)
    requires Consistent(inst, solve, c, cur, fa, rows, base, last)
    ensures Consistent(inst, solve, c', s', fa, rows', base, last')
    ensures Complete(inst, solve) ==> ok
    ensures ok == solve(c).Some?
    ensures ok ==> (moved <==> !Settled(inst, solve(c).value, c.lockedAdds, c.lockedDrops, swap))
    ensures c'.(lockedAdds := c.lockedAdds, lockedDrops := c.lockedDrops) == c
    ensures c.lockedAdds <= c'.lockedAdds && c.lockedDrops <= c'.lockedDrops
    ensures !swap ==> c'.lockedDrops == c.lockedDrops
    ensures swap ==> |c'.lockedAdds| == |c.lockedAdds| + added
    ensures !moved ==> c' == c && s' == cur && rows' == rows && last' == last
    ensures moved ==> |c'.lockedAdds + c'.lockedDrops| > |c.lockedAdds + c.lockedDrops|
    ensures moved ==> rows' == rows + [Record(
              LastLabel(inst, c'.lockedAdds - c.lockedAdds, |inst.players|, claim, true),
              if swap then LastLabel(inst, c'.lockedDrops - c.lockedDrops, |inst.players|, false, false) else "",
              Some(Minus(last', last)))]
    ensures moved ==> solve(c) == Some(s') && last' == TotalsOf(inst, s')
    ensures moved ==> c'.lockedAdds == c.lockedAdds + AddSet(inst, s')
    ensures moved && swap ==> c'.lockedDrops == c.lockedDrops + DropSet(inst, s')
  {
    var answer := solve(c);
    NoWorse(inst, solve, c, cur);
    ok, moved, added, c', s', rows', last' := false, false, 0, c, cur, rows, last;
    if answer.None? {
      return;
    }
    ok := true;
    var s := answer.value;
    var ka, kd, addText, dropText;
    StructuralExclusive(inst, s);
    ka, kd, added, addText, dropText := ScanMoves(inst, s, c.lockedAdds, c.lockedDrops, swap, claim);
    if addText == "" && dropText == "" {
      return;
    }
    var now := TotalsOf(inst, s);
    var r := Record(addText, dropText, Some(Minus(now, last)));
    if swap {
      SubsetCard(c.lockedAdds, ka);
    }
    RecordMove(inst, solve, c, cur, fa, rows, base, last, s, ka, kd, r);
    moved := true;
    c', s', rows', last' := c.(lockedAdds := ka, lockedDrops := kd), s, rows + [r], now;
  }

  // `Depth`, `Guarded` and `GuardedIff` model nothing in the program: they keep the
  // invariant folded inside the phase methods, which only keeps their proofs affordable.

  /** The number of steps `Guarded` takes to reach `Consistent`. */
  datatype Depth = Bottom | Above(below: Depth)

  /** `Consistent`, reached through `k` unfoldings. */
  ghost predicate Guarded(k: Depth, inst: Instance, solve: Control -> Option<Solution>, c: Control, cur: Solution,
                          fa: set<nat>, rows: seq<Record>, base: nat, last: Totals)
  {
    match k
    case Bottom => Consistent(inst, solve, c, cur, fa, rows, base, last)
    case Above(below) => Guarded(below, inst, solve, c, cur, fa, rows, base, last)
  }

  lemma {:induction false} GuardedIff(k: Depth, inst: Instance, solve: Control -> Option<Solution>, c: Control,
                                      cur: Solution, fa: set<nat>, rows: seq<Record>, base: nat, last: Totals)
    ensures Guarded(k, inst, solve, c, cur, fa, rows, base, last) == Consistent(inst, solve, c, cur, fa, rows, base, last)
  {
    match k
    case Bottom =>
    case Above(below) => GuardedIff(below, inst, solve, c, cur, fa, rows, base, last);
  }

  /** The state `optimize` keeps while it re-solves: the controllable constraints of the
      program, the locked sets, the counters `n_adds` and `n_drops`, the `last_*` totals and
      the `solutions` rows. */
  class MoveEnumerator {
    const inst: Instance
    const solve: Control -> Option<Solution>
    var maxAdds: Option<int>
    var freeAgentsOnly: bool
    var maxDrops: Option<int>
    var knownAdds: set<nat>
    var knownDrops: set<nat>
    var nAdds: int
    var nDrops: int
    var last: Totals
    var solutions: seq<Record>
    /** The last recorded solution, the index of the baseline row, the adds locked while only
        free agents could be added, and the number of solves so far. */
    ghost var cur: Solution
    ghost var base: nat
    ghost var freeAgentAdds: set<nat>
    ghost var solves: nat
    ghost const depth: Depth

    /** The control the next solve runs under. */
    function Constraints(): Control
      reads this`maxAdds, this`freeAgentsOnly, this`maxDrops, this`knownAdds, this`knownDrops
    {
      Control(maxAdds, freeAgentsOnly, maxDrops, knownAdds, knownDrops)
    }

    ghost predicate Valid()
      reads this`maxAdds, this`freeAgentsOnly, this`maxDrops, this`knownAdds, this`knownDrops
      reads this`cur, this`freeAgentAdds, this`solutions, this`base, this`last
    {
      Guarded(depth, inst, solve, Constraints(), cur, freeAgentAdds, solutions, base, last)
    }

    /** The program as built (lines 140-144): no adds, only free agents, no drop bound. */
    ghost predicate Fresh()
      reads this
    {
      WellFormed(inst) && OptimalSolver(inst, solve) &&
      maxAdds == Some(0) && freeAgentsOnly && maxDrops == None && knownAdds == {} && knownDrops == {} &&
      solutions == [] && solves == 0 && freeAgentAdds == {}
    }

    constructor (inst: Instance, solve: Control -> Option<Solution>)
      requires WellFormed(inst) && OptimalSolver(inst, solve)
      ensures Fresh() && this.inst == inst && this.solve == solve
    {
      this.inst := inst;
      this.solve := solve;
      maxAdds := Some(0);
      freeAgentsOnly := true;
      maxDrops := None;
      knownAdds := {};
      knownDrops := {};
      nAdds := 0;
      nDrops := 0;
      last := Zero;
      solutions := [];
      cur := DropAll(inst);
      base := 0;
      freeAgentAdds := {};
      solves := 0;
      depth := Bottom;
    }

    /** Sets every field at once. `Load` and `Sync` model nothing in the program: they let a
        phase method reason about values rather than fields, to keep its proof affordable. */
    method Load(c: Control, ghost s: Solution, ghost fa: set<nat>, rows: seq<Record>, ghost b: nat, t: Totals,
                nA: int, nD: int, ghost k: nat)
      modifies this
      ensures Constraints() == c && cur == s && freeAgentAdds == fa && solutions == rows && base == b && last == t
      ensures nAdds == nA && nDrops == nD && solves == k
    {
      maxAdds, freeAgentsOnly, maxDrops, knownAdds, knownDrops := c.maxAdds, c.freeAgentsOnly, c.maxDrops, c.lockedAdds, c.lockedDrops;
      cur, freeAgentAdds, solutions, base, last := s, fa, rows, b, t;
      nAdds, nDrops, solves := nA, nD, k;
    }

    /** The invariant holds of the fields once it holds of their values. */
    lemma Sync(c: Control, s: Solution, fa: set<nat>, rows: seq<Record>, b: nat, t: Totals)
      requires c == Constraints() && s == cur && fa == freeAgentAdds && rows == solutions && b == base && t == last
      requires Consistent(inst, solve, c, s, fa, rows, b, t)
      ensures Valid()
    {
      GuardedIff(depth, inst, solve, c, s, fa, rows, b, t);
    }

    /** The bounds the invariant puts on the locked sets and the rows. */
    lemma Bound()
      requires Valid()
      ensures |knownAdds + knownDrops| <= |inst.players| && |solutions| <= |inst.players| + 1
      ensures Ledger(solutions, base)
      ensures maxAdds.Some? ==> |knownAdds| <= maxAdds.value
      ensures maxDrops.Some? ==> |knownDrops| <= maxDrops.value
      ensures forall p :: p in knownDrops ==> p < |inst.players| && inst.players[p].roster0
      ensures forall p :: p in knownAdds ==> p < |inst.players| && inst.players[p].available
      ensures forall p :: p in freeAgentAdds ==> p in knownAdds && inst.players[p].freeAgent
    {
      GuardedIff(depth, inst, solve, Constraints(), cur, freeAgentAdds, solutions, base, last);
      LockedBound(inst, solve, Constraints(), cur, freeAgentAdds, solutions, base, last);
      LockedMovesEligible(inst, solve, Constraints(), cur, freeAgentAdds, solutions, base, last);
    }

    /** Lines 177-197: solve, lock and record every forced drop, record the baseline, and
        bound the drops by their number. */
    method Baseline() returns (ok: bool)
      requires Fresh()
      modifies this
      ensures Complete(inst, solve) ==> ok
      ensures solves == 1
      ensures ok ==> Valid() && knownAdds == {} && Shaped(inst, cur) && knownDrops == DropSet(inst, cur) && freeAgentAdds == {}
      ensures ok ==> maxAdds == Some(0) && freeAgentsOnly && maxDrops == Some(nDrops) && nDrops == |knownDrops|
      ensures ok ==> base == |knownDrops| && |solutions| == base + 1
      ensures ok ==> solutions == DropRows(inst, cur, |inst.players|) + [Record(CurrentRoster, "", Some(last))]
      ensures ok ==> solve(Control(Some(0), true, None, {}, {})) == Some(cur) && last == TotalsOf(inst, cur)
    {
      var s, known, rows, now;
      ok, s, known, rows, now := FirstSolve(inst, solve);
      if !ok {
        solves := 1;
        return;
      }
      Load(Control(Some(0), true, Some(|rows|), {}, known), s, {}, rows + [Record(CurrentRoster, "", Some(now))],
           |rows|, now, nAdds, |rows|, 1);
      Sync(Control(Some(0), true, Some(|rows|), {}, known), s, {}, rows + [Record(CurrentRoster, "", Some(now))], |rows|, now);
    }

    /** Changes the bounds, the free-agent rule and the record of free-agent adds (lines 232,
        269-270, 301 and the bound updates at the head of each loop), while the last solution
        still meets the new control. */
    method Relax(c: Control, ghost fa: set<nat>)
      requires Valid()
      requires c.lockedAdds == knownAdds && c.lockedDrops == knownDrops
      requires c.maxAdds.Some? ==> |knownAdds| <= c.maxAdds.value
      requires c.freeAgentsOnly ==> freeAgentsOnly
      requires c.maxDrops.Some? ==> maxDrops.Some? && maxDrops.value <= c.maxDrops.value
      requires fa == freeAgentAdds || (fa == knownAdds && freeAgentsOnly)
      modifies this
      ensures Valid() && Constraints() == c && freeAgentAdds == fa
      ensures cur == old(cur) && solutions == old(solutions) && base == old(base) && last == old(last)
      ensures nAdds == old(nAdds) && nDrops == old(nDrops) && solves == old(solves)
    {
      ghost var s, b := cur, base;
      var rows, t := solutions, last;
      GuardedIff(depth, inst, solve, Constraints(), s, freeAgentAdds, rows, b, t);
      ConsistentRelax(inst, solve, Constraints(), c, s, freeAgentAdds, fa, rows, b, t);
      Load(c, s, fa, rows, b, t, nAdds, nDrops, solves);
      Sync(c, s, fa, rows, b, t);
    }

    /** One re-solve (lines 203-229 and their counterparts): set the bounds and the free-agent
        rule, solve, and lock and record the moves of the solution. A solution with no move not
        yet locked changes nothing else; otherwise its moves are locked and a row with their
        labels and the change of totals is appended. `swap` scans drops as well as adds;
        `claim` names the owning team in add labels. The new bounds must still admit the last
        solution. After a move the locks grow by the answer's adds (and, with `swap`, its
        drops), the sets `AddSet` and `DropSet` of `cur`, written out through `Marked`. */
    method Step(maxA: Option<int>, faOnly: bool, maxD: Option<int>, swap: bool, claim: bool)
      returns (ok: bool, moved: bool, added: nat)
      requires Valid()
      requires maxA.Some? ==> |knownAdds| <= maxA.value
      requires faOnly ==> freeAgentsOnly
      requires maxD.Some? ==> maxDrops.Some? && maxDrops.value <= maxD.value
      modifies this
      ensures Valid()
      ensures maxAdds == maxA && freeAgentsOnly == faOnly && maxDrops == maxD
      ensures Complete(inst, solve) ==> ok
      ensures ok == solve(Control(maxA, faOnly, maxD, old(knownAdds), old(knownDrops))).Some?
      ensures ok ==> (moved <==> !Settled(inst, solve(Control(maxA, faOnly, maxD, old(knownAdds), old(knownDrops))).value,
                                          old(knownAdds), old(knownDrops), swap))
      ensures nAdds == old(nAdds) && nDrops == old(nDrops) && freeAgentAdds == old(freeAgentAdds) && base == old(base)
      ensures solves == old(solves) + 1
      ensures old(knownAdds) <= knownAdds && old(knownDrops) <= knownDrops
      ensures !swap ==> knownDrops == old(knownDrops)
      ensures swap ==> |knownAdds| == |old(knownAdds)| + added
      ensures !moved ==> knownAdds == old(knownAdds) && knownDrops == old(knownDrops) &&
                         solutions == old(solutions) && last == old(last) && cur == old(cur)
      ensures moved ==> |knownAdds + knownDrops| > |old(knownAdds) + old(knownDrops)|
      ensures moved ==> solutions == old(solutions) + [Record(
                LastLabel(inst, knownAdds - old(knownAdds), |inst.players|, claim, true),
                if swap then LastLabel(inst, knownDrops - old(knownDrops), |inst.players|, false, false) else "",
                Some(Minus(last, old(last))))]
      ensures moved ==> solve(Control(maxA, faOnly, maxD, old(knownAdds), old(knownDrops))) == Some(cur)
      ensures moved ==> |cur.add| == |inst.players| && knownAdds == old(knownAdds) + Marked(cur.add, |inst.players|)
      ensures moved && swap ==> |cur.drop| == |inst.players| && knownDrops == old(knownDrops) + Marked(cur.drop, |inst.players|)
      ensures |knownAdds + knownDrops| <= |inst.players|
      ensures maxAdds.Some? ==> |knownAdds| <= maxAdds.value
      ensures maxDrops.Some? ==> |knownDrops| <= maxDrops.value
    {
      var c := Control(maxA, faOnly, maxD, knownAdds, knownDrops);
      ghost var s, fa, b := cur, freeAgentAdds, base;
      var rows, t := solutions, last;
      GuardedIff(depth, inst, solve, Constraints(), s, fa, rows, b, t);
      ConsistentRelax(inst, solve, Constraints(), c, s, fa, fa, rows, b, t);
      var c', rows', last';
      ghost var s';
      ok, moved, added, c', s', rows', last' := Resolve(inst, solve, c, s, fa, rows, b, t, swap, claim);
      LockedBound(inst, solve, c', s', fa, rows', b, last');
      Load(c', s', fa, rows', b, last', nAdds, nDrops, solves + 1);
      Sync(c', s', fa, rows', b, last');
    }

    /** Lines 199-229: with only free agents and no drop beyond the forced ones, allow one more
        add per solve until a solve adds nobody new. */
    method FreeAgentAdds() returns (ok: bool)
      requires Valid() && freeAgentsOnly && knownAdds == {}
      modifies this
      ensures Valid() && (Complete(inst, solve) ==> ok)
      ensures freeAgentsOnly && maxDrops == old(maxDrops) && maxAdds == Some(nAdds) && |knownAdds| < nAdds
      ensures knownDrops == old(knownDrops) && nDrops == old(nDrops) && freeAgentAdds == old(freeAgentAdds)
      ensures ok ==> solve(Constraints()).Some? && Settled(inst, solve(Constraints()).value, knownAdds, knownDrops, false)
      ensures base == old(base)
      ensures solves <= old(solves) + |knownAdds + knownDrops| - |old(knownAdds) + old(knownDrops)| + 1
    {
      nAdds := 1;
      Bound();
      while true
        invariant Valid() && freeAgentsOnly && maxDrops == old(maxDrops) && |knownAdds| < nAdds
        invariant knownDrops == old(knownDrops) && nDrops == old(nDrops) && freeAgentAdds == old(freeAgentAdds)
        invariant base == old(base)
        invariant solves <= old(solves) + |knownAdds + knownDrops| - |old(knownAdds) + old(knownDrops)|
        invariant |knownAdds + knownDrops| <= |inst.players|
        decreases |inst.players| - |knownAdds + knownDrops|
      {
        var moved, added;
        ok, moved, added := Step(Some(nAdds), true, maxDrops, false, false);
        if !moved {
          return;
        }
        nAdds := nAdds + 1;
      }
    }

    /** Lines 231-266: with no add bound, allow one more drop per solve, each freeing a place for
        a free agent, until a solve moves nobody new; `n_adds` counts the adds. */
    method FreeAgentSwaps() returns (ok: bool)
      requires Valid() && freeAgentsOnly && |knownAdds| < nAdds && maxDrops == Some(nDrops) && |knownDrops| <= nDrops
      modifies this
      ensures Valid() && (Complete(inst, solve) ==> ok)
      ensures freeAgentsOnly && maxAdds == None && maxDrops == Some(nDrops) && |knownAdds| < nAdds
      ensures |knownDrops| < nDrops && freeAgentAdds == old(freeAgentAdds)
      ensures ok ==> solve(Constraints()).Some? && Settled(inst, solve(Constraints()).value, knownAdds, knownDrops, true)
      ensures old(knownAdds) <= knownAdds && old(knownDrops) <= knownDrops
      ensures base == old(base)
      ensures solves <= old(solves) + |knownAdds + knownDrops| - |old(knownAdds) + old(knownDrops)| + 1
    {
      Relax(Control(None, true, maxDrops, knownAdds, knownDrops), freeAgentAdds);
      Bound();
      while true
        invariant Valid() && freeAgentsOnly && maxDrops == Some(nDrops) && |knownAdds| < nAdds
        invariant |knownDrops| <= nDrops && freeAgentAdds == old(freeAgentAdds)
        invariant old(knownAdds) <= knownAdds && old(knownDrops) <= knownDrops
        invariant base == old(base)
        invariant solves <= old(solves) + |knownAdds + knownDrops| - |old(knownAdds) + old(knownDrops)|
        invariant |knownAdds + knownDrops| <= |inst.players|
        decreases |inst.players| - |knownAdds + knownDrops|
      {
        nDrops := nDrops + 1;
        var moved, added;
        ok, moved, added := Step(None, true, Some(nDrops), true, false);
        if !moved {
          return;
        }
        nAdds := nAdds + added;
      }
    }

    /** Lines 268-298: allow players on other teams' rosters (waiver claims), one more add per
        solve, until a solve adds nobody new; the adds locked so far are the free-agent adds.
        (The source adds the add bound with a constant of 0 and replaces it by `n_adds` before
        solving, so only the bound `n_adds` is ever solved under.) */
    method WaiverAdds() returns (ok: bool)
      requires Valid() && freeAgentsOnly && |knownAdds| < nAdds
      modifies this
      ensures Valid() && (Complete(inst, solve) ==> ok)
      ensures !freeAgentsOnly && maxAdds == Some(nAdds) && |knownAdds| < nAdds && freeAgentAdds == old(knownAdds)
      ensures maxDrops == old(maxDrops) && knownDrops == old(knownDrops) && nDrops == old(nDrops)
      ensures ok ==> solve(Constraints()).Some? && Settled(inst, solve(Constraints()).value, knownAdds, knownDrops, false)
      ensures old(knownAdds) <= knownAdds
      ensures base == old(base)
      ensures solves <= old(solves) + |knownAdds + knownDrops| - |old(knownAdds) + old(knownDrops)| + 1
    {
      Relax(Control(None, false, maxDrops, knownAdds, knownDrops), knownAdds);
      Bound();
      while true
        invariant Valid() && !freeAgentsOnly && |knownAdds| < nAdds && freeAgentAdds == old(knownAdds)
        invariant maxDrops == old(maxDrops) && knownDrops == old(knownDrops) && nDrops == old(nDrops)
        invariant old(knownAdds) <= knownAdds
        invariant base == old(base)
        invariant solves <= old(solves) + |knownAdds + knownDrops| - |old(knownAdds) + old(knownDrops)|
        invariant |knownAdds + knownDrops| <= |inst.players|
        decreases |inst.players| - |knownAdds + knownDrops|
      {
        var moved, added;
        ok, moved, added := Step(Some(nAdds), false, maxDrops, false, true);
        if !moved {
          return;
        }
        nAdds := nAdds + 1;
      }
    }

    /** Lines 300-334: with no add bound again, re-solve under the drop bound, one more drop
        after each solve that moves someone, until a solve moves nobody new. */
    method WaiverSwaps() returns (ok: bool)
      requires Valid() && !freeAgentsOnly && maxDrops.Some? && maxDrops.value <= nDrops
      modifies this
      ensures Valid() && (Complete(inst, solve) ==> ok)
      ensures !freeAgentsOnly && maxAdds == None && maxDrops.Some? && freeAgentAdds == old(freeAgentAdds)
      ensures ok ==> solve(Constraints()).Some? && Settled(inst, solve(Constraints()).value, knownAdds, knownDrops, true)
      ensures old(knownAdds) <= knownAdds && old(knownDrops) <= knownDrops
      ensures base == old(base)
      ensures solves <= old(solves) + |knownAdds + knownDrops| - |old(knownAdds) + old(knownDrops)| + 1
    {
      Relax(Control(None, false, maxDrops, knownAdds, knownDrops), freeAgentAdds);
      Bound();
      while true
        invariant Valid() && !freeAgentsOnly && maxDrops.Some? && maxDrops.value <= nDrops
        invariant freeAgentAdds == old(freeAgentAdds)
        invariant old(knownAdds) <= knownAdds && old(knownDrops) <= knownDrops
        invariant base == old(base)
        invariant solves <= old(solves) + |knownAdds + knownDrops| - |old(knownAdds) + old(knownDrops)|
        invariant |knownAdds + knownDrops| <= |inst.players|
        decreases |inst.players| - |knownAdds + knownDrops|
      {
        var moved, added;
        ok, moved, added := Step(None, false, Some(nDrops), true, true);
        if !moved {
          return;
        }
        nDrops := nDrops + 1;
      }
    }

    /** Lines 177-334: the baseline and the four phases in order, stopping at the first solve
        that does not come back optimal. */
    method Run() returns (ok: bool)
      requires Fresh()
      modifies this
      ensures Complete(inst, solve) ==> ok
      ensures ok ==> Valid() && solves <= |inst.players| + 5
      ensures ok ==> solve(Constraints()).Some? && Settled(inst, solve(Constraints()).value, knownAdds, knownDrops, true)
      ensures ok ==> |solutions| <= |inst.players| + 1 && Ledger(solutions, base)
    {
      ok := Baseline();
      if !ok {
        return;
      }
      ok := FreeAgentAdds();
      if ok {
        ok := FreeAgentSwaps();
      }
      if ok {
        ok := WaiverAdds();
      }
      if ok {
        ok := WaiverSwaps();
      }
      Bound();
    }
  }

  /** `optimize`'s enumeration (lines 177-334): the rows of moves, or nothing when a solve does
      not come back optimal. A solver that answers every feasible control always yields rows;
      they form a ledger, one row per locked player at most besides the baseline. */
  method Enumerate(inst: Instance, solve: Control -> Option<Solution>) returns (rows: Option<seq<Record>>)
    requires WellFormed(inst) && OptimalSolver(inst, solve)
    ensures Complete(inst, solve) ==> rows.Some?
    ensures rows.Some? ==> |rows.value| <= |inst.players| + 1
    ensures rows.Some? ==> exists b :: Ledger(rows.value, b)
  {
    var e := new MoveEnumerator(inst, solve);
    var ok := e.Run();
    if ok {
      rows := Some(e.solutions);
    } else {
      rows := None;
    }
  }
}
