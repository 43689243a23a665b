# ffbot roster optimizer, modelled in Dafny

ffbot recommends waiver-wire moves for a fantasy-football team. Its optimizer
(`ffbot/optimizer.py`, `optimize`) does the following:

1. It reads the league's slot configuration.
2. It works out which slots each player position may fill.
3. It builds the per-player parameters from the scraped projections.
4. It sets up a binary program. The program chooses who is on the roster, who is
   added and dropped, and who fills which slot in every remaining week. It maximises
   the discounted projected points.
5. It enumerates moves by re-solving the program with ever looser limits. Every
   move it finds is locked in and recorded as a row: the add, the drop, and the
   change in total points, discounted points and value over replacement (VOR).

`ffbot/utils.py` saves each scrape under a name carrying the week, and reads the
week back from the newest file's name.

The model has eight modules:

- `Wrappers`: `Option` and `Result`.
- `Text`: Python's `str.split` with a one-character separator, `str.strip()`, and
  their laws.
- `Eligibility`: the slot labels and their capacities (`Counter(positions)`). It
  also builds the position-to-slot table: the canonical rules restricted to the
  league, then the multi-position players added as the union of their
  components. And it holds the IR-status test.
- `Parameters`:
  - the week horizon and the discount factors;
  - the per-player flags, filled row by row from the data frame, including the
    error path when a "Week t" column is missing;
  - the player-to-slot pairs, including bench and IR.
- `Problem`: the `Instance` of the binary program, assembled from the slot
  configuration, the week, the team and the data frame through `Eligibility` and
  `Parameters`.
- `Assignment`: the decision variables as a `Solution`, the constraints, the
  objective, and the solver as a function of the current `Control`. `Control`
  holds the add and drop bounds, the free-agent rule and the locked moves. Any
  solver status other than "Optimal" is `None`, where the source fails its
  assert.
- `Enumerator`: the enumeration as a class `MoveEnumerator`. Its fields are the
  state that `optimize` updates: the control, the locked adds and drops, the
  counters `n_adds` and `n_drops`, the rows and the last totals. Its methods are
  the baseline solve and the four re-solve phases. The invariant `Valid` says:
  - the last recorded solution is feasible under the current control (each solve
    also states that this solution is the solver's answer to the control it was run on);
  - every locked drop was on the roster, and every locked add was available;
  - the recorded rows form a ledger. Their running sum from the baseline row is the
    last solution's totals, and there is at most one row per locked player besides
    the baseline.
- `Snapshots`: the file name `save` writes, and the week `load` extracts from a
  base name (the last run of decimal digits).

The solver is a parameter `solve: Control -> Option<Solution>`. The model proves
the following about a solver that only returns feasible and optimal solutions:

- the enumeration terminates after at most one solve per player plus five;
- every row's totals add up to the final solution's totals;
- the discounted points never decrease from one row to the next;
- a solver that answers every feasible control never makes the enumeration fail.

## Model

| member | source | states |
|---|---|---|
| Text.Split | ffbot/optimizer.py:34 | `str.split(sep)` yields at least one piece and no piece contains the separator |
| Text.SplitWithoutSep | ffbot/optimizer.py:62 | a string splits into the single piece `[s]` exactly when it has no separator |
| Text.JoinSplit | ffbot/optimizer.py:34 | joining the pieces of a split with the separator gives back the original string |
| Text.SplitJoin | ffbot/optimizer.py:34 | splitting a join of separator-free pieces gives back the pieces |
| Text.SplitAt | ffbot/optimizer.py:62 | a split breaks at the first separator, wherever it is |
| Text.SplitHead | ffbot/optimizer.py:111 | `s.split("-")[0]` is the text before the first hyphen |
| Text.TrimStart | ffbot/optimizer.py:34 | the leading-whitespace half of `strip()`; `TrimStartShape` states what it removes |
| Text.TrimEnd | ffbot/optimizer.py:34 | the trailing-whitespace half of `strip()`; `TrimEndShape` states what it removes |
| Text.Strip | ffbot/optimizer.py:34 | `x.strip()` as both halves; `StripEnds`, `StripIsInfix`, `StripRemovesNoOther`, `StripUnspaced` and `StripIdempotent` state its laws |
| Text.TrimStartShape | ffbot/optimizer.py:34 | removing leading whitespace keeps a suffix, removes only whitespace, and stops at a non-space |
| Text.TrimEndShape | ffbot/optimizer.py:34 | removing trailing whitespace keeps a prefix, removes only whitespace, and stops at a non-space |
| Text.StripEnds | ffbot/optimizer.py:34 | a stripped string neither starts nor ends with whitespace |
| Text.StripIsInfix | ffbot/optimizer.py:34 | `strip()` keeps one contiguous block and everything around it is whitespace |
| Text.StripRemovesNoOther | ffbot/optimizer.py:63 | every character of the stripped text occurs in the original |
| Text.StripUnspaced | ffbot/optimizer.py:63 | a string without surrounding whitespace is its own `strip()` |
| Text.StripIdempotent | ffbot/optimizer.py:34 | stripping twice is stripping once |
| Eligibility.SlotLabels | ffbot/optimizer.py:34 | the configuration gives one label per comma-separated piece |
| Eligibility.SlotLabelsShape | ffbot/optimizer.py:34 | there is one label more than there are commas, and each label is comma-free and stripped |
| Eligibility.SplitCount | ffbot/optimizer.py:34 | a split has one piece more than the string has separators |
| Eligibility.Capacity | ffbot/optimizer.py:66 | `PositionMax` has exactly the labels as keys and maps each to its number of occurrences |
| Eligibility.Distinct | ffbot/optimizer.py:67 | `POSITIONS` lists every label exactly once |
| Eligibility.CapacitiesSumToSlotCount | ffbot/optimizer.py:66-67 | the capacities of the distinct labels add up to the number of slots |
| Eligibility.KeysListed | ffbot/optimizer.py:66-67 | a label has a capacity exactly when it is one of `PositionMax.keys()` |
| Eligibility.Filtered | ffbot/optimizer.py:50-56 | a canonical rule is kept exactly when it meets the league's labels; a kept rule is restricted to those labels and is nonempty |
| Eligibility.FilterToLeague | ffbot/optimizer.py:50-56 | the in-place restriction loop followed by the removal of empty rules gives the table `Filtered` describes |
| Eligibility.Restrict | ffbot/optimizer.py:51-53 | the set comprehension over a rule is the rule intersected with the labels |
| Eligibility.DropEmpty | ffbot/optimizer.py:54-56 | removing empty rules from the restricted table gives `Filtered` |
| Eligibility.CanonicalKeysAtomic | ffbot/optimizer.py:35-48 | no canonical position has a comma or surrounding whitespace |
| Eligibility.AddComposites | ffbot/optimizer.py:58-65 | every player's position becomes a key, and each key maps to the union of its components' slots |
| Eligibility.AddMissing | ffbot/optimizer.py:59-65 | one loop iteration adds the position if missing and keeps the table resolved |
| Eligibility.AddPosition | ffbot/optimizer.py:61-65 | the entry built for a new position is the union of the slots of its stripped components |
| Eligibility.PieceStep | ffbot/optimizer.py:62-65 | each component adds its entry to the union, a component equal to the position adds the (empty) entry built so far, and an unknown one adds nothing |
| Eligibility.AtomicResolved | ffbot/optimizer.py:58 | the filtered table is resolved before the loop starts |
| Eligibility.ResolvedPieces | ffbot/optimizer.py:62-65 | a component looked up during the loop already has its final entry |
| Eligibility.SelfComponent | ffbot/optimizer.py:62-65 | a position can be its own stripped component only when it has no comma |
| Eligibility.ResolveEligibility | ffbot/optimizer.py:49-65 | the full table has keys from the league's rules plus all player positions, each mapped to the union of its components' filtered slots |
| Eligibility.ComponentSlots | ffbot/optimizer.py:62-65 | a position string may fill the union, over its comma-separated and stripped components, of their filtered rules; `CompositeIsUnion` and `ComponentSlotsInLeague` state its laws |
| Eligibility.ComponentSlotsInLeague | ffbot/optimizer.py:50-65 | every slot a composite position gets is one of the league's labels |
| Eligibility.CompositeIsUnion | ffbot/optimizer.py:62-65 | the slots of `"a,b"` are the slots of `a` together with those of `b` |
| Eligibility.SplitConcat | ffbot/optimizer.py:62 | splitting a joined string `a + sep + b` gives the pieces of `a` followed by those of `b` |
| Eligibility.UnionOfConcat | ffbot/optimizer.py:64-65 | the union of slots over concatenated components is the union of the two unions |
| Eligibility.ReserveEligible | ffbot/optimizer.py:111 | a status allows IR when it is present and its part before the first hyphen is in `IR_STATUSES`; `ReserveEligibleIff` states it without the split |
| Eligibility.ReserveEligibleIff | ffbot/optimizer.py:111 | a status qualifies for IR exactly when it is an IR status, alone or followed by a hyphen and any suffix |
| Eligibility.ReserveExampleHyphen | ffbot/optimizer.py:17-23 | the status examples "IR-R" and "COVID-19" qualify for IR |
| Eligibility.ReserveExampleOther | ffbot/optimizer.py:111 | "Q", "IRX" and a missing status do not qualify |
| Parameters.Horizon | ffbot/optimizer.py:70 | `TIMES` is the increasing run of weeks from `week` through 17, empty when `week` is past 17 |
| Parameters.Factor | ffbot/optimizer.py:97-99 | each discount factor lies in (0, 1] |
| Parameters.FactorLaw | ffbot/optimizer.py:97-99 | the current week is not discounted, and each later week is strictly less valuable |
| Parameters.PowerAtLeastOne | ffbot/optimizer.py:98 | `1.4 ** k` is at least 1 |
| Parameters.DiscountOfWeek | ffbot/optimizer.py:97-99 | every week of the horizon has a discount, namely the factor for its distance from the current week |
| Parameters.Discounts | ffbot/optimizer.py:97-99 | `Discounts` maps the week at position `k` of the horizon to factor `k`; `DiscountOfWeek` states it by week |
| Parameters.RowFlags | ffbot/optimizer.py:86-92 | a player is on our roster iff their owner id is our team, available iff they have no owner id, and a free agent iff available and owned by "Free Agent"; rostered players are never available |
| Parameters.ReadProjections | ffbot/optimizer.py:93-94 | reading succeeds iff the row has every week's column; on success it holds every week's projection, on failure it names a missing week |
| Parameters.IdsExtend | ffbot/optimizer.py:81-83 | `PLAYERS` grows by each row's id |
| Parameters.BuildPlayers | ffbot/optimizer.py:81-95 | building succeeds iff every row has every week's column; the players are the rows' ids, each described by the last row with that id |
| Parameters.KeptStep | ffbot/optimizer.py:84-95 | storing a row's values under its id keeps every id described by its last row so far, so a repeated id is overwritten |
| Parameters.StartingPairs | ffbot/optimizer.py:101-106 | one player's pairs are the league labels its position is eligible for |
| Parameters.PositionPairs | ffbot/optimizer.py:101-106 | `PlayerPosition` holds exactly the pairs of a player and a league label the player's position is eligible for |
| Parameters.AddBenchAndReserve | ffbot/optimizer.py:107-112 | the result adds `BN` for every player, and `IR` exactly for the players whose status qualifies |
| Parameters.PlayerSlots | ffbot/optimizer.py:113-119 | a label is among a player's slots exactly when it is one of `POSITIONS` and is paired with the player in `PlayerPosition` |
| Parameters.SlotsOfPlayer | ffbot/optimizer.py:101-119 | over the pairs of `PlayerPosition`, a player may be assigned exactly the league labels its position is eligible for, the bench, and IR when its status qualifies |
| Problem.BuildInstance | ffbot/optimizer.py:34-119 | building succeeds iff every row has every week's column, and otherwise names a missing week; the instance is well formed, its labels and capacities are `PositionMax`, week `k` of the horizon is discounted by factor `k`, and each player carries the values, flags, projections and slots of the last row with its id |
| Problem.Assemble | ffbot/optimizer.py:96-119 | from kept records, the instance's players are the rows' values with their slot sets, and the discounts follow the horizon |
| Problem.KeptRecords | ffbot/optimizer.py:58-95 | every player has a record describing its last row, and its position has an entry in the eligibility table |
| Problem.LastIndex | ffbot/optimizer.py:81-95 | each id of the table has a last row, whose values the parameter loop keeps |
| Problem.PlayerFromRow | ffbot/optimizer.py:84-119 | the player built from a record that describes a row carries that row's values and slots |
| Problem.Weights | ffbot/optimizer.py:97-99 | the discounts laid out along the horizon give week `k` of it factor `k` |
| Problem.PlayerValues | ffbot/optimizer.py:84-95 | a record that describes a row gives a player with that row's name, position, owner, flags, projections and VOR |
| Problem.PlayerSlotsOf | ffbot/optimizer.py:101-119 | a player's slots are the labels its position may fill (the union over its components), the bench, and IR when its status qualifies |
| Problem.InDistinct | ffbot/optimizer.py:66-67 | a label is a key of `PositionMax` exactly when it occurs in the configuration |
| Assignment.MarkedStep | ffbot/optimizer.py:183-184 | scanning one more player adds that player exactly when the player's flag is set |
| Assignment.Structural | ffbot/optimizer.py:145-173 | the constraints except the bounds the enumerator changes: one eligible slot per rostered player and week and none otherwise, drops only of rostered players, adds only of available ones, the roster equation, and the slot capacities |
| Assignment.ControlOK | ffbot/optimizer.py:140-144 | `max_adds`, `only_add_free_agents`, `max_drops` (line 197) and the locked adds and drops, each when present |
| Assignment.Feasible | ffbot/optimizer.py:140-173 | a solution meets every constraint of the program under the given control |
| Assignment.Points | ffbot/optimizer.py:149-154 | `points[p, t]` is the projection when the player starts that week and 0 on the bench, on IR or off the roster |
| Assignment.Discounted | ffbot/optimizer.py:137 | the objective: the discounted points of every player over the horizon, summed |
| Assignment.Optimal | ffbot/optimizer.py:136-137 | a feasible solution whose objective no feasible solution exceeds |
| Assignment.OptimalSolver | ffbot/optimizer.py:179-180 | whenever the solver reports "Optimal", its answer is an optimal solution of the program under that control |
| Assignment.Complete | ffbot/optimizer.py:179-180 | a solver that answers every program that has a feasible solution |
| Assignment.RosterEquation | ffbot/optimizer.py:158-163 | in a structurally valid solution a player is rostered iff the player was rostered and not dropped, or was added; no one is both added and dropped |
| Assignment.StructuralExclusive | ffbot/optimizer.py:158-163 | no structurally valid solution adds and drops the same player |
| Assignment.MovesDisjoint | ffbot/optimizer.py:158-163 | the added and dropped players of a valid solution are disjoint sets |
| Assignment.IdleScoresNothing | ffbot/optimizer.py:145-154 | a player who is not rostered scores no points in any week |
| Assignment.DropAll | ffbot/optimizer.py:126-134 | the solution that drops every rostered player has the program's shape |
| Assignment.DropAllFeasible | ffbot/optimizer.py:140-173 | the first program is always feasible (drop everyone, add no one, assign no one), so an exact solver cannot fail the first solve |
| Enumerator.LedgerStart | ffbot/optimizer.py:188-196 | the forced-drop rows and the baseline row form a ledger whose running sum is the baseline totals |
| Enumerator.LedgerAppend | ffbot/optimizer.py:218-229 | appending a move row with a non-negative discounted change keeps a ledger and adds the row's change to the running sum |
| Enumerator.RunningTotal | ffbot/optimizer.py:222-229 | the last totals plus the recorded difference are the new totals |
| Enumerator.TotalsOf | ffbot/optimizer.py:190-192 | a solution's total points, objective value and VOR of its roster |
| Enumerator.Accumulate | ffbot/optimizer.py:188-229 | the running sum of the rows' totals, a forced-drop row adding nothing |
| Enumerator.Ledger | ffbot/optimizer.py:181-229 | the layout of the rows: the forced drops, the baseline row, then move rows that each name a player and do not lower the objective |
| Enumerator.PlayerLabel | ffbot/optimizer.py:185 | a player's label is never empty |
| Enumerator.AddLabel | ffbot/optimizer.py:278 | a claim's label, which names the owner, is never empty |
| Enumerator.LastLabel | ffbot/optimizer.py:206-211 | the label a scan keeps is empty iff no move was found |
| Enumerator.LastLabelEmpty | ffbot/optimizer.py:212-213 | the add label is empty exactly when every add of the solution was already locked |
| Enumerator.DropRows | ffbot/optimizer.py:183-188 | one row per dropped player in player order, each naming `Name (Position)` as the drop and holding no totals |
| Enumerator.ScanDrops | ffbot/optimizer.py:181-189 | the locked drops are the dropped players of the first solve, and the rows are exactly `DropRows`: one per drop, in player order, labelled with the player |
| Enumerator.ScanAdds | ffbot/optimizer.py:206-211 | the locked adds grow by the solution's adds; the label is that of the last new add |
| Enumerator.ScanFlagStep | ffbot/optimizer.py:241-248 | one scan step locks a player iff the flag is set and the player is not yet locked |
| Enumerator.SwapScanStep | ffbot/optimizer.py:240-248 | one iteration of the swap scan checks the drop first and the add only in the `elif` |
| Enumerator.SwapScanMeaning | ffbot/optimizer.py:240-248 | the recursive scan locks the drops and adds found so far, and counts and labels them |
| Enumerator.SwapScanStart | ffbot/optimizer.py:238-239 | the swap scan starts with empty labels and no new adds |
| Enumerator.SwapScanResult | ffbot/optimizer.py:238-249 | a complete swap scan locks every added and every dropped player, counts the new adds, and keeps the last labels |
| Enumerator.ScanSwaps | ffbot/optimizer.py:238-249 | the loop locks every dropped and every added player, counts the new adds for `n_adds`, and keeps the labels of the last new add and drop |
| Enumerator.LooserFeasible | ffbot/optimizer.py:232-235 | a solution feasible under a control stays feasible once the bounds are looser |
| Enumerator.NoWorse | ffbot/optimizer.py:179-180 | when the last solution is still feasible, an exact solver answers the re-solve and its answer scores no fewer discounted points |
| Enumerator.BaselineConsistent | ffbot/optimizer.py:177-196 | the first solve, its forced drops and the baseline row establish the enumerator's invariant |
| Enumerator.BaselineBooks | ffbot/optimizer.py:188-196 | the baseline row records the first solution's totals |
| Enumerator.RecordMove | ffbot/optimizer.py:212-229 | a re-solve that finds a move keeps the invariant once its moves are locked and its row appended, and it locks at least one more player |
| Enumerator.RecordLocks | ffbot/optimizer.py:207-211 | locking the moves of a feasible solution keeps every locked drop rostered and every locked add available |
| Enumerator.LockGrowth | ffbot/optimizer.py:241-248 | locking a new add or drop strictly enlarges the locked set |
| Enumerator.RecordBooks | ffbot/optimizer.py:215-229 | a move row with the change in totals extends the ledger |
| Enumerator.LockedMovesEligible | ffbot/optimizer.py:158-162 | every locked drop was on the roster, every locked add was available, and every recorded free-agent add is a free agent |
| Enumerator.LockedBound | ffbot/optimizer.py:197-334 | no more players are locked than exist, there are at most that many plus one rows, and the locks satisfy the bounds |
| Enumerator.ConsistentRelax | ffbot/optimizer.py:232-301 | loosening the add bound, the free-agent rule or the drop bound keeps the invariant |
| Enumerator.FirstSolve | ffbot/optimizer.py:179-196 | an exact solver answers the first solve; the recorded solution is the solver's answer and the baseline row holds its totals; its forced drops and the baseline row meet the invariant; the forced-drop rows are exactly `DropRows` of the answer |
| Enumerator.ScanMoves | ffbot/optimizer.py:206-249 | the scan locks every add (and in swap phases every drop), and the labels are empty iff nothing new was found |
| Enumerator.Resolve | ffbot/optimizer.py:203-229 | one re-solve keeps the invariant; it moves iff the solution holds an unlocked move, and then records the solver's answer, appends a row with the change in totals and keeps the answer's totals as the last ones; after a move the locked adds are the old ones plus the answer's adds, and in swap phases the locked drops the old ones plus the answer's drops |
| Enumerator.MoveEnumerator.constructor | ffbot/optimizer.py:123-144 | a new enumerator holds the program as built: no adds, only free agents, no drop bound |
| Enumerator.MoveEnumerator.Bound | ffbot/optimizer.py:197-334 | under the invariant the locks respect the bounds and the rows are a ledger of at most one row per player plus one |
| Enumerator.MoveEnumerator.Baseline | ffbot/optimizer.py:177-197 | the first solve locks its forced drops, records the solver's answer and its totals as the baseline after exactly the `DropRows` of that answer, and bounds the drops by their number |
| Enumerator.MoveEnumerator.Relax | ffbot/optimizer.py:232-301 | deleting or loosening a constraint keeps the invariant and leaves the rows and the solution alone |
| Enumerator.MoveEnumerator.Step | ffbot/optimizer.py:203-229 | one re-solve under given bounds keeps the invariant; it locks and records a row exactly when the solution has an unlocked move, and then the current solution is the solver's answer under those bounds; otherwise it changes nothing; after a move `known_adds` grows by exactly the answer's adds, and with `swap` `known_drops` by exactly its drops |
| Enumerator.MoveEnumerator.FreeAgentAdds | ffbot/optimizer.py:199-229 | the phase ends with a solution that adds nobody new, keeps the drops, and uses at most one solve per new lock plus one |
| Enumerator.MoveEnumerator.FreeAgentSwaps | ffbot/optimizer.py:231-266 | with no add bound, the phase ends with a solution that moves nobody new, and `n_drops` stays above the locked drops |
| Enumerator.MoveEnumerator.WaiverAdds | ffbot/optimizer.py:268-298 | without the free-agent rule, the phase records the free-agent adds and ends with a solution that adds nobody new |
| Enumerator.MoveEnumerator.WaiverSwaps | ffbot/optimizer.py:300-334 | with no add bound again, the phase ends with a solution that moves nobody new |
| Enumerator.MoveEnumerator.Run | ffbot/optimizer.py:177-334 | the enumeration ends settled after at most one solve per player plus five, with the invariant and a ledger of rows; an exact solver never makes it fail |
| Enumerator.Enumerate | ffbot/optimizer.py:177-334 | the result's rows form a ledger of at most one row per player plus one, and they are present whenever the solver answers every feasible control |
| Snapshots.Digits | ffbot/utils.py:20 | a week's decimal numeral is nonempty and all digits |
| Snapshots.Decimal | ffbot/utils.py:20 | `str(week)`: a numeral for a week of at least 0, a minus sign and a numeral otherwise |
| Snapshots.Value | ffbot/utils.py:38 | `int` of a run of digits, most significant first; `ValueDigits` states that it inverts `Digits` |
| Snapshots.ValueDigits | ffbot/utils.py:38 | `int` of a numeral gives back the number |
| Snapshots.LeadingDigits | ffbot/utils.py:37 | the length of the leading run of digits is followed by a non-digit |
| Snapshots.DigitRuns | ffbot/utils.py:37 | the runs `\d+` finds are nonempty and all digits; there are none iff the name has no digit; together they are the name's digits in order |
| Snapshots.DigitRunsMaximal | ffbot/utils.py:37 | there is one run per position where a digit follows a non-digit or starts the name |
| Snapshots.StartCountSplit | ffbot/utils.py:37 | cutting a name where no run crosses splits its run starts between the two parts |
| Snapshots.LeadingStarts | ffbot/utils.py:37 | a leading block of digits holds one run start |
| Snapshots.DigitsInRun | ffbot/utils.py:37 | a leading block of digits comes first among the digits of the name |
| Snapshots.DigitRunsAppend | ffbot/utils.py:37 | after a non-digit the runs of a concatenation are the runs of the two parts |
| Snapshots.RunStaysInside | ffbot/utils.py:37 | a run ending before a non-digit is not extended by what follows |
| Snapshots.NumeralRuns | ffbot/utils.py:37 | a numeral followed by digit-free text is a single run |
| Snapshots.NumeralAlone | ffbot/utils.py:37 | a numeral on its own is a single run |
| Snapshots.LeadingRun | ffbot/utils.py:37 | the leading run ends at the first non-digit |
| Snapshots.BaseName | ffbot/utils.py:34 | the base name is the part of the path after its last `/` |
| Snapshots.BaseNameAppend | ffbot/utils.py:34 | appending slash-free text extends the base name by that text |
| Snapshots.LoadWeek | ffbot/utils.py:37-38 | the week is missing exactly when the name has no digit |
| Snapshots.LoadWeekLastRun | ffbot/utils.py:37-38 | for any name, the week is the value of its last maximal run of digits: a numeral after a non-digit (or at the start) followed only by non-digits, whatever digits come before it |
| Snapshots.LoadIgnoresDirectory | ffbot/utils.py:31-34 | the base name of a file found in a folder is its own name, so the folder's digits never decide the week |
| Snapshots.SaveName | ffbot/utils.py:20 | the path `save` writes, `data/<timestamp> week <week>.csv`; `SaveLoadWeek` states that `load` reads its week back |
| Snapshots.SaveBaseName | ffbot/utils.py:20 | the base name of a saved file ends with `" week <n>.csv"` |
| Snapshots.WeekAfter | ffbot/utils.py:37-38 | a name ending in a numeral and `.csv` loads that numeral's week, whatever comes before a non-digit |
| Snapshots.SaveLoadWeek | ffbot/utils.py:20-38 | loading the name `save` writes gives back its week, for any timestamp (a negative week comes back without its sign) |
| Snapshots.FixtureWeek | tests/test_utils.py:8-11 | a file saved for week 12 loads as week 12 |

## Left out

- The solver's internals (CBC) and its choice among equally good optima: the solver
  is a parameter, and the model proves only what holds for any solver that returns
  feasible and optimal solutions.
- Floating point: projections, discounts and totals are exact reals, so the rounding
  of `1 / 1.4 ** k` and of the sums is not modelled.
- `df_opt.round(2)` and `fillna("")` (lines 336-338), and building the data frame.
- A forced-drop row has four cells under five headers, so its VOR is empty. The model
  gives such rows no totals at all.
- Reading the data frame (pandas, `iterrows`, `pd.isna`) is modelled as a sequence of
  rows with optional owner ids and statuses.
- `PLAYERS` is a Python set, so its iteration order is arbitrary. Players are numbered
  in one fixed order, and which player's label a scan keeps depends on that order.
  `BuildInstance` takes that order as a parameter: any sequence that lists every id
  of the table once.
- In phase 3 the source adds the add bound with a constant of 0 and sets it to
  `n_adds` before solving. The unsolved state with constant 0 is not modelled.
- Enumerator.MoveEnumerator.FreeAgentSwaps: after the last solve of phase 2, `n_drops`
  is one above the locked drops. This is stated as a bound, not as an equation.
- AddPosition: the source updates `PossiblePositions[position]` in place while it loops
  over the components. The model builds the entry in a local variable and stores it
  once. A component equal to the position is then its only component
  (`SelfComponent`), and it reads the still-empty entry, as the in-place update does.
- Logging (`logger.info`) and the scraper are not modelled.
- `save` and `load` on the file system (`makedirs`, `to_csv`, `listdir`, `getctime`,
  `read_csv`): only the file name and the week extraction are modelled. The
  timestamp is any string, because `datetime.now()` is a clock.
- The newest file is chosen by `max(..., key=getctime)`; the model starts from its
  path.
- Python's `\d` matches every Unicode decimal digit; the model matches only `0`-`9`.
- The test calls `load(SCRAPER_FILE)` but `load` takes no argument. The model follows
  the code, and `FixtureWeek` states the week the test expects.
- Enumerator.MoveEnumerator.Run: the rows are related to the totals as a ledger. Which
  rows each phase contributes is not stated phase by phase.
- Enumerator.Enumerate: the same as Run. The result is stated as a ledger, not row by row.
