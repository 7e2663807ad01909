# First-visit Monte Carlo grid agent, modelled in Dafny

This project models the learning core of the `MonteCarlo` Unity behaviour (`Assets/Scripts/MonteCarlo.cs`).
An agent walks a 15 x 15 grid from (7, -7) to (-7, 7) in unit steps. It has two modes:

- **Training.** For 500 episodes it picks uniformly random actions among those that do not point off the grid. It records a trajectory of (state, action, reward) steps. When it reaches the goal or uses up the step budget, it runs a reverse first-visit pass. That pass accumulates the discounted return G, appends G to the step's list of returns, and stores the mean of that list in the state-action value table.
- **Replay.** When a saved table is loaded, it instead follows the table greedily. It avoids states it has already left.

Modules, following the structure of the class:

- `Grid` (`grid.dfy`) covers these parts of the source:
  - the state coding (`getState`, with the banker's rounding of `Mathf.RoundToInt`);
  - the clamped step (`newPos`) and the obstacle-gated move (`move`);
  - the boundary cascade at the top of `chooseAction`, with `List.Remove`;
  - the goal test.
- `Episode` (`episode.dfy`): the `Trajectory` struct, the reward rule, the discounted return and the first-visit gate with its `GetRange(0, i - 1)` window.
- `ValueTables` (`value_tables.dfy`) covers:
  - `returnValues` and `stateActionValues`, with `addToReturnValues` and `addToStateActionValues` as functions on values;
  - the whole reverse pass as the function `Backup`;
  - the consistency of the two tables (every recorded list is non-empty and its mean is stored).
- `Greedy` (`greedy.dfy`): `findBestAction`'s policy as a relation (first strict maximum among eligible entries, otherwise a random index), with existence and uniqueness of that maximum.
- `MonteCarloAgent` (`monte_carlo.dfy`): the class `MonteCarlo` with the source's fields and its methods as imperative Dafny. Each method is proved against the functions above. `Valid()` is the class invariant that `Update` keeps.
- `Wrappers` (`wrappers.dfy`): `Option`.

Behaviour the model keeps exactly as the source has it, though it may look unintended:

- **The first-visit window.** It is `trajectory.GetRange(0, i - 1)`, the indices 0 .. i-2. So index i-1 is never examined, and a first occurrence repeated on the very next step is credited at both steps (`ConsecutiveRepeatCreditedTwice`).
- **The fallback of `findBestAction`.** It returns `Random.Range(0, actions.Count)`, an index into the candidate list, not a random candidate.
- **There is no default value of 1.0.** A missing entry of the value table is simply absent. Only the goal state's four actions are seeded with 1.0 in `Start`.
- **Non-terminal rewards.** Truncation takes precedence over the goal when both hold. Every non-terminal step costs -0.1, also when a move is rejected by an obstacle.

## Model

| member | source | states |
|---|---|---|
| Grid.RoundToInt | Assets/Scripts/MonteCarlo.cs:154-155 | the result is within 0.5 of the argument, and is even when the argument is exactly halfway |
| Grid.RoundingIsDetermined | Assets/Scripts/MonteCarlo.cs:154-155 | the two rounding properties single out one integer, so RoundToInt is Mathf.RoundToInt's rule |
| Grid.GetState | Assets/Scripts/MonteCarlo.cs:152-157 | the key of a grid position is its own pair of coordinates |
| Grid.SameKeyIffSameRounding | Assets/Scripts/MonteCarlo.cs:152-157 | two positions share a key exactly when both rounded coordinates agree |
| Grid.GetStateInjective | Assets/Scripts/MonteCarlo.cs:152-157 | on grid positions, equal keys mean equal positions, in both directions |
| Grid.Clamp | Assets/Scripts/MonteCarlo.cs:237 | the result lies in [lo, hi], and a value already inside is returned unchanged |
| Grid.NewPos | Assets/Scripts/MonteCarlo.cs:249-273 | the result is on the grid, and at most one unit from its argument when that is on the grid |
| Grid.MoveResult | Assets/Scripts/MonteCarlo.cs:213-247 | the position stays put exactly when the collision check is on and the target is blocked; otherwise it becomes newPos; it stays on the grid |
| Grid.RemoveFirst | Assets/Scripts/MonteCarlo.cs:163-181 | List.Remove shortens the list by one when the value occurs, and leaves it unchanged otherwise |
| Grid.RemoveFirstMultiset | Assets/Scripts/MonteCarlo.cs:163-181 | as a multiset, removal takes away exactly one copy of the value |
| Grid.RemoveFirstAt | Assets/Scripts/MonteCarlo.cs:163-181 | removing a value whose first occurrence is at index i splices out exactly index i |
| Grid.AllowedInRegion | Assets/Scripts/MonteCarlo.cs:161-182 | the exact candidate list in each of the four corners, the four edges and the interior |
| Grid.BoundaryActions | Assets/Scripts/MonteCarlo.cs:161-182 | the eight-branch cascade yields exactly the reference filter Allowed (0..3 in order, minus the actions pointing off the grid) |
| Grid.AllowedMembers | Assets/Scripts/MonteCarlo.cs:161-182 | an action survives the filter exactly when it is in 0..3 and does not point off the grid |
| Grid.AllowedIncreasing | Assets/Scripts/MonteCarlo.cs:161-182 | the candidates stay strictly increasing, so each occurs once |
| Grid.AllowedSize | Assets/Scripts/MonteCarlo.cs:161-182 | 4 minus the number of edges touched candidates remain, always 2 to 4 |
| Grid.AllowedByRegion | Assets/Scripts/MonteCarlo.cs:161-182 | two candidates at a corner, three on an edge, four inside |
| Grid.AllowedIffMoves | Assets/Scripts/MonteCarlo.cs:161-182 | on the grid, an action is kept exactly when its step changes the position, and then it moves by exactly one unit |
| Grid.AtGoalIffTarget | Assets/Scripts/MonteCarlo.cs:71 | on integer positions the threshold test holds exactly at the target |
| Episode.RewardCases | Assets/Scripts/MonteCarlo.cs:89-93 | steps * stepCost once the budget is reached (even at the goal), 0 at the goal otherwise, stepCost on any other step; never positive |
| Episode.DiscountedSumFirst | Assets/Scripts/MonteCarlo.cs:101 | a discounted sum is its first reward plus gamma times the discounted sum of the rest |
| Episode.ReturnIsDiscountedSum | Assets/Scripts/MonteCarlo.cs:99-101 | the backward accumulation G = gamma * G + r yields, at step i, the sum of gamma^(j-i) * r_j over the rest of the episode |
| Episode.ReturnAtEnd | Assets/Scripts/MonteCarlo.cs:99-101 | the return G of the last step, the first one the reverse loop handles, is its own reward |
| Episode.FirstVisitWindow | Assets/Scripts/MonteCarlo.cs:102-103 | a step is credited exactly when its pair occurs at no index up to i - 2; steps 0 and 1 are always credited |
| Episode.WindowTest | Assets/Scripts/MonteCarlo.cs:102-103 | the Any over GetRange(0, endRange) holds exactly when the step is not a first visit |
| Episode.ConsecutiveRepeatCreditedTwice | Assets/Scripts/MonteCarlo.cs:102-103 | a first occurrence repeated on the very next step is credited at both steps |
| Episode.RepeatAfterGapNotCredited | Assets/Scripts/MonteCarlo.cs:102-103 | an occurrence two or more steps after an earlier one is not credited |
| ValueTables.RecordSpec | Assets/Scripts/MonteCarlo.cs:122-135 | the pair's list gains the value at its end, both entries exist afterwards, and every other list and state entry is untouched |
| ValueTables.MeanAppend | Assets/Scripts/MonteCarlo.cs:142 | appending v adds v to the sum, and the mean becomes (sum + v) / (n + 1) |
| ValueTables.MeanOfTwoRecords | Assets/Scripts/MonteCarlo.cs:122-142 | recording v1 and then v2 for a fresh pair makes its average (v1 + v2) / 2 |
| ValueTables.RowGetNone | Assets/Scripts/MonteCarlo.cs:143-147 | a key the row lookup does not find occurs at no index |
| ValueTables.RowSet | Assets/Scripts/MonteCarlo.cs:144 | the indexer assignment makes the key hold the value and changes no other key; an existing key keeps its place, and a new key is appended |
| ValueTables.RowSetKeepsKeysDistinct | Assets/Scripts/MonteCarlo.cs:144 | the assignment keeps the row's keys distinct |
| ValueTables.SetMean | Assets/Scripts/MonteCarlo.cs:137-150 | with recorded returns, the pair's value becomes their mean; without them, the table is unchanged |
| ValueTables.SetMeanFrame | Assets/Scripts/MonteCarlo.cs:137-150 | refreshing one mean changes the value of no other pair |
| ValueTables.SetMeanKeepsRowsDistinct | Assets/Scripts/MonteCarlo.cs:137-150 | no row of the value table gains a duplicate key |
| ValueTables.RecordThenSetMeanConsistent | Assets/Scripts/MonteCarlo.cs:104-105 | recording a return and then refreshing its mean keeps every recorded list non-empty with its mean stored |
| ValueTables.BackupAppendsCredited | Assets/Scripts/MonteCarlo.cs:99-107 | the pass appends to each pair's list exactly the returns of that pair's first-visit steps, in reverse step order |
| ValueTables.BackupStepLookup | Assets/Scripts/MonteCarlo.cs:100-106 | one iteration appends to a pair's list its return when that step is a first visit of the pair, and nothing otherwise |
| ValueTables.CreditLookup | Assets/Scripts/MonteCarlo.cs:104 | crediting a step appends its return to its own pair's list and to no other |
| ValueTables.BackupConsistent | Assets/Scripts/MonteCarlo.cs:99-107 | the pass keeps the two tables consistent |
| ValueTables.BackupRowsDistinct | Assets/Scripts/MonteCarlo.cs:99-107 | the pass keeps every row's keys distinct |
| ValueTables.BackupLeavesOthers | Assets/Scripts/MonteCarlo.cs:99-107 | a pair that no remaining step uses keeps both its returns and its value |
| ValueTables.CreditedAbsent | Assets/Scripts/MonteCarlo.cs:99-107 | nothing is credited to a pair that does not occur |
| ValueTables.CreditedFirstOfTwoVisits | Assets/Scripts/MonteCarlo.cs:99-107 | a pair taken at steps 2 and 5 only is credited just the return of step 2 |
| Greedy.RandomRange | Assets/Scripts/MonteCarlo.cs:185 | Random.Range(0, n) gives an index below n, or 0 when n is 0 |
| Greedy.RandomRangeReachesAll | Assets/Scripts/MonteCarlo.cs:185 | every index of a non-empty range is some draw's result |
| Greedy.BestUnique | Assets/Scripts/MonteCarlo.cs:198-203 | at most one entry is the first strict maximum |
| Greedy.BestExists | Assets/Scripts/MonteCarlo.cs:198-203 | when some entry is eligible, a first strict maximum exists |
| Greedy.BestExtends | Assets/Scripts/MonteCarlo.cs:198-203 | one more entry either keeps the running maximum or becomes the new one |
| Greedy.GreedyChoiceDeterministic | Assets/Scripts/MonteCarlo.cs:192-211 | the table, the visited states, the position and the draw determine the replay action |
| Greedy.GreedyChoiceMeaning | Assets/Scripts/MonteCarlo.cs:192-211 | a found key is a candidate other than the marker 5 whose step leads to an unvisited state; otherwise the result is an index into the candidates, and absent the marker this happens only when no entry is eligible |
| MonteCarloAgent.TrainingChoice | Assets/Scripts/MonteCarlo.cs:184-186 | the drawn action is a candidate: in 0..3 and not pointing off the grid |
| MonteCarloAgent.SeededTable | Assets/Scripts/MonteCarlo.cs:39-44 | the starting table holds exactly the goal state, with 1.0 for each of the four actions |
| MonteCarloAgent.MarkerBestMeansNoBest | Assets/Scripts/MonteCarlo.cs:204-205 | when the first maximum carries key 5, the policy falls back to the random index |
| MonteCarloAgent.MonteCarlo.constructor | Assets/Scripts/MonteCarlo.cs:32-58 | the invariant holds at the start; the seeded table is used without saved data, and the loaded table (one episode, replay mode) with it |
| MonteCarloAgent.MonteCarlo.Update | Assets/Scripts/MonteCarlo.cs:61-83 | after the last episode nothing changes and training hands back the table to save; otherwise one replay or training step, keeping the invariant |
| MonteCarloAgent.MonteCarlo.RunMonteCarloMethod | Assets/Scripts/MonteCarlo.cs:85-111 | moves by the drawn action and records the step; at the goal or the budget, the tables become Backup of the whole trajectory and the episode resets |
| MonteCarloAgent.MonteCarlo.TakeStep | Assets/Scripts/MonteCarlo.cs:86-96 | the move, the step count, and the recorded step (state before the move, action, reward) |
| MonteCarloAgent.MonteCarlo.EndEpisode | Assets/Scripts/MonteCarlo.cs:98-110 | the tables become Backup of the trajectory and stay consistent, then the episode resets |
| MonteCarloAgent.MonteCarlo.BackwardPass | Assets/Scripts/MonteCarlo.cs:99-107 | the reverse loop leaves the tables equal to Backup and G equal to the return of step 0 |
| MonteCarloAgent.MonteCarlo.BackwardStep | Assets/Scripts/MonteCarlo.cs:100-106 | one iteration advances the tables from Backup(i + 1) to Backup(i), and G to the return of step i |
| MonteCarloAgent.MonteCarlo.ResetEpisode | Assets/Scripts/MonteCarlo.cs:113-120 | back to the start with zero steps, zero G and an empty trajectory, one more episode counted; visitedStates is not touched |
| MonteCarloAgent.MonteCarlo.AddToReturnValues | Assets/Scripts/MonteCarlo.cs:122-135 | the source's cascade computes Record of the old table |
| MonteCarloAgent.MonteCarlo.AddToStateActionValues | Assets/Scripts/MonteCarlo.cs:137-150 | the new value table is SetMean of the old one |
| MonteCarloAgent.MonteCarlo.ChooseAction | Assets/Scripts/MonteCarlo.cs:159-190 | in training, the drawn candidate; in replay, the greedy choice over the filtered candidates; in either mode an action in 0..3 |
| MonteCarloAgent.MonteCarlo.FindBestAction | Assets/Scripts/MonteCarlo.cs:192-211 | the loop's result satisfies the greedy relation: the first strict maximum's key, or the random index |
| MonteCarloAgent.MonteCarlo.Move | Assets/Scripts/MonteCarlo.cs:213-247 | the new position is MoveResult, with the collision check on only in training |

## Left out

- `SaveStateActionData` is not modelled, and neither is any file I/O. The loaded table is the constructor's `Option` argument, and the table to save is `Update`'s result.
- `retrieve()` is called twice in `Start`. The model reads it once: both calls read the same file.
- Unity plumbing is not modelled: the Animator, `print`, `Application.targetFrameRate`, the rotation the move sets, and the height coordinate y.
- Obstacle geometry is not modelled. `distanceToNearestObstacle(...) < 0.5` is the parameter `blocked(target, action)`, with the action standing for the facing it determines. Collecting the obstacles in `Start` is left out with it.
- Random numbers: `Random.Range` takes an injected draw `roll`, reduced modulo the range.
- `runMonteCarloMethod` is `async` but awaits nothing. It is modelled as an ordinary call.
- Floating point is modelled as exact `real` arithmetic. The model keeps no float rounding and uses the decimal values of -0.1f and 0.99f. The comparison `pair.Value > maxValue`, with `maxValue` starting at `float.MinValue`, is kept with float.MinValue as an exact constant.
- Positions are integer pairs. The start is (7, -7), steps are whole units and clamping is to ±7, so every reachable position is integral. The initial transform is taken to be the start position.
- The state key string "x,z" is a pair of integers. `StateOf` keeps the rounding of real coordinates.
- A `Dictionary<int, float>` row of `stateActionValues` is modelled as a list in insertion order, and `findBestAction`'s "first maximum wins" depends on that order. .NET leaves the enumeration order undefined. It is insertion order here only because no entry is ever removed and deserialization re-inserts the entries in order.
- `move` repeats newPos's code inline. In the model both use `NewPos`.
- MonteCarloAgent.MonteCarlo.TakeStep: `steps` is an unbounded integer, so the 32-bit overflow of `steps` is not modelled. The budget of 1000000 is reached long before that limit.
- MonteCarloAgent.MonteCarlo.constructor: requires the loaded table's rows to have distinct keys. A deserialized `Dictionary` always has distinct keys, and the model's rows are lists.
