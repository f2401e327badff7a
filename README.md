# The Bridge: decision engine

A model of the decision engine of "The Bridge". A group of motorcycles crosses
a bridge of four lanes of cells. A cell is solid (`'1'`) or a hole (`'0'`).
The motorcycles share one speed. Each turn the player picks one of five
actions: SPEED, SLOW, UP, DOWN or JUMP. A motorcycle that crosses a hole is
eliminated. The engine searches depth first for an action from which at least
`min` motorcycles can still reach the end of the bridge.

The project has three modules:

- `BridgeModel` (`model.dfy`) is the value specification:
  - a motorcycle `Moto(x, y, active)` and a `State(motos, speed)`;
  - the gap test `WillFall` and the move `MoveMoto`;
  - the five actions as one closed datatype, with their rejection rules
    (`Rejected`), their effect on one motorcycle (`StepMoto`) and the
    transition `Apply`, which gives `None` when the action is rejected.
- `Engine` (`search.dfy`) holds the search as a recursive function, `Search`,
  together with `FirstViable`, the loop over the actions in the order SPEED,
  JUMP, UP, DOWN, SLOW. Its termination measure counts each active motorcycle
  as one plus its distance to the end of lane 0. The module also holds:
  - the outcome lemma and threshold monotonicity;
  - `Respond`, the per-turn choice: threshold `m`, and if that fails,
    threshold `v`.
- `Bridge` (`bridge.dfy`) holds the program's objects:
  - the classes `Motorcycle` and `BridgeState`, whose fields are updated in
    place, and the deep-copy constructor;
  - the gap-test loop and the move;
  - the five `execute` methods, each of which copies the state and then moves
    the copy's motorcycles in a loop;
  - the recursive search method.

  Each method's contract ties the new objects to `Apply` or `Search` on the
  value of its input state. The execute methods and the search method have no
  `modifies` clause. The verifier therefore checks that they change no object
  that existed before the call, so the input state is never touched.

## Model

| member | source | states |
|---|---|---|
| `BridgeModel.WillFall` | TheBridge.java:170-177 | the gap test can only be true when the distance is at least 1 and some cell after `x` lies on the lane |
| `BridgeModel.MoveMoto` | TheBridge.java:179-185 | a move keeps the lane and never reactivates; on a gap the motorcycle is eliminated and keeps `x`; otherwise its flag is unchanged and `x` grows by the distance |
| `BridgeModel.Rejected` | TheBridge.java:69-153 | SPEED is never rejected; an accepted action on a state of speed `>= 0` leaves a speed of at least 1 |
| `BridgeModel.Name` | TheBridge.java:46-200 | the printed name is WAIT exactly for the wait decision and SPEED exactly for the SPEED action |
| `BridgeModel.ActiveCount` | TheBridge.java:188-195 | the count is at most the number of motorcycles, and a count of at least 1 means some motorcycle is active |
| `BridgeModel.LastActiveX` | TheBridge.java:188-195 | the column kept by the counting loop is 0 when no motorcycle is active |
| `BridgeModel.StepMoto` | TheBridge.java:51-166 | after any action, an eliminated motorcycle is unchanged; a survivor was active and ends at `x + speed` on lane `y + shift`; a motorcycle eliminated by the action keeps its `x`; an active motorcycle stays on lanes 0..3 with `x >= 0` |
| `BridgeModel.Apply` | TheBridge.java:51-166 | an action gives `None` exactly when it is rejected; otherwise the new state is valid, has as many motorcycles as the old one, has speed `NewSpeed` and has speed at least 1 |
| `BridgeModel.ApplyPointwise` | TheBridge.java:51-166 | for each of the five actions, the successor of an accepted action is fixed by stepping each motorcycle of the copy at the new speed |
| `BridgeModel.WillFallWindow` | TheBridge.java:170-177 | the gap test is true iff some cell from `x + 1` to `min(x + speed, length - 1)` is `'0'` |
| `BridgeModel.WillFallIgnoresCurrentCell` | TheBridge.java:171 | changing the cell the motorcycle stands on never changes the gap test; a distance of 0 or less never makes it fall |
| `BridgeModel.MoveEffect` | TheBridge.java:179-185 | a move keeps `y` and never reactivates; either the motorcycle is eliminated with `x` unchanged, or `x` grows by exactly `speed`; it survives iff it was active and the gap test is false |
| `BridgeModel.RejectionRules` | TheBridge.java:69-153 | SPEED is never rejected; SLOW iff speed < 2; JUMP iff speed is 0; UP (DOWN) iff speed is 0 or some active motorcycle is on lane 0 (lane 3) |
| `BridgeModel.SpeedSlowEffect` | TheBridge.java:51-80 | SPEED/SLOW set speed to speed + 1 / speed - 1 first; then each active motorcycle makes exactly one move at the new speed on its own lane |
| `BridgeModel.LaneChangeEffect` | TheBridge.java:89-142 | UP/DOWN keep the speed; an active motorcycle survives iff it does not fall within `speed - 1` cells on its old lane and then not within `speed` cells on lane `y -/+ 1`; a survivor ends at `(x + speed, y -/+ 1)` |
| `BridgeModel.JumpEffect` | TheBridge.java:150-166 | JUMP keeps the speed; an active motorcycle is eliminated iff cell `x + speed` lies on its lane and is `'0'`; otherwise it ends at `x + speed`, even past the end of the lane |
| `BridgeModel.JumpClearsGap` | TheBridge.java:156-163 | on lane `"1011"` at speed 2, JUMP lands on column 2 while the gap test over the same two cells is true: JUMP ignores the cells it passes over |
| `BridgeModel.InactiveOnBoundaryIgnored` | TheBridge.java:93-97 | an eliminated motorcycle on lane 0 does not make UP rejected |
| `BridgeModel.ApplyPreserves` | TheBridge.java:32-185 | every accepted action keeps the number of motorcycles (the copy at 32-38), leaves eliminated ones as they were (the `isActive` guards at 55, 75, 101, 132 and 157) and never reactivates one (the move at 179-185) |
| `BridgeModel.SpeedExample` | TheBridge.java:51-60 | a motorcycle at column 2 of a lane without gaps, at speed 1: SPEED gives speed 2 and column 4 |
| `BridgeModel.NamesDistinct` | TheBridge.java:46-200 | the six printed names SPEED, SLOW, UP, DOWN, JUMP and WAIT tell the decisions apart |
| `Engine.MeasureDecreases` | TheBridge.java:187-211 | if every motorcycle advances or falls, the measure does not grow; it strictly shrinks when some active motorcycle is short of the finish |
| `Engine.LastActiveIsLast` | TheBridge.java:188-195 | when at least one motorcycle is active, the column the counting loop keeps is that of an active motorcycle with no active one after it |
| `Engine.ActiveCountZero` | TheBridge.java:188-196 | the count is 0 iff no motorcycle is active |
| `Engine.ActiveCountNonIncreasing` | TheBridge.java:188-195 | stepping every motorcycle forward never raises the active count |
| `Engine.ApplyAdvances` | TheBridge.java:51-166 | under any accepted action, each motorcycle stays eliminated if it was, and a survivor has moved forward |
| `Engine.ApplyNeverAddsSurvivors` | TheBridge.java:51-166 | no accepted action raises the number of active motorcycles |
| `Engine.ApplyDecreases` | TheBridge.java:187-211 | when the search recurses (a motorcycle is active and the last active one is short of the end of lane 0), every accepted action strictly lowers the measure, so the search terminates for `min >= 1` |
| `Engine.FirstViableStep` | TheBridge.java:204-209 | one turn of the action loop: return this action if it is accepted and the search from its successor succeeds, else go on with the rest |
| `Engine.FirstViableIsFirst` | TheBridge.java:203-210 | the loop fails iff no action in the list is viable; when it succeeds it returns the first viable action |
| `Engine.SearchOutcomes` | TheBridge.java:187-211 | fewer than `min` active: None; otherwise, last active `x >= length of lane 0`: WAIT; otherwise the first of SPEED, JUMP, UP, DOWN, SLOW that is accepted and whose successor search succeeds, and None iff there is none |
| `Engine.Search` | TheBridge.java:187-211 | a success needs at least `min` active motorcycles; the answer is WAIT exactly when there are at least `min` and the last active one is at or past the end of lane 0 |
| `Engine.FirstViable` | TheBridge.java:203-210 | a result of the action loop is always one of the actions it tried |
| `Engine.Respond` | TheBridge.java:241-245 | the answer is missing exactly when both searches fail; when the search with `m` succeeds, the answer is its result, and otherwise it is the result of the search with `v` |
| `Engine.ThresholdMonotone` | TheBridge.java:196-208 | a success with threshold `k` implies a success with every threshold `k'` in `1..k` |
| `Engine.RespondOutcome` | TheBridge.java:241-245 | with `1 <= v <= m`: if the search with `m` succeeds, the answer is its result; the answer is missing iff the search with `v` fails |
| `Bridge.Motorcycle.constructor` | TheBridge.java:10-14 | the new motorcycle has the given `x`, `y` and flag |
| `Bridge.Motorcycle.Copy` | TheBridge.java:16-20 | the copy has the same `x`, `y` and flag as the original |
| `Bridge.BridgeState.constructor` | TheBridge.java:27-30 | the state holds the given array (shared, not copied) and speed |
| `Bridge.BridgeState.Copy` | TheBridge.java:32-38 | the copy holds a fresh array of fresh, pairwise distinct motorcycles with the same values and the same speed |
| `Bridge.CheckWillFall` | TheBridge.java:170-177 | the scanning loop returns exactly the gap test; false whenever speed <= 0 |
| `Bridge.Move` | TheBridge.java:179-185 | the motorcycle's new fields are `MoveMoto` of its old ones |
| `Bridge.MoveActive` | TheBridge.java:54-58 | after the SPEED/SLOW pass over the copy, each motorcycle is `StepMoto` of its value before |
| `Bridge.ShiftActive` | TheBridge.java:100-109 | after the UP/DOWN pass over the copy, each motorcycle is `StepMoto` of its value before |
| `Bridge.JumpActive` | TheBridge.java:156-164 | after the JUMP pass over the copy, each motorcycle is `StepMoto` of its value before |
| `Bridge.HasActiveOnLane` | TheBridge.java:93-97 | the rejection scan finds an active motorcycle on the lane iff there is one |
| `Bridge.ExecuteSpeed` | TheBridge.java:51-60 | returns a fresh state equal to `Apply(Speed, ...)` of the input, whose array and motorcycles are all fresh and pairwise distinct |
| `Bridge.ExecuteSlow` | TheBridge.java:68-81 | returns null iff SLOW is rejected, else a fresh state equal to `Apply(Slow, ...)` whose array and motorcycles are all fresh and pairwise distinct |
| `Bridge.ExecuteUp` | TheBridge.java:89-111 | returns null iff UP is rejected, else a fresh state equal to `Apply(Up, ...)` whose array and motorcycles are all fresh and pairwise distinct |
| `Bridge.ExecuteDown` | TheBridge.java:119-142 | returns null iff DOWN is rejected, else a fresh state equal to `Apply(Down, ...)` whose array and motorcycles are all fresh and pairwise distinct |
| `Bridge.ExecuteJump` | TheBridge.java:150-166 | returns null iff JUMP is rejected, else a fresh state equal to `Apply(Jump, ...)` whose array and motorcycles are all fresh and pairwise distinct |
| `Bridge.Execute` | TheBridge.java:203-205 | dispatching on the action gives that action's result: null iff the action is rejected, else a fresh, unshared state equal to `Apply` of the input |
| `Bridge.CountActive` | TheBridge.java:188-195 | the counting loop returns the active count and the column of the last active motorcycle |
| `Bridge.TryAction` | TheBridge.java:205-206 | true iff the action is accepted and the search from its successor succeeds |
| `Bridge.DetermineOptimalMove` | TheBridge.java:187-211 | the recursive search returns exactly `Search` of the input state's value |

## Left out

- `main` (TheBridge.java:213-248) is left out: the `Scanner` input, the endless turn loop and the printing. Only the two-threshold choice at lines 241-245 is modelled, as `Engine.Respond`. Its result may be `None`, which the program prints as `null`.
- The `Action` interface and virtual dispatch are replaced by the datatype `Action`, by `Execute` on the object side and by `Apply` on the value side.
- The search returns `Option<Decision>` rather than a string or `null`. `Name` gives the string the program prints.
- The bridge has exactly four lanes, and the model requires it. Lanes need not have equal length. The finish test reads the length of lane 0 only, as the program does.
- Active motorcycles must have lane `0..3` and column `x >= 0`, and the speed must be `>= 0`. These are assumptions on the input, and inputs outside them are not modelled:
  - some of them make the program throw: an active motorcycle on a lane outside `0..3` once it moves, or a column `x <= -2`;
  - a negative speed may make it throw (JUMP is accepted at speed `-1` and, for a motorcycle at `x = 0`, reads the cell at index `-1`, line 158), and SPEED (from a speed of `-2` or less), UP, DOWN and JUMP then move motorcycles backwards (lines 56, 106, 137, 161);
  - others do not make it throw but follow paths the model does not cover: column `x = -1` (the gap scan starts at cell 0), or an active motorcycle on a lane outside `0..3` when the search stops before anything moves (fewer than `min` active, or the last active motorcycle in array order is at or past the end of lane 0, so the search answers before any lane is read).
- The search requires `min >= 1`. With `min <= 0`, a state whose motorcycles have all fallen makes SPEED recurse without end, since the count check never fails and the column stays 0.
- Every slot of the motorcycle array must hold a motorcycle (`BridgeState.Valid`). A null slot would make the program throw.
- Integers are unbounded. The program's 32-bit `int` could overflow in `x + speed` or in the speed itself; the model does not capture that overflow.
- The finish test uses the last active motorcycle in array order, as the code does. Active motorcycles are not assumed to share a column.
