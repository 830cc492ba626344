# TocaHanoi puzzle logic in Dafny

TocaHanoi is a Tower-of-Hanoi game. Rings of different sizes sit on pins. The player lifts the top ring of a pin and drops it on another pin. A drop is accepted on an empty pin, or on a ring whose size indicator is at least the dropped ring's. Any other drop sends the ring back to its pin. The game counts the moves that change pin. It ends when a pin other than the starter pin holds every ring.

An automatic solver can also find a sequence of moves. It copies the board into its own nodes: ring `j` of the game's ring list gets size `N - j`, and the runs of rings already in place are marked solved. It then repeats a greedy cycle:

- pick a ring on top of a pin;
- score every pin the ring fits on (an empty pin, or a strictly bigger top ring);
- take the lightest path;
- record the move in a ledger numbered from 1.

It stops when the solution pin holds every ring, or when no ring can move. The game can replay the ledger move by move.

The project models that logic:

- `Pins` and `PinNodes`: the two ring stacks, the live pin and the solver's pin node.
- `RingNodes`: the solver's ring node with its weight-ordered list of pending paths. `ExercisePaths` and `ExerciseSteps` hold the path and ledger records and the replay of a ledger.
- `ExerciseManagers`: the game's referee, with the move rules, completion and replay.
- `ExerciseCreators`: setup, restacking and the dynamically created exercise.
- `RingSorts`: the quicksort the creator applies to the rings.
- The solver:
  - `Solver` is the imperative class, with the same lists, fields and loops as the original.
  - Its methods are proved against functions on a board value, in `SolverBoard`, `SolverSearch`, `SolverRun`, `SolverLoop` and `SolverSnapshot`.
  - The properties of those functions are proved in `SolverChoice`, `SolverProps`, `SolverRun` and `SolverSnapshot`.

Instance ids become positions in the owning list. A null reference becomes `Option.None` (module `Wrappers`). A scene ring is reduced to its `pin` and `sizeIndicator` fields (module `SelectableRings`).

The game and the solver use different drop rules, and the two rules are modelled separately:

- The game accepts a ring on a top ring whose size indicator is greater than or equal to its own (`ExerciseManager.cs:255`, `ExerciseManagers.Takes`).
- The solver asks for a strictly bigger top ring (`ExerciseSolver.cs:299` and `:318`, `SolverBoard.Fits`).

## Model

| member | source | states |
|---|---|---|
| Pins.Pin.RingPush | Assets/scripts/TocaHanoi/exercise/Pin.cs:31-34 | the ring becomes the new top; the rings below are unchanged and the count grows by one |
| Pins.Pin.RingPop | Assets/scripts/TocaHanoi/exercise/Pin.cs:39-49 | returns the old top and removes it, leaving the lower rings unchanged; on an empty pin returns None and the pin stays empty |
| Pins.Pin.RingPeek | Assets/scripts/TocaHanoi/exercise/Pin.cs:54-62 | None iff the pin is empty; otherwise the ring at the top position; the pin is not changed |
| Pins.Pin.RingClear | Assets/scripts/TocaHanoi/exercise/Pin.cs:67-70 | the pin is empty afterwards |
| Pins.Pin.RingCount | Assets/scripts/TocaHanoi/exercise/Pin.cs:72-80 | the count is 0 iff the pin is empty |
| Pins.Pin.constructor | Assets/scripts/TocaHanoi/exercise/Pin.cs:24-26 | a new pin holds no ring and keeps the index it is given |
| SelectableRings.SelectableRing.constructor | Assets/scripts/TocaHanoi/selectables/SelectableRing.cs:30-41 | a ring keeps the size indicator it is given and starts on pin 0 |
| Pins.PushThenPop | Assets/scripts/TocaHanoi/exercise/Pin.cs:31-49 | a push followed by a pop hands the same ring back and restores the stack |
| PinNodes.PinNode.constructor | Assets/scripts/TocaHanoi/exercise/solver/PinNode.cs:13-17 | the node refers to the given pin and starts empty |
| PinNodes.PinNode.RingPush | Assets/scripts/TocaHanoi/exercise/solver/PinNode.cs:21-24 | the ring becomes the new top and the count grows by one |
| PinNodes.PinNode.RingPop | Assets/scripts/TocaHanoi/exercise/solver/PinNode.cs:29-39 | returns and removes the old top, lower rings unchanged; None and no change on an empty node |
| PinNodes.PinNode.RingPeek | Assets/scripts/TocaHanoi/exercise/solver/PinNode.cs:44-52 | None iff the node is empty; otherwise the ring at height count - 1 |
| PinNodes.PinNode.RingAt | Assets/scripts/TocaHanoi/exercise/solver/PinNode.cs:54-57 | requires 0 <= k < count; returns the ring at height k, counted from the bottom |
| PinNodes.FirstUnsolvedAt | Assets/scripts/TocaHanoi/exercise/solver/PinNode.cs:59-70 | the position of the lowest unsolved ring: every ring below it is solved and it is not, or the height when all are solved |
| PinNodes.PinNode.GetFirstUnsolvedRing | Assets/scripts/TocaHanoi/exercise/solver/PinNode.cs:59-70 | the scan loop returns the lowest unsolved ring, and None exactly when every ring of the node is solved |
| PinNodes.PinNode.RingCount | Assets/scripts/TocaHanoi/exercise/solver/PinNode.cs:72-80 | the count is 0 iff the node is empty |
| PinNodes.PushThenPop | Assets/scripts/TocaHanoi/exercise/solver/PinNode.cs:21-39 | a push followed by a pop hands the same ring back and restores the stack |
| RingNodes.RingNode.constructor | Assets/scripts/TocaHanoi/exercise/solver/RingNode.cs:19-24 | the node keeps the given size, has step 0, is unsolved and has no pending path |
| RingNodes.RingNode.EmptyPendingPaths | Assets/scripts/TocaHanoi/exercise/solver/RingNode.cs:26-29 | noPendingPaths holds afterwards |
| RingNodes.RingNode.AddPath | Assets/scripts/TocaHanoi/exercise/solver/RingNode.cs:31-49 | the in-place insertion loop leaves the list AddedPath describes; AddPathPlacement and the lemmas below state what that list is |
| RingNodes.FirstNotLighter | Assets/scripts/TocaHanoi/exercise/solver/RingNode.cs:40-45 | the index of the first entry at least as heavy as the new path; every entry before it is strictly lighter |
| RingNodes.AddPathPlacement | Assets/scripts/TocaHanoi/exercise/solver/RingNode.cs:33-48 | the path is dropped, with the list unchanged, iff the list is non-empty and every entry is strictly lighter; otherwise it is inserted before the first entry of weight >= its own (so before equal weights), into an empty list as its only entry, and the other entries keep their order |
| RingNodes.AddPathKeepsOrder | Assets/scripts/TocaHanoi/exercise/solver/RingNode.cs:31-49 | a list sorted by weight stays sorted after addPath |
| RingNodes.AddPathElements | Assets/scripts/TocaHanoi/exercise/solver/RingNode.cs:31-49 | the multiset of paths gains exactly the new path when it is kept, and nothing otherwise |
| RingNodes.AddPathMembers | Assets/scripts/TocaHanoi/exercise/solver/RingNode.cs:31-49 | every old entry stays, the new path is the only possible newcomer, and a dropped path leaves the list unchanged |
| RingNodes.AddPathKeepsDistinct | Assets/scripts/TocaHanoi/exercise/solver/RingNode.cs:31-49 | a path to a pin not yet in the list keeps the destinations distinct |
| RingNodes.AddPathDominates | Assets/scripts/TocaHanoi/exercise/solver/RingNode.cs:31-49 | after addPath some entry is at least as light as the new path, and every weight matched before is still matched |
| RingNodes.RingNode.PathShift | Assets/scripts/TocaHanoi/exercise/solver/RingNode.cs:54-65 | returns the path firstPathPeek returned and removes it, leaving the rest in order; None and no change on an empty list |
| RingNodes.RingNode.FirstPathPeek | Assets/scripts/TocaHanoi/exercise/solver/RingNode.cs:70-78 | None iff there is no pending path; otherwise a pending path that is the lightest when the list is sorted |
| ExerciseSteps.Pop | Assets/scripts/TocaHanoi/exercise/Pin.cs:39-49 | a non-empty stack loses exactly its top; an empty stack stays empty |
| ExerciseSteps.ApplyStepConserves | Assets/scripts/TocaHanoi/exercise/ExerciseManager.cs:507-514 | replaying a step whose ring tops its source pin keeps every ring on the pins exactly once |
| ExerciseSteps.ReplaySnoc | Assets/scripts/TocaHanoi/exercise/ExerciseManager.cs:505-542 | replaying one more step is replaying the ledger and then that step |
| ExerciseSteps.ReplayAppend | Assets/scripts/TocaHanoi/exercise/ExerciseManager.cs:505-542 | replaying two ledgers in turn is replaying their concatenation |
| ExerciseManagers.Pushed | Assets/scripts/TocaHanoi/exercise/ExerciseManager.cs:91-95 | AddRingToPin on the stacks: the ring is the new top of pin p, below it the old stack, every other pin unchanged |
| ExerciseManagers.PushedCount | Assets/scripts/TocaHanoi/exercise/ExerciseManager.cs:91-95 | a push adds exactly one copy of the ring to the game |
| ExerciseManagers.Picked | Assets/scripts/TocaHanoi/exercise/ExerciseManager.cs:209-219 | only the top ring of its pin is lifted, and putting it back restores the stacks; lifting any other ring changes nothing |
| ExerciseManagers.Landing | Assets/scripts/TocaHanoi/exercise/ExerciseManager.cs:241-326 | a ring dropped after a collision with pin i lands on i when i is empty or its top's size indicator is >= the ring's, otherwise back on its own pin; with no collision it goes back to its own pin; with a collision naming no pin of the list it lands nowhere |
| ExerciseManagers.LiftAndDropKeepsOrder | Assets/scripts/TocaHanoi/exercise/ExerciseManager.cs:255-299 | lifting a top ring and dropping it anywhere keeps every pin ordered by the game's rule |
| ExerciseManagers.LiftAndDropConserves | Assets/scripts/TocaHanoi/exercise/ExerciseManager.cs:209-326 | a lift and a drop neither lose nor duplicate a ring; the only ring missing from the pins is one that landed nowhere |
| ExerciseManagers.LiftAndDropInPlace | Assets/scripts/TocaHanoi/exercise/ExerciseManager.cs:321-326 | a ring lifted and dropped with no collision, or on its own pin, leaves the stacks exactly as they were |
| ExerciseManagers.ExerciseManager.constructor | Assets/scripts/TocaHanoi/exercise/ExerciseManager.cs:31-41 | no pins, no rings, not started, not completed, no collided pin |
| ExerciseManagers.ExerciseManager.StartGame | Assets/scripts/TocaHanoi/exercise/ExerciseManager.cs:49-67 | the game runs, is not completed, counts no move, and has no held ring and no collided pin |
| ExerciseManagers.ExerciseManager.AddRingReference | Assets/scripts/TocaHanoi/exercise/ExerciseManager.cs:78-86 | the ring is appended to the manager's list |
| ExerciseManagers.ExerciseManager.AddPinReference | Assets/scripts/TocaHanoi/exercise/ExerciseManager.cs:101-109 | the pin is appended and learns its position |
| ExerciseManagers.ExerciseManager.AddRingToPin | Assets/scripts/TocaHanoi/exercise/ExerciseManager.cs:91-95 | with no legality check, the ring goes on top of the pin and its pin field becomes that pin |
| ExerciseManagers.ExerciseManager.OnPinCollision | Assets/scripts/TocaHanoi/exercise/ExerciseManager.cs:117-133 | while the game runs, a ring touching a pin makes that pin the drop target; otherwise nothing changes |
| ExerciseManagers.ExerciseManager.OnPinCollisionLost | Assets/scripts/TocaHanoi/exercise/ExerciseManager.cs:138-158 | the drop target is cleared only when it is the pin the ring left |
| ExerciseManagers.ExerciseManager.OnRingSelectionCanceled | Assets/scripts/TocaHanoi/exercise/ExerciseManager.cs:163-176 | a held ring goes back on top of its own pin and is no longer held; nothing happens before the game starts |
| ExerciseManagers.ExerciseManager.OnRingAskingToBeSelected | Assets/scripts/TocaHanoi/exercise/ExerciseManager.cs:201-219 | the ring's pin becomes the drop target; only the top ring of a pin is lifted off it and held; nothing happens before the game starts |
| ExerciseManagers.ExerciseManager.CheckIfExerciseIsCompleted | Assets/scripts/TocaHanoi/exercise/ExerciseManager.cs:358-375 | the game is completed, and stops, exactly when the pin holds every ring |
| ExerciseManagers.ExerciseManager.OnRingDropped | Assets/scripts/TocaHanoi/exercise/ExerciseManager.cs:230-356 | the ring lands as Landing says; the move counter grows by one exactly when it lands on another pin; the game ends exactly when an accepted drop on a non-starter pin leaves every ring there; before the game starts nothing changes |
| ExerciseManagers.ExerciseManager.Land | Assets/scripts/TocaHanoi/exercise/ExerciseManager.cs:238-326 | the started branch of OnRingDropped: stacks, pin field, move count and completion as Landing and Completes say |
| ExerciseManagers.ExerciseManager.LandOn | Assets/scripts/TocaHanoi/exercise/ExerciseManager.cs:244-300 | the collision branch: accepted drops go on the collided pin, refused ones back to the ring's own pin |
| ExerciseManagers.ExerciseManager.DropOn | Assets/scripts/TocaHanoi/exercise/ExerciseManager.cs:255-290 | the accepted drop: the move counts when the pin changes, the ring goes on the pin, completion is checked unless it is the starter pin |
| ExerciseManagers.ExerciseManager.LiftAndPutBack | Assets/scripts/TocaHanoi/exercise/ExerciseManager.cs:201-326 | select then drop with no collision in between leaves the stacks, the ring's pin and the move count as they were |
| ExerciseManagers.ExerciseManager.PlayMove | Assets/scripts/TocaHanoi/exercise/ExerciseManager.cs:201-326 | a whole move of the player keeps every pin ordered and every ring exactly once, and counts exactly when the ring changes pin |
| ExerciseManagers.ExerciseManager.DoSteps | Assets/scripts/TocaHanoi/exercise/ExerciseManager.cs:497-547 | the pins end as the ledger replayed in order; each step counts one move; each ring's pin is the last destination the ledger gave it; completion is checked on the last step's destination; the ledger must not be empty |
| ExerciseManagers.ExerciseManager.ReplayAll | Assets/scripts/TocaHanoi/exercise/ExerciseManager.cs:505-542 | the loop replays every step and counts one move per step |
| ExerciseManagers.ExerciseManager.ReplayOne | Assets/scripts/TocaHanoi/exercise/ExerciseManager.cs:507-514 | one step pops its source pin and puts its ring on its destination pin |
| ExerciseManagers.ExerciseManager.PopPin | Assets/scripts/TocaHanoi/exercise/ExerciseManager.cs:512 | the source pin loses its top ring, if it has one |
| ExerciseCreators.Reversed | Assets/scripts/TocaHanoi/exercise/ExerciseCreator.cs:67-72 | the rings from last to first, the order createExcercise pushes them in |
| ExerciseCreators.PushedReversed | Assets/scripts/TocaHanoi/exercise/ExerciseCreator.cs:67-72 | pushing ring i on the pin holding the later rings, reversed, gives the pin the rings from i on, reversed |
| ExerciseCreators.SortedStacksInOrder | Assets/scripts/TocaHanoi/exercise/ExerciseCreator.cs:23-37 | rings sorted ascending and stacked last first on an empty pin make a stack the game's drop rule allows |
| ExerciseCreators.AsWrittenStartsOutOfOrder | Assets/scripts/TocaHanoi/exercise/ExerciseCreator.cs:164-254 | with the sort as written, three rings of sizes 3, 1, 2 start the game with a ring of size 2 on a ring of size 1 |
| ExerciseCreators.ExerciseCreator.Start | Assets/scripts/TocaHanoi/exercise/ExerciseCreator.cs:23-37 | the game starts with no move counted; the scene's rings, sorted and permuted only, or ringCount new rings of sizes 1 up to ringCount, are stacked on pin 0, the first ring on top; a pin 0 that was empty ends ordered |
| ExerciseCreators.ExerciseCreator.SortAndCreate | Assets/scripts/TocaHanoi/exercise/ExerciseCreator.cs:29-33 | the scene's rings are sorted ascending, kept as a permutation, and stacked on pin 0 |
| ExerciseCreators.ExerciseCreator.SortRings | Assets/scripts/TocaHanoi/exercise/ExerciseCreator.cs:29 | the ring list becomes sorted ascending by size indicator and is a permutation of the old one |
| ExerciseCreators.ExerciseCreator.CreateAndStart | Assets/scripts/TocaHanoi/exercise/ExerciseCreator.cs:39-43 | createExcercise followed by StartGame |
| ExerciseCreators.ExerciseCreator.ResetAndStart | Assets/scripts/TocaHanoi/exercise/ExerciseCreator.cs:45-49 | resetExercise followed by StartGame |
| ExerciseCreators.ExerciseCreator.CreateExercise | Assets/scripts/TocaHanoi/exercise/ExerciseCreator.cs:54-78 | every pin goes to the manager in order; every ring, last first, goes to the manager and onto pin 0; pin 0 is the starter pin |
| ExerciseCreators.ExerciseCreator.AddPins | Assets/scripts/TocaHanoi/exercise/ExerciseCreator.cs:60-64 | the manager's pin list becomes the scene's pins, in order |
| ExerciseCreators.ExerciseCreator.AddRings | Assets/scripts/TocaHanoi/exercise/ExerciseCreator.cs:67-72 | the manager gets the rings last first, and they are stacked on pin 0 with the first ring on top |
| ExerciseCreators.ExerciseCreator.AddRing | Assets/scripts/TocaHanoi/exercise/ExerciseCreator.cs:67-72 | one turn of the ring loop keeps that loop's invariant |
| ExerciseCreators.ExerciseCreator.ResetExercise | Assets/scripts/TocaHanoi/exercise/ExerciseCreator.cs:83-116 | given a starter pin other than the current one, that pin becomes the starter pin and holds every ring, the first ring of the list on top; every other pin ends empty, and every ring remembers the new pin |
| ExerciseCreators.ExerciseCreator.ClearPins | Assets/scripts/TocaHanoi/exercise/ExerciseCreator.cs:100-103 | every pin is empty |
| ExerciseCreators.ExerciseCreator.PushRings | Assets/scripts/TocaHanoi/exercise/ExerciseCreator.cs:106-110 | the rings are stacked last first on the starter pin and remember it |
| ExerciseCreators.ExerciseCreator.PushRing | Assets/scripts/TocaHanoi/exercise/ExerciseCreator.cs:106-110 | one turn of the push loop keeps that loop's invariant |
| ExerciseCreators.ExerciseCreator.CreateDynamicExercise | Assets/scripts/TocaHanoi/exercise/ExerciseCreator.cs:119-158 | ringCount new rings (none for a negative count), the list ascending 1..ringCount, stacked on pin 0 by createExcercise |
| RingSorts.Swap | Assets/scripts/TocaHanoi/exercise/ExerciseCreator.cs:216-224 | the two positions exchange their rings |
| RingSorts.ScanUp | Assets/scripts/TocaHanoi/exercise/ExerciseCreator.cs:202-206 | the left cursor stops before the right one, on a ring larger than the pivot unless it reached right - 1 |
| RingSorts.ScanDown | Assets/scripts/TocaHanoi/exercise/ExerciseCreator.cs:208-211 | the right cursor stops after the left one, on a ring no larger than the pivot unless it reached left + 1 |
| RingSorts.Sweep | Assets/scripts/TocaHanoi/exercise/ExerciseCreator.cs:199-225 | the outer loop ends with the cursors adjacent or crossed within the range, the list length unchanged |
| RingSorts.SweepStep | Assets/scripts/TocaHanoi/exercise/ExerciseCreator.cs:199-225 | one turn of the outer loop: the two scans, then a swap exactly when the cursors stopped on the wrong sides |
| RingSorts.PartitionAsWritten | Assets/scripts/TocaHanoi/exercise/ExerciseCreator.cs:189-254 | partition throws (None) exactly for the range [0, 1); otherwise it reports a pivot position in [start - 1, end), and start - 1 only for a one-ring range whose left neighbour is larger, which it swaps with |
| RingSorts.QuickSortAsWritten | Assets/scripts/TocaHanoi/exercise/ExerciseCreator.cs:164-179 | QuickSortMethod throws exactly on the range [0, 1), and otherwise keeps the list length |
| RingSorts.SortAroundPivot | Assets/scripts/TocaHanoi/exercise/ExerciseCreator.cs:171-177 | the two recursive calls after partition never throw |
| RingSorts.SweepPermutes | Assets/scripts/TocaHanoi/exercise/ExerciseCreator.cs:199-225 | the sweep only swaps, so it keeps every ring exactly once |
| RingSorts.PartitionPermutes | Assets/scripts/TocaHanoi/exercise/ExerciseCreator.cs:189-254 | partition's result is a permutation of its input |
| RingSorts.SettlePermutes | Assets/scripts/TocaHanoi/exercise/ExerciseCreator.cs:229-253 | placing the pivot only swaps |
| RingSorts.SwapPermutes | Assets/scripts/TocaHanoi/exercise/ExerciseCreator.cs:216-224 | a swap keeps every ring exactly once |
| RingSorts.QuickSortPermutes | Assets/scripts/TocaHanoi/exercise/ExerciseCreator.cs:164-179 | whenever the sort as written does not throw, its result is a permutation of its input |
| RingSorts.AroundPivotPermutes | Assets/scripts/TocaHanoi/exercise/ExerciseCreator.cs:171-177 | the recursive calls after partition only permute |
| RingSorts.BothSidesPermute | Assets/scripts/TocaHanoi/exercise/ExerciseCreator.cs:171-177 | sorting the left part and then the right part only permutes |
| RingSorts.SingleRingFails | Assets/scripts/TocaHanoi/exercise/ExerciseCreator.cs:195-196 | for a single ring, partition reads index -1 and the sort throws |
| RingSorts.ThreeRingsMisordered | Assets/scripts/TocaHanoi/exercise/ExerciseCreator.cs:164-254 | sizes 3, 1, 2 come out as 2, 1, 3, which is not ascending |
| RingSorts.QuickSortInPlace | Assets/scripts/TocaHanoi/exercise/ExerciseCreator.cs:164-179 | the in-place sort leaves exactly the list QuickSortAsWritten gives, and fails exactly when it throws |
| RingSorts.SortAroundPivotInPlace | Assets/scripts/TocaHanoi/exercise/ExerciseCreator.cs:171-177 | the in-place recursive calls do what SortAroundPivot says |
| RingSorts.PartitionInPlace | Assets/scripts/TocaHanoi/exercise/ExerciseCreator.cs:189-254 | the in-place partition leaves the list and reports the position PartitionAsWritten gives, or throws with the list untouched |
| RingSorts.SettleInPlace | Assets/scripts/TocaHanoi/exercise/ExerciseCreator.cs:229-253 | the pivot placement in place, as Settle says |
| RingSorts.SweepInPlace | Assets/scripts/TocaHanoi/exercise/ExerciseCreator.cs:199-225 | the outer loop in place, as Sweep says |
| RingSorts.SweepOnce | Assets/scripts/TocaHanoi/exercise/ExerciseCreator.cs:200-224 | one turn of the outer loop brings the cursors closer and preserves the rest of the sweep |
| RingSorts.ScanUpInPlace | Assets/scripts/TocaHanoi/exercise/ExerciseCreator.cs:202-206 | the first inner loop stops where ScanUp says |
| RingSorts.ScanDownInPlace | Assets/scripts/TocaHanoi/exercise/ExerciseCreator.cs:208-211 | the second inner loop stops where ScanDown says |
| RingSorts.SwapInPlace | Assets/scripts/TocaHanoi/exercise/ExerciseCreator.cs:216-224 | the array becomes Swap of its old contents |
| RingSorts.SwapRearranges | Assets/scripts/TocaHanoi/exercise/ExerciseCreator.cs:216-224 | a swap inside a range only rearranges that range |
| RingSorts.SortedAround | Assets/scripts/TocaHanoi/exercise/ExerciseCreator.cs:160-179 | two sorted parts around a pivot that bounds them make one sorted range |
| RingSorts.PartitionBySize | Assets/scripts/TocaHanoi/exercise/ExerciseCreator.cs:189-254 | corrected partition: the rings no larger than the pivot go before it and the larger ones after it, rearranged within the range |
| RingSorts.PartitionStep | Assets/scripts/TocaHanoi/exercise/ExerciseCreator.cs:199-225 | one turn of the corrected partition's loop keeps its invariant |
| RingSorts.PartitionFinish | Assets/scripts/TocaHanoi/exercise/ExerciseCreator.cs:229-253 | the corrected pivot placement: the pivot swaps with the first larger ring |
| RingSorts.SortBySize | Assets/scripts/TocaHanoi/exercise/ExerciseCreator.cs:160-179 | corrected sort, as the comment promises: the range ends ascending by size indicator, as a rearrangement of itself, with nothing outside it moved; one ring or none is already sorted |
| RingSorts.SortParts | Assets/scripts/TocaHanoi/exercise/ExerciseCreator.cs:171-177 | the corrected recursive calls around a partitioned pivot sort the whole range |
| RingSorts.RightPartSorted | Assets/scripts/TocaHanoi/exercise/ExerciseCreator.cs:171-177 | after both parts are sorted the range is sorted and a rearrangement of the range before |
| SolverBoard.Flags | Assets/scripts/TocaHanoi/exercise/solver/PinNode.cs:59-70 | the solved flags of the rings, in ring order |
| SolverBoard.TopsUpTo | Assets/scripts/TocaHanoi/exercise/solver/ExerciseSolver.cs:255-268 | getRingsOnTop: exactly the top rings of the non-empty pins |
| SolverBoard.FirstUnsolvedAt | Assets/scripts/TocaHanoi/exercise/solver/PinNode.cs:59-70 | the lowest unsolved ring of a stack, or its height when all are solved |
| SolverBoard.PinFrom | Assets/scripts/TocaHanoi/exercise/solver/ExerciseSolver.cs:444-458 | getPinContainingRing: the first pin whose top ring has the ring's size; None exactly when there is none |
| SolverSnapshot.SizedRings | Assets/scripts/TocaHanoi/exercise/solver/ExerciseSolver.cs:53-57 | ring j of the copy has size N - j, is unsolved, has step 0 and no pending path |
| SolverSnapshot.RunFrom | Assets/scripts/TocaHanoi/exercise/solver/ExerciseSolver.cs:77-108 | the marking scan up a stack stops at the first ring that does not continue the run in place |
| SolverSnapshot.LastMarked | Assets/scripts/TocaHanoi/exercise/solver/ExerciseSolver.cs:77-108 | the solution pin after the marking pass is -1 or one of the pins scanned |
| SolverSnapshot.Snapshot | Assets/scripts/TocaHanoi/exercise/solver/ExerciseSolver.cs:48-111 | CopyExcerciseStatus: the game's stacks, an empty ledger, the starter pin, ring j of size N - j with step 0 and no path |
| SolverSnapshot.SnapshotSizes | Assets/scripts/TocaHanoi/exercise/solver/ExerciseSolver.cs:53-57 | the copy's sizes are 1..N with no duplicate, and the biggest ring, ring 0, has size N |
| SolverSnapshot.InPlaceIsTower | Assets/scripts/TocaHanoi/exercise/solver/ExerciseSolver.cs:77-108 | a run in place is the bottom of the complete tower: the ring at height j is ring j |
| SolverSnapshot.MarkedBeforeIff | Assets/scripts/TocaHanoi/exercise/solver/ExerciseSolver.cs:77-108 | a ring is marked by the pass iff it lies in the run in place of a pin the pass marks |
| SolverSnapshot.LastMarkedIsLast | Assets/scripts/TocaHanoi/exercise/solver/ExerciseSolver.cs:77-108 | the solution pin is -1 iff no pin is marked, and otherwise the last pin marked |
| SolverSnapshot.SnapshotMarking | Assets/scripts/TocaHanoi/exercise/solver/ExerciseSolver.cs:77-108 | on the copy a ring is solved iff it is in the run in place of a non-starter pin; the solution pin is the last such pin, -1 when there is none |
| SolverSnapshot.SnapshotInv | Assets/scripts/TocaHanoi/exercise/solver/ExerciseSolver.cs:48-111 | the copy satisfies the search invariant, so every cycle on it is well defined |
| SolverSnapshot.BottomZeroUnique | Assets/scripts/TocaHanoi/exercise/solver/ExerciseSolver.cs:77-108 | when every ring is on the pins exactly once, at most one pin has the biggest ring at its bottom |
| SolverSnapshot.SnapshotSolvedRun | Assets/scripts/TocaHanoi/exercise/solver/ExerciseSolver.cs:77-108 | when every ring is on the pins exactly once, the copy's solved rings form the bottom run of the solution pin, ring i at height i |
| SolverSnapshot.SolvedOnSolutionPin | Assets/scripts/TocaHanoi/exercise/solver/ExerciseSolver.cs:77-108 | when every ring is on the pins exactly once, every solved ring of the copy is at the height of its own number on the solution pin |
| SolverChoice.BestRingToMoveFound | Assets/scripts/TocaHanoi/exercise/solver/ExerciseSolver.cs:364-407 | getBestRingToMove returns nothing exactly when no option is unsolved and fits some pin, and otherwise such an option |
| SolverChoice.BestRingToMoveAvoidsLast | Assets/scripts/TocaHanoi/exercise/solver/ExerciseSolver.cs:394-403 | the ring moved last is chosen again only when every movable option is that ring |
| SolverChoice.BestRingToMoveIsLastOther | Assets/scripts/TocaHanoi/exercise/solver/ExerciseSolver.cs:394-403 | otherwise the choice is the last movable option, in pin order, that is not the ring moved last |
| SolverChoice.FillEntries | Assets/scripts/TocaHanoi/exercise/solver/ExerciseSolver.cs:309-362 | fillPendingPaths keeps every path the ring had and adds only candidate paths: to a pin the ring fits on, with that pin's weight |
| SolverChoice.FillSorted | Assets/scripts/TocaHanoi/exercise/solver/ExerciseSolver.cs:309-362 | the pending paths stay ordered by weight |
| SolverChoice.FillNonEmpty | Assets/scripts/TocaHanoi/exercise/solver/ExerciseSolver.cs:309-362 | a ring that fits on some pin has a path to take afterwards |
| SolverChoice.FillFromEmpty | Assets/scripts/TocaHanoi/exercise/solver/ExerciseSolver.cs:309-362 | filled from an empty list, the paths lead to distinct pins |
| SolverChoice.FillDominates | Assets/scripts/TocaHanoi/exercise/solver/ExerciseSolver.cs:309-362 | the weight of every pin the ring fits on is matched or beaten by a recorded path, even when addPath drops one |
| SolverChoice.FillChoosesLightest | Assets/scripts/TocaHanoi/exercise/solver/ExerciseSolver.cs:309-362 | the first path after filling is no heavier than any candidate and any path the ring already had |
| SolverChoice.FinalPlaceIsPreferred | Assets/scripts/TocaHanoi/exercise/solver/ExerciseSolver.cs:326-356 | a destination that is the ring's final place (the biggest ring on an empty pin, or a ring on a solved ring one size bigger) weighs less than any other |
| SolverChoice.UnsolvedTopBeatsEmpty | Assets/scripts/TocaHanoi/exercise/solver/ExerciseSolver.cs:326-356 | with the Hanoi order in force, a pin with an unsolved top weighs below 0, the weight of an empty pin that is not the final place |
| SolverSearch.PickOnTop | Assets/scripts/TocaHanoi/exercise/solver/ExerciseSolver.cs:222-240 | the ring a cycle picks is unsolved, fits some pin, and is on top of a pin |
| SolverSearch.PinContainingTop | Assets/scripts/TocaHanoi/exercise/solver/ExerciseSolver.cs:444-458 | for a ring on top of a pin, getPinContainingRing finds a pin it tops |
| SolverSearch.PinFromFrame | Assets/scripts/TocaHanoi/exercise/solver/ExerciseSolver.cs:444-458 | getPinContainingRing depends only on the stacks and the sizes |
| SolverSearch.FilledPathsLead | Assets/scripts/TocaHanoi/exercise/solver/ExerciseSolver.cs:309-362 | after fillPendingPaths the picked ring holds a non-empty sorted list of legal moves |
| SolverSearch.ShiftFillFrame | Assets/scripts/TocaHanoi/exercise/solver/ExerciseSolver.cs:240-245 | filling and shifting one ring's paths changes only that ring's list |
| SolverSearch.MoveDefined | Assets/scripts/TocaHanoi/exercise/solver/ExerciseSolver.cs:240-250 | visiting the chosen path of a picked ring is well defined |
| SolverSearch.Cycle | Assets/scripts/TocaHanoi/exercise/solver/ExerciseSolver.cs:215-250 | SearchForSolution fails, changing nothing, exactly when no ring can be picked; otherwise the cycle keeps the search invariant |
| SolverSearch.VisitRings | Assets/scripts/TocaHanoi/exercise/solver/ExerciseSolver.cs:409-442 | visitPath appends the step numbered one past the ledger, pops the source pin and pushes onto the destination, sets the ring's step, marks it solved when it lands in place, moves the solution pin with the biggest ring, and clears only the previous step's ring's paths |
| SolverSearch.VisitExact | Assets/scripts/TocaHanoi/exercise/solver/ExerciseSolver.cs:409-442 | each ring's state after visitPath, field by field |
| SolverSearch.MoveKeepsInv | Assets/scripts/TocaHanoi/exercise/solver/ExerciseSolver.cs:215-250 | every cycle keeps the search invariant |
| SolverSearch.VisitShaped | Assets/scripts/TocaHanoi/exercise/solver/ExerciseSolver.cs:409-442 | the board stays well formed with sizes N - i |
| SolverSearch.VisitSolutionPin | Assets/scripts/TocaHanoi/exercise/solver/ExerciseSolver.cs:420-433 | the solution pin keeps the biggest ring, solved, at its bottom |
| SolverSearch.LeadsFrame | Assets/scripts/TocaHanoi/exercise/solver/ExerciseSolver.cs:309-362 | legal paths stay legal when only other pins change |
| SolverSearch.RestLeads | Assets/scripts/TocaHanoi/exercise/solver/ExerciseSolver.cs:438-441 | the leftover paths of the moved ring stay sorted and legal |
| SolverSearch.VisitPending | Assets/scripts/TocaHanoi/exercise/solver/ExerciseSolver.cs:438-441 | after a visit only the ring just moved may still hold pending paths, and they are legal |
| SolverSearch.MovedByVisit | Assets/scripts/TocaHanoi/exercise/solver/ExerciseSolver.cs:409-442 | visiting a legal path of a movable top ring moves exactly that ring, onto a pin it fits on, as the next step |
| SolverSearch.VisitMoves | Assets/scripts/TocaHanoi/exercise/solver/ExerciseSolver.cs:409-442 | visiting the chosen path appends one step for the picked ring, to the chosen destination |
| SolverSearch.CycleMoves | Assets/scripts/TocaHanoi/exercise/solver/ExerciseSolver.cs:215-250 | a successful cycle appends one step: the picked ring, moved from the pin it topped to its lightest destination |
| SolverProps.MovedConserves | Assets/scripts/TocaHanoi/exercise/solver/ExerciseSolver.cs:417-435 | a cycle neither loses nor duplicates a ring |
| SolverProps.MovedKeepsWellStacked | Assets/scripts/TocaHanoi/exercise/solver/ExerciseSolver.cs:318 | a cycle keeps every pin in strictly decreasing size order |
| SolverProps.MovedSolvesInRun | Assets/scripts/TocaHanoi/exercise/solver/ExerciseSolver.cs:420-433 | a ring marked solved lands at the height of its own number on the solution pin |
| SolverProps.MovedKeepsSolvedRings | Assets/scripts/TocaHanoi/exercise/solver/ExerciseSolver.cs:375 | every solved ring other than the one just moved stays at the height of its own number on the solution pin, so a solved ring is never moved off it |
| SolverProps.MovedKeepsSolvedRun | Assets/scripts/TocaHanoi/exercise/solver/ExerciseSolver.cs:420-433 | solved rings stay the bottom run N, N - 1, ... of the solution pin |
| SolverProps.MovedFollows | Assets/scripts/TocaHanoi/exercise/solver/ExerciseSolver.cs:412-414 | a cycle appends a step numbered one past the ledger, and that step replays |
| SolverProps.FollowsTrans | Assets/scripts/TocaHanoi/exercise/solver/ExerciseSolver.cs:412-414 | later states compose |
| SolverProps.FullStackIsTower | Assets/scripts/TocaHanoi/exercise/solver/ExerciseSolver.cs:161-165 | a well-stacked pin holding all N rings is the complete tower |
| SolverProps.PickNoneIff | Assets/scripts/TocaHanoi/exercise/solver/ExerciseSolver.cs:222-240 | SearchForSolution fails exactly when no top ring is unsolved and fits a pin |
| SolverProps.PickRepeatsOnlyAlone | Assets/scripts/TocaHanoi/exercise/solver/ExerciseSolver.cs:394-403 | the ring moved last is picked again only when every movable top is that ring |
| SolverProps.CycleTakesLightest | Assets/scripts/TocaHanoi/exercise/solver/ExerciseSolver.cs:240-245 | a ring with no leftover path moves to a pin of least weight among those it fits on |
| SolverRun.CycleKeeps | Assets/scripts/TocaHanoi/exercise/solver/ExerciseSolver.cs:215-250 | one cycle keeps the invariant, the ledger's replay, every ring once, the Hanoi order and the solved run |
| SolverRun.SearchStep | Assets/scripts/TocaHanoi/exercise/solver/ExerciseSolver.cs:156-170 | one turn of Search: Solved exactly when the solution pin then holds every ring; Failed exactly when no ring could move and the board is not solved, with the board unchanged |
| SolverRun.StepKeeps | Assets/scripts/TocaHanoi/exercise/solver/ExerciseSolver.cs:156-170 | a turn keeps everything CycleKeeps names |
| SolverRun.Run | Assets/scripts/TocaHanoi/exercise/solver/ExerciseSolver.cs:151-199 | the Search loop with at most fuel turns: Solved only on a solved board, Failed only when no ring can move |
| SolverRun.RunGoesOn | Assets/scripts/TocaHanoi/exercise/solver/ExerciseSolver.cs:156-177 | a turn that leaves the search going hands the rest of the fuel to the next board |
| SolverRun.RunStops | Assets/scripts/TocaHanoi/exercise/solver/ExerciseSolver.cs:161-170 | a turn that ends the search ends Run |
| SolverRun.KeptRun | Assets/scripts/TocaHanoi/exercise/solver/ExerciseSolver.cs:151-199 | the loop keeps everything CycleKeeps names, turn after turn |
| SolverRun.RunKeeps | Assets/scripts/TocaHanoi/exercise/solver/ExerciseSolver.cs:151-199 | the whole search keeps the invariant, the ledger's replay, every ring once, the Hanoi order and the solved run |
| SolverRun.SolvedIsTower | Assets/scripts/TocaHanoi/exercise/solver/ExerciseSolver.cs:161-165 | a search that ends Solved leaves the complete tower, ring 0 at the bottom, on the solution pin |
| SolverRun.LedgerReplaysFromStart | Assets/scripts/TocaHanoi/exercise/solver/ExerciseSolver.cs:412-414 | from a fresh copy, the ledger numbers its steps 1..n and replays the copy's stacks into the final ones |
| SolverRun.PreSolvedStops | Assets/scripts/TocaHanoi/exercise/solver/ExerciseSolver.cs:156-165 | a board whose rings are all solved reports Solved at the first turn without moving, because success is checked before failure |
| SolverLoop.Turns | Assets/scripts/TocaHanoi/exercise/solver/ExerciseSolver.cs:156-177 | the number of turns taken is at most the fuel, and at least one when there is fuel |
| SolverLoop.OnTrackNext | Assets/scripts/TocaHanoi/exercise/solver/ExerciseSolver.cs:156-177 | a Searching turn keeps the loop on track with the whole run |
| SolverLoop.UnfoldSearching | Assets/scripts/TocaHanoi/exercise/solver/ExerciseSolver.cs:156-177 | Run and Turns after one Searching turn |
| SolverLoop.OnTrackStop | Assets/scripts/TocaHanoi/exercise/solver/ExerciseSolver.cs:161-170 | a turn that ends the search gives the whole run's result and turn count |
| SolverLoop.OnTrackOut | Assets/scripts/TocaHanoi/exercise/solver/ExerciseSolver.cs:156-177 | out of fuel while searching, the loop ends InProgress |
| Solver.IndexIn | Assets/scripts/TocaHanoi/exercise/solver/ExerciseSolver.cs:134-149 | getRingNodeFromReference: the first position of the ring in the list |
| Solver.LiveStack | Assets/scripts/TocaHanoi/exercise/solver/ExerciseSolver.cs:71-74 | a scene stack as positions in the ring list, ring for ring |
| Solver.LiveStacks | Assets/scripts/TocaHanoi/exercise/solver/ExerciseSolver.cs:63-74 | every scene pin's stack as positions, in pin order |
| Solver.MarkedNext | Assets/scripts/TocaHanoi/exercise/solver/ExerciseSolver.cs:77-108 | the marking pass over one more pin marks its run in place (none on the starter pin) and makes it the solution pin when the run is not empty |
| Solver.TurnOutcome | Assets/scripts/TocaHanoi/exercise/solver/ExerciseSolver.cs:158-170 | after a cycle, success is checked on the new board before failure |
| Solver.StagesDefined | Assets/scripts/TocaHanoi/exercise/solver/ExerciseSolver.cs:409-435 | each stage of visitPath can read what it reads |
| Solver.StagesGiveVisit | Assets/scripts/TocaHanoi/exercise/solver/ExerciseSolver.cs:409-442 | the stages of visitPath, then the clearing of the previous ring's paths, give Visit |
| Solver.StagesGiveVisitRings | Assets/scripts/TocaHanoi/exercise/solver/ExerciseSolver.cs:409-442 | the ring part of StagesGiveVisit |
| Solver.StagesGiveVisitRest | Assets/scripts/TocaHanoi/exercise/solver/ExerciseSolver.cs:409-442 | the pin, ledger and index part of StagesGiveVisit |
| Solver.ExerciseSolver.constructor | Assets/scripts/TocaHanoi/exercise/solver/ExerciseSolver.cs:10-15 | empty lists, empty ledger, solution pin -1, no search running |
| Solver.ExerciseSolver.GetRingsOnTop | Assets/scripts/TocaHanoi/exercise/solver/ExerciseSolver.cs:255-268 | the top ring of every non-empty pin, in pin order |
| Solver.ExerciseSolver.DoRingFitInAnyPin | Assets/scripts/TocaHanoi/exercise/solver/ExerciseSolver.cs:295-307 | true exactly when some pin is empty or has a strictly bigger top ring |
| Solver.ExerciseSolver.GetBestRingToMove | Assets/scripts/TocaHanoi/exercise/solver/ExerciseSolver.cs:364-407 | the scan returns what BestRingToMove says |
| Solver.ExerciseSolver.GetPinContainingRing | Assets/scripts/TocaHanoi/exercise/solver/ExerciseSolver.cs:444-458 | the scan returns the first pin whose top has the ring's size |
| Solver.ExerciseSolver.PathWeight | Assets/scripts/TocaHanoi/exercise/solver/ExerciseSolver.cs:321-356 | the weight computed for a pin is Weight: empty pin 0; solved top 1; unsolved top 1 - 2 x (size of the lowest unsolved ring there - the ring's size); minus 2N at the ring's final place |
| Solver.ExerciseSolver.ConsiderPin | Assets/scripts/TocaHanoi/exercise/solver/ExerciseSolver.cs:316-360 | one turn of the pin loop adds the pin's path when the ring fits on it |
| Solver.ExerciseSolver.CollectPaths | Assets/scripts/TocaHanoi/exercise/solver/ExerciseSolver.cs:316-360 | the loop considers every pin in order |
| Solver.ExerciseSolver.FillPendingPaths | Assets/scripts/TocaHanoi/exercise/solver/ExerciseSolver.cs:309-362 | fillPendingPaths changes only the ring's pending paths, as FillPaths says |
| Solver.ExerciseSolver.RecordStep | Assets/scripts/TocaHanoi/exercise/solver/ExerciseSolver.cs:412-414 | the step goes into the ledger and its number onto the ring |
| Solver.ExerciseSolver.PopPin | Assets/scripts/TocaHanoi/exercise/solver/ExerciseSolver.cs:417 | the source pin loses its top |
| Solver.ExerciseSolver.PushPin | Assets/scripts/TocaHanoi/exercise/solver/ExerciseSolver.cs:435 | the ring goes on top of the destination |
| Solver.ExerciseSolver.MarkLanding | Assets/scripts/TocaHanoi/exercise/solver/ExerciseSolver.cs:420-433 | the biggest ring is marked solved and its destination becomes the solution pin; another ring is marked solved on the solution pin right above a solved ring one size bigger |
| Solver.ExerciseSolver.ClearPaths | Assets/scripts/TocaHanoi/exercise/solver/RingNode.cs:26-29 | the ring's pending paths are emptied |
| Solver.ExerciseSolver.ClearPreviousPaths | Assets/scripts/TocaHanoi/exercise/solver/ExerciseSolver.cs:438-441 | the ring of the step before the new one loses its pending paths |
| Solver.ExerciseSolver.LeaveAndLand | Assets/scripts/TocaHanoi/exercise/solver/ExerciseSolver.cs:412-433 | ledger entry, pop and solved check |
| Solver.ExerciseSolver.MoveAlong | Assets/scripts/TocaHanoi/exercise/solver/ExerciseSolver.cs:412-441 | the moves of visitPath once the source pin is known |
| Solver.ExerciseSolver.VisitPath | Assets/scripts/TocaHanoi/exercise/solver/ExerciseSolver.cs:409-442 | the solver's state becomes Visit of the old state |
| Solver.ExerciseSolver.VisitFrom | Assets/scripts/TocaHanoi/exercise/solver/ExerciseSolver.cs:412-441 | visitPath after getPinContainingRing |
| Solver.ExerciseSolver.ShiftPath | Assets/scripts/TocaHanoi/exercise/solver/RingNode.cs:54-65 | the lightest pending path is removed and returned, None on an empty list |
| Solver.ExerciseSolver.TakeChosen | Assets/scripts/TocaHanoi/exercise/solver/ExerciseSolver.cs:240-245 | fillPendingPaths then pathShift yield the chosen path |
| Solver.ExerciseSolver.SearchForSolution | Assets/scripts/TocaHanoi/exercise/solver/ExerciseSolver.cs:215-250 | false, changing nothing, exactly when no ring can be picked; otherwise the state becomes Cycle of the old state |
| Solver.ExerciseSolver.SearchTurn | Assets/scripts/TocaHanoi/exercise/solver/ExerciseSolver.cs:156-170 | one turn of Search: the cycle count grows by one and the state and phase are SearchStep's |
| Solver.ExerciseSolver.Advance | Assets/scripts/TocaHanoi/exercise/solver/ExerciseSolver.cs:156-177 | a turn keeps the loop on track with the whole run, or ends it |
| Solver.ExerciseSolver.SearchTurns | Assets/scripts/TocaHanoi/exercise/solver/ExerciseSolver.cs:156-177 | the loop ends where Run ends, having counted its turns |
| Solver.ExerciseSolver.Search | Assets/scripts/TocaHanoi/exercise/solver/ExerciseSolver.cs:151-199 | the state and phase are Run's; the cycle count grows by the turns taken; isSearching ends false |
| Solver.ExerciseSolver.AddRing | Assets/scripts/TocaHanoi/exercise/solver/ExerciseSolver.cs:113-117 | a fresh node of the given size, unsolved, step 0, no path, with its position as index, is appended |
| Solver.ExerciseSolver.AddPin | Assets/scripts/TocaHanoi/exercise/solver/ExerciseSolver.cs:119-123 | a fresh empty node for the pin, with its position as index, is appended |
| Solver.ExerciseSolver.GetRingNodeFromReference | Assets/scripts/TocaHanoi/exercise/solver/ExerciseSolver.cs:134-149 | the first node made for the ring, or None when there is none |
| Solver.ExerciseSolver.CopyPin | Assets/scripts/TocaHanoi/exercise/solver/ExerciseSolver.cs:63-74 | a pin node holding the pin's rings, bottom first, is appended |
| Solver.ExerciseSolver.FillPinNode | Assets/scripts/TocaHanoi/exercise/solver/ExerciseSolver.cs:71-74 | the node's stack is the pin's stack as ring positions |
| Solver.ExerciseSolver.MarkStep | Assets/scripts/TocaHanoi/exercise/solver/ExerciseSolver.cs:77-108 | one step up the pin: the ring is marked when it continues the run in place, the bottom one making the pin the solution pin; otherwise the scan stops |
| Solver.ExerciseSolver.MarkInPlace | Assets/scripts/TocaHanoi/exercise/solver/ExerciseSolver.cs:77-108 | the rings of the new pin's run in place are marked, unless it is the starter pin |
| Solver.ExerciseSolver.CopyRings | Assets/scripts/TocaHanoi/exercise/solver/ExerciseSolver.cs:53-57 | one fresh node per scene ring, in order, sizes N down to 1 |
| Solver.ExerciseSolver.CopyPins | Assets/scripts/TocaHanoi/exercise/solver/ExerciseSolver.cs:63-110 | one node per game pin, each followed by its marking |
| Solver.ExerciseSolver.CopyAndMark | Assets/scripts/TocaHanoi/exercise/solver/ExerciseSolver.cs:63-110 | one turn of the pin loop |
| Solver.ExerciseSolver.CopyExcerciseStatus | Assets/scripts/TocaHanoi/exercise/solver/ExerciseSolver.cs:48-111 | the solver's state becomes Snapshot of the game, ring node j standing for scene ring j |
| Solver.ExerciseSolver.SolveExercise | Assets/scripts/TocaHanoi/exercise/solver/ExerciseSolver.cs:19-42 | the solver restarts from the snapshot, which meets the search invariant, and ends where Run ends, with Run's phase and turn count |
| Solver.ExerciseSolver.Restart | Assets/scripts/TocaHanoi/exercise/solver/ExerciseSolver.cs:19-37 | the previous search is forgotten and the game copied in |

## Left out

- Sound, animation, sprite order, colours, on-screen positions and the highlighting of pins (`Pin.SetSelection`, `MoveRingOverPinEffect`, `PositionateRingOnPin`, `AfterDropAnimation`): visual effects only.
- `Debug.Log` and `prettyPrintSolution`: logging only.
- The editor-only multiple-selection QA path of `ExerciseManager` and its `Update` hotkey that starts the solver: editor tooling.
- `filterOnlyMovableRings` and the `weight` field of `RingNode`: both marked deprecated, and never used.
- Solver.ExerciseSolver.Search: the coroutine's frame yields are not modelled, because they do not change state. The loop has an explicit `fuel` bound, because the code does not promise termination: a lone movable ring can move back and forth.
- The hand-over of a found ledger to the game (`SolveExerciseWith`, editor only) is not modelled as a call. `ExerciseManager.DoSteps` takes the ledger as a parameter, and its waits and animations are dropped.
- ExerciseManagers.ExerciseManager.DoSteps: requires a non-empty ledger. The code reads the destination of the last step and throws on an empty one.
- ExerciseManagers.ExerciseManager.OnRingAskingToBeSelected: a ring on an empty pin would make the code throw after the drop target is set. The model leaves the same state as a refused selection.
- ExerciseCreators.ExerciseCreator.ResetExercise: the random draw of the new starter pin is a parameter, required to differ from the current starter pin. The code redraws until it does, which never ends with a single pin.
- ExerciseCreators.ExerciseCreator.SortRings: applies the corrected `RingSorts.SortBySize` where the code calls `QuickSortMethod`, so its ascending order is the intended result, not what the code delivers (see Findings). The sort as written is modelled by `RingSorts.QuickSortInPlace`.
- ExerciseCreators.ExerciseCreator.SortAndCreate: sorts through `SortRings`, so it also uses the corrected sort and not `QuickSortMethod`. The misorder and the single-ring exception of the code do not appear here.
- ExerciseCreators.ExerciseCreator.Start: the scene's rings are sorted with the corrected `RingSorts.SortBySize` rather than the sort as written (see Findings). The sort as written is modelled by `RingSorts.QuickSortInPlace`.
- Solver.ExerciseSolver.CopyExcerciseStatus: requires every ring on the game's pins to be in the game's ring list. Otherwise `getRingNodeFromReference` returns null and the code throws.
- Instance ids, colliders and tags: pins and rings are named by their position in the owning list, and "the other collider is a ring" is a boolean parameter.
- `SelectableRing` is reduced to its `pin` and `sizeIndicator` fields. `sizeIndicator` is a constant given at construction, because it is written once, right after instantiation (`ExerciseCreator.cs:150`), before any other use.
- Nothing is proved about how many steps a search takes.

## Findings

| source | as written | input that shows it | evidently intended | confidence | as-written member | corrected member |
|---|---|---|---|---|---|---|
| Assets/scripts/TocaHanoi/exercise/ExerciseCreator.cs:164-254 | `QuickSortMethod` with `partition` does not sort: the first partition swaps the 3 with the pivot 2 and reports position 0, and after that nothing ever compares the 2 with the 1 | three rings of sizes 3, 1, 2 come out as 2, 1, 3, and the game starts with a ring of size 2 on a ring of size 1 | the list ascending by size indicator, as the comment above `QuickSortMethod` says | not executed | RingSorts.ThreeRingsMisordered | RingSorts.SortBySize |
| Assets/scripts/TocaHanoi/exercise/ExerciseCreator.cs:189-254 | for a one-ring range `partition` starts its right cursor at `end - 2 = start - 1` and reads that index | a scene with a single ring: index -1, and the sort throws | a range of one ring is left as it is | not executed | RingSorts.SingleRingFails | RingSorts.SortBySize |
