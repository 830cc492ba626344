/**
 * The solver's board as a value: ring states indexed by ring number (ring 0 is the biggest),
 * the stacks of ring numbers on each pin (bottom first), the ledger of steps taken so far, the
 * starter pin and the solution pin (-1 while unknown). Each function here states what one routine
 * of the solver computes from such a board.
 */
module SolverBoard {

  import opened Wrappers
  import opened ExercisePaths
  import opened ExerciseSteps
  import RingNodes
  import PinNodes

  datatype RingState = RingState(size: int, isSolved: bool, step: int, pendingPaths: seq<ExercisePath>)

  datatype Board = Board(
    rings: seq<RingState>,
    stacks: seq<seq<nat>>,
    solution: seq<ExerciseStep>,
    starterPinIndex: int,
    solutionPinIndex: int)

  /** Every ring number on a pin and in the ledger names an existing ring and pin. */
  predicate WellFormed(b: Board)
  {
    && (forall p, k | 0 <= p < |b.stacks| && 0 <= k < |b.stacks[p]| :: b.stacks[p][k] < |b.rings|)
    && StepsInRange(b.solution, |b.stacks|, |b.rings|)
  }

  /** WellFormed, and ring i has size N - i as the solver assigns them (the biggest is ring 0). */
  predicate Shaped(b: Board)
  {
    && WellFormed(b)
    && forall i | 0 <= i < |b.rings| :: b.rings[i].size == |b.rings| - i
  }

  function Top(s: seq<nat>): nat
    requires s != []
  {
    s[|s| - 1]
  }

  /** The solved flags of the rings, in ring order. */
  function Flags(b: Board): (flags: seq<bool>)
    ensures |flags| == |b.rings|
    ensures forall i | 0 <= i < |b.rings| :: flags[i] == b.rings[i].isSolved
  {
    seq(|b.rings|, i requires 0 <= i < |b.rings| => b.rings[i].isSolved)
  }

  /** Ring r may be put on pin p: the pin is empty or its top ring is bigger. */
  predicate Fits(b: Board, r: nat, p: nat)
    requires WellFormed(b) && r < |b.rings| && p < |b.stacks|
  {
    b.stacks[p] == [] || b.rings[r].size < b.rings[Top(b.stacks[p])].size
  }

  predicate FitsAnyPin(b: Board, r: nat)
    requires WellFormed(b) && r < |b.rings|
  {
    exists p | 0 <= p < |b.stacks| :: Fits(b, r, p)
  }

  /** A ring the solver is willing to move: not solved yet, with some pin to go to. */
  predicate Movable(b: Board, r: nat)
    requires WellFormed(b) && r < |b.rings|
  {
    !b.rings[r].isSolved && FitsAnyPin(b, r)
  }

  /** The top rings of the first n pins, in pin order, skipping empty pins. */
  function TopsUpTo(b: Board, n: nat): (tops: seq<nat>)
    requires WellFormed(b) && n <= |b.stacks|
    ensures |tops| <= n
    ensures forall k | 0 <= k < |tops| :: tops[k] < |b.rings|
    ensures forall x :: x in tops <==> exists p | 0 <= p < n && b.stacks[p] != [] :: Top(b.stacks[p]) == x
  {
    if n == 0 then []
    else
      var acc := TopsUpTo(b, n - 1);
      var s := b.stacks[n - 1];
      assert s != [] ==> s[|s| - 1] < |b.rings|;
      if s == [] then acc else acc + [Top(s)]
  }

  /** The rings on top of a pin (getRingsOnTop). */
  function RingsOnTop(b: Board): seq<nat>
    requires WellFormed(b)
  {
    TopsUpTo(b, |b.stacks|)
  }

  /** The ring moved by the last step of the ledger, if any. */
  function LastMoved(b: Board): Option<nat>
  {
    if b.solution == [] then None else Some(b.solution[|b.solution| - 1].ring)
  }

  /** getBestRingToMove: scanning the options in order, a movable ring replaces the current
      choice when there is none yet, or when it is not of the size of the ring moved last. */
  function BestRingToMove(b: Board, options: seq<nat>): Option<nat>
    requires WellFormed(b)
    requires forall k | 0 <= k < |options| :: options[k] < |b.rings|
  {
    if options == [] then None
    else
      var acc := BestRingToMove(b, options[..|options| - 1]);
      var r := options[|options| - 1];
      if !Movable(b, r) then acc
      else if acc.None? then Some(r)
      else if b.solution == [] || b.rings[b.solution[|b.solution| - 1].ring].size != b.rings[r].size then Some(r)
      else acc
  }

  /** Position, on stack s, of its lowest unsolved ring (getFirstUnsolvedRing). */
  function FirstUnsolvedAt(b: Board, s: seq<nat>): (k: nat)
    requires forall j | 0 <= j < |s| :: s[j] < |b.rings|
    ensures k <= |s|
    ensures forall j | 0 <= j < k :: b.rings[s[j]].isSolved
    ensures k < |s| ==> !b.rings[s[k]].isSolved
  {
    PinNodes.FirstUnsolvedAt(s, Flags(b))
  }

  /** Whether putting r on pin p puts it in its final place: the biggest ring onto an empty pin,
      or a ring onto a solved ring exactly one size bigger. */
  predicate FinalPlace(b: Board, r: nat, p: nat)
    requires WellFormed(b) && r < |b.rings| && p < |b.stacks|
  {
    var s := b.stacks[p];
    if s == [] then b.rings[r].size == b.rings[0].size
    else b.rings[Top(s)].isSolved && b.rings[r].size + 1 == b.rings[Top(s)].size
  }

  /** The weight fillPendingPaths gives to moving r onto pin p (lighter is better). */
  function Weight(b: Board, r: nat, p: nat): int
    requires WellFormed(b) && r < |b.rings| && p < |b.stacks|
  {
    var s := b.stacks[p];
    var occupied :=
      if s == [] then 0
      else if b.rings[Top(s)].isSolved then 1
      else
        var k := FirstUnsolvedAt(b, s);
        assert k < |s| by {
          assert !Flags(b)[s[|s| - 1]];
        }
        1 - (b.rings[s[k]].size - b.rings[r].size) * 2;
    occupied - (if FinalPlace(b, r, p) then |b.rings| * 2 else 0)
  }

  function Candidate(b: Board, r: nat, p: nat): ExercisePath
    requires WellFormed(b) && r < |b.rings| && p < |b.stacks|
  {
    ExercisePath(Weight(b, r, p), p, r)
  }

  /** Pending paths of r after fillPendingPaths has looked at the first n pins. */
  function FillUpTo(b: Board, r: nat, n: nat): seq<ExercisePath>
    requires WellFormed(b) && r < |b.rings| && n <= |b.stacks|
  {
    if n == 0 then b.rings[r].pendingPaths
    else
      var acc := FillUpTo(b, r, n - 1);
      if Fits(b, r, n - 1) then RingNodes.AddedPath(acc, Candidate(b, r, n - 1)) else acc
  }

  /** fillPendingPaths: one candidate path per pin r fits on, added to r's pending paths. */
  function FillPaths(b: Board, r: nat): Board
    requires WellFormed(b) && r < |b.rings|
  {
    b.(rings := b.rings[r := b.rings[r].(pendingPaths := FillUpTo(b, r, |b.stacks|))])
  }

  /** getPinContainingRing, scanning from pin p: the first pin whose top ring has r's size. */
  function PinFrom(b: Board, r: nat, p: nat): (q: Option<nat>)
    requires WellFormed(b) && r < |b.rings| && p <= |b.stacks|
    ensures q.Some? ==> p <= q.value < |b.stacks| && b.stacks[q.value] != []
                        && b.rings[Top(b.stacks[q.value])].size == b.rings[r].size
    ensures q.Some? ==> forall j | p <= j < q.value ::
                          b.stacks[j] == [] || b.rings[Top(b.stacks[j])].size != b.rings[r].size
    ensures q.None? <==> forall j | p <= j < |b.stacks| ::
                          b.stacks[j] == [] || b.rings[Top(b.stacks[j])].size != b.rings[r].size
    decreases |b.stacks| - p
  {
    if p == |b.stacks| then None
    else if b.stacks[p] != [] && b.rings[Top(b.stacks[p])].size == b.rings[r].size then Some(p)
    else PinFrom(b, r, p + 1)
  }

  function PinContainingRing(b: Board, r: nat): Option<nat>
    requires WellFormed(b) && r < |b.rings|
  {
    PinFrom(b, r, 0)
  }

  /** What visitPath needs to run without a null dereference: the ring is on top of some pin, and
      when the ring goes to the solution pin that pin still has a ring after the pop. */
  predicate VisitDefined(b: Board, path: ExercisePath)
  {
    && WellFormed(b) && path.from < |b.rings| && path.destination < |b.stacks|
    && 0 < |b.rings|
    && PinContainingRing(b, path.from).Some?
    && (b.rings[path.from].size != b.rings[0].size && path.destination == b.solutionPinIndex ==>
          var from := PinContainingRing(b, path.from).value;
          b.stacks[from := Pop(b.stacks[from])][path.destination] != [])
  }

  /** Whether visitPath marks ring r solved when it lands on pin `to` above the stack `below`:
      the biggest ring always, any other ring only on the solution pin, right above a solved
      ring exactly one size bigger. */
  predicate LandsInPlace(b: Board, r: nat, to: nat, below: seq<nat>)
    requires r < |b.rings| && 0 < |b.rings|
    requires forall k | 0 <= k < |below| :: below[k] < |b.rings|
  {
    || b.rings[r].size == b.rings[0].size
    || (&& to == b.solutionPinIndex && below != []
        && b.rings[Top(below)].isSolved && b.rings[Top(below)].size == b.rings[r].size + 1)
  }

  /** visitPath: records the step, moves the ring, marks it solved when it reaches its final
      place, and clears the pending paths of the ring moved by the previous step. */
  function Visit(b: Board, path: ExercisePath): (v: Board)
    requires VisitDefined(b, path)
    ensures |v.rings| == |b.rings| && |v.stacks| == |b.stacks|
  {
    var r := path.from;
    var to := path.destination;
    var from := PinContainingRing(b, r).value;
    var step := ExerciseStep(from, to, r, |b.solution| + 1);
    var solution := b.solution + [step];
    var rings1 := b.rings[r := b.rings[r].(step := step.index)];
    var popped := b.stacks[from := Pop(b.stacks[from])];
    var biggest := b.rings[r].size == b.rings[0].size;
    var placed := LandsInPlace(b, r, to, popped[to]);
    var rings2 := if placed then rings1[r := rings1[r].(isSolved := true)] else rings1;
    var previous := solution[|solution| - 2 + (if |solution| > 1 then 0 else 1)].ring;
    var rings3 := if |solution| > 1 then rings2[previous := rings2[previous].(pendingPaths := [])] else rings2;
    Board(rings3, ApplyStep(b.stacks, from, to, r), solution, b.starterPinIndex,
          if biggest then to else b.solutionPinIndex)
  }

  /** The Hanoi rule on every pin: going up a stack, ring numbers increase, so sizes decrease. */
  predicate WellStacked(b: Board)
  {
    forall p, i, j | 0 <= p < |b.stacks| && 0 <= i < j < |b.stacks[p]| :: b.stacks[p][i] < b.stacks[p][j]
  }

  /** The search stops with success once the solution pin holds every ring. */
  predicate IsSolvedBoard(b: Board)
  {
    0 <= b.solutionPinIndex < |b.stacks| && |b.stacks[b.solutionPinIndex]| == |b.rings|
  }
}
