/**
 * The Search loop of the solver on the board value: a turn runs one SearchForSolution cycle and
 * then tests for success before failure; the loop repeats turns, here at most `fuel` of them,
 * because nothing in the solver bounds how long a lone movable ring may wander.
 */
module SolverRun {

  import opened ExerciseSteps
  import opened SolverBoard
  import opened SolverSearch
  import opened SolverProps
  import SolverChoice

  /** Where the search stands after a turn of its loop. */
  datatype Status = Searching(board: Board) | Solved(board: Board) | Failed(board: Board)

  /** What the search keeps from board b to a later board c: the invariant, the ledger replaying
      into c, every ring on the pins exactly as often, the Hanoi rule, and the solved run. */
  predicate Keeps(b: Board, c: Board)
  {
    && Inv(c) && Follows(b, c) && AllRings(c.stacks) == AllRings(b.stacks)
    && (WellStacked(b) ==> WellStacked(c))
    && (WellStacked(b) && SolvedRun(b) ==> SolvedRun(c))
  }

  lemma KeepsRefl(b: Board)
    requires Inv(b)
    ensures Keeps(b, b)
  {
    FollowsRefl(b);
  }

  lemma KeepsTrans(a: Board, b: Board, c: Board)
    ensures Keeps(a, b) && Keeps(b, c) ==> Keeps(a, c)
  {
    if Keeps(a, b) && Keeps(b, c) {
      FollowsTrans(a, b, c);
    }
  }

  /** One cycle, or none when no ring can move, keeps everything Keeps names. */
  lemma CycleKeeps(b: Board)
    requires Inv(b)
    ensures Keeps(b, if Cycle(b).Some? then Cycle(b).value else b)
  {
    if Pick(b).Some? {
      CycleMoves(b);
      var c := Cycle(b).value;
      var st := c.solution[|b.solution|];
      MovedFollows(b, c, st);
      MovedConserves(b, c, st);
      if WellStacked(b) {
        MovedKeepsWellStacked(b, c, st);
        if SolvedRun(b) {
          MovedKeepsSolvedRun(b, c, st);
        }
      }
    } else {
      KeepsRefl(b);
    }
  }

  /** One turn of the Search loop: a cycle, then the check that the solution pin holds every
      ring, and only then the check that the cycle failed. */
  function SearchStep(b: Board): (st: Status)
    requires Inv(b)
    ensures Inv(st.board)
    ensures st.Solved? <==> IsSolvedBoard(st.board)
    ensures st.Failed? <==> Pick(b).None? && !IsSolvedBoard(b)
    ensures Pick(b).None? ==> st.board == b
  {
    var c := Cycle(b);
    var next := if c.Some? then c.value else b;
    if next.solutionPinIndex != -1 && |next.stacks[next.solutionPinIndex]| == |next.rings| then Solved(next)
    else if c.None? then Failed(next)
    else Searching(next)
  }

  /** A turn keeps everything Keeps names. */
  lemma StepKeeps(b: Board)
    requires Inv(b)
    ensures Keeps(b, SearchStep(b).board)
  {
    CycleKeeps(b);
  }

  /** The fuel left after one more turn. */
  function OneLess(fuel: nat): nat
    requires fuel > 0
  {
    fuel - 1
  }

  /** The Search loop with at most `fuel` turns; Searching when the fuel runs out first. */
  function Run(b: Board, fuel: nat): (st: Status)
    requires Inv(b)
    ensures Inv(st.board)
    ensures st.Solved? ==> IsSolvedBoard(st.board)
    ensures st.Failed? ==> Pick(st.board).None? && !IsSolvedBoard(st.board)
    decreases fuel
  {
    if fuel == 0 then Searching(b)
    else
      match SearchStep(b)
      case Searching(next) => Run(next, OneLess(fuel))
      case Solved(next) => Solved(next)
      case Failed(next) => Failed(next)
  }

  /** A turn that leaves the search going hands the rest of the fuel to the next board. */
  lemma RunGoesOn(b: Board, fuel: nat)
    requires Inv(b) && fuel > 0 && SearchStep(b).Searching?
    ensures Run(b, fuel) == Run(SearchStep(b).board, OneLess(fuel))
  {
  }

  /** A turn that ends the search ends Run with it. */
  lemma RunStops(b: Board, fuel: nat)
    requires Inv(b) && fuel > 0 && !SearchStep(b).Searching?
    ensures Run(b, fuel) == SearchStep(b)
  {
  }

  /** Run again, carrying Keeps from turn to turn; it is Run itself. */
  function KeptRun(b: Board, fuel: nat): (st: Status)
    requires Inv(b)
    ensures st == Run(b, fuel) && Keeps(b, st.board)
    decreases fuel
  {
    if fuel == 0 then
      KeepsRefl(b);
      Searching(b)
    else
      StepKeeps(b);
      match SearchStep(b)
      case Searching(next) =>
        var st := KeptRun(next, OneLess(fuel));
        KeepsTrans(b, next, st.board);
        st
      case Solved(next) => Solved(next)
      case Failed(next) => Failed(next)
  }

  /** The whole search keeps everything Keeps names, turn after turn. */
  lemma RunKeeps(b: Board, fuel: nat)
    requires Inv(b)
    ensures Keeps(b, Run(b, fuel).board)
  {
    var st := KeptRun(b, fuel);
  }

  /** A search started on a well-stacked board that ends Solved leaves the complete tower, ring
      0 at the bottom up to ring N-1 at the top, on the solution pin. */
  lemma SolvedIsTower(b: Board, fuel: nat)
    requires Inv(b) && WellStacked(b) && Run(b, fuel).Solved?
    ensures var e := Run(b, fuel).board;
      0 <= e.solutionPinIndex < |e.stacks| && e.stacks[e.solutionPinIndex] == Ids(|e.rings|)
  {
    var e := Run(b, fuel).board;
    RunKeeps(b, fuel);
    FullStackIsTower(e.stacks[e.solutionPinIndex], |e.rings|);
  }

  /** From a fresh snapshot (empty ledger) the ledger the search leaves numbers its steps 1..n
      and, replayed on the snapshot's stacks, reproduces the final stacks. */
  lemma LedgerReplaysFromStart(b: Board, fuel: nat)
    requires Inv(b) && b.solution == []
    ensures var e := Run(b, fuel).board;
      && NumberedFromOne(e.solution)
      && StepsInRange(e.solution, |b.stacks|, |b.rings|)
      && Replay(b.stacks, e.solution, Ids(|b.rings|)) == e.stacks
  {
    var e := Run(b, fuel).board;
    RunKeeps(b, fuel);
    assert e.solution[|b.solution|..] == e.solution;
  }

  /** When every ring is already solved, the first turn reports Solved and moves nothing: the
      ledger stays as it was (empty for a fresh snapshot). */
  lemma PreSolvedStops(b: Board, fuel: nat)
    requires Inv(b) && WellStacked(b) && SolvedRun(b) && fuel > 0 && 0 < |b.rings|
    requires forall i | 0 <= i < |b.rings| :: b.rings[i].isSolved
    ensures Run(b, fuel) == Solved(b)
  {
    SolverChoice.BestRingToMoveFound(b, RingsOnTop(b));
    assert Pick(b).None?;
    var sp := b.solutionPinIndex;
    assert b.rings[0].isSolved;
    var s := b.stacks[sp];
    assert |b.rings| <= |s| by {
      assert b.rings[|b.rings| - 1].isSolved;
    }
    if |b.rings| < |s| {
      HeightAtMostNumber(s, |b.rings|);
    }
    assert IsSolvedBoard(b);
  }
}
