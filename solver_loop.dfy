/**
 * The Search loop of the solver seen from the inside: the phase it reports, the number of turns
 * it takes, and where it stands midway through its turns against the whole run.
 */
module SolverLoop {

  import opened SolverBoard
  import opened SolverSearch
  import opened SolverRun

  /** How a search ended: still going when the turn budget ran out, solved, or stuck. */
  datatype Phase = InProgress | Succeeded | NoSolution

  /** The phase a Status stands for. */
  function PhaseOf(st: Status): Phase
  {
    match st
    case Searching(_) => InProgress
    case Solved(_) => Succeeded
    case Failed(_) => NoSolution
  }

  /** How many turns the Search loop takes from board b within `fuel` turns: each turn counts,
      and only a Searching turn leads to another. */
  function Turns(b: Board, fuel: nat): (n: nat)
    requires Inv(b)
    ensures n <= fuel
    ensures fuel > 0 ==> 1 <= n
    decreases fuel
  {
    if fuel == 0 then 0
    else
      match SearchStep(b)
      case Searching(next) => 1 + Turns(next, OneLess(fuel))
      case _ => 1
  }

  /** Midway through the Search loop started on m0 with `fuel` turns: `taken` turns led to
      board cur, and the remaining `left` turns from cur end as the whole loop does. */
  predicate OnTrack(m0: Board, fuel: nat, cur: Board, left: nat, taken: nat)
  {
    && Inv(m0) && Inv(cur) && left <= fuel
    && Run(cur, left) == Run(m0, fuel) && taken + Turns(cur, left) == Turns(m0, fuel)
  }

  /** The Search loop started on m0 with `fuel` turns has ended, after `taken` turns, on board
      cur in the given phase. */
  predicate Finished(m0: Board, fuel: nat, cur: Board, phase: Phase, taken: nat)
  {
    Inv(m0) && cur == Run(m0, fuel).board && phase == PhaseOf(Run(m0, fuel)) && taken == Turns(m0, fuel)
  }

  lemma OnTrackStart(m0: Board, fuel: nat)
    requires Inv(m0)
    ensures OnTrack(m0, fuel, m0, fuel, 0)
  {
  }

  /** The turns taken after one more turn. */
  function OneMore(taken: nat): nat
  {
    taken + 1
  }

  /** A turn that leaves the search going hands the rest of the fuel to the next board. */
  lemma OnTrackNext(m0: Board, fuel: nat, cur: Board, left: nat, taken: nat)
    requires OnTrack(m0, fuel, cur, left, taken) && left > 0 && SearchStep(cur).Searching?
    ensures OnTrack(m0, fuel, SearchStep(cur).board, OneLess(left), OneMore(taken))
  {
    UnfoldSearching(cur, left);
  }

  /** Run and Turns on a Searching turn, one unfolding. */
  lemma UnfoldSearching(b: Board, fuel: nat)
    requires Inv(b) && SearchStep(b).Searching? && fuel > 0
    ensures Run(b, fuel) == Run(SearchStep(b).board, OneLess(fuel))
    ensures Turns(b, fuel) == 1 + Turns(SearchStep(b).board, OneLess(fuel))
  {
  }

  /** A turn that ends the search ends Run with it. */
  lemma OnTrackStop(m0: Board, fuel: nat, cur: Board, left: nat, taken: nat)
    requires OnTrack(m0, fuel, cur, left, taken) && left > 0 && !SearchStep(cur).Searching?
    ensures SearchStep(cur) == Run(m0, fuel) && OneMore(taken) == Turns(m0, fuel)
  {
  }

  /** Out of fuel while still searching: Run stops here too. */
  lemma OnTrackOut(m0: Board, fuel: nat, cur: Board, taken: nat)
    requires OnTrack(m0, fuel, cur, 0, taken)
    ensures Finished(m0, fuel, cur, InProgress, taken)
  {
  }
}
