/**
 * The solver's search loop on the board value: one cycle of SearchForSolution (pick a ring, fill
 * its paths, take the lightest, visit it) and the invariant every cycle keeps.
 */
module SolverSearch {

  import opened Wrappers
  import opened ExercisePaths
  import opened ExerciseSteps
  import opened SolverBoard
  import SolverChoice
  import RingNodes

  /** Once known, the solution pin has the biggest ring at its bottom, and that ring is solved. */
  predicate SolutionPinOk(b: Board)
  {
    b.solutionPinIndex == -1 ||
      (&& 0 <= b.solutionPinIndex < |b.stacks|
       && b.stacks[b.solutionPinIndex] != []
       && b.stacks[b.solutionPinIndex][0] == 0
       && 0 < |b.rings|
       && b.rings[0].isSolved)
  }

  /** Path q moves ring i to a pin it fits on. */
  predicate Leads(b: Board, i: nat, q: ExercisePath)
    requires WellFormed(b) && i < |b.rings|
  {
    q.from == i && q.destination < |b.stacks| && Fits(b, i, q.destination)
  }

  /** Only the ring moved last may still hold pending paths. */
  predicate OnlyLastPending(b: Board)
  {
    forall i | 0 <= i < |b.rings| :: b.rings[i].pendingPaths != [] ==> LastMoved(b) == Some(i)
  }

  /** Pending paths are sorted by weight and are all still legal moves. */
  predicate PendingLegal(b: Board)
    requires WellFormed(b)
  {
    forall i | 0 <= i < |b.rings| ::
      && SortedByWeight(b.rings[i].pendingPaths)
      && forall q | q in b.rings[i].pendingPaths :: Leads(b, i, q)
  }

  /** The invariant of the search: it makes every cycle well defined and every cycle keeps it. */
  predicate Inv(b: Board)
  {
    Shaped(b) && SolutionPinOk(b) && OnlyLastPending(b) && PendingLegal(b)
  }

  /** The ring a cycle moves (getRingsOnTop, then getBestRingToMove); None ends the search. */
  function Pick(b: Board): Option<nat>
    requires WellFormed(b)
  {
    var options := RingsOnTop(b);
    if options == [] then None else BestRingToMove(b, options)
  }

  /** pathShift on ring r: its first pending path is removed. */
  function Shift(b: Board, r: nat): Board
    requires r < |b.rings|
  {
    var paths := b.rings[r].pendingPaths;
    b.(rings := b.rings[r := b.rings[r].(pendingPaths := if paths == [] then [] else paths[1..])])
  }

  /** Ring r is on top of some pin. */
  predicate OnTop(b: Board, r: nat)
  {
    exists p | 0 <= p < |b.stacks| && b.stacks[p] != [] :: Top(b.stacks[p]) == r
  }

  /** The picked ring is movable and on top of a pin. */
  lemma PickOnTop(b: Board, r: nat)
    requires WellFormed(b) && Pick(b) == Some(r)
    ensures r < |b.rings| && Movable(b, r) && OnTop(b, r)
  {
    var options := RingsOnTop(b);
    SolverChoice.BestRingToMoveFound(b, options);
    assert r in TopsUpTo(b, |b.stacks|);
  }

  /** A ring on top of a pin is found by getPinContainingRing, which returns a pin it tops. */
  lemma PinContainingTop(b: Board, r: nat)
    requires Shaped(b) && r < |b.rings| && OnTop(b, r)
    ensures PinContainingRing(b, r).Some?
    ensures var from := PinContainingRing(b, r).value; b.stacks[from] != [] && Top(b.stacks[from]) == r
  {
    var p :| 0 <= p < |b.stacks| && b.stacks[p] != [] && Top(b.stacks[p]) == r;
    assert !(b.stacks[p] == [] || b.rings[Top(b.stacks[p])].size != b.rings[r].size);
  }

  /** getPinContainingRing depends only on the stacks and the sizes. */
  lemma {:induction false} PinFromFrame(b: Board, c: Board, r: nat, p: nat)
    requires WellFormed(b) && WellFormed(c) && r < |b.rings| && p <= |b.stacks|
    requires c.stacks == b.stacks && |c.rings| == |b.rings|
    requires forall i | 0 <= i < |b.rings| :: c.rings[i].size == b.rings[i].size
    ensures PinFrom(c, r, p) == PinFrom(b, r, p)
    decreases |b.stacks| - p
  {
    if p < |b.stacks| {
      PinFromFrame(b, c, r, p + 1);
    }
  }

  /** The paths r holds after fillPendingPaths: a non-empty sorted list of legal moves for r. */
  lemma FilledPathsLead(b: Board, r: nat)
    requires Inv(b) && r < |b.rings| && Movable(b, r)
    ensures var filled := FillUpTo(b, r, |b.stacks|);
      && filled != []
      && SortedByWeight(filled)
      && forall q | q in filled :: Leads(b, r, q)
  {
    SolverChoice.FillNonEmpty(b, r, |b.stacks|);
    SolverChoice.FillSorted(b, r, |b.stacks|);
    SolverChoice.FillEntries(b, r, |b.stacks|);
  }

  /** What filling and shifting r's paths leave untouched, and what they leave on r. */
  lemma ShiftFillFrame(b: Board, r: nat)
    requires WellFormed(b) && r < |b.rings|
    ensures var s := Shift(FillPaths(b, r), r);
      && s.stacks == b.stacks && s.solution == b.solution
      && s.solutionPinIndex == b.solutionPinIndex && s.starterPinIndex == b.starterPinIndex
      && |s.rings| == |b.rings| && WellFormed(s)
      && (forall i | 0 <= i < |b.rings| ::
            s.rings[i].size == b.rings[i].size && s.rings[i].isSolved == b.rings[i].isSolved && s.rings[i].step == b.rings[i].step)
      && (forall i | 0 <= i < |b.rings| && i != r :: s.rings[i].pendingPaths == b.rings[i].pendingPaths)
      && (FillUpTo(b, r, |b.stacks|) != [] ==> s.rings[r].pendingPaths == FillUpTo(b, r, |b.stacks|)[1..])
      && PinContainingRing(s, r) == PinContainingRing(b, r)
  {
    var s := Shift(FillPaths(b, r), r);
    PinFromFrame(b, s, r, 0);
  }

  /** A ring to move, as Pick delivers it: movable and on top of a pin. */
  predicate CanMove(b: Board, r: nat)
  {
    Inv(b) && r < |b.rings| && Movable(b, r) && OnTop(b, r)
  }

  /** The path the cycle takes for r: the first one after fillPendingPaths. */
  function Chosen(b: Board, r: nat): ExercisePath
    requires CanMove(b, r)
  {
    FilledPathsLead(b, r);
    FillUpTo(b, r, |b.stacks|)[0]
  }

  /** Moving r along its chosen path is well defined. */
  lemma MoveDefined(b: Board, r: nat)
    requires CanMove(b, r)
    ensures VisitDefined(Shift(FillPaths(b, r), r), Chosen(b, r))
  {
    var h := Chosen(b, r);
    FilledPathsLead(b, r);
    assert h in FillUpTo(b, r, |b.stacks|);
    assert Leads(b, r, h);
    ShiftFillFrame(b, r);
    PinContainingTop(b, r);
  }

  /** One SearchForSolution cycle: None when no ring can be moved (the board is left as it was),
      otherwise the board after the chosen ring has taken its lightest path. */
  function Cycle(b: Board): (c: Option<Board>)
    requires Inv(b)
    ensures c.None? <==> Pick(b).None?
    ensures c.Some? ==> Inv(c.value)
  {
    match Pick(b)
    case None => None
    case Some(r) =>
      PickOnTop(b, r);
      MoveDefined(b, r);
      MoveKeepsInv(b, r);
      Some(Visit(Shift(FillPaths(b, r), r), Chosen(b, r)))
  }

  /** What visitPath does, part by part (with VisitExact, the only places the model unfolds Visit). */
  lemma VisitRings(s: Board, h: ExercisePath)
    requires VisitDefined(s, h)
    ensures var v := Visit(s, h);
      && |v.rings| == |s.rings| && |v.stacks| == |s.stacks|
      && (forall i | 0 <= i < |s.rings| :: v.rings[i].size == s.rings[i].size)
      && (forall i | 0 <= i < |s.rings| && i != h.from :: v.rings[i].isSolved == s.rings[i].isSolved)
      && (s.rings[h.from].isSolved ==> v.rings[h.from].isSolved)
      && (s.rings[h.from].size == s.rings[0].size ==> v.rings[h.from].isSolved)
      && (PinContainingRing(s, h.from).value != h.destination ==>
            v.rings[h.from].isSolved == (s.rings[h.from].isSolved || LandsInPlace(s, h.from, h.destination, s.stacks[h.destination])))
      && v.rings[h.from].step == |s.solution| + 1
      && (forall i | 0 <= i < |s.rings| && i != h.from :: v.rings[i].step == s.rings[i].step)
      && (forall i | 0 <= i < |s.rings| ::
            v.rings[i].pendingPaths == if LastMoved(s) == Some(i) then [] else s.rings[i].pendingPaths)
      && LastMoved(v) == Some(h.from)
      && v.stacks == ApplyStep(s.stacks, PinContainingRing(s, h.from).value, h.destination, h.from)
      && v.solution == s.solution + [ExerciseStep(PinContainingRing(s, h.from).value, h.destination, h.from, |s.solution| + 1)]
      && v.solutionPinIndex == (if s.rings[h.from].size == s.rings[0].size then h.destination else s.solutionPinIndex)
      && v.starterPinIndex == s.starterPinIndex
  {
  }

  /** What visitPath leaves on each ring, exactly: the moved ring gets the new step number and
      is solved when it was or when it lands in place; the ring moved by the previous step loses
      its pending paths; every other field stays. */
  lemma VisitExact(s: Board, h: ExercisePath, i: nat)
    requires VisitDefined(s, h) && i < |s.rings|
    ensures var from := PinContainingRing(s, h.from).value;
      var popped := s.stacks[from := Pop(s.stacks[from])];
      Visit(s, h).rings[i] == RingState(
        s.rings[i].size,
        s.rings[i].isSolved || (i == h.from && LandsInPlace(s, h.from, h.destination, popped[h.destination])),
        if i == h.from then |s.solution| + 1 else s.rings[i].step,
        if LastMoved(s) == Some(i) then [] else s.rings[i].pendingPaths)
  {
  }

  /** Every cycle keeps the invariant. */
  lemma MoveKeepsInv(b: Board, r: nat)
    requires CanMove(b, r)
    ensures VisitDefined(Shift(FillPaths(b, r), r), Chosen(b, r))
    ensures Inv(Visit(Shift(FillPaths(b, r), r), Chosen(b, r)))
  {
    MoveDefined(b, r);
    var s := Shift(FillPaths(b, r), r);
    var h := Chosen(b, r);
    var v := Visit(s, h);
    var filled := FillUpTo(b, r, |b.stacks|);
    var from := PinContainingRing(b, r).value;
    FilledPathsLead(b, r);
    assert h in filled;
    ShiftFillFrame(b, r);
    PinContainingTop(b, r);
    VisitRings(s, h);
    VisitShaped(b, v, h, from);
    VisitSolutionPin(b, v, h, from);
    if b.rings[r].pendingPaths == [] {
      SolverChoice.FillFromEmpty(b, r, |b.stacks|);
    }
    VisitPending(b, s, v, r, from, filled);
  }

  /** The board after the visit is still shaped. */
  lemma VisitShaped(b: Board, v: Board, h: ExercisePath, from: nat)
    requires Shaped(b) && h.from < |b.rings| && from < |b.stacks| && h.destination < |b.stacks|
    requires |v.rings| == |b.rings|
    requires forall i | 0 <= i < |b.rings| :: v.rings[i].size == b.rings[i].size
    requires v.stacks == ApplyStep(b.stacks, from, h.destination, h.from)
    requires v.solution == b.solution + [ExerciseStep(from, h.destination, h.from, |b.solution| + 1)]
    ensures Shaped(v)
  {
    assert StepsInRange(v.solution, |v.stacks|, |v.rings|) by {
      forall k | 0 <= k < |v.solution|
        ensures v.solution[k].from < |v.stacks| && v.solution[k].to < |v.stacks| && v.solution[k].ring < |v.rings|
      {
        if k < |b.solution| {
          assert v.solution[k] == b.solution[k];
        }
      }
    }
    var popped := b.stacks[from := Pop(b.stacks[from])];
    assert forall p, k | 0 <= p < |popped| && 0 <= k < |popped[p]| :: popped[p][k] < |b.rings| by {
      forall p, k | 0 <= p < |popped| && 0 <= k < |popped[p]| ensures popped[p][k] < |b.rings| {
        if p == from {
          assert popped[p][k] == b.stacks[p][k];
        }
      }
    }
  }

  /** The solution pin keeps the biggest ring, solved, at its bottom. */
  lemma VisitSolutionPin(b: Board, v: Board, h: ExercisePath, from: nat)
    requires Inv(b) && h.from < |b.rings| && from < |b.stacks|
    requires |v.rings| == |b.rings|
    requires b.stacks[from] != [] && Top(b.stacks[from]) == h.from
    requires !b.rings[h.from].isSolved && Leads(b, h.from, h)
    requires v.stacks == ApplyStep(b.stacks, from, h.destination, h.from)
    requires forall i | 0 <= i < |b.rings| && i != h.from :: v.rings[i].isSolved == b.rings[i].isSolved
    requires b.rings[h.from].size == b.rings[0].size ==> v.rings[h.from].isSolved
    requires v.solutionPinIndex == (if b.rings[h.from].size == b.rings[0].size then h.destination else b.solutionPinIndex)
    ensures SolutionPinOk(v)
  {
    var r := h.from;
    var to := h.destination;
    var sp := b.solutionPinIndex;
    var popped := b.stacks[from := Pop(b.stacks[from])];
    assert from != to;
    if r == 0 {
      assert b.stacks[to] == [];
      assert popped[to] == [];
      assert v.stacks[to] == [0];
    } else if sp != -1 {
      if from == sp {
        assert |b.stacks[sp]| >= 2;
        assert v.stacks[sp][0] == 0;
      } else if to == sp {
        assert v.stacks[sp][0] == 0;
      } else {
        assert v.stacks[sp] == b.stacks[sp];
      }
    }
  }

  /** Legal paths of r stay legal on a board that differs only on pins they do not lead to. */
  lemma LeadsFrame(b: Board, v: Board, r: nat, paths: seq<ExercisePath>, from: nat, to: nat)
    requires WellFormed(b) && WellFormed(v) && r < |b.rings|
    requires |v.rings| == |b.rings| && |v.stacks| == |b.stacks|
    requires forall i | 0 <= i < |b.rings| :: v.rings[i].size == b.rings[i].size
    requires forall d | 0 <= d < |b.stacks| && d != from && d != to :: v.stacks[d] == b.stacks[d]
    requires forall q | q in paths :: Leads(b, r, q) && q.destination != from && q.destination != to
    ensures forall q | q in paths :: Leads(v, r, q)
  {
  }

  /** The rest of a freshly filled list stays legal after the ring moves along its first path. */
  lemma RestLeads(b: Board, v: Board, r: nat, filled: seq<ExercisePath>, from: nat)
    requires WellFormed(b) && WellFormed(v) && r < |b.rings| && from < |b.stacks|
    requires |v.rings| == |b.rings| && |v.stacks| == |b.stacks|
    requires forall i | 0 <= i < |b.rings| :: v.rings[i].size == b.rings[i].size
    requires filled != [] && DistinctDestinations(filled) && SortedByWeight(filled)
    requires forall q | q in filled :: Leads(b, r, q)
    requires b.stacks[from] != [] && Top(b.stacks[from]) == r
    requires forall d | 0 <= d < |b.stacks| && d != from && d != filled[0].destination :: v.stacks[d] == b.stacks[d]
    ensures SortedByWeight(filled[1..])
    ensures forall q | q in filled[1..] :: Leads(v, r, q)
  {
    var rest := filled[1..];
    forall q | q in rest ensures Leads(b, r, q) && q.destination != from && q.destination != filled[0].destination {
      var j :| 0 <= j < |rest| && rest[j] == q;
      assert filled[0].destination != filled[j + 1].destination;
      assert q in filled;
    }
    LeadsFrame(b, v, r, rest, from, filled[0].destination);
  }

  /** After the visit only the ring just moved may hold pending paths, and they are still legal. */
  lemma VisitPending(b: Board, s: Board, v: Board, r: nat, from: nat, filled: seq<ExercisePath>)
    requires Shaped(b) && OnlyLastPending(b) && r < |b.rings| && from < |b.stacks|
    requires WellFormed(v) && |v.rings| == |b.rings| && |v.stacks| == |b.stacks| && |s.rings| == |b.rings|
    requires forall i | 0 <= i < |b.rings| :: v.rings[i].size == b.rings[i].size
    requires s.solution == b.solution
    requires forall i | 0 <= i < |b.rings| && i != r :: s.rings[i].pendingPaths == b.rings[i].pendingPaths
    requires filled != [] && SortedByWeight(filled) && forall q | q in filled :: Leads(b, r, q)
    requires s.rings[r].pendingPaths == filled[1..]
    requires b.rings[r].pendingPaths == [] ==> DistinctDestinations(filled)
    requires b.stacks[from] != [] && Top(b.stacks[from]) == r
    requires forall i | 0 <= i < |b.rings| ::
      v.rings[i].pendingPaths == if LastMoved(s) == Some(i) then [] else s.rings[i].pendingPaths
    requires LastMoved(v) == Some(r)
    requires filled[0].destination < |b.stacks|
    requires v.stacks == ApplyStep(b.stacks, from, filled[0].destination, r)
    ensures OnlyLastPending(v) && PendingLegal(v)
  {
    assert forall i | 0 <= i < |v.rings| && i != r :: v.rings[i].pendingPaths == [];
    if LastMoved(b) != Some(r) {
      assert forall d | 0 <= d < |b.stacks| && d != from && d != filled[0].destination :: v.stacks[d] == b.stacks[d];
      RestLeads(b, v, r, filled, from);
    }
  }

  /** Board c is board b after ring st.ring, movable and on top of pin st.from, went to pin
      st.to, which it fits on, as step st of the ledger; nothing else moved. */
  predicate Moved(b: Board, c: Board, st: ExerciseStep)
    requires WellFormed(b)
  {
    && c.solution == b.solution + [st] && st.index == |b.solution| + 1
    && st.ring < |b.rings| && Movable(b, st.ring)
    && st.from < |b.stacks| && st.to < |b.stacks| && st.from != st.to
    && b.stacks[st.from] != [] && Top(b.stacks[st.from]) == st.ring
    && Fits(b, st.ring, st.to)
    && c.stacks == ApplyStep(b.stacks, st.from, st.to, st.ring)
    && |c.rings| == |b.rings|
    && (forall i | 0 <= i < |b.rings| :: c.rings[i].size == b.rings[i].size)
    && (forall i | 0 <= i < |b.rings| && i != st.ring ::
          c.rings[i].isSolved == b.rings[i].isSolved && c.rings[i].step == b.rings[i].step)
    && c.rings[st.ring].isSolved == LandsInPlace(b, st.ring, st.to, b.stacks[st.to])
    && c.rings[st.ring].step == st.index
    && c.solutionPinIndex == (if st.ring == 0 then st.to else b.solutionPinIndex)
    && c.starterPinIndex == b.starterPinIndex
  }

  /** The visit of a legal path of a movable ring on top of pin `from` is a Moved step. */
  lemma MovedByVisit(b: Board, v: Board, h: ExercisePath, from: nat)
    requires Shaped(b) && h.from < |b.rings| && Movable(b, h.from) && Leads(b, h.from, h)
    requires from < |b.stacks| && b.stacks[from] != [] && Top(b.stacks[from]) == h.from
    requires |v.rings| == |b.rings|
    requires forall i | 0 <= i < |b.rings| :: v.rings[i].size == b.rings[i].size
    requires forall i | 0 <= i < |b.rings| && i != h.from ::
      v.rings[i].isSolved == b.rings[i].isSolved && v.rings[i].step == b.rings[i].step
    requires from != h.destination ==>
      v.rings[h.from].isSolved == LandsInPlace(b, h.from, h.destination, b.stacks[h.destination])
    requires v.rings[h.from].step == |b.solution| + 1
    requires v.stacks == ApplyStep(b.stacks, from, h.destination, h.from)
    requires v.solution == b.solution + [ExerciseStep(from, h.destination, h.from, |b.solution| + 1)]
    requires v.solutionPinIndex == (if b.rings[h.from].size == b.rings[0].size then h.destination else b.solutionPinIndex)
    requires v.starterPinIndex == b.starterPinIndex
    ensures Moved(b, v, v.solution[|b.solution|])
  {
    assert from != h.destination;
  }

  /** What one successful cycle does, read off the step it appends to the ledger. */
  lemma CycleMoves(b: Board)
    requires Inv(b) && Pick(b).Some?
    ensures Cycle(b).Some? && |Cycle(b).value.solution| == |b.solution| + 1
    ensures var st := Cycle(b).value.solution[|b.solution|];
      && Pick(b) == Some(st.ring) && st.ring < |b.rings|
      && Moved(b, Cycle(b).value, st)
      && (CanMove(b, st.ring) && st.to == Chosen(b, st.ring).destination)
  {
    var r := Pick(b).value;
    PickOnTop(b, r);
    MoveDefined(b, r);
    VisitMoves(b, r);
    assert Cycle(b) == Some(Visit(Shift(FillPaths(b, r), r), Chosen(b, r)));
  }

  /** The visit of the chosen path of a ring that can move appends one Moved step for it. */
  lemma VisitMoves(b: Board, r: nat)
    requires CanMove(b, r)
    ensures VisitDefined(Shift(FillPaths(b, r), r), Chosen(b, r))
    ensures var v := Visit(Shift(FillPaths(b, r), r), Chosen(b, r));
      && |v.solution| == |b.solution| + 1
      && v.solution[|b.solution|].ring == r && v.solution[|b.solution|].to == Chosen(b, r).destination
      && Moved(b, v, v.solution[|b.solution|])
  {
    MoveDefined(b, r);
    var s := Shift(FillPaths(b, r), r);
    var h := Chosen(b, r);
    var from := PinContainingRing(b, r).value;
    assert Leads(b, r, h) by {
      FilledPathsLead(b, r);
      assert h in FillUpTo(b, r, |b.stacks|);
    }
    ShiftFillFrame(b, r);
    PinContainingTop(b, r);
    VisitRings(s, h);
    var v := Visit(s, h);
    assert from != h.destination ==>
      v.rings[r].isSolved == LandsInPlace(b, r, h.destination, b.stacks[h.destination]);
    MovedByVisit(b, v, h, from);
  }
}
