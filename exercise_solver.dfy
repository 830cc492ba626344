/**
 * ExerciseSolver: the search for a solution of the current exercise, on the solver's own copies
 * of the rings and pins. Its state is the list of ring nodes, the list of pin nodes, the ledger
 * of steps, the starter pin and the solution pin; Model() reads that state as a board value,
 * and every method is proved to do to the model what the function of the same routine in the
 * SolverBoard, SolverSearch, SolverRun and SolverSnapshot modules says.
 */
module Solver {

  import opened Wrappers
  import opened ExercisePaths
  import opened ExerciseSteps
  import opened SelectableRings
  import opened Pins
  import opened RingNodes
  import opened PinNodes
  import opened SolverBoard
  import opened SolverSearch
  import opened SolverRun
  import opened SolverSnapshot
  import opened SolverLoop

  /** Position of the first entry of rs that is x: the node getRingNodeFromReference finds, the
      ring nodes being made one per scene ring, in order. */
  function IndexIn(rs: seq<SelectableRing>, x: SelectableRing): (i: nat)
    requires x in rs
    ensures i < |rs| && rs[i] == x
    ensures forall j | 0 <= j < i :: rs[j] != x
  {
    if rs[0] == x then 0 else 1 + IndexIn(rs[1..], x)
  }

  /** The rings of a scene stack as positions in the scene's ring list. */
  function LiveStack(rs: seq<SelectableRing>, s: seq<SelectableRing>): (t: seq<nat>)
    requires forall k | 0 <= k < |s| :: s[k] in rs
    ensures |t| == |s|
    ensures forall k | 0 <= k < |s| :: t[k] < |rs| && rs[t[k]] == s[k]
  {
    seq(|s|, k requires 0 <= k < |s| => IndexIn(rs, s[k]))
  }

  /** Every ring on the scene's pins is one of the scene's rings. */
  predicate OnlyKnownRings(rs: seq<SelectableRing>, ps: seq<Pin>)
    reads ps
  {
    forall p, k | 0 <= p < |ps| && 0 <= k < |ps[p].ringsStack| :: ps[p].ringsStack[k] in rs
  }

  /** The scene's stacks as positions in the scene's ring list. */
  function LiveStacks(rs: seq<SelectableRing>, ps: seq<Pin>): (stacks: seq<seq<nat>>)
    requires OnlyKnownRings(rs, ps)
    reads ps
    ensures |stacks| == |ps|
    ensures forall p | 0 <= p < |ps| :: stacks[p] == LiveStack(rs, ps[p].ringsStack)
    ensures forall p, k | 0 <= p < |stacks| && 0 <= k < |stacks[p]| :: stacks[p][k] < |rs|
  {
    seq(|ps|, p requires 0 <= p < |ps| && forall k | 0 <= k < |ps[p].ringsStack| :: ps[p].ringsStack[k] in rs
      reads ps => LiveStack(rs, ps[p].ringsStack))
  }

  /** The marking pass over one more pin, p: the rings marked are those marked before plus the
      first k rings of p, where k is the height of p's run in place when p is not the starter pin
      and not empty, and 0 otherwise; p is the new solution pin exactly when k > 0. */
  lemma MarkedNext(b0: Board, p: nat, k: nat)
    requires WellFormed(b0) && p < |b0.stacks|
    requires var s := b0.stacks[p];
      k == if p != b0.starterPinIndex && s != [] then (assert s[0] < |b0.rings|; RunFrom(b0, s, 0)) else 0
    ensures k <= |b0.stacks[p]|
    ensures forall j :: MarkedBefore(b0, p + 1, j) <==> MarkedBefore(b0, p, j) || j in b0.stacks[p][..k]
    ensures LastMarked(b0, p + 1) == if k > 0 then p else LastMarked(b0, p)
  {
  }


  /** A turn as the loop sees it: after the cycle left board c (ok telling whether a ring
      moved), success is checked on c before failure. */
  lemma TurnOutcome(b: Board, c: Board, ok: bool)
    requires Inv(b) && ok == Pick(b).Some? && c == (if ok then Cycle(b).value else b)
    ensures Inv(c) && SearchStep(b).board == c
    ensures c.solutionPinIndex != -1 ==> 0 <= c.solutionPinIndex < |c.stacks|
    ensures PhaseOf(SearchStep(b)) ==
      if c.solutionPinIndex != -1 && |c.stacks[c.solutionPinIndex]| == |c.rings| then Succeeded
      else if !ok then NoSolution
      else InProgress
  {
    CycleKeeps(b);
  }

  /** The boards visitPath passes through once it knows the source pin: after the ledger entry,
      after the pop, after the solved check and after the push. */
  function VisitStages(b: Board, path: ExercisePath, from: nat): (stages: (Board, Board, Board, Board))
    requires WellFormed(b) && 0 < |b.rings| && path.from < |b.rings|
    requires from < |b.stacks| && path.destination < |b.stacks|
  {
    var r := path.from;
    var to := path.destination;
    var step := ExerciseStep(from, to, r, |b.solution| + 1);
    var b0 := b.(solution := b.solution + [step], rings := b.rings[r := b.rings[r].(step := step.index)]);
    var b1 := b0.(stacks := b0.stacks[from := Pop(b0.stacks[from])]);
    assert forall k | 0 <= k < |b1.stacks[to]| :: b1.stacks[to][k] < |b.rings|;
    var landed := b1.rings[r].isSolved || LandsInPlace(b1, r, to, b1.stacks[to]);
    var b2 := b1.(rings := b1.rings[r := b1.rings[r].(isSolved := landed)],
                  solutionPinIndex := if b1.rings[r].size == b1.rings[0].size then to else b1.solutionPinIndex);
    var b3 := b2.(stacks := b2.stacks[to := b2.stacks[to] + [r]]);
    (b0, b1, b2, b3)
  }

  /** The board after the pop is well formed, and the solved check on it can read the ring
      below whenever it has to. */
  lemma StagesDefined(b: Board, path: ExercisePath)
    requires VisitDefined(b, path)
    ensures var stages := VisitStages(b, path, PinContainingRing(b, path.from).value);
      && WellFormed(stages.1) && |stages.1.rings| == |b.rings| && |stages.1.stacks| == |b.stacks|
      && (stages.1.rings[path.from].size != stages.1.rings[0].size && path.destination == stages.1.solutionPinIndex ==>
            stages.1.stacks[path.destination] != [])
      && |stages.3.solution| == |b.solution| + 1
      && (forall k | 0 <= k < |stages.3.solution| :: stages.3.solution[k].ring < |b.rings|)
  {
  }

  /** visitPath's last move: the ring moved by the step before the new one loses its pending
      paths. */
  function ClearPrevious(c: Board): Board
    requires forall k | 0 <= k < |c.solution| :: c.solution[k].ring < |c.rings|
  {
    if |c.solution| > 1 then
      var prev := c.solution[|c.solution| - 2].ring;
      c.(rings := c.rings[prev := c.rings[prev].(pendingPaths := [])])
    else c
  }

  /** Clearing the paths of the ring moved by the previous step after the last stage is Visit. */
  lemma StagesGiveVisit(b: Board, path: ExercisePath)
    requires VisitDefined(b, path)
    ensures var b3 := VisitStages(b, path, PinContainingRing(b, path.from).value).3;
      (forall k | 0 <= k < |b3.solution| :: b3.solution[k].ring < |b3.rings|)
      && Visit(b, path) == ClearPrevious(b3)
  {
    StagesDefined(b, path);
    StagesGiveVisitRings(b, path);
    StagesGiveVisitRest(b, path);
  }

  /** The rings part of StagesGiveVisit. */
  lemma StagesGiveVisitRings(b: Board, path: ExercisePath)
    requires VisitDefined(b, path)
    ensures var b3 := VisitStages(b, path, PinContainingRing(b, path.from).value).3;
      (forall k | 0 <= k < |b3.solution| :: b3.solution[k].ring < |b3.rings|)
      && Visit(b, path).rings == ClearPrevious(b3).rings
  {
    var r := path.from;
    var to := path.destination;
    var from := PinContainingRing(b, r).value;
    var stages := VisitStages(b, path, from);
    var b3 := stages.3;
    var v := Visit(b, path);
    StagesDefined(b, path);
    var popped := b.stacks[from := Pop(b.stacks[from])];
    assert stages.1.stacks[to] == popped[to];
    LandsSame(b, stages.1, r, to, popped[to]);
    var cleared := if |b3.solution| > 1 then
          var prev := b3.solution[|b3.solution| - 2].ring;
          b3.(rings := b3.rings[prev := b3.rings[prev].(pendingPaths := [])])
        else b3;
    assert |b3.solution| > 1 ==> LastMoved(b) == Some(b3.solution[|b3.solution| - 2].ring);
    forall i | 0 <= i < |b.rings| ensures v.rings[i] == cleared.rings[i] {
      VisitExact(b, path, i);
    }
  }

  /** The pins, the ledger and the pin indices in StagesGiveVisit. */
  lemma StagesGiveVisitRest(b: Board, path: ExercisePath)
    requires VisitDefined(b, path)
    ensures var b3 := VisitStages(b, path, PinContainingRing(b, path.from).value).3;
      (forall k | 0 <= k < |b3.solution| :: b3.solution[k].ring < |b3.rings|)
      && Visit(b, path).stacks == ClearPrevious(b3).stacks
      && Visit(b, path).solution == ClearPrevious(b3).solution
      && Visit(b, path).starterPinIndex == ClearPrevious(b3).starterPinIndex
      && Visit(b, path).solutionPinIndex == ClearPrevious(b3).solutionPinIndex
  {
    var r := path.from;
    var to := path.destination;
    var from := PinContainingRing(b, r).value;
    var stages := VisitStages(b, path, from);
    StagesDefined(b, path);
    VisitRings(b, path);
  }

  /** LandsInPlace reads only sizes, solved flags and the solution pin. */
  lemma LandsSame(b: Board, c: Board, r: nat, to: nat, below: seq<nat>)
    requires r < |b.rings| && 0 < |b.rings| && |c.rings| == |b.rings|
    requires forall k | 0 <= k < |below| :: below[k] < |b.rings|
    requires forall i | 0 <= i < |b.rings| :: c.rings[i].size == b.rings[i].size && c.rings[i].isSolved == b.rings[i].isSolved
    requires c.solutionPinIndex == b.solutionPinIndex
    ensures LandsInPlace(c, r, to, below) == LandsInPlace(b, r, to, below)
  {
  }

  class ExerciseSolver {
    var rings: seq<RingNode>
    var pins: seq<PinNode>
    var solution: seq<ExerciseStep>
    var starterPinIndex: int
    var solutionPinIndex: int
    var searchCount: int
    var isSearching: bool

    constructor ()
      ensures rings == [] && pins == [] && solution == [] && solutionPinIndex == -1
      ensures searchCount == 0 && !isSearching
    {
      rings := [];
      pins := [];
      solution := [];
      starterPinIndex := 0;
      solutionPinIndex := -1;
      searchCount := 0;
      isSearching := false;
    }

    /** Each ring node and each pin node appears once in its list. */
    ghost predicate Valid()
      reads this`rings, this`pins
    {
      && (forall i, j | 0 <= i < j < |rings| :: rings[i] != rings[j])
      && (forall p, q | 0 <= p < q < |pins| :: pins[p] != pins[q])
    }

    /** The ring states, in ring order. */
    ghost function RingStates(): (states: seq<RingState>)
      reads this`rings, rings
      ensures |states| == |rings|
      ensures forall i | 0 <= i < |rings| ::
        states[i] == RingState(rings[i].size, rings[i].isSolved, rings[i].step, rings[i].pendingPaths)
    {
      var rs := rings;
      seq(|rs|, i requires 0 <= i < |rs| reads rs =>
        RingState(rs[i].size, rs[i].isSolved, rs[i].step, rs[i].pendingPaths))
    }

    /** The stacks of ring indices, in pin order. */
    ghost function PinStacks(): (stacks: seq<seq<nat>>)
      reads this`pins, pins
      ensures |stacks| == |pins|
      ensures forall p | 0 <= p < |pins| :: stacks[p] == pins[p].ringStack
    {
      var ps := pins;
      seq(|ps|, p requires 0 <= p < |ps| reads ps => ps[p].ringStack)
    }

    /** The solver's state as a board value. */
    ghost function Model(): Board
      reads this`rings, this`pins, this`solution, this`starterPinIndex, this`solutionPinIndex, rings, pins
    {
      Board(RingStates(), PinStacks(), solution, starterPinIndex, solutionPinIndex)
    }

    /** getRingsOnTop: the top ring of every pin that has one, in pin order. */
    method GetRingsOnTop() returns (tops: seq<nat>)
      requires WellFormed(Model())
      ensures tops == RingsOnTop(Model())
    {
      tops := [];
      var i := 0;
      while i < |pins|
        invariant 0 <= i <= |pins|
        invariant tops == TopsUpTo(Model(), i)
      {
        var top := pins[i].RingPeek();
        if top.Some? {
          tops := tops + [top.value];
        }
        i := i + 1;
      }
    }

    /** DoRingFitInAnyPin: some pin is empty or has a bigger ring on top. */
    method DoRingFitInAnyPin(r: nat) returns (fits: bool)
      requires WellFormed(Model()) && r < |rings|
      ensures fits == FitsAnyPin(Model(), r)
    {
      ghost var b := Model();
      var i := 0;
      while i < |pins|
        invariant 0 <= i <= |pins|
        invariant forall p | 0 <= p < i :: !Fits(b, r, p)
      {
        var top := pins[i].RingPeek();
        if top.None? || rings[r].size < rings[top.value].size {
          assert Fits(b, r, i);
          return true;
        }
        i := i + 1;
      }
      return false;
    }

    /** getBestRingToMove: the last movable option, unless it has the size of the ring moved by
        the last step, in which case the option before it that is movable. */
    method GetBestRingToMove(options: seq<nat>) returns (best: Option<nat>)
      requires WellFormed(Model())
      requires forall k | 0 <= k < |options| :: options[k] < |rings|
      ensures best == BestRingToMove(Model(), options)
    {
      ghost var b := Model();
      best := None;
      var k := 0;
      while k < |options|
        invariant 0 <= k <= |options|
        invariant best == BestRingToMove(b, options[..k])
      {
        var r := options[k];
        var couldBeMoved := false;
        if !rings[r].isSolved {
          couldBeMoved := DoRingFitInAnyPin(r);
        }
        assert options[..k + 1][..k] == options[..k];
        if couldBeMoved {
          if best.None? {
            best := Some(r);
          } else if |solution| == 0 || rings[solution[|solution| - 1].ring].size != rings[r].size {
            best := Some(r);
          }
        }
        k := k + 1;
      }
      assert options[..k] == options;
    }

    /** getPinContainingRing: the first pin whose top ring has the size of ring r. */
    method GetPinContainingRing(r: nat) returns (pin: Option<nat>)
      requires WellFormed(Model()) && r < |rings|
      ensures pin == PinContainingRing(Model(), r)
    {
      ghost var b := Model();
      var i := 0;
      while i < |pins|
        invariant 0 <= i <= |pins|
        invariant PinFrom(b, r, i) == PinFrom(b, r, 0)
      {
        var top := pins[i].RingPeek();
        if top.Some? && rings[top.value].size == rings[r].size {
          return Some(i);
        }
        i := i + 1;
      }
      return None;
    }

    /** Board b shows this solver's pins, and its rings' sizes and solved flags. */
    ghost predicate Shows(b: Board)
      reads this`pins, this`rings, rings, pins
    {
      && |b.stacks| == |pins| && (forall p | 0 <= p < |pins| :: b.stacks[p] == pins[p].ringStack)
      && ShowsRings(b)
    }

    /** Board b shows this solver's rings' sizes and solved flags. */
    ghost predicate ShowsRings(b: Board)
      reads this`rings, rings
    {
      && |b.rings| == |rings|
      && forall j | 0 <= j < |rings| :: b.rings[j].size == rings[j].size && b.rings[j].isSolved == rings[j].isSolved
    }

    /** The weight fillPendingPaths gives the path of ring r to pin p. */
    method PathWeight(ghost b: Board, r: nat, p: nat) returns (weight: int)
      requires WellFormed(b) && Shows(b) && r < |rings| && p < |pins|
      requires pins[p].ringStack == [] || rings[r].size < rings[Top(pins[p].ringStack)].size
      ensures weight == Weight(b, r, p)
    {
      var pin := pins[p];
      var top := pin.RingPeek();
      weight := 0;
      if top.Some? {
        weight := weight + 1;
        if !rings[top.value].isSolved {
          var unsolved := pin.GetFirstUnsolvedRing(rings);
          assert SolvedFlags(rings) == Flags(b);
          weight := weight - (rings[unsolved.value].size - rings[r].size) * 2;
        }
      }
      if top.None? {
        if rings[r].size == rings[0].size {
          weight := weight - |rings| * 2;
        }
      } else if rings[top.value].isSolved && rings[r].size + 1 == rings[top.value].size {
        weight := weight - |rings| * 2;
      }
    }

    /** One turn of fillPendingPaths' loop: when ring r fits on pin p, its path to p is added. */
    method ConsiderPin(ghost b: Board, ring: RingNode, r: nat, p: nat)
      requires WellFormed(b) && Shows(b) && r < |rings| && p < |pins| && ring == rings[r]
      requires ring.pendingPaths == FillUpTo(b, r, p)
      modifies ring`pendingPaths
      ensures ring.pendingPaths == FillUpTo(b, r, p + 1) && Shows(b)
    {
      var top := pins[p].RingPeek();
      if top.None? || ring.size < rings[top.value].size {
        assert Fits(b, r, p);
        var weight := PathWeight(b, r, p);
        ring.AddPath(ExercisePath(weight, p, r));
      } else {
        assert !Fits(b, r, p);
      }
    }

    /** The loop of fillPendingPaths: every pin, in order, is considered for ring r. */
    method CollectPaths(ghost b: Board, ring: RingNode, r: nat)
      requires WellFormed(b) && Shows(b) && r < |rings| && ring == rings[r]
      requires ring.pendingPaths == b.rings[r].pendingPaths
      modifies ring`pendingPaths
      ensures ring.pendingPaths == FillUpTo(b, r, |pins|)
    {
      var i := 0;
      while i < |pins|
        invariant 0 <= i <= |pins|
        invariant Shows(b)
        invariant ring.pendingPaths == FillUpTo(b, r, i)
      {
        ConsiderPin(b, ring, r, i);
        i := i + 1;
      }
    }

    /** fillPendingPaths: for every pin ring r fits on, a path weighted as Weight says is added
        to r's pending paths; nothing else changes. */
    method FillPendingPaths(r: nat)
      requires Valid() && WellFormed(Model()) && r < |rings|
      modifies rings[r]
      ensures Model() == FillPaths(old(Model()), r)
    {
      ghost var b := Model();
      CollectPaths(b, rings[r], r);
      forall j | 0 <= j < |rings| ensures RingStates()[j] == FillPaths(b, r).rings[j] {
        if j != r {
          assert rings[j] != rings[r];
        }
      }
      assert RingStates() == FillPaths(b, r).rings;
    }

    /** The solver's state is board b, field by field. */
    ghost predicate Is(b: Board)
      reads this`rings, this`pins, this`solution, this`starterPinIndex, this`solutionPinIndex, rings, pins
    {
      && |b.rings| == |rings| && |b.stacks| == |pins|
      && b.solution == solution && b.starterPinIndex == starterPinIndex && b.solutionPinIndex == solutionPinIndex
      && (forall i | 0 <= i < |rings| ::
            b.rings[i] == RingState(rings[i].size, rings[i].isSolved, rings[i].step, rings[i].pendingPaths))
      && (forall p | 0 <= p < |pins| :: b.stacks[p] == pins[p].ringStack)
    }

    lemma IsModel(b: Board)
      ensures Is(b) <==> Model() == b
    {
      if Is(b) {
        assert RingStates() == b.rings;
        assert PinStacks() == b.stacks;
      }
    }

    /** visitPath's first move: the step goes into the ledger and its number onto ring r. */
    method RecordStep(ghost b: Board, r: nat, step: ExerciseStep)
      requires Valid() && Is(b) && r < |rings|
      modifies this`solution, rings[r]
      ensures Valid() && Is(b.(solution := b.solution + [step], rings := b.rings[r := b.rings[r].(step := step.index)]))
    {
      var ring := rings[r];
      solution := solution + [step];
      ring.step := step.index;
      assert forall i | 0 <= i < |rings| && i != r :: rings[i] != ring;
    }

    /** A pop of pin p. */
    method PopPin(ghost b: Board, p: nat)
      requires Valid() && Is(b) && p < |pins|
      modifies pins[p]
      ensures Valid() && Is(b.(stacks := b.stacks[p := Pop(b.stacks[p])]))
    {
      var pin := pins[p];
      var _ := pin.RingPop();
      assert forall q | 0 <= q < |pins| && q != p :: pins[q] != pin;
    }

    /** A push of ring r onto pin p. */
    method PushPin(ghost b: Board, p: nat, r: nat)
      requires Valid() && Is(b) && p < |pins|
      modifies pins[p]
      ensures Valid() && Is(b.(stacks := b.stacks[p := b.stacks[p] + [r]]))
    {
      var pin := pins[p];
      pin.RingPush(r);
      assert forall q | 0 <= q < |pins| && q != p :: pins[q] != pin;
    }

    /** The solved check of visitPath for ring r landing on pin `to`, made after the pop: the
        biggest ring is always in place and its pin becomes the solution pin; another ring is in
        place on the solution pin right above a solved ring one size bigger. */
    method MarkLanding(ghost b: Board, r: nat, to: nat)
      requires Valid() && Is(b) && WellFormed(b) && 0 < |rings| && r < |rings| && to < |pins|
      requires b.rings[r].size != b.rings[0].size && to == b.solutionPinIndex ==> b.stacks[to] != []
      modifies this`solutionPinIndex, rings[r]
      ensures Valid()
      ensures Is(b.(rings := b.rings[r := b.rings[r].(isSolved := b.rings[r].isSolved || LandsInPlace(b, r, to, b.stacks[to]))],
                   solutionPinIndex := if b.rings[r].size == b.rings[0].size then to else b.solutionPinIndex))
    {
      var ring := rings[r];
      if ring.size == rings[0].size {
        solutionPinIndex := to;
        ring.isSolved := true;
      } else if to == solutionPinIndex {
        var below := pins[to].RingPeek();
        if rings[below.value].isSolved && rings[below.value].size == ring.size + 1 {
          ring.isSolved := true;
        }
      }
      assert forall i | 0 <= i < |rings| && i != r :: rings[i] != ring;
    }

    /** emptyPendingPaths on ring r. */
    method ClearPaths(ghost b: Board, r: nat)
      requires Valid() && Is(b) && r < |rings|
      modifies rings[r]
      ensures Valid() && Is(b.(rings := b.rings[r := b.rings[r].(pendingPaths := [])]))
    {
      var ring := rings[r];
      ring.EmptyPendingPaths();
      assert forall i | 0 <= i < |rings| && i != r :: rings[i] != ring;
    }

    /** The last move of visitPath: the ring of the step before the new one loses its
        pending paths. */
    method ClearPreviousPaths(ghost c: Board)
      requires Valid() && Is(c)
      requires forall k | 0 <= k < |c.solution| :: c.solution[k].ring < |c.rings|
      modifies rings
      ensures Valid() && Is(ClearPrevious(c))
    {
      if |solution| > 1 {
        ClearPaths(c, solution[|solution| - 2].ring);
      }
    }

    /** The first moves of visitPath: ledger entry, pop and solved check. */
    method LeaveAndLand(ghost b: Board, path: ExercisePath, from: nat)
      requires Valid() && Is(b) && WellFormed(b) && 0 < |rings|
      requires path.from < |rings| && from < |pins| && path.destination < |pins|
      requires var stages := VisitStages(b, path, from);
        && WellFormed(stages.1) && |stages.1.rings| == |b.rings| && |stages.1.stacks| == |b.stacks|
        && (stages.1.rings[path.from].size != stages.1.rings[0].size && path.destination == stages.1.solutionPinIndex ==>
              stages.1.stacks[path.destination] != [])
      modifies this`solution, this`solutionPinIndex, rings, pins
      ensures Valid() && Is(VisitStages(b, path, from).2)
    {
      var step := ExerciseStep(from, path.destination, path.from, |solution| + 1);
      ghost var stages := VisitStages(b, path, from);
      RecordStep(b, path.from, step);
      PopPin(stages.0, from);
      MarkLanding(stages.1, path.from, path.destination);
    }

    /** The moves of visitPath once the source pin is known, stage by stage. */
    method MoveAlong(ghost b: Board, path: ExercisePath, from: nat)
      requires Valid() && Is(b) && WellFormed(b) && 0 < |rings|
      requires path.from < |rings| && from < |pins| && path.destination < |pins|
      requires var stages := VisitStages(b, path, from);
        && WellFormed(stages.1) && |stages.1.rings| == |b.rings| && |stages.1.stacks| == |b.stacks|
        && (stages.1.rings[path.from].size != stages.1.rings[0].size && path.destination == stages.1.solutionPinIndex ==>
              stages.1.stacks[path.destination] != [])
        && (forall k | 0 <= k < |stages.3.solution| :: stages.3.solution[k].ring < |b.rings|)
      modifies this`solution, this`solutionPinIndex, rings, pins
      ensures Valid() && Is(ClearPrevious(VisitStages(b, path, from).3))
    {
      ghost var stages := VisitStages(b, path, from);
      LeaveAndLand(b, path, from);
      PushPin(stages.2, path.destination, path.from);
      ClearPreviousPaths(stages.3);
    }

    /** visitPath: records the step in the ledger, moves the ring, marks it solved when it lands
        in its final place, and clears the pending paths of the ring moved by the previous step. */
    method VisitPath(path: ExercisePath)
      requires Valid() && VisitDefined(Model(), path)
      modifies this`solution, this`solutionPinIndex, rings, pins
      ensures Valid()
      ensures Model() == Visit(old(Model()), path)
    {
      ghost var b := Model();
      IsModel(b);
      var fromPin := GetPinContainingRing(path.from);
      VisitFrom(b, path, fromPin.value);
      IsModel(Visit(b, path));
    }

    /** visitPath once getPinContainingRing has found the source pin. */
    method VisitFrom(ghost b: Board, path: ExercisePath, from: nat)
      requires Valid() && Is(b) && VisitDefined(b, path) && from == PinContainingRing(b, path.from).value
      modifies this`solution, this`solutionPinIndex, rings, pins
      ensures Valid() && Is(Visit(b, path))
    {
      StagesDefined(b, path);
      StagesGiveVisit(b, path);
      MoveAlong(b, path, from);
    }

    /** pathShift on ring r: its lightest pending path is taken off the list and returned. */
    method ShiftPath(ghost b: Board, r: nat) returns (path: Option<ExercisePath>)
      requires Valid() && Is(b) && r < |rings|
      modifies rings[r]
      ensures Valid() && Is(Shift(b, r))
      ensures path == if b.rings[r].pendingPaths == [] then None else Some(b.rings[r].pendingPaths[0])
    {
      var ring := rings[r];
      path := ring.PathShift();
      assert forall i | 0 <= i < |rings| && i != r :: rings[i] != ring;
    }

    /** fillPendingPaths then pathShift on a ring the cycle may move: the path taken is the
        lightest of the freshly filled ones. */
    method TakeChosen(ghost b: Board, r: nat) returns (path: ExercisePath)
      requires Valid() && Model() == b && CanMove(b, r)
      modifies rings[r]
      ensures Valid() && Model() == Shift(FillPaths(b, r), r) && path == Chosen(b, r)
    {
      FillPendingPaths(r);
      ghost var f := Model();
      IsModel(f);
      FilledPathsLead(b, r);
      var shifted := ShiftPath(f, r);
      IsModel(Shift(f, r));
      path := shifted.value;
    }

    /** SearchForSolution: false, with nothing changed, when no ring can be moved; otherwise
        the chosen ring's paths are filled and it takes the lightest one. */
    method SearchForSolution() returns (ok: bool)
      requires Valid() && Inv(Model())
      modifies this`solution, this`solutionPinIndex, rings, pins
      ensures Valid()
      ensures ok == Pick(old(Model())).Some?
      ensures Model() == if ok then Cycle(old(Model())).value else old(Model())
    {
      ghost var b := Model();
      var options := GetRingsOnTop();
      if |options| == 0 {
        return false;
      }
      var best := GetBestRingToMove(options);
      if best.None? {
        return false;
      }
      var r := best.value;
      PickOnTop(b, r);
      var path := TakeChosen(b, r);
      MoveDefined(b, r);
      VisitPath(path);
      ok := true;
    }

    /** One turn of Search: the cycle count goes up, a cycle runs, then success is checked
        before failure. */
    method SearchTurn() returns (phase: Phase)
      requires Valid() && Inv(Model())
      modifies this`solution, this`solutionPinIndex, this`searchCount, rings, pins
      ensures Valid()
      ensures Model() == SearchStep(old(Model())).board && phase == PhaseOf(SearchStep(old(Model())))
      ensures searchCount == old(searchCount) + 1
    {
      ghost var b := Model();
      searchCount := searchCount + 1;
      var ok := SearchForSolution();
      TurnOutcome(b, Model(), ok);
      if solutionPinIndex != -1 && pins[solutionPinIndex].RingCount() == |rings| {
        return Succeeded;
      }
      if !ok {
        return NoSolution;
      }
      return InProgress;
    }

    /** A turn of the Search loop, seen against the whole run from m0. */
    method Advance(ghost m0: Board, ghost fuel: nat, ghost cur: Board, ghost left: nat, ghost taken: nat)
      returns (phase: Phase)
      requires Valid() && Model() == cur && OnTrack(m0, fuel, cur, left, taken) && left > 0
      modifies this`solution, this`solutionPinIndex, this`searchCount, rings, pins
      ensures Valid() && searchCount == old(searchCount) + 1
      ensures phase == InProgress ==> OnTrack(m0, fuel, Model(), OneLess(left), OneMore(taken))
      ensures phase != InProgress ==> Finished(m0, fuel, Model(), phase, OneMore(taken))
    {
      phase := SearchTurn();
      if phase == InProgress {
        OnTrackNext(m0, fuel, cur, left, taken);
      } else {
        OnTrackStop(m0, fuel, cur, left, taken);
      }
    }

    /** The turns of Search from board m0: they stop when a turn ends the search or after `fuel`
        of them, and `taken` counts them. */
    method SearchTurns(ghost m0: Board, fuel: nat) returns (phase: Phase, ghost taken: nat)
      requires Valid() && Model() == m0 && Inv(m0)
      modifies this`solution, this`solutionPinIndex, this`searchCount, rings, pins
      ensures Valid() && Finished(m0, fuel, Model(), phase, taken)
      ensures searchCount == old(searchCount) + taken
    {
      ghost var cur := m0;
      ghost var left := fuel;
      taken := 0;
      var k := 0;
      var done := false;
      phase := InProgress;
      OnTrackStart(m0, fuel);
      while k < fuel && !done
        invariant 0 <= k <= fuel && left == fuel - k && Valid() && Model() == cur
        invariant searchCount == old(searchCount) + taken
        invariant !done ==> phase == InProgress
        invariant !done ==> OnTrack(m0, fuel, cur, left, taken)
        invariant done ==> Finished(m0, fuel, cur, phase, taken)
        decreases fuel - k
      {
        phase := Advance(m0, fuel, cur, left, taken);
        cur, left, taken := Model(), OneLess(left), OneMore(taken);
        done := phase != InProgress;
        k := k + 1;
      }
      if !done {
        OnTrackOut(m0, fuel, cur, taken);
      }
    }

    /** Search with at most `fuel` turns: the solver ends on the board Run reaches and reports
        its phase; the cycle count goes up by one per turn taken. */
    method Search(fuel: nat) returns (phase: Phase)
      requires Valid() && Inv(Model())
      modifies this`solution, this`solutionPinIndex, this`searchCount, this`isSearching, rings, pins
      ensures Valid() && !isSearching
      ensures Model() == Run(old(Model()), fuel).board && phase == PhaseOf(Run(old(Model()), fuel))
      ensures searchCount == old(searchCount) + Turns(old(Model()), fuel)
    {
      ghost var m0 := Model();
      ghost var taken;
      phase, taken := SearchTurns(m0, fuel);
      isSearching := false;
    }

    /** AddRing: a fresh node for scene ring `ring`, of the given size, with its position as
        index, goes at the end of the ring list. */
    method AddRing(ring: SelectableRing, size: int)
      modifies this`rings
      ensures |rings| == |old(rings)| + 1 && rings[..|old(rings)|] == old(rings)
      ensures var node := rings[|rings| - 1];
        && fresh(node) && node.ringReference == ring && node.size == size && node.index == |old(rings)|
        && !node.isSolved && node.step == 0 && node.pendingPaths == []
    {
      var node := new RingNode(ring, size);
      node.index := |rings|;
      rings := rings + [node];
    }

    /** AddPin: a fresh, empty node for scene pin `pin`, with its position as index, goes at the
        end of the pin list. */
    method AddPin(pin: Pin)
      requires Valid()
      modifies this`pins
      ensures Valid()
      ensures |pins| == |old(pins)| + 1 && pins[..|old(pins)|] == old(pins)
      ensures var node := pins[|pins| - 1];
        fresh(node) && node.pinReference == pin && node.index == |old(pins)| && node.ringStack == []
    {
      var node := new PinNode(pin);
      node.index := |pins|;
      pins := pins + [node];
    }

    /** getRingNodeFromReference: the first ring node made for scene ring `reference`; None when
        there is none. */
    method GetRingNodeFromReference(reference: SelectableRing) returns (ring: Option<nat>)
      ensures ring.None? <==> forall j | 0 <= j < |rings| :: rings[j].ringReference != reference
      ensures ring.Some? ==> ring.value < |rings| && rings[ring.value].ringReference == reference
                             && forall j | 0 <= j < ring.value :: rings[j].ringReference != reference
    {
      var j := 0;
      while j < |rings|
        invariant 0 <= j <= |rings|
        invariant forall i | 0 <= i < j :: rings[i].ringReference != reference
      {
        if rings[j].ringReference == reference {
          return Some(j);
        }
        j := j + 1;
      }
      return None;
    }

    /** The scene's rings as ring nodes, one per scene ring: the node at position j is for scene
        ring j and has size N - j. */
    ghost predicate CopiesRings(rs: seq<SelectableRing>)
      reads this`rings, rings`size, rings`step, rings`pendingPaths
    {
      && |rings| == |rs|
      && forall j | 0 <= j < |rings| ::
           && rings[j].ringReference == rs[j] && rings[j].size == |rs| - j
           && rings[j].step == 0 && rings[j].pendingPaths == []
    }

    /** AddPin for scene pin `pin`, then its node is filled with the nodes of the pin's rings,
        bottom first. */
    method CopyPin(rs: seq<SelectableRing>, pin: Pin, ghost stacks: seq<seq<nat>>)
      requires Valid() && CopiesRings(rs) && Pinned(stacks, |pins|) && |pins| < |stacks|
      requires forall k | 0 <= k < |pin.ringsStack| :: pin.ringsStack[k] in rs
      requires stacks[|pins|] == LiveStack(rs, pin.ringsStack)
      modifies this`pins
      ensures Valid() && Pinned(stacks, |pins|) && |pins| == |old(pins)| + 1
      ensures pins == old(pins) + [pins[|pins| - 1]] && fresh(pins[|pins| - 1])
    {
      AddPin(pin);
      var node := pins[|pins| - 1];
      FillPinNode(rs, pin, node);
      assert forall p | 0 <= p < |pins| - 1 :: pins[p] != node;
    }

    /** The stack-copy loop of copyExcerciseStatus: each scene ring on the pin, bottom first, is
        looked up among the ring nodes and its position pushed on the new pin node. */
    method FillPinNode(rs: seq<SelectableRing>, pin: Pin, node: PinNode)
      requires CopiesRings(rs) && node.ringStack == []
      requires forall k | 0 <= k < |pin.ringsStack| :: pin.ringsStack[k] in rs
      modifies node`ringStack
      ensures node.ringStack == LiveStack(rs, pin.ringsStack)
    {
      var k := 0;
      while k < |pin.ringsStack|
        invariant 0 <= k <= |pin.ringsStack|
        invariant node.ringStack == LiveStack(rs, pin.ringsStack)[..k]
      {
        var ring := GetRingNodeFromReference(pin.ringsStack[k]);
        assert rings[IndexIn(rs, pin.ringsStack[k])].ringReference == pin.ringsStack[k];
        assert ring == Some(IndexIn(rs, pin.ringsStack[k]));
        node.RingPush(ring.value);
        k := k + 1;
      }
      assert LiveStack(rs, pin.ringsStack)[..k] == LiveStack(rs, pin.ringsStack);
    }

    /** There are n pin nodes, holding the first n of the given stacks, in order. */
    ghost predicate Pinned(stacks: seq<seq<nat>>, n: nat)
      reads this`pins, pins`ringStack
    {
      |pins| == n <= |stacks| && forall p | 0 <= p < n :: pins[p].ringStack == stacks[p]
    }

    /** One step up pin p in the marking pass: the ring at height k is marked solved when it
        continues the run in place (the bottom one also making p the solution pin); otherwise
        the pass stops. */
    method MarkStep(ghost b0: Board, p: nat, k: nat) returns (stop: bool)
      requires Valid() && WellFormed(b0) && p == |pins| - 1 && p < |b0.stacks|
      requires pins[p].ringStack == b0.stacks[p] && k < |b0.stacks[p]|
      requires |rings| == |b0.rings| && forall j | 0 <= j < |rings| :: rings[j].size == b0.rings[j].size
      modifies this`solutionPinIndex, rings`isSolved
      ensures stop <==> !Continues(b0, b0.stacks[p], k)
      ensures forall j | 0 <= j < |rings| ::
        rings[j].isSolved == (old(rings[j].isSolved) || (!stop && j == b0.stacks[p][k]))
      ensures solutionPinIndex == if !stop && k == 0 then p else old(solutionPinIndex)
    {
      var pin := pins[p];
      var ring := pin.RingAt(k);
      stop := false;
      if k == 0 {
        if rings[ring].size == rings[0].size {
          rings[ring].isSolved := true;
          solutionPinIndex := |pins| - 1;
        } else {
          stop := true;
        }
      } else if rings[ring].size + 1 == rings[pin.RingAt(k - 1)].size {
        rings[ring].isSolved := true;
      } else {
        stop := true;
      }
    }

    /** The marking pass of CopyExcerciseStatus on pin p, the pin just added: unless p is the
        starter pin, the rings of its run in place are marked solved, the bottom one making p the
        solution pin. */
    method MarkInPlace(ghost b0: Board, p: nat)
      requires Valid() && WellFormed(b0) && p == |pins| - 1 && p < |b0.stacks|
      requires pins[p].ringStack == b0.stacks[p] && starterPinIndex == b0.starterPinIndex
      requires |rings| == |b0.rings| && forall j | 0 <= j < |rings| :: rings[j].size == b0.rings[j].size
      requires forall j | 0 <= j < |rings| :: rings[j].isSolved == MarkedBefore(b0, p, j)
      requires solutionPinIndex == LastMarked(b0, p)
      modifies this`solutionPinIndex, rings`isSolved
      ensures forall j | 0 <= j < |rings| :: rings[j].isSolved == MarkedBefore(b0, |pins|, j)
      ensures solutionPinIndex == LastMarked(b0, |pins|)
    {
      ghost var s := b0.stacks[p];
      if starterPinIndex != p && !pins[p].IsEmpty() {
        assert s[0] < |b0.rings|;
        var k := 0;
        var stop := false;
        while k < pins[p].RingCount() && !stop
          invariant 0 <= k <= |s|
          invariant forall j | 0 <= j < k :: Continues(b0, s, j)
          invariant stop ==> k < |s| && !Continues(b0, s, k)
          invariant forall j | 0 <= j < |rings| :: rings[j].isSolved == (old(rings[j].isSolved) || j in s[..k])
          invariant solutionPinIndex == if k > 0 then p else old(solutionPinIndex)
          decreases |s| - k, !stop
        {
          stop := MarkStep(b0, p, k);
          if !stop {
            assert s[..k + 1] == s[..k] + [s[k]];
            k := k + 1;
          }
        }
        assert k == RunFrom(b0, s, 0);
        MarkedNext(b0, p, k);
      } else {
        MarkedNext(b0, p, 0);
      }
    }

    /** The ring list of CopyExcerciseStatus: one fresh node per scene ring, in order, sizes
        going down from N to 1. */
    method CopyRings(rs: seq<SelectableRing>)
      requires rings == []
      modifies this`rings
      ensures CopiesRings(rs)
      ensures forall j | 0 <= j < |rings| :: fresh(rings[j]) && !rings[j].isSolved
      ensures forall i, j | 0 <= i < j < |rings| :: rings[i] != rings[j]
    {
      var j := 0;
      while j < |rs|
        invariant j <= |rs| && |rings| == j
        invariant forall i | 0 <= i < j ::
          && fresh(rings[i]) && !rings[i].isSolved && rings[i].ringReference == rs[i]
          && rings[i].size == |rs| - i && rings[i].step == 0 && rings[i].pendingPaths == []
        invariant forall i, i' | 0 <= i < i' < j :: rings[i] != rings[i']
      {
        AddRing(rs[j], |rs| - |rings|);
        j := j + 1;
      }
    }

    /** The pin half of copyExcerciseStatus: one pin node per game pin, each followed by the
        marking of the rings already in place on it. */
    method CopyPins(rs: seq<SelectableRing>, ps: seq<Pin>, ghost b0: Board)
      requires Valid() && pins == [] && CopiesRings(rs) && solution == [] && solutionPinIndex == -1
      requires OnlyKnownRings(rs, ps) && b0 == Copied(|rs|, LiveStacks(rs, ps), starterPinIndex)
      requires forall j | 0 <= j < |rings| :: !rings[j].isSolved
      modifies this`pins, this`solutionPinIndex, rings`isSolved
      ensures Valid() && CopiesRings(rs) && Pinned(b0.stacks, |b0.stacks|) && solution == []
      ensures forall p | 0 <= p < |pins| :: fresh(pins[p])
      ensures forall j | 0 <= j < |rings| :: rings[j].isSolved == MarkedBefore(b0, |ps|, j)
      ensures solutionPinIndex == LastMarked(b0, |ps|)
    {
      var i := 0;
      while i < |ps|
        invariant i <= |ps| && Valid() && CopiesRings(rs) && Pinned(b0.stacks, i)
        invariant forall j | 0 <= j < |rings| :: rings[j].isSolved == MarkedBefore(b0, i, j)
        invariant solutionPinIndex == LastMarked(b0, i) && solution == []
        invariant forall p | 0 <= p < |pins| :: fresh(pins[p])
      {
        CopyAndMark(rs, ps, b0, i);
        i := |pins|;
      }
    }

    /** One turn of the pin half of copyExcerciseStatus: copy pin i, then mark its run in place. */
    method CopyAndMark(rs: seq<SelectableRing>, ps: seq<Pin>, ghost b0: Board, i: nat)
      requires OnlyKnownRings(rs, ps) && b0 == Copied(|rs|, LiveStacks(rs, ps), starterPinIndex) && i < |ps|
      requires Valid() && CopiesRings(rs) && Pinned(b0.stacks, i)
      requires forall j | 0 <= j < |rings| :: rings[j].isSolved == MarkedBefore(b0, i, j)
      requires solutionPinIndex == LastMarked(b0, i)
      modifies this`pins, this`solutionPinIndex, rings`isSolved
      ensures Valid() && CopiesRings(rs) && Pinned(b0.stacks, |pins|) && |pins| == i + 1
      ensures forall j | 0 <= j < |rings| :: rings[j].isSolved == MarkedBefore(b0, |pins|, j)
      ensures solutionPinIndex == LastMarked(b0, |pins|)
      ensures pins == old(pins) + [pins[i]] && fresh(pins[i])
    {
      CopyPin(rs, ps[i], b0.stacks);
      MarkInPlace(b0, |pins| - 1);
    }

    /** CopyExcerciseStatus, run right after the solver was cleared: the solver's board becomes
        the snapshot of the scene (rings sized N..1 in the order of the scene's ring list, its
        pins' stacks, its starter pin, and the runs already in place marked solved), and ring
        node j stands for scene ring j. */
    method CopyExcerciseStatus(rs: seq<SelectableRing>, ps: seq<Pin>, starter: int)
      requires rings == [] && pins == [] && solution == [] && solutionPinIndex == -1
      requires OnlyKnownRings(rs, ps)
      modifies this`rings, this`pins, this`starterPinIndex, this`solutionPinIndex
      ensures Valid()
      ensures Model() == Snapshot(|rs|, LiveStacks(rs, ps), starter)
      ensures forall j | 0 <= j < |rings| :: rings[j].ringReference == rs[j] && fresh(rings[j])
      ensures forall p | 0 <= p < |pins| :: fresh(pins[p])
    {
      starterPinIndex := starter;
      CopyRings(rs);
      ghost var b0 := Copied(|rs|, LiveStacks(rs, ps), starter);
      CopyPins(rs, ps, b0);
      ghost var snap := Snapshot(|rs|, LiveStacks(rs, ps), starter);
      assert Is(snap);
      IsModel(snap);
    }

    /** SolveExercise: forget the previous search, copy the game, and search from the copy for
        at most fuel turns. The game's rings, pins and starter pin come in as parameters. */
    method SolveExercise(rs: seq<SelectableRing>, ps: seq<Pin>, starter: int, fuel: nat) returns (phase: Phase)
      requires OnlyKnownRings(rs, ps)
      modifies this
      ensures Valid() && !isSearching && |rings| == |rs|
      ensures forall j | 0 <= j < |rings| :: rings[j].ringReference == rs[j]
      ensures Inv(old(Snapshot(|rs|, LiveStacks(rs, ps), starter)))
      ensures Model() == Run(old(Snapshot(|rs|, LiveStacks(rs, ps), starter)), fuel).board
      ensures phase == PhaseOf(Run(old(Snapshot(|rs|, LiveStacks(rs, ps), starter)), fuel))
      ensures searchCount == Turns(old(Snapshot(|rs|, LiveStacks(rs, ps), starter)), fuel)
    {
      Restart(rs, ps, starter);
      phase := Search(fuel);
    }

    /** The part of SolveExercise before the search: the solver's state is dropped and the game
        copied in; the copy satisfies the search's invariant. */
    method Restart(rs: seq<SelectableRing>, ps: seq<Pin>, starter: int)
      requires OnlyKnownRings(rs, ps)
      modifies this
      ensures Valid() && isSearching && searchCount == 0 && |rings| == |rs|
      ensures forall j | 0 <= j < |rings| :: rings[j].ringReference == rs[j] && fresh(rings[j])
      ensures forall p | 0 <= p < |pins| :: fresh(pins[p])
      ensures Model() == old(Snapshot(|rs|, LiveStacks(rs, ps), starter)) && Inv(Model())
    {
      ghost var live := LiveStacks(rs, ps);
      SnapshotInv(|rs|, live, starter);
      rings := [];
      pins := [];
      solution := [];
      solutionPinIndex := -1;
      searchCount := 0;
      isSearching := true;
      assert LiveStacks(rs, ps) == live;
      CopyExcerciseStatus(rs, ps, starter);
      assert LiveStacks(rs, ps) == live;
    }
  }
}
