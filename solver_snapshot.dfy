/**
 * CopyExcerciseStatus on the board value: the solver's copy of the live game. Ring j of the
 * game's ring list gets size N - j (ring 0 is the biggest), the stacks are copied as they are,
 * and every non-starter pin whose bottom run is already in place has that run marked solved and
 * becomes the solution pin.
 */
module SolverSnapshot {

  import opened ExerciseSteps
  import opened SolverBoard
  import opened SolverSearch
  import opened SolverProps

  /** The ring states the copy starts with: ring j has size n - j, is unsolved, has step 0 and
      no pending paths. */
  function SizedRings(n: nat): (rings: seq<RingState>)
    ensures |rings| == n
    ensures forall j | 0 <= j < n :: rings[j] == RingState(n - j, false, 0, [])
  {
    seq(n, j requires 0 <= j < n => RingState(n - j, false, 0, []))
  }

  /** Whether the ring at height k of stack s continues the run in place: the bottom ring must
      have the biggest ring's size, any higher ring exactly one size less than the ring below. */
  predicate Continues(b: Board, s: seq<nat>, k: nat)
    requires 0 < |b.rings| && k < |s| && forall j | 0 <= j < |s| :: s[j] < |b.rings|
  {
    if k == 0 then b.rings[s[0]].size == b.rings[0].size
    else b.rings[s[k]].size + 1 == b.rings[s[k - 1]].size
  }

  /** The height at which the scan up stack s, started at height k, first breaks the run. */
  function RunFrom(b: Board, s: seq<nat>, k: nat): (len: nat)
    requires 0 < |b.rings| && k <= |s| && forall j | 0 <= j < |s| :: s[j] < |b.rings|
    ensures k <= len <= |s|
    ensures forall j | k <= j < len :: Continues(b, s, j)
    ensures len < |s| ==> !Continues(b, s, len)
    decreases |s| - k
  {
    if k < |s| && Continues(b, s, k) then RunFrom(b, s, k + 1) else k
  }

  /** The bottom rings of stack s that are already in place. */
  function InPlace(b: Board, s: seq<nat>): seq<nat>
    requires forall j | 0 <= j < |s| :: s[j] < |b.rings|
  {
    if s == [] then [] else assert s[0] < |b.rings|; s[..RunFrom(b, s, 0)]
  }

  /** The board the copy starts from: sized rings, the game's stacks, an empty ledger, no
      solution pin. */
  function Copied(n: nat, stacks: seq<seq<nat>>, starter: int): Board
  {
    Board(SizedRings(n), stacks, [], starter, -1)
  }

  /** Pin p is one the marking pass marks: not the starter pin, and its run in place is not
      empty. */
  predicate Marks(b: Board, p: nat)
    requires WellFormed(b) && p < |b.stacks|
  {
    p != b.starterPinIndex && InPlace(b, b.stacks[p]) != []
  }

  /** Whether the marking pass over the first n pins has marked ring i solved. Marking compares
      sizes only, which it never changes, so every pin is judged on the board before marking. */
  predicate MarkedBefore(b: Board, n: nat, i: nat)
    requires WellFormed(b) && n <= |b.stacks|
  {
    n > 0 && (MarkedBefore(b, n - 1, i) || (Marks(b, n - 1) && i in InPlace(b, b.stacks[n - 1])))
  }

  /** The solution pin after the marking pass over the first n pins: the latest pin it marked,
      -1 while there is none. */
  function LastMarked(b: Board, n: nat): (sp: int)
    requires WellFormed(b) && n <= |b.stacks|
    ensures -1 <= sp < n
  {
    if n == 0 then -1 else if Marks(b, n - 1) then n - 1 else LastMarked(b, n - 1)
  }

  /** The ring states after the marking pass over the first n pins. */
  function MarkedRings(b: Board, n: nat): (rings: seq<RingState>)
    requires WellFormed(b) && n <= |b.stacks|
    ensures |rings| == |b.rings|
  {
    seq(|b.rings|, i requires 0 <= i < |b.rings| => b.rings[i].(isSolved := MarkedBefore(b, n, i)))
  }

  /** CopyExcerciseStatus: rings sized N..1, the game's stacks, an empty ledger, and the runs
      already in place marked. */
  function Snapshot(n: nat, stacks: seq<seq<nat>>, starter: int): (b: Board)
    requires forall p, k | 0 <= p < |stacks| && 0 <= k < |stacks[p]| :: stacks[p][k] < n
    ensures b.stacks == stacks && b.solution == [] && b.starterPinIndex == starter
    ensures |b.rings| == n
    ensures forall j | 0 <= j < n ::
      b.rings[j].size == n - j && b.rings[j].step == 0 && b.rings[j].pendingPaths == []
  {
    var b0 := Copied(n, stacks, starter);
    b0.(rings := MarkedRings(b0, |stacks|), solutionPinIndex := LastMarked(b0, |stacks|))
  }

  /** The ring sizes of the copy are 1..N, each once, the biggest one (ring 0) being N. */
  lemma SnapshotSizes(n: nat, stacks: seq<seq<nat>>, starter: int)
    requires forall p, k | 0 <= p < |stacks| && 0 <= k < |stacks[p]| :: stacks[p][k] < n
    ensures var b := Snapshot(n, stacks, starter);
      && (forall i | 0 <= i < n :: 1 <= b.rings[i].size <= n)
      && (forall i, j | 0 <= i < j < n :: b.rings[i].size != b.rings[j].size)
      && (0 < n ==> b.rings[0].size == n)
  {
  }

  /** A run in place is the bottom of the complete tower: the ring at height j is ring j. */
  lemma {:induction false} InPlaceIsTower(b: Board, s: seq<nat>, j: nat)
    requires Shaped(b) && forall k | 0 <= k < |s| :: s[k] < |b.rings|
    requires j < |InPlace(b, s)|
    ensures InPlace(b, s)[j] == j
  {
    assert Continues(b, s, j);
    if j > 0 {
      InPlaceIsTower(b, s, j - 1);
    }
  }

  /** Ring i is marked by the pass over the first n pins iff some pin among them that the pass
      marks has i in its run in place. */
  lemma {:induction false} MarkedBeforeIff(b: Board, n: nat, i: nat)
    requires WellFormed(b) && n <= |b.stacks|
    ensures MarkedBefore(b, n, i) <==> exists p | 0 <= p < n && Marks(b, p) :: i in InPlace(b, b.stacks[p])
  {
    if n > 0 {
      MarkedBeforeIff(b, n - 1, i);
      if exists p | 0 <= p < n && Marks(b, p) :: i in InPlace(b, b.stacks[p]) {
        var p :| 0 <= p < n && Marks(b, p) && i in InPlace(b, b.stacks[p]);
        if p < n - 1 {
          assert MarkedBefore(b, n - 1, i);
        }
      }
    }
  }

  /** The solution pin after the pass over the first n pins is -1 iff it marks none of them,
      and otherwise the last one it marks. */
  lemma {:induction false} LastMarkedIsLast(b: Board, n: nat)
    requires WellFormed(b) && n <= |b.stacks|
    ensures var sp := LastMarked(b, n);
      && (sp == -1 <==> forall p | 0 <= p < n :: !Marks(b, p))
      && (sp != -1 ==> Marks(b, sp) && forall p | sp < p < n :: !Marks(b, p))
  {
    if n > 0 {
      LastMarkedIsLast(b, n - 1);
    }
  }

  /** The marking pass in full: on the copy a ring is solved iff it lies in the run in place of
      a pin other than the starter, and the solution pin is the last pin with a run in place
      (-1 when there is none). */
  lemma SnapshotMarking(n: nat, stacks: seq<seq<nat>>, starter: int)
    requires forall p, k | 0 <= p < |stacks| && 0 <= k < |stacks[p]| :: stacks[p][k] < n
    ensures var b0 := Copied(n, stacks, starter);
      var b := Snapshot(n, stacks, starter);
      && (forall i | 0 <= i < n ::
            b.rings[i].isSolved <==>
              exists p | 0 <= p < |stacks| && Marks(b0, p) :: i in InPlace(b0, stacks[p]))
      && (b.solutionPinIndex == -1 <==> forall p | 0 <= p < |stacks| :: !Marks(b0, p))
      && (b.solutionPinIndex != -1 ==>
            Marks(b0, b.solutionPinIndex) && forall p | b.solutionPinIndex < p < |stacks| :: !Marks(b0, p))
  {
    var b0 := Copied(n, stacks, starter);
    forall i | 0 <= i < n {
      MarkedBeforeIff(b0, |stacks|, i);
    }
    LastMarkedIsLast(b0, |stacks|);
  }

  /** The copy satisfies the search invariant, so every cycle on it is well defined: in
      particular a marked pin holds ring 0 at its bottom, and ring 0 is marked solved. */
  lemma SnapshotInv(n: nat, stacks: seq<seq<nat>>, starter: int)
    requires forall p, k | 0 <= p < |stacks| && 0 <= k < |stacks[p]| :: stacks[p][k] < n
    ensures Inv(Snapshot(n, stacks, starter))
  {
    var b0 := Copied(n, stacks, starter);
    var b := Snapshot(n, stacks, starter);
    var sp := b.solutionPinIndex;
    if sp != -1 {
      LastMarkedIsLast(b0, |stacks|);
      InPlaceIsTower(b0, stacks[sp], 0);
      MarkedBeforeIff(b0, |stacks|, 0);
      assert 0 in InPlace(b0, stacks[sp]);
    }
  }

  /** Ring x occurs on two different pins at most as often as on all pins together. */
  lemma {:induction false} TwoPinsCount(stacks: seq<seq<nat>>, p: nat, q: nat, x: nat)
    requires p < q < |stacks|
    ensures multiset(stacks[p])[x] + multiset(stacks[q])[x] <= AllRings(stacks)[x]
    decreases |stacks|
  {
    var n := |stacks| - 1;
    assert AllRings(stacks) == AllRings(stacks[..n]) + multiset(stacks[n]);
    if q < n {
      TwoPinsCount(stacks[..n], p, q, x);
    } else {
      OnePinCount(stacks[..n], p, x);
    }
  }

  lemma {:induction false} OnePinCount(stacks: seq<seq<nat>>, p: nat, x: nat)
    requires p < |stacks|
    ensures multiset(stacks[p])[x] <= AllRings(stacks)[x]
    decreases |stacks|
  {
    var n := |stacks| - 1;
    assert AllRings(stacks) == AllRings(stacks[..n]) + multiset(stacks[n]);
    if p < n {
      OnePinCount(stacks[..n], p, x);
    }
  }

  /** When the game holds ring 0 exactly once, at most one pin has it at its bottom. */
  lemma BottomZeroUnique(n: nat, stacks: seq<seq<nat>>, p: nat, q: nat)
    requires AllRings(stacks) == multiset(Ids(n))
    requires p < |stacks| && q < |stacks| && stacks[p] != [] && stacks[q] != []
    requires stacks[p][0] == 0 && stacks[q][0] == 0
    ensures p == q
  {
    if p != q {
      assert multiset(Ids(n))[0] <= 1 by {
        if 0 < n {
          assert Ids(n) == [0] + Ids(n)[1..];
          assert 0 !in Ids(n)[1..];
        }
      }
      assert 0 < multiset(stacks[p])[0] && 0 < multiset(stacks[q])[0] by {
        assert stacks[p][0] in stacks[p] && stacks[q][0] in stacks[q];
      }
      if p < q {
        TwoPinsCount(stacks, p, q, 0);
      } else {
        TwoPinsCount(stacks, q, p, 0);
      }
    }
  }

  /** When the game holds each of its n rings exactly once, the copy's solved rings form the
      bottom run of the solution pin, ring i at height i. */
  lemma SnapshotSolvedRun(n: nat, stacks: seq<seq<nat>>, starter: int)
    requires forall p, k | 0 <= p < |stacks| && 0 <= k < |stacks[p]| :: stacks[p][k] < n
    requires AllRings(stacks) == multiset(Ids(n))
    ensures SolvedRun(Snapshot(n, stacks, starter))
  {
    var b := Snapshot(n, stacks, starter);
    forall i | 0 <= i < n && b.rings[i].isSolved
      ensures 0 <= b.solutionPinIndex < |b.stacks| && i < |b.stacks[b.solutionPinIndex]|
              && b.stacks[b.solutionPinIndex][i] == i
    {
      SolvedOnSolutionPin(n, stacks, starter, i);
    }
  }

  lemma SolvedOnSolutionPin(n: nat, stacks: seq<seq<nat>>, starter: int, i: nat)
    requires forall p, k | 0 <= p < |stacks| && 0 <= k < |stacks[p]| :: stacks[p][k] < n
    requires AllRings(stacks) == multiset(Ids(n))
    requires i < n && Snapshot(n, stacks, starter).rings[i].isSolved
    ensures var sp := Snapshot(n, stacks, starter).solutionPinIndex;
      0 <= sp < |stacks| && i < |stacks[sp]| && stacks[sp][i] == i
  {
    var b0 := Copied(n, stacks, starter);
    LastMarkedIsLast(b0, |stacks|);
    MarkedBeforeIff(b0, |stacks|, i);
    var p :| 0 <= p < |stacks| && Marks(b0, p) && i in InPlace(b0, stacks[p]);
    var sp := LastMarked(b0, |stacks|);
    var run := InPlace(b0, stacks[p]);
    var j :| 0 <= j < |run| && run[j] == i;
    InPlaceIsTower(b0, stacks[p], j);
    InPlaceIsTower(b0, stacks[p], 0);
    InPlaceIsTower(b0, stacks[sp], 0);
    BottomZeroUnique(n, stacks, p, sp);
  }
}
