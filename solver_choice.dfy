/**
 * What the solver's choices mean: which ring getBestRingToMove picks, which paths
 * fillPendingPaths records, and how the path weights rank the destinations.
 */
module SolverChoice {

  import opened Wrappers
  import opened ExercisePaths
  import opened SolverBoard
  import RingNodes

  /** getBestRingToMove returns nothing exactly when no option is movable, and otherwise a
      movable option. */
  lemma {:induction false} BestRingToMoveFound(b: Board, options: seq<nat>)
    requires WellFormed(b)
    requires forall k | 0 <= k < |options| :: options[k] < |b.rings|
    ensures BestRingToMove(b, options).None? <==> forall k | 0 <= k < |options| :: !Movable(b, options[k])
    ensures BestRingToMove(b, options).Some? ==>
      BestRingToMove(b, options).value in options && Movable(b, BestRingToMove(b, options).value)
  {
    if options != [] {
      var init := options[..|options| - 1];
      assert forall k | 0 <= k < |init| :: init[k] == options[k];
      BestRingToMoveFound(b, init);
      assert options == init + [options[|options| - 1]];
    }
  }

  /** The ring moved last is picked again only when it is the only movable option. */
  lemma {:induction false} BestRingToMoveAvoidsLast(b: Board, options: seq<nat>)
    requires Shaped(b)
    requires forall k | 0 <= k < |options| :: options[k] < |b.rings|
    requires BestRingToMove(b, options).Some? && LastMoved(b) == BestRingToMove(b, options)
    ensures forall k | 0 <= k < |options| && Movable(b, options[k]) :: options[k] == LastMoved(b).value
  {
    var init := options[..|options| - 1];
    var r := options[|options| - 1];
    assert forall k | 0 <= k < |init| :: init[k] == options[k];
    var acc := BestRingToMove(b, init);
    if acc.Some? && acc == BestRingToMove(b, options) {
      BestRingToMoveAvoidsLast(b, init);
    } else {
      BestRingToMoveFound(b, init);
    }
  }

  /** Otherwise the pick is the last movable option other than the ring moved last. */
  lemma {:induction false} BestRingToMoveIsLastOther(b: Board, options: seq<nat>)
    requires Shaped(b)
    requires forall k | 0 <= k < |options| :: options[k] < |b.rings|
    requires BestRingToMove(b, options).Some? && LastMoved(b) != BestRingToMove(b, options)
    ensures exists k | 0 <= k < |options| :: (options[k] == BestRingToMove(b, options).value &&
      forall j | k < j < |options| && Movable(b, options[j]) :: Some(options[j]) == LastMoved(b))
  {
    var init := options[..|options| - 1];
    var r := options[|options| - 1];
    assert forall k | 0 <= k < |init| :: init[k] == options[k];
    var acc := BestRingToMove(b, init);
    var x := BestRingToMove(b, options).value;
    if acc == Some(x) && (x != r || !Movable(b, r) || LastMoved(b) == Some(r)) {
      BestRingToMoveIsLastOther(b, init);
      var k :| 0 <= k < |init| && init[k] == x &&
        forall j | k < j < |init| && Movable(b, init[j]) :: Some(init[j]) == LastMoved(b);
      assert options[k] == x;
    } else {
      assert options[|options| - 1] == x;
    }
  }

  /** A path fillPendingPaths may record for r: from r to a pin r fits on, with that pin's weight. */
  predicate IsCandidate(b: Board, r: nat, q: ExercisePath)
    requires WellFormed(b) && r < |b.rings|
  {
    q.from == r && q.destination < |b.stacks| && Fits(b, r, q.destination) && q.weight == Weight(b, r, q.destination)
  }

  /** Every path fillPendingPaths leaves on r is one r already had or a candidate path to one of
      the pins looked at; none of the paths r already had is lost. */
  lemma {:induction false} FillEntries(b: Board, r: nat, n: nat)
    requires WellFormed(b) && r < |b.rings| && n <= |b.stacks|
    ensures forall q | q in FillUpTo(b, r, n) ::
      q in b.rings[r].pendingPaths || (q.destination < n && IsCandidate(b, r, q))
    ensures forall q | q in b.rings[r].pendingPaths :: q in FillUpTo(b, r, n)
  {
    if n > 0 {
      FillEntries(b, r, n - 1);
      var acc := FillUpTo(b, r, n - 1);
      if Fits(b, r, n - 1) {
        var c := Candidate(b, r, n - 1);
        assert IsCandidate(b, r, c);
        RingNodes.AddPathMembers(acc, c);
        EntriesStep(b, r, n, acc, RingNodes.AddedPath(acc, c), c);
      }
    }
  }

  /** The step of FillEntries: a list made of the entries of acc and of the candidate for pin
      n - 1 keeps to what FillEntries allows for n pins. */
  lemma EntriesStep(b: Board, r: nat, n: nat, acc: seq<ExercisePath>, added: seq<ExercisePath>, c: ExercisePath)
    requires WellFormed(b) && r < |b.rings| && 0 < n <= |b.stacks|
    requires forall q | q in acc :: q in b.rings[r].pendingPaths || (q.destination < n - 1 && IsCandidate(b, r, q))
    requires c.destination == n - 1 && IsCandidate(b, r, c)
    requires forall q | q in added :: q in acc || q == c
    ensures forall q | q in added :: q in b.rings[r].pendingPaths || (q.destination < n && IsCandidate(b, r, q))
  {
  }

  /** fillPendingPaths keeps the pending paths ordered by weight. */
  lemma {:induction false} FillSorted(b: Board, r: nat, n: nat)
    requires WellFormed(b) && r < |b.rings| && n <= |b.stacks|
    requires SortedByWeight(b.rings[r].pendingPaths)
    ensures SortedByWeight(FillUpTo(b, r, n))
  {
    if n > 0 {
      FillSorted(b, r, n - 1);
      if Fits(b, r, n - 1) {
        RingNodes.AddPathKeepsOrder(FillUpTo(b, r, n - 1), Candidate(b, r, n - 1));
      }
    }
  }

  /** After fillPendingPaths a ring that fits on some pin has a path to take. */
  lemma {:induction false} FillNonEmpty(b: Board, r: nat, n: nat)
    requires WellFormed(b) && r < |b.rings| && n <= |b.stacks|
    requires b.rings[r].pendingPaths != [] || exists p | 0 <= p < n :: Fits(b, r, p)
    ensures FillUpTo(b, r, n) != []
  {
    if n > 0 {
      if b.rings[r].pendingPaths != [] || exists p | 0 <= p < n - 1 :: Fits(b, r, p) {
        FillNonEmpty(b, r, n - 1);
      }
      if Fits(b, r, n - 1) {
        RingNodes.AddPathMembers(FillUpTo(b, r, n - 1), Candidate(b, r, n - 1));
      }
    }
  }

  /** Filled from an empty list, the paths lead to distinct pins among the first n. */
  lemma {:induction false} FillFromEmpty(b: Board, r: nat, n: nat)
    requires WellFormed(b) && r < |b.rings| && n <= |b.stacks|
    requires b.rings[r].pendingPaths == []
    ensures DistinctDestinations(FillUpTo(b, r, n))
    ensures forall q | q in FillUpTo(b, r, n) :: q.destination < n
  {
    if n > 0 {
      FillFromEmpty(b, r, n - 1);
      var acc := FillUpTo(b, r, n - 1);
      if Fits(b, r, n - 1) {
        var c := Candidate(b, r, n - 1);
        assert c.destination == n - 1;
        assert FillUpTo(b, r, n) == RingNodes.AddedPath(acc, c);
        assert DistinctDestinations(RingNodes.AddedPath(acc, c)) by {
          RingNodes.AddPathKeepsDistinct(acc, c);
        }
        assert forall q | q in RingNodes.AddedPath(acc, c) :: q.destination < n by {
          RingNodes.AddPathMembers(acc, c);
        }
      } else {
        assert FillUpTo(b, r, n) == acc;
      }
    }
  }

  /** The weight of every candidate for pin p is matched or beaten by some recorded path. */
  lemma {:induction false} FillDominates(b: Board, r: nat, n: nat, p: nat)
    requires WellFormed(b) && r < |b.rings| && p < n <= |b.stacks|
    requires Fits(b, r, p)
    ensures RingNodes.Dominated(FillUpTo(b, r, n), Weight(b, r, p))
  {
    var w := Weight(b, r, p);
    var acc := FillUpTo(b, r, n - 1);
    if p < n - 1 {
      FillDominates(b, r, n - 1, p);
    }
    if Fits(b, r, n - 1) {
      var c := Candidate(b, r, n - 1);
      assert FillUpTo(b, r, n) == RingNodes.AddedPath(acc, c);
      assert RingNodes.Dominated(RingNodes.AddedPath(acc, c), w) by {
        RingNodes.AddPathDominates(acc, c, w);
        DominatedStep(acc, RingNodes.AddedPath(acc, c), c.weight, w, p == n - 1);
      }
    } else {
      assert FillUpTo(b, r, n) == acc;
    }
  }

  /** The step of FillDominates: w is matched or beaten in the new list when the new entry's
      weight c is w itself, or when w was matched or beaten before. */
  lemma DominatedStep(acc: seq<ExercisePath>, added: seq<ExercisePath>, c: int, w: int, isNew: bool)
    requires isNew ==> c == w
    requires !isNew ==> RingNodes.Dominated(acc, w)
    requires RingNodes.Dominated(added, c)
    requires RingNodes.Dominated(acc, w) ==> RingNodes.Dominated(added, w)
    ensures RingNodes.Dominated(added, w)
  {
  }

  /** The path fillPendingPaths puts first, the one the solver takes, is the lightest of the
      candidates and of the paths the ring already had. */
  lemma FillChoosesLightest(b: Board, r: nat)
    requires WellFormed(b) && r < |b.rings|
    requires SortedByWeight(b.rings[r].pendingPaths)
    requires FillUpTo(b, r, |b.stacks|) != []
    ensures var head := FillUpTo(b, r, |b.stacks|)[0];
      && (forall p | 0 <= p < |b.stacks| && Fits(b, r, p) :: head.weight <= Weight(b, r, p))
      && (forall q | q in b.rings[r].pendingPaths :: head.weight <= q.weight)
  {
    var filled := FillUpTo(b, r, |b.stacks|);
    FillSorted(b, r, |b.stacks|);
    FillEntries(b, r, |b.stacks|);
    forall p | 0 <= p < |b.stacks| && Fits(b, r, p) ensures filled[0].weight <= Weight(b, r, p) {
      FillDominates(b, r, |b.stacks|, p);
      var q :| q in filled && q.weight <= Weight(b, r, p);
      var j :| 0 <= j < |filled| && filled[j] == q;
    }
    forall q | q in b.rings[r].pendingPaths ensures filled[0].weight <= q.weight {
      assert q in filled;
      var j :| 0 <= j < |filled| && filled[j] == q;
    }
  }

  /** A destination that is the ring's final place always weighs less than one that is not. */
  lemma FinalPlaceIsPreferred(b: Board, r: nat, p: nat, other: nat)
    requires Shaped(b) && r < |b.rings| && p < |b.stacks| && other < |b.stacks|
    requires FinalPlace(b, r, p) && !FinalPlace(b, r, other)
    ensures Weight(b, r, p) < Weight(b, r, other)
  {
    var s := b.stacks[other];
    if s != [] && !b.rings[Top(s)].isSolved {
      var k := FirstUnsolvedAt(b, s);
      assert k < |s| by {
        assert !Flags(b)[s[|s| - 1]];
      }
      assert b.rings[s[k]].size <= |b.rings|;
    }
  }

  /** With the Hanoi rule in force, a pin whose top ring is not solved yet weighs less than an
      empty pin that is not the ring's final place. */
  lemma UnsolvedTopBeatsEmpty(b: Board, r: nat, p: nat, e: nat)
    requires Shaped(b) && WellStacked(b) && r < |b.rings| && p < |b.stacks| && e < |b.stacks|
    requires Fits(b, r, p) && b.stacks[p] != [] && !b.rings[Top(b.stacks[p])].isSolved
    requires b.stacks[e] == [] && !FinalPlace(b, r, e)
    ensures Weight(b, r, p) < 0 == Weight(b, r, e)
  {
    var s := b.stacks[p];
    var k := FirstUnsolvedAt(b, s);
    assert k < |s| by {
      assert !Flags(b)[s[|s| - 1]];
    }
    if k < |s| - 1 {
      assert s[k] < s[|s| - 1];
    }
    assert b.rings[s[k]].size >= b.rings[Top(s)].size;
  }
}
