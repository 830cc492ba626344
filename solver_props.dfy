/**
 * What the greedy search guarantees beyond its invariant: every cycle moves exactly one ring by
 * the Hanoi rule, no ring is lost or duplicated, solved rings form the bottom run of the
 * solution pin and never move again, the ledger numbers its steps 1..n and replays to the
 * current stacks, and a search that ends Solved leaves every ring, in order, on the solution pin.
 */
module SolverProps {

  import opened Wrappers
  import opened ExerciseSteps
  import opened SolverBoard
  import opened SolverSearch
  import SolverChoice

  /** The ring numbers 0..n-1 in order: a complete tower, biggest ring at the bottom. */
  function Ids(n: nat): (s: seq<nat>)
    ensures |s| == n && forall i | 0 <= i < n :: s[i] == i
  {
    seq(n, i => i)
  }

  /** A cycle neither loses nor duplicates a ring. */
  lemma MovedConserves(b: Board, c: Board, st: ExerciseStep)
    requires WellFormed(b) && Moved(b, c, st)
    ensures AllRings(c.stacks) == AllRings(b.stacks)
  {
    ApplyStepConserves(b.stacks, st.from, st.to, st.ring);
  }

  /** A cycle keeps the Hanoi rule: the ring goes only onto an empty pin or a bigger ring. */
  lemma MovedKeepsWellStacked(b: Board, c: Board, st: ExerciseStep)
    requires Shaped(b) && WellStacked(b) && Moved(b, c, st)
    ensures WellStacked(c)
  {
    var r := st.ring;
    var below := b.stacks[st.to];
    if below != [] {
      assert Top(below) < r;
      assert forall k | 0 <= k < |below| :: below[k] < r by {
        forall k | 0 <= k < |below| ensures below[k] < r {
          if k < |below| - 1 {
            assert below[k] < below[|below| - 1];
          }
        }
      }
    }
    var popped := b.stacks[st.from := Pop(b.stacks[st.from])];
    assert popped[st.to] == below;
    forall p, i, j | 0 <= p < |c.stacks| && 0 <= i < j < |c.stacks[p]| ensures c.stacks[p][i] < c.stacks[p][j] {
      if p == st.to {
        if j < |below| {
          assert c.stacks[p][i] == below[i] && c.stacks[p][j] == below[j];
        } else {
          assert c.stacks[p][i] == below[i] && c.stacks[p][j] == r;
        }
      } else if p == st.from {
        assert c.stacks[p][i] == b.stacks[p][i] && c.stacks[p][j] == b.stacks[p][j];
      } else {
        assert c.stacks[p] == b.stacks[p];
      }
    }
  }

  /** Solved rings sit, in order, at the bottom of the solution pin: ring i at height i. */
  predicate SolvedRun(b: Board)
  {
    forall i | 0 <= i < |b.rings| && b.rings[i].isSolved ::
      0 <= b.solutionPinIndex < |b.stacks| && i < |b.stacks[b.solutionPinIndex]|
      && b.stacks[b.solutionPinIndex][i] == i
  }

  /** On a well-stacked pin a ring stands at most at the height of its own number. */
  lemma {:induction false} HeightAtMostNumber(s: seq<nat>, k: nat)
    requires forall i, j | 0 <= i < j < |s| :: s[i] < s[j]
    requires k < |s|
    ensures k <= s[k]
  {
    if k > 0 {
      HeightAtMostNumber(s, k - 1);
    }
  }

  /** The ring a cycle marks solved lands at the height of its own number on the solution pin:
      the biggest ring on an empty pin, any other ring right above the top of the run. */
  lemma MovedSolvesInRun(b: Board, c: Board, st: ExerciseStep)
    requires Inv(b) && WellStacked(b) && SolvedRun(b) && Moved(b, c, st)
    requires c.rings[st.ring].isSolved
    ensures 0 <= c.solutionPinIndex < |c.stacks| && st.ring < |c.stacks[c.solutionPinIndex]|
    ensures c.stacks[c.solutionPinIndex][st.ring] == st.ring
  {
    var r := st.ring;
    var sp := b.solutionPinIndex;
    var popped := b.stacks[st.from := Pop(b.stacks[st.from])];
    assert popped[st.to] == b.stacks[st.to];
    if r == 0 {
      assert !b.rings[0].isSolved;
      assert b.stacks[st.to] == [];
      assert c.stacks[st.to] == [0];
    } else {
      var below := b.stacks[sp];
      var t := Top(below);
      assert b.rings[t].isSolved && t + 1 == r;
      assert below[t] == t;
      assert |below| == t + 1;
      assert c.stacks[sp] == below + [r];
    }
  }

  /** The rings already solved stay where they were: the moved ring was not one of them. */
  lemma MovedKeepsSolvedRings(b: Board, c: Board, st: ExerciseStep)
    requires Inv(b) && SolvedRun(b) && Moved(b, c, st)
    ensures forall i | 0 <= i < |c.rings| && c.rings[i].isSolved && i != st.ring ::
      0 <= c.solutionPinIndex < |c.stacks| && i < |c.stacks[c.solutionPinIndex]|
      && c.stacks[c.solutionPinIndex][i] == i
  {
    var r := st.ring;
    var sp := b.solutionPinIndex;
    var popped := b.stacks[st.from := Pop(b.stacks[st.from])];
    forall i | 0 <= i < |c.rings| && c.rings[i].isSolved && i != r
      ensures 0 <= c.solutionPinIndex < |c.stacks| && i < |c.stacks[c.solutionPinIndex]|
              && c.stacks[c.solutionPinIndex][i] == i
    {
      assert b.rings[i].isSolved;
      assert r != 0;
      var s := b.stacks[sp];
      if sp == st.from {
        assert s[i] == i && s[|s| - 1] == r;
        assert c.stacks[sp][i] == popped[sp][i];
      } else if sp == st.to {
        assert c.stacks[sp][i] == s[i];
      } else {
        assert c.stacks[sp] == s;
      }
    }
  }

  /** A cycle keeps SolvedRun. */
  lemma MovedKeepsSolvedRun(b: Board, c: Board, st: ExerciseStep)
    requires Inv(b) && WellStacked(b) && SolvedRun(b) && Moved(b, c, st)
    ensures SolvedRun(c)
  {
    MovedKeepsSolvedRings(b, c, st);
    if c.rings[st.ring].isSolved {
      MovedSolvesInRun(b, c, st);
    }
  }

  /** Board c is a later state of the search from board b: the same rings and pins, the ledger
      of b extended, its numbering kept, and the added steps replay b's stacks into c's. */
  predicate Follows(b: Board, c: Board)
  {
    && |c.rings| == |b.rings| && |c.stacks| == |b.stacks|
    && |b.solution| <= |c.solution| && c.solution[..|b.solution|] == b.solution
    && (NumberedFromOne(b.solution) ==> NumberedFromOne(c.solution))
    && StepsInRange(c.solution[|b.solution|..], |b.stacks|, |b.rings|)
    && Replay(b.stacks, c.solution[|b.solution|..], Ids(|b.rings|)) == c.stacks
  }

  lemma FollowsRefl(b: Board)
    ensures Follows(b, b)
  {
    assert b.solution[|b.solution|..] == [];
  }

  /** One cycle appends the step it took, numbered one past the ledger, and that step replays. */
  lemma MovedFollows(b: Board, c: Board, st: ExerciseStep)
    requires WellFormed(b) && Moved(b, c, st)
    ensures Follows(b, c)
  {
    assert c.solution[|b.solution|..] == [st];
    assert c.solution[..|b.solution|] == b.solution;
    assert [st][..0] == [];
  }

  /** Later states compose: replaying both extensions in turn is replaying their concatenation. */
  lemma FollowsTrans(a: Board, b: Board, c: Board)
    requires Follows(a, b) && Follows(b, c)
    ensures Follows(a, c)
  {
    var first := b.solution[|a.solution|..];
    var second := c.solution[|b.solution|..];
    assert c.solution[..|b.solution|][..|a.solution|] == c.solution[..|a.solution|];
    assert c.solution[|a.solution|..] == first + second by {
      assert c.solution == b.solution + second;
      assert b.solution == a.solution + first;
    }
    ReplayAppend(a.stacks, first, second, Ids(|a.rings|));
  }

  /** A well-stacked pin holding all n rings holds them in order: the complete tower. */
  lemma FullStackIsTower(s: seq<nat>, n: nat)
    requires |s| == n && forall k | 0 <= k < |s| :: s[k] < n
    requires forall i, j | 0 <= i < j < |s| :: s[i] < s[j]
    ensures s == Ids(n)
  {
    forall k | 0 <= k < n ensures s[k] == k {
      HeightAtMostNumber(s, k);
      HeightAtLeastNumber(s, n, k);
    }
  }

  /** On a strictly increasing stack of numbers below n, the ring at height k is at most
      n - |s| + k. */
  lemma {:induction false} HeightAtLeastNumber(s: seq<nat>, n: nat, k: nat)
    requires forall i | 0 <= i < |s| :: s[i] < n
    requires forall i, j | 0 <= i < j < |s| :: s[i] < s[j]
    requires k < |s|
    ensures s[k] + |s| - k <= n
    decreases |s| - k
  {
    if k + 1 < |s| {
      HeightAtLeastNumber(s, n, k + 1);
    }
  }

  /** SearchForSolution fails exactly when no ring on top of a pin is unsolved and fits a pin. */
  lemma PickNoneIff(b: Board)
    requires WellFormed(b)
    ensures Pick(b).None? <==>
      forall p | 0 <= p < |b.stacks| && b.stacks[p] != [] :: !Movable(b, Top(b.stacks[p]))
  {
    var options := RingsOnTop(b);
    SolverChoice.BestRingToMoveFound(b, options);
    if Pick(b).None? {
      forall p | 0 <= p < |b.stacks| && b.stacks[p] != [] ensures !Movable(b, Top(b.stacks[p])) {
        assert Top(b.stacks[p]) in options;
      }
    } else {
      var r := Pick(b).value;
      assert r in options;
    }
  }

  /** When the ring Pick returns is the one moved last, every other movable top has that size. */
  lemma PickRepeatsOnlyAlone(b: Board)
    requires Shaped(b) && Pick(b).Some? && Pick(b) == LastMoved(b)
    ensures forall p | 0 <= p < |b.stacks| && b.stacks[p] != [] && Movable(b, Top(b.stacks[p])) ::
      Top(b.stacks[p]) == LastMoved(b).value
  {
    var options := RingsOnTop(b);
    SolverChoice.BestRingToMoveAvoidsLast(b, options);
    forall p | 0 <= p < |b.stacks| && b.stacks[p] != [] && Movable(b, Top(b.stacks[p]))
      ensures Top(b.stacks[p]) == LastMoved(b).value
    {
      var x := Top(b.stacks[p]);
      assert x in options;
      var k :| 0 <= k < |options| && options[k] == x;
    }
  }

  /** A ring with no leftover paths moves to a pin of least weight among all pins it fits on. */
  lemma CycleTakesLightest(b: Board)
    requires Inv(b) && Pick(b).Some?
    ensures Cycle(b).Some? && |Cycle(b).value.solution| == |b.solution| + 1
    ensures var st := Cycle(b).value.solution[|b.solution|];
      st.ring < |b.rings| && st.to < |b.stacks| &&
      (b.rings[st.ring].pendingPaths == [] ==>
         forall p | 0 <= p < |b.stacks| && Fits(b, st.ring, p) :: Weight(b, st.ring, st.to) <= Weight(b, st.ring, p))
  {
    CycleMoves(b);
    var st := Cycle(b).value.solution[|b.solution|];
    var r := st.ring;
    if b.rings[r].pendingPaths == [] {
      var filled := FillUpTo(b, r, |b.stacks|);
      FilledPathsLead(b, r);
      SolverChoice.FillEntries(b, r, |b.stacks|);
      SolverChoice.FillChoosesLightest(b, r);
      assert filled[0] in filled;
      assert filled[0] == Chosen(b, r);
    }
  }
}
