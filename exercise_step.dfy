/**
 * ExerciseStep: one executed move recorded in the solver's ledger, and the replay of a ledger
 * on a row of ring stacks (what the game does with a solution).
 */
module ExerciseSteps {

  datatype ExerciseStep = ExerciseStep(from: nat, to: nat, ring: nat, index: int)

  /** The ledger numbers its steps 1, 2, ..., n in order. */
  predicate NumberedFromOne(ledger: seq<ExerciseStep>)
  {
    forall k | 0 <= k < |ledger| :: ledger[k].index == k + 1
  }

  /** Every step names pins below `pinCount` and a ring below `ringCount`. */
  predicate StepsInRange(ledger: seq<ExerciseStep>, pinCount: nat, ringCount: nat)
  {
    forall k | 0 <= k < |ledger| ::
      ledger[k].from < pinCount && ledger[k].to < pinCount && ledger[k].ring < ringCount
  }

  /** A stack with its top removed; popping an empty stack changes nothing (ringPop returns null). */
  function Pop<T>(s: seq<T>): (r: seq<T>)
    ensures |s| > 0 ==> r + [s[|s| - 1]] == s
    ensures |s| == 0 ==> r == []
  {
    if |s| == 0 then [] else s[..|s| - 1]
  }

  /** Replaying one step: pop the source pin, then push the step's ring on the destination pin. */
  function ApplyStep<T>(stacks: seq<seq<T>>, from: nat, to: nat, ring: T): (r: seq<seq<T>>)
    requires from < |stacks| && to < |stacks|
    ensures |r| == |stacks|
  {
    var popped := stacks[from := Pop(stacks[from])];
    popped[to := popped[to] + [ring]]
  }

  /** Replaying a whole ledger in order; `ringOf` maps a step's ring index to the ring pushed. */
  function Replay<T>(stacks: seq<seq<T>>, ledger: seq<ExerciseStep>, ringOf: seq<T>): (r: seq<seq<T>>)
    requires StepsInRange(ledger, |stacks|, |ringOf|)
    ensures |r| == |stacks|
    decreases |ledger|
  {
    if ledger == [] then stacks
    else
      var s := ledger[|ledger| - 1];
      var before := Replay(stacks, ledger[..|ledger| - 1], ringOf);
      ApplyStep(before, s.from, s.to, ringOf[s.ring])
  }

  /** Every ring on every pin, counted with multiplicity. */
  function AllRings<T>(stacks: seq<seq<T>>): multiset<T>
  {
    if stacks == [] then multiset{} else AllRings(stacks[..|stacks| - 1]) + multiset(stacks[|stacks| - 1])
  }

  /** Replacing one stack replaces its rings in the count and nothing else. */
  lemma {:induction false} AllRingsUpdate<T>(stacks: seq<seq<T>>, p: nat, t: seq<T>)
    requires p < |stacks|
    ensures AllRings(stacks[p := t]) + multiset(stacks[p]) == AllRings(stacks) + multiset(t)
    decreases |stacks|
  {
    var n := |stacks| - 1;
    var u := stacks[p := t];
    assert AllRings(stacks) == AllRings(stacks[..n]) + multiset(stacks[n]);
    assert AllRings(u) == AllRings(u[..n]) + multiset(u[n]);
    if p < n {
      assert u[..n] == stacks[..n][p := t];
      AllRingsUpdate(stacks[..n], p, t);
      calc {
        AllRings(u) + multiset(stacks[p]);
        AllRings(stacks[..n][p := t]) + multiset(stacks[n]) + multiset(stacks[..n][p]);
        (AllRings(stacks[..n][p := t]) + multiset(stacks[..n][p])) + multiset(stacks[n]);
        AllRings(stacks[..n]) + multiset(t) + multiset(stacks[n]);
        AllRings(stacks) + multiset(t);
      }
    } else {
      assert u[..n] == stacks[..n];
    }
  }

  /** Adding the same multiset to both sides can be undone. */
  lemma Cancel<T>(a: multiset<T>, b: multiset<T>, c: multiset<T>)
    requires a + c == b + c
    ensures a == b
  {
    forall o ensures a[o] == b[o] {
      assert (a + c)[o] == (b + c)[o];
    }
  }

  /** Replaying a step whose ring is on top of its source pin keeps every ring exactly once. */
  lemma ApplyStepConserves<T>(stacks: seq<seq<T>>, from: nat, to: nat, x: T)
    requires from < |stacks| && to < |stacks| && stacks[from] != [] && stacks[from][|stacks[from]| - 1] == x
    ensures AllRings(ApplyStep(stacks, from, to, x)) == AllRings(stacks)
  {
    var popped := stacks[from := Pop(stacks[from])];
    AllRingsUpdate(stacks, from, Pop(stacks[from]));
    assert multiset(stacks[from]) == multiset(Pop(stacks[from])) + multiset{x} by {
      assert stacks[from] == Pop(stacks[from]) + [x];
    }
    var rest := AllRings(popped);
    Cancel(rest + multiset{x}, AllRings(stacks), multiset(Pop(stacks[from])));
    var pushed := popped[to := popped[to] + [x]];
    AllRingsUpdate(popped, to, popped[to] + [x]);
    assert multiset(popped[to] + [x]) == multiset(popped[to]) + multiset{x};
    Cancel(AllRings(pushed), rest + multiset{x}, multiset(popped[to]));
    assert ApplyStep(stacks, from, to, x) == pushed;
  }

  /** Replaying one more step is replaying the ledger and then that step. */
  lemma ReplaySnoc<T>(stacks: seq<seq<T>>, ledger: seq<ExerciseStep>, s: ExerciseStep, ringOf: seq<T>)
    requires StepsInRange(ledger, |stacks|, |ringOf|)
    requires s.from < |stacks| && s.to < |stacks| && s.ring < |ringOf|
    ensures StepsInRange(ledger + [s], |stacks|, |ringOf|)
    ensures Replay(stacks, ledger + [s], ringOf)
         == ApplyStep(Replay(stacks, ledger, ringOf), s.from, s.to, ringOf[s.ring])
  {
    assert (ledger + [s])[..|ledger|] == ledger;
    forall k | 0 <= k < |ledger| ensures ledger[k] == (ledger + [s])[k] { }
  }

  /** Replaying two ledgers one after the other is replaying their concatenation. */
  lemma {:induction false} ReplayAppend<T>(stacks: seq<seq<T>>, first: seq<ExerciseStep>, second: seq<ExerciseStep>, ringOf: seq<T>)
    requires StepsInRange(first, |stacks|, |ringOf|) && StepsInRange(second, |stacks|, |ringOf|)
    ensures StepsInRange(first + second, |stacks|, |ringOf|)
    ensures Replay(stacks, first + second, ringOf) == Replay(Replay(stacks, first, ringOf), second, ringOf)
    decreases |second|
  {
    if second == [] {
      assert first + second == first;
    } else {
      var init := second[..|second| - 1];
      var s := second[|second| - 1];
      var all := first + second;
      assert StepsInRange(init, |stacks|, |ringOf|) by {
        forall k | 0 <= k < |init| ensures init[k] == second[k] { }
      }
      ReplayAppend(stacks, first, init, ringOf);
      assert StepsInRange(all, |stacks|, |ringOf|) by {
        forall k | 0 <= k < |all| ensures all[k] == if k < |first| then first[k] else second[k - |first|] { }
      }
      assert all == (first + init) + [s] && second == init + [s];
      ReplaySnoc(stacks, first + init, s, ringOf);
      ReplaySnoc(Replay(stacks, first, ringOf), init, s, ringOf);
    }
  }
}
