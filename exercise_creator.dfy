/**
 * ExerciseCreator: sets up the live game. It hands the scene's pins and rings to the exercise
 * manager and stacks every ring on the starter pin, the first ring of its list on top; it can
 * restack them on another pin for a new round, and it can make the rings itself, one per size
 * from 1 up. Before stacking the scene's own rings it sorts them by size with QuickSortMethod;
 * the model sorts with the corrected sort, and shows what the sort as written would start the
 * game with.
 *
 * Sprites, colours, scales, the on-screen placement of the rings and the highlighting of the
 * starter pin are not part of this model.
 */
module ExerciseCreators {

  import opened Wrappers
  import opened SelectableRings
  import opened Pins
  import opened ExerciseManagers
  import opened RingSorts

  /** No element is listed twice. */
  ghost predicate Distinct<T>(s: seq<T>)
  {
    forall i, j | 0 <= i < j < |s| :: s[i] != s[j]
  }

  /** The rings from the last to the first: the order the creator pushes them in, so that the
      first ring of the list ends on top. */
  function Reversed(s: seq<SelectableRing>): (r: seq<SelectableRing>)
    ensures |r| == |s|
    ensures forall i | 0 <= i < |s| :: r[i] == s[|s| - 1 - i]
  {
    if s == [] then [] else Reversed(s[1..]) + [s[0]]
  }

  /** Reversing keeps exactly the rings it was given. */
  lemma ReversedHolds(s: seq<SelectableRing>, x: SelectableRing)
    ensures x in Reversed(s) <==> x in s
  {
    if x in s {
      var i :| 0 <= i < |s| && s[i] == x;
      assert Reversed(s)[|s| - 1 - i] == x;
    }
    if x in Reversed(s) {
      var k :| 0 <= k < |s| && Reversed(s)[k] == x;
      assert s[|s| - 1 - k] == x;
    }
  }

  /** A list without repeats reversed has no repeats. */
  lemma ReversedDistinct(s: seq<SelectableRing>)
    requires Distinct(s)
    ensures Distinct(Reversed(s))
  {
    var r := Reversed(s);
    forall i, j | 0 <= i < j < |r|
      ensures r[i] != r[j]
    {
      assert r[i] == s[|s| - 1 - i] && r[j] == s[|s| - 1 - j];
    }
  }

  /** The rings in ascending size order, stacked last first, make a stack whose rings each sit
      on one no smaller: an empty pin given the sorted rings is in the order the game keeps. */
  lemma SortedStacksInOrder(stacks: seq<seq<SelectableRing>>, rings: seq<SelectableRing>)
    requires |stacks| > 0 && stacks[0] == [] && Ordered(stacks) && SortedBySize(rings)
    ensures Ordered(StackedOn(stacks, 0, rings))
  {
    var r := Reversed(rings);
    assert stacks[0] + r == r;
    var t: seq<seq<SelectableRing>> := StackedOn(stacks, 0, rings);
    var n := |rings|;
    forall p, k | 0 <= p < |t| && 0 < k < |t[p]|
      ensures t[p][k - 1].sizeIndicator >= t[p][k].sizeIndicator
    {
      if p == 0 {
        assert r[k - 1] == rings[n - k] && r[k] == rings[n - 1 - k];
      }
    }
  }

  /** The sort as written starts a game of three rings of sizes 3, 1, 2 with the ring of size 2
      on the ring of size 1: a stack the game's own drop rule would never allow. */
  lemma AsWrittenStartsOutOfOrder(x: SelectableRing, y: SelectableRing, z: SelectableRing)
    requires x.sizeIndicator == 3 && y.sizeIndicator == 1 && z.sizeIndicator == 2
    ensures QuickSortAsWritten([x, y, z], 0, 3).Some?
    ensures !Ordered([Reversed(QuickSortAsWritten([x, y, z], 0, 3).value)])
  {
    ThreeRingsMisordered(x, y, z);
    var r := Reversed([z, y, x]);
    assert r[1] == y && r[2] == z;
    assert !([r][0][1].sizeIndicator >= [r][0][2].sizeIndicator);
  }

  /** A permutation of a list without repeats has none: the same ring twice in t would count
      twice in s. */
  lemma PermutedDistinct(s: seq<SelectableRing>, t: seq<SelectableRing>)
    requires multiset(s) == multiset(t) && Distinct(s)
    ensures Distinct(t)
  {
    forall i, j | 0 <= i < j < |t|
      ensures t[i] != t[j]
    {
      if t[i] == t[j] {
        assert t == t[..j] + [t[j]] + t[j + 1..];
        assert t[i] in multiset(t[..j]);
        assert multiset(t)[t[j]] >= 2;
        DistinctCount(s, t[j]);
      }
    }
  }

  /** In a list without repeats every ring counts once at most. */
  lemma {:induction false} DistinctCount(s: seq<SelectableRing>, x: SelectableRing)
    requires Distinct(s)
    ensures multiset(s)[x] <= 1
  {
    if s != [] {
      var n := |s| - 1;
      assert s == s[..n] + [s[n]];
      assert Distinct(s[..n]);
      DistinctCount(s[..n], x);
      if s[n] == x {
        assert x !in s[..n];
      }
    }
  }

  /** Pushing the next ring, going from the last ring to the first, on the pin that holds the
      rings after it reversed gives the pin the rings from that one on, reversed. */
  lemma PushedReversed(s: seq<seq<SelectableRing>>, p: nat, rings: seq<SelectableRing>, i: int)
    requires p < |s| && 0 <= i < |rings|
    ensures Pushed(StackedOn(s, p, rings[i + 1..]), p, rings[i]) == StackedOn(s, p, rings[i..])
  {
    var x := rings[i];
    var before := s[p] + Reversed(rings[i + 1..]);
    assert rings[i..][1..] == rings[i + 1..];
    assert Reversed(rings[i..]) == Reversed(rings[i + 1..]) + [x];
    assert before + [x] == s[p] + Reversed(rings[i..]);
    assert Pushed(s[p := before], p, x) == s[p := before][p := before + [x]];
    assert s[p := before][p := before + [x]] == s[p := before + [x]];
  }

  /** The stacks s with the rings added on pin p, the last ring first: the first ring of the
      list ends on top. */
  ghost function StackedOn(s: seq<seq<SelectableRing>>, p: nat, rings: seq<SelectableRing>): seq<seq<SelectableRing>>
    requires p < |s|
  {
    s[p := s[p] + Reversed(rings)]
  }

  /** The pins of a manager that shows the stacks s hold exactly s. */
  lemma ShownStacks(m: ExerciseManager, s: seq<seq<SelectableRing>>)
    requires m.Shows(s)
    ensures Stacks(m.pins) == s
  {
  }

  /** The pins' stacks, in pin order. */
  ghost function Stacks(ps: seq<Pin>): seq<seq<SelectableRing>>
    reads ps
  {
    seq(|ps|, i requires 0 <= i < |ps| reads ps => ps[i].ringsStack)
  }

  class ExerciseCreator {
    const manager: ExerciseManager
    var rings: seq<SelectableRing>
    const pins: seq<Pin>
    const createExerciseDynamically: bool
    const ringCount: int

    constructor (manager: ExerciseManager, rings: seq<SelectableRing>, pins: seq<Pin>, dynamically: bool, ringCount: int)
      ensures this.manager == manager && this.rings == rings && this.pins == pins
      ensures createExerciseDynamically == dynamically && this.ringCount == ringCount
    {
      this.manager := manager;
      this.rings := rings;
      this.pins := pins;
      createExerciseDynamically := dynamically;
      this.ringCount := ringCount;
    }

    /** Start: the scene's rings are sorted by size and stacked on pin 0, or, for a dynamic
        exercise, ringCount new rings of sizes 1 up to ringCount are; then the game starts.
        When pin 0 starts empty and the pins are in order, so is the starting stack. */
    method Start()
      requires |pins| > 0 && Distinct(pins) && manager.pins == [] && manager.rings == []
      requires !createExerciseDynamically ==> Distinct(rings)
      modifies this`rings, manager, pins`index, pins`ringsStack, rings`pin
      ensures manager.isStarted && !manager.isExerciseCompleted && manager.movesCount == 0
      ensures manager.Valid() && manager.pins == pins && manager.starterPin == 0
      ensures manager.rings == Reversed(rings) && SortedBySize(rings)
      ensures manager.Shows(StackedOn(old(Stacks(pins)), 0, rings))
      ensures !createExerciseDynamically ==> multiset(rings) == multiset(old(rings))
      ensures createExerciseDynamically ==> |rings| == (if ringCount < 0 then 0 else ringCount)
      ensures createExerciseDynamically ==> forall i | 0 <= i < |rings| :: rings[i].sizeIndicator == i + 1
      ensures old(Ordered(Stacks(pins)) && pins[0].ringsStack == []) ==> Ordered(Stacks(manager.pins))
    {
      ghost var s0 := Stacks(pins);
      if !createExerciseDynamically {
        SortAndCreate();
      } else {
        CreateDynamicExercise();
      }
      manager.StartGame();
      if s0[0] == [] && Ordered(s0) {
        assert Ordered(Stacks(manager.pins)) by {
          SortedStacksInOrder(s0, rings);
          ShownStacks(manager, StackedOn(s0, 0, rings));
        }
      }
    }

    /** The branch of Start for the scene's own rings: sort them, then createExcercise. */
    method SortAndCreate()
      requires |pins| > 0 && Distinct(pins) && manager.pins == [] && manager.rings == [] && Distinct(rings)
      modifies this`rings, manager`pins, manager`rings, manager`starterPin, pins`index, pins`ringsStack, rings`pin
      ensures manager.Valid() && manager.pins == pins && manager.starterPin == 0
      ensures manager.rings == Reversed(rings) && SortedBySize(rings)
      ensures manager.Shows(StackedOn(old(Stacks(pins)), 0, rings))
      ensures multiset(rings) == multiset(old(rings))
    {
      SortRings();
      CreateExercise();
    }

    /** The sort Start applies to the scene's rings, on a copy of the list in an array. */
    method SortRings()
      requires Distinct(rings)
      modifies this`rings
      ensures SortedBySize(rings) && multiset(rings) == multiset(old(rings)) && Distinct(rings)
      ensures forall i | 0 <= i < |rings| :: rings[i] in old(rings)
    {
      var a := new SelectableRing[|rings|](i requires 0 <= i < |rings| reads this => rings[i]);
      assert a[..] == rings;
      SortBySize(a, 0, a.Length);
      assert a[..][0..a.Length] == a[..] && old(rings)[0..a.Length] == old(rings);
      rings := a[..];
      PermutedDistinct(old(rings), rings);
      forall i | 0 <= i < |rings|
        ensures rings[i] in old(rings)
      {
        assert rings[i] in multiset(rings);
      }
    }

    /** createAndStart. */
    method CreateAndStart()
      requires |pins| > 0 && Distinct(pins) && Distinct(rings) && manager.pins == [] && manager.rings == []
      modifies manager, pins`index, pins`ringsStack, rings`pin
      ensures manager.isStarted && manager.movesCount == 0
      ensures manager.Valid() && manager.pins == pins && manager.rings == Reversed(rings) && manager.starterPin == 0
      ensures manager.Shows(StackedOn(old(Stacks(pins)), 0, rings))
    {
      CreateExercise();
      manager.StartGame();
    }

    /** resetAndStart, with the starter pin drawn by the caller. */
    method ResetAndStart(starter: int)
      requires manager.Valid() && manager.pins == pins && 0 <= starter < |pins| && starter != manager.starterPin
      modifies manager, pins`ringsStack, rings`pin
      ensures manager.isStarted && manager.movesCount == 0 && manager.starterPin == starter
      ensures manager.Shows(seq(|pins|, _ => [])[starter := Reversed(rings)])
      ensures forall r | r in rings :: r.pin == starter
    {
      ResetExercise(starter);
      manager.StartGame();
    }

    /** createExcercise: every pin goes to the manager, in order, then every ring, last first,
        each pushed on pin 0, which becomes the starter pin. */
    method CreateExercise()
      requires |pins| > 0 && Distinct(pins) && Distinct(rings) && manager.pins == [] && manager.rings == []
      modifies manager`pins, manager`rings, manager`starterPin, pins`index, pins`ringsStack, rings`pin
      ensures manager.Valid() && manager.pins == pins && manager.rings == Reversed(rings)
      ensures manager.Shows(StackedOn(old(Stacks(pins)), 0, rings))
      ensures manager.starterPin == 0 && forall r | r in rings :: r.pin == 0
    {
      ghost var s := Stacks(pins);
      AddPins();
      AddRings(s);
      manager.starterPin := 0;
    }

    /** The first loop of createExcercise. */
    method AddPins()
      requires Distinct(pins) && manager.pins == [] && manager.Valid()
      modifies manager`pins, pins`index
      ensures manager.pins == pins && manager.Valid()
    {
      var i := 0;
      while i < |pins|
        invariant 0 <= i <= |pins| && manager.pins == pins[..i] && manager.Valid()
      {
        manager.AddPinReference(pins[i]);
        assert pins[..i + 1] == pins[..i] + [pins[i]];
        i := i + 1;
      }
    }

    /** The rings after index i are stacked, last first, on pin p over the stack s[p], and
        know they are on pin p. */
    ghost predicate RingsOn(s: seq<seq<SelectableRing>>, p: nat, i: int)
      reads this, manager`pins, manager.pins, rings
    {
      && -1 <= i < |rings| && p < |s|
      && manager.Shows(StackedOn(s, p, rings[i + 1..]))
      && forall j | i < j < |rings| :: rings[j].pin == p
    }

    /** What the second loop of createExcercise keeps: the rings after index i are with the
        manager, last first, and stacked on pin 0. */
    ghost predicate RingsAdded(s: seq<seq<SelectableRing>>, i: int)
      reads this, manager, manager.pins, rings
    {
      RingsOn(s, 0, i) && manager.Valid() && manager.rings == Reversed(rings[i + 1..])
    }

    /** The second loop of createExcercise: from the last ring to the first, each is handed to
        the manager and pushed on pin 0. */
    method AddRings(ghost s: seq<seq<SelectableRing>>)
      requires manager.Valid() && manager.Shows(s) && |manager.pins| > 0 && manager.rings == [] && Distinct(rings)
      modifies manager`rings, manager.pins`ringsStack, rings`pin
      ensures manager.Valid() && manager.rings == Reversed(rings)
      ensures manager.Shows(StackedOn(s, 0, rings))
      ensures forall r | r in rings :: r.pin == 0
    {
      var i := |rings| - 1;
      assert s[0] + Reversed(rings[i + 1..]) == s[0];
      assert StackedOn(s, 0, rings[i + 1..]) == s;
      while i >= 0
        invariant RingsAdded(s, i) && manager.pins == old(manager.pins)
      {
        AddRing(s, i);
        i := i - 1;
      }
      assert rings[0..] == rings;
    }

    /** One turn of the second loop of createExcercise. */
    method AddRing(ghost s: seq<seq<SelectableRing>>, i: int)
      requires RingsAdded(s, i) && 0 <= i && Distinct(rings)
      modifies manager`rings, manager.pins`ringsStack, rings`pin
      ensures RingsAdded(s, i - 1) && manager.pins == old(manager.pins)
    {
      ReversedHolds(rings[i + 1..], rings[i]);
      manager.AddRingReference(rings[i]);
      assert rings[i..][1..] == rings[i + 1..];
      assert manager.rings == Reversed(rings[i..]);
      PushRing(s, 0, i);
    }

    /** resetExercise, with the starter pin drawn by the caller where the scene draws it at
        random until it differs from the current one: every pin is emptied, then every ring,
        last first, is pushed on the new starter pin. */
    method ResetExercise(starter: int)
      requires manager.Valid() && manager.pins == pins && 0 <= starter < |pins| && starter != manager.starterPin
      modifies manager`starterPin, pins`ringsStack, rings`pin
      ensures manager.Valid() && manager.pins == pins && manager.starterPin == starter
      ensures manager.Shows(seq(|pins|, _ => [])[starter := Reversed(rings)])
      ensures forall r | r in rings :: r.pin == starter
    {
      ClearPins();
      ghost var empty: seq<seq<SelectableRing>> := seq(|pins|, _ => []);
      PushRings(starter, empty);
      assert empty[starter] + Reversed(rings) == Reversed(rings);
      manager.starterPin := starter;
    }

    /** The ringClear loop of resetExercise. */
    method ClearPins()
      requires manager.Valid()
      modifies manager.pins`ringsStack
      ensures manager.Shows(seq(|manager.pins|, _ => []))
    {
      var i := 0;
      while i < |manager.pins|
        invariant 0 <= i <= |manager.pins|
        invariant forall j | 0 <= j < i :: manager.pins[j].ringsStack == []
      {
        manager.pins[i].RingClear();
        i := i + 1;
      }
    }

    /** The push loop of resetExercise. */
    method PushRings(starter: int, ghost s: seq<seq<SelectableRing>>)
      requires manager.Valid() && manager.Shows(s) && 0 <= starter < |manager.pins|
      modifies manager.pins`ringsStack, rings`pin
      ensures manager.Shows(StackedOn(s, starter, rings))
      ensures forall r | r in rings :: r.pin == starter
    {
      var i := |rings| - 1;
      assert s[starter] + Reversed(rings[i + 1..]) == s[starter];
      assert StackedOn(s, starter, rings[i + 1..]) == s;
      while i >= 0
        invariant RingsOn(s, starter, i) && manager.Valid() && manager.pins == old(manager.pins)
      {
        PushRing(s, starter, i);
        i := i - 1;
      }
      assert rings[0..] == rings;
    }

    /** One turn of the push loop of resetExercise. */
    method PushRing(ghost s: seq<seq<SelectableRing>>, p: nat, i: int)
      requires RingsOn(s, p, i) && manager.Valid() && 0 <= i && p < |manager.pins|
      modifies manager.pins`ringsStack, rings`pin
      ensures RingsOn(s, p, i - 1)
    {
      manager.AddRingToPin(rings[i], p, StackedOn(s, p, rings[i + 1..]));
      PushedReversed(s, p, rings, i);
      forall j | i <= j < |rings|
        ensures rings[j].pin == p
      {
        if rings[j] != rings[i] {
          assert rings[j].pin == old(rings[j].pin);
        }
      }
    }

    /** createDynamicExercise: ringCount new rings, the i-th made with size ringCount - i and
        put in front of the list, so that the list runs from size 1 up; then createExcercise. */
    method CreateDynamicExercise()
      requires |pins| > 0 && Distinct(pins) && manager.pins == [] && manager.rings == []
      modifies this`rings, manager`pins, manager`rings, manager`starterPin, pins`index, pins`ringsStack
      ensures |rings| == (if ringCount < 0 then 0 else ringCount)
      ensures forall i | 0 <= i < |rings| :: rings[i].sizeIndicator == i + 1
      ensures manager.Valid() && manager.pins == pins && manager.rings == Reversed(rings)
      ensures manager.Shows(StackedOn(old(Stacks(pins)), 0, rings))
      ensures manager.starterPin == 0 && forall r | r in rings :: r.pin == 0
    {
      rings := [];
      var i := 0;
      while i < ringCount
        invariant 0 <= i <= (if ringCount < 0 then 0 else ringCount) && |rings| == i
        invariant forall k | 0 <= k < i :: rings[k].sizeIndicator == ringCount - i + 1 + k
        invariant forall k | 0 <= k < i :: fresh(rings[k])
        invariant Distinct(rings)
        invariant Stacks(pins) == old(Stacks(pins)) && manager.pins == [] && manager.rings == []
      {
        var ring := new SelectableRing(ringCount - i);
        rings := [ring] + rings;
        i := i + 1;
      }
      CreateExercise();
    }
  }

}
