/**
 * ExerciseManager: the referee of the live game. It holds the scene's pins and rings, lets the
 * player lift only the top ring of a pin, accepts a drop on an empty pin or on a ring at least
 * as big, sends any other drop back to the pin the ring came from, counts the moves that change
 * pin, ends the game when a pin other than the starter pin holds every ring, and replays a
 * solver ledger move by move.
 *
 * Pins are named by their position in the manager's list where the scene names them by
 * instance id: a collision reports the position of the pin touched.
 */
module ExerciseManagers {

  import opened Wrappers
  import opened ExerciseSteps
  import opened SelectableRings
  import opened Pins

  /** The top ring of a non-empty stack. */
  function Top(s: seq<SelectableRing>): SelectableRing
    requires s != []
  {
    s[|s| - 1]
  }

  /** The game's drop rule: a pin takes a ring when it is empty or its top ring's size indicator
      is at least the ring's (at least, where the solver asks for strictly larger). */
  predicate Takes(s: seq<SelectableRing>, ring: SelectableRing)
  {
    s == [] || Top(s).sizeIndicator >= ring.sizeIndicator
  }

  /** On every pin each ring is no bigger than the ring under it: what the drop rule keeps. */
  predicate Ordered(stacks: seq<seq<SelectableRing>>)
  {
    forall p, k | 0 <= p < |stacks| && 0 < k < |stacks[p]| ::
      stacks[p][k - 1].sizeIndicator >= stacks[p][k].sizeIndicator
  }

  /** Ring is the top ring of pin p: the only ring the player may lift off it. */
  predicate OnTop(stacks: seq<seq<SelectableRing>>, p: nat, ring: SelectableRing)
    requires p < |stacks|
  {
    stacks[p] != [] && Top(stacks[p]) == ring
  }

  /** AddRingToPin on the stacks: the ring goes on top of pin p and no other pin changes. */
  function Pushed(stacks: seq<seq<SelectableRing>>, p: nat, ring: SelectableRing): (r: seq<seq<SelectableRing>>)
    requires p < |stacks|
    ensures |r| == |stacks| && OnTop(r, p, ring) && r[p][..|r[p]| - 1] == stacks[p]
    ensures forall q | 0 <= q < |stacks| && q != p :: r[q] == stacks[q]
  {
    var t := stacks[p] + [ring];
    assert t[..|t| - 1] == stacks[p];
    stacks[p := t]
  }

  /** A push adds exactly one copy of the ring to the game. */
  lemma PushedCount(stacks: seq<seq<SelectableRing>>, p: nat, ring: SelectableRing)
    requires p < |stacks|
    ensures AllRings(Pushed(stacks, p, ring)) == AllRings(stacks) + multiset{ring}
  {
    var t := stacks[p] + [ring];
    AllRingsUpdate(stacks, p, t);
    assert multiset(t) == multiset(stacks[p]) + multiset{ring};
    Cancel(AllRings(stacks[p := t]), AllRings(stacks) + multiset{ring}, multiset(stacks[p]));
  }

  /** A selection on the stacks: the top ring of pin p is lifted off; any other ring lifts
      nothing. Putting a lifted ring back on its pin undoes the lift. */
  function Picked(stacks: seq<seq<SelectableRing>>, p: nat, ring: SelectableRing): (r: seq<seq<SelectableRing>>)
    requires p < |stacks|
    ensures |r| == |stacks|
    ensures OnTop(stacks, p, ring) ==> Pushed(r, p, ring) == stacks
    ensures !OnTop(stacks, p, ring) ==> r == stacks
  {
    if OnTop(stacks, p, ring) then
      var r := stacks[p := Pop(stacks[p])];
      assert Pushed(r, p, ring)[p] == stacks[p];
      r
    else stacks
  }

  /** The drop of ring onto the collided pin target is accepted. */
  predicate Accepted(stacks: seq<seq<SelectableRing>>, ring: SelectableRing, target: int)
  {
    0 <= target < |stacks| && Takes(stacks[target], ring)
  }

  /** The pin a dropped ring comes to rest on, for a ring lifted from pin from: the collided pin
      when it takes the ring, otherwise the pin it came from; none when the collision names a pin
      the game does not have (the ring then stays in the air). */
  function Landing(stacks: seq<seq<SelectableRing>>, ring: SelectableRing, target: int, from: nat): (landing: Option<nat>)
    requires from < |stacks|
    ensures landing.None? <==> target != -1 && !(0 <= target < |stacks|)
    ensures landing.Some? ==> landing.value < |stacks|
    ensures landing.Some? && landing.value != from ==> landing.value == target && Takes(stacks[target], ring)
    ensures Accepted(stacks, ring, target) ==> landing == Some(target)
  {
    if target == -1 then Some(from)
    else if 0 <= target < |stacks| then (if Takes(stacks[target], ring) then Some(target) else Some(from))
    else None
  }

  /** The stacks after a drop: the ring on top of its landing pin. */
  function Dropped(stacks: seq<seq<SelectableRing>>, ring: SelectableRing, target: int, from: nat): seq<seq<SelectableRing>>
    requires from < |stacks|
  {
    match Landing(stacks, ring, target, from)
    case Some(l) => Pushed(stacks, l, ring)
    case None => stacks
  }

  /** Pin i, reached by a drop, ends the game: it is not the starter pin and holds every ring. */
  predicate Completes(stacks: seq<seq<SelectableRing>>, ringCount: nat, starter: int, i: nat)
    requires i < |stacks|
  {
    i != starter && |stacks[i]| == ringCount
  }

  /** The pin ring j was last sent to by a ledger, or start when no step moves it. */
  function LastTo(steps: seq<ExerciseStep>, j: nat, start: int): int
  {
    if steps == [] then start
    else if steps[|steps| - 1].ring == j then steps[|steps| - 1].to
    else LastTo(steps[..|steps| - 1], j, start)
  }

  /** Lifting the top ring of a pin and dropping it anywhere keeps every pin ordered: the
      collided pin takes it only on an empty pin or a ring at least as big, and a ring sent back
      lands on the ring it was lifted from. */
  lemma LiftAndDropKeepsOrder(stacks: seq<seq<SelectableRing>>, from: nat, ring: SelectableRing, target: int)
    requires from < |stacks| && OnTop(stacks, from, ring) && Ordered(stacks)
    ensures Ordered(Dropped(Picked(stacks, from, ring), ring, target, from))
  {
    var lifted: seq<seq<SelectableRing>> := Picked(stacks, from, ring);
    assert lifted == stacks[from := Pop(stacks[from])];
    assert Ordered(lifted) by {
      forall p, k | 0 <= p < |lifted| && 0 < k < |lifted[p]|
        ensures lifted[p][k - 1].sizeIndicator >= lifted[p][k].sizeIndicator
      {
        assert lifted[p][k - 1] == stacks[p][k - 1] && lifted[p][k] == stacks[p][k];
      }
    }
    var landing := Landing(lifted, ring, target, from);
    if landing.Some? {
      var l := landing.value;
      var r: seq<seq<SelectableRing>> := Pushed(lifted, l, ring);
      assert Takes(lifted[l], ring) by {
        if l == from && lifted[from] != [] {
          var n := |stacks[from]|;
          assert Top(lifted[from]) == stacks[from][n - 2];
          assert stacks[from][n - 1] == ring;
        }
      }
      forall p, k | 0 <= p < |r| && 0 < k < |r[p]|
        ensures r[p][k - 1].sizeIndicator >= r[p][k].sizeIndicator
      {
        if p == l && k == |r[p]| - 1 {
          assert r[p][k] == ring && r[p][k - 1] == Top(lifted[l]);
        } else if p == l {
          assert r[p][k - 1] == lifted[l][k - 1] && r[p][k] == lifted[l][k];
        }
      }
    }
  }

  /** A lift and a drop neither lose nor duplicate a ring when the ring lands; when the collision
      names no pin, the game holds every ring but the one in the air. */
  lemma LiftAndDropConserves(stacks: seq<seq<SelectableRing>>, from: nat, ring: SelectableRing, target: int)
    requires from < |stacks| && OnTop(stacks, from, ring)
    ensures var lifted := Picked(stacks, from, ring);
      && AllRings(lifted) + multiset{ring} == AllRings(stacks)
      && (Landing(lifted, ring, target, from).Some? ==> AllRings(Dropped(lifted, ring, target, from)) == AllRings(stacks))
      && (Landing(lifted, ring, target, from).None? ==> AllRings(Dropped(lifted, ring, target, from)) + multiset{ring} == AllRings(stacks))
  {
    var lifted: seq<seq<SelectableRing>> := Picked(stacks, from, ring);
    PushedCount(lifted, from, ring);
    assert Pushed(lifted, from, ring) == stacks;
    var landing := Landing(lifted, ring, target, from);
    if landing.Some? {
      PushedCount(lifted, landing.value, ring);
      assert Dropped(lifted, ring, target, from) == Pushed(lifted, landing.value, ring);
    } else {
      assert Dropped(lifted, ring, target, from) == lifted;
    }
  }

  /** A ring lifted and dropped with no collision, or back on its own pin, leaves the stacks
      exactly as they were. */
  lemma LiftAndDropInPlace(stacks: seq<seq<SelectableRing>>, from: nat, ring: SelectableRing, target: int)
    requires from < |stacks| && OnTop(stacks, from, ring) && (target == -1 || target == from)
    ensures Dropped(Picked(stacks, from, ring), ring, target, from) == stacks
  {
  }

  class ExerciseManager {
    var pins: seq<Pin>
    var rings: seq<SelectableRing>
    var starterPin: int
    var isStarted: bool
    var isExerciseCompleted: bool
    var lastPinWithCollision: int
    var aRingIsSelected: bool
    var movesCount: int

    constructor ()
      ensures pins == [] && rings == [] && !isStarted && !isExerciseCompleted && lastPinWithCollision == -1
    {
      pins := [];
      rings := [];
      starterPin := 0;
      isStarted := false;
      isExerciseCompleted := false;
      lastPinWithCollision := -1;
      aRingIsSelected := false;
      movesCount := 0;
    }

    /** Pin i knows it is pin i (so no pin is listed twice), and no ring is listed twice. */
    ghost predicate Valid()
      reads this`pins, pins`index, this`rings
    {
      && (forall i | 0 <= i < |pins| :: pins[i].index == i)
      && (forall i, j | 0 <= i < j < |rings| :: rings[i] != rings[j])
    }

    /** The pins hold the stacks s, bottom first, in pin order. */
    ghost predicate Shows(s: seq<seq<SelectableRing>>)
      reads this`pins, pins
    {
      |s| == |pins| && forall i | 0 <= i < |pins| :: pins[i].ringsStack == s[i]
    }

    /** StartGame, without its music and clock: the game opens with no move counted. */
    method StartGame()
      modifies this`isStarted, this`isExerciseCompleted, this`lastPinWithCollision, this`movesCount, this`aRingIsSelected
      ensures isStarted && !isExerciseCompleted && lastPinWithCollision == -1 && movesCount == 0 && !aRingIsSelected
    {
      isStarted := true;
      isExerciseCompleted := false;
      lastPinWithCollision := -1;
      movesCount := 0;
      aRingIsSelected := false;
    }

    /** AddRingReference, without the event wiring. */
    method AddRingReference(ring: SelectableRing)
      modifies this`rings
      ensures rings == old(rings) + [ring]
      ensures old(Valid()) && ring !in old(rings) ==> Valid()
    {
      rings := rings + [ring];
    }

    /** AddPinReference, without the event wiring: the pin is appended and told its position. */
    method AddPinReference(pin: Pin)
      modifies this`pins, pin`index
      ensures pins == old(pins) + [pin] && pin.index == |pins| - 1
      ensures old(Valid()) && pin !in old(pins) ==> Valid()
    {
      pins := pins + [pin];
      pin.index := |pins| - 1;
    }

    /** AddRingToPin: no check at all; the ring goes on top of the pin and remembers it. */
    method AddRingToPin(ring: SelectableRing, pinIndex: int, ghost s: seq<seq<SelectableRing>>)
      requires Valid() && Shows(s) && 0 <= pinIndex < |pins|
      modifies ring`pin, pins`ringsStack
      ensures ring.pin == pinIndex && Shows(Pushed(s, pinIndex, ring))
    {
      ring.pin := pinIndex;
      pins[pinIndex].RingPush(ring);
    }

    /** OnPinCollsion: while the game runs, a ring touching a pin makes it the drop target. */
    method OnPinCollision(pinId: int, isRing: bool)
      modifies this`lastPinWithCollision
      ensures lastPinWithCollision == if isStarted && isRing then pinId else old(lastPinWithCollision)
    {
      if !isStarted {
        return;
      }
      if isRing {
        lastPinWithCollision := pinId;
      }
    }

    /** OnPinCollsionLost: the drop target is forgotten only when it is the pin left. */
    method OnPinCollisionLost(pinId: int, isRing: bool)
      modifies this`lastPinWithCollision
      ensures lastPinWithCollision ==
        if isStarted && isRing && old(lastPinWithCollision) == pinId then -1 else old(lastPinWithCollision)
    {
      if !isStarted {
        return;
      }
      if isRing && lastPinWithCollision == pinId {
        lastPinWithCollision := -1;
      }
    }

    /** OnRingSelectionCanceled: a held ring goes back on the pin it came from. */
    method OnRingSelectionCanceled(ring: SelectableRing, ghost s: seq<seq<SelectableRing>>)
      requires Valid() && Shows(s) && (isStarted ==> 0 <= ring.pin < |pins|)
      modifies this`aRingIsSelected, ring`pin, pins`ringsStack
      ensures ring.pin == old(ring.pin)
      ensures !isStarted ==> aRingIsSelected == old(aRingIsSelected) && Shows(s)
      ensures isStarted ==> !aRingIsSelected && Shows(Pushed(s, ring.pin, ring))
    {
      if !isStarted {
        return;
      }
      aRingIsSelected := false;
      AddRingToPin(ring, ring.pin, s);
    }

    /** OnRingAskingToBeSelected: the ring's pin becomes the drop target, and only the top ring
        of the pin is lifted off it. (A ring on an empty pin would make the scene throw after
        the target is set; that leaves the same state as a refusal.) */
    method OnRingAskingToBeSelected(ring: SelectableRing, ghost s: seq<seq<SelectableRing>>)
      requires Valid() && Shows(s) && (isStarted ==> 0 <= ring.pin < |pins|)
      modifies this`lastPinWithCollision, this`aRingIsSelected, pins`ringsStack
      ensures !isStarted ==> lastPinWithCollision == old(lastPinWithCollision) && aRingIsSelected == old(aRingIsSelected)
      ensures !isStarted ==> Shows(s)
      ensures isStarted ==> lastPinWithCollision == ring.pin
      ensures isStarted ==> Shows(Picked(s, ring.pin, ring))
      ensures isStarted ==> aRingIsSelected == (old(aRingIsSelected) || OnTop(s, ring.pin, ring))
    {
      if !isStarted {
        return;
      }
      lastPinWithCollision := ring.pin;
      var pin := pins[ring.pin];
      if pin.RingPeek() == Some(ring) {
        var _ := pin.RingPop();
        aRingIsSelected := true;
      }
    }

    /** CheckIfExerciseIsCompleted: the game ends when the pin holds every ring. */
    method CheckIfExerciseIsCompleted(pinIndex: int)
      requires 0 <= pinIndex < |pins|
      modifies this`isExerciseCompleted, this`isStarted
      ensures var done := |pins[pinIndex].ringsStack| == |rings|;
        isExerciseCompleted == (old(isExerciseCompleted) || done) && isStarted == (old(isStarted) && !done)
    {
      if |pins[pinIndex].ringsStack| == |rings| {
        isExerciseCompleted := true;
        isStarted := false;
      }
    }

    /** OnRingDropped: the ring lands as Landing says, the move counts when the ring changes
        pin, and a landing on a pin other than the starter pin that then holds every ring ends
        the game. The scene's scan for the pin whose instance id is the target is, with pins
        named by position, the test that the target is a position of the list. */
    method OnRingDropped(ring: SelectableRing, ghost s: seq<seq<SelectableRing>>)
      requires Valid() && Shows(s) && (isStarted ==> 0 <= ring.pin < |pins|)
      modifies this`aRingIsSelected, this`movesCount, this`isStarted, this`isExerciseCompleted, ring`pin, pins`ringsStack
      ensures !old(isStarted) ==>
        && Shows(s) && ring.pin == old(ring.pin) && movesCount == old(movesCount)
        && aRingIsSelected == old(aRingIsSelected) && !isStarted && isExerciseCompleted == old(isExerciseCompleted)
      ensures old(isStarted) ==>
        var target := lastPinWithCollision;
        var landing := Landing(s, ring, target, old(ring.pin));
        var ends := Accepted(s, ring, target) && Completes(Dropped(s, ring, target, old(ring.pin)), |rings|, starterPin, target);
        && !aRingIsSelected
        && Shows(Dropped(s, ring, target, old(ring.pin)))
        && ring.pin == (if landing.Some? then landing.value else old(ring.pin))
        && movesCount == old(movesCount) + (if landing.Some? && landing.value != old(ring.pin) then 1 else 0)
        && isStarted == !ends && isExerciseCompleted == (old(isExerciseCompleted) || ends)
    {
      if !isStarted {
        return;
      }
      aRingIsSelected := false;
      Land(ring, s);
    }

    /** OnRingDropped once the game has started: the ring lands on the pin it last touched,
        or goes back to its own pin. */
    method Land(ring: SelectableRing, ghost s: seq<seq<SelectableRing>>)
      requires Valid() && Shows(s) && isStarted && 0 <= ring.pin < |pins|
      modifies this`movesCount, this`isStarted, this`isExerciseCompleted, ring`pin, pins`ringsStack
      ensures Shows(Dropped(s, ring, lastPinWithCollision, old(ring.pin)))
      ensures var landing := Landing(s, ring, lastPinWithCollision, old(ring.pin));
        ring.pin == (if landing.Some? then landing.value else old(ring.pin))
      ensures var landing := Landing(s, ring, lastPinWithCollision, old(ring.pin));
        movesCount == old(movesCount) + (if landing.Some? && landing.value != old(ring.pin) then 1 else 0)
      ensures var ends := Accepted(s, ring, lastPinWithCollision)
          && Completes(Dropped(s, ring, lastPinWithCollision, old(ring.pin)), |rings|, starterPin, lastPinWithCollision);
        isStarted == !ends && isExerciseCompleted == (old(isExerciseCompleted) || ends)
    {
      ghost var from: nat := ring.pin;
      if lastPinWithCollision != -1 {
        if 0 <= lastPinWithCollision < |pins| {
          LandOn(ring, lastPinWithCollision, s);
        } else {
          assert Landing(s, ring, lastPinWithCollision, from) == None;
        }
      } else {
        assert Landing(s, ring, -1, from) == Some(from);
        AddRingToPin(ring, ring.pin, s);
      }
    }

    /** The collision branch of OnRingDropped: pin i takes the ring when it is empty or its top
        ring is at least as large; otherwise the ring goes back to its own pin. */
    method LandOn(ring: SelectableRing, i: nat, ghost s: seq<seq<SelectableRing>>)
      requires Valid() && Shows(s) && isStarted && 0 <= ring.pin < |pins| && i < |pins|
      modifies this`movesCount, this`isStarted, this`isExerciseCompleted, ring`pin, pins`ringsStack
      ensures Shows(Dropped(s, ring, i, old(ring.pin)))
      ensures ring.pin == Landing(s, ring, i, old(ring.pin)).value
      ensures movesCount == old(movesCount) + (if ring.pin != old(ring.pin) then 1 else 0)
      ensures var ends := Accepted(s, ring, i) && Completes(Dropped(s, ring, i, old(ring.pin)), |rings|, starterPin, i);
        isStarted == !ends && isExerciseCompleted == (old(isExerciseCompleted) || ends)
    {
      ghost var from: nat := ring.pin;
      var top := pins[i].RingPeek();
      if pins[i].IsEmpty() || top.value.sizeIndicator >= ring.sizeIndicator {
        assert Landing(s, ring, i, from) == Some(i);
        DropOn(ring, i, s);
      } else {
        assert Landing(s, ring, i, from) == Some(from);
        AddRingToPin(ring, ring.pin, s);
      }
    }

    /** The accepted branch of OnRingDropped: count the move when the ring changes pin, put it on
        pin i, and check for completion unless i is the starter pin. */
    method DropOn(ring: SelectableRing, i: nat, ghost s: seq<seq<SelectableRing>>)
      requires Valid() && Shows(s) && i < |pins| && isStarted
      modifies this`movesCount, this`isStarted, this`isExerciseCompleted, ring`pin, pins`ringsStack
      ensures Shows(Pushed(s, i, ring)) && ring.pin == i
      ensures movesCount == old(movesCount) + (if old(ring.pin) != i then 1 else 0)
      ensures var ends := Completes(Pushed(s, i, ring), |rings|, starterPin, i);
        isStarted == !ends && isExerciseCompleted == (old(isExerciseCompleted) || ends)
    {
      if ring.pin != i {
        movesCount := movesCount + 1;
      }
      AddRingToPin(ring, i, s);
      if starterPin != i {
        CheckIfExerciseIsCompleted(i);
      }
    }

    /** A top ring lifted and dropped again with no collision in between goes back where it was,
        and no move is counted. */
    method LiftAndPutBack(ring: SelectableRing, ghost s: seq<seq<SelectableRing>>)
      requires Valid() && Shows(s) && isStarted && 0 <= ring.pin < |pins| && OnTop(s, ring.pin, ring)
      modifies this`lastPinWithCollision, this`aRingIsSelected, this`movesCount, this`isStarted,
        this`isExerciseCompleted, ring`pin, pins`ringsStack
      ensures Shows(s) && movesCount == old(movesCount) && ring.pin == old(ring.pin)
    {
      OnRingAskingToBeSelected(ring, s);
      OnRingDropped(ring, Picked(s, ring.pin, ring));
      LiftAndDropInPlace(s, ring.pin, ring, ring.pin);
    }

    /** One whole move of the player: lift the ring, touch pin target, drop. Every pin stays
        ordered, no ring is lost or duplicated, and the move counts exactly when the ring
        changes pin. */
    method PlayMove(ring: SelectableRing, target: nat, ghost s: seq<seq<SelectableRing>>)
      requires Valid() && Shows(s) && isStarted && 0 <= ring.pin < |pins| && OnTop(s, ring.pin, ring)
      requires target < |pins| && Ordered(s)
      modifies this`lastPinWithCollision, this`aRingIsSelected, this`movesCount, this`isStarted,
        this`isExerciseCompleted, ring`pin, pins`ringsStack
      ensures var after := Dropped(Picked(s, old(ring.pin), ring), ring, target, old(ring.pin));
        Shows(after) && Ordered(after) && AllRings(after) == AllRings(s)
      ensures ring.pin == (if Takes(Picked(s, old(ring.pin), ring)[target], ring) then target else old(ring.pin))
      ensures movesCount == old(movesCount) + (if ring.pin != old(ring.pin) then 1 else 0)
    {
      OnRingAskingToBeSelected(ring, s);
      OnPinCollision(target, true);
      OnRingDropped(ring, Picked(s, ring.pin, ring));
      LiftAndDropKeepsOrder(s, old(ring.pin), ring, target);
      LiftAndDropConserves(s, old(ring.pin), ring, target);
    }

    /** DoSteps, without its animation and waits: each step of the ledger pops its source pin,
        puts its ring on its destination pin and counts one move; then the destination of the
        last step is checked for completion. The ledger must not be empty, because the
        destination of its last step is read. */
    method DoSteps(steps: seq<ExerciseStep>, ghost s: seq<seq<SelectableRing>>)
      requires Valid() && Shows(s) && steps != [] && StepsInRange(steps, |pins|, |rings|)
      modifies pins`ringsStack, rings`pin, this`movesCount, this`isStarted, this`isExerciseCompleted
      ensures Shows(Replay(s, steps, rings))
      ensures movesCount == old(movesCount) + |steps|
      ensures forall j | 0 <= j < |rings| :: rings[j].pin == LastTo(steps, j, old(rings[j].pin))
      ensures var done := |Replay(s, steps, rings)[steps[|steps| - 1].to]| == |rings|;
        isExerciseCompleted == (old(isExerciseCompleted) || done) && isStarted == (old(isStarted) && !done)
    {
      ghost var rs := rings;
      ghost var ringPins := seq(|rs|, j requires 0 <= j < |rs| reads rs => rs[j].pin);
      ReplayAll(steps, s, ringPins);
      CheckIfExerciseIsCompleted(pins[steps[|steps| - 1].to].index);
    }

    /** The loop of DoSteps: every step of the ledger, one move each. */
    method ReplayAll(steps: seq<ExerciseStep>, ghost s: seq<seq<SelectableRing>>, ghost ringPins: seq<int>)
      requires Valid() && Shows(s) && StepsInRange(steps, |pins|, |rings|)
      requires |ringPins| == |rings| && forall j | 0 <= j < |rings| :: rings[j].pin == ringPins[j]
      modifies pins`ringsStack, rings`pin, this`movesCount
      ensures Replayed(s, steps, ringPins)
      ensures movesCount == old(movesCount) + |steps|
    {
      assert Replayed(s, [], ringPins);
      var k := 0;
      while k < |steps|
        invariant 0 <= k <= |steps| && Valid()
        invariant Replayed(s, steps[..k], ringPins)
        invariant movesCount == old(movesCount) + k
      {
        var step := steps[k];
        assert step.from < |pins| && step.to < |pins| && step.ring < |rings|;
        ReplayOne(step, steps[..k], s, ringPins);
        movesCount := movesCount + 1;
        assert steps[..k + 1] == steps[..k] + [steps[k]];
        k := k + 1;
      }
      assert steps[..k] == steps;
    }

    /** The pins show the ledger done replayed on the stacks start, and each ring remembers the
        pin the ledger last sent it to (ringPins[j] when none did). */
    ghost predicate Replayed(start: seq<seq<SelectableRing>>, done: seq<ExerciseStep>, ringPins: seq<int>)
      reads this`pins, pins, this`rings, rings
    {
      && |start| == |pins| && |ringPins| == |rings| && StepsInRange(done, |pins|, |rings|)
      && Shows(Replay(start, done, rings))
      && forall j | 0 <= j < |rings| :: rings[j].pin == LastTo(done, j, ringPins[j])
    }

    /** One step of DoSteps, after the steps done: pop the source pin, put the ring on the
        destination pin. */
    method ReplayOne(step: ExerciseStep, ghost done: seq<ExerciseStep>, ghost start: seq<seq<SelectableRing>>, ghost ringPins: seq<int>)
      requires Valid() && step.from < |pins| && step.to < |pins| && step.ring < |rings|
      requires Replayed(start, done, ringPins)
      modifies pins`ringsStack, rings`pin
      ensures Replayed(start, done + [step], ringPins)
    {
      ghost var before := Replay(start, done, rings);
      var ring := rings[step.ring];
      PopPin(step.from, before);
      AddRingToPin(ring, pins[step.to].index, before[step.from := Pop(before[step.from])]);
      ReplaySnoc(start, done, step, rings);
      forall j | 0 <= j < |rings|
        ensures rings[j].pin == LastTo(done + [step], j, ringPins[j])
      {
        assert (done + [step])[..|done|] == done;
      }
    }

    /** The pop of DoSteps: the source pin loses its top ring, if it has one. */
    method PopPin(p: nat, ghost s: seq<seq<SelectableRing>>)
      requires Valid() && Shows(s) && p < |pins|
      modifies pins`ringsStack
      ensures Shows(s[p := Pop(s[p])])
    {
      var _ := pins[p].RingPop();
    }
  }
}
