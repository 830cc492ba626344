/**
 * PinNode: the solver's private copy of a pin. Its stack holds ring indices (positions in the
 * solver's ring list), bottom first.
 */
module PinNodes {

  import opened Wrappers
  import opened Pins
  import RingNodes

  /** Position of the lowest ring of `stack` whose solved flag is off, or |stack| when every ring
      on the stack is solved. */
  function FirstUnsolvedAt(stack: seq<nat>, solved: seq<bool>): (k: nat)
    requires forall j | 0 <= j < |stack| :: stack[j] < |solved|
    ensures k <= |stack|
    ensures forall j | 0 <= j < k :: solved[stack[j]]
    ensures k < |stack| ==> !solved[stack[k]]
  {
    if stack == [] then 0
    else if !solved[stack[0]] then 0
    else 1 + FirstUnsolvedAt(stack[1..], solved)
  }

  /** The lowest unsolved ring of `stack`, or None when all of them are solved. */
  function FirstUnsolved(stack: seq<nat>, solved: seq<bool>): Option<nat>
    requires forall j | 0 <= j < |stack| :: stack[j] < |solved|
  {
    var k := FirstUnsolvedAt(stack, solved);
    if k < |stack| then Some(stack[k]) else None
  }

  class PinNode {
    const pinReference: Pin
    var ringStack: seq<nat>
    var index: int

    constructor (reference: Pin)
      ensures pinReference == reference && IsEmpty() && index == 0
    {
      pinReference := reference;
      ringStack := [];
      index := 0;
    }

    method RingPush(ring: nat)
      modifies this`ringStack
      ensures ringStack == old(ringStack) + [ring]
      ensures RingPeek() == Some(ring) && RingCount() == old(RingCount()) + 1
    {
      ringStack := ringStack + [ring];
    }

    /** Removes and returns the top ring; None, with nothing changed, on an empty pin. */
    method RingPop() returns (ring: Option<nat>)
      modifies this`ringStack
      ensures ring == old(RingPeek())
      ensures old(IsEmpty()) ==> ringStack == []
      ensures !old(IsEmpty()) ==> ringStack + [ring.value] == old(ringStack)
    {
      if |ringStack| > 0 {
        ring := Some(ringStack[|ringStack| - 1]);
        ringStack := ringStack[..|ringStack| - 1];
      } else {
        ring := None;
      }
    }

    /** The top ring, without removing it. */
    function RingPeek(): (top: Option<nat>)
      reads this
      ensures top.None? <==> IsEmpty()
      ensures top.Some? ==> top.value in ringStack && RingAt(RingCount() - 1) == top.value
    {
      if |ringStack| > 0 then Some(ringStack[|ringStack| - 1]) else None
    }

    /** The ring at height k, counted from the bottom. */
    function RingAt(k: int): (ring: nat)
      reads this
      requires 0 <= k < RingCount()
      ensures ring == ringStack[k]
      ensures ring in ringStack
    {
      ringStack[k]
    }

    /** Scans the stack from the bottom for the first ring that is not solved yet. */
    method GetFirstUnsolvedRing(rings: seq<RingNodes.RingNode>) returns (ring: Option<nat>)
      requires forall j | 0 <= j < |ringStack| :: ringStack[j] < |rings|
      ensures ring == FirstUnsolved(ringStack, RingNodes.SolvedFlags(rings))
      ensures ring.None? <==> forall j | 0 <= j < |ringStack| :: rings[ringStack[j]].isSolved
    {
      ghost var flags := RingNodes.SolvedFlags(rings);
      var i := 0;
      while i < |ringStack|
        invariant 0 <= i <= |ringStack|
        invariant forall j | 0 <= j < i :: flags[ringStack[j]]
      {
        var r := ringStack[i];
        if !rings[r].isSolved {
          assert i == FirstUnsolvedAt(ringStack, flags);
          return Some(r);
        }
        i := i + 1;
      }
      assert i == FirstUnsolvedAt(ringStack, flags);
      ring := None;
    }

    predicate IsEmpty()
      reads this
    {
      |ringStack| == 0
    }

    function RingCount(): (count: nat)
      reads this
      ensures count == 0 <==> IsEmpty()
    {
      |ringStack|
    }
  }

  /** Pushing a ring and popping at once hands the same ring back and leaves the pin as it was. */
  method PushThenPop(pin: PinNode, ring: nat) returns (popped: Option<nat>)
    modifies pin`ringStack
    ensures popped == Some(ring) && pin.ringStack == old(pin.ringStack)
  {
    pin.RingPush(ring);
    popped := pin.RingPop();
    assert pin.ringStack == (pin.ringStack + [ring])[..|pin.ringStack|];
  }

}
