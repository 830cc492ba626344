/**
 * Pin: one of the pegs of the live game. Its rings form a stack, bottom first.
 */
module Pins {

  import opened Wrappers
  import opened SelectableRings

  class Pin {
    var ringsStack: seq<SelectableRing>
    var index: int

    constructor (pinIndex: int)
      ensures IsEmpty() && index == pinIndex
    {
      ringsStack := [];
      index := pinIndex;
    }

    method RingPush(ring: SelectableRing)
      modifies this`ringsStack
      ensures ringsStack == old(ringsStack) + [ring]
      ensures RingPeek() == Some(ring) && RingCount() == old(RingCount()) + 1
    {
      ringsStack := ringsStack + [ring];
    }

    /** Removes and returns the top ring; None, with nothing changed, on an empty pin. */
    method RingPop() returns (ring: Option<SelectableRing>)
      modifies this`ringsStack
      ensures ring == old(RingPeek())
      ensures old(IsEmpty()) ==> ringsStack == []
      ensures !old(IsEmpty()) ==> ringsStack + [ring.value] == old(ringsStack)
    {
      if |ringsStack| > 0 {
        ring := Some(ringsStack[|ringsStack| - 1]);
        ringsStack := ringsStack[..|ringsStack| - 1];
      } else {
        ring := None;
      }
    }

    /** The top ring, without removing it. */
    function RingPeek(): (top: Option<SelectableRing>)
      reads this
      ensures top.None? <==> IsEmpty()
      ensures top.Some? ==> top.value in ringsStack && ringsStack[RingCount() - 1] == top.value
    {
      if |ringsStack| > 0 then Some(ringsStack[|ringsStack| - 1]) else None
    }

    method RingClear()
      modifies this`ringsStack
      ensures IsEmpty()
    {
      ringsStack := [];
    }

    predicate IsEmpty()
      reads this
    {
      |ringsStack| == 0
    }

    function RingCount(): (count: nat)
      reads this
      ensures count == 0 <==> IsEmpty()
    {
      |ringsStack|
    }
  }

  /** Pushing a ring and popping at once hands the same ring back and leaves the pin as it was. */
  method PushThenPop(pin: Pin, ring: SelectableRing) returns (popped: Option<SelectableRing>)
    modifies pin`ringsStack
    ensures popped == Some(ring) && pin.ringsStack == old(pin.ringsStack)
  {
    pin.RingPush(ring);
    popped := pin.RingPop();
    assert pin.ringsStack + [ring] == old(pin.ringsStack) + [ring];
    assert pin.ringsStack == (pin.ringsStack + [ring])[..|pin.ringsStack|];
  }

}
