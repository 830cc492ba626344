/**
 * The two fields of a scene ring that the puzzle logic reads: the pin it rests on (or last
 * rested on, while it is held) and its size indicator. The size indicator is written once,
 * right after the ring is instantiated, and never again, so it is a constant given to the
 * constructor. Everything else about a scene ring (sprites, input, animation) is not part of
 * this model.
 */
module SelectableRings {

  class SelectableRing {
    var pin: int
    const sizeIndicator: int

    constructor (sizeIndicator: int)
      ensures this.sizeIndicator == sizeIndicator && pin == 0
    {
      this.sizeIndicator := sizeIndicator;
      pin := 0;
    }
  }

}
