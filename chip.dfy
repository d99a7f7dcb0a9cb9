/** The marker a slot of the board holds (the `Chip` enum of GameBoard.swift). */
module Chips {

  /** An empty slot, or the marker of one of the two players. */
  datatype Chip = None | Red | Black {

    /** The integer raw value Swift assigns: `none = 0`, then 1 and 2 in declaration order. */
    function RawValue(): (v: int)
      ensures 0 <= v <= 2
      ensures v == 0 <==> this == None
    {
      match this
      case None => 0
      case Red => 1
      case Black => 2
    }
  }

  /** Distinct chips have distinct raw values, so a raw value names one chip. */
  lemma RawValueInjective(a: Chip, b: Chip)
    ensures a.RawValue() == b.RawValue() ==> a == b
  {
  }
}
