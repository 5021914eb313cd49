/** The host editor's Region: two offsets into the buffer, in either order.
    begin() is the smaller of the two and end() the larger; a cursor is a
    Region whose two ends coincide. */
module Regions {

  function Min(x: int, y: int): int { if x <= y then x else y }

  function Max(x: int, y: int): int { if x <= y then y else x }

  datatype Region = Region(a: nat, b: nat) {

    function Begin(): nat { Min(a, b) }

    function End(): nat { Max(a, b) }

    predicate Empty() { a == b }
  }

  /** The Region the host adds for a bare point (`sel.add(point)`). */
  function Cursor(p: nat): (r: Region)
    ensures r.Empty() && r.Begin() == p && r.End() == p
  {
    Region(p, p)
  }

  /** Every selected region lies inside a buffer of `size` characters,
      as the host guarantees for the live selection. */
  predicate InBuffer(sels: seq<Region>, size: nat)
  {
    forall i :: 0 <= i < |sels| ==> sels[i].End() <= size
  }
}
