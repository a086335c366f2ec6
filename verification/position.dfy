/**
 A grid position together with the cost of the cell it names.  Equality and
 the ordering look at the coordinates only, so two discoveries of the same
 cell with different costs are the same key in the engine's sets.
 */
module Positions {
  import opened Grid

  datatype Position = Position(x: nat, y: nat, cost: int)

  /** The coordinates a position is keyed by. */
  function Key(p: Position): Coord
  {
    (p.x, p.y)
  }

  /**
   operator==: compares x and y, never the cost.  It agrees with the
   equivalence std::set derives from operator< (neither is less than the
   other), so the engine's sets of positions are sets of coordinates.
   */
  function Eq(a: Position, b: Position): (r: bool)
    ensures r <==> !Less(a, b) && !Less(b, a)
    ensures r <==> Key(a) == Key(b)
  {
    a.x == b.x && a.y == b.y
  }

  function Ne(a: Position, b: Position): (r: bool)
    ensures r <==> Key(a) != Key(b)
  {
    !Eq(a, b)
  }

  /** operator<: x first, y to break ties. */
  function Less(a: Position, b: Position): (r: bool)
    ensures r <==> a.x < b.x || (a.x == b.x && a.y < b.y)
  {
    if a.x < b.x then true
    else if b.x < a.x then false
    else a.y < b.y
  }

  function LessEq(a: Position, b: Position): (r: bool)
    ensures r <==> Less(a, b) || Eq(a, b)
  {
    !Less(b, a)
  }

  function Greater(a: Position, b: Position): (r: bool)
    ensures r <==> Less(b, a)
    ensures r ==> !Less(a, b) && !Eq(a, b)
  {
    Less(b, a)
  }

  function GreaterEq(a: Position, b: Position): (r: bool)
    ensures r <==> Greater(a, b) || Eq(a, b)
  {
    !Less(a, b)
  }

  /** Less is a strict total order on coordinates: exactly one of a < b, a == b, b < a holds. */
  lemma LessIsStrictTotalOrder(a: Position, b: Position, c: Position)
    ensures !Less(a, a)
    ensures Less(a, b) && Less(b, c) ==> Less(a, c)
    ensures Less(a, b) ==> !Less(b, a)
    ensures (Less(a, b) && !Eq(a, b) && !Less(b, a))
         || (!Less(a, b) && Eq(a, b) && !Less(b, a))
         || (!Less(a, b) && !Eq(a, b) && Less(b, a))
  {
  }

  /** Changing only the cost changes neither equality nor order. */
  lemma CostIsIgnored(a: Position, b: Position, c: int)
    ensures Eq(a.(cost := c), b) == Eq(a, b)
    ensures Less(a.(cost := c), b) == Less(a, b)
    ensures Less(b, a.(cost := c)) == Less(b, a)
  {
  }
}
