/**
 The move model and terrain table of the sample input: four guarded unit
 moves on size_t coordinates and a table of positive cell costs.
 */
module Moves {
  import opened Grid

  /** The four moves, in the order the move lists hold them. */
  datatype Dir = PlusX | PlusY | MinusX | MinusY

  /** The guard a move is paired with: the coordinate it changes must not wrap around. */
  function Check(d: Dir, x: nat, y: nat): bool
  {
    match d
    case PlusX => x < SIZE_MAX
    case PlusY => y < SIZE_MAX
    case MinusX => x > 0
    case MinusY => y > 0
  }

  /** size_t increment and decrement, wrapping modulo 2^64. */
  function Inc(v: nat): (r: nat)
    requires v <= SIZE_MAX
    ensures r <= SIZE_MAX
    ensures v < SIZE_MAX ==> r == v + 1
  {
    if v == SIZE_MAX then 0 else v + 1
  }

  function Dec(v: nat): (r: nat)
    requires v <= SIZE_MAX
    ensures r <= SIZE_MAX
    ensures v > 0 ==> r == v - 1
  {
    if v == 0 then SIZE_MAX else v - 1
  }

  /** Inc and Dec are size_t's ++ and --: addition and subtraction of one modulo 2^64. */
  lemma IncDecAreModular(v: nat)
    requires v <= SIZE_MAX
    ensures Inc(v) == (v + 1) % (SIZE_MAX + 1)
    ensures Dec(v) == (v - 1) % (SIZE_MAX + 1)
  {
  }

  /** The coordinate transform of a move, with size_t wrap-around. */
  function Apply(d: Dir, x: nat, y: nat): (r: Coord)
    requires x <= SIZE_MAX && y <= SIZE_MAX
    ensures r.0 <= SIZE_MAX && r.1 <= SIZE_MAX
  {
    match d
    case PlusX => (Inc(x), y)
    case PlusY => (x, Inc(y))
    case MinusX => (Dec(x), y)
    case MinusY => (x, Dec(y))
  }

  /** The cells one unit step away along a single axis. */
  predicate UnitStep(a: Coord, b: Coord)
  {
    (a.1 == b.1 && (b.0 == a.0 + 1 || a.0 == b.0 + 1))
    || (a.0 == b.0 && (b.1 == a.1 + 1 || a.1 == b.1 + 1))
  }

  /** A move's guard holds exactly when applying it changes one coordinate by exactly one. */
  lemma GuardedMoveIsUnitStep(d: Dir, x: nat, y: nat)
    requires x <= SIZE_MAX && y <= SIZE_MAX
    ensures Check(d, x, y) <==> UnitStep((x, y), Apply(d, x, y))
  {
  }

  /** The direction each move takes when its guard holds. */
  lemma MoveDeltas(x: nat, y: nat)
    requires x <= SIZE_MAX && y <= SIZE_MAX
    ensures Check(PlusX, x, y) ==> Apply(PlusX, x, y) == (x + 1, y)
    ensures Check(PlusY, x, y) ==> Apply(PlusY, x, y) == (x, y + 1)
    ensures Check(MinusX, x, y) ==> Apply(MinusX, x, y) == (x - 1, y)
    ensures Check(MinusY, x, y) ==> Apply(MinusY, x, y) == (x, y - 1)
  {
  }

  /** Every guard passes, and every move stays on the grid, from a cell off the border. */
  lemma InteriorMoveStaysInside(d: Dir, e: Dir, x: nat, y: nat, width: nat, height: nat)
    requires 0 < x && x + 1 < width && 0 < y && y + 1 < height
    requires width <= SIZE_MAX && height <= SIZE_MAX
    ensures Check(d, x, y)
    ensures Apply(e, x, y).0 < width && Apply(e, x, y).1 < height
    ensures UnitStep((x, y), Apply(e, x, y))
  {
  }

  /** The terrain table: ' ' costs 1, 'Y' costs 9, the goal '%' costs 1. */
  const Costs: map<char, int> := map[' ' := 1, 'Y' := 9, '%' := 1]
  const StartChar: char := 'F'
  const EndChar: char := '%'
  const WallChar: char := '#'

  /** The guard list and the transform list, paired by position. */
  const MovesetChecks: seq<Dir> := [PlusX, PlusY, MinusX, MinusY]
  const Moveset: seq<Dir> := [PlusX, PlusY, MinusX, MinusY]

  /** Every entry of the table is positive; the goal is enterable, the start and the wall are not. */
  lemma CostTableFacts()
    ensures forall c :: c in Costs ==> Costs[c] > 0
    ensures EndChar in Costs && StartChar !in Costs && WallChar !in Costs
  {
  }

  /** Both lists have four entries, so the solver's count check passes; each pair moves +x, +y, -x, -y. */
  lemma MovesetFacts()
    ensures |MovesetChecks| == |Moveset| == 4
    ensures forall i :: 0 <= i < 4 ==> MovesetChecks[i] == Moveset[i]
    ensures forall x: nat, y: nat :: x < SIZE_MAX && y < SIZE_MAX && x > 0 && y > 0 ==>
      Apply(Moveset[0], x, y) == (x + 1, y) && Apply(Moveset[1], x, y) == (x, y + 1) &&
      Apply(Moveset[2], x, y) == (x - 1, y) && Apply(Moveset[3], x, y) == (x, y - 1)
  {
  }
}
