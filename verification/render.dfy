/**
 Solver::print: a copy of the field with either the open cells or the
 found path overwritten by the marker.
 */
module Render {
  import opened Wrappers
  import opened Grid
  import opened Positions
  import opened PathTree
  import opened Engine

  /** The flat indices of a set of cells. */
  function Indices(width: nat, cs: set<Coord>): set<nat>
  {
    set c | c in cs :: Index(width, c.0, c.1)
  }

  lemma IndicesRemove(width: nat, cs: set<Coord>, c: Coord)
    requires c in cs
    ensures Indices(width, cs) == {Index(width, c.0, c.1)} + Indices(width, cs - {c})
  {
  }

  /** Every open cell lies on the grid: it is the cell of a queued node. */
  lemma OpenCellsOnGrid(s: Solver)
    requires Valid(s)
    ensures forall c | c in s.nextSet :: c.0 < s.cfg.width && c.1 < s.cfg.height
  {
    forall c | c in s.nextSet
      ensures c.0 < s.cfg.width && c.1 < s.cfg.height
    {
      var j :| 0 <= j < |s.queue| && c == Key(s.arena[s.queue[j]].pos);
      assert Interior(s.cfg, Key(s.arena[s.queue[j]].pos));
    }
  }

  /** Every node on a path of the tree lies on the grid. */
  lemma ChainOnGrid(s: Solver, i: nat)
    requires Valid(s) && i < |s.arena|
    ensures ChainInside(s.cfg.field, s.cfg.width, s.arena, i)
  {
    forall k | k in Chain(s.arena, i)
      ensures Index(s.cfg.width, s.arena[k].pos.x, s.arena[k].pos.y) < |s.cfg.field|
    {
      assert Interior(s.cfg, Key(s.arena[k].pos));
      IndexInRange(s.cfg.field, s.cfg.width, s.cfg.height, s.arena[k].pos.x, s.arena[k].pos.y);
    }
  }

  /** Marking one more cell extends the marked set by its index. */
  lemma MarkOne(r: string, field: string, width: nat, done: set<nat>, marker: char, x: nat, y: nat)
    requires MarkedExactly(r, field, done, marker) && Index(width, x, y) < |r|
    ensures MarkedExactly(SetAt(r, width, x, y, marker), field, done + {Index(width, x, y)}, marker)
  {
  }

  /** The loop over the open set: marks every cell of cs in a copy of the field. */
  method MarkCells(field: string, width: nat, height: nat, cs: set<Coord>, marker: char) returns (r: string)
    requires Rectangular(field, width, height)
    requires forall c | c in cs :: c.0 < width && c.1 < height
    ensures MarkedExactly(r, field, Indices(width, cs), marker)
  {
    r := field;
    var rest := cs;
    ghost var done: set<nat> := {};
    while rest != {}
      invariant rest <= cs
      invariant Indices(width, cs) == done + Indices(width, rest)
      invariant MarkedExactly(r, field, done, marker)
      decreases |rest|
    {
      var c :| c in rest;
      IndicesRemove(width, rest, c);
      IndexInRange(field, width, height, c.0, c.1);
      MarkOne(r, field, width, done, marker, c.0, c.1);
      r := SetAt(r, width, c.0, c.1, marker);
      done := done + {Index(width, c.0, c.1)};
      rest := rest - {c};
    }
  }

  /**
   Solver::print: leaves the solver alone and returns the field with every
   open cell marked while no goal is found, and with exactly the found
   node's path, start and goal included, marked once one is.
   */
  method Print(s: Solver) returns (r: string)
    requires Valid(s)
    ensures s.found.None? ==> MarkedExactly(r, s.cfg.field, Indices(s.cfg.width, s.nextSet), s.cfg.marker)
    ensures s.found.Some? ==> MarkedExactly(r, s.cfg.field, ChainCells(s.arena, s.cfg.width, s.found.value), s.cfg.marker)
  {
    if s.found.None? {
      OpenCellsOnGrid(s);
      r := MarkCells(s.cfg.field, s.cfg.width, s.cfg.height, s.nextSet, s.cfg.marker);
    } else {
      ChainOnGrid(s, s.found.value);
      r := PrintChain(s.cfg.field, s.cfg.width, s.arena, s.found.value, s.cfg.marker);
    }
  }
}
