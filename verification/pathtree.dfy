/**
 The path tree.  Nodes live in an arena (a sequence) and name their parent
 by index; the root is node 0 and every other node's parent comes before
 it, so following parents always ends at the root.
 */
module PathTree {
  import opened Wrappers
  import opened Grid
  import opened Positions

  /** One visited or frontier cell: where it is, what reaching it cost, and how. */
  datatype Node = Node(pos: Position, totalCost: int, parent: Option<nat>)

  /** Node 0 is the only node without a parent; every parent precedes its child. */
  predicate ArenaOk(arena: seq<Node>)
  {
    && |arena| >= 1
    && forall i | 0 <= i < |arena| ::
         (arena[i].parent.None? <==> i == 0) &&
         (arena[i].parent.Some? ==> arena[i].parent.value < i)
  }

  /** The nodes from node i up to the root, i first. */
  function Chain(arena: seq<Node>, i: nat): (c: seq<nat>)
    requires ArenaOk(arena) && i < |arena|
    ensures |c| >= 1 && c[0] == i && c[|c| - 1] == 0
    ensures forall k | 0 <= k < |c| :: c[k] < |arena|
    decreases i
  {
    match arena[i].parent
    case None => [i]
    case Some(p) => [i] + Chain(arena, p)
  }

  /** Consecutive chain entries are child and parent, and the chain ends at the parentless root. */
  lemma {:induction false} ChainFollowsParents(arena: seq<Node>, i: nat, k: nat)
    requires ArenaOk(arena) && i < |arena|
    requires k < |Chain(arena, i)|
    ensures k + 1 < |Chain(arena, i)| ==> arena[Chain(arena, i)[k]].parent == Some(Chain(arena, i)[k + 1])
    ensures k + 1 == |Chain(arena, i)| ==> arena[Chain(arena, i)[k]].parent.None?
    decreases i
  {
    if k > 0 {
      var p := arena[i].parent.value;
      ChainFollowsParents(arena, p, k - 1);
    }
  }

  /** One step along a chain: node n, then its parent's chain. */
  lemma ChainStep(arena: seq<Node>, n: nat)
    requires ArenaOk(arena) && n < |arena|
    ensures arena[n].parent.None? ==> Chain(arena, n) == [n]
    ensures arena[n].parent.Some? ==> Chain(arena, n) == [n] + Chain(arena, arena[n].parent.value)
  {
  }

  /** Some node on the chain from node i to the root sits at `p`. */
  predicate ChainHas(arena: seq<Node>, i: nat, p: Position)
    requires ArenaOk(arena) && i < |arena|
  {
    exists k :: k in Chain(arena, i) && Eq(arena[k].pos, p)
  }

  lemma ChainHasStep(arena: seq<Node>, n: nat, p: Position)
    requires ArenaOk(arena) && n < |arena|
    ensures ChainHas(arena, n, p) <==>
      Eq(arena[n].pos, p) || (arena[n].parent.Some? && ChainHas(arena, arena[n].parent.value, p))
  {
    ChainStep(arena, n);
    if arena[n].parent.Some? && ChainHas(arena, arena[n].parent.value, p) {
      var k :| k in Chain(arena, arena[n].parent.value) && Eq(arena[k].pos, p);
      assert k in Chain(arena, n);
    }
  }

  /** Node::parentsContain: walks from node i to the root looking for a node at `p`. */
  method ParentsContain(arena: seq<Node>, i: nat, p: Position) returns (r: bool)
    requires ArenaOk(arena) && i < |arena|
    ensures r <==> exists k :: k in Chain(arena, i) && Eq(arena[k].pos, p)
  {
    var node: Option<nat> := Some(i);
    while node.Some?
      invariant node.Some? ==> node.value < |arena|
      invariant ChainHas(arena, i, p) <==> node.Some? && ChainHas(arena, node.value, p)
      decreases if node.Some? then node.value + 1 else 0
    {
      var n := node.value;
      ChainHasStep(arena, n, p);
      if Eq(arena[n].pos, p) {
        return true;
      }
      node := arena[n].parent;
    }
    return false;
  }

  /** The flat indices of the cells on the chain from node i to the root. */
  function ChainCells(arena: seq<Node>, width: nat, i: nat): set<nat>
    requires ArenaOk(arena) && i < |arena|
  {
    set k | k in Chain(arena, i) :: Index(width, arena[k].pos.x, arena[k].pos.y)
  }

  lemma ChainCellsStep(arena: seq<Node>, width: nat, n: nat)
    requires ArenaOk(arena) && n < |arena|
    ensures ChainCells(arena, width, n) ==
      {Index(width, arena[n].pos.x, arena[n].pos.y)} +
      (if arena[n].parent.Some? then ChainCells(arena, width, arena[n].parent.value) else {})
  {
    ChainStep(arena, n);
  }

  /** Every cell on the chain from node i lies inside the field. */
  predicate ChainInside(field: string, width: nat, arena: seq<Node>, i: nat)
    requires ArenaOk(arena) && i < |arena|
  {
    forall k | k in Chain(arena, i) :: Index(width, arena[k].pos.x, arena[k].pos.y) < |field|
  }

  lemma ChainInsideStep(field: string, width: nat, arena: seq<Node>, n: nat)
    requires ArenaOk(arena) && n < |arena| && ChainInside(field, width, arena, n)
    ensures Index(width, arena[n].pos.x, arena[n].pos.y) < |field|
    ensures arena[n].parent.Some? ==> ChainInside(field, width, arena, arena[n].parent.value)
  {
    ChainStep(arena, n);
  }

  /** `r` is `field` with exactly the flat indices in `cells` overwritten by `marker`. */
  predicate MarkedExactly(r: string, field: string, cells: set<nat>, marker: char)
  {
    |r| == |field| && forall j | 0 <= j < |r| :: r[j] == if j in cells then marker else field[j]
  }

  /** Node::print: writes `marker` into every cell of the chain, node i and the root included. */
  method PrintChain(field: string, width: nat, arena: seq<Node>, i: nat, marker: char) returns (r: string)
    requires ArenaOk(arena) && i < |arena|
    requires ChainInside(field, width, arena, i)
    ensures MarkedExactly(r, field, ChainCells(arena, width, i), marker)
  {
    r := field;
    var node: Option<nat> := Some(i);
    ghost var done: set<nat> := {};
    while node.Some?
      invariant node.Some? ==> node.value < |arena| && ChainInside(field, width, arena, node.value)
      invariant ChainCells(arena, width, i) ==
        done + (if node.Some? then ChainCells(arena, width, node.value) else {})
      invariant MarkedExactly(r, field, done, marker)
      decreases if node.Some? then node.value + 1 else 0
    {
      var n := node.value;
      ChainCellsStep(arena, width, n);
      ChainInsideStep(field, width, arena, n);
      r := SetAt(r, width, arena[n].pos.x, arena[n].pos.y, marker);
      done := done + {Index(width, arena[n].pos.x, arena[n].pos.y)};
      node := arena[n].parent;
    }
  }

  /** Every node's cost is its parent's plus the cost of its own cell; the root's is 0. */
  predicate CostsConsistent(arena: seq<Node>)
    requires ArenaOk(arena)
  {
    && arena[0].totalCost == 0
    && forall i | 0 < i < |arena| ::
         arena[i].totalCost == arena[arena[i].parent.value].totalCost + arena[i].pos.cost
  }

  /** The cell costs entered along a chain: every node but the last (the root). */
  function StepCosts(arena: seq<Node>, c: seq<nat>): int
    requires forall k | 0 <= k < |c| :: c[k] < |arena|
  {
    if |c| <= 1 then 0 else arena[c[0]].pos.cost + StepCosts(arena, c[1..])
  }

  /** A node's total cost is the sum of the cell costs along its path from the root. */
  lemma {:induction false} TotalCostIsPathSum(arena: seq<Node>, i: nat)
    requires ArenaOk(arena) && CostsConsistent(arena) && i < |arena|
    ensures arena[i].totalCost == StepCosts(arena, Chain(arena, i))
    decreases i
  {
    if i > 0 {
      var p := arena[i].parent.value;
      TotalCostIsPathSum(arena, p);
      var c := Chain(arena, i);
      assert c == [i] + Chain(arena, p);
      assert c[1..] == Chain(arena, p);
      assert StepCosts(arena, c) == arena[i].pos.cost + StepCosts(arena, c[1..]);
    }
  }
}
