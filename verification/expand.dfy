/**
 Solver::addAroundCur: tries every move from one node, in list order, and
 creates a child for each destination that may be entered.
 */
module Expand {
  import opened Wrappers
  import opened Grid
  import opened Positions
  import opened Moves
  import opened PathTree
  import opened Engine

  /** The solver's fixed parts: grid, table, markers and move lists. */
  predicate SameConfig(s: Solver, r: Solver)
  {
    r.cfg == s.cfg
  }

  /** The solver's state allows expanding node `cur`: it lies off the border of a well-shaped grid. */
  predicate Expandable(s: Solver, cur: nat)
  {
    Shape(s.cfg) && cur < |s.arena| && Interior(s.cfg, Key(s.arena[cur].pos))
  }

  /** A cell the table admits: its symbol has a cost. */
  predicate Admitted(c: Config, t: Coord)
    requires Shape(c)
  {
    t.0 < c.width && t.1 < c.height && Sym(c, t.0, t.1) in c.costs
  }

  /** Node k stands on a goal cell. */
  predicate OnGoal(c: Config, arena: seq<Node>, k: nat)
    requires Shape(c) && k < |arena|
  {
    var p := arena[k].pos;
    p.x < c.width && p.y < c.height && Sym(c, p.x, p.y) == c.endChar
  }

  /**
   Where move i leads from node `cur`, when it is taken: the paired guard
   passes, the table has a cost for the destination's symbol, and the
   destination is not closed.
   */
  function Target(s: Solver, cur: nat, i: nat): (t: Option<Coord>)
    requires Expandable(s, cur) && i < |s.cfg.moves|
    ensures t.Some? ==> && Admitted(s.cfg, t.value)
                        && t.value !in s.lookedAt
                        && UnitStep(Key(s.arena[cur].pos), t.value)
  {
    var p := s.arena[cur].pos;
    ShapeBounds(s.cfg);
    InteriorMoveStaysInside(s.cfg.checks[i], s.cfg.moves[i], p.x, p.y, s.cfg.width, s.cfg.height);
    if !Check(s.cfg.checks[i], p.x, p.y) then None
    else
      var d := Apply(s.cfg.moves[i], p.x, p.y);
      if Sym(s.cfg, d.0, d.1) !in s.cfg.costs then None
      else if d in s.lookedAt then None
      else Some(d)
  }

  /** The destinations of moves 0 .. i - 1 that are taken, in list order. */
  function Taken(s: Solver, cur: nat, i: nat): (ts: seq<Coord>)
    requires Expandable(s, cur) && i <= |s.cfg.moves|
    ensures |ts| <= i
    ensures forall j | 0 <= j < |ts| :: && Admitted(s.cfg, ts[j])
                                      && ts[j] !in s.lookedAt
                                      && UnitStep(Key(s.arena[cur].pos), ts[j])
  {
    if i == 0 then []
    else
      match Target(s, cur, i - 1)
      case None => Taken(s, cur, i - 1)
      case Some(t) => Taken(s, cur, i - 1) + [t]
  }

  lemma TakenStep(s: Solver, cur: nat, i: nat)
    requires Expandable(s, cur) && i < |s.cfg.moves|
    ensures Taken(s, cur, i + 1) ==
            Taken(s, cur, i) + (if Target(s, cur, i).Some? then [Target(s, cur, i).value] else [])
  {
  }

  /** A cell is a destination of the first i moves exactly when one of those moves is taken to it. */
  lemma {:induction false} TakenIsTargets(s: Solver, cur: nat, i: nat, t: Coord)
    requires Expandable(s, cur) && i <= |s.cfg.moves|
    ensures t in Taken(s, cur, i) <==> exists m :: 0 <= m < i && Target(s, cur, m) == Some(t)
  {
    if i > 0 {
      TakenIsTargets(s, cur, i - 1, t);
      if Target(s, cur, i - 1) == Some(t) {
        assert t in Taken(s, cur, i);
      }
    }
  }

  /** The node created for destination t: parent `cur`, cost of `cur` plus the table's price of t. */
  function Child(s: Solver, cur: nat, t: Coord): (n: Node)
    requires Shape(s.cfg) && cur < |s.arena| && Admitted(s.cfg, t)
    ensures n.parent == Some(cur) && Key(n.pos) == t
    ensures n.pos.cost == s.cfg.costs[Sym(s.cfg, t.0, t.1)]
    ensures n.totalCost == s.arena[cur].totalCost + n.pos.cost
  {
    var c := s.cfg.costs[Sym(s.cfg, t.0, t.1)];
    Node(Position(t.0, t.1, c), s.arena[cur].totalCost + c, Some(cur))
  }

  /** All destinations admitted. */
  predicate AllAdmitted(c: Config, ts: seq<Coord>)
    requires Shape(c)
  {
    forall j | 0 <= j < |ts| :: Admitted(c, ts[j])
  }

  /** The children of `cur` for destinations ts, in order. */
  function Children(s: Solver, cur: nat, ts: seq<Coord>): (ns: seq<Node>)
    requires Shape(s.cfg) && cur < |s.arena| && AllAdmitted(s.cfg, ts)
    ensures |ns| == |ts|
  {
    if |ts| == 0 then []
    else Children(s, cur, ts[..|ts| - 1]) + [Child(s, cur, ts[|ts| - 1])]
  }

  /** The indices n, n + 1, ..., n + k - 1. */
  function Fresh(n: nat, k: nat): (q: seq<nat>)
    ensures |q| == k
  {
    if k == 0 then [] else Fresh(n, k - 1) + [n + k - 1]
  }

  /** The cells of a list. */
  function Cells(ts: seq<Coord>): set<Coord>
  {
    set t | t in ts
  }

  /** The indices, counted from n, of the destinations in ts that hold the goal symbol. */
  function Goals(c: Config, n: nat, ts: seq<Coord>): seq<nat>
    requires Shape(c) && AllAdmitted(c, ts)
  {
    if |ts| == 0 then []
    else
      var t := ts[|ts| - 1];
      Goals(c, n, ts[..|ts| - 1]) + (if Sym(c, t.0, t.1) == c.endChar then [n + |ts| - 1] else [])
  }

  /**
   The solver after creating the children of `cur` for ts, in order: each
   is appended to the arena and the queue, its cell is opened, and if its
   cell holds the goal symbol its index is appended to the candidates fs.
   */
  function Extended(s: Solver, cur: nat, ts: seq<Coord>, fs: seq<nat>): (Solver, seq<nat>)
    requires Shape(s.cfg) && cur < |s.arena| && AllAdmitted(s.cfg, ts)
  {
    (s.(arena := s.arena + Children(s, cur, ts),
        queue := s.queue + Fresh(|s.arena|, |ts|),
        nextSet := s.nextSet + Cells(ts)),
     fs + Goals(s.cfg, |s.arena|, ts))
  }

  /**
   Solver::addAroundCur, stated all at once: a child for every move taken.
   Whether a move is taken depends only on the grid, the table, the closed
   set and node `cur`, none of which the move loop changes.
   */
  function AddAround(s: Solver, cur: nat, fs: seq<nat>): (Solver, seq<nat>)
    requires Expandable(s, cur)
  {
    Extended(s, cur, Taken(s, cur, |s.cfg.moves|), fs)
  }

  /** One more destination: one more child, queue entry, open cell and possibly candidate. */
  lemma ExtendedSnoc(s: Solver, cur: nat, ts: seq<Coord>, t: Coord)
    requires Shape(s.cfg) && cur < |s.arena| && AllAdmitted(s.cfg, ts) && Admitted(s.cfg, t)
    ensures AllAdmitted(s.cfg, ts + [t])
    ensures Children(s, cur, ts + [t]) == Children(s, cur, ts) + [Child(s, cur, t)]
    ensures Fresh(|s.arena|, |ts| + 1) == Fresh(|s.arena|, |ts|) + [|s.arena| + |ts|]
    ensures Cells(ts + [t]) == Cells(ts) + {t}
    ensures Goals(s.cfg, |s.arena|, ts + [t]) ==
            Goals(s.cfg, |s.arena|, ts) + (if Sym(s.cfg, t.0, t.1) == s.cfg.endChar then [|s.arena| + |ts|] else [])
  {
    assert (ts + [t])[..|ts|] == ts;
  }

  /** The move loop's state after creating the child for one more destination. */
  lemma LoopStep(s: Solver, cur: nat, ts: seq<Coord>, t: Coord, fs: seq<nat>,
                 arena: seq<Node>, queue: seq<nat>, nextSet: set<Coord>, found: seq<nat>)
    requires Shape(s.cfg) && cur < |s.arena| && AllAdmitted(s.cfg, ts) && Admitted(s.cfg, t)
    requires arena == s.arena + Children(s, cur, ts)
    requires queue == s.queue + Fresh(|s.arena|, |ts|)
    requires nextSet == s.nextSet + Cells(ts)
    requires found == fs + Goals(s.cfg, |s.arena|, ts)
    ensures AllAdmitted(s.cfg, ts + [t])
    ensures var c := s.cfg.costs[Sym(s.cfg, t.0, t.1)];
      arena + [Node(Position(t.0, t.1, c), arena[cur].totalCost + c, Some(cur))] ==
      s.arena + Children(s, cur, ts + [t])
    ensures queue + [|arena|] == s.queue + Fresh(|s.arena|, |ts + [t]|)
    ensures nextSet + {t} == s.nextSet + Cells(ts + [t])
    ensures (if Sym(s.cfg, t.0, t.1) == s.cfg.endChar then found + [|arena|] else found) ==
            fs + Goals(s.cfg, |s.arena|, ts + [t])
  {
    ExtendedSnoc(s, cur, ts, t);
    assert arena[cur] == s.arena[cur];
  }

  /** The move loop's state after trying moves 0 .. i - 1 from `cur`. */
  predicate LoopState(s: Solver, cur: nat, fs: seq<nat>, i: nat,
                      arena: seq<Node>, queue: seq<nat>, nextSet: set<Coord>, found: seq<nat>)
    requires Expandable(s, cur) && i <= |s.cfg.moves|
  {
    var ts := Taken(s, cur, i);
    && arena == s.arena + Children(s, cur, ts)
    && queue == s.queue + Fresh(|s.arena|, |ts|)
    && nextSet == s.nextSet + Cells(ts)
    && found == fs + Goals(s.cfg, |s.arena|, ts)
  }

  /** A move that is not taken leaves the loop's state as it was. */
  lemma LoopSkip(s: Solver, cur: nat, fs: seq<nat>, i: nat,
                 arena: seq<Node>, queue: seq<nat>, nextSet: set<Coord>, found: seq<nat>)
    requires Expandable(s, cur) && i < |s.cfg.moves| && Target(s, cur, i).None?
    requires LoopState(s, cur, fs, i, arena, queue, nextSet, found)
    ensures LoopState(s, cur, fs, i + 1, arena, queue, nextSet, found)
  {
    TakenStep(s, cur, i);
  }

  /** A move that is taken to t adds t's child, its queue entry, its open cell and, on a goal cell, its candidate. */
  lemma LoopTake(s: Solver, cur: nat, fs: seq<nat>, i: nat, t: Coord,
                 arena: seq<Node>, queue: seq<nat>, nextSet: set<Coord>, found: seq<nat>)
    requires Expandable(s, cur) && i < |s.cfg.moves| && Target(s, cur, i) == Some(t)
    requires LoopState(s, cur, fs, i, arena, queue, nextSet, found)
    ensures cur < |arena|
    ensures var c := s.cfg.costs[Sym(s.cfg, t.0, t.1)];
      LoopState(s, cur, fs, i + 1,
                arena + [Node(Position(t.0, t.1, c), arena[cur].totalCost + c, Some(cur))],
                queue + [|arena|], nextSet + {t},
                if Sym(s.cfg, t.0, t.1) == s.cfg.endChar then found + [|arena|] else found)
  {
    TakenStep(s, cur, i);
    LoopStep(s, cur, Taken(s, cur, i), t, fs, arena, queue, nextSet, found);
  }

  /**
   One pass of the move loop: if the guard of move i passes, applies the
   move; if the destination's symbol has a cost and the destination is not
   closed, creates the child, queues it, opens its cell, and notes it as a
   candidate when its symbol is the goal symbol.
   */
  method TryMove(s: Solver, cur: nat, fs: seq<nat>, i: nat,
                 arena: seq<Node>, queue: seq<nat>, nextSet: set<Coord>, found: seq<nat>)
    returns (arena': seq<Node>, queue': seq<nat>, nextSet': set<Coord>, found': seq<nat>)
    requires Expandable(s, cur) && i < |s.cfg.moves|
    requires LoopState(s, cur, fs, i, arena, queue, nextSet, found)
    ensures LoopState(s, cur, fs, i + 1, arena', queue', nextSet', found')
  {
    var p := s.arena[cur].pos;
    ShapeBounds(s.cfg);
    InteriorMoveStaysInside(s.cfg.checks[i], s.cfg.moves[i], p.x, p.y, s.cfg.width, s.cfg.height);
    arena', queue', nextSet', found' := arena, queue, nextSet, found;
    if Check(s.cfg.checks[i], p.x, p.y) {
      var next := Apply(s.cfg.moves[i], p.x, p.y);
      var there := Sym(s.cfg, next.0, next.1);
      if there in s.cfg.costs {
        var cost := s.cfg.costs[there];
        if next !in s.lookedAt {
          assert Target(s, cur, i) == Some(next);
          LoopTake(s, cur, fs, i, next, arena, queue, nextSet, found);
          var child := Node(Position(next.0, next.1, cost), arena[cur].totalCost + cost, Some(cur));
          arena' := arena + [child];
          queue' := queue + [|arena|];
          nextSet' := nextSet + {next};
          if there == s.cfg.endChar {
            found' := found + [|arena|];
          }
        } else {
          assert Target(s, cur, i).None?;
          LoopSkip(s, cur, fs, i, arena, queue, nextSet, found);
        }
      } else {
        assert Target(s, cur, i).None?;
        LoopSkip(s, cur, fs, i, arena, queue, nextSet, found);
      }
    }
  }

  /**
   Solver::addAroundCur as the source runs it: one pass over the move list,
   creating each child as soon as its move is found to be taken.
   */
  method AddAroundCur(s: Solver, cur: nat, fs: seq<nat>) returns (r: Solver, found: seq<nat>)
    requires Expandable(s, cur)
    ensures (r, found) == AddAround(s, cur, fs)
  {
    var arena, queue, nextSet := s.arena, s.queue, s.nextSet;
    found := fs;
    var i := 0;
    while i < |s.cfg.moves|
      invariant 0 <= i <= |s.cfg.moves|
      invariant LoopState(s, cur, fs, i, arena, queue, nextSet, found)
    {
      arena, queue, nextSet, found := TryMove(s, cur, fs, i, arena, queue, nextSet, found);
      i := i + 1;
    }
    r := s.(arena := arena, queue := queue, nextSet := nextSet);
  }
}

module ExpandProps {
  import opened Wrappers
  import opened Grid
  import opened Positions
  import opened Moves
  import opened PathTree
  import opened Engine
  import opened Expand

  /** Appending a child of node `cur`, entered by one move to an admitted cell, keeps the path tree well formed. */
  lemma AppendChildNodesOk(c: Config, a: seq<Node>, cur: nat, n: Node)
    requires Shape(c) && Enclosed(c) && NodesOk(c, a) && cur < |a|
    requires n.parent == Some(cur) && Admitted(c, Key(n.pos))
    requires n.pos.cost == c.costs[Sym(c, n.pos.x, n.pos.y)] && n.totalCost == a[cur].totalCost + n.pos.cost
    requires UnitStep(Key(a[cur].pos), Key(n.pos))
    ensures NodesOk(c, a + [n])
  {
    var a' := a + [n];
    var k := |a|;
    assert ArenaOk(a');
    assert Interior(c, Key(a'[k].pos));
    forall i | 0 < i < |a'|
      ensures Interior(c, Key(a'[i].pos)) && Entered(c, a', i)
    {
      if i < k {
        assert a'[i] == a[i] && a'[i].parent.value < k;
        assert Entered(c, a, i);
      }
    }
  }

  /** Creating the children of `cur` for admitted neighbours keeps the path tree well formed. */
  lemma {:induction false} ExtendedNodesOk(s: Solver, cur: nat, ts: seq<Coord>)
    requires Shape(s.cfg) && Enclosed(s.cfg) && NodesOk(s.cfg, s.arena) && cur < |s.arena|
    requires AllAdmitted(s.cfg, ts)
    requires forall j | 0 <= j < |ts| :: UnitStep(Key(s.arena[cur].pos), ts[j])
    ensures NodesOk(s.cfg, s.arena + Children(s, cur, ts))
    decreases |ts|
  {
    if |ts| == 0 {
      assert s.arena + Children(s, cur, ts) == s.arena;
    } else {
      var init := ts[..|ts| - 1];
      var t := ts[|ts| - 1];
      assert ts == init + [t];
      assert forall j | 0 <= j < |init| :: init[j] == ts[j];
      ExtendedNodesOk(s, cur, init);
      ExtendedSnoc(s, cur, init, t);
      var a := s.arena + Children(s, cur, init);
      assert a[cur] == s.arena[cur];
      AppendChildNodesOk(s.cfg, a, cur, Child(s, cur, t));
      assert s.arena + Children(s, cur, ts) == a + [Child(s, cur, t)];
    }
  }

  /** The cells of a list of nodes. */
  function NodeKeys(ns: seq<Node>): set<Coord>
  {
    set j | 0 <= j < |ns| :: Key(ns[j].pos)
  }

  /** Queuing fresh indices for appended nodes opens exactly their cells. */
  lemma QueueKeysAppend(arena: seq<Node>, queue: seq<nat>, ns: seq<Node>)
    requires forall j | 0 <= j < |queue| :: queue[j] < |arena|
    ensures forall j | 0 <= j < |ns| :: Fresh(|arena|, |ns|)[j] == |arena| + j
    ensures QueueKeys(arena + ns, queue + Fresh(|arena|, |ns|)) == QueueKeys(arena, queue) + NodeKeys(ns)
  {
    FreshIndices(|arena|, |ns|);
    var a := arena + ns;
    var q := queue + Fresh(|arena|, |ns|);
    assert forall j | 0 <= j < |queue| :: q[j] == queue[j] && a[q[j]] == arena[queue[j]];
    assert forall j | |queue| <= j < |q| :: a[q[j]] == ns[j - |queue|];
    forall x | x in QueueKeys(arena, queue) + NodeKeys(ns)
      ensures x in QueueKeys(a, q)
    {
      if x !in QueueKeys(arena, queue) {
        var j :| 0 <= j < |ns| && x == Key(ns[j].pos);
        assert x == Key(a[q[|queue| + j]].pos);
      }
    }
  }

  /** The children of `cur` for ts stand on the cells of ts. */
  lemma ChildrenKeys(s: Solver, cur: nat, ts: seq<Coord>)
    requires Shape(s.cfg) && cur < |s.arena| && AllAdmitted(s.cfg, ts)
    ensures NodeKeys(Children(s, cur, ts)) == Cells(ts)
  {
    var ns := Children(s, cur, ts);
    forall j | 0 <= j < |ts|
      ensures Key(ns[j].pos) == ts[j]
    {
      ChildrenAt(s, cur, ts, j);
    }
  }

  /** The fresh indices count up from n. */
  lemma FreshIndices(n: nat, k: nat)
    ensures forall j | 0 <= j < k :: Fresh(n, k)[j] == n + j
  {
    forall j | 0 <= j < k
      ensures Fresh(n, k)[j] == n + j
    {
      FreshAt(n, k, j);
    }
  }

  /** Creating the children for any admitted, unclosed neighbours of `cur` keeps the invariant. */
  lemma ExtendedValid(s: Solver, cur: nat, ts: seq<Coord>, fs: seq<nat>)
    requires Valid(s) && cur < |s.arena| && AllAdmitted(s.cfg, ts)
    requires forall j | 0 <= j < |ts| :: ts[j] !in s.lookedAt && UnitStep(Key(s.arena[cur].pos), ts[j])
    ensures Valid(Extended(s, cur, ts, fs).0)
  {
    ExtendedNodesOk(s, cur, ts);
    QueueKeysAppend(s.arena, s.queue, Children(s, cur, ts));
    ChildrenKeys(s, cur, ts);
    var r := Extended(s, cur, ts, fs).0;
    if s.found.Some? {
      assert r.arena[s.found.value] == s.arena[s.found.value];
    }
  }

  /** The candidate indices are exactly the offsets of goal cells in ts, in increasing order. */
  lemma {:induction false} GoalsExact(c: Config, n: nat, ts: seq<Coord>)
    requires Shape(c) && AllAdmitted(c, ts)
    ensures forall k :: k in Goals(c, n, ts) <==>
              n <= k < n + |ts| && Sym(c, ts[k - n].0, ts[k - n].1) == c.endChar
    ensures forall j, j' | 0 <= j < j' < |Goals(c, n, ts)| :: Goals(c, n, ts)[j] < Goals(c, n, ts)[j']
  {
    if |ts| > 0 {
      var init := ts[..|ts| - 1];
      assert AllAdmitted(c, init) by {
        assert forall j | 0 <= j < |init| :: init[j] == ts[j];
      }
      GoalsExact(c, n, init);
      assert forall j | 0 <= j < |init| :: init[j] == ts[j];
      var g := Goals(c, n, init);
      assert forall j | 0 <= j < |g| :: g[j] < n + |init| by {
        forall j | 0 <= j < |g|
          ensures g[j] < n + |init|
        {
          assert g[j] in g;
        }
      }
    }
  }

  lemma {:induction false} ChildrenAt(s: Solver, cur: nat, ts: seq<Coord>, j: nat)
    requires Shape(s.cfg) && cur < |s.arena| && AllAdmitted(s.cfg, ts) && j < |ts|
    ensures Children(s, cur, ts)[j] == Child(s, cur, ts[j])
  {
    var init := ts[..|ts| - 1];
    assert AllAdmitted(s.cfg, init) by {
      assert forall i | 0 <= i < |init| :: init[i] == ts[i];
    }
    if j < |ts| - 1 {
      ChildrenAt(s, cur, init, j);
    }
  }

  /**
   A move's target depends only on the configuration, the node's cell and
   the closed set: with more cells closed, a target is kept unless it is
   now closed.
   */
  lemma TargetFrame(s: Solver, r: Solver, cur: nat, i: nat)
    requires Expandable(s, cur) && Expandable(r, cur) && i < |s.cfg.moves|
    requires r.cfg == s.cfg && r.arena[cur].pos == s.arena[cur].pos && s.lookedAt <= r.lookedAt
    ensures Target(r, cur, i) ==
            if Target(s, cur, i).Some? && Target(s, cur, i).value in r.lookedAt then None else Target(s, cur, i)
  {
  }

  /** Any node of an invariant-keeping solver may be expanded. */
  lemma ValidExpandable(s: Solver, cur: nat)
    requires Valid(s) && cur < |s.arena|
    ensures Expandable(s, cur)
  {
  }

  /** Solver::addAroundCur keeps the invariant, and changes nothing but the arena, the queue and the open set. */
  lemma AddAroundValid(s: Solver, cur: nat, fs: seq<nat>)
    requires Valid(s) && cur < |s.arena|
    ensures Expandable(s, cur)
    ensures var r := AddAround(s, cur, fs).0;
      && Valid(r) && SameConfig(s, r) && s.arena <= r.arena && s.queue <= r.queue
      && r.lookedAt == s.lookedAt && r.found == s.found
  {
    ExtendedValid(s, cur, Taken(s, cur, |s.cfg.moves|), fs);
  }

  /** Every node addAroundCur creates is a queued child of `cur`, and every entry it queues is such a node. */
  lemma AddAroundQueues(s: Solver, cur: nat, fs: seq<nat>)
    requires Expandable(s, cur)
    ensures var r := AddAround(s, cur, fs).0;
      && s.queue <= r.queue && s.arena <= r.arena
      && (forall k | |s.arena| <= k < |r.arena| :: r.arena[k].parent == Some(cur) && k in r.queue)
      && forall j | |s.queue| <= j < |r.queue| ::
        |s.arena| <= r.queue[j] < |r.arena| && r.arena[r.queue[j]].parent == Some(cur)
  {
    var ts := Taken(s, cur, |s.cfg.moves|);
    var r := AddAround(s, cur, fs).0;
    var n := |s.arena|;
    forall k | n <= k < |r.arena|
      ensures r.arena[k].parent == Some(cur) && k in r.queue
    {
      ChildrenAt(s, cur, ts, k - n);
      FreshAt(n, |ts|, k - n);
      assert r.queue[|s.queue| + (k - n)] == k;
    }
    forall j | |s.queue| <= j < |r.queue|
      ensures |s.arena| <= r.queue[j] < |r.arena| && r.arena[r.queue[j]].parent == Some(cur)
    {
      FreshAt(n, |ts|, j - |s.queue|);
      ChildrenAt(s, cur, ts, j - |s.queue|);
      assert r.queue[j] == n + (j - |s.queue|);
    }
  }

  lemma {:induction false} FreshAt(n: nat, k: nat, j: nat)
    requires j < k
    ensures Fresh(n, k)[j] == n + j
  {
    if j < k - 1 {
      FreshAt(n, k - 1, j);
    }
  }

  /**
   The candidates addAroundCur records after fs are exactly its new
   children on goal cells, in creation order.
   */
  lemma AddAroundGoals(s: Solver, cur: nat, fs: seq<nat>)
    requires Expandable(s, cur)
    ensures var r := AddAround(s, cur, fs);
      && s.arena <= r.0.arena
      && |fs| <= |r.1| && r.1[..|fs|] == fs
      && (forall k :: k in r.1[|fs|..] <==> |s.arena| <= k < |r.0.arena| && OnGoal(r.0.cfg, r.0.arena, k))
      && (forall j, j' | |fs| <= j < j' < |r.1| :: r.1[j] < r.1[j'])
  {
    ExtendedGoals(s, cur, Taken(s, cur, |s.cfg.moves|), fs);
  }

  lemma ExtendedGoals(s: Solver, cur: nat, ts: seq<Coord>, fs: seq<nat>)
    requires Shape(s.cfg) && cur < |s.arena| && AllAdmitted(s.cfg, ts)
    ensures var r := Extended(s, cur, ts, fs);
      && Shape(r.0.cfg) && s.arena <= r.0.arena
      && |fs| <= |r.1| && r.1[..|fs|] == fs
      && (forall k :: k in r.1[|fs|..] <==> |s.arena| <= k < |r.0.arena| && OnGoal(r.0.cfg, r.0.arena, k))
      && (forall j, j' | |fs| <= j < j' < |r.1| :: r.1[j] < r.1[j'])
  {
    var r := Extended(s, cur, ts, fs);
    var n := |s.arena|;
    GoalsExact(s.cfg, n, ts);
    var g := Goals(s.cfg, n, ts);
    assert r.1[|fs|..] == g;
    assert Shape(r.0.cfg) by {
      assert r.0.cfg.field == s.cfg.field && r.0.cfg.width == s.cfg.width && r.0.cfg.height == s.cfg.height;
    }
    forall k | n <= k < |r.0.arena|
      ensures OnGoal(r.0.cfg, r.0.arena, k) <==> Sym(s.cfg, ts[k - n].0, ts[k - n].1) == s.cfg.endChar
    {
      ChildrenAt(s, cur, ts, k - n);
      assert r.0.arena[k] == Child(s, cur, ts[k - n]);
    }
    assert forall j | |fs| <= j < |r.1| :: r.1[j] == g[j - |fs|];
  }
}
