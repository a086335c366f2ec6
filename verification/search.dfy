/**
 Solver::step: pops one cost tier off the priority queue, closing and
 expanding each popped node whose cell is still open, then picks the
 cheapest goal candidate the tier produced.
 */
module Search {
  import opened Wrappers
  import opened Grid
  import opened Positions
  import opened Moves
  import opened PathTree
  import opened Engine
  import opened Expand
  import opened ExpandProps

  /** Candidates are non-root nodes standing on goal cells. */
  predicate Candidates(c: Config, arena: seq<Node>, fs: seq<nat>)
    requires Shape(c)
  {
    forall j | 0 <= j < |fs| :: 0 < fs[j] < |arena| && OnGoal(c, arena, fs[j])
  }

  /**
   fs' is fs followed by exactly the nodes on goal cells created at arena
   index n or later, in creation order.
   */
  ghost predicate NewGoals(c: Config, n: nat, a': seq<Node>, fs: seq<nat>, fs': seq<nat>)
    requires Shape(c)
  {
    && |fs| <= |fs'| && fs'[..|fs|] == fs
    && (forall k :: k in fs'[|fs|..] <==> n <= k < |a'| && OnGoal(c, a', k))
    && (forall j, j' | |fs| <= j < j' < |fs'| :: fs'[j] < fs'[j'])
  }

  /** Goal nodes collected in two stages are the goal nodes created across both, in order. */
  lemma NewGoalsCompose(c: Config, n: nat, a1: seq<Node>, a2: seq<Node>, f0: seq<nat>, f1: seq<nat>, f2: seq<nat>)
    requires Shape(c) && n <= |a1| && a1 <= a2
    requires NewGoals(c, n, a1, f0, f1) && NewGoals(c, |a1|, a2, f1, f2)
    ensures NewGoals(c, n, a2, f0, f2)
  {
    assert f2[..|f0|] == f2[..|f1|][..|f0|];
    assert f2[|f0|..] == f1[|f0|..] + f2[|f1|..];
    forall k | n <= k < |a1|
      ensures OnGoal(c, a2, k) == OnGoal(c, a1, k)
    {
      assert a2[k] == a1[k];
    }
    forall j, j' | |f0| <= j < j' < |f2|
      ensures f2[j] < f2[j']
    {
      if j' < |f1| {
        assert f2[j] == f1[j] && f2[j'] == f1[j'];
      } else if j < |f1| {
        assert f2[j] == f1[j] && f1[j] in f1[|f0|..];
        assert f2[j'] in f2[|f1|..];
      }
    }
  }

  /** The total cost of queue entry j. */
  function EntryCost(s: Solver, j: nat): int
    requires Queued(s) && j < |s.queue|
  {
    s.arena[s.queue[j]].totalCost
  }

  /**
   The position, from i on, of the entry the queue yields next: one of least
   total cost, the first of them.  std::priority_queue leaves the order
   among equal costs open; taking the first is one order it may produce.
   */
  function TopFrom(s: Solver, i: nat): (j: nat)
    requires Queued(s) && i < |s.queue|
    ensures i <= j < |s.queue|
    ensures forall j' | i <= j' < |s.queue| :: EntryCost(s, j) <= EntryCost(s, j')
    ensures forall j' | i <= j' < j :: EntryCost(s, j') > EntryCost(s, j)
    decreases |s.queue| - i
  {
    if i == |s.queue| - 1 then i
    else
      var k := TopFrom(s, i + 1);
      if EntryCost(s, i) <= EntryCost(s, k) then i else k
  }

  /** The position of the queue's top entry. */
  function Top(s: Solver): (j: nat)
    requires Queued(s) && |s.queue| > 0
    ensures j < |s.queue|
  {
    TopFrom(s, 0)
  }

  /** The cell of the queue's top entry. */
  function TopKey(s: Solver): Coord
    requires Queued(s) && |s.queue| > 0
  {
    Key(s.arena[s.queue[Top(s)]].pos)
  }

  /** The queue without its entry at position j. */
  function Remove(q: seq<nat>, j: nat): (r: seq<nat>)
    requires j < |q|
    ensures |r| == |q| - 1
    ensures forall i | 0 <= i < |q| && i != j :: q[i] in r
    ensures forall k | k in r :: k in q
    ensures multiset(r) == multiset(q) - multiset{q[j]}
  {
    assert forall i | 0 <= i < |q| && i != j :: q[i] == if i < j then q[..j][i] else q[j + 1..][i - j - 1];
    assert q == q[..j] + [q[j]] + q[j + 1..];
    q[..j] + q[j + 1..]
  }

  /** Every cell of the grid. */
  function AllCells(c: Config): set<Coord>
  {
    set x: nat, y: nat | x < c.width && y < c.height :: (x, y)
  }

  /** Removing one entry loses at most that entry's cell from the queued cells. */
  lemma QueueKeysRemove(arena: seq<Node>, queue: seq<nat>, j: nat)
    requires forall i | 0 <= i < |queue| :: queue[i] < |arena|
    requires j < |queue|
    ensures QueueKeys(arena, Remove(queue, j)) <= QueueKeys(arena, queue)
    ensures QueueKeys(arena, queue) - {Key(arena[queue[j]].pos)} <= QueueKeys(arena, Remove(queue, j))
  {
    var q := Remove(queue, j);
    forall c | c in QueueKeys(arena, q)
      ensures c in QueueKeys(arena, queue)
    {
      var i :| 0 <= i < |q| && c == Key(arena[q[i]].pos);
      assert q[i] in queue;
      var i' :| 0 <= i' < |queue| && queue[i'] == q[i];
    }
    forall c | c in QueueKeys(arena, queue) && c != Key(arena[queue[j]].pos)
      ensures c in QueueKeys(arena, q)
    {
      var i :| 0 <= i < |queue| && c == Key(arena[queue[i]].pos);
      assert queue[i] in q;
      var i' :| 0 <= i' < |q| && q[i'] == queue[i];
    }
  }

  /** A solver that differs only in queue and sets keeps the invariant when its queue and open set agree. */
  lemma FrameValid(s: Solver, r: Solver)
    requires Valid(s) && SameConfig(s, r) && r.arena == s.arena && r.found == s.found && QueueOk(r)
    ensures Valid(r)
  {
  }

  /** The top entry's cell is open exactly when it is not closed, and it lies on the grid. */
  lemma TopKeyFacts(s: Solver)
    requires Valid(s) && |s.queue| > 0
    ensures TopKey(s) in AllCells(s.cfg)
    ensures TopKey(s) in s.nextSet <==> TopKey(s) !in s.lookedAt
  {
    var j := Top(s);
    assert Interior(s.cfg, Key(s.arena[s.queue[j]].pos));
    assert TopKey(s) in QueueKeys(s.arena, s.queue);
  }

  /**
   The state after popping the top entry and closing its cell: the top's
   cell moves from the open set to the closed set, one copy of the top
   entry leaves the queue, and nothing else changes.
   */
  function Closed(s: Solver): (r: Solver)
    requires Queued(s) && |s.queue| > 0
    ensures multiset(r.queue) == multiset(s.queue) - multiset{s.queue[Top(s)]}
    ensures TopKey(s) !in r.nextSet && TopKey(s) in r.lookedAt
    ensures forall k | k != TopKey(s) :: (k in r.nextSet <==> k in s.nextSet) && (k in r.lookedAt <==> k in s.lookedAt)
    ensures r.arena == s.arena && r.found == s.found && r.cfg == s.cfg
  {
    s.(queue := Remove(s.queue, Top(s)), nextSet := s.nextSet - {TopKey(s)}, lookedAt := s.lookedAt + {TopKey(s)})
  }

  /** The state after popping the top entry and leaving the sets alone. */
  function Dropped(s: Solver): Solver
    requires Queued(s) && |s.queue| > 0
  {
    s.(queue := Remove(s.queue, Top(s)))
  }

  lemma ClosedValid(s: Solver)
    requires Valid(s) && |s.queue| > 0 && TopKey(s) in s.nextSet
    ensures Valid(Closed(s))
  {
    var q := Remove(s.queue, Top(s));
    var k := TopKey(s);
    QueueKeysRemove(s.arena, s.queue, Top(s));
    assert QueueKeys(s.arena, q) - (s.lookedAt + {k}) == s.nextSet - {k};
    assert Closed(s) == s.(queue := q, nextSet := s.nextSet - {k}, lookedAt := s.lookedAt + {k});
    FrameValid(s, Closed(s));
  }

  lemma DroppedValid(s: Solver)
    requires Valid(s) && |s.queue| > 0 && TopKey(s) !in s.nextSet
    ensures Valid(Dropped(s))
  {
    TopKeyFacts(s);
    QueueKeysRemove(s.arena, s.queue, Top(s));
    FrameValid(s, Dropped(s));
  }

  /** Closing the top entry's open cell and expanding its node. */
  function Expanded(s: Solver, fs: seq<nat>): (Solver, seq<nat>)
    requires Valid(s) && |s.queue| > 0 && TopKey(s) in s.nextSet
  {
    ClosedValid(s);
    ValidExpandable(Closed(s), s.queue[Top(s)]);
    AddAround(Closed(s), s.queue[Top(s)], fs)
  }

  /** Grown candidates stay sound: the old ones keep their nodes, the new ones are new nodes on goal cells. */
  lemma CandidatesGrow(c: Config, a: seq<Node>, fs: seq<nat>, a': seq<Node>, fs': seq<nat>)
    requires Shape(c) && Candidates(c, a, fs) && 0 < |a| && a <= a'
    requires |fs| <= |fs'| && fs'[..|fs|] == fs
    requires forall k | k in fs'[|fs|..] :: |a| <= k < |a'| && OnGoal(c, a', k)
    ensures Candidates(c, a', fs') && fs <= fs'
  {
    forall j | 0 <= j < |fs'|
      ensures 0 < fs'[j] < |a'| && OnGoal(c, a', fs'[j])
    {
      if j < |fs| {
        assert fs'[j] == fs[j] && OnGoal(c, a, fs[j]);
        assert a'[fs[j]] == a[fs[j]];
      } else {
        assert fs'[j] in fs'[|fs|..];
      }
    }
  }

  /** Expanding the top entry keeps the invariant, and closes the top's cell. */
  lemma ExpandedValid(s: Solver, fs: seq<nat>)
    requires Valid(s) && |s.queue| > 0 && TopKey(s) in s.nextSet
    ensures var r := Expanded(s, fs).0;
      && Valid(r) && SameConfig(s, r) && s.arena <= r.arena && r.found == s.found
      && r.lookedAt == s.lookedAt + {TopKey(s)}
  {
    ClosedValid(s);
    AddAroundValid(Closed(s), s.queue[Top(s)], fs);
  }

  /** Expanding the top entry keeps the candidate list sound. */
  lemma ExpandedCandidates(s: Solver, fs: seq<nat>)
    requires Valid(s) && |s.queue| > 0 && TopKey(s) in s.nextSet && Candidates(s.cfg, s.arena, fs)
    ensures var r := Expanded(s, fs);
      Candidates(r.0.cfg, r.0.arena, r.1) && fs <= r.1
  {
    var top := s.queue[Top(s)];
    assert Interior(s.cfg, Key(s.arena[top].pos));
    AddAroundGoals(Closed(s), top, fs);
    var r := Expanded(s, fs);
    CandidatesGrow(s.cfg, s.arena, fs, r.0.arena, r.1);
  }

  /**
   One pass of the batch loop: pops the top entry; when its cell is still
   open, moves the cell from the open to the closed set and expands the
   node; otherwise the stale entry is discarded.
   */
  function PopOne(s: Solver, fs: seq<nat>): (r: (Solver, seq<nat>))
    requires Valid(s) && |s.queue| > 0 && Candidates(s.cfg, s.arena, fs)
    ensures Valid(r.0) && Candidates(r.0.cfg, r.0.arena, r.1) && SameConfig(s, r.0)
    ensures s.arena <= r.0.arena && r.0.found == s.found && fs <= r.1
    ensures r.0.lookedAt == s.lookedAt + {TopKey(s)}
    ensures TopKey(s) in s.lookedAt ==> r == (Dropped(s), fs)
  {
    TopKeyFacts(s);
    if TopKey(s) in s.nextSet then
      ExpandedValid(s, fs);
      ExpandedCandidates(s, fs);
      Expanded(s, fs)
    else
      DroppedValid(s);
      (Dropped(s), fs)
  }

  /** A pop appends to the candidates exactly the goal nodes it creates, in creation order. */
  lemma PopOneGoals(s: Solver, fs: seq<nat>)
    requires Valid(s) && |s.queue| > 0 && Candidates(s.cfg, s.arena, fs)
    ensures NewGoals(s.cfg, |s.arena|, PopOne(s, fs).0.arena, fs, PopOne(s, fs).1)
  {
    TopKeyFacts(s);
    if TopKey(s) in s.nextSet {
      var top := s.queue[Top(s)];
      assert Interior(s.cfg, Key(s.arena[top].pos));
      AddAroundGoals(Closed(s), top, fs);
    } else {
      assert fs[|fs|..] == [];
    }
  }

  /** The measure Batch decreases: fewer open grid cells, or as many and a shorter queue. */
  predicate Smaller(r: Solver, s: Solver)
  {
    || |AllCells(r.cfg) - r.lookedAt| < |AllCells(s.cfg) - s.lookedAt|
    || (|AllCells(r.cfg) - r.lookedAt| == |AllCells(s.cfg) - s.lookedAt| && |r.queue| < |s.queue|)
  }

  /** A pop closes a cell that was open, or else shortens the queue. */
  lemma PopOneSmaller(s: Solver, fs: seq<nat>)
    requires Valid(s) && |s.queue| > 0 && Candidates(s.cfg, s.arena, fs)
    ensures Smaller(PopOne(s, fs).0, s)
  {
    var p := PopOne(s, fs);
    TopKeyFacts(s);
    if TopKey(s) !in s.lookedAt {
      assert AllCells(s.cfg) - p.0.lookedAt == (AllCells(s.cfg) - s.lookedAt) - {TopKey(s)};
    }
  }

  /**
   The batch loop of Solver::step: keeps popping while the top entry costs
   curCost, the top's cost when the batch began.  Children of cost curCost
   (cells of cost 0) join the batch.
   */
  function Batch(s: Solver, curCost: int, fs: seq<nat>): (r: (Solver, seq<nat>))
    requires Valid(s) && Candidates(s.cfg, s.arena, fs)
    ensures Valid(r.0) && Candidates(r.0.cfg, r.0.arena, r.1) && SameConfig(s, r.0)
    ensures s.arena <= r.0.arena && r.0.found == s.found && fs <= r.1
    ensures s.lookedAt <= r.0.lookedAt
    ensures NewGoals(s.cfg, |s.arena|, r.0.arena, fs, r.1)
    ensures |r.0.queue| == 0 || EntryCost(r.0, Top(r.0)) != curCost
    decreases |AllCells(s.cfg) - s.lookedAt|, |s.queue|
  {
    if |s.queue| == 0 || EntryCost(s, Top(s)) != curCost then
      assert fs[|fs|..] == [];
      (s, fs)
    else
      var p := PopOne(s, fs);
      PopOneSmaller(s, fs);
      PopOneGoals(s, fs);
      var b := Batch(p.0, curCost, p.1);
      NewGoalsCompose(s.cfg, |s.arena|, p.0.arena, b.0.arena, fs, p.1, b.1);
      b
  }

  /** Every entry but the popped one stays queued; each new entry is a child of the popped node. */
  lemma PopOneEntries(s: Solver, fs: seq<nat>)
    requires Valid(s) && |s.queue| > 0 && Candidates(s.cfg, s.arena, fs)
    ensures var r := PopOne(s, fs).0;
      && (forall i | 0 <= i < |s.queue| && i != Top(s) :: s.queue[i] in r.queue)
      && (forall j | 0 <= j < |r.queue| ::
            r.queue[j] in s.queue || r.arena[r.queue[j]].parent == Some(s.queue[Top(s)]))
      && (forall k | |s.arena| <= k < |r.arena| :: k in r.queue)
  {
    TopKeyFacts(s);
    var q := Remove(s.queue, Top(s));
    if TopKey(s) in s.nextSet {
      var top := s.queue[Top(s)];
      assert Interior(s.cfg, Key(s.arena[top].pos));
      AddAroundQueues(Closed(s), top, fs);
      var r := PopOne(s, fs).0;
      assert q <= r.queue;
      forall i | 0 <= i < |s.queue| && i != Top(s)
        ensures s.queue[i] in r.queue
      {
        var i' :| 0 <= i' < |q| && q[i'] == s.queue[i];
        assert r.queue[i'] == q[i'];
      }
      forall j | 0 <= j < |q|
        ensures r.queue[j] in s.queue
      {
        assert r.queue[j] == q[j] && q[j] in q;
      }
    }
  }

  /** A batch whose top costs curCost is one pop followed by the rest of the batch. */
  lemma BatchUnfold(s: Solver, curCost: int, fs: seq<nat>)
    requires Valid(s) && Candidates(s.cfg, s.arena, fs) && |s.queue| > 0 && EntryCost(s, Top(s)) == curCost
    ensures Smaller(PopOne(s, fs).0, s)
    ensures Batch(s, curCost, fs) == Batch(PopOne(s, fs).0, curCost, PopOne(s, fs).1)
  {
    PopOneSmaller(s, fs);
  }

  /** Entries that survive one pop and then the rest of the batch were never popped at a cost other than c. */
  lemma ComposePops(a0: seq<Node>, q0: seq<nat>, t: nat, a1: seq<Node>, q1: seq<nat>, q2: seq<nat>, c: int)
    requires a0 <= a1 && t < |q0|
    requires forall i | 0 <= i < |q0| :: q0[i] < |a0|
    requires forall i | 0 <= i < |q1| :: q1[i] < |a1|
    requires forall i | 0 <= i < |q0| && i != t :: q0[i] in q1
    requires a0[q0[t]].totalCost == c
    requires forall i | 0 <= i < |q1| && q1[i] !in q2 :: a1[q1[i]].totalCost == c
    ensures forall i | 0 <= i < |q0| && q0[i] !in q2 :: a0[q0[i]].totalCost == c
  {
    forall i | 0 <= i < |q0| && q0[i] !in q2
      ensures a0[q0[i]].totalCost == c
    {
      if i != t {
        var i' :| 0 <= i' < |q1| && q1[i'] == q0[i];
        assert a1[q0[i]] == a0[q0[i]];
      }
    }
  }

  /**
   The batch pops only entries that cost curCost: both the entries queued
   when it began and the nodes it creates and pops itself.
   */
  lemma {:induction false} BatchPopsOnlyCurCost(s: Solver, curCost: int, fs: seq<nat>)
    requires Valid(s) && Candidates(s.cfg, s.arena, fs)
    ensures forall i | 0 <= i < |s.queue| && s.queue[i] !in Batch(s, curCost, fs).0.queue ::
              EntryCost(s, i) == curCost
    ensures var r := Batch(s, curCost, fs).0;
      forall k | |s.arena| <= k < |r.arena| && k !in r.queue :: r.arena[k].totalCost == curCost
    decreases |AllCells(s.cfg) - s.lookedAt|, |s.queue|
  {
    if |s.queue| > 0 && EntryCost(s, Top(s)) == curCost {
      var p := PopOne(s, fs);
      var r := Batch(s, curCost, fs).0;
      BatchUnfold(s, curCost, fs);
      BatchPopsOnlyCurCost(p.0, curCost, p.1);
      PopOneEntries(s, fs);
      ComposePops(s.arena, s.queue, Top(s), p.0.arena, p.0.queue, r.queue, curCost);
      ComposeNewPops(|s.arena|, p.0.arena, p.0.queue, r.arena, r.queue, curCost);
    }
  }

  /** Nodes created by one pop are queued, so if the rest of the batch removes them they cost c. */
  lemma ComposeNewPops(n: nat, a1: seq<Node>, q1: seq<nat>, a2: seq<Node>, q2: seq<nat>, c: int)
    requires n <= |a1| && a1 <= a2
    requires forall i | 0 <= i < |q1| :: q1[i] < |a1|
    requires forall k | n <= k < |a1| :: k in q1
    requires forall i | 0 <= i < |q1| && q1[i] !in q2 :: a1[q1[i]].totalCost == c
    requires forall k | |a1| <= k < |a2| && k !in q2 :: a2[k].totalCost == c
    ensures forall k | n <= k < |a2| && k !in q2 :: a2[k].totalCost == c
  {
    forall k | n <= k < |a1| && k !in q2
      ensures a2[k].totalCost == c
    {
      assert k in q1;
      var i :| 0 <= i < |q1| && q1[i] == k;
      assert a2[k] == a1[k];
    }
  }

  /** Every cell of the table costs more than zero, as in the shipped table. */
  predicate PositiveCosts(costs: map<char, int>)
  {
    forall c | c in costs :: costs[c] > 0
  }

  /** No queued entry costs less than c. */
  predicate QueueAtLeast(s: Solver, c: int)
    requires Queued(s)
  {
    forall j | 0 <= j < |s.queue| :: EntryCost(s, j) >= c
  }

  /**
   With positive cell costs, a batch begun at the queue's minimum leaves
   every remaining entry strictly dearer: one step finishes a cost tier.
   */
  lemma {:induction false} BatchFinishesTier(s: Solver, curCost: int, fs: seq<nat>)
    requires Valid(s) && Candidates(s.cfg, s.arena, fs) && PositiveCosts(s.cfg.costs) && QueueAtLeast(s, curCost)
    ensures forall j | 0 <= j < |Batch(s, curCost, fs).0.queue| :: EntryCost(Batch(s, curCost, fs).0, j) > curCost
    decreases |AllCells(s.cfg) - s.lookedAt|, |s.queue|
  {
    if |s.queue| > 0 && EntryCost(s, Top(s)) == curCost {
      var p := PopOne(s, fs);
      BatchUnfold(s, curCost, fs);
      PopOneAtLeast(s, curCost, fs);
      BatchFinishesTier(p.0, curCost, p.1);
    } else if |s.queue| > 0 {
      assert forall j | 0 <= j < |s.queue| :: EntryCost(s, j) >= EntryCost(s, Top(s));
    }
  }

  /** With positive cell costs, popping an entry of the least cost c leaves no entry below c. */
  lemma PopOneAtLeast(s: Solver, curCost: int, fs: seq<nat>)
    requires Valid(s) && Candidates(s.cfg, s.arena, fs) && PositiveCosts(s.cfg.costs) && QueueAtLeast(s, curCost)
    requires |s.queue| > 0 && EntryCost(s, Top(s)) == curCost
    ensures QueueAtLeast(PopOne(s, fs).0, curCost)
  {
    var p := PopOne(s, fs);
    var top := s.queue[Top(s)];
    PopOneEntries(s, fs);
    forall j | 0 <= j < |p.0.queue|
      ensures EntryCost(p.0, j) >= curCost
    {
      var k := p.0.queue[j];
      if k in s.queue {
        var i :| 0 <= i < |s.queue| && s.queue[i] == k;
        assert p.0.arena[k] == s.arena[k];
        assert EntryCost(s, i) >= curCost;
      } else {
        assert p.0.arena[k].parent == Some(top);
        assert p.0.arena[top] == s.arena[top];
        assert Entered(p.0.cfg, p.0.arena, k);
        assert p.0.arena[k].totalCost == p.0.arena[top].totalCost + p.0.arena[k].pos.cost;
      }
    }
  }
}
