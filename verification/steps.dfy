/**
 Solver::step and the queries on a solver: one step expands the root (when
 the queue is empty) or one cost tier, then records the cheapest goal
 candidate of that step.
 */
module Steps {
  import opened Wrappers
  import opened Grid
  import opened Positions
  import opened Moves
  import opened PathTree
  import opened Engine
  import opened Expand
  import opened ExpandProps
  import opened Search

  /** INT_MAX of a 32-bit int, the selection loop's initial bound. */
  const INT_MAX: int := 0x7FFF_FFFF

  /**
   Candidate j of fs is the one the selection loop keeps: it costs less
   than INT_MAX, no candidate costs less, and every earlier one costs more.
   */
  predicate Cheapest(arena: seq<Node>, fs: seq<nat>, j: nat)
    requires forall i | 0 <= i < |fs| :: fs[i] < |arena|
  {
    && j < |fs|
    && arena[fs[j]].totalCost < INT_MAX
    && (forall i | 0 <= i < |fs| :: arena[fs[j]].totalCost <= arena[fs[i]].totalCost)
    && (forall i | 0 <= i < j :: arena[fs[i]].totalCost > arena[fs[j]].totalCost)
  }

  /** No candidate costs less than INT_MAX. */
  predicate AllAtIntMax(arena: seq<Node>, fs: seq<nat>)
    requires forall i | 0 <= i < |fs| :: fs[i] < |arena|
  {
    forall i | 0 <= i < |fs| :: arena[fs[i]].totalCost >= INT_MAX
  }

  /**
   The selection loop of Solver::step, run over fs in order with the bound
   starting at INT_MAX and replaced only by a strictly smaller cost: the
   position of the candidate it keeps, or None when it keeps none.
   */
  function SelectMin(arena: seq<Node>, fs: seq<nat>): (r: Option<nat>)
    requires forall j | 0 <= j < |fs| :: fs[j] < |arena|
    ensures r.None? <==> AllAtIntMax(arena, fs)
    ensures r.Some? ==> Cheapest(arena, fs, r.value)
  {
    if |fs| == 0 then None
    else
      var init := fs[..|fs| - 1];
      assert forall j | 0 <= j < |init| :: init[j] == fs[j];
      var m := SelectMin(arena, init);
      var minCost := if m.Some? then arena[fs[m.value]].totalCost else INT_MAX;
      if arena[fs[|fs| - 1]].totalCost < minCost then Some(|fs| - 1) else m
  }

  /** Recording a non-root node on a goal cell as found keeps the invariant. */
  lemma FoundValid(s: Solver, k: nat)
    requires Valid(s) && 0 < k < |s.arena| && OnGoal(s.cfg, s.arena, k)
    ensures Valid(s.(found := Some(k)))
  {
  }

  /**
   The expansion part of Solver::step.  With an empty queue it expands the
   root: nothing is closed and every new node is a child of the root.
   Otherwise it pops the tier of the top's cost, which is gone from the top
   afterwards.  Either way the candidates are exactly the new goal nodes.
   */
  function Advance(s: Solver): (r: (Solver, seq<nat>))
    requires Valid(s)
    ensures Valid(r.0) && Candidates(r.0.cfg, r.0.arena, r.1) && SameConfig(s, r.0)
    ensures s.arena <= r.0.arena && r.0.found == s.found && s.lookedAt <= r.0.lookedAt
    ensures NewGoals(s.cfg, |s.arena|, r.0.arena, [], r.1)
    ensures |s.queue| == 0 ==> r.0.lookedAt == s.lookedAt
    ensures |s.queue| == 0 ==> forall k | |s.arena| <= k < |r.0.arena| :: r.0.arena[k].parent == Some(0)
    ensures |s.queue| > 0 ==> |r.0.queue| == 0 || EntryCost(r.0, Top(r.0)) != EntryCost(s, Top(s))
  {
    if |s.queue| == 0 then
      RootExpansion(s);
      AddAround(s, 0, [])
    else
      Batch(s, EntryCost(s, Top(s)), [])
  }

  /** Expanding the root keeps the invariant, closes nothing, and collects exactly the new goal nodes. */
  lemma RootExpansion(s: Solver)
    requires Valid(s)
    ensures Expandable(s, 0)
    ensures var r := AddAround(s, 0, []);
      && Valid(r.0) && Candidates(r.0.cfg, r.0.arena, r.1) && SameConfig(s, r.0)
      && s.arena <= r.0.arena && r.0.found == s.found && r.0.lookedAt == s.lookedAt
      && NewGoals(s.cfg, |s.arena|, r.0.arena, [], r.1)
      && forall k | |s.arena| <= k < |r.0.arena| :: r.0.arena[k].parent == Some(0)
  {
    AddAroundValid(s, 0, []);
    AddAroundGoals(s, 0, []);
    AddAroundQueues(s, 0, []);
    var r := AddAround(s, 0, []);
    CandidatesGrow(s.cfg, s.arena, [], r.0.arena, r.1);
  }

  /**
   Node k is the goal node the selection loop keeps among those created
   from arena index n on: it costs less than INT_MAX, no such goal node
   costs less, and every one created before it costs more.
   */
  ghost predicate FirstCheapestGoal(c: Config, a: seq<Node>, n: nat, k: nat)
    requires Shape(c)
  {
    && n <= k < |a| && OnGoal(c, a, k) && a[k].totalCost < INT_MAX
    && (forall k' | n <= k' < |a| && OnGoal(c, a, k') :: a[k].totalCost <= a[k'].totalCost)
    && (forall k' | n <= k' < k && OnGoal(c, a, k') :: a[k'].totalCost > a[k].totalCost)
  }

  /**
   The selection loop over the goal nodes created from index n on: there
   are candidates exactly when such a goal node exists, the one it keeps
   is the first cheapest of them, and it keeps none only when all cost at
   least INT_MAX.
   */
  lemma CheapestGoals(c: Config, a: seq<Node>, n: nat, fs: seq<nat>)
    requires Shape(c) && (forall j | 0 <= j < |fs| :: fs[j] < |a|)
    requires NewGoals(c, n, a, [], fs)
    ensures |fs| > 0 <==> exists k :: n <= k < |a| && OnGoal(c, a, k)
    ensures forall j: nat | Cheapest(a, fs, j) :: FirstCheapestGoal(c, a, n, fs[j])
    ensures AllAtIntMax(a, fs) ==> forall k | n <= k < |a| && OnGoal(c, a, k) :: a[k].totalCost >= INT_MAX
  {
    assert fs[0..] == fs;
    assert forall k :: k in fs <==> n <= k < |a| && OnGoal(c, a, k);
    if |fs| > 0 {
      assert fs[0] in fs;
    }
    forall j: nat | Cheapest(a, fs, j)
      ensures FirstCheapestGoal(c, a, n, fs[j])
    {
      var k := fs[j];
      assert k in fs;
      forall k' | n <= k' < |a| && OnGoal(c, a, k')
        ensures a[k].totalCost <= a[k'].totalCost
      {
        var i :| 0 <= i < |fs| && fs[i] == k';
      }
      forall k' | n <= k' < k && OnGoal(c, a, k')
        ensures a[k'].totalCost > a[k].totalCost
      {
        var i :| 0 <= i < |fs| && fs[i] == k';
      }
    }
    if AllAtIntMax(a, fs) {
      forall k | n <= k < |a| && OnGoal(c, a, k)
        ensures a[k].totalCost >= INT_MAX
      {
        var i :| 0 <= i < |fs| && fs[i] == k;
      }
    }
  }

  /**
   The end of Solver::step: with goal candidates fs, records the one the
   selection loop keeps and answers true; with none, answers false.
   */
  function Record(t: Solver, fs: seq<nat>): (r: (Solver, bool))
    requires Valid(t) && Candidates(t.cfg, t.arena, fs) && t.found.None?
    ensures Valid(r.0) && r.0.arena == t.arena
    ensures r.1 <==> |fs| > 0
    ensures r.0.found.Some? ==> exists j: nat :: Cheapest(t.arena, fs, j) && fs[j] == r.0.found.value
    ensures |fs| > 0 && r.0.found.None? ==> AllAtIntMax(t.arena, fs)
    ensures r.0 == t || r.0 == t.(found := r.0.found)
  {
    if |fs| == 0 then (t, false)
    else
      match SelectMin(t.arena, fs)
      case None => (t, true)
      case Some(j) =>
        FoundValid(t, fs[j]);
        (t.(found := Some(fs[j])), true)
  }

  /**
   Solver::step: does nothing and answers true once a goal is found;
   otherwise advances, then records the cheapest goal candidate the
   advance produced.
   */
  function Step(s: Solver): (r: (Solver, bool))
    requires Valid(s)
    ensures Valid(r.0) && SameConfig(s, r.0) && s.arena <= r.0.arena && s.lookedAt <= r.0.lookedAt
    ensures s.found.Some? ==> r == (s, true)
    ensures r.0.found.Some? ==> r.1
    ensures s.found.None? ==> (r.1 <==> exists k :: |s.arena| <= k < |r.0.arena| && OnGoal(r.0.cfg, r.0.arena, k))
    ensures s.found.None? && r.0.found.Some? ==> FirstCheapestGoal(r.0.cfg, r.0.arena, |s.arena|, r.0.found.value)
    ensures s.found.None? && r.1 && r.0.found.None? ==>
              forall k | |s.arena| <= k < |r.0.arena| && OnGoal(r.0.cfg, r.0.arena, k) :: r.0.arena[k].totalCost >= INT_MAX
  {
    if s.found.Some? then (s, true)
    else
      var a := Advance(s);
      CheapestGoals(a.0.cfg, a.0.arena, |s.arena|, a.1);
      Record(a.0, a.1)
  }

  /** n steps. */
  function Run(s: Solver, n: nat): (r: Solver)
    requires Valid(s)
    ensures Valid(r) && SameConfig(s, r)
    decreases n
  {
    if n == 0 then s else Run(Step(s).0, n - 1)
  }

  /** Once a goal is found, every later step answers true and changes nothing. */
  lemma {:induction false} FoundIsFinal(s: Solver, n: nat)
    requires Valid(s) && s.found.Some?
    ensures Run(s, n) == s && Step(Run(s, n)) == (s, true)
  {
    if n > 0 {
      FoundIsFinal(Step(s).0, n - 1);
    }
  }

  /** No move from the root is taken: each is guarded off, walled, or leads to a closed cell. */
  predicate RootExhausted(s: Solver)
    requires Valid(s)
  {
    ValidExpandable(s, 0);
    forall i | 0 <= i < |s.cfg.moves| :: Target(s, 0, i).None?
  }

  /**
   An unsolvable grid: with the queue empty, no goal found, and no move
   from the root taken any more, a step re-expands the root, adds nothing,
   and answers false, and so does every later step.
   */
  lemma {:induction false} StuckForever(s: Solver, n: nat)
    requires Valid(s) && |s.queue| == 0 && s.found.None?
    requires RootExhausted(s)
    ensures Step(s) == (s, false)
    ensures Run(s, n) == s
  {
    ValidExpandable(s, 0);
    assert Taken(s, 0, |s.cfg.moves|) == [] by {
      if Taken(s, 0, |s.cfg.moves|) != [] {
        var t := Taken(s, 0, |s.cfg.moves|)[0];
        TakenIsTargets(s, 0, |s.cfg.moves|, t);
        assert false;
      }
    }
    assert Extended(s, 0, [], []).0 == s;
    if n > 0 {
      StuckForever(s, n - 1);
    }
  }

  /** Every move from the root that is still taken leads to an open cell. */
  predicate RootCovered(s: Solver)
    requires Valid(s)
  {
    ValidExpandable(s, 0);
    forall i | 0 <= i < |s.cfg.moves| :: Target(s, 0, i).Some? ==> Target(s, 0, i).value in s.nextSet
  }

  /** Expanding the root opens the cell of every move from it that is taken. */
  lemma RootExpansionCovers(s: Solver)
    requires Valid(s)
    ensures Expandable(s, 0) && Valid(AddAround(s, 0, []).0)
    ensures RootCovered(AddAround(s, 0, []).0)
  {
    AddAroundValid(s, 0, []);
    var ts := Taken(s, 0, |s.cfg.moves|);
    var r := AddAround(s, 0, []).0;
    assert r.nextSet == s.nextSet + Cells(ts);
    forall i | 0 <= i < |s.cfg.moves| && Target(r, 0, i).Some?
      ensures Target(r, 0, i).value in r.nextSet
    {
      TargetFrame(s, r, 0, i);
      var t := Target(r, 0, i).value;
      TakenIsTargets(s, 0, |s.cfg.moves|, t);
    }
  }

  /** A pop closes at most the top's cell, and a target that is not closed stays open. */
  lemma PopOneKeepsRootCovered(s: Solver, fs: seq<nat>)
    requires Valid(s) && |s.queue| > 0 && Candidates(s.cfg, s.arena, fs) && RootCovered(s)
    ensures RootCovered(PopOne(s, fs).0)
  {
    var p := PopOne(s, fs).0;
    TopKeyFacts(s);
    assert s.nextSet - {TopKey(s)} <= p.nextSet by {
      if TopKey(s) in s.nextSet {
        var top := s.queue[Top(s)];
        assert Interior(s.cfg, Key(s.arena[top].pos));
        assert p.nextSet == Closed(s).nextSet + Cells(Taken(Closed(s), top, |s.cfg.moves|));
      }
    }
    assert p.arena[0] == s.arena[0];
    forall i | 0 <= i < |s.cfg.moves| && Target(p, 0, i).Some?
      ensures Target(p, 0, i).value in p.nextSet
    {
      TargetFrame(s, p, 0, i);
    }
  }

  /** A batch keeps every taken move from the root leading to an open cell. */
  lemma {:induction false} BatchKeepsRootCovered(s: Solver, curCost: int, fs: seq<nat>)
    requires Valid(s) && Candidates(s.cfg, s.arena, fs) && RootCovered(s)
    ensures RootCovered(Batch(s, curCost, fs).0)
    decreases |AllCells(s.cfg) - s.lookedAt|, |s.queue|
  {
    if |s.queue| > 0 && EntryCost(s, Top(s)) == curCost {
      var p := PopOne(s, fs);
      BatchUnfold(s, curCost, fs);
      PopOneKeepsRootCovered(s, fs);
      BatchKeepsRootCovered(p.0, curCost, p.1);
    }
  }

  /** Advancing from a solver with an empty queue, or one already covered, leaves the root's taken moves on open cells. */
  lemma AdvanceCovers(s: Solver)
    requires Valid(s) && (|s.queue| == 0 || RootCovered(s))
    ensures RootCovered(Advance(s).0)
  {
    if |s.queue| == 0 {
      RootExpansionCovers(s);
    } else {
      BatchKeepsRootCovered(s, EntryCost(s, Top(s)), []);
    }
  }

  /** Recording a candidate changes neither the targets nor the open set. */
  lemma RecordCovers(t: Solver, fs: seq<nat>)
    requires Valid(t) && Candidates(t.cfg, t.arena, fs) && t.found.None? && RootCovered(t)
    ensures RootCovered(Record(t, fs).0)
  {
    var r := Record(t, fs).0;
    forall i | 0 <= i < |t.cfg.moves| && Target(r, 0, i).Some?
      ensures Target(r, 0, i).value in r.nextSet
    {
      TargetFrame(t, r, 0, i);
    }
  }

  /** After any step from a solver with an empty queue, or one already covered, the root's taken moves lead to open cells. */
  lemma StepKeepsRootCovered(s: Solver)
    requires Valid(s) && s.found.None? && (|s.queue| == 0 || RootCovered(s))
    ensures RootCovered(Step(s).0)
  {
    var a := Advance(s);
    AdvanceCovers(s);
    RecordCovers(a.0, a.1);
  }

  /** From a solver with an empty queue, every later state without a goal has its root's taken moves on open cells. */
  lemma {:induction false} RunRootCovered(s: Solver, n: nat)
    requires Valid(s) && n >= 1 && (|s.queue| == 0 || RootCovered(s))
    ensures Run(s, n).found.None? ==> RootCovered(Run(s, n))
    decreases n
  {
    if s.found.Some? {
      FoundIsFinal(s, n);
    } else {
      var t := Step(s).0;
      StepKeepsRootCovered(s);
      assert Run(s, n) == Run(t, n - 1);
      if n > 1 {
        RunRootCovered(t, n - 1);
      } else {
        assert Run(t, 0) == t;
      }
    }
  }

  /**
   The search of an unsolvable grid gets stuck: if, after one or more steps
   from a solver with an empty queue (a freshly constructed one), the queue
   is empty again and no goal is found, then no move from the root is taken
   any more, and every later step answers false and changes nothing.
   */
  lemma SearchStuck(s: Solver, n: nat, m: nat)
    requires Valid(s) && |s.queue| == 0 && n >= 1
    ensures var t := Run(s, n);
      |t.queue| == 0 && t.found.None? ==> RootExhausted(t) && Step(t) == (t, false) && Run(t, m) == t
  {
    RunRootCovered(s, n);
    var t := Run(s, n);
    if |t.queue| == 0 && t.found.None? {
      assert QueueKeys(t.arena, t.queue) == {};
      assert RootExhausted(t);
      StuckForever(t, m);
    }
  }

  /** SearchStuck for the solver the constructor builds. */
  lemma ConstructedSearchStuck(input: string, costs: map<char, int>, start: char, end: char, marker: char,
                               checks: seq<Dir>, moves: seq<Dir>, n: nat, m: nat)
    requires Construct(input, costs, start, end, marker, checks, moves).Ok?
    requires var s := Construct(input, costs, start, end, marker, checks, moves).value;
             Shape(s.cfg) && Enclosed(s.cfg) && Interior(s.cfg, Key(s.arena[0].pos))
    requires n >= 1
    ensures Valid(Construct(input, costs, start, end, marker, checks, moves).value)
    ensures var t := Run(Construct(input, costs, start, end, marker, checks, moves).value, n);
      |t.queue| == 0 && t.found.None? ==> Step(t) == (t, false) && Run(t, m) == t
  {
    ConstructValid(input, costs, start, end, marker, checks, moves);
    SearchStuck(Construct(input, costs, start, end, marker, checks, moves).value, n, m);
  }

  /** The found node's total cost is the sum of the cell costs along its path from the root. */
  lemma FoundCostIsPathSum(s: Solver)
    requires Valid(s) && s.found.Some?
    ensures s.arena[s.found.value].totalCost == StepCosts(s.arena, Chain(s.arena, s.found.value))
  {
    TotalCostIsPathSum(s.arena, s.found.value);
  }
}
