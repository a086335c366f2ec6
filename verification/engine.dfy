/**
 The solver: its state, its constructor, and the invariant every step keeps.
 The priority queue is a sequence of arena indices; the open set
 (`nextSet`) and the closed set (`lookedAt`) hold cell coordinates.
 */
module Engine {
  import opened Wrappers
  import opened Grid
  import opened Parse
  import opened ParseCorrected
  import opened Positions
  import opened Moves
  import opened PathTree

  /** The solver's fixed parts: the grid, the cost table, the markers and the move lists. */
  datatype Config = Config(
    field: string,
    width: nat,
    height: nat,
    costs: map<char, int>,
    endChar: char,
    marker: char,
    checks: seq<Dir>,
    moves: seq<Dir>)

  /**
   The solver: its configuration, the arena of path-tree nodes (the root
   at index 0), the priority queue, the open and closed sets, and the
   found node.
   */
  datatype Solver = Solver(
    cfg: Config,
    arena: seq<Node>,
    queue: seq<nat>,
    nextSet: set<Coord>,
    lookedAt: set<Coord>,
    found: Option<nat>)

  datatype SolverError = Malformed(GridError) | MovesetMismatch

  /**
   The constructor as written: runs the measuring loop (which throws when
   a closed line, or else the final line, fails its width check), puts the
   root at the start cell with cost 0, then rejects a guard list and a move
   list of different lengths.
   */
  function Construct(input: string, costs: map<char, int>, start: char, end: char, marker: char,
                     checks: seq<Dir>, moves: seq<Dir>): (r: Result<Solver, SolverError>)
    ensures r.Ok? <==> AcceptedAsWritten(Lines(input)) && |checks| == |moves|
    ensures !TerminatedOk(Terminated(Lines(input))) ==> r == Err(Malformed(LinesDiffer))
    ensures TerminatedOk(Terminated(Lines(input))) && !AcceptedAsWritten(Lines(input)) ==>
              r == Err(Malformed(LastLineDiffers))
    ensures AcceptedAsWritten(Lines(input)) && |checks| != |moves| ==> r == Err(MovesetMismatch)
    ensures r.Ok? ==> && r.value.cfg == Config(input, FirstNonZero(Terminated(Lines(input))), Newlines(input) + 1,
                                               costs, end, marker, checks, moves)
                      && r.value.arena == [Node(Position(StartAt(input, start).0, StartAt(input, start).1, 0), 0, None)]
                      && r.value.queue == [] && r.value.nextSet == {} && r.value.lookedAt == {}
                      && r.value.found == None
  {
    Start(Dimensions(input, start), input, costs, end, marker, checks, moves)
  }

  /**
   The constructor with the evidently intended width check: every row,
   the first and the last included, must be as wide as the first.
   */
  function ConstructCorrected(input: string, costs: map<char, int>, start: char, end: char, marker: char,
                              checks: seq<Dir>, moves: seq<Dir>): (r: Result<Solver, SolverError>)
    ensures r.Ok? <==> SameWidth(Lines(input)) && |checks| == |moves|
    ensures !SameWidth(Lines(input)) ==> r.Err? && r.error.Malformed?
    ensures SameWidth(Lines(input)) && |checks| != |moves| ==> r == Err(MovesetMismatch)
    ensures r.Ok? ==> && r.value.cfg == Config(input, |Lines(input)[0]|, Newlines(input) + 1,
                                               costs, end, marker, checks, moves)
                      && Rectangular(input, r.value.cfg.width, r.value.cfg.height)
                      && r.value.arena == [Node(Position(StartAt(input, start).0, StartAt(input, start).1, 0), 0, None)]
                      && r.value.queue == [] && r.value.nextSet == {} && r.value.lookedAt == {}
                      && r.value.found == None
  {
    Start(Measure(input, start), input, costs, end, marker, checks, moves)
  }

  /** The rest of the constructor once the grid is measured: the move-list check and the initial state. */
  function Start(m: Result<Dims, GridError>, input: string, costs: map<char, int>, end: char, marker: char,
                 checks: seq<Dir>, moves: seq<Dir>): Result<Solver, SolverError>
  {
    match m
    case Err(e) => Err(Malformed(e))
    case Ok(d) =>
      if |checks| != |moves| then Err(MovesetMismatch)
      else
        var root := Node(Position(d.startX, d.startY, 0), 0, None);
        Ok(Solver(Config(input, d.width, d.height, costs, end, marker, checks, moves), [root], [], {}, {}, None))
  }

  /**
   On a text whose first line is closed and non-empty, such as the shipped
   grid, the constructor as written and as intended agree.
   */
  lemma ConstructAgrees(input: string, costs: map<char, int>, start: char, end: char, marker: char,
                        checks: seq<Dir>, moves: seq<Dir>)
    requires |Lines(input)| >= 2 && |Lines(input)[0]| > 0
    ensures Construct(input, costs, start, end, marker, checks, moves) ==
            ConstructCorrected(input, costs, start, end, marker, checks, moves)
  {
    DimensionsAgree(input, start);
  }

  /** The corrected constructor only yields grids whose text is a rectangle; with a text that fits a size_t, Shape holds. */
  lemma ConstructCorrectedShape(input: string, costs: map<char, int>, start: char, end: char, marker: char,
                                checks: seq<Dir>, moves: seq<Dir>)
    requires ConstructCorrected(input, costs, start, end, marker, checks, moves).Ok?
    requires |input| < SIZE_MAX
    ensures Shape(ConstructCorrected(input, costs, start, end, marker, checks, moves).value.cfg)
  {
  }

  // ---------------------------------------------------------------------
  // The invariant.

  /** The grid is a rectangle whose text fits a size_t, and the move lists pair up. */
  predicate Shape(c: Config)
  {
    Rectangular(c.field, c.width, c.height) && |c.field| < SIZE_MAX && |c.checks| == |c.moves|
  }

  lemma ShapeBounds(c: Config)
    requires Shape(c)
    ensures c.width < SIZE_MAX && c.height <= SIZE_MAX
  {
    IndexFormula(c.width, 0, c.height);
    MulLeq(c.width + 1, 1, c.height);
    MulLeq(c.height, 1, c.width + 1);
  }

  /** The symbol of a cell of the grid. */
  function Sym(c: Config, x: nat, y: nat): char
    requires Shape(c) && x < c.width && y < c.height
  {
    IndexInRange(c.field, c.width, c.height, x, y);
    GetAt(c.field, c.width, x, y)
  }

  /** A cell off the grid's border: all four neighbours are cells. */
  predicate Interior(c: Config, p: Coord)
  {
    0 < p.0 && p.0 + 1 < c.width && 0 < p.1 && p.1 + 1 < c.height
  }

  /**
   The grid is walled in: every cell the cost table admits lies off the
   border.  The source never checks bounds, so it relies on this.
   */
  predicate Enclosed(c: Config)
    requires Shape(c)
  {
    forall x: nat, y: nat | x < c.width && y < c.height && Sym(c, x, y) in c.costs :: Interior(c, (x, y))
  }

  /** Node i is where a move led: an admitted cell, priced by the table, one step from its parent. */
  predicate Entered(c: Config, arena: seq<Node>, i: nat)
    requires Shape(c) && ArenaOk(arena) && 0 < i < |arena|
    requires Interior(c, Key(arena[i].pos))
  {
    var p := arena[i].pos;
    && Sym(c, p.x, p.y) in c.costs
    && p.cost == c.costs[Sym(c, p.x, p.y)]
    && UnitStep(Key(arena[arena[i].parent.value].pos), Key(p))
  }

  /** The path tree: rooted at node 0 with cost 0, all nodes off the border, children entered by moves. */
  predicate NodesOk(c: Config, arena: seq<Node>)
    requires Shape(c)
  {
    && ArenaOk(arena)
    && CostsConsistent(arena)
    && (forall i | 0 <= i < |arena| :: Interior(c, Key(arena[i].pos)))
    && (forall i | 0 < i < |arena| :: Entered(c, arena, i))
  }

  /** The cells of the queued nodes. */
  function QueueKeys(arena: seq<Node>, queue: seq<nat>): set<Coord>
    requires forall j | 0 <= j < |queue| :: queue[j] < |arena|
  {
    set j | 0 <= j < |queue| :: Key(arena[queue[j]].pos)
  }

  /** Queued entries are non-root nodes of the arena. */
  predicate Queued(s: Solver)
  {
    forall j | 0 <= j < |s.queue| :: 0 < s.queue[j] < |s.arena|
  }

  /**
   The open set is exactly the queued cells not yet closed (stale
   duplicates of closed cells may stay queued).
   */
  predicate QueueOk(s: Solver)
  {
    Queued(s) && s.nextSet == QueueKeys(s.arena, s.queue) - s.lookedAt
  }

  /** A found node is a non-root node on a goal cell. */
  predicate FoundOk(c: Config, arena: seq<Node>, found: Option<nat>)
    requires Shape(c)
  {
    found.Some? ==>
      && 0 < found.value < |arena|
      && arena[found.value].pos.x < c.width && arena[found.value].pos.y < c.height
      && Sym(c, arena[found.value].pos.x, arena[found.value].pos.y) == c.endChar
  }

  predicate Valid(s: Solver)
  {
    && Shape(s.cfg) && Enclosed(s.cfg) && NodesOk(s.cfg, s.arena)
    && QueueOk(s) && FoundOk(s.cfg, s.arena, s.found)
  }

  /** The open and closed sets never share a cell. */
  lemma OpenAndClosedDisjoint(s: Solver)
    requires Valid(s)
    ensures s.nextSet !! s.lookedAt
  {
  }

  /**
   A freshly constructed solver satisfies the invariant when its text is a
   rectangle of the measured size, the grid is walled in and the start
   cell is off the border.  The constructor as written also accepts some
   texts that are not rectangles ("\nab\nab"); those stay outside Valid.
   */
  lemma ConstructValid(input: string, costs: map<char, int>, start: char, end: char, marker: char,
                       checks: seq<Dir>, moves: seq<Dir>)
    requires Construct(input, costs, start, end, marker, checks, moves).Ok?
    requires var s := Construct(input, costs, start, end, marker, checks, moves).value;
             Shape(s.cfg) && Enclosed(s.cfg) && Interior(s.cfg, Key(s.arena[0].pos))
    ensures Valid(Construct(input, costs, start, end, marker, checks, moves).value)
  {
  }
}
