/** The Game of Life on a W-by-H grid without wrap-around, stated on values.
    A grid is a sequence of W*H cells; cell (x, y) lives at index y*W + x. */
module Life {
  import opened Bitset

  /** Bounds-checked read of a grid: cells outside the sequence are dead. */
  function At(g: seq<bool>, i: int): (alive: bool)
  {
    0 <= i < |g| && g[i]
  }

  /** The state of cell (x, y), read through the bounds-checked index y*W + x. */
  function CellAt(g: seq<bool>, W: int, x: int, y: int): (alive: bool)
  {
    At(g, y * W + x)
  }

  /** Whether (cx, cy) is one of the 8 Moore neighbours of (x, y). */
  predicate IsNeighbor(x: int, y: int, cx: int, cy: int)
  {
    -1 <= cx - x <= 1 && -1 <= cy - y <= 1 && !(cx == x && cy == y)
  }

  /** What the neighbour at offset (dx, dy) adds to the count of (x, y):
      nothing for the cell itself or for a position off the grid, otherwise
      one if that neighbour is alive. */
  function Contribution(g: seq<bool>, W: int, H: int, x: int, y: int, dx: int, dy: int): (c: nat)
  {
    if dx == 0 && dy == 0 then 0
    else if 0 <= x + dx < W && 0 <= y + dy < H && CellAt(g, W, x + dx, y + dy) then 1
    else 0
  }

  /** The contributions of offsets dx in [-1, k) of row dy. */
  function RowCount(g: seq<bool>, W: int, H: int, x: int, y: int, dy: int, k: int): (count: nat)
    requires -1 <= k <= 2
    decreases k + 1
  {
    if k == -1 then 0
    else RowCount(g, W, H, x, y, dy, k - 1) + Contribution(g, W, H, x, y, k - 1, dy)
  }

  /** The contributions of whole rows dy in [-1, k). */
  function BlockCount(g: seq<bool>, W: int, H: int, x: int, y: int, k: int): (count: nat)
    requires -1 <= k <= 2
    decreases k + 1
  {
    if k == -1 then 0
    else BlockCount(g, W, H, x, y, k - 1) + RowCount(g, W, H, x, y, k - 1, 2)
  }

  /** The number of live cells among the in-bounds Moore neighbours of (x, y). */
  function Neighbors(g: seq<bool>, W: int, H: int, x: int, y: int): (count: nat)
    ensures count <= 8
  {
    BlockCount(g, W, H, x, y, 2)
  }

  /** The B3/S23 rule: a live cell survives with 2 or 3 live neighbours,
      a dead cell is born with exactly 3. */
  predicate Rule(alive: bool, n: int)
  {
    (alive && (n == 2 || n == 3)) || (!alive && n == 3)
  }

  /** What the rule lets through: only counts of 2 or 3 keep or make a cell
      alive, a dead cell needs exactly 3, and 3 always gives a live cell. */
  lemma RuleCases(alive: bool, n: int)
    ensures Rule(alive, n) ==> n == 2 || n == 3
    ensures !alive ==> (Rule(alive, n) <==> n == 3)
    ensures n == 3 ==> Rule(alive, n)
  {
  }

  function NextCell(g: seq<bool>, W: int, H: int, x: int, y: int): (alive: bool)
  {
    Rule(At(g, y * W + x), Neighbors(g, W, H, x, y))
  }

  /** The next generation of grid g. */
  function Next(g: seq<bool>, W: int, H: int): (r: seq<bool>)
    requires W > 0 && H > 0
    ensures |r| == W * H
  {
    seq(W * H, i => NextCell(g, W, H, i % W, i / W))
  }

  /** What one call of update reports and the generations it leaves behind. */
  datatype Outcome = Outcome(running: bool, prev: seq<bool>, cur: seq<bool>)

  /** One generation step with the union stop test: stop when the next
      generation repeats the previous one (period 2) or the current one
      (period 1); otherwise shift prev <- cur, cur <- next. */
  function Step(W: int, H: int, prev: seq<bool>, cur: seq<bool>): (r: Outcome)
    requires W > 0 && H > 0
    ensures r.running ==> r.cur != r.prev && r.cur != prev
    ensures !r.running ==> r.prev == prev && r.cur == cur
    ensures |cur| == W * H ==> |r.cur| == W * H
  {
    var next := Next(cur, W, H);
    if next == prev || next == cur then Outcome(false, prev, cur)
    else Outcome(true, cur, next)
  }

  // ---------------------------------------------------------------------
  // Index arithmetic

  lemma IndexInRange(x: int, y: int, W: int, H: int)
    requires 0 <= x < W && 0 <= y < H
    ensures 0 <= y * W + x < W * H
  {
    assert (y + 1) * W <= H * W;
  }

  lemma MulAtLeast(a: int, b: int)
    requires a >= 1 && b > 0
    ensures a * b >= b
  {
  }

  lemma MulDistributes(a: int, c: int, b: int)
    ensures a * b - c * b == (a - c) * b
  {
  }

  lemma IndexDivMod(x: int, y: int, W: int)
    requires 0 <= x < W && 0 <= y
    ensures (y * W + x) / W == y && (y * W + x) % W == x
  {
    var i := y * W + x;
    var q, r := i / W, i % W;
    assert q * W + r == i;
    MulDistributes(q, y, W);
    assert (q - y) * W == x - r;
    if q > y {
      MulAtLeast(q - y, W);
    } else if q < y {
      MulDistributes(y, q, W);
      MulAtLeast(y - q, W);
    }
  }

  /** Distinct in-bounds coordinates have distinct indices. */
  lemma IndexInjective(x1: int, y1: int, x2: int, y2: int, W: int)
    requires 0 <= x1 < W && 0 <= x2 < W && 0 <= y1 && 0 <= y2
    requires y1 * W + x1 == y2 * W + x2
    ensures x1 == x2 && y1 == y2
  {
    IndexDivMod(x1, y1, W);
    IndexDivMod(x2, y2, W);
  }

  // ---------------------------------------------------------------------
  // The neighbour count

  /** A cell has at most 8 live neighbours. */
  lemma NeighborsBound(g: seq<bool>, W: int, H: int, x: int, y: int)
    ensures 0 <= Neighbors(g, W, H, x, y) <= 8
  {
  }

  /** The count is the sum of the contributions of the eight offsets. */
  lemma NeighborsAsSum(g: seq<bool>, W: int, H: int, x: int, y: int)
    ensures Neighbors(g, W, H, x, y) ==
      Contribution(g, W, H, x, y, -1, -1) + Contribution(g, W, H, x, y, 0, -1) + Contribution(g, W, H, x, y, 1, -1) +
      Contribution(g, W, H, x, y, -1, 0) + Contribution(g, W, H, x, y, 1, 0) +
      Contribution(g, W, H, x, y, -1, 1) + Contribution(g, W, H, x, y, 0, 1) + Contribution(g, W, H, x, y, 1, 1)
  {
  }

  /** Two grids that agree on every in-bounds cell except (cx, cy): their
      counts at (x, y) differ exactly by what (cx, cy) adds when it is an
      in-bounds Moore neighbour of (x, y). */
  lemma NeighborsDifferAt(g1: seq<bool>, g2: seq<bool>, W: int, H: int, x: int, y: int, cx: int, cy: int)
    requires forall nx, ny :: 0 <= nx < W && 0 <= ny < H && !(nx == cx && ny == cy) ==>
      CellAt(g1, W, nx, ny) == CellAt(g2, W, nx, ny)
    ensures var counted := IsNeighbor(x, y, cx, cy) && 0 <= cx < W && 0 <= cy < H;
      Neighbors(g1, W, H, x, y) + (if counted && CellAt(g2, W, cx, cy) then 1 else 0)
      == Neighbors(g2, W, H, x, y) + (if counted && CellAt(g1, W, cx, cy) then 1 else 0)
  {
    NeighborsAsSum(g1, W, H, x, y);
    NeighborsAsSum(g2, W, H, x, y);
    ContributionAgrees(g1, g2, W, H, x, y, cx, cy, -1, -1);
    ContributionAgrees(g1, g2, W, H, x, y, cx, cy, 0, -1);
    ContributionAgrees(g1, g2, W, H, x, y, cx, cy, 1, -1);
    ContributionAgrees(g1, g2, W, H, x, y, cx, cy, -1, 0);
    ContributionAgrees(g1, g2, W, H, x, y, cx, cy, 1, 0);
    ContributionAgrees(g1, g2, W, H, x, y, cx, cy, -1, 1);
    ContributionAgrees(g1, g2, W, H, x, y, cx, cy, 0, 1);
    ContributionAgrees(g1, g2, W, H, x, y, cx, cy, 1, 1);
  }

  /** The contribution of an offset that does not land on (cx, cy) is the same in both grids. */
  lemma ContributionAgrees(g1: seq<bool>, g2: seq<bool>, W: int, H: int, x: int, y: int, cx: int, cy: int,
                           dx: int, dy: int)
    requires -1 <= dx <= 1 && -1 <= dy <= 1
    requires forall nx, ny :: 0 <= nx < W && 0 <= ny < H && !(nx == cx && ny == cy) ==>
      CellAt(g1, W, nx, ny) == CellAt(g2, W, nx, ny)
    ensures !(x + dx == cx && y + dy == cy) ==>
      Contribution(g1, W, H, x, y, dx, dy) == Contribution(g2, W, H, x, y, dx, dy)
    ensures x + dx == cx && y + dy == cy ==>
      Contribution(g1, W, H, x, y, dx, dy) ==
        if IsNeighbor(x, y, cx, cy) && 0 <= cx < W && 0 <= cy < H && CellAt(g1, W, cx, cy) then 1 else 0
  {
  }

  /** What the count sees of one cell (cx, cy): changing it to v adds or
      removes one exactly when it is an in-bounds Moore neighbour whose state
      changes. So the count never includes the cell itself, ignores cells that
      are not adjacent in the plane (in particular the cell at the other end of
      the row: there is no wrap-around), and counts every live neighbour. */
  lemma NeighborsOfUpdate(g: seq<bool>, W: int, H: int, x: int, y: int, cx: int, cy: int, v: bool)
    requires |g| == W * H && 0 <= cx < W && 0 <= cy < H
    ensures 0 <= cy * W + cx < |g|
    ensures Neighbors(g[cy * W + cx := v], W, H, x, y) + (if IsNeighbor(x, y, cx, cy) && g[cy * W + cx] then 1 else 0)
      == Neighbors(g, W, H, x, y) + (if IsNeighbor(x, y, cx, cy) && v then 1 else 0)
  {
    IndexInRange(cx, cy, W, H);
    var j := cy * W + cx;
    var g' := g[j := v];
    forall nx, ny | 0 <= nx < W && 0 <= ny < H && !(nx == cx && ny == cy)
      ensures CellAt(g', W, nx, ny) == CellAt(g, W, nx, ny)
    {
      if ny * W + nx == j {
        IndexInjective(nx, ny, cx, cy, W);
      }
    }
    NeighborsDifferAt(g', g, W, H, x, y, cx, cy);
  }

  /** Every cell of an all-dead grid has no live neighbour. */
  lemma NeighborsOfDead(n: nat, W: int, H: int, x: int, y: int)
    ensures Neighbors(AllClear(n), W, H, x, y) == 0
  {
  }

  // ---------------------------------------------------------------------
  // The next generation

  /** Cell (x, y) of the next generation follows the rule applied to its
      current state and its neighbour count. */
  lemma NextAt(g: seq<bool>, W: int, H: int, x: int, y: int)
    requires 0 <= x < W && 0 <= y < H
    ensures 0 <= y * W + x < W * H
    ensures Next(g, W, H)[y * W + x] == Rule(At(g, y * W + x), Neighbors(g, W, H, x, y))
  {
    IndexInRange(x, y, W, H);
    IndexDivMod(x, y, W);
  }

  /** NextAt in the terms the generation loop reads: the cell's state and its count. */
  lemma NextAtReads(g: seq<bool>, W: int, H: int, x: int, y: int, alive: bool, n: int)
    requires 0 <= x < W && 0 <= y < H
    requires alive == At(g, y * W + x) && n == Neighbors(g, W, H, x, y)
    ensures 0 <= y * W + x < W * H
    ensures Next(g, W, H)[y * W + x] == ((alive && (n == 2 || n == 3)) || (!alive && n == 3))
  {
    NextAt(g, W, H, x, y);
  }

  /** An all-dead grid is a fixed point. */
  lemma NextOfDead(W: int, H: int)
    requires W > 0 && H > 0
    ensures Next(AllClear(W * H), W, H) == AllClear(W * H)
  {
  }

  /** On an all-dead grid the step stops at once, whatever the previous generation. */
  lemma StepOnDeadStops(W: int, H: int, prev: seq<bool>)
    requires W > 0 && H > 0
    ensures !Step(W, H, prev, AllClear(W * H)).running
  {
  }

  /** The decision of one update in full: it stops exactly when the next
      generation repeats the previous or the current one, and when it goes on
      the previous generation becomes the current one and the current one
      becomes the next. */
  lemma StepDecision(W: int, H: int, prev: seq<bool>, cur: seq<bool>)
    requires W > 0 && H > 0
    ensures !Step(W, H, prev, cur).running <==> (Next(cur, W, H) == prev || Next(cur, W, H) == cur)
    ensures Step(W, H, prev, cur).running ==>
      Step(W, H, prev, cur).prev == cur && Step(W, H, prev, cur).cur == Next(cur, W, H)
  {
  }

  /** Any still life (a grid that is its own next generation) stops the step
      at once and leaves both generations as they were. */
  lemma StillLifeStops(W: int, H: int, prev: seq<bool>, g: seq<bool>)
    requires W > 0 && H > 0 && Next(g, W, H) == g
    ensures Step(W, H, prev, g) == Outcome(false, prev, g)
  {
  }

  /** A grid whose next generation repeats the previous one (a period-2
      oscillator) stops the step and leaves both generations as they were. */
  lemma RepeatOfPreviousStops(W: int, H: int, prev: seq<bool>, g: seq<bool>)
    requires W > 0 && H > 0 && Next(g, W, H) == prev
    ensures Step(W, H, prev, g) == Outcome(false, prev, g)
  {
  }

  // ---------------------------------------------------------------------
  // Two classic patterns

  /** A block: a 2x2 grid with every cell alive. Off-grid cells count as
      dead, so this is a block surrounded by dead cells. */
  const Block: seq<bool> := seq(4, _ => true)

  /** A blinker on a 3x3 grid: the middle column alive (vertical phase) or
      the middle row alive (horizontal phase). */
  const BlinkerV: seq<bool> := seq(9, i => i % 3 == 1)

  const BlinkerH: seq<bool> := seq(9, i => i / 3 == 1)

  /** The block is a still life. */
  lemma BlockNext()
    ensures Next(Block, 2, 2) == Block
  {
  }

  /** The vertical blinker turns horizontal. */
  lemma BlinkerVNext()
    ensures Next(BlinkerV, 3, 3) == BlinkerH
  {
  }

  /** The horizontal blinker turns vertical. */
  lemma BlinkerHNext()
    ensures Next(BlinkerH, 3, 3) == BlinkerV
  {
  }

  /** A still life stops the step on its first call. */
  lemma BlockStops(prev: seq<bool>)
    ensures Step(2, 2, prev, Block) == Outcome(false, prev, Block)
  {
    BlockNext();
    StillLifeStops(2, 2, prev, Block);
  }

  /** The blinker oscillates with period 2: the stop test against the current
      generation lets the first step through, and the test against the previous
      generation stops the second. */
  lemma BlinkerStopsAfterOneStep(prev: seq<bool>)
    requires prev != BlinkerH
    ensures Step(3, 3, prev, BlinkerV) == Outcome(true, BlinkerV, BlinkerH)
    ensures Step(3, 3, BlinkerV, BlinkerH) == Outcome(false, BlinkerV, BlinkerH)
  {
    BlinkerVNext();
    BlinkerHNext();
    assert BlinkerV[1] != BlinkerH[1];
  }
}
