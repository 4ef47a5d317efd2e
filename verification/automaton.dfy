/** The Game of Life engine: three bitsets of width*height cells holding the
    current, the next and the previous generation. */
module Automaton {
  import opened Bitset
  import opened Life

  /** The largest value of a 32-bit signed int, which holds every index and size. */
  const INT_MAX: int := 0x7fff_ffff

  /** Writing the n-th value of `s` into a sequence that agrees with `s` below
      n makes it agree with `s` below n + 1. */
  lemma ExtendAgreement(t: seq<bool>, u: seq<bool>, s: seq<bool>, n: int, v: bool)
    requires 0 <= n < |t| && n < |s| && v == s[n]
    requires forall k :: 0 <= k < n ==> t[k] == s[k]
    requires u == t[n := v]
    ensures forall k :: 0 <= k < n + 1 ==> u[k] == s[k]
  {
  }

  class CellularAutomaton {
    const width: int
    const height: int
    const grid: DynamicBitset
    const nextGrid: DynamicBitset
    const prevGrid: DynamicBitset

    /** The object invariant: three distinct bitsets with distinct buffers,
        each of width*height bits. */
    ghost predicate Valid()
      reads grid, nextGrid, prevGrid
    {
      width > 0 && height > 0 &&
      grid.Valid() && nextGrid.Valid() && prevGrid.Valid() &&
      grid.size == width * height && nextGrid.size == width * height && prevGrid.size == width * height &&
      grid != nextGrid && grid != prevGrid && nextGrid != prevGrid &&
      grid.data != nextGrid.data && grid.data != prevGrid.data && nextGrid.data != prevGrid.data
    }

    /** A board whose first generation is `cells` (the seed that the program
        draws at random); the next and previous generations start all dead. */
    constructor (width: int, height: int, cells: seq<bool>)
      requires width > 0 && height > 0 && width * height <= INT_MAX
      requires |cells| == width * height
      ensures Valid() && this.width == width && this.height == height
      ensures fresh(grid) && fresh(nextGrid) && fresh(prevGrid)
      ensures fresh(grid.data) && fresh(nextGrid.data) && fresh(prevGrid.data)
      ensures grid.Bits() == cells
      ensures nextGrid.Bits() == AllClear(width * height) && prevGrid.Bits() == AllClear(width * height)
    {
      this.width := width;
      this.height := height;
      grid := new DynamicBitset(width * height);
      nextGrid := new DynamicBitset(width * height);
      prevGrid := new DynamicBitset(width * height);
      new;
      Initialize(cells);
    }

    /** Writes the first generation into `grid`, cell by cell. */
    method Initialize(cells: seq<bool>)
      requires Valid() && |cells| == width * height
      modifies grid.data
      ensures Valid() && grid.Bits() == cells
    {
      for i := 0 to width * height
        invariant grid.Bits()[..i] == cells[..i]
      {
        grid.Set(i, cells[i]);
      }
      assert grid.Bits() == grid.Bits()[..width * height];
    }

    /** The number of live cells among the in-bounds Moore neighbours of (x, y)
        in the current generation. */
    method CountLiveNeighbors(x: int, y: int) returns (count: int)
      requires Valid()
      ensures count == Neighbors(grid.Bits(), width, height, x, y)
      ensures 0 <= count <= 8
    {
      ghost var g := grid.Bits();
      count := 0;
      for dy := -1 to 2
        invariant count == BlockCount(g, width, height, x, y, dy)
      {
        for dx := -1 to 2
          invariant count == BlockCount(g, width, height, x, y, dy) + RowCount(g, width, height, x, y, dy, dx)
        {
          if dx == 0 && dy == 0 {
            continue;
          }
          var nx := x + dx;
          var ny := y + dy;
          if nx >= 0 && nx < width && ny >= 0 && ny < height {
            var live := grid.Test(ny * width + nx);
            assert live == CellAt(g, width, nx, ny);
            count := count + if live then 1 else 0;
          }
        }
      }
      NeighborsBound(g, width, height, x, y);
    }

    /** Fills `nextGrid` with the next generation of `grid`, cell by cell,
        row by row, by the B3/S23 rule. */
    method ComputeNext()
      requires Valid()
      modifies nextGrid.data
      ensures Valid()
      ensures nextGrid.Bits() == Next(grid.Bits(), width, height)
    {
      ghost var g := grid.Bits();
      ghost var next := Next(g, width, height);
      nextGrid.Reset();
      for y := 0 to height
        invariant grid.Bits() == g
        invariant y * width <= width * height
        invariant forall k :: 0 <= k < y * width ==> nextGrid.Bits()[k] == next[k]
      {
        for x := 0 to width
          invariant grid.Bits() == g
          invariant y * width + x <= width * height
          invariant forall k :: 0 <= k < y * width + x ==> nextGrid.Bits()[k] == next[k]
        {
          var index := y * width + x;
          IndexInRange(x, y, width, height);
          var liveNeighbors := CountLiveNeighbors(x, y);
          var alive := grid.Test(index);
          NextAtReads(g, width, height, x, y, alive, liveNeighbors);
          var value := (alive && (liveNeighbors == 2 || liveNeighbors == 3)) || (!alive && liveNeighbors == 3);
          ghost var before := nextGrid.Bits();
          nextGrid.Set(index, value);
          ExtendAgreement(before, nextGrid.Bits(), next, index, value);
        }
        assert (y + 1) * width == y * width + width;
      }
      assert height * width == |next|;
      assert nextGrid.data[..] == next;
    }

    /** One generation: computes the next generation into `nextGrid`; stops
        (returns false, changing neither `grid` nor `prevGrid`) when it repeats
        the previous or the current generation, and otherwise shifts
        prev <- current <- next and returns true. */
    method Update() returns (running: bool)
      requires Valid()
      modifies grid, nextGrid.data, prevGrid
      ensures Valid()
      ensures nextGrid.Bits() == Next(old(grid.Bits()), width, height)
      ensures var r := Step(width, height, old(prevGrid.Bits()), old(grid.Bits()));
        running == r.running && prevGrid.Bits() == r.prev && grid.Bits() == r.cur
    {
      ComputeNext();
      var repeats := nextGrid.Equals(prevGrid);
      if !repeats {
        repeats := nextGrid.Equals(grid);
      }
      if repeats {
        return false;
      }
      prevGrid.Assign(grid);
      grid.Assign(nextGrid);
      return true;
    }
  }
}
