/** The simulation engine: a world that owns a fixed WIDTH × HEIGHT array of cells,
    reads and overwrites single cells, counts wrapped neighbours and advances one
    generation at a time through a double buffer. */
module Engine {
  import opened Rules

  /** Two grids that agree on every cell are equal. */
  lemma SameCells(a: Grid, b: Grid)
    requires IsGrid(a) && IsGrid(b)
    requires forall x, y :: 0 <= x < WIDTH && 0 <= y < HEIGHT ==> a[x][y] == b[x][y]
    ensures a == b
  {
    assert forall x :: 0 <= x < WIDTH ==> a[x] == b[x];
  }

  /** The grid a randomised fill produces, where draw(x, y) says whether the uniform
      draw taken for (x, y) fell below one half. */
  function Drawn(draw: (nat, nat) -> bool): (g: Grid)
    ensures IsGrid(g)
    ensures forall x, y :: 0 <= x < WIDTH && 0 <= y < HEIGHT ==> (g[x][y] == Alive <==> draw(x, y))
  {
    seq(WIDTH, x requires 0 <= x => seq(HEIGHT, y requires 0 <= y => if draw(x, y) then Alive else Dead))
  }

  /** Every grid of the world's dimensions is the outcome of some sequence of draws. */
  lemma EveryGridIsDrawable(g: Grid)
    requires IsGrid(g)
    ensures Drawn((x: nat, y: nat) => x < WIDTH && y < HEIGHT && g[x][y] == Alive) == g
  {
    var h := Drawn((x: nat, y: nat) => x < WIDTH && y < HEIGHT && g[x][y] == Alive);
    forall x | 0 <= x < WIDTH
      ensures h[x] == g[x]
    {
      forall y | 0 <= y < HEIGHT
        ensures h[x][y] == g[x][y]
      {
        if g[x][y] == Alive { } else { assert g[x][y] == Dead; }
      }
    }
  }

  class World {
    /** The current generation as a grid value. */
    ghost var Contents: Grid
    /** The cells themselves, indexed cells[x, y]. */
    var cells: array2<Cell>

    /** The array has the world's fixed dimensions and holds exactly Contents. */
    ghost predicate Valid()
      reads this, cells
    {
      IsGrid(Contents) && cells.Length0 == WIDTH && cells.Length1 == HEIGHT &&
      forall x, y :: 0 <= x < WIDTH && 0 <= y < HEIGHT ==> cells[x, y] == Contents[x][y]
    }

    /** A new world has every cell dead. */
    constructor ()
      ensures Valid() && fresh(cells)
      ensures Contents == AllDead()
    {
      cells := new Cell[WIDTH, HEIGHT]((_, _) => Dead);
      Contents := AllDead();
    }

    /** The state of the cell at (x, y); the coordinates must be in range. */
    function GetCell(x: nat, y: nat): (c: Cell)
      reads this, cells
      requires Valid() && x < WIDTH && y < HEIGHT
      ensures c == Contents[x][y]
    {
      cells[x, y]
    }

    /** Overwrites the cell at (x, y); the coordinates must be in range. */
    method SetCell(x: nat, y: nat, c: Cell)
      requires Valid() && x < WIDTH && y < HEIGHT
      modifies this, cells
      ensures Valid() && cells == old(cells)
      ensures Contents == SetAt(old(Contents), x, y, c)
    {
      cells[x, y] := c;
      Contents := SetAt(Contents, x, y, c);
    }

    /** Counts the live cells among the eight wrapped neighbours of (x, y). `logged` is
        whether the diagnostic message is emitted, which happens only for a count of 8. */
    method CountNeighbours(x: nat, y: nat) returns (total: nat, logged: bool)
      requires Valid() && x < WIDTH && y < HEIGHT
      ensures total == NeighbourCount(Contents, x, y)
      ensures total <= 8
      ensures logged <==> total == 8
    {
      total := 0;
      for dx := -1 to 2
        invariant total == CountFirst(Contents, x, y, Visited(dx, -1))
      {
        for dy := -1 to 2
          invariant total == CountFirst(Contents, x, y, Visited(dx, dy))
        {
          if dx == 0 && dy == 0 {
            continue;
          }
          var nx := RemEuclid(x + dx, WIDTH);
          var ny := RemEuclid(y + dy, HEIGHT);
          WrapIsRemEuclid(x + dx, WIDTH);
          WrapIsRemEuclid(y + dy, HEIGHT);
          total := total + match GetCell(nx, ny) {
            case Alive => 1
            case Dead => 0
          };
        }
      }
      NeighbourCountRange(Contents, x, y);
      logged := false;
      if total >= 8 {
        logged := true;
      }
    }

    /** Advances one generation. Every cell's next state is computed from the unmodified
        current generation into a fresh buffer, which then replaces the current one. */
    method Tick()
      requires Valid()
      modifies this
      ensures Valid() && fresh(cells)
      ensures Contents == NextGeneration(old(Contents))
    {
      var newCells := new Cell[WIDTH, HEIGHT]((_, _) => Dead);
      for x := 0 to WIDTH
        invariant Valid() && cells == old(cells) && Contents == old(Contents)
        invariant forall i, j :: 0 <= i < x && 0 <= j < HEIGHT ==>
          newCells[i, j] == NextCell(Contents[i][j], NeighbourCount(Contents, i, j))
      {
        NextColumn(x, newCells);
      }
      forall i, j | 0 <= i < WIDTH && 0 <= j < HEIGHT
        ensures newCells[i, j] == NextGeneration(Contents)[i][j]
      {
        NextGenerationAt(Contents, i, j);
      }
      cells := newCells;
      Contents := NextGeneration(Contents);
    }

    /** The inner scan of a tick: writes the next state of every cell of column x into the
        buffer `next`, leaving the world and the buffer's other columns untouched. */
    method NextColumn(x: nat, next: array2<Cell>)
      requires Valid() && x < WIDTH
      requires next != cells && next.Length0 == WIDTH && next.Length1 == HEIGHT
      modifies next
      ensures forall j :: 0 <= j < HEIGHT ==>
        next[x, j] == NextCell(Contents[x][j], NeighbourCount(Contents, x, j))
      ensures forall i, j :: 0 <= i < WIDTH && i != x && 0 <= j < HEIGHT ==> next[i, j] == old(next[i, j])
    {
      for y := 0 to HEIGHT
        invariant forall j :: 0 <= j < y ==>
          next[x, j] == NextCell(Contents[x][j], NeighbourCount(Contents, x, j))
        invariant forall i, j :: 0 <= i < WIDTH && i != x && 0 <= j < HEIGHT ==> next[i, j] == old(next[i, j])
      {
        var cell := GetCell(x, y);
        var nc, _ := CountNeighbours(x, y);
        next[x, y] := NextCell(cell, nc);
      }
    }

    /** Fills the world cell by cell: (x, y) becomes alive exactly when its draw says so. */
    method SetRandomGrid(draw: (nat, nat) -> bool)
      requires Valid()
      modifies this, cells
      ensures Valid() && cells == old(cells)
      ensures Contents == Drawn(draw)
    {
      for x := 0 to WIDTH
        invariant Valid() && cells == old(cells)
        invariant forall i, j :: 0 <= i < WIDTH && 0 <= j < HEIGHT ==>
          Contents[i][j] == if i < x then (if draw(i, j) then Alive else Dead) else old(Contents)[i][j]
      {
        for y := 0 to HEIGHT
          invariant Valid() && cells == old(cells)
          invariant forall i, j :: 0 <= i < WIDTH && 0 <= j < HEIGHT ==>
            Contents[i][j] == if i < x || (i == x && j < y) then (if draw(i, j) then Alive else Dead) else old(Contents)[i][j]
        {
          SetCell(x, y, if draw(x, y) then Alive else Dead);
        }
      }
      SameCells(Contents, Drawn(draw));
    }
  }

  /** Startup: a new world is filled from the draws and advanced once before the first
      frame, so the first generation shown is the successor of the drawn grid. */
  method Start(draw: (nat, nat) -> bool) returns (world: World)
    ensures world.Valid()
    ensures world.Contents == NextGeneration(Drawn(draw))
  {
    world := new World();
    world.SetRandomGrid(draw);
    world.Tick();
  }
}
