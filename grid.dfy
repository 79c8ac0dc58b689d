/** The square grid of cells: coordinates, the four directions and the
    neighbour relation between cells. Cell (x, y) is maze[y][x]: column x,
    row y, with row 0 at the top. */
module Grid {

  datatype Option<T> = None | Some(value: T)

  datatype Coord = Coord(x: int, y: int)

  /** Wall and direction indices, in the order of a cell's wall list. */
  const NORTH: nat := 0
  const EAST: nat := 1
  const SOUTH: nat := 2
  const WEST: nat := 3

  predicate InGrid(n: nat, c: Coord)
  {
    0 <= c.x < n && 0 <= c.y < n
  }

  /** Row y of a grid that is w cells wide. */
  function Row(w: nat, y: int): (s: set<Coord>)
    ensures forall c {:trigger c in s} :: c in s <==> 0 <= c.x < w && c.y == y
  {
    set x | 0 <= x < w :: Coord(x, y)
  }

  /** The cells of a grid that is w cells wide and h cells high. */
  function Block(w: nat, h: nat): (s: set<Coord>)
    ensures forall c {:trigger c in s} :: c in s <==> 0 <= c.x < w && 0 <= c.y < h
  {
    set x, y | 0 <= x < w && 0 <= y < h :: Coord(x, y)
  }

  /** All cells of the n-by-n grid. */
  function Cells(n: nat): (s: set<Coord>)
    ensures forall c {:trigger c in s} :: c in s <==> InGrid(n, c)
  {
    Block(n, n)
  }

  lemma {:induction false} RowCard(w: nat, y: int)
    ensures |Row(w, y)| == w
  {
    if w > 0 {
      RowCard(w - 1, y);
      assert Row(w, y) == Row(w - 1, y) + {Coord(w - 1, y)};
    }
  }

  lemma {:induction false} BlockCard(w: nat, h: nat)
    ensures |Block(w, h)| == w * h
  {
    if h > 0 {
      BlockCard(w, h - 1);
      RowCard(w, h - 1);
      BlockSplit(w, h);
      assert |Block(w, h)| == |Block(w, h - 1)| + |Row(w, h - 1)|;
      OneMoreRow(w, h);
    }
  }

  lemma OneMoreRow(w: nat, h: nat)
    requires h > 0
    ensures w * (h - 1) + w == w * h
  {
  }

  /** A block is the block one row shorter together with its last row. */
  lemma BlockSplit(w: nat, h: nat)
    requires h > 0
    ensures Block(w, h) == Block(w, h - 1) + Row(w, h - 1)
    ensures Block(w, h - 1) !! Row(w, h - 1)
  {
  }

  /** The n-by-n grid has n * n cells. */
  lemma CellsCard(n: nat)
    ensures |Cells(n)| == n * n
  {
    BlockCard(n, n);
  }

  /** The side that faces back across a shared wall: North/South, East/West. */
  function Opposite(d: nat): (r: nat)
    requires d < 4
    ensures r < 4 && r != d
    ensures d == NORTH <==> r == SOUTH
    ensures d == EAST <==> r == WEST
    ensures d == SOUTH <==> r == NORTH
    ensures d == WEST <==> r == EAST
  {
    (d + 2) % 4
  }

  /** The four neighbour coordinates offered for a cell, in the order
      North, East, South, West; they may lie outside the grid. */
  function Offset(c: Coord, d: nat): Coord
    requires d < 4
  {
    if d == NORTH then Coord(c.x, c.y - 1)
    else if d == EAST then Coord(c.x + 1, c.y)
    else if d == SOUTH then Coord(c.x, c.y + 1)
    else Coord(c.x - 1, c.y)
  }

  /** The neighbour of cell c on side d, or None when that side lies on the
      outer boundary of the grid. */
  function Neighbour(n: nat, c: Coord, d: nat): (r: Option<Coord>)
    requires d < 4
    ensures r.Some? ==> InGrid(n, r.value) && r.value != c
  {
    if InGrid(n, Offset(c, d)) then Some(Offset(c, d)) else None
  }

  /** The side of cell c that faces cell b, found as the wall-removal code
      finds it: by testing b's column against c's column plus one, then its
      row against c's row plus one, then the column minus one, then the row
      minus one; 4 when none of the tests holds. */
  function Side(c: Coord, b: Coord): (d: nat)
    ensures d <= 4
  {
    if b.x == c.x + 1 then EAST
    else if b.y == c.y + 1 then SOUTH
    else if b.x == c.x - 1 then WEST
    else if b.y == c.y - 1 then NORTH
    else 4
  }

  /** The tests find, for every neighbour offset, the side it was taken on. */
  lemma SideOfOffset(c: Coord, d: nat)
    requires d < 4
    ensures Side(c, Offset(c, d)) == d
  {
  }

  /** Row-major order: by row, then by column. */
  predicate Before(a: Coord, b: Coord)
  {
    a.y < b.y || (a.y == b.y && a.x <= b.x)
  }

  /** An unordered pair of cells, written in row-major order. */
  function Pair(a: Coord, b: Coord): (Coord, Coord)
  {
    if Before(a, b) then (a, b) else (b, a)
  }

  /** A pair of adjacent cells: the second lies East or South of the first. */
  ghost predicate IsGridEdge(n: nat, e: (Coord, Coord))
  {
    InGrid(n, e.0) && InGrid(n, e.1) &&
    ((e.1.x == e.0.x + 1 && e.1.y == e.0.y) || (e.1.x == e.0.x && e.1.y == e.0.y + 1))
  }

  /** Side d of cell c is open in the edge set E: c has a neighbour there and
      the pair of the two cells is in E. */
  ghost predicate Opened(n: nat, E: set<(Coord, Coord)>, c: Coord, d: nat)
    requires d < 4
  {
    Neighbour(n, c, d).Some? && Pair(c, Neighbour(n, c, d).value) in E
  }

  /** Cell c is the neighbour of its neighbour, on the opposite side. */
  lemma NeighbourBack(n: nat, c: Coord, d: nat)
    requires InGrid(n, c) && d < 4 && Neighbour(n, c, d).Some?
    ensures Neighbour(n, Neighbour(n, c, d).value, Opposite(d)) == Some(c)
  {
  }

  /** Two walls that name the same pair of cells are the same wall, seen
      from one side or from the other. */
  lemma {:induction false} PairUnique(n: nat, a: Coord, d: nat, c: Coord, e: nat)
    requires InGrid(n, a) && InGrid(n, c) && d < 4 && e < 4
    requires Neighbour(n, a, d).Some? && Neighbour(n, c, e).Some?
    requires Pair(a, Neighbour(n, a, d).value) == Pair(c, Neighbour(n, c, e).value)
    ensures (c == a && e == d) || (c == Neighbour(n, a, d).value && e == Opposite(d))
  {
    var b, f := Neighbour(n, a, d).value, Neighbour(n, c, e).value;
    if Before(a, b) == Before(c, f) {
      assert a == c && b == f;
    } else {
      assert a == f && b == c;
    }
  }

  /** The pair of a cell and its neighbour is an edge of the grid graph. */
  lemma PairIsGridEdge(n: nat, c: Coord, d: nat)
    requires InGrid(n, c) && d < 4 && Neighbour(n, c, d).Some?
    ensures IsGridEdge(n, Pair(c, Neighbour(n, c, d).value))
  {
  }

  /** The open state of a shared side agrees when seen from either cell. */
  lemma {:induction false} OpenedSymmetric(n: nat, E: set<(Coord, Coord)>, c: Coord, d: nat)
    requires InGrid(n, c) && d < 4 && Neighbour(n, c, d).Some?
    ensures Opened(n, E, c, d) == Opened(n, E, Neighbour(n, c, d).value, Opposite(d))
  {
    NeighbourBack(n, c, d);
    var b := Neighbour(n, c, d).value;
    assert Pair(c, b) == Pair(b, c);
  }
}
