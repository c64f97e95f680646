/**
  `GetCoordinatesInBorder`: a walk round the perimeter of a square inset
  from the map edge, keeping the cells whose value is below a threshold.
*/
module BorderRing {
  import opened Numerics
  import opened Terrain

  /** The side length of the square walked at offset `o` on an `n` by `n`
      grid: `n - 2o`, or 0 when the walk is empty. */
  function RingSide(n: nat, o: int): (m: nat)
    ensures n - 2 * o > 0 ==> m == n - 2 * o
    ensures n - 2 * o <= 0 ==> m == 0
  {
    if n - 2 * o > 0 then n - 2 * o else 0
  }

  /** The `k`-th cell of the walk: the left side `x = o` upwards from
      `(o, o)`, then the side `y = n - o` with `x` ascending, then the side
      `x = n - o` downwards, then the side `y = o` with `x` descending. */
  function RingCell(n: nat, o: int, k: int): Cell {
    var m := RingSide(n, o);
    if k < m then Cell(o, o + k)
    else if k < 2 * m then Cell(o + (k - m), n - o)
    else if k < 3 * m then Cell(n - o, n - o - (k - 2 * m))
    else Cell(n - o - (k - 3 * m), o)
  }

  /** The whole walk, in visiting order: four sides of `m` cells each,
      every one on the boundary of the inset square. */
  function Ring(n: nat, o: int): (ring: seq<Cell>)
    ensures |ring| == 4 * RingSide(n, o)
    ensures forall k :: 0 <= k < |ring| ==> ring[k] == RingCell(n, o, k)
    ensures forall c :: c in ring ==> OnSquare(n, o, c)
  {
    RingCellsOnSquare(n, o);
    seq(4 * RingSide(n, o), k => RingCell(n, o, k))
  }

  /** `c` lies on the boundary of the square with corners `(o, o)` and `(n - o, n - o)`. */
  predicate OnSquare(n: nat, o: int, c: Cell) {
    && o <= c.x <= n - o && o <= c.y <= n - o
    && (c.x == o || c.x == n - o || c.y == o || c.y == n - o)
  }

  /** Two cells are neighbours in one of the four axis directions. */
  predicate Adjacent(a: Cell, b: Cell) {
    || (a.x == b.x && (a.y - b.y == 1 || b.y - a.y == 1))
    || (a.y == b.y && (a.x - b.x == 1 || b.x - a.x == 1))
  }

  /** The walk reaches every boundary cell of a non-empty square. */
  lemma RingCovers(n: nat, o: int, c: Cell)
    requires n - 2 * o > 0 && OnSquare(n, o, c)
    ensures c in Ring(n, o)
  {
    var m := n - 2 * o;
    var ring := Ring(n, o);
    if c.x == o && c.y < n - o {
      assert ring[c.y - o] == c;
    } else if c.y == n - o && c.x < n - o {
      assert ring[m + (c.x - o)] == c;
    } else if c.x == n - o && c.y > o {
      assert ring[2 * m + (n - o - c.y)] == c;
    } else {
      assert ring[3 * m + (n - o - c.x)] == c;
    }
  }

  /** Every cell of the walk lies on the square's boundary. */
  lemma RingCellsOnSquare(n: nat, o: int)
    ensures forall k :: 0 <= k < 4 * RingSide(n, o) ==> OnSquare(n, o, RingCell(n, o, k))
  {
    forall k | 0 <= k < 4 * RingSide(n, o)
      ensures OnSquare(n, o, RingCell(n, o, k))
    {
      RingCellSide(n, o, k);
    }
  }

  /** The walk visits no cell twice: in particular the four corners are
      each visited once. */
  lemma RingDistinct(n: nat, o: int)
    ensures forall i, j :: 0 <= i < j < |Ring(n, o)| ==> Ring(n, o)[i] != Ring(n, o)[j]
  {
    var ring := Ring(n, o);
    forall i, j | 0 <= i < j < |ring|
      ensures ring[i] != ring[j]
    {
      RingCellSide(n, o, i);
      RingCellSide(n, o, j);
    }
  }

  /** Where the `k`-th cell of a non-empty walk lies, side by side. */
  lemma RingCellSide(n: nat, o: int, k: int)
    requires 0 <= k < 4 * RingSide(n, o)
    ensures var m, c := RingSide(n, o), RingCell(n, o, k);
      && (k < m ==> c.x == o && c.y == o + k && c.y < n - o)
      && (m <= k < 2 * m ==> c.y == n - o && c.x == o + (k - m) && c.x < n - o)
      && (2 * m <= k < 3 * m ==> c.x == n - o && c.y == n - o - (k - 2 * m) && c.y > o)
      && (3 * m <= k ==> c.y == o && c.x == n - o - (k - 3 * m) && c.x > o)
  {
  }

  /** The walk is a closed path: each cell is a neighbour of the next, and
      the last cell is a neighbour of the first, `(o, o)`. */
  lemma RingClosedPath(n: nat, o: int)
    requires n - 2 * o > 0
    ensures Ring(n, o)[0] == Cell(o, o)
    ensures forall k :: 0 <= k < |Ring(n, o)| - 1 ==> Adjacent(Ring(n, o)[k], Ring(n, o)[k + 1])
    ensures Adjacent(Ring(n, o)[|Ring(n, o)| - 1], Ring(n, o)[0])
  {
    var ring := Ring(n, o);
    forall k | 0 <= k < |ring| - 1
      ensures Adjacent(ring[k], ring[k + 1])
    {
      RingCellSide(n, o, k);
      RingCellSide(n, o, k + 1);
    }
    RingCellSide(n, o, |ring| - 1);
  }

  /** `c` can be read from `g` without an exception. */
  predicate Inside(g: array2<real>, c: Cell) {
    0 <= c.x < g.Length0 && 0 <= c.y < g.Length1
  }

  /** Every cell of `cells` can be read from `g`. */
  predicate AllInside(g: array2<real>, cells: seq<Cell>) {
    forall i :: 0 <= i < |cells| ==> Inside(g, cells[i])
  }

  /** With the offset at least 1, or an empty walk, every cell of the walk
      can be read. */
  lemma RingInside(g: array2<real>, o: int)
    requires Square(g) && (o >= 1 || g.Length0 - 2 * o <= 0)
    ensures AllInside(g, Ring(g.Length0, o))
  {
  }

  /** Whether the walk keeps cell `c`: it can be read and its value is below `maxValue`. */
  predicate Keeps(g: array2<real>, c: Cell, maxValue: real)
    reads g
  {
    Inside(g, c) && g[c.x, c.y] < maxValue
  }

  /** The positions of the cells of `cells`, in order, that the walk keeps.
      The walk reads only readable cells, so `Inside` merely totalises. */
  function Select(g: array2<real>, cells: seq<Cell>, maxValue: real): seq<Position>
    reads g
    decreases |cells|
  {
    if |cells| == 0 then []
    else
      var c := cells[|cells| - 1];
      Select(g, cells[..|cells| - 1], maxValue) + (if Keeps(g, c, maxValue) then [At(c)] else [])
  }

  /** A selection holds at most one position per cell; each is an unshifted
      cell of `cells` whose value is below `maxValue`; and it misses no such cell. */
  lemma {:induction false} SelectCorrect(g: array2<real>, cells: seq<Cell>, maxValue: real)
    ensures |Select(g, cells, maxValue)| <= |cells|
    ensures forall p :: p in Select(g, cells, maxValue) ==>
      && Cell(p.x, p.y) in cells && p == At(Cell(p.x, p.y)) && Keeps(g, Cell(p.x, p.y), maxValue)
    ensures forall c :: c in cells && Keeps(g, c, maxValue) ==> At(c) in Select(g, cells, maxValue)
    decreases |cells|
  {
    if |cells| > 0 {
      var front := cells[..|cells| - 1];
      SelectCorrect(g, front, maxValue);
      assert cells == front + [cells[|cells| - 1]];
    }
  }

  /** Extending the walked prefix by one readable cell appends that cell's
      position when its value is below `maxValue`. */
  lemma SelectStep(g: array2<real>, cells: seq<Cell>, k: nat, c: Cell, maxValue: real)
    requires k < |cells| && cells[k] == c && Inside(g, c)
    ensures Select(g, cells[..k + 1], maxValue)
      == Select(g, cells[..k], maxValue) + (if g[c.x, c.y] < maxValue then [At(c)] else [])
  {
    assert cells[..k + 1][..k] == cells[..k];
  }

  /** What `GetCoordinatesInBorder` returns for `maxValue` and `offsetPos`:
      the walk at offset `(int)(sizeX * offsetPos)`. A non-empty walk throws
      when the offset is below 1: a negative offset reads before the grid on
      the first side, and offset 0 reads row `sizeY` on the second. */
  function BorderCells(g: array2<real>, maxValue: real, offsetPos: real): Result<seq<Position>>
    reads g
    requires Square(g)
  {
    var n := g.Length0;
    var o := TruncReal(n as real * offsetPos);
    if n - 2 * o > 0 && o < 1 then Fail(IndexOutOfRange)
    else Ok(Select(g, Ring(n, o), maxValue))
  }

  /** A non-empty walk with an offset below 1 throws. */
  lemma BorderCellsFails(g: array2<real>, maxValue: real, offsetPos: real, o: int)
    requires Square(g) && o == TruncReal(g.Length0 as real * offsetPos)
    requires g.Length0 - 2 * o > 0 && o < 1
    ensures BorderCells(g, maxValue, offsetPos) == Fail(IndexOutOfRange)
  {
  }

  /** Any other walk returns the filtered ring. */
  lemma BorderCellsSucceeds(g: array2<real>, maxValue: real, offsetPos: real, o: int)
    requires Square(g) && o == TruncReal(g.Length0 as real * offsetPos)
    requires !(g.Length0 - 2 * o > 0 && o < 1)
    ensures BorderCells(g, maxValue, offsetPos) == Ok(Select(g, Ring(g.Length0, o), maxValue))
  {
  }

  /** The walk throws exactly when it is non-empty and its offset is below 1.
      Otherwise every returned position is an unshifted boundary cell of the
      inset square with a value below `maxValue`, there are at most
      `2 (W - 2o) + 2 (H - 2o)` of them, and every boundary cell with a value
      below `maxValue` is returned, unless the square has shrunk to a single
      point, which no side loop visits. */
  lemma BorderCellsCorrect(g: array2<real>, maxValue: real, offsetPos: real)
    requires Square(g)
    ensures var n, o := g.Length0, TruncReal(g.Length0 as real * offsetPos);
      BorderCells(g, maxValue, offsetPos).Fail? <==> n - 2 * o > 0 && o < 1
    ensures var n, o := g.Length0, TruncReal(g.Length0 as real * offsetPos);
      BorderCells(g, maxValue, offsetPos).Ok? ==>
        |BorderCells(g, maxValue, offsetPos).value| <= 2 * RingSide(n, o) + 2 * RingSide(g.Length1, o)
    ensures var n, o := g.Length0, TruncReal(g.Length0 as real * offsetPos);
      BorderCells(g, maxValue, offsetPos).Ok? ==>
        forall p :: p in BorderCells(g, maxValue, offsetPos).value ==>
          && OnSquare(n, o, Cell(p.x, p.y)) && p == At(Cell(p.x, p.y))
          && Inside(g, Cell(p.x, p.y)) && g[p.x, p.y] < maxValue
    ensures var n, o := g.Length0, TruncReal(g.Length0 as real * offsetPos);
      BorderCells(g, maxValue, offsetPos).Ok? ==>
        forall c :: n - 2 * o > 0 && OnSquare(n, o, c) && g[c.x, c.y] < maxValue ==>
          At(c) in BorderCells(g, maxValue, offsetPos).value
  {
    var n, o := g.Length0, TruncReal(g.Length0 as real * offsetPos);
    if !(n - 2 * o > 0 && o < 1) {
      var ring := Ring(n, o);
      RingInside(g, o);
      SelectCorrect(g, ring, maxValue);
      forall p | p in Select(g, ring, maxValue)
        ensures OnSquare(n, o, Cell(p.x, p.y))
      {
        var k :| 0 <= k < |ring| && ring[k] == Cell(p.x, p.y);
      }
      forall c | n - 2 * o > 0 && OnSquare(n, o, c) && g[c.x, c.y] < maxValue
        ensures At(c) in Select(g, ring, maxValue)
      {
        RingCovers(n, o, c);
      }
    }
  }

  /** `GetCoordinatesInBorder` (lines 160-184): the offset, then the four
      side loops in order; the first out-of-bounds read raises
      `IndexOutOfRange`. */
  method GetCoordinatesInBorder(mapData: array2<real>, maxValue: real, offsetPos: real)
    returns (r: Result<seq<Position>>)
    requires Square(mapData)
    ensures r == BorderCells(mapData, maxValue, offsetPos)
  {
    var sizeX := mapData.Length0;
    var offset := TruncReal(sizeX as real * offsetPos);
    if sizeX - 2 * offset > 0 && offset < 1 {
      BorderCellsFails(mapData, maxValue, offsetPos, offset);
    } else {
      BorderCellsSucceeds(mapData, maxValue, offsetPos, offset);
    }
    var positions, ok := FirstSide(mapData, maxValue, offset);
    if !ok {
      return Fail(IndexOutOfRange);
    }
    positions, ok := SecondSide(mapData, maxValue, offset, positions);
    if !ok {
      return Fail(IndexOutOfRange);
    }
    positions := ThirdSide(mapData, maxValue, offset, positions);
    positions := FourthSide(mapData, maxValue, offset, positions);
    WholeSlice(Ring(sizeX, offset), 4 * RingSide(sizeX, offset));
    return Ok(positions);
  }

  /** The prefix of a sequence as long as the sequence is the sequence. */
  lemma WholeSlice<T>(s: seq<T>, n: int)
    requires n == |s|
    ensures s[..n] == s
  {
  }

  /** Lines 167-169: up the side `x = offset`. A negative offset reads
      before the grid on the first pass. */
  method FirstSide(mapData: array2<real>, maxValue: real, offset: int)
    returns (positions: seq<Position>, ok: bool)
    requires Square(mapData)
    ensures ok <==> !(RingSide(mapData.Length0, offset) > 0 && offset < 0)
    ensures ok ==>
      positions == Select(mapData, Ring(mapData.Length0, offset)[..RingSide(mapData.Length0, offset)], maxValue)
  {
    var sizeX, sizeY := mapData.Length0, mapData.Length1;
    ghost var m := RingSide(sizeX, offset);
    ghost var ring := Ring(sizeX, offset);
    positions := [];
    ghost var k := 0;
    var y := offset;
    while y < sizeY - offset
      invariant offset <= y <= offset + m && k == y - offset
      invariant y > offset ==> 0 <= offset
      invariant positions == Select(mapData, ring[..k], maxValue)
    {
      if !(0 <= offset < sizeX && 0 <= y < sizeY) {
        return positions, false;
      }
      RingCellSide(sizeX, offset, k);
      positions := VisitCell(mapData, maxValue, ring, k, Cell(offset, y), positions);
      y, k := y + 1, k + 1;
    }
    assert k == m;
    return positions, true;
  }

  /** Lines 171-173: along the side `y = sizeY - offset`. Offset 0 reads
      row `sizeY`, one past the grid, on the first pass. */
  method SecondSide(mapData: array2<real>, maxValue: real, offset: int, start: seq<Position>)
    returns (positions: seq<Position>, ok: bool)
    requires Square(mapData) && (RingSide(mapData.Length0, offset) > 0 ==> 0 <= offset)
    requires start == Select(mapData, Ring(mapData.Length0, offset)[..RingSide(mapData.Length0, offset)], maxValue)
    ensures ok <==> !(RingSide(mapData.Length0, offset) > 0 && offset < 1)
    ensures ok ==>
      positions == Select(mapData, Ring(mapData.Length0, offset)[..2 * RingSide(mapData.Length0, offset)], maxValue)
  {
    var sizeX, sizeY := mapData.Length0, mapData.Length1;
    ghost var m := RingSide(sizeX, offset);
    ghost var ring := Ring(sizeX, offset);
    positions := start;
    ghost var k := m;
    var x := offset;
    while x < sizeX - offset
      invariant offset <= x <= offset + m && k == m + (x - offset)
      invariant x > offset ==> 1 <= offset
      invariant positions == Select(mapData, ring[..k], maxValue)
    {
      if !(0 <= x < sizeX && 0 <= sizeY - offset < sizeY) {
        return positions, false;
      }
      RingCellSide(sizeX, offset, k);
      positions := VisitCell(mapData, maxValue, ring, k, Cell(x, sizeY - offset), positions);
      x, k := x + 1, k + 1;
    }
    assert k == 2 * m;
    return positions, true;
  }

  /** Lines 175-177: down the side `x = sizeX - offset`; every read is in
      bounds once the first two sides have passed. */
  method ThirdSide(mapData: array2<real>, maxValue: real, offset: int, start: seq<Position>)
    returns (positions: seq<Position>)
    requires Square(mapData) && (RingSide(mapData.Length0, offset) > 0 ==> 1 <= offset)
    requires start == Select(mapData, Ring(mapData.Length0, offset)[..2 * RingSide(mapData.Length0, offset)], maxValue)
    ensures positions
      == Select(mapData, Ring(mapData.Length0, offset)[..3 * RingSide(mapData.Length0, offset)], maxValue)
  {
    var sizeX, sizeY := mapData.Length0, mapData.Length1;
    ghost var m := RingSide(sizeX, offset);
    ghost var ring := Ring(sizeX, offset);
    positions := start;
    ghost var k := 2 * m;
    var y := sizeY - offset;
    while y > offset
      invariant sizeY - offset - m <= y <= sizeY - offset && k == 2 * m + (sizeY - offset - y)
      invariant positions == Select(mapData, ring[..k], maxValue)
    {
      ThirdSideCell(mapData, offset, k, y);
      positions := VisitCell(mapData, maxValue, ring, k, Cell(sizeX - offset, y), positions);
      y, k := y - 1, k + 1;
    }
    assert k == 3 * m;
  }

  /** Lines 179-181: back along the side `y = offset` to the corner next to `(offset, offset)`. */
  method FourthSide(mapData: array2<real>, maxValue: real, offset: int, start: seq<Position>)
    returns (positions: seq<Position>)
    requires Square(mapData) && (RingSide(mapData.Length0, offset) > 0 ==> 1 <= offset)
    requires start == Select(mapData, Ring(mapData.Length0, offset)[..3 * RingSide(mapData.Length0, offset)], maxValue)
    ensures positions
      == Select(mapData, Ring(mapData.Length0, offset)[..4 * RingSide(mapData.Length0, offset)], maxValue)
  {
    var sizeX, sizeY := mapData.Length0, mapData.Length1;
    ghost var m := RingSide(sizeX, offset);
    ghost var ring := Ring(sizeX, offset);
    positions := start;
    ghost var k := 3 * m;
    var x := sizeX - offset;
    while x > offset
      invariant sizeX - offset - m <= x <= sizeX - offset && k == 3 * m + (sizeX - offset - x)
      invariant positions == Select(mapData, ring[..k], maxValue)
    {
      FourthSideCell(mapData, offset, k, x);
      positions := VisitCell(mapData, maxValue, ring, k, Cell(x, offset), positions);
      x, k := x - 1, k + 1;
    }
    assert k == 4 * m;
  }

  /** The cell the third side visits at row `y` is the `k`-th of the walk and lies in the grid. */
  lemma ThirdSideCell(g: array2<real>, o: int, k: int, y: int)
    requires Square(g) && (RingSide(g.Length0, o) > 0 ==> 1 <= o)
    requires o < y <= g.Length0 - o && k == 2 * RingSide(g.Length0, o) + (g.Length0 - o - y)
    ensures k < |Ring(g.Length0, o)| && Ring(g.Length0, o)[k] == Cell(g.Length0 - o, y)
    ensures Inside(g, Cell(g.Length0 - o, y))
  {
    RingCellSide(g.Length0, o, k);
  }

  /** The cell the fourth side visits at column `x` is the `k`-th of the walk and lies in the grid. */
  lemma FourthSideCell(g: array2<real>, o: int, k: int, x: int)
    requires Square(g) && (RingSide(g.Length0, o) > 0 ==> 1 <= o)
    requires o < x <= g.Length0 - o && k == 3 * RingSide(g.Length0, o) + (g.Length0 - o - x)
    ensures k < |Ring(g.Length0, o)| && Ring(g.Length0, o)[k] == Cell(x, o)
    ensures Inside(g, Cell(x, o))
  {
    RingCellSide(g.Length0, o, k);
  }

  /** The body of each side's loop at cell `c`, the `k`-th of the walk:
      keep `c` when its value is below `maxValue`. */
  method VisitCell(mapData: array2<real>, maxValue: real, ghost ring: seq<Cell>, ghost k: nat, c: Cell, positions: seq<Position>)
    returns (next: seq<Position>)
    requires k < |ring| && ring[k] == c && Inside(mapData, c)
    requires positions == Select(mapData, ring[..k], maxValue)
    ensures next == Select(mapData, ring[..k + 1], maxValue)
  {
    SelectStep(mapData, ring, k, c, maxValue);
    next := positions;
    if mapData[c.x, c.y] < maxValue {
      next := next + [At(c)];
    }
  }
}
