/**
  `GetCoordinates`: a raster scan of the grid inside a border inset that
  keeps the cells whose value exceeds a threshold, with a stride chosen by
  the caller or adapted to a target count.
*/
module GridSampler {
  import opened Numerics
  import opened Terrain

  /** Where a selected cell is placed: the cell itself, moved by the fixed
      pseudo-jitter `(5 - x % 10, 5 - y % 10)` when a random offset is asked for. */
  function Placed(x: nat, y: nat, randomOffset: real): (p: Position)
    ensures p.x == x && p.y == y
    ensures randomOffset <= 0.0 ==> p.dx == 0 && p.dz == 0
  {
    if randomOffset > 0.0 then Position(x, y, 5 - x % 10, 5 - y % 10) else Position(x, y, 0, 0)
  }

  /** The jitter moves a cell by at most 5 world units along each axis. */
  lemma PlacedJitter(x: nat, y: nat, randomOffset: real)
    ensures -4 <= Placed(x, y, randomOffset).dx <= 5 && -4 <= Placed(x, y, randomOffset).dz <= 5
  {
  }

  /** `p` comes before `q` in raster order: rows `y` outside, columns `x` inside. */
  predicate Before(p: Position, q: Position) {
    p.y < q.y || (p.y == q.y && p.x < q.x)
  }

  /** Strictly increasing in raster order. */
  predicate RasterOrdered(ps: seq<Position>) {
    forall i, j :: 0 <= i < j < |ps| ==> Before(ps[i], ps[j])
  }

  /** The cells `(x, y), (x + stride, y), ...` below `hi` of row `y` whose value exceeds `minValue`. */
  function RowScan(g: array2<real>, minValue: real, y: nat, x: nat, hi: int, stride: int, randomOffset: real): seq<Position>
    reads g
    requires stride >= 1 && hi <= g.Length0 && y < g.Length1
    decreases hi - x
  {
    if x >= hi then []
    else (if g[x, y] > minValue then [Placed(x, y, randomOffset)] else [])
         + RowScan(g, minValue, y, x + stride, hi, stride, randomOffset)
  }

  /** The rows `y, y + stride, ...` below `hi`, each scanned from column `lo` to `hi`. */
  function RasterScan(g: array2<real>, minValue: real, y: nat, lo: nat, hi: int, stride: int, randomOffset: real): seq<Position>
    reads g
    requires stride >= 1 && hi <= g.Length0 && hi <= g.Length1
    decreases hi - y
  {
    if y >= hi then []
    else RowScan(g, minValue, y, lo, hi, stride, randomOffset) + RasterScan(g, minValue, y + stride, lo, hi, stride, randomOffset)
  }

  /** Every cell a row scan returns lies in the row, on the stride lattice
      from `x`, below `hi`, has a value above `minValue` and is placed. */
  lemma {:induction false} RowScanSound(g: array2<real>, minValue: real, y: nat, x: nat, hi: int, stride: int, randomOffset: real)
    requires stride >= 1 && hi <= g.Length0 && y < g.Length1
    ensures forall p :: p in RowScan(g, minValue, y, x, hi, stride, randomOffset) ==>
      && p.y == y && x <= p.x < hi && (p.x - x) % stride == 0
      && g[p.x, p.y] > minValue && p == Placed(p.x, p.y, randomOffset)
    decreases hi - x
  {
    if x < hi {
      RowScanSound(g, minValue, y, x + stride, hi, stride, randomOffset);
      forall p | p in RowScan(g, minValue, y, x + stride, hi, stride, randomOffset)
        ensures (p.x - x) % stride == 0
      {
        ModStep(p.x - (x + stride), p.x - x, stride);
      }
    }
  }

  /** A row scan misses no cell of the stride lattice from `x` below `hi`
      whose value is above `minValue`. */
  lemma {:induction false} RowScanComplete(g: array2<real>, minValue: real, y: nat, x: nat, hi: int, stride: int, randomOffset: real)
    requires stride >= 1 && hi <= g.Length0 && y < g.Length1
    ensures forall cx :: x <= cx < hi && (cx - x) % stride == 0 && g[cx, y] > minValue ==>
      Placed(cx, y, randomOffset) in RowScan(g, minValue, y, x, hi, stride, randomOffset)
    decreases hi - x
  {
    if x < hi {
      var rest := RowScan(g, minValue, y, x + stride, hi, stride, randomOffset);
      RowScanComplete(g, minValue, y, x + stride, hi, stride, randomOffset);
      forall cx | x < cx < hi && (cx - x) % stride == 0 && g[cx, y] > minValue
        ensures Placed(cx, y, randomOffset) in rest
      {
        LatticeNext(cx - x, stride);
        assert cx - (x + stride) == cx - x - stride;
      }
    }
  }

  /** Where the cells of a row scan lie, without the lattice facts. */
  lemma {:induction false} RowScanBounds(g: array2<real>, minValue: real, y: nat, x: nat, hi: int, stride: int, randomOffset: real)
    requires stride >= 1 && hi <= g.Length0 && y < g.Length1
    ensures forall p :: p in RowScan(g, minValue, y, x, hi, stride, randomOffset) ==> p.y == y && x <= p.x < hi
    decreases hi - x
  {
    if x < hi {
      RowScanBounds(g, minValue, y, x + stride, hi, stride, randomOffset);
    }
  }

  /** Where the cells of a raster scan lie, without the lattice facts. */
  lemma {:induction false} RasterScanBounds(g: array2<real>, minValue: real, y: nat, lo: nat, hi: int, stride: int, randomOffset: real)
    requires stride >= 1 && hi <= g.Length0 && hi <= g.Length1
    ensures forall p :: p in RasterScan(g, minValue, y, lo, hi, stride, randomOffset) ==> y <= p.y < hi
    decreases hi - y
  {
    if y < hi {
      RowScanBounds(g, minValue, y, lo, hi, stride, randomOffset);
      RasterScanBounds(g, minValue, y + stride, lo, hi, stride, randomOffset);
    }
  }

  /** A row scan returns its cells from left to right. */
  lemma {:induction false} RowScanOrdered(g: array2<real>, minValue: real, y: nat, x: nat, hi: int, stride: int, randomOffset: real)
    requires stride >= 1 && hi <= g.Length0 && y < g.Length1
    ensures RasterOrdered(RowScan(g, minValue, y, x, hi, stride, randomOffset))
    decreases hi - x
  {
    if x < hi {
      var rest := RowScan(g, minValue, y, x + stride, hi, stride, randomOffset);
      RowScanOrdered(g, minValue, y, x + stride, hi, stride, randomOffset);
      RowScanBounds(g, minValue, y, x + stride, hi, stride, randomOffset);
      if g[x, y] > minValue {
        var head := [Placed(x, y, randomOffset)];
        assert forall j :: 0 <= j < |rest| ==> rest[j] in rest;
        ConcatOrdered(head, rest);
      }
    }
  }

  /** `p` lies in `[lo, hi)` by `[y, hi)`, on the stride lattice anchored
      at `(lo, y)`, has a value above `minValue` and is placed. */
  predicate ScanCell(g: array2<real>, minValue: real, y: nat, lo: nat, hi: int, stride: int, randomOffset: real, p: Position)
    reads g
    requires stride >= 1 && hi <= g.Length0 && hi <= g.Length1
  {
    && y <= p.y < hi && lo <= p.x < hi
    && (p.y - y) % stride == 0 && (p.x - lo) % stride == 0
    && g[p.x, p.y] > minValue && p == Placed(p.x, p.y, randomOffset)
  }

  /** Every cell a raster scan returns is a `ScanCell` of the scan. */
  lemma {:induction false} RasterScanSound(g: array2<real>, minValue: real, y: nat, lo: nat, hi: int, stride: int, randomOffset: real)
    requires stride >= 1 && hi <= g.Length0 && hi <= g.Length1
    ensures forall p :: p in RasterScan(g, minValue, y, lo, hi, stride, randomOffset) ==>
      ScanCell(g, minValue, y, lo, hi, stride, randomOffset, p)
    decreases hi - y
  {
    if y < hi {
      var row := RowScan(g, minValue, y, lo, hi, stride, randomOffset);
      var rest := RasterScan(g, minValue, y + stride, lo, hi, stride, randomOffset);
      assert RasterScan(g, minValue, y, lo, hi, stride, randomOffset) == row + rest;
      RowScanSound(g, minValue, y, lo, hi, stride, randomOffset);
      RasterScanSound(g, minValue, y + stride, lo, hi, stride, randomOffset);
      forall p | p in row + rest
        ensures ScanCell(g, minValue, y, lo, hi, stride, randomOffset, p)
      {
        if p in row {
          assert p.y == y && p.y - y == 0;
        } else {
          assert p in rest;
          assert ScanCell(g, minValue, y + stride, lo, hi, stride, randomOffset, p);
          ModStep(p.y - (y + stride), p.y - y, stride);
        }
      }
    }
  }

  /** A raster scan misses no cell of its stride lattice whose value is above `minValue`. */
  lemma {:induction false} RasterScanComplete(g: array2<real>, minValue: real, y: nat, lo: nat, hi: int, stride: int, randomOffset: real)
    requires stride >= 1 && hi <= g.Length0 && hi <= g.Length1
    ensures forall cx, cy ::
      lo <= cx < hi && y <= cy < hi && (cx - lo) % stride == 0 && (cy - y) % stride == 0 && g[cx, cy] > minValue
      ==> Placed(cx, cy, randomOffset) in RasterScan(g, minValue, y, lo, hi, stride, randomOffset)
    decreases hi - y
  {
    if y < hi {
      var rest := RasterScan(g, minValue, y + stride, lo, hi, stride, randomOffset);
      RowScanComplete(g, minValue, y, lo, hi, stride, randomOffset);
      RasterScanComplete(g, minValue, y + stride, lo, hi, stride, randomOffset);
      forall cx, cy | lo <= cx < hi && y < cy < hi && (cx - lo) % stride == 0 && (cy - y) % stride == 0 && g[cx, cy] > minValue
        ensures Placed(cx, cy, randomOffset) in rest
      {
        LatticeNext(cy - y, stride);
        assert cy - (y + stride) == cy - y - stride;
      }
    }
  }

  /** A raster scan returns its cells in strictly increasing raster order. */
  lemma {:induction false} RasterScanOrdered(g: array2<real>, minValue: real, y: nat, lo: nat, hi: int, stride: int, randomOffset: real)
    requires stride >= 1 && hi <= g.Length0 && hi <= g.Length1
    ensures RasterOrdered(RasterScan(g, minValue, y, lo, hi, stride, randomOffset))
    decreases hi - y
  {
    if y < hi {
      RowScanOrdered(g, minValue, y, lo, hi, stride, randomOffset);
      RasterScanOrdered(g, minValue, y + stride, lo, hi, stride, randomOffset);
      var row := RowScan(g, minValue, y, lo, hi, stride, randomOffset);
      var rest := RasterScan(g, minValue, y + stride, lo, hi, stride, randomOffset);
      RowScanBounds(g, minValue, y, lo, hi, stride, randomOffset);
      RasterScanBounds(g, minValue, y + stride, lo, hi, stride, randomOffset);
      RowBeforeRest(row, rest, y);
      ConcatOrdered(row, rest);
    }
  }

  /** Every cell of row `y` comes before every cell of the rows after it. */
  lemma RowBeforeRest(row: seq<Position>, rest: seq<Position>, y: int)
    requires forall p :: p in row ==> p.y == y
    requires forall p :: p in rest ==> p.y > y
    ensures forall i, j :: 0 <= i < |row| && 0 <= j < |rest| ==> Before(row[i], rest[j])
  {
    forall i, j | 0 <= i < |row| && 0 <= j < |rest|
      ensures Before(row[i], rest[j])
    {
      assert row[i] in row && rest[j] in rest;
    }
  }

  /** Two ordered runs, the first wholly before the second, form an ordered run. */
  lemma ConcatOrdered(a: seq<Position>, b: seq<Position>)
    requires RasterOrdered(a) && RasterOrdered(b)
    requires forall i, j :: 0 <= i < |a| && 0 <= j < |b| ==> Before(a[i], b[j])
    ensures RasterOrdered(a + b)
  {
    var ab := a + b;
    forall i, j | 0 <= i < j < |ab|
      ensures Before(ab[i], ab[j])
    {
      if j < |a| {
        assert ab[i] == a[i] && ab[j] == a[j];
      } else if i >= |a| {
        assert ab[i] == b[i - |a|] && ab[j] == b[j - |a|];
      } else {
        assert ab[i] == a[i] && ab[j] == b[j - |a|];
      }
    }
  }

  /** The inset `(int)(sizeX * offsetFromBorder * 2)` kept clear of the map edge. */
  function BorderInset(sizeX: nat, offsetFromBorder: real): (inset: nat)
    ensures offsetFromBorder <= 0.0 ==> inset == 0
    ensures offsetFromBorder > 0.0 ==> inset as real <= sizeX as real * offsetFromBorder * 2.0 < inset as real + 1.0
  {
    if offsetFromBorder > 0.0 then TruncReal(sizeX as real * offsetFromBorder * 2.0) else 0
  }

  /** The integer ceiling of a square root: the least `k` with `k * k >= n`. */
  function CeilSqrt(n: nat): (k: nat)
    ensures k * k >= n
    ensures k == 0 || (k - 1) * (k - 1) < n
  {
    CeilSqrtFrom(n, 0)
  }

  /** The least `r >= k` with `r * r >= n`, given that no smaller candidate works. */
  function CeilSqrtFrom(n: nat, k: nat): (r: nat)
    requires k == 0 || (k - 1) * (k - 1) < n
    ensures r * r >= n
    ensures r == 0 || (r - 1) * (r - 1) < n
    decreases n - k
  {
    if k * k >= n then k
    else
      assert k <= k * k;
      CeilSqrtFrom(n, k + 1)
  }

  /** The adaptive stride exactly as line 140 computes it:
      `Ceiling(Sqrt(countPositions / destCount))` with an integer quotient. */
  function StrideAsWritten(countPositions: nat, destCount: int): (s: nat)
    requires destCount > 0
    ensures s * s >= countPositions / destCount
    ensures s == 0 || (s - 1) * (s - 1) < countPositions / destCount
  {
    CeilSqrt(countPositions / destCount)
  }

  /** When fewer cells qualify than are wanted, the as-written stride is 0:
      `y += newStep` then never moves, and the scan at line 143 does not end
      on a non-empty region. */
  lemma StrideAsWrittenStalls(countPositions: nat, destCount: int)
    requires 0 < destCount && countPositions < destCount
    ensures StrideAsWritten(countPositions, destCount) == 0
  {
    assert countPositions / destCount == 0;
  }

  /** The stride of the selection pass. With no target it is the caller's
      step; with a target it is the least positive `s` whose square reaches
      `countPositions / destCount` (integer quotient), which is the
      as-written stride whenever that is positive, and 1 where the as-written
      stride would be 0. */
  function Stride(step: int, destCount: int, countPositions: nat): (s: int)
    requires step >= 1
    ensures s >= 1
    ensures destCount <= 0 ==> s == step
    ensures destCount > 0 ==> s * s >= countPositions / destCount && (s == 1 || (s - 1) * (s - 1) < countPositions / destCount)
    ensures destCount > 0 && StrideAsWritten(countPositions, destCount) >= 1 ==> s == StrideAsWritten(countPositions, destCount)
    ensures destCount > 0 && countPositions >= destCount ==> s == StrideAsWritten(countPositions, destCount)
  {
    if destCount > 0 then
      var s := StrideAsWritten(countPositions, destCount);
      if s >= 1 then s else 1
    else step
  }

  /** The stride `GetCoordinates` selects with: the caller's step with no
      target, otherwise the stride adapted to the count of the counting pass
      at the caller's step. */
  function CoordinatesStride(g: array2<real>, minValue: real, step: int, destCount: int, offsetFromBorder: real): (s: int)
    reads g
    requires Square(g) && step >= 1
    ensures s >= 1
  {
    var inset := BorderInset(g.Length0, offsetFromBorder);
    var countPositions := if destCount > 0 then |RasterScan(g, minValue, inset, inset, g.Length0 - inset, step, 0.0)| else 0;
    Stride(step, destCount, countPositions)
  }

  /** What `GetCoordinates` returns: the selection pass over the inset region
      at the stride of `CoordinatesStride`. */
  function Coordinates(g: array2<real>, minValue: real, step: int, destCount: int, randomOffset: real, offsetFromBorder: real): seq<Position>
    reads g
    requires Square(g) && step >= 1
  {
    var inset := BorderInset(g.Length0, offsetFromBorder);
    RasterScan(g, minValue, inset, inset, g.Length0 - inset, CoordinatesStride(g, minValue, step, destCount, offsetFromBorder), randomOffset)
  }

  /** Every returned cell lies inside the inset region, on the stride
      lattice anchored at the inset corner, has a value above `minValue`
      and is placed. */
  lemma CoordinatesSound(g: array2<real>, minValue: real, step: int, destCount: int, randomOffset: real, offsetFromBorder: real)
    requires Square(g) && step >= 1
    ensures var inset, stride := BorderInset(g.Length0, offsetFromBorder), CoordinatesStride(g, minValue, step, destCount, offsetFromBorder);
      forall p :: p in Coordinates(g, minValue, step, destCount, randomOffset, offsetFromBorder) ==>
        && inset <= p.x < g.Length0 - inset && inset <= p.y < g.Length1 - inset
        && (p.x - inset) % stride == 0 && (p.y - inset) % stride == 0
        && g[p.x, p.y] > minValue && p == Placed(p.x, p.y, randomOffset)
  {
    var inset, stride := BorderInset(g.Length0, offsetFromBorder), CoordinatesStride(g, minValue, step, destCount, offsetFromBorder);
    assert Coordinates(g, minValue, step, destCount, randomOffset, offsetFromBorder)
      == RasterScan(g, minValue, inset, inset, g.Length0 - inset, stride, randomOffset);
    RasterScanSound(g, minValue, inset, inset, g.Length0 - inset, stride, randomOffset);
  }

  /** Every cell of that lattice inside the inset region with a value above
      `minValue` is returned, placed. */
  lemma CoordinatesComplete(g: array2<real>, minValue: real, step: int, destCount: int, randomOffset: real, offsetFromBorder: real)
    requires Square(g) && step >= 1
    ensures var inset, stride := BorderInset(g.Length0, offsetFromBorder), CoordinatesStride(g, minValue, step, destCount, offsetFromBorder);
      forall cx, cy ::
        && inset <= cx < g.Length0 - inset && inset <= cy < g.Length1 - inset
        && (cx - inset) % stride == 0 && (cy - inset) % stride == 0 && g[cx, cy] > minValue
        ==> Placed(cx, cy, randomOffset) in Coordinates(g, minValue, step, destCount, randomOffset, offsetFromBorder)
  {
    var inset, stride := BorderInset(g.Length0, offsetFromBorder), CoordinatesStride(g, minValue, step, destCount, offsetFromBorder);
    assert Coordinates(g, minValue, step, destCount, randomOffset, offsetFromBorder)
      == RasterScan(g, minValue, inset, inset, g.Length0 - inset, stride, randomOffset);
    RasterScanComplete(g, minValue, inset, inset, g.Length0 - inset, stride, randomOffset);
  }

  /** The cells come in strictly increasing raster order. */
  lemma CoordinatesOrdered(g: array2<real>, minValue: real, step: int, destCount: int, randomOffset: real, offsetFromBorder: real)
    requires Square(g) && step >= 1
    ensures RasterOrdered(Coordinates(g, minValue, step, destCount, randomOffset, offsetFromBorder))
  {
    var inset := BorderInset(g.Length0, offsetFromBorder);
    RasterScanOrdered(g, minValue, inset, inset, g.Length0 - inset, CoordinatesStride(g, minValue, step, destCount, offsetFromBorder), randomOffset);
  }

  /** The counting pass (lines 136-139): the number of cells of the stride
      lattice inside the inset whose value exceeds `minValue`, which is the
      length of a selection pass at the same stride. */
  method CountPositions(mapData: array2<real>, minValue: real, inset: nat, step: int) returns (countPositions: nat)
    requires Square(mapData) && step >= 1
    ensures countPositions == |RasterScan(mapData, minValue, inset, inset, mapData.Length0 - inset, step, 0.0)|
  {
    var sizeX := mapData.Length0;
    countPositions := 0;
    var y := inset;
    while y < sizeX - inset
      invariant countPositions + |RasterScan(mapData, minValue, y, inset, sizeX - inset, step, 0.0)|
        == |RasterScan(mapData, minValue, inset, inset, sizeX - inset, step, 0.0)|
      decreases sizeX - inset - y
    {
      countPositions := CountRow(mapData, minValue, y, inset, step, countPositions);
      y := y + step;
    }
  }

  /** The inner loop of the counting pass over row `y`: adds to `start` the
      number of counted cells of the row. */
  method CountRow(mapData: array2<real>, minValue: real, y: nat, inset: nat, step: int, start: nat)
    returns (countPositions: nat)
    requires Square(mapData) && step >= 1 && y < mapData.Length0 - inset
    ensures countPositions == start + |RowScan(mapData, minValue, y, inset, mapData.Length0 - inset, step, 0.0)|
  {
    var sizeX, sizeY := mapData.Length0, mapData.Length1;
    countPositions := start;
    var x := inset;
    while x < sizeY - inset
      invariant countPositions + |RowScan(mapData, minValue, y, x, sizeX - inset, step, 0.0)|
        == start + |RowScan(mapData, minValue, y, inset, sizeX - inset, step, 0.0)|
      decreases sizeY - inset - x
    {
      if mapData[x, y] > minValue {
        countPositions := countPositions + 1;
      }
      x := x + step;
    }
  }

  /** The selection pass (lines 143-156) at stride `newStep`. */
  method SelectPositions(mapData: array2<real>, minValue: real, inset: nat, newStep: int, randomOffset: real)
    returns (positions: seq<Position>)
    requires Square(mapData) && newStep >= 1
    ensures positions == RasterScan(mapData, minValue, inset, inset, mapData.Length0 - inset, newStep, randomOffset)
  {
    var sizeX := mapData.Length0;
    positions := [];
    var y := inset;
    while y < sizeX - inset
      invariant positions + RasterScan(mapData, minValue, y, inset, sizeX - inset, newStep, randomOffset)
        == RasterScan(mapData, minValue, inset, inset, sizeX - inset, newStep, randomOffset)
      decreases sizeX - inset - y
    {
      ghost var rowStart := positions;
      positions := SelectRow(mapData, minValue, y, inset, newStep, randomOffset, positions);
      ConcatAssoc(rowStart, RowScan(mapData, minValue, y, inset, sizeX - inset, newStep, randomOffset),
                  RasterScan(mapData, minValue, y + newStep, inset, sizeX - inset, newStep, randomOffset));
      y := y + newStep;
    }
  }

  /** The inner loop of the selection pass over row `y`: appends to `start`
      the placed cells of the row whose value exceeds `minValue`. */
  method SelectRow(mapData: array2<real>, minValue: real, y: nat, inset: nat, newStep: int, randomOffset: real,
                   start: seq<Position>)
    returns (positions: seq<Position>)
    requires Square(mapData) && newStep >= 1 && y < mapData.Length0 - inset
    ensures positions == start + RowScan(mapData, minValue, y, inset, mapData.Length0 - inset, newStep, randomOffset)
  {
    var sizeX, sizeY := mapData.Length0, mapData.Length1;
    positions := start;
    var x := inset;
    while x < sizeY - inset
      invariant positions + RowScan(mapData, minValue, y, x, sizeX - inset, newStep, randomOffset)
        == start + RowScan(mapData, minValue, y, inset, sizeX - inset, newStep, randomOffset)
      decreases sizeY - inset - x
    {
      ghost var before := positions;
      if mapData[x, y] > minValue {
        var newPos := Position(x, y, 0, 0);
        if randomOffset > 0.0 {
          newPos := Position(x, y, 5 - x % 10, 5 - y % 10);
        }
        positions := positions + [newPos];
      }
      ConcatAssoc(before, if mapData[x, y] > minValue then [Placed(x, y, randomOffset)] else [],
                  RowScan(mapData, minValue, y, x + newStep, sizeX - inset, newStep, randomOffset));
      x := x + newStep;
    }
  }

  /** Concatenation is associative. */
  lemma ConcatAssoc<T>(a: seq<T>, b: seq<T>, c: seq<T>)
    ensures (a + b) + c == a + (b + c)
  {
  }

  /** `GetCoordinates` (lines 122-158): the inset, the optional counting
      pass and adapted stride, then the selection pass; the properties of
      the result are those of `CoordinatesSound`, `CoordinatesComplete` and
      `CoordinatesOrdered`. */
  method GetCoordinates(mapData: array2<real>, minValue: real, step: int, destCount: int, randomOffset: real, offsetFromBorder: real)
    returns (positions: seq<Position>)
    requires Square(mapData) && step >= 1
    ensures positions == Coordinates(mapData, minValue, step, destCount, randomOffset, offsetFromBorder)
  {
    var sizeX := mapData.Length0;
    var offsetFromBorderMap := 0;
    if offsetFromBorder > 0.0 {
      offsetFromBorderMap := TruncReal(sizeX as real * offsetFromBorder * 2.0);
    }
    assert offsetFromBorderMap == BorderInset(sizeX, offsetFromBorder);
    var countPositions := 0;
    var newStep := step;
    if destCount > 0 {
      countPositions := CountPositions(mapData, minValue, offsetFromBorderMap, step);
      newStep := Stride(step, destCount, countPositions);
    }
    assert newStep == CoordinatesStride(mapData, minValue, step, destCount, offsetFromBorder);
    positions := SelectPositions(mapData, minValue, offsetFromBorderMap, newStep, randomOffset);
  }
}
