/**
  `GetCoordinatesInBorderNested`: for each row `1..rows`, a border walk at
  a growing offset, then `countOnRow - 2 row` picks from it at evenly
  spaced indices shifted by a seed.
*/
module NestedRings {
  import opened Numerics
  import opened Terrain
  import opened BorderRing

  /** The index of the `i`-th pick from a ring of `count` positions when the
      row asks for `limit` picks: `(randValue + ((count - 1) / limit) * i) % count`
      with a truncating quotient and a remainder that takes the sign of the
      dividend. The remainder of an empty ring is NaN, and a negative
      remainder is no index either: both make the list access throw. */
  function PickIndex(randValue: int, count: nat, limit: int, i: int): (r: Result<int>)
    requires limit >= 1
    ensures r.Ok? ==> 0 <= r.value < count
    ensures r.Ok? ==> (randValue + TruncDiv(count - 1, limit) * i - r.value) % count == 0
    ensures r.Fail? ==> r.fault == ArgumentOutOfRange
    ensures r.Ok? <==> count > 0 && (randValue + TruncDiv(count - 1, limit) * i >= 0
                                     || (randValue + TruncDiv(count - 1, limit) * i) % count == 0)
  {
    if count == 0 then Fail(ArgumentOutOfRange)
    else
      var positionIndex := TruncMod(randValue + TruncDiv(count - 1, limit) * i, count);
      if positionIndex < 0 then Fail(ArgumentOutOfRange) else Ok(positionIndex)
  }

  /** A non-negative seed never faults on a non-empty ring. */
  lemma PickIndexSafe(randValue: int, count: nat, limit: int, i: int)
    requires limit >= 1 && count > 0 && randValue >= 0 && i >= 0
    ensures PickIndex(randValue, count, limit, i).Ok?
  {
    assert TruncDiv(count - 1, limit) >= 0;
    assert TruncDiv(count - 1, limit) * i >= 0;
  }

  /** Seed 0 on a ring of five with two picks takes indices 2 and 4. */
  lemma PickIndexExample()
    ensures PickIndex(0, 5, 2, 1) == Ok(2)
    ensures PickIndex(0, 5, 2, 2) == Ok(4)
  {
    assert TruncDiv(4, 2) == 2;
  }

  /** The first `upTo` picks of a row from the ring `avail`, or the fault of the first pick that throws. */
  function RowPicks(avail: seq<Position>, randValue: int, limit: int, upTo: nat): Result<seq<Position>>
    requires upTo == 0 || 1 <= upTo <= limit
  {
    if upTo == 0 then Ok([])
    else match RowPicks(avail, randValue, limit, upTo - 1)
      case Fail(f) => Fail(f)
      case Ok(picks) =>
        match PickIndex(randValue, |avail|, limit, upTo)
        case Fail(f) => Fail(f)
        case Ok(positionIndex) => Ok(picks + [avail[positionIndex]])
  }

  /** The picks succeed exactly when every pick index is valid; they then
      number `upTo`, and each is a position of the ring. */
  lemma {:induction false} RowPicksCorrect(avail: seq<Position>, randValue: int, limit: int, upTo: nat)
    requires upTo == 0 || 1 <= upTo <= limit
    ensures RowPicks(avail, randValue, limit, upTo).Ok?
      <==> forall i :: 1 <= i <= upTo ==> PickIndex(randValue, |avail|, limit, i).Ok?
    ensures RowPicks(avail, randValue, limit, upTo).Ok? ==>
      && |RowPicks(avail, randValue, limit, upTo).value| == upTo
      && forall p :: p in RowPicks(avail, randValue, limit, upTo).value ==> p in avail
  {
    if upTo > 0 {
      RowPicksCorrect(avail, randValue, limit, upTo - 1);
    }
  }

  /** Once a pick throws, the row throws the same exception whatever follows. */
  lemma {:induction false} RowPicksFailStays(avail: seq<Position>, randValue: int, limit: int, i: nat, j: nat)
    requires 1 <= i <= j <= limit && RowPicks(avail, randValue, limit, i).Fail?
    ensures RowPicks(avail, randValue, limit, j) == RowPicks(avail, randValue, limit, i)
    decreases j - i
  {
    if i < j {
      RowPicksFailStays(avail, randValue, limit, i, j - 1);
    }
  }

  /** The offset fraction of row `row` of `rows`: `0.49 / rows * row * 0.8`. */
  function RowOffset(rows: int, row: int): (f: real)
    requires rows >= 1
    ensures 0 <= row <= rows ==> 0.0 <= f <= 0.392
  {
    0.49 / rows as real * row as real * 0.8
  }

  /** Row `row`: the walk below 0.7 at the row's offset, then
      `countOnRow - 2 row` picks from it (none when that is not positive). */
  function NestedRow(g: array2<real>, rows: int, countOnRow: int, randValue: int, row: int): Result<seq<Position>>
    reads g
    requires Square(g) && 1 <= row <= rows
  {
    match BorderCells(g, 0.7, RowOffset(rows, row))
    case Fail(f) => Fail(f)
    case Ok(avail) => LimitPicks(avail, randValue, countOnRow - row * 2)
  }

  /** The `limit` picks of one row from the ring `avail`; none when `limit` is not positive. */
  function LimitPicks(avail: seq<Position>, randValue: int, limit: int): Result<seq<Position>> {
    if limit >= 1 then RowPicks(avail, randValue, limit, limit) else Ok([])
  }

  /** `positions` followed by the picks `r`, or the fault of `r`. */
  function Extend(positions: seq<Position>, r: Result<seq<Position>>): Result<seq<Position>> {
    match r
    case Fail(f) => Fail(f)
    case Ok(picks) => Ok(positions + picks)
  }

  /** The rows a nested walk runs for `rows`: `1..rows`, none when `rows` is not positive. */
  function RowsRun(rows: int): nat {
    if rows > 0 then rows else 0
  }

  /** Rows `1..upTo` concatenated, or the exception of the first row that throws. */
  function Nested(g: array2<real>, rows: int, countOnRow: int, randValue: int, upTo: nat): Result<seq<Position>>
    reads g
    requires Square(g) && (upTo == 0 || upTo <= rows)
  {
    if upTo == 0 then Ok([])
    else match Nested(g, rows, countOnRow, randValue, upTo - 1)
      case Fail(f) => Fail(f)
      case Ok(positions) => Extend(positions, NestedRow(g, rows, countOnRow, randValue, upTo))
  }

  /** The number of picks of rows `1..upTo`: the sum of `max(0, countOnRow - 2 row)`. */
  function NestedPickCount(countOnRow: int, upTo: nat): nat {
    if upTo == 0 then 0
    else NestedPickCount(countOnRow, upTo - 1) + (if countOnRow - upTo * 2 >= 1 then countOnRow - upTo * 2 else 0)
  }

  /** When every row asks for picks the count has a closed form:
      `upTo * countOnRow - upTo * (upTo + 1)`. */
  lemma {:induction false} NestedPickCountClosed(countOnRow: int, upTo: nat)
    requires countOnRow > 2 * upTo
    ensures NestedPickCount(countOnRow, upTo) == upTo * countOnRow - upTo * (upTo + 1)
  {
    if upTo > 0 {
      NestedPickCountClosed(countOnRow, upTo - 1);
      assert upTo * countOnRow == (upTo - 1) * countOnRow + countOnRow;
      assert upTo * (upTo + 1) == (upTo - 1) * upTo + 2 * upTo;
    }
  }

  /** A successful nested walk returns exactly `NestedPickCount` positions,
      each an unshifted cell whose value is below 0.7. */
  lemma {:induction false} NestedCorrect(g: array2<real>, rows: int, countOnRow: int, randValue: int, upTo: nat)
    requires Square(g) && (upTo == 0 || upTo <= rows)
    ensures Nested(g, rows, countOnRow, randValue, upTo).Ok? ==>
      && |Nested(g, rows, countOnRow, randValue, upTo).value| == NestedPickCount(countOnRow, upTo)
      && forall p :: p in Nested(g, rows, countOnRow, randValue, upTo).value ==>
           p == At(Cell(p.x, p.y)) && Inside(g, Cell(p.x, p.y)) && g[p.x, p.y] < 0.7
  {
    if upTo > 0 {
      NestedCorrect(g, rows, countOnRow, randValue, upTo - 1);
      var ring := BorderCells(g, 0.7, RowOffset(rows, upTo));
      BorderCellsCorrect(g, 0.7, RowOffset(rows, upTo));
      var limit := countOnRow - upTo * 2;
      var front := Nested(g, rows, countOnRow, randValue, upTo - 1);
      var row := NestedRow(g, rows, countOnRow, randValue, upTo);
      if front.Ok? && row.Ok? {
        assert ring.Ok?;
        if limit >= 1 {
          RowPicksCorrect(ring.value, randValue, limit, limit);
        }
        assert forall p :: p in row.value ==> p in ring.value;
        assert Nested(g, rows, countOnRow, randValue, upTo).value == front.value + row.value;
      }
    }
  }

  /** Once a row throws, the nested walk throws the same exception whatever follows. */
  lemma {:induction false} NestedFailStays(g: array2<real>, rows: int, countOnRow: int, randValue: int, i: nat, j: nat)
    requires Square(g) && i <= j <= rows && Nested(g, rows, countOnRow, randValue, i).Fail?
    ensures Nested(g, rows, countOnRow, randValue, j) == Nested(g, rows, countOnRow, randValue, i)
    decreases j - i
  {
    if i < j {
      NestedFailStays(g, rows, countOnRow, randValue, i, j - 1);
    }
  }

  /** One more row after rows `1..row - 1` gave `positions`: the fault of
      the ring `ring` of row `row`, or `positions` extended by the row's picks. */
  lemma NestedNext(g: array2<real>, rows: int, countOnRow: int, randValue: int, row: int,
                   positions: seq<Position>, ring: Result<seq<Position>>)
    requires Square(g) && 1 <= row <= rows
    requires Nested(g, rows, countOnRow, randValue, row - 1) == Ok(positions)
    requires BorderCells(g, 0.7, RowOffset(rows, row)) == ring
    ensures ring.Fail? ==> Nested(g, rows, countOnRow, randValue, row) == Fail(ring.fault)
    ensures ring.Ok? ==>
      Nested(g, rows, countOnRow, randValue, row) == Extend(positions, LimitPicks(ring.value, randValue, countOnRow - row * 2))
  {
  }

  /** `GetCoordinatesInBorderNested` (lines 186-205): the row loop; the
      pick loop of each row is `AddRowPicks`. */
  method GetCoordinatesInBorderNested(mapData: array2<real>, rows: int, countOnRow: int, randValue: int)
    returns (r: Result<seq<Position>>)
    requires Square(mapData)
    ensures r == Nested(mapData, rows, countOnRow, randValue, RowsRun(rows))
  {
    var positions := [];
    var row := 1;
    while row <= rows
      invariant 1 <= row && (rows >= 1 ==> row <= rows + 1) && (rows <= 0 ==> row == 1)
      invariant Nested(mapData, rows, countOnRow, randValue, row - 1) == Ok(positions)
    {
      var added := AddRow(mapData, rows, countOnRow, randValue, row, positions);
      if added.Fail? {
        NestedFailStays(mapData, rows, countOnRow, randValue, row, rows);
        return added;
      }
      positions := added.value;
      row := row + 1;
    }
    return Ok(positions);
  }

  /** Lines 191-202, one pass of the row loop: the ring of row `row` at its
      offset, then its picks appended to the `positions` of the rows before. */
  method AddRow(mapData: array2<real>, rows: int, countOnRow: int, randValue: int, row: int, positions: seq<Position>)
    returns (r: Result<seq<Position>>)
    requires Square(mapData) && 1 <= row <= rows
    requires Nested(mapData, rows, countOnRow, randValue, row - 1) == Ok(positions)
    ensures r == Nested(mapData, rows, countOnRow, randValue, row)
  {
    var offsetPos := RowOffset(rows, row);
    var avalible := GetCoordinatesInBorder(mapData, 0.7, offsetPos);
    NestedNext(mapData, rows, countOnRow, randValue, row, positions, avalible);
    if avalible.Fail? {
      return Fail(avalible.fault);
    }
    var limit := countOnRow - row * 2;
    r := AddRowPicks(positions, avalible.value, randValue, limit);
  }

  /** Lines 193-202: the `limit` picks of one row from the ring
      `avalibleGoldPositions`, appended to `positions` one at a time. */
  method AddRowPicks(positions: seq<Position>, avalibleGoldPositions: seq<Position>, randValue: int, limit: int)
    returns (r: Result<seq<Position>>)
    ensures r == Extend(positions, LimitPicks(avalibleGoldPositions, randValue, limit))
  {
    var count := |avalibleGoldPositions|;
    var picked := positions;
    var i := 1;
    while i <= limit
      invariant 1 <= i && (limit >= 1 ==> i <= limit + 1) && (limit < 1 ==> i == 1)
      invariant RowPicks(avalibleGoldPositions, randValue, limit, i - 1).Ok?
      invariant picked == positions + RowPicks(avalibleGoldPositions, randValue, limit, i - 1).value
    {
      var step := TruncDiv(count - 1, limit);
      if count == 0 {
        RowPicksFailStays(avalibleGoldPositions, randValue, limit, i, limit);
        return Fail(ArgumentOutOfRange);
      }
      var positionIndex := TruncMod(randValue + step * i, count);
      if positionIndex < 0 {
        RowPicksFailStays(avalibleGoldPositions, randValue, limit, i, limit);
        return Fail(ArgumentOutOfRange);
      }
      picked := picked + [avalibleGoldPositions[positionIndex]];
      i := i + 1;
    }
    return Ok(picked);
  }
}
