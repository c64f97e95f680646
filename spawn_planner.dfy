/**
  `GetSpawnData`: the table of spawn points, trees, gold and animals of a
  map. The spawn points are evenly spaced picks from one border walk; the
  trees come from the adaptive raster scan; gold and animals from nested
  border walks seeded by the map's seed.
*/
module SpawnPlanner {
  import opened Numerics
  import opened Terrain
  import opened BorderRing
  import opened GridSampler
  import opened NestedRings

  /** The map seed, a C# `uint`. */
  type UInt32 = u: int | 0 <= u < TwoTo32

  /** The `i`-th spawn index on a walk of `count` positions for `spawnCount`
      spawns: `((count - 1) / spawnCount) * i`, with a truncating quotient. */
  function SpawnIndex(count: nat, spawnCount: int, i: int): int
    requires spawnCount >= 1
  {
    TruncDiv(count - 1, spawnCount) * i
  }

  /** On a non-empty walk every spawn index `1..spawnCount` is a position of it. */
  lemma SpawnIndexInRange(count: nat, spawnCount: int, i: int)
    requires count >= 1 && 1 <= i <= spawnCount
    ensures 0 <= SpawnIndex(count, spawnCount, i) < count
  {
    var q := TruncDiv(count - 1, spawnCount);
    assert 0 <= q && q * spawnCount <= count - 1;
    assert q * i <= q * spawnCount;
  }

  /** The first `upTo` spawn picks from the walk `avail`, or the exception
      of the first index that is not a position of it. */
  function SpawnPicks(avail: seq<Position>, spawnCount: int, upTo: nat): Result<seq<Position>>
    requires upTo == 0 || 1 <= upTo <= spawnCount
  {
    if upTo == 0 then Ok([])
    else match SpawnPicks(avail, spawnCount, upTo - 1)
      case Fail(f) => Fail(f)
      case Ok(picks) =>
        var positionIndex := SpawnIndex(|avail|, spawnCount, upTo);
        if 0 <= positionIndex < |avail| then Ok(picks + [avail[positionIndex]])
        else Fail(ArgumentOutOfRange)
  }

  /** The spawn loop, lines 214-219: `spawnCount` picks, none when it is not positive. */
  function Spawns(avail: seq<Position>, spawnCount: int): Result<seq<Position>> {
    if spawnCount >= 1 then SpawnPicks(avail, spawnCount, spawnCount) else Ok([])
  }

  /** The picks fail exactly on an empty walk; otherwise there are `upTo` of
      them and pick `i` is the position at `SpawnIndex(|avail|, spawnCount, i)`. */
  lemma {:induction false} SpawnPicksCorrect(avail: seq<Position>, spawnCount: int, upTo: nat)
    requires upTo == 0 || 1 <= upTo <= spawnCount
    ensures SpawnPicks(avail, spawnCount, upTo).Ok? <==> upTo == 0 || |avail| >= 1
    ensures SpawnPicks(avail, spawnCount, upTo).Fail? ==> SpawnPicks(avail, spawnCount, upTo).fault == ArgumentOutOfRange
    ensures SpawnPicks(avail, spawnCount, upTo).Ok? ==>
      && |SpawnPicks(avail, spawnCount, upTo).value| == upTo
      && forall i :: 1 <= i <= upTo ==>
           0 <= SpawnIndex(|avail|, spawnCount, i) < |avail|
           && SpawnPicks(avail, spawnCount, upTo).value[i - 1] == avail[SpawnIndex(|avail|, spawnCount, i)]
  {
    if upTo > 0 {
      SpawnPicksCorrect(avail, spawnCount, upTo - 1);
      if |avail| >= 1 {
        SpawnIndexInRange(|avail|, spawnCount, upTo);
        forall i | 1 <= i <= upTo - 1
          ensures 0 <= SpawnIndex(|avail|, spawnCount, i) < |avail|
        {
          SpawnIndexInRange(|avail|, spawnCount, i);
        }
      } else {
        if upTo > 1 {
          SpawnPicksFailStays(avail, spawnCount, 1, upTo);
        }
      }
    }
  }

  /** Once a pick throws, the spawn loop throws the same exception whatever follows. */
  lemma {:induction false} SpawnPicksFailStays(avail: seq<Position>, spawnCount: int, i: nat, j: nat)
    requires 1 <= i <= j <= spawnCount && SpawnPicks(avail, spawnCount, i).Fail?
    ensures SpawnPicks(avail, spawnCount, j) == SpawnPicks(avail, spawnCount, i)
    decreases j - i
  {
    if i < j {
      SpawnPicksFailStays(avail, spawnCount, i, j - 1);
    }
  }

  /** What `GetSpawnData` returns for the map `g` and the seed `seed`: the
      spawn walk below 0.3 at offset 0.15 and its picks, the trees as
      `GetCoordinates(0.9, 1, maxTrees, 1.0, 0.01)`, gold from the seed cast
      to `int` and animals from half the seed, or the first exception thrown. */
  function SpawnPlan(g: array2<real>, spawnCount: int, maxTrees: int, goldCountOnRow: int, goldRows: int,
                     animalsCountOnRow: int, animalsRows: int, seed: UInt32): Result<map<string, seq<Position>>>
    reads g
    requires Square(g)
  {
    match BorderCells(g, 0.3, 0.15)
    case Fail(f) => Fail(f)
    case Ok(avail) =>
      match Spawns(avail, spawnCount)
      case Fail(f) => Fail(f)
      case Ok(spawn) =>
        match Nested(g, goldRows, goldCountOnRow, UIntToInt(seed), RowsRun(goldRows))
        case Fail(f) => Fail(f)
        case Ok(gold) =>
          match Nested(g, animalsRows, animalsCountOnRow, UIntToInt(seed / 2), RowsRun(animalsRows))
          case Fail(f) => Fail(f)
          case Ok(animals) =>
            Ok(map["spawn" := spawn, "trees" := Coordinates(g, 0.9, 1, maxTrees, 1.0, 0.01),
                   "gold" := gold, "animals" := animals])
  }

  /** The spawn loop fails exactly when spawns are asked for from an empty
      walk; it then yields `max(0, spawnCount)` positions of the walk. */
  lemma SpawnsCorrect(avail: seq<Position>, spawnCount: int)
    ensures Spawns(avail, spawnCount).Ok? <==> spawnCount <= 0 || |avail| >= 1
    ensures Spawns(avail, spawnCount).Ok? ==>
      && |Spawns(avail, spawnCount).value| == RowsRun(spawnCount)
      && forall p :: p in Spawns(avail, spawnCount).value ==> p in avail
  {
    if spawnCount >= 1 {
      SpawnPicksCorrect(avail, spawnCount, spawnCount);
      var spawn := SpawnPicks(avail, spawnCount, spawnCount);
      if spawn.Ok? {
        forall p | p in spawn.value
          ensures p in avail
        {
          var j :| 0 <= j < |spawn.value| && spawn.value[j] == p;
          assert spawn.value[(j + 1) - 1] == avail[SpawnIndex(|avail|, spawnCount, j + 1)];
        }
      }
    }
  }

  /** The table is built exactly when the spawn walk, its picks and both
      nested walks succeed. */
  lemma SpawnPlanSucceeds(g: array2<real>, spawnCount: int, maxTrees: int, goldCountOnRow: int, goldRows: int,
                          animalsCountOnRow: int, animalsRows: int, seed: UInt32)
    requires Square(g)
    ensures SpawnPlan(g, spawnCount, maxTrees, goldCountOnRow, goldRows, animalsCountOnRow, animalsRows, seed).Ok? <==>
      && BorderCells(g, 0.3, 0.15).Ok?
      && (spawnCount <= 0 || |BorderCells(g, 0.3, 0.15).value| >= 1)
      && Nested(g, goldRows, goldCountOnRow, UIntToInt(seed), RowsRun(goldRows)).Ok?
      && Nested(g, animalsRows, animalsCountOnRow, UIntToInt(seed / 2), RowsRun(animalsRows)).Ok?
  {
    var ring := BorderCells(g, 0.3, 0.15);
    if ring.Ok? {
      SpawnsCorrect(ring.value, spawnCount);
    }
  }

  /** A built table has the four keys, `max(0, spawnCount)` spawn points
      taken from the spawn walk (each a cell below 0.3), the trees of the
      adaptive scan, and as many gold and animal positions as
      `NestedPickCount` says, each a cell below 0.7. */
  lemma SpawnPlanTable(g: array2<real>, spawnCount: int, maxTrees: int, goldCountOnRow: int, goldRows: int,
                       animalsCountOnRow: int, animalsRows: int, seed: UInt32, table: map<string, seq<Position>>)
    requires Square(g)
    requires SpawnPlan(g, spawnCount, maxTrees, goldCountOnRow, goldRows, animalsCountOnRow, animalsRows, seed) == Ok(table)
    ensures table.Keys == {"spawn", "trees", "gold", "animals"}
    ensures |table["spawn"]| == RowsRun(spawnCount)
    ensures forall p :: p in table["spawn"] ==>
      p in BorderCells(g, 0.3, 0.15).value && Inside(g, Cell(p.x, p.y)) && g[p.x, p.y] < 0.3
    ensures table["trees"] == Coordinates(g, 0.9, 1, maxTrees, 1.0, 0.01)
    ensures |table["gold"]| == NestedPickCount(goldCountOnRow, RowsRun(goldRows))
    ensures forall p :: p in table["gold"] ==> Inside(g, Cell(p.x, p.y)) && g[p.x, p.y] < 0.7
    ensures |table["animals"]| == NestedPickCount(animalsCountOnRow, RowsRun(animalsRows))
    ensures forall p :: p in table["animals"] ==> Inside(g, Cell(p.x, p.y)) && g[p.x, p.y] < 0.7
  {
    var avail := BorderCells(g, 0.3, 0.15).value;
    BorderCellsCorrect(g, 0.3, 0.15);
    SpawnsCorrect(avail, spawnCount);
    NestedCorrect(g, goldRows, goldCountOnRow, UIntToInt(seed), RowsRun(goldRows));
    NestedCorrect(g, animalsRows, animalsCountOnRow, UIntToInt(seed / 2), RowsRun(animalsRows));
  }

  /** The spawn loop, lines 214-219, picking from the walk `avail`. */
  method PickSpawns(avail: seq<Position>, spawnCount: int) returns (r: Result<seq<Position>>)
    ensures r == Spawns(avail, spawnCount)
  {
    var spawn := [];
    var i := 1;
    while i <= spawnCount
      invariant 1 <= i && (spawnCount >= 1 ==> i <= spawnCount + 1) && (spawnCount < 1 ==> i == 1)
      invariant SpawnPicks(avail, spawnCount, i - 1) == Ok(spawn)
    {
      var positionIndex := TruncDiv(|avail| - 1, spawnCount) * i;
      if !(0 <= positionIndex < |avail|) {
        SpawnPicksFailStays(avail, spawnCount, i, spawnCount);
        return Fail(ArgumentOutOfRange);
      }
      spawn := spawn + [avail[positionIndex]];
      i := i + 1;
    }
    return Ok(spawn);
  }

  /** `GetSpawnData` (lines 207-228): the table filled key by key. */
  method GetSpawnData(mapData: array2<real>, spawnCount: int, maxTrees: int, goldCountOnRow: int, goldRows: int,
                      animalsCountOnRow: int, animalsRows: int, seed: UInt32)
    returns (r: Result<map<string, seq<Position>>>)
    requires Square(mapData)
    ensures r == SpawnPlan(mapData, spawnCount, maxTrees, goldCountOnRow, goldRows, animalsCountOnRow, animalsRows, seed)
  {
    var newData: map<string, seq<Position>> := map[];
    var avalibleSpawnPositions := GetCoordinatesInBorder(mapData, 0.3, 0.15);
    if avalibleSpawnPositions.Fail? {
      return Fail(avalibleSpawnPositions.fault);
    }
    var spawn := PickSpawns(avalibleSpawnPositions.value, spawnCount);
    if spawn.Fail? {
      return Fail(spawn.fault);
    }
    newData := newData["spawn" := spawn.value];
    var trees := GetCoordinates(mapData, 0.9, 1, maxTrees, 1.0, 0.01);
    newData := newData["trees" := trees];
    var gold := GetCoordinatesInBorderNested(mapData, goldRows, goldCountOnRow, UIntToInt(seed));
    if gold.Fail? {
      return Fail(gold.fault);
    }
    newData := newData["gold" := gold.value];
    var animals := GetCoordinatesInBorderNested(mapData, animalsRows, animalsCountOnRow, UIntToInt(seed / 2));
    if animals.Fail? {
      return Fail(animals.fault);
    }
    newData := newData["animals" := animals.value];
    return Ok(newData);
  }
}
