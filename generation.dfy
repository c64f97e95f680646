/**
  The classification pass of `Generate`: one row-major sweep over the grid
  that stores each cell's texture scale and writes its preview colour, its
  alphamap layer weights and its detail-density values.
  The noise field is a parameter: `noise(x, y)` is the fractal's sample at
  the cell's normalised coordinates.
*/
module Generation {
  import opened Classifier

  /** Whether the sweep, now at cell `(x, y)`, has already classified `(cx, cy)`:
      rows `y` run outside, columns `x` inside. */
  predicate Visited(cx: int, cy: int, x: int, y: int) {
    cy < y || (cy == y && cx < x)
  }

  /** The pass over a `size` by `size` alphamap with `layersCount` layers.
      `mapData[x, y]` is the texture scale; the preview texture is written at
      pixel `(y, x)`, transposed; layers 0 to 3 of `alphamap` (the C# `map`) hold the layer
      weights and layers from 4 on keep their initial zero; the four detail
      grids start at zero and hold `DetailBands` once the pass is done.
      With fewer than four layers the first cell's write to layer 1 or 3
      throws: `ok` is then false. */
  method Generate(size: nat, layersCount: nat, noise: (nat, nat) -> real)
    returns (mapData: array2<real>, texture: array2<ColorBand>, alphamap: array3<real>, grassLayers: array3<int>, ok: bool)
    ensures fresh(mapData) && fresh(texture) && fresh(alphamap) && fresh(grassLayers)
    ensures mapData.Length0 == size && mapData.Length1 == size
    ensures texture.Length0 == size && texture.Length1 == size
    ensures alphamap.Length0 == size && alphamap.Length1 == size && alphamap.Length2 == layersCount
    ensures grassLayers.Length0 == 4 && grassLayers.Length1 == size && grassLayers.Length2 == size
    ensures ok <==> size == 0 || layersCount >= 4
    ensures ok ==> forall x, y :: 0 <= x < size && 0 <= y < size ==> mapData[x, y] == noise(x, y) + 1.0
    ensures ok ==> forall x, y :: 0 <= x < size && 0 <= y < size ==> texture[y, x] == BandOf(noise(x, y) + 1.0)
    ensures ok ==> forall x, y, k :: 0 <= x < size && 0 <= y < size && 0 <= k < layersCount ==>
      alphamap[x, y, k] == if k < 4 then LayerWeights(noise(x, y) + 1.0)[k] else 0.0
    ensures ok ==> forall i, x, y :: 0 <= i < 4 && 0 <= x < size && 0 <= y < size ==>
      grassLayers[i, x, y] == DetailBands(noise(x, y) + 1.0)[i]
  {
    mapData := new real[size, size];
    texture := new ColorBand[size, size];
    alphamap := new real[size, size, layersCount]((_, _, _) => 0.0);
    grassLayers := new int[4, size, size]((_, _, _) => 0);
    if size > 0 && layersCount < 4 {
      return mapData, texture, alphamap, grassLayers, false;
    }
    var y := 0;
    while y < size
      invariant 0 <= y <= size
      invariant forall cx, cy :: 0 <= cx < size && 0 <= cy < size && Visited(cx, cy, 0, y) ==>
        mapData[cx, cy] == noise(cx, cy) + 1.0 && texture[cy, cx] == BandOf(noise(cx, cy) + 1.0)
      invariant forall cx, cy, k :: 0 <= cx < size && 0 <= cy < size && 0 <= k < layersCount ==>
        alphamap[cx, cy, k] == if k < 4 && Visited(cx, cy, 0, y) then LayerWeights(noise(cx, cy) + 1.0)[k] else 0.0
      invariant forall i, cx, cy :: 0 <= i < 4 && 0 <= cx < size && 0 <= cy < size ==>
        grassLayers[i, cx, cy] == if Visited(cx, cy, 0, y) then DetailBands(noise(cx, cy) + 1.0)[i] else 0
    {
      ClassifyRow(mapData, texture, alphamap, grassLayers, y, noise);
      y := y + 1;
    }
    ok := true;
  }

  /** One row `y` of the sweep, columns `0` to `size - 1` in order: afterwards
      the cells of rows up to `y` are classified and the others are untouched. */
  method ClassifyRow(mapData: array2<real>, texture: array2<ColorBand>, alphamap: array3<real>,
                     grassLayers: array3<int>, y: nat, noise: (nat, nat) -> real)
    requires mapData.Length0 == mapData.Length1 && y < mapData.Length0
    requires texture.Length0 == mapData.Length0 && texture.Length1 == mapData.Length0
    requires alphamap.Length0 == mapData.Length0 && alphamap.Length1 == mapData.Length0 && 4 <= alphamap.Length2
    requires grassLayers.Length0 == 4 && grassLayers.Length1 == mapData.Length0 && grassLayers.Length2 == mapData.Length0
    requires forall cx, cy :: 0 <= cx < mapData.Length0 && 0 <= cy < mapData.Length0 && Visited(cx, cy, 0, y) ==>
      mapData[cx, cy] == noise(cx, cy) + 1.0 && texture[cy, cx] == BandOf(noise(cx, cy) + 1.0)
    requires forall cx, cy, k :: 0 <= cx < mapData.Length0 && 0 <= cy < mapData.Length0 && 0 <= k < alphamap.Length2 ==>
      alphamap[cx, cy, k] == if k < 4 && Visited(cx, cy, 0, y) then LayerWeights(noise(cx, cy) + 1.0)[k] else 0.0
    requires forall i, cx, cy :: 0 <= i < 4 && 0 <= cx < mapData.Length0 && 0 <= cy < mapData.Length0 ==>
      grassLayers[i, cx, cy] == if Visited(cx, cy, 0, y) then DetailBands(noise(cx, cy) + 1.0)[i] else 0
    modifies mapData, texture, alphamap, grassLayers
    ensures forall cx, cy :: 0 <= cx < mapData.Length0 && 0 <= cy < mapData.Length0 && Visited(cx, cy, 0, y + 1) ==>
      mapData[cx, cy] == noise(cx, cy) + 1.0 && texture[cy, cx] == BandOf(noise(cx, cy) + 1.0)
    ensures forall cx, cy, k :: 0 <= cx < mapData.Length0 && 0 <= cy < mapData.Length0 && 0 <= k < alphamap.Length2 ==>
      alphamap[cx, cy, k] == if k < 4 && Visited(cx, cy, 0, y + 1) then LayerWeights(noise(cx, cy) + 1.0)[k] else 0.0
    ensures forall i, cx, cy :: 0 <= i < 4 && 0 <= cx < mapData.Length0 && 0 <= cy < mapData.Length0 ==>
      grassLayers[i, cx, cy] == if Visited(cx, cy, 0, y + 1) then DetailBands(noise(cx, cy) + 1.0)[i] else 0
  {
    var size := mapData.Length0;
    var x := 0;
    while x < size
      invariant 0 <= x <= size
      invariant forall cx, cy :: 0 <= cx < size && 0 <= cy < size && Visited(cx, cy, x, y) ==>
        mapData[cx, cy] == noise(cx, cy) + 1.0 && texture[cy, cx] == BandOf(noise(cx, cy) + 1.0)
      invariant forall cx, cy, k :: 0 <= cx < size && 0 <= cy < size && 0 <= k < alphamap.Length2 ==>
        alphamap[cx, cy, k] == if k < 4 && Visited(cx, cy, x, y) then LayerWeights(noise(cx, cy) + 1.0)[k] else 0.0
      invariant forall i, cx, cy :: 0 <= i < 4 && 0 <= cx < size && 0 <= cy < size ==>
        grassLayers[i, cx, cy] == if Visited(cx, cy, x, y) then DetailBands(noise(cx, cy) + 1.0)[i] else 0
    {
      ClassifyCell(mapData, texture, alphamap, grassLayers, x, y, noise(x, y) + 1.0);
      x := x + 1;
    }
  }

  /** The body of the sweep for one cell `(x, y)` with texture scale
      `textureScale`: it writes that cell of each grid and nothing else.
      The detail grids hold `DetailBands` afterwards provided the cell still
      held its initial zero. */
  method ClassifyCell(mapData: array2<real>, texture: array2<ColorBand>, alphamap: array3<real>,
                      grassLayers: array3<int>, x: nat, y: nat, textureScale: real)
    requires x < mapData.Length0 && y < mapData.Length1
    requires y < texture.Length0 && x < texture.Length1
    requires x < alphamap.Length0 && y < alphamap.Length1 && 4 <= alphamap.Length2
    requires grassLayers.Length0 == 4 && x < grassLayers.Length1 && y < grassLayers.Length2
    modifies mapData, texture, alphamap, grassLayers
    ensures mapData[x, y] == textureScale
    ensures forall cx, cy :: 0 <= cx < mapData.Length0 && 0 <= cy < mapData.Length1 && (cx != x || cy != y) ==>
      mapData[cx, cy] == old(mapData[cx, cy])
    ensures texture[y, x] == BandOf(textureScale)
    ensures forall px, py :: 0 <= px < texture.Length0 && 0 <= py < texture.Length1 && (px != y || py != x) ==>
      texture[px, py] == old(texture[px, py])
    ensures forall k :: 0 <= k < 4 ==> alphamap[x, y, k] == LayerWeights(textureScale)[k]
    ensures forall cx, cy, k ::
      0 <= cx < alphamap.Length0 && 0 <= cy < alphamap.Length1 && 0 <= k < alphamap.Length2 && (cx != x || cy != y || 4 <= k)
      ==> alphamap[cx, cy, k] == old(alphamap[cx, cy, k])
    ensures forall i :: 0 <= i < 4 && old(grassLayers[i, x, y]) == 0 ==> grassLayers[i, x, y] == DetailBands(textureScale)[i]
    ensures forall i, cx, cy ::
      0 <= i < 4 && 0 <= cx < grassLayers.Length1 && 0 <= cy < grassLayers.Length2 && (cx != x || cy != y)
      ==> grassLayers[i, cx, cy] == old(grassLayers[i, cx, cy])
  {
    mapData[x, y] := textureScale;

    if textureScale > 0.89 {
      texture[y, x] := DarkGreen;
    } else if textureScale > 0.7 {
      texture[y, x] := Green;
    } else if textureScale < 0.2 {
      texture[y, x] := Light;
    } else if textureScale < 0.1 {
      texture[y, x] := Pale;
    } else {
      texture[y, x] := Meadow;
    }

    var grassValue := 0.0;
    if textureScale > 0.75 {
      grassValue := KeepPositive((textureScale - 0.75) * 4.0);
    }
    alphamap[x, y, 1] := grassValue;

    var stoneValue := 0.0;
    if textureScale < 0.25 {
      stoneValue := 1.0 - KeepPositive(textureScale * 4.0);
    }
    alphamap[x, y, 3] := stoneValue;

    alphamap[x, y, 0] := KeepPositive(textureScale + 0.2) - grassValue - stoneValue / 2.0;
    alphamap[x, y, 2] := KeepPositive(1.0 - textureScale - 0.2) - grassValue - stoneValue / 2.0;

    if textureScale > 0.9 {
      grassLayers[3, x, y] := 1;
    }
    if textureScale > 0.7 {
      grassLayers[2, x, y] := 2;
    } else if textureScale > 0.5 {
      grassLayers[1, x, y] := 2;
    } else if textureScale > 0.15 {
      grassLayers[1, x, y] := 1;
    }
  }
}
