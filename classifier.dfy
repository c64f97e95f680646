/**
  The per-cell classification of the terrain generator: from a cell's
  texture scale (the noise sample plus one) to its preview colour, its four
  alphamap layer weights and its four detail-density values.
  Everything is over exact reals; the thresholds are the decimal values of
  the C# literals.
*/
module Classifier {

  /** The preview colours, in the order the colour chain tests them. */
  datatype ColorBand =
    | DarkGreen   // "#005C01", texture scale above 0.89
    | Green       // "#007501", above 0.7
    | Light       // "#3F8541", below 0.2
    | Pale        // "#5F8560", below 0.1 (never reached)
    | Meadow      // "#008501", everything else

  /** The HTML colour string each band is painted with. */
  function Hex(b: ColorBand): (s: string)
    ensures |s| == 7 && s[0] == '#'
  {
    match b
    case DarkGreen => "#005C01"
    case Green => "#007501"
    case Light => "#3F8541"
    case Pale => "#5F8560"
    case Meadow => "#008501"
  }

  /** Clamps a weight into [0, 1]. */
  function KeepPositive(value: real): (r: real)
    ensures 0.0 <= r <= 1.0
    ensures 0.0 <= value <= 1.0 ==> r == value
    ensures r == 0.0 <==> value <= 0.0
    ensures r == 1.0 <==> value >= 1.0
  {
    if value < 0.0 then 0.0
    else if value > 1.0 then 1.0
    else value
  }

  /** Clamping never reverses the order of two values. */
  lemma KeepPositiveMonotone(a: real, b: real)
    requires a <= b
    ensures KeepPositive(a) <= KeepPositive(b)
  {
  }

  /** The first-match colour chain. Exactly one band is chosen for every
      scale, and the pale band never is: every scale below 0.1 is already
      below 0.2. */
  function BandOf(textureScale: real): (b: ColorBand)
    ensures b != Pale
    ensures b == DarkGreen <==> textureScale > 0.89
    ensures b == Green <==> 0.7 < textureScale <= 0.89
    ensures b == Light <==> textureScale < 0.2
    ensures b == Meadow <==> 0.2 <= textureScale <= 0.7
  {
    if textureScale > 0.89 then DarkGreen
    else if textureScale > 0.7 then Green
    else if textureScale < 0.2 then Light
    else if textureScale < 0.1 then Pale
    else Meadow
  }

  /** The grass weight: zero up to 0.75, then rising to full weight at 1.0. */
  function GrassWeight(textureScale: real): (g: real)
    ensures 0.0 <= g <= 1.0
    ensures g > 0.0 <==> textureScale > 0.75
    ensures g == 1.0 <==> textureScale >= 1.0
  {
    if textureScale > 0.75 then KeepPositive((textureScale - 0.75) * 4.0) else 0.0
  }

  /** The stone weight: full weight at 0 and below, falling to zero at 0.25. */
  function StoneWeight(textureScale: real): (s: real)
    ensures 0.0 <= s <= 1.0
    ensures s > 0.0 <==> textureScale < 0.25
    ensures s == 1.0 <==> textureScale <= 0.0
  {
    if textureScale < 0.25 then 1.0 - KeepPositive(textureScale * 4.0) else 0.0
  }

  /** Grass grows with the scale and stone shrinks with it. */
  lemma {:induction false} WeightsMonotone(a: real, b: real)
    requires a <= b
    ensures GrassWeight(a) <= GrassWeight(b)
    ensures StoneWeight(a) >= StoneWeight(b)
  {
    KeepPositiveMonotone((a - 0.75) * 4.0, (b - 0.75) * 4.0);
    KeepPositiveMonotone(a * 4.0, b * 4.0);
  }

  /** The four alphamap layer weights of a cell. Layer 1 is grass and layer 3
      is stone, and at most one of the two is non-zero. Layers 0 and 2 are
      not clamped after the subtraction, so they can fall below zero; in the
      middle band, where neither grass nor stone is present, the four
      weights sum to exactly one. */
  function LayerWeights(textureScale: real): (w: seq<real>)
    ensures |w| == 4
    ensures w[1] == GrassWeight(textureScale) && w[3] == StoneWeight(textureScale)
    ensures w[1] == 0.0 || w[3] == 0.0
    ensures -0.5 <= w[0] <= 1.0 && -1.0 <= w[2] <= 1.0
    ensures 0.25 <= textureScale <= 0.75 ==> w[0] + w[1] + w[2] + w[3] == 1.0
  {
    var grass := GrassWeight(textureScale);
    var stone := StoneWeight(textureScale);
    [ KeepPositive(textureScale + 0.2) - grass - stone / 2.0,
      grass,
      KeepPositive(1.0 - textureScale - 0.2) - grass - stone / 2.0,
      stone ]
  }

  /** The weights are not normalised: layer 2 reaches -1 on full grass,
      layer 0 reaches -0.5 on full stone, and on full grass all four sum to 0. */
  lemma LayerWeightsNotClamped()
    ensures LayerWeights(1.0)[2] == -1.0
    ensures LayerWeights(-0.5)[0] == -0.5
    ensures LayerWeights(1.0)[0] + LayerWeights(1.0)[1] + LayerWeights(1.0)[2] + LayerWeights(1.0)[3] == 0.0
  {
  }

  /** The value each of the four detail layers holds for a cell once the
      pass is done. Layer 0 is never written and keeps its initial 0; layer 3
      is 1 above 0.9; layer 2 is 2 above 0.7; layer 1 is written only at or
      below 0.7, with 2 above 0.5 and 1 above 0.15. */
  function DetailBands(textureScale: real): (d: seq<int>)
    ensures |d| == 4
    ensures d[0] == 0
    ensures d[3] == 1 <==> textureScale > 0.9
    ensures d[3] == 0 <==> textureScale <= 0.9
    ensures d[2] == 2 <==> textureScale > 0.7
    ensures d[2] == 0 <==> textureScale <= 0.7
    ensures d[1] == 2 <==> 0.5 < textureScale <= 0.7
    ensures d[1] == 1 <==> 0.15 < textureScale <= 0.5
    ensures d[1] == 0 <==> textureScale <= 0.15 || textureScale > 0.7
    ensures d[1] == 0 || d[2] == 0
  {
    var d1 := if textureScale > 0.7 then 0 else if textureScale > 0.5 then 2 else if textureScale > 0.15 then 1 else 0;
    var d2 := if textureScale > 0.7 then 2 else 0;
    var d3 := if textureScale > 0.9 then 1 else 0;
    [0, d1, d2, d3]
  }
}
