/** The force law between two particles: a colour attraction table, the map
    from colour to table index, and the piecewise-linear force of the
    normalised distance. */
module Forces {
  import opened Types

  /** Normalised radius below which every pair repels. */
  const BETA: real := 0.3

  /** The colour attraction table, rows and columns in the order red, green,
      blue, yellow: +0.8 on the diagonal (like colours attract), -0.8 elsewhere. */
  function ColourAttractionFactorMatrix(): (m: seq<seq<real>>)
    ensures |m| == 4 && forall i :: 0 <= i < 4 ==> |m[i]| == 4
    ensures forall i, j :: 0 <= i < 4 && 0 <= j < 4 ==> m[i][j] == if i == j then 0.8 else -0.8
  {
    [[0.8, -0.8, -0.8, -0.8],
     [-0.8, 0.8, -0.8, -0.8],
     [-0.8, -0.8, 0.8, -0.8],
     [-0.8, -0.8, -0.8, 0.8]]
  }

  /** Table index of a colour: red 0, green 1, blue 2, anything else 3. */
  function ColorToIndex(color: Color): (i: nat)
    ensures i < 4
    ensures i == 3 <==> color != RED && color != GREEN && color != BLUE
  {
    if color == RED then 0
    else if color == GREEN then 1
    else if color == BLUE then 2
    else 3
  }

  function Abs(x: real): real
  {
    if x < 0.0 then -x else x
  }

  /** The attraction factor the table gives a pair of colours. */
  function AttractionFactor(c1: Color, c2: Color): (a: real)
    ensures a == if ColorToIndex(c1) == ColorToIndex(c2) then 0.8 else -0.8
  {
    ColourAttractionFactorMatrix()[ColorToIndex(c1)][ColorToIndex(c2)]
  }

  /** The force of `p2` on `p1` at normalised distance `r`. Below BETA it is a
      repulsion independent of colour; strictly between BETA and 1 the
      program's formula 1 - |2r - BETA| - BETA reduces to the LINEAR 1 - 2r,
      scaled by the attraction factor; at BETA itself and from 1 on it is 0. */
  function GetForce(r: real, p1Color: Color, p2Color: Color): (f: real)
    ensures r < BETA ==> f == r / BETA - 1.0
    ensures BETA < r < 1.0 ==> f == (1.0 - 2.0 * r) * AttractionFactor(p1Color, p2Color)
    ensures r == BETA || r >= 1.0 ==> f == 0.0
  {
    var attractionFactor := AttractionFactor(p1Color, p2Color);
    if r < BETA then r / BETA - 1.0
    else if BETA < r && r < 1.0 then (1.0 - Abs(2.0 * r - BETA) / 1.0 - BETA) * attractionFactor
    else 0.0
  }

  /** The four palette colours get the four distinct table indices, so two
      palette colours share an index exactly when they are equal. */
  lemma PaletteIndices(c1: Color, c2: Color)
    requires c1 in {RED, GREEN, BLUE, YELLOW} && c2 in {RED, GREEN, BLUE, YELLOW}
    ensures ColorToIndex(RED) == 0 && ColorToIndex(GREEN) == 1
    ensures ColorToIndex(BLUE) == 2 && ColorToIndex(YELLOW) == 3
    ensures ColorToIndex(c1) == ColorToIndex(c2) <==> c1 == c2
  {
  }

  /** Close range always repels, whatever the colours: the force lies in
      [-1, 0) and is the same for every pair of colours. */
  lemma CoreRepulsion(r: real, c1: Color, c2: Color, d1: Color, d2: Color)
    requires 0.0 <= r < BETA
    ensures -1.0 <= GetForce(r, c1, c2) < 0.0
    ensures GetForce(r, c1, c2) == GetForce(r, d1, d2)
  {
  }

  /** The sign of the force: below BETA it repels; between BETA and 1/2 like
      colours attract and unlike colours repel; between 1/2 and 1 it is the
      other way round (like colours repel); at BETA, 1/2 and from 1 on it
      vanishes. */
  lemma ForceSign(r: real, c1: Color, c2: Color)
    requires r >= 0.0
    ensures GetForce(r, c1, c2) > 0.0 <==>
      if ColorToIndex(c1) == ColorToIndex(c2) then BETA < r < 0.5 else 0.5 < r < 1.0
    ensures GetForce(r, c1, c2) == 0.0 <==> r == BETA || r == 0.5 || r >= 1.0
  {
  }

  /** The force never exceeds 1 in magnitude. */
  lemma ForceBounded(r: real, c1: Color, c2: Color)
    requires r >= 0.0
    ensures -1.0 <= GetForce(r, c1, c2) <= 1.0
  {
  }

  /** The force law is not continuous, for every pair of colours: it is 0 at
      BETA and at 1, but just above BETA it is near +0.32 for like colours and
      near -0.32 for unlike ones, and just below 1 it is near -0.8 for like
      colours and near +0.8 for unlike ones. */
  lemma ForceJumps(r: real, s: real, c1: Color, c2: Color)
    requires BETA < r < 0.31 && 0.99 < s < 1.0
    ensures GetForce(BETA, c1, c2) == 0.0 && GetForce(1.0, c1, c2) == 0.0
    ensures ColorToIndex(c1) == ColorToIndex(c2) ==> GetForce(r, c1, c2) > 0.3 && GetForce(s, c1, c2) < -0.78
    ensures ColorToIndex(c1) != ColorToIndex(c2) ==> GetForce(r, c1, c2) < -0.3 && GetForce(s, c1, c2) > 0.78
  {
  }

  /** The force does not depend on which of the two particles is first. */
  lemma GetForceSymmetric(r: real, c1: Color, c2: Color)
    ensures GetForce(r, c1, c2) == GetForce(r, c2, c1)
  {
  }
}
