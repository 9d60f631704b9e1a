/**
 * The three precomputed similarity matrices, their fixed-weight combination
 * `0.5 * cosine_sim1 + 0.8 * cosine_sim2 + 1 * cosine_sim3`, and the lookup
 * of a property's row position by name (`location_df.index.get_loc`).
 */
module Similarity {
  import opened Base

  /** A numpy 2-D array of scores, row by row. */
  type Matrix = seq<seq<real>>

  /** The fixed weights of the three similarity signals (recommend.py, line 27). */
  const W1: real := 0.5
  const W2: real := 0.8
  const W3: real := 1.0

  /** Two matrices that numpy adds entry by entry: same number of rows, rows of equal length. */
  predicate SameShape(a: Matrix, b: Matrix)
  {
    |a| == |b| && forall i :: 0 <= i < |a| ==> |a[i]| == |b[i]|
  }

  /** The weighted sum of one row of each matrix. */
  function CombineRows(r1: seq<real>, r2: seq<real>, r3: seq<real>): (r: seq<real>)
    requires |r1| == |r2| == |r3|
    ensures |r| == |r1|
    ensures forall j :: 0 <= j < |r| ==> r[j] == W1 * r1[j] + W2 * r2[j] + W3 * r3[j]
  {
    seq(|r1|, j requires 0 <= j < |r1| => W1 * r1[j] + W2 * r2[j] + W3 * r3[j])
  }

  /**
   * `0.5 * m1 + 0.8 * m2 + 1 * m3`: defined exactly when the three shapes
   * agree; numpy raises otherwise.
   */
  function Combine(m1: Matrix, m2: Matrix, m3: Matrix): (r: Result<Matrix>)
    ensures r.Ok? <==> SameShape(m1, m2) && SameShape(m1, m3)
    ensures r.Err? ==> r.error == ShapeMismatch
    ensures r.Ok? ==> |r.value| == |m1|
    ensures r.Ok? ==> forall i, j :: 0 <= i < |m1| && 0 <= j < |m1[i]| ==>
                j < |r.value[i]| && r.value[i][j] == W1 * m1[i][j] + W2 * m2[i][j] + W3 * m3[i][j]
    ensures r.Ok? ==> forall i :: 0 <= i < |m1| ==> |r.value[i]| == |m1[i]|
  {
    if SameShape(m1, m2) && SameShape(m1, m3) then
      Ok(seq(|m1|, i requires 0 <= i < |m1| => CombineRows(m1[i], m2[i], m3[i])))
    else
      Err(ShapeMismatch)
  }

  /** The first position of `name` in `names`. */
  function FirstPosition(names: seq<string>, name: string): (p: nat)
    requires name in names
    ensures p < |names| && names[p] == name
    ensures forall i :: 0 <= i < p ==> names[i] != name
  {
    if names[0] == name then 0 else 1 + FirstPosition(names[1..], name)
  }

  /** `name` labels exactly one position of `names`. */
  ghost predicate Unique(names: seq<string>, name: string)
  {
    name in names && forall i, j :: 0 <= i < j < |names| && names[i] == name ==> names[j] != name
  }

  /**
   * `index.get_loc(name)`: the position of a label that occurs once. An
   * absent label raises KeyError; a repeated label makes pandas return a
   * slice or mask instead of a position, which the recommender cannot use,
   * and is modelled as a failure.
   */
  function GetLoc(names: seq<string>, name: string): (r: Result<nat>)
    ensures r.Ok? <==> Unique(names, name)
    ensures r.Ok? ==> r.value < |names| && names[r.value] == name
    ensures r.Ok? ==> forall i :: 0 <= i < |names| && names[i] == name ==> i == r.value
    ensures r.Err? ==> r.error == if name in names then DuplicateKey(name) else KeyNotFound(name)
  {
    if name !in names then Err(KeyNotFound(name))
    else
      var p := FirstPosition(names, name);
      if name in names[p + 1..] then
        var k :| 0 <= k < |names[p + 1..]| && names[p + 1..][k] == name;
        assert names[p + 1 + k] == name;
        Err(DuplicateKey(name))
      else
        assert forall i :: p < i < |names| ==> names[i] == names[p + 1..][i - p - 1];
        Ok(p)
  }
}
