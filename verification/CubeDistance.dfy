/** Distances between cubes and the ordering of index scans by them (cube.c): what an inner key returns
    never exceeds what any cube below it returns, so a nearest-neighbour scan comes out in order. */
module CubeDistance {
  import opened Wrappers
  import opened CubeBox
  import Gist = CubeGist

  /** distance_1D. */
  function Distance1D(a1: real, a2: real, b1: real, b2: real): real {
    if a1 <= b1 && a2 <= b1 && a1 <= b2 && a2 <= b2 then Min(b1, b2) - Max(a1, a2)
    else if a1 > b1 && a2 > b1 && a1 > b2 && a2 > b2 then Min(a1, a2) - Max(b1, b2)
    else 0.0
  }

  /** The gap between two cubes in dimension i; zero where they meet. */
  function Gap(a: NdBox, b: NdBox, i: nat): (g: real)
    requires a.Valid() && b.Valid()
    ensures g >= 0.0
  {
    Max(0.0, Max(Lo(b, i) - Hi(a, i), Lo(a, i) - Hi(b, i)))
  }

  /** The code's one-dimensional distance is the gap, whichever cube comes first. */
  lemma {:induction false} Distance1DIsGap(a: NdBox, b: NdBox, i: nat)
    requires a.Valid() && b.Valid() && i < a.dim
    ensures i < b.dim ==> Distance1D(LL(a, i), UR(a, i), LL(b, i), UR(b, i)) == Gap(a, b, i) == Gap(b, a, i)
    ensures i >= b.dim ==> Distance1D(LL(a, i), UR(a, i), 0.0, 0.0) == Gap(a, b, i) == Gap(b, a, i)
  {
  }

  /** A wider cube is nowhere farther. */
  lemma {:induction false} GapShrinks(key: NdBox, leaf: NdBox, query: NdBox, i: nat)
    requires key.Valid() && leaf.Valid() && query.Valid() && EnclosesAt(key, leaf, i)
    ensures Gap(key, query, i) <= Gap(leaf, query, i)
  {
  }

  datatype Metric = Taxicab | Chebyshev | EuclidSquared

  /** One more dimension. */
  function Combine(m: Metric, sofar: real, gap: real): real {
    match m
    case Taxicab => sofar + gap
    case Chebyshev => Max(sofar, gap)
    case EuclidSquared => sofar + Square(gap)
  }

  function Square(d: real): real {
    d * d
  }

  /** The distance in the first n dimensions. */
  function DistanceIn(m: Metric, a: NdBox, b: NdBox, n: nat): real
    requires a.Valid() && b.Valid()
  {
    if n == 0 then 0.0 else Combine(m, DistanceIn(m, a, b, n - 1), Gap(a, b, n - 1))
  }

  /** The distance: all dimensions that one of the cubes has. */
  function Distance(m: Metric, a: NdBox, b: NdBox): real
    requires a.Valid() && b.Valid()
  {
    DistanceIn(m, a, b, MaxDim(a, b))
  }

  lemma {:induction false} DistanceNonNegative(m: Metric, a: NdBox, b: NdBox, n: nat)
    requires a.Valid() && b.Valid()
    ensures DistanceIn(m, a, b, n) >= 0.0
  {
    if n > 0 {
      DistanceNonNegative(m, a, b, n - 1);
      SquareMonotone(0.0, Gap(a, b, n - 1));
    }
  }

  lemma {:induction false} SquareMonotone(x: real, y: real)
    requires 0.0 <= x <= y
    ensures Square(x) <= Square(y)
  {
  }

  /** Dimensions that neither cube has add nothing. */
  lemma {:induction false} DistanceSettles(m: Metric, a: NdBox, b: NdBox, n: nat)
    requires a.Valid() && b.Valid() && n >= MaxDim(a, b)
    ensures DistanceIn(m, a, b, n) == Distance(m, a, b)
  {
    if n > MaxDim(a, b) {
      DistanceSettles(m, a, b, n - 1);
      DistanceNonNegative(m, a, b, n - 1);
      assert Gap(a, b, n - 1) == 0.0;
      NoGap(m, DistanceIn(m, a, b, n - 1));
    }
  }

  lemma {:induction false} NoGap(m: Metric, sofar: real)
    requires sofar >= 0.0
    ensures Combine(m, sofar, 0.0) == sofar
  {
  }

  lemma {:induction false} CombineMonotone(m: Metric, s: real, s': real, g: real, g': real)
    requires s <= s' && 0.0 <= g <= g'
    ensures Combine(m, s, g) <= Combine(m, s', g')
  {
    SquareMonotone(g, g');
  }

  lemma {:induction false} LowerBoundIn(m: Metric, key: NdBox, leaf: NdBox, query: NdBox, n: nat)
    requires key.Valid() && leaf.Valid() && query.Valid() && Encloses(key, leaf)
    ensures DistanceIn(m, key, query, n) <= DistanceIn(m, leaf, query, n)
  {
    if n > 0 {
      LowerBoundIn(m, key, leaf, query, n - 1);
      assert EnclosesAt(key, leaf, n - 1);
      GapShrinks(key, leaf, query, n - 1);
      CombineMonotone(m, DistanceIn(m, key, query, n - 1), DistanceIn(m, leaf, query, n - 1),
                      Gap(key, query, n - 1), Gap(leaf, query, n - 1));
    }
  }

  /** For all three metrics and cubes of any dimensions, the distance of an inner key is a lower bound
      for every cube that it encloses. */
  lemma {:induction false} DistanceLowerBound(m: Metric, key: NdBox, leaf: NdBox, query: NdBox)
    requires key.Valid() && leaf.Valid() && query.Valid() && Encloses(key, leaf)
    ensures Distance(m, key, query) <= Distance(m, leaf, query)
  {
    var n := MaxDim(key, query);
    LowerBoundIn(m, key, leaf, query, n);
    DistanceSettles(m, leaf, query, n);
  }

  /** In an index tree the bound holds from any page down to any cube below it. */
  lemma {:induction false} TreeLowerBound(m: Metric, t: Gist.Tree, x: NdBox, query: NdBox)
    requires Gist.Built(t) && Gist.Holds(t, x) && query.Valid()
    ensures x.Valid() && Distance(m, Gist.KeyOf(t), query) <= Distance(m, x, query)
  {
    Gist.KeyEncloses(t, x);
    DistanceLowerBound(m, Gist.KeyOf(t), x, query);
  }

  /** distance_taxicab, distance_chebyshev, and cube_distance before its square root. */
  method ComputeDistance(m: Metric, a0: NdBox, b0: NdBox) returns (distance: real)
    requires a0.Valid() && b0.Valid()
    ensures distance == Distance(m, a0, b0)
  {
    var a, b := a0, b0;
    if a.dim < b.dim {
      a, b := b, a;
    }
    distance := 0.0;
    var i := 0;
    while i < b.dim
      invariant 0 <= i <= b.dim && distance == DistanceIn(m, a0, b0, i)
    {
      var d := Distance1D(LL(a, i), UR(a, i), LL(b, i), UR(b, i));
      Distance1DIsGap(a, b, i);
      distance := AddDimension(m, distance, d);
      i := i + 1;
    }
    i := b.dim;
    while i < a.dim
      invariant b.dim <= i <= a.dim && distance == DistanceIn(m, a0, b0, i)
    {
      var d := Distance1D(LL(a, i), UR(a, i), 0.0, 0.0);
      Distance1DIsGap(a, b, i);
      distance := AddDimension(m, distance, d);
      i := i + 1;
    }
  }

  /** The statement in each loop body. */
  method AddDimension(m: Metric, distance: real, d: real) returns (r: real)
    ensures d >= 0.0 ==> r == Combine(m, distance, d)
  {
    match m
    case Taxicab => r := distance + Abs(d);
    case Chebyshev => r := if Abs(d) > distance then Abs(d) else distance;
    case EuclidSquared => r := distance + d * d;
  }

  // ---------------------------------------------------------------- coordinates

  /** cube_coord_llur: odd numbers are lower bounds, even ones upper bounds, negative ones their
      negatives; None is the error for coordinate 0. */
  function CoordLlur(cube: NdBox, coord: int): Option<real>
    requires cube.Valid()
  {
    if coord == 0 then None
    else
      var (c, inverse) := (if coord < 0 then -coord else coord, coord < 0);
      var index, upper := (c - 1) / 2, (c - 1) % 2 == 1;
      var result :=
        if c > 2 * cube.dim then 0.0
        else if cube.point then cube.x[index]
        else if upper then Max(cube.x[index], cube.x[index + cube.dim])
        else Min(cube.x[index], cube.x[index + cube.dim]);
      Some(if inverse then -result else result)
  }

  /** g_cube_distance for the coordinate operator. */
  function CoordDistance(cube: NdBox, coord: int, isLeaf: bool): Option<real>
    requires cube.Valid()
  {
    if coord == 0 then None
    else
      var (c, inverse) := (if coord < 0 then -coord else coord, coord < 0);
      var retval :=
        if c <= 2 * cube.dim then
          var index, upper := (c - 1) / 2, (c - 1) % 2 == 1;
          if cube.point then cube.x[index]
          else if (if isLeaf then upper else inverse) then Max(cube.x[index], cube.x[index + cube.dim])
          else Min(cube.x[index], cube.x[index + cube.dim])
        else 0.0;
      Some(if inverse then -retval else retval)
  }

  /** A coordinate is the bound it stands for, with zero for dimensions the cube lacks. */
  lemma {:induction false} CoordMeans(cube: NdBox, coord: int)
    requires cube.Valid() && coord != 0
    ensures var c := if coord < 0 then -coord else coord;
            var bound := if c % 2 == 0 then Hi(cube, (c - 1) / 2) else Lo(cube, (c - 1) / 2);
            CoordLlur(cube, coord) == Some(if coord < 0 then -bound else bound)
  {
  }

  /** On a leaf the index returns the coordinate itself. */
  lemma {:induction false} LeafCoord(cube: NdBox, coord: int)
    requires cube.Valid()
    ensures CoordDistance(cube, coord, true) == CoordLlur(cube, coord)
  {
  }

  /** On an inner key it returns a lower bound of the coordinate of every cube enclosed, for lower and
      upper bounds, ascending and descending, and dimensions that the cube or the key lacks. */
  lemma {:induction false} CoordLowerBound(key: NdBox, leaf: NdBox, coord: int)
    requires key.Valid() && leaf.Valid() && Encloses(key, leaf) && coord != 0
    ensures CoordDistance(key, coord, false).value <= CoordLlur(leaf, coord).value
  {
    var c := if coord < 0 then -coord else coord;
    var index := (c - 1) / 2;
    assert EnclosesAt(key, leaf, index);
    CoordMeans(leaf, coord);
    KeyCoordMeans(key, coord);
  }

  lemma {:induction false} KeyCoordMeans(key: NdBox, coord: int)
    requires key.Valid() && coord != 0
    ensures var index := ((if coord < 0 then -coord else coord) - 1) / 2;
            CoordDistance(key, coord, false) == Some(if coord < 0 then -Hi(key, index) else Lo(key, index))
  {
  }
}
