/** Cubes of different dimensions (cubedata.h, cube.c). A cube stores two corners in any order, or one
    if it is a point; where two cubes of different dimension meet, the missing coordinates are zero. */
module CubeBox {

  /** NDBOX: the point flag says that x holds one corner only. */
  datatype NdBox = NdBox(dim: nat, point: bool, x: seq<real>) {
    predicate Valid() {
      |x| == if point then dim else 2 * dim
    }
  }

  function Abs(r: real): real {
    if r < 0.0 then -r else r
  }

  function Min(a: real, b: real): real {
    if a < b then a else b
  }

  function Max(a: real, b: real): real {
    if a > b then a else b
  }

  function MaxDim(a: NdBox, b: NdBox): nat {
    if a.dim < b.dim then b.dim else a.dim
  }

  /** LL_COORD. */
  function LL(b: NdBox, i: nat): real
    requires b.Valid() && i < b.dim
  {
    b.x[i]
  }

  /** UR_COORD. */
  function UR(b: NdBox, i: nat): real
    requires b.Valid() && i < b.dim
  {
    if b.point then b.x[i] else b.x[i + b.dim]
  }

  /** The lower bound in dimension i, zero where the cube has no such dimension. */
  function Lo(b: NdBox, i: nat): real
    requires b.Valid()
  {
    if i < b.dim then Min(LL(b, i), UR(b, i)) else 0.0
  }

  /** The upper bound in dimension i. */
  function Hi(b: NdBox, i: nat): real
    requires b.Valid()
  {
    if i < b.dim then Max(LL(b, i), UR(b, i)) else 0.0
  }

  /** Cube a encloses cube b in every dimension. */
  ghost predicate Encloses(a: NdBox, b: NdBox)
    requires a.Valid() && b.Valid()
  {
    b.dim <= a.dim && forall i: nat :: EnclosesAt(a, b, i)
  }

  predicate EnclosesAt(a: NdBox, b: NdBox, i: nat)
    requires a.Valid() && b.Valid()
  {
    Lo(a, i) <= Lo(b, i) && Hi(b, i) <= Hi(a, i)
  }

  lemma {:induction false} EnclosesTransitive(a: NdBox, b: NdBox, c: NdBox)
    requires a.Valid() && b.Valid() && c.Valid() && Encloses(a, b) && Encloses(b, c)
    ensures Encloses(a, c)
  {
    forall i: nat ensures EnclosesAt(a, c, i) {
      assert EnclosesAt(a, b, i) && EnclosesAt(b, c, i);
    }
  }

  lemma {:induction false} EnclosesReflexive(a: NdBox)
    requires a.Valid()
    ensures Encloses(a, a)
  {
  }

  // ---------------------------------------------------------------- union and intersection

  /** r has these bounds in dimension i. */
  predicate BoundsAt(r: NdBox, i: nat, lo: real, hi: real)
    requires r.Valid()
  {
    Lo(r, i) == lo && Hi(r, i) == hi
  }

  /** r is the least cube that encloses a and b. */
  ghost predicate IsUnion(a: NdBox, b: NdBox, r: NdBox)
    requires a.Valid() && b.Valid() && r.Valid()
  {
    && r.dim == (if a.dim < b.dim then b.dim else a.dim)
    && forall i: nat :: BoundsAt(r, i, Min(Lo(a, i), Lo(b, i)), Max(Hi(a, i), Hi(b, i)))
  }

  lemma {:induction false} UnionEncloses(a: NdBox, b: NdBox, r: NdBox)
    requires a.Valid() && b.Valid() && r.Valid() && IsUnion(a, b, r)
    ensures Encloses(r, a) && Encloses(r, b)
  {
    forall i: nat ensures EnclosesAt(r, a, i) && EnclosesAt(r, b, i) {
      assert BoundsAt(r, i, Min(Lo(a, i), Lo(b, i)), Max(Hi(a, i), Hi(b, i)));
    }
  }

  /** The union is enclosed by whatever encloses both. */
  lemma {:induction false} UnionLeast(a: NdBox, b: NdBox, r: NdBox, c: NdBox)
    requires a.Valid() && b.Valid() && r.Valid() && c.Valid() && IsUnion(a, b, r)
    requires Encloses(c, a) && Encloses(c, b)
    ensures Encloses(c, r)
  {
    forall i: nat ensures EnclosesAt(c, r, i) {
      assert BoundsAt(r, i, Min(Lo(a, i), Lo(b, i)), Max(Hi(a, i), Hi(b, i)));
      assert EnclosesAt(c, a, i) && EnclosesAt(c, b, i);
    }
  }

  /** cube_is_point_internal. */
  method IsPointInternal(b: NdBox) returns (r: bool)
    requires b.Valid()
    ensures r <==> forall i | 0 <= i < b.dim :: LL(b, i) == UR(b, i)
  {
    if b.point {
      return true;
    }
    var i := 0;
    while i < b.dim
      invariant 0 <= i <= b.dim && forall j | 0 <= j < i :: LL(b, j) == UR(b, j)
    {
      if LL(b, i) != UR(b, i) {
        return false;
      }
      i := i + 1;
    }
    return true;
  }

  /** A cube of which both corners were computed; the point flag is set where it applies. */
  method Finish(dim: nat, x: array<real>) returns (r: NdBox)
    requires x.Length == 2 * dim
    ensures r.Valid() && r.dim == dim
    ensures forall i | 0 <= i < dim :: LL(r, i) == x[i] && UR(r, i) == x[i + dim]
  {
    var cube := NdBox(dim, false, x[..]);
    var point := IsPointInternal(cube);
    r := cube;
    if point {
      r := NdBox(dim, true, x[..dim]);
      assert forall i | 0 <= i < dim :: LL(cube, i) == UR(cube, i) == UR(r, i);
    }
  }

  /** cube_union_v0; `same` says that both arguments are the same object. */
  method UnionV0(a0: NdBox, b0: NdBox, same: bool) returns (r: NdBox)
    requires a0.Valid() && b0.Valid() && (same ==> a0 == b0)
    ensures r.Valid() && IsUnion(a0, b0, r)
  {
    if same {
      return a0;
    }
    var a, b := a0, b0;
    if a.dim < b.dim {
      a, b := b, a;
    }
    var x := UnionCorners(a, b);
    r := Finish(a.dim, x);
    forall k: nat ensures BoundsAt(r, k, Min(Lo(a0, k), Lo(b0, k)), Max(Hi(a0, k), Hi(b0, k))) {
      if k < r.dim { assert LL(r, k) == x[k] && UR(r, k) == x[k + r.dim]; }
    }
  }

  /** Its two loops. */
  method UnionCorners(a: NdBox, b: NdBox) returns (x: array<real>)
    requires a.Valid() && b.Valid() && b.dim <= a.dim
    ensures fresh(x) && x.Length == 2 * a.dim
    ensures forall j | 0 <= j < a.dim :: x[j] == Min(Lo(a, j), Lo(b, j)) && x[j + a.dim] == Max(Hi(a, j), Hi(b, j))
  {
    var dim := a.dim;
    x := new real[2 * dim](_ => 0.0);
    var i := 0;
    while i < b.dim
      invariant 0 <= i <= b.dim
      invariant forall j | 0 <= j < i :: x[j] == Min(Lo(a, j), Lo(b, j)) && x[j + dim] == Max(Hi(a, j), Hi(b, j))
    {
      x[i] := Min(Min(LL(a, i), UR(a, i)), Min(LL(b, i), UR(b, i)));
      x[i + dim] := Max(Max(LL(a, i), UR(a, i)), Max(LL(b, i), UR(b, i)));
      i := i + 1;
    }
    while i < a.dim
      invariant b.dim <= i <= a.dim
      invariant forall j | 0 <= j < i :: x[j] == Min(Lo(a, j), Lo(b, j)) && x[j + dim] == Max(Hi(a, j), Hi(b, j))
    {
      x[i] := Min(0.0, Min(LL(a, i), UR(a, i)));
      x[i + dim] := Max(0.0, Max(LL(a, i), UR(a, i)));
      i := i + 1;
    }
  }

  /** r has the greater lower and the lesser upper bound as corners, also where the cubes are apart. */
  predicate IsInter(a: NdBox, b: NdBox, r: NdBox)
    requires a.Valid() && b.Valid() && r.Valid()
  {
    && r.dim == (if a.dim < b.dim then b.dim else a.dim)
    && forall i | 0 <= i < r.dim :: LL(r, i) == Max(Lo(a, i), Lo(b, i)) && UR(r, i) == Min(Hi(a, i), Hi(b, i))
  }

  /** cube_inter. */
  method Inter(a0: NdBox, b0: NdBox) returns (r: NdBox)
    requires a0.Valid() && b0.Valid()
    ensures r.Valid() && IsInter(a0, b0, r)
  {
    var a, b := a0, b0;
    if a.dim < b.dim {
      a, b := b, a;
    }
    var x := InterCorners(a, b);
    r := Finish(a.dim, x);
    forall k | 0 <= k < r.dim ensures LL(r, k) == Max(Lo(a0, k), Lo(b0, k)) && UR(r, k) == Min(Hi(a0, k), Hi(b0, k)) {
      assert LL(r, k) == x[k] && UR(r, k) == x[k + r.dim];
    }
  }

  /** Its two loops. */
  method InterCorners(a: NdBox, b: NdBox) returns (x: array<real>)
    requires a.Valid() && b.Valid() && b.dim <= a.dim
    ensures fresh(x) && x.Length == 2 * a.dim
    ensures forall j | 0 <= j < a.dim :: x[j] == Max(Lo(a, j), Lo(b, j)) && x[j + a.dim] == Min(Hi(a, j), Hi(b, j))
  {
    var dim := a.dim;
    x := new real[2 * dim](_ => 0.0);
    var i := 0;
    while i < b.dim
      invariant 0 <= i <= b.dim
      invariant forall j | 0 <= j < i :: x[j] == Max(Lo(a, j), Lo(b, j)) && x[j + dim] == Min(Hi(a, j), Hi(b, j))
    {
      x[i] := Max(Min(LL(a, i), UR(a, i)), Min(LL(b, i), UR(b, i)));
      x[i + dim] := Min(Max(LL(a, i), UR(a, i)), Max(LL(b, i), UR(b, i)));
      i := i + 1;
    }
    while i < a.dim
      invariant b.dim <= i <= a.dim
      invariant forall j | 0 <= j < i :: x[j] == Max(Lo(a, j), Lo(b, j)) && x[j + dim] == Min(Hi(a, j), Hi(b, j))
    {
      x[i] := Max(0.0, Min(LL(a, i), UR(a, i)));
      x[i + dim] := Min(0.0, Max(LL(a, i), UR(a, i)));
      i := i + 1;
    }
  }

  // ---------------------------------------------------------------- comparisons

  /** Cube a contains cube b: in the dimensions of b. */
  predicate Contains(a: NdBox, b: NdBox)
    requires a.Valid() && b.Valid()
  {
    forall i | 0 <= i < b.dim :: EnclosesAt(a, b, i)
  }

  /** cube_contains_v0. */
  method ContainsV0(a: NdBox, b: NdBox) returns (r: bool)
    requires a.Valid() && b.Valid()
    ensures r <==> Contains(a, b)
  {
    if a.dim < b.dim {
      var i := a.dim;
      while i < b.dim
        invariant a.dim <= i <= b.dim && forall j | a.dim <= j < i :: EnclosesAt(a, b, j)
      {
        if LL(b, i) != 0.0 || UR(b, i) != 0.0 {
          assert !EnclosesAt(a, b, i);
          return false;
        }
        i := i + 1;
      }
    }
    var i, n := 0, if a.dim < b.dim then a.dim else b.dim;
    while i < n
      invariant 0 <= i <= n && forall j | 0 <= j < i :: EnclosesAt(a, b, j)
    {
      if Min(LL(a, i), UR(a, i)) > Min(LL(b, i), UR(b, i)) || Max(LL(a, i), UR(a, i)) < Max(LL(b, i), UR(b, i)) {
        assert !EnclosesAt(a, b, i);
        return false;
      }
      i := i + 1;
    }
    return true;
  }

  predicate MeetsAt(a: NdBox, b: NdBox, i: nat)
    requires a.Valid() && b.Valid()
  {
    Lo(a, i) <= Hi(b, i) && Lo(b, i) <= Hi(a, i)
  }

  /** Cubes a and b have a point in common. */
  ghost predicate Overlaps(a: NdBox, b: NdBox)
    requires a.Valid() && b.Valid()
  {
    forall i: nat :: MeetsAt(a, b, i)
  }

  /** cube_overlap_v0. */
  method OverlapV0(a0: NdBox, b0: NdBox) returns (r: bool)
    requires a0.Valid() && b0.Valid()
    ensures r <==> Overlaps(a0, b0)
  {
    var a, b := a0, b0;
    if a.dim < b.dim {
      a, b := b, a;
    }
    var i := 0;
    while i < b.dim
      invariant 0 <= i <= b.dim && forall j | 0 <= j < i :: MeetsAt(a0, b0, j)
    {
      if Min(LL(a, i), UR(a, i)) > Max(LL(b, i), UR(b, i)) || Max(LL(a, i), UR(a, i)) < Min(LL(b, i), UR(b, i)) {
        assert !MeetsAt(a0, b0, i);
        return false;
      }
      i := i + 1;
    }
    i := b.dim;
    while i < a.dim
      invariant b.dim <= i <= a.dim && forall j | 0 <= j < i :: MeetsAt(a0, b0, j)
    {
      if Min(LL(a, i), UR(a, i)) > 0.0 || Max(LL(a, i), UR(a, i)) < 0.0 {
        assert !MeetsAt(a0, b0, i);
        return false;
      }
      i := i + 1;
    }
    return true;
  }

  /** Cubes a and b are the same cube, however their corners are stored. */
  predicate Same(a: NdBox, b: NdBox)
    requires a.Valid() && b.Valid()
  {
    a.dim == b.dim && forall i | 0 <= i < a.dim :: SameAt(a, b, i)
  }

  predicate SameAt(a: NdBox, b: NdBox, i: nat)
    requires a.Valid() && b.Valid()
  {
    Lo(a, i) == Lo(b, i) && Hi(a, i) == Hi(b, i)
  }

  // ---------------------------------------------------------------- comparison

  function MinDim(a: NdBox, b: NdBox): nat {
    if a.dim < b.dim then a.dim else b.dim
  }

  /** The k-th number of cube x that is looked at when cubes a and b are compared: the lower bounds in the
      common dimensions, the upper bounds there, then the same in the dimensions that one cube lacks. */
  function BoundAt(a: NdBox, b: NdBox, x: NdBox, k: nat): real
    requires x.Valid()
  {
    var (m, n) := (MinDim(a, b), MaxDim(a, b));
    if k < m then Lo(x, k) else if k < 2 * m then Hi(x, k - m) else if k < m + n then Lo(x, k - m) else Hi(x, k - n)
  }

  predicate EqualAt(a: NdBox, b: NdBox, k: nat)
    requires a.Valid() && b.Valid()
  {
    BoundAt(a, b, a, k) == BoundAt(a, b, b, k)
  }

  predicate EqualBelow(a: NdBox, b: NdBox, k: nat)
    requires a.Valid() && b.Valid()
  {
    forall j | 0 <= j < k :: EqualAt(a, b, j)
  }

  /** Cube a is above b where they differ first. */
  predicate AboveAt(a: NdBox, b: NdBox, k: nat)
    requires a.Valid() && b.Valid()
  {
    k < 2 * MaxDim(a, b) && EqualBelow(a, b, k) && BoundAt(a, b, a, k) > BoundAt(a, b, b, k)
  }

  /** Cube a comes after cube b: the first difference decides, and then the number of dimensions. */
  ghost predicate Above(a: NdBox, b: NdBox)
    requires a.Valid() && b.Valid()
  {
    (exists k: nat :: AboveAt(a, b, k)) || (EqualBelow(a, b, 2 * MaxDim(a, b)) && a.dim > b.dim)
  }

  lemma {:induction false} AboveAtSwap(a: NdBox, b: NdBox, k: nat)
    requires a.Valid() && b.Valid()
    ensures EqualAt(a, b, k) <==> EqualAt(b, a, k)
    ensures BoundAt(a, b, a, k) == BoundAt(b, a, a, k)
  {
  }

  /** At most one of two cubes is above the other. */
  lemma {:induction false} AboveAsymmetric(a: NdBox, b: NdBox)
    requires a.Valid() && b.Valid() && Above(a, b)
    ensures !Above(b, a)
  {
    if i: nat :| AboveAt(a, b, i) {
      forall k: nat ensures !AboveAt(b, a, k) { OneFirst(a, b, i, k); }
      AboveAtSwap(a, b, i);
      assert !EqualAt(b, a, i);
    } else {
      forall k: nat ensures !AboveAt(b, a, k) {
        AboveAtSwap(a, b, k);
        AboveAtSwap(b, a, k);
        if k < 2 * MaxDim(a, b) { assert EqualAt(a, b, k); }
      }
    }
  }

  lemma {:induction false} OneFirst(a: NdBox, b: NdBox, i: nat, k: nat)
    requires a.Valid() && b.Valid() && AboveAt(a, b, i)
    ensures !AboveAt(b, a, k)
  {
    AboveAtSwap(a, b, i);
    AboveAtSwap(b, a, i);
    assert !EqualAt(b, a, i);
    AboveAtSwap(a, b, k);
    if k < i { assert EqualAt(a, b, k); }
  }

  /** Neither is above the other exactly when they are the same cube. */
  lemma {:induction false} EqualIsSame(a: NdBox, b: NdBox)
    requires a.Valid() && b.Valid() && a.dim == b.dim
    ensures EqualBelow(a, b, 2 * MaxDim(a, b)) <==> Same(a, b)
  {
    if Same(a, b) {
      forall k | 0 <= k < 2 * a.dim ensures EqualAt(a, b, k) {
        assert SameAt(a, b, if k < a.dim then k else k - a.dim);
      }
    }
    if EqualBelow(a, b, 2 * a.dim) {
      forall i | 0 <= i < a.dim ensures SameAt(a, b, i) { assert EqualAt(a, b, i) && EqualAt(a, b, i + a.dim); }
    }
  }

  /** The numbers of a cube, when only cubes of its dimension are compared. */
  function Own(x: NdBox, k: nat): real
    requires x.Valid()
  {
    if k < x.dim then Lo(x, k) else Hi(x, k - x.dim)
  }

  predicate OwnAbove(a: NdBox, b: NdBox, k: nat)
    requires a.Valid() && b.Valid()
  {
    k < 2 * a.dim && (forall j | 0 <= j < k :: Own(a, j) == Own(b, j)) && Own(a, k) > Own(b, k)
  }

  lemma {:induction false} AboveIsOwn(a: NdBox, b: NdBox, k: nat)
    requires a.Valid() && b.Valid() && a.dim == b.dim
    ensures AboveAt(a, b, k) <==> OwnAbove(a, b, k)
  {
    forall j | 0 <= j <= k ensures BoundAt(a, b, a, j) == Own(a, j) && BoundAt(a, b, b, j) == Own(b, j) {}
    if AboveAt(a, b, k) {
      forall j | 0 <= j < k ensures Own(a, j) == Own(b, j) { assert EqualAt(a, b, j); }
    }
  }

  /** Among cubes of one dimension it is a strict order. */
  lemma {:induction false} AboveTransitive(a: NdBox, b: NdBox, c: NdBox)
    requires a.Valid() && b.Valid() && c.Valid() && a.dim == b.dim == c.dim && Above(a, b) && Above(b, c)
    ensures Above(a, c)
  {
    var i: nat :| AboveAt(a, b, i);
    var j: nat :| AboveAt(b, c, j);
    var k := if i < j then i else j;
    AboveIsOwn(a, b, i);
    AboveIsOwn(b, c, j);
    AboveIsOwn(a, c, k);
  }

  /** cube_cmp_v0: the sign says which cube is above the other. */
  method CmpV0(a: NdBox, b: NdBox) returns (r: int)
    requires a.Valid() && b.Valid()
    ensures -1 <= r <= 1 && (r == 0 <==> Same(a, b)) && (r > 0 <==> Above(a, b)) && (r < 0 <==> Above(b, a))
  {
    r := CmpBounds(a, b);
    if r == 0 && a.dim != b.dim {
      if a.dim > b.dim {
        r := CmpZero(a, b);
        if r == 0 {
          r := 1;
        }
      } else {
        EqualSwap(a, b, 2 * MinDim(a, b));
        var z := CmpZero(b, a);
        r := if z == 0 then -1 else -z;
      }
    }
    CmpMeans(a, b, r);
  }

  /** The first difference, if there is one, has this sign. */
  ghost predicate SignOf(a: NdBox, b: NdBox, n: nat, r: int)
    requires a.Valid() && b.Valid()
  {
    && (r == 0 ==> EqualBelow(a, b, n))
    && (r > 0 ==> exists k: nat :: AboveAt(a, b, k))
    && (r < 0 ==> exists k: nat :: AboveAt(b, a, k))
  }

  lemma {:induction false} EqualSwap(a: NdBox, b: NdBox, n: nat)
    requires a.Valid() && b.Valid()
    ensures EqualBelow(a, b, n) <==> EqualBelow(b, a, n)
  {
    forall k: nat ensures EqualAt(a, b, k) <==> EqualAt(b, a, k) { AboveAtSwap(a, b, k); }
  }

  lemma {:induction false} CmpMeans(a: NdBox, b: NdBox, r: int)
    requires a.Valid() && b.Valid() && -1 <= r <= 1
    requires r > 0 ==> Above(a, b)
    requires r < 0 ==> Above(b, a)
    requires r == 0 ==> a.dim == b.dim && EqualBelow(a, b, 2 * MaxDim(a, b))
    ensures (r == 0 <==> Same(a, b)) && (r > 0 <==> Above(a, b)) && (r < 0 <==> Above(b, a))
  {
    EqualSwap(a, b, 2 * MaxDim(a, b));
    if r > 0 { AboveAsymmetric(a, b); }
    if r < 0 { AboveAsymmetric(b, a); }
    if a.dim == b.dim { EqualIsSame(a, b); }
    if EqualBelow(a, b, 2 * MaxDim(a, b)) && a.dim == b.dim { EqualNotAbove(a, b); }
  }

  lemma {:induction false} EqualNotAbove(a: NdBox, b: NdBox)
    requires a.Valid() && b.Valid() && a.dim == b.dim && EqualBelow(a, b, 2 * MaxDim(a, b))
    ensures !Above(a, b) && !Above(b, a)
  {
    EqualSwap(a, b, 2 * MaxDim(a, b));
    forall k: nat ensures !AboveAt(a, b, k) && !AboveAt(b, a, k) {
      if k < 2 * MaxDim(a, b) { assert EqualAt(a, b, k) && EqualAt(b, a, k); }
    }
  }

  /** A comparison of two numbers. */
  method Decide(a: NdBox, b: NdBox, k: nat) returns (r: int)
    requires a.Valid() && b.Valid() && k < 2 * MaxDim(a, b) && EqualBelow(a, b, k)
    ensures -1 <= r <= 1 && SignOf(a, b, k + 1, r)
  {
    var x, y := BoundAt(a, b, a, k), BoundAt(a, b, b, k);
    AboveAtSwap(a, b, k);
    AboveAtSwap(b, a, k);
    EqualSwap(a, b, k);
    if x > y {
      assert AboveAt(a, b, k);
      return 1;
    }
    if x < y {
      assert AboveAt(b, a, k);
      return -1;
    }
    assert EqualAt(a, b, k);
    return 0;
  }

  /** Its first two loops: the lower bounds, then the upper bounds, in the common dimensions. */
  method CmpBounds(a: NdBox, b: NdBox) returns (r: int)
    requires a.Valid() && b.Valid()
    ensures -1 <= r <= 1 && SignOf(a, b, 2 * MinDim(a, b), r)
  {
    var dim := MinDim(a, b);
    for i := 0 to dim
      invariant EqualBelow(a, b, i)
    {
      r := Decide(a, b, i);
      if r != 0 {
        return;
      }
    }
    for i := 0 to dim
      invariant EqualBelow(a, b, dim + i)
    {
      r := Decide(a, b, dim + i);
      if r != 0 {
        return;
      }
    }
    r := 0;
  }

  /** The loops over the dimensions that only cube a has; cube b counts as zero there. */
  method CmpZero(a: NdBox, b: NdBox) returns (r: int)
    requires a.Valid() && b.Valid() && a.dim > b.dim && EqualBelow(a, b, 2 * MinDim(a, b))
    ensures -1 <= r <= 1 && SignOf(a, b, 2 * MaxDim(a, b), r)
  {
    var dim := b.dim;
    for i := dim to a.dim
      invariant EqualBelow(a, b, dim + i)
    {
      assert BoundAt(a, b, a, dim + i) == Lo(a, i) && BoundAt(a, b, b, dim + i) == 0.0;
      r := Decide(a, b, dim + i);
      if r != 0 {
        return;
      }
    }
    for i := dim to a.dim
      invariant EqualBelow(a, b, a.dim + i)
    {
      assert BoundAt(a, b, a, a.dim + i) == Hi(a, i) && BoundAt(a, b, b, a.dim + i) == 0.0;
      r := Decide(a, b, a.dim + i);
      if r != 0 {
        return;
      }
    }
    r := 0;
  }
}
