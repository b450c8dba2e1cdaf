/** g_cube_picksplit (cube.c): Guttman's quadratic split of a page of cubes. */
module CubeSplit {
  import opened CubeBox

  // ---------------------------------------------------------------- sizes

  function Times(a: real, b: real): real {
    a * b
  }

  function SizeUpTo(b: NdBox, n: nat): real
    requires b.Valid() && n <= b.dim
  {
    if n == 0 then 1.0 else Times(SizeUpTo(b, n - 1), Abs(UR(b, n - 1) - LL(b, n - 1)))
  }

  function Size(b: NdBox): real
    requires b.Valid()
  {
    if b.point || b.dim == 0 then 0.0 else SizeUpTo(b, b.dim)
  }

  /** rt_cube_size. */
  method RtCubeSize(b: NdBox) returns (r: real)
    requires b.Valid()
    ensures r == Size(b)
  {
    if b.point || b.dim == 0 {
      return 0.0;
    }
    r := 1.0;
    for i := 0 to b.dim
      invariant r == SizeUpTo(b, i)
    {
      r := Times(r, Abs(UR(b, i) - LL(b, i)));
    }
  }

  /** The extent of the union, or of what cube_inter returns, in dimension i. */
  function Extent(a: NdBox, b: NdBox, i: nat, inter: bool): real
    requires a.Valid() && b.Valid()
  {
    if inter then Abs(Min(Hi(a, i), Hi(b, i)) - Max(Lo(a, i), Lo(b, i)))
    else Max(Hi(a, i), Hi(b, i)) - Min(Lo(a, i), Lo(b, i))
  }

  function Volume(a: NdBox, b: NdBox, n: nat, inter: bool): real
    requires a.Valid() && b.Valid()
  {
    if n == 0 then 1.0 else Times(Volume(a, b, n - 1, inter), Extent(a, b, n - 1, inter))
  }

  /** The space that one page for both cubes would waste. */
  function Waste(a: NdBox, b: NdBox): real
    requires a.Valid() && b.Valid()
  {
    if MaxDim(a, b) == 0 then 0.0 else Joint(a, b) - Volume(a, b, MaxDim(a, b), true)
  }

  /** The size of a page for both cubes. */
  function Joint(a: NdBox, b: NdBox): real
    requires a.Valid() && b.Valid()
  {
    if MaxDim(a, b) == 0 then 0.0 else Volume(a, b, MaxDim(a, b), false)
  }

  /** The size of a cube with the extents of a union or intersection is the volume. */
  lemma {:induction false} SizeIsVolume(a: NdBox, b: NdBox, r: NdBox, inter: bool)
    requires a.Valid() && b.Valid() && r.Valid() && r.dim == MaxDim(a, b)
    requires forall i | 0 <= i < r.dim :: Abs(UR(r, i) - LL(r, i)) == Extent(a, b, i, inter)
    ensures Size(r) == if r.dim == 0 then 0.0 else Volume(a, b, r.dim, inter)
  {
    if r.dim > 0 {
      if r.point {
        assert Abs(UR(r, 0) - LL(r, 0)) == 0.0;
        VolumeZero(a, b, r.dim, inter);
      } else {
        SizeSame(a, b, r, inter, r.dim);
      }
    }
  }

  lemma {:induction false} SizeSame(a: NdBox, b: NdBox, r: NdBox, inter: bool, n: nat)
    requires a.Valid() && b.Valid() && r.Valid() && n <= r.dim
    requires forall i | 0 <= i < r.dim :: Abs(UR(r, i) - LL(r, i)) == Extent(a, b, i, inter)
    ensures SizeUpTo(r, n) == Volume(a, b, n, inter)
  {
    if n > 0 {
      SizeSame(a, b, r, inter, n - 1);
      assert Abs(UR(r, n - 1) - LL(r, n - 1)) == Extent(a, b, n - 1, inter);
    }
  }

  lemma {:induction false} VolumeZero(a: NdBox, b: NdBox, n: nat, inter: bool)
    requires a.Valid() && b.Valid() && n > 0 && Extent(a, b, 0, inter) == 0.0
    ensures Volume(a, b, n, inter) == 0.0
  {
    if n > 1 {
      VolumeZero(a, b, n - 1, inter);
    } else {
      assert Volume(a, b, 0, inter) == 1.0;
    }
  }

  lemma {:induction false} UnionSize(a: NdBox, b: NdBox, r: NdBox)
    requires a.Valid() && b.Valid() && r.Valid() && IsUnion(a, b, r)
    ensures Size(r) == Joint(a, b)
  {
    forall i | 0 <= i < r.dim ensures Abs(UR(r, i) - LL(r, i)) == Extent(a, b, i, false) {
      assert BoundsAt(r, i, Min(Lo(a, i), Lo(b, i)), Max(Hi(a, i), Hi(b, i)));
    }
    SizeIsVolume(a, b, r, false);
  }

  /** size_waste for one pair of entries. */
  method SizeWaste(a: NdBox, b: NdBox) returns (waste: real)
    requires a.Valid() && b.Valid()
    ensures waste == Waste(a, b)
  {
    var unionD := UnionV0(a, b, false);
    var sizeUnion := RtCubeSize(unionD);
    var interD := Inter(a, b);
    var sizeInter := RtCubeSize(interD);
    UnionSize(a, b, unionD);
    SizeIsVolume(a, b, interD, true);
    waste := sizeUnion - sizeInter;
  }

  // ---------------------------------------------------------------- seeds

  predicate ValidEntries(entryvec: seq<NdBox>) {
    forall i | 0 <= i < |entryvec| :: entryvec[i].Valid()
  }

  /** Pair i, j comes before row r, column c in the order of the two loops. */
  predicate Earlier(i: int, j: int, r: int, c: int) {
    i < r || (i == r && j < c)
  }

  /** The first loops: the pair that wastes most, among all but the last entry; 1 and 2 if there is no
      pair. */
  method PickSeeds(entryvec: seq<NdBox>) returns (seed1: nat, seed2: nat)
    requires |entryvec| >= 3 && ValidEntries(entryvec)
    ensures 1 <= seed1 < seed2 < |entryvec|
    ensures |entryvec| == 3 ==> seed1 == 1 && seed2 == 2
    ensures |entryvec| > 3 ==> seed2 <= |entryvec| - 2
    ensures |entryvec| > 3 ==>
              forall i, j | 1 <= i < j <= |entryvec| - 2 ::
                WastesAtMost(entryvec, i, j, Waste(entryvec[seed1], entryvec[seed2]))
  {
    var maxoff := |entryvec| - 2;
    seed1, seed2 := 1, 2;
    var firsttime, waste := true, 0.0;
    var i := 1;
    while i < maxoff
      invariant 1 <= i && (firsttime <==> i == 1) && (maxoff > 1 ==> i <= maxoff)
      invariant Best(entryvec, maxoff, i, i + 1, firsttime, waste, seed1, seed2)
    {
      waste, seed1, seed2 := SeedsOfRow(entryvec, maxoff, i, firsttime, waste, seed1, seed2);
      firsttime := false;
      i := i + 1;
    }
  }

  /** The inner loop: the pairs of entry i with the entries after it. */
  method SeedsOfRow(entryvec: seq<NdBox>, maxoff: nat, i: nat, firsttime0: bool, waste0: real, seed1_0: nat,
                    seed2_0: nat)
    returns (waste: real, seed1: nat, seed2: nat)
    requires |entryvec| == maxoff + 2 >= 3 && ValidEntries(entryvec) && 1 <= i < maxoff && (firsttime0 <==> i == 1)
    requires Best(entryvec, maxoff, i, i + 1, firsttime0, waste0, seed1_0, seed2_0)
    ensures Best(entryvec, maxoff, i + 1, i + 2, false, waste, seed1, seed2)
  {
    waste, seed1, seed2 := waste0, seed1_0, seed2_0;
    var firsttime := firsttime0;
    var j := i + 1;
    while j <= maxoff
      invariant i < j <= maxoff + 1 && (firsttime <==> i == 1 && j == 2)
      invariant Best(entryvec, maxoff, i, j, firsttime, waste, seed1, seed2)
    {
      var sizeWaste := SizeWaste(entryvec[i], entryvec[j]);
      BestNext(entryvec, maxoff, i, j, firsttime, waste, seed1, seed2, sizeWaste);
      if sizeWaste > waste || firsttime {
        waste, seed1, seed2, firsttime := sizeWaste, i, j, false;
      }
      j := j + 1;
    }
  }

  /** The seeds are the best pair so far. */
  predicate Best(entryvec: seq<NdBox>, maxoff: nat, r: nat, c: nat, firsttime: bool, waste: real, seed1: nat,
                 seed2: nat)
    requires |entryvec| == maxoff + 2 >= 3 && ValidEntries(entryvec)
  {
    if firsttime then seed1 == 1 && seed2 == 2
    else
      && 1 <= seed1 < seed2 <= maxoff && waste == Waste(entryvec[seed1], entryvec[seed2])
      && forall i, j | 1 <= i < j <= maxoff && Earlier(i, j, r, c) :: WastesAtMost(entryvec, i, j, waste)
  }

  predicate WastesAtMost(entryvec: seq<NdBox>, i: int, j: int, waste: real)
    requires ValidEntries(entryvec) && 0 <= i < |entryvec| && 0 <= j < |entryvec|
  {
    Waste(entryvec[i], entryvec[j]) <= waste
  }

  lemma {:induction false} WastesLess(entryvec: seq<NdBox>, i: int, j: int, waste: real, more: real)
    requires ValidEntries(entryvec) && 0 <= i < |entryvec| && 0 <= j < |entryvec|
    requires WastesAtMost(entryvec, i, j, waste) && waste <= more
    ensures WastesAtMost(entryvec, i, j, more)
  {
  }

  /** The pair r, c replaces the best so far if it wastes more, or if it is the first. */
  lemma {:induction false} BestNext(entryvec: seq<NdBox>, maxoff: nat, r: nat, c: nat, firsttime: bool, waste: real,
                                    seed1: nat, seed2: nat, w: real)
    requires |entryvec| == maxoff + 2 >= 3 && ValidEntries(entryvec) && 1 <= r < c <= maxoff
    requires firsttime <==> r == 1 && c == 2
    requires Best(entryvec, maxoff, r, c, firsttime, waste, seed1, seed2) && w == Waste(entryvec[r], entryvec[c])
    ensures if w > waste || firsttime then Best(entryvec, maxoff, r, c + 1, false, w, r, c)
            else Best(entryvec, maxoff, r, c + 1, false, waste, seed1, seed2)
  {
    var most := if w > waste || firsttime then w else waste;
    forall i, j | 1 <= i < j <= maxoff && Earlier(i, j, r, c + 1) ensures WastesAtMost(entryvec, i, j, most) {
      if i == r && j == c {
        assert WastesAtMost(entryvec, r, c, w);
        WastesLess(entryvec, r, c, w, most);
      } else {
        assert Earlier(i, j, r, c);
        WastesLess(entryvec, i, j, waste, most);
      }
    }
  }

  // ---------------------------------------------------------------- dealing out

  predicate Ascending(s: seq<nat>) {
    forall i, j | 0 <= i < j < |s| :: s[i] < s[j]
  }

  /** The two lists hold the offsets 1..i - 1, each in one of them, in order. */
  ghost predicate Dealt(left: seq<nat>, right: seq<nat>, i: nat) {
    && Ascending(left) && Ascending(right) && |left| + |right| == i - 1
    && (forall o | o in left :: 1 <= o < i) && (forall o | o in right :: 1 <= o < i)
    && forall o: nat | 1 <= o < i :: o in left <==> o !in right
  }

  lemma {:induction false} DealtNext(left: seq<nat>, right: seq<nat>, i: nat)
    requires i >= 1 && Dealt(left, right, i)
    ensures Dealt(left + [i], right, i + 1) && Dealt(left, right + [i], i + 1)
  {
    AscendingNext(left, i);
    AscendingNext(right, i);
  }

  lemma {:induction false} AscendingNext(s: seq<nat>, i: nat)
    requires Ascending(s) && forall o | o in s :: o < i
    ensures Ascending(s + [i])
  {
    forall j, k | 0 <= j < k < |s + [i]| ensures (s + [i])[j] < (s + [i])[k] {
      assert (s + [i])[j] == s[j] && s[j] in s;
    }
  }

  /** Cube datum encloses the entries on the list. */
  ghost predicate Encloser(entryvec: seq<NdBox>, datum: NdBox, list: seq<nat>)
    requires ValidEntries(entryvec)
  {
    datum.Valid() && forall o | o in list :: o < |entryvec| && Encloses(datum, entryvec[o])
  }

  lemma {:induction false} EncloserGrows(entryvec: seq<NdBox>, datum: NdBox, list: seq<nat>, i: nat, wider: NdBox)
    requires ValidEntries(entryvec) && i < |entryvec| && Encloser(entryvec, datum, list) && wider.Valid()
    requires IsUnion(datum, entryvec[i], wider)
    ensures Encloser(entryvec, wider, list + [i]) && Encloses(wider, datum)
  {
    UnionEncloses(datum, entryvec[i], wider);
    forall o | o in list ensures Encloses(wider, entryvec[o]) {
      EnclosesTransitive(wider, datum, entryvec[o]);
    }
  }

  /** `*list++ = i`. */
  method Put(list: array<nat>, n: nat, i: nat)
    requires n < list.Length
    modifies list
    ensures list[..n + 1] == old(list[..n]) + [i]
  {
    list[n] := i;
  }

  /** One entry that is no seed: where it enlarges the page least, and where the sizes are then. */
  method Choose(datumL: NdBox, sizeL: real, datumR: NdBox, sizeR: real, entry: NdBox)
    returns (toLeft: bool, wider: NdBox, size: real)
    requires datumL.Valid() && datumR.Valid() && entry.Valid()
    ensures wider.Valid() && IsUnion(if toLeft then datumL else datumR, entry, wider) && size == Size(wider)
    ensures toLeft <==> Joint(datumL, entry) - sizeL < Joint(datumR, entry) - sizeR
  {
    var unionDl := UnionV0(datumL, entry, false);
    var unionDr := UnionV0(datumR, entry, false);
    var sizeAlpha := RtCubeSize(unionDl);
    var sizeBeta := RtCubeSize(unionDr);
    UnionSize(datumL, entry, unionDl);
    UnionSize(datumR, entry, unionDr);
    if sizeAlpha - sizeL < sizeBeta - sizeR {
      return true, unionDl, sizeAlpha;
    }
    return false, unionDr, sizeBeta;
  }

  /** One side when the offsets below i are dealt out: its cube encloses its entries and its seed, and
      the seed is on its list as soon as it was its turn. */
  ghost predicate SideOk(entryvec: seq<NdBox>, h: Half, list: seq<nat>, seed: nat, i: nat)
    requires ValidEntries(entryvec) && seed < |entryvec|
  {
    && Encloser(entryvec, h.datum, list) && h.size == Size(h.datum)
    && Encloses(h.datum, entryvec[seed]) && (seed < i ==> seed in list)
  }

  lemma {:induction false} SideTakesSeed(entryvec: seq<NdBox>, h: Half, list: seq<nat>, seed: nat)
    requires ValidEntries(entryvec) && seed < |entryvec| && SideOk(entryvec, h, list, seed, seed)
    ensures SideOk(entryvec, h.(n := h.n + 1), list + [seed], seed, seed + 1)
  {
  }

  lemma {:induction false} SideTakes(entryvec: seq<NdBox>, h: Half, list: seq<nat>, seed: nat, i: nat, wider: NdBox)
    requires ValidEntries(entryvec) && seed < |entryvec| && i < |entryvec| && SideOk(entryvec, h, list, seed, i)
    requires i != seed
    requires wider.Valid() && IsUnion(h.datum, entryvec[i], wider)
    ensures SideOk(entryvec, Half(wider, Size(wider), h.n + 1), list + [i], seed, i + 1)
  {
    EncloserGrows(entryvec, h.datum, list, i, wider);
    EnclosesTransitive(wider, h.datum, entryvec[seed]);
  }

  /** The cube of one side, its size, and how many entries its array holds. */
  datatype Half = Half(datum: NdBox, size: real, n: nat)

  // ---------------------------------------------------------------- the turns of the second loop

  /** The cubes of the two sides at some time. */
  datatype Cubes = Cubes(l: NdBox, r: NdBox) {
    predicate Valid() {
      l.Valid() && r.Valid()
    }
  }

  /** By how much a side's cube would grow. */
  function Growth(side: NdBox, entry: NdBox): real
    requires side.Valid() && entry.Valid()
  {
    Joint(side, entry) - Size(side)
  }

  /** The turn of entry i: the seeds go to their own sides; any other entry goes to the side whose cube
      grows less, to the right on a tie, and that cube becomes the union. */
  ghost predicate Turn(entryvec: seq<NdBox>, seed1: nat, seed2: nat, i: nat, before: Cubes, after: Cubes, toLeft: bool)
    requires ValidEntries(entryvec) && i < |entryvec|
  {
    && before.Valid() && after.Valid()
    && if i == seed1 then toLeft && after == before
       else if i == seed2 then !toLeft && after == before
       else
         && (toLeft <==> Growth(before.l, entryvec[i]) < Growth(before.r, entryvec[i]))
         && (if toLeft then after.r == before.r && IsUnion(before.l, entryvec[i], after.l)
             else after.l == before.l && IsUnion(before.r, entryvec[i], after.r))
  }

  /** Entry i had its turn between cubes number i - 1 and i. */
  ghost predicate TurnAt(entryvec: seq<NdBox>, seed1: nat, seed2: nat, cubes: seq<Cubes>, left: seq<nat>, i: nat)
    requires ValidEntries(entryvec) && 1 <= i < |entryvec| && i < |cubes|
  {
    Turn(entryvec, seed1, seed2, i, cubes[i - 1], cubes[i], i in left)
  }

  ghost predicate Turns(entryvec: seq<NdBox>, seed1: nat, seed2: nat, cubes: seq<Cubes>, left: seq<nat>)
    requires ValidEntries(entryvec) && |cubes| <= |entryvec|
  {
    forall i | 1 <= i < |cubes| :: TurnAt(entryvec, seed1, seed2, cubes, left, i)
  }

  lemma {:induction false} TurnsNext(entryvec: seq<NdBox>, seed1: nat, seed2: nat, cubes: seq<Cubes>, left: seq<nat>,
                                     left': seq<nat>, after: Cubes)
    requires ValidEntries(entryvec) && 0 < |cubes| < |entryvec| && Turns(entryvec, seed1, seed2, cubes, left)
    requires left' == left || left' == left + [|cubes|]
    requires Turn(entryvec, seed1, seed2, |cubes|, cubes[|cubes| - 1], after, |cubes| in left')
    ensures Turns(entryvec, seed1, seed2, cubes + [after], left')
  {
    var cubes' := cubes + [after];
    forall i | 1 <= i < |cubes'| ensures TurnAt(entryvec, seed1, seed2, cubes', left', i) {
      if i < |cubes| {
        assert TurnAt(entryvec, seed1, seed2, cubes, left, i);
        assert i in left' <==> i in left;
      }
    }
  }

  /** The turn of one entry in the second loop. */
  method DealOne(entryvec: seq<NdBox>, i: nat, seed1: nat, seed2: nat, l: Half, left: array<nat>, r: Half,
                 right: array<nat>)
    returns (l': Half, r': Half)
    requires ValidEntries(entryvec) && 1 <= i < |entryvec| && seed1 < seed2 < |entryvec|
    requires left != right && left.Length == right.Length == |entryvec| && l.n + r.n == i - 1
    requires Dealt(left[..l.n], right[..r.n], i)
    requires SideOk(entryvec, l, left[..l.n], seed1, i) && SideOk(entryvec, r, right[..r.n], seed2, i)
    modifies left, right
    ensures l'.n + r'.n == i && Dealt(left[..l'.n], right[..r'.n], i + 1)
    ensures SideOk(entryvec, l', left[..l'.n], seed1, i + 1) && SideOk(entryvec, r', right[..r'.n], seed2, i + 1)
    ensures left[..l'.n] == old(left[..l.n]) || left[..l'.n] == old(left[..l.n]) + [i]
    ensures Turn(entryvec, seed1, seed2, i, Cubes(l.datum, r.datum), Cubes(l'.datum, r'.datum), i in left[..l'.n])
  {
    ghost var ls, rs := left[..l.n], right[..r.n];
    DealtNext(ls, rs, i);
    l', r' := l, r;
    var toLeft, wider, size := i == seed1, l.datum, l.size;
    if i == seed1 {
      SideTakesSeed(entryvec, l, ls, i);
    } else if i == seed2 {
      wider, size := r.datum, r.size;
      SideTakesSeed(entryvec, r, rs, i);
    } else {
      toLeft, wider, size := Choose(l.datum, l.size, r.datum, r.size, entryvec[i]);
      if toLeft { SideTakes(entryvec, l, ls, seed1, i, wider); } else { SideTakes(entryvec, r, rs, seed2, i, wider); }
    }
    if toLeft {
      l' := Half(wider, size, l.n + 1);
      Put(left, l.n, i);
      assert left[..l'.n] == ls + [i] && right[..r.n] == rs;
    } else {
      r' := Half(wider, size, r.n + 1);
      Put(right, r.n, i);
      assert right[..r'.n] == rs + [i] && left[..l.n] == ls;
    }
  }

  /** No pair of entries that the first loops look at wastes more than the seeds. */
  predicate MostWasteful(entryvec: seq<NdBox>, seed1: nat, seed2: nat)
    requires ValidEntries(entryvec) && seed1 < |entryvec| && seed2 < |entryvec|
  {
    forall i, j | 1 <= i < j <= |entryvec| - 2 ::
      WastesAtMost(entryvec, i, j, Waste(entryvec[seed1], entryvec[seed2]))
  }

  /** g_cube_picksplit: every offset goes to one side, both sides are in ascending order and not empty,
      and each side's cube encloses its entries. The sides begin with the seeds, the most wasteful pair,
      and every other entry goes where it enlarges the cube least; `cubes` are the cubes before the first
      and after each turn. No write leaves the two arrays, which have one slot an entry and one for the
      sentinel. */
  method PickSplit(entryvec: seq<NdBox>)
    returns (left: array<nat>, l: Half, right: array<nat>, r: Half, ghost seed1: nat, ghost seed2: nat,
             ghost cubes: seq<Cubes>)
    requires |entryvec| >= 3 && ValidEntries(entryvec)
    ensures left.Length == right.Length == |entryvec| && 0 < l.n < left.Length && 0 < r.n < right.Length
    ensures Dealt(left[..l.n], right[..r.n], |entryvec|)
    ensures left[l.n] == 1 && right[r.n] == 1
    ensures Encloser(entryvec, l.datum, left[..l.n]) && Encloser(entryvec, r.datum, right[..r.n])
    ensures 1 <= seed1 < seed2 < |entryvec| && seed1 in left[..l.n] && seed2 in right[..r.n]
    ensures MostWasteful(entryvec, seed1, seed2)
    ensures |cubes| == |entryvec| && cubes[0].Valid() && IsUnion(entryvec[seed1], entryvec[seed1], cubes[0].l)
    ensures IsUnion(entryvec[seed2], entryvec[seed2], cubes[0].r)
    ensures Turns(entryvec, seed1, seed2, cubes, left[..l.n]) && cubes[|cubes| - 1] == Cubes(l.datum, r.datum)
  {
    var s1, s2 := PickSeeds(entryvec);
    seed1, seed2 := s1, s2;
    left, right := new nat[|entryvec|](_ => 0), new nat[|entryvec|](_ => 0);
    var l0 := SeedHalf(entryvec, s1);
    var r0 := SeedHalf(entryvec, s2);
    l, r, cubes := DealAll(entryvec, s1, s2, l0, left, r0, right);
    ghost var ls, rs := left[..l.n], right[..r.n];
    SidesFilled(ls, rs, s1, s2, |entryvec|);
    left[l.n] := 1;
    right[r.n] := 1;
    assert left[..l.n] == ls && right[..r.n] == rs;
  }

  lemma {:induction false} SidesFilled(ls: seq<nat>, rs: seq<nat>, seed1: nat, seed2: nat, n: nat)
    requires Dealt(ls, rs, n) && seed1 in ls && seed2 in rs
    ensures 0 < |ls| < n && 0 < |rs| < n
  {
  }

  /** The second loop. */
  method DealAll(entryvec: seq<NdBox>, s1: nat, s2: nat, l0: Half, left: array<nat>, r0: Half, right: array<nat>)
    returns (l: Half, r: Half, ghost cubes: seq<Cubes>)
    requires ValidEntries(entryvec) && 1 <= s1 < s2 < |entryvec| && l0.n == r0.n == 0
    requires left != right && left.Length == right.Length == |entryvec|
    requires SideOk(entryvec, l0, [], s1, 1) && SideOk(entryvec, r0, [], s2, 1)
    modifies left, right
    ensures l.n + r.n == |entryvec| - 1 && Dealt(left[..l.n], right[..r.n], |entryvec|)
    ensures SideOk(entryvec, l, left[..l.n], s1, |entryvec|) && SideOk(entryvec, r, right[..r.n], s2, |entryvec|)
    ensures |cubes| == |entryvec| && cubes[0] == Cubes(l0.datum, r0.datum)
    ensures Turns(entryvec, s1, s2, cubes, left[..l.n]) && cubes[|cubes| - 1] == Cubes(l.datum, r.datum)
  {
    l, r := l0, r0;
    cubes := [Cubes(l.datum, r.datum)];
    var i := 1;
    assert left[..0] == [] && right[..0] == [];
    while i < |entryvec|
      invariant 1 <= i <= |entryvec| && l.n + r.n == i - 1
      invariant Dealt(left[..l.n], right[..r.n], i)
      invariant SideOk(entryvec, l, left[..l.n], s1, i) && SideOk(entryvec, r, right[..r.n], s2, i)
      invariant |cubes| == i && cubes[0] == Cubes(l0.datum, r0.datum) && cubes[i - 1] == Cubes(l.datum, r.datum)
      invariant Turns(entryvec, s1, s2, cubes, left[..l.n])
    {
      ghost var ls := left[..l.n];
      l, r := DealOne(entryvec, i, s1, s2, l, left, r, right);
      TurnsNext(entryvec, s1, s2, cubes, ls, left[..l.n], Cubes(l.datum, r.datum));
      cubes := cubes + [Cubes(l.datum, r.datum)];
      i := i + 1;
    }
  }

  /** A side that is only its seed's cube, before any entry is dealt. */
  method SeedHalf(entryvec: seq<NdBox>, seed: nat) returns (h: Half)
    requires ValidEntries(entryvec) && 1 <= seed < |entryvec|
    ensures h.n == 0 && SideOk(entryvec, h, [], seed, 1) && IsUnion(entryvec[seed], entryvec[seed], h.datum)
  {
    var datum := UnionV0(entryvec[seed], entryvec[seed], true);
    UnionEncloses(entryvec[seed], entryvec[seed], datum);
    var size := RtCubeSize(datum);
    h := Half(datum, size, 0);
  }
}
