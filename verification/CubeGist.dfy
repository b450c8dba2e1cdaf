/** The GiST support of cube (cube.c): which subtrees a search enters, the union of a page's keys, and
    Guttman's quadratic split. */
module CubeGist {
  import opened CubeBox

  datatype Strategy = Overlap | SameAs | ContainsQuery | ContainedBy

  /** g_cube_leaf_consistent, which is the operator itself. */
  ghost predicate LeafConsistent(key: NdBox, query: NdBox, strategy: Strategy)
    requires key.Valid() && query.Valid()
  {
    match strategy
    case Overlap => Overlaps(key, query)
    case SameAs => Same(key, query)
    case ContainsQuery => Contains(key, query)
    case ContainedBy => Contains(query, key)
  }

  /** g_cube_internal_consistent. */
  ghost predicate InternalConsistent(key: NdBox, query: NdBox, strategy: Strategy)
    requires key.Valid() && query.Valid()
  {
    match strategy
    case Overlap => Overlaps(key, query)
    case SameAs => Contains(key, query)
    case ContainsQuery => Contains(key, query)
    case ContainedBy => Overlaps(key, query)
  }

  /** g_cube_consistent. */
  method Consistent(key: NdBox, query: NdBox, strategy: Strategy, leaf: bool) returns (r: bool)
    requires key.Valid() && query.Valid()
    ensures r <==> if leaf then LeafConsistent(key, query, strategy) else InternalConsistent(key, query, strategy)
  {
    match strategy
    case Overlap => r := OverlapV0(key, query);
    case SameAs =>
      if leaf {
        var c := CmpV0(key, query);
        r := c == 0;
      } else {
        r := ContainsV0(key, query);
      }
    case ContainsQuery => r := ContainsV0(key, query);
    case ContainedBy =>
      if leaf {
        r := ContainsV0(query, key);
      } else {
        r := OverlapV0(key, query);
      }
  }

  // ---------------------------------------------------------------- search

  /** The query's extra dimensions are around zero, or it is not a contained-by query. */
  predicate AroundZero(query: NdBox, leaf: NdBox, strategy: Strategy)
    requires query.Valid()
  {
    strategy == ContainedBy ==> forall i | leaf.dim <= i < query.dim :: Lo(query, i) <= 0.0 <= Hi(query, i)
  }

  /** A key that encloses a matching leaf is entered, except for a contained-by query whose extra
      dimensions are off zero. */
  lemma {:induction false} EnclosingKeyEntered(key: NdBox, leaf: NdBox, query: NdBox, strategy: Strategy)
    requires key.Valid() && leaf.Valid() && query.Valid() && Encloses(key, leaf)
    requires LeafConsistent(leaf, query, strategy) && AroundZero(query, leaf, strategy)
    ensures InternalConsistent(key, query, strategy)
  {
    match strategy
    case Overlap =>
      forall i: nat ensures MeetsAt(key, query, i) { assert MeetsAt(leaf, query, i) && EnclosesAt(key, leaf, i); }
    case SameAs =>
      forall i | 0 <= i < query.dim ensures EnclosesAt(key, query, i) {
        assert SameAt(leaf, query, i) && EnclosesAt(key, leaf, i);
      }
    case ContainsQuery =>
      forall i | 0 <= i < query.dim ensures EnclosesAt(key, query, i) {
        assert EnclosesAt(leaf, query, i) && EnclosesAt(key, leaf, i);
      }
    case ContainedBy =>
      forall i: nat ensures MeetsAt(key, query, i) {
        assert EnclosesAt(key, leaf, i);
        if i < leaf.dim { assert EnclosesAt(query, leaf, i); }
      }
  }

  /** For a contained-by match the exception is exact: every enclosing key is entered if and only if the
      query is around zero in the dimensions the leaf lacks. */
  lemma {:induction false} ContainedByExact(leaf: NdBox, query: NdBox)
    requires leaf.Valid() && query.Valid() && LeafConsistent(leaf, query, ContainedBy)
    ensures (forall key: NdBox | key.Valid() && Encloses(key, leaf) :: InternalConsistent(key, query, ContainedBy))
            <==> AroundZero(query, leaf, ContainedBy)
  {
    if AroundZero(query, leaf, ContainedBy) {
      forall key: NdBox | key.Valid() && Encloses(key, leaf) ensures InternalConsistent(key, query, ContainedBy) {
        EnclosingKeyEntered(key, leaf, query, ContainedBy);
      }
    } else {
      var i :| leaf.dim <= i < query.dim && !(Lo(query, i) <= 0.0 <= Hi(query, i));
      EnclosesReflexive(leaf);
      assert !MeetsAt(leaf, query, i);
    }
  }

  /** The empty cube is contained in the interval from 1 to 2, but the search for that never gets to it. */
  lemma {:induction false} ContainedByCanMiss()
    ensures var leaf, query := NdBox(0, true, []), NdBox(1, false, [1.0, 2.0]);
            && LeafConsistent(leaf, query, ContainedBy) && Encloses(leaf, leaf)
            && !InternalConsistent(leaf, query, ContainedBy)
  {
    var leaf, query := NdBox(0, true, []), NdBox(1, false, [1.0, 2.0]);
    EnclosesReflexive(leaf);
    assert !MeetsAt(leaf, query, 0);
  }

  // ---------------------------------------------------------------- keys of pages

  /** parts[i] is the union of the first i + 1 boxes, one after the other. */
  ghost predicate UnionAt(boxes: seq<NdBox>, parts: seq<NdBox>, i: nat)
    requires i < |boxes| == |parts|
  {
    && boxes[i].Valid() && parts[i].Valid()
    && if i == 0 then parts[0] == boxes[0] else parts[i - 1].Valid() && IsUnion(parts[i - 1], boxes[i], parts[i])
  }

  ghost predicate UnionChain(boxes: seq<NdBox>, parts: seq<NdBox>) {
    |boxes| == |parts| > 0 && forall i | 0 <= i < |boxes| :: UnionAt(boxes, parts, i)
  }

  /** g_cube_union: the least cube that encloses all entries. */
  method GUnion(entries: seq<NdBox>) returns (out: NdBox, ghost parts: seq<NdBox>)
    requires |entries| > 1 && forall i | 0 <= i < |entries| :: entries[i].Valid()
    ensures UnionChain(entries, parts) && out == parts[|parts| - 1]
    ensures out.Valid() && EnclosesAll(out, entries)
    ensures forall c: NdBox | c.Valid() && EnclosesAll(c, entries) :: Encloses(c, out)
  {
    out := entries[0];
    parts := [out];
    var i := 1;
    while i < |entries|
      invariant 1 <= i <= |entries| && |parts| == i && out == parts[i - 1] && out.Valid()
      invariant forall j | 0 <= j < i :: UnionAt(entries[..i], parts, j)
    {
      ghost var was := parts;
      out := UnionV0(out, entries[i], false);
      parts := parts + [out];
      i := i + 1;
      forall j | 0 <= j < i ensures UnionAt(entries[..i], parts, j) {
        if j < i - 1 { assert UnionAt(entries[..i - 1], was, j); }
      }
    }
    assert entries[..i] == entries;
    forall j | 0 <= j < |entries| ensures Encloses(out, entries[j]) { ChainEncloses(entries, parts, j, |entries| - 1); }
    forall c: NdBox | c.Valid() && EnclosesAll(c, entries) ensures Encloses(c, out) {
      ChainLeast(entries, parts, c, |entries| - 1);
    }
  }

  ghost predicate EnclosesAll(c: NdBox, boxes: seq<NdBox>)
    requires c.Valid()
  {
    forall i | 0 <= i < |boxes| :: boxes[i].Valid() && Encloses(c, boxes[i])
  }

  lemma {:induction false} ChainLeast(boxes: seq<NdBox>, parts: seq<NdBox>, c: NdBox, k: nat)
    requires UnionChain(boxes, parts) && k < |boxes| && c.Valid() && EnclosesAll(c, boxes)
    ensures parts[k].Valid() && Encloses(c, parts[k])
  {
    assert UnionAt(boxes, parts, k);
    if k > 0 {
      ChainLeast(boxes, parts, c, k - 1);
      UnionLeast(parts[k - 1], boxes[k], parts[k], c);
    }
  }

  lemma {:induction false} ChainEncloses(boxes: seq<NdBox>, parts: seq<NdBox>, i: nat, k: nat)
    requires UnionChain(boxes, parts) && i <= k < |boxes|
    ensures boxes[i].Valid() && parts[k].Valid() && Encloses(parts[k], boxes[i])
  {
    assert UnionAt(boxes, parts, k) && UnionAt(boxes, parts, i);
    if k == 0 {
      EnclosesReflexive(parts[0]);
    } else {
      UnionEncloses(parts[k - 1], boxes[k], parts[k]);
      if i < k {
        ChainEncloses(boxes, parts, i, k - 1);
        EnclosesTransitive(parts[k], parts[k - 1], boxes[i]);
      }
    }
  }

  /** An index tree; the key of a page was made by unions over its entries' keys. */
  datatype Tree = Leaf(box: NdBox) | Page(key: NdBox, entries: seq<Tree>)

  function KeyOf(t: Tree): NdBox {
    if t.Leaf? then t.box else t.key
  }

  function Keys(ts: seq<Tree>): (r: seq<NdBox>)
    ensures |r| == |ts| && forall i | 0 <= i < |ts| :: r[i] == KeyOf(ts[i])
  {
    seq(|ts|, i requires 0 <= i < |ts| => KeyOf(ts[i]))
  }

  ghost predicate Built(t: Tree)
    decreases t
  {
    && KeyOf(t).Valid()
    && (t.Page? ==>
        && (forall i | 0 <= i < |t.entries| :: Built(t.entries[i]))
        && exists parts :: UnionChain(Keys(t.entries), parts) && parts[|parts| - 1] == t.key)
  }

  predicate Holds(t: Tree, x: NdBox)
    decreases t
  {
    match t
    case Leaf(box) => box == x
    case Page(_, es) => exists i | 0 <= i < |es| :: Holds(es[i], x)
  }

  lemma {:induction false} KeyEncloses(t: Tree, x: NdBox)
    requires Built(t) && Holds(t, x)
    ensures x.Valid() && Encloses(KeyOf(t), x)
    decreases t
  {
    match t
    case Leaf(box) => EnclosesReflexive(box);
    case Page(key, es) =>
      var i :| 0 <= i < |es| && Holds(es[i], x);
      KeyEncloses(es[i], x);
      PageEncloses(key, Keys(es), i);
      EnclosesTransitive(key, KeyOf(es[i]), x);
  }

  lemma {:induction false} PageEncloses(key: NdBox, keys: seq<NdBox>, i: nat)
    requires i < |keys| && exists parts :: UnionChain(keys, parts) && parts[|parts| - 1] == key
    ensures key.Valid() && keys[i].Valid() && Encloses(key, keys[i])
  {
    var parts :| UnionChain(keys, parts) && parts[|parts| - 1] == key;
    ChainEncloses(keys, parts, i, |keys| - 1);
  }

  /** A GiST search: it enters a page only through a consistent key. */
  ghost predicate Finds(t: Tree, query: NdBox, strategy: Strategy, x: NdBox)
    requires Built(t) && query.Valid()
    decreases t
  {
    match t
    case Leaf(box) => box == x && LeafConsistent(box, query, strategy)
    case Page(key, es) =>
      InternalConsistent(key, query, strategy) && exists i | 0 <= i < |es| :: Finds(es[i], query, strategy, x)
  }

  /** Search is exact over boxes of any mix of dimensions: it finds the boxes of the tree that satisfy
      the operator, and no others, for overlap, same and contains, and for contained-by where the query
      is around zero in the dimensions the box lacks. */
  lemma {:induction false} SearchExact(t: Tree, query: NdBox, strategy: Strategy, x: NdBox)
    requires Built(t) && query.Valid() && AroundZero(query, x, strategy)
    ensures Finds(t, query, strategy, x) <==> Holds(t, x) && x.Valid() && LeafConsistent(x, query, strategy)
    decreases t
  {
    match t
    case Leaf(box) =>
    case Page(key, es) =>
      forall i | 0 <= i < |es|
        ensures Finds(es[i], query, strategy, x) <==> Holds(es[i], x) && x.Valid() && LeafConsistent(x, query, strategy)
      {
        SearchExact(es[i], query, strategy, x);
      }
      if Holds(t, x) && x.Valid() && LeafConsistent(x, query, strategy) {
        KeyEncloses(t, x);
        EnclosingKeyEntered(key, x, query, strategy);
        var i :| 0 <= i < |es| && Holds(es[i], x);
        assert Finds(es[i], query, strategy, x);
      }
  }
}
