/** btree_gist keys of variable length (btree_utils_var.c) for bytea: truncation on, no multibyte
    characters, no leaf-to-node conversion. A key is a pair of byte strings; an inner key is the
    union of the keys below it, truncated behind the common prefix of its bounds. */
module GbtVarKey {
  import opened Lex

  type Byte = b: int | 0 <= b < 256

  type Bytes = seq<Byte>

  /** GBT_VARKEY_R. */
  datatype VarKey = VarKey(lower: Bytes, upper: Bytes)

  datatype Strategy = Less | LessEqual | Equal | GreaterEqual | Greater | NotEqual

  predicate Ordered(k: VarKey) {
    Le(k.lower, k.upper)
  }

  // ---------------------------------------------------------------- keys

  /** gbt_var_node_cp_len. */
  method NodeCpLen(k: VarKey) returns (n: nat)
    ensures n == Cp(k.lower, k.upper)
  {
    var ml := if |k.lower| < |k.upper| then |k.lower| else |k.upper|;
    var i := 0;
    while i < ml
      invariant 0 <= i <= ml && Agree(k.lower, k.upper, i)
    {
      if k.lower[i] != k.upper[i] {
        CpUnique(k.lower, k.upper, i);
        return i;
      }
      i := i + 1;
    }
    CpUnique(k.lower, k.upper, ml);
    return ml;
  }

  /** gbt_var_node_truncate: both bounds keep at most cpf_length + 1 bytes. */
  function NodeTruncate(k: VarKey, cpfLength: nat): (r: VarKey) {
    VarKey(Cut(k.lower, cpfLength + 1), Cut(k.upper, cpfLength + 1))
  }

  /** The least key that spans both. */
  function Hull(a: VarKey, b: VarKey): VarKey {
    VarKey(if Le(a.lower, b.lower) then a.lower else b.lower,
           if Le(b.upper, a.upper) then a.upper else b.upper)
  }

  /** The hull of the first n keys. */
  function Span(keys: seq<VarKey>, n: nat): VarKey
    requires 0 < n <= |keys|
  {
    if n == 1 then keys[0] else Hull(Span(keys, n - 1), keys[n - 1])
  }

  /** Truncated right behind the byte in which the bounds differ, and one more. */
  function Compressed(k: VarKey): VarKey {
    NodeTruncate(k, Cp(k.lower, k.upper) + 1)
  }

  /** The cut that gbt_var_picksplit makes in both sides: behind the longer of the two prefixes. */
  function SplitCut(l: VarKey, r: VarKey): nat {
    var (ll, lr) := (Cp(l.lower, l.upper), Cp(r.lower, r.upper));
    (if ll < lr then lr else ll) + 1
  }

  /** gbt_var_bin_union on an existing union. */
  method BinUnion(u: VarKey, e: VarKey) returns (r: VarKey)
    ensures r == Hull(u, e)
  {
    r := u;
    Total(u.lower, e.lower);
    Total(u.upper, e.upper);
    if Lt(e.lower, u.lower) {
      r := r.(lower := e.lower);
    }
    if Lt(u.upper, e.upper) {
      r := r.(upper := e.upper);
    }
  }

  /** gbt_var_union. */
  method Union(entries: seq<VarKey>) returns (out: VarKey)
    requires |entries| > 0
    ensures out == Compressed(Span(entries, |entries|))
  {
    out := entries[0];
    for i := 1 to |entries|
      invariant out == Span(entries, i)
    {
      out := BinUnion(out, entries[i]);
    }
    var plen := NodeCpLen(out);
    out := NodeTruncate(out, plen + 1);
  }

  // ---------------------------------------------------------------- consistent

  /** The operator that the strategy stands for, of a value and the query. */
  predicate Satisfies(x: Bytes, query: Bytes, strategy: Strategy) {
    match strategy
    case Less => Lt(x, query)
    case LessEqual => Le(x, query)
    case Equal => x == query
    case GreaterEqual => Le(query, x)
    case Greater => Lt(query, x)
    case NotEqual => x != query
  }

  /** gbt_var_node_pf_match. */
  predicate PfMatch(k: VarKey, query: Bytes) {
    PrefixOf(k.lower, query) || PrefixOf(k.upper, query)
  }

  /** gbt_var_consistent. */
  predicate Consistent(k: VarKey, query: Bytes, strategy: Strategy, isLeaf: bool) {
    match strategy
    case LessEqual => if isLeaf then Le(k.lower, query) else Le(k.lower, query) || PfMatch(k, query)
    case Less => if isLeaf then Lt(k.lower, query) else Le(k.lower, query) || PfMatch(k, query)
    case Equal =>
      if isLeaf then query == k.lower
      else (Le(k.lower, query) && Le(query, k.upper)) || PfMatch(k, query)
    case Greater => if isLeaf then Lt(query, k.upper) else Le(query, k.upper) || PfMatch(k, query)
    case GreaterEqual => if isLeaf then Le(query, k.upper) else Le(query, k.upper) || PfMatch(k, query)
    case NotEqual => !(query == k.lower && query == k.upper)
  }

  /** gbt_var_key_from_datum: the key of a leaf entry. */
  function LeafKey(x: Bytes): VarKey {
    VarKey(x, x)
  }

  /** On a leaf the test is the operator. */
  lemma {:induction false} LeafExact(x: Bytes, query: Bytes, strategy: Strategy)
    ensures Consistent(LeafKey(x), query, strategy, true) <==> Satisfies(x, query, strategy)
  {
  }

  /** No query that x satisfies is turned away at an inner key k. */
  ghost predicate Admits(k: VarKey, x: Bytes) {
    forall query, strategy :: Satisfies(x, query, strategy) ==> Consistent(k, query, strategy, false)
  }

  /** The same, said of the key and the value alone. */
  predicate Reaches(k: VarKey, x: Bytes) {
    && Le(k.lower, x)
    && (Le(x, k.upper) || PfMatch(k, x))
    && (k.lower == k.upper ==> x == k.lower)
  }

  lemma {:induction false} AdmitsMeans(k: VarKey, x: Bytes)
    requires Ordered(k)
    ensures Admits(k, x) <==> Reaches(k, x)
  {
    if Reaches(k, x) {
      forall query, strategy | Satisfies(x, query, strategy) ensures Consistent(k, query, strategy, false) {
        ReachedIsConsistent(k, x, query, strategy);
      }
    }
    if Admits(k, x) {
      Reflexive(x);
      assert Satisfies(x, x, Equal);
      if PrefixOf(k.lower, x) { PrefixLe(k.lower, x); }
      if PrefixOf(k.upper, x) { PrefixLe(k.upper, x); Transitive(k.lower, k.upper, x); }
      assert !Satisfies(x, k.lower, NotEqual) || Consistent(k, k.lower, NotEqual, false);
    }
  }

  lemma {:induction false} ReachedIsConsistent(k: VarKey, x: Bytes, query: Bytes, strategy: Strategy)
    requires Ordered(k) && Reaches(k, x) && Satisfies(x, query, strategy)
    ensures Consistent(k, query, strategy, false)
  {
    LtMeans(x, query);
    LtMeans(query, x);
    match strategy
    case Less => Transitive(k.lower, x, query);
    case LessEqual => Transitive(k.lower, x, query);
    case Equal =>
    case GreaterEqual => AboveQuery(k, x, query);
    case Greater => AboveQuery(k, x, query);
    case NotEqual =>
  }

  lemma {:induction false} AboveQuery(k: VarKey, x: Bytes, query: Bytes)
    requires Ordered(k) && Reaches(k, x) && Le(query, x)
    ensures Le(query, k.upper) || PfMatch(k, query)
  {
    if Le(x, k.upper) {
      Transitive(query, x, k.upper);
    } else if !Le(query, k.upper) {
      NotLe(query, k.upper);
      if PrefixOf(k.upper, x) {
        Between(k.upper, query, x, |k.upper|);
      } else {
        Transitive(k.lower, k.upper, query);
        Between(k.lower, query, x, |k.lower|);
      }
    }
  }

  // ---------------------------------------------------------------- trees built by unions

  /** What a key says of the values below it: at least the lower bound; at most the upper bound, or
      like it in the common prefix of the bounds and two bytes more. */
  predicate Covers(k: VarKey, x: Bytes) {
    Le(k.lower, x) && (Le(x, k.upper) || Agree(k.upper, x, Cp(k.lower, k.upper) + 2))
  }

  /** Equal bounds stand for one value only. */
  lemma {:induction false} EqualBounds(k: VarKey, x: Bytes)
    requires Covers(k, x) && k.lower == k.upper
    ensures x == k.lower
  {
    CpUnique(k.lower, k.upper, |k.lower|);
    Total(x, k.lower);
  }

  lemma {:induction false} LeafCovers(x: Bytes)
    ensures Ordered(LeafKey(x)) && Covers(LeafKey(x), x)
  {
    Reflexive(x);
  }

  predicate Within(a: VarKey, b: VarKey) {
    Le(b.lower, a.lower) && Le(a.upper, b.upper)
  }

  lemma {:induction false} HullWithin(a: VarKey, b: VarKey)
    ensures Within(a, Hull(a, b)) && Within(b, Hull(a, b))
  {
    Total(a.lower, b.lower);
    Total(a.upper, b.upper);
    Reflexive(a.lower);
    Reflexive(b.lower);
    Reflexive(a.upper);
    Reflexive(b.upper);
  }

  lemma {:induction false} WithinOrdered(a: VarKey, b: VarKey)
    requires Ordered(a) && Within(a, b)
    ensures Ordered(b) && Cp(b.lower, b.upper) <= Cp(a.lower, a.upper)
  {
    Transitive(b.lower, a.lower, a.upper);
    Transitive(b.lower, a.upper, b.upper);
    var n := Cp(b.lower, b.upper);
    Transitive(a.lower, a.upper, b.upper);
    Between(b.lower, a.lower, b.upper, n);
    Between(b.lower, a.upper, b.upper, n);
    AgreeWithinCp(a.lower, a.upper, n);
  }

  /** A wider key covers what a narrower one covered, though its upper bound may be another. */
  lemma {:induction false} WithinCovers(a: VarKey, b: VarKey, x: Bytes)
    requires Ordered(a) && Within(a, b) && Covers(a, x)
    ensures Ordered(b) && Covers(b, x)
  {
    WithinOrdered(a, b);
    Transitive(b.lower, a.lower, x);
    if Le(x, a.upper) {
      Transitive(x, a.upper, b.upper);
    } else if !Le(x, b.upper) {
      NotLe(x, b.upper);
      Between(a.upper, b.upper, x, Cp(a.lower, a.upper) + 2);
    }
  }

  /** Cutting both bounds somewhere behind their first difference. */
  lemma {:induction false} CutBounds(k: VarKey, n: nat)
    requires Ordered(k) && n > Cp(k.lower, k.upper)
    ensures var r := NodeTruncate(k, n - 1);
            && Ordered(r) && Cp(r.lower, r.upper) == Cp(k.lower, k.upper)
            && Le(r.lower, k.lower) && PrefixOf(r.upper, k.upper)
            && (r.lower == r.upper ==> k.lower == k.upper && r == k)
  {
    var r := NodeTruncate(k, n - 1);
    CutMonotone(k.lower, k.upper, n);
    CpUnique(r.lower, r.upper, Cp(k.lower, k.upper));
    CutLe(k.lower, n);
    CutLe(k.upper, n);
    if r.lower == r.upper { CpUnique(r.lower, r.upper, |r.lower|); }
  }

  /** A value below the uncut upper bound is below the cut one, or begins with it. */
  lemma {:induction false} CutUpper(k: VarKey, n: nat, x: Bytes)
    requires Le(x, k.upper)
    ensures var r := NodeTruncate(k, n); Le(x, r.upper) || PrefixOf(r.upper, x)
  {
    var r := NodeTruncate(k, n);
    if !Le(x, r.upper) {
      NotLe(x, r.upper);
      CutLe(k.upper, n + 1);
      Between(r.upper, x, k.upper, |r.upper|);
    }
  }

  /** Cutting behind the common prefix loses no value. */
  lemma {:induction false} CompressedCovers(k: VarKey, x: Bytes)
    requires Ordered(k) && Covers(k, x)
    ensures Ordered(Compressed(k)) && Covers(Compressed(k), x) && Reaches(Compressed(k), x)
  {
    var n := Cp(k.lower, k.upper) + 2;
    var r := Compressed(k);
    CutBounds(k, n);
    Transitive(r.lower, k.lower, x);
    if Le(x, k.upper) { CutUpper(k, n - 1, x); }
    if !Le(x, r.upper) { assert Agree(r.upper, x, |r.upper|); }
    if r.lower == r.upper { EqualBounds(k, x); }
    assert Reaches(r, x);
  }

  /** Cutting the hull of some values anywhere behind that loses none of them either. */
  lemma {:induction false} CutCovers(k: VarKey, cut: nat, x: Bytes)
    requires Ordered(k) && Le(k.lower, x) && Le(x, k.upper) && cut > Cp(k.lower, k.upper)
    ensures Ordered(NodeTruncate(k, cut)) && Covers(NodeTruncate(k, cut), x) && Reaches(NodeTruncate(k, cut), x)
  {
    var r := NodeTruncate(k, cut);
    CutBounds(k, cut + 1);
    Transitive(r.lower, k.lower, x);
    CutUpper(k, cut, x);
    if !Le(x, r.upper) { assert Agree(r.upper, x, |r.upper|); }
    if r.lower == r.upper { EqualBounds(k, x); }
  }

  /** An index tree: leaf entries, pages whose downlink key is the union over the page, and leaf pages
      whose key a split has made, the other side having got the hull `other`. */
  datatype Tree = Leaf(value: Bytes) | Page(entries: seq<Tree>) | Half(values: seq<Bytes>, other: VarKey)

  predicate WellFormed(t: Tree)
    decreases t
  {
    match t
    case Leaf(_) => true
    case Page(es) => es != [] && forall i | 0 <= i < |es| :: WellFormed(es[i])
    case Half(vs, _) => vs != []
  }

  function LeafKeys(values: seq<Bytes>): (r: seq<VarKey>)
    ensures |r| == |values| && forall i | 0 <= i < |r| :: r[i] == LeafKey(values[i])
  {
    seq(|values|, i requires 0 <= i < |values| => LeafKey(values[i]))
  }

  /** The key that a split leaves for one side of a leaf page. */
  function HalfKey(values: seq<Bytes>, other: VarKey): VarKey
    requires values != []
  {
    var span := Span(LeafKeys(values), |values|);
    NodeTruncate(span, SplitCut(span, other))
  }

  function Key(t: Tree): VarKey
    requires WellFormed(t)
    decreases t
  {
    match t
    case Leaf(x) => LeafKey(x)
    case Page(es) => Compressed(Span(seq(|es|, i requires 0 <= i < |es| => Key(es[i])), |es|))
    case Half(vs, other) => HalfKey(vs, other)
  }

  predicate Holds(t: Tree, x: Bytes)
    decreases t
  {
    match t
    case Leaf(v) => v == x
    case Page(es) => exists i | 0 <= i < |es| :: Holds(es[i], x)
    case Half(vs, _) => x in vs
  }

  lemma {:induction false} SpanOrdered(keys: seq<VarKey>, n: nat, i: nat)
    requires 0 < n <= |keys| && i < n && forall j | 0 <= j < |keys| :: Ordered(keys[j])
    ensures Ordered(Span(keys, n)) && Within(keys[i], Span(keys, n))
  {
    if n == 1 {
      Reflexive(keys[0].lower);
      Reflexive(keys[0].upper);
    } else {
      var init := Span(keys, n - 1);
      HullWithin(init, keys[n - 1]);
      WithinOrdered(keys[n - 1], Hull(init, keys[n - 1]));
      if i < n - 1 {
        SpanOrdered(keys, n - 1, i);
        Transitive(Span(keys, n).lower, init.lower, keys[i].lower);
        Transitive(keys[i].upper, init.upper, Span(keys, n).upper);
      }
    }
  }

  lemma {:induction false} KeyOrdered(t: Tree)
    requires WellFormed(t)
    ensures Ordered(Key(t))
    decreases t
  {
    match t
    case Leaf(x) => LeafCovers(x);
    case Page(es) =>
      var keys := seq(|es|, i requires 0 <= i < |es| => Key(es[i]));
      forall i | 0 <= i < |es| ensures Ordered(keys[i]) { KeyOrdered(es[i]); }
      SpanOrdered(keys, |es|, 0);
      var span := Span(keys, |es|);
      CutMonotone(span.lower, span.upper, Cp(span.lower, span.upper) + 2);
    case Half(vs, other) => HalfCovers(vs, other, 0);
  }

  /** The key of a split leaf page covers the values on it. */
  lemma {:induction false} HalfCovers(values: seq<Bytes>, other: VarKey, i: nat)
    requires i < |values|
    ensures var k := HalfKey(values, other); Ordered(k) && Covers(k, values[i]) && Reaches(k, values[i])
  {
    var keys := LeafKeys(values);
    forall j | 0 <= j < |keys| ensures Ordered(keys[j]) { LeafCovers(values[j]); }
    SpanOrdered(keys, |keys|, i);
    var span := Span(keys, |keys|);
    CutCovers(span, SplitCut(span, other), values[i]);
  }

  /** Every key of a tree, however often truncated and united again, covers every value below it. */
  lemma {:induction false} TreeCovers(t: Tree, x: Bytes)
    requires WellFormed(t) && Holds(t, x)
    ensures Ordered(Key(t)) && Covers(Key(t), x) && Reaches(Key(t), x)
    decreases t
  {
    KeyOrdered(t);
    match t
    case Leaf(v) => LeafCovers(x);
    case Page(es) =>
      var i :| 0 <= i < |es| && Holds(es[i], x);
      TreeCovers(es[i], x);
      var keys := seq(|es|, j requires 0 <= j < |es| => Key(es[j]));
      forall j | 0 <= j < |es| ensures Ordered(keys[j]) { KeyOrdered(es[j]); }
      SpanOrdered(keys, |es|, i);
      WithinCovers(keys[i], Span(keys, |es|), x);
      CompressedCovers(Span(keys, |es|), x);
    case Half(vs, other) =>
      var i :| 0 <= i < |vs| && vs[i] == x;
      HalfCovers(vs, other, i);
  }

  /** A GiST search: it enters a page only through a consistent key, and tests leaf entries. */
  predicate Finds(t: Tree, query: Bytes, strategy: Strategy, x: Bytes)
    requires WellFormed(t)
    decreases t
  {
    match t
    case Leaf(v) => v == x && Consistent(Key(t), query, strategy, true)
    case Page(es) =>
      Consistent(Key(t), query, strategy, false) && exists i | 0 <= i < |es| :: Finds(es[i], query, strategy, x)
    case Half(vs, _) =>
      Consistent(Key(t), query, strategy, false) && x in vs && Consistent(LeafKey(x), query, strategy, true)
  }

  /** Search is exact: it finds the values of the tree that satisfy the operator, all of them and no
      others, for all six operators, every query and every tree. */
  lemma {:induction false} SearchExact(t: Tree, query: Bytes, strategy: Strategy, x: Bytes)
    requires WellFormed(t)
    ensures Finds(t, query, strategy, x) <==> Holds(t, x) && Satisfies(x, query, strategy)
    decreases t
  {
    match t
    case Leaf(v) => LeafExact(v, query, strategy);
    case Page(es) =>
      forall i | 0 <= i < |es|
        ensures Finds(es[i], query, strategy, x) <==> Holds(es[i], x) && Satisfies(x, query, strategy)
      {
        SearchExact(es[i], query, strategy, x);
      }
      if Holds(t, x) && Satisfies(x, query, strategy) {
        TreeCovers(t, x);
        ReachedIsConsistent(Key(t), x, query, strategy);
        var i :| 0 <= i < |es| && Holds(es[i], x);
        assert Finds(es[i], query, strategy, x);
      }
    case Half(vs, _) =>
      LeafExact(x, query, strategy);
      if Holds(t, x) && Satisfies(x, query, strategy) {
        TreeCovers(t, x);
        ReachedIsConsistent(Key(t), x, query, strategy);
      }
  }

  // ---------------------------------------------------------------- picksplit

  /** The offsets are offsets of the entry vector. */
  predicate OffsetsIn(offs: seq<nat>, entryvec: seq<VarKey>) {
    forall i | 0 <= i < |offs| :: offs[i] < |entryvec|
  }

  /** The hull of the entries at offsets number `from` up to n. */
  function SpanAt(entryvec: seq<VarKey>, offs: seq<nat>, from: nat, n: nat): VarKey
    requires from < n <= |offs| && OffsetsIn(offs, entryvec)
  {
    if n == from + 1 then entryvec[offs[from]]
    else Hull(SpanAt(entryvec, offs, from, n - 1), entryvec[offs[n - 1]])
  }

  /** Offsets 1..maxoff, each once: what qsort_arg leaves of them. */
  predicate Arrangement(order: seq<nat>, maxoff: nat) {
    && |order| == maxoff
    && (forall i | 0 <= i < maxoff :: 1 <= order[i] <= maxoff)
    && (forall i, j | 0 <= i < j < maxoff :: order[i] != order[j])
    && (forall o | 1 <= o <= maxoff :: o in order)
  }

  /** gbt_var_picksplit, given the order in which its sort left the entries. */
  method PickSplit(entryvec: seq<VarKey>, order: seq<nat>)
    returns (left: seq<nat>, right: seq<nat>, ldatum: VarKey, rdatum: VarKey)
    requires |entryvec| >= 3 && Arrangement(order, |entryvec| - 1)
    ensures OffsetsIn(order, entryvec) && left + right == order && |left| == |order| / 2
    ensures var (l, r) := (SpanAt(entryvec, order, 0, |order| / 2), SpanAt(entryvec, order, |order| / 2, |order|));
            ldatum == NodeTruncate(l, SplitCut(l, r)) && rdatum == NodeTruncate(r, SplitCut(l, r))
  {
    left, right, ldatum, rdatum := Deal(entryvec, order);
    var ll := NodeCpLen(ldatum);
    var lr := NodeCpLen(rdatum);
    ll := if ll < lr then lr else ll;
    ll := ll + 1;
    ldatum, rdatum := NodeTruncate(ldatum, ll), NodeTruncate(rdatum, ll);
  }

  /** Its middle loop: the first half of the order to the left, the rest to the right. */
  method Deal(entryvec: seq<VarKey>, order: seq<nat>)
    returns (left: seq<nat>, right: seq<nat>, ldatum: VarKey, rdatum: VarKey)
    requires |order| >= 2 && OffsetsIn(order, entryvec)
    ensures left + right == order && |left| == |order| / 2
    ensures ldatum == SpanAt(entryvec, order, 0, |order| / 2)
    ensures rdatum == SpanAt(entryvec, order, |order| / 2, |order|)
  {
    var maxoff, half := |order|, |order| / 2;
    left, right := [], [];
    ldatum, rdatum := LeafKey([]), LeafKey([]);
    for i := 1 to maxoff + 1
      invariant |left| == (if i - 1 <= half then i - 1 else half)
      invariant left == order[0..|left|] && right == order[|left|..i - 1]
      invariant |left| > 0 ==> ldatum == SpanAt(entryvec, order, 0, |left|)
      invariant |right| > 0 ==> rdatum == SpanAt(entryvec, order, half, i - 1)
    {
      var cur := order[i - 1];
      if i <= half {
        if left == [] { ldatum := entryvec[cur]; } else { ldatum := BinUnion(ldatum, entryvec[cur]); }
        TakeOne(order, 0, i);
        left := left + [cur];
      } else {
        if right == [] { rdatum := entryvec[cur]; } else { rdatum := BinUnion(rdatum, entryvec[cur]); }
        TakeOne(order, half, i);
        right := right + [cur];
      }
    }
    assert order[0..half] + order[half..maxoff] == order;
  }

  lemma {:induction false} TakeOne(order: seq<nat>, from: nat, i: nat)
    requires from < i <= |order|
    ensures order[from..i] == order[from..i - 1] + [order[i - 1]]
  {
  }

  /** A side's hull is the hull of its members' keys. */
  lemma {:induction false} SpanAtKeys(entryvec: seq<VarKey>, offs: seq<nat>, from: nat, keys: seq<VarKey>, n: nat)
    requires from < n <= |offs| && n - from <= |keys| && OffsetsIn(offs, entryvec)
    requires forall i | 0 <= i < n - from :: keys[i] == entryvec[offs[from + i]]
    ensures SpanAt(entryvec, offs, from, n) == Span(keys, n - from)
  {
    if n > from + 1 { SpanAtKeys(entryvec, offs, from, keys, n - 1); }
  }

  /** The split deals out every entry once. */
  lemma {:induction false} SplitDeals(order: seq<nat>, maxoff: nat, left: seq<nat>, right: seq<nat>, o: nat)
    requires Arrangement(order, maxoff) && left + right == order && 1 <= o <= maxoff
    ensures o in left <==> o !in right
  {
    assert o in order;
    forall i, j | 0 <= i < |left| && 0 <= j < |right| ensures left[i] != right[j] {
      assert order[i] == left[i] && order[|left| + j] == right[j];
    }
  }

  /** Member key k allows values that the key of its side misses, when the hull of the side is cut. The
      upper bound of k stands for all values that begin with its prefix and two bytes more; the upper
      bound of the hull goes on after these, up to the cut, with bytes that are not all 255, and the
      lower bound of the hull is no prefix of them. */
  predicate Hides(k: VarKey, span: VarKey, cut: nat) {
    var n := Cp(k.lower, k.upper) + 2;
    && n <= |k.upper| && n <= cut
    && n < |span.upper| && Agree(k.upper, span.upper, n)
    && (exists j | n <= j < |span.upper| && j <= cut :: span.upper[j] != 255)
    && !(|span.lower| <= n && PrefixOf(span.lower, k.upper))
  }

  /** The same, said of the key that is cut already. */
  predicate HidesFrom(k: VarKey, side: VarKey) {
    var n := Cp(k.lower, k.upper) + 2;
    && n <= |k.upper|
    && n < |side.upper| && Agree(k.upper, side.upper, n)
    && (exists j | n <= j < |side.upper| :: side.upper[j] != 255)
    && !(|side.lower| <= n && PrefixOf(side.lower, k.upper))
  }

  lemma {:induction false} HidesMeans(k: VarKey, span: VarKey, cut: nat)
    ensures Hides(k, span, cut) <==> HidesFrom(k, NodeTruncate(span, cut))
  {
    var side, n := NodeTruncate(span, cut), Cp(k.lower, k.upper) + 2;
    assert forall j | 0 <= j < |side.upper| :: side.upper[j] == span.upper[j];
    if Hides(k, span, cut) {
      var j :| n <= j < |span.upper| && j <= cut && span.upper[j] != 255;
      assert side.upper[j] != 255;
      if |side.lower| <= n { assert side.lower == span.lower; }
    }
    if HidesFrom(k, side) {
      var j :| n <= j < |side.upper| && side.upper[j] != 255;
      assert span.upper[j] != 255;
      if |span.lower| <= n { assert side.lower == span.lower; }
    }
  }

  /** The key of a side admits every value that one of its members covers. */
  ghost predicate ReachesAll(side: VarKey, keys: seq<VarKey>) {
    forall i, x | 0 <= i < |keys| && Covers(keys[i], x) :: Reaches(side, x)
  }

  /** One side of a split admits every value its member keys allow, if and only if no member hides a
      value from it. The cut may be any that keeps two bytes behind the side's own prefix. */
  lemma {:induction false} SideAdmits(keys: seq<VarKey>, cut: nat)
    requires keys != [] && (forall i | 0 <= i < |keys| :: Ordered(keys[i]))
    requires Cp(Span(keys, |keys|).lower, Span(keys, |keys|).upper) < cut
    ensures var span := Span(keys, |keys|);
            ReachesAll(NodeTruncate(span, cut), keys) <==> forall i | 0 <= i < |keys| :: !Hides(keys[i], span, cut)
  {
    var span := Span(keys, |keys|);
    var side := NodeTruncate(span, cut);
    forall i | 0 <= i < |keys| ensures Hides(keys[i], span, cut) <==> HidesFrom(keys[i], side) {
      HidesMeans(keys[i], span, cut);
    }
    forall i, x | 0 <= i < |keys| && Covers(keys[i], x) && !HidesFrom(keys[i], side) ensures Reaches(side, x) {
      SpanOrdered(keys, |keys|, i);
      SideReaches(keys[i], span, cut, x);
    }
    forall i | 0 <= i < |keys| && HidesFrom(keys[i], side)
      ensures exists x :: Covers(keys[i], x) && !Reaches(side, x)
    {
      SpanOrdered(keys, |keys|, i);
      CutBounds(span, cut + 1);
      HiddenValue(keys[i], span, side);
    }
  }

  lemma {:induction false} SideReaches(k: VarKey, span: VarKey, cut: nat, x: Bytes)
    requires Ordered(k) && Ordered(span) && Within(k, span) && Covers(k, x)
    requires Cp(span.lower, span.upper) < cut && !HidesFrom(k, NodeTruncate(span, cut))
    ensures Reaches(NodeTruncate(span, cut), x)
  {
    var side := NodeTruncate(span, cut);
    CutBounds(span, cut + 1);
    Transitive(span.lower, k.lower, x);
    Transitive(side.lower, span.lower, x);
    if side.lower == side.upper { SideEqual(k, span, x); }
    SideUpper(k, span, cut, x);
  }

  lemma {:induction false} SideEqual(k: VarKey, span: VarKey, x: Bytes)
    requires Ordered(k) && Within(k, span) && Covers(k, x) && span.lower == span.upper
    ensures x == span.lower
  {
    Transitive(k.lower, k.upper, span.upper);
    Total(k.lower, span.lower);
    Transitive(span.lower, k.lower, k.upper);
    Total(k.upper, span.lower);
    EqualBounds(k, x);
  }

  lemma {:induction false} SideUpper(k: VarKey, span: VarKey, cut: nat, x: Bytes)
    requires Within(k, span) && Covers(k, x) && !HidesFrom(k, NodeTruncate(span, cut))
    ensures var side := NodeTruncate(span, cut); Le(x, side.upper) || PfMatch(side, x)
  {
    if Le(x, span.upper) {
      CutUpper(span, cut, x);
    } else {
      NotLe(x, span.upper);
      if Le(x, k.upper) { Transitive(x, k.upper, span.upper); }
      Between(k.upper, span.upper, x, Cp(k.lower, k.upper) + 2);
      SideBeyond(k, span, cut, x, Cp(k.lower, k.upper) + 2);
    }
  }

  lemma {:induction false} SideBeyond(k: VarKey, span: VarKey, cut: nat, x: Bytes, n: nat)
    requires n == Cp(k.lower, k.upper) + 2 && Agree(k.upper, x, n) && Agree(k.upper, span.upper, n)
    requires Le(span.upper, x) && !HidesFrom(k, NodeTruncate(span, cut))
    ensures PfMatch(NodeTruncate(span, cut), x)
  {
    var side := NodeTruncate(span, cut);
    CutLe(span.upper, cut + 1);
    Transitive(side.upper, span.upper, x);
    AboveAllOnes(side.upper, x, n);
    if |side.upper| > n {
      assert Agree(k.upper, side.upper, n);
    }
  }

  /** A string above one that ends in 255s, and equal to it before them, begins with it. */
  lemma {:induction false} AboveAllOnes(u: Bytes, x: Bytes, n: nat)
    requires Le(u, x)
    requires forall j | 0 <= j < n && j < |u| :: j < |x| && u[j] == x[j]
    ensures PrefixOf(u, x) || exists j | n <= j < |u| :: u[j] != 255
  {
    LeMeans(u, x);
  }

  lemma {:induction false} HiddenValue(k: VarKey, span: VarKey, side: VarKey)
    requires Ordered(k) && Within(k, span) && HidesFrom(k, side) && Le(side.lower, span.lower)
    ensures exists x :: Covers(k, x) && !Reaches(side, x)
  {
    var n := Cp(k.lower, k.upper) + 2;
    var x := k.upper[..n] + seq(|side.upper|, _ => 255);
    CpUnique(k.lower, x, n - 2);
    LeMeans(k.lower, x);
    LeMeans(k.lower, k.upper);
    assert Agree(k.upper, x, n);
    assert Covers(k, x);
    var j :| n <= j < |side.upper| && side.upper[j] != 255;
    assert x[j] == 255;
    assert !PrefixOf(side.upper, x);
    if Le(x, side.upper) { AllOnesAbove(side.upper, x, j, n); }
    if PrefixOf(side.lower, x) {
      LowerTooHigh(k, span, side, n);
    }
  }

  lemma {:induction false} AllOnesAbove(u: Bytes, x: Bytes, j: nat, n: nat)
    requires n <= j < |u| <= |x| && u[j] != 255
    requires (forall i | n <= i < |x| :: x[i] == 255) && (forall i | 0 <= i < n :: u[i] == x[i])
    ensures !Le(x, u)
  {
    LeMeans(x, u);
  }

  lemma {:induction false} LowerTooHigh(k: VarKey, span: VarKey, side: VarKey, n: nat)
    requires Ordered(k) && Within(k, span) && Le(side.lower, span.lower) && n == Cp(k.lower, k.upper) + 2 <= |k.upper|
    ensures !(n < |side.lower| && Agree(side.lower, k.upper, n))
  {
    if n < |side.lower| && Agree(side.lower, k.upper, n) {
      Transitive(side.lower, span.lower, k.lower);
      Between(side.lower, k.lower, k.upper, n);
      AgreeWithinCp(k.lower, k.upper, n);
    }
  }

  /** Said of what PickSplit returns for the entries number `from` up to n of the order: their side's
      key loses no value that one of them allows, if and only if none of them hides one, which can be
      seen from the entries. */
  lemma {:induction false} SplitAdmits(entryvec: seq<VarKey>, order: seq<nat>, from: nat, n: nat, other: VarKey)
    requires from < n <= |order| && OffsetsIn(order, entryvec)
    requires forall i | from <= i < n :: Ordered(entryvec[order[i]])
    ensures var span, keys := SpanAt(entryvec, order, from, n), Members(entryvec, order, from, n);
            var cut := SplitCut(span, other);
            ReachesAll(NodeTruncate(span, cut), keys) <==> forall i | 0 <= i < |keys| :: !Hides(keys[i], span, cut)
  {
    var keys := Members(entryvec, order, from, n);
    SpanAtKeys(entryvec, order, from, keys, n);
    SideAdmits(keys, SplitCut(Span(keys, |keys|), other));
  }

  /** The entries number `from` up to n of the order. */
  function Members(entryvec: seq<VarKey>, order: seq<nat>, from: nat, n: nat): (r: seq<VarKey>)
    requires from < n <= |order| && OffsetsIn(order, entryvec)
    ensures |r| == n - from && forall i | 0 <= i < |r| :: r[i] == entryvec[order[from + i]]
  {
    seq(n - from, i requires 0 <= i < n - from => entryvec[order[from + i]])
  }

  /** Leaf keys hide nothing, so a split of leaf entries loses nothing. */
  lemma {:induction false} LeavesHideNothing(x: Bytes, span: VarKey, cut: nat)
    ensures !Hides(LeafKey(x), span, cut)
  {
    CpUnique(x, x, |x|);
  }

  /** gbt_vsrt_cmp: by lower bound, then by upper bound. */
  predicate SortedAt(entryvec: seq<VarKey>, order: seq<nat>, i: nat)
    requires i + 1 < |order| && OffsetsIn(order, entryvec)
  {
    var a, b := entryvec[order[i]], entryvec[order[i + 1]];
    Lt(a.lower, b.lower) || (a.lower == b.lower && Le(a.upper, b.upper))
  }

  /** Strings of one length that differ in their last byte only. */
  predicate Neighbours(a: Bytes, b: Bytes) {
    var n := |a| - 1;
    n >= 0 && |b| == n + 1 && Agree(a, b, n) && a[n] < b[n]
  }

  /** A page of two such values has a key that keeps both of them whole. */
  lemma {:induction false} PairKey(a: Bytes, b: Bytes)
    requires Neighbours(a, b)
    ensures Lt(a, b) && Key(Page([Leaf(a), Leaf(b)])) == VarKey(a, b)
  {
    DifferAt(a, b, |a| - 1);
    CpUnique(a, b, |a| - 1);
    PairSpan(a, b);
  }

  /** The first difference decides. */
  lemma {:induction false} DifferAt(a: Bytes, b: Bytes, n: nat)
    requires n < |a| && n < |b| && Agree(a, b, n) && a[n] < b[n]
    ensures Lt(a, b) && Le(a, b)
  {
    CpUnique(a, b, n);
    CpUnique(b, a, n);
    LeMeans(a, b);
    LeMeans(b, a);
  }

  lemma {:induction false} PairSpan(a: Bytes, b: Bytes)
    requires Le(a, b)
    ensures Key(Page([Leaf(a), Leaf(b)])) == Compressed(VarKey(a, b))
  {
    var es := [Leaf(a), Leaf(b)];
    var keys := seq(|es|, i requires 0 <= i < |es| => Key(es[i]));
    assert keys == [LeafKey(a), LeafKey(b)];
    assert Span(keys, 1) == LeafKey(a);
    assert Span(keys, 2) == Hull(LeafKey(a), LeafKey(b));
    LtMeans(a, b);
    Total(a, b);
  }

  /** "a" and "bzz", "bza1" and "bza2", "zzzz1" and "zzzz2", "zzzz2" and "zzzz3". */
  const MISS_VALUES: seq<Bytes> := [
    [97], [98, 122, 122], [98, 122, 97, 49], [98, 122, 97, 50],
    [122, 122, 122, 122, 49], [122, 122, 122, 122, 50], [122, 122, 122, 122, 50], [122, 122, 122, 122, 51]]

  /** Page i of two values each. */
  function PairPage(values: seq<Bytes>, i: nat): (t: Tree)
    requires 2 * i + 1 < |values|
    ensures WellFormed(t)
  {
    Page([Leaf(values[2 * i]), Leaf(values[2 * i + 1])])
  }

  /** The key of the first is ("a", "bz"), those of the others are whole. */
  function MissKey(values: seq<Bytes>, i: nat): VarKey
    requires 2 * i + 1 < |values|
  {
    VarKey(values[2 * i], if i == 0 then [98, 122] else values[2 * i + 1])
  }

  lemma {:induction false} MissKeyIs(values: seq<Bytes>, i: nat)
    requires values == MISS_VALUES && i < 4
    ensures Key(PairPage(values, i)) == MissKey(values, i)
  {
    var a, b := values[2 * i], values[2 * i + 1];
    if i == 0 {
      FirstMissKey(a, b);
    } else {
      MissNeighbours(values, i);
      PairKey(a, b);
    }
  }

  lemma {:induction false} MissNeighbours(values: seq<Bytes>, i: nat)
    requires values == MISS_VALUES && 0 < i < 4
    ensures Neighbours(values[2 * i], values[2 * i + 1])
  {
  }

  lemma {:induction false} FirstMissKey(a: Bytes, b: Bytes)
    requires a == [97] && b == [98, 122, 122]
    ensures Key(Page([Leaf(a), Leaf(b)])) == VarKey(a, [98, 122])
  {
    DifferAt(a, b, 0);
    CpUnique(a, b, 0);
    PairSpan(a, b);
  }

  /** Truncated inner keys do hide values: a split of the keys of these four pages, which are in the order
      of the sort, leaves the left side with a key that misses "bzz", stored on the first page. */
  lemma {:induction false} SplitCanMiss(values: seq<Bytes>, entryvec: seq<VarKey>, order: seq<nat>)
    requires values == MISS_VALUES && |entryvec| == 5 && order == [1, 2, 3, 4]
    requires forall i | 0 <= i < 4 :: entryvec[order[i]] == Key(PairPage(values, i))
    ensures Holds(PairPage(values, 0), values[1])
    ensures Misses(entryvec, order, values[1])
  {
    assert Holds(PairPage(values, 0).entries[1], values[1]);
    forall i | 0 <= i < 4 ensures entryvec[order[i]] == MissKey(values, i) { MissKeyIs(values, i); }
    SplitMisses(values, entryvec, order);
  }

  /** The sort may leave this order, and then the key of the left side misses x. */
  predicate Misses(entryvec: seq<VarKey>, order: seq<nat>, x: Bytes) {
    && |order| == 4 && |entryvec| == 5 && Arrangement(order, 4) && OffsetsIn(order, entryvec)
    && (forall i | 0 <= i < 3 :: SortedAt(entryvec, order, i))
    && var (l, r) := (SpanAt(entryvec, order, 0, 2), SpanAt(entryvec, order, 2, 4));
       !Reaches(NodeTruncate(l, SplitCut(l, r)), x)
  }

  lemma {:induction false} SplitMisses(values: seq<Bytes>, entryvec: seq<VarKey>, order: seq<nat>)
    requires values == MISS_VALUES && |entryvec| == 5 && order == [1, 2, 3, 4]
    requires forall i | 0 <= i < 4 :: entryvec[order[i]] == MissKey(values, i)
    ensures Misses(entryvec, order, values[1])
  {
    MissArranged(order);
    var a, b, c, d := entryvec[1], entryvec[2], entryvec[3], entryvec[4];
    assert a == entryvec[order[0]] && b == entryvec[order[1]] && c == entryvec[order[2]] && d == entryvec[order[3]];
    MissSorted(values);
    MissSpans(values, a, b, c, d);
    assert SpanAt(entryvec, order, 0, 1) == a && SpanAt(entryvec, order, 2, 3) == c;
    MissedValue(Hull(a, b), Hull(c, d), values[1]);
  }

  lemma {:induction false} MissArranged(order: seq<nat>)
    requires order == [1, 2, 3, 4]
    ensures Arrangement(order, 4)
  {
    assert order[0] == 1 && order[1] == 2 && order[2] == 3 && order[3] == 4;
  }

  lemma {:induction false} MissSorted(values: seq<Bytes>)
    requires values == MISS_VALUES
    ensures Lt(values[0], values[2]) && Lt(values[2], values[4]) && Lt(values[4], values[6])
  {
    DifferAt(values[0], values[2], 0);
    DifferAt(values[2], values[4], 0);
    DifferAt(values[4], values[6], 4);
  }

  lemma {:induction false} MissSpans(values: seq<Bytes>, a: VarKey, b: VarKey, c: VarKey, d: VarKey)
    requires values == MISS_VALUES && a == VarKey(values[0], [98, 122]) && b == VarKey(values[2], values[3])
    requires c == VarKey(values[4], values[5]) && d == VarKey(values[6], values[7])
    ensures Hull(a, b) == VarKey(values[0], values[3]) && Hull(c, d) == VarKey(values[4], values[7])
  {
    MissSorted(values);
    PrefixLe(a.upper, b.upper);
    LtMeans(a.upper, b.upper);
    DifferAt(c.upper, d.upper, 4);
    LtMeans(a.lower, b.lower);
    LtMeans(c.lower, d.lower);
  }

  lemma {:induction false} MissedValue(l: VarKey, r: VarKey, x: Bytes)
    requires l == VarKey([97], [98, 122, 97, 50]) && x == [98, 122, 122]
    requires r == VarKey([122, 122, 122, 122, 49], [122, 122, 122, 122, 51])
    ensures !Reaches(NodeTruncate(l, SplitCut(l, r)), x)
  {
    CpUnique(l.lower, l.upper, 0);
    CpUnique(r.lower, r.upper, 4);
    assert NodeTruncate(l, 5) == l;
    DifferAt(l.upper, x, 2);
  }
}
