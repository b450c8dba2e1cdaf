/** The order of byte strings and of index keys: by the first difference, a proper prefix first. */
module Lex {

  /** The length of the longest common prefix. */
  function Cp(a: seq<int>, b: seq<int>): (c: nat)
    ensures c <= |a| && c <= |b|
    ensures forall i | 0 <= i < c :: a[i] == b[i]
    ensures c < |a| && c < |b| ==> a[c] != b[c]
  {
    CpFrom(a, b, 0)
  }

  function CpFrom(a: seq<int>, b: seq<int>, k: nat): (c: nat)
    requires k <= |a| && k <= |b| && forall i | 0 <= i < k :: a[i] == b[i]
    ensures k <= c <= |a| && c <= |b|
    ensures forall i | 0 <= i < c :: a[i] == b[i]
    ensures c < |a| && c < |b| ==> a[c] != b[c]
    decreases |a| - k
  {
    if k < |a| && k < |b| && a[k] == b[k] then CpFrom(a, b, k + 1) else k
  }

  predicate Le(a: seq<int>, b: seq<int>) {
    LeFrom(a, b, 0)
  }

  predicate LeFrom(a: seq<int>, b: seq<int>, k: nat)
    decreases |a| - k
  {
    if k >= |a| then true
    else if k >= |b| then false
    else if a[k] != b[k] then a[k] < b[k]
    else LeFrom(a, b, k + 1)
  }

  /** The first difference decides. */
  predicate LeAt(a: seq<int>, b: seq<int>, c: nat) {
    c == |a| || (c < |a| && c < |b| && a[c] < b[c])
  }

  lemma {:induction false} LeMeans(a: seq<int>, b: seq<int>)
    ensures Le(a, b) <==> LeAt(a, b, Cp(a, b))
  {
    LeFromMeans(a, b, 0);
  }

  lemma {:induction false} LeFromMeans(a: seq<int>, b: seq<int>, k: nat)
    requires k <= Cp(a, b)
    ensures LeFrom(a, b, k) <==> LeAt(a, b, Cp(a, b))
    decreases |a| - k
  {
    if k < |a| && k < |b| && a[k] == b[k] {
      LeFromMeans(a, b, k + 1);
    }
  }

  predicate Lt(a: seq<int>, b: seq<int>) {
    !Le(b, a)
  }

  lemma {:induction false} LtMeans(a: seq<int>, b: seq<int>)
    ensures Lt(a, b) <==> Le(a, b) && a != b
  {
    Total(a, b);
    Reflexive(a);
  }

  /** Both are at least n long and begin with the same n elements. */
  predicate Agree(a: seq<int>, b: seq<int>, n: nat) {
    n <= |a| && n <= |b| && forall i | 0 <= i < n :: a[i] == b[i]
  }

  predicate PrefixOf(a: seq<int>, b: seq<int>) {
    Agree(a, b, |a|)
  }

  /** The common prefix is determined by what it promises. */
  lemma {:induction false} CpUnique(a: seq<int>, b: seq<int>, n: nat)
    requires Agree(a, b, n) && (n < |a| && n < |b| ==> a[n] != b[n])
    ensures Cp(a, b) == n
  {
  }

  lemma {:induction false} AgreeWithinCp(a: seq<int>, b: seq<int>, n: nat)
    requires Agree(a, b, n)
    ensures n <= Cp(a, b)
  {
  }

  lemma {:induction false} Total(a: seq<int>, b: seq<int>)
    ensures Le(a, b) || Le(b, a)
    ensures Le(a, b) && Le(b, a) ==> a == b
  {
    var c := Cp(a, b);
    CpUnique(b, a, c);
    LeMeans(a, b);
    LeMeans(b, a);
  }

  lemma {:induction false} Reflexive(a: seq<int>)
    ensures Le(a, a)
  {
    CpUnique(a, a, |a|);
    LeMeans(a, a);
  }

  lemma {:induction false} Transitive(a: seq<int>, b: seq<int>, c: seq<int>)
    requires Le(a, b) && Le(b, c)
    ensures Le(a, c)
  {
    var i, j := Cp(a, b), Cp(b, c);
    LeMeans(a, b);
    LeMeans(b, c);
    LeMeans(a, c);
    if i < j {
      if i < |a| { assert b[i] == c[i]; CpUnique(a, c, i); } else { AgreeWithinCp(a, c, i); }
    } else if j < i {
      if j < |b| { assert a[j] == b[j]; CpUnique(a, c, j); }
    } else if i < |a| {
      CpUnique(a, c, i);
    } else {
      AgreeWithinCp(a, c, i);
    }
  }

  lemma {:induction false} TransitiveLt(a: seq<int>, b: seq<int>, c: seq<int>)
    requires (Lt(a, b) && (Lt(b, c) || Le(b, c))) || (Le(a, b) && Lt(b, c))
    ensures Lt(a, c)
  {
    Total(a, b);
    Total(b, c);
    if Le(c, a) {
      if Lt(a, b) { Transitive(b, c, a); } else { Transitive(c, a, b); }
    }
  }

  lemma {:induction false} NotLe(a: seq<int>, b: seq<int>)
    requires !Le(a, b)
    ensures Le(b, a) && a != b
  {
    LtMeans(b, a);
  }

  /** Everything between two strings shares the elements they share. */
  lemma {:induction false} Between(a: seq<int>, b: seq<int>, c: seq<int>, n: nat)
    requires Le(a, b) && Le(b, c) && Agree(a, c, n)
    ensures Agree(a, b, n) && Agree(b, c, n)
  {
    LeMeans(a, b);
    LeMeans(b, c);
  }

  lemma {:induction false} PrefixLe(a: seq<int>, b: seq<int>)
    requires PrefixOf(a, b)
    ensures Le(a, b)
  {
    AgreeWithinCp(a, b, |a|);
    LeMeans(a, b);
  }

  /** The first n elements, or all of them. */
  function Cut<T>(s: seq<T>, n: nat): (r: seq<T>) {
    if |s| <= n then s else s[..n]
  }

  /** Cutting at the same length keeps the order. */
  lemma {:induction false} CutMonotone(a: seq<int>, b: seq<int>, n: nat)
    requires Le(a, b)
    ensures Le(Cut(a, n), Cut(b, n))
  {
    var c := Cp(a, b);
    LeMeans(a, b);
    LeMeans(Cut(a, n), Cut(b, n));
    if c < n {
      CpUnique(Cut(a, n), Cut(b, n), c);
    } else {
      AgreeWithinCp(Cut(a, n), Cut(b, n), n);
    }
  }

  lemma {:induction false} CutLe(a: seq<int>, n: nat)
    ensures PrefixOf(Cut(a, n), a) && Le(Cut(a, n), a)
  {
    PrefixLe(Cut(a, n), a);
  }
}
