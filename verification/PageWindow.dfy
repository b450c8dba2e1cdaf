/** The life of the page-table window (paging.cc): the window's pages are remapped to the buffer's last
    level of page tables, the buffer's entries are backed up, edited through the window, and everything
    is put back. */
module PageWindow {
  import opened PageTable

  /** The word that holds the last-level entry of window page i. */
  function WLeaf(m: Memory, lay: Layout, i: nat): nat {
    Slot(m, lay.cr3, lay.WindowPage(i), 0)
  }

  /** The entry that points to the buffer's i-th last-level table. */
  function Pde(m: Memory, lay: Layout, i: nat): nat {
    Entry(m, lay.cr3, lay.RegionStart(i), 1)
  }

  /** The word of that table for page k of the buffer. */
  function BLeaf(m: Memory, lay: Layout, k: nat): nat {
    Frame(Pde(m, lay, (lay.Offset() + k) / PTE_PER_PDE)) + 8 * ((lay.Offset() + k) % PTE_PER_PDE)
  }

  /** It is the last-level entry of that page. */
  lemma {:induction false} BLeafIsLeaf(m: Memory, lay: Layout, k: nat)
    requires lay.bigbuf % PAGE == 0
    ensures BLeaf(m, lay, k) == Slot(m, lay.cr3, lay.bigbuf + k * PAGE, 0)
  {
    var v, w := lay.bigbuf + k * PAGE, lay.RegionStart((lay.Offset() + k) / PTE_PER_PDE);
    var p := lay.bigbuf / PAGE;
    assert lay.bigbuf == p * PAGE && v / PAGE == p + k;
    assert lay.bigbuf / REGION == p / 512;
    assert w / PAGE == (p + k) / 512 * 512;
    RegionWalk(m, lay.cr3, v, w, 1);
    assert Index(v, 0) == (p + k) % 512 == (lay.Offset() + k) % 512;
  }

  /** Addresses of one region have the same walk down to its table. */
  lemma {:induction false} RegionWalk(m: Memory, cr3: nat, v: nat, w: nat, l: nat)
    requires 1 <= l < 4 && v / PAGE / 512 == w / PAGE / 512
    ensures Table(m, cr3, v, l) == Table(m, cr3, w, l) && Entry(m, cr3, v, l) == Entry(m, cr3, w, l)
    decreases 4 - l
  {
    RegionIndex(v, w, l);
    if l < 3 { RegionWalk(m, cr3, v, w, l + 1); }
  }

  lemma {:induction false} RegionIndex(v: nat, w: nat, l: nat)
    requires 1 <= l < 4 && v / PAGE / 512 == w / PAGE / 512
    ensures Index(v, l) == Index(w, l)
  {
    DivDiv(v, Reach(l));
    DivDiv(w, Reach(l));
    var a, b := v / PAGE, w / PAGE;
    assert a / Reach(l) == a / 512 / (Reach(l) / 512) && b / Reach(l) == b / 512 / (Reach(l) / 512);
  }

  // ---------------------------------------------------------------- well-formed page tables

  /** The words that the program writes: the last-level entries of the window's pages and of the
      buffer's; and the entries that point to the buffer's last-level tables. */
  datatype Plan = Plan(w: seq<nat>, b: seq<nat>, pde: seq<nat>) {
    predicate Touches(a: nat) {
      a in w || a in b
    }

    /** All of them are distinct words of memory. */
    predicate Apart(m: Memory) {
      && (forall i | 0 <= i < |w| :: w[i] in m) && (forall k | 0 <= k < |b| :: b[k] in m)
      && (forall i, j | 0 <= i < j < |w| :: w[i] != w[j]) && (forall k, j | 0 <= k < j < |b| :: b[k] != b[j])
      && (forall i, k | 0 <= i < |w| && 0 <= k < |b| :: w[i] != b[k])
    }
  }

  /** The upper levels of the walk for v exist, and the program writes none of their words. */
  predicate UpperFine(m: Memory, cr3: nat, plan: Plan, v: nat) {
    && Canonical(v) && Passes(m, cr3, v, 3) && Passes(m, cr3, v, 2) && !Large(Entry(m, cr3, v, 1))
    && !plan.Touches(Slot(m, cr3, v, 3)) && !plan.Touches(Slot(m, cr3, v, 2)) && !plan.Touches(Slot(m, cr3, v, 1))
  }

  /** Window page i and region i, as the plan has them. */
  predicate WindowFine(m: Memory, lay: Layout, plan: Plan, i: nat)
    requires i < |plan.w| == |plan.pde|
  {
    && UpperFine(m, lay.cr3, plan, lay.WindowPage(i)) && Present(Entry(m, lay.cr3, lay.WindowPage(i), 1))
    && UpperFine(m, lay.cr3, plan, lay.RegionStart(i))
    && plan.w[i] == WLeaf(m, lay, i) && plan.pde[i] == Pde(m, lay, i)
  }

  predicate BufferFine(m: Memory, lay: Layout, plan: Plan, k: nat)
    requires k < |plan.b|
  {
    && Present(Pde(m, lay, (lay.Offset() + k) / PTE_PER_PDE)) && Canonical(lay.PPte(k))
    && plan.b[k] == BLeaf(m, lay, k)
  }

  /** A page-table tree of 4 KB pages whose last-level entries for the two buffers are distinct words,
      namely the plan's, and no words of its upper levels. */
  predicate WellFormed(m: Memory, lay: Layout, plan: Plan) {
    && lay.window % PAGE == 0 && lay.bigbuf % PAGE == 0
    && |plan.w| == |plan.pde| == NumPde(lay.asize) && |plan.b| == lay.asize && plan.Apart(m)
    && (forall i | 0 <= i < |plan.w| :: WindowFine(m, lay, plan, i))
    && (forall k | 0 <= k < |plan.b| :: BufferFine(m, lay, plan, k))
  }

  /** A buffer of one page at 2 MB, a window at 0, and memory that maps them. */
  predicate Smallest(m: Memory, lay: Layout, plan: Plan) {
    && lay == Layout(0x10000, 0x20_0000, 0, 1) && plan == Plan([0x13000], [0x14000], [0x14001])
    && 0x13000 in m && 0x14000 in m
    && Read(m, 0x10000) == 0x11001 && Read(m, 0x11000) == 0x12001
    && Read(m, 0x12000) == 0x13001 && Read(m, 0x12008) == 0x14001
  }

  lemma {:induction false} SmallestIndices()
    ensures Index(0, 3) == 0 && Index(0, 2) == 0 && Index(0, 1) == 0 && Index(0, 0) == 0
    ensures Index(0x20_0000, 3) == 0 && Index(0x20_0000, 2) == 0 && Index(0x20_0000, 1) == 1
    ensures Frame(0x11001) == 0x11000 && Frame(0x12001) == 0x12000
    ensures Frame(0x13001) == 0x13000 && Frame(0x14001) == 0x14000
  {
  }

  lemma {:induction false} SmallestWindow(m: Memory, lay: Layout, plan: Plan)
    requires Smallest(m, lay, plan)
    ensures UpperFine(m, lay.cr3, plan, 0) && Entry(m, lay.cr3, 0, 1) == 0x13001 && Slot(m, lay.cr3, 0, 0) == 0x13000
  {
    SmallestIndices();
    assert Table(m, lay.cr3, 0, 3) == 0x10000;
    assert Table(m, lay.cr3, 0, 2) == 0x11000;
    assert Table(m, lay.cr3, 0, 1) == 0x12000;
    assert Table(m, lay.cr3, 0, 0) == 0x13000;
  }

  lemma {:induction false} SmallestBuffer(m: Memory, lay: Layout, plan: Plan)
    requires Smallest(m, lay, plan)
    ensures UpperFine(m, lay.cr3, plan, 0x20_0000) && Entry(m, lay.cr3, 0x20_0000, 1) == 0x14001
  {
    SmallestIndices();
    assert Table(m, lay.cr3, 0x20_0000, 3) == 0x10000;
    assert Table(m, lay.cr3, 0x20_0000, 2) == 0x11000;
    assert Table(m, lay.cr3, 0x20_0000, 1) == 0x12000;
  }

  lemma {:induction false} SmallestWindowFine(m: Memory, lay: Layout, plan: Plan)
    requires Smallest(m, lay, plan)
    ensures WindowFine(m, lay, plan, 0)
  {
    SmallestWindow(m, lay, plan);
    SmallestBuffer(m, lay, plan);
    assert lay.WindowPage(0) == 0 && lay.RegionStart(0) == 0x20_0000;
  }

  lemma {:induction false} SmallestBufferFine(m: Memory, lay: Layout, plan: Plan)
    requires Smallest(m, lay, plan)
    ensures BufferFine(m, lay, plan, 0)
  {
    SmallestBuffer(m, lay, plan);
    SmallestIndices();
    assert lay.Offset() == 0 && lay.RegionStart(0) == 0x20_0000;
    assert Pde(m, lay, 0) == 0x14001;
  }

  /** Such memory is a well-formed tree. */
  lemma {:induction false} WellFormedTree(m: Memory, lay: Layout, plan: Plan)
    requires Smallest(m, lay, plan)
    ensures WellFormed(m, lay, plan)
  {
    forall i | 0 <= i < |plan.w| ensures WindowFine(m, lay, plan, i) {
      SmallestWindowFine(m, lay, plan);
      assert i == 0;
    }
    forall k | 0 <= k < |plan.b| ensures BufferFine(m, lay, plan, k) {
      SmallestBufferFine(m, lay, plan);
      assert k == 0;
    }
  }

  /** Memory differs from m0 in words of the plan at most. */
  predicate Within(m0: Memory, m: Memory, plan: Plan) {
    m.Keys == m0.Keys && forall a | a in m0 && !plan.Touches(a) :: m[a] == m0[a]
  }

  /** Then walks come to the same last-level words as before. */
  lemma {:induction false} SameUpper(m0: Memory, m: Memory, cr3: nat, plan: Plan, v: nat)
    requires Within(m0, m, plan) && UpperFine(m0, cr3, plan, v)
    ensures forall l | 1 <= l < 4 :: Entry(m, cr3, v, l) == Entry(m0, cr3, v, l)
    ensures Slot(m, cr3, v, 0) == Slot(m0, cr3, v, 0)
  {
    assert Slot(m, cr3, v, 3) == Slot(m0, cr3, v, 3);
    assert Entry(m, cr3, v, 3) == Entry(m0, cr3, v, 3);
    assert Slot(m, cr3, v, 2) == Slot(m0, cr3, v, 2);
    assert Entry(m, cr3, v, 2) == Entry(m0, cr3, v, 2);
    assert Slot(m, cr3, v, 1) == Slot(m0, cr3, v, 1);
    assert Entry(m, cr3, v, 1) == Entry(m0, cr3, v, 1);
  }

  /** So a level-2 lookup finds what it would have found at the start. */
  lemma {:induction false} Level2(m0: Memory, m: Memory, cr3: nat, plan: Plan, v: nat)
    requires Within(m0, m, plan) && UpperFine(m0, cr3, plan, v)
    ensures Translated(m, cr3, v, 2) == Value(Entry(m0, cr3, v, 1))
  {
    SameUpper(m0, m, cr3, plan, v);
    forall l | 0 <= l < 4 && l >= 2 ensures Passes(m, cr3, v, l) {
      assert Entry(m, cr3, v, l) == Entry(m0, cr3, v, l);
      assert Passes(m0, cr3, v, l);
    }
    assert Entry(m, cr3, v, 1) == Entry(m0, cr3, v, 1);
  }

  /** What change_pte and translate do for window page i and region i. */
  lemma {:induction false} PlanLookups(m0: Memory, m: Memory, lay: Layout, plan: Plan, i: nat)
    requires i < |plan.w| == |plan.pde| && Within(m0, m, plan) && WindowFine(m0, lay, plan, i)
    ensures Translated(m, lay.cr3, lay.RegionStart(i), 2) == Value(plan.pde[i])
    ensures Translated(m, lay.cr3, lay.WindowPage(i), 2).Value?
    ensures Frame(Translated(m, lay.cr3, lay.WindowPage(i), 2).value) + 8 * Index(lay.WindowPage(i), 0) == plan.w[i]
  {
    Level2(m0, m, lay.cr3, plan, lay.RegionStart(i));
    Level2(m0, m, lay.cr3, plan, lay.WindowPage(i));
  }

  /** A walk of which all entries are known. */
  lemma {:induction false} Level0(m: Memory, cr3: nat, v: nat, w: nat)
    requires v / PAGE == w / PAGE && Canonical(v) && forall l | 0 <= l < 4 :: Passes(m, cr3, w, l)
    ensures Translated(m, cr3, v, 0) == Value(Frame(Entry(m, cr3, w, 0)) + v % PAGE)
  {
    forall l | 0 <= l < 4 ensures Passes(m, cr3, v, l) && Entry(m, cr3, v, l) == Entry(m, cr3, w, l) {
      SameWalk(m, cr3, v, w, l);
      assert Passes(m, cr3, w, l);
    }
  }

  /** A window page passes on all levels when its last-level entry is present. */
  lemma {:induction false} WindowPasses(m0: Memory, m: Memory, cr3: nat, plan: Plan, w: nat)
    requires Within(m0, m, plan) && UpperFine(m0, cr3, plan, w) && Present(Entry(m0, cr3, w, 1))
    requires Present(Read(m, Slot(m0, cr3, w, 0)))
    ensures forall l | 0 <= l < 4 :: Passes(m, cr3, w, l)
    ensures Entry(m, cr3, w, 0) == Read(m, Slot(m0, cr3, w, 0))
  {
    SameUpper(m0, m, cr3, plan, w);
    assert Entry(m, cr3, w, 0) == Read(m, Slot(m0, cr3, w, 0));
    assert Entry(m, cr3, w, 3) == Entry(m0, cr3, w, 3) && Passes(m0, cr3, w, 3);
    assert Entry(m, cr3, w, 2) == Entry(m0, cr3, w, 2) && Passes(m0, cr3, w, 2);
    assert Entry(m, cr3, w, 1) == Entry(m0, cr3, w, 1);
    assert Passes(m, cr3, w, 0) && Passes(m, cr3, w, 1) && Passes(m, cr3, w, 2) && Passes(m, cr3, w, 3);
  }

  /** Through a remapped window page, p_pte[k] is the buffer's entry k. */
  lemma {:induction false} WindowReaches(m0: Memory, m: Memory, lay: Layout, plan: Plan, k: nat, i: nat)
    requires Within(m0, m, plan) && lay.window % PAGE == 0
    requires i == (lay.Offset() + k) / PTE_PER_PDE < |plan.w| == |plan.pde|
    requires k < |plan.b| && WindowFine(m0, lay, plan, i) && BufferFine(m0, lay, plan, k)
    requires Read(m, plan.w[i]) == plan.pde[i]
    ensures Translated(m, lay.cr3, lay.PPte(k), 0) == Value(plan.b[k])
  {
    PPtePage(lay, k);
    WindowPasses(m0, m, lay.cr3, plan, lay.WindowPage(i));
    Level0(m, lay.cr3, lay.PPte(k), lay.WindowPage(i));
  }

  // ---------------------------------------------------------------- the phases

  /** The window's first n pages show the buffer's tables, the others what they showed before. */
  predicate Shown(m0: Memory, m: Memory, plan: Plan, n: nat)
    requires |plan.w| == |plan.pde|
  {
    && Within(m0, m, plan)
    && forall i | 0 <= i < |plan.w| :: Read(m, plan.w[i]) == if i < n then plan.pde[i] else Read(m0, plan.w[i])
  }

  /** The first n of the given words are as at the start. */
  predicate AsBefore(m0: Memory, m: Memory, words: seq<nat>, n: nat)
    requires n <= |words|
  {
    forall k | 0 <= k < n :: Read(m, words[k]) == Read(m0, words[k])
  }

  /** Writing the entry of window page n. */
  lemma {:induction false} WriteWindow(m0: Memory, m: Memory, plan: Plan, n: nat)
    requires plan.Apart(m0) && n < |plan.w| == |plan.pde| && Shown(m0, m, plan, n) && AsBefore(m0, m, plan.b, |plan.b|)
    ensures Shown(m0, m[plan.w[n] := plan.pde[n]], plan, n + 1)
    ensures AsBefore(m0, m[plan.w[n] := plan.pde[n]], plan.b, |plan.b|)
  {
    var m' := m[plan.w[n] := plan.pde[n]];
    assert m'.Keys == m.Keys;
    forall i | 0 <= i < |plan.w| ensures Read(m', plan.w[i]) == if i < n + 1 then plan.pde[i] else Read(m0, plan.w[i]) {
      if i < n { assert plan.w[i] != plan.w[n]; }
      if n < i { assert plan.w[n] != plan.w[i]; }
    }
  }

  /** Writing the entry of buffer page k through the window. */
  lemma {:induction false} WriteBuffer(m0: Memory, m: Memory, plan: Plan, k: nat, x: nat)
    requires plan.Apart(m0) && |plan.w| == |plan.pde| && k < |plan.b| && Shown(m0, m, plan, |plan.w|)
    ensures Shown(m0, m[plan.b[k] := x], plan, |plan.w|)
    ensures AsBefore(m0, m, plan.b, k) && x == Read(m0, plan.b[k]) ==> AsBefore(m0, m[plan.b[k] := x], plan.b, k + 1)
  {
    var m' := m[plan.b[k] := x];
    assert m'.Keys == m.Keys;
    forall i | 0 <= i < |plan.w| ensures Read(m', plan.w[i]) == plan.pde[i] {
      assert plan.w[i] != plan.b[k];
    }
    if AsBefore(m0, m, plan.b, k) && x == Read(m0, plan.b[k]) {
      forall j | 0 <= j < k + 1 ensures Read(m', plan.b[j]) == Read(m0, plan.b[j]) {
        if j < k { assert plan.b[j] != plan.b[k]; }
      }
    }
  }

  /** Writing back the entry of window page n. */
  lemma {:induction false} WriteBack(m0: Memory, m: Memory, plan: Plan, n: nat)
    requires plan.Apart(m0) && n < |plan.w| && Within(m0, m, plan)
    requires AsBefore(m0, m, plan.w, n) && AsBefore(m0, m, plan.b, |plan.b|)
    ensures var m' := m[plan.w[n] := Read(m0, plan.w[n])];
            Within(m0, m', plan) && AsBefore(m0, m', plan.w, n + 1) && AsBefore(m0, m', plan.b, |plan.b|)
  {
    var m' := m[plan.w[n] := Read(m0, plan.w[n])];
    assert m'.Keys == m.Keys;
    forall i | 0 <= i < n + 1 ensures Read(m', plan.w[i]) == Read(m0, plan.w[i]) {
      if i < n { assert plan.w[i] != plan.w[n]; }
    }
  }

  /** Where p_pte[k] is while the whole window is mapped. */
  lemma {:induction false} ShownReaches(m0: Memory, m: Memory, lay: Layout, plan: Plan, k: nat)
    requires WellFormed(m0, lay, plan) && k < lay.asize && Shown(m0, m, plan, |plan.w|)
    ensures Translated(m, lay.cr3, lay.PPte(k), 0) == Value(plan.b[k])
  {
    var i := (lay.Offset() + k) / PTE_PER_PDE;
    WindowSuffices(lay, k);
    assert WindowFine(m0, lay, plan, i) && BufferFine(m0, lay, plan, k);
    WindowReaches(m0, m, lay, plan, k, i);
  }

  /** All put back is all as it was. */
  lemma {:induction false} PutBack(m0: Memory, m: Memory, plan: Plan)
    requires plan.Apart(m0) && Within(m0, m, plan) && AsBefore(m0, m, plan.w, |plan.w|)
    requires AsBefore(m0, m, plan.b, |plan.b|)
    ensures m == m0
  {
    forall a | a in m0 ensures m[a] == m0[a] {
      if a in plan.w {
        var i :| 0 <= i < |plan.w| && plan.w[i] == a;
        assert Read(m, plan.w[i]) == Read(m0, plan.w[i]);
      } else if a in plan.b {
        var k :| 0 <= k < |plan.b| && plan.b[k] == a;
        assert Read(m, plan.b[k]) == Read(m0, plan.b[k]);
      }
    }
  }

  /** Set-up: each window page is remapped; the old entries are returned. */
  method SetUp(machine: Machine, lay: Layout, ghost plan: Plan) returns (oldPgmapPtes: seq<nat>)
    requires lay.cr3 == machine.cr3 && WellFormed(machine.mem, lay, plan)
    modifies machine
    ensures Shown(old(machine.mem), machine.mem, plan, |plan.w|)
    ensures AsBefore(old(machine.mem), machine.mem, plan.b, |plan.b|)
    ensures |oldPgmapPtes| == |plan.w|
    ensures forall i | 0 <= i < |plan.w| :: oldPgmapPtes[i] == Read(old(machine.mem), plan.w[i])
  {
    ghost var m0 := machine.mem;
    oldPgmapPtes := [];
    var n := NumPde(lay.asize);
    var i := 0;
    while i < n
      invariant 0 <= i <= n && |oldPgmapPtes| == i
      invariant Shown(m0, machine.mem, plan, i) && AsBefore(m0, machine.mem, plan.b, |plan.b|)
      invariant forall j | 0 <= j < i :: oldPgmapPtes[j] == Read(m0, plan.w[j])
    {
      assert WindowFine(m0, lay, plan, i);
      PlanLookups(m0, machine.mem, lay, plan, i);
      WriteWindow(m0, machine.mem, plan, i);
      var pde := machine.Translate(lay.RegionStart(i), 2);
      var was := machine.ChangePte(lay.WindowPage(i), pde.value);
      oldPgmapPtes := oldPgmapPtes + [was.value];
      i := i + 1;
    }
  }

  /** The backup of the entries that the window shows. */
  method BackUp(machine: Machine, lay: Layout, ghost plan: Plan, ghost m0: Memory) returns (oldPagetable: seq<nat>)
    requires lay.cr3 == machine.cr3 && WellFormed(m0, lay, plan) && Shown(m0, machine.mem, plan, |plan.w|)
    requires AsBefore(m0, machine.mem, plan.b, |plan.b|)
    ensures |oldPagetable| == lay.asize && forall k | 0 <= k < lay.asize :: oldPagetable[k] == Read(m0, plan.b[k])
  {
    oldPagetable := [];
    var i := 0;
    while i < lay.asize
      invariant 0 <= i <= lay.asize && |oldPagetable| == i
      invariant forall k | 0 <= k < i :: oldPagetable[k] == Read(m0, plan.b[k])
    {
      ShownReaches(m0, machine.mem, lay, plan, i);
      var pte := machine.Load(lay.PPte(i));
      oldPagetable := oldPagetable + [pte];
      i := i + 1;
    }
  }

  /** Any stores through p_pte[0..asize). */
  method Tinker(machine: Machine, lay: Layout, stores: seq<(nat, nat)>, ghost plan: Plan, ghost m0: Memory)
    requires lay.cr3 == machine.cr3 && WellFormed(m0, lay, plan) && Shown(m0, machine.mem, plan, |plan.w|)
    requires forall s | 0 <= s < |stores| :: stores[s].0 < lay.asize
    modifies machine
    ensures Shown(m0, machine.mem, plan, |plan.w|)
  {
    for s := 0 to |stores|
      invariant Shown(m0, machine.mem, plan, |plan.w|)
    {
      ShownReaches(m0, machine.mem, lay, plan, stores[s].0);
      WriteBuffer(m0, machine.mem, plan, stores[s].0, stores[s].1);
      machine.Store(lay.PPte(stores[s].0), stores[s].1);
    }
  }

  /** The first loop of the clean-up: the buffer's entries, through the window. */
  method RestoreBuffer(machine: Machine, lay: Layout, oldPagetable: seq<nat>, ghost plan: Plan, ghost m0: Memory)
    requires lay.cr3 == machine.cr3 && WellFormed(m0, lay, plan) && Shown(m0, machine.mem, plan, |plan.w|)
    requires |oldPagetable| == lay.asize && forall k | 0 <= k < lay.asize :: oldPagetable[k] == Read(m0, plan.b[k])
    modifies machine
    ensures Within(m0, machine.mem, plan) && AsBefore(m0, machine.mem, plan.b, |plan.b|)
  {
    for i := 0 to lay.asize
      invariant Shown(m0, machine.mem, plan, |plan.w|) && AsBefore(m0, machine.mem, plan.b, i)
    {
      ShownReaches(m0, machine.mem, lay, plan, i);
      WriteBuffer(m0, machine.mem, plan, i, oldPagetable[i]);
      machine.Store(lay.PPte(i), oldPagetable[i]);
    }
  }

  /** Its second loop: the window's own entries. */
  method RestoreWindow(machine: Machine, lay: Layout, oldPgmapPtes: seq<nat>, ghost plan: Plan, ghost m0: Memory)
    requires lay.cr3 == machine.cr3 && WellFormed(m0, lay, plan) && Within(m0, machine.mem, plan)
    requires |oldPgmapPtes| == |plan.w| && forall i | 0 <= i < |plan.w| :: oldPgmapPtes[i] == Read(m0, plan.w[i])
    requires AsBefore(m0, machine.mem, plan.b, |plan.b|)
    modifies machine
    ensures machine.mem == m0
  {
    for i := 0 to NumPde(lay.asize)
      invariant Within(m0, machine.mem, plan) && AsBefore(m0, machine.mem, plan.w, i)
      invariant AsBefore(m0, machine.mem, plan.b, |plan.b|)
    {
      assert WindowFine(m0, lay, plan, i);
      PlanLookups(m0, machine.mem, lay, plan, i);
      WriteBack(m0, machine.mem, plan, i);
      var was := machine.ChangePte(lay.WindowPage(i), oldPgmapPtes[i]);
    }
    PutBack(m0, machine.mem, plan);
  }

  /** The whole program: on a well-formed, non-aliased page-table tree, whatever is stored through
      p_pte[0..asize), physical memory ends up exactly as it was. */
  method Session(machine: Machine, lay: Layout, stores: seq<(nat, nat)>, ghost plan: Plan)
    requires lay.cr3 == machine.cr3 && WellFormed(machine.mem, lay, plan)
    requires forall s | 0 <= s < |stores| :: stores[s].0 < lay.asize
    modifies machine
    ensures machine.mem == old(machine.mem)
  {
    ghost var m0 := machine.mem;
    var oldPgmapPtes := SetUp(machine, lay, plan);
    var oldPagetable := BackUp(machine, lay, plan, m0);
    Tinker(machine, lay, stores, plan, m0);
    RestoreBuffer(machine, lay, oldPagetable, plan, m0);
    RestoreWindow(machine, lay, oldPgmapPtes, plan, m0);
  }
}
