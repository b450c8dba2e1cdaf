/** The page-table window of the page-walk benchmark (paging.cc), for x86-64 with four levels of 4 KB
    paging (section 4.5 of the Intel SDM, volume 3A). Physical memory is a map from the addresses of
    8-byte words to their values. */
module PageTable {

  const PTE_PER_PDE: nat := 512
  const PAGE: nat := 4096
  const REGION: nat := 4096 * 512

  type Memory = map<nat, nat>

  /** An aligned word; memory that is not there reads as zero. */
  function Read(m: Memory, a: nat): nat {
    if a in m then m[a] else 0
  }

  /** The physical page that an entry points to. */
  function Frame(pte: nat): nat {
    pte / PAGE % 0x100_0000_0000 * PAGE
  }

  predicate Present(pte: nat) {
    pte % 2 == 1
  }

  predicate Large(pte: nat) {
    pte / 0x80 % 2 == 1
  }

  predicate Canonical(v: nat) {
    v / 0x1_0000_0000_0000 == 0 || v / 0x1_0000_0000_0000 == 0xffff
  }

  /** How many pages an entry of a level stands for. */
  function Reach(l: nat): (r: nat)
    requires l < 4
    ensures r > 0
  {
    if l == 0 then 1 else if l == 1 then 512 else if l == 2 then 0x4_0000 else 0x800_0000
  }

  /** The index that an address has in a table of level l. */
  function Index(v: nat, l: nat): (i: nat)
    requires l < 4
    ensures i < 512
  {
    v / (PAGE * Reach(l)) % PTE_PER_PDE
  }

  // ---------------------------------------------------------------- the walk

  /** The table of level l that a walk for v comes to. */
  function Table(m: Memory, cr3: nat, v: nat, l: nat): nat
    requires l < 4
    decreases 4 - l, 0
  {
    if l == 3 then cr3 else Frame(Entry(m, cr3, v, l + 1))
  }

  /** The word it reads there. */
  function Slot(m: Memory, cr3: nat, v: nat, l: nat): nat
    requires l < 4
    decreases 4 - l, 1
  {
    Table(m, cr3, v, l) + 8 * Index(v, l)
  }

  function Entry(m: Memory, cr3: nat, v: nat, l: nat): nat
    requires l < 4
    decreases 4 - l, 2
  {
    Read(m, Slot(m, cr3, v, l))
  }

  /** The entry of level l can be gone through; small pages only. */
  predicate Passes(m: Memory, cr3: nat, v: nat, l: nat)
    requires l < 4
  {
    Present(Entry(m, cr3, v, l)) && !(l != 0 && Large(Entry(m, cr3, v, l)))
  }

  datatype Outcome = Exit | Value(value: nat)

  /** translate: with level 0 the physical address, else the entry `level` lookups from the end, which
      need not be present. Exit is the program giving up on a large or missing page. */
  function Translated(m: Memory, cr3: nat, v: nat, level: nat): Outcome
    requires level <= 4
  {
    if !Canonical(v) then Value(0)
    else if !(forall l | 0 <= l < 4 && l >= level :: Passes(m, cr3, v, l)) then Exit
    else if level == 0 then Value(Frame(Entry(m, cr3, v, 0)) + v % PAGE)
    else if level > 1 && Large(Entry(m, cr3, v, level - 1)) then Exit
    else Value(Entry(m, cr3, v, level - 1))
  }

  class Machine {
    const cr3: nat
    var mem: Memory

    /** translate. */
    method Translate(v: nat, level: nat) returns (r: Outcome)
      requires level <= 4
      ensures r == Translated(mem, cr3, v, level)
    {
      if !Canonical(v) {
        return Value(0);
      }
      var curPtr := cr3;
      var n := 4;
      while n > 0
        invariant 0 <= n <= 4 && n >= level
        invariant n > 0 ==> curPtr == Table(mem, cr3, v, n - 1)
        invariant n == 0 ==> curPtr == Frame(Entry(mem, cr3, v, 0))
        invariant forall l | 0 <= l < 4 && l >= n :: Passes(mem, cr3, v, l)
      {
        var l := n - 1;
        var pte := Read(mem, curPtr + 8 * Index(v, l));
        assert pte == Entry(mem, cr3, v, l);
        if l != 0 && Large(pte) {
          assert !Passes(mem, cr3, v, l);
          return Exit;
        }
        if level == l + 1 {
          return Value(pte);
        }
        if !Present(pte) {
          assert !Passes(mem, cr3, v, l);
          return Exit;
        }
        curPtr := Frame(pte);
        n := l;
      }
      return Value(curPtr + v % PAGE);
    }

    /** change_pte: the old entry, unless the walk gives up. A low address draws a warning that the
        write is refused, but the code goes on to write. */
    method ChangePte(v: nat, newPte: nat) returns (r: Outcome)
      modifies this
      ensures var pde := Translated(old(mem), cr3, v, 2);
              if pde.Exit? then r == Exit && mem == old(mem)
              else
                var slot := Frame(pde.value) + 8 * Index(v, 0);
                r == Value(Read(old(mem), slot)) && mem == old(mem)[slot := newPte]
    {
      var pde := Translate(v, 2);
      if pde.Exit? {
        return Exit;
      }
      var slot := Frame(pde.value) + 8 * Index(v, 0);
      r := Value(Read(mem, slot));
      mem := mem[slot := newPte];
    }

    /** A load or store through the processor's own walk, for an address that it can translate. */
    method Load(v: nat) returns (x: nat)
      requires Translated(mem, cr3, v, 0).Value?
      ensures x == Read(mem, Translated(mem, cr3, v, 0).value)
    {
      var a := Translate(v, 0);
      x := Read(mem, a.value);
    }

    method Store(v: nat, x: nat)
      requires Translated(mem, cr3, v, 0).Value?
      modifies this
      ensures mem == old(mem)[Translated(old(mem), cr3, v, 0).value := x]
    {
      var a := Translate(v, 0);
      mem := mem[a.value := x];
    }
  }

  // ---------------------------------------------------------------- the window

  /** num_pde_to_map. */
  function NumPde(asize: nat): nat {
    (asize + 2 * PTE_PER_PDE - 2) / PTE_PER_PDE
  }

  /** The buffer, the window, and the buffer's size in pages. */
  datatype Layout = Layout(cr3: nat, bigbuf: nat, window: nat, asize: nat) {
    /** The number of the buffer's first entry within its first table. */
    function Offset(): (o: nat)
      ensures o < PTE_PER_PDE
    {
      bigbuf / PAGE % PTE_PER_PDE
    }

    /** Page i of the window. */
    function WindowPage(i: nat): nat {
      window + i * PAGE
    }

    /** The start of the i-th region of 512 pages that the buffer is in. */
    function RegionStart(i: nat): nat {
      bigbuf / REGION * REGION + i * REGION
    }

    /** The address of p_pte[k]. */
    function PPte(k: nat): nat {
      window + 8 * (Offset() + k)
    }
  }

  /** Whatever the buffer's alignment, the entries of its pages lie within the tables mapped, and for
      some alignment in the last of them. */
  lemma {:induction false} WindowSuffices(lay: Layout, k: nat)
    requires k < lay.asize
    ensures (lay.Offset() + k) / PTE_PER_PDE < NumPde(lay.asize)
    ensures lay.Offset() == 511 && k == lay.asize - 1 ==> (lay.Offset() + k) / PTE_PER_PDE == NumPde(lay.asize) - 1
  {
  }

  /** Addresses of one page have the same indices. */
  lemma {:induction false} SamePage(v: nat, w: nat, l: nat)
    requires l < 4 && v / PAGE == w / PAGE
    ensures Index(v, l) == Index(w, l)
  {
    DivDiv(v, Reach(l));
    DivDiv(w, Reach(l));
  }

  lemma {:induction false} DivDiv(v: nat, r: nat)
    requires r == 1 || r == 512 || r == 0x4_0000 || r == 0x800_0000
    ensures v / (PAGE * r) == v / PAGE / r
  {
  }

  /** The walks for two addresses of one page read the same words. */
  lemma {:induction false} SameWalk(m: Memory, cr3: nat, v: nat, w: nat, l: nat)
    requires l < 4 && v / PAGE == w / PAGE
    ensures Table(m, cr3, v, l) == Table(m, cr3, w, l) && Slot(m, cr3, v, l) == Slot(m, cr3, w, l)
    decreases 4 - l
  {
    SamePage(v, w, l);
    if l < 3 { SameWalk(m, cr3, v, w, l + 1); }
  }

  /** Where p_pte[k] lies: in page (offset + k) / 512 of the window. */
  lemma {:induction false} PPtePage(lay: Layout, k: nat)
    requires lay.window % PAGE == 0
    ensures lay.PPte(k) / PAGE == lay.WindowPage((lay.Offset() + k) / PTE_PER_PDE) / PAGE
    ensures lay.PPte(k) % PAGE == 8 * ((lay.Offset() + k) % PTE_PER_PDE)
  {
    var n, w := lay.Offset() + k, lay.window / PAGE;
    assert lay.window == w * PAGE;
    assert n == n / 512 * 512 + n % 512;
    assert lay.PPte(k) == (w + n / 512) * PAGE + 8 * (n % 512);
  }
}
