/** Pages of a bloom index: layout, adding a tuple, and in-place removal (bloom.h, blutils.c,
    blvacuum.c). */
module BloomPage {
  import opened Wrappers
  import opened BloomSignature

  const BLCKSZ: int := 8192
  const SIZE_OF_PAGE_HEADER: int := 24
  const SIZE_OF_OPAQUE: int := 8
  const SIZE_OF_META_FIXED: int := 144
  const SIZE_OF_BLOCK_NUMBER: int := 4
  const SIZE_MODULUS: int := 0x1_0000_0000_0000_0000

  /** Number of slots of the metapage's notFullPage array. */
  const META_BLOCK_N: nat :=
    (BLCKSZ - SIZE_OF_PAGE_HEADER - SIZE_OF_OPAQUE - SIZE_OF_META_FIXED) / SIZE_OF_BLOCK_NUMBER

  const METAPAGE_BLKNO: nat := 0
  const HEAD_BLKNO: nat := 1

  /** sizeOfBloomTuple: the heap pointer and the signature words. */
  function TupleSize(opts: Options): (n: nat) {
    6 + 2 * opts.bloomLength
  }

  /** How many tuples a page holds. */
  function Capacity(opts: Options): (n: nat)
    requires opts.Valid()
    ensures n >= 15
  {
    (BLCKSZ - SIZE_OF_PAGE_HEADER - SIZE_OF_OPAQUE) / TupleSize(opts)
  }

  /** BloomPageGetFreeSpace, an expression of the unsigned type size_t. */
  function FreeSpace(opts: Options, maxoff: nat): nat {
    (BLCKSZ - SIZE_OF_PAGE_HEADER - maxoff * TupleSize(opts) - SIZE_OF_OPAQUE) % SIZE_MODULUS
  }

  /** A block of the index. A data page keeps its tuple count, pd_lower and tuples 1..maxoff. */
  datatype Page =
    | MetaPage
    | NewPage
    | DataPage(deleted: bool, maxoff: nat, lower: int, items: seq<BloomTuple>)

  /** PageIsNew || BloomPageIsDeleted: the page may be (re)initialised. */
  predicate Reusable(p: Page) {
    p.NewPage? || (p.DataPage? && p.deleted)
  }

  predicate Live(p: Page) {
    p.DataPage? && !p.deleted
  }

  /** The offset of tuple slot n (from 0) in the page. */
  function SlotOffset(opts: Options, n: nat): int {
    SIZE_OF_PAGE_HEADER + TupleSize(opts) * n
  }

  /** What every data block of an index satisfies between two locked sections. */
  predicate ValidPage(opts: Options, p: Page)
    requires opts.Valid()
  {
    match p
    case MetaPage => false
    case NewPage => true
    case DataPage(deleted, maxoff, lower, items) =>
      && maxoff == |items| <= Capacity(opts)
      && lower == SlotOffset(opts, maxoff)
      && (deleted <==> items == [])
      && forall i | 0 <= i < |items| :: |items[i].sign| == opts.bloomLength
  }

  /** BloomInitPage. */
  function InitPage(): Page {
    DataPage(false, 0, SIZE_OF_PAGE_HEADER, [])
  }

  /** BloomPageAddItem: None when the tuple does not fit. */
  function AddItem(opts: Options, p: Page, t: BloomTuple): Option<Page>
    requires Live(p)
  {
    if FreeSpace(opts, p.maxoff) < TupleSize(opts) then None
    else Some(p.(maxoff := p.maxoff + 1, lower := SlotOffset(opts, p.maxoff + 1), items := p.items + [t]))
  }

  /** The page that blinsert offers to BloomPageAddItem: reinitialised first if it may be. */
  function Prepared(p: Page): (r: Page)
    requires p != MetaPage
    ensures Live(r)
  {
    if Reusable(p) then InitPage() else p
  }

  /** The size_t free space does not wrap on a page within capacity, and the fit test is exactly
      "below capacity". */
  lemma {:induction false} FitsBelowCapacity(opts: Options, maxoff: nat)
    requires opts.Valid() && maxoff <= Capacity(opts)
    ensures FreeSpace(opts, maxoff) >= TupleSize(opts) <==> maxoff < Capacity(opts)
  {
    var size := TupleSize(opts);
    var room := BLCKSZ - SIZE_OF_PAGE_HEADER - SIZE_OF_OPAQUE;
    CountFits(room, size, maxoff);
  }

  lemma {:induction false} CountFits(room: nat, size: nat, n: nat)
    requires 0 < size && n <= room / size
    ensures 0 <= room - n * size <= room
    ensures room - n * size >= size <==> n < room / size
  {
    var q := room / size;
    assert room == q * size + room % size;
    if n < q {
      MulMono(n + 1, q, size);
    }
    MulMono(n, q, size);
  }

  lemma {:induction false} MulMono(a: int, b: int, c: nat)
    requires a <= b
    ensures a * c <= b * c
  {
  }

  /** The tuples that a page holds for a scan. */
  function PageTuples(p: Page): multiset<BloomTuple> {
    if Live(p) then multiset(p.items) else multiset{}
  }

  /** Adding to a prepared page keeps the page invariant and adds exactly the new tuple to what the
      page held before; the page refuses only when it is full. */
  lemma {:induction false} AddItemKeeps(opts: Options, p: Page, t: BloomTuple)
    requires opts.Valid() && ValidPage(opts, p) && |t.sign| == opts.bloomLength
    ensures var r := AddItem(opts, Prepared(p), t);
            && (r.None? <==> Live(p) && |p.items| == Capacity(opts))
            && (r.Some? ==>
                && ValidPage(opts, r.value)
                && Live(r.value)
                && PageTuples(r.value) == PageTuples(p) + multiset{t}
                && r.value.items == Prepared(p).items + [t])
  {
    FitsBelowCapacity(opts, Prepared(p).maxoff);
  }

  /** "could not add new bloom tuple to empty page" is unreachable. */
  lemma {:induction false} EmptyPageAccepts(opts: Options, t: BloomTuple)
    requires opts.Valid()
    ensures AddItem(opts, InitPage(), t).Some?
  {
    FitsBelowCapacity(opts, 0);
  }

  /** The callback of a bulk delete: which heap tuples are being removed. */
  type Dead = set<ItemPointer>

  /** The tuples of a page that a bulk delete keeps, in order. */
  function Keep(items: seq<BloomTuple>, dead: Dead): (r: seq<BloomTuple>)
    ensures |r| <= |items|
  {
    if items == [] then []
    else Keep(items[..|items| - 1], dead) +
         (if items[|items| - 1].heapPtr in dead then [] else [items[|items| - 1]])
  }

  /** The tuples of a page that it removes, in order. */
  function Drop(items: seq<BloomTuple>, dead: Dead): (r: seq<BloomTuple>) {
    if items == [] then []
    else Drop(items[..|items| - 1], dead) +
         (if items[|items| - 1].heapPtr in dead then [items[|items| - 1]] else [])
  }

  /** Keeping and dropping partition a page's tuples. */
  lemma {:induction false} KeepDropPartition(items: seq<BloomTuple>, dead: Dead)
    ensures multiset(Keep(items, dead)) + multiset(Drop(items, dead)) == multiset(items)
    ensures |Keep(items, dead)| + |Drop(items, dead)| == |items|
  {
    if items != [] {
      var n := |items| - 1;
      KeepDropPartition(items[..n], dead);
      assert items == items[..n] + [items[n]];
      assert multiset(items) == multiset(items[..n]) + multiset{items[n]};
      if items[n].heapPtr in dead {
        assert multiset(Drop(items, dead)) == multiset(Drop(items[..n], dead)) + multiset{items[n]};
      } else {
        assert multiset(Keep(items, dead)) == multiset(Keep(items[..n], dead)) + multiset{items[n]};
      }
    }
  }

  /** The partition is the callback's. */
  lemma {:induction false} KeepDropByCallback(items: seq<BloomTuple>, dead: Dead)
    ensures forall t | t in Keep(items, dead) :: t in items && t.heapPtr !in dead
    ensures forall t | t in Drop(items, dead) :: t in items && t.heapPtr in dead
  {
    if items != [] {
      KeepDropByCallback(items[..|items| - 1], dead);
    }
  }

  lemma {:induction false} KeepAll(items: seq<BloomTuple>, dead: Dead)
    requires |Keep(items, dead)| == |items|
    ensures Keep(items, dead) == items && Drop(items, dead) == []
  {
    if items != [] {
      var init := items[..|items| - 1];
      assert items == init + [items[|items| - 1]];
      KeepAll(init, dead);
    }
  }

  /** What one locked section of blbulkdelete makes of a page. */
  function VacuumPage(opts: Options, p: Page, dead: Dead): Page {
    if !Live(p) then p
    else
      var kept := Keep(p.items, dead);
      if |kept| == |p.items| then p
      else DataPage(kept == [], |kept|, SlotOffset(opts, |kept|), kept)
  }

  lemma {:induction false} VacuumPageKeeps(opts: Options, p: Page, dead: Dead)
    requires opts.Valid() && ValidPage(opts, p)
    ensures var r := VacuumPage(opts, p, dead);
            && ValidPage(opts, r)
            && (Live(p) ==> r.DataPage? && r.items == Keep(p.items, dead))
            && PageTuples(r) + multiset(if Live(p) then Drop(p.items, dead) else []) == PageTuples(p)
  {
    if Live(p) {
      KeepDropPartition(p.items, dead);
      KeepDropByCallback(p.items, dead);
      forall i | 0 <= i < |Keep(p.items, dead)| ensures |Keep(p.items, dead)[i].sign| == opts.bloomLength {
        assert Keep(p.items, dead)[i] in p.items;
      }
      if |Keep(p.items, dead)| == |p.items| { KeepAll(p.items, dead); }
    }
  }

  /** The page goes on the new notFullPage list: it keeps tuples and has room for another. */
  predicate HasRoom(opts: Options, p: Page) {
    Live(p) && p.maxoff != 0 && FreeSpace(opts, p.maxoff) >= TupleSize(opts)
  }

  lemma {:induction false} KeepDropNext(items: seq<BloomTuple>, n: nat, dead: Dead)
    requires n < |items|
    ensures Keep(items[..n + 1], dead) == Keep(items[..n], dead) + if items[n].heapPtr in dead then [] else [items[n]]
    ensures Drop(items[..n + 1], dead) == Drop(items[..n], dead) + if items[n].heapPtr in dead then [items[n]] else []
  {
    assert items[..n + 1][..n] == items[..n];
  }

  /** memmove of one tuple down to slot `to`, unless it is there already. */
  method MoveSlot(slots: array<BloomTuple>, to: nat, from: nat)
    requires to <= from < slots.Length
    modifies slots
    ensures slots[..to + 1] == old(slots[..to]) + [old(slots[from])]
    ensures slots[from + 1..] == old(slots[from..])[1..]
  {
    if to != from {
      slots[to] := slots[from];
    }
  }

  /** The two-pointer pass of blbulkdelete over the copy of a page that GenericXLog hands out: `itup`
      reads, `itupPtr` writes, and maxoff counts down. */
  method CompactItems(slots: array<BloomTuple>, dead: Dead) returns (itupPtr: nat, maxoff: nat, removed: nat)
    modifies slots
    ensures itupPtr == maxoff <= slots.Length
    ensures slots[..maxoff] == Keep(old(slots[..]), dead)
    ensures removed == |Drop(old(slots[..]), dead)| == slots.Length - maxoff
  {
    ghost var was := slots[..];
    var itup := 0;
    itupPtr, maxoff, removed := 0, slots.Length, 0;
    while itup < slots.Length
      invariant 0 <= itupPtr <= itup <= slots.Length
      invariant slots[..itupPtr] == Keep(was[..itup], dead)
      invariant slots[itup..] == was[itup..]
      invariant removed == itup - itupPtr == |Drop(was[..itup], dead)|
      invariant maxoff == slots.Length - removed
    {
      KeepDropNext(was, itup, dead);
      assert slots[itup] == slots[itup..][0] == was[itup..][0] == was[itup];
      if slots[itup].heapPtr in dead {
        assert slots[itup + 1..] == slots[itup..][1..] == was[itup..][1..];
        maxoff := maxoff - 1;
        removed := removed + 1;
      } else {
        MoveSlot(slots, itupPtr, itup);
        itupPtr := itupPtr + 1;
      }
      itup := itup + 1;
    }
    assert was[..itup] == was;
  }
}
