/** The index operations as the code runs them, one at a time, over an index kept in an object:
    blbuild, blinsert, blbulkdelete, blvacuumcleanup and blgetbitmap. */
module BloomIndex {
  import opened Wrappers
  import opened BloomRandom
  import opened BloomWords
  import opened BloomSignature
  import opened BloomPage
  import opened BloomProtocol
  import opened BloomProtocolProof
  import opened BloomSolo

  /** A heap row as table_index_build_scan hands it out. */
  datatype HeapRow = HeapRow(tid: ItemPointer, values: Row)

  // ---------------------------------------------------------------- specifications

  /** The tuples of the live pages among the first n blocks, in block order. */
  function ItemsBelow(pages: seq<Page>, n: nat): seq<BloomTuple>
    requires n <= |pages|
  {
    if n == 0 then []
    else ItemsBelow(pages, n - 1) + if Live(pages[n - 1]) then pages[n - 1].items else []
  }

  /** The tuples of all live pages in block order. */
  function AllItems(pages: seq<Page>): seq<BloomTuple> {
    ItemsBelow(pages, |pages|)
  }

  lemma {:induction false} ItemsAreLive(pages: seq<Page>, n: nat)
    requires n <= |pages|
    ensures multiset(ItemsBelow(pages, n)) == LiveBelow(pages, n)
  {
    if n > 0 { ItemsAreLive(pages, n - 1); }
  }

  /** How many there are. */
  function CountBelow(pages: seq<Page>, n: nat): nat
    requires n <= |pages|
  {
    if n == 0 then 0
    else CountBelow(pages, n - 1) + if Live(pages[n - 1]) then |pages[n - 1].items| else 0
  }

  lemma {:induction false} CountIsSize(pages: seq<Page>, n: nat)
    requires n <= |pages|
    ensures CountBelow(pages, n) == |LiveBelow(pages, n)|
  {
    if n > 0 { CountIsSize(pages, n - 1); }
  }

  lemma {:induction false} ItemsBelowSame(pages: seq<Page>, pages': seq<Page>, n: nat)
    requires n <= |pages| && n <= |pages'| && forall b | 0 <= b < n :: pages[b] == pages'[b]
    ensures ItemsBelow(pages, n) == ItemsBelow(pages', n)
  {
    if n > 0 { ItemsBelowSame(pages, pages', n - 1); }
  }

  lemma {:induction false} AllItemsAppend(pages: seq<Page>, page: Page)
    ensures AllItems(pages + [page]) == AllItems(pages) + if Live(page) then page.items else []
  {
    ItemsBelowSame(pages, pages + [page], |pages|);
  }

  /** The blocks below n, ascending, whose page has room: what a bulk delete would list. */
  function Rooms(opts: Options, pages: seq<Page>, n: nat): seq<nat>
    requires n <= |pages|
  {
    if n == 0 then []
    else Rooms(opts, pages, n - 1) + if HasRoom(opts, pages[n - 1]) then [n - 1] else []
  }

  /** The list is ascending, hence free of duplicates, and holds exactly the blocks with room. */
  lemma {:induction false} RoomsSorted(opts: Options, pages: seq<Page>, n: nat)
    requires n <= |pages|
    ensures forall i, j | 0 <= i < j < |Rooms(opts, pages, n)| :: Rooms(opts, pages, n)[i] < Rooms(opts, pages, n)[j]
    ensures forall b: nat :: b in Rooms(opts, pages, n) <==> b < n && HasRoom(opts, pages[b])
  {
    if n > 0 {
      RoomsSorted(opts, pages, n - 1);
      var init, list := Rooms(opts, pages, n - 1), Rooms(opts, pages, n);
      forall i, j | 0 <= i < j < |list| ensures list[i] < list[j] {
        assert list[i] == init[i] && init[i] in init;
      }
    }
  }

  lemma {:induction false} RoomsCong(opts: Options, pages: seq<Page>, pages': seq<Page>, n: nat)
    requires n <= |pages| && n <= |pages'| && pages[..n] == pages'[..n]
    ensures Rooms(opts, pages, n) == Rooms(opts, pages', n)
  {
    if n > 0 {
      assert pages[..n - 1] == pages[..n][..n - 1] == pages'[..n][..n - 1] == pages'[..n - 1];
      assert pages[n - 1] == pages[..n][n - 1] == pages'[..n][n - 1] == pages'[n - 1];
      RoomsCong(opts, pages, pages', n - 1);
    }
  }

  /** A prefix no longer than the metapage array. */
  function FirstFit(list: seq<nat>): seq<nat> {
    if |list| <= META_BLOCK_N then list else list[..META_BLOCK_N]
  }

  /** All pages after a bulk delete that nobody interrupts. */
  function Vacuumed(opts: Options, pages: seq<Page>, dead: Dead): seq<Page> {
    seq(|pages|, b requires 0 <= b < |pages| => VacuumPage(opts, pages[b], dead))
  }

  /** A bulk delete removes exactly the entries the callback names, with their multiplicity. */
  lemma {:induction false} VacuumedTuples(opts: Options, pages: seq<Page>, dead: Dead, t: BloomTuple)
    requires opts.Valid() && forall b | 0 <= b < |pages| :: pages[b] == MetaPage || ValidPage(opts, pages[b])
    ensures LiveTuples(Vacuumed(opts, pages, dead))[t] == if t.heapPtr in dead then 0 else LiveTuples(pages)[t]
  {
    var now := Vacuumed(opts, pages, dead);
    forall b | 0 <= b < |pages|
      ensures PageTuples(now[b])[t] == if t.heapPtr in dead then 0 else PageTuples(pages[b])[t]
    {
      VacuumedPage(opts, pages[b], dead, t);
    }
    BelowCount(pages, now, t, t.heapPtr in dead, |pages|);
  }

  lemma {:induction false} BelowCount(pages: seq<Page>, now: seq<Page>, t: BloomTuple, gone: bool, n: nat)
    requires n <= |pages| == |now|
    requires forall b | 0 <= b < |pages| :: PageTuples(now[b])[t] == if gone then 0 else PageTuples(pages[b])[t]
    ensures LiveBelow(now, n)[t] == if gone then 0 else LiveBelow(pages, n)[t]
  {
    if n > 0 { BelowCount(pages, now, t, gone, n - 1); }
  }

  lemma {:induction false} VacuumedPage(opts: Options, page: Page, dead: Dead, t: BloomTuple)
    requires opts.Valid() && (page == MetaPage || ValidPage(opts, page))
    ensures PageTuples(VacuumPage(opts, page, dead))[t] == if t.heapPtr in dead then 0 else PageTuples(page)[t]
  {
    if Live(page) {
      VacuumPageKeeps(opts, page, dead);
      KeepCount(page.items, dead, t);
    }
  }

  lemma {:induction false} KeepCount(items: seq<BloomTuple>, dead: Dead, t: BloomTuple)
    ensures multiset(Keep(items, dead))[t] == if t.heapPtr in dead then 0 else multiset(items)[t]
  {
    if items != [] {
      var n := |items| - 1;
      assert items == items[..n] + [items[n]];
      KeepCount(items[..n], dead, t);
    }
  }

  /** The tuples a scan for a signature selects, in the order it meets them. */
  function Selected(items: seq<BloomTuple>, wanted: set<nat>): seq<BloomTuple> {
    if items == [] then []
    else Selected(items[..|items| - 1], wanted) +
         if wanted <= Bits(items[|items| - 1].sign) then [items[|items| - 1]] else []
  }

  lemma {:induction false} SelectedMembers(items: seq<BloomTuple>, wanted: set<nat>, t: BloomTuple)
    ensures t in Selected(items, wanted) <==> t in items && wanted <= Bits(t.sign)
  {
    if items != [] {
      var n := |items| - 1;
      assert items == items[..n] + [items[n]];
      SelectedMembers(items[..n], wanted, t);
    }
  }

  lemma {:induction false} SelectedAppend(items: seq<BloomTuple>, t: BloomTuple, wanted: set<nat>)
    ensures Selected(items + [t], wanted) == Selected(items, wanted) + if wanted <= Bits(t.sign) then [t] else []
  {
    assert (items + [t])[..|items|] == items;
  }

  function Pointers(ts: seq<BloomTuple>): set<ItemPointer> {
    set i | 0 <= i < |ts| :: ts[i].heapPtr
  }

  lemma {:induction false} PointersAppend(ts: seq<BloomTuple>, t: BloomTuple)
    ensures Pointers(ts + [t]) == Pointers(ts) + {t.heapPtr}
  {
    forall x | x in Pointers(ts + [t]) ensures x in Pointers(ts) + {t.heapPtr} {
      var i :| 0 <= i < |ts + [t]| && (ts + [t])[i].heapPtr == x;
      if i < |ts| { assert ts[i].heapPtr == x; }
    }
    forall x | x in Pointers(ts) + {t.heapPtr} ensures x in Pointers(ts + [t]) {
      if x in Pointers(ts) {
        var i :| 0 <= i < |ts| && ts[i].heapPtr == x;
        assert (ts + [t])[i].heapPtr == x;
      } else {
        assert (ts + [t])[|ts|].heapPtr == x;
      }
    }
  }

  // ---------------------------------------------------------------- the index as an object

  class Index {
    const opts: Options
    var pages: seq<Page>
    var nStart: nat
    var nEnd: nat
    var notFullPage: seq<nat>
    var fsm: set<nat>

    /** What this object stores. */
    ghost function View(): Store
      reads this
    {
      Store(opts, pages, Meta(nStart, nEnd, notFullPage), fsm)
    }

    ghost predicate Valid()
      reads this
    {
      View().Valid()
    }

    /** blbuild over the rows of a heap scan; blbuildempty is the case of no rows. */
    constructor Build(opts: Options, gen: Generator, rows: seq<HeapRow>)
      requires opts.Valid()
      modifies gen
      ensures Valid() && this.opts == opts && fresh(this)
      ensures nStart == nEnd == 0 && fsm == {}
      ensures |AllItems(pages)| == |rows|
      ensures forall i | 0 <= i < |rows| :: Formed(opts, rows[i].tid, rows[i].values, AllItems(pages)[i])
      ensures forall b | HEAD_BLKNO <= b < |pages| ::
                Live(pages[b]) && (b < |pages| - 1 ==> |pages[b].items| == Capacity(opts))
    {
      this.opts := opts;
      var flushed: seq<Page> := [MetaPage];
      var cached := InitPage();
      ghost var all: seq<BloomTuple> := [];
      assert AllItems(flushed) == [] by { assert ItemsBelow(flushed, 0) == []; }
      for k := 0 to |rows|
        invariant |flushed| > 0 && flushed[0] == MetaPage
        invariant forall b | HEAD_BLKNO <= b < |flushed| ::
                    ValidPage(opts, flushed[b]) && Live(flushed[b]) && |flushed[b].items| == Capacity(opts)
        invariant Live(cached) && (cached == InitPage() || ValidPage(opts, cached))
        invariant |all| == k && AllItems(flushed) + cached.items == all
        invariant forall i | 0 <= i < k :: Formed(opts, rows[i].tid, rows[i].values, all[i])
        invariant cached == InitPage() ==> k == 0
      {
        var itup := FormTuple(gen, opts, rows[k].tid, rows[k].values);
        var added := AddItem(opts, cached, itup);
        CachedPageAccepts(opts, cached, itup);
        if added.Some? {
          cached := added.value;
        } else {
          AllItemsAppend(flushed, cached);
          flushed := flushed + [cached];
          EmptyPageAccepts(opts, itup);
          CachedPageAccepts(opts, InitPage(), itup);
          cached := AddItem(opts, InitPage(), itup).value;
        }
        all := all + [itup];
      }
      if cached.maxoff > 0 {
        AllItemsAppend(flushed, cached);
        flushed := flushed + [cached];
      }
      pages := flushed;
      nStart, nEnd, notFullPage, fsm := 0, 0, seq(META_BLOCK_N, _ => 0), {};
      assert AllItems(flushed) == all;
    }

    /** blinsert, run without interference. It is one of the interleavings of the protocol: the steps
        it took are returned, and they lead from this index to the index it leaves. */
    method Insert(t: BloomTuple, ghost p: nat) returns (ghost acts: seq<Action>)
      requires Valid() && FromRow(opts, t)
      modifies this
      ensures Valid()
      ensures LiveTuples(pages) == old(LiveTuples(pages)) + multiset{t}
      ensures Steps(old(View()).Rest(), acts, View().After(p, t))
    {
      ghost var s0 := View().Rest();
      acts := [BeginInsert(p, t)];
      SoloBegin(View(), p, t);
      SoloReadMeta(s0, acts, View(), p, t);
      acts := acts + [ReadMeta(p)];
      var tried: Option<nat> := None;
      if nEnd > nStart {
        var blkno := notFullPage[nStart];
        ListedBlock(View(), nStart);
        SoloTryFirst(s0, acts, View(), p, t, blkno);
        acts := acts + [TryFirst(p)];
        var added := TryBlock(blkno, t);
        if added {
          return;
        }
        tried := Some(blkno);
      }
      SoloLockMeta(s0, acts, View(), p, t, tried);
      acts := acts + [LockMeta(p)];
      acts := InsertHoldingMeta(t, tried, p, s0, acts);
    }

    /** One locked section of blinsert: add the tuple to block blkno if it fits. */
    method TryBlock(blkno: nat, t: BloomTuple) returns (added: bool)
      requires Valid() && HEAD_BLKNO <= blkno < |pages| && |t.sign| == opts.bloomLength
      requires pages[blkno] != MetaPage
      modifies this`pages
      ensures Valid()
      ensures added <==> AddItem(opts, Prepared(old(pages)[blkno]), t).Some?
      ensures added ==>
                && pages == old(pages)[blkno := AddItem(opts, Prepared(old(pages)[blkno]), t).value]
                && LiveTuples(pages) == old(LiveTuples(pages)) + multiset{t}
      ensures !added ==> pages == old(pages)
    {
      var page := pages[blkno];
      if page.NewPage? || (page.DataPage? && page.deleted) {
        page := InitPage();
      }
      assert ValidPage(opts, pages[blkno]);
      assert page == Prepared(pages[blkno]);
      AddItemKeeps(opts, pages[blkno], t);
      var r := AddItem(opts, page, t);
      added := r.Some?;
      if added {
        LiveUpdateAdd(pages, blkno, r.value, t);
        StoreReplace(View(), blkno, r.value);
        pages := pages[blkno := r.value];
      }
    }

    /** blinsert from where it holds the metapage exclusively. */
    method InsertHoldingMeta(t: BloomTuple, tried: Option<nat>, ghost p: nat, ghost s0: State,
                             ghost before: seq<Action>)
      returns (ghost acts: seq<Action>)
      requires Valid() && |t.sign| == opts.bloomLength
      requires Steps(s0, before, View().With(p, InsertTryNext(t, StartAt(View().meta, tried)), Some(p), map[]))
      modifies this
      ensures Valid()
      ensures LiveTuples(pages) == old(LiveTuples(pages)) + multiset{t}
      ensures Steps(s0, acts, View().After(p, t))
    {
      var n := nStart;
      if n < nEnd && tried == Some(notFullPage[n]) {
        n := n + 1;
      }
      var added;
      added, acts := TryList(t, n, p, s0, before);
      if !added {
        acts := InsertNewPage(t, p, s0, acts);
      }
    }

    /** The candidate loop of blinsert: the listed blocks from slot n on. */
    method TryList(t: BloomTuple, n0: nat, ghost p: nat, ghost s0: State, ghost before: seq<Action>)
      returns (added: bool, ghost acts: seq<Action>)
      requires Valid() && |t.sign| == opts.bloomLength && n0 <= nEnd
      requires Steps(s0, before, View().With(p, InsertTryNext(t, n0), Some(p), map[]))
      modifies this`pages, this`nStart
      ensures Valid()
      ensures if added then
                && LiveTuples(pages) == old(LiveTuples(pages)) + multiset{t}
                && Steps(s0, acts, View().After(p, t))
              else
                && View() == old(View())
                && Steps(s0, acts, View().With(p, InsertAlloc(t), Some(p), map[]))
    {
      acts := before;
      ghost var st := View();
      var n := n0;
      while n < nEnd
        invariant n <= nEnd && View() == st
        invariant Steps(s0, acts, st.With(p, InsertTryNext(t, n), Some(p), map[]))
      {
        ListedBlock(st, n);
        SoloTryNext(s0, acts, st, p, t, n);
        acts := acts + [TryNext(p)];
        added := TryBlock(notFullPage[n], t);
        if added {
          StoreStart(View(), n);
          nStart := n;
          return;
        }
        n := n + 1;
      }
      SoloListEnd(s0, acts, st, p, t, n);
      acts := acts + [TryNext(p)];
      added := false;
    }

    /** The last part of blinsert: put the tuple on a page got from BloomNewBuffer. */
    method InsertNewPage(t: BloomTuple, ghost p: nat, ghost s0: State, ghost before: seq<Action>)
      returns (ghost acts: seq<Action>)
      requires Valid() && |t.sign| == opts.bloomLength
      requires Steps(s0, before, View().With(p, InsertAlloc(t), Some(p), map[]))
      modifies this
      ensures Valid()
      ensures LiveTuples(pages) == old(LiveTuples(pages)) + multiset{t}
      ensures Steps(s0, acts, View().After(p, t))
    {
      var blkno;
      blkno, acts := NewBuffer(t, p, s0, before);
      ghost var st, live := View(), LiveTuples(pages);
      assert live == old(LiveTuples(pages));
      EmptyPageAccepts(opts, t);
      var page := AddItem(opts, InitPage(), t).value;
      SoloFill(s0, acts, st, p, t, blkno);
      acts := acts + [Fill(p)];
      FilledKeeps(st, t, blkno);
      pages := pages[blkno := page];
      nStart, nEnd, notFullPage := 0, 1, notFullPage[0 := blkno];
      assert View() == Filled(st, t, blkno);
    }

    /** BloomNewBuffer: a reusable block of the free space map, or a new one. */
    method NewBuffer(t: BloomTuple, ghost p: nat, ghost s0: State, ghost before: seq<Action>)
      returns (blkno: nat, ghost acts: seq<Action>)
      requires Valid()
      requires Steps(s0, before, View().With(p, InsertAlloc(t), Some(p), map[]))
      modifies this`pages, this`fsm
      ensures Valid() && HEAD_BLKNO <= blkno < |pages| && Reusable(pages[blkno])
      ensures LiveTuples(pages) == old(LiveTuples(pages))
      ensures pages == old(pages) || (blkno == |old(pages)| && pages == old(pages) + [NewPage] && fsm == {})
      ensures Steps(s0, acts, View().With(p, InsertFill(t, blkno), Some(p), map[blkno := p]))
    {
      var found;
      found, blkno, acts := TakeFreeBlock(t, p, s0, before);
      if !found {
        SoloExtend(s0, acts, View(), p, t);
        acts := acts + [Extend(p)];
        blkno := |pages|;
        LiveAppend(pages, NewPage);
        StoreExtend(View());
        pages := pages + [NewPage];
      }
    }

    /** The free space map loop of BloomNewBuffer. */
    method TakeFreeBlock(t: BloomTuple, ghost p: nat, ghost s0: State, ghost before: seq<Action>)
      returns (found: bool, blkno: nat, ghost acts: seq<Action>)
      requires Valid()
      requires Steps(s0, before, View().With(p, InsertAlloc(t), Some(p), map[]))
      modifies this`fsm
      ensures Valid()
      ensures if found then
                && HEAD_BLKNO <= blkno < |pages| && Reusable(pages[blkno])
                && Steps(s0, acts, View().With(p, InsertFill(t, blkno), Some(p), map[blkno := p]))
              else
                fsm == {} && Steps(s0, acts, View().With(p, InsertAlloc(t), Some(p), map[]))
    {
      acts, found, blkno := before, false, 0;
      while fsm != {}
        invariant Valid()
        invariant Steps(s0, acts, View().With(p, InsertAlloc(t), Some(p), map[]))
        decreases fsm
      {
        var b :| b in fsm;
        SoloTakeFree(s0, acts, View(), p, t, b);
        acts := acts + [TakeFree(p, b)] + [CheckFree(p)];
        StoreTake(View(), b);
        fsm := fsm - {b};
        if Reusable(pages[b]) {
          return true, b, acts;
        }
      }
    }

    /** blbulkdelete with nobody else at work. */
    method BulkDelete(dead: Dead) returns (tuplesRemoved: nat)
      requires Valid()
      modifies this
      ensures Valid()
      ensures pages == Vacuumed(opts, old(pages), dead)
      ensures nStart == 0 && notFullPage[..nEnd] == FirstFit(Rooms(opts, pages, |pages|))
      ensures notFullPage[nEnd..] == old(notFullPage)[nEnd..]
      ensures tuplesRemoved == |old(LiveTuples(pages))| - |LiveTuples(pages)|
      ensures fsm == old(fsm)
    {
      ghost var before := View();
      var rel, list;
      rel, list, tuplesRemoved := VacuumBlocks(opts, pages, dead);
      BulkEnd(before, dead, rel, list);
      BulkList(list, notFullPage);
      var slots := list + notFullPage[|list|..];
      pages, notFullPage, nStart, nEnd := rel, slots, 0, |list|;
      assert View() == BulkStore(before, rel, list);
      assert notFullPage[..nEnd] == list;
    }

    /** blvacuumcleanup: reusable blocks go to the free space map, live tuples are counted. */
    method VacuumCleanup() returns (pagesFree: nat, numIndexTuples: nat)
      requires Valid()
      modifies this`fsm
      ensures Valid()
      ensures fsm == old(fsm) + ReusableBlocks(pages, |pages|)
      ensures pagesFree == |ReusableBlocks(pages, |pages|)|
      ensures numIndexTuples == |LiveTuples(pages)|
    {
      ghost var before := View();
      var free;
      CleanupCounts(before);
      CleanupValid(before);
      free, pagesFree, numIndexTuples := ScanFree(pages);
      fsm := fsm + free;
    }

    /** blgetbitmap: the pointers of all live tuples whose signature covers that of the keys. */
    method GetBitmap(gen: Generator, keys: seq<ScanKey>) returns (tbm: set<ItemPointer>, ntids: nat)
      requires Valid() && ValidKeys(keys)
      modifies gen
      ensures (exists i | 0 <= i < |keys| :: keys[i].hash.None?) ==> tbm == {} && ntids == 0
      ensures (forall i | 0 <= i < |keys| :: keys[i].hash.Some?) ==>
                && tbm == Pointers(Selected(AllItems(pages), KeyBits(opts, keys, |keys|)))
                && ntids == |Selected(AllItems(pages), KeyBits(opts, keys, |keys|))|
    {
      tbm, ntids := {}, 0;
      var sign := SearchSignature(gen, opts, keys);
      if sign.None? {
        return;
      }
      ghost var wanted := KeyBits(opts, keys, |keys|);
      var blkno := HEAD_BLKNO;
      assert ItemsBelow(pages, HEAD_BLKNO) == [] by { assert ItemsBelow(pages, 0) == []; }
      while blkno < |pages|
        invariant HEAD_BLKNO <= blkno <= |pages|
        invariant tbm == Pointers(Selected(ItemsBelow(pages, blkno), wanted))
        invariant ntids == |Selected(ItemsBelow(pages, blkno), wanted)|
      {
        assert ValidPage(opts, pages[blkno]);
        if Live(pages[blkno]) {
          tbm, ntids := ScanItems(opts, pages[blkno], sign.value, tbm, ntids, ItemsBelow(pages, blkno));
        } else {
          assert ItemsBelow(pages, blkno + 1) == ItemsBelow(pages, blkno);
        }
        blkno := blkno + 1;
      }
    }
  }

  /** The block loop of blbulkdelete: the pages, the new candidate list and the number removed. */
  method VacuumBlocks(opts: Options, was: seq<Page>, dead: Dead)
    returns (pages: seq<Page>, list: seq<nat>, tuplesRemoved: nat)
    requires opts.Valid() && |was| > 0 && was[0] == MetaPage
    requires forall b | HEAD_BLKNO <= b < |was| :: ValidPage(opts, was[b])
    ensures pages == Vacuumed(opts, was, dead) && list == FirstFit(Rooms(opts, pages, |pages|))
    ensures |LiveTuples(pages)| + tuplesRemoved == |LiveTuples(was)|
  {
    pages, list, tuplesRemoved := was, [], 0;
    var blkno := HEAD_BLKNO;
    BulkStart(opts, was, dead);
    while blkno < |pages|
      invariant HEAD_BLKNO <= blkno <= |pages|
      invariant BulkProgress(opts, was, pages, dead, blkno, list, tuplesRemoved)
    {
      assert ValidPage(opts, was[blkno]);
      BulkNext(opts, was, pages, dead, blkno, list, tuplesRemoved);
      var page, removed := VacuumOne(opts, pages[blkno], dead);
      tuplesRemoved := tuplesRemoved + removed;
      if HasRoom(opts, page) && |list| < META_BLOCK_N {
        list := list + [blkno];
      }
      pages := pages[blkno := page];
      blkno := blkno + 1;
    }
    BulkDone(opts, was, dead, pages, list, tuplesRemoved);
  }

  /** The block loop of blvacuumcleanup: what to record as free, and the two counts. */
  method ScanFree(pages: seq<Page>) returns (free: set<nat>, pagesFree: nat, numIndexTuples: nat)
    requires |pages| > 0 && pages[0] == MetaPage && forall b | HEAD_BLKNO <= b < |pages| :: Counted(pages[b])
    ensures free == ReusableBlocks(pages, |pages|) && pagesFree == FreeCount(pages, |pages|)
    ensures numIndexTuples == CountBelow(pages, |pages|)
  {
    free, pagesFree, numIndexTuples := {}, 0, 0;
    var blkno := HEAD_BLKNO;
    assert CountBelow(pages, HEAD_BLKNO) == 0 by { assert CountBelow(pages, 0) == 0; }
    assert ReusableBlocks(pages, HEAD_BLKNO) == {} by { assert ReusableBlocks(pages, 0) == {}; }
    assert FreeCount(pages, HEAD_BLKNO) == 0 by { assert FreeCount(pages, 0) == 0; }
    while blkno < |pages|
      invariant HEAD_BLKNO <= blkno <= |pages|
      invariant free == ReusableBlocks(pages, blkno) && pagesFree == FreeCount(pages, blkno)
      invariant numIndexTuples == CountBelow(pages, blkno)
    {
      assert Counted(pages[blkno]);
      if Reusable(pages[blkno]) {
        free := free + {blkno};
        pagesFree := pagesFree + 1;
      } else {
        numIndexTuples := numIndexTuples + pages[blkno].maxoff;
      }
      blkno := blkno + 1;
    }
  }

  /** The inner loop of blgetbitmap: the tuples of one live page. */
  method ScanItems(opts: Options, page: Page, sign: Signature, tbm0: set<ItemPointer>, ntids0: nat,
                   ghost before: seq<BloomTuple>)
    returns (tbm: set<ItemPointer>, ntids: nat)
    requires opts.Valid() && Live(page) && ValidPage(opts, page) && |sign| == opts.bloomLength
    requires tbm0 == Pointers(Selected(before, Bits(sign))) && ntids0 == |Selected(before, Bits(sign))|
    ensures tbm == Pointers(Selected(before + page.items, Bits(sign)))
    ensures ntids == |Selected(before + page.items, Bits(sign))|
  {
    tbm, ntids := tbm0, ntids0;
    var offset := 0;
    assert before + page.items[..0] == before;
    while offset < page.maxoff
      invariant 0 <= offset <= page.maxoff
      invariant tbm == Pointers(Selected(before + page.items[..offset], Bits(sign)))
      invariant ntids == |Selected(before + page.items[..offset], Bits(sign))|
    {
      var itup := page.items[offset];
      var res := Matches(itup.sign, sign);
      assert before + page.items[..offset + 1] == before + page.items[..offset] + [itup];
      SelectNext(before + page.items[..offset], itup, Bits(sign));
      if res {
        tbm := tbm + {itup.heapPtr};
        ntids := ntids + 1;
      }
      offset := offset + 1;
    }
    assert page.items[..offset] == page.items;
  }

  /** One locked section of blbulkdelete, on a copy of the page that is applied only if it changed. */
  method VacuumOne(opts: Options, page: Page, dead: Dead) returns (r: Page, removed: nat)
    requires opts.Valid() && ValidPage(opts, page)
    ensures r == VacuumPage(opts, page, dead)
    ensures removed == if Live(page) then |Drop(page.items, dead)| else 0
  {
    if !Live(page) {
      return page, 0;
    }
    var slots := new BloomTuple[page.maxoff](i requires 0 <= i < page.maxoff => page.items[i]);
    assert slots[..] == page.items;
    var itupPtr, maxoff;
    itupPtr, maxoff, removed := CompactItems(slots, dead);
    KeepDropPartition(page.items, dead);
    r := page;
    if removed > 0 {
      r := DataPage(maxoff == 0, maxoff, SlotOffset(opts, itupPtr), slots[..maxoff]);
    }
  }

  /** The index that Build leaves is a state from which the runs of the protocol start. */
  lemma {:induction false} BuildStartsRuns(st: Store, rows: seq<HeapRow>)
    requires st.Valid() && st.meta.nStart == st.meta.nEnd == 0 && st.fsm == {}
    requires |AllItems(st.pages)| == |rows|
    requires forall i | 0 <= i < |rows| :: Formed(st.opts, rows[i].tid, rows[i].values, AllItems(st.pages)[i])
    ensures Init(st.Rest().(built := AllItems(st.pages)))
  {
    var built := AllItems(st.pages);
    ItemsAreLive(st.pages, |st.pages|);
    forall t | t in built ensures FromRow(st.opts, t) {
      var i :| 0 <= i < |built| && built[i] == t;
      assert Formed(st.opts, t.heapPtr, rows[i].values, t);
    }
  }

  // ---------------------------------------------------------------- lemmas for the methods

  /** The data blocks below n that may be reused. */
  function ReusableBlocks(pages: seq<Page>, n: nat): set<nat>
    requires n <= |pages|
  {
    if n == 0 then {}
    else ReusableBlocks(pages, n - 1) + if Reusable(pages[n - 1]) then {n - 1} else {}
  }

  lemma {:induction false} ReusableBelow(pages: seq<Page>, n: nat)
    requires n <= |pages|
    ensures forall b :: b in ReusableBlocks(pages, n) <==> 0 <= b < n && Reusable(pages[b])
  {
    if n > 0 { ReusableBelow(pages, n - 1); }
  }

  lemma {:induction false} ListedBlock(st: Store, n: nat)
    requires st.Valid() && n < st.meta.nEnd
    ensures var b := st.meta.notFullPage[n];
            HEAD_BLKNO <= b < |st.pages| && ValidPage(st.opts, st.pages[b]) && st.pages[b] != MetaPage
  {
    assert DataBlock(st.Rest(), st.meta.notFullPage[n]);
  }

  lemma {:induction false} StoreReplace(st: Store, b: nat, page: Page)
    requires st.Valid() && HEAD_BLKNO <= b < |st.pages| && ValidPage(st.opts, page)
    ensures st.(pages := st.pages[b := page]).Valid()
  {
    var s, s' := st.Rest(), st.(pages := st.pages[b := page]).Rest();
    forall i | 0 <= i < s'.meta.nEnd ensures DataBlock(s', s'.meta.notFullPage[i]) {
      assert DataBlock(s, s.meta.notFullPage[i]);
    }
  }

  lemma {:induction false} StoreStart(st: Store, n: nat)
    requires st.Valid() && n <= st.meta.nEnd
    ensures st.(meta := st.meta.(nStart := n)).Valid()
  {
    var s, s' := st.Rest(), st.(meta := st.meta.(nStart := n)).Rest();
    forall i | 0 <= i < s'.meta.nEnd ensures DataBlock(s', s'.meta.notFullPage[i]) {
      assert DataBlock(s, s.meta.notFullPage[i]);
    }
  }

  lemma {:induction false} StoreTake(st: Store, b: nat)
    requires st.Valid()
    ensures st.(fsm := st.fsm - {b}).Valid()
  {
    var s, s' := st.Rest(), st.(fsm := st.fsm - {b}).Rest();
    forall i | 0 <= i < s'.meta.nEnd ensures DataBlock(s', s'.meta.notFullPage[i]) {
      assert DataBlock(s, s.meta.notFullPage[i]);
    }
  }

  lemma {:induction false} StoreExtend(st: Store)
    requires st.Valid()
    ensures st.(pages := st.pages + [NewPage]).Valid()
  {
    var s, s' := st.Rest(), st.(pages := st.pages + [NewPage]).Rest();
    forall i | 0 <= i < s'.meta.nEnd ensures DataBlock(s', s'.meta.notFullPage[i]) {
      assert DataBlock(s, s.meta.notFullPage[i]);
    }
  }

  lemma {:induction false} FilledKeeps(st: Store, t: BloomTuple, b: nat)
    requires st.Valid() && HEAD_BLKNO <= b < |st.pages| && Reusable(st.pages[b]) && |t.sign| == st.opts.bloomLength
    requires AddItem(st.opts, InitPage(), t).Some?
    ensures Filled(st, t, b).Valid()
    ensures LiveTuples(Filled(st, t, b).pages) == LiveTuples(st.pages) + multiset{t}
  {
    var page := AddItem(st.opts, InitPage(), t).value;
    assert ValidPage(st.opts, st.pages[b]);
    AddItemKeeps(st.opts, st.pages[b], t);
    LiveUpdateAdd(st.pages, b, page, t);
    StoreReplace(st, b, page);
    assert DataBlock(Filled(st, t, b).Rest(), b);
  }

  lemma {:induction false} SelectNext(ts: seq<BloomTuple>, t: BloomTuple, wanted: set<nat>)
    ensures var (was, now) := (Selected(ts, wanted), Selected(ts + [t], wanted));
            if wanted <= Bits(t.sign) then |now| == |was| + 1 && Pointers(now) == Pointers(was) + {t.heapPtr}
            else now == was
  {
    SelectedAppend(ts, t, wanted);
    PointersAppend(Selected(ts, wanted), t);
  }

  /** A data page whose counter is right. */
  predicate Counted(p: Page) {
    p.NewPage? || (p.DataPage? && p.maxoff == |p.items|)
  }

  /** How many of the first n blocks may be reused. */
  function FreeCount(pages: seq<Page>, n: nat): nat
    requires n <= |pages|
  {
    if n == 0 then 0 else FreeCount(pages, n - 1) + if Reusable(pages[n - 1]) then 1 else 0
  }

  lemma {:induction false} FreeCountIsSize(pages: seq<Page>, n: nat)
    requires n <= |pages|
    ensures FreeCount(pages, n) == |ReusableBlocks(pages, n)|
  {
    if n > 0 {
      FreeCountIsSize(pages, n - 1);
      ReusableBelow(pages, n - 1);
    }
  }

  lemma {:induction false} CleanupCounts(st: Store)
    requires st.Valid()
    ensures CountBelow(st.pages, |st.pages|) == |LiveTuples(st.pages)|
    ensures forall b | HEAD_BLKNO <= b < |st.pages| :: Counted(st.pages[b])
    ensures FreeCount(st.pages, |st.pages|) == |ReusableBlocks(st.pages, |st.pages|)|
  {
    FreeCountIsSize(st.pages, |st.pages|);
    CountIsSize(st.pages, |st.pages|);
    forall b | HEAD_BLKNO <= b < |st.pages| ensures Counted(st.pages[b]) { assert ValidPage(st.opts, st.pages[b]); }
  }

  lemma {:induction false} CleanupValid(st: Store)
    requires st.Valid()
    ensures st.(fsm := st.fsm + ReusableBlocks(st.pages, |st.pages|)).Valid()
  {
    ReusableBelow(st.pages, |st.pages|);
    var s, s' := st.Rest(), st.(fsm := st.fsm + ReusableBlocks(st.pages, |st.pages|)).Rest();
    forall i | 0 <= i < s'.meta.nEnd ensures DataBlock(s', s'.meta.notFullPage[i]) {
      assert DataBlock(s, s.meta.notFullPage[i]);
    }
  }

  lemma {:induction false} LiveUpdateAdd(pages: seq<Page>, b: nat, page: Page, t: BloomTuple)
    requires b < |pages| && PageTuples(page) == PageTuples(pages[b]) + multiset{t}
    ensures LiveTuples(pages[b := page]) == LiveTuples(pages) + multiset{t}
  {
    LiveUpdate(pages, b, page);
    GrowBoth(LiveTuples(pages), LiveTuples(pages[b := page]), PageTuples(pages[b]), PageTuples(page), t);
  }

  /** The cached page of a build takes the next tuple unless it is full. */
  lemma {:induction false} CachedPageAccepts(opts: Options, cached: Page, t: BloomTuple)
    requires opts.Valid() && Live(cached) && (cached == InitPage() || ValidPage(opts, cached))
    requires |t.sign| == opts.bloomLength
    ensures var r := AddItem(opts, cached, t);
            && (r.None? ==> |cached.items| == Capacity(opts) && ValidPage(opts, cached))
            && (r.Some? ==> ValidPage(opts, r.value) && Live(r.value) && r.value.items == cached.items + [t])
  {
    FitsBelowCapacity(opts, cached.maxoff);
  }

  /** The pages when a bulk delete has done the blocks below n. */
  function HalfVacuumed(opts: Options, pages: seq<Page>, dead: Dead, n: nat): seq<Page> {
    seq(|pages|, b requires 0 <= b < |pages| => if b < n then VacuumPage(opts, pages[b], dead) else pages[b])
  }

  /** One more block of an uninterrupted bulk delete. */
  lemma {:induction false} VacuumBlock(opts: Options, was: seq<Page>, dead: Dead, b: nat)
    requires opts.Valid() && b < |was| && ValidPage(opts, was[b])
    ensures var pages, page := HalfVacuumed(opts, was, dead, b), VacuumPage(opts, was[b], dead);
            && pages[b] == was[b] && ValidPage(opts, page)
            && pages[b := page] == HalfVacuumed(opts, was, dead, b + 1)
            && CountBelow(pages[b := page], |pages|) + (if Live(was[b]) then |Drop(was[b].items, dead)| else 0)
               == CountBelow(pages, |pages|)
  {
    var pages, page := HalfVacuumed(opts, was, dead, b), VacuumPage(opts, was[b], dead);
    VacuumPageKeeps(opts, was[b], dead);
    if Live(was[b]) { KeepDropPartition(was[b].items, dead); }
    CountUpdate(pages, b, page, |pages|);
  }

  lemma {:induction false} CountUpdate(pages: seq<Page>, b: nat, page: Page, n: nat)
    requires b < |pages| && n <= |pages|
    ensures if n <= b then CountBelow(pages[b := page], n) == CountBelow(pages, n)
            else CountBelow(pages[b := page], n) + (if Live(pages[b]) then |pages[b].items| else 0)
                 == CountBelow(pages, n) + if Live(page) then |page.items| else 0
  {
    if n > 0 { CountUpdate(pages, b, page, n - 1); }
  }

  /** Where a bulk delete stands that has done the blocks below b. */
  ghost predicate BulkProgress(opts: Options, was: seq<Page>, pages: seq<Page>, dead: Dead, b: nat, list: seq<nat>,
                               removed: nat) {
    && b <= |pages| == |was|
    && pages == HalfVacuumed(opts, was, dead, b)
    && list == FirstFit(Rooms(opts, pages, b))
    && CountBelow(pages, |pages|) + removed == CountBelow(was, |was|)
  }

  lemma {:induction false} BulkStart(opts: Options, pages: seq<Page>, dead: Dead)
    requires |pages| > 0 && pages[0] == MetaPage
    ensures BulkProgress(opts, pages, pages, dead, HEAD_BLKNO, [], 0)
  {
    assert Rooms(opts, pages, 0) == [];
    assert pages == HalfVacuumed(opts, pages, dead, HEAD_BLKNO);
  }

  lemma {:induction false} BulkNext(opts: Options, was: seq<Page>, pages: seq<Page>, dead: Dead, b: nat, list: seq<nat>,
                                    removed: nat)
    requires opts.Valid() && b < |pages| && BulkProgress(opts, was, pages, dead, b, list, removed)
    requires ValidPage(opts, was[b])
    ensures var page := VacuumPage(opts, was[b], dead);
            var gone := if Live(was[b]) then |Drop(was[b].items, dead)| else 0;
            var list' := if HasRoom(opts, page) && |list| < META_BLOCK_N then list + [b] else list;
            pages[b] == was[b] && BulkProgress(opts, was, pages[b := page], dead, b + 1, list', removed + gone)
  {
    var page := VacuumPage(opts, was[b], dead);
    VacuumBlock(opts, was, dead, b);
    RoomsNext(opts, pages, pages[b := page], b);
  }

  /** What a finished bulk delete leaves. */
  ghost function BulkStore(before: Store, pages: seq<Page>, list: seq<nat>): Store
    requires |list| <= |before.meta.notFullPage|
  {
    before.(pages := pages, meta := Meta(0, |list|, list + before.meta.notFullPage[|list|..]))
  }

  lemma {:induction false} BulkEnd(before: Store, dead: Dead, pages: seq<Page>, list: seq<nat>)
    requires before.Valid() && pages == Vacuumed(before.opts, before.pages, dead)
    requires list == FirstFit(Rooms(before.opts, pages, |pages|))
    ensures |list| <= META_BLOCK_N && BulkStore(before, pages, list).Valid()
  {
    BulkMeta(before.Rest(), BulkStore(before, pages, list).Rest(), list);
    BulkPages(before, dead, pages);
  }

  lemma {:induction false} BulkPages(before: Store, dead: Dead, pages: seq<Page>)
    requires before.opts.Valid() && ValidPages(before.Rest())
    requires pages == Vacuumed(before.opts, before.pages, dead)
    ensures ValidPages(before.(pages := pages).Rest())
  {
    forall b | HEAD_BLKNO <= b < |pages| ensures ValidPage(before.opts, pages[b]) {
      VacuumPageKeeps(before.opts, before.pages[b], dead);
    }
  }

  lemma {:induction false} BulkList(list: seq<nat>, old_: seq<nat>)
    requires |list| <= |old_|
    ensures (list + old_[|list|..])[..|list|] == list && (list + old_[|list|..])[|list|..] == old_[|list|..]
  {
  }

  lemma {:induction false} BulkMeta(s: State, s': State, list: seq<nat>)
    requires |s.meta.notFullPage| == META_BLOCK_N && s'.pages != [] && s'.pages[0] == MetaPage
    requires list == FirstFit(Rooms(s.opts, s'.pages, |s'.pages|))
    requires s'.meta == Meta(0, |list|, list + s.meta.notFullPage[|list|..])
    ensures ValidMeta(s')
  {
    var rooms := Rooms(s.opts, s'.pages, |s'.pages|);
    RoomsSorted(s.opts, s'.pages, |s'.pages|);
    forall i | 0 <= i < |list| ensures DataBlock(s', s'.meta.notFullPage[i]) {
      assert s'.meta.notFullPage[i] == list[i] == rooms[i];
      assert rooms[i] in rooms && HasRoom(s.opts, s'.pages[rooms[i]]);
    }
  }

  lemma {:induction false} BulkDone(opts: Options, was: seq<Page>, dead: Dead, pages: seq<Page>, list: seq<nat>,
                                    removed: nat)
    requires BulkProgress(opts, was, pages, dead, |pages|, list, removed)
    ensures pages == Vacuumed(opts, was, dead)
    ensures |LiveTuples(pages)| + removed == |LiveTuples(was)|
  {
    CountIsSize(pages, |pages|);
    CountIsSize(was, |was|);
  }

  lemma {:induction false} RoomsNext(opts: Options, pages: seq<Page>, pages': seq<Page>, b: nat)
    requires b < |pages| == |pages'| && pages' == pages[b := pages'[b]]
    ensures Rooms(opts, pages', b + 1) == Rooms(opts, pages, b) + if HasRoom(opts, pages'[b]) then [b] else []
  {
    RoomsCong(opts, pages, pages', b);
  }
}
