/** A bulk delete, a cleanup or a scan that nobody interferes with, as a sequence of steps of the protocol:
    it comes to what the methods of BloomIndex compute. */
module BloomAlone {
  import opened Wrappers
  import opened BloomWords
  import opened BloomSignature
  import opened BloomPage
  import opened BloomProtocol
  import opened BloomSolo
  import opened BloomIndex

  // ---------------------------------------------------------------- bulk delete

  /** The bulk delete p when it has done the blocks below b. */
  function VacuumState(st: Store, p: nat, dead: Dead, b: nat, removals: seq<(nat, BloomTuple)>): State
    requires b <= |st.pages|
  {
    var pages := HalfVacuumed(st.opts, st.pages, dead, b);
    State(st.opts, pages, st.meta, st.fsm, None, map[],
          map[p := VacuumPages(dead, |st.pages|, b, FirstFit(Rooms(st.opts, pages, b)))], [], [], removals)
  }

  lemma {:induction false} VacuumBegins(st: Store, p: nat, dead: Dead)
    requires st.Valid()
    ensures Steps(st.Rest(), [BeginVacuum(p, dead)], VacuumState(st, p, dead, HEAD_BLKNO, []))
  {
    NoSteps(st.Rest());
    StepsNext(st.Rest(), [], st.Rest(), BeginVacuum(p, dead));
    assert [] + [BeginVacuum(p, dead)] == [BeginVacuum(p, dead)];
    BulkStart(st.opts, st.pages, dead);
  }

  lemma {:induction false} VacuumSteps(st: Store, p: nat, dead: Dead, b: nat, removals: seq<(nat, BloomTuple)>)
    returns (more: seq<(nat, BloomTuple)>)
    requires st.opts.Valid() && HEAD_BLKNO <= b < |st.pages| && ValidPage(st.opts, st.pages[b])
    ensures Enabled(VacuumState(st, p, dead, b, removals), VacuumNext(p))
    ensures Apply(VacuumState(st, p, dead, b, removals), VacuumNext(p)) == VacuumState(st, p, dead, b + 1, more)
  {
    var s := VacuumState(st, p, dead, b, removals);
    var c, page := s.procs[p], VacuumPage(st.opts, st.pages[b], dead);
    HalfStep(st.opts, st.pages, dead, b);
    RoomsNext(st.opts, s.pages, s.pages[b := page], b);
    FirstFitNext(Rooms(st.opts, s.pages, b), b, HasRoom(st.opts, page));
    var s' := DoVacuumNext(s, p, c);
    assert Apply(s, VacuumNext(p)) == s';
    more := s'.removals;
    SetAgain(p, c, s'.procs[p]);
    assert s'.pages == HalfVacuumed(st.opts, st.pages, dead, b + 1);
    assert s' == VacuumState(st, p, dead, b + 1, more);
  }

  lemma {:induction false} FirstFitNext(rooms: seq<nat>, b: nat, room: bool)
    ensures FirstFit(rooms + if room then [b] else [])
            == if room && |FirstFit(rooms)| < META_BLOCK_N then FirstFit(rooms) + [b] else FirstFit(rooms)
  {
    if !room { assert rooms + [] == rooms; }
  }

  lemma {:induction false} HalfStep(opts: Options, was: seq<Page>, dead: Dead, b: nat)
    requires b < |was|
    ensures var pages := HalfVacuumed(opts, was, dead, b);
            pages[b] == was[b] && pages[b := VacuumPage(opts, was[b], dead)] == HalfVacuumed(opts, was, dead, b + 1)
  {
  }

  lemma {:induction false} VacuumTo(st: Store, p: nat, dead: Dead, b: nat)
    returns (acts: seq<Action>, removals: seq<(nat, BloomTuple)>)
    requires st.Valid() && HEAD_BLKNO <= b <= |st.pages|
    ensures Steps(st.Rest(), acts, VacuumState(st, p, dead, b, removals))
  {
    if b == HEAD_BLKNO {
      VacuumBegins(st, p, dead);
      acts, removals := [BeginVacuum(p, dead)], [];
    } else {
      var before, was := VacuumTo(st, p, dead, b - 1);
      BlockValid(st, b - 1);
      removals := VacuumSteps(st, p, dead, b - 1, was);
      acts := before + [VacuumNext(p)];
      StepsTo(st.Rest(), before, VacuumState(st, p, dead, b - 1, was), VacuumNext(p),
              VacuumState(st, p, dead, b, removals));
    }
  }

  lemma {:induction false} BlockValid(st: Store, b: nat)
    requires st.Valid() && HEAD_BLKNO <= b < |st.pages|
    ensures st.opts.Valid() && ValidPage(st.opts, st.pages[b])
  {
  }

  /** Run alone, a bulk delete leaves the pages and the candidate list that Index.BulkDelete promises. */
  lemma {:induction false} VacuumAlone(st: Store, p: nat, dead: Dead) returns (acts: seq<Action>, s: State)
    requires st.Valid()
    ensures Steps(st.Rest(), acts, s) && s.procs == map[p := VacuumDone(dead)] && s.fsm == st.fsm
    ensures s.pages == Vacuumed(st.opts, st.pages, dead)
    ensures var list := FirstFit(Rooms(st.opts, s.pages, |s.pages|));
            |list| <= |st.meta.notFullPage| && s.meta == Meta(0, |list|, list + st.meta.notFullPage[|list|..])
  {
    var removals, n := [], |st.pages|;
    acts, removals := VacuumTo(st, p, dead, n);
    var m := VacuumState(st, p, dead, n, removals);
    var c := m.procs[p];
    StepsNext(st.Rest(), acts, m, VacuumMeta(p));
    acts, s := acts + [VacuumMeta(p)], DoVacuumMeta(m, p, c);
    assert Apply(m, VacuumMeta(p)) == s;
    SetAgain(p, c, VacuumDone(dead));
    assert s.pages == Vacuumed(st.opts, st.pages, dead);
  }

  // ---------------------------------------------------------------- cleanup

  /** The cleanup p when it has looked at the blocks below b. */
  function CleanupState(st: Store, p: nat, b: nat, fsm: set<nat>, free: nat, tuples: nat): State {
    State(st.opts, st.pages, st.meta, fsm, None, map[], map[p := CleanupPages(|st.pages|, b, free, tuples)], [], [], [])
  }

  lemma {:induction false} CleanupBegins(st: Store, p: nat)
    ensures Steps(st.Rest(), [BeginCleanup(p)], CleanupState(st, p, HEAD_BLKNO, st.fsm, 0, 0))
  {
    NoSteps(st.Rest());
    StepsNext(st.Rest(), [], st.Rest(), BeginCleanup(p));
    assert [] + [BeginCleanup(p)] == [BeginCleanup(p)];
  }

  lemma {:induction false} CleanupFree(st: Store, p: nat, b: nat, fsm: set<nat>, free: nat, tuples: nat)
    requires HEAD_BLKNO <= b < |st.pages| && Reusable(st.pages[b])
    ensures Enabled(CleanupState(st, p, b, fsm, free, tuples), CleanupNext(p))
    ensures Apply(CleanupState(st, p, b, fsm, free, tuples), CleanupNext(p))
            == CleanupState(st, p, b + 1, fsm + {b}, free + 1, tuples)
  {
    var s, c := CleanupState(st, p, b, fsm, free, tuples), CleanupPages(|st.pages|, b, free, tuples);
    var s' := DoCleanupNext(s, p, c);
    assert Apply(s, CleanupNext(p)) == s';
    SetAgain(p, c, CleanupPages(|st.pages|, b + 1, free + 1, tuples));
    assert s'.fsm == fsm + {b} && s'.procs == map[p := CleanupPages(|st.pages|, b + 1, free + 1, tuples)];
    assert s' == CleanupState(st, p, b + 1, fsm + {b}, free + 1, tuples);
  }

  lemma {:induction false} CleanupLive(st: Store, p: nat, b: nat, fsm: set<nat>, free: nat, tuples: nat)
    requires HEAD_BLKNO <= b < |st.pages| && st.pages[b].DataPage? && !Reusable(st.pages[b])
    ensures Enabled(CleanupState(st, p, b, fsm, free, tuples), CleanupNext(p))
    ensures Apply(CleanupState(st, p, b, fsm, free, tuples), CleanupNext(p))
            == CleanupState(st, p, b + 1, fsm, free, tuples + st.pages[b].maxoff)
  {
    var s, c := CleanupState(st, p, b, fsm, free, tuples), CleanupPages(|st.pages|, b, free, tuples);
    var s' := DoCleanupNext(s, p, c);
    assert Apply(s, CleanupNext(p)) == s';
    SetAgain(p, c, CleanupPages(|st.pages|, b + 1, free, tuples + st.pages[b].maxoff));
    assert s' == CleanupState(st, p, b + 1, fsm, free, tuples + st.pages[b].maxoff);
  }

  /** The cleanup's turn on one block. */
  lemma {:induction false} CleanupStep(st: Store, p: nat, b: nat, was: set<nat>) returns (fsm: set<nat>)
    requires HEAD_BLKNO <= b < |st.pages| && Counted(st.pages[b]) && was == st.fsm + ReusableBlocks(st.pages, b)
    ensures fsm == st.fsm + ReusableBlocks(st.pages, b + 1)
    ensures var s := CleanupState(st, p, b, was, FreeCount(st.pages, b), CountBelow(st.pages, b));
            && Enabled(s, CleanupNext(p))
            && Apply(s, CleanupNext(p))
               == CleanupState(st, p, b + 1, fsm, FreeCount(st.pages, b + 1), CountBelow(st.pages, b + 1))
  {
    var free, tuples := FreeCount(st.pages, b), CountBelow(st.pages, b);
    if Reusable(st.pages[b]) {
      CleanupFree(st, p, b, was, free, tuples);
      fsm := was + {b};
    } else {
      CleanupLive(st, p, b, was, free, tuples);
      fsm := was;
    }
  }

  lemma {:induction false} CleanupTo(st: Store, p: nat, b: nat) returns (acts: seq<Action>, fsm: set<nat>)
    requires HEAD_BLKNO <= b <= |st.pages| && st.pages[0] == MetaPage
    requires forall k | HEAD_BLKNO <= k < |st.pages| :: Counted(st.pages[k])
    ensures fsm == st.fsm + ReusableBlocks(st.pages, b)
    ensures Steps(st.Rest(), acts, CleanupState(st, p, b, fsm, FreeCount(st.pages, b), CountBelow(st.pages, b)))
  {
    if b == HEAD_BLKNO {
      CleanupBegins(st, p);
      CleanupNothing(st.pages);
      acts, fsm := [BeginCleanup(p)], st.fsm;
    } else {
      var before, was := CleanupTo(st, p, b - 1);
      acts := before + [CleanupNext(p)];
      fsm := CleanupStep(st, p, b - 1, was);
      StepsTo(st.Rest(), before,
              CleanupState(st, p, b - 1, was, FreeCount(st.pages, b - 1), CountBelow(st.pages, b - 1)), CleanupNext(p),
              CleanupState(st, p, b, fsm, FreeCount(st.pages, b), CountBelow(st.pages, b)));
    }
  }

  lemma {:induction false} CleanupNothing(pages: seq<Page>)
    requires |pages| > 0 && pages[0] == MetaPage
    ensures CountBelow(pages, HEAD_BLKNO) == 0 && FreeCount(pages, HEAD_BLKNO) == 0
    ensures ReusableBlocks(pages, HEAD_BLKNO) == {}
  {
    assert CountBelow(pages, 0) == 0 && FreeCount(pages, 0) == 0 && ReusableBlocks(pages, 0) == {};
  }

  /** Run alone, a cleanup records and counts what Index.VacuumCleanup promises. */
  lemma {:induction false} CleanupAlone(st: Store, p: nat) returns (acts: seq<Action>, s: State)
    requires st.Valid()
    ensures Steps(st.Rest(), acts, s) && s.pages == st.pages && s.fsm == st.fsm + ReusableBlocks(st.pages, |st.pages|)
    ensures s.procs == map[p := CleanupPages(|st.pages|, |st.pages|, |ReusableBlocks(st.pages, |st.pages|)|,
                                             |LiveTuples(st.pages)|)]
  {
    CleanupCounts(st);
    var fsm;
    acts, fsm := CleanupTo(st, p, |st.pages|);
    s := CleanupState(st, p, |st.pages|, fsm, FreeCount(st.pages, |st.pages|), CountBelow(st.pages, |st.pages|));
  }

  // ---------------------------------------------------------------- scan

  /** What a scan finds on the blocks 1..b - 1. */
  function FoundBelow(pages: seq<Page>, b: nat, wanted: Signature): set<ItemPointer>
    requires HEAD_BLKNO <= b <= |pages|
  {
    if b == HEAD_BLKNO then {} else FoundBelow(pages, b - 1, wanted) + PageHits(pages[b - 1], wanted)
  }

  /** The scan p when it has read the blocks below b. */
  function ScanState(st: Store, p: nat, wanted: Signature, b: nat, found: set<ItemPointer>): State {
    st.With(p, ScanPages(wanted, st.pages, 0, b, found), None, map[])
  }

  /** What one more page adds to a scan. */
  lemma {:induction false} HitsAdd(pages: seq<Page>, b: nat, wanted: Signature)
    requires b < |pages|
    ensures Pointers(Selected(ItemsBelow(pages, b + 1), Bits(wanted)))
            == Pointers(Selected(ItemsBelow(pages, b), Bits(wanted))) + PageHits(pages[b], wanted)
  {
    var items := if Live(pages[b]) then pages[b].items else [];
    assert ItemsBelow(pages, b + 1) == ItemsBelow(pages, b) + items;
    SelectedPointers(ItemsBelow(pages, b), items, Bits(wanted));
    assert PageHits(pages[b], wanted) == set t | t in items && Bits(wanted) <= Bits(t.sign) :: t.heapPtr;
  }

  lemma {:induction false} SelectedPointers(a: seq<BloomTuple>, items: seq<BloomTuple>, wanted: set<nat>)
    ensures Pointers(Selected(a + items, wanted))
            == Pointers(Selected(a, wanted)) + set t | t in items && wanted <= Bits(t.sign) :: t.heapPtr
  {
    if items == [] {
      assert a + items == a;
    } else {
      var n := |items| - 1;
      assert a + items == a + items[..n] + [items[n]];
      SelectNext(a + items[..n], items[n], wanted);
      SelectedPointers(a, items[..n], wanted);
      assert items == items[..n] + [items[n]];
    }
  }

  lemma {:induction false} NothingFound(pages: seq<Page>, wanted: set<nat>)
    requires |pages| > 0 && pages[0] == MetaPage
    ensures Pointers(Selected(ItemsBelow(pages, HEAD_BLKNO), wanted)) == {}
  {
    assert ItemsBelow(pages, HEAD_BLKNO) == [] by { assert ItemsBelow(pages, 0) == []; }
  }

  lemma {:induction false} BothGrow<T>(a: set<T>, b: set<T>, a': set<T>, b': set<T>, more: set<T>)
    requires a == b && a' == a + more && b' == b + more
    ensures a' == b'
  {
  }

  lemma {:induction false} FoundIsSelected(pages: seq<Page>, b: nat, wanted: Signature)
    requires HEAD_BLKNO <= b <= |pages| && pages[0] == MetaPage
    ensures FoundBelow(pages, b, wanted) == Pointers(Selected(ItemsBelow(pages, b), Bits(wanted)))
  {
    if b == HEAD_BLKNO {
      NothingFound(pages, Bits(wanted));
    } else {
      FoundIsSelected(pages, b - 1, wanted);
      HitsAdd(pages, b - 1, wanted);
      BothGrow(FoundBelow(pages, b - 1, wanted), Pointers(Selected(ItemsBelow(pages, b - 1), Bits(wanted))),
               FoundBelow(pages, b, wanted), Pointers(Selected(ItemsBelow(pages, b), Bits(wanted))),
               PageHits(pages[b - 1], wanted));
    }
  }

  lemma {:induction false} ScanBegins(st: Store, p: nat, wanted: Signature)
    requires |wanted| == st.opts.bloomLength
    ensures Steps(st.Rest(), [BeginScan(p, wanted)], ScanState(st, p, wanted, HEAD_BLKNO, {}))
  {
    NoSteps(st.Rest());
    StepsNext(st.Rest(), [], st.Rest(), BeginScan(p, wanted));
    assert [] + [BeginScan(p, wanted)] == [BeginScan(p, wanted)];
  }

  lemma {:induction false} ScanTo(st: Store, p: nat, wanted: Signature, b: nat)
    returns (acts: seq<Action>, found: set<ItemPointer>)
    requires |wanted| == st.opts.bloomLength && HEAD_BLKNO <= b <= |st.pages|
    requires forall k | HEAD_BLKNO <= k < |st.pages| :: st.pages[k] != MetaPage
    ensures Steps(st.Rest(), acts, ScanState(st, p, wanted, b, found)) && found == FoundBelow(st.pages, b, wanted)
  {
    if b == HEAD_BLKNO {
      ScanBegins(st, p, wanted);
      acts, found := [BeginScan(p, wanted)], {};
    } else {
      var before, was := ScanTo(st, p, wanted, b - 1);
      found := was + PageHits(st.pages[b - 1], wanted);
      acts := before + [ScanNext(p)];
      ScanApplies(st, p, wanted, b - 1, was, found);
      StepsTo(st.Rest(), before, ScanState(st, p, wanted, b - 1, was), ScanNext(p), ScanState(st, p, wanted, b, found));
    }
  }

  lemma {:induction false} ScanApplies(st: Store, p: nat, wanted: Signature, b: nat, was: set<ItemPointer>,
                                       found: set<ItemPointer>)
    requires HEAD_BLKNO <= b < |st.pages| && st.pages[b] != MetaPage && found == was + PageHits(st.pages[b], wanted)
    ensures Enabled(ScanState(st, p, wanted, b, was), ScanNext(p))
    ensures Apply(ScanState(st, p, wanted, b, was), ScanNext(p)) == ScanState(st, p, wanted, b + 1, found)
  {
    var s, c := ScanState(st, p, wanted, b, was), ScanPages(wanted, st.pages, 0, b, was);
    var s' := DoScanNext(s, p, c);
    assert Apply(s, ScanNext(p)) == s';
    SetAgain(p, c, ScanPages(wanted, st.pages, 0, b + 1, found));
    assert s'.procs == map[p := ScanPages(wanted, st.pages, 0, b + 1, found)];
  }

  /** Run alone, a scan reports the pointers that Index.GetBitmap promises. */
  lemma {:induction false} ScanAlone(st: Store, p: nat, wanted: Signature) returns (acts: seq<Action>, s: State)
    requires st.Valid() && |wanted| == st.opts.bloomLength
    ensures Steps(st.Rest(), acts, s)
    ensures s.procs == map[p := ScanDone(wanted, st.pages, 0, Pointers(Selected(AllItems(st.pages), Bits(wanted))))]
  {
    var found;
    forall k | HEAD_BLKNO <= k < |st.pages| ensures st.pages[k] != MetaPage { assert ValidPage(st.opts, st.pages[k]); }
    acts, found := ScanTo(st, p, wanted, |st.pages|);
    FoundIsSelected(st.pages, |st.pages|, wanted);
    var m := ScanState(st, p, wanted, |st.pages|, found);
    StepsNext(st.Rest(), acts, m, ScanNext(p));
    acts, s := acts + [ScanNext(p)], Apply(m, ScanNext(p));
    SetAgain(p, m.procs[p], ScanDone(wanted, st.pages, 0, found));
  }
}
