/** The concurrent protocol of a bloom index: any number of inserters, bulk deletes, cleanups and
    scans, interleaved at the granularity of buffer locks (blinsert.c, blvacuum.c, blscan.c,
    blutils.c). Every section that runs under one buffer lock is one step; GenericXLog makes the
    pages it registered change together or not at all, so a failing step changes nothing. */
module BloomProtocol {
  import opened Wrappers
  import opened BloomWords
  import opened BloomSignature
  import opened BloomPage

  /** The part of the metapage that changes: slots nStart..nEnd of notFullPage name candidates. */
  datatype Meta = Meta(nStart: nat, nEnd: nat, notFullPage: seq<nat>)

  /** Where an operation is between two locked sections, with its local variables. */
  datatype Proc =
    /** blinsert, tuple formed, nothing locked */
    | InsertStart(t: BloomTuple)
    /** read notFullPage[nStart] and dropped the metapage lock */
    | InsertTryFirst(t: BloomTuple, blkno: nat)
    /** about to take the metapage exclusively; remembers the block tried without it */
    | InsertWantMeta(t: BloomTuple, tried: Option<nat>)
    /** metapage held, local nStart */
    | InsertTryNext(t: BloomTuple, nStart: nat)
    /** metapage held, list exhausted, in BloomNewBuffer */
    | InsertAlloc(t: BloomTuple)
    /** metapage held, a block taken from the free space map but not yet locked */
    | InsertGotFree(t: BloomTuple, blkno: nat)
    /** metapage and the new block's buffer held */
    | InsertFill(t: BloomTuple, blkno: nat)
    | InsertDone(t: BloomTuple)
    | VacuumPages(dead: Dead, npages: nat, blkno: nat, notFull: seq<nat>)
    | VacuumDone(dead: Dead)
    | CleanupPages(npages: nat, blkno: nat, free: nat, tuples: nat)
    /** a scan; snapshot and mark are history: the pages, and the removals, when it counted blocks */
    | ScanPages(wanted: Signature, snapshot: seq<Page>, mark: nat, blkno: nat, found: set<ItemPointer>)
    | ScanDone(wanted: Signature, snapshot: seq<Page>, mark: nat, found: set<ItemPointer>)
    | Failed

  /** The index, the locks, the running operations, and three histories: the tuples the index was
      built with, the inserts that applied and the removals that applied, with their blocks. */
  datatype State = State(
    opts: Options,
    pages: seq<Page>,
    meta: Meta,
    fsm: set<nat>,
    metaLock: Option<nat>,
    pageLock: map<nat, nat>,
    procs: map<nat, Proc>,
    built: seq<BloomTuple>,
    inserts: seq<(nat, BloomTuple)>,
    removals: seq<(nat, BloomTuple)>)

  datatype Action =
    | BeginInsert(p: nat, t: BloomTuple)
    | ReadMeta(p: nat)
    | TryFirst(p: nat)
    | LockMeta(p: nat)
    | TryNext(p: nat)
    | TakeFree(p: nat, blkno: nat)
    | CheckFree(p: nat)
    | Extend(p: nat)
    | Fill(p: nat)
    | BeginVacuum(p: nat, dead: Dead)
    | VacuumNext(p: nat)
    | VacuumMeta(p: nat)
    | BeginCleanup(p: nat)
    | CleanupNext(p: nat)
    | BeginScan(p: nat, wanted: Signature)
    | ScanNext(p: nat)
    /** an error or a crash ends the operation and drops its locks */
    | Fail(p: nat)
    /** the free space map is not crash safe: it may come to name any data blocks */
    | ScrambleFsm(fsm: set<nat>)

  predicate DataBlock(s: State, b: nat) {
    HEAD_BLKNO <= b < |s.pages|
  }

  /** Blocks whose buffer another operation does not hold. */
  predicate Unlocked(s: State, b: nat) {
    b !in s.pageLock
  }

  predicate At(s: State, p: nat, kind: Proc -> bool) {
    p in s.procs && kind(s.procs[p])
  }

  function SetProc(s: State, p: nat, pc: Proc): State {
    s.(procs := s.procs[p := pc])
  }

  function SetPage(s: State, b: nat, page: Page): State
    requires b < |s.pages|
  {
    s.(pages := s.pages[b := page])
  }

  /** The insert of operation p has applied. */
  function Applied(s: State, p: nat, t: BloomTuple): State {
    SetProc(s.(inserts := s.inserts + [(p, t)]), p, InsertDone(t))
  }

  function Tag(b: nat, ts: seq<BloomTuple>): seq<(nat, BloomTuple)> {
    seq(|ts|, i requires 0 <= i < |ts| => (b, ts[i]))
  }

  function Untag(log: seq<(nat, BloomTuple)>): seq<BloomTuple> {
    seq(|log|, i requires 0 <= i < |log| => log[i].1)
  }

  // ---------------------------------------------------------------- when a step can be taken

  ghost predicate Enabled(s: State, a: Action) {
    match a
    case BeginInsert(p, t) => p !in s.procs && FromRow(s.opts, t)
    case ReadMeta(p) => At(s, p, (c: Proc) => c.InsertStart?) && s.metaLock.None? && ReadMetaOk(s)
    case TryFirst(p) =>
      && At(s, p, (c: Proc) => c.InsertTryFirst?)
      && PageReady(s, s.procs[p].blkno)
    case LockMeta(p) => At(s, p, (c: Proc) => c.InsertWantMeta?) && s.metaLock.None? && ReadMetaOk(s)
    case TryNext(p) =>
      && At(s, p, (c: Proc) => c.InsertTryNext?)
      && s.meta.nEnd <= |s.meta.notFullPage|
      && (s.procs[p].nStart < s.meta.nEnd ==> PageReady(s, s.meta.notFullPage[s.procs[p].nStart]))
    case TakeFree(p, b) => At(s, p, (c: Proc) => c.InsertAlloc?) && b in s.fsm
    case CheckFree(p) => At(s, p, (c: Proc) => c.InsertGotFree?) && s.procs[p].blkno < |s.pages|
    case Extend(p) => At(s, p, (c: Proc) => c.InsertAlloc?)
    case Fill(p) =>
      && At(s, p, (c: Proc) => c.InsertFill?)
      && s.procs[p].blkno < |s.pages|
      && |s.meta.notFullPage| > 0
      && AddItem(s.opts, InitPage(), s.procs[p].t).Some?
    case BeginVacuum(p, dead) => p !in s.procs
    case VacuumNext(p) =>
      && At(s, p, (c: Proc) => c.VacuumPages?)
      && s.procs[p].blkno < s.procs[p].npages
      && PageReady(s, s.procs[p].blkno)
    case VacuumMeta(p) =>
      && At(s, p, (c: Proc) => c.VacuumPages?)
      && s.procs[p].blkno >= s.procs[p].npages
      && s.metaLock.None?
      && |s.procs[p].notFull| <= |s.meta.notFullPage|
    case BeginCleanup(p) => p !in s.procs
    case CleanupNext(p) =>
      && At(s, p, (c: Proc) => c.CleanupPages?)
      && s.procs[p].blkno < s.procs[p].npages
      && PageReady(s, s.procs[p].blkno)
    case BeginScan(p, wanted) => p !in s.procs && |wanted| == s.opts.bloomLength
    case ScanNext(p) =>
      && At(s, p, (c: Proc) => c.ScanPages?)
      && (s.procs[p].blkno < |s.procs[p].snapshot| ==> PageReady(s, s.procs[p].blkno))
    case Fail(p) => p in s.procs && !Finished(s.procs[p])
    case ScrambleFsm(fsm) => forall b | b in fsm :: DataBlock(s, b)
  }

  predicate Finished(c: Proc) {
    c.InsertDone? || c.VacuumDone? || c.ScanDone? || c.Failed?
  }

  predicate ReadMetaOk(s: State) {
    s.meta.nStart < s.meta.nEnd ==> s.meta.nStart < |s.meta.notFullPage|
  }

  /** The buffer of block b can be read and locked. */
  predicate PageReady(s: State, b: nat) {
    b < |s.pages| && s.pages[b] != MetaPage && Unlocked(s, b)
  }

  /** The index stores only tuples that BloomFormTuple made of some row. */
  ghost predicate FromRow(opts: Options, t: BloomTuple) {
    opts.Valid() && |t.sign| == opts.bloomLength && exists row: Row :: Formed(opts, t.heapPtr, row, t)
  }

  // ---------------------------------------------------------------- what a step does

  function Apply(s: State, a: Action): State
    requires Enabled(s, a)
  {
    match a
    case BeginInsert(p, t) => SetProc(s, p, InsertStart(t))
    case ReadMeta(p) => DoReadMeta(s, p, s.procs[p].t)
    case TryFirst(p) => DoTryFirst(s, p, s.procs[p].t, s.procs[p].blkno)
    case LockMeta(p) => DoLockMeta(s, p, s.procs[p].t, s.procs[p].tried)
    case TryNext(p) => DoTryNext(s, p, s.procs[p].t, s.procs[p].nStart)
    case TakeFree(p, b) => SetProc(s.(fsm := s.fsm - {b}), p, InsertGotFree(s.procs[p].t, b))
    case CheckFree(p) => DoCheckFree(s, p, s.procs[p].t, s.procs[p].blkno)
    case Extend(p) => DoExtend(s, p, s.procs[p].t)
    case Fill(p) => DoFill(s, p, s.procs[p].t, s.procs[p].blkno)
    case BeginVacuum(p, dead) => SetProc(s, p, VacuumPages(dead, |s.pages|, HEAD_BLKNO, []))
    case VacuumNext(p) => DoVacuumNext(s, p, s.procs[p])
    case VacuumMeta(p) => DoVacuumMeta(s, p, s.procs[p])
    case BeginCleanup(p) => SetProc(s, p, CleanupPages(|s.pages|, HEAD_BLKNO, 0, 0))
    case CleanupNext(p) => DoCleanupNext(s, p, s.procs[p])
    case BeginScan(p, wanted) => SetProc(s, p, ScanPages(wanted, s.pages, |s.removals|, HEAD_BLKNO, {}))
    case ScanNext(p) => DoScanNext(s, p, s.procs[p])
    case Fail(p) => DoFail(s, p)
    case ScrambleFsm(fsm) => s.(fsm := fsm)
  }

  function DoReadMeta(s: State, p: nat, t: BloomTuple): State
    requires ReadMetaOk(s)
  {
    if s.meta.nEnd > s.meta.nStart then
      SetProc(s, p, InsertTryFirst(t, s.meta.notFullPage[s.meta.nStart]))
    else
      SetProc(s, p, InsertWantMeta(t, None))
  }

  function DoTryFirst(s: State, p: nat, t: BloomTuple, b: nat): State
    requires PageReady(s, b)
  {
    match AddItem(s.opts, Prepared(s.pages[b]), t)
    case Some(page) => Applied(SetPage(s, b, page), p, t)
    case None => SetProc(s, p, InsertWantMeta(t, Some(b)))
  }

  function DoLockMeta(s: State, p: nat, t: BloomTuple, tried: Option<nat>): State
    requires ReadMetaOk(s)
  {
    var m := s.meta;
    var skip := m.nStart < m.nEnd && tried == Some(m.notFullPage[m.nStart]);
    SetProc(s.(metaLock := Some(p)), p, InsertTryNext(t, if skip then m.nStart + 1 else m.nStart))
  }

  function DoTryNext(s: State, p: nat, t: BloomTuple, n: nat): State
    requires s.meta.nEnd <= |s.meta.notFullPage|
    requires n < s.meta.nEnd ==> PageReady(s, s.meta.notFullPage[n])
  {
    if n >= s.meta.nEnd then SetProc(s, p, InsertAlloc(t))
    else
      var b := s.meta.notFullPage[n];
      match AddItem(s.opts, Prepared(s.pages[b]), t)
      case Some(page) =>
        Applied(SetPage(s, b, page).(meta := s.meta.(nStart := n), metaLock := None), p, t)
      case None => SetProc(s, p, InsertTryNext(t, n + 1))
  }

  /** ConditionalLockBuffer, then the check that nobody recycled the block meanwhile. */
  function DoCheckFree(s: State, p: nat, t: BloomTuple, b: nat): State
    requires b < |s.pages|
  {
    if Unlocked(s, b) && Reusable(s.pages[b]) then
      SetProc(s.(pageLock := s.pageLock[b := p]), p, InsertFill(t, b))
    else
      SetProc(s, p, InsertAlloc(t))
  }

  /** ExtendBufferedRel: the new zeroed block is visible at once, but locked. */
  function DoExtend(s: State, p: nat, t: BloomTuple): State {
    var b := |s.pages|;
    SetProc(s.(pages := s.pages + [NewPage], pageLock := s.pageLock[b := p]), p, InsertFill(t, b))
  }

  function DoFill(s: State, p: nat, t: BloomTuple, b: nat): State
    requires b < |s.pages| && |s.meta.notFullPage| > 0
    requires AddItem(s.opts, InitPage(), t).Some?
  {
    var page := AddItem(s.opts, InitPage(), t).value;
    var meta := Meta(0, 1, s.meta.notFullPage[0 := b]);
    Applied(SetPage(s, b, page).(meta := meta, metaLock := None, pageLock := s.pageLock - {b}), p, t)
  }

  function DoVacuumNext(s: State, p: nat, c: Proc): State
    requires c.VacuumPages? && PageReady(s, c.blkno)
  {
    var page := VacuumPage(s.opts, s.pages[c.blkno], c.dead);
    var dropped := if Live(s.pages[c.blkno]) then Drop(s.pages[c.blkno].items, c.dead) else [];
    var list := if HasRoom(s.opts, page) && |c.notFull| < META_BLOCK_N then c.notFull + [c.blkno] else c.notFull;
    SetProc(SetPage(s, c.blkno, page).(removals := s.removals + Tag(c.blkno, dropped)),
            p, c.(blkno := c.blkno + 1, notFull := list))
  }

  function DoVacuumMeta(s: State, p: nat, c: Proc): State
    requires c.VacuumPages? && |c.notFull| <= |s.meta.notFullPage|
  {
    var meta := Meta(0, |c.notFull|, c.notFull + s.meta.notFullPage[|c.notFull|..]);
    SetProc(s.(meta := meta), p, VacuumDone(c.dead))
  }

  function DoCleanupNext(s: State, p: nat, c: Proc): State
    requires c.CleanupPages? && PageReady(s, c.blkno)
  {
    if Reusable(s.pages[c.blkno]) then
      SetProc(s.(fsm := s.fsm + {c.blkno}), p, c.(blkno := c.blkno + 1, free := c.free + 1))
    else
      SetProc(s, p, c.(blkno := c.blkno + 1, tuples := c.tuples + s.pages[c.blkno].maxoff))
  }

  /** The heap pointers that one page contributes to a scan. */
  function PageHits(page: Page, wanted: Signature): set<ItemPointer> {
    if !Live(page) then {}
    else set t | t in page.items && Bits(wanted) <= Bits(t.sign) :: t.heapPtr
  }

  function DoScanNext(s: State, p: nat, c: Proc): State
    requires c.ScanPages?
    requires c.blkno < |c.snapshot| ==> PageReady(s, c.blkno)
  {
    if c.blkno >= |c.snapshot| then
      SetProc(s, p, ScanDone(c.wanted, c.snapshot, c.mark, c.found))
    else
      SetProc(s, p, c.(blkno := c.blkno + 1, found := c.found + PageHits(s.pages[c.blkno], c.wanted)))
  }

  function DoFail(s: State, p: nat): State {
    SetProc(s.(metaLock := if s.metaLock == Some(p) then None else s.metaLock,
               pageLock := map b | b in s.pageLock && s.pageLock[b] != p :: s.pageLock[b]),
            p, Failed)
  }

  // ---------------------------------------------------------------- the invariant

  /** The tuples on the live pages among the first n blocks, with their multiplicities. */
  function LiveBelow(pages: seq<Page>, n: nat): multiset<BloomTuple>
    requires n <= |pages|
  {
    if n == 0 then multiset{} else LiveBelow(pages, n - 1) + PageTuples(pages[n - 1])
  }

  /** The tuples a scan of all pages would see. */
  function LiveTuples(pages: seq<Page>): multiset<BloomTuple> {
    LiveBelow(pages, |pages|)
  }

  predicate ValidPages(s: State)
    requires s.opts.Valid()
  {
    && |s.pages| > 0
    && s.pages[METAPAGE_BLKNO] == MetaPage
    && forall b | HEAD_BLKNO <= b < |s.pages| :: ValidPage(s.opts, s.pages[b])
  }

  predicate ValidMeta(s: State) {
    && |s.meta.notFullPage| == META_BLOCK_N
    && s.meta.nStart <= s.meta.nEnd <= META_BLOCK_N
    && forall i | 0 <= i < s.meta.nEnd :: DataBlock(s, s.meta.notFullPage[i])
  }

  predicate HoldsMeta(c: Proc) {
    c.InsertTryNext? || c.InsertAlloc? || c.InsertGotFree? || c.InsertFill?
  }

  /** Who holds which lock; a buffer lock outlives a step only in InsertFill. */
  predicate ValidLocks(s: State) {
    && (s.metaLock.Some? ==> s.metaLock.value in s.procs && HoldsMeta(s.procs[s.metaLock.value]))
    && (forall p | p in s.procs && HoldsMeta(s.procs[p]) :: s.metaLock == Some(p))
    && (forall b | b in s.pageLock ::
          s.pageLock[b] in s.procs && s.procs[s.pageLock[b]].InsertFill? && s.procs[s.pageLock[b]].blkno == b)
    && (forall p | p in s.procs && s.procs[p].InsertFill? ::
          s.procs[p].blkno in s.pageLock && s.pageLock[s.procs[p].blkno] == p)
  }

  ghost predicate ValidProc(s: State, c: Proc) {
    match c
    case InsertStart(t) => FromRow(s.opts, t)
    case InsertTryFirst(t, b) => FromRow(s.opts, t) && DataBlock(s, b)
    case InsertWantMeta(t, _) => FromRow(s.opts, t)
    case InsertTryNext(t, n) => FromRow(s.opts, t) && s.meta.nStart <= n <= s.meta.nEnd
    case InsertAlloc(t) => FromRow(s.opts, t)
    case InsertGotFree(t, b) => FromRow(s.opts, t) && DataBlock(s, b)
    case InsertFill(t, b) => FromRow(s.opts, t) && DataBlock(s, b) && Reusable(s.pages[b])
    case InsertDone(t) => true
    case VacuumPages(_, npages, b, list) =>
      && npages <= |s.pages| && b >= HEAD_BLKNO && |list| <= META_BLOCK_N
      && forall i | 0 <= i < |list| :: DataBlock(s, list[i])
    case VacuumDone(_) => true
    case CleanupPages(npages, b, _, _) => npages <= |s.pages| && b >= HEAD_BLKNO
    case ScanPages(wanted, snapshot, mark, b, found) =>
      && |snapshot| <= |s.pages| && b >= HEAD_BLKNO && mark <= |s.removals|
      && ScanProgress(s, snapshot, mark, wanted, b, found)
      && FoundStored(s, wanted, found)
    case ScanDone(wanted, snapshot, mark, found) =>
      && mark <= |s.removals|
      && ScanProgress(s, snapshot, mark, wanted, |snapshot|, found)
      && FoundStored(s, wanted, found)
    case Failed => true
  }

  /** Everything the scan's snapshot showed is removed since, still where it was, or reported. */
  predicate ScanProgress(s: State, snapshot: seq<Page>, mark: nat, wanted: Signature, upTo: nat,
                         found: set<ItemPointer>)
    requires mark <= |s.removals|
  {
    forall b, t | HEAD_BLKNO <= b < |snapshot| && Live(snapshot[b]) && t in snapshot[b].items ::
      ScanAccounts(s, b, t, mark, wanted, upTo, found)
  }

  predicate ScanAccounts(s: State, b: nat, t: BloomTuple, mark: nat, wanted: Signature, upTo: nat,
                         found: set<ItemPointer>)
    requires mark <= |s.removals|
  {
    || (b, t) in s.removals[mark..]
    || (b < upTo && (Bits(wanted) <= Bits(t.sign) ==> t.heapPtr in found))
    || (upTo <= b < |s.pages| && Live(s.pages[b]) && t in s.pages[b].items)
  }

  /** The tuple came with the build or with an insert that applied. */
  predicate Stored(s: State, t: BloomTuple) {
    t in s.built || t in Untag(s.inserts)
  }

  /** A scan reports only entries of the index that cover its signature. */
  ghost predicate FoundStored(s: State, wanted: Signature, found: set<ItemPointer>) {
    forall x | x in found :: exists t :: Stored(s, t) && t.heapPtr == x && Bits(wanted) <= Bits(t.sign)
  }

  /** The log of inserts names each finished insert once, and no other operation. */
  predicate ValidLog(s: State) {
    && (forall i | 0 <= i < |s.inserts| ::
          s.inserts[i].0 in s.procs && s.procs[s.inserts[i].0] == InsertDone(s.inserts[i].1))
    && (forall i, j | 0 <= i < j < |s.inserts| :: s.inserts[i].0 != s.inserts[j].0)
    && (forall p | p in s.procs && s.procs[p].InsertDone? :: (p, s.procs[p].t) in s.inserts)
  }

  /** None lost, none duplicated. */
  predicate Conserved(s: State) {
    LiveTuples(s.pages) + multiset(Untag(s.removals)) == multiset(s.built) + multiset(Untag(s.inserts))
  }

  ghost predicate AllFromRows(s: State) {
    && (forall t | t in s.built :: FromRow(s.opts, t))
    && (forall i | 0 <= i < |s.inserts| :: FromRow(s.opts, s.inserts[i].1))
  }

  ghost predicate Inv(s: State) {
    && s.opts.Valid()
    && ValidPages(s)
    && ValidMeta(s)
    && (forall b | b in s.fsm :: DataBlock(s, b))
    && ValidLocks(s)
    && (forall p | p in s.procs :: ValidProc(s, s.procs[p]))
    && ValidLog(s)
    && Conserved(s)
    && AllFromRows(s)
  }

  /** An index as blbuild or blbuildempty leaves it. */
  ghost predicate Init(s: State) {
    && s.opts.Valid()
    && ValidPages(s)
    && s.meta == Meta(0, 0, s.meta.notFullPage) && |s.meta.notFullPage| == META_BLOCK_N
    && s.fsm == {} && s.metaLock.None? && s.pageLock == map[] && s.procs == map[]
    && s.inserts == [] && s.removals == []
    && LiveTuples(s.pages) == multiset(s.built)
    && AllFromRows(s)
  }
}
