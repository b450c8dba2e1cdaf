/** What a bloom index promises over whole runs, with any number of concurrent operations. */
module BloomTheorems {
  import opened Wrappers
  import opened BloomWords
  import opened BloomSignature
  import opened BloomPage
  import opened BloomProtocol
  import opened BloomProtocolProof

  /** A run: an initial index and any interleaving of enabled steps. */
  ghost predicate IsRun(trace: seq<State>, acts: seq<Action>) {
    && |trace| == |acts| + 1
    && Init(trace[0])
    && forall k | 0 <= k < |acts| :: StepOf(trace, acts, k)
  }

  ghost predicate StepOf(trace: seq<State>, acts: seq<Action>, k: nat)
    requires |trace| == |acts| + 1 && k < |acts|
  {
    Enabled(trace[k], acts[k]) && trace[k + 1] == Apply(trace[k], acts[k])
  }

  lemma {:induction false} InitKeeps(s: State)
    requires Init(s)
    ensures Inv(s)
  {
  }

  lemma {:induction false} RunKeeps(trace: seq<State>, acts: seq<Action>, k: nat)
    requires IsRun(trace, acts) && k < |trace|
    ensures Inv(trace[k])
  {
    if k == 0 {
      InitKeeps(trace[0]);
    } else {
      RunKeeps(trace, acts, k - 1);
      assert StepOf(trace, acts, k - 1);
      StepKeeps(trace[k - 1], acts[k - 1]);
    }
  }

  /** In every state of every run the tuples on live pages are exactly those built in or inserted, minus
      those removed; the log of inserts holds each finished insert once, and nothing else; a page that
      may be reinitialised holds no tuple; live pages are non-empty and within capacity, with maxoff and
      pd_lower to match and pd_lower within the page; and the metapage names existing blocks. */
  lemma {:induction false} Conservation(trace: seq<State>, acts: seq<Action>, k: nat)
    requires IsRun(trace, acts) && k < |trace|
    ensures var s := trace[k];
            && s.opts.Valid()
            && LiveTuples(s.pages) + multiset(Untag(s.removals)) == multiset(s.built) + multiset(Untag(s.inserts))
            && (forall p | p in s.procs && s.procs[p].InsertDone? :: (p, s.procs[p].t) in s.inserts)
            && (forall i | 0 <= i < |s.inserts| :: LoggedInsert(s, i))
            && (forall i, j | 0 <= i < j < |s.inserts| :: s.inserts[i].0 != s.inserts[j].0)
            && (forall b | HEAD_BLKNO <= b < |s.pages| :: PageInBounds(s.opts, s.pages[b]))
            && s.meta.nStart <= s.meta.nEnd <= META_BLOCK_N == |s.meta.notFullPage|
            && (forall i | 0 <= i < s.meta.nEnd :: HEAD_BLKNO <= s.meta.notFullPage[i] < |s.pages|)
  {
    RunKeeps(trace, acts, k);
    var s := trace[k];
    forall b | HEAD_BLKNO <= b < |s.pages| ensures PageInBounds(s.opts, s.pages[b]) {
      BoundsOfPage(s.opts, s.pages[b]);
    }
  }

  /** Entry i of the log is of an insert that is finished, and is its tuple. */
  predicate LoggedInsert(s: State, i: nat)
    requires i < |s.inserts|
  {
    s.inserts[i].0 in s.procs && s.procs[s.inserts[i].0] == InsertDone(s.inserts[i].1)
  }

  /** What a data block looks like at any time. */
  predicate PageInBounds(opts: Options, p: Page)
    requires opts.Valid()
  {
    if Reusable(p) then p.NewPage? || p.items == []
    else
      && Live(p) && 1 <= |p.items| == p.maxoff <= Capacity(opts)
      && p.lower == SlotOffset(opts, p.maxoff) <= BLCKSZ - SIZE_OF_OPAQUE
  }

  lemma {:induction false} BoundsOfPage(opts: Options, p: Page)
    requires opts.Valid() && ValidPage(opts, p)
    ensures PageInBounds(opts, p)
  {
    if Live(p) { QuotientFits(BLCKSZ - SIZE_OF_PAGE_HEADER - SIZE_OF_OPAQUE, TupleSize(opts), p.maxoff); }
  }

  lemma {:induction false} QuotientFits(room: nat, size: nat, n: nat)
    requires size > 0 && n <= room / size
    ensures size * n <= room
  {
    assert size * n <= size * (room / size);
  }

  /** The step is one page of a bulk delete whose callback names the entry. */
  ghost predicate RemovedAt(trace: seq<State>, acts: seq<Action>, m: nat, entry: (nat, BloomTuple))
    requires |trace| == |acts| + 1 && m < |acts|
  {
    && acts[m].VacuumNext? && acts[m].p in trace[m].procs && trace[m].procs[acts[m].p].VacuumPages?
    && entry.0 == trace[m].procs[acts[m].p].blkno && entry.1.heapPtr in trace[m].procs[acts[m].p].dead
  }

  /** The bulk delete p was begun with this callback before step k. */
  ghost predicate BegunBefore(acts: seq<Action>, k: nat, p: nat, dead: Dead)
    requires k <= |acts|
  {
    exists m | 0 <= m < k :: acts[m] == BeginVacuum(p, dead)
  }

  /** In every run, every entry on the log of removals was removed from its page by a bulk delete whose
      callback, given when the bulk delete began, names it. */
  lemma {:induction false} RemovalsByCallback(trace: seq<State>, acts: seq<Action>, k: nat, i: nat)
    requires IsRun(trace, acts) && k < |trace| && i < |trace[k].removals|
    ensures exists m | 0 <= m < k ::
              && RemovedAt(trace, acts, m, trace[k].removals[i])
              && BegunBefore(acts, m, acts[m].p, trace[m].procs[acts[m].p].dead)
  {
    if k > 0 {
      RunKeeps(trace, acts, k - 1);
      RemovalsGrow(trace, acts, k - 1, i);
      if i < |trace[k - 1].removals| {
        RemovalsByCallback(trace, acts, k - 1, i);
      } else {
        VacuumBegun(trace, acts, k - 1, acts[k - 1].p);
      }
    }
  }

  lemma {:induction false} RemovalsGrow(trace: seq<State>, acts: seq<Action>, k: nat, i: nat)
    requires IsRun(trace, acts) && k < |acts| && Inv(trace[k]) && i < |trace[k + 1].removals|
    ensures if i < |trace[k].removals| then trace[k].removals[i] == trace[k + 1].removals[i]
            else RemovedAt(trace, acts, k, trace[k + 1].removals[i])
  {
    assert StepOf(trace, acts, k);
    StepRemovals(trace[k], acts[k]);
  }

  /** A bulk delete in progress was begun with the callback it uses. */
  lemma {:induction false} VacuumBegun(trace: seq<State>, acts: seq<Action>, k: nat, p: nat)
    requires IsRun(trace, acts) && k < |trace| && p in trace[k].procs && trace[k].procs[p].VacuumPages?
    ensures BegunBefore(acts, k, p, trace[k].procs[p].dead)
  {
    if k > 0 {
      assert StepOf(trace, acts, k - 1);
      var s, a := trace[k - 1], acts[k - 1];
      VacuumSame(s, a, p);
      if a != BeginVacuum(p, trace[k].procs[p].dead) { VacuumBegun(trace, acts, k - 1, p); }
    }
  }

  lemma {:induction false} VacuumSame(s: State, a: Action, p: nat)
    requires Enabled(s, a) && p in Apply(s, a).procs && Apply(s, a).procs[p].VacuumPages?
    ensures a == BeginVacuum(p, Apply(s, a).procs[p].dead) ||
            (p in s.procs && s.procs[p].VacuumPages? && s.procs[p].dead == Apply(s, a).procs[p].dead)
  {
  }

  /** The log of removals grows only by entries that the callback of the bulk delete names. */
  lemma {:induction false} StepRemovals(s: State, a: Action)
    requires Inv(s) && Enabled(s, a)
    ensures var s' := Apply(s, a);
            s'.removals == s.removals ||
            (a.VacuumNext? && s.removals <= s'.removals &&
             forall i | |s.removals| <= i < |s'.removals| ::
               && s'.removals[i].0 == s.procs[a.p].blkno
               && s'.removals[i].1.heapPtr in s.procs[a.p].dead)
  {
    if a.VacuumNext? {
      var c := s.procs[a.p];
      if Live(s.pages[c.blkno]) { KeepDropByCallback(s.pages[c.blkno].items, c.dead); }
    }
  }

  // ---------------------------------------------------------------- scans

  /** Operation p is the scan that began with this signature, these pages and this many removals. */
  predicate IsScan(s: State, p: nat, wanted: Signature, snapshot: seq<Page>, mark: nat) {
    p in s.procs &&
    match s.procs[p]
    case ScanPages(w, sn, m, _, _) => w == wanted && sn == snapshot && m == mark
    case ScanDone(w, sn, m, _) => w == wanted && sn == snapshot && m == mark
    case Failed => true
    case _ => false
  }

  lemma {:induction false} ScanStays(s: State, a: Action, p: nat, wanted: Signature, snapshot: seq<Page>, mark: nat)
    requires Enabled(s, a) && IsScan(s, p, wanted, snapshot, mark)
    ensures IsScan(Apply(s, a), p, wanted, snapshot, mark)
  {
    if Actor(a) != Some(p) {
      OthersStay(s, a, p);
    }
  }

  /** The operation whose step it is. */
  function Actor(a: Action): Option<nat> {
    if a.ScrambleFsm? then None else Some(a.p)
  }

  lemma {:induction false} OthersStay(s: State, a: Action, q: nat)
    requires Enabled(s, a) && q in s.procs && Actor(a) != Some(q)
    ensures q in Apply(s, a).procs && Apply(s, a).procs[q] == s.procs[q]
  {
  }

  lemma {:induction false} ScanInRun(trace: seq<State>, acts: seq<Action>, i: nat, j: nat, p: nat, wanted: Signature)
    requires IsRun(trace, acts) && i < j < |trace| && acts[i] == BeginScan(p, wanted)
    ensures IsScan(trace[j], p, wanted, trace[i].pages, |trace[i].removals|)
  {
    assert StepOf(trace, acts, i);
    if j > i + 1 {
      ScanInRun(trace, acts, i, j - 1, p, wanted);
      assert StepOf(trace, acts, j - 1);
      ScanStays(trace[j - 1], acts[j - 1], p, wanted, trace[i].pages, |trace[i].removals|);
    }
  }

  /** Search completeness under concurrency: a scan that began at step i and is done in state j has
      reported every entry that was on a live page when it began, whose row answers the scan keys, and
      that no bulk delete removed meanwhile, whatever inserts, bulk deletes and page recyclings ran. */
  lemma {:induction false} ScanComplete(trace: seq<State>, acts: seq<Action>, i: nat, j: nat, p: nat, wanted: Signature,
                     keys: seq<ScanKey>, row: Row, b: nat, t: BloomTuple)
    requires IsRun(trace, acts) && i < j < |trace| && acts[i] == BeginScan(p, wanted)
    requires trace[i].opts.Valid() && ValidKeys(keys) && Answers(row, keys)
    requires Bits(wanted) == KeyBits(trace[i].opts, keys, |keys|)
    requires p in trace[j].procs && trace[j].procs[p].ScanDone?
    requires HEAD_BLKNO <= b < |trace[i].pages| && Live(trace[i].pages[b]) && t in trace[i].pages[b].items
    requires Formed(trace[i].opts, t.heapPtr, row, t)
    ensures |trace[i].removals| <= |trace[j].removals|
    ensures t.heapPtr in trace[j].procs[p].found || (b, t) in trace[j].removals[|trace[i].removals|..]
  {
    RunKeeps(trace, acts, j);
    ScanInRun(trace, acts, i, j, p, wanted);
    var s, c := trace[j], trace[j].procs[p];
    assert ValidProc(s, c);
    assert ScanAccounts(s, b, t, c.mark, c.wanted, |c.snapshot|, c.found);
    AnswerBitsIncluded(trace[i].opts, row, keys, |keys|);
  }

  /** And it reports nothing else than entries of the index whose signature covers the search. */
  lemma {:induction false} ScanSound(trace: seq<State>, acts: seq<Action>, j: nat, p: nat, x: ItemPointer)
    requires IsRun(trace, acts) && j < |trace|
    requires p in trace[j].procs && trace[j].procs[p].ScanDone? && x in trace[j].procs[p].found
    ensures exists t: BloomTuple, row: Row ::
              && Stored(trace[j], t) && t.heapPtr == x && Bits(trace[j].procs[p].wanted) <= Bits(t.sign)
              && trace[j].opts.Valid() && Formed(trace[j].opts, x, row, t)
  {
    RunKeeps(trace, acts, j);
    var s, c := trace[j], trace[j].procs[p];
    assert ValidProc(s, c);
    var t :| Stored(s, t) && t.heapPtr == x && Bits(c.wanted) <= Bits(t.sign);
    assert FromRow(s.opts, t) by {
      if t !in s.built {
        var i :| 0 <= i < |s.inserts| && Untag(s.inserts)[i] == t;
        assert FromRow(s.opts, s.inserts[i].1);
      }
    }
    var row: Row :| Formed(s.opts, t.heapPtr, row, t);
  }

  // ---------------------------------------------------------------- progress

  /** Nothing more to do for the operation. */
  predicate Over(c: Proc) {
    Finished(c) || (c.CleanupPages? && c.blkno >= c.npages)
  }

  /** The step an unfinished operation takes next, when the lock it needs is free. */
  function NextAction(p: nat, c: Proc): Action
    requires !Over(c)
  {
    match c
    case InsertStart(_) => ReadMeta(p)
    case InsertTryFirst(_, _) => TryFirst(p)
    case InsertWantMeta(_, _) => LockMeta(p)
    case InsertTryNext(_, _) => TryNext(p)
    case InsertAlloc(_) => Extend(p)
    case InsertGotFree(_, _) => CheckFree(p)
    case InsertFill(_, _) => Fill(p)
    case VacuumPages(_, npages, b, _) => if b < npages then VacuumNext(p) else VacuumMeta(p)
    case CleanupPages(_, _, _, _) => CleanupNext(p)
    case ScanPages(_, _, _, _, _) => ScanNext(p)
  }

  /** The holder of the metapage lock can always go on; in particular adding to the page it just
      allocated never fails with "could not add new bloom tuple to empty page". */
  lemma {:induction false} HolderRuns(s: State, p: nat)
    requires Inv(s) && s.metaLock == Some(p)
    ensures p in s.procs && !Over(s.procs[p]) && Enabled(s, NextAction(p, s.procs[p]))
  {
    var c := s.procs[p];
    assert ValidProc(s, c);
    if c.InsertFill? { EmptyPageAccepts(s.opts, c.t); }
    if c.InsertTryNext? { assert forall b :: b !in s.pageLock; }
  }

  lemma {:induction false} FreeRuns(s: State, p: nat, c: Proc)
    requires s.opts.Valid() && ValidPages(s) && ValidMeta(s) && p in s.procs && s.procs[p] == c && ValidProc(s, c)
    requires !Over(c)
    requires s.metaLock.None? && s.pageLock == map[]
    ensures Enabled(s, NextAction(p, c))
  {
    if c.InsertFill? { EmptyPageAccepts(s.opts, c.t); }
  }

  /** No interleaving deadlocks: every unfinished operation can step, or waits for a lock whose holder
      can step. */
  lemma {:induction false} NoDeadlock(trace: seq<State>, acts: seq<Action>, k: nat, p: nat)
    requires IsRun(trace, acts) && k < |trace| && p in trace[k].procs && !Over(trace[k].procs[p])
    ensures var s := trace[k];
            || Enabled(s, NextAction(p, s.procs[p]))
            || (s.metaLock.Some? && s.metaLock.value in s.procs && !Over(s.procs[s.metaLock.value])
                && Enabled(s, NextAction(s.metaLock.value, s.procs[s.metaLock.value])))
  {
    RunKeeps(trace, acts, k);
    var s := trace[k];
    if s.metaLock.Some? {
      HolderRuns(s, s.metaLock.value);
    } else {
      assert ValidProc(s, s.procs[p]);
      assert forall b :: b !in s.pageLock;
      FreeRuns(s, p, s.procs[p]);
    }
  }
}
