/** Every step of the bloom protocol keeps its invariant; what follows holds in every state of every
    run. */
module BloomProtocolProof {
  import opened Wrappers
  import opened BloomWords
  import opened BloomSignature
  import opened BloomPage
  import opened BloomProtocol

  // ---------------------------------------------------------------- multisets of tuples

  /** Replacing one page exchanges its tuples and leaves all others. */
  lemma {:induction false} LiveUpdate(pages: seq<Page>, b: nat, page: Page)
    requires b < |pages|
    ensures LiveTuples(pages[b := page]) + PageTuples(pages[b]) == LiveTuples(pages) + PageTuples(page)
  {
    LiveBelowUpdate(pages, b, page, |pages|);
  }

  lemma {:induction false} LiveBelowUpdate(pages: seq<Page>, b: nat, page: Page, n: nat)
    requires b < n <= |pages|
    ensures LiveBelow(pages[b := page], n) + PageTuples(pages[b]) == LiveBelow(pages, n) + PageTuples(page)
  {
    var r := pages[b := page];
    if b < n - 1 {
      LiveBelowUpdate(pages, b, page, n - 1);
      Exchange(LiveBelow(r, n - 1), PageTuples(pages[b]), LiveBelow(pages, n - 1), PageTuples(page),
               PageTuples(pages[n - 1]));
    } else {
      LiveBelowSame(pages, r, n - 1);
      Commute(LiveBelow(pages, n - 1), PageTuples(page), PageTuples(pages[b]));
    }
  }

  lemma {:induction false} LiveBelowSame(pages: seq<Page>, pages': seq<Page>, n: nat)
    requires n <= |pages| && n <= |pages'| && forall b | 0 <= b < n :: pages[b] == pages'[b]
    ensures LiveBelow(pages, n) == LiveBelow(pages', n)
  {
    if n > 0 { LiveBelowSame(pages, pages', n - 1); }
  }

  lemma {:induction false} Exchange<T>(a: multiset<T>, b: multiset<T>, c: multiset<T>, d: multiset<T>, e: multiset<T>)
    requires a + b == c + d
    ensures a + e + b == c + e + d
  {
    forall x ensures (a + e + b)[x] == (c + e + d)[x] {
      assert (a + b)[x] == (c + d)[x];
    }
  }

  lemma {:induction false} Commute<T>(a: multiset<T>, b: multiset<T>, c: multiset<T>)
    ensures a + b + c == a + c + b
  {
  }

  lemma {:induction false} LiveAppend(pages: seq<Page>, page: Page)
    ensures LiveTuples(pages + [page]) == LiveTuples(pages) + PageTuples(page)
  {
    LiveBelowSame(pages, pages + [page], |pages|);
  }

  lemma {:induction false} UntagAppend(log: seq<(nat, BloomTuple)>, more: seq<(nat, BloomTuple)>)
    ensures Untag(log + more) == Untag(log) + Untag(more)
  {
  }

  lemma {:induction false} UntagTag(b: nat, ts: seq<BloomTuple>)
    ensures Untag(Tag(b, ts)) == ts
  {
  }

  lemma {:induction false} LiveMember(pages: seq<Page>, b: nat, t: BloomTuple, n: nat)
    requires b < n <= |pages| && Live(pages[b]) && t in pages[b].items
    ensures t in LiveBelow(pages, n)
  {
    assert LiveBelow(pages, n) == LiveBelow(pages, n - 1) + PageTuples(pages[n - 1]);
    if b < n - 1 {
      LiveMember(pages, b, t, n - 1);
    } else {
      assert t in PageTuples(pages[b]);
    }
  }

  // ---------------------------------------------------------------- frames

  /** s' is at least as far as s: blocks stay, tuples stay in their block unless logged as removed. */
  ghost predicate Later(s: State, s': State) {
    && s'.opts == s.opts
    && |s.pages| <= |s'.pages|
    && s.removals <= s'.removals
    && s'.built == s.built && s.inserts <= s'.inserts
    && forall b, t | HEAD_BLKNO <= b < |s.pages| && Live(s.pages[b]) && t in s.pages[b].items ::
         StillThere(s, s', b, t)
  }

  predicate StillThere(s: State, s': State, b: nat, t: BloomTuple)
    requires |s.removals| <= |s'.removals| && b < |s'.pages|
  {
    (Live(s'.pages[b]) && t in s'.pages[b].items) || (b, t) in s'.removals[|s.removals|..]
  }

  /** What a running scan owes is not lost by anybody's step. */
  lemma {:induction false} ProgressStable(s: State, s': State, snapshot: seq<Page>, mark: nat, wanted: Signature,
                                          upTo: nat, found: set<ItemPointer>)
    requires Later(s, s') && mark <= |s.removals| && upTo >= HEAD_BLKNO
    requires ScanProgress(s, snapshot, mark, wanted, upTo, found)
    ensures ScanProgress(s', snapshot, mark, wanted, upTo, found)
  {
    forall b, t | HEAD_BLKNO <= b < |snapshot| && Live(snapshot[b]) && t in snapshot[b].items
      ensures ScanAccounts(s', b, t, mark, wanted, upTo, found)
    {
      assert ScanAccounts(s, b, t, mark, wanted, upTo, found);
      LogSuffix(s.removals, s'.removals, mark, (b, t));
      if upTo <= b < |s.pages| && Live(s.pages[b]) && t in s.pages[b].items {
        assert StillThere(s, s', b, t);
      }
    }
  }

  lemma {:induction false} LogSuffix(log: seq<(nat, BloomTuple)>, log': seq<(nat, BloomTuple)>, mark: nat,
                                     e: (nat, BloomTuple))
    requires log <= log' && mark <= |log|
    ensures e in log[mark..] ==> e in log'[mark..]
    ensures e in log'[|log|..] ==> e in log'[mark..]
  {
    assert log'[mark..] == log[mark..] + log'[|log|..];
  }

  /** What a scan has reported stays accounted for. */
  lemma {:induction false} FoundStable(s: State, s': State, wanted: Signature, found: set<ItemPointer>)
    requires Later(s, s') && FoundStored(s, wanted, found)
    ensures FoundStored(s', wanted, found)
  {
    forall x | x in found ensures exists t :: Stored(s', t) && t.heapPtr == x && Bits(wanted) <= Bits(t.sign) {
      var t :| Stored(s, t) && t.heapPtr == x && Bits(wanted) <= Bits(t.sign);
      StoredStable(s, s', t);
    }
  }

  lemma {:induction false} StoredStable(s: State, s': State, t: BloomTuple)
    requires Later(s, s') && Stored(s, t)
    ensures Stored(s', t)
  {
    if t in Untag(s.inserts) {
      var i :| 0 <= i < |s.inserts| && Untag(s.inserts)[i] == t;
      assert Untag(s'.inserts)[i] == t;
    }
  }

  /** Local state that stays valid while others run: all but what depends on the held metapage. */
  lemma {:induction false} ProcStable(s: State, s': State, c: Proc)
    requires Later(s, s') && ValidProc(s, c)
    requires HoldsMeta(c) ==> s'.meta == s.meta
    requires c.InsertFill? ==> c.blkno < |s.pages| && s'.pages[c.blkno] == s.pages[c.blkno]
    ensures ValidProc(s', c)
  {
    if c.ScanPages? {
      ProgressStable(s, s', c.snapshot, c.mark, c.wanted, c.blkno, c.found);
      FoundStable(s, s', c.wanted, c.found);
    } else if c.ScanDone? {
      if |c.snapshot| >= HEAD_BLKNO {
        ProgressStable(s, s', c.snapshot, c.mark, c.wanted, |c.snapshot|, c.found);
      }
      FoundStable(s, s', c.wanted, c.found);
    }
  }

  /** One page changes to a page that keeps its tuples, up to the ones the log grows by. */
  lemma {:induction false} PageStepLater(s: State, s': State, b: nat, page: Page, gone: seq<BloomTuple>)
    requires b < |s.pages|
    requires s'.opts == s.opts && s'.pages == s.pages[b := page] && s'.removals == s.removals + Tag(b, gone)
    requires s'.built == s.built && s.inserts <= s'.inserts
    requires Live(s.pages[b]) ==> page.DataPage?
    requires Live(s.pages[b]) ==> forall t | t in s.pages[b].items :: (Live(page) && t in page.items) || t in gone
    ensures Later(s, s')
  {
    assert s'.removals[|s.removals|..] == Tag(b, gone);
    forall c, t | HEAD_BLKNO <= c < |s.pages| && Live(s.pages[c]) && t in s.pages[c].items
      ensures StillThere(s, s', c, t)
    {
      if c == b && !(Live(page) && t in page.items) {
        var i :| 0 <= i < |gone| && gone[i] == t;
        assert Tag(b, gone)[i] == (b, t);
      }
    }
  }

  lemma {:induction false} ProcOnlyLater(s: State, s': State)
    requires s'.opts == s.opts && s'.pages == s.pages && s'.removals == s.removals
    requires s'.built == s.built && s'.inserts == s.inserts
    ensures Later(s, s')
  {
  }

  // ---------------------------------------------------------------- steps that leave pages and logs alone

  /** Local state of the operations that do not take the step. */
  lemma {:induction false} OthersKeep(s: State, s': State, p: nat)
    requires Later(s, s') && ValidLocks(s) && forall q | q in s.procs :: ValidProc(s, s.procs[q])
    requires forall q | q in s'.procs && q != p :: q in s.procs && s'.procs[q] == s.procs[q]
    requires s.metaLock.None? || s.metaLock == Some(p) || s'.meta == s.meta
    requires forall b | b in s.pageLock && s.pageLock[b] != p && b < |s.pages| :: s'.pages[b] == s.pages[b]
    ensures forall q | q in s'.procs && q != p :: ValidProc(s', s'.procs[q])
  {
    forall q | q in s'.procs && q != p ensures ValidProc(s', s'.procs[q]) {
      assert ValidProc(s, s.procs[q]);
      ProcStable(s, s', s'.procs[q]);
    }
  }

  /** Only operation p moves; metapage, free space map and locks may change, pages and logs do not. */
  predicate Quiet(s: State, s': State, p: nat) {
    && s'.opts == s.opts && s'.pages == s.pages
    && s'.built == s.built && s'.inserts == s.inserts && s'.removals == s.removals
    && p in s'.procs && s'.procs == s.procs[p := s'.procs[p]]
    && (p in s.procs ==> !s.procs[p].InsertDone?) && !s'.procs[p].InsertDone?
  }

  lemma {:induction false} QuietLog(s: State, s': State, p: nat)
    requires ValidLog(s) && Quiet(s, s', p)
    ensures ValidLog(s')
  {
  }

  lemma {:induction false} QuietKeeps(s: State, s': State, p: nat)
    requires Inv(s) && Quiet(s, s', p)
    requires ValidMeta(s') && ValidLocks(s') && ValidProc(s', s'.procs[p])
    requires forall b | b in s'.fsm :: DataBlock(s', b)
    requires s.metaLock.None? || s.metaLock == Some(p) || s'.meta == s.meta
    ensures Inv(s') && Later(s, s')
  {
    ProcOnlyLater(s, s');
    OthersKeep(s, s', p);
    QuietLog(s, s', p);
  }

  lemma {:induction false} MoveLocks(s: State, s': State, p: nat)
    requires ValidLocks(s) && Quiet(s, s', p)
    requires s'.metaLock == s.metaLock && s'.pageLock == s.pageLock
    requires p in s.procs ==> !s.procs[p].InsertFill?
    requires !s'.procs[p].InsertFill?
    requires HoldsMeta(s'.procs[p]) <==> p in s.procs && HoldsMeta(s.procs[p])
    ensures ValidLocks(s')
  {
  }

  /** An operation moves on without touching metapage or locks. */
  lemma {:induction false} MoveKeeps(s: State, s': State, p: nat)
    requires Inv(s) && Quiet(s, s', p) && ValidProc(s', s'.procs[p])
    requires s'.meta == s.meta && s'.metaLock == s.metaLock && s'.pageLock == s.pageLock
    requires forall b | b in s'.fsm :: DataBlock(s', b)
    requires p in s.procs ==> !s.procs[p].InsertFill?
    requires !s'.procs[p].InsertFill?
    requires HoldsMeta(s'.procs[p]) <==> p in s.procs && HoldsMeta(s.procs[p])
    ensures Inv(s') && Later(s, s')
  {
    MoveLocks(s, s', p);
    QuietKeeps(s, s', p);
  }

  /** The free space map may change arbitrarily within the data blocks. */
  lemma {:induction false} FsmKeeps(s: State, fsm: set<nat>)
    requires Inv(s) && forall b | b in fsm :: DataBlock(s, b)
    ensures Inv(s.(fsm := fsm)) && Later(s, s.(fsm := fsm))
  {
    var s' := s.(fsm := fsm);
    forall q | q in s'.procs ensures ValidProc(s', s'.procs[q]) {
      ProcStable(s, s', s'.procs[q]);
    }
  }

  // ---------------------------------------------------------------- steps of an insert

  lemma {:induction false} LogGrows(s: State, p: nat, t: BloomTuple)
    requires ValidLog(s) && p in s.procs && !s.procs[p].InsertDone?
    ensures ValidLog(Applied(s, p, t))
  {
    var s' := Applied(s, p, t);
    forall q | q in s'.procs && s'.procs[q].InsertDone? ensures (q, s'.procs[q].t) in s'.inserts {
      if q == p {
        assert s'.inserts[|s.inserts|] == (p, t);
      } else {
        assert (q, s.procs[q].t) in s.inserts;
      }
    }
  }

  /** What an applying step does to index, locks and log, from where operation p stood. */
  ghost predicate ApplyStep(s: State, s': State, p: nat, t: BloomTuple, b: nat, page: Page) {
    && DataBlock(s, b) && p in s.procs && !s.procs[p].InsertDone? && FromRow(s.opts, t)
    && s.opts.Valid() && ValidPage(s.opts, page) && Live(page)
    && PageTuples(page) == PageTuples(s.pages[b]) + multiset{t}
    && (b in s.pageLock ==> s.pageLock[b] == p)
    && s' == Applied(s.(pages := s.pages[b := page], meta := s'.meta, metaLock := s'.metaLock, pageLock := s'.pageLock),
                     p, t)
    && (if HoldsMeta(s.procs[p]) then s'.metaLock.None? else s'.metaLock == s.metaLock && s'.meta == s.meta)
    && s'.pageLock == (if s.procs[p].InsertFill? then s.pageLock - {b} else s.pageLock)
    && (s.procs[p].InsertFill? ==> s.procs[p].blkno == b)
  }

  lemma {:induction false} ApplyLater(s: State, s': State, p: nat, t: BloomTuple, b: nat, page: Page)
    requires ApplyStep(s, s', p, t, b, page)
    ensures Later(s, s')
  {
    if Live(s.pages[b]) {
      forall x | x in s.pages[b].items ensures x in page.items {
        assert multiset(s.pages[b].items)[x] > 0;
        assert multiset(page.items)[x] > 0;
      }
    }
    assert Tag(b, []) == [];
    PageStepLater(s, s', b, page, []);
  }

  lemma {:induction false} ApplyLocks(s: State, s': State, p: nat, t: BloomTuple, b: nat, page: Page)
    requires ValidLocks(s) && ApplyStep(s, s', p, t, b, page)
    ensures ValidLocks(s')
  {
  }

  lemma {:induction false} ApplyRows(s: State, s': State, p: nat, t: BloomTuple, b: nat, page: Page)
    requires AllFromRows(s) && ApplyStep(s, s', p, t, b, page)
    ensures AllFromRows(s')
  {
  }

  lemma {:induction false} ApplyPages(s: State, s': State, p: nat, t: BloomTuple, b: nat, page: Page)
    requires s.opts.Valid() && ValidPages(s) && ApplyStep(s, s', p, t, b, page)
    ensures ValidPages(s')
  {
  }

  /** The tuple joins block b and, in the same step, the log of inserts. */
  lemma {:induction false} ApplyKeeps(s: State, s': State, p: nat, t: BloomTuple, b: nat, page: Page)
    requires Inv(s) && ApplyStep(s, s', p, t, b, page) && ValidMeta(s')
    ensures Inv(s') && Later(s, s')
  {
    ApplyLater(s, s', p, t, b, page);
    ApplyLocks(s, s', p, t, b, page);
    ApplyRows(s, s', p, t, b, page);
    ApplyPages(s, s', p, t, b, page);
    OthersKeep(s, s', p);
    LogGrows(s.(pages := s'.pages, meta := s'.meta, metaLock := s'.metaLock, pageLock := s'.pageLock), p, t);
    InsertConserves(s, s', p, t, b, page);
  }

  lemma {:induction false} InsertConserves(s: State, s': State, p: nat, t: BloomTuple, b: nat, page: Page)
    requires Conserved(s) && b < |s.pages|
    requires s'.pages == s.pages[b := page] && s'.removals == s.removals && s'.built == s.built
    requires s'.inserts == s.inserts + [(p, t)]
    requires PageTuples(page) == PageTuples(s.pages[b]) + multiset{t}
    ensures Conserved(s')
  {
    LiveUpdate(s.pages, b, page);
    UntagAppend(s.inserts, [(p, t)]);
    assert Untag([(p, t)]) == [t];
    GrowBoth(LiveTuples(s.pages), LiveTuples(s'.pages), PageTuples(s.pages[b]), PageTuples(page), t);
    assert multiset(Untag(s'.inserts)) == multiset(Untag(s.inserts)) + multiset{t};
    Exchange(LiveTuples(s.pages), multiset(Untag(s.removals)), multiset(s.built), multiset(Untag(s.inserts)),
             multiset{t});
    Commute(multiset(s.built), multiset{t}, multiset(Untag(s.inserts)));
  }

  lemma {:induction false} GrowBoth<T>(live: multiset<T>, live': multiset<T>, was: multiset<T>, now: multiset<T>, t: T)
    requires live' + was == live + now && now == was + multiset{t}
    ensures live' == live + multiset{t}
  {
    forall x ensures live'[x] == (live + multiset{t})[x] {
      assert (live' + was)[x] == (live + now)[x];
    }
  }

  lemma {:induction false} VacuumConserves(s: State, s': State, b: nat, page: Page, gone: seq<BloomTuple>)
    requires Conserved(s) && b < |s.pages|
    requires s'.pages == s.pages[b := page] && s'.inserts == s.inserts && s'.built == s.built
    requires s'.removals == s.removals + Tag(b, gone)
    requires PageTuples(page) + multiset(gone) == PageTuples(s.pages[b])
    ensures Conserved(s')
  {
    LiveUpdate(s.pages, b, page);
    UntagAppend(s.removals, Tag(b, gone));
    UntagTag(b, gone);
    ShrinkBoth(LiveTuples(s.pages), LiveTuples(s'.pages), PageTuples(s.pages[b]), PageTuples(page), multiset(gone));
    assert multiset(Untag(s'.removals)) == multiset(Untag(s.removals)) + multiset(gone);
  }

  lemma {:induction false} ShrinkBoth<T>(live: multiset<T>, live': multiset<T>, was: multiset<T>, now: multiset<T>,
                                         gone: multiset<T>)
    requires live' + was == live + now && now + gone == was
    ensures live' + gone == live
  {
    forall x ensures (live' + gone)[x] == live[x] {
      assert (live' + was)[x] == (live + now)[x];
    }
  }

  lemma {:induction false} TryFirstKeeps(s: State, p: nat, c: Proc)
    requires Inv(s) && p in s.procs && s.procs[p] == c && c.InsertTryFirst? && PageReady(s, c.blkno)
    ensures Inv(DoTryFirst(s, p, c.t, c.blkno)) && Later(s, DoTryFirst(s, p, c.t, c.blkno))
  {
    var s' := DoTryFirst(s, p, c.t, c.blkno);
    assert ValidProc(s, c);
    AddItemKeeps(s.opts, s.pages[c.blkno], c.t);
    match AddItem(s.opts, Prepared(s.pages[c.blkno]), c.t)
    case Some(page) => ApplyKeeps(s, s', p, c.t, c.blkno, page);
    case None => MoveKeeps(s, s', p);
  }

  lemma {:induction false} LockMetaLocks(s: State, s': State, p: nat)
    requires ValidLocks(s) && Quiet(s, s', p) && s.metaLock.None? && s'.metaLock == Some(p)
    requires s'.pageLock == s.pageLock && s'.procs[p].InsertTryNext?
    requires p in s.procs && s.procs[p].InsertWantMeta?
    ensures ValidLocks(s')
  {
  }

  lemma {:induction false} LockMetaKeeps(s: State, p: nat, c: Proc)
    requires Inv(s) && p in s.procs && s.procs[p] == c && c.InsertWantMeta? && s.metaLock.None? && ReadMetaOk(s)
    ensures Inv(DoLockMeta(s, p, c.t, c.tried)) && Later(s, DoLockMeta(s, p, c.t, c.tried))
  {
    var s' := DoLockMeta(s, p, c.t, c.tried);
    assert ValidProc(s, c);
    LockMetaLocks(s, s', p);
    QuietKeeps(s, s', p);
  }

  lemma {:induction false} TryNextKeeps(s: State, p: nat, c: Proc)
    requires Inv(s) && p in s.procs && s.procs[p] == c && c.InsertTryNext?
    requires c.nStart < s.meta.nEnd ==> PageReady(s, s.meta.notFullPage[c.nStart])
    ensures Inv(DoTryNext(s, p, c.t, c.nStart)) && Later(s, DoTryNext(s, p, c.t, c.nStart))
  {
    var s' := DoTryNext(s, p, c.t, c.nStart);
    assert ValidProc(s, c);
    if c.nStart >= s.meta.nEnd {
      MoveKeeps(s, s', p);
    } else {
      var b := s.meta.notFullPage[c.nStart];
      assert DataBlock(s, b);
      AddItemKeeps(s.opts, s.pages[b], c.t);
      match AddItem(s.opts, Prepared(s.pages[b]), c.t)
      case Some(page) => ApplyKeeps(s, s', p, c.t, b, page);
      case None => MoveKeeps(s, s', p);
    }
  }

  lemma {:induction false} CheckFreeLocks(s: State, s': State, p: nat, b: nat)
    requires ValidLocks(s) && Quiet(s, s', p) && s'.metaLock == s.metaLock
    requires p in s.procs && s.procs[p].InsertGotFree? && Unlocked(s, b)
    requires s'.procs[p].InsertFill? && s'.procs[p].blkno == b && s'.pageLock == s.pageLock[b := p]
    ensures ValidLocks(s')
  {
  }

  lemma {:induction false} CheckFreeKeeps(s: State, p: nat, c: Proc)
    requires Inv(s) && p in s.procs && s.procs[p] == c && c.InsertGotFree? && c.blkno < |s.pages|
    ensures Inv(DoCheckFree(s, p, c.t, c.blkno)) && Later(s, DoCheckFree(s, p, c.t, c.blkno))
  {
    var s' := DoCheckFree(s, p, c.t, c.blkno);
    assert ValidProc(s, c);
    if Unlocked(s, c.blkno) && Reusable(s.pages[c.blkno]) {
      CheckFreeLocks(s, s', p, c.blkno);
      QuietKeeps(s, s', p);
    } else {
      MoveKeeps(s, s', p);
    }
  }

  lemma {:induction false} ExtendLater(s: State, p: nat, t: BloomTuple)
    ensures Later(s, DoExtend(s, p, t))
  {
  }

  lemma {:induction false} ExtendLocks(s: State, p: nat, c: Proc)
    requires ValidLocks(s) && p in s.procs && s.procs[p] == c && c.InsertAlloc?
    ensures s.pageLock == map[] && ValidLocks(DoExtend(s, p, c.t))
  {
    assert forall b :: b !in s.pageLock;
  }

  lemma {:induction false} ExtendLog(s: State, p: nat, c: Proc)
    requires ValidLog(s) && p in s.procs && s.procs[p] == c && c.InsertAlloc?
    ensures ValidLog(DoExtend(s, p, c.t))
  {
  }

  lemma {:induction false} ExtendBasics(s: State, s': State, p: nat, t: BloomTuple)
    requires Inv(s) && s' == DoExtend(s, p, t)
    ensures ValidPages(s') && ValidMeta(s') && (forall b | b in s'.fsm :: DataBlock(s', b))
    ensures Conserved(s') && AllFromRows(s')
  {
    LiveAppend(s.pages, NewPage);
    assert LiveTuples(s'.pages) == LiveTuples(s.pages);
  }

  lemma {:induction false} ExtendProcs(s: State, s': State, p: nat, c: Proc)
    requires Inv(s) && p in s.procs && s.procs[p] == c && c.InsertAlloc? && s' == DoExtend(s, p, c.t)
    ensures forall q | q in s'.procs :: ValidProc(s', s'.procs[q])
  {
    assert ValidProc(s, c);
    ExtendLocks(s, p, c);
    ExtendLater(s, p, c.t);
    OthersKeep(s, s', p);
    assert s'.pages[|s.pages|] == NewPage;
  }

  lemma {:induction false} ExtendKeeps(s: State, p: nat, c: Proc)
    requires Inv(s) && p in s.procs && s.procs[p] == c && c.InsertAlloc?
    ensures Inv(DoExtend(s, p, c.t)) && Later(s, DoExtend(s, p, c.t))
  {
    var s' := DoExtend(s, p, c.t);
    ExtendBasics(s, s', p, c.t);
    ExtendProcs(s, s', p, c);
    ExtendLocks(s, p, c);
    ExtendLog(s, p, c);
    ExtendLater(s, p, c.t);
  }

  lemma {:induction false} FillKeeps(s: State, p: nat, c: Proc)
    requires Inv(s) && p in s.procs && s.procs[p] == c && c.InsertFill? && c.blkno < |s.pages|
    ensures AddItem(s.opts, InitPage(), c.t).Some?
    ensures Inv(DoFill(s, p, c.t, c.blkno)) && Later(s, DoFill(s, p, c.t, c.blkno))
  {
    assert ValidProc(s, c);
    EmptyPageAccepts(s.opts, c.t);
    AddItemKeeps(s.opts, s.pages[c.blkno], c.t);
    var page := AddItem(s.opts, InitPage(), c.t).value;
    ApplyKeeps(s, DoFill(s, p, c.t, c.blkno), p, c.t, c.blkno, page);
  }

  // ---------------------------------------------------------------- vacuum, cleanup, scan, failure

  /** The pages, log and list after a bulk delete's turn on block b. */
  ghost predicate VacuumStep(s: State, s': State, p: nat, c: Proc) {
    && s.opts.Valid() && p in s.procs && s.procs[p] == c && c.VacuumPages? && PageReady(s, c.blkno)
    && DataBlock(s, c.blkno) && ValidPage(s.opts, s.pages[c.blkno]) && s' == DoVacuumNext(s, p, c)
  }

  function Gone(page: Page, dead: Dead): seq<BloomTuple> {
    if Live(page) then Drop(page.items, dead) else []
  }

  lemma {:induction false} VacuumNextLater(s: State, s': State, p: nat, c: Proc)
    requires VacuumStep(s, s', p, c)
    ensures Later(s, s')
  {
    var was := s.pages[c.blkno];
    VacuumPageKeeps(s.opts, was, c.dead);
    if Live(was) { VacuumKeepsOrDrops(s.opts, was, c.dead); }
    PageStepLater(s, s', c.blkno, VacuumPage(s.opts, was, c.dead), Gone(was, c.dead));
  }

  lemma {:induction false} VacuumNextMine(s: State, s': State, p: nat, c: Proc)
    requires VacuumStep(s, s', p, c) && ValidProc(s, c)
    ensures ValidProc(s', s'.procs[p])
  {
  }

  lemma {:induction false} VacuumNextLocks(s: State, s': State, p: nat, c: Proc)
    requires VacuumStep(s, s', p, c) && ValidLocks(s)
    ensures ValidLocks(s')
  {
  }

  lemma {:induction false} VacuumNextLog(s: State, s': State, p: nat, c: Proc)
    requires VacuumStep(s, s', p, c) && ValidLog(s)
    ensures ValidLog(s')
  {
  }

  lemma {:induction false} VacuumNextPages(s: State, s': State, p: nat, c: Proc)
    requires VacuumStep(s, s', p, c) && ValidPages(s) && Conserved(s)
    ensures ValidPages(s') && Conserved(s')
  {
    VacuumPageKeeps(s.opts, s.pages[c.blkno], c.dead);
    VacuumConserves(s, s', c.blkno, VacuumPage(s.opts, s.pages[c.blkno], c.dead), Gone(s.pages[c.blkno], c.dead));
  }

  lemma {:induction false} VacuumNextKeeps(s: State, p: nat, c: Proc)
    requires Inv(s) && p in s.procs && s.procs[p] == c && c.VacuumPages? && c.blkno < c.npages && PageReady(s, c.blkno)
    ensures Inv(DoVacuumNext(s, p, c)) && Later(s, DoVacuumNext(s, p, c))
  {
    var s' := DoVacuumNext(s, p, c);
    assert ValidProc(s, c);
    VacuumNextLater(s, s', p, c);
    VacuumNextMine(s, s', p, c);
    VacuumNextLocks(s, s', p, c);
    VacuumNextLog(s, s', p, c);
    VacuumNextPages(s, s', p, c);
    OthersKeep(s, s', p);
    assert ValidMeta(s') && AllFromRows(s');
  }

  lemma {:induction false} VacuumKeepsOrDrops(opts: Options, page: Page, dead: Dead)
    requires opts.Valid() && ValidPage(opts, page) && Live(page)
    ensures var r := VacuumPage(opts, page, dead);
            forall t | t in page.items :: (Live(r) && t in r.items) || t in Drop(page.items, dead)
  {
    VacuumPageKeeps(opts, page, dead);
    KeepDropPartition(page.items, dead);
    forall t | t in page.items && t !in Drop(page.items, dead)
      ensures Live(VacuumPage(opts, page, dead)) && t in VacuumPage(opts, page, dead).items
    {
      assert multiset(page.items)[t] > 0;
      assert multiset(Keep(page.items, dead))[t] > 0;
    }
  }

  lemma {:induction false} VacuumMetaKeeps(s: State, p: nat, c: Proc)
    requires Inv(s) && p in s.procs && s.procs[p] == c && c.VacuumPages? && s.metaLock.None?
    requires |c.notFull| <= |s.meta.notFullPage|
    ensures Inv(DoVacuumMeta(s, p, c)) && Later(s, DoVacuumMeta(s, p, c))
  {
    var s' := DoVacuumMeta(s, p, c);
    assert ValidProc(s, c);
    MoveLocks(s, s', p);
    QuietKeeps(s, s', p);
  }

  lemma {:induction false} CleanupNextKeeps(s: State, p: nat, c: Proc)
    requires Inv(s) && p in s.procs && s.procs[p] == c && c.CleanupPages? && c.blkno < c.npages && PageReady(s, c.blkno)
    ensures Inv(DoCleanupNext(s, p, c)) && Later(s, DoCleanupNext(s, p, c))
  {
    assert ValidProc(s, c);
    MoveKeeps(s, DoCleanupNext(s, p, c), p);
  }

  /** Reading one more page settles what the scan owes for it. */
  lemma {:induction false} ProgressNext(s: State, c: Proc)
    requires c.ScanPages? && c.mark <= |s.removals| && PageReady(s, c.blkno)
    requires ScanProgress(s, c.snapshot, c.mark, c.wanted, c.blkno, c.found)
    ensures ScanProgress(s, c.snapshot, c.mark, c.wanted, c.blkno + 1, c.found + PageHits(s.pages[c.blkno], c.wanted))
  {
    forall b, t | HEAD_BLKNO <= b < |c.snapshot| && Live(c.snapshot[b]) && t in c.snapshot[b].items
      ensures ScanAccounts(s, b, t, c.mark, c.wanted, c.blkno + 1, c.found + PageHits(s.pages[c.blkno], c.wanted))
    {
      assert ScanAccounts(s, b, t, c.mark, c.wanted, c.blkno, c.found);
    }
  }

  lemma {:induction false} ProgressEnd(s: State, c: Proc)
    requires c.ScanPages? && c.mark <= |s.removals| && c.blkno >= |c.snapshot|
    requires ScanProgress(s, c.snapshot, c.mark, c.wanted, c.blkno, c.found)
    ensures ScanProgress(s, c.snapshot, c.mark, c.wanted, |c.snapshot|, c.found)
  {
    forall b, t | HEAD_BLKNO <= b < |c.snapshot| && Live(c.snapshot[b]) && t in c.snapshot[b].items
      ensures ScanAccounts(s, b, t, c.mark, c.wanted, |c.snapshot|, c.found)
    {
      assert ScanAccounts(s, b, t, c.mark, c.wanted, c.blkno, c.found);
    }
  }

  /** Entries on a live page are stored entries. */
  lemma {:induction false} HitsStored(s: State, b: nat, wanted: Signature)
    requires Conserved(s) && b < |s.pages|
    ensures FoundStored(s, wanted, PageHits(s.pages[b], wanted))
  {
    forall x | x in PageHits(s.pages[b], wanted)
      ensures exists t :: Stored(s, t) && t.heapPtr == x && Bits(wanted) <= Bits(t.sign)
    {
      var t :| t in s.pages[b].items && Bits(wanted) <= Bits(t.sign) && t.heapPtr == x;
      LiveMember(s.pages, b, t, |s.pages|);
      assert t in multiset(s.built) + multiset(Untag(s.inserts));
    }
  }

  lemma {:induction false} ScanNextMine(s: State, p: nat, c: Proc)
    requires Conserved(s)
    requires c.ScanPages? && ValidProc(s, c) && (c.blkno < |c.snapshot| ==> PageReady(s, c.blkno))
    ensures ValidProc(DoScanNext(s, p, c), DoScanNext(s, p, c).procs[p])
  {
    var s' := DoScanNext(s, p, c);
    ProcOnlyLater(s, s');
    if c.blkno >= |c.snapshot| { ProgressEnd(s, c); } else { ProgressNext(s, c); HitsStored(s, c.blkno, c.wanted); }
    ProcStable(s, s', s'.procs[p]);
  }

  lemma {:induction false} ScanNextKeeps(s: State, p: nat, c: Proc)
    requires Inv(s) && p in s.procs && s.procs[p] == c && c.ScanPages?
    requires c.blkno < |c.snapshot| ==> PageReady(s, c.blkno)
    ensures Inv(DoScanNext(s, p, c)) && Later(s, DoScanNext(s, p, c))
  {
    assert ValidProc(s, c);
    ScanNextMine(s, p, c);
    MoveKeeps(s, DoScanNext(s, p, c), p);
  }

  lemma {:induction false} BeginScanMine(s: State, s': State, p: nat, wanted: Signature)
    requires s' == SetProc(s, p, ScanPages(wanted, s.pages, |s.removals|, HEAD_BLKNO, {}))
    ensures ValidProc(s', s'.procs[p])
  {
    assert ScanProgress(s', s.pages, |s.removals|, wanted, HEAD_BLKNO, {});
  }

  lemma {:induction false} FailLocks(s: State, p: nat)
    requires ValidLocks(s) && p in s.procs
    ensures ValidLocks(DoFail(s, p))
  {
  }

  lemma {:induction false} FailKeeps(s: State, p: nat)
    requires Inv(s) && p in s.procs && !s.procs[p].InsertDone?
    ensures Inv(DoFail(s, p)) && Later(s, DoFail(s, p))
  {
    FailLocks(s, p);
    QuietKeeps(s, DoFail(s, p), p);
  }

  lemma {:induction false} StartKeeps(s: State, a: Action)
    requires Inv(s) && Enabled(s, a)
    requires a.BeginInsert? || a.BeginVacuum? || a.BeginCleanup? || a.BeginScan?
    ensures Inv(Apply(s, a)) && Later(s, Apply(s, a))
  {
    var s' := Apply(s, a);
    if a.BeginScan? { BeginScanMine(s, s', a.p, a.wanted); }
    MoveKeeps(s, s', a.p);
  }

  lemma {:induction false} ReadMetaKeeps(s: State, p: nat, c: Proc)
    requires Inv(s) && p in s.procs && s.procs[p] == c && c.InsertStart? && ReadMetaOk(s)
    ensures Inv(DoReadMeta(s, p, c.t)) && Later(s, DoReadMeta(s, p, c.t))
  {
    assert ValidProc(s, c);
    MoveKeeps(s, DoReadMeta(s, p, c.t), p);
  }

  lemma {:induction false} TakeFreeKeeps(s: State, p: nat, b: nat)
    requires Inv(s) && Enabled(s, TakeFree(p, b))
    ensures Inv(Apply(s, TakeFree(p, b))) && Later(s, Apply(s, TakeFree(p, b)))
  {
    assert ValidProc(s, s.procs[p]);
    MoveKeeps(s, Apply(s, TakeFree(p, b)), p);
  }

  /** Every step of every operation keeps the invariant and loses no tuple silently. */
  lemma {:induction false} StepKeeps(s: State, a: Action)
    requires Inv(s) && Enabled(s, a)
    ensures Inv(Apply(s, a)) && Later(s, Apply(s, a))
  {
    if OfInsert(a) { InsertStepKeeps(s, a); } else { OtherStepKeeps(s, a); }
  }

  predicate OfInsert(a: Action) {
    a.ReadMeta? || a.TryFirst? || a.LockMeta? || a.TryNext? || a.TakeFree? || a.CheckFree? || a.Extend? || a.Fill?
  }

  lemma {:induction false} InsertStepKeeps(s: State, a: Action)
    requires Inv(s) && Enabled(s, a) && OfInsert(a)
    ensures Inv(Apply(s, a)) && Later(s, Apply(s, a))
  {
    match a
    case ReadMeta(p) => ReadMetaKeeps(s, p, s.procs[p]);
    case TryFirst(p) => TryFirstKeeps(s, p, s.procs[p]);
    case LockMeta(p) => LockMetaKeeps(s, p, s.procs[p]);
    case TryNext(p) => TryNextKeeps(s, p, s.procs[p]);
    case TakeFree(p, b) => TakeFreeKeeps(s, p, b);
    case CheckFree(p) => CheckFreeKeeps(s, p, s.procs[p]);
    case Extend(p) => ExtendKeeps(s, p, s.procs[p]);
    case Fill(p) => FillKeeps(s, p, s.procs[p]);
  }

  lemma {:induction false} OtherStepKeeps(s: State, a: Action)
    requires Inv(s) && Enabled(s, a) && !OfInsert(a)
    ensures Inv(Apply(s, a)) && Later(s, Apply(s, a))
  {
    match a
    case BeginInsert(_, _) => StartKeeps(s, a);
    case BeginVacuum(_, _) => StartKeeps(s, a);
    case VacuumNext(p) => VacuumNextKeeps(s, p, s.procs[p]);
    case VacuumMeta(p) => VacuumMetaKeeps(s, p, s.procs[p]);
    case BeginCleanup(_) => StartKeeps(s, a);
    case CleanupNext(p) => CleanupNextKeeps(s, p, s.procs[p]);
    case BeginScan(_, _) => StartKeeps(s, a);
    case ScanNext(p) => ScanNextKeeps(s, p, s.procs[p]);
    case Fail(p) => FailKeeps(s, p);
    case ScrambleFsm(fsm) => FsmKeeps(s, fsm);
  }
}
