/** An insert that nobody interferes with, as a sequence of steps of the protocol. */
module BloomSolo {
  import opened Wrappers
  import opened BloomSignature
  import opened BloomPage
  import opened BloomProtocol

  /** s' is reached from s by the given steps of the protocol. */
  ghost predicate Steps(s: State, acts: seq<Action>, s': State) {
    exists trace: seq<State> :: Trace(s, acts, trace, s')
  }

  ghost predicate Trace(s: State, acts: seq<Action>, trace: seq<State>, s': State) {
    && |trace| == |acts| + 1 && trace[0] == s && trace[|acts|] == s'
    && forall k | 0 <= k < |acts| :: TraceAt(acts, trace, k)
  }

  ghost predicate TraceAt(acts: seq<Action>, trace: seq<State>, k: nat)
    requires |trace| == |acts| + 1 && k < |acts|
  {
    Enabled(trace[k], acts[k]) && trace[k + 1] == Apply(trace[k], acts[k])
  }

  lemma {:induction false} NoSteps(s: State)
    ensures Steps(s, [], s)
  {
    assert Trace(s, [], [s], s);
  }

  lemma {:induction false} StepsNext(s: State, acts: seq<Action>, m: State, a: Action)
    requires Steps(s, acts, m) && Enabled(m, a)
    ensures Steps(s, acts + [a], Apply(m, a))
  {
    var trace :| Trace(s, acts, trace, m);
    var acts', trace' := acts + [a], trace + [Apply(m, a)];
    forall k | 0 <= k < |acts'| ensures TraceAt(acts', trace', k) {
      if k < |acts| { assert TraceAt(acts, trace, k); }
    }
    assert Trace(s, acts', trace', Apply(m, a));
  }

  lemma {:induction false} StepsTo(s: State, acts: seq<Action>, m: State, a: Action, s': State)
    requires Steps(s, acts, m) && Enabled(m, a) && Apply(m, a) == s'
    ensures Steps(s, acts + [a], s')
  {
    StepsNext(s, acts, m, a);
  }

  /** What is stored: everything of a state but locks, operations and histories. */
  datatype Store = Store(opts: Options, pages: seq<Page>, meta: Meta, fsm: set<nat>) {
    ghost predicate Valid() {
      && opts.Valid()
      && ValidPages(Rest())
      && ValidMeta(Rest())
      && (forall b | b in fsm :: HEAD_BLKNO <= b < |pages|)
    }

    /** No operation is running. */
    function Rest(): State {
      State(opts, pages, meta, fsm, None, map[], map[], [], [], [])
    }

    /** Only operation p is running. */
    function With(p: nat, c: Proc, metaLock: Option<nat>, pageLock: map<nat, nat>): State {
      State(opts, pages, meta, fsm, metaLock, pageLock, map[p := c], [], [], [])
    }

    /** The insert p has applied and nothing else is running. */
    function After(p: nat, t: BloomTuple): State {
      With(p, InsertDone(t), None, map[]).(inserts := [(p, t)])
    }
  }

  lemma {:induction false} SetAgain<T>(p: nat, c: T, c': T)
    ensures map[p := c][p := c'] == map[p := c']
  {
  }

  lemma {:induction false} SoloBegin(st: Store, p: nat, t: BloomTuple)
    requires FromRow(st.opts, t)
    ensures Steps(st.Rest(), [BeginInsert(p, t)], st.With(p, InsertStart(t), None, map[]))
  {
    NoSteps(st.Rest());
    StepsNext(st.Rest(), [], st.Rest(), BeginInsert(p, t));
    assert [] + [BeginInsert(p, t)] == [BeginInsert(p, t)];
  }

  /** Where blinsert goes once it has read the metapage. */
  function FirstChoice(meta: Meta, t: BloomTuple): Proc
    requires meta.nStart < meta.nEnd ==> meta.nStart < |meta.notFullPage|
  {
    if meta.nEnd > meta.nStart then InsertTryFirst(t, meta.notFullPage[meta.nStart]) else InsertWantMeta(t, None)
  }

  lemma {:induction false} SoloReadMeta(s0: State, acts: seq<Action>, st: Store, p: nat, t: BloomTuple)
    requires st.meta.nStart < st.meta.nEnd ==> st.meta.nStart < |st.meta.notFullPage|
    requires Steps(s0, acts, st.With(p, InsertStart(t), None, map[]))
    ensures Steps(s0, acts + [ReadMeta(p)], st.With(p, FirstChoice(st.meta, t), None, map[]))
  {
    StepsNext(s0, acts, st.With(p, InsertStart(t), None, map[]), ReadMeta(p));
    SetAgain(p, InsertStart(t), FirstChoice(st.meta, t));
  }

  lemma {:induction false} SoloTryFirst(s0: State, acts: seq<Action>, st: Store, p: nat, t: BloomTuple, b: nat)
    requires b < |st.pages| && st.pages[b] != MetaPage
    requires Steps(s0, acts, st.With(p, InsertTryFirst(t, b), None, map[]))
    ensures match AddItem(st.opts, Prepared(st.pages[b]), t)
            case Some(page) => Steps(s0, acts + [TryFirst(p)], st.(pages := st.pages[b := page]).After(p, t))
            case None => Steps(s0, acts + [TryFirst(p)], st.With(p, InsertWantMeta(t, Some(b)), None, map[]))
  {
    var m := st.With(p, InsertTryFirst(t, b), None, map[]);
    StepsNext(s0, acts, m, TryFirst(p));
    assert Apply(m, TryFirst(p)) == DoTryFirst(m, p, t, b);
    SetAgain(p, InsertTryFirst(t, b), InsertDone(t));
    SetAgain(p, InsertTryFirst(t, b), InsertWantMeta(t, Some(b)));
    assert [] + [(p, t)] == [(p, t)];
  }

  /** Where blinsert starts in the list once it holds the metapage. */
  function StartAt(meta: Meta, tried: Option<nat>): nat
    requires meta.nStart < meta.nEnd ==> meta.nStart < |meta.notFullPage|
  {
    if meta.nStart < meta.nEnd && tried == Some(meta.notFullPage[meta.nStart]) then meta.nStart + 1 else meta.nStart
  }

  lemma {:induction false} SoloLockMeta(s0: State, acts: seq<Action>, st: Store, p: nat, t: BloomTuple,
                                        tried: Option<nat>)
    requires st.meta.nStart < st.meta.nEnd ==> st.meta.nStart < |st.meta.notFullPage|
    requires Steps(s0, acts, st.With(p, InsertWantMeta(t, tried), None, map[]))
    ensures Steps(s0, acts + [LockMeta(p)], st.With(p, InsertTryNext(t, StartAt(st.meta, tried)), Some(p), map[]))
  {
    StepsNext(s0, acts, st.With(p, InsertWantMeta(t, tried), None, map[]), LockMeta(p));
    SetAgain(p, InsertWantMeta(t, tried), InsertTryNext(t, StartAt(st.meta, tried)));
  }

  lemma {:induction false} SoloTryNext(s0: State, acts: seq<Action>, st: Store, p: nat, t: BloomTuple, n: nat)
    requires n < st.meta.nEnd <= |st.meta.notFullPage|
    requires st.meta.notFullPage[n] < |st.pages| && st.pages[st.meta.notFullPage[n]] != MetaPage
    requires Steps(s0, acts, st.With(p, InsertTryNext(t, n), Some(p), map[]))
    ensures var b := st.meta.notFullPage[n];
            match AddItem(st.opts, Prepared(st.pages[b]), t)
            case Some(page) =>
              Steps(s0, acts + [TryNext(p)],
                    st.(pages := st.pages[b := page], meta := st.meta.(nStart := n)).After(p, t))
            case None => Steps(s0, acts + [TryNext(p)], st.With(p, InsertTryNext(t, n + 1), Some(p), map[]))
  {
    var m := st.With(p, InsertTryNext(t, n), Some(p), map[]);
    StepsNext(s0, acts, m, TryNext(p));
    assert Apply(m, TryNext(p)) == DoTryNext(m, p, t, n);
    SetAgain(p, InsertTryNext(t, n), InsertDone(t));
    SetAgain(p, InsertTryNext(t, n), InsertTryNext(t, n + 1));
    assert [] + [(p, t)] == [(p, t)];
  }

  lemma {:induction false} SoloListEnd(s0: State, acts: seq<Action>, st: Store, p: nat, t: BloomTuple, n: nat)
    requires st.meta.nEnd <= n && st.meta.nEnd <= |st.meta.notFullPage|
    requires Steps(s0, acts, st.With(p, InsertTryNext(t, n), Some(p), map[]))
    ensures Steps(s0, acts + [TryNext(p)], st.With(p, InsertAlloc(t), Some(p), map[]))
  {
    StepsNext(s0, acts, st.With(p, InsertTryNext(t, n), Some(p), map[]), TryNext(p));
    SetAgain(p, InsertTryNext(t, n), InsertAlloc(t));
  }

  /** The state after a block was taken from the free space map, locked and looked at. */
  function AfterCheck(st: Store, p: nat, t: BloomTuple, b: nat): State
    requires b < |st.pages|
  {
    var st' := st.(fsm := st.fsm - {b});
    if Reusable(st.pages[b]) then st'.With(p, InsertFill(t, b), Some(p), map[b := p])
    else st'.With(p, InsertAlloc(t), Some(p), map[])
  }

  lemma {:induction false} SoloTakeFree(s0: State, acts: seq<Action>, st: Store, p: nat, t: BloomTuple, b: nat)
    requires b in st.fsm && b < |st.pages| && Steps(s0, acts, st.With(p, InsertAlloc(t), Some(p), map[]))
    ensures Steps(s0, acts + [TakeFree(p, b)] + [CheckFree(p)], AfterCheck(st, p, t, b))
  {
    var m := st.(fsm := st.fsm - {b}).With(p, InsertGotFree(t, b), Some(p), map[]);
    StepsNext(s0, acts, st.With(p, InsertAlloc(t), Some(p), map[]), TakeFree(p, b));
    SetAgain(p, InsertAlloc(t), InsertGotFree(t, b));
    StepsNext(s0, acts + [TakeFree(p, b)], m, CheckFree(p));
    SetAgain(p, InsertGotFree(t, b), InsertFill(t, b));
    SetAgain(p, InsertGotFree(t, b), InsertAlloc(t));
    assert Apply(m, CheckFree(p)) == DoCheckFree(m, p, t, b);
  }

  lemma {:induction false} SoloExtend(s0: State, acts: seq<Action>, st: Store, p: nat, t: BloomTuple)
    requires Steps(s0, acts, st.With(p, InsertAlloc(t), Some(p), map[]))
    ensures Steps(s0, acts + [Extend(p)],
                  st.(pages := st.pages + [NewPage]).With(p, InsertFill(t, |st.pages|), Some(p), map[|st.pages| := p]))
  {
    StepsNext(s0, acts, st.With(p, InsertAlloc(t), Some(p), map[]), Extend(p));
    SetAgain(p, InsertAlloc(t), InsertFill(t, |st.pages|));
  }

  /** What an insert leaves that put its tuple on the fresh block b. */
  function Filled(st: Store, t: BloomTuple, b: nat): Store
    requires b < |st.pages| && st.meta.notFullPage != [] && AddItem(st.opts, InitPage(), t).Some?
  {
    var page := AddItem(st.opts, InitPage(), t).value;
    st.(pages := st.pages[b := page], meta := Meta(0, 1, st.meta.notFullPage[0 := b]))
  }

  lemma {:induction false} SoloFill(s0: State, acts: seq<Action>, st: Store, p: nat, t: BloomTuple, b: nat)
    requires b < |st.pages| && st.meta.notFullPage != [] && AddItem(st.opts, InitPage(), t).Some?
    requires Steps(s0, acts, st.With(p, InsertFill(t, b), Some(p), map[b := p]))
    ensures Steps(s0, acts + [Fill(p)], Filled(st, t, b).After(p, t))
  {
    var m := st.With(p, InsertFill(t, b), Some(p), map[b := p]);
    StepsNext(s0, acts, m, Fill(p));
    assert Apply(m, Fill(p)) == DoFill(m, p, t, b);
    SetAgain(p, InsertFill(t, b), InsertDone(t));
    assert map[b := p] - {b} == map[];
    assert [] + [(p, t)] == [(p, t)];
  }
}
