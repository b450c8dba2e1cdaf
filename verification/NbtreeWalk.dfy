/** The check of a level as a whole (verify_nbtree.c): its walk together with the page checks and the
    child checks on the way, when it ends, and what acceptance means. */
module NbtreeWalk {
  import opened Wrappers
  import opened NbtreePage
  import opened NbtreeChild
  import opened NbtreeLevel
  import opened NbtreeParent

  // ---------------------------------------------------------------- one page

  /** Item k of an internal page bounds its child from below. */
  predicate BoundedAt(ix: Index, p: Page, k: nat)
    requires k < |p.items|
  {
    NegativeInfinity(p, k) || k < FirstData(p) || ChildBounded(ix, p.items[k])
  }

  /** Everything bt_target_page_check sees to on page i of a walk, the child level's chain aside. */
  predicate CheckedAt(ix: Index, visited: seq<nat>, i: nat)
    requires i < |visited|
  {
    visited[i] < |ix| && (!Ignore(ix[visited[i]]) ==> PageChecked(ix, ix[visited[i]]))
  }

  predicate PageChecked(ix: Index, p: Page) {
    PageInOrder(ix, p) && (!p.leaf ==> forall k | 0 <= k < |p.items| :: BoundedAt(ix, p, k))
  }

  /** Both halves of the check of one real item. */
  predicate ItemPassed(ix: Index, p: Page, k: nat)
    requires k < |p.items|
  {
    ItemVerdict(ix, p, k).Pass? && (!p.leaf ==> ChildBounded(ix, p.items[k]))
  }

  lemma {:induction false} PassedIsChecked(ix: Index, p: Page)
    requires forall k | 0 <= k < |p.items| && RealItem(p, k) :: ItemPassed(ix, p, k)
    ensures PageChecked(ix, p)
  {
    forall k | 0 <= k < |p.items| && !p.leaf ensures BoundedAt(ix, p, k) {
      if RealItem(p, k) { assert ItemPassed(ix, p, k); }
    }
    forall k | 0 <= k < |p.items| && RealItem(p, k) ensures ItemInOrder(p, k) { assert ItemPassed(ix, p, k); }
    if RealItem(p, |p.items| - 1) { assert ItemPassed(ix, p, |p.items| - 1); }
  }

  /** The check of item k raises an error: out of order, or its child is missing, deleted or not above
      its key. */
  predicate ItemFails(ix: Index, p: Page, k: nat)
    requires k < |p.items|
  {
    RealItem(p, k) && (ItemVerdict(ix, p, k).Fail? || (!p.leaf && !ChildBounded(ix, p.items[k])))
  }

  /** The check of item k looks for a right sibling for ever. */
  predicate ItemHangs(ix: Index, p: Page, k: nat)
    requires k < |p.items|
  {
    RealItem(p, k) && ItemVerdict(ix, p, k).Hang?
  }

  // ---------------------------------------------------------------- the state of the child checks

  /** prevrightlink and previncompletesplit. */
  type State = (Option<nat>, bool)

  const NO_STATE: State := (None, false)

  function CallIn(ix: Index, s: Step, state: State): Call {
    Call(ix, s.t.level, s.t.page, s.t.lowkey, s.off, state.0, state.1)
  }

  /** The state after one call, if it passes. */
  ghost function StepState(ix: Index, s: Step, state: State): Option<State> {
    if s.Valid() && ChildPath(CallIn(ix, s, state)).Found? then Some(AfterCall(CallIn(ix, s, state))) else None
  }

  /** The state after n calls, if all pass. */
  ghost function RunState(ix: Index, steps: seq<Step>, n: nat, state: State): Option<State>
    requires n <= |steps|
  {
    if n == 0 then Some(state)
    else
      match RunState(ix, steps, n - 1, state)
      case None => None
      case Some(s) => StepState(ix, steps[n - 1], s)
  }

  /** After the calls `done`, the call s ends with the verdict v. */
  ghost predicate CallEnds(ix: Index, done: seq<Step>, s: Step, v: Verdict) {
    && s.Valid() && RunState(ix, done, |done|, NO_STATE).Some?
    && VerdictOf(ChildPath(CallIn(ix, s, RunState(ix, done, |done|, NO_STATE).value))) == v
  }

  lemma {:induction false} RunStatePrefix(ix: Index, a: seq<Step>, b: seq<Step>, n: nat, state: State)
    requires n <= |a|
    ensures RunState(ix, a + b, n, state) == RunState(ix, a, n, state)
  {
    if n > 0 {
      RunStatePrefix(ix, a, b, n - 1, state);
      assert (a + b)[n - 1] == a[n - 1];
    }
  }

  /** Calls one after the other. */
  lemma {:induction false} RunStateJoin(ix: Index, a: seq<Step>, b: seq<Step>, n: nat, state: State)
    requires n <= |b|
    ensures var mid := RunState(ix, a, |a|, state);
            RunState(ix, a + b, |a| + n, state) == if mid.None? then None else RunState(ix, b, n, mid.value)
  {
    if n == 0 {
      RunStatePrefix(ix, a, b, |a|, state);
    } else {
      RunStateJoin(ix, a, b, n - 1, state);
      assert (a + b)[|a| + n - 1] == b[n - 1];
    }
  }

  /** The calls of a run without error. */
  lemma {:induction false} RunOfState(ix: Index, steps: seq<Step>, n: nat) returns (trails: seq<Trail>)
    requires n <= |steps| && RunState(ix, steps, n, NO_STATE).Some?
    ensures |trails| == n + 1 && trails[0] == START
    ensures RunState(ix, steps, n, NO_STATE) == Some((trails[n].prevright, trails[n].split))
    ensures forall k | 0 <= k < n :: RunsAt(ix, steps, trails, k)
  {
    if n == 0 {
      trails := [START];
    } else {
      var before := RunOfState(ix, steps, n - 1);
      var s, trail := steps[n - 1], before[n - 1];
      assert CallAt(ix, s, trail) == CallIn(ix, s, (trail.prevright, trail.split));
      trails := before + [Visit(ix, s, trail).value];
      forall k | 0 <= k < n ensures RunsAt(ix, steps, trails, k) {
        if k < n - 1 { assert RunsAt(ix, steps, before, k); }
      }
    }
  }

  ghost predicate RunsAt(ix: Index, steps: seq<Step>, trails: seq<Trail>, k: nat)
    requires k < |steps| && k + 1 < |trails|
  {
    steps[k].Valid() && Visit(ix, steps[k], trails[k]) == Some(trails[k + 1])
  }

  lemma {:induction false} StateIsRun(ix: Index, steps: seq<Step>)
    requires RunState(ix, steps, |steps|, NO_STATE).Some?
    ensures exists trails :: ChildRun(ix, steps, trails)
  {
    var trails := RunOfState(ix, steps, |steps|);
    forall k | 0 <= k < |steps| ensures RunAt(ix, steps, trails, k) { assert RunsAt(ix, steps, trails, k); }
    assert ChildRun(ix, steps, trails);
  }

  // ---------------------------------------------------------------- the walk

  /** A walk without error so far, page checks included. */
  ghost predicate SoFar(ix: Index, level: nat, first: nat, trueRoot: bool, visited: seq<nat>) {
    && InIndex(ix, visited)
    && Passed(ix, level, first, trueRoot, visited)
    && (forall i | 0 <= i < |visited| :: CheckedAt(ix, visited, i))
  }

  predicate InIndex(ix: Index, visited: seq<nat>) {
    forall i | 0 <= i < |visited| :: visited[i] < |ix|
  }

  predicate AllIgnored(ix: Index, visited: seq<nat>) {
    forall i | 0 <= i < |visited| :: visited[i] < |ix| && Ignore(ix[visited[i]])
  }

  predicate SomeIgnored(ix: Index, visited: seq<nat>) {
    exists i | 0 <= i < |visited| :: visited[i] < |ix| && Ignore(ix[visited[i]])
  }

  /** The block that a walk comes to next. */
  function NextBlock(ix: Index, first: nat, visited: seq<nat>): nat {
    if visited == [] then first else NextOf(ix, Last(visited))
  }

  /** The checks on the next block of a walk, page check aside. */
  ghost predicate LinksFit(ix: Index, level: nat, trueRoot: bool, visited: seq<nat>, b: nat) {
    && Loads(ix, b) && b != ix[b].prev && (visited != [] ==> b != Last(visited))
    && (if Ignore(ix[b]) then !ix[b].deleted && !Rightmost(ix[b])
        else
          && ix[b].level == level && (visited != [] ==> ix[b].prev == Last(visited))
          && (AllIgnored(ix, visited) ==> StartsLeft(ix, b) && (trueRoot ==> ix[b].root)))
  }

  /** All checks on the next block. */
  ghost predicate Fits(ix: Index, level: nat, first: nat, trueRoot: bool, visited: seq<nat>, b: nat) {
    && b != P_NONE && b == NextBlock(ix, first, visited)
    && LinksFit(ix, level, trueRoot, visited, b) && (!Ignore(ix[b]) ==> PageChecked(ix, ix[b]))
  }

  lemma {:induction false} FitsExtends(ix: Index, level: nat, first: nat, trueRoot: bool, visited: seq<nat>, b: nat)
    requires SoFar(ix, level, first, trueRoot, visited) && Fits(ix, level, first, trueRoot, visited, b)
    ensures SoFar(ix, level, first, trueRoot, visited + [b])
  {
    var longer := visited + [b];
    forall i | 0 <= i < |longer| ensures PassedAt(ix, level, first, longer, i) && CheckedAt(ix, longer, i) {
      if i < |visited| { assert PassedAt(ix, level, first, visited, i) && CheckedAt(ix, visited, i); }
    }
    forall i | 0 <= i < |longer| && FirstLive(ix, longer, i)
      ensures (exists path :: HalfDeadPath(ix, longer[i], path)) && (trueRoot ==> ix[longer[i]].root)
    {
      assert forall j | 0 <= j < |visited| :: longer[j] == visited[j];
      if i < |visited| { assert FirstLive(ix, visited, i); }
    }
  }

  /** The child calls that a walk owes; none on the leaf level. */
  function StepsSoFar(ix: Index, level: nat, visited: seq<nat>): seq<Step>
    requires InIndex(ix, visited)
  {
    if level == 0 then [] else LevelSteps(ix, level, visited, |visited|)
  }

  /** Those for one more page. */
  function StepsFor(ix: Index, level: nat, visited: seq<nat>, b: nat): seq<Step>
    requires InIndex(ix, visited) && b < |ix|
  {
    if level == 0 then [] else StepsOf(level, ix[b], LowKey(ix, visited, |visited|))
  }

  /** The calls of a walk do not depend on what comes after. */
  lemma {:induction false} StepsAgree(ix: Index, level: nat, a: seq<nat>, b: seq<nat>, n: nat)
    requires InIndex(ix, a) && InIndex(ix, b) && n <= |a| && n <= |b| && forall i | 0 <= i < n :: a[i] == b[i]
    ensures LevelSteps(ix, level, a, n) == LevelSteps(ix, level, b, n)
  {
    if n > 0 {
      StepsAgree(ix, level, a, b, n - 1);
      assert LowKey(ix, a, n - 1) == LowKey(ix, b, n - 1);
    }
  }

  lemma {:induction false} StepsNext(ix: Index, level: nat, visited: seq<nat>, b: nat)
    requires b < |ix| && InIndex(ix, visited)
    ensures StepsSoFar(ix, level, visited + [b]) == StepsSoFar(ix, level, visited) + StepsFor(ix, level, visited, b)
  {
    var longer, n := visited + [b], |visited|;
    if level > 0 {
      StepsAgree(ix, level, longer, visited, n);
      LevelStepsNext(ix, level, longer, n);
      LowKeyAgree(ix, visited, b);
    }
  }

  lemma {:induction false} LevelStepsNext(ix: Index, level: nat, visited: seq<nat>, n: nat)
    requires InIndex(ix, visited) && n < |visited|
    ensures LevelSteps(ix, level, visited, n + 1) ==
            LevelSteps(ix, level, visited, n) + StepsOf(level, ix[visited[n]], LowKey(ix, visited, n))
  {
  }

  lemma {:induction false} LowKeyAgree(ix: Index, visited: seq<nat>, b: nat)
    requires InIndex(ix, visited) && b < |ix|
    ensures LowKey(ix, visited + [b], |visited|) == LowKey(ix, visited, |visited|)
    ensures LowKey(ix, visited + [b], |visited| + 1) == HighKey(ix[b])
  {
  }

  /** The state of the child checks after a walk, if all of them pass. */
  ghost function WalkState(ix: Index, level: nat, visited: seq<nat>): Option<State>
    requires InIndex(ix, visited)
  {
    RunState(ix, StepsSoFar(ix, level, visited), |StepsSoFar(ix, level, visited)|, NO_STATE)
  }

  lemma {:induction false} WalkStateNext(ix: Index, level: nat, visited: seq<nat>, b: nat)
    requires b < |ix| && InIndex(ix, visited)
    ensures var more, mid := StepsFor(ix, level, visited, b), WalkState(ix, level, visited);
            WalkState(ix, level, visited + [b]) == if mid.None? then None else RunState(ix, more, |more|, mid.value)
  {
    var more := StepsFor(ix, level, visited, b);
    StepsNext(ix, level, visited, b);
    RunStateJoin(ix, StepsSoFar(ix, level, visited), more, |more|, NO_STATE);
  }

  lemma {:induction false} WalkStatePrefix(ix: Index, level: nat, visited: seq<nat>, pre: seq<nat>)
    requires InIndex(ix, visited) && InIndex(ix, pre) && pre <= visited && WalkState(ix, level, visited).Some?
    ensures WalkState(ix, level, pre).Some?
    decreases |visited|
  {
    if |pre| == |visited| {
      assert pre == visited;
    } else {
      var shorter := visited[..|visited| - 1];
      PrefixShorter(visited, pre);
      ShorterState(ix, level, shorter, Last(visited));
      WalkStatePrefix(ix, level, shorter, pre);
    }
  }

  lemma {:induction false} PrefixShorter(visited: seq<nat>, pre: seq<nat>)
    requires pre < visited
    ensures visited == visited[..|visited| - 1] + [Last(visited)] && pre <= visited[..|visited| - 1]
  {
  }

  lemma {:induction false} ShorterState(ix: Index, level: nat, visited: seq<nat>, b: nat)
    requires InIndex(ix, visited) && b < |ix| && InIndex(ix, visited + [b])
    requires WalkState(ix, level, visited + [b]).Some?
    ensures WalkState(ix, level, visited).Some?
  {
    WalkStateNext(ix, level, visited, b);
  }

  /** The walk has come so far with all checks passed, child checks included. */
  ghost predicate Walked(ix: Index, level: nat, first: nat, trueRoot: bool, visited: seq<nat>) {
    SoFar(ix, level, first, trueRoot, visited) && WalkState(ix, level, visited).Some?
  }

  // ---------------------------------------------------------------- how the check of a level ends

  /** Acceptance: the walk ends at a rightmost page. */
  ghost predicate LevelAccepted(ix: Index, level: nat, first: nat, trueRoot: bool, visited: seq<nat>) {
    && visited != [] && SoFar(ix, level, first, trueRoot, visited) && Rightmost(ix[Last(visited)])
    && (level > 0 ==> exists trails :: ChildRun(ix, LevelSteps(ix, level, visited, |visited|), trails))
  }

  lemma {:induction false} WalkedAccepted(ix: Index, level: nat, first: nat, trueRoot: bool, visited: seq<nat>)
    requires visited != [] && Walked(ix, level, first, trueRoot, visited) && Rightmost(ix[Last(visited)])
    ensures LevelAccepted(ix, level, first, trueRoot, visited)
  {
    if level > 0 { StateIsRun(ix, LevelSteps(ix, level, visited, |visited|)); }
  }

  /** The page as bt_target_page_check sees it in this walk. */
  function ParentAt(ix: Index, level: nat, visited: seq<nat>, b: nat): Parent
    requires InIndex(ix, visited) && b < |ix|
  {
    Parent(level, ix[b], LowKey(ix, visited, |visited|))
  }

  /** One of the child calls of page t ends with v, after the calls `done` and those before it. */
  ghost predicate SomeCallEnds(ix: Index, done: seq<Step>, t: Parent, v: Verdict) {
    var steps := PageSteps(t, FirstData(t.page));
    !t.page.leaf && exists k | 0 <= k < |steps| :: CallEnds(ix, done + steps[..k], steps[k], v)
  }

  /** Some check of page t raises an error. */
  ghost predicate PageFails(ix: Index, done: seq<Step>, t: Parent) {
    (exists k | 0 <= k < |t.page.items| :: ItemFails(ix, t.page, k)) || SomeCallEnds(ix, done, t, Fail)
  }

  /** Some check of page t runs for ever. */
  ghost predicate PageHangs(ix: Index, done: seq<Step>, t: Parent) {
    (exists k | 0 <= k < |t.page.items| :: ItemHangs(ix, t.page, k)) || SomeCallEnds(ix, done, t, Hang)
  }

  /** The walk has come to a block whose checks raise an error. */
  ghost predicate LevelRaises(ix: Index, level: nat, first: nat, trueRoot: bool, visited: seq<nat>) {
    && Walked(ix, level, first, trueRoot, visited)
    && var b := NextBlock(ix, first, visited);
       b != P_NONE &&
       (!LinksFit(ix, level, trueRoot, visited, b) ||
        (b < |ix| && !Ignore(ix[b]) && PageFails(ix, StepsSoFar(ix, level, visited), ParentAt(ix, level, visited, b))))
  }

  /** The walk has come to a block whose checks run for ever. */
  ghost predicate LevelHangs(ix: Index, level: nat, first: nat, trueRoot: bool, visited: seq<nat>) {
    && Walked(ix, level, first, trueRoot, visited)
    && var b := NextBlock(ix, first, visited);
       b != P_NONE && b < |ix| && !Ignore(ix[b])
       && PageHangs(ix, StepsSoFar(ix, level, visited), ParentAt(ix, level, visited, b))
  }

  /** The walk comes to n pages and all checks pass. */
  ghost predicate LevelRunsOver(ix: Index, level: nat, first: nat, trueRoot: bool, n: nat) {
    exists visited :: Walked(ix, level, first, trueRoot, visited) && |visited| >= n
  }

  /** The walk itself runs for ever. */
  ghost predicate NeverEnds(ix: Index, level: nat, first: nat, trueRoot: bool) {
    forall n: nat :: LevelRunsOver(ix, level, first, trueRoot, n)
  }

  /** The walk `before` is a beginning of the walk, and both end in the same block. */
  predicate SameEnd(visited: seq<nat>, before: seq<nat>) {
    before != [] && before < visited && Last(visited) == Last(before)
  }

  lemma {:induction false} SameEndNext(visited: seq<nat>, before: seq<nat>, e: nat)
    requires SameEnd(visited, before) && e == visited[|before|]
    ensures SameEnd(visited + [e], before + [e])
    ensures 0 < |before| < |visited| && Last(visited) == visited[|before| - 1] && before + [e] <= visited
  {
  }

  /** The walk is in the same block as it was after `before`, and the child checks are in the same state. */
  ghost predicate SameAsBefore(ix: Index, level: nat, visited: seq<nat>, before: seq<nat>) {
    && InIndex(ix, visited) && InIndex(ix, before) && SameEnd(visited, before)
    && WalkState(ix, level, visited) == WalkState(ix, level, before)
  }

  /** Then it goes on as it did then. */
  lemma {:induction false} SameAgain(ix: Index, level: nat, first: nat, trueRoot: bool, visited: seq<nat>,
                                     before: seq<nat>, e: nat)
    requires Walked(ix, level, first, trueRoot, visited) && SameAsBefore(ix, level, visited, before)
    requires e == visited[|before|]
    ensures Walked(ix, level, first, trueRoot, visited + [e]) && SameAsBefore(ix, level, visited + [e], before + [e])
  {
    SameFits(ix, level, first, trueRoot, visited, before, e);
    SameState(ix, level, visited, before, e);
  }

  lemma {:induction false} SameFits(ix: Index, level: nat, first: nat, trueRoot: bool, visited: seq<nat>,
                                    before: seq<nat>, e: nat)
    requires SoFar(ix, level, first, trueRoot, visited) && SameEnd(visited, before) && e == visited[|before|]
    ensures SoFar(ix, level, first, trueRoot, visited + [e])
  {
    SameEndNext(visited, before, e);
    PassedIsFit(ix, level, first, trueRoot, visited, |before|);
    FitsExtends(ix, level, first, trueRoot, visited, e);
  }

  lemma {:induction false} SameState(ix: Index, level: nat, visited: seq<nat>, before: seq<nat>, e: nat)
    requires InIndex(ix, visited) && WalkState(ix, level, visited).Some?
    requires SameAsBefore(ix, level, visited, before) && e == visited[|before|]
    ensures InIndex(ix, visited + [e]) && WalkState(ix, level, visited + [e]).Some?
    ensures SameAsBefore(ix, level, visited + [e], before + [e])
  {
    SameEndNext(visited, before, e);
    WalkStatePrefix(ix, level, visited, before + [e]);
    SameNext(ix, level, before, visited, e);
  }

  /** From the same block and state the same block leads to the same state. */
  lemma {:induction false} SameNext(ix: Index, level: nat, a: seq<nat>, b: seq<nat>, e: nat)
    requires InIndex(ix, a) && InIndex(ix, b) && e < |ix| && a != [] && b != [] && Last(a) == Last(b)
    requires WalkState(ix, level, a) == WalkState(ix, level, b)
    ensures WalkState(ix, level, a + [e]) == WalkState(ix, level, b + [e])
  {
    WalkStateNext(ix, level, a, e);
    WalkStateNext(ix, level, b, e);
    assert LowKey(ix, a, |a|) == LowKey(ix, b, |b|);
    assert StepsFor(ix, level, a, e) == StepsFor(ix, level, b, e);
  }

  /** A block of the walk fits again behind the block that it once followed. */
  lemma {:induction false} PassedIsFit(ix: Index, level: nat, first: nat, trueRoot: bool, visited: seq<nat>, i: nat)
    requires SoFar(ix, level, first, trueRoot, visited) && 0 < i < |visited| && Last(visited) == visited[i - 1]
    ensures Fits(ix, level, first, trueRoot, visited, visited[i])
  {
    assert PassedAt(ix, level, first, visited, i) && CheckedAt(ix, visited, i);
  }

  lemma {:induction false} SameForEver(ix: Index, level: nat, first: nat, trueRoot: bool, visited: seq<nat>,
                                       before: seq<nat>, n: nat)
    requires Walked(ix, level, first, trueRoot, visited) && SameAsBefore(ix, level, visited, before)
    ensures LevelRunsOver(ix, level, first, trueRoot, n)
    decreases n - |visited|
  {
    if |visited| < n {
      var e := visited[|before|];
      SameAgain(ix, level, first, trueRoot, visited, before, e);
      SameForEver(ix, level, first, trueRoot, visited + [e], before + [e], n);
    }
  }

  /** A walk that never ends goes round in one of the two ways that half-dead pages allow. */
  lemma {:induction false} NeverEndsGoesRound(ix: Index, level: nat, first: nat, trueRoot: bool)
    requires NeverEnds(ix, level, first, trueRoot)
    ensures exists visited :: Walked(ix, level, first, trueRoot, visited) && GoesRound(ix, visited)
  {
    assert LevelRunsOver(ix, level, first, trueRoot, |ix| + 1);
    var visited :| Walked(ix, level, first, trueRoot, visited) && |visited| >= |ix| + 1;
    Pigeonhole(visited, |ix|);
    RepeatsExactly(ix, level, first, trueRoot, visited);
  }

  /** There is such an index: its root is checked again and again. */
  lemma {:induction false} RootCanGoRound(ix: Index)
    requires ix == RoundIndex()
    ensures NeverEnds(ix, 0, 1, true)
  {
    forall n: nat ensures LevelRunsOver(ix, 0, 1, true, n) {
      var visited := RoundWalk(n);
      WalkCanGoRound(n);
      forall i | 0 <= i < n ensures CheckedAt(ix, visited, i) {
        assert visited[i] == 1 || visited[i] == 2;
      }
      assert Walked(ix, 0, 1, true, visited);
    }
  }

  /** And there is one without any ignorable page where a child call never ends. */
  lemma {:induction false} ChildCallCanHang(ix: Index)
    requires ix == CircleIndex()
    ensures LevelHangs(ix, 1, 1, true, []) && forall b | 0 <= b < |ix| :: !Ignore(ix[b])
  {
    var t := Parent(1, ix[1], None);
    ChildCallCanGoRound(ix, t);
    assert LevelSteps(ix, 1, [1], 0) == [] && LevelSteps(ix, 1, [1], 1) == PageSteps(t, 0);
    SecondCallHangs(ix, t, PageSteps(t, 0));
    HangsAtOnce(ix, t);
  }

  lemma {:induction false} HangsAtOnce(ix: Index, t: Parent)
    requires |ix| > 1 && !Ignore(ix[1]) && t == Parent(1, ix[1], None) && SomeCallEnds(ix, [], t, Hang)
    ensures LevelHangs(ix, 1, 1, true, [])
  {
    assert LevelSteps(ix, 1, [], 0) == [];
  }

  lemma {:induction false} SecondCallHangs(ix: Index, t: Parent, steps: seq<Step>)
    requires !t.page.leaf && steps == PageSteps(t, FirstData(t.page)) && |steps| >= 2 && steps[0].Valid()
    requires steps[1].Valid()
    requires Visit(ix, steps[0], START).Some?
    requires ChildPath(CallAt(ix, steps[1], Visit(ix, steps[0], START).value)).Forever?
    ensures SomeCallEnds(ix, [], t, Hang)
  {
    var none: seq<Step> := [];
    var s, next := steps[0], Visit(ix, steps[0], START).value;
    assert none + steps[..1] == [s];
    assert CallAt(ix, s, START) == CallIn(ix, s, NO_STATE);
    assert RunState(ix, [s], 0, NO_STATE) == Some(NO_STATE);
    assert RunState(ix, [s], 1, NO_STATE) == Some((next.prevright, next.split));
    assert CallAt(ix, steps[1], next) == CallIn(ix, steps[1], (next.prevright, next.split));
    assert CallEnds(ix, none + steps[..1], steps[1], Hang);
  }

  /** There is one walk: a longer one begins with the shorter one. */
  lemma {:induction false} OneWalk(ix: Index, level: nat, first: nat, trueRoot: bool, a: seq<nat>, b: seq<nat>, i: nat)
    requires Passed(ix, level, first, trueRoot, a) && Passed(ix, level, first, trueRoot, b) && i < |a| && i < |b|
    ensures a[i] == b[i]
  {
    assert PassedAt(ix, level, first, a, i) && PassedAt(ix, level, first, b, i);
    if i > 0 { OneWalk(ix, level, first, trueRoot, a, b, i - 1); }
  }

  /** No walk goes beyond a rightmost page. */
  lemma {:induction false} WalkStops(ix: Index, level: nat, first: nat, trueRoot: bool, visited: seq<nat>,
                                     other: seq<nat>)
    requires Passed(ix, level, first, trueRoot, visited) && Passed(ix, level, first, trueRoot, other)
    requires visited != [] && Last(visited) < |ix| && Rightmost(ix[Last(visited)])
    ensures |other| <= |visited|
  {
    var n := |visited|;
    if |other| > n {
      assert PassedAt(ix, level, first, other, n);
      OneWalk(ix, level, first, trueRoot, visited, other, n - 1);
    }
  }

  /** An accepted level is one whose walk ends. */
  lemma {:induction false} AcceptedEnds(ix: Index, level: nat, first: nat, trueRoot: bool, visited: seq<nat>)
    requires LevelAccepted(ix, level, first, trueRoot, visited)
    ensures !NeverEnds(ix, level, first, trueRoot)
  {
    if NeverEnds(ix, level, first, trueRoot) {
      assert LevelRunsOver(ix, level, first, trueRoot, |visited| + 1);
      var other :| Walked(ix, level, first, trueRoot, other) && |other| >= |visited| + 1;
      WalkStops(ix, level, first, trueRoot, visited, other);
    }
  }

  // ---------------------------------------------------------------- the level below

  /** How the check of a level ends: with the block and number of the level below, with an error, or
      never. */
  datatype Outcome = Accepted(leftmost: Option<nat>, level: int) | Raised | Endless

  /** What the first live page of a level says about the level below. */
  function NextDown(p: Page): (r: Outcome)
    requires SanePage(p) && !Ignore(p)
    ensures r.Accepted? && r.leftmost.Some?
  {
    if p.leaf then Accepted(Some(P_NONE), -1) else Accepted(Some(p.items[FirstData(p)].link), p.level - 1)
  }

  /** Block i of the walk is the first live page, and it says r. */
  predicate SaysAt(ix: Index, visited: seq<nat>, i: nat, r: Outcome)
    requires i < |visited|
  {
    FirstLive(ix, visited, i) && SanePage(ix[visited[i]]) && r == NextDown(ix[visited[i]])
  }

  /** Some first live page of the walk says r. */
  ghost predicate SaidBy(ix: Index, visited: seq<nat>, r: Outcome) {
    exists i | 0 <= i < |visited| :: SaysAt(ix, visited, i, r)
  }

  /** The outcome so far names the level below as soon as a live page was met. */
  ghost predicate NextKnown(ix: Index, visited: seq<nat>, r: Outcome)
    requires r.Accepted?
  {
    if r.leftmost.None? then AllIgnored(ix, visited) else SaidBy(ix, visited, r)
  }

  lemma {:induction false} NextKnownStep(ix: Index, visited: seq<nat>, b: nat, r: Outcome)
    requires r.Accepted? && NextKnown(ix, visited, r) && b < |ix|
    requires SanePage(ix[b])
    ensures NextKnown(ix, visited + [b], if r.leftmost.None? && !Ignore(ix[b]) then NextDown(ix[b]) else r)
  {
    var longer := visited + [b];
    assert forall j | 0 <= j < |visited| :: longer[j] == visited[j];
    assert longer[|visited|] == b;
    if r.leftmost.Some? {
      var i :| 0 <= i < |visited| && SaysAt(ix, visited, i, r);
      assert SaysAt(ix, longer, i, r);
    } else if !Ignore(ix[b]) {
      assert SaysAt(ix, longer, |visited|, NextDown(ix[b]));
    }
  }

  lemma {:induction false} LiveNotIgnored(ix: Index, visited: seq<nat>, r: Outcome)
    requires r.Accepted? && NextKnown(ix, visited, r)
    ensures r.leftmost.None? <==> AllIgnored(ix, visited)
  {
    if r.leftmost.Some? {
      var i :| 0 <= i < |visited| && SaysAt(ix, visited, i, r);
      assert !Ignore(ix[visited[i]]);
    }
  }

  /** An accepted level has a live page, its last, so "no valid pages on level" is never raised. */
  lemma {:induction false} AcceptedLive(ix: Index, level: nat, first: nat, trueRoot: bool, visited: seq<nat>)
    requires LevelAccepted(ix, level, first, trueRoot, visited)
    ensures !AllIgnored(ix, visited)
  {
    assert PassedAt(ix, level, first, visited, |visited| - 1);
  }

  /** The level that an accepted level names next is one further down. */
  lemma {:induction false} SaidLevel(ix: Index, level: nat, first: nat, visited: seq<nat>, r: Outcome)
    requires forall i | 0 <= i < |visited| :: PassedAt(ix, level, first, visited, i)
    requires r.Accepted? && r.leftmost.Some? && NextKnown(ix, visited, r)
    ensures r.leftmost.value != P_NONE ==> SaidBy(ix, visited, Accepted(r.leftmost, level - 1)) && level > 0
  {
    var i :| 0 <= i < |visited| && SaysAt(ix, visited, i, r);
    assert PassedAt(ix, level, first, visited, i);
  }

  // ---------------------------------------------------------------- every level

  /** Level number k from the top was accepted, starting where the level above points to. */
  ghost predicate LevelAt(ix: Index, root: nat, rootLevel: nat, firsts: seq<nat>, walks: seq<seq<nat>>, k: nat)
    requires k < |walks| == |firsts|
  {
    && k <= rootLevel && LevelAccepted(ix, rootLevel - k, firsts[k], k == 0, walks[k])
    && (if k == 0 then firsts[k] == root else SaidBy(ix, walks[k - 1], Accepted(Some(firsts[k]), rootLevel - k)))
  }

  /** The levels checked so far were all accepted. */
  ghost predicate LevelsAccepted(ix: Index, root: nat, rootLevel: nat, firsts: seq<nat>, walks: seq<seq<nat>>) {
    |firsts| == |walks| && forall k | 0 <= k < |walks| :: LevelAt(ix, root, rootLevel, firsts, walks, k)
  }

  /** And the next one begins at block b. */
  ghost predicate NextLevel(ix: Index, root: nat, rootLevel: nat, walks: seq<seq<nat>>, b: nat) {
    if walks == [] then b == root
    else |walks| <= rootLevel && SaidBy(ix, Last(walks), Accepted(Some(b), rootLevel - |walks|))
  }

  lemma {:induction false} LevelsExtend(ix: Index, root: nat, rootLevel: nat, firsts: seq<nat>, walks: seq<seq<nat>>,
                                        first: nat, visited: seq<nat>)
    requires LevelsAccepted(ix, root, rootLevel, firsts, walks) && |walks| <= rootLevel
    requires LevelAccepted(ix, rootLevel - |walks|, first, walks == [], visited)
    requires NextLevel(ix, root, rootLevel, walks, first)
    ensures LevelsAccepted(ix, root, rootLevel, firsts + [first], walks + [visited])
  {
    var firsts', walks' := firsts + [first], walks + [visited];
    forall k | 0 <= k < |walks'| ensures LevelAt(ix, root, rootLevel, firsts', walks', k) {
      if k < |walks| { assert LevelAt(ix, root, rootLevel, firsts, walks, k); }
    }
  }

  lemma {:induction false} NextLevelStep(ix: Index, root: nat, rootLevel: nat, walks: seq<seq<nat>>, first: nat,
                                         visited: seq<nat>, r: Outcome)
    requires |walks| <= rootLevel && LevelAccepted(ix, rootLevel - |walks|, first, walks == [], visited)
    requires r.Accepted? && r.leftmost.Some? && NextKnown(ix, visited, r)
    ensures r.leftmost.value != P_NONE ==> NextLevel(ix, root, rootLevel, walks + [visited], r.leftmost.value)
  {
    SaidLevel(ix, rootLevel - |walks|, first, visited, r);
  }

  // ---------------------------------------------------------------- what acceptance implies

  /** The downlinks of a level from left to right. */
  function Downs(ix: Index, level: nat, visited: seq<nat>): seq<nat>
    requires HasDowns(ix, level, visited)
  {
    var steps := LevelSteps(ix, level, visited, |visited|);
    Links(steps, |steps|)
  }

  predicate HasDowns(ix: Index, level: nat, visited: seq<nat>) {
    && InIndex(ix, visited)
    && var steps := LevelSteps(ix, level, visited, |visited|);
       forall i | 0 <= i < |steps| :: steps[i].Valid()
  }

  /** They lead to the pages of the whole level below, every page passed over accounted for. */
  ghost predicate LevelConnected(ix: Index, level: nat, visited: seq<nat>)
    requires HasDowns(ix, level, visited)
  {
    exists chain, hits :: Connected(ix, Downs(ix, level, visited), chain, hits)
  }

  /** An accepted internal level without ignorable pages is connected to its children exactly when its
      downlinks are good: none is P_NONE and none leads to a page with right link 0xffffffff. */
  lemma {:induction false} InternalLevelConnected(ix: Index, level: nat, first: nat, trueRoot: bool, visited: seq<nat>)
    requires LevelAccepted(ix, level, first, trueRoot, visited) && level > 0 && !SomeIgnored(ix, visited)
    ensures HasDowns(ix, level, visited)
    ensures LevelConnected(ix, level, visited) <==> GoodLinks(ix, Downs(ix, level, visited))
  {
    AcceptedShape(ix, level, first, trueRoot, visited);
    var steps := LevelSteps(ix, level, visited, |visited|);
    var trails :| ChildRun(ix, steps, trails);
    DownlinksAlongChildren(ix, steps, trails);
  }

  lemma {:induction false} AcceptedShape(ix: Index, level: nat, first: nat, trueRoot: bool, visited: seq<nat>)
    requires LevelAccepted(ix, level, first, trueRoot, visited) && level > 0 && !SomeIgnored(ix, visited)
    ensures forall i | 0 <= i < |visited| :: InnerAt(ix, visited, i)
    ensures var steps := LevelSteps(ix, level, visited, |visited|);
            |steps| > 1 && EndsLevel(steps) && (forall i | 0 <= i < |steps| :: steps[i].Valid())
  {
    forall i | 0 <= i < |visited| ensures InnerAt(ix, visited, i) {
      AcceptedInner(ix, level, first, trueRoot, visited, i);
    }
    LevelStepsShape(ix, level, visited, |visited|);
    var steps := LevelSteps(ix, level, visited, |visited|);
    forall i | 0 <= i < |steps| ensures steps[i].Valid() { assert ShapeAt(steps, i); }
  }

  lemma {:induction false} AcceptedInner(ix: Index, level: nat, first: nat, trueRoot: bool, visited: seq<nat>, i: nat)
    requires LevelAccepted(ix, level, first, trueRoot, visited) && level > 0 && !SomeIgnored(ix, visited)
    requires i < |visited|
    ensures InnerAt(ix, visited, i)
  {
    assert PassedAt(ix, level, first, visited, i);
    if i + 1 < |visited| { assert PassedAt(ix, level, first, visited, i + 1); }
  }

  /** The level is connected to its children if and only if none of its downlinks is P_NONE. */
  ghost predicate ConnectedExactly(ix: Index, level: nat, visited: seq<nat>) {
    && HasDowns(ix, level, visited)
    && (LevelConnected(ix, level, visited) <==> P_NONE !in Downs(ix, level, visited))
  }

  /** In an accepted index the level below was walked too, so there the right link 0xffffffff does not
      occur: a level is connected to its children exactly when none of its downlinks is P_NONE. */
  lemma {:induction false} IndexConnected(ix: Index, root: nat, rootLevel: nat, firsts: seq<nat>, walks: seq<seq<nat>>,
                                          k: nat)
    requires LevelsAccepted(ix, root, rootLevel, firsts, walks) && k + 1 < |walks| && !SomeIgnored(ix, walks[k])
    ensures k < rootLevel && ConnectedExactly(ix, rootLevel - k, walks[k])
  {
    LevelBelow(ix, root, rootLevel, firsts, walks, k);
    TwoLevelsConnected(ix, rootLevel - k, firsts[k], k == 0, walks[k], firsts[k + 1], walks[k + 1]);
  }

  lemma {:induction false} LevelBelow(ix: Index, root: nat, rootLevel: nat, firsts: seq<nat>, walks: seq<seq<nat>>,
                                      k: nat)
    requires LevelsAccepted(ix, root, rootLevel, firsts, walks) && k + 1 < |walks|
    ensures k < rootLevel && LevelAccepted(ix, rootLevel - k, firsts[k], k == 0, walks[k])
    ensures SaidBy(ix, walks[k], Accepted(Some(firsts[k + 1]), rootLevel - k - 1))
    ensures LevelAccepted(ix, rootLevel - k - 1, firsts[k + 1], false, walks[k + 1])
  {
    assert LevelAt(ix, root, rootLevel, firsts, walks, k) && LevelAt(ix, root, rootLevel, firsts, walks, k + 1);
  }

  lemma {:induction false} TwoLevelsConnected(ix: Index, level: nat, first: nat, trueRoot: bool, visited: seq<nat>,
                                              next: nat, below: seq<nat>)
    requires LevelAccepted(ix, level, first, trueRoot, visited) && level > 0 && !SomeIgnored(ix, visited)
    requires SaidBy(ix, visited, Accepted(Some(next), level - 1)) && LevelAccepted(ix, level - 1, next, false, below)
    ensures ConnectedExactly(ix, level, visited)
  {
    InternalLevelConnected(ix, level, first, trueRoot, visited);
    if P_NONE !in Downs(ix, level, visited) {
      LinksGood(ix, level, first, trueRoot, visited, next, below);
    } else {
      assert !GoodLink(ix, P_NONE);
    }
  }

  lemma {:induction false} LinksGood(ix: Index, level: nat, first: nat, trueRoot: bool, visited: seq<nat>,
                                     next: nat, below: seq<nat>)
    requires LevelAccepted(ix, level, first, trueRoot, visited) && level > 0 && !SomeIgnored(ix, visited)
    requires SaidBy(ix, visited, Accepted(Some(next), level - 1)) && LevelAccepted(ix, level - 1, next, false, below)
    requires HasDowns(ix, level, visited) && P_NONE !in Downs(ix, level, visited)
    ensures GoodLinks(ix, Downs(ix, level, visited))
  {
    AcceptedShape(ix, level, first, trueRoot, visited);
    FirstIsBelow(ix, level, visited, next);
    var steps := LevelSteps(ix, level, visited, |visited|);
    var trails :| ChildRun(ix, steps, trails);
    NoLooseLink(ix, steps, trails, level - 1, next, below, |steps|);
  }

  /** The first downlink of the level is where the level below begins. */
  lemma {:induction false} FirstIsBelow(ix: Index, level: nat, visited: seq<nat>, b: nat)
    requires level > 0 && visited != [] && InIndex(ix, visited)
    requires forall i | 0 <= i < |visited| :: InnerAt(ix, visited, i)
    requires SaidBy(ix, visited, Accepted(Some(b), level - 1))
    ensures var steps := LevelSteps(ix, level, visited, |visited|);
            |steps| > 0 && steps[0].Valid() && steps[0].off.Some? && steps[0].Link() == b
  {
    var i :| 0 <= i < |visited| && SaysAt(ix, visited, i, Accepted(Some(b), level - 1));
    assert InnerAt(ix, visited, 0);
    FirstStep(ix, level, visited, |visited|);
  }

  lemma {:induction false} FirstStep(ix: Index, level: nat, visited: seq<nat>, n: nat)
    requires 0 < n <= |visited| && InIndex(ix, visited) && InnerAt(ix, visited, 0)
    ensures var steps, t := LevelSteps(ix, level, visited, n), Parent(level, ix[visited[0]], None);
            |steps| > 0 && steps[0] == Step(t, Some(FirstData(t.page)))
  {
    if n > 1 {
      FirstStep(ix, level, visited, n - 1);
    } else {
      assert LevelSteps(ix, level, visited, 0) == [];
    }
  }

  /** The walk from a block to the end of its level. */
  predicate GoesToEnd(ix: Index, level: nat, first: nat, below: seq<nat>) {
    && below != [] && Last(below) < |ix| && Rightmost(ix[Last(below)])
    && forall i | 0 <= i < |below| :: PassedAt(ix, level, first, below, i)
  }

  /** While the child checks go along the walk of the level below, no right link is 0xffffffff. */
  lemma {:induction false} NoLooseLink(ix: Index, steps: seq<Step>, trails: seq<Trail>, level: nat, first: nat,
                                       below: seq<nat>, n: nat)
    requires ChildRun(ix, steps, trails) && n <= |steps| && EndsLevel(steps)
    requires (forall i | 0 <= i < |steps| :: steps[i].Valid()) && P_NONE !in Links(steps, |steps|)
    requires GoesToEnd(ix, level, first, below)
    requires |steps| > 0 && steps[0].off.Some? && steps[0].Link() == first
    ensures GoodLinks(ix, Links(steps, n))
    ensures forall i | 0 <= i < n && i < |steps| - 1 :: DownAt(ix, steps, i)
  {
    if n > 0 {
      NoLooseLink(ix, steps, trails, level, first, below, n - 1);
      assert ShapeAt(steps, n - 1);
      if n - 1 < |steps| - 1 {
        LinkListed(steps, n - 1, |steps|);
        ChainOf(ix, steps, trails, n - 1);
        LastNotLoose(ix, trails[n].chain, level, first, below);
      }
    }
  }

  /** The chain up to the downlink of step n. */
  lemma {:induction false} ChainOf(ix: Index, steps: seq<Step>, trails: seq<Trail>, n: nat)
    requires ChildRun(ix, steps, trails) && n < |steps| && (forall i | 0 <= i < |steps| :: steps[i].Valid())
    requires (forall i | 0 <= i < n :: DownAt(ix, steps, i)) && steps[n].off.Some? && steps[n].Link() != P_NONE
    requires steps[0].off.Some?
    ensures var chain := trails[n + 1].chain;
            && chain != [] && Last(chain) == steps[n].Link() && chain[0] == steps[0].Link()
            && forall i | 0 <= i < |chain| :: LinkAt(ix, chain, i)
  {
    RunKeeps(ix, steps, trails, n);
    RunDowns(ix, steps, trails, n);
    assert RunAt(ix, steps, trails, n);
    VisitChain(ix, steps[n], trails[n]);
    var downs := trails[n + 1].downs;
    assert downs[0] == steps[0].Link() by { FirstLink(steps, n); }
    assert HitAt(trails[n + 1].chain, trails[n + 1].hits, downs, 0);
  }

  lemma {:induction false} FirstLink(steps: seq<Step>, n: nat)
    requires n < |steps| && (forall i | 0 <= i < |steps| :: steps[i].Valid()) && steps[0].off.Some?
    ensures n > 0 ==> Links(steps, n) != [] && Links(steps, n)[0] == steps[0].Link()
  {
    if n > 1 { FirstLink(steps, n - 1); } else if n == 1 { assert Links(steps, 0) == []; }
  }

  lemma {:induction false} LastNotLoose(ix: Index, chain: seq<nat>, level: nat, first: nat, below: seq<nat>)
    requires chain != [] && chain[0] == first && (forall i | 0 <= i < |chain| :: LinkAt(ix, chain, i))
    requires GoesToEnd(ix, level, first, below)
    ensures NextOf(ix, Last(chain)) != INVALID_BLOCK
  {
    var i := |chain| - 1;
    ChainInWalk(ix, chain, level, first, below, i);
    if i + 1 < |below| { assert PassedAt(ix, level, first, below, i + 1); }
  }

  /** A chain of right links is the beginning of the walk from the same block. */
  lemma {:induction false} ChainInWalk(ix: Index, chain: seq<nat>, level: nat, first: nat, below: seq<nat>, i: nat)
    requires i < |chain| && chain[0] == first && (forall k | 0 <= k < |chain| :: LinkAt(ix, chain, k))
    requires GoesToEnd(ix, level, first, below)
    ensures i < |below| && chain[i] == below[i]
  {
    if i == 0 {
      assert PassedAt(ix, level, first, below, 0);
    } else {
      ChainInWalk(ix, chain, level, first, below, i - 1);
      assert LinkAt(ix, chain, i - 1) && LinkAt(ix, chain, i);
      if i < |below| { assert PassedAt(ix, level, first, below, i); }
    }
  }

  /** An accepted leaf level of live pages with data is in strictly increasing order throughout. */
  lemma {:induction false} LeafLevelOrdered(ix: Index, first: nat, trueRoot: bool, visited: seq<nat>)
    requires LevelAccepted(ix, 0, first, trueRoot, visited)
    requires forall i | 0 <= i < |visited| :: visited[i] < |ix| && NonEmptyPage(ix[visited[i]])
    ensures Increasing(LevelKeys(ix, visited, |visited|))
  {
    forall i | 0 <= i < |visited| ensures LeafAt(ix, visited, i) && PassedAt(ix, 0, first, visited, i) {
      assert PassedAt(ix, 0, first, visited, i) && CheckedAt(ix, visited, i);
    }
    LeafLevelIncreasing(ix, 0, first, visited, |visited|);
  }

  predicate NonEmptyPage(p: Page) {
    !Ignore(p) && FirstData(p) < |p.items|
  }
}
