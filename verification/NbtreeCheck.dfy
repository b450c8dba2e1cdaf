/** amcheck's verification of a whole B-tree as the code runs it (verify_nbtree.c): a state object, the
    check of one page, of one level, and of every level from the root down. */
module NbtreeCheck {
  import opened Lex
  import opened Wrappers
  import opened NbtreePage
  import opened NbtreeChild
  import opened NbtreeLevel
  import opened NbtreeParent
  import opened NbtreeWalk

  /** The right links that prevrightlink may hold. */
  function Rights(ix: Index): set<Option<nat>> {
    {None} + set b | b in Blocks(ix) :: Memorized(NextOf(ix, b))
  }

  /** Where the loop over a level can stand: the block it comes from and the state of the child checks. */
  function Stands(ix: Index): set<(nat, State)> {
    (set b, right | b in Below(|ix| + 1) && right in Rights(ix) :: (b, (right, false)))
    + (set b, right | b in Below(|ix| + 1) && right in Rights(ix) :: (b, (right, true)))
  }

  class Checker {
    const ix: Index
    var prevrightlink: Option<nat>
    var previncompletesplit: bool
    var lowkey: Option<seq<int>>
    ghost var steps: seq<Step>

    /** The two fields are those of the child checks made on this level so far. */
    ghost predicate Valid()
      reads this
    {
      && RunState(ix, steps, |steps|, NO_STATE) == Some((prevrightlink, previncompletesplit))
      && prevrightlink in Rights(ix)
    }

    constructor (ix: Index)
      ensures Valid() && this.ix == ix && steps == [] && lowkey == None
    {
      this.ix := ix;
      prevrightlink, previncompletesplit, lowkey := None, false, None;
      steps := [];
    }

    /** bt_child_highkey_check on the state. */
    method HighkeyCheck(t: Parent, off: Option<nat>) returns (v: Verdict)
      requires Valid() && (off.Some? ==> off.value < |t.page.items|)
      modifies this`prevrightlink, this`previncompletesplit, this`steps
      ensures Valid()
      ensures CallEnds(ix, old(steps), Step(t, off), v)
      ensures steps == if v.Pass? then old(steps) + [Step(t, off)] else old(steps)
    {
      ghost var s := Step(t, off);
      var c := Call(ix, t.level, t.page, t.lowkey, off, prevrightlink, previncompletesplit);
      assert c == CallIn(ix, s, (prevrightlink, previncompletesplit));
      var prevright, split;
      v, prevright, split := ChildHighkeyCheck(c);
      if v.Pass? {
        RunStateJoin(ix, steps, [s], 1, NO_STATE);
        OneStep(ix, s, (prevrightlink, previncompletesplit));
        AfterInRights(c);
        steps := steps + [s];
        prevrightlink, previncompletesplit := prevright, split;
      }
    }

    /** bt_child_check. */
    method ChildCheck(t: Parent, off: nat) returns (v: Verdict)
      requires Valid() && off < |t.page.items|
      modifies this`prevrightlink, this`previncompletesplit, this`steps
      ensures Valid()
      ensures v.Pass? ==> ChildBounded(ix, t.page.items[off]) && steps == old(steps) + [Step(t, Some(off))]
      ensures v.Fail? ==> !ChildBounded(ix, t.page.items[off]) || CallEnds(ix, old(steps), Step(t, Some(off)), Fail)
      ensures v.Hang? ==> CallEnds(ix, old(steps), Step(t, Some(off)), Hang)
    {
      var item := t.page.items[off];
      if !Loads(ix, item.link) {
        return Fail;
      }
      v := HighkeyCheck(t, Some(off));
      if !v.Pass? {
        return;
      }
      if ix[item.link].deleted {
        return Fail;
      }
      var bounded := LowerBoundCheck(ix, item);
      v := if bounded then Pass else Fail;
    }

    /** What bt_target_page_check does for one data item. */
    method CheckOffset(t: Parent, offset: nat) returns (v: Verdict)
      requires Valid() && FirstData(t.page) <= offset < |t.page.items|
      modifies this`prevrightlink, this`previncompletesplit, this`steps
      ensures Valid()
      ensures v.Pass? ==> RealItem(t.page, offset) ==> ItemPassed(ix, t.page, offset)
      ensures v.Pass? ==> steps == old(steps) + if t.page.leaf then [] else [Step(t, Some(offset))]
      ensures v.Fail? ==> ItemFails(ix, t.page, offset) || OffsetEnds(ix, old(steps), t, offset, Fail)
      ensures v.Hang? ==> ItemHangs(ix, t.page, offset) || OffsetEnds(ix, old(steps), t, offset, Hang)
    {
      if NegativeInfinity(t.page, offset) {
        v := HighkeyCheck(t, Some(offset));
        return;
      }
      v := CheckItem(ix, t.page, offset);
      if v.Pass? && !t.page.leaf {
        v := ChildCheck(t, offset);
      }
    }

    /** The item loop of bt_target_page_check; `done` are the child calls made. */
    method CheckItems(t: Parent) returns (v: Verdict, ghost done: seq<Step>)
      requires Valid()
      modifies this`prevrightlink, this`previncompletesplit, this`steps
      ensures Valid()
      ensures v.Pass? ==> PageChecked(ix, t.page) && steps == old(steps) + done
      ensures v.Pass? && t.page.leaf ==> done == []
      ensures v.Pass? && !t.page.leaf ==> PageSteps(t, FirstData(t.page)) == done + ClosingStep(t)
      ensures v.Fail? ==> PageFails(ix, old(steps), t)
      ensures v.Hang? ==> PageHangs(ix, old(steps), t)
    {
      var page := t.page;
      var offset := FirstData(page);
      done := [];
      assert PageSteps(t, FirstData(page)) == [] + PageSteps(t, offset);
      assert old(steps) + [] == old(steps);
      while offset < |page.items|
        invariant FirstData(page) <= offset && Valid()
        invariant steps == old(steps) + done
        invariant page.leaf ==> done == []
        invariant !page.leaf ==> PageSteps(t, FirstData(page)) == done + PageSteps(t, offset)
        invariant forall k | 0 <= k < |page.items| && k < offset && RealItem(page, k) :: ItemPassed(ix, page, k)
      {
        v := CheckOffset(t, offset);
        if !v.Pass? {
          if !page.leaf { StepIsListed(ix, old(steps), t, done, offset, v); }
          return;
        }
        if !page.leaf {
          done := OneMore(t, done, offset);
          assert steps == old(steps) + done;
        }
        offset := offset + 1;
      }
      PassedIsChecked(ix, page);
      v := Pass;
    }

    /** The page that is being checked. */
    function Target(page: Page): Parent
      reads this
    {
      Parent(page.level, page, lowkey)
    }

    /** bt_target_page_check: it passes only if the page is in order, its children are bounded and every
        child call succeeds; otherwise some check raises an error, or runs for ever. */
    method TargetPageCheck(blkno: nat) returns (v: Verdict)
      requires Valid() && blkno < |ix|
      modifies this`prevrightlink, this`previncompletesplit, this`steps
      ensures Valid()
      ensures v.Pass? ==> PageChecked(ix, ix[blkno]) && steps == old(steps) + OwnSteps(Target(ix[blkno]))
      ensures v.Fail? ==> PageFails(ix, old(steps), Target(ix[blkno]))
      ensures v.Hang? ==> PageHangs(ix, old(steps), Target(ix[blkno]))
    {
      var page := ix[blkno];
      var t := Target(page);
      ghost var done;
      v, done := CheckItems(t);
      if v.Pass? && !page.leaf && Rightmost(page) {
        v := HighkeyCheck(t, None);
        LastIsListed(ix, old(steps), t, done, v);
        assert old(steps) + (done + [Step(t, None)]) == old(steps) + done + [Step(t, None)];
      }
    }

    /** The steps and the low key belong to the pages visited on the level. */
    ghost predicate OnLevel(level: nat, visited: seq<nat>)
      requires InIndex(ix, visited)
      reads this
    {
      && Valid() && lowkey == LowKey(ix, visited, |visited|)
      && steps == StepsSoFar(ix, level, visited)
    }

    /** One page in the loop of bt_check_level_from_leftmost, up to following its right link. */
    method VisitPage(level: nat, first: nat, trueRoot: bool, firstLive: bool, leftcurrent: nat, current: nat,
                     ghost visited: seq<nat>)
      returns (v: Verdict)
      requires SoFar(ix, level, first, trueRoot, visited) && OnLevel(level, visited)
      requires current == NextBlock(ix, first, visited) != P_NONE
      requires firstLive <==> AllIgnored(ix, visited)
      requires leftcurrent == if visited == [] then P_NONE else Last(visited)
      modifies this
      ensures v.Pass? ==> LinksFit(ix, level, trueRoot, visited, current)
      ensures v.Pass? ==> SoFar(ix, level, first, trueRoot, visited + [current]) && OnLevel(level, visited + [current])
      ensures v.Fail? ==> LevelRaises(ix, level, first, trueRoot, visited)
      ensures v.Hang? ==> LevelHangs(ix, level, first, trueRoot, visited)
    {
      NotNone(ix, level, first, visited);
      if !Loads(ix, current) {
        return Fail;
      }
      var page := ix[current];
      if Ignore(page) {
        if page.deleted || Rightmost(page) {
          return Fail;
        }
      } else {
        v := CheckLivePage(level, trueRoot, firstLive, leftcurrent, current, visited);
        if !v.Pass? {
          return;
        }
      }
      if current == leftcurrent || current == page.prev {
        return Fail;
      }
      lowkey := if Rightmost(page) then None else Some(page.items[0].key);
      FitsExtends(ix, level, first, trueRoot, visited, current);
      StepsNext(ix, level, visited, current);
      LowKeyAgree(ix, visited, current);
      v := Pass;
    }

    /** The part of it for a page that is not ignorable. */
    method CheckLivePage(level: nat, trueRoot: bool, firstLive: bool, leftcurrent: nat, current: nat,
                         ghost visited: seq<nat>)
      returns (v: Verdict)
      requires Loads(ix, current) && current != P_NONE && !Ignore(ix[current])
      requires InIndex(ix, visited) && OnLevel(level, visited) && (firstLive <==> AllIgnored(ix, visited))
      requires leftcurrent == (if visited == [] then P_NONE else Last(visited))
      requires visited != [] ==> leftcurrent != P_NONE
      modifies this`prevrightlink, this`previncompletesplit, this`steps
      ensures v.Pass? ==> Valid() && PageChecked(ix, ix[current])
      ensures v.Pass? ==> ix[current].level == level && (visited != [] ==> ix[current].prev == leftcurrent)
      ensures v.Pass? && firstLive ==> StartsLeft(ix, current) && (trueRoot ==> ix[current].root)
      ensures v.Pass? ==> steps == old(steps) + StepsFor(ix, level, visited, current)
      ensures v.Fail? ==> !LinksFit(ix, level, trueRoot, visited, current)
                          || PageFails(ix, old(steps), ParentAt(ix, level, visited, current))
      ensures v.Hang? ==> PageHangs(ix, old(steps), ParentAt(ix, level, visited, current))
    {
      var page := ix[current];
      if firstLive {
        var leftmost := LeftmostIgnoringHalfDead(ix, current);
        if !leftmost || (trueRoot && !page.root) {
          return Fail;
        }
      }
      if page.prev != leftcurrent && leftcurrent != P_NONE {
        return Fail;
      }
      if level != page.level {
        return Fail;
      }
      v := TargetPageCheck(current);
    }

    /** bt_check_level_from_leftmost. */
    method CheckLevel(level: nat, leftmost: nat, trueRoot: bool) returns (r: Outcome, ghost visited: seq<nat>)
      requires leftmost != P_NONE
      modifies this
      ensures EndsAs(ix, level, leftmost, trueRoot, visited, r)
    {
      prevrightlink, previncompletesplit, lowkey := None, false, None;
      steps := [];
      var leftcurrent, current := P_NONE, leftmost;
      r := Accepted(None, -1);
      visited := [];
      var seen: set<(nat, State)> := {};
      assert LevelSteps(ix, level, visited, 0) == [];
      while current != P_NONE
        invariant SoFar(ix, level, leftmost, trueRoot, visited) && OnLevel(level, visited)
        invariant current == NextBlock(ix, leftmost, visited)
        invariant leftcurrent == if visited == [] then P_NONE else Last(visited)
        invariant r.Accepted? && NextKnown(ix, visited, r)
        invariant forall stand | stand in seen :: Stood(ix, level, visited, stand)
        decreases Stands(ix) - seen
      {
        var stand := (leftcurrent, (prevrightlink, previncompletesplit));
        if stand in seen {
          StoodBefore(ix, level, leftmost, trueRoot, visited, stand);
          return Endless, visited;
        }
        InStands(ix, visited, leftcurrent, prevrightlink, previncompletesplit);
        LiveNotIgnored(ix, visited, r);
        var v := VisitPage(level, leftmost, trueRoot, r.leftmost.None?, leftcurrent, current, visited);
        if !v.Pass? {
          r := if v.Fail? then Raised else Endless;
          return;
        }
        var page := ix[current];
        NextKnownStep(ix, visited, current, r);
        if r.leftmost.None? && !Ignore(page) {
          r := NextDown(page);
        }
        StoodStill(ix, level, visited, current, seen, stand);
        visited, seen := visited + [current], seen + {stand};
        leftcurrent := current;
        current := page.next;
      }
      WalkedAccepted(ix, level, leftmost, trueRoot, visited);
      AcceptedLive(ix, level, leftmost, trueRoot, visited);
    }

    /** One round of the loop of bt_check_every_level. */
    method CheckNextLevel(root: nat, rootLevel: nat, ghost firsts: seq<nat>, ghost walks: seq<seq<nat>>, level: nat,
                          leftmost: nat)
      returns (r: Outcome, ghost visited: seq<nat>, ghost firsts': seq<nat>, ghost walks': seq<seq<nat>>)
      requires LevelsAccepted(ix, root, rootLevel, firsts, walks) && level == rootLevel - |walks|
      requires leftmost != P_NONE && NextLevel(ix, root, rootLevel, walks, leftmost)
      modifies this
      ensures r.Accepted? ==> r.leftmost.Some? && LevelsAccepted(ix, root, rootLevel, firsts', walks')
      ensures r.Accepted? ==> |walks'| == |walks| + 1 && GoesDown(ix, root, rootLevel, walks', r.leftmost.value)
      ensures !r.Accepted? ==> LevelEnds(ix, root, rootLevel, walks, visited, r)
    {
      var trueRoot := level == rootLevel;
      assert trueRoot == (walks == []);
      r, visited := CheckLevel(level, leftmost, trueRoot);
      firsts', walks' := LevelDone(ix, root, rootLevel, firsts, walks, level, leftmost, trueRoot, visited, r);
    }

    /** The loop of bt_check_every_level over the levels, from the true root that the metapage names. It
        passes only if every level is accepted, each starting where the one above points, down to a level
        that points nowhere; otherwise the check of the next level raises an error or never ends. */
    method CheckEveryLevel(root: nat, rootLevel: nat)
      returns (v: Verdict, ghost firsts: seq<nat>, ghost walks: seq<seq<nat>>, ghost visited: seq<nat>)
      modifies this
      ensures LevelsAccepted(ix, root, rootLevel, firsts, walks) && |walks| <= rootLevel + 1
      ensures v.Pass? ==> LevelsEnd(ix, root, walks)
      ensures v.Fail? ==> LevelEnds(ix, root, rootLevel, walks, visited, Raised)
      ensures v.Hang? ==> LevelEnds(ix, root, rootLevel, walks, visited, Endless)
    {
      firsts, walks, visited := [], [], [];
      var leftmost := root;
      var level: int := rootLevel;
      while leftmost != P_NONE
        invariant LevelsAccepted(ix, root, rootLevel, firsts, walks) && level == rootLevel - |walks| >= -1
        invariant GoesDown(ix, root, rootLevel, walks, leftmost)
        decreases level
      {
        var r;
        ghost var firsts', walks';
        r, visited, firsts', walks' := CheckNextLevel(root, rootLevel, firsts, walks, level, leftmost);
        if !r.Accepted? {
          v := if r.Raised? then Fail else Hang;
          return;
        }
        firsts, walks := firsts', walks';
        leftmost := r.leftmost.value;
        level := level - 1;
      }
      v := Pass;
    }
  }

  // ---------------------------------------------------------------- steps of a page

  /** The call for item `offset` ends with v. */
  ghost predicate OffsetEnds(ix: Index, done: seq<Step>, t: Parent, offset: nat, v: Verdict) {
    !t.page.leaf && CallEnds(ix, done, Step(t, Some(offset)), v)
  }

  /** The child calls of a page. */
  function OwnSteps(t: Parent): seq<Step> {
    if t.page.leaf then [] else PageSteps(t, FirstData(t.page))
  }

  /** The call that ends a level. */
  function ClosingStep(t: Parent): seq<Step> {
    if Rightmost(t.page) then [Step(t, None)] else []
  }

  lemma {:induction false} OneMore(t: Parent, done: seq<Step>, offset: nat) returns (more: seq<Step>)
    requires offset < |t.page.items| && PageSteps(t, FirstData(t.page)) == done + PageSteps(t, offset)
    ensures more == done + [Step(t, Some(offset))]
    ensures PageSteps(t, FirstData(t.page)) == more + PageSteps(t, offset + 1)
  {
    more := done + [Step(t, Some(offset))];
    assert done + PageSteps(t, offset) == more + PageSteps(t, offset + 1);
  }

  lemma {:induction false} StepIsListed(ix: Index, before: seq<Step>, t: Parent, done: seq<Step>, offset: nat,
                                        v: Verdict)
    requires !t.page.leaf && offset < |t.page.items|
    requires PageSteps(t, FirstData(t.page)) == done + PageSteps(t, offset)
    ensures OffsetEnds(ix, before + done, t, offset, v) ==> SomeCallEnds(ix, before, t, v)
  {
    var steps := PageSteps(t, FirstData(t.page));
    assert steps[..|done|] == done && steps[|done|] == Step(t, Some(offset));
  }

  lemma {:induction false} LastIsListed(ix: Index, before: seq<Step>, t: Parent, done: seq<Step>, v: Verdict)
    requires !t.page.leaf && PageSteps(t, FirstData(t.page)) == done + [Step(t, None)]
    ensures CallEnds(ix, before + done, Step(t, None), v) ==> SomeCallEnds(ix, before, t, v)
  {
    var steps := PageSteps(t, FirstData(t.page));
    assert steps[..|done|] == done && steps[|done|] == Step(t, None);
  }

  lemma {:induction false} OneStep(ix: Index, s: Step, state: State)
    ensures RunState(ix, [s], 1, state) == StepState(ix, s, state)
  {
    assert RunState(ix, [s], 0, state) == Some(state);
  }

  lemma {:induction false} AfterInRights(c: Call)
    requires c.Valid() && ChildPath(c).Found?
    ensures AfterCall(c).0 in Rights(c.ix)
  {
    WalkFacts(c, c.Start(), c.StartSplit(), true, {});
    var path := ChildPath(c).value;
    if c.Downlink() != P_NONE {
      assert WalkedAt(c, c.StartSplit(), path, |path| - 1);
      assert c.Downlink() in Blocks(c.ix);
    }
  }

  /** The item loop of bt_child_check. */
  method LowerBoundCheck(ix: Index, item: Tuple) returns (ok: bool)
    requires Loads(ix, item.link) && !ix[item.link].deleted
    ensures ok <==> ChildBounded(ix, item)
  {
    var child := ix[item.link];
    var offset := FirstData(child);
    while offset < |child.items|
      invariant forall o | 0 <= o < |child.items| && o < offset && RealItem(child, o) ::
                  Lt(item.key, child.items[o].key)
    {
      if !NegativeInfinity(child, offset) {
        InvariantsMean(item.key, child.items[offset].key);
        if !InvariantL(item.key, child.items[offset].key) {
          return false;
        }
      }
      offset := offset + 1;
    }
    return true;
  }

  // ---------------------------------------------------------------- where the loop over a level stands

  lemma {:induction false} NotNone(ix: Index, level: nat, first: nat, visited: seq<nat>)
    requires forall i | 0 <= i < |visited| :: PassedAt(ix, level, first, visited, i)
    ensures visited != [] ==> Last(visited) != P_NONE && Last(visited) < |ix|
  {
    if visited != [] { assert PassedAt(ix, level, first, visited, |visited| - 1); }
  }

  /** The loop stood there after k pages. */
  ghost predicate StoodAt(ix: Index, level: nat, visited: seq<nat>, stand: (nat, State), k: nat)
    requires InIndex(ix, visited) && k < |visited|
  {
    && InIndex(ix, visited[..k]) && WalkState(ix, level, visited[..k]) == Some(stand.1)
    && stand.0 == if k == 0 then P_NONE else visited[k - 1]
  }

  ghost predicate Stood(ix: Index, level: nat, visited: seq<nat>, stand: (nat, State))
    requires InIndex(ix, visited)
  {
    exists k | 0 <= k < |visited| :: StoodAt(ix, level, visited, stand, k)
  }

  lemma {:induction false} InStands(ix: Index, visited: seq<nat>, b: nat, right: Option<nat>, split: bool)
    requires InIndex(ix, visited) && right in Rights(ix) && b == if visited == [] then P_NONE else Last(visited)
    ensures (b, (right, split)) in Stands(ix)
  {
    assert b in Below(|ix| + 1);
  }

  /** What was recorded stays on record, and the present place joins it. */
  lemma {:induction false} StoodStill(ix: Index, level: nat, visited: seq<nat>, b: nat, seen: set<(nat, State)>,
                                      now: (nat, State))
    requires InIndex(ix, visited) && b < |ix| && InIndex(ix, visited + [b])
    requires forall stand | stand in seen :: Stood(ix, level, visited, stand)
    requires WalkState(ix, level, visited) == Some(now.1) && now.0 == if visited == [] then P_NONE else Last(visited)
    ensures forall stand | stand in seen + {now} :: Stood(ix, level, visited + [b], stand)
  {
    var longer := visited + [b];
    forall stand | stand in seen + {now} ensures Stood(ix, level, longer, stand) {
      if stand in seen {
        var k :| 0 <= k < |visited| && StoodAt(ix, level, visited, stand, k);
        assert longer[..k] == visited[..k];
        assert StoodAt(ix, level, longer, stand, k);
      } else {
        assert longer[..|visited|] == visited;
        assert StoodAt(ix, level, longer, stand, |visited|);
      }
    }
  }

  /** A loop that stands where it stood before never ends. */
  lemma {:induction false} StoodBefore(ix: Index, level: nat, first: nat, trueRoot: bool, visited: seq<nat>,
                                       stand: (nat, State))
    requires SoFar(ix, level, first, trueRoot, visited) && Stood(ix, level, visited, stand)
    requires WalkState(ix, level, visited) == Some(stand.1)
    requires stand.0 == if visited == [] then P_NONE else Last(visited)
    ensures NeverEnds(ix, level, first, trueRoot)
  {
    var k :| 0 <= k < |visited| && StoodAt(ix, level, visited, stand, k);
    NotNone(ix, level, first, visited);
    StoodSame(ix, level, visited, stand, k);
    forall n: nat ensures LevelRunsOver(ix, level, first, trueRoot, n) {
      SameForEver(ix, level, first, trueRoot, visited, visited[..k], n);
    }
  }

  lemma {:induction false} StoodSame(ix: Index, level: nat, visited: seq<nat>, stand: (nat, State), k: nat)
    requires InIndex(ix, visited) && k < |visited| && StoodAt(ix, level, visited, stand, k)
    requires WalkState(ix, level, visited) == Some(stand.1) && stand.0 == Last(visited) != P_NONE
    ensures SameAsBefore(ix, level, visited, visited[..k])
  {
    StoodEnd(visited, k);
  }

  lemma {:induction false} StoodEnd(visited: seq<nat>, k: nat)
    requires 0 < k < |visited| && Last(visited) == visited[k - 1]
    ensures SameEnd(visited, visited[..k])
  {
  }

  // ---------------------------------------------------------------- every level

  /** What it means that the check of a level ends in r: it was accepted, the walk came to a page whose
      checks raise an error or run for ever, or the walk itself never ends. */
  ghost predicate EndsAs(ix: Index, level: nat, first: nat, trueRoot: bool, visited: seq<nat>, r: Outcome) {
    match r
    case Accepted(leftmost, _) =>
      leftmost.Some? && LevelAccepted(ix, level, first, trueRoot, visited) && NextKnown(ix, visited, r)
    case Raised => LevelRaises(ix, level, first, trueRoot, visited)
    case Endless => LevelHangs(ix, level, first, trueRoot, visited) || NeverEnds(ix, level, first, trueRoot)
  }

  /** The levels go down to one that names no level below, or there are none. */
  ghost predicate LevelsEnd(ix: Index, root: nat, walks: seq<seq<nat>>) {
    if walks == [] then root == P_NONE
    else exists r: Outcome :: r.Accepted? && r.leftmost == Some(P_NONE) && SaidBy(ix, Last(walks), r)
  }

  /** The next level begins at block b, or there is none. */
  ghost predicate GoesDown(ix: Index, root: nat, rootLevel: nat, walks: seq<seq<nat>>, b: nat) {
    if b == P_NONE then LevelsEnd(ix, root, walks) else |walks| <= rootLevel && NextLevel(ix, root, rootLevel, walks, b)
  }

  /** The check of the level that comes next raises an error, or never ends. */
  ghost predicate LevelEnds(ix: Index, root: nat, rootLevel: nat, walks: seq<seq<nat>>, visited: seq<nat>, r: Outcome) {
    && |walks| <= rootLevel
    && exists b ::
         NextLevel(ix, root, rootLevel, walks, b) && EndsAs(ix, rootLevel - |walks|, b, walks == [], visited, r)
  }

  /** What the outcome of a level means for the levels checked so far. */
  lemma {:induction false} LevelDone(ix: Index, root: nat, rootLevel: nat, firsts: seq<nat>, walks: seq<seq<nat>>,
                                     level: nat, first: nat, trueRoot: bool, visited: seq<nat>, r: Outcome)
    returns (firsts': seq<nat>, walks': seq<seq<nat>>)
    requires LevelsAccepted(ix, root, rootLevel, firsts, walks) && level == rootLevel - |walks|
    requires NextLevel(ix, root, rootLevel, walks, first) && trueRoot == (walks == [])
    requires EndsAs(ix, level, first, trueRoot, visited, r)
    ensures r.Accepted? ==> r.leftmost.Some? && LevelsAccepted(ix, root, rootLevel, firsts', walks')
    ensures r.Accepted? ==> |walks'| == |walks| + 1 && GoesDown(ix, root, rootLevel, walks', r.leftmost.value)
    ensures !r.Accepted? ==> LevelEnds(ix, root, rootLevel, walks, visited, r)
  {
    firsts', walks' := firsts + [first], walks + [visited];
    if r.Accepted? {
      LevelsExtend(ix, root, rootLevel, firsts, walks, first, visited);
      NextLevelStep(ix, root, rootLevel, walks, first, visited, r);
    }
  }
}
