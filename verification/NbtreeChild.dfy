/** The checks of an internal page against the level below (verify_nbtree.c): every child is reached
    from the one before over right links, pages passed on the way must be excused for having no
    downlink, and high keys of children match the keys of the parent. */
module NbtreeChild {
  import opened Wrappers
  import opened NbtreePage

  // ---------------------------------------------------------------- missing downlinks

  /** The leaf reached from an internal page over first downlinks, each one level down. */
  function LeafBelow(ix: Index, b: nat, level: nat, seen: set<nat>): (r: Search<nat>)
    ensures r.Found? ==> Loads(ix, r.value)
    decreases Blocks(ix) - seen
  {
    if !Loads(ix, b) then Failed
    else if ix[b].leaf then Found(b)
    else if ix[b].level != (level - 1) % LEVEL_MODULUS || FirstData(ix[b]) >= |ix[b].items| then Failed
    else if b in seen then Forever
    else
      assert b in Blocks(ix);
      LeafBelow(ix, ix[b].items[FirstData(ix[b])].link, ix[b].level, seen + {b})
  }

  /** The descent always ends: levels go down by one modulo 2^32, and an index has fewer blocks. `top` is
      the level it began at. */
  lemma {:induction false} DescentEnds(ix: Index, b: nat, level: nat, seen: set<nat>, top: nat)
    requires (forall s | s in seen :: s < |ix|) && level == (top - |seen|) % LEVEL_MODULUS
    requires forall s | s in seen :: LevelsAbove(ix, top, s) < |seen|
    ensures !LeafBelow(ix, b, level, seen).Forever?
    decreases Blocks(ix) - seen
  {
    if Loads(ix, b) && !ix[b].leaf && ix[b].level == (level - 1) % LEVEL_MODULUS && FirstData(ix[b]) < |ix[b].items| {
      BelowSize(seen, |ix|);
      DescentLevel(top, |seen|, level, ix[b].level);
      assert b in Blocks(ix);
      if b !in seen {
        assert |seen + {b}| == |seen| + 1;
        DescentEnds(ix, ix[b].items[FirstData(ix[b])].link, ix[b].level, seen + {b}, top);
      }
    }
  }

  /** How far block s lies below the first level of the descent. */
  function LevelsAbove(ix: Index, top: nat, s: nat): nat
    requires s < |ix|
  {
    (top - 1 - ix[s].level) % LEVEL_MODULUS
  }

  lemma {:induction false} DescentLevel(top: nat, n: nat, level: nat, below: nat)
    requires n < LEVEL_MODULUS && level == (top - n) % LEVEL_MODULUS && below == (level - 1) % LEVEL_MODULUS
    ensures (top - 1 - below) % LEVEL_MODULUS == n && below == (top - (n + 1)) % LEVEL_MODULUS
  {
  }

  /** Block b is the top of an interrupted deletion: the half-dead leaf below it says so. */
  predicate TopsDeletion(ix: Index, b: nat)
    requires b < |ix|
  {
    && !ix[b].leaf && FirstData(ix[b]) < |ix[b].items|
    && var r := LeafBelow(ix, ix[b].items[FirstData(ix[b])].link, ix[b].level, {});
       && r.Found? && !ix[r.value].deleted && ix[r.value].halfDead && !Rightmost(ix[r.value])
       && |ix[r.value].items| > 0 && ix[r.value].items[0].link == b
  }

  /** Reasons for which a page needs no downlink. */
  predicate Excused(ix: Index, b: nat, rightsplit: bool)
    requires b < |ix|
  {
    ix[b].root || rightsplit || TopsDeletion(ix, b)
  }

  /** bt_downlink_missing_check; it always comes to an answer. */
  method DownlinkMissingCheck(ix: Index, rightsplit: bool, blkno: nat) returns (ok: bool)
    requires blkno < |ix|
    ensures ok <==> Excused(ix, blkno, rightsplit)
  {
    var page := ix[blkno];
    if page.root || rightsplit {
      return true;
    }
    if page.leaf || FirstData(page) >= |page.items| {
      return false;
    }
    var level: nat := page.level;
    var childblk: nat := page.items[FirstData(page)].link;
    ghost var seen: set<nat> := {};
    ghost var want := LeafBelow(ix, childblk, level, {});
    DescentEnds(ix, childblk, level, {}, level);
    while Loads(ix, childblk) && !ix[childblk].leaf
      invariant want == LeafBelow(ix, childblk, level, seen) && !want.Forever?
      decreases Blocks(ix) - seen
    {
      var child := ix[childblk];
      if child.level != (level - 1) % LEVEL_MODULUS || FirstData(child) >= |child.items| {
        return false;
      }
      assert childblk in Blocks(ix) && childblk !in seen;
      seen := seen + {childblk};
      level := child.level;
      childblk := child.items[FirstData(child)].link;
    }
    if !Loads(ix, childblk) {
      return false;
    }
    var leaf := ix[childblk];
    if leaf.deleted {
      return false;
    }
    return leaf.halfDead && !Rightmost(leaf) && |leaf.items| > 0 && leaf.items[0].link == blkno;
  }

  // ---------------------------------------------------------------- one downlink

  /** What one call of bt_child_highkey_check works on. `off` is None in the call that ends a level;
      the code then looks up line pointer 0. `prevright` is None for InvalidBlockNumber. */
  datatype Call = Call(ix: Index, level: nat, page: Page, lowkey: Option<seq<int>>,
                       off: Option<nat>, prevright: Option<nat>, split: bool)
  {
    predicate Valid() {
      off.Some? ==> off.value < |page.items|
    }

    /** The downlink to arrive at. */
    function Downlink(): nat
      requires Valid()
    {
      if off.Some? then page.items[off.value].link else P_NONE
    }

    /** Where the walk over right links begins. */
    function Start(): nat
      requires Valid()
    {
      if prevright.Some? then prevright.value else Downlink()
    }

    function StartSplit(): bool {
      prevright.Some? && split
    }

    /** The parent key that a child's high key must equal; None when looking it up is an error. */
    function Pivot(isDownlink: bool): Option<seq<int>> {
      if off.None? then page.lineZero
      else
        var o := if isDownlink then off.value + 1 else off.value;
        if NegativeInfinity(page, o) then lowkey
        else if o < |page.items| then Some(page.items[o].key)
        else if Rightmost(page) || page.items == [] then None
        else Some(page.items[0].key)
    }
  }

  /** A child page that must have its high key in the parent has it there. */
  predicate HighKeyMatches(c: Call, b: nat)
    requires c.Valid() && b < |c.ix|
  {
    var p := c.ix[b];
    !p.incompleteSplit && !Rightmost(p) ==> |p.items| > 0 && c.Pivot(b == c.Downlink()) == Some(p.items[0].key)
  }

  /** The checks on one page of the child level, reached over `split`, as the first of the call or not. */
  ghost predicate ChildPageOk(c: Call, b: nat, split: bool, first: bool)
    requires c.Valid()
  {
    && Loads(c.ix, b)
    && (first && c.prevright.None? ==> exists path :: HalfDeadPath(c.ix, b, path))
    && (!c.ix[b].deleted || c.ix[b].fullXid ==> c.ix[b].level == (c.level - 1) % LEVEL_MODULUS)
    && !(!first && c.prevright == Some(b)) && b != c.ix[b].prev
    && (b != c.Downlink() && !Ignore(c.ix[b]) ==> Excused(c.ix, b, split))
    && HighKeyMatches(c, b)
  }

  /** The blocks that the call visits, in order. It goes on for ever when it comes to a block again and
      the checks pass there again. */
  ghost function ChildWalk(c: Call, b: nat, split: bool, first: bool, seen: set<nat>): Search<seq<nat>>
    requires c.Valid()
    decreases Blocks(c.ix) - seen
  {
    if b == P_NONE then if c.Downlink() == P_NONE then Found([]) else Failed
    else if !ChildPageOk(c, b, split, first) then Failed
    else if b == c.Downlink() then Found([b])
    else if b in seen then Forever
    else
      assert b in Blocks(c.ix);
      match ChildWalk(c, c.ix[b].next, c.ix[b].incompleteSplit, false, seen + {b})
      case Failed => Failed
      case Forever => Forever
      case Found(rest) => Found([b] + rest)
  }

  ghost function ChildPath(c: Call): Search<seq<nat>>
    requires c.Valid()
  {
    ChildWalk(c, c.Start(), c.StartSplit(), true, {})
  }

  /** prevrightlink as the code reads it back: InvalidBlockNumber stands for none. */
  function Memorized(b: nat): Option<nat> {
    if b == INVALID_BLOCK then None else Some(b)
  }

  /** prevrightlink and previncompletesplit after an accepted call for downlink d. */
  function AfterLink(ix: Index, d: nat): (Option<nat>, bool) {
    if d == P_NONE then (None, false) else (Memorized(NextOf(ix, d)), SplitOf(ix, d))
  }

  function AfterCall(c: Call): (Option<nat>, bool)
    requires c.Valid()
  {
    AfterLink(c.ix, c.Downlink())
  }

  function VerdictOf<T>(r: Search<T>): Verdict {
    if r.Found? then Pass else if r.Failed? then Fail else Hang
  }

  /** bt_child_highkey_check: how it ends, and the two state fields it leaves. */
  method ChildHighkeyCheck(c: Call) returns (v: Verdict, prevright: Option<nat>, previncompletesplit: bool)
    requires c.Valid()
    ensures v == VerdictOf(ChildPath(c))
    ensures v.Pass? ==> prevright == AfterCall(c).0 && previncompletesplit == AfterCall(c).1
  {
    var downlink := c.Downlink();
    var blkno, rightsplit := c.Start(), c.StartSplit();
    var first := true;
    var seen: set<nat> := {};
    prevright, previncompletesplit := None, false;
    while true
      invariant VerdictOf(ChildPath(c)) == VerdictOf(ChildWalk(c, blkno, rightsplit, first, seen))
      invariant prevright == None && !previncompletesplit
      decreases Blocks(c.ix) - seen
    {
      if blkno == P_NONE && downlink == P_NONE {
        return Pass, None, false;
      }
      if blkno == P_NONE {
        v := Fail;
        return;
      }
      var pageOk := CheckChildPage(c, blkno, rightsplit, first);
      if !pageOk {
        v := Fail;
        return;
      }
      var page := c.ix[blkno];
      if blkno == downlink {
        return Pass, Memorized(page.next), page.incompleteSplit;
      }
      if blkno in seen {
        v := Hang;
        return;
      }
      assert blkno in Blocks(c.ix);
      seen := seen + {blkno};
      rightsplit := page.incompleteSplit;
      blkno := page.next;
      first := false;
    }
  }

  /** The body of its loop up to the exit test. */
  method CheckChildPage(c: Call, blkno: nat, rightsplit: bool, first: bool) returns (ok: bool)
    requires c.Valid()
    ensures ok <==> ChildPageOk(c, blkno, rightsplit, first)
  {
    if !Loads(c.ix, blkno) {
      return false;
    }
    var special := c.ix[blkno];
    if first && c.prevright.None? {
      var leftmost := LeftmostIgnoringHalfDead(c.ix, blkno);
      if !leftmost {
        return false;
      }
    }
    if (!special.deleted || special.fullXid) && special.level != (c.level - 1) % LEVEL_MODULUS {
      return false;
    }
    if (!first && c.prevright == Some(blkno)) || blkno == special.prev {
      return false;
    }
    if blkno != c.Downlink() && !Ignore(special) {
      var excused := DownlinkMissingCheck(c.ix, rightsplit, blkno);
      if !excused {
        return false;
      }
    }
    if !special.incompleteSplit && !Rightmost(special) {
      if special.items == [] {
        return false;
      }
      var pivot := c.Pivot(blkno == c.Downlink());
      if pivot != Some(special.items[0].key) {
        return false;
      }
    }
    return true;
  }

  function NextOf(ix: Index, b: nat): nat {
    if b < |ix| then ix[b].next else P_NONE
  }

  predicate SplitOf(ix: Index, b: nat) {
    b < |ix| && ix[b].incompleteSplit
  }

  // ---------------------------------------------------------------- what an accepted call visited

  /** Block number i of a walk, and how it was reached. */
  function Reached(start: bool, ix: Index, path: seq<nat>, i: nat): bool
    requires i <= |path|
  {
    if i == 0 then start else SplitOf(ix, path[i - 1])
  }

  /** Block i of the walk exists and leads to the next one; a page that is neither the downlink nor
      ignorable is excused. */
  predicate WalkedAt(c: Call, split: bool, path: seq<nat>, i: nat)
    requires c.Valid() && i < |path|
  {
    && path[i] != P_NONE && path[i] < |c.ix|
    && (i + 1 < |path| ==> path[i + 1] == c.ix[path[i]].next && path[i] != c.Downlink())
    && (path[i] == c.Downlink() || Ignore(c.ix[path[i]]) || Excused(c.ix, path[i], Reached(split, c.ix, path, i)))
    && HighKeyMatches(c, path[i])
  }

  /** An accepted walk goes from its start over right links to the downlink, or to the end of the level
      if there is none. */
  lemma {:induction false} WalkFacts(c: Call, b: nat, split: bool, first: bool, seen: set<nat>)
    requires c.Valid() && ChildWalk(c, b, split, first, seen).Found?
    ensures var path := ChildWalk(c, b, split, first, seen).value;
            && (path == [] <==> b == P_NONE)
            && (path != [] ==> path[0] == b)
            && (forall i | 0 <= i < |path| :: WalkedAt(c, split, path, i))
            && (path != [] && first && c.prevright.None? ==> exists left :: HalfDeadPath(c.ix, b, left))
            && (if c.Downlink() != P_NONE then path != [] && path[|path| - 1] == c.Downlink()
                else path == [] || NextOf(c.ix, path[|path| - 1]) == P_NONE)
    decreases Blocks(c.ix) - seen
  {
    var path := ChildWalk(c, b, split, first, seen).value;
    if b != P_NONE && b != c.Downlink() {
      assert b in Blocks(c.ix);
      WalkFacts(c, c.ix[b].next, c.ix[b].incompleteSplit, false, seen + {b});
      var rest := ChildWalk(c, c.ix[b].next, c.ix[b].incompleteSplit, false, seen + {b}).value;
      WalkedPrepend(c, b, split, rest);
    }
  }

  lemma {:induction false} WalkedPrepend(c: Call, b: nat, split: bool, rest: seq<nat>)
    requires c.Valid() && b != P_NONE && b < |c.ix| && b != c.Downlink() && HighKeyMatches(c, b)
    requires Ignore(c.ix[b]) || Excused(c.ix, b, split)
    requires rest != [] ==> rest[0] == c.ix[b].next
    requires forall i | 0 <= i < |rest| :: WalkedAt(c, c.ix[b].incompleteSplit, rest, i)
    ensures forall i | 0 <= i < |rest| + 1 :: WalkedAt(c, split, [b] + rest, i)
  {
    var path := [b] + rest;
    forall i | 0 <= i < |path| ensures WalkedAt(c, split, path, i) {
      if i > 0 {
        assert WalkedAt(c, c.ix[b].incompleteSplit, rest, i - 1);
        assert Reached(split, c.ix, path, i) == Reached(c.ix[b].incompleteSplit, c.ix, rest, i - 1);
      }
    }
  }

  // ---------------------------------------------------------------- calls that never end

  /** Block k of a walk from the start of the call: the checks pass and the walk goes on. */
  ghost predicate GoesOnAt(c: Call, path: seq<nat>, k: nat)
    requires c.Valid() && k < |path|
  {
    && path[k] != P_NONE && path[k] != c.Downlink()
    && ChildPageOk(c, path[k], Reached(c.StartSplit(), c.ix, path, k), k == 0)
    && path[k] == if k == 0 then c.Start() else NextOf(c.ix, path[k - 1])
  }

  ghost predicate GoesOn(c: Call, path: seq<nat>)
    requires c.Valid()
  {
    forall k | 0 <= k < |path| :: GoesOnAt(c, path, k)
  }

  /** Two different blocks of a walk have the same right link, and the walk follows both. */
  predicate Joins(ix: Index, path: seq<nat>) {
    exists i, j | 0 <= i < j < |path| - 1 :: path[i] != path[j] && NextOf(ix, path[i]) == NextOf(ix, path[j])
  }

  predicate Distinct(path: seq<nat>) {
    forall i, j | 0 <= i < j < |path| :: path[i] != path[j]
  }

  /** The rest of a walk, after a path that goes on. */
  ghost function Rest(c: Call, path: seq<nat>): Search<seq<nat>>
    requires c.Valid()
  {
    ChildWalk(c, if path == [] then c.Start() else NextOf(c.ix, path[|path| - 1]),
              Reached(c.StartSplit(), c.ix, path, |path|), path == [], SetOf(path))
  }

  lemma {:induction false} RestOfNothing(c: Call)
    requires c.Valid()
    ensures Rest(c, []) == ChildPath(c)
  {
    assert SetOf([]) == {};
  }

  /** One more block: unless it was met before, what is left to do stays as it is. */
  lemma {:induction false} RestNext(c: Call, path: seq<nat>, b: nat)
    requires c.Valid() && GoesOn(c, path + [b])
    ensures b in path ==> Rest(c, path).Forever?
    ensures b !in path ==> VerdictOf(Rest(c, path)) == VerdictOf(Rest(c, path + [b]))
  {
    var longer := path + [b];
    assert GoesOnAt(c, longer, |path|);
    assert longer[|path|] == b;
    assert Reached(c.StartSplit(), c.ix, longer, |path|) == Reached(c.StartSplit(), c.ix, path, |path|);
    assert SetOf(longer) == SetOf(path) + {b};
  }

  /** A call does not come back to the block it began with: that one is the previous right link, which
      the code tests for, or the downlink. */
  lemma {:induction false} NotBackToStart(c: Call, path: seq<nat>, k: nat)
    requires c.Valid() && GoesOn(c, path) && 0 < k < |path|
    ensures path[k] != path[0]
  {
    assert GoesOnAt(c, path, 0) && GoesOnAt(c, path, k);
  }

  /** A walk that never ends, found block by block. */
  lemma {:induction false} FindRound(c: Call, path: seq<nat>) returns (round: seq<nat>)
    requires c.Valid() && GoesOn(c, path) && Distinct(path) && Rest(c, path).Forever?
    ensures GoesOn(c, round) && Joins(c.ix, round) && |round| > 0 && round[|round| - 1] in round[..|round| - 1]
    decreases Blocks(c.ix) - SetOf(path)
  {
    var b: nat := if path == [] then c.Start() else NextOf(c.ix, path[|path| - 1]);
    var longer := path + [b];
    assert Reached(c.StartSplit(), c.ix, longer, |path|) == Reached(c.StartSplit(), c.ix, path, |path|);
    forall k | 0 <= k < |longer| ensures GoesOnAt(c, longer, k) { GoesOnPrefix(c, path, b, k); }
    if b in path {
      var i :| 0 <= i < |path| && path[i] == b;
      NotBackToStart(c, longer, |path|);
      assert longer[i] == b && longer[0] == path[0] && i > 0;
      assert GoesOnAt(c, longer, i) && GoesOnAt(c, longer, |path|);
      assert longer[i - 1] != longer[|path| - 1];
      assert NextOf(c.ix, longer[i - 1]) == NextOf(c.ix, longer[|path| - 1]);
      assert longer[..|longer| - 1] == path;
      round := longer;
    } else {
      RestNext(c, path, b);
      assert b in Blocks(c.ix) && b in SetOf(longer) && b !in SetOf(path) && SetOf(path) <= SetOf(longer);
      round := FindRound(c, longer);
    }
  }

  lemma {:induction false} GoesOnPrefix(c: Call, path: seq<nat>, b: nat, k: nat)
    requires c.Valid() && GoesOn(c, path) && k <= |path| && GoesOnAt(c, path + [b], |path|)
    ensures GoesOnAt(c, path + [b], k)
  {
    if k < |path| {
      assert GoesOnAt(c, path, k);
      assert (path + [b])[k] == path[k] && (k > 0 ==> (path + [b])[k - 1] == path[k - 1]);
    }
  }

  /** The other way round: a walk that comes to a block for the second time has no end. */
  lemma {:induction false} RoundForever(c: Call, path: seq<nat>, i: nat, j: nat, k: nat)
    requires c.Valid() && GoesOn(c, path) && i < j < |path| && path[i] == path[j] && k <= j
    ensures Rest(c, path[..k]).Forever?
    decreases j - k
  {
    var more := path[..k + 1];
    assert more == path[..k] + [path[k]];
    forall m | 0 <= m < |more| ensures GoesOnAt(c, more, m) { GoesOnTake(c, path, k + 1, m); }
    RestNext(c, path[..k], path[k]);
    if k == j {
      assert path[..k][i] == path[k];
    } else if path[k] !in path[..k] {
      RoundForever(c, path, i, j, k + 1);
    }
  }

  lemma {:induction false} GoesOnTake(c: Call, path: seq<nat>, n: nat, k: nat)
    requires c.Valid() && GoesOn(c, path) && k < n <= |path|
    ensures GoesOnAt(c, path[..n], k)
  {
    assert GoesOnAt(c, path, k);
    assert path[..n][k] == path[k] && (k > 0 ==> path[..n][k - 1] == path[k - 1]);
  }

  /** A call never ends if and only if, on its way, two different blocks have the same right link and
      all checks pass over both. */
  lemma {:induction false} ForeverExactly(c: Call)
    requires c.Valid()
    ensures ChildPath(c).Forever? <==> exists path :: GoesOn(c, path) && Joins(c.ix, path)
  {
    RestOfNothing(c);
    if ChildPath(c).Forever? { var round := FindRound(c, []); }
    forall path | GoesOn(c, path) && Joins(c.ix, path) ensures ChildPath(c).Forever? {
      var i, j :| 0 <= i < j < |path| - 1 && path[i] != path[j] && NextOf(c.ix, path[i]) == NextOf(c.ix, path[j]);
      assert GoesOnAt(c, path, i + 1) && GoesOnAt(c, path, j + 1);
      assert path[i + 1] == path[j + 1];
      RoundForever(c, path, i + 1, j + 1, 0);
      assert path[..0] == [];
    }
  }

  /** The loop of a call runs over at least n pages. */
  ghost predicate RunsOver(c: Call, n: nat)
    requires c.Valid()
  {
    exists path :: GoesOn(c, path) && |path| >= n
  }

  /** Never ending is what it says: the loop runs over any number of pages. */
  lemma {:induction false} ForeverUnbounded(c: Call)
    requires c.Valid()
    ensures ChildPath(c).Forever? <==> forall n: nat :: RunsOver(c, n)
  {
    RestOfNothing(c);
    if ChildPath(c).Forever? {
      var round := FindRound(c, []);
      var last := |round| - 1;
      var i :| 0 <= i < last && round[..last][i] == round[last];
      forall n: nat ensures RunsOver(c, n) { var path := RunOn(c, round, last - i, n); }
    }
    if forall n: nat :: RunsOver(c, n) {
      assert RunsOver(c, |c.ix| + 1);
      var path :| GoesOn(c, path) && |path| >= |c.ix| + 1;
      forall k | 0 <= k < |path| ensures path[k] < |c.ix| { assert GoesOnAt(c, path, k); }
      Pigeonhole(path, |c.ix|);
      var i, j :| 0 <= i < j < |path| && path[i] == path[j];
      RoundForever(c, path, i, j, 0);
      assert path[..0] == [];
    }
  }

  /** A walk whose last block it has met p blocks before goes on as it did then. */
  lemma {:induction false} RunOn(c: Call, path: seq<nat>, p: nat, n: nat) returns (longer: seq<nat>)
    requires c.Valid() && GoesOn(c, path) && 0 < p < |path| && path[|path| - 1] == path[|path| - 1 - p]
    ensures GoesOn(c, longer) && |longer| >= n
    decreases n - |path|
  {
    if |path| >= n {
      longer := path;
    } else {
      var m := |path|;
      var more := path + [path[m - p]];
      assert GoesOnAt(c, path, m - p);
      forall k | 0 <= k < |more| ensures GoesOnAt(c, more, k) { GoesOnPrefix(c, path, path[m - p], k); }
      longer := RunOn(c, more, p, n);
    }
  }
}
