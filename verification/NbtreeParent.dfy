/** An internal level of a B-tree and the level below it (verify_nbtree.c): what it means that all
    child checks of a level pass. */
module NbtreeParent {
  import opened Lex
  import opened Wrappers
  import opened NbtreePage
  import opened NbtreeChild
  import opened NbtreeLevel

  /** Where the checks of the child level stand: the two state fields, and as history the child blocks
      visited, the positions among them that downlinks led to, and all downlinks. */
  datatype Trail = Trail(prevright: Option<nat>, split: bool, chain: seq<nat>, hits: seq<nat>, downs: seq<nat>)

  const START := Trail(None, false, [], [], [])

  /** The page that is being checked: its level, and the high key of its left neighbour. */
  datatype Parent = Parent(level: nat, page: Page, lowkey: Option<seq<int>>)

  /** One call of bt_child_highkey_check: for item off of the page, or None to end the level. */
  datatype Step = Step(t: Parent, off: Option<nat>) {
    predicate Valid() {
      off.Some? ==> off.value < |t.page.items|
    }

    function Link(): nat
      requires Valid()
    {
      if off.Some? then t.page.items[off.value].link else P_NONE
    }
  }

  function CallAt(ix: Index, s: Step, trail: Trail): Call {
    Call(ix, s.t.level, s.t.page, s.t.lowkey, s.off, trail.prevright, trail.split)
  }

  /** The trail after a call; None when the call raises an error or never ends. */
  ghost function Visit(ix: Index, s: Step, trail: Trail): Option<Trail>
    requires s.Valid()
  {
    var c := CallAt(ix, s, trail);
    match ChildPath(c)
    case Failed => None
    case Forever => None
    case Found(path) =>
      var chain := trail.chain + path;
      Some(Trail(AfterCall(c).0, AfterCall(c).1, chain,
                 if c.Downlink() == P_NONE then trail.hits else trail.hits + [|chain| - 1],
                 if s.off.Some? then trail.downs + [c.Downlink()] else trail.downs))
  }

  /** Step k of a run of child checks. */
  ghost predicate RunAt(ix: Index, steps: seq<Step>, trails: seq<Trail>, k: nat)
    requires k < |steps| && |trails| == |steps| + 1
  {
    steps[k].Valid() && Visit(ix, steps[k], trails[k]) == Some(trails[k + 1])
  }

  /** A run of child checks without error. */
  ghost predicate ChildRun(ix: Index, steps: seq<Step>, trails: seq<Trail>) {
    && |trails| == |steps| + 1 && trails[0] == START
    && forall k | 0 <= k < |steps| :: RunAt(ix, steps, trails, k)
  }

  /** The child's items are all above the key of the downlink, and the child is not deleted. */
  predicate ChildBounded(ix: Index, item: Tuple) {
    && Loads(ix, item.link) && !ix[item.link].deleted
    && forall o | 0 <= o < |ix[item.link].items| && RealItem(ix[item.link], o) ::
         Lt(item.key, ix[item.link].items[o].key)
  }

  /** The high key of a page, which is the low key for the page to its right. */
  function HighKey(p: Page): Option<seq<int>> {
    if Rightmost(p) || p.items == [] then None else Some(p.items[0].key)
  }

  /** state->lowkey when page i of the walk is checked. */
  function LowKey(ix: Index, visited: seq<nat>, i: nat): Option<seq<int>>
    requires i <= |visited| && forall k | 0 <= k < |visited| :: visited[k] < |ix|
  {
    if i == 0 then None else HighKey(ix[visited[i - 1]])
  }

  /** The calls for one page, from its item off on: one an item, and one more on the last page. */
  function PageSteps(t: Parent, off: nat): seq<Step>
    decreases |t.page.items| - off
  {
    if off < |t.page.items| then [Step(t, Some(off))] + PageSteps(t, off + 1)
    else if Rightmost(t.page) then [Step(t, None)] else []
  }

  /** The calls for the first n pages of a level. */
  function LevelSteps(ix: Index, level: nat, visited: seq<nat>, n: nat): seq<Step>
    requires n <= |visited| && forall i | 0 <= i < |visited| :: visited[i] < |ix|
  {
    if n == 0 then []
    else LevelSteps(ix, level, visited, n - 1) + StepsOf(level, ix[visited[n - 1]], LowKey(ix, visited, n - 1))
  }

  function StepsOf(level: nat, page: Page, lowkey: Option<seq<int>>): seq<Step> {
    if Ignore(page) then [] else PageSteps(Parent(level, page, lowkey), FirstData(page))
  }

  /** The downlinks among the first k steps. */
  function Links(steps: seq<Step>, k: nat): seq<nat>
    requires k <= |steps| && forall i | 0 <= i < |steps| :: steps[i].Valid()
  {
    if k == 0 then [] else Links(steps, k - 1) + if steps[k - 1].off.Some? then [steps[k - 1].Link()] else []
  }

  /** Block i of a chain exists and leads to the next one. */
  predicate LinkAt(ix: Index, chain: seq<nat>, i: nat)
    requires i < |chain|
  {
    chain[i] != P_NONE && chain[i] < |ix| && (i + 1 < |chain| ==> chain[i + 1] == ix[chain[i]].next)
  }

  /** Downlink k is the block at its position in the chain, and positions go up. */
  predicate HitAt(chain: seq<nat>, hits: seq<nat>, downs: seq<nat>, k: nat)
    requires k < |hits| == |downs|
  {
    hits[k] < |chain| && chain[hits[k]] == downs[k] && (k + 1 < |hits| ==> hits[k] < hits[k + 1])
  }

  /** Block i of the chain has a downlink, or is ignorable, or is excused: a root, the right half of an
      incomplete split, or the top of an interrupted deletion. */
  predicate AccountedAt(ix: Index, chain: seq<nat>, hits: seq<nat>, i: nat)
    requires i < |chain|
  {
    chain[i] < |ix| &&
    (i in hits || Ignore(ix[chain[i]]) || Excused(ix, chain[i], i > 0 && SplitOf(ix, chain[i - 1])))
  }

  /** Only half-dead pages are left of the block. */
  ghost predicate StartsLeft(ix: Index, b: nat) {
    exists left :: HalfDeadPath(ix, b, left)
  }

  /** The downlinks are a subsequence of a chain of right links, and every other block is accounted for. */
  ghost predicate Along(ix: Index, downs: seq<nat>, chain: seq<nat>, hits: seq<nat>) {
    && |hits| == |downs|
    && (downs == [] ==> chain == [])
    && (downs != [] ==> hits[0] == 0)
    && (chain != [] ==> StartsLeft(ix, chain[0]))
    && (forall k | 0 <= k < |hits| :: HitAt(chain, hits, downs, k))
    && (forall i | 0 <= i < |chain| :: LinkAt(ix, chain, i))
    && (forall i | 0 <= i < |chain| :: AccountedAt(ix, chain, hits, i))
  }

  /** And the chain is the whole child level: it begins leftmost with the first downlink and goes on to
      the last block. */
  ghost predicate Connected(ix: Index, downs: seq<nat>, chain: seq<nat>, hits: seq<nat>) {
    Along(ix, downs, chain, hits) && (downs != [] ==> chain != [] && NextOf(ix, Last(chain)) == P_NONE)
  }

  /** The state fields belong to the last downlink. */
  ghost predicate TrailInv(ix: Index, trail: Trail) {
    && Along(ix, trail.downs, trail.chain, trail.hits)
    && (if trail.downs == [] then trail.prevright == None && !trail.split
        else
          && trail.chain != [] && Last(trail.hits) == |trail.chain| - 1
          && NextOf(ix, Last(trail.chain)) != INVALID_BLOCK && trail.prevright == Some(NextOf(ix, Last(trail.chain)))
          && trail.split == SplitOf(ix, Last(trail.chain)))
  }

  /** A downlink that the child checks take for what it is: not P_NONE, and to a page whose right link
      is not the mark for no right link. */
  predicate GoodLink(ix: Index, d: nat) {
    d != P_NONE && NextOf(ix, d) != INVALID_BLOCK
  }

  /** A call for such a downlink extends the chain up to it. */
  lemma {:induction false} VisitKeeps(ix: Index, s: Step, trail: Trail)
    requires s.Valid() && s.off.Some? && GoodLink(ix, s.Link()) && TrailInv(ix, trail) && Visit(ix, s, trail).Some?
    ensures TrailInv(ix, Visit(ix, s, trail).value)
  {
    VisitChain(ix, s, trail);
  }

  /** Whatever the right link of the page it leads to. */
  lemma {:induction false} VisitChain(ix: Index, s: Step, trail: Trail)
    requires s.Valid() && s.off.Some? && s.Link() != P_NONE && TrailInv(ix, trail) && Visit(ix, s, trail).Some?
    ensures var next := Visit(ix, s, trail).value;
            && next.downs == trail.downs + [s.Link()] && Along(ix, next.downs, next.chain, next.hits)
            && next.chain != [] && Last(next.chain) == s.Link() && Last(next.hits) == |next.chain| - 1
  {
    var c := CallAt(ix, s, trail);
    var path := ChildPath(c).value;
    WalkFacts(c, c.Start(), c.StartSplit(), true, {});
    VisitAlong(c, trail, path);
    assert Last(trail.chain + path) == c.Downlink();
  }

  lemma {:induction false} VisitAlong(c: Call, trail: Trail, path: seq<nat>)
    requires c.Valid() && TrailInv(c.ix, trail) && c.prevright == trail.prevright && c.split == trail.split
    requires forall i | 0 <= i < |path| :: WalkedAt(c, c.StartSplit(), path, i)
    requires path != [] && path[0] == c.Start() && path[|path| - 1] == c.Downlink() != P_NONE
    requires c.prevright.None? ==> exists left :: HalfDeadPath(c.ix, path[0], left)
    ensures Along(c.ix, trail.downs + [c.Downlink()], trail.chain + path, trail.hits + [|trail.chain + path| - 1])
  {
    var chain, hits, downs := trail.chain + path, trail.hits + [|trail.chain + path| - 1], trail.downs + [c.Downlink()];
    ExtendLinks(c, trail, path);
    ExtendAccounts(c, trail, path, hits);
    ExtendHits(trail.chain, trail.hits, trail.downs, chain, hits, downs);
    KeepStart(c, trail, path);
    assert hits[0] == 0 by { if trail.downs == [] { assert WalkedAt(c, c.StartSplit(), path, 0); } }
  }

  /** The call that ends the level extends it to the last block. */
  lemma {:induction false} VisitEnds(ix: Index, s: Step, trail: Trail)
    requires s.off.None? && TrailInv(ix, trail) && Visit(ix, s, trail).Some? && trail.downs != []
    ensures Connected(ix, trail.downs, Visit(ix, s, trail).value.chain, trail.hits)
    ensures Visit(ix, s, trail).value.hits == trail.hits
  {
    var c := CallAt(ix, s, trail);
    var path := ChildPath(c).value;
    WalkFacts(c, c.Start(), c.StartSplit(), true, {});
    ExtendLinks(c, trail, path);
    ExtendAccounts(c, trail, path, trail.hits);
    KeepHits(trail.chain, path, trail.hits, trail.downs);
    KeepStart(c, trail, path);
    if path == [] { assert trail.chain + path == trail.chain; } else { assert Last(trail.chain + path) == Last(path); }
  }

  lemma {:induction false} KeepStart(c: Call, trail: Trail, path: seq<nat>)
    requires TrailInv(c.ix, trail) && c.prevright == trail.prevright && trail.chain + path != []
    requires path != [] && c.prevright.None? ==> exists left :: HalfDeadPath(c.ix, path[0], left)
    ensures StartsLeft(c.ix, (trail.chain + path)[0])
  {
    if trail.downs == [] {
      assert trail.chain + path == path;
    } else {
      assert (trail.chain + path)[0] == trail.chain[0];
    }
  }

  lemma {:induction false} ExtendLinks(c: Call, trail: Trail, path: seq<nat>)
    requires c.Valid() && TrailInv(c.ix, trail) && c.prevright == trail.prevright && c.split == trail.split
    requires forall i | 0 <= i < |path| :: WalkedAt(c, c.StartSplit(), path, i)
    requires path != [] ==> path[0] == c.Start()
    ensures forall i | 0 <= i < |trail.chain + path| :: LinkAt(c.ix, trail.chain + path, i)
  {
    var chain := trail.chain + path;
    forall i | 0 <= i < |chain| ensures LinkAt(c.ix, chain, i) {
      if i < |trail.chain| {
        assert LinkAt(c.ix, trail.chain, i);
      } else {
        assert WalkedAt(c, c.StartSplit(), path, i - |trail.chain|);
      }
    }
  }

  lemma {:induction false} ExtendAccounts(c: Call, trail: Trail, path: seq<nat>, hits: seq<nat>)
    requires c.Valid() && TrailInv(c.ix, trail) && c.prevright == trail.prevright && c.split == trail.split
    requires forall i | 0 <= i < |path| :: WalkedAt(c, c.StartSplit(), path, i)
    requires path != [] ==> path[0] == c.Start()
    requires hits == if c.Downlink() == P_NONE then trail.hits else trail.hits + [|trail.chain + path| - 1]
    requires c.Downlink() != P_NONE ==> path != [] && path[|path| - 1] == c.Downlink()
    ensures forall i | 0 <= i < |trail.chain + path| :: AccountedAt(c.ix, trail.chain + path, hits, i)
  {
    var chain := trail.chain + path;
    forall i | 0 <= i < |chain| ensures AccountedAt(c.ix, chain, hits, i) {
      if i < |trail.chain| {
        assert AccountedAt(c.ix, trail.chain, trail.hits, i);
      } else {
        AccountNew(c, trail, path, hits, i - |trail.chain|);
      }
    }
  }

  lemma {:induction false} AccountNew(c: Call, trail: Trail, path: seq<nat>, hits: seq<nat>, k: nat)
    requires c.Valid() && TrailInv(c.ix, trail) && c.prevright == trail.prevright && c.split == trail.split
    requires k < |path| && WalkedAt(c, c.StartSplit(), path, k)
    requires k + 1 == |path| && c.Downlink() != P_NONE ==> |trail.chain| + k in hits
    ensures AccountedAt(c.ix, trail.chain + path, hits, |trail.chain| + k)
  {
    var chain, i := trail.chain + path, |trail.chain| + k;
    assert chain[i] == path[k];
    if k > 0 {
      assert chain[i - 1] == path[k - 1];
    } else if i > 0 {
      assert chain[i - 1] == trail.chain[|trail.chain| - 1];
    }
    if path[k] == c.Downlink() { assert k + 1 == |path|; }
  }

  lemma {:induction false} KeepHits(chain: seq<nat>, path: seq<nat>, hits: seq<nat>, downs: seq<nat>)
    requires |hits| == |downs| && forall k | 0 <= k < |hits| :: HitAt(chain, hits, downs, k)
    ensures forall k | 0 <= k < |hits| :: HitAt(chain + path, hits, downs, k)
  {
    forall k | 0 <= k < |hits| ensures HitAt(chain + path, hits, downs, k) {
      assert HitAt(chain, hits, downs, k);
    }
  }

  lemma {:induction false} ExtendHits(chain: seq<nat>, hits: seq<nat>, downs: seq<nat>, chain': seq<nat>,
                                      hits': seq<nat>, downs': seq<nat>)
    requires |hits| == |downs| && (forall k | 0 <= k < |hits| :: HitAt(chain, hits, downs, k))
    requires chain <= chain' && |chain| < |chain'| && hits' == hits + [|chain'| - 1] && downs' == downs + [Last(chain')]
    ensures forall k | 0 <= k < |hits'| :: HitAt(chain', hits', downs', k)
  {
    forall k | 0 <= k < |hits'| ensures HitAt(chain', hits', downs', k) {
      if k < |hits| { assert HitAt(chain, hits, downs, k); }
    }
  }

  /** The first k steps of a run, when each is for a real downlink. */
  lemma {:induction false} RunKeeps(ix: Index, steps: seq<Step>, trails: seq<Trail>, k: nat)
    requires ChildRun(ix, steps, trails) && k <= |steps| && (forall i | 0 <= i < |steps| :: steps[i].Valid())
    requires forall i | 0 <= i < k :: DownAt(ix, steps, i)
    ensures TrailInv(ix, trails[k])
  {
    if k == 0 {
      StartInv(ix);
    } else {
      RunKeeps(ix, steps, trails, k - 1);
      RunStep(ix, steps, trails, k - 1);
    }
  }

  lemma {:induction false} StartInv(ix: Index)
    ensures TrailInv(ix, START)
  {
  }

  /** The downlinks on record are those of the steps taken. */
  lemma {:induction false} RunDowns(ix: Index, steps: seq<Step>, trails: seq<Trail>, k: nat)
    requires ChildRun(ix, steps, trails) && k <= |steps| && (forall i | 0 <= i < |steps| :: steps[i].Valid())
    ensures trails[k].downs == Links(steps, k)
  {
    if k > 0 {
      RunDowns(ix, steps, trails, k - 1);
      assert RunAt(ix, steps, trails, k - 1);
    }
  }

  lemma {:induction false} RunStep(ix: Index, steps: seq<Step>, trails: seq<Trail>, k: nat)
    requires k < |steps| && |trails| == |steps| + 1 && RunAt(ix, steps, trails, k) && DownAt(ix, steps, k)
    requires TrailInv(ix, trails[k])
    ensures TrailInv(ix, trails[k + 1])
  {
    VisitKeeps(ix, steps[k], trails[k]);
  }

  /** Step i is for a good downlink. */
  predicate DownAt(ix: Index, steps: seq<Step>, i: nat)
    requires i < |steps|
  {
    steps[i].Valid() && steps[i].off.Some? && GoodLink(ix, steps[i].Link())
  }

  /** A step for an item, except the last step, which ends the level. */
  predicate ShapeAt(steps: seq<Step>, i: nat)
    requires i < |steps|
  {
    steps[i].Valid() && (steps[i].off.None? <==> i == |steps| - 1)
  }

  predicate EndsLevel(steps: seq<Step>) {
    forall i | 0 <= i < |steps| :: ShapeAt(steps, i)
  }

  predicate GoodLinks(ix: Index, downs: seq<nat>) {
    forall d | d in downs :: GoodLink(ix, d)
  }

  /** The child checks of a level pass. Then its downlinks, read from left to right, are a subsequence
      of the right-link chain of the child level, which begins leftmost and ends the level, with every
      block passed over accounted for, if and only if no downlink is P_NONE and no page that a downlink
      leads to has the right link 0xffffffff. */
  lemma {:induction false} DownlinksAlongChildren(ix: Index, steps: seq<Step>, trails: seq<Trail>)
    requires ChildRun(ix, steps, trails) && |steps| > 1
    requires forall i | 0 <= i < |steps| :: steps[i].Valid()
    requires EndsLevel(steps)
    ensures (exists chain, hits :: Connected(ix, Links(steps, |steps|), chain, hits))
            <==> GoodLinks(ix, Links(steps, |steps|))
  {
    var downs := Links(steps, |steps|);
    if GoodLinks(ix, downs) { RunConnects(ix, steps, trails); }
    forall chain, hits | Connected(ix, downs, chain, hits) ensures GoodLinks(ix, downs) {
      ConnectedGood(ix, downs, chain, hits);
    }
  }

  lemma {:induction false} ConnectedGood(ix: Index, downs: seq<nat>, chain: seq<nat>, hits: seq<nat>)
    requires Connected(ix, downs, chain, hits)
    ensures GoodLinks(ix, downs)
  {
    forall k | 0 <= k < |downs| ensures GoodLink(ix, downs[k]) {
      assert HitAt(chain, hits, downs, k);
      assert LinkAt(ix, chain, hits[k]);
      if hits[k] + 1 < |chain| { assert LinkAt(ix, chain, hits[k] + 1); }
    }
  }

  lemma {:induction false} RunConnects(ix: Index, steps: seq<Step>, trails: seq<Trail>)
    requires ChildRun(ix, steps, trails) && |steps| > 1
    requires forall i | 0 <= i < |steps| :: steps[i].Valid()
    requires EndsLevel(steps)
    requires GoodLinks(ix, Links(steps, |steps|))
    ensures Connected(ix, Links(steps, |steps|), trails[|steps|].chain, trails[|steps|].hits)
  {
    var n := |steps| - 1;
    assert ShapeAt(steps, n);
    forall i | 0 <= i < n ensures DownAt(ix, steps, i) {
      assert ShapeAt(steps, i);
      LinkListed(steps, i, |steps|);
    }
    RunKeeps(ix, steps, trails, n);
    RunDowns(ix, steps, trails, n);
    assert Links(steps, |steps|) == Links(steps, n);
    assert ShapeAt(steps, 0);
    LinkListed(steps, 0, n);
    assert RunAt(ix, steps, trails, n);
    VisitEnds(ix, steps[n], trails[n]);
  }

  lemma {:induction false} LinkListed(steps: seq<Step>, i: nat, k: nat)
    requires i < k <= |steps| && (forall j | 0 <= j < |steps| :: steps[j].Valid()) && steps[i].off.Some?
    ensures steps[i].Link() in Links(steps, k)
  {
    if i < k - 1 { LinkListed(steps, i, k - 1); }
  }

  // ---------------------------------------------------------------- the steps of a level

  /** A live internal page as palloc_btree_page lets it through; only the last page is rightmost. */
  predicate InnerAt(ix: Index, visited: seq<nat>, i: nat)
    requires i < |visited|
  {
    && visited[i] < |ix| && !ix[visited[i]].leaf && !Ignore(ix[visited[i]])
    && FirstData(ix[visited[i]]) < |ix[visited[i]].items|
    && (Rightmost(ix[visited[i]]) <==> i == |visited| - 1)
  }

  predicate ItemAt(steps: seq<Step>, i: nat)
    requires i < |steps|
  {
    steps[i].Valid() && steps[i].off.Some?
  }

  predicate AllItems(steps: seq<Step>) {
    forall i | 0 <= i < |steps| :: ItemAt(steps, i)
  }

  lemma {:induction false} PageStepsShape(t: Parent, off: nat)
    ensures var steps := PageSteps(t, off);
            && (if Rightmost(t.page) then EndsLevel(steps) else AllItems(steps))
            && (off < |t.page.items| ==> |steps| > 0) && (off < |t.page.items| && Rightmost(t.page) ==> |steps| > 1)
    decreases |t.page.items| - off
  {
    if off < |t.page.items| {
      PageStepsShape(t, off + 1);
      var rest := PageSteps(t, off + 1);
      forall i | 0 <= i < |PageSteps(t, off)| && Rightmost(t.page) ensures ShapeAt(PageSteps(t, off), i) {
        if i > 0 { assert ShapeAt(rest, i - 1); }
      }
      forall i | 0 <= i < |PageSteps(t, off)| && !Rightmost(t.page) ensures ItemAt(PageSteps(t, off), i) {
        if i > 0 { assert ItemAt(rest, i - 1); }
      }
    }
  }

  /** On a level of live internal pages every step but the last is for an item. */
  lemma {:induction false} LevelStepsShape(ix: Index, level: nat, visited: seq<nat>, n: nat)
    requires n <= |visited| && (forall i | 0 <= i < |visited| :: visited[i] < |ix|)
    requires forall i | 0 <= i < |visited| :: InnerAt(ix, visited, i)
    ensures var steps := LevelSteps(ix, level, visited, n);
            if n == |visited| && n > 0 then |steps| > 1 && EndsLevel(steps) else AllItems(steps)
  {
    if n > 0 {
      LevelStepsShape(ix, level, visited, n - 1);
      assert InnerAt(ix, visited, n - 1);
      var t := Parent(level, ix[visited[n - 1]], LowKey(ix, visited, n - 1));
      PageStepsShape(t, FirstData(t.page));
      JoinShape(LevelSteps(ix, level, visited, n - 1), PageSteps(t, FirstData(t.page)), Rightmost(t.page));
    }
  }

  lemma {:induction false} JoinShape(a: seq<Step>, b: seq<Step>, last: bool)
    requires AllItems(a) && b != [] && if last then EndsLevel(b) else AllItems(b)
    ensures if last then EndsLevel(a + b) else AllItems(a + b)
  {
    forall i | 0 <= i < |a + b| && last ensures ShapeAt(a + b, i) {
      if i >= |a| { assert ShapeAt(b, i - |a|); } else { assert ItemAt(a, i); }
    }
    forall i | 0 <= i < |a + b| && !last ensures ItemAt(a + b, i) {
      if i >= |a| { assert ItemAt(b, i - |a|); } else { assert ItemAt(a, i); }
    }
  }

  /** A rightmost root page with one item. */
  function OneLinkRoot(link: Word): Page {
    PlainPage(0, 0, 1, [Tuple([], link)]).(root := true)
  }

  /** The child checks of such a root are two calls. */
  lemma {:induction false} OneLinkSteps(ix: Index, link: Word)
    requires |ix| > 1 && ix[1] == OneLinkRoot(link)
    ensures var t := Parent(1, ix[1], None);
            && LevelSteps(ix, 1, [1], 1) == [Step(t, Some(0)), Step(t, None)]
            && Links(LevelSteps(ix, 1, [1], 1), 2) == [link]
    ensures InnerAt(ix, [1], 0) && Passed(ix, 1, 1, true, [1]) && PageInOrder(ix, ix[1])
  {
    var t := Parent(1, ix[1], None);
    assert HalfDeadPath(ix, 1, []);
    assert PassedAt(ix, 1, 1, [1], 0);
    assert PageSteps(t, 0) == [Step(t, Some(0))] + PageSteps(t, 1);
    assert LevelSteps(ix, 1, [1], 0) == [];
    var steps := [Step(t, Some(0)), Step(t, None)];
    assert Links(steps, 0) == [];
    assert Links(steps, 1) == Links(steps, 0) + [link];
  }

  /** Two calls of a root that pass, seen as a run. */
  lemma {:induction false} TwoCalls(ix: Index, steps: seq<Step>, next: Trail)
    requires |steps| == 2 && steps[0].Valid() && steps[1].Valid()
    requires Visit(ix, steps[0], START) == Some(next) && Visit(ix, steps[1], next).Some?
    ensures exists trails :: ChildRun(ix, steps, trails)
  {
    var trails := [START, next, Visit(ix, steps[1], next).value];
    assert RunAt(ix, steps, trails, 0) && RunAt(ix, steps, trails, 1);
    assert ChildRun(ix, steps, trails);
  }

  /** A root page whose only downlink is P_NONE passes the child checks: they take it for the end of the
      level. */
  lemma {:induction false} ZeroDownlinkPasses(ix: Index, steps: seq<Step>)
    requires ix == [META, OneLinkRoot(P_NONE)] && steps == LevelSteps(ix, 1, [1], 1)
    ensures InnerAt(ix, [1], 0) && Passed(ix, 1, 1, true, [1]) && PageInOrder(ix, ix[1])
    ensures exists trails :: ChildRun(ix, steps, trails)
    ensures |steps| == 2 && (forall i | 0 <= i < 2 :: steps[i].Valid()) && Links(steps, 2) == [P_NONE]
  {
    OneLinkSteps(ix, P_NONE);
    assert ChildPath(CallAt(ix, steps[0], START)) == Found([]);
    var next := START.(downs := [P_NONE]);
    assert ChildPath(CallAt(ix, steps[1], next)) == Found([]);
    var none: seq<nat> := [];
    assert none + none == none && none + [P_NONE] == [P_NONE];
    TwoCalls(ix, steps, next);
  }

  /** A root page over a leaf whose right link is 0xffffffff and whose split is incomplete. */
  function LooseIndex(): Index {
    [META, OneLinkRoot(2), PlainPage(0, 0xffff_ffff, 0, [Tuple([7], 0)]).(incompleteSplit := true)]
  }

  /** It passes the child checks too: the right link is taken for none, and the call that ends the level
      finds nothing to do. Yet the children do not end the level. */
  lemma {:induction false} LooseRightLinkPasses(ix: Index, steps: seq<Step>)
    requires ix == LooseIndex() && steps == LevelSteps(ix, 1, [1], 1)
    ensures InnerAt(ix, [1], 0) && Passed(ix, 1, 1, true, [1]) && PageInOrder(ix, ix[1])
    ensures exists trails :: ChildRun(ix, steps, trails)
    ensures |steps| == 2 && (forall i | 0 <= i < 2 :: steps[i].Valid()) && Links(steps, 2) == [2]
    ensures forall chain, hits :: !Connected(ix, Links(steps, 2), chain, hits)
  {
    OneLinkSteps(ix, 2);
    LooseCalls(ix, Parent(1, ix[1], None));
    TwoCalls(ix, steps, Trail(None, true, [2], [0], [2]));
    assert !GoodLink(ix, 2) && [2][0] == 2;
    forall chain, hits | Connected(ix, Links(steps, 2), chain, hits) ensures false {
      ConnectedGood(ix, Links(steps, 2), chain, hits);
    }
  }

  lemma {:induction false} LooseCalls(ix: Index, t: Parent)
    requires ix == LooseIndex() && t == Parent(1, ix[1], None)
    ensures Visit(ix, Step(t, Some(0)), START) == Some(Trail(None, true, [2], [0], [2]))
    ensures Visit(ix, Step(t, None), Trail(None, true, [2], [0], [2])).Some?
  {
    var c := CallAt(ix, Step(t, Some(0)), START);
    assert HalfDeadPath(ix, 2, []);
    assert ChildPageOk(c, 2, false, true);
    assert ChildPath(c) == Found([2]);
    var none: seq<nat> := [];
    assert none + [2] == [2] && none + [0] == [0];
    assert ChildPath(CallAt(ix, Step(t, None), Trail(None, true, [2], [0], [2]))) == Found([]);
  }

  /** A root over leaves 2 and 6, where 2 leads to 3, 4, 5 and back to 4, all with an incomplete split. */
  function CircleIndex(): Index {
    var root := PlainPage(0, 0, 1, [Tuple([], 2), Tuple([9], 6)]).(root := true);
    [META, root, SplitLeaf(0, 3), SplitLeaf(2, 4), SplitLeaf(3, 5), SplitLeaf(4, 4), PlainPage(5, 0, 0, [])]
  }

  function SplitLeaf(prev: Word, next: Word): Page {
    PlainPage(prev, next, 0, [Tuple([7], 0)]).(incompleteSplit := true)
  }

  /** No page is ignorable, the first call passes, and the call for the second downlink never ends. */
  lemma {:induction false} ChildCallCanGoRound(ix: Index, t: Parent)
    requires ix == CircleIndex() && t == Parent(1, ix[1], None)
    ensures forall b | 0 <= b < |ix| :: !Ignore(ix[b])
    ensures LevelSteps(ix, 1, [1], 1) == [Step(t, Some(0)), Step(t, Some(1)), Step(t, None)]
    ensures Visit(ix, Step(t, Some(0)), START).Some?
    ensures ChildPath(CallAt(ix, Step(t, Some(1)), Visit(ix, Step(t, Some(0)), START).value)).Forever?
  {
    assert LevelSteps(ix, 1, [1], 0) == [];
    assert PageSteps(t, 0) == [Step(t, Some(0))] + PageSteps(t, 1);
    assert PageSteps(t, 1) == [Step(t, Some(1))] + PageSteps(t, 2);
    var c := CallAt(ix, Step(t, Some(0)), START);
    assert HalfDeadPath(ix, 2, []);
    assert ChildPageOk(c, 2, false, true);
    assert ChildPath(c) == Found([2]);
    CircleCall(ix, t, Visit(ix, Step(t, Some(0)), START).value);
  }

  lemma {:induction false} CircleCall(ix: Index, t: Parent, trail: Trail)
    requires ix == CircleIndex() && t == Parent(1, ix[1], None) && trail.prevright == Some(3) && trail.split
    ensures ChildPath(CallAt(ix, Step(t, Some(1)), trail)).Forever?
  {
    var c := CallAt(ix, Step(t, Some(1)), trail);
    var path := [3, 4, 5, 4];
    forall k | 0 <= k < |path| ensures GoesOnAt(c, path, k) {
      assert ChildPageOk(c, path[k], true, k == 0);
    }
    assert path[0] != path[2] && NextOf(ix, path[0]) == NextOf(ix, path[2]);
    assert Joins(ix, path);
    ForeverExactly(c);
  }

  // ---------------------------------------------------------------- keys of children

  /** An accepted call has matched the high key of the child it arrived at. */
  lemma {:induction false} VisitMatches(ix: Index, s: Step, trail: Trail)
    requires s.Valid() && s.off.Some? && s.Link() != P_NONE && Visit(ix, s, trail).Some?
    ensures s.Link() < |ix| && HighKeyMatches(CallAt(ix, s, trail), s.Link())
  {
    var c := CallAt(ix, s, trail);
    WalkFacts(c, c.Start(), c.StartSplit(), true, {});
    var path := ChildPath(c).value;
    assert WalkedAt(c, c.StartSplit(), path, |path| - 1);
  }

  /** The key of the parent that bounds the child of item off from above, if there is one. */
  function UpperKey(p: Page, off: nat): Option<seq<int>> {
    if off + 1 < |p.items| then Some(p.items[off + 1].key)
    else if Rightmost(p) || p.items == [] then None
    else Some(p.items[0].key)
  }

  lemma {:induction false} ChildHighKey(c: Call, child: Page)
    requires c.Valid() && c.off.Some? && c.off.value >= FirstData(c.page) && c.Downlink() < |c.ix|
    requires HighKeyMatches(c, c.Downlink()) && child == c.ix[c.Downlink()]
    requires !child.incompleteSplit && !Rightmost(child)
    ensures |child.items| > 0 && UpperKey(c.page, c.off.value) == Some(child.items[0].key)
  {
  }

  /** When a parent page and a child page are both accepted, every real key of the child lies above the
      key of its downlink and not above the next key of the parent, which for the last downlink is the
      parent's high key. */
  lemma {:induction false} ChildBetweenSeparators(ix: Index, s: Step, trail: Trail, child: Page, o: nat)
    requires s.Valid() && s.off.Some? && s.Link() != P_NONE && Visit(ix, s, trail).Some?
    requires !s.t.page.leaf && s.off.value > FirstData(s.t.page) && ChildBounded(ix, s.t.page.items[s.off.value])
    requires child == ix[s.Link()] && PageInOrder(ix, child) && !child.incompleteSplit && !Rightmost(child)
    requires o < |child.items| && RealItem(child, o)
    ensures Lt(s.t.page.items[s.off.value].key, child.items[o].key)
    ensures var upper := UpperKey(s.t.page, s.off.value);
            upper.Some? && Le(child.items[o].key, upper.value)
  {
    VisitMatches(ix, s, trail);
    ChildHighKey(CallAt(ix, s, trail), child);
    BelowHighKey(ix, child, o);
    AboveDownlink(ix, s.t.page.items[s.off.value], o);
  }

  lemma {:induction false} BelowHighKey(ix: Index, p: Page, o: nat)
    requires o < |p.items| && !Rightmost(p) && RealItem(p, o) && PageInOrder(ix, p)
    ensures Le(p.items[o].key, p.items[0].key)
  {
    assert ItemInOrder(p, o);
    LtMeans(p.items[o].key, p.items[0].key);
  }

  lemma {:induction false} AboveDownlink(ix: Index, item: Tuple, o: nat)
    requires ChildBounded(ix, item) && o < |ix[item.link].items| && RealItem(ix[item.link], o)
    ensures Lt(item.key, ix[item.link].items[o].key)
  {
  }
}
