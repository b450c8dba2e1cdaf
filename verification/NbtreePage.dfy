/** amcheck's B-tree verifier (verify_nbtree.c), readonly mode, heapkeyspace indexes, plain tuples:
    pages as they are read from a possibly corrupt index, and the checks of one page against itself
    and its right sibling. */
module NbtreePage {
  import opened Lex
  import opened Wrappers

  const P_NONE: nat := 0
  const INVALID_BLOCK: nat := 0xffff_ffff
  const MAX_INDEX_TUPLES_PER_PAGE: nat := 408
  const LEVEL_MODULUS: int := 0x1_0000_0000

  /** A uint32, as block numbers and levels are. */
  type Word = w: nat | w < 0x1_0000_0000

  /** An index tuple: its untruncated key attributes, then its heap TID if it has one, and the block
      that a pivot tuple points to. A truncated attribute counts as minus infinity. */
  datatype Tuple = Tuple(key: seq<int>, link: Word)

  /** A page; items[0] is the high key unless the page is rightmost. Line pointers count from 1, and
      lineZero is the key found at line pointer 0 by code that looks there, None if that is an error. */
  datatype Page = Page(
    prev: Word, next: Word, level: Word,
    leaf: bool, root: bool, meta: bool, deleted: bool, halfDead: bool,
    incompleteSplit: bool, garbage: bool, fullXid: bool,
    items: seq<Tuple>, lineZero: Option<seq<int>>)

  /** Whatever is found in the blocks of the index; block 0xffffffff does not exist. */
  type Index = s: seq<Page> | |s| <= 0xffff_ffff

  /** How a check or a search ends: an error is one way, running for ever another. */
  datatype Verdict = Pass | Fail | Hang

  datatype Search<T> = Found(value: T) | Failed | Forever

  /** A page as it is made when nothing special is said about it. */
  function PlainPage(prev: Word, next: Word, level: Word, items: seq<Tuple>): Page {
    Page(prev, next, level, level == 0, false, false, false, false, false, false, false, items, None)
  }

  const META := Page(0, 0, 0, false, false, true, false, false, false, false, false, [], None)

  predicate Ignore(p: Page) {
    p.deleted || p.halfDead
  }

  predicate Rightmost(p: Page) {
    p.next == P_NONE
  }

  /** P_FIRSTDATAKEY, counted from 0. */
  function FirstData(p: Page): nat {
    if Rightmost(p) then 0 else 1
  }

  /** offset_is_negative_infinity. */
  predicate NegativeInfinity(p: Page, off: int) {
    !p.leaf && off == FirstData(p)
  }

  /** The keys that take part in the order of the level. */
  predicate RealItem(p: Page, off: int) {
    FirstData(p) <= off < |p.items| && !NegativeInfinity(p, off)
  }

  /** palloc_btree_page raises no error. */
  predicate Loads(ix: Index, b: nat) {
    && b < |ix|
    && if b == 0 then ix[b].meta else SanePage(ix[b])
  }

  predicate SanePage(p: Page) {
    && !p.meta
    && (!p.deleted || p.fullXid ==> (p.leaf <==> p.level == 0))
    && |p.items| <= MAX_INDEX_TUPLES_PER_PAGE
    && (!p.leaf && !p.deleted ==> FirstData(p) < |p.items|)
    && (p.leaf && !p.deleted && !Rightmost(p) ==> |p.items| > 0)
    && (!p.leaf ==> !p.halfDead && !p.garbage)
    && (p.fullXid ==> p.deleted)
    && !(p.deleted && p.halfDead)
  }

  function Blocks(ix: Index): set<nat> {
    Below(|ix|)
  }

  function Below(n: nat): (r: set<nat>)
    ensures forall b :: b in r <==> 0 <= b < n
  {
    if n == 0 then {} else Below(n - 1) + {n - 1}
  }

  lemma {:induction false} BelowSize(s: set<nat>, n: nat)
    requires forall b | b in s :: b < n
    ensures |s| <= n
  {
    if n == 0 {
      assert s == {};
    } else {
      BelowSize(s - {n - 1}, n - 1);
    }
  }

  function SetOf(path: seq<nat>): set<nat> {
    set b | b in path
  }

  /** More blocks than the index has cannot all be different. */
  lemma {:induction false} Pigeonhole(path: seq<nat>, n: nat)
    requires (forall b | b in path :: b < n) && |path| > n
    ensures exists i, j | 0 <= i < j < |path| :: path[i] == path[j]
  {
    if forall i, j | 0 <= i < j < |path| :: path[i] != path[j] {
      DistinctSize(path, |path|);
      assert path[..|path|] == path;
      BelowSize(SetOf(path), n);
    }
  }

  lemma {:induction false} DistinctSize(path: seq<nat>, k: nat)
    requires k <= |path| && forall i, j | 0 <= i < j < |path| :: path[i] != path[j]
    ensures |SetOf(path[..k])| == k
  {
    if k > 0 {
      DistinctSize(path, k - 1);
      assert SetOf(path[..k]) == SetOf(path[..k - 1]) + {path[k - 1]};
    }
  }

  // ---------------------------------------------------------------- comparisons

  /** _bt_compare of the scan key made of a tuple and another tuple: 0 also when the scan key runs out
      of attributes first. */
  function BtCompare(scankey: seq<int>, key: seq<int>): int {
    if PrefixOf(scankey, key) then 0 else if Le(scankey, key) then -1 else 1
  }

  /** invariant_l_offset, with its extra step for scan keys that ran out of attributes. */
  predicate InvariantL(scankey: seq<int>, upper: seq<int>) {
    var cmp := BtCompare(scankey, upper);
    if cmp == 0 then |scankey| < |upper| else cmp < 0
  }

  predicate InvariantLeq(scankey: seq<int>, upper: seq<int>) {
    BtCompare(scankey, upper) <= 0
  }

  predicate InvariantG(scankey: seq<int>, lower: seq<int>) {
    BtCompare(scankey, lower) > 0
  }

  /** The three tests are the order on keys with minus infinity for what is truncated. */
  lemma {:induction false} InvariantsMean(a: seq<int>, b: seq<int>)
    ensures InvariantL(a, b) <==> Lt(a, b)
    ensures InvariantLeq(a, b) <==> Le(a, b)
    ensures InvariantG(a, b) <==> Lt(b, a)
  {
    if PrefixOf(a, b) {
      PrefixLe(a, b);
      if |a| == |b| { assert a == b; }
    }
    Total(a, b);
  }

  // ---------------------------------------------------------------- the right sibling's first item

  /** The first page from b rightwards that is not ignorable, or is the last. The search fails on a page
      that does not load, and goes on for ever when ignorable pages form a circle. */
  function LiveRight(ix: Index, b: nat, seen: set<nat>): (r: Search<nat>)
    ensures r.Found? ==> Loads(ix, r.value)
    decreases Blocks(ix) - seen
  {
    if !Loads(ix, b) then Failed
    else if !Ignore(ix[b]) || Rightmost(ix[b]) then Found(b)
    else if b in seen then Forever
    else
      assert b in Blocks(ix);
      LiveRight(ix, ix[b].next, seen + {b})
  }

  /** The first real item of a page: the second data item of an internal page. */
  function FirstReal(p: Page): nat {
    if p.leaf then FirstData(p) else FirstData(p) + 1
  }

  /** What bt_right_page_check_scankey finds: the key of an item, or that there is none. */
  function RightKeyOf(ix: Index, p: Page): Search<Option<seq<int>>> {
    if Rightmost(p) then Found(None)
    else
      match LiveRight(ix, p.next, {})
      case Failed => Failed
      case Forever => Forever
      case Found(b) =>
        if FirstReal(ix[b]) < |ix[b].items| then Found(Some(ix[b].items[FirstReal(ix[b])].key)) else Found(None)
  }

  /** bt_right_page_check_scankey. */
  method RightPageCheckScankey(ix: Index, p: Page) returns (r: Search<Option<seq<int>>>)
    ensures r == RightKeyOf(ix, p)
  {
    if Rightmost(p) {
      return Found(None);
    }
    var targetnext := p.next;
    var seen: set<nat> := {};
    while targetnext !in seen && Loads(ix, targetnext) && Ignore(ix[targetnext]) && !Rightmost(ix[targetnext])
      invariant LiveRight(ix, p.next, {}) == LiveRight(ix, targetnext, seen)
      decreases Blocks(ix) - seen
    {
      assert targetnext in Blocks(ix);
      seen := seen + {targetnext};
      targetnext := ix[targetnext].next;
    }
    if !Loads(ix, targetnext) {
      return Failed;
    }
    var right := ix[targetnext];
    if Ignore(right) && !Rightmost(right) {
      return Forever;
    }
    if right.leaf && |right.items| > FirstData(right) {
      return Found(Some(right.items[FirstData(right)].key));
    } else if !right.leaf && |right.items| > FirstData(right) + 1 {
      return Found(Some(right.items[FirstData(right) + 1].key));
    }
    return Found(None);
  }

  // ---------------------------------------------------------------- order within a page

  /** Item off is below the high key and below the item after it, if any. */
  predicate ItemInOrder(p: Page, off: nat)
    requires off < |p.items|
  {
    var key := p.items[off].key;
    && (!Rightmost(p) ==> if p.leaf then Le(key, p.items[0].key) else Lt(key, p.items[0].key))
    && (off + 1 < |p.items| ==> Lt(key, p.items[off + 1].key))
  }

  /** The order checks of bt_target_page_check: each real item, and the last one against the right
      sibling. */
  predicate PageInOrder(ix: Index, p: Page) {
    && (forall off | 0 <= off < |p.items| && RealItem(p, off) :: ItemInOrder(p, off))
    && (RealItem(p, |p.items| - 1) ==> LastInOrder(ix, p, p.items[|p.items| - 1].key))
  }

  predicate LastInOrder(ix: Index, p: Page, key: seq<int>) {
    LastVerdict(ix, p, key).Pass?
  }

  /** The last item of a page against the first of the page to the right. */
  function LastVerdict(ix: Index, p: Page, key: seq<int>): Verdict {
    match RightKeyOf(ix, p)
    case Failed => Fail
    case Forever => Hang
    case Found(right) => if right.None? || Lt(key, right.value) then Pass else Fail
  }

  /** The three order checks on one item. */
  function ItemVerdict(ix: Index, p: Page, off: nat): Verdict
    requires off < |p.items|
  {
    if !ItemInOrder(p, off) then Fail
    else if off == |p.items| - 1 then LastVerdict(ix, p, p.items[off].key)
    else Pass
  }

  /** The three order checks on one item, as bt_target_page_check makes them. */
  method CheckItem(ix: Index, p: Page, off: nat) returns (v: Verdict)
    requires RealItem(p, off)
    ensures v == ItemVerdict(ix, p, off)
  {
    var key := p.items[off].key;
    if !Rightmost(p) {
      InvariantsMean(key, p.items[0].key);
      if p.leaf && !InvariantLeq(key, p.items[0].key) {
        return Fail;
      }
      if !p.leaf && !InvariantL(key, p.items[0].key) {
        return Fail;
      }
    }
    if off + 1 < |p.items| {
      InvariantsMean(key, p.items[off + 1].key);
      if !InvariantL(key, p.items[off + 1].key) {
        return Fail;
      }
    }
    if off == |p.items| - 1 {
      var rightkey := RightPageCheckScankey(ix, p);
      if rightkey.Failed? {
        return Fail;
      }
      if rightkey.Forever? {
        return Hang;
      }
      if rightkey.value.Some? {
        InvariantsMean(rightkey.value.value, key);
        if !InvariantG(rightkey.value.value, key) {
          return Fail;
        }
      }
    }
    return Pass;
  }

  // ---------------------------------------------------------------- leftmost, but for half-dead pages

  /** Block `at` is the half-dead left sibling of block `from`, and the two agree about it. */
  predicate StepLeft(ix: Index, from: nat, at: nat) {
    && from < |ix| && at == ix[from].prev && at != P_NONE && at != from
    && Loads(ix, at) && ix[at].halfDead && ix[at].next == from
  }

  /** Block number i - 1 of a path that leaves from start. */
  function From(start: nat, path: seq<nat>, i: nat): nat
    requires i <= |path|
  {
    if i == 0 then start else path[i - 1]
  }

  predicate HalfDeadStep(ix: Index, start: nat, path: seq<nat>, i: nat)
    requires i < |path|
  {
    path[i] != start && StepLeft(ix, From(start, path, i), path[i])
  }

  predicate HalfDeadSteps(ix: Index, start: nat, path: seq<nat>) {
    forall i | 0 <= i < |path| :: HalfDeadStep(ix, start, path, i)
  }

  /** The blocks left of start, going left: half-dead pages whose links agree, up to the end. */
  predicate HalfDeadPath(ix: Index, start: nat, path: seq<nat>) {
    && HalfDeadSteps(ix, start, path)
    && From(start, path, |path|) < |ix| && ix[From(start, path, |path|)].prev == P_NONE
  }

  /** No block occurs twice on such a path, whatever the links are. */
  lemma {:induction false} HalfDeadDistinct(ix: Index, start: nat, path: seq<nat>, i: nat, j: nat)
    requires HalfDeadSteps(ix, start, path) && i < j < |path|
    ensures path[i] != path[j]
  {
    assert HalfDeadStep(ix, start, path, i) && HalfDeadStep(ix, start, path, j);
    if i > 0 {
      HalfDeadDistinct(ix, start, path, i - 1, j - 1);
    } else {
      assert HalfDeadStep(ix, start, path, j - 1);
    }
  }

  /** Where the blocks of one path end, the other goes on the same way. */
  lemma {:induction false} HalfDeadNext(ix: Index, start: nat, path: seq<nat>, other: seq<nat>)
    requires start < |ix| && HalfDeadSteps(ix, start, path) && HalfDeadPath(ix, start, other) && path <= other
    requires From(start, path, |path|) < |ix| && ix[From(start, path, |path|)].prev != P_NONE
    ensures |path| < |other|
    ensures other[|path|] == ix[From(start, path, |path|)].prev && other[|path|] != start
    ensures StepLeft(ix, From(start, path, |path|), other[|path|])
  {
    assert From(start, other, |path|) == From(start, path, |path|);
    if |path| < |other| { assert HalfDeadStep(ix, start, other, |path|); }
  }

  lemma {:induction false} HalfDeadLonger(ix: Index, start: nat, path: seq<nat>, at: nat)
    requires HalfDeadSteps(ix, start, path) && at != start && StepLeft(ix, From(start, path, |path|), at)
    ensures HalfDeadSteps(ix, start, path + [at])
  {
    forall i | 0 <= i < |path + [at]| ensures HalfDeadStep(ix, start, path + [at], i) {
      if i < |path| { assert HalfDeadStep(ix, start, path, i); }
    }
  }

  /** bt_leftmost_ignoring_half_dead, with an error while reading counted as false: both of its callers
      raise an error then. It ends on every index. */
  method LeftmostIgnoringHalfDead(ix: Index, start: nat) returns (allHalfDead: bool)
    requires start < |ix|
    ensures allHalfDead <==> exists path :: HalfDeadPath(ix, start, path)
  {
    var reached, reachedFrom := ix[start].prev, start;
    ghost var path: seq<nat> := [];
    ghost var seen: set<nat> := {};
    allHalfDead := true;
    while reached != P_NONE
      invariant HalfDeadSteps(ix, start, path)
      invariant reachedFrom == From(start, path, |path|) < |ix| && reached == ix[reachedFrom].prev
      invariant seen == set b | b in path
      invariant forall other :: HalfDeadPath(ix, start, other) ==> path <= other
      decreases Blocks(ix) - seen
    {
      if !Loads(ix, reached) || !(ix[reached].halfDead && reached != start && reached != reachedFrom
                                  && ix[reached].next == reachedFrom) {
        forall other | HalfDeadPath(ix, start, other) ensures false { HalfDeadNext(ix, start, path, other); }
        return false;
      }
      ghost var longer := path + [reached];
      HalfDeadLonger(ix, start, path, reached);
      forall i | 0 <= i < |path| ensures path[i] != reached {
        HalfDeadDistinct(ix, start, longer, i, |path|);
        assert longer[i] == path[i] && longer[|path|] == reached;
      }
      forall other | HalfDeadPath(ix, start, other) ensures longer <= other {
        HalfDeadNext(ix, start, path, other);
      }
      path, seen := longer, seen + {reached};
      reachedFrom := reached;
      reached := ix[reached].prev;
    }
    assert HalfDeadPath(ix, start, path);
  }
}
