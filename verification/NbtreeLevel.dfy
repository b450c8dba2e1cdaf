/** The walk of amcheck over one level of a B-tree and what it means that it accepts (verify_nbtree.c). */
module NbtreeLevel {
  import opened Lex
  import opened NbtreePage

  // ---------------------------------------------------------------- the walk over right links

  /** What bt_check_level_from_leftmost has seen to when it leaves block i of its walk. */
  predicate PassedAt(ix: Index, level: nat, first: nat, visited: seq<nat>, i: nat)
    requires i < |visited|
  {
    var b := visited[i];
    && b != P_NONE && Loads(ix, b)
    && (if i == 0 then b == first else visited[i - 1] < |ix| && b == ix[visited[i - 1]].next && b != visited[i - 1])
    && b != ix[b].prev
    && (if Ignore(ix[b]) then !ix[b].deleted && !Rightmost(ix[b])
        else ix[b].level == level && (i > 0 ==> ix[b].prev == visited[i - 1]))
  }

  /** The first page that is not ignorable was found leftmost, and a root if that was expected. */
  ghost predicate FirstLeftmost(ix: Index, trueRoot: bool, visited: seq<nat>) {
    forall i | 0 <= i < |visited| && FirstLive(ix, visited, i) ::
      (exists path :: HalfDeadPath(ix, visited[i], path)) && (trueRoot ==> ix[visited[i]].root)
  }

  predicate FirstLive(ix: Index, visited: seq<nat>, i: nat)
    requires i < |visited|
  {
    && visited[i] < |ix| && !Ignore(ix[visited[i]])
    && forall j | 0 <= j < i :: visited[j] < |ix| && Ignore(ix[visited[j]])
  }

  /** A walk that raised no error so far, page checks aside. */
  ghost predicate Passed(ix: Index, level: nat, first: nat, trueRoot: bool, visited: seq<nat>) {
    && (forall i | 0 <= i < |visited| :: PassedAt(ix, level, first, visited, i))
    && FirstLeftmost(ix, trueRoot, visited)
  }

  predicate Repeats(visited: seq<nat>) {
    exists i, j | 0 <= i < j < |visited| :: visited[i] == visited[j]
  }

  /** The right links of two blocks lead to the same half-dead page. */
  predicate JoinHalfDead(ix: Index, a: nat, b: nat) {
    && a != b && a < |ix| && b < |ix| && ix[a].next == ix[b].next
    && ix[a].next < |ix| && ix[ix[a].next].halfDead
  }

  /** The right link of a block leads to the first block, and one of the two pages is half-dead. */
  predicate BackToFirst(ix: Index, first: nat, b: nat) {
    b < |ix| && ix[b].next == first && first < |ix| && (ix[first].halfDead || ix[b].halfDead)
  }

  /** The walk has followed two right links to one half-dead page, or one back to its first page. */
  predicate GoesRound(ix: Index, visited: seq<nat>) {
    || (exists i, j | 0 <= i < j < |visited| - 1 :: JoinHalfDead(ix, visited[i], visited[j]))
    || (exists j | 0 <= j < |visited| - 1 :: BackToFirst(ix, visited[0], visited[j]))
  }

  /** On every index, however its links run, these are the only ways to come to a block again. */
  lemma {:induction false} RepeatsExactly(ix: Index, level: nat, first: nat, trueRoot: bool, visited: seq<nat>)
    requires Passed(ix, level, first, trueRoot, visited)
    ensures Repeats(visited) <==> GoesRound(ix, visited)
  {
    if Repeats(visited) {
      var i, j :| 0 <= i < j < |visited| && visited[i] == visited[j];
      RepeatGoesRound(ix, level, first, trueRoot, visited, i, j);
    }
    forall i, j | 0 <= i < j < |visited| - 1 && JoinHalfDead(ix, visited[i], visited[j]) ensures Repeats(visited) {
      assert PassedAt(ix, level, first, visited, i + 1) && PassedAt(ix, level, first, visited, j + 1);
      assert visited[i + 1] == visited[j + 1];
    }
    forall j | 0 <= j < |visited| - 1 && BackToFirst(ix, visited[0], visited[j]) ensures Repeats(visited) {
      assert PassedAt(ix, level, first, visited, j + 1);
      assert visited[0] == visited[j + 1];
    }
  }

  lemma {:induction false} RepeatGoesRound(ix: Index, level: nat, first: nat, trueRoot: bool, visited: seq<nat>, i: nat,
                                           j: nat)
    requires Passed(ix, level, first, trueRoot, visited) && i < j < |visited| && visited[i] == visited[j]
    ensures GoesRound(ix, visited)
  {
    assert PassedAt(ix, level, first, visited, i) && PassedAt(ix, level, first, visited, j);
    assert PassedAt(ix, level, first, visited, j - 1);
    if i == 0 {
      BackIsHalfDead(ix, level, first, trueRoot, visited, j);
      assert BackToFirst(ix, visited[0], visited[j - 1]);
    } else if visited[i - 1] == visited[j - 1] {
      RepeatGoesRound(ix, level, first, trueRoot, visited, i - 1, j - 1);
    } else {
      TwoWaysIn(ix, level, first, visited, i, j);
    }
  }

  /** A page that is entered over two right links is half-dead: a live one has one left link. */
  lemma {:induction false} TwoWaysIn(ix: Index, level: nat, first: nat, visited: seq<nat>, i: nat, j: nat)
    requires 0 < i < j < |visited| && visited[i] == visited[j] && visited[i - 1] != visited[j - 1]
    requires PassedAt(ix, level, first, visited, i) && PassedAt(ix, level, first, visited, j)
    ensures JoinHalfDead(ix, visited[i - 1], visited[j - 1])
  {
  }

  /** A first page that is live has at most half-dead pages to its left. */
  lemma {:induction false} BackIsHalfDead(ix: Index, level: nat, first: nat, trueRoot: bool, visited: seq<nat>, j: nat)
    requires Passed(ix, level, first, trueRoot, visited) && 0 < j < |visited| && visited[0] == visited[j]
    ensures visited[0] < |ix| && visited[j - 1] < |ix| && (ix[visited[0]].halfDead || ix[visited[j - 1]].halfDead)
  {
    assert PassedAt(ix, level, first, visited, 0) && PassedAt(ix, level, first, visited, j);
    assert PassedAt(ix, level, first, visited, j - 1);
    if !Ignore(ix[visited[0]]) {
      assert FirstLive(ix, visited, 0);
      var path :| HalfDeadPath(ix, visited[0], path);
      if path != [] { assert HalfDeadStep(ix, visited[0], path, 0); }
    }
  }

  /** A leaf level of one live page, the root, and one half-dead page that point at each other. */
  function RoundIndex(): Index {
    var live := PlainPage(2, 2, 0, [Tuple([7], 0)]).(root := true);
    var dead := PlainPage(0, 1, 0, [Tuple([7], 0)]).(halfDead := true);
    [META, live, dead]
  }

  function RoundWalk(n: nat): seq<nat> {
    seq(n, i requires 0 <= i < n => if i % 2 == 0 then 1 else 2)
  }

  /** This walk from the root goes on for any number of pages, and both checks of the live page pass
      every time. */
  lemma {:induction false} WalkCanGoRound(n: nat)
    ensures Passed(RoundIndex(), 0, 1, true, RoundWalk(n))
    ensures PageInOrder(RoundIndex(), RoundIndex()[1])
  {
    var ix, visited := RoundIndex(), RoundWalk(n);
    assert HalfDeadPath(ix, 1, [2]) by { assert HalfDeadStep(ix, 1, [2], 0); }
    forall i | 0 <= i < n ensures PassedAt(ix, 0, 1, visited, i) {
    }
  }

  // ---------------------------------------------------------------- order of a leaf level

  /** The keys of the data items of the first n pages of a walk, from left to right. */
  function LevelKeys(ix: Index, visited: seq<nat>, n: nat): seq<seq<int>>
    requires n <= |visited| && forall i | 0 <= i < |visited| :: visited[i] < |ix|
  {
    if n == 0 then [] else LevelKeys(ix, visited, n - 1) + DataKeys(ix[visited[n - 1]])
  }

  function DataKeys(p: Page): (r: seq<seq<int>>)
    ensures |r| == if FirstData(p) < |p.items| then |p.items| - FirstData(p) else 0
    ensures forall i | 0 <= i < |r| :: r[i] == p.items[FirstData(p) + i].key
  {
    if FirstData(p) < |p.items| then
      seq(|p.items| - FirstData(p), i requires 0 <= i < |p.items| - FirstData(p) => p.items[FirstData(p) + i].key)
    else []
  }

  predicate Increasing(keys: seq<seq<int>>) {
    forall i, j | 0 <= i < j < |keys| :: Lt(keys[i], keys[j])
  }

  predicate NonEmptyLeaf(p: Page) {
    p.leaf && !Ignore(p) && FirstData(p) < |p.items|
  }

  lemma {:induction false} PageIncreasing(ix: Index, p: Page)
    requires NonEmptyLeaf(p) && PageInOrder(ix, p)
    ensures Increasing(DataKeys(p))
  {
    var keys := DataKeys(p);
    forall i, j | 0 <= i < j < |keys| ensures Lt(keys[i], keys[j]) {
      PageLess(ix, p, FirstData(p) + i, FirstData(p) + j);
    }
  }

  lemma {:induction false} PageLess(ix: Index, p: Page, i: nat, j: nat)
    requires p.leaf && PageInOrder(ix, p) && FirstData(p) <= i < j < |p.items|
    ensures Lt(p.items[i].key, p.items[j].key)
  {
    assert RealItem(p, j - 1) && ItemInOrder(p, j - 1);
    if i < j - 1 {
      PageLess(ix, p, i, j - 1);
      TransitiveLt(p.items[i].key, p.items[j - 1].key, p.items[j].key);
    }
  }

  lemma {:induction false} JoinIncreasing(a: seq<seq<int>>, b: seq<seq<int>>)
    requires Increasing(a) && Increasing(b) && (a != [] && b != [] ==> Lt(a[|a| - 1], b[0]))
    ensures Increasing(a + b)
  {
    forall i, j | 0 <= i < j < |a + b| ensures Lt((a + b)[i], (a + b)[j]) {
      if i < |a| <= j {
        var x, y := a[|a| - 1], b[0];
        if i < |a| - 1 { TransitiveLt(a[i], x, y); }
        if j > |a| { TransitiveLt(a[i], y, b[j - |a|]); }
      }
    }
  }

  function Last<T>(s: seq<T>): T
    requires s != []
  {
    s[|s| - 1]
  }

  lemma {:induction false} LevelKeysEnd(ix: Index, visited: seq<nat>, n: nat)
    requires 0 < n <= |visited| && (forall i | 0 <= i < |visited| :: visited[i] < |ix|)
    requires NonEmptyLeaf(ix[visited[n - 1]])
    ensures DataKeys(ix[visited[n - 1]]) != [] && LevelKeys(ix, visited, n) != []
    ensures Last(LevelKeys(ix, visited, n)) == Last(DataKeys(ix[visited[n - 1]]))
  {
  }

  /** An accepted leaf level whose pages are all live and have a data item is in strictly increasing
      order of (key, heap TID) from its first item to its last, so no entry occurs twice. */
  lemma {:induction false} LeafLevelIncreasing(ix: Index, level: nat, first: nat, visited: seq<nat>, n: nat)
    requires n <= |visited| && (forall i | 0 <= i < |visited| :: visited[i] < |ix|)
    requires forall i | 0 <= i < |visited| :: PassedAt(ix, level, first, visited, i)
    requires forall i | 0 <= i < |visited| :: LeafAt(ix, visited, i)
    ensures Increasing(LevelKeys(ix, visited, n))
  {
    if n > 0 {
      LeafLevelIncreasing(ix, level, first, visited, n - 1);
      PageAt(ix, visited, n - 1);
      if n > 1 { BoundaryAt(ix, level, first, visited, n - 1); }
      JoinIncreasing(LevelKeys(ix, visited, n - 1), DataKeys(ix[visited[n - 1]]));
    }
  }

  /** A live leaf page with a data item that passed its order checks. */
  predicate LeafAt(ix: Index, visited: seq<nat>, i: nat)
    requires i < |visited|
  {
    visited[i] < |ix| && NonEmptyLeaf(ix[visited[i]]) && PageInOrder(ix, ix[visited[i]])
  }

  lemma {:induction false} PageAt(ix: Index, visited: seq<nat>, i: nat)
    requires i < |visited| && LeafAt(ix, visited, i)
    ensures Increasing(DataKeys(ix[visited[i]]))
  {
    PageIncreasing(ix, ix[visited[i]]);
  }

  lemma {:induction false} BoundaryAt(ix: Index, level: nat, first: nat, visited: seq<nat>, i: nat)
    requires 0 < i < |visited| && (forall k | 0 <= k < |visited| :: visited[k] < |ix|)
    requires LeafAt(ix, visited, i - 1) && LeafAt(ix, visited, i) && PassedAt(ix, level, first, visited, i)
    ensures LevelKeys(ix, visited, i) != [] && DataKeys(ix[visited[i]]) != []
    ensures Lt(Last(LevelKeys(ix, visited, i)), DataKeys(ix[visited[i]])[0])
  {
    NextPageAbove(ix, level, first, visited, i - 1);
    LevelKeysEnd(ix, visited, i);
  }

  lemma {:induction false} NextPageAbove(ix: Index, level: nat, first: nat, visited: seq<nat>, i: nat)
    requires i + 1 < |visited| && PassedAt(ix, level, first, visited, i + 1) && visited[i] < |ix|
    requires NonEmptyLeaf(ix[visited[i]]) && NonEmptyLeaf(ix[visited[i + 1]]) && PageInOrder(ix, ix[visited[i]])
    ensures DataKeys(ix[visited[i]]) != [] && DataKeys(ix[visited[i + 1]]) != []
    ensures Lt(Last(DataKeys(ix[visited[i]])), DataKeys(ix[visited[i + 1]])[0])
  {
    var p, q := ix[visited[i]], ix[visited[i + 1]];
    assert RealItem(p, |p.items| - 1);
    assert LiveRight(ix, p.next, {}) == Found(visited[i + 1]);
  }
}
