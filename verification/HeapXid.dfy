/** The transaction id arithmetic of the heap verifier (verify_heapam.c): widening 32-bit ids to 64 bits
    and checking them against the valid range. */
module HeapXid {

  const TWO_31: int := 0x8000_0000
  const TWO_32: int := 0x1_0000_0000
  const TWO_64: int := 0x1_0000_0000_0000_0000

  const INVALID_XID: nat := 0
  const BOOTSTRAP_XID: nat := 1
  const FROZEN_XID: nat := 2
  const FIRST_NORMAL_XID: nat := 3

  type Xid = x: nat | x < TWO_32
  type FullXid = x: nat | x < TWO_64

  predicate Normal(x: Xid) {
    x >= FIRST_NORMAL_XID
  }

  function Low(f: FullXid): Xid {
    f % TWO_32
  }

  /** The cast of a uint32 difference to int32. */
  function Int32(n: int): (r: int)
    ensures -TWO_31 <= r < TWO_31 && (r - n) % TWO_32 == 0
  {
    (n + TWO_31) % TWO_32 - TWO_31
  }

  /** FullTransactionIdFromXidAndCtx. */
  function Widen(xid: Xid, next: FullXid): FullXid
    requires Normal(Low(next))
  {
    if !Normal(xid) then xid
    else
      var diff := Int32(Low(next) - xid);
      if Clamps(xid, next) then FIRST_NORMAL_XID else (next - diff) % TWO_64
  }

  /** The id would lie before the first one. */
  predicate Clamps(xid: Xid, next: FullXid) {
    var diff := Int32(Low(next) - xid);
    diff > 0 && next - FIRST_NORMAL_XID < diff
  }

  /** The id would lie beyond 64 bits. */
  predicate Overflows(xid: Xid, next: FullXid) {
    next - Int32(Low(next) - xid) >= TWO_64
  }

  /** The ids that 32 bits can tell apart around next: half of them behind it, half ahead. */
  predicate InWindow(f: int, next: FullXid) {
    next - TWO_31 < f <= next + TWO_31
  }

  /** Of an id in the window, the low half is enough. */
  lemma {:induction false} WidenRecovers(f: FullXid, next: FullXid)
    requires Normal(Low(next)) && Normal(Low(f)) && InWindow(f, next)
    ensures Widen(Low(f), next) == f && !Clamps(Low(f), next) && !Overflows(Low(f), next)
  {
    var diff := Int32(Low(next) - Low(f));
    assert (Low(next) - Low(f) - (next - f)) % TWO_32 == 0;
    UniqueResidue(diff, next - f);
    assert f >= FIRST_NORMAL_XID;
  }

  lemma {:induction false} UniqueResidue(a: int, b: int)
    requires -TWO_31 <= a < TWO_31 && -TWO_31 <= b < TWO_31 && (a - b) % TWO_32 == 0
    ensures a == b
  {
  }

  /** Conversely every normal 32-bit id is widened to the one id of the window that has it as its low
      half, unless there is none: it would lie before the first id, then it is clamped, and only in
      epoch 0, or beyond 64 bits. */
  lemma {:induction false} WidenMeans(xid: Xid, next: FullXid)
    requires Normal(Low(next)) && Normal(xid)
    ensures Clamps(xid, next) ==> Widen(xid, next) == FIRST_NORMAL_XID && next < TWO_32
    ensures !Clamps(xid, next) && !Overflows(xid, next) ==>
              Low(Widen(xid, next)) == xid && InWindow(Widen(xid, next), next)
    ensures Clamps(xid, next) || Overflows(xid, next) <==> !exists f: FullXid :: Low(f) == xid && InWindow(f, next)
  {
    var diff := Int32(Low(next) - xid);
    if Clamps(xid, next) {
      assert next < TWO_32;
    }
    if Clamps(xid, next) || Overflows(xid, next) {
      forall f: FullXid | Low(f) == xid && InWindow(f, next) ensures false {
        WidenRecovers(f, next);
      }
    } else {
      var f := next - diff;
      assert 0 <= f < TWO_64 by { if diff > 0 { assert next - FIRST_NORMAL_XID >= diff; } }
      SameLow(next, diff, xid);
      assert Widen(xid, next) == f;
    }
  }

  lemma {:induction false} SameLow(next: FullXid, diff: int, xid: Xid)
    requires diff == Int32(Low(next) - xid) && next - diff >= 0
    ensures (next - diff) % TWO_32 == xid
  {
    var k := (diff - (Low(next) - xid)) / TWO_32;
    assert diff == Low(next) - xid + k * TWO_32;
    assert next - diff == xid + (next / TWO_32 - k) * TWO_32;
  }

  // ---------------------------------------------------------------- the range check

  datatype Bounds = XidInvalid | XidInFuture | XidPrecedesClustermin | XidPrecedesRelmin | XidBoundsOk

  /** The answer for a true id against true bounds. */
  function TrueAnswer(f: int, next: int, oldest: int, relfrozen: int): Bounds {
    if next <= f then XidInFuture
    else if f < oldest then XidPrecedesClustermin
    else if f < relfrozen then XidPrecedesRelmin
    else XidBoundsOk
  }

  /** The part of HeapCheckContext that caches the valid range. */
  class Context {
    var nextFxid: FullXid
    var oldestFxid: FullXid
    const relfrozenFxid: FullXid

    ghost predicate Valid()
      reads this
    {
      Normal(Low(nextFxid))
    }

    /** update_cached_xid_range, with the shared variables as arguments: the next id has 64 bits, of the
        oldest id only the low half is there. The cached oldest id is the true one if that lies in the
        window. */
    method UpdateCachedXidRange(sharedNext: FullXid, sharedOldest: Xid, ghost oldest: FullXid)
      requires Normal(Low(sharedNext)) && Low(oldest) == sharedOldest
      modifies this
      ensures Valid() && nextFxid == sharedNext && oldestFxid == Widen(sharedOldest, sharedNext)
      ensures Normal(sharedOldest) && InWindow(oldest, sharedNext) ==> oldestFxid == oldest
    {
      nextFxid := sharedNext;
      oldestFxid := Widen(sharedOldest, nextFxid);
      if Normal(sharedOldest) && InWindow(oldest, sharedNext) { WidenRecovers(oldest, sharedNext); }
    }

    /** The cached range contains the id that xid stands for in its window. */
    predicate Cached(xid: Xid)
      requires Valid()
      reads this
    {
      oldestFxid <= Widen(xid, nextFxid) < nextFxid
    }

    /** The range part of get_xid_status, for the true id f and the true oldest id. The cache is refreshed
        exactly when the id is not in the cached range, and then holds the true oldest id if that lies in
        the window. The answer is that of the true id against the cached range, if f lies in the window
        of the next id that is cached in the end. */
    method GetXidStatus(xid: Xid, sharedNext: FullXid, sharedOldest: Xid, ghost f: FullXid, ghost oldest: FullXid)
      returns (r: Bounds)
      requires Valid() && Normal(Low(sharedNext)) && Low(f) == xid && Low(oldest) == sharedOldest
      modifies this
      ensures Valid()
      ensures xid == INVALID_XID ==> r == XidInvalid
      ensures xid == BOOTSTRAP_XID || xid == FROZEN_XID ==> r == XidBoundsOk
      ensures !Normal(xid) || old(Cached(xid)) ==> nextFxid == old(nextFxid) && oldestFxid == old(oldestFxid)
      ensures Normal(xid) && !old(Cached(xid)) ==>
                nextFxid == sharedNext && oldestFxid == Widen(sharedOldest, sharedNext)
      ensures Normal(xid) && !old(Cached(xid)) && Normal(sharedOldest) && InWindow(oldest, sharedNext) ==>
                oldestFxid == oldest
      ensures Normal(xid) && InWindow(f, old(nextFxid)) ==> (old(Cached(xid)) <==> old(oldestFxid <= f < nextFxid))
      ensures Normal(xid) ==> r == TrueAnswer(Widen(xid, nextFxid), nextFxid, oldestFxid, relfrozenFxid)
      ensures Normal(xid) && InWindow(f, nextFxid) ==> r == TrueAnswer(f, nextFxid, oldestFxid, relfrozenFxid)
    {
      if xid == INVALID_XID {
        return XidInvalid;
      }
      if xid == BOOTSTRAP_XID || xid == FROZEN_XID {
        return XidBoundsOk;
      }
      if InWindow(f, nextFxid) { WidenRecovers(f, nextFxid); }
      var fxid := Widen(xid, nextFxid);
      if !(oldestFxid <= fxid < nextFxid) {
        UpdateCachedXidRange(sharedNext, sharedOldest, oldest);
        if InWindow(f, nextFxid) { WidenRecovers(f, nextFxid); }
        fxid := Widen(xid, nextFxid);
      }
      if nextFxid <= fxid {
        return XidInFuture;
      }
      if fxid < oldestFxid {
        return XidPrecedesClustermin;
      }
      if fxid < relfrozenFxid {
        return XidPrecedesRelmin;
      }
      return XidBoundsOk;
    }
  }
}
