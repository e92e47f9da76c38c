/** Per-tile lock allocation (LockAnalysis) and the creation of one lock per
    fifo element (createObjectFifoElements). */
module LockAllocation {
  import opened Common

  /** Number of hardware locks on one tile. */
  const LocksPerTile: nat := 16

  /** The lowest lock id of `tile` at or above `from` that `used` does not
      mark, or -1 when every id from `from` to 15 is marked. */
  function LowestFreeLock(used: set<(Tile, int)>, tile: Tile, from: nat): (r: int)
    requires from <= LocksPerTile
    ensures r == -1 || from <= r < LocksPerTile
    ensures r >= 0 ==> (tile, r) !in used && forall j :: from <= j < r ==> (tile, j) in used
    ensures r == -1 <==> forall j :: from <= j < LocksPerTile ==> (tile, j) in used
    decreases LocksPerTile - from
  {
    if from == LocksPerTile then -1
    else if (tile, from) !in used then from
    else LowestFreeLock(used, tile, from + 1)
  }

  /** The ids handed out by `n` successive allocations on `tile`. */
  function Allocations(used: set<(Tile, int)>, tile: Tile, n: nat): seq<int>
    decreases n
  {
    if n == 0 then []
    else
      var id := LowestFreeLock(used, tile, 0);
      [id] + Allocations(if id >= 0 then used + {(tile, id)} else used, tile, n - 1)
  }

  /** The ids that a tile whose first `k` locks are taken and whose other
      locks are free hands out next: k, k+1, ..., 15, then -1 for ever. */
  function NextIds(k: nat, n: nat): seq<int> {
    seq(n, i => if k + i < LocksPerTile then k + i else -1)
  }

  lemma NextIdsStep(k: nat, n: nat)
    requires n > 0
    ensures NextIds(k, n) == if k < LocksPerTile then [k] + NextIds(k + 1, n - 1) else [-1] + NextIds(k, n - 1)
  {
  }

  lemma LowestFreeAfterPrefix(used: set<(Tile, int)>, tile: Tile, k: nat)
    requires k <= LocksPerTile
    requires forall j :: 0 <= j < k ==> (tile, j) in used
    requires forall j :: k <= j < LocksPerTile ==> (tile, j) !in used
    ensures LowestFreeLock(used, tile, 0) == if k < LocksPerTile then k else -1
  {
    var r := LowestFreeLock(used, tile, 0);
    if k < LocksPerTile {
      assert (tile, k) !in used;
      assert r != -1;
    }
  }

  /** On a tile whose first `k` ids are taken and whose others are free,
      successive allocations hand out NextIds(k, n). */
  lemma {:induction false} AllocationsFrom(used: set<(Tile, int)>, tile: Tile, k: nat, n: nat)
    requires k <= LocksPerTile
    requires forall j :: 0 <= j < k ==> (tile, j) in used
    requires forall j :: k <= j < LocksPerTile ==> (tile, j) !in used
    ensures Allocations(used, tile, n) == NextIds(k, n)
    decreases n
  {
    if n > 0 {
      LowestFreeAfterPrefix(used, tile, k);
      if k < LocksPerTile {
        var next := used + {(tile, k)};
        assert forall j :: k + 1 <= j < LocksPerTile ==> (tile, j) !in next;
        AllocationsFrom(next, tile, k + 1, n - 1);
        NextIdsStep(k, n);
      } else {
        AllocationsFrom(used, tile, k, n - 1);
        NextIdsStep(k, n);
      }
    }
  }

  /** A tile with no lock in use yields ids 0 to 15 and then fails: the 17th
      request on one tile is the fatal "no more locks" case. */
  lemma FreshTileExhaustion(used: set<(Tile, int)>, tile: Tile)
    requires forall j :: 0 <= j < LocksPerTile ==> (tile, j) !in used
    ensures |Allocations(used, tile, 17)| == 17
    ensures forall i :: 0 <= i < 16 ==> Allocations(used, tile, 17)[i] == i
    ensures Allocations(used, tile, 17)[16] == -1
  {
    AllocationsFrom(used, tile, 0, 17);
  }

  class LockAnalysis {
    /** The (tile, lock id) pairs already in use. */
    var used: set<(Tile, int)>

    /** Marks every lock that already exists in the module. */
    constructor (existing: seq<(Tile, int)>)
      ensures forall p :: p in used <==> p in existing
    {
      used := {};
      new;
      for k := 0 to |existing|
        invariant forall p :: p in used <==> p in existing[..k]
      {
        used := used + {existing[k]};
      }
    }

    /** Returns the lowest free lock id of `tile` and marks it, or -1 with
        nothing marked when all 16 are taken. */
    method GetLockId(tile: Tile) returns (id: int)
      modifies this
      ensures id == LowestFreeLock(old(used), tile, 0)
      ensures used == if id >= 0 then old(used) + {(tile, id)} else old(used)
    {
      for i := 0 to LocksPerTile
        invariant used == old(used)
        invariant forall j :: 0 <= j < i ==> (tile, j) in used
      {
        if (tile, i) !in used {
          used := used + {(tile, i)};
          return i;
        }
      }
      return -1;
    }
  }

  /** Allocates the locks of a fifo's `size` elements on `tile`; None is the
      fatal "no more locks" assertion. On success the ids are fresh, distinct,
      lie in [0,16), and are exactly what was added to the allocator. */
  method CreateObjectFifoElements(la: LockAnalysis, tile: Tile, size: int) returns (locks: Option<seq<int>>)
    modifies la
    ensures locks.Some? ==> |locks.value| == Max(size, 0)
    ensures locks.Some? ==> forall i :: 0 <= i < |locks.value| ==>
              0 <= locks.value[i] < LocksPerTile && (tile, locks.value[i]) !in old(la.used)
    ensures locks.Some? ==> forall i, j :: 0 <= i < j < |locks.value| ==> locks.value[i] != locks.value[j]
    ensures locks.Some? ==> forall p :: p in la.used <==> p in old(la.used) || (p.0 == tile && p.1 in locks.value)
    ensures locks.None? ==> forall j :: 0 <= j < LocksPerTile ==> (tile, j) in la.used
  {
    var ids: seq<int> := [];
    var i := 0;
    while i < size
      invariant |ids| == Max(i, 0) && (i > 0 ==> i <= size)
      invariant forall k :: 0 <= k < |ids| ==> 0 <= ids[k] < LocksPerTile && (tile, ids[k]) !in old(la.used)
      invariant forall k :: 0 <= k < |ids| ==> (tile, ids[k]) in la.used
      invariant forall k, m :: 0 <= k < m < |ids| ==> ids[k] != ids[m]
      invariant forall p :: p in la.used <==> p in old(la.used) || (p.0 == tile && p.1 in ids)
      decreases size - i
    {
      var id := la.GetLockId(tile);
      if id < 0 {
        return None;
      }
      ids := ids + [id];
      i := i + 1;
    }
    locks := Some(ids);
  }
}
