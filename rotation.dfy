/** Lock rotation on a core (createUseLocks and the acquire bookkeeping):
    the elements of a fifo of depth d are used in the order 0, 1, ..., d-1,
    0, 1, ..., and an acquire's subview is the elements still held from the
    previous acquire followed by the newly acquired ones. */
module LockRotation {
  import opened Common
  import Arith

  datatype LockAction = AcquireLock | ReleaseLock

  /** An AIE.useLock on the lock of element `element` of `fifo`. */
  datatype UseLock = UseLock(fifo: FifoId, element: int, value: int, action: LockAction)

  /** The value a core's release sets on a lock: a producer marks the
      element full (1), a consumer marks it empty (0). */
  function CoreReleaseValue(port: Port): int {
    if port == Produce then 1 else 0
  }

  /** The value a core's acquire waits for: a producer waits for an empty
      element (0), a consumer for a full one (1). */
  function CoreAcquireValue(port: Port): int {
    if port == Produce then 0 else 1
  }

  /** `n` consecutive element indices of a fifo of depth `d` from `start`. */
  function Ring(start: int, n: nat, d: nat): (r: seq<int>)
    requires d > 0
    ensures |r| == n
    ensures forall i :: 0 <= i < n ==> 0 <= r[i] < d
  {
    seq(n, i requires 0 <= i < n => (start + i) % d)
  }

  function Elements(ops: seq<UseLock>): (r: seq<int>)
    ensures |r| == |ops|
  {
    seq(|ops|, i requires 0 <= i < |ops| => ops[i].element)
  }

  /** createUseLocks: `numLocks` lock operations on consecutive elements
      from the cursor, which ends one past the last element used. */
  method CreateUseLocks(fifo: FifoId, cursor: int, depth: int, numLocks: int, value: int, action: LockAction)
    returns (ops: seq<UseLock>, next: int)
    requires numLocks > 0 ==> depth > 0 && 0 <= cursor < depth
    ensures |ops| == Max(numLocks, 0)
    ensures forall i :: 0 <= i < |ops| ==> ops[i].fifo == fifo && ops[i].value == value && ops[i].action == action
    ensures numLocks > 0 ==> Elements(ops) == Ring(cursor, numLocks, depth) && next == (cursor + numLocks) % depth
    ensures numLocks <= 0 ==> next == cursor
  {
    ops, next := [], cursor;
    var i := 0;
    while i < numLocks
      invariant 0 <= i == |ops| <= Max(numLocks, 0)
      invariant forall j :: 0 <= j < i ==> ops[j] == UseLock(fifo, (cursor + j) % depth, value, action)
      invariant i == 0 ==> next == cursor
      invariant i > 0 ==> next == (cursor + i) % depth
    {
      var lockId := next;
      if i == 0 {
        Arith.ModSmall(cursor, depth);
      }
      ops := ops + [UseLock(fifo, lockId, value, action)];
      Arith.ModAddLeft(cursor + i, 1, depth);
      next := (lockId + 1) % depth;
      i := i + 1;
    }
  }

  /** Residues depend only on the start's residue. */
  lemma RingMod(start: int, n: nat, d: nat)
    requires d > 0
    ensures Ring(start % d, n, d) == Ring(start, n, d)
  {
    var x, y := Ring(start % d, n, d), Ring(start, n, d);
    forall i | 0 <= i < n
      ensures x[i] == y[i]
    {
      Arith.ModAddLeft(start, i, d);
    }
  }

  /** Two calls in a row use the same elements as one call for both counts. */
  lemma RingAppend(start: int, a: nat, b: nat, d: nat)
    requires d > 0
    ensures Ring(start, a, d) + Ring(start + a, b, d) == Ring(start, a + b, d)
  {
    var x := Ring(start, a, d) + Ring(start + a, b, d);
    var y := Ring(start, a + b, d);
    forall i | 0 <= i < a + b
      ensures x[i] == y[i]
    {
      if i >= a {
        assert start + a + (i - a) == start + i;
      }
    }
  }

  /** Dropping the first k elements of a run leaves a run from start + k. */
  lemma RingSuffix(start: int, n: nat, k: nat, d: nat)
    requires d > 0 && k <= n
    ensures Ring(start, n, d)[k..] == Ring(start + k, n - k, d)
  {
    var x := Ring(start, n, d)[k..];
    var y := Ring(start + k, n - k, d);
    forall i | 0 <= i < n - k
      ensures x[i] == y[i]
    {
      assert start + (k + i) == start + k + i;
    }
  }

  /** A run no longer than the depth names every element at most once. */
  lemma RingDistinct(start: int, n: nat, d: nat)
    requires d > 0 && n <= d
    ensures forall i, j :: 0 <= i < j < n ==> Ring(start, n, d)[i] != Ring(start, n, d)[j]
  {
    var r := Ring(start, n, d);
    forall i, j | 0 <= i < j < n
      ensures r[i] != r[j]
    {
      Arith.ModDistinct(start + i, start + j, d);
    }
  }

  /** A run of exactly the depth names every element exactly once. */
  lemma RingCoversAll(start: int, d: nat)
    requires d > 0
    ensures forall e :: 0 <= e < d ==> e in Ring(start, d, d)
  {
    var r := Ring(start, d, d);
    forall e | 0 <= e < d
      ensures e in r
    {
      var s := start % d;
      var i := if e >= s then e - s else e - s + d;
      assert 0 <= i < d;
      Arith.ModAddLeft(start, i, d);
      if e >= s {
        Arith.ModSmall(e, d);
        assert (s + i) % d == e;
      } else {
        Arith.ModMultiple(e, 1, d);
        Arith.ModSmall(e, d);
        assert s + i == e + 1 * d;
      }
      assert r[i] == e;
    }
  }

  /** The bookkeeping of one acquire: the new subview and how many new
      elements it acquires. */
  datatype AcquireStep = AcquireStep(window: seq<int>, numCreate: nat)

  /** The acquire's check on the releases it accounts for, when it holds
      elements: the count, taken as an unsigned size, may not exceed what is
      held, so a negative count fails as well. */
  predicate OverReleased(held: seq<int>, numRel: int) {
    |held| > 0 && (numRel < 0 || numRel > |held|)
  }

  /** The elements still held after releasing `numRel` of `held` (the
      releases only count when something is held). */
  function Kept(held: seq<int>, numRel: int): seq<int>
    requires !OverReleased(held, numRel)
  {
    if |held| > 0 && numRel > 0 then held[numRel..] else held
  }

  /** One acquire of `numLocks` elements, given the previous subview `held`,
      the `numRel` elements released since and the acquire cursor. It fails
      exactly when more elements were released than held; otherwise it
      acquires the shortfall from the cursor on and the subview is the kept
      elements followed by the new ones. */
  function AcquireWindow(held: seq<int>, numRel: int, numLocks: int, cursor: int, d: nat): (r: Option<AcquireStep>)
    requires d > 0
    ensures r.None? <==> OverReleased(held, numRel)
    ensures r.Some? ==>
      var kept := Kept(held, numRel);
      && r.value.numCreate == Max(numLocks - |kept|, 0)
      && |r.value.window| == Max(numLocks, |kept|)
      && r.value.window == kept + Ring(cursor, r.value.numCreate, d)
  {
    if OverReleased(held, numRel) then None
    else
      var kept := Kept(held, numRel);
      var numCreate := if numLocks > |kept| then numLocks - |kept| else 0;
      Some(AcquireStep(kept + Ring(cursor, numCreate, d), numCreate))
  }

  /** The subview is always the last elements acquired: if the held
      elements are the |held| elements before acquire number `count`, then
      the new subview is the |window| elements before acquire number
      count + numCreate. */
  lemma WindowStaysConsecutive(held: seq<int>, numRel: int, numLocks: int, count: nat, d: nat)
    requires d > 0 && |held| <= count
    requires held == Ring(count - |held|, |held|, d)
    requires AcquireWindow(held, numRel, numLocks, count % d, d).Some?
    ensures var step := AcquireWindow(held, numRel, numLocks, count % d, d).value;
      |step.window| <= count + step.numCreate
      && step.window == Ring(count + step.numCreate - |step.window|, |step.window|, d)
  {
    var step := AcquireWindow(held, numRel, numLocks, count % d, d).value;
    var kept := Kept(held, numRel);
    assert kept == Ring(count - |kept|, |kept|, d) by {
      if |held| > 0 && numRel > 0 {
        RingSuffix(count - |held|, |held|, numRel, d);
        assert count - |held| + numRel == count - |kept|;
      }
    }
    RingMod(count, step.numCreate, d);
    RingAppend(count - |kept|, |kept|, step.numCreate, d);
    assert count - |kept| + |kept| == count;
  }

  /** When the subview fits in the fifo, it names distinct elements, so no
      buffer is handed out twice by one acquire. */
  lemma WindowDistinct(held: seq<int>, numRel: int, numLocks: int, count: nat, d: nat)
    requires d > 0 && |held| <= count
    requires held == Ring(count - |held|, |held|, d)
    requires AcquireWindow(held, numRel, numLocks, count % d, d).Some?
    requires |AcquireWindow(held, numRel, numLocks, count % d, d).value.window| <= d
    ensures var w := AcquireWindow(held, numRel, numLocks, count % d, d).value.window;
      forall i, j :: 0 <= i < j < |w| ==> w[i] != w[j]
  {
    var step := AcquireWindow(held, numRel, numLocks, count % d, d).value;
    WindowStaysConsecutive(held, numRel, numLocks, count, d);
    RingDistinct(count + step.numCreate - |step.window|, |step.window|, d);
  }

  /** One action's locks on a fifo of depth d go round the elements from
      element 0, and the cursor points after the last element used. */
  ghost predicate Rotates(seen: seq<int>, cursor: int, d: nat)
    requires d > 0
  {
    seen == Ring(0, |seen|, d) && cursor == |seen| % d
  }

  /** The subview held is the last |held| elements acquired. */
  ghost predicate HeldIsTail(acquired: seq<int>, held: seq<int>, d: nat)
    requires d > 0
  {
    |held| <= |acquired| && held == Ring(|acquired| - |held|, |held|, d)
  }

  /** The state of one fifo on a core, as the walks keep it: the acquire
      locks and the release locks each go round the elements from element
      0, each cursor points after the last element used, and the subview
      held is the last elements acquired. */
  ghost predicate FifoStateValid(depth: nat, acq: seq<int>, rel: seq<int>, acqCursor: int, relCursor: int, held: seq<int>) {
    if depth == 0 then acq == [] && rel == [] && held == [] && acqCursor == 0 && relCursor == 0
    else Rotates(acq, acqCursor, depth) && Rotates(rel, relCursor, depth) && HeldIsTail(acq, held, depth)
  }

  /** Emitting `n` more locks of one action from the cursor keeps that
      action's part of the invariant. */
  lemma ExtendRotation(seen: seq<int>, cursor: int, n: nat, d: nat)
    requires d > 0 && Rotates(seen, cursor, d)
    ensures seen + Ring(cursor, n, d) == Ring(0, |seen| + n, d)
    ensures (cursor + n) % d == (|seen| + n) % d
    ensures Rotates(seen + Ring(cursor, n, d), (cursor + n) % d, d)
  {
    RingMod(|seen|, n, d);
    RingAppend(0, |seen|, n, d);
    Arith.ModAddLeft(|seen|, n, d);
  }

  /** The released fifo's own state: its release locks keep going round. */
  lemma ReleaseKeepsOwn(d: nat, acq: seq<int>, rel: seq<int>, acqCursor: int, relCursor: int, held: seq<int>, n: nat,
                        acq': seq<int>, rel': seq<int>, relCursor': int)
    requires d > 0 && n > 0 && FifoStateValid(d, acq, rel, acqCursor, relCursor, held)
    requires acq' == acq && rel' == rel + Ring(|rel| % d, n, d) && relCursor' == (relCursor + n) % d
    ensures FifoStateValid(d, acq', rel', acqCursor, relCursor', held)
  {
    ExtendRotation(rel, relCursor, n, d);
  }

  /** How many new elements an acquire of `numLocks` takes beyond those it keeps. */
  function NumCreate(held: seq<int>, numRel: int, numLocks: int): nat
    requires !OverReleased(held, numRel)
  {
    Max(numLocks - |Kept(held, numRel)|, 0)
  }

  /** The acquiring fifo's own state across an acquire: its acquire locks
      keep going round and the new subview is again the tail of what was
      acquired. */
  lemma OwnAcquireInvariant(seen: seq<int>, cursor: int, held: seq<int>, numRel: int, numLocks: int, d: nat, elems: seq<int>)
    requires d > 0 && Rotates(seen, cursor, d) && HeldIsTail(seen, held, d)
    requires !OverReleased(held, numRel)
    requires elems == Ring(cursor, NumCreate(held, numRel, numLocks), d)
    ensures var n := NumCreate(held, numRel, numLocks);
      && Rotates(seen + elems, if n > 0 then (cursor + n) % d else cursor, d)
      && HeldIsTail(seen + elems, Kept(held, numRel) + elems, d)
  {
    var n := NumCreate(held, numRel, numLocks);
    ExtendRotation(seen, cursor, n, d);
    if n == 0 {
      Arith.ModSmall(cursor, d);
    }
    WindowStaysConsecutive(held, numRel, numLocks, |seen|, d);
  }

  /** The subview the pass records is the window AcquireWindow describes,
      and when it fits in the fifo it names distinct elements. */
  lemma OwnAcquireWindow(seen: seq<int>, cursor: int, held: seq<int>, numRel: int, numLocks: int, d: nat, elems: seq<int>)
    requires d > 0 && Rotates(seen, cursor, d) && HeldIsTail(seen, held, d)
    requires !OverReleased(held, numRel)
    requires elems == Ring(cursor, NumCreate(held, numRel, numLocks), d)
    ensures var window := Kept(held, numRel) + elems;
      && AcquireWindow(held, numRel, numLocks, cursor, d).Some?
      && window == AcquireWindow(held, numRel, numLocks, cursor, d).value.window
      && (|window| <= d ==> forall i, j :: 0 <= i < j < |window| ==> window[i] != window[j])
  {
    var window := Kept(held, numRel) + elems;
    if |window| <= d {
      WindowDistinct(held, numRel, numLocks, |seen|, d);
    }
  }

  /** FifoStateValid depends only on its arguments' values. */
  lemma StateCongruent(d: nat, acq: seq<int>, rel: seq<int>, acqCursor: int, relCursor: int, held: seq<int>,
                       acq': seq<int>, rel': seq<int>, acqCursor': int, relCursor': int, held': seq<int>)
    requires FifoStateValid(d, acq, rel, acqCursor, relCursor, held)
    requires acq' == acq && rel' == rel && acqCursor' == acqCursor && relCursor' == relCursor && held' == held
    ensures FifoStateValid(d, acq', rel', acqCursor', relCursor', held')
  {
  }

  /** The acquired fifo's own state: its acquire locks keep going round and
      the new subview is the kept part followed by the new elements. */
  lemma AcquireKeepsOwn(d: nat, acq: seq<int>, rel: seq<int>, acqCursor: int, relCursor: int, held: seq<int>,
                        numRel: int, numLocks: int, elems: seq<int>,
                        acq': seq<int>, rel': seq<int>, acqCursor': int, held': seq<int>)
    requires FifoStateValid(d, acq, rel, acqCursor, relCursor, held)
    requires !OverReleased(held, numRel)
    requires var n := NumCreate(held, numRel, numLocks);
      && (n > 0 ==> d > 0)
      && elems == (if n > 0 then Ring(|acq| % d, n, d) else [])
      && acq' == acq + elems && rel' == rel && held' == Kept(held, numRel) + elems
      && acqCursor' == if n > 0 then (acqCursor + n) % d else acqCursor
    ensures FifoStateValid(d, acq', rel', acqCursor', relCursor, held')
  {
    var n := NumCreate(held, numRel, numLocks);
    if d == 0 {
      assert n == 0 && elems == [] && Kept(held, numRel) == [];
    } else {
      assert elems == Ring(acqCursor, n, d);
      OwnAcquireInvariant(acq, acqCursor, held, numRel, numLocks, d, elems);
    }
  }
}
