/** The per-core rewrite of fifo operations: acquires and releases become
    useLock operations on the rotating elements of the fifo they name (after
    redirecting consumers of a split fifo to their own half), and subview
    accesses become the buffers the acquire handed out. */
module FifoRewrite {
  import opened Common
  import opened LockRotation
  import Arith

  /** What the rewrite needs to know of an objectFifo.createOp once its
      elements exist: its producer tile, its consumer tiles and its depth
      (elemNumber). */
  datatype FifoInfo = FifoInfo(producer: Tile, consumers: seq<Tile>, depth: nat)

  /** Every split parent and every half it lists is a known fifo. */
  predicate TablesWellFormed(fifos: map<FifoId, FifoInfo>, split: map<FifoId, seq<FifoId>>) {
    forall p :: p in split ==> p in fifos && HalvesKnown(fifos, split[p])
  }

  predicate HalvesKnown(fifos: map<FifoId, FifoInfo>, halves: seq<FifoId>) {
    forall i :: 0 <= i < |halves| ==> halves[i] in fifos
  }

  /** The position of the first half whose producer is `tile`. */
  function FirstOnTile(fifos: map<FifoId, FifoInfo>, halves: seq<FifoId>, tile: Tile): (r: Option<nat>)
    requires HalvesKnown(fifos, halves)
    ensures r.Some? ==> r.value < |halves| && fifos[halves[r.value]].producer == tile
    ensures r.Some? ==> forall j :: 0 <= j < r.value ==> fifos[halves[j]].producer != tile
    ensures r.None? ==> forall j :: 0 <= j < |halves| ==> fifos[halves[j]].producer != tile
  {
    if halves == [] then None
    else if fifos[halves[0]].producer == tile then Some(0)
    else match FirstOnTile(fifos, halves[1..], tile)
      case None => None
      case Some(i) => Some(i + 1)
  }

  /** The fifo an operation ends up naming after checkSplitFifo: a consume
      on a split fifo is redirected to the first of its halves produced on
      the core's tile; anything else is left alone. */
  function ResolveFifo(fifos: map<FifoId, FifoInfo>, split: map<FifoId, seq<FifoId>>,
                       fifo: FifoId, port: Port, tile: Tile): FifoId
    requires TablesWellFormed(fifos, split) && fifo in fifos
  {
    if port == Consume && fifo in split then
      match FirstOnTile(fifos, split[fifo], tile)
      case None => fifo
      case Some(i) => split[fifo][i]
    else fifo
  }

  /** checkSplitFifo. Each matching half replaces the parent operand, but
      once replaced the operation no longer names the parent, so only the
      first matching half takes effect. */
  method CheckSplitFifo(fifos: map<FifoId, FifoInfo>, split: map<FifoId, seq<FifoId>>,
                        fifo: FifoId, port: Port, tile: Tile) returns (resolved: FifoId)
    requires TablesWellFormed(fifos, split) && fifo in fifos
    ensures resolved in fifos
    ensures resolved == ResolveFifo(fifos, split, fifo, port, tile)
    ensures resolved != fifo ==>
      port == Consume && fifo in split && resolved in split[fifo] && fifos[resolved].producer == tile
  {
    resolved := fifo;
    if fifo in split && port == Consume {
      var halves := split[fifo];
      var replaced := false;
      ghost var at := 0;
      for i := 0 to |halves|
        invariant !replaced ==> resolved == fifo && forall j :: 0 <= j < i ==> fifos[halves[j]].producer != tile
        invariant replaced ==> at < i && resolved == halves[at] && fifos[halves[at]].producer == tile
        invariant replaced ==> forall j :: 0 <= j < at ==> fifos[halves[j]].producer != tile
      {
        if fifos[halves[i]].producer == tile && !replaced {
          resolved, replaced, at := halves[i], true, i;
        }
      }
      match FirstOnTile(fifos, halves, tile)
      case None =>
      case Some(k) =>
        assert k == at;
    }
  }

  /** An operation on `port` of a fifo is legal on `tile`: the producer
      side on the producer tile, the consumer side on one of the consumers. */
  predicate PortMatches(info: FifoInfo, port: Port, tile: Tile) {
    if port == Produce then tile == info.producer else tile in info.consumers
  }

  /** checkCorrectPort. */
  method CheckCorrectPort(info: FifoInfo, port: Port, tile: Tile) returns (ok: bool)
    ensures ok <==> PortMatches(info, port, tile)
  {
    if port == Produce {
      return tile == info.producer;
    }
    ok := false;
    var i := 0;
    while i < |info.consumers|
      invariant 0 <= i <= |info.consumers|
      invariant !ok ==> tile !in info.consumers[..i]
      invariant ok ==> tile in info.consumers
      decreases |info.consumers| - i, !ok
    {
      if tile == info.consumers[i] {
        ok := true;
        break;
      }
      i := i + 1;
    }
  }

  /** The halves of a split parent as materialisation creates them: one per
      consumer of the parent, in order, each produced and consumed on that
      consumer's tile. */
  predicate HalvesMatchConsumers(fifos: map<FifoId, FifoInfo>, parent: FifoInfo, halves: seq<FifoId>) {
    && HalvesKnown(fifos, halves)
    && |halves| == |parent.consumers|
    && forall i :: 0 <= i < |halves| ==>
         fifos[halves[i]].producer == parent.consumers[i] && fifos[halves[i]].consumers == [parent.consumers[i]]
  }

  /** After the redirection a consume from a tile passes the port check
      exactly when the tile is one of the split parent's consumers: each of
      them is redirected to a half it consumes, and the parent itself only
      keeps the tiles that are not among its consumers. */
  lemma SplitConsumePassesIffConsumer(fifos: map<FifoId, FifoInfo>, split: map<FifoId, seq<FifoId>>,
                                      parent: FifoId, tile: Tile)
    requires TablesWellFormed(fifos, split) && parent in split
    requires HalvesMatchConsumers(fifos, fifos[parent], split[parent])
    ensures PortMatches(fifos[ResolveFifo(fifos, split, parent, Consume, tile)], Consume, tile)
        <==> tile in fifos[parent].consumers
  {
    var halves := split[parent];
    match FirstOnTile(fifos, halves, tile)
    case None =>
    case Some(k) =>
      assert fifos[halves[k]].consumers == [tile];
      assert fifos[parent].consumers[k] == tile;
  }

  datatype RewriteError = PortMismatch(at: nat) | OverRelease(at: nat) | ZeroDepth(at: nat) | SubviewOutOfBounds(at: nat)

  /** A release recorded by the release walk: its position in the core's
      program, the fifo it names after redirection, and its count. */
  datatype PendingRelease = PendingRelease(at: nat, fifo: FifoId, count: int)

  function Lookup<K, V>(m: map<K, V>, k: K, default: V): V {
    if k in m then m[k] else default
  }

  /** A recorded release that an acquire at `at` of fifo `f` accounts for. */
  predicate Claims(r: PendingRelease, f: FifoId, at: nat) {
    r.fifo == f && r.at < at
  }

  /** The total count of the releases an acquire at `at` of `f` accounts for. */
  function ReleasedBefore(pending: seq<PendingRelease>, f: FifoId, at: nat): int {
    if pending == [] then 0
    else
      var last := pending[|pending| - 1];
      ReleasedBefore(pending[..|pending| - 1], f, at) + (if Claims(last, f, at) then last.count else 0)
  }

  /** The releases left for later acquires. */
  function Unclaimed(pending: seq<PendingRelease>, f: FifoId, at: nat): (rest: seq<PendingRelease>)
    ensures forall r :: r in rest <==> r in pending && !Claims(r, f, at)
  {
    if pending == [] then []
    else
      var last := pending[|pending| - 1];
      Unclaimed(pending[..|pending| - 1], f, at) + (if Claims(last, f, at) then [] else [last])
  }

  /** The scan of the recorded releases an acquire performs: it sums and
      removes the releases of its fifo that come before it. */
  method ClaimReleases(pending: seq<PendingRelease>, f: FifoId, at: nat) returns (numRel: int, rest: seq<PendingRelease>)
    ensures numRel == ReleasedBefore(pending, f, at)
    ensures rest == Unclaimed(pending, f, at)
  {
    numRel, rest := 0, [];
    for i := 0 to |pending|
      invariant numRel == ReleasedBefore(pending[..i], f, at)
      invariant rest == Unclaimed(pending[..i], f, at)
    {
      assert pending[..i + 1][..i] == pending[..i];
      if Claims(pending[i], f, at) {
        numRel := numRel + pending[i].count;
      } else {
        rest := rest + [pending[i]];
      }
    }
    assert pending[..|pending|] == pending;
  }

  /** Each release is accounted for by one acquire only: after an acquire
      at `at` claims its releases, a later acquire of the same fifo at `at2`
      counts exactly the releases between the two. */
  lemma {:induction false} ClaimsPartition(pending: seq<PendingRelease>, f: FifoId, at: nat, at2: nat)
    requires at <= at2
    ensures ReleasedBefore(Unclaimed(pending, f, at), f, at2) == ReleasedBefore(pending, f, at2) - ReleasedBefore(pending, f, at)
  {
    if pending != [] {
      var init := pending[..|pending| - 1];
      var last := pending[|pending| - 1];
      ClaimsPartition(init, f, at, at2);
      var u := Unclaimed(init, f, at);
      if !Claims(last, f, at) {
        assert Unclaimed(pending, f, at)[..|Unclaimed(pending, f, at)| - 1] == u;
      } else {
        assert Unclaimed(pending, f, at) == u;
      }
    }
  }

  /** The elements, in emission order, of the lock operations on `f` with
      `action`. */
  function LocksOf(ops: seq<UseLock>, f: FifoId, action: LockAction): seq<int> {
    if ops == [] then []
    else
      var last := ops[|ops| - 1];
      LocksOf(ops[..|ops| - 1], f, action) + (if last.fifo == f && last.action == action then [last.element] else [])
  }

  lemma {:induction false} LocksOfAppend(a: seq<UseLock>, b: seq<UseLock>, f: FifoId, action: LockAction)
    ensures LocksOf(a + b, f, action) == LocksOf(a, f, action) + LocksOf(b, f, action)
    decreases |b|
  {
    if b != [] {
      assert (a + b)[..|a + b| - 1] == a + b[..|b| - 1];
      LocksOfAppend(a, b[..|b| - 1], f, action);
    } else {
      assert a + b == a;
    }
  }

  lemma {:induction false} LocksOfUniform(ops: seq<UseLock>, g: FifoId, act: LockAction, f: FifoId, action: LockAction)
    requires forall i :: 0 <= i < |ops| ==> ops[i].fifo == g && ops[i].action == act
    ensures LocksOf(ops, f, action) == if g == f && act == action then Elements(ops) else []
    decreases |ops|
  {
    if ops != [] {
      var init := ops[..|ops| - 1];
      LocksOfUniform(init, g, act, f, action);
      assert Elements(ops) == Elements(init) + [ops[|ops| - 1].element];
    }
  }

  /** The lock operations of one createUseLocks call that continues a
      fifo's rotation after `done` earlier operations of the same action. */
  function RotationOps(f: FifoId, done: nat, n: int, d: nat, value: int, action: LockAction): (ops: seq<UseLock>)
    requires n > 0 ==> d > 0
    ensures |ops| == Max(n, 0)
  {
    seq(Max(n, 0), i requires 0 <= i < Max(n, 0) => UseLock(f, (done + i) % d, value, action))
  }

  /** The per-fifo invariant for every known fifo, over the pass's maps. */
  ghost predicate AllFifosValid(fifos: map<FifoId, FifoInfo>, useLocks: seq<UseLock>, acqPerFifo: map<FifoId, int>,
                                relPerFifo: map<FifoId, int>, acquiresPerFifo: map<FifoId, seq<int>>) {
    forall f {:trigger FifoOk(fifos, useLocks, acqPerFifo, relPerFifo, acquiresPerFifo, f)} :: f in fifos ==>
      FifoOk(fifos, useLocks, acqPerFifo, relPerFifo, acquiresPerFifo, f)
  }

  ghost predicate FifoOk(fifos: map<FifoId, FifoInfo>, useLocks: seq<UseLock>, acqPerFifo: map<FifoId, int>,
                         relPerFifo: map<FifoId, int>, acquiresPerFifo: map<FifoId, seq<int>>, f: FifoId)
    requires f in fifos
  {
    FifoStateValid(fifos[f].depth, LocksOf(useLocks, f, AcquireLock), LocksOf(useLocks, f, ReleaseLock),
                   Lookup(acqPerFifo, f, 0), Lookup(relPerFifo, f, 0), Lookup(acquiresPerFifo, f, []))
  }

  /** Appending operations on one fifo and action leaves every other
      fifo's and action's locks as they were. */
  lemma AppendUniform(before: seq<UseLock>, ops: seq<UseLock>, r: FifoId, act: LockAction, g: FifoId, action: LockAction)
    requires forall i :: 0 <= i < |ops| ==> ops[i].fifo == r && ops[i].action == act
    ensures LocksOf(before + ops, g, action) == LocksOf(before, g, action) + (if g == r && act == action then Elements(ops) else [])
  {
    LocksOfAppend(before, ops, g, action);
    LocksOfUniform(ops, r, act, g, action);
  }

  /** The elements a continuing call uses are the ring from the cursor. */
  lemma RotationOpsElements(f: FifoId, done: nat, n: int, d: nat, value: int, action: LockAction)
    requires d > 0 && n > 0
    ensures Elements(RotationOps(f, done, n, d, value, action)) == Ring(done % d, n, d)
    ensures forall i :: 0 <= i < n ==> RotationOps(f, done, n, d, value, action)[i].fifo == f
    ensures forall i :: 0 <= i < n ==> RotationOps(f, done, n, d, value, action)[i].action == action
  {
    var ops := RotationOps(f, done, n, d, value, action);
    forall i | 0 <= i < n
      ensures Elements(ops)[i] == Ring(done % d, n, d)[i]
    {
      Arith.ModAddLeft(done, i, d);
    }
  }

  /** The lock operations createUseLocks makes from the cursor are the
      ones RotationOps describes, when the cursor is the count taken mod d. */
  lemma CreatedOpsAreRotation(ops: seq<UseLock>, f: FifoId, done: nat, start: int, n: int, d: nat, value: int,
                              action: LockAction)
    requires n > 0 ==> d > 0 && start == done % d
    requires |ops| == Max(n, 0)
    requires forall i :: 0 <= i < |ops| ==> ops[i].fifo == f && ops[i].value == value && ops[i].action == action
    requires n > 0 ==> Elements(ops) == Ring(start, n, d)
    ensures ops == RotationOps(f, done, n, d, value, action)
  {
    var ops' := RotationOps(f, done, n, d, value, action);
    if n > 0 {
      RotationOpsElements(f, done, n, d, value, action);
      forall i | 0 <= i < n
        ensures ops[i] == ops'[i]
      {
        assert Elements(ops)[i] == Elements(ops')[i];
      }
    }
  }

  /** A fifo's acquire cursor is its count of acquire locks, mod its depth. */
  lemma AcquireCursor(fifos: map<FifoId, FifoInfo>, useLocks: seq<UseLock>, acqPerFifo: map<FifoId, int>,
                      relPerFifo: map<FifoId, int>, acquiresPerFifo: map<FifoId, seq<int>>, r: FifoId)
    requires r in fifos && fifos[r].depth > 0
    requires AllFifosValid(fifos, useLocks, acqPerFifo, relPerFifo, acquiresPerFifo)
    ensures Lookup(acqPerFifo, r, 0) == |LocksOf(useLocks, r, AcquireLock)| % fifos[r].depth
    ensures 0 <= Lookup(acqPerFifo, r, 0) < fifos[r].depth
  {
    assert FifoOk(fifos, useLocks, acqPerFifo, relPerFifo, acquiresPerFifo, r);
  }

  /** A fifo's release cursor is its count of release locks, mod its depth. */
  lemma ReleaseCursor(fifos: map<FifoId, FifoInfo>, useLocks: seq<UseLock>, acqPerFifo: map<FifoId, int>,
                      relPerFifo: map<FifoId, int>, acquiresPerFifo: map<FifoId, seq<int>>, r: FifoId)
    requires r in fifos && fifos[r].depth > 0
    requires AllFifosValid(fifos, useLocks, acqPerFifo, relPerFifo, acquiresPerFifo)
    ensures Lookup(relPerFifo, r, 0) == |LocksOf(useLocks, r, ReleaseLock)| % fifos[r].depth
    ensures 0 <= Lookup(relPerFifo, r, 0) < fifos[r].depth
  {
    assert FifoOk(fifos, useLocks, acqPerFifo, relPerFifo, acquiresPerFifo, r);
  }

  /** What an acquire commits, given the operations createUseLocks made
      from the fifo's cursor: they are the rotation's next elements, the
      invariant holds of the new state, and the subview is the window
      AcquireWindow describes, naming distinct elements when it fits. */
  lemma CommitFacts(fifos: map<FifoId, FifoInfo>, useLocks: seq<UseLock>, acqPerFifo: map<FifoId, int>,
                    relPerFifo: map<FifoId, int>, acquiresPerFifo: map<FifoId, seq<int>>,
                    r: FifoId, numRel: int, count: int, value: int, ops: seq<UseLock>, next: int)
    requires r in fifos && AllFifosValid(fifos, useLocks, acqPerFifo, relPerFifo, acquiresPerFifo)
    requires var held := Lookup(acquiresPerFifo, r, []);
      !OverReleased(held, numRel) && (NumCreate(held, numRel, count) > 0 ==> fifos[r].depth > 0)
    requires var n := NumCreate(Lookup(acquiresPerFifo, r, []), numRel, count);
      var d := fifos[r].depth;
      var start := Lookup(acqPerFifo, r, 0);
      && |ops| == Max(n, 0)
      && (forall i :: 0 <= i < |ops| ==> ops[i].fifo == r && ops[i].value == value && ops[i].action == AcquireLock)
      && (n > 0 ==> Elements(ops) == Ring(start, n, d) && next == (start + n) % d)
      && (n <= 0 ==> next == start)
    ensures var d := fifos[r].depth;
      var held := Lookup(acquiresPerFifo, r, []);
      var n := NumCreate(held, numRel, count);
      var start := Lookup(acqPerFifo, r, 0);
      var window := Kept(held, numRel) + Elements(ops);
      && ops == RotationOps(r, |LocksOf(useLocks, r, AcquireLock)|, n, d, value, AcquireLock)
      && next == (if n > 0 then (start + n) % d else start)
      && AllFifosValid(fifos, useLocks + ops, acqPerFifo[r := next], relPerFifo, acquiresPerFifo[r := window])
      && (d > 0 ==> window == AcquireWindow(held, numRel, count, start, d).value.window)
      && (d > 0 && |window| <= d ==> forall i, j :: 0 <= i < j < |window| ==> window[i] != window[j])
  {
    var d := fifos[r].depth;
    var held := Lookup(acquiresPerFifo, r, []);
    var n := NumCreate(held, numRel, count);
    var start := Lookup(acqPerFifo, r, 0);
    var seen := LocksOf(useLocks, r, AcquireLock);
    assert FifoOk(fifos, useLocks, acqPerFifo, relPerFifo, acquiresPerFifo, r);
    if n > 0 {
      AcquireCursor(fifos, useLocks, acqPerFifo, relPerFifo, acquiresPerFifo, r);
    }
    CreatedOpsAreRotation(ops, r, |seen|, start, n, d, value, AcquireLock);
    if d > 0 {
      OwnAcquireWindow(seen, start, held, numRel, count, d, Elements(ops));
    }
    AcquireKeepsInvariant(fifos, useLocks, acqPerFifo, relPerFifo, acquiresPerFifo, r, numRel, count, value,
                          ops, next, Kept(held, numRel) + Elements(ops));
  }

  /** `ops` and `next` are what a release of `n` elements of fifo r
      commits: lock operations that continue the fifo's release rotation
      from its count, and the release cursor moved on by `n`. */
  ghost predicate ReleaseCommits(fifos: map<FifoId, FifoInfo>, before: seq<UseLock>, relPerFifo: map<FifoId, int>,
                                 r: FifoId, n: int, value: int, ops: seq<UseLock>, next: int)
    requires r in fifos && (n > 0 ==> fifos[r].depth > 0)
  {
    var d := fifos[r].depth;
    && ops == RotationOps(r, |LocksOf(before, r, ReleaseLock)|, n, d, value, ReleaseLock)
    && next == if n > 0 then (Lookup(relPerFifo, r, 0) + n) % d else Lookup(relPerFifo, r, 0)
  }

  /** The lock operations an acquire creates and the subview it records:
      the shortfall beyond the elements still held, taken from the acquire
      cursor on, after the kept elements. */
  method AcquireLocks(fifos: map<FifoId, FifoInfo>, useLocks: seq<UseLock>, acqPerFifo: map<FifoId, int>,
                      relPerFifo: map<FifoId, int>, acquiresPerFifo: map<FifoId, seq<int>>,
                      r: FifoId, numRel: int, count: int, value: int)
    returns (ops: seq<UseLock>, next: int, window: seq<int>)
    requires r in fifos && AllFifosValid(fifos, useLocks, acqPerFifo, relPerFifo, acquiresPerFifo)
    requires var held := Lookup(acquiresPerFifo, r, []);
      !OverReleased(held, numRel) && (NumCreate(held, numRel, count) > 0 ==> fifos[r].depth > 0)
    ensures var d := fifos[r].depth;
      var held := Lookup(acquiresPerFifo, r, []);
      var n := NumCreate(held, numRel, count);
      var start := Lookup(acqPerFifo, r, 0);
      && ops == RotationOps(r, |LocksOf(useLocks, r, AcquireLock)|, n, d, value, AcquireLock)
      && next == (if n > 0 then (start + n) % d else start)
      && window == Kept(held, numRel) + Elements(ops)
      && AllFifosValid(fifos, useLocks + ops, acqPerFifo[r := next], relPerFifo, acquiresPerFifo[r := window])
      && (d > 0 ==> window == AcquireWindow(held, numRel, count, start, d).value.window)
      && (d > 0 && |window| <= d ==> forall i, j :: 0 <= i < j < |window| ==> window[i] != window[j])
  {
    var d := fifos[r].depth;
    var start := Lookup(acqPerFifo, r, 0);
    var held := Lookup(acquiresPerFifo, r, []);
    var kept := Kept(held, numRel);
    var numCreate := if count > |kept| then count - |kept| else 0;
    assert numCreate == NumCreate(held, numRel, count);
    if numCreate > 0 {
      AcquireCursor(fifos, useLocks, acqPerFifo, relPerFifo, acquiresPerFifo, r);
    }
    ops, next := CreateUseLocks(r, start, d, numCreate, value, AcquireLock);
    window := kept + Elements(ops);
    CommitFacts(fifos, useLocks, acqPerFifo, relPerFifo, acquiresPerFifo, r, numRel, count, value, ops, next);
  }

  /** One fifo's part of ReleaseKeepsInvariant. */
  lemma ReleaseKeepsFifo(fifos: map<FifoId, FifoInfo>, before: seq<UseLock>, acqPerFifo: map<FifoId, int>,
                         relPerFifo: map<FifoId, int>, acquiresPerFifo: map<FifoId, seq<int>>,
                         r: FifoId, n: int, value: int, ops: seq<UseLock>, next: int, g: FifoId)
    requires r in fifos && (n > 0 ==> fifos[r].depth > 0) && g in fifos
    requires ReleaseCommits(fifos, before, relPerFifo, r, n, value, ops, next)
    requires FifoOk(fifos, before, acqPerFifo, relPerFifo, acquiresPerFifo, g)
    ensures FifoStateValid(fifos[g].depth, LocksOf(before + ops, g, AcquireLock), LocksOf(before + ops, g, ReleaseLock),
                           Lookup(acqPerFifo, g, 0), Lookup(relPerFifo[r := next], g, 0), Lookup(acquiresPerFifo, g, []))
  {
    if g == r && n > 0 {
      ReleaseKeepsSelf(fifos, before, acqPerFifo, relPerFifo, acquiresPerFifo, r, n, value, ops, next);
    } else {
      ReleaseKeepsOther(fifos, before, acqPerFifo, relPerFifo, acquiresPerFifo, r, n, value, ops, next, g);
    }
  }

  /** The released fifo's own part of the invariant across its release. */
  lemma ReleaseKeepsSelf(fifos: map<FifoId, FifoInfo>, before: seq<UseLock>, acqPerFifo: map<FifoId, int>,
                         relPerFifo: map<FifoId, int>, acquiresPerFifo: map<FifoId, seq<int>>,
                         r: FifoId, n: int, value: int, ops: seq<UseLock>, next: int)
    requires r in fifos && n > 0 && fifos[r].depth > 0
    requires ReleaseCommits(fifos, before, relPerFifo, r, n, value, ops, next)
    requires FifoOk(fifos, before, acqPerFifo, relPerFifo, acquiresPerFifo, r)
    ensures FifoStateValid(fifos[r].depth, LocksOf(before + ops, r, AcquireLock), LocksOf(before + ops, r, ReleaseLock),
                           Lookup(acqPerFifo, r, 0), Lookup(relPerFifo[r := next], r, 0), Lookup(acquiresPerFifo, r, []))
  {
    var d := fifos[r].depth;
    ReleaseSelfTerms(fifos, before, relPerFifo, r, n, value, ops, next);
    ReleaseKeepsOwn(d, LocksOf(before, r, AcquireLock), LocksOf(before, r, ReleaseLock),
                    Lookup(acqPerFifo, r, 0), Lookup(relPerFifo, r, 0), Lookup(acquiresPerFifo, r, []), n,
                    LocksOf(before + ops, r, AcquireLock), LocksOf(before + ops, r, ReleaseLock),
                    Lookup(relPerFifo[r := next], r, 0));
  }

  /** The released fifo's lock lists and cursor after a release, in terms
      of those before it. */
  lemma ReleaseSelfTerms(fifos: map<FifoId, FifoInfo>, before: seq<UseLock>, relPerFifo: map<FifoId, int>,
                         r: FifoId, n: int, value: int, ops: seq<UseLock>, next: int)
    requires r in fifos && n > 0 && fifos[r].depth > 0
    requires ReleaseCommits(fifos, before, relPerFifo, r, n, value, ops, next)
    ensures var d := fifos[r].depth;
      && LocksOf(before + ops, r, AcquireLock) == LocksOf(before, r, AcquireLock)
      && LocksOf(before + ops, r, ReleaseLock) == LocksOf(before, r, ReleaseLock) + Ring(|LocksOf(before, r, ReleaseLock)| % d, n, d)
      && Lookup(relPerFifo[r := next], r, 0) == (Lookup(relPerFifo, r, 0) + n) % d
  {
    ReleaseEffect(before, r, n, fifos[r].depth, value, r);
  }

  /** Every other fifo's part of the invariant is untouched by a release. */
  lemma ReleaseKeepsOther(fifos: map<FifoId, FifoInfo>, before: seq<UseLock>, acqPerFifo: map<FifoId, int>,
                          relPerFifo: map<FifoId, int>, acquiresPerFifo: map<FifoId, seq<int>>,
                          r: FifoId, n: int, value: int, ops: seq<UseLock>, next: int, g: FifoId)
    requires r in fifos && (n > 0 ==> fifos[r].depth > 0) && g in fifos && !(g == r && n > 0)
    requires ReleaseCommits(fifos, before, relPerFifo, r, n, value, ops, next)
    requires FifoOk(fifos, before, acqPerFifo, relPerFifo, acquiresPerFifo, g)
    ensures FifoStateValid(fifos[g].depth, LocksOf(before + ops, g, AcquireLock), LocksOf(before + ops, g, ReleaseLock),
                           Lookup(acqPerFifo, g, 0), Lookup(relPerFifo[r := next], g, 0), Lookup(acquiresPerFifo, g, []))
  {
    ReleaseEffect(before, r, n, fifos[r].depth, value, g);
    assert Lookup(relPerFifo[r := next], g, 0) == Lookup(relPerFifo, g, 0);
    StateCongruent(fifos[g].depth, LocksOf(before, g, AcquireLock), LocksOf(before, g, ReleaseLock),
                   Lookup(acqPerFifo, g, 0), Lookup(relPerFifo, g, 0), Lookup(acquiresPerFifo, g, []),
                   LocksOf(before + ops, g, AcquireLock), LocksOf(before + ops, g, ReleaseLock),
                   Lookup(acqPerFifo, g, 0), Lookup(relPerFifo[r := next], g, 0), Lookup(acquiresPerFifo, g, []));
  }

  /** What a release's lock operations add to each fifo's lock lists: only
      the released fifo's release locks grow, by the ring from its count. */
  lemma ReleaseEffect(before: seq<UseLock>, r: FifoId, n: int, d: nat, value: int, g: FifoId)
    requires n > 0 ==> d > 0
    ensures var ops := RotationOps(r, |LocksOf(before, r, ReleaseLock)|, n, d, value, ReleaseLock);
      && LocksOf(before + ops, g, AcquireLock) == LocksOf(before, g, AcquireLock)
      && LocksOf(before + ops, g, ReleaseLock) == LocksOf(before, g, ReleaseLock) +
           (if g == r && n > 0 then Ring(|LocksOf(before, r, ReleaseLock)| % d, n, d) else [])
  {
    var ops := RotationOps(r, |LocksOf(before, r, ReleaseLock)|, n, d, value, ReleaseLock);
    if n > 0 {
      RotationOpsElements(r, |LocksOf(before, r, ReleaseLock)|, n, d, value, ReleaseLock);
      AppendUniform(before, ops, r, ReleaseLock, g, AcquireLock);
      AppendUniform(before, ops, r, ReleaseLock, g, ReleaseLock);
    } else {
      assert before + ops == before;
    }
  }

  /** A release of `n` elements of fifo r, continuing its rotation from its
      cursor, keeps the invariant of every fifo. */
  lemma ReleaseKeepsInvariant(fifos: map<FifoId, FifoInfo>, before: seq<UseLock>, acqPerFifo: map<FifoId, int>,
                              relPerFifo: map<FifoId, int>, acquiresPerFifo: map<FifoId, seq<int>>,
                              r: FifoId, n: int, value: int, ops: seq<UseLock>, next: int)
    requires r in fifos && (n > 0 ==> fifos[r].depth > 0)
    requires ReleaseCommits(fifos, before, relPerFifo, r, n, value, ops, next)
    requires AllFifosValid(fifos, before, acqPerFifo, relPerFifo, acquiresPerFifo)
    ensures AllFifosValid(fifos, before + ops, acqPerFifo, relPerFifo[r := next], acquiresPerFifo)
  {
    forall g | g in fifos
      ensures FifoOk(fifos, before + ops, acqPerFifo, relPerFifo[r := next], acquiresPerFifo, g)
    {
      assert FifoOk(fifos, before, acqPerFifo, relPerFifo, acquiresPerFifo, g);
      ReleaseKeepsFifo(fifos, before, acqPerFifo, relPerFifo, acquiresPerFifo, r, n, value, ops, next, g);
    }
  }

  /** `ops`, `next` and `window` are what an acquire of `numLocks` elements
      of fifo r commits: lock operations for the shortfall that continue
      the fifo's acquire rotation from its count, the acquire cursor moved
      on by the shortfall, and the subview of the kept elements followed by
      the new ones. */
  ghost predicate AcquireCommits(fifos: map<FifoId, FifoInfo>, before: seq<UseLock>, acqPerFifo: map<FifoId, int>,
                                 acquiresPerFifo: map<FifoId, seq<int>>, r: FifoId, numRel: int, numLocks: int,
                                 value: int, ops: seq<UseLock>, next: int, window: seq<int>)
    requires r in fifos
    requires var held := Lookup(acquiresPerFifo, r, []);
      !OverReleased(held, numRel) && (NumCreate(held, numRel, numLocks) > 0 ==> fifos[r].depth > 0)
  {
    var d := fifos[r].depth;
    var held := Lookup(acquiresPerFifo, r, []);
    var n := NumCreate(held, numRel, numLocks);
    && ops == RotationOps(r, |LocksOf(before, r, AcquireLock)|, n, d, value, AcquireLock)
    && next == (if n > 0 then (Lookup(acqPerFifo, r, 0) + n) % d else Lookup(acqPerFifo, r, 0))
    && window == Kept(held, numRel) + Elements(ops)
  }

  /** One fifo's part of AcquireKeepsInvariant. */
  lemma AcquireKeepsFifo(fifos: map<FifoId, FifoInfo>, before: seq<UseLock>, acqPerFifo: map<FifoId, int>,
                         relPerFifo: map<FifoId, int>, acquiresPerFifo: map<FifoId, seq<int>>,
                         r: FifoId, numRel: int, numLocks: int, value: int,
                         ops: seq<UseLock>, next: int, window: seq<int>, g: FifoId)
    requires r in fifos && g in fifos
    requires var held := Lookup(acquiresPerFifo, r, []);
      !OverReleased(held, numRel) && (NumCreate(held, numRel, numLocks) > 0 ==> fifos[r].depth > 0)
    requires AcquireCommits(fifos, before, acqPerFifo, acquiresPerFifo, r, numRel, numLocks, value, ops, next, window)
    requires FifoOk(fifos, before, acqPerFifo, relPerFifo, acquiresPerFifo, g)
    ensures FifoStateValid(fifos[g].depth, LocksOf(before + ops, g, AcquireLock), LocksOf(before + ops, g, ReleaseLock),
                           Lookup(acqPerFifo[r := next], g, 0), Lookup(relPerFifo, g, 0), Lookup(acquiresPerFifo[r := window], g, []))
  {
    if g == r {
      AcquireKeepsSelf(fifos, before, acqPerFifo, relPerFifo, acquiresPerFifo, r, numRel, numLocks, value, ops, next, window);
    } else {
      AcquireKeepsOther(fifos, before, acqPerFifo, relPerFifo, acquiresPerFifo, r, numRel, numLocks, value, ops, next, window, g);
    }
  }

  /** The acquired fifo's own part of the invariant across its acquire. */
  lemma AcquireKeepsSelf(fifos: map<FifoId, FifoInfo>, before: seq<UseLock>, acqPerFifo: map<FifoId, int>,
                         relPerFifo: map<FifoId, int>, acquiresPerFifo: map<FifoId, seq<int>>,
                         r: FifoId, numRel: int, numLocks: int, value: int,
                         ops: seq<UseLock>, next: int, window: seq<int>)
    requires r in fifos
    requires var held := Lookup(acquiresPerFifo, r, []);
      !OverReleased(held, numRel) && (NumCreate(held, numRel, numLocks) > 0 ==> fifos[r].depth > 0)
    requires AcquireCommits(fifos, before, acqPerFifo, acquiresPerFifo, r, numRel, numLocks, value, ops, next, window)
    requires FifoOk(fifos, before, acqPerFifo, relPerFifo, acquiresPerFifo, r)
    ensures FifoStateValid(fifos[r].depth, LocksOf(before + ops, r, AcquireLock), LocksOf(before + ops, r, ReleaseLock),
                           Lookup(acqPerFifo[r := next], r, 0), Lookup(relPerFifo, r, 0), Lookup(acquiresPerFifo[r := window], r, []))
  {
    var d := fifos[r].depth;
    var held := Lookup(acquiresPerFifo, r, []);
    AcquireSelfTerms(fifos, before, acqPerFifo, acquiresPerFifo, r, numRel, numLocks, value, ops, next, window);
    AcquireKeepsOwn(d, LocksOf(before, r, AcquireLock), LocksOf(before, r, ReleaseLock),
                    Lookup(acqPerFifo, r, 0), Lookup(relPerFifo, r, 0), held, numRel, numLocks,
                    Elements(ops), LocksOf(before + ops, r, AcquireLock), LocksOf(before + ops, r, ReleaseLock),
                    Lookup(acqPerFifo[r := next], r, 0), Lookup(acquiresPerFifo[r := window], r, []));
  }

  /** The acquired fifo's lock lists, cursor and subview after an acquire,
      in terms of those before it. */
  lemma AcquireSelfTerms(fifos: map<FifoId, FifoInfo>, before: seq<UseLock>, acqPerFifo: map<FifoId, int>,
                         acquiresPerFifo: map<FifoId, seq<int>>, r: FifoId, numRel: int, numLocks: int, value: int,
                         ops: seq<UseLock>, next: int, window: seq<int>)
    requires r in fifos
    requires var held := Lookup(acquiresPerFifo, r, []);
      !OverReleased(held, numRel) && (NumCreate(held, numRel, numLocks) > 0 ==> fifos[r].depth > 0)
    requires AcquireCommits(fifos, before, acqPerFifo, acquiresPerFifo, r, numRel, numLocks, value, ops, next, window)
    ensures var d := fifos[r].depth;
      var held := Lookup(acquiresPerFifo, r, []);
      var n := NumCreate(held, numRel, numLocks);
      && Elements(ops) == (if n > 0 then Ring(|LocksOf(before, r, AcquireLock)| % d, n, d) else [])
      && LocksOf(before + ops, r, AcquireLock) == LocksOf(before, r, AcquireLock) + Elements(ops)
      && LocksOf(before + ops, r, ReleaseLock) == LocksOf(before, r, ReleaseLock)
      && Lookup(acqPerFifo[r := next], r, 0) == (if n > 0 then (Lookup(acqPerFifo, r, 0) + n) % d else Lookup(acqPerFifo, r, 0))
      && Lookup(acquiresPerFifo[r := window], r, []) == Kept(held, numRel) + Elements(ops)
  {
    AcquireEffect(before, r, NumCreate(Lookup(acquiresPerFifo, r, []), numRel, numLocks), fifos[r].depth, value, r);
  }

  /** Every other fifo's part of the invariant is untouched by an acquire. */
  lemma AcquireKeepsOther(fifos: map<FifoId, FifoInfo>, before: seq<UseLock>, acqPerFifo: map<FifoId, int>,
                          relPerFifo: map<FifoId, int>, acquiresPerFifo: map<FifoId, seq<int>>,
                          r: FifoId, numRel: int, numLocks: int, value: int,
                          ops: seq<UseLock>, next: int, window: seq<int>, g: FifoId)
    requires r in fifos && g in fifos && g != r
    requires var held := Lookup(acquiresPerFifo, r, []);
      !OverReleased(held, numRel) && (NumCreate(held, numRel, numLocks) > 0 ==> fifos[r].depth > 0)
    requires AcquireCommits(fifos, before, acqPerFifo, acquiresPerFifo, r, numRel, numLocks, value, ops, next, window)
    requires FifoOk(fifos, before, acqPerFifo, relPerFifo, acquiresPerFifo, g)
    ensures FifoStateValid(fifos[g].depth, LocksOf(before + ops, g, AcquireLock), LocksOf(before + ops, g, ReleaseLock),
                           Lookup(acqPerFifo[r := next], g, 0), Lookup(relPerFifo, g, 0), Lookup(acquiresPerFifo[r := window], g, []))
  {
    var n := NumCreate(Lookup(acquiresPerFifo, r, []), numRel, numLocks);
    AcquireEffect(before, r, n, fifos[r].depth, value, g);
    assert Lookup(acqPerFifo[r := next], g, 0) == Lookup(acqPerFifo, g, 0);
    assert Lookup(acquiresPerFifo[r := window], g, []) == Lookup(acquiresPerFifo, g, []);
    StateCongruent(fifos[g].depth, LocksOf(before, g, AcquireLock), LocksOf(before, g, ReleaseLock),
                   Lookup(acqPerFifo, g, 0), Lookup(relPerFifo, g, 0), Lookup(acquiresPerFifo, g, []),
                   LocksOf(before + ops, g, AcquireLock), LocksOf(before + ops, g, ReleaseLock),
                   Lookup(acqPerFifo[r := next], g, 0), Lookup(relPerFifo, g, 0), Lookup(acquiresPerFifo[r := window], g, []));
  }

  /** What an acquire's lock operations add to each fifo's lock lists: only
      the acquired fifo's acquire locks grow, by the ring from its count. */
  lemma AcquireEffect(before: seq<UseLock>, r: FifoId, n: nat, d: nat, value: int, g: FifoId)
    requires n > 0 ==> d > 0
    ensures var ops := RotationOps(r, |LocksOf(before, r, AcquireLock)|, n, d, value, AcquireLock);
      && Elements(ops) == (if n > 0 then Ring(|LocksOf(before, r, AcquireLock)| % d, n, d) else [])
      && LocksOf(before + ops, g, ReleaseLock) == LocksOf(before, g, ReleaseLock)
      && LocksOf(before + ops, g, AcquireLock) == LocksOf(before, g, AcquireLock) + (if g == r then Elements(ops) else [])
  {
    var ops := RotationOps(r, |LocksOf(before, r, AcquireLock)|, n, d, value, AcquireLock);
    if n > 0 {
      RotationOpsElements(r, |LocksOf(before, r, AcquireLock)|, n, d, value, AcquireLock);
      AppendUniform(before, ops, r, AcquireLock, g, AcquireLock);
      AppendUniform(before, ops, r, AcquireLock, g, ReleaseLock);
    } else {
      assert ops == [] && before + ops == before;
    }
  }

  /** An acquire of fifo r keeps the invariant of every fifo. */
  lemma AcquireKeepsInvariant(fifos: map<FifoId, FifoInfo>, before: seq<UseLock>, acqPerFifo: map<FifoId, int>,
                              relPerFifo: map<FifoId, int>, acquiresPerFifo: map<FifoId, seq<int>>,
                              r: FifoId, numRel: int, numLocks: int, value: int,
                              ops: seq<UseLock>, next: int, window: seq<int>)
    requires r in fifos
    requires var held := Lookup(acquiresPerFifo, r, []);
      !OverReleased(held, numRel) && (NumCreate(held, numRel, numLocks) > 0 ==> fifos[r].depth > 0)
    requires AcquireCommits(fifos, before, acqPerFifo, acquiresPerFifo, r, numRel, numLocks, value, ops, next, window)
    requires AllFifosValid(fifos, before, acqPerFifo, relPerFifo, acquiresPerFifo)
    ensures AllFifosValid(fifos, before + ops, acqPerFifo[r := next], relPerFifo, acquiresPerFifo[r := window])
  {
    forall g | g in fifos
      ensures FifoOk(fifos, before + ops, acqPerFifo[r := next], relPerFifo, acquiresPerFifo[r := window], g)
    {
      assert FifoOk(fifos, before, acqPerFifo, relPerFifo, acquiresPerFifo, g);
      AcquireKeepsFifo(fifos, before, acqPerFifo, relPerFifo, acquiresPerFifo, r, numRel, numLocks, value, ops, next, window, g);
    }
  }

  /** The maps the rewrite of one core keeps (see CoreLowering), as a value. */
  datatype CoreState = CoreState(relPerFifo: map<FifoId, int>, acqPerFifo: map<FifoId, int>,
                                 acquiresPerFifo: map<FifoId, seq<int>>, releaseOps: seq<PendingRelease>,
                                 subviews: map<nat, seq<int>>, useLocks: seq<UseLock>)

  /** The state before the first operation of a core. */
  function InitialState(): CoreState {
    CoreState(map[], map[], map[], [], map[], [])
  }

  /** The outcome of lowering the release at position `at` from state `s`:
      the error that stops the rewrite, or the state after it. */
  function ReleaseOutcome(fifos: map<FifoId, FifoInfo>, split: map<FifoId, seq<FifoId>>, tile: Tile,
                          s: CoreState, at: nat, fifo: FifoId, port: Port, count: int): Result<CoreState, RewriteError>
    requires TablesWellFormed(fifos, split) && fifo in fifos
  {
    var r := ResolveFifo(fifos, split, fifo, port, tile);
    var d := fifos[r].depth;
    if !PortMatches(fifos[r], port, tile) then Failure(PortMismatch(at))
    else if count > 0 && d == 0 then Failure(ZeroDepth(at))
    else
      var cursor := Lookup(s.relPerFifo, r, 0);
      Success(s.(relPerFifo := s.relPerFifo[r := if count > 0 then (cursor + count) % d else cursor],
                 releaseOps := s.releaseOps + [PendingRelease(at, r, count)],
                 useLocks := s.useLocks + RotationOps(r, |LocksOf(s.useLocks, r, ReleaseLock)|, count, d,
                                                      CoreReleaseValue(port), ReleaseLock)))
  }

  /** The outcome of lowering the acquire at position `at` from state `s`. */
  function AcquireOutcome(fifos: map<FifoId, FifoInfo>, split: map<FifoId, seq<FifoId>>, tile: Tile,
                          s: CoreState, at: nat, fifo: FifoId, port: Port, count: int): Result<CoreState, RewriteError>
    requires TablesWellFormed(fifos, split) && fifo in fifos
  {
    var r := ResolveFifo(fifos, split, fifo, port, tile);
    var d := fifos[r].depth;
    var held := Lookup(s.acquiresPerFifo, r, []);
    var numRel := ReleasedBefore(s.releaseOps, r, at);
    if !PortMatches(fifos[r], port, tile) then Failure(PortMismatch(at))
    else if OverReleased(held, numRel) then Failure(OverRelease(at))
    else
      var n := NumCreate(held, numRel, count);
      if n > 0 && d == 0 then Failure(ZeroDepth(at))
      else
        var cursor := Lookup(s.acqPerFifo, r, 0);
        var ops := RotationOps(r, |LocksOf(s.useLocks, r, AcquireLock)|, n, d, CoreAcquireValue(port), AcquireLock);
        var window := Kept(held, numRel) + Elements(ops);
        Success(s.(acqPerFifo := s.acqPerFifo[r := if n > 0 then (cursor + n) % d else cursor],
                   acquiresPerFifo := s.acquiresPerFifo[r := window],
                   releaseOps := Unclaimed(s.releaseOps, r, at),
                   subviews := s.subviews[at := window],
                   useLocks := s.useLocks + ops))
  }

  /** The outcome of a release is what the lowering's release reports: the
      error it stops with, or the new state it describes. */
  lemma ReleaseOutcomeOf(fifos: map<FifoId, FifoInfo>, split: map<FifoId, seq<FifoId>>, tile: Tile,
                         s: CoreState, s2: CoreState, at: nat, fifo: FifoId, port: Port, count: int,
                         err: Option<RewriteError>)
    requires TablesWellFormed(fifos, split) && fifo in fifos
    requires var r := ResolveFifo(fifos, split, fifo, port, tile);
      && (err == Some(PortMismatch(at)) <==> !PortMatches(fifos[r], port, tile))
      && (err == Some(ZeroDepth(at)) <==> PortMatches(fifos[r], port, tile) && count > 0 && fifos[r].depth == 0)
      && (err.Some? ==> err == Some(PortMismatch(at)) || err == Some(ZeroDepth(at)))
    requires err.None? ==>
      var r := ResolveFifo(fifos, split, fifo, port, tile);
      var d := fifos[r].depth;
      && (count > 0 ==> d > 0)
      && s2.acqPerFifo == s.acqPerFifo && s2.acquiresPerFifo == s.acquiresPerFifo && s2.subviews == s.subviews
      && s2.releaseOps == s.releaseOps + [PendingRelease(at, r, count)]
      && s2.relPerFifo == s.relPerFifo[r := if count > 0 then (Lookup(s.relPerFifo, r, 0) + count) % d
                                            else Lookup(s.relPerFifo, r, 0)]
      && s2.useLocks == s.useLocks + RotationOps(r, |LocksOf(s.useLocks, r, ReleaseLock)|, count, d,
                                                 CoreReleaseValue(port), ReleaseLock)
    ensures ReleaseOutcome(fifos, split, tile, s, at, fifo, port, count)
            == if err.None? then Success(s2) else Failure(err.value)
  {
  }

  /** The outcome of an acquire is what the lowering's acquire reports. */
  lemma AcquireOutcomeOf(fifos: map<FifoId, FifoInfo>, split: map<FifoId, seq<FifoId>>, tile: Tile,
                         s: CoreState, s2: CoreState, at: nat, fifo: FifoId, port: Port, count: int,
                         err: Option<RewriteError>)
    requires TablesWellFormed(fifos, split) && fifo in fifos
    requires var r := ResolveFifo(fifos, split, fifo, port, tile);
      var held := Lookup(s.acquiresPerFifo, r, []);
      var numRel := ReleasedBefore(s.releaseOps, r, at);
      && (err == Some(PortMismatch(at)) <==> !PortMatches(fifos[r], port, tile))
      && (err == Some(OverRelease(at)) <==> PortMatches(fifos[r], port, tile) && OverReleased(held, numRel))
      && (err == Some(ZeroDepth(at)) <==>
            PortMatches(fifos[r], port, tile) && !OverReleased(held, numRel)
            && NumCreate(held, numRel, count) > 0 && fifos[r].depth == 0)
      && (err.Some? ==> err in {Some(PortMismatch(at)), Some(OverRelease(at)), Some(ZeroDepth(at))})
    requires err.None? ==>
      var r := ResolveFifo(fifos, split, fifo, port, tile);
      var d := fifos[r].depth;
      var held := Lookup(s.acquiresPerFifo, r, []);
      var numRel := ReleasedBefore(s.releaseOps, r, at);
      && !OverReleased(held, numRel)
      && var n := NumCreate(held, numRel, count);
      && (n > 0 ==> d > 0)
      && var ops := RotationOps(r, |LocksOf(s.useLocks, r, AcquireLock)|, n, d, CoreAcquireValue(port), AcquireLock);
      && var window := Kept(held, numRel) + Elements(ops);
      && s2.relPerFifo == s.relPerFifo
      && s2.releaseOps == Unclaimed(s.releaseOps, r, at)
      && s2.acqPerFifo == s.acqPerFifo[r := if n > 0 then (Lookup(s.acqPerFifo, r, 0) + n) % d
                                            else Lookup(s.acqPerFifo, r, 0)]
      && s2.acquiresPerFifo == s.acquiresPerFifo[r := window]
      && s2.subviews == s.subviews[at := window]
      && s2.useLocks == s.useLocks + ops
    ensures AcquireOutcome(fifos, split, tile, s, at, fifo, port, count)
            == if err.None? then Success(s2) else Failure(err.value)
  {
  }

  /** The rewrite state of one core: the maps the pass keeps while it walks
      the core's releases, then its acquires, then its subview accesses. */
  class CoreLowering {
    const tile: Tile
    const fifos: map<FifoId, FifoInfo>
    const split: map<FifoId, seq<FifoId>>
    /** relPerFifo and acqPerFifo: the next element to release / acquire. */
    var relPerFifo: map<FifoId, int>
    var acqPerFifo: map<FifoId, int>
    /** acquiresPerFifo: the elements of the latest subview of each fifo. */
    var acquiresPerFifo: map<FifoId, seq<int>>
    var releaseOps: seq<PendingRelease>
    /** The subview of each acquire, by the acquire's position. */
    var subviews: map<nat, seq<int>>
    /** The useLock operations created, in the order they were created. */
    var useLocks: seq<UseLock>

    ghost predicate Valid()
      reads this
    {
      TablesWellFormed(fifos, split) && AllFifosValid(fifos, useLocks, acqPerFifo, relPerFifo, acquiresPerFifo)
    }

    /** The rewrite state as a value. */
    function State(): CoreState
      reads this
    {
      CoreState(relPerFifo, acqPerFifo, acquiresPerFifo, releaseOps, subviews, useLocks)
    }

    constructor(tile: Tile, fifos: map<FifoId, FifoInfo>, split: map<FifoId, seq<FifoId>>)
      requires TablesWellFormed(fifos, split)
      ensures Valid()
      ensures this.tile == tile && this.fifos == fifos && this.split == split
      ensures relPerFifo == map[] && acqPerFifo == map[] && acquiresPerFifo == map[]
      ensures releaseOps == [] && subviews == map[] && useLocks == []
    {
      this.tile, this.fifos, this.split := tile, fifos, split;
      relPerFifo, acqPerFifo, acquiresPerFifo := map[], map[], map[];
      releaseOps, subviews, useLocks := [], map[], [];
    }

    /** Lowers the release at position `at`: redirect, check the port, then
        release `count` elements from the release cursor with the value the
        port calls for, and record the release for the acquire walk. */
    method LowerRelease(at: nat, fifo: FifoId, port: Port, count: int) returns (err: Option<RewriteError>)
      requires Valid() && fifo in fifos
      modifies this
      ensures Valid()
      ensures var r := ResolveFifo(fifos, split, fifo, port, tile);
        && (err == Some(PortMismatch(at)) <==> !PortMatches(fifos[r], port, tile))
        && (err == Some(ZeroDepth(at)) <==> PortMatches(fifos[r], port, tile) && count > 0 && fifos[r].depth == 0)
        && (err.Some? ==> err == Some(PortMismatch(at)) || err == Some(ZeroDepth(at)))
      ensures err.Some? ==> unchanged(this)
      ensures err.None? ==>
        var r := ResolveFifo(fifos, split, fifo, port, tile);
        var d := fifos[r].depth;
        && (count > 0 ==> d > 0)
        && acqPerFifo == old(acqPerFifo) && acquiresPerFifo == old(acquiresPerFifo) && subviews == old(subviews)
        && releaseOps == old(releaseOps) + [PendingRelease(at, r, count)]
        && relPerFifo == old(relPerFifo)[r := if count > 0 then (Lookup(old(relPerFifo), r, 0) + count) % d
                                               else Lookup(old(relPerFifo), r, 0)]
        && useLocks == old(useLocks) + RotationOps(r, |LocksOf(old(useLocks), r, ReleaseLock)|, count, d,
                                                    CoreReleaseValue(port), ReleaseLock)
    {
      var r := CheckSplitFifo(fifos, split, fifo, port, tile);
      var ok := CheckCorrectPort(fifos[r], port, tile);
      if !ok {
        return Some(PortMismatch(at));
      }
      var d := fifos[r].depth;
      if count > 0 && d == 0 {
        return Some(ZeroDepth(at));
      }
      var cursor := Lookup(relPerFifo, r, 0);
      if count > 0 {
        ReleaseCursor(fifos, useLocks, acqPerFifo, relPerFifo, acquiresPerFifo, r);
      }
      var ops, next := CreateUseLocks(r, cursor, d, count, CoreReleaseValue(port), ReleaseLock);
      CreatedOpsAreRotation(ops, r, |LocksOf(useLocks, r, ReleaseLock)|, cursor, count, d, CoreReleaseValue(port), ReleaseLock);
      ReleaseKeepsInvariant(fifos, useLocks, acqPerFifo, relPerFifo, acquiresPerFifo, r, count, CoreReleaseValue(port), ops, next);
      relPerFifo := relPerFifo[r := next];
      useLocks := useLocks + ops;
      releaseOps := releaseOps + [PendingRelease(at, r, count)];
      err := None;
    }

    /** The state update of an acquire of fifo `r` that passed its checks:
        acquire the shortfall from the acquire cursor and record the subview
        (the elements still held, then the ones just acquired). */
    method CommitAcquire(at: nat, r: FifoId, port: Port, count: int, numRel: int, rest: seq<PendingRelease>)
      requires Valid() && r in fifos
      requires var held := Lookup(acquiresPerFifo, r, []);
        !OverReleased(held, numRel) && (NumCreate(held, numRel, count) > 0 ==> fifos[r].depth > 0)
      modifies this
      ensures Valid()
      ensures
        var d := fifos[r].depth;
        var held := Lookup(old(acquiresPerFifo), r, []);
        var n := NumCreate(held, numRel, count);
        var ops := RotationOps(r, |LocksOf(old(useLocks), r, AcquireLock)|, n, d, CoreAcquireValue(port), AcquireLock);
        var window := Kept(held, numRel) + Elements(ops);
        && relPerFifo == old(relPerFifo)
        && releaseOps == rest
        && acqPerFifo == old(acqPerFifo)[r := if n > 0 then (Lookup(old(acqPerFifo), r, 0) + n) % d
                                               else Lookup(old(acqPerFifo), r, 0)]
        && acquiresPerFifo == old(acquiresPerFifo)[r := window]
        && subviews == old(subviews)[at := window]
        && useLocks == old(useLocks) + ops
        && (d > 0 ==> window == AcquireWindow(held, numRel, count, Lookup(old(acqPerFifo), r, 0), d).value.window)
        && (d > 0 && |window| <= d ==> forall i, j :: 0 <= i < j < |window| ==> window[i] != window[j])
    {
      var ops, next, window := AcquireLocks(fifos, useLocks, acqPerFifo, relPerFifo, acquiresPerFifo,
                                            r, numRel, count, CoreAcquireValue(port));
      acqPerFifo := acqPerFifo[r := next];
      releaseOps := rest;
      useLocks := useLocks + ops;
      subviews := subviews[at := window];
      acquiresPerFifo := acquiresPerFifo[r := window];
    }

    /** Lowers the acquire at position `at`: redirect, check the port,
        account for the releases of the same fifo before it, keep what the
        previous subview still holds, acquire the shortfall from the acquire
        cursor, and record the subview. */
    method LowerAcquire(at: nat, fifo: FifoId, port: Port, count: int) returns (err: Option<RewriteError>)
      requires Valid() && fifo in fifos
      modifies this
      ensures Valid()
      ensures var r := ResolveFifo(fifos, split, fifo, port, tile);
        var held := Lookup(old(acquiresPerFifo), r, []);
        var numRel := ReleasedBefore(old(releaseOps), r, at);
        && (err == Some(PortMismatch(at)) <==> !PortMatches(fifos[r], port, tile))
        && (err == Some(OverRelease(at)) <==> PortMatches(fifos[r], port, tile) && OverReleased(held, numRel))
        && (err == Some(ZeroDepth(at)) <==>
              PortMatches(fifos[r], port, tile) && !OverReleased(held, numRel)
              && NumCreate(held, numRel, count) > 0 && fifos[r].depth == 0)
        && (err.Some? ==> err in {Some(PortMismatch(at)), Some(OverRelease(at)), Some(ZeroDepth(at))})
      ensures err.Some? ==> unchanged(this)
      ensures err.None? ==>
        var r := ResolveFifo(fifos, split, fifo, port, tile);
        var d := fifos[r].depth;
        var held := Lookup(old(acquiresPerFifo), r, []);
        var numRel := ReleasedBefore(old(releaseOps), r, at);
        && !OverReleased(held, numRel)
        && var n := NumCreate(held, numRel, count);
        && (n > 0 ==> d > 0)
        && var ops := RotationOps(r, |LocksOf(old(useLocks), r, AcquireLock)|, n, d, CoreAcquireValue(port), AcquireLock);
        && var window := Kept(held, numRel) + Elements(ops);
        && relPerFifo == old(relPerFifo)
        && releaseOps == Unclaimed(old(releaseOps), r, at)
        && acqPerFifo == old(acqPerFifo)[r := if n > 0 then (Lookup(old(acqPerFifo), r, 0) + n) % d
                                               else Lookup(old(acqPerFifo), r, 0)]
        && acquiresPerFifo == old(acquiresPerFifo)[r := window]
        && subviews == old(subviews)[at := window]
        && useLocks == old(useLocks) + ops
        && (d > 0 ==> window == AcquireWindow(held, numRel, count, Lookup(old(acqPerFifo), r, 0), d).value.window)
        && (d > 0 && |window| <= d ==> forall i, j :: 0 <= i < j < |window| ==> window[i] != window[j])
    {
      var r := CheckSplitFifo(fifos, split, fifo, port, tile);
      var ok := CheckCorrectPort(fifos[r], port, tile);
      if !ok {
        return Some(PortMismatch(at));
      }
      var numRel, rest := ClaimReleases(releaseOps, r, at);
      var held := Lookup(acquiresPerFifo, r, []);
      if OverReleased(held, numRel) {
        return Some(OverRelease(at));
      }
      var kept := Kept(held, numRel);
      var numCreate := if count > |kept| then count - |kept| else 0;
      if numCreate > 0 && fifos[r].depth == 0 {
        return Some(ZeroDepth(at));
      }
      CommitAcquire(at, r, port, count, numRel, rest);
      err := None;
    }
  }
}
