/** The walk over one core: all its releases, then all its acquires, then
    all its subview accesses, as runOnOperation does for every CoreOp. */
module CoreRewrite {
  import opened Common
  import opened LockRotation
  import opened FifoRewrite

  /** The buffer element a subview access resolves to: the index must lie
      within the subview of the acquire it names (an acquire with no
      recorded subview has an empty one). */
  function AccessElement(subviews: map<nat, seq<int>>, acquire: nat, index: int): (r: Option<int>)
    ensures r.Some? <==> acquire in subviews && 0 <= index < |subviews[acquire]|
    ensures r.Some? ==> r.value in subviews[acquire]
  {
    if acquire in subviews && 0 <= index < |subviews[acquire]| then Some(subviews[acquire][index]) else None
  }

  /** What lowering a core produces: the lock operations in the order they
      were created, the subview of each acquire, and the element each
      subview access resolves to (all by position in the core's program). */
  datatype LoweredCore = LoweredCore(useLocks: seq<UseLock>, subviews: map<nat, seq<int>>, accesses: map<nat, int>)

  predicate IsFifoOp(e: Event) {
    e.Acquire? || e.Release?
  }

  /** Every fifo the program names is known. */
  predicate EventsKnown(program: seq<Event>, fifos: map<FifoId, FifoInfo>) {
    forall k :: 0 <= k < |program| && IsFifoOp(program[k]) ==> program[k].fifo in fifos
  }

  /** The operation at position k ran on a tile its (redirected) fifo allows. */
  predicate PortOk(program: seq<Event>, k: nat, fifos: map<FifoId, FifoInfo>, split: map<FifoId, seq<FifoId>>, tile: Tile)
    requires TablesWellFormed(fifos, split) && EventsKnown(program, fifos) && k < |program| && IsFifoOp(program[k])
  {
    var e := program[k];
    PortMatches(fifos[ResolveFifo(fifos, split, e.fifo, e.port, tile)], e.port, tile)
  }

  /** The error names the operation that failed, of a kind that can fail so. */
  predicate ErrorAt(program: seq<Event>, e: RewriteError) {
    && e.at < |program|
    && match e
       case PortMismatch(k) => IsFifoOp(program[k])
       case OverRelease(k) => program[k].Acquire?
       case ZeroDepth(k) => IsFifoOp(program[k])
       case SubviewOutOfBounds(k) => program[k].SubviewAccess?
  }

  /** The per-fifo invariant over a rewrite state. */
  ghost predicate StateValid(fifos: map<FifoId, FifoInfo>, s: CoreState) {
    AllFifosValid(fifos, s.useLocks, s.acqPerFifo, s.relPerFifo, s.acquiresPerFifo)
  }

  /** The release walk over the first k operations of the program from
      state s: every release in program order, stopping at the first error. */
  function ReleaseWalk(fifos: map<FifoId, FifoInfo>, split: map<FifoId, seq<FifoId>>, tile: Tile,
                       program: seq<Event>, k: nat, s: CoreState): Result<CoreState, RewriteError>
    requires TablesWellFormed(fifos, split) && EventsKnown(program, fifos) && k <= |program|
    decreases k
  {
    if k == 0 then Success(s)
    else
      match ReleaseWalk(fifos, split, tile, program, k - 1, s)
      case Failure(e) => Failure(e)
      case Success(t) =>
        var e := program[k - 1];
        if e.Release? then ReleaseOutcome(fifos, split, tile, t, k - 1, e.fifo, e.port, e.count) else Success(t)
  }

  /** The acquire walk over the first k operations of the program from
      state s: every acquire in program order, stopping at the first error. */
  function AcquireWalk(fifos: map<FifoId, FifoInfo>, split: map<FifoId, seq<FifoId>>, tile: Tile,
                       program: seq<Event>, k: nat, s: CoreState): Result<CoreState, RewriteError>
    requires TablesWellFormed(fifos, split) && EventsKnown(program, fifos) && k <= |program|
    decreases k
  {
    if k == 0 then Success(s)
    else
      match AcquireWalk(fifos, split, tile, program, k - 1, s)
      case Failure(e) => Failure(e)
      case Success(t) =>
        var e := program[k - 1];
        if e.Acquire? then AcquireOutcome(fifos, split, tile, t, k - 1, e.fifo, e.port, e.count) else Success(t)
  }

  /** The access walk over the first k operations: the element each subview
      access resolves to, stopping at the first access out of bounds. */
  function AccessWalk(program: seq<Event>, subviews: map<nat, seq<int>>, k: nat): Result<map<nat, int>, RewriteError>
    requires k <= |program|
  {
    if k == 0 then Success(map[])
    else
      match AccessWalk(program, subviews, k - 1)
      case Failure(e) => Failure(e)
      case Success(accesses) =>
        var e := program[k - 1];
        if !e.SubviewAccess? then Success(accesses)
        else
          match AccessElement(subviews, e.acquire, e.index)
          case None => Failure(SubviewOutOfBounds(k - 1))
          case Some(element) => Success(accesses[k - 1 := element])
  }

  /** What lowering a core yields: the release walk, the acquire walk from
      where it left off, then the access walk over the recorded subviews. */
  function SpecRewrite(core: Core, fifos: map<FifoId, FifoInfo>, split: map<FifoId, seq<FifoId>>): Result<LoweredCore, RewriteError>
    requires TablesWellFormed(fifos, split) && EventsKnown(core.program, fifos)
  {
    var n := |core.program|;
    match ReleaseWalk(fifos, split, core.tile, core.program, n, InitialState())
    case Failure(e) => Failure(e)
    case Success(released) =>
      match AcquireWalk(fifos, split, core.tile, core.program, n, released)
      case Failure(e) => Failure(e)
      case Success(acquired) =>
        match AccessWalk(core.program, acquired.subviews, n)
        case Failure(e) => Failure(e)
        case Success(accesses) => Success(LoweredCore(acquired.useLocks, acquired.subviews, accesses))
  }

  /** Lowers one core. On success every acquire and release ran on a tile
      its port allows, every acquire has a subview, every access lies within
      the subview it names, and on every fifo the acquire locks and the
      release locks each go round its elements from element 0. */
  method RewriteCore(core: Core, fifos: map<FifoId, FifoInfo>, split: map<FifoId, seq<FifoId>>)
    returns (r: Result<LoweredCore, RewriteError>)
    requires TablesWellFormed(fifos, split) && EventsKnown(core.program, fifos)
    ensures r == SpecRewrite(core, fifos, split)
    ensures r.Failure? ==> ErrorAt(core.program, r.error)
    ensures r.Success? ==> forall k :: 0 <= k < |core.program| && IsFifoOp(core.program[k]) ==>
      PortOk(core.program, k, fifos, split, core.tile)
    ensures r.Success? ==> forall k :: 0 <= k < |core.program| && core.program[k].Acquire? ==> k in r.value.subviews
    ensures r.Success? ==> forall k :: 0 <= k < |core.program| && core.program[k].SubviewAccess? ==>
      k in r.value.accesses
      && AccessElement(r.value.subviews, core.program[k].acquire, core.program[k].index) == Some(r.value.accesses[k])
    ensures r.Success? ==> forall f :: f in fifos && fifos[f].depth > 0 ==>
      && LocksOf(r.value.useLocks, f, AcquireLock) == Ring(0, |LocksOf(r.value.useLocks, f, AcquireLock)|, fifos[f].depth)
      && LocksOf(r.value.useLocks, f, ReleaseLock) == Ring(0, |LocksOf(r.value.useLocks, f, ReleaseLock)|, fifos[f].depth)
  {
    var lowering := new CoreLowering(core.tile, fifos, split);
    var err := LowerReleases(lowering, core.program);
    if err.Some? {
      return Failure(err.value);
    }
    err := LowerAcquires(lowering, core.program);
    if err.Some? {
      return Failure(err.value);
    }
    var accesses := ResolveAccesses(core.program, lowering.subviews);
    if accesses.Failure? {
      return Failure(accesses.error);
    }
    LocksRotate(fifos, lowering.useLocks, lowering.acqPerFifo, lowering.relPerFifo, lowering.acquiresPerFifo);
    r := Success(LoweredCore(lowering.useLocks, lowering.subviews, accesses.value));
  }

  /** The release walk: every release of the program, in program order. */
  method LowerReleases(lowering: CoreLowering, program: seq<Event>) returns (err: Option<RewriteError>)
    requires lowering.Valid() && EventsKnown(program, lowering.fifos)
    modifies lowering
    ensures lowering.Valid()
    ensures ReleaseWalk(lowering.fifos, lowering.split, lowering.tile, program, |program|, old(lowering.State()))
            == if err.None? then Success(lowering.State()) else Failure(err.value)
    ensures err.Some? ==>
      && err.value.at < |program|
      && ReleaseWalk(lowering.fifos, lowering.split, lowering.tile, program, err.value.at, old(lowering.State()))
         == Success(lowering.State())
    ensures err.Some? ==> ErrorAt(program, err.value)
    ensures err.None? ==> forall j :: 0 <= j < |program| && program[j].Release? ==>
      PortOk(program, j, lowering.fifos, lowering.split, lowering.tile)
  {
    ghost var s0 := lowering.State();
    for k := 0 to |program|
      invariant lowering.Valid()
      invariant ReleaseWalk(lowering.fifos, lowering.split, lowering.tile, program, k, s0) == Success(lowering.State())
      invariant forall j :: 0 <= j < k && program[j].Release? ==> PortOk(program, j, lowering.fifos, lowering.split, lowering.tile)
    {
      if program[k].Release? {
        ghost var before := lowering.State();
        err := lowering.LowerRelease(k, program[k].fifo, program[k].port, program[k].count);
        ReleaseOutcomeOf(lowering.fifos, lowering.split, lowering.tile, before, lowering.State(),
                         k, program[k].fifo, program[k].port, program[k].count, err);
        if err.Some? {
          ReleaseFailureStays(lowering.fifos, lowering.split, lowering.tile, program, k + 1, |program|, s0);
          return;
        }
      }
    }
    err := None;
  }

  /** The acquire walk, after every release has been recorded: every
      acquire of the program, in program order, each given its subview. */
  method LowerAcquires(lowering: CoreLowering, program: seq<Event>) returns (err: Option<RewriteError>)
    requires lowering.Valid() && EventsKnown(program, lowering.fifos)
    modifies lowering
    ensures lowering.Valid()
    ensures AcquireWalk(lowering.fifos, lowering.split, lowering.tile, program, |program|, old(lowering.State()))
            == if err.None? then Success(lowering.State()) else Failure(err.value)
    ensures err.Some? ==>
      && err.value.at < |program|
      && AcquireWalk(lowering.fifos, lowering.split, lowering.tile, program, err.value.at, old(lowering.State()))
         == Success(lowering.State())
    ensures err.Some? ==> ErrorAt(program, err.value)
    ensures err.None? ==> forall j :: 0 <= j < |program| && program[j].Acquire? ==>
      PortOk(program, j, lowering.fifos, lowering.split, lowering.tile) && j in lowering.subviews
  {
    ghost var s0 := lowering.State();
    for k := 0 to |program|
      invariant lowering.Valid()
      invariant AcquireWalk(lowering.fifos, lowering.split, lowering.tile, program, k, s0) == Success(lowering.State())
      invariant forall j :: 0 <= j < k && program[j].Acquire? ==>
        PortOk(program, j, lowering.fifos, lowering.split, lowering.tile) && j in lowering.subviews
    {
      if program[k].Acquire? {
        ghost var before := lowering.State();
        err := lowering.LowerAcquire(k, program[k].fifo, program[k].port, program[k].count);
        AcquireOutcomeOf(lowering.fifos, lowering.split, lowering.tile, before, lowering.State(),
                         k, program[k].fifo, program[k].port, program[k].count, err);
        if err.Some? {
          AcquireFailureStays(lowering.fifos, lowering.split, lowering.tile, program, k + 1, |program|, s0);
          return;
        }
      }
    }
    err := None;
  }

  /** The access walk: each subview access resolves to the element at its
      index in the subview of the acquire it names; the first access out of
      bounds is the error. */
  method ResolveAccesses(program: seq<Event>, subviews: map<nat, seq<int>>) returns (r: Result<map<nat, int>, RewriteError>)
    ensures r.Failure? ==> var k := r.error.at;
      && r.error == SubviewOutOfBounds(k) && k < |program| && program[k].SubviewAccess?
      && AccessElement(subviews, program[k].acquire, program[k].index).None?
    ensures r.Success? ==> forall k :: 0 <= k < |program| && program[k].SubviewAccess? ==>
      k in r.value && AccessElement(subviews, program[k].acquire, program[k].index) == Some(r.value[k])
    ensures r == AccessWalk(program, subviews, |program|)
  {
    var accesses: map<nat, int> := map[];
    for k := 0 to |program|
      invariant forall j :: 0 <= j < k && program[j].SubviewAccess? ==>
        j in accesses && AccessElement(subviews, program[j].acquire, program[j].index) == Some(accesses[j])
      invariant AccessWalk(program, subviews, k) == Success(accesses)
    {
      if program[k].SubviewAccess? {
        var element := AccessElement(subviews, program[k].acquire, program[k].index);
        if element.None? {
          AccessFailureStays(program, subviews, k + 1, |program|);
          return Failure(SubviewOutOfBounds(k));
        }
        accesses := accesses[k := element.value];
      }
    }
    r := Success(accesses);
  }

  /** While the invariant holds, each fifo's acquire locks and release
      locks each go round its elements from element 0. */
  lemma LocksRotate(fifos: map<FifoId, FifoInfo>, useLocks: seq<UseLock>, acqPerFifo: map<FifoId, int>,
                    relPerFifo: map<FifoId, int>, acquiresPerFifo: map<FifoId, seq<int>>)
    requires AllFifosValid(fifos, useLocks, acqPerFifo, relPerFifo, acquiresPerFifo)
    ensures forall f :: f in fifos && fifos[f].depth > 0 ==>
      && LocksOf(useLocks, f, AcquireLock) == Ring(0, |LocksOf(useLocks, f, AcquireLock)|, fifos[f].depth)
      && LocksOf(useLocks, f, ReleaseLock) == Ring(0, |LocksOf(useLocks, f, ReleaseLock)|, fifos[f].depth)
  {
    forall f | f in fifos && fifos[f].depth > 0
      ensures LocksOf(useLocks, f, AcquireLock) == Ring(0, |LocksOf(useLocks, f, AcquireLock)|, fifos[f].depth)
      ensures LocksOf(useLocks, f, ReleaseLock) == Ring(0, |LocksOf(useLocks, f, ReleaseLock)|, fifos[f].depth)
    {
      assert FifoOk(fifos, useLocks, acqPerFifo, relPerFifo, acquiresPerFifo, f);
    }
  }

  lemma {:induction false} ReleaseFailureStays(fifos: map<FifoId, FifoInfo>, split: map<FifoId, seq<FifoId>>, tile: Tile,
                                               program: seq<Event>, k: nat, n: nat, s: CoreState)
    requires TablesWellFormed(fifos, split) && EventsKnown(program, fifos) && k <= n <= |program|
    requires ReleaseWalk(fifos, split, tile, program, k, s).Failure?
    ensures ReleaseWalk(fifos, split, tile, program, n, s) == ReleaseWalk(fifos, split, tile, program, k, s)
    decreases n - k
  {
    if k < n {
      ReleaseFailureStays(fifos, split, tile, program, k, n - 1, s);
    }
  }

  lemma {:induction false} AcquireFailureStays(fifos: map<FifoId, FifoInfo>, split: map<FifoId, seq<FifoId>>, tile: Tile,
                                               program: seq<Event>, k: nat, n: nat, s: CoreState)
    requires TablesWellFormed(fifos, split) && EventsKnown(program, fifos) && k <= n <= |program|
    requires AcquireWalk(fifos, split, tile, program, k, s).Failure?
    ensures AcquireWalk(fifos, split, tile, program, n, s) == AcquireWalk(fifos, split, tile, program, k, s)
    decreases n - k
  {
    if k < n {
      AcquireFailureStays(fifos, split, tile, program, k, n - 1, s);
    }
  }

  lemma {:induction false} AccessFailureStays(program: seq<Event>, subviews: map<nat, seq<int>>, k: nat, n: nat)
    requires k <= n <= |program| && AccessWalk(program, subviews, k).Failure?
    ensures AccessWalk(program, subviews, n) == AccessWalk(program, subviews, k)
    decreases n - k
  {
    if k < n {
      AccessFailureStays(program, subviews, k, n - 1);
    }
  }

  /** The state before any operation satisfies the per-fifo invariant. */
  lemma InitialStateValid(fifos: map<FifoId, FifoInfo>)
    ensures StateValid(fifos, InitialState())
  {
    forall f | f in fifos
      ensures FifoOk(fifos, [], map[], map[], map[], f)
    {
      if fifos[f].depth > 0 {
        assert Ring(0, 0, fifos[f].depth) == [];
      }
    }
  }

  /** A release that succeeds keeps the per-fifo invariant. */
  lemma ReleaseOutcomeKeeps(fifos: map<FifoId, FifoInfo>, split: map<FifoId, seq<FifoId>>, tile: Tile,
                            s: CoreState, at: nat, fifo: FifoId, port: Port, count: int)
    requires TablesWellFormed(fifos, split) && fifo in fifos && StateValid(fifos, s)
    requires ReleaseOutcome(fifos, split, tile, s, at, fifo, port, count).Success?
    ensures StateValid(fifos, ReleaseOutcome(fifos, split, tile, s, at, fifo, port, count).value)
  {
    var r := ResolveFifo(fifos, split, fifo, port, tile);
    var d := fifos[r].depth;
    var ops := RotationOps(r, |LocksOf(s.useLocks, r, ReleaseLock)|, count, d, CoreReleaseValue(port), ReleaseLock);
    var next := if count > 0 then (Lookup(s.relPerFifo, r, 0) + count) % d else Lookup(s.relPerFifo, r, 0);
    assert ReleaseCommits(fifos, s.useLocks, s.relPerFifo, r, count, CoreReleaseValue(port), ops, next);
    ReleaseKeepsInvariant(fifos, s.useLocks, s.acqPerFifo, s.relPerFifo, s.acquiresPerFifo, r, count,
                          CoreReleaseValue(port), ops, next);
  }

  /** An acquire that succeeds keeps the per-fifo invariant, and the
      subview it records is the window AcquireWindow describes from the
      fifo's previous subview, the releases it accounts for and its acquire
      cursor, naming distinct elements when it fits in the fifo. */
  lemma AcquireOutcomeKeeps(fifos: map<FifoId, FifoInfo>, split: map<FifoId, seq<FifoId>>, tile: Tile,
                            s: CoreState, at: nat, fifo: FifoId, port: Port, count: int)
    requires TablesWellFormed(fifos, split) && fifo in fifos && StateValid(fifos, s)
    requires AcquireOutcome(fifos, split, tile, s, at, fifo, port, count).Success?
    ensures var t := AcquireOutcome(fifos, split, tile, s, at, fifo, port, count).value;
      var r := ResolveFifo(fifos, split, fifo, port, tile);
      var d := fifos[r].depth;
      var held := Lookup(s.acquiresPerFifo, r, []);
      var numRel := ReleasedBefore(s.releaseOps, r, at);
      && StateValid(fifos, t)
      && at in t.subviews
      && (d > 0 ==> AcquireWindow(held, numRel, count, Lookup(s.acqPerFifo, r, 0), d).Some?
                    && t.subviews[at] == AcquireWindow(held, numRel, count, Lookup(s.acqPerFifo, r, 0), d).value.window)
      && (d > 0 && |t.subviews[at]| <= d ==> forall i, j :: 0 <= i < j < |t.subviews[at]| ==> t.subviews[at][i] != t.subviews[at][j])
  {
    var r := ResolveFifo(fifos, split, fifo, port, tile);
    var d := fifos[r].depth;
    var held := Lookup(s.acquiresPerFifo, r, []);
    var numRel := ReleasedBefore(s.releaseOps, r, at);
    var n := NumCreate(held, numRel, count);
    var value := CoreAcquireValue(port);
    var ops := RotationOps(r, |LocksOf(s.useLocks, r, AcquireLock)|, n, d, value, AcquireLock);
    var cursor := Lookup(s.acqPerFifo, r, 0);
    var next := if n > 0 then (cursor + n) % d else cursor;
    if n > 0 {
      AcquireCursor(fifos, s.useLocks, s.acqPerFifo, s.relPerFifo, s.acquiresPerFifo, r);
      RotationOpsElements(r, |LocksOf(s.useLocks, r, AcquireLock)|, n, d, value, AcquireLock);
    }
    CommitFacts(fifos, s.useLocks, s.acqPerFifo, s.relPerFifo, s.acquiresPerFifo, r, numRel, count, value, ops, next);
  }

  /** The release walk fails exactly at its first failing release: the
      error names a release that fails from the state the releases before
      it leave. */
  lemma {:induction false} ReleaseFirstFailure(fifos: map<FifoId, FifoInfo>, split: map<FifoId, seq<FifoId>>, tile: Tile,
                                               program: seq<Event>, n: nat, s: CoreState)
    requires TablesWellFormed(fifos, split) && EventsKnown(program, fifos) && n <= |program|
    requires ReleaseWalk(fifos, split, tile, program, n, s).Failure?
    ensures var e := ReleaseWalk(fifos, split, tile, program, n, s).error;
      && e.at < n && program[e.at].Release?
      && ReleaseWalk(fifos, split, tile, program, e.at, s).Success?
      && ReleaseOutcome(fifos, split, tile, ReleaseWalk(fifos, split, tile, program, e.at, s).value,
                        e.at, program[e.at].fifo, program[e.at].port, program[e.at].count) == Failure(e)
    decreases n
  {
    if ReleaseWalk(fifos, split, tile, program, n - 1, s).Failure? {
      ReleaseFirstFailure(fifos, split, tile, program, n - 1, s);
    }
  }

  /** The acquire walk fails exactly at its first failing acquire. */
  lemma {:induction false} AcquireFirstFailure(fifos: map<FifoId, FifoInfo>, split: map<FifoId, seq<FifoId>>, tile: Tile,
                                               program: seq<Event>, n: nat, s: CoreState)
    requires TablesWellFormed(fifos, split) && EventsKnown(program, fifos) && n <= |program|
    requires AcquireWalk(fifos, split, tile, program, n, s).Failure?
    ensures var e := AcquireWalk(fifos, split, tile, program, n, s).error;
      && e.at < n && program[e.at].Acquire?
      && AcquireWalk(fifos, split, tile, program, e.at, s).Success?
      && AcquireOutcome(fifos, split, tile, AcquireWalk(fifos, split, tile, program, e.at, s).value,
                        e.at, program[e.at].fifo, program[e.at].port, program[e.at].count) == Failure(e)
    decreases n
  {
    if AcquireWalk(fifos, split, tile, program, n - 1, s).Failure? {
      AcquireFirstFailure(fifos, split, tile, program, n - 1, s);
    }
  }

  /** The access walk fails exactly at its first access out of bounds:
      every access before it lies within the subview it names. */
  lemma {:induction false} AccessFirstFailure(program: seq<Event>, subviews: map<nat, seq<int>>, n: nat)
    requires n <= |program| && AccessWalk(program, subviews, n).Failure?
    ensures var e := AccessWalk(program, subviews, n).error;
      && e == SubviewOutOfBounds(e.at) && e.at < n && program[e.at].SubviewAccess?
      && AccessElement(subviews, program[e.at].acquire, program[e.at].index).None?
      && forall j :: 0 <= j < e.at && program[j].SubviewAccess? ==>
           AccessElement(subviews, program[j].acquire, program[j].index).Some?
    decreases n
  {
    if AccessWalk(program, subviews, n - 1).Failure? {
      AccessFirstFailure(program, subviews, n - 1);
    } else {
      AccessesResolve(program, subviews, n - 1);
    }
  }

  /** While the access walk succeeds, every access so far resolves. */
  lemma {:induction false} AccessesResolve(program: seq<Event>, subviews: map<nat, seq<int>>, n: nat)
    requires n <= |program| && AccessWalk(program, subviews, n).Success?
    ensures forall j :: 0 <= j < n && program[j].SubviewAccess? ==>
      j in AccessWalk(program, subviews, n).value
      && AccessElement(subviews, program[j].acquire, program[j].index) == Some(AccessWalk(program, subviews, n).value[j])
    decreases n
  {
    if n > 0 {
      AccessesResolve(program, subviews, n - 1);
    }
  }

  lemma {:induction false} ReleaseWalkKeeps(fifos: map<FifoId, FifoInfo>, split: map<FifoId, seq<FifoId>>, tile: Tile,
                                            program: seq<Event>, k: nat, s: CoreState)
    requires TablesWellFormed(fifos, split) && EventsKnown(program, fifos) && k <= |program| && StateValid(fifos, s)
    requires ReleaseWalk(fifos, split, tile, program, k, s).Success?
    ensures StateValid(fifos, ReleaseWalk(fifos, split, tile, program, k, s).value)
    decreases k
  {
    if k > 0 {
      ReleaseWalkKeeps(fifos, split, tile, program, k - 1, s);
      var e := program[k - 1];
      if e.Release? {
        ReleaseOutcomeKeeps(fifos, split, tile, ReleaseWalk(fifos, split, tile, program, k - 1, s).value,
                            k - 1, e.fifo, e.port, e.count);
      }
    }
  }

  lemma {:induction false} AcquireWalkKeeps(fifos: map<FifoId, FifoInfo>, split: map<FifoId, seq<FifoId>>, tile: Tile,
                                            program: seq<Event>, k: nat, s: CoreState)
    requires TablesWellFormed(fifos, split) && EventsKnown(program, fifos) && k <= |program| && StateValid(fifos, s)
    requires AcquireWalk(fifos, split, tile, program, k, s).Success?
    ensures StateValid(fifos, AcquireWalk(fifos, split, tile, program, k, s).value)
    decreases k
  {
    if k > 0 {
      AcquireWalkKeeps(fifos, split, tile, program, k - 1, s);
      var e := program[k - 1];
      if e.Acquire? {
        AcquireOutcomeKeeps(fifos, split, tile, AcquireWalk(fifos, split, tile, program, k - 1, s).value,
                            k - 1, e.fifo, e.port, e.count);
      }
    }
  }

  /** The number of elements the first k operations release on fifo f
      (after redirection; a count below one releases nothing). */
  function ReleasedCount(fifos: map<FifoId, FifoInfo>, split: map<FifoId, seq<FifoId>>, tile: Tile,
                         program: seq<Event>, k: nat, f: FifoId): nat
    requires TablesWellFormed(fifos, split) && EventsKnown(program, fifos) && k <= |program|
  {
    if k == 0 then 0
    else
      var e := program[k - 1];
      ReleasedCount(fifos, split, tile, program, k - 1, f)
        + (if e.Release? && ResolveFifo(fifos, split, e.fifo, e.port, tile) == f then Max(e.count, 0) else 0)
  }

  /** The release walk adds one release lock per released element to the
      fifo it releases, and no acquire lock. */
  lemma {:induction false} ReleaseWalkLocks(fifos: map<FifoId, FifoInfo>, split: map<FifoId, seq<FifoId>>, tile: Tile,
                                            program: seq<Event>, k: nat, s: CoreState, f: FifoId)
    requires TablesWellFormed(fifos, split) && EventsKnown(program, fifos) && k <= |program|
    requires ReleaseWalk(fifos, split, tile, program, k, s).Success?
    ensures var t := ReleaseWalk(fifos, split, tile, program, k, s).value;
      && LocksOf(t.useLocks, f, AcquireLock) == LocksOf(s.useLocks, f, AcquireLock)
      && |LocksOf(t.useLocks, f, ReleaseLock)| == |LocksOf(s.useLocks, f, ReleaseLock)| + ReleasedCount(fifos, split, tile, program, k, f)
    decreases k
  {
    if k > 0 {
      ReleaseWalkLocks(fifos, split, tile, program, k - 1, s, f);
      var u := ReleaseWalk(fifos, split, tile, program, k - 1, s).value;
      var e := program[k - 1];
      if e.Release? {
        var r := ResolveFifo(fifos, split, e.fifo, e.port, tile);
        ReleaseEffect(u.useLocks, r, e.count, fifos[r].depth, CoreReleaseValue(e.port), f);
      }
    }
  }

  /** The number of elements the acquires among the first k operations
      newly acquire on fifo f: for each, the shortfall of what it needs
      beyond the elements it still holds. */
  function Shortfall(fifos: map<FifoId, FifoInfo>, split: map<FifoId, seq<FifoId>>, tile: Tile,
                     program: seq<Event>, k: nat, s: CoreState, f: FifoId): nat
    requires TablesWellFormed(fifos, split) && EventsKnown(program, fifos) && k <= |program|
    requires AcquireWalk(fifos, split, tile, program, k, s).Success?
  {
    if k == 0 then 0
    else
      var u := AcquireWalk(fifos, split, tile, program, k - 1, s).value;
      var e := program[k - 1];
      var held := Lookup(u.acquiresPerFifo, f, []);
      var numRel := ReleasedBefore(u.releaseOps, f, k - 1);
      Shortfall(fifos, split, tile, program, k - 1, s, f)
        + (if e.Acquire? && ResolveFifo(fifos, split, e.fifo, e.port, tile) == f then NumCreate(held, numRel, e.count) else 0)
  }

  /** The acquire walk adds one acquire lock per newly acquired element to
      the fifo it acquires, leaves every release lock and release cursor as
      it was, and only extends each fifo's acquire locks. */
  lemma {:induction false} AcquireWalkLocks(fifos: map<FifoId, FifoInfo>, split: map<FifoId, seq<FifoId>>, tile: Tile,
                                            program: seq<Event>, k: nat, s: CoreState, f: FifoId)
    requires TablesWellFormed(fifos, split) && EventsKnown(program, fifos) && k <= |program|
    requires AcquireWalk(fifos, split, tile, program, k, s).Success?
    ensures var t := AcquireWalk(fifos, split, tile, program, k, s).value;
      && t.relPerFifo == s.relPerFifo
      && LocksOf(t.useLocks, f, ReleaseLock) == LocksOf(s.useLocks, f, ReleaseLock)
      && LocksOf(s.useLocks, f, AcquireLock) <= LocksOf(t.useLocks, f, AcquireLock)
      && |LocksOf(t.useLocks, f, AcquireLock)| == |LocksOf(s.useLocks, f, AcquireLock)| + Shortfall(fifos, split, tile, program, k, s, f)
    decreases k
  {
    if k > 0 {
      AcquireWalkLocks(fifos, split, tile, program, k - 1, s, f);
      var u := AcquireWalk(fifos, split, tile, program, k - 1, s).value;
      var e := program[k - 1];
      if e.Acquire? {
        var r := ResolveFifo(fifos, split, e.fifo, e.port, tile);
        var n := NumCreate(Lookup(u.acquiresPerFifo, r, []), ReleasedBefore(u.releaseOps, r, k - 1), e.count);
        AcquireEffect(u.useLocks, r, n, fifos[r].depth, CoreAcquireValue(e.port), f);
      }
    }
  }

  /** The subview an acquire records stays as it is through the rest of
      the acquire walk. */
  lemma {:induction false} SubviewStays(fifos: map<FifoId, FifoInfo>, split: map<FifoId, seq<FifoId>>, tile: Tile,
                                        program: seq<Event>, k: nat, s: CoreState, j: nat)
    requires TablesWellFormed(fifos, split) && EventsKnown(program, fifos) && j < k <= |program| && program[j].Acquire?
    requires AcquireWalk(fifos, split, tile, program, k, s).Success?
    ensures AcquireWalk(fifos, split, tile, program, j + 1, s).Success?
    ensures var t := AcquireWalk(fifos, split, tile, program, k, s).value;
      j in t.subviews && t.subviews[j] == AcquireWalk(fifos, split, tile, program, j + 1, s).value.subviews[j]
    decreases k
  {
    if k > j + 1 {
      SubviewStays(fifos, split, tile, program, k - 1, s, j);
    }
  }

  /** On success, each fifo has one release lock per element its releases
      release and one acquire lock per element its acquires had to newly
      acquire. */
  lemma SpecRewriteLockCounts(core: Core, fifos: map<FifoId, FifoInfo>, split: map<FifoId, seq<FifoId>>, f: FifoId)
    requires TablesWellFormed(fifos, split) && EventsKnown(core.program, fifos)
    requires SpecRewrite(core, fifos, split).Success?
    ensures var n := |core.program|;
      var released := ReleaseWalk(fifos, split, core.tile, core.program, n, InitialState());
      var c := SpecRewrite(core, fifos, split).value;
      && released.Success? && AcquireWalk(fifos, split, core.tile, core.program, n, released.value).Success?
      && |LocksOf(c.useLocks, f, ReleaseLock)| == ReleasedCount(fifos, split, core.tile, core.program, n, f)
      && |LocksOf(c.useLocks, f, AcquireLock)| == Shortfall(fifos, split, core.tile, core.program, n, released.value, f)
  {
    var n := |core.program|;
    ReleaseWalkLocks(fifos, split, core.tile, core.program, n, InitialState(), f);
    var released := ReleaseWalk(fifos, split, core.tile, core.program, n, InitialState()).value;
    AcquireWalkLocks(fifos, split, core.tile, core.program, n, released, f);
  }

  /** On success, each fifo's acquire locks and release locks each go
      round its elements from element 0. */
  lemma SpecRewriteRotates(core: Core, fifos: map<FifoId, FifoInfo>, split: map<FifoId, seq<FifoId>>)
    requires TablesWellFormed(fifos, split) && EventsKnown(core.program, fifos)
    requires SpecRewrite(core, fifos, split).Success?
    ensures var c := SpecRewrite(core, fifos, split).value;
      forall f :: f in fifos && fifos[f].depth > 0 ==>
        && LocksOf(c.useLocks, f, AcquireLock) == Ring(0, |LocksOf(c.useLocks, f, AcquireLock)|, fifos[f].depth)
        && LocksOf(c.useLocks, f, ReleaseLock) == Ring(0, |LocksOf(c.useLocks, f, ReleaseLock)|, fifos[f].depth)
  {
    var n := |core.program|;
    InitialStateValid(fifos);
    ReleaseWalkKeeps(fifos, split, core.tile, core.program, n, InitialState());
    var released := ReleaseWalk(fifos, split, core.tile, core.program, n, InitialState()).value;
    AcquireWalkKeeps(fifos, split, core.tile, core.program, n, released);
    var t := AcquireWalk(fifos, split, core.tile, core.program, n, released).value;
    LocksRotate(fifos, t.useLocks, t.acqPerFifo, t.relPerFifo, t.acquiresPerFifo);
  }

  /** On success, the subview of the acquire at position j is the window
      AcquireWindow describes from the state the acquires before it leave:
      the elements of the fifo's previous subview that were not released,
      then the shortfall from the acquire cursor on. */
  lemma SpecRewriteSubview(core: Core, fifos: map<FifoId, FifoInfo>, split: map<FifoId, seq<FifoId>>, j: nat)
    requires TablesWellFormed(fifos, split) && EventsKnown(core.program, fifos)
    requires j < |core.program| && core.program[j].Acquire?
    requires SpecRewrite(core, fifos, split).Success?
    ensures var n := |core.program|;
      var released := ReleaseWalk(fifos, split, core.tile, core.program, n, InitialState());
      var c := SpecRewrite(core, fifos, split).value;
      var e := core.program[j];
      var r := ResolveFifo(fifos, split, e.fifo, e.port, core.tile);
      var d := fifos[r].depth;
      && released.Success? && AcquireWalk(fifos, split, core.tile, core.program, j, released.value).Success?
      && var u := AcquireWalk(fifos, split, core.tile, core.program, j, released.value).value;
      && j in c.subviews
      && (d > 0 ==>
            var window := AcquireWindow(Lookup(u.acquiresPerFifo, r, []), ReleasedBefore(u.releaseOps, r, j), e.count,
                                        Lookup(u.acqPerFifo, r, 0), d);
            window.Some? && c.subviews[j] == window.value.window)
      && (d > 0 && |c.subviews[j]| <= d ==> forall a, b :: 0 <= a < b < |c.subviews[j]| ==> c.subviews[j][a] != c.subviews[j][b])
  {
    var n := |core.program|;
    var e := core.program[j];
    InitialStateValid(fifos);
    ReleaseWalkKeeps(fifos, split, core.tile, core.program, n, InitialState());
    var released := ReleaseWalk(fifos, split, core.tile, core.program, n, InitialState()).value;
    SubviewStays(fifos, split, core.tile, core.program, n, released, j);
    AcquireWalkKeeps(fifos, split, core.tile, core.program, j, released);
    var u := AcquireWalk(fifos, split, core.tile, core.program, j, released).value;
    AcquireOutcomeKeeps(fifos, split, core.tile, u, j, e.fifo, e.port, e.count);
  }

  /** A release walk that succeeds met no failing release: each release
      succeeds from the state the releases before it leave. */
  lemma ReleasesSucceed(fifos: map<FifoId, FifoInfo>, split: map<FifoId, seq<FifoId>>, tile: Tile,
                        program: seq<Event>, n: nat, s: CoreState, j: nat)
    requires TablesWellFormed(fifos, split) && EventsKnown(program, fifos) && j < n <= |program| && program[j].Release?
    requires ReleaseWalk(fifos, split, tile, program, n, s).Success?
    ensures ReleaseWalk(fifos, split, tile, program, j, s).Success?
    ensures ReleaseOutcome(fifos, split, tile, ReleaseWalk(fifos, split, tile, program, j, s).value,
                           j, program[j].fifo, program[j].port, program[j].count).Success?
  {
    if ReleaseWalk(fifos, split, tile, program, j + 1, s).Failure? {
      ReleaseFailureStays(fifos, split, tile, program, j + 1, n, s);
    }
  }

  /** An acquire walk that succeeds met no failing acquire. */
  lemma AcquiresSucceed(fifos: map<FifoId, FifoInfo>, split: map<FifoId, seq<FifoId>>, tile: Tile,
                        program: seq<Event>, n: nat, s: CoreState, j: nat)
    requires TablesWellFormed(fifos, split) && EventsKnown(program, fifos) && j < n <= |program| && program[j].Acquire?
    requires AcquireWalk(fifos, split, tile, program, n, s).Success?
    ensures AcquireWalk(fifos, split, tile, program, j, s).Success?
    ensures AcquireOutcome(fifos, split, tile, AcquireWalk(fifos, split, tile, program, j, s).value,
                           j, program[j].fifo, program[j].port, program[j].count).Success?
  {
    if AcquireWalk(fifos, split, tile, program, j + 1, s).Failure? {
      AcquireFailureStays(fifos, split, tile, program, j + 1, n, s);
    }
  }

  /** A release of a negative count before an acquire that still holds
      elements is an over-release: the acquire's check treats the count as
      an unsigned size. */
  lemma NegativeReleaseFails()
    ensures SpecRewrite(Core(1, NegativeReleaseProgram()), map[Declared(0) := FifoInfo(0, [1], 2)], map[])
            == Failure(OverRelease(2))
  {
    var fifos := map[Declared(0) := FifoInfo(0, [1], 2)];
    var split: map<FifoId, seq<FifoId>> := map[];
    var program := NegativeReleaseProgram();
    var pending := [PendingRelease(1, Declared(0), -1)];
    var s1 := InitialState().(relPerFifo := map[Declared(0) := 0], releaseOps := pending);
    assert ReleaseWalk(fifos, split, 1, program, 1, InitialState()) == Success(InitialState());
    assert ResolveFifo(fifos, split, Declared(0), Consume, 1) == Declared(0);
    assert PortMatches(fifos[Declared(0)], Consume, 1);
    assert RotationOps(Declared(0), 0, -1, 2, CoreReleaseValue(Consume), ReleaseLock) == [];
    assert ReleaseOutcome(fifos, split, 1, InitialState(), 1, Declared(0), Consume, -1) == Success(s1) by {
      var s0 := InitialState();
      assert LocksOf(s0.useLocks, Declared(0), ReleaseLock) == [];
      assert Lookup(s0.relPerFifo, Declared(0), 0) == 0;
      assert s0.relPerFifo[Declared(0) := 0] == map[Declared(0) := 0];
      assert s0.releaseOps + [PendingRelease(1, Declared(0), -1)] == pending;
      assert s0.useLocks + RotationOps(Declared(0), 0, -1, 2, CoreReleaseValue(Consume), ReleaseLock) == [];
    }
    assert ReleaseWalk(fifos, split, 1, program, 2, InitialState()) == Success(s1);
    assert ReleaseWalk(fifos, split, 1, program, 3, InitialState()) == Success(s1);
    assert ReleasedBefore(pending, Declared(0), 0) == 0 by {
      assert pending[..0] == [];
    }
    assert Unclaimed(pending, Declared(0), 0) == pending by {
      assert pending[..0] == [];
    }
    var ops := RotationOps(Declared(0), 0, 1, 2, CoreAcquireValue(Consume), AcquireLock);
    assert Elements(ops) == [0];
    var s2 := s1.(acqPerFifo := map[Declared(0) := 1], acquiresPerFifo := map[Declared(0) := [0]],
                  subviews := map[0 := [0]], useLocks := ops);
    assert AcquireOutcome(fifos, split, 1, s1, 0, Declared(0), Consume, 1) == Success(s2) by {
      assert LocksOf([], Declared(0), AcquireLock) == [];
      assert Lookup(s1.acquiresPerFifo, Declared(0), []) == [];
      assert Kept([], 0) + Elements(ops) == [0];
      assert map[][Declared(0) := 1] == map[Declared(0) := 1];
      assert map[][Declared(0) := [0]] == map[Declared(0) := [0]];
      assert map[][0 := [0]] == map[0 := [0]];
      assert [] + ops == ops;
    }
    assert AcquireWalk(fifos, split, 1, program, 1, s1) == Success(s2);
    assert AcquireWalk(fifos, split, 1, program, 2, s1) == Success(s2);
    assert ReleasedBefore(pending, Declared(0), 2) == -1 by {
      assert pending[..0] == [];
    }
    assert AcquireWalk(fifos, split, 1, program, 3, s1) == Failure(OverRelease(2));
  }

  /** Acquire one element, release -1 of them, acquire one again, all as
      a consumer of fifo 0. */
  function NegativeReleaseProgram(): seq<Event> {
    [Acquire(Declared(0), Consume, 1), Release(Declared(0), Consume, -1), Acquire(Declared(0), Consume, 1)]
  }
}
