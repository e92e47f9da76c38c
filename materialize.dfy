/** Materialisation of the declared object FIFOs (the create loop of
    runOnOperation): a fifo whose producer and only consumer share memory
    keeps one set of elements; any other fifo is split into a producer side
    and one consumer half per consumer tile, each sized by what its tile
    acquires, and every side gets its own buffers and locks. Then the split
    fifos are wired: a sending DMA chain on the producer tile, a multicast,
    and a receiving DMA chain on every consumer tile. */
module Materialize {
  import opened Common
  import opened FifoSizing
  import opened LockAllocation
  import opened DmaChannels
  import opened DescriptorChain
  import opened FifoRewrite
  import LockRotation

  /** An objectFifo.createObjectFifo as declared: producer tile, consumer
      tiles, declared number of elements and the shape of one element. */
  datatype FifoDecl = FifoDecl(producer: Tile, consumers: seq<Tile>, size: int, shape: seq<int>)

  /** No broadcast, and the producer can reach its consumer's memory. */
  predicate IsShared(d: FifoDecl, adjacent: (Tile, Tile) -> bool) {
    |d.consumers| == 1 && adjacent(d.producer, d.consumers[0])
  }

  /** The create loop's decision for one fifo: keep the declared size, or
      split with the producer side and each consumer half sized on its tile. */
  datatype FifoPlan = SharedPlan(size: int) | SplitPlan(producerSize: nat, halfSizes: seq<nat>)

  /** The consumer loop for one fifo: it stops at the first consumer when
      the fifo can be shared, and otherwise sizes a half for every consumer
      tile; a split producer side is sized by the producer tile's acquires. */
  method PlanFifo(cores: seq<Core>, fifo: FifoId, d: FifoDecl, adjacent: (Tile, Tile) -> bool)
    returns (plan: FifoPlan)
    ensures plan.SharedPlan? <==> IsShared(d, adjacent)
    ensures plan.SharedPlan? ==> plan.size == d.size
    ensures plan.SplitPlan? ==>
              plan.producerSize == ObjectFifoSize(cores, d.producer, fifo, d.size) &&
              |plan.halfSizes| == |d.consumers| &&
              forall i :: 0 <= i < |d.consumers| ==>
                plan.halfSizes[i] == ObjectFifoSize(cores, d.consumers[i], fifo, d.size)
  {
    var sizes: seq<nat> := [];
    for i := 0 to |d.consumers|
      invariant |sizes| == i
      invariant forall j :: 0 <= j < i ==> sizes[j] == ObjectFifoSize(cores, d.consumers[j], fifo, d.size)
      invariant i > 0 ==> !IsShared(d, adjacent)
    {
      if |d.consumers| == 1 && adjacent(d.producer, d.consumers[i]) {
        return SharedPlan(d.size);
      }
      var s := FindObjectFifoSize(cores, d.consumers[i], fifo, d.size);
      sizes := sizes + [s];
    }
    var producerSize := FindObjectFifoSize(cores, d.producer, fifo, d.size);
    plan := SplitPlan(producerSize, sizes);
  }

  /** The fifo tables and the lock ids given to each fifo's elements. */
  datatype Materialized = Materialized(fifos: map<FifoId, FifoInfo>, split: map<FifoId, seq<FifoId>>,
                                       locks: map<FifoId, seq<int>>)

  /** Fatal "no more locks" on `tile` while creating the elements of `fifo`. */
  datatype LockError = OutOfLocks(fifo: FifoId, tile: Tile)

  /** The consumer halves of declared fifo `p`, in consumer order. */
  function HalfIds(p: nat, n: nat): (r: seq<FifoId>)
    ensures |r| == n && forall i :: 0 <= i < n ==> r[i] == ConsumerHalf(p, i)
  {
    seq(n, i requires 0 <= i < n => ConsumerHalf(p, i))
  }

  /** The declaration a fifo comes from. */
  function Owner(f: FifoId): nat {
    match f
    case Declared(q) => q
    case ConsumerHalf(q, _) => q
  }

  /** The i-th consumer half of declared fifo q: produced and consumed on
      the i-th consumer tile, as deep as that tile's acquires need. */
  predicate HalfDone(m: Materialized, cores: seq<Core>, q: nat, d: FifoDecl, i: nat)
    requires i < |d.consumers|
  {
    && ConsumerHalf(q, i) in m.fifos
    && m.fifos[ConsumerHalf(q, i)] ==
         FifoInfo(d.consumers[i], [d.consumers[i]], ObjectFifoSize(cores, d.consumers[i], Declared(q), d.size))
  }

  /** Declared fifo q is materialised as the create loop does it: shared
      with its declared size, or split with a producer side sized on the
      producer tile and one registered half per consumer. */
  predicate DeclDone(m: Materialized, cores: seq<Core>, decls: seq<FifoDecl>, adjacent: (Tile, Tile) -> bool, q: nat)
    requires q < |decls|
  {
    var d := decls[q];
    && Declared(q) in m.fifos
    && if IsShared(d, adjacent) then
         m.fifos[Declared(q)] == FifoInfo(d.producer, d.consumers, Max(d.size, 0)) && Declared(q) !in m.split
       else
         && m.fifos[Declared(q)] == FifoInfo(d.producer, d.consumers, ObjectFifoSize(cores, d.producer, Declared(q), d.size))
         && Declared(q) in m.split && m.split[Declared(q)] == HalfIds(q, |d.consumers|)
         && forall i :: 0 <= i < |d.consumers| ==> HalfDone(m, cores, q, d, i)
  }

  /** Every fifo has one lock per element, on the tile that holds the
      element, allocated by this pass (absent from `before`, marked in `used`). */
  predicate LocksFresh(fifos: map<FifoId, FifoInfo>, locks: map<FifoId, seq<int>>,
                       before: set<(Tile, int)>, used: set<(Tile, int)>) {
    forall f :: f in locks ==>
      && f in fifos && |locks[f]| == fifos[f].depth
      && forall i :: 0 <= i < |locks[f]| ==>
           && 0 <= locks[f][i] < LocksPerTile
           && (fifos[f].producer, locks[f][i]) in used
           && (fifos[f].producer, locks[f][i]) !in before
  }

  /** No two elements on the same tile share a lock. */
  predicate LocksDistinct(fifos: map<FifoId, FifoInfo>, locks: map<FifoId, seq<int>>) {
    forall f, g, i, j ::
      (f in locks && g in locks && f in fifos && g in fifos &&
       0 <= i < |locks[f]| && 0 <= j < |locks[g]| && (f != g || i != j) &&
       fifos[f].producer == fifos[g].producer) ==> locks[f][i] != locks[g][j]
  }

  /** The state of the create loop after the first k declarations. */
  predicate Progress(m: Materialized, cores: seq<Core>, decls: seq<FifoDecl>, adjacent: (Tile, Tile) -> bool,
                     k: nat, before: set<(Tile, int)>, used: set<(Tile, int)>)
  {
    && k <= |decls|
    && (forall q :: 0 <= q < k ==> DeclDone(m, cores, decls, adjacent, q))
    && (forall f :: f in m.fifos ==> Owner(f) < k)
    && (forall f :: f in m.split ==> f.Declared? && f.index < k)
    && m.locks.Keys == m.fifos.Keys
    && LocksFresh(m.fifos, m.locks, before, used) && LocksDistinct(m.fifos, m.locks)
    && before <= used
  }

  /** Registering a new fifo with freshly allocated, distinct locks keeps
      every lock fresh and no lock shared. */
  lemma AddFifo(m: Materialized, before: set<(Tile, int)>, used: set<(Tile, int)>, used': set<(Tile, int)>,
                f: FifoId, info: FifoInfo, ids: seq<int>)
    requires LocksFresh(m.fifos, m.locks, before, used) && LocksDistinct(m.fifos, m.locks) && before <= used
    requires f !in m.fifos && f !in m.locks
    requires |ids| == info.depth
    requires forall i :: 0 <= i < |ids| ==> 0 <= ids[i] < LocksPerTile && (info.producer, ids[i]) !in used
    requires forall i, j :: 0 <= i < j < |ids| ==> ids[i] != ids[j]
    requires forall p :: p in used' <==> p in used || (p.0 == info.producer && p.1 in ids)
    ensures LocksFresh(m.fifos[f := info], m.locks[f := ids], before, used')
    ensures LocksDistinct(m.fifos[f := info], m.locks[f := ids])
  {
    var m' := Materialized(m.fifos[f := info], m.split, m.locks[f := ids]);
    forall g, h, i, j |
      g in m'.locks && h in m'.locks && g in m'.fifos && h in m'.fifos &&
      0 <= i < |m'.locks[g]| && 0 <= j < |m'.locks[h]| && (g != h || i != j) &&
      m'.fifos[g].producer == m'.fifos[h].producer
      ensures m'.locks[g][i] != m'.locks[h][j]
    {
      if g == f && h != f {
        assert (m.fifos[h].producer, m.locks[h][j]) in used;
      } else if h == f && g != f {
        assert (m.fifos[g].producer, m.locks[g][i]) in used;
      } else if g == f && h == f {
        if i > j {
          assert ids[j] != ids[i];
        }
      }
    }
  }

  /** Adding fifos and split entries leaves earlier declarations as they were. */
  lemma KeepDone(m: Materialized, m': Materialized, cores: seq<Core>, decls: seq<FifoDecl>,
                 adjacent: (Tile, Tile) -> bool, k: nat)
    requires k <= |decls|
    requires forall q :: 0 <= q < k ==> DeclDone(m, cores, decls, adjacent, q)
    requires forall f :: f in m.fifos ==> f in m'.fifos && m'.fifos[f] == m.fifos[f]
    requires forall f :: f in m'.split && Owner(f) < k ==> f in m.split && m'.split[f] == m.split[f]
    requires forall f :: f in m.split ==> f in m'.split && m'.split[f] == m.split[f]
    ensures forall q :: 0 <= q < k ==> DeclDone(m', cores, decls, adjacent, q)
  {
    forall q | 0 <= q < k
      ensures DeclDone(m', cores, decls, adjacent, q)
    {
      var d := decls[q];
      assert DeclDone(m, cores, decls, adjacent, q);
      if !IsShared(d, adjacent) {
        forall i | 0 <= i < |d.consumers|
          ensures HalfDone(m', cores, q, d, i)
        {
          assert HalfDone(m, cores, q, d, i);
        }
      }
    }
  }

  /** Creates the elements of one fifo whose tile shares memory with every
      user: a buffer and a fresh lock per element on `tile`. */
  method AddElements(la: LockAnalysis, m: Materialized, f: FifoId, info: FifoInfo, size: int,
                     ghost before: set<(Tile, int)>)
    returns (r: Result<Materialized, LockError>)
    requires LocksFresh(m.fifos, m.locks, before, la.used) && LocksDistinct(m.fifos, m.locks) && before <= la.used
    requires f !in m.fifos && f !in m.locks && info.depth == Max(size, 0)
    modifies la
    ensures r.Success? ==> r.value == Materialized(m.fifos[f := info], m.split, r.value.locks)
    ensures r.Success? ==> r.value.locks.Keys == m.locks.Keys + {f}
    ensures r.Success? ==> forall g :: g in m.locks ==> r.value.locks[g] == m.locks[g]
    ensures r.Success? ==> LocksFresh(r.value.fifos, r.value.locks, before, la.used) && before <= la.used
    ensures r.Success? ==> LocksDistinct(r.value.fifos, r.value.locks)
    ensures r.Failure? ==> r.error == OutOfLocks(f, info.producer)
    ensures r.Failure? ==> forall j :: 0 <= j < LocksPerTile ==> (info.producer, j) in la.used
  {
    var ids := CreateObjectFifoElements(la, info.producer, size);
    if ids.None? {
      return Failure(OutOfLocks(f, info.producer));
    }
    AddFifo(m, before, old(la.used), la.used, f, info, ids.value);
    r := Success(Materialized(m.fifos[f := info], m.split, m.locks[f := ids.value]));
  }

  /** The create loop's state while the consumer halves of declaration p
      are visited, from the last one down: earlier declarations are done,
      the producer side of p is registered, halves i..n-1 are done and no
      other fifo of p is registered yet. */
  predicate HalvesFrom(cur: Materialized, cores: seq<Core>, decls: seq<FifoDecl>, adjacent: (Tile, Tile) -> bool,
                       p: nat, i: nat, before: set<(Tile, int)>, used: set<(Tile, int)>)
    requires p < |decls|
  {
    var d := decls[p];
    && i <= |d.consumers|
    && (forall q :: 0 <= q < p ==> DeclDone(cur, cores, decls, adjacent, q))
    && Declared(p) in cur.fifos
    && cur.fifos[Declared(p)] == FifoInfo(d.producer, d.consumers, ObjectFifoSize(cores, d.producer, Declared(p), d.size))
    && (forall j :: i <= j < |d.consumers| ==> HalfDone(cur, cores, p, d, j))
    && (forall f :: f in cur.fifos ==>
          Owner(f) < p || f == Declared(p) || (f.ConsumerHalf? && f.parent == p && i <= f.consumer))
    && (forall f :: f in cur.split ==> f.Declared? && f.index < p)
    && cur.locks.Keys == cur.fifos.Keys
    && LocksFresh(cur.fifos, cur.locks, before, used) && LocksDistinct(cur.fifos, cur.locks) && before <= used
  }

  /** Registering half i, sized on its tile, extends the visited halves. */
  lemma HalfStep(cur: Materialized, next: Materialized, cores: seq<Core>, decls: seq<FifoDecl>,
                 adjacent: (Tile, Tile) -> bool, p: nat, i: nat, before: set<(Tile, int)>, used: set<(Tile, int)>)
    requires p < |decls| && i < |decls[p].consumers|
    requires HalvesFrom(cur, cores, decls, adjacent, p, i + 1, before, used)
    requires next == Materialized(cur.fifos[ConsumerHalf(p, i) := FifoInfo(decls[p].consumers[i], [decls[p].consumers[i]],
                                    ObjectFifoSize(cores, decls[p].consumers[i], Declared(p), decls[p].size))],
                                  cur.split, next.locks)
    requires next.locks.Keys == cur.locks.Keys + {ConsumerHalf(p, i)}
    requires LocksFresh(next.fifos, next.locks, before, used) && LocksDistinct(next.fifos, next.locks) && before <= used
    ensures HalvesFrom(next, cores, decls, adjacent, p, i, before, used)
  {
    var d := decls[p];
    KeepDone(cur, next, cores, decls, adjacent, p);
    forall j | i <= j < |d.consumers|
      ensures HalfDone(next, cores, p, d, j)
    {
      if j > i {
        assert HalfDone(cur, cores, p, d, j);
      }
    }
  }

  /** The create loop's visits to the consumer halves of declaration p. They
      sit right after it in reverse order of creation, and each is shared,
      since a tile always reaches its own memory. */
  method AddHalves(la: LockAnalysis, cores: seq<Core>, decls: seq<FifoDecl>, adjacent: (Tile, Tile) -> bool,
                   p: nat, m: Materialized, sizes: seq<nat>, ghost before: set<(Tile, int)>)
    returns (r: Result<Materialized, LockError>)
    requires forall t :: adjacent(t, t)
    requires p < |decls| && |sizes| == |decls[p].consumers|
    requires forall j :: 0 <= j < |sizes| ==>
               sizes[j] == ObjectFifoSize(cores, decls[p].consumers[j], Declared(p), decls[p].size)
    requires HalvesFrom(m, cores, decls, adjacent, p, |sizes|, before, la.used)
    modifies la
    ensures r.Success? ==> HalvesFrom(r.value, cores, decls, adjacent, p, 0, before, la.used)
    ensures r.Failure? ==> forall j :: 0 <= j < LocksPerTile ==> (r.error.tile, j) in la.used
  {
    var cur := m;
    var i: nat := |sizes|;
    while i > 0
      invariant HalvesFrom(cur, cores, decls, adjacent, p, i, before, la.used)
      decreases i
    {
      i := i - 1;
      var next := AddHalf(la, cores, decls, adjacent, p, i, cur, sizes[i], before);
      if next.Failure? {
        return next;
      }
      cur := next.value;
    }
    r := Success(cur);
  }

  /** The create loop's visit to consumer half i of declaration p: a fifo
      on the consumer's tile, sized by that tile's acquires, whose producer
      and consumer are the same tile and so always share memory. */
  method AddHalf(la: LockAnalysis, cores: seq<Core>, decls: seq<FifoDecl>, adjacent: (Tile, Tile) -> bool,
                 p: nat, i: nat, cur: Materialized, size: nat, ghost before: set<(Tile, int)>)
    returns (r: Result<Materialized, LockError>)
    requires forall t :: adjacent(t, t)
    requires p < |decls| && i < |decls[p].consumers|
    requires size == ObjectFifoSize(cores, decls[p].consumers[i], Declared(p), decls[p].size)
    requires HalvesFrom(cur, cores, decls, adjacent, p, i + 1, before, la.used)
    modifies la
    ensures r.Success? ==> HalvesFrom(r.value, cores, decls, adjacent, p, i, before, la.used)
    ensures r.Failure? ==> forall j :: 0 <= j < LocksPerTile ==> (r.error.tile, j) in la.used
  {
    var t := decls[p].consumers[i];
    var half := FifoDecl(t, [t], size, decls[p].shape);
    var halfPlan := PlanFifo(cores, ConsumerHalf(p, i), half, adjacent);
    assert adjacent(t, t);
    var info := FifoInfo(t, [t], size);
    r := AddElements(la, cur, ConsumerHalf(p, i), info, halfPlan.size, before);
    if r.Success? {
      HalfStep(cur, r.value, cores, decls, adjacent, p, i, before, la.used);
    }
  }

  /** A shared declaration registered with its declared size completes
      the first p+1 declarations. */
  lemma FinishShared(m: Materialized, m': Materialized, cores: seq<Core>, decls: seq<FifoDecl>,
                     adjacent: (Tile, Tile) -> bool, p: nat, before: set<(Tile, int)>, used: set<(Tile, int)>)
    requires p < |decls| && Progress(m, cores, decls, adjacent, p, before, used) && IsShared(decls[p], adjacent)
    requires m' == Materialized(m.fifos[Declared(p) := FifoInfo(decls[p].producer, decls[p].consumers, Max(decls[p].size, 0))],
                                m.split, m'.locks)
    requires m'.locks.Keys == m.locks.Keys + {Declared(p)}
    requires LocksFresh(m'.fifos, m'.locks, before, used) && LocksDistinct(m'.fifos, m'.locks)
    ensures Progress(m', cores, decls, adjacent, p + 1, before, used)
  {
    KeepDone(m, m', cores, decls, adjacent, p);
  }

  /** Registering the producer side of a split declaration starts the visits
      to its halves. */
  lemma StartHalves(m: Materialized, m': Materialized, cores: seq<Core>, decls: seq<FifoDecl>,
                    adjacent: (Tile, Tile) -> bool, p: nat, before: set<(Tile, int)>, used: set<(Tile, int)>)
    requires p < |decls| && Progress(m, cores, decls, adjacent, p, before, used)
    requires m' == Materialized(m.fifos[Declared(p) := FifoInfo(decls[p].producer, decls[p].consumers,
                                  ObjectFifoSize(cores, decls[p].producer, Declared(p), decls[p].size))],
                                m.split, m'.locks)
    requires m'.locks.Keys == m.locks.Keys + {Declared(p)}
    requires LocksFresh(m'.fifos, m'.locks, before, used) && LocksDistinct(m'.fifos, m'.locks)
    ensures HalvesFrom(m', cores, decls, adjacent, p, |decls[p].consumers|, before, used)
  {
    KeepDone(m, m', cores, decls, adjacent, p);
  }

  /** Once every half is visited, registering the split completes the first
      p+1 declarations. */
  lemma FinishHalves(cur: Materialized, cores: seq<Core>, decls: seq<FifoDecl>,
                     adjacent: (Tile, Tile) -> bool, p: nat, before: set<(Tile, int)>, used: set<(Tile, int)>)
    requires p < |decls| && !IsShared(decls[p], adjacent)
    requires HalvesFrom(cur, cores, decls, adjacent, p, 0, before, used)
    ensures Progress(cur.(split := cur.split[Declared(p) := HalfIds(p, |decls[p].consumers|)]),
                     cores, decls, adjacent, p + 1, before, used)
  {
    var d := decls[p];
    var done := cur.(split := cur.split[Declared(p) := HalfIds(p, |d.consumers|)]);
    KeepDone(cur, done, cores, decls, adjacent, p);
    assert DeclDone(done, cores, decls, adjacent, p) by {
      forall j | 0 <= j < |d.consumers|
        ensures HalfDone(done, cores, p, d, j)
      {
        assert HalfDone(cur, cores, p, d, j);
      }
    }
  }

  /** One iteration of the create loop, for declaration p, followed by the
      iterations over the consumer halves it inserts. */
  method MaterializeOne(la: LockAnalysis, cores: seq<Core>, decls: seq<FifoDecl>, adjacent: (Tile, Tile) -> bool,
                        p: nat, m: Materialized, ghost before: set<(Tile, int)>)
    returns (r: Result<Materialized, LockError>)
    requires forall t :: adjacent(t, t)
    requires p < |decls| && Progress(m, cores, decls, adjacent, p, before, la.used)
    modifies la
    ensures r.Success? ==> Progress(r.value, cores, decls, adjacent, p + 1, before, la.used)
    ensures r.Failure? ==> forall j :: 0 <= j < LocksPerTile ==> (r.error.tile, j) in la.used
  {
    var plan := PlanFifo(cores, Declared(p), decls[p], adjacent);
    if plan.SharedPlan? {
      r := MaterializeShared(la, cores, decls, adjacent, p, m, plan.size, before);
    } else {
      r := MaterializeSplit(la, cores, decls, adjacent, p, m, plan.producerSize, plan.halfSizes, before);
    }
  }

  /** A shared fifo keeps its declared size: one set of elements on the
      producer tile. */
  method MaterializeShared(la: LockAnalysis, cores: seq<Core>, decls: seq<FifoDecl>, adjacent: (Tile, Tile) -> bool,
                           p: nat, m: Materialized, size: int, ghost before: set<(Tile, int)>)
    returns (r: Result<Materialized, LockError>)
    requires p < |decls| && Progress(m, cores, decls, adjacent, p, before, la.used)
    requires IsShared(decls[p], adjacent) && size == decls[p].size
    modifies la
    ensures r.Success? ==> Progress(r.value, cores, decls, adjacent, p + 1, before, la.used)
    ensures r.Failure? ==> forall j :: 0 <= j < LocksPerTile ==> (r.error.tile, j) in la.used
  {
    var d := decls[p];
    var info := FifoInfo(d.producer, d.consumers, Max(size, 0));
    r := AddElements(la, m, Declared(p), info, size, before);
    if r.Success? {
      FinishShared(m, r.value, cores, decls, adjacent, p, before, la.used);
    }
  }

  /** A split fifo: the producer side sized on the producer tile, then one
      half per consumer, then the split recorded. */
  method MaterializeSplit(la: LockAnalysis, cores: seq<Core>, decls: seq<FifoDecl>, adjacent: (Tile, Tile) -> bool,
                          p: nat, m: Materialized, producerSize: nat, halfSizes: seq<nat>, ghost before: set<(Tile, int)>)
    returns (r: Result<Materialized, LockError>)
    requires forall t :: adjacent(t, t)
    requires p < |decls| && Progress(m, cores, decls, adjacent, p, before, la.used)
    requires !IsShared(decls[p], adjacent)
    requires producerSize == ObjectFifoSize(cores, decls[p].producer, Declared(p), decls[p].size)
    requires |halfSizes| == |decls[p].consumers|
    requires forall i :: 0 <= i < |halfSizes| ==>
               halfSizes[i] == ObjectFifoSize(cores, decls[p].consumers[i], Declared(p), decls[p].size)
    modifies la
    ensures r.Success? ==> Progress(r.value, cores, decls, adjacent, p + 1, before, la.used)
    ensures r.Failure? ==> forall j :: 0 <= j < LocksPerTile ==> (r.error.tile, j) in la.used
  {
    var d := decls[p];
    r := AddElements(la, m, Declared(p), FifoInfo(d.producer, d.consumers, producerSize), producerSize, before);
    if r.Failure? {
      return;
    }
    StartHalves(m, r.value, cores, decls, adjacent, p, before, la.used);
    r := AddHalves(la, cores, decls, adjacent, p, r.value, halfSizes, before);
    if r.Failure? {
      return;
    }
    FinishHalves(r.value, cores, decls, adjacent, p, before, la.used);
    r := Success(r.value.(split := r.value.split[Declared(p) := HalfIds(p, |d.consumers|)]));
  }

  /** The create loop over every declared fifo. On success each declaration
      is shared or split as the create loop decides, with the sizes it
      computes, and every element has its own fresh lock on its tile; a
      failure means every lock of the failing tile was taken. */
  method MaterializeFifos(la: LockAnalysis, cores: seq<Core>, decls: seq<FifoDecl>, adjacent: (Tile, Tile) -> bool)
    returns (r: Result<Materialized, LockError>)
    requires forall t :: adjacent(t, t)
    modifies la
    ensures r.Success? ==> Progress(r.value, cores, decls, adjacent, |decls|, old(la.used), la.used)
    ensures r.Failure? ==> forall j :: 0 <= j < LocksPerTile ==> (r.error.tile, j) in la.used
  {
    ghost var before := la.used;
    var m := Materialized(map[], map[], map[]);
    for p := 0 to |decls|
      invariant Progress(m, cores, decls, adjacent, p, before, la.used)
    {
      var next := MaterializeOne(la, cores, decls, adjacent, p, m, before);
      if next.Failure? {
        return next;
      }
      m := next.value;
    }
    r := Success(m);
  }

  /** After the create loop the tables are what the core rewrite needs: each
      split fifo lists one known half per consumer, on that consumer's tile. */
  lemma MaterializedTables(m: Materialized, cores: seq<Core>, decls: seq<FifoDecl>, adjacent: (Tile, Tile) -> bool,
                           before: set<(Tile, int)>, used: set<(Tile, int)>)
    requires Progress(m, cores, decls, adjacent, |decls|, before, used)
    ensures TablesWellFormed(m.fifos, m.split)
    ensures forall f :: f in m.split ==> HalvesMatchConsumers(m.fifos, m.fifos[f], m.split[f])
  {
    forall f | f in m.split
      ensures f in m.fifos && HalvesMatchConsumers(m.fifos, m.fifos[f], m.split[f])
    {
      var q := f.index;
      var d := decls[q];
      assert DeclDone(m, cores, decls, adjacent, q);
      assert !IsShared(d, adjacent);
      forall i | 0 <= i < |d.consumers|
        ensures m.split[f][i] in m.fifos
        ensures m.fifos[m.split[f][i]].producer == d.consumers[i]
        ensures m.fifos[m.split[f][i]].consumers == [d.consumers[i]]
      {
        assert HalfDone(m, cores, q, d, i);
      }
    }
  }

  /** End to end: once a split fifo is materialised, a core on `tile` that
      consumes it passes the port check after the redirection exactly when
      `tile` is one of the fifo's declared consumers. */
  lemma SplitFifoConsumers(m: Materialized, cores: seq<Core>, decls: seq<FifoDecl>, adjacent: (Tile, Tile) -> bool,
                           before: set<(Tile, int)>, used: set<(Tile, int)>, q: nat, tile: Tile)
    requires Progress(m, cores, decls, adjacent, |decls|, before, used)
    requires q < |decls| && !IsShared(decls[q], adjacent)
    ensures Declared(q) in m.split && TablesWellFormed(m.fifos, m.split)
    ensures PortMatches(m.fifos[ResolveFifo(m.fifos, m.split, Declared(q), Consume, tile)], Consume, tile)
        <==> tile in decls[q].consumers
  {
    assert DeclDone(m, cores, decls, adjacent, q);
    MaterializedTables(m, cores, decls, adjacent, before, used);
    SplitConsumePassesIffConsumer(m.fifos, m.split, Declared(q), tile);
  }

  // ---------------------------------------------------------------------
  // Tile DMAs and multicast for the split fifos

  /** A DMA start on `tile` for `fifo`, on `channel`, running `chain`. */
  datatype TileDma = TileDma(fifo: FifoId, tile: Tile, channel: DmaChan, chain: ChainResult)

  /** One split fifo's wiring: the producer tile's sending DMA, multicast on
      that channel's port, and each consumer half's receiving DMA, which is
      also a multicast destination (its tile, its channel's port). */
  datatype SplitWiring = SplitWiring(source: TileDma, dests: seq<TileDma>)

  /** Fatal assertions of the wiring: a tile with no free channel in the
      needed direction, or a fifo too deep for one chain. */
  datatype WiringError = NoMasterChannel(tile: Tile) | NoSlaveChannel(tile: Tile) | ChainTooLong(fifo: FifoId)

  /** The destinations the multicast lists: tile and port of each receiver. */
  function Destinations(w: SplitWiring): (r: seq<(Tile, nat)>)
    ensures |r| == |w.dests|
    ensures forall j :: 0 <= j < |r| ==> r[j] == (w.dests[j].tile, ChannelToPortNum(w.dests[j].channel))
  {
    seq(|w.dests|, j requires 0 <= j < |w.dests| => (w.dests[j].tile, ChannelToPortNum(w.dests[j].channel)))
  }

  /** A DMA start for an `n`-element fifo: none for an empty fifo, else a
      ring of n blocks on `channel` in the given lock mode. */
  ghost predicate ChainFor(c: ChainResult, channel: DmaChan, n: nat, lockMode: int, len: int) {
    if n == 0 then c == NoChain
    else c.Chain? && c.channel == channel && |c.blocks| == n && IsRing(c.blocks, lockMode, len)
  }

  /** The DMA the wiring sets up for `fifo`: on the fifo's own tile, on a
      channel of the right direction, with the fifo's chain. */
  ghost predicate DmaFor(x: TileDma, m: Materialized, fifo: FifoId, master: bool, len: int)
    requires fifo in m.fifos
  {
    && x.fifo == fifo && x.tile == m.fifos[fifo].producer
    && IsMaster(x.channel) == master
    && ChainFor(x.chain, x.channel, m.fifos[fifo].depth, if master then 0 else 1, len)
  }

  /** The wiring of split fifo `parent` with element length `len`. */
  ghost predicate WiredAs(w: SplitWiring, m: Materialized, parent: FifoId, len: int)
    requires TablesWellFormed(m.fifos, m.split) && parent in m.split
  {
    && DmaFor(w.source, m, parent, true, len)
    && |w.dests| == |m.split[parent]|
    && forall j :: 0 <= j < |w.dests| ==> DmaFor(w.dests[j], m, m.split[parent][j], false, len)
  }

  /** The split fifos among the first n declarations, in declaration order. */
  function SplitParents(m: Materialized, n: nat): (r: seq<FifoId>)
    ensures forall a :: 0 <= a < |r| ==> r[a] in m.split && r[a].Declared? && r[a].index < n
  {
    if n == 0 then []
    else SplitParents(m, n - 1) + (if Declared(n - 1) in m.split then [Declared(n - 1)] else [])
  }

  /** All receiving DMAs of a wiring sequence, in creation order. */
  function AllDests(ws: seq<SplitWiring>): seq<TileDma> {
    if ws == [] then [] else AllDests(ws[..|ws| - 1]) + ws[|ws| - 1].dests
  }

  /** No tile uses one channel for two of the given DMA starts. */
  predicate ChannelsDistinct(xs: seq<TileDma>) {
    forall a, b :: 0 <= a < b < |xs| && xs[a].tile == xs[b].tile ==> xs[a].channel != xs[b].channel
  }

  function Sources(ws: seq<SplitWiring>): (r: seq<TileDma>)
    ensures |r| == |ws| && forall a :: 0 <= a < |ws| ==> r[a] == ws[a].source
  {
    seq(|ws|, a requires 0 <= a < |ws| => ws[a].source)
  }

  /** The DMA starts in `xs` hold channels numbered from `from` (the
      channels in use before the pass) up to the analysis's count now. */
  predicate PortsIn(xs: seq<TileDma>, from: map<Tile, int>, now: map<Tile, int>) {
    forall a :: 0 <= a < |xs| ==>
      InUse(from, xs[a].tile) <= ChannelToPortNum(xs[a].channel) < InUse(now, xs[a].tile)
  }

  /** How many of the fifos `fs` live on `tile`; each takes one channel there. */
  function OnTile(m: Materialized, fs: seq<FifoId>, tile: Tile): nat
    requires HalvesKnown(m.fifos, fs)
  {
    if fs == [] then 0
    else OnTile(m, fs[..|fs| - 1], tile) + (if m.fifos[fs[|fs| - 1]].producer == tile then 1 else 0)
  }

  /** Every fifo of `fs` is shallow enough for one descriptor chain. */
  predicate ChainsFit(m: Materialized, fs: seq<FifoId>)
    requires HalvesKnown(m.fifos, fs)
  {
    forall j :: 0 <= j < |fs| ==> m.fifos[fs[j]].depth <= MaxBlocks
  }

  /** Wiring sending DMAs for `senders` and receiving DMAs for `receivers`,
      starting from the channel counts `master` and `slave`, meets none of
      the fatal assertions: no tile needs a third channel of a direction and
      every chain fits. */
  ghost predicate WiringFits(m: Materialized, senders: seq<FifoId>, receivers: seq<FifoId>,
                             master: map<Tile, int>, slave: map<Tile, int>)
    requires HalvesKnown(m.fifos, senders) && HalvesKnown(m.fifos, receivers)
  {
    && ChainsFit(m, senders) && ChainsFit(m, receivers)
    && (forall t :: InUse(master, t) + OnTile(m, senders, t) <= 2)
    && (forall t :: InUse(slave, t) + OnTile(m, receivers, t) <= 2)
  }

  /** The error names a tile that would need a third channel of the
      direction, or one of the fifos that is too deep for a chain. */
  ghost predicate WiringErrorFor(m: Materialized, senders: seq<FifoId>, receivers: seq<FifoId>,
                                 master: map<Tile, int>, slave: map<Tile, int>, e: WiringError)
    requires HalvesKnown(m.fifos, senders) && HalvesKnown(m.fifos, receivers)
  {
    match e
    case NoMasterChannel(t) => InUse(master, t) + OnTile(m, senders, t) > 2
    case NoSlaveChannel(t) => InUse(slave, t) + OnTile(m, receivers, t) > 2
    case ChainTooLong(f) => (f in senders || f in receivers) && f in m.fifos && m.fifos[f].depth > MaxBlocks
  }

  /** Each tile's channel count went from `before` to `now` by one per
      fifo of `fs` on it. */
  ghost predicate CountsGrow(m: Materialized, fs: seq<FifoId>, before: map<Tile, int>, now: map<Tile, int>)
    requires HalvesKnown(m.fifos, fs)
  {
    forall t :: InUse(now, t) == InUse(before, t) + OnTile(m, fs, t)
  }

  lemma {:induction false} OnTileAppend(m: Materialized, a: seq<FifoId>, b: seq<FifoId>, tile: Tile)
    requires HalvesKnown(m.fifos, a) && HalvesKnown(m.fifos, b)
    ensures HalvesKnown(m.fifos, a + b)
    ensures OnTile(m, a + b, tile) == OnTile(m, a, tile) + OnTile(m, b, tile)
    decreases |b|
  {
    if b == [] {
      assert a + b == a;
    } else {
      assert (a + b)[..|a + b| - 1] == a + b[..|b| - 1];
      OnTileAppend(m, a, b[..|b| - 1], tile);
    }
  }

  /** One fifo that finds both channels of its tile taken means the wiring
      needs a third channel there. */
  lemma Overflow(m: Materialized, fs: seq<FifoId>, j: nat, before: map<Tile, int>, now: map<Tile, int>)
    requires HalvesKnown(m.fifos, fs) && j < |fs|
    requires CountsGrow(m, fs[..j], before, now)
    requires InUse(now, m.fifos[fs[j]].producer) >= 2
    ensures InUse(before, m.fifos[fs[j]].producer) + OnTile(m, fs, m.fifos[fs[j]].producer) > 2
  {
    var t := m.fifos[fs[j]].producer;
    assert fs[..j + 1][..j] == fs[..j];
    OnTileAppend(m, fs[..j + 1], fs[j + 1..], t);
    assert fs[..j + 1] + fs[j + 1..] == fs;
  }

  /** Counts that stay within two channels after wiring mean the wiring fits. */
  lemma CountsWithin(m: Materialized, fs: seq<FifoId>, before: map<Tile, int>, now: map<Tile, int>)
    requires HalvesKnown(m.fifos, fs)
    requires CountsGrow(m, fs, before, now)
    requires forall t :: t in now ==> 0 <= now[t] <= 1
    ensures forall t :: InUse(before, t) + OnTile(m, fs, t) <= 2
  {
    forall t
      ensures InUse(before, t) + OnTile(m, fs, t) <= 2
    {
      assert InUse(now, t) <= 2;
    }
  }

  /** Taking the next channel for fifo x adds it to the tile's count. */
  lemma CountStep(m: Materialized, fs: seq<FifoId>, j: nat, before: map<Tile, int>, now: map<Tile, int>,
                  now': map<Tile, int>)
    requires HalvesKnown(m.fifos, fs) && j < |fs|
    requires CountsGrow(m, fs[..j], before, now)
    requires now' == now[m.fifos[fs[j]].producer := InUse(now, m.fifos[fs[j]].producer)]
    ensures CountsGrow(m, fs[..j + 1], before, now')
  {
    assert fs[..j + 1][..j] == fs[..j];
  }

  /** Channels with the same direction and port are the same channel. */
  lemma PortIdentifiesChannel(x: DmaChan, y: DmaChan)
    requires IsMaster(x) == IsMaster(y) && ChannelToPortNum(x) == ChannelToPortNum(y)
    ensures x == y
  {
  }

  /** Appending a DMA start whose port is the tile's current count keeps
      ports within range and channels distinct, given the count then grows. */
  lemma {:induction false} AppendDma(xs: seq<TileDma>, x: TileDma, from: map<Tile, int>, now: map<Tile, int>,
                                     now': map<Tile, int>, master: bool)
    requires PortsIn(xs, from, now) && ChannelsDistinct(xs)
    requires forall a :: 0 <= a < |xs| ==> IsMaster(xs[a].channel) == master
    requires IsMaster(x.channel) == master
    requires InUse(from, x.tile) <= InUse(now, x.tile) == ChannelToPortNum(x.channel)
    requires now' == now[x.tile := InUse(now, x.tile)]
    ensures PortsIn(xs + [x], from, now') && ChannelsDistinct(xs + [x])
  {
    var ys := xs + [x];
    forall a | 0 <= a < |ys|
      ensures InUse(from, ys[a].tile) <= ChannelToPortNum(ys[a].channel) < InUse(now', ys[a].tile)
    {
      if a < |xs| && xs[a].tile == x.tile {
        assert InUse(now', x.tile) == InUse(now, x.tile) + 1;
      }
    }
    forall a, b | 0 <= a < b < |ys| && ys[a].tile == ys[b].tile
      ensures ys[a].channel != ys[b].channel
    {
      if b == |xs| {
        assert ChannelToPortNum(ys[a].channel) < ChannelToPortNum(x.channel);
      }
    }
  }

  /** The receiving side of one split fifo: for each consumer half in
      order, a slave channel on its tile and the chain filling its elements.
      The channels add to those `received` already holds, without clashing. */
  method WireReceivers(dma: DmaChannelAnalysis, m: Materialized, halves: seq<FifoId>, len: int,
                       ghost start: map<Tile, int>, ghost received: seq<TileDma>)
    returns (r: Result<seq<TileDma>, WiringError>)
    requires dma.Valid() && HalvesKnown(m.fifos, halves)
    requires PortsIn(received, start, dma.slave) && ChannelsDistinct(received)
    requires forall a :: 0 <= a < |received| ==> !IsMaster(received[a].channel)
    requires forall t :: InUse(start, t) <= InUse(dma.slave, t)
    modifies dma
    ensures dma.Valid() && dma.master == old(dma.master)
    ensures forall t :: InUse(old(dma.slave), t) <= InUse(dma.slave, t)
    ensures r.Success? <==> WiringFits(m, [], halves, old(dma.master), old(dma.slave))
    ensures r.Failure? ==> !r.error.NoMasterChannel? && WiringErrorFor(m, [], halves, old(dma.master), old(dma.slave), r.error)
    ensures r.Success? ==> CountsGrow(m, halves, old(dma.slave), dma.slave)
    ensures r.Success? ==> |r.value| == |halves|
    ensures r.Success? ==> forall j :: 0 <= j < |halves| ==> DmaFor(r.value[j], m, halves[j], false, len)
    ensures r.Success? ==> PortsIn(received + r.value, start, dma.slave) && ChannelsDistinct(received + r.value)
  {
    var dests: seq<TileDma> := [];
    assert received + dests == received;
    assert halves[..0] == [];
    for j := 0 to |halves|
      invariant dma.Valid() && dma.master == old(dma.master)
      invariant ReceiversSoFar(m, halves, j, len, start, received, dests, old(dma.slave), dma.slave)
    {
      var x := WireNextReceiver(dma, m, halves, j, len, start, received, dests, old(dma.slave));
      if x.Failure? {
        return Failure(x.error);
      }
      dests := dests + [x.value];
    }
    ReceiversDone(m, halves, len, start, received, dests, dma.master, old(dma.slave), dma.slave);
    r := Success(dests);
  }

  /** The facts WireReceivers keeps after the receivers of the first j
      halves (`dests`) are set up. */
  ghost predicate ReceiversSoFar(m: Materialized, halves: seq<FifoId>, j: nat, len: int, start: map<Tile, int>,
                                 received: seq<TileDma>, dests: seq<TileDma>, slave0: map<Tile, int>,
                                 slave: map<Tile, int>)
    requires HalvesKnown(m.fifos, halves)
  {
    && j <= |halves| && |dests| == j
    && (forall k :: 0 <= k < j ==> DmaFor(dests[k], m, halves[k], false, len))
    && (forall k :: 0 <= k < j ==> m.fifos[halves[k]].depth <= MaxBlocks)
    && PortsIn(received + dests, start, slave) && ChannelsDistinct(received + dests)
    && (forall a :: 0 <= a < |received + dests| ==> !IsMaster((received + dests)[a].channel))
    && (forall t :: InUse(start, t) <= InUse(slave, t))
    && (forall t :: InUse(slave0, t) <= InUse(slave, t))
    && CountsGrow(m, halves[..j], slave0, slave)
  }

  /** After the last half the receivers fit and the counts grew by them. */
  lemma ReceiversDone(m: Materialized, halves: seq<FifoId>, len: int, start: map<Tile, int>,
                      received: seq<TileDma>, dests: seq<TileDma>, master: map<Tile, int>,
                      slave0: map<Tile, int>, slave: map<Tile, int>)
    requires HalvesKnown(m.fifos, halves)
    requires ReceiversSoFar(m, halves, |halves|, len, start, received, dests, slave0, slave)
    requires forall t :: t in master ==> 0 <= master[t] <= 1
    requires forall t :: t in slave ==> 0 <= slave[t] <= 1
    ensures WiringFits(m, [], halves, master, slave0)
    ensures CountsGrow(m, halves, slave0, slave)
  {
    assert halves[..|halves|] == halves;
    CountsWithin(m, halves, slave0, slave);
    forall t
      ensures InUse(master, t) + OnTile(m, [], t) <= 2
    {
    }
  }

  /** One iteration of WireReceivers: the receiving DMA of the j-th half,
      keeping the loop's facts, or a failure of the whole list. */
  method WireNextReceiver(dma: DmaChannelAnalysis, m: Materialized, halves: seq<FifoId>, j: nat, len: int,
                          ghost start: map<Tile, int>, ghost received: seq<TileDma>, ghost dests: seq<TileDma>,
                          ghost slave0: map<Tile, int>)
    returns (r: Result<TileDma, WiringError>)
    requires dma.Valid() && HalvesKnown(m.fifos, halves) && j < |halves|
    requires ReceiversSoFar(m, halves, j, len, start, received, dests, slave0, dma.slave)
    modifies dma
    ensures dma.Valid() && dma.master == old(dma.master)
    ensures forall t :: InUse(slave0, t) <= InUse(dma.slave, t)
    ensures r.Failure? ==> !WiringFits(m, [], halves, dma.master, slave0)
    ensures r.Failure? ==> !r.error.NoMasterChannel? && WiringErrorFor(m, [], halves, dma.master, slave0, r.error)
    ensures r.Success? ==> ReceiversSoFar(m, halves, j + 1, len, start, received, dests + [r.value], slave0, dma.slave)
  {
    ghost var slaveBefore := dma.slave;
    r := WireReceiver(dma, m, halves[j], len);
    if r.Failure? {
      ReceiverFailure(m, halves, j, slave0, slaveBefore, dma.master, r.error);
      return;
    }
    ReceiverAdvance(m, halves, j, received, dests, r.value, start, slave0, slaveBefore, dma.slave);
  }

  /** The loop facts of WireReceivers carry over to the next receiver. */
  lemma ReceiverAdvance(m: Materialized, halves: seq<FifoId>, j: nat, received: seq<TileDma>, dests: seq<TileDma>,
                        x: TileDma, start: map<Tile, int>, slave0: map<Tile, int>, now: map<Tile, int>,
                        now': map<Tile, int>)
    requires HalvesKnown(m.fifos, halves) && j < |halves|
    requires PortsIn(received + dests, start, now) && ChannelsDistinct(received + dests)
    requires forall a :: 0 <= a < |received + dests| ==> !IsMaster((received + dests)[a].channel)
    requires forall t :: InUse(start, t) <= InUse(now, t)
    requires forall t :: InUse(slave0, t) <= InUse(now, t)
    requires CountsGrow(m, halves[..j], slave0, now)
    requires x.tile == m.fifos[halves[j]].producer
    requires !IsMaster(x.channel) && InUse(now, x.tile) == ChannelToPortNum(x.channel)
    requires now' == now[x.tile := InUse(now, x.tile)]
    ensures PortsIn(received + (dests + [x]), start, now') && ChannelsDistinct(received + (dests + [x]))
    ensures forall a :: 0 <= a < |received + (dests + [x])| ==> !IsMaster((received + (dests + [x]))[a].channel)
    ensures forall t :: InUse(start, t) <= InUse(now', t)
    ensures forall t :: InUse(slave0, t) <= InUse(now', t)
    ensures CountsGrow(m, halves[..j + 1], slave0, now')
  {
    CountStep(m, halves, j, slave0, now, now');
    ReceiverStep(received + dests, x, start, now, now');
    assert received + (dests + [x]) == (received + dests) + [x];
    forall t
      ensures InUse(slave0, t) <= InUse(now', t)
    {
      assert InUse(slave0, t) <= InUse(now, t);
    }
  }

  /** The failure of the j-th receiver is a failure of the whole list. */
  lemma ReceiverFailure(m: Materialized, halves: seq<FifoId>, j: nat, slave0: map<Tile, int>, now: map<Tile, int>,
                        master: map<Tile, int>, e: WiringError)
    requires HalvesKnown(m.fifos, halves) && j < |halves|
    requires CountsGrow(m, halves[..j], slave0, now)
    requires e == (if InUse(now, m.fifos[halves[j]].producer) >= 2 then NoSlaveChannel(m.fifos[halves[j]].producer)
                   else ChainTooLong(halves[j]))
    requires InUse(now, m.fifos[halves[j]].producer) < 2 ==> m.fifos[halves[j]].depth > MaxBlocks
    ensures !WiringFits(m, [], halves, master, slave0) && WiringErrorFor(m, [], halves, master, slave0, e)
  {
    if InUse(now, m.fifos[halves[j]].producer) >= 2 {
      Overflow(m, halves, j, slave0, now);
    }
  }

  /** The receiving DMA of one consumer half: a slave channel on the half's
      tile, then the chain filling its elements; the channel stays taken
      even when the chain is too long. */
  method WireReceiver(dma: DmaChannelAnalysis, m: Materialized, half: FifoId, len: int)
    returns (r: Result<TileDma, WiringError>)
    requires dma.Valid() && half in m.fifos
    modifies dma
    ensures dma.Valid() && dma.master == old(dma.master)
    ensures forall t :: InUse(old(dma.slave), t) <= InUse(dma.slave, t)
    ensures r.Success? <==> old(InUse(dma.slave, m.fifos[half].producer)) < 2 && m.fifos[half].depth <= MaxBlocks
    ensures r.Failure? ==> r.error == (if old(InUse(dma.slave, m.fifos[half].producer)) >= 2
                                       then NoSlaveChannel(m.fifos[half].producer) else ChainTooLong(half))
    ensures r.Success? ==>
      && DmaFor(r.value, m, half, false, len)
      && InUse(old(dma.slave), r.value.tile) == ChannelToPortNum(r.value.channel)
      && dma.slave == old(dma.slave)[r.value.tile := InUse(old(dma.slave), r.value.tile)]
  {
    var hinfo := m.fifos[half];
    var consumerChan := dma.GetSlaveDmaChannel(hinfo.producer);
    if consumerChan.None? {
      return Failure(NoSlaveChannel(hinfo.producer));
    }
    var receiving := CreateDma(hinfo.depth, consumerChan.value, 1, len);
    if receiving.TooManyBlocks? {
      return Failure(ChainTooLong(half));
    }
    r := Success(TileDma(half, hinfo.producer, consumerChan.value, receiving));
  }

  /** Adding one receiving DMA on the next slave channel of its tile keeps
      the receivers' channels in range, distinct and all slave channels. */
  lemma ReceiverStep(xs: seq<TileDma>, x: TileDma, start: map<Tile, int>, now: map<Tile, int>, now': map<Tile, int>)
    requires PortsIn(xs, start, now) && ChannelsDistinct(xs)
    requires forall a :: 0 <= a < |xs| ==> !IsMaster(xs[a].channel)
    requires forall t :: InUse(start, t) <= InUse(now, t)
    requires !IsMaster(x.channel) && InUse(now, x.tile) == ChannelToPortNum(x.channel)
    requires now' == now[x.tile := InUse(now, x.tile)]
    ensures PortsIn(xs + [x], start, now') && ChannelsDistinct(xs + [x])
    ensures forall a :: 0 <= a < |xs + [x]| ==> !IsMaster((xs + [x])[a].channel)
    ensures forall t :: InUse(now, t) <= InUse(now', t) && InUse(start, t) <= InUse(now', t)
  {
    AppendDma(xs, x, start, now, now', false);
  }

  /** Sets up one split fifo: the sending DMA on a master channel of the
      producer tile, the multicast on that channel's port, then the
      receiving DMAs of its halves. */
  method WireSplitFifo(dma: DmaChannelAnalysis, m: Materialized, parent: FifoId, len: int,
                       ghost start: map<Tile, int>, ghost received: seq<TileDma>)
    returns (r: Result<SplitWiring, WiringError>)
    requires dma.Valid() && TablesWellFormed(m.fifos, m.split) && parent in m.split
    requires PortsIn(received, start, dma.slave) && ChannelsDistinct(received)
    requires forall a :: 0 <= a < |received| ==> !IsMaster(received[a].channel)
    requires forall t :: InUse(start, t) <= InUse(dma.slave, t)
    modifies dma
    ensures dma.Valid()
    ensures forall t :: InUse(old(dma.slave), t) <= InUse(dma.slave, t)
    ensures HalvesKnown(m.fifos, [parent])
    ensures r.Success? <==> WiringFits(m, [parent], m.split[parent], old(dma.master), old(dma.slave))
    ensures r.Failure? ==> WiringErrorFor(m, [parent], m.split[parent], old(dma.master), old(dma.slave), r.error)
    ensures r.Success? ==> CountsGrow(m, [parent], old(dma.master), dma.master)
    ensures r.Success? ==> CountsGrow(m, m.split[parent], old(dma.slave), dma.slave)
    ensures r.Success? ==> WiredAs(r.value, m, parent, len)
    ensures r.Success? ==> InUse(old(dma.master), r.value.source.tile) == ChannelToPortNum(r.value.source.channel)
    ensures r.Success? ==> dma.master == old(dma.master)[r.value.source.tile := InUse(old(dma.master), r.value.source.tile)]
    ensures r.Success? ==> PortsIn(received + r.value.dests, start, dma.slave) && ChannelsDistinct(received + r.value.dests)
  {
    var info := m.fifos[parent];
    SingleSender(m, parent);
    var producerChan := dma.GetMasterDmaChannel(info.producer);
    if producerChan.None? {
      return Failure(NoMasterChannel(info.producer));
    }
    var sending := CreateDma(info.depth, producerChan.value, 0, len);
    if sending.TooManyBlocks? {
      return Failure(ChainTooLong(parent));
    }
    var source := TileDma(parent, info.producer, producerChan.value, sending);
    var dests := WireReceivers(dma, m, m.split[parent], len, start, received);
    if dests.Failure? {
      return Failure(dests.error);
    }
    r := Success(SplitWiring(source, dests.value));
  }

  /** A single sender takes one channel on its own tile. */
  lemma SingleSender(m: Materialized, f: FifoId)
    requires f in m.fifos
    ensures HalvesKnown(m.fifos, [f])
    ensures forall t :: OnTile(m, [f], t) == if m.fifos[f].producer == t then 1 else 0
    ensures ChainsFit(m, [f]) <==> m.fifos[f].depth <= MaxBlocks
  {
    assert [f][..0] == [];
  }

  /** The wirings of the split fifos among the first q declarations. */
  ghost predicate WiredUpTo(ws: seq<SplitWiring>, m: Materialized, decls: seq<FifoDecl>, q: nat)
    requires TablesWellFormed(m.fifos, m.split)
    requires forall f :: f in m.split ==> f.Declared? && f.index < |decls|
  {
    && |ws| == |SplitParents(m, q)|
    && forall a :: 0 <= a < |ws| ==>
         var parent := SplitParents(m, q)[a];
         WiredAs(ws[a], m, parent, Product(decls[parent.index].shape))
  }

  /** The channels of the wirings made so far: senders on master channels,
      receivers on slave channels, none used twice on a tile and none in
      use before the pass (counts `master0` and `slave0`). */
  ghost predicate ChannelsFresh(ws: seq<SplitWiring>, master0: map<Tile, int>, slave0: map<Tile, int>,
                          master: map<Tile, int>, slave: map<Tile, int>)
  {
    && ChannelsDistinct(Sources(ws)) && PortsIn(Sources(ws), master0, master)
    && ChannelsDistinct(AllDests(ws)) && PortsIn(AllDests(ws), slave0, slave)
    && (forall a :: 0 <= a < |ws| ==> IsMaster(ws[a].source.channel))
    && (forall a :: 0 <= a < |AllDests(ws)| ==> !IsMaster(AllDests(ws)[a].channel))
    && (forall t :: InUse(master0, t) <= InUse(master, t))
    && (forall t :: InUse(slave0, t) <= InUse(slave, t))
  }

  lemma WiredStep(ws: seq<SplitWiring>, w: SplitWiring, m: Materialized, decls: seq<FifoDecl>, q: nat)
    requires TablesWellFormed(m.fifos, m.split)
    requires forall f :: f in m.split ==> f.Declared? && f.index < |decls|
    requires q < |decls| && WiredUpTo(ws, m, decls, q)
    requires Declared(q) in m.split ==> WiredAs(w, m, Declared(q), Product(decls[q].shape))
    ensures Declared(q) in m.split ==> WiredUpTo(ws + [w], m, decls, q + 1)
    ensures Declared(q) !in m.split ==> WiredUpTo(ws, m, decls, q + 1)
  {
    assert SplitParents(m, q + 1) == SplitParents(m, q) + (if Declared(q) in m.split then [Declared(q)] else []);
  }

  lemma {:induction false} ChannelsStep(ws: seq<SplitWiring>, w: SplitWiring, master0: map<Tile, int>, slave0: map<Tile, int>,
                                        master: map<Tile, int>, slave: map<Tile, int>,
                                        master': map<Tile, int>, slave': map<Tile, int>)
    requires ChannelsFresh(ws, master0, slave0, master, slave)
    requires IsMaster(w.source.channel) && InUse(master, w.source.tile) == ChannelToPortNum(w.source.channel)
    requires master' == master[w.source.tile := InUse(master, w.source.tile)]
    requires forall j :: 0 <= j < |w.dests| ==> !IsMaster(w.dests[j].channel)
    requires PortsIn(AllDests(ws) + w.dests, slave0, slave') && ChannelsDistinct(AllDests(ws) + w.dests)
    requires forall t :: InUse(slave, t) <= InUse(slave', t)
    ensures ChannelsFresh(ws + [w], master0, slave0, master', slave')
  {
    SourcesStep(ws, w, master0, master, master');
    DestsStep(ws, w);
    forall t
      ensures InUse(slave0, t) <= InUse(slave', t)
    {
      assert InUse(slave0, t) <= InUse(slave, t);
    }
  }

  /** The sending side of ChannelsStep: one more sender, on the next master
      channel of its tile. */
  lemma SourcesStep(ws: seq<SplitWiring>, w: SplitWiring, master0: map<Tile, int>, master: map<Tile, int>,
                    master': map<Tile, int>)
    requires ChannelsDistinct(Sources(ws)) && PortsIn(Sources(ws), master0, master)
    requires forall a :: 0 <= a < |ws| ==> IsMaster(ws[a].source.channel)
    requires forall t :: InUse(master0, t) <= InUse(master, t)
    requires IsMaster(w.source.channel) && InUse(master, w.source.tile) == ChannelToPortNum(w.source.channel)
    requires master' == master[w.source.tile := InUse(master, w.source.tile)]
    ensures ChannelsDistinct(Sources(ws + [w])) && PortsIn(Sources(ws + [w]), master0, master')
    ensures forall a :: 0 <= a < |ws + [w]| ==> IsMaster((ws + [w])[a].source.channel)
    ensures forall t :: InUse(master0, t) <= InUse(master', t)
  {
    assert Sources(ws + [w]) == Sources(ws) + [w.source];
    AppendDma(Sources(ws), w.source, master0, master, master', true);
    forall t
      ensures InUse(master0, t) <= InUse(master', t)
    {
      assert InUse(master0, t) <= InUse(master, t);
    }
  }

  /** The receiving side of ChannelsStep: the receivers are those before
      followed by the new ones, all on slave channels. */
  lemma DestsStep(ws: seq<SplitWiring>, w: SplitWiring)
    requires forall a :: 0 <= a < |AllDests(ws)| ==> !IsMaster(AllDests(ws)[a].channel)
    requires forall j :: 0 <= j < |w.dests| ==> !IsMaster(w.dests[j].channel)
    ensures AllDests(ws + [w]) == AllDests(ws) + w.dests
    ensures forall a :: 0 <= a < |AllDests(ws + [w])| ==> !IsMaster(AllDests(ws + [w])[a].channel)
  {
    assert (ws + [w])[..|ws|] == ws;
    var all := AllDests(ws) + w.dests;
    forall a | 0 <= a < |all|
      ensures !IsMaster(all[a].channel)
    {
      if a >= |AllDests(ws)| {
        assert all[a] == w.dests[a - |AllDests(ws)|];
      }
    }
  }

  /** The wiring loop over the split fifos (taken in declaration order):
      every split fifo gets its sending DMA, multicast and receiving DMAs,
      and no tile gets one channel twice or a channel already in use. */
  method WireSplitFifos(dma: DmaChannelAnalysis, m: Materialized, decls: seq<FifoDecl>)
    returns (r: Result<seq<SplitWiring>, WiringError>)
    requires dma.Valid() && TablesWellFormed(m.fifos, m.split)
    requires forall f :: f in m.split ==> f.Declared? && f.index < |decls|
    modifies dma
    ensures dma.Valid()
    ensures HalvesKnown(m.fifos, SplitParents(m, |decls|)) && HalvesKnown(m.fifos, HalvesOf(m, SplitParents(m, |decls|)))
    ensures var senders := SplitParents(m, |decls|);
      r.Success? <==> WiringFits(m, senders, HalvesOf(m, senders), old(dma.master), old(dma.slave))
    ensures var senders := SplitParents(m, |decls|);
      r.Failure? ==> WiringErrorFor(m, senders, HalvesOf(m, senders), old(dma.master), old(dma.slave), r.error)
    ensures r.Success? ==> WiredCounts(m, |decls|, old(dma.master), old(dma.slave), dma.master, dma.slave)
    ensures r.Success? ==> WiredUpTo(r.value, m, decls, |decls|)
    ensures r.Success? ==> ChannelsFresh(r.value, old(dma.master), old(dma.slave), dma.master, dma.slave)
  {
    ghost var master0, slave0 := dma.master, dma.slave;
    var ws: seq<SplitWiring> := [];
    for q := 0 to |decls|
      invariant dma.Valid()
      invariant WiredUpTo(ws, m, decls, q)
      invariant ChannelsFresh(ws, master0, slave0, dma.master, dma.slave)
      invariant WiredCounts(m, q, master0, slave0, dma.master, dma.slave)
    {
      if Declared(q) in m.split {
        var w := WireDeclared(dma, m, decls, q, ws, master0, slave0);
        if w.Failure? {
          return Failure(w.error);
        }
        ws := ws + [w.value];
      } else {
        SkipStep(m, q, master0, slave0, dma.master, dma.slave);
        WiredStep(ws, SplitWiring(TileDma(Declared(q), 0, MM2S0, NoChain), []), m, decls, q);
      }
    }
    WiredWithin(m, |decls|, master0, slave0, dma.master, dma.slave);
    r := Success(ws);
  }

  /** One iteration of the wiring loop, for the split fifo of declaration
      q: on success the wirings, channels and counts extend to q + 1; a
      failure is a failure of the whole wiring. */
  method WireDeclared(dma: DmaChannelAnalysis, m: Materialized, decls: seq<FifoDecl>, q: nat,
                      ghost ws: seq<SplitWiring>, ghost master0: map<Tile, int>, ghost slave0: map<Tile, int>)
    returns (r: Result<SplitWiring, WiringError>)
    requires dma.Valid() && TablesWellFormed(m.fifos, m.split)
    requires forall f :: f in m.split ==> f.Declared? && f.index < |decls|
    requires q < |decls| && Declared(q) in m.split
    requires WiredUpTo(ws, m, decls, q)
    requires ChannelsFresh(ws, master0, slave0, dma.master, dma.slave)
    requires WiredCounts(m, q, master0, slave0, dma.master, dma.slave)
    modifies dma
    ensures dma.Valid()
    ensures HalvesKnown(m.fifos, SplitParents(m, |decls|))
    ensures var senders := SplitParents(m, |decls|);
      r.Failure? ==> && WiringErrorFor(m, senders, HalvesOf(m, senders), master0, slave0, r.error)
                     && !WiringFits(m, senders, HalvesOf(m, senders), master0, slave0)
    ensures r.Success? ==>
      && WiredUpTo(ws + [r.value], m, decls, q + 1)
      && ChannelsFresh(ws + [r.value], master0, slave0, dma.master, dma.slave)
      && WiredCounts(m, q + 1, master0, slave0, dma.master, dma.slave)
  {
    var len := TransferLength(decls[q].shape);
    ghost var masterBefore, slaveBefore := dma.master, dma.slave;
    var w := WireSplitFifo(dma, m, Declared(q), len, slave0, AllDests(ws));
    if w.Failure? {
      SplitFailure(m, q, |decls|, master0, slave0, masterBefore, slaveBefore, w.error);
      return Failure(w.error);
    }
    SplitSuccess(m, q, master0, slave0, masterBefore, slaveBefore, dma.master, dma.slave);
    WiredStep(ws, w.value, m, decls, q);
    ChannelsStep(ws, w.value, master0, slave0, masterBefore, slaveBefore, dma.master, dma.slave);
    r := w;
  }

  /** The halves of the split fifos `ps`, in order. */
  function HalvesOf(m: Materialized, ps: seq<FifoId>): (r: seq<FifoId>)
    requires TablesWellFormed(m.fifos, m.split)
    requires forall a :: 0 <= a < |ps| ==> ps[a] in m.split
    ensures HalvesKnown(m.fifos, r)
  {
    if ps == [] then [] else HalvesOf(m, ps[..|ps| - 1]) + m.split[ps[|ps| - 1]]
  }

  /** After wiring the split fifos among the first q declarations, each
      tile's channel counts grew by the senders and receivers it holds, and
      every chain so far fits. */
  ghost predicate WiredCounts(m: Materialized, q: nat, master0: map<Tile, int>, slave0: map<Tile, int>,
                              master: map<Tile, int>, slave: map<Tile, int>)
    requires TablesWellFormed(m.fifos, m.split)
  {
    var senders := SplitParents(m, q);
    && HalvesKnown(m.fifos, senders)
    && ChainsFit(m, senders) && ChainsFit(m, HalvesOf(m, senders))
    && CountsGrow(m, senders, master0, master)
    && CountsGrow(m, HalvesOf(m, senders), slave0, slave)
  }

  /** The senders and receivers of the first q declarations are among
      those of the first n. */
  lemma {:induction false} WiringGrows(m: Materialized, q: nat, n: nat)
    requires TablesWellFormed(m.fifos, m.split) && q <= n
    ensures HalvesKnown(m.fifos, SplitParents(m, q)) && HalvesKnown(m.fifos, SplitParents(m, n))
    ensures forall t :: OnTile(m, SplitParents(m, q), t) <= OnTile(m, SplitParents(m, n), t)
    ensures forall t :: OnTile(m, HalvesOf(m, SplitParents(m, q)), t) <= OnTile(m, HalvesOf(m, SplitParents(m, n)), t)
    ensures forall f :: f in SplitParents(m, q) ==> f in SplitParents(m, n)
    ensures forall f :: f in HalvesOf(m, SplitParents(m, q)) ==> f in HalvesOf(m, SplitParents(m, n))
    decreases n
  {
    if q < n {
      WiringGrows(m, q, n - 1);
      var before := SplitParents(m, n - 1);
      var p := Declared(n - 1);
      if p in m.split {
        assert SplitParents(m, n) == before + [p];
        assert (before + [p])[..|before|] == before;
        assert HalvesOf(m, before + [p]) == HalvesOf(m, before) + m.split[p];
        forall t
          ensures OnTile(m, before, t) <= OnTile(m, before + [p], t)
          ensures OnTile(m, HalvesOf(m, before), t) <= OnTile(m, HalvesOf(m, before) + m.split[p], t)
        {
          OnTileAppend(m, before, [p], t);
          OnTileAppend(m, HalvesOf(m, before), m.split[p], t);
        }
      } else {
        assert SplitParents(m, n) == before;
      }
    }
  }

  /** A failed wiring of the q-th declaration's split fifo is a failure of
      the wiring of all n declarations. */
  lemma SplitFailure(m: Materialized, q: nat, n: nat, master0: map<Tile, int>, slave0: map<Tile, int>,
                     master: map<Tile, int>, slave: map<Tile, int>, e: WiringError)
    requires TablesWellFormed(m.fifos, m.split) && q < n && Declared(q) in m.split
    requires WiredCounts(m, q, master0, slave0, master, slave)
    requires HalvesKnown(m.fifos, [Declared(q)])
    requires WiringErrorFor(m, [Declared(q)], m.split[Declared(q)], master, slave, e)
    ensures HalvesKnown(m.fifos, SplitParents(m, n))
    ensures WiringErrorFor(m, SplitParents(m, n), HalvesOf(m, SplitParents(m, n)), master0, slave0, e)
    ensures !WiringFits(m, SplitParents(m, n), HalvesOf(m, SplitParents(m, n)), master0, slave0)
  {
    var p := Declared(q);
    var before := SplitParents(m, q);
    assert SplitParents(m, q + 1) == before + [p];
    assert (before + [p])[..|before|] == before;
    WiringGrows(m, q + 1, n);
    match e
    case NoMasterChannel(t) =>
      OnTileAppend(m, before, [p], t);
    case NoSlaveChannel(t) =>
      OnTileAppend(m, HalvesOf(m, before), m.split[p], t);
    case ChainTooLong(f) =>
    ErrorDefeatsFit(m, SplitParents(m, n), HalvesOf(m, SplitParents(m, n)), master0, slave0, e);
  }

  /** A wiring that reports an error of WiringErrorFor does not fit. */
  lemma ErrorDefeatsFit(m: Materialized, senders: seq<FifoId>, receivers: seq<FifoId>,
                        master: map<Tile, int>, slave: map<Tile, int>, e: WiringError)
    requires HalvesKnown(m.fifos, senders) && HalvesKnown(m.fifos, receivers)
    requires WiringErrorFor(m, senders, receivers, master, slave, e)
    ensures !WiringFits(m, senders, receivers, master, slave)
  {
    match e
    case NoMasterChannel(t) =>
    case NoSlaveChannel(t) =>
    case ChainTooLong(f) =>
      if f in senders {
        var j :| 0 <= j < |senders| && senders[j] == f;
      } else {
        var j :| 0 <= j < |receivers| && receivers[j] == f;
      }
  }

  /** A wired split fifo adds its sender and receivers to the counts. */
  lemma SplitSuccess(m: Materialized, q: nat, master0: map<Tile, int>, slave0: map<Tile, int>,
                     master: map<Tile, int>, slave: map<Tile, int>, master': map<Tile, int>, slave': map<Tile, int>)
    requires TablesWellFormed(m.fifos, m.split) && Declared(q) in m.split
    requires WiredCounts(m, q, master0, slave0, master, slave)
    requires HalvesKnown(m.fifos, [Declared(q)])
    requires WiringFits(m, [Declared(q)], m.split[Declared(q)], master, slave)
    requires CountsGrow(m, [Declared(q)], master, master')
    requires CountsGrow(m, m.split[Declared(q)], slave, slave')
    ensures WiredCounts(m, q + 1, master0, slave0, master', slave')
  {
    var p := Declared(q);
    var before := SplitParents(m, q);
    assert SplitParents(m, q + 1) == before + [p];
    assert (before + [p])[..|before|] == before;
    assert HalvesOf(m, before + [p]) == HalvesOf(m, before) + m.split[p];
    forall t
      ensures InUse(master', t) == InUse(master0, t) + OnTile(m, before + [p], t)
      ensures InUse(slave', t) == InUse(slave0, t) + OnTile(m, HalvesOf(m, before) + m.split[p], t)
    {
      OnTileAppend(m, before, [p], t);
      OnTileAppend(m, HalvesOf(m, before), m.split[p], t);
    }
  }

  /** A declaration that was not split takes no channel. */
  lemma SkipStep(m: Materialized, q: nat, master0: map<Tile, int>, slave0: map<Tile, int>,
                 master: map<Tile, int>, slave: map<Tile, int>)
    requires TablesWellFormed(m.fifos, m.split) && Declared(q) !in m.split
    requires WiredCounts(m, q, master0, slave0, master, slave)
    ensures WiredCounts(m, q + 1, master0, slave0, master, slave)
  {
    assert SplitParents(m, q + 1) == SplitParents(m, q);
  }

  /** Counts that stay within two channels after the whole wiring mean it fits. */
  lemma WiredWithin(m: Materialized, n: nat, master0: map<Tile, int>, slave0: map<Tile, int>,
                    master: map<Tile, int>, slave: map<Tile, int>)
    requires TablesWellFormed(m.fifos, m.split)
    requires WiredCounts(m, n, master0, slave0, master, slave)
    requires forall t :: t in master ==> 0 <= master[t] <= 1
    requires forall t :: t in slave ==> 0 <= slave[t] <= 1
    ensures WiringFits(m, SplitParents(m, n), HalvesOf(m, SplitParents(m, n)), master0, slave0)
  {
    CountsWithin(m, SplitParents(m, n), master0, master);
    CountsWithin(m, HalvesOf(m, SplitParents(m, n)), slave0, slave);
  }

  /** The handshake between a core and its tile's DMA: the DMA acquires an
      element in the state the core's release leaves it, and releases it in
      the state the core's acquire waits for (the producer tile's DMA
      against the producing core, a consumer tile's DMA against the
      consuming core). */
  lemma ChainHandshake(c: ChainResult, channel: DmaChan, n: nat, port: Port, len: int)
    requires ChainFor(c, channel, n, if port == Produce then 0 else 1, len)
    ensures c.Chain? ==> forall j :: 0 <= j < |c.blocks| ==>
              c.blocks[j].acquireMode == LockRotation.CoreReleaseValue(port) &&
              c.blocks[j].releaseMode == LockRotation.CoreAcquireValue(port)
  {
  }

  /** The DMA ring and the cores' lock rotation visit a fifo's elements in
      the same order: the block the DMA runs at its k-th step moves the
      element the core's k-th use of the fifo names. */
  lemma DmaFollowsCoreOrder(blocks: seq<BdBlock>, lockMode: int, len: int, k: nat)
    requires |blocks| > 0 && IsRing(blocks, lockMode, len)
    ensures forall j :: 0 <= j < |blocks| ==> blocks[j].next < |blocks|
    ensures Walk(blocks, 0, k) == LockRotation.Ring(0, k + 1, |blocks|)[k]
    ensures blocks[Walk(blocks, 0, k)].buffer == blocks[Walk(blocks, 0, k)].lock == Walk(blocks, 0, k)
  {
    RingWalk(blocks, lockMode, len, k);
  }
}
