/** unrollForLoops for one loop of a core: a loop whose body acquires
    object fifos is unrolled by the LCM of their depths, so that every
    acquire in the unrolled code sees the same position in the rotation. */
module LoopUnroll {
  import opened Common
  import Lcm
  import opened UnrollPlan
  import opened BodyCloning
  import opened FifoRewrite

  /** An scf.for with constant bounds and step; `body` excludes the terminator. */
  datatype ForLoop = ForLoop(lb: int, ub: int, step: int, body: seq<BodyOp>)

  /** Every fifo the body acquires is known. */
  predicate AcquiresKnown(body: seq<BodyOp>, fifos: map<FifoId, FifoInfo>) {
    forall i :: 0 <= i < |body| && body[i].kind.AcquireOf? ==> body[i].kind.fifo in fifos
  }

  predicate HasAcquire(body: seq<BodyOp>) {
    exists i :: 0 <= i < |body| && body[i].kind.AcquireOf?
  }

  /** The depth an acquire on the core's tile sees: that of the fifo it
      names once a consume of a split fifo is redirected to the half on the
      tile (checkSplitFifo). */
  function DepthSeen(fifos: map<FifoId, FifoInfo>, split: map<FifoId, seq<FifoId>>, tile: Tile, kind: OpKind): nat
    requires TablesWellFormed(fifos, split) && kind.AcquireOf? && kind.fifo in fifos
  {
    fifos[ResolveFifo(fifos, split, kind.fifo, kind.port, tile)].depth
  }

  /** The depths of the fifos the body acquires, as seen from the tile. */
  function AcquiredDepths(body: seq<BodyOp>, fifos: map<FifoId, FifoInfo>, split: map<FifoId, seq<FifoId>>, tile: Tile): set<nat>
    requires TablesWellFormed(fifos, split) && AcquiresKnown(body, fifos)
  {
    set i | 0 <= i < |body| && body[i].kind.AcquireOf? :: DepthSeen(fifos, split, tile, body[i].kind)
  }

  /** The scan of the body's acquire operations: whether there is one, and
      the set of the depths of their fifos after redirection. */
  method CollectAcquireDepths(body: seq<BodyOp>, fifos: map<FifoId, FifoInfo>, split: map<FifoId, seq<FifoId>>, tile: Tile)
    returns (found: bool, sizes: set<nat>)
    requires TablesWellFormed(fifos, split) && AcquiresKnown(body, fifos)
    ensures found <==> HasAcquire(body)
    ensures sizes == AcquiredDepths(body, fifos, split, tile)
    ensures forall d :: d in sizes <==>
      exists i :: 0 <= i < |body| && body[i].kind.AcquireOf? && DepthSeen(fifos, split, tile, body[i].kind) == d
  {
    found, sizes := false, {};
    for i := 0 to |body|
      invariant found <==> exists j :: 0 <= j < i && body[j].kind.AcquireOf?
      invariant sizes == set j | 0 <= j < i && body[j].kind.AcquireOf? :: DepthSeen(fifos, split, tile, body[j].kind)
    {
      if body[i].kind.AcquireOf? {
        found := true;
        var r := CheckSplitFifo(fifos, split, body[i].kind.fifo, body[i].kind.port, tile);
        sizes := sizes + {fifos[r].depth};
      }
    }
  }

  /** What the rewrite produced: the unroll factor, the plan, the copies
      placed inside the kept loop and the copies placed after it. */
  datatype Unrolled = Unrolled(factor: nat, plan: Plan, inBody: seq<seq<BodyOp>>, after: seq<seq<BodyOp>>)

  /** The copies duplicateBlock builds from identifyDependencies' tags are
      the body instantiated at base + CloneOffset(c), for each copy c. */
  lemma DuplicatesAreCopies(body: seq<BodyOp>, deps: seq<seq<int>>, copies: seq<seq<BodyOp>>,
                            n: nat, base: Value, step: int, inLoop: bool)
    requires WellFormedBody(body) && DependenciesFit(body, deps)
    requires forall i, k :: 0 <= i < |body| && 0 <= k < |body[i].operands| ==>
      deps[i][k] == DependencyTag(body[i].operands[k])
    requires |copies| == n
    requires forall c :: 0 <= c < |copies| ==> copies[c] == CloneBody(body, deps, c, base, step, inLoop)
    ensures copies == Copies(body, n, base, step, inLoop)
  {
    forall c | 0 <= c < n
      ensures copies[c] == Copies(body, n, base, step, inLoop)[c]
    {
      CloneBodyInstantiates(body, deps, c, base, step, inLoop);
    }
  }

  /** Unrolls one loop (nothing when its body acquires no fifo). The factor
      is the least common multiple of the acquired fifos' depths; the plan is
      the corrected one, so the body runs at exactly the original induction
      values; the copies are the body instantiated at their values. */
  method UnrollForLoop(loop: ForLoop, fifos: map<FifoId, FifoInfo>, split: map<FifoId, seq<FifoId>>, tile: Tile)
    returns (r: Option<Unrolled>)
    requires loop.step > 0 && WellFormedBody(loop.body)
    requires TablesWellFormed(fifos, split) && AcquiresKnown(loop.body, fifos)
    requires 0 in AcquiredDepths(loop.body, fifos, split, tile) ==> TripCount(loop.lb, loop.ub, loop.step) == 0
    ensures r.None? <==> !HasAcquire(loop.body)
    ensures r.Some? ==>
      && Lcm.CommonMultiple(AcquiredDepths(loop.body, fifos, split, tile), r.value.factor)
      && (forall m: nat :: Lcm.CommonMultiple(AcquiredDepths(loop.body, fifos, split, tile), m) ==> Lcm.Divides(r.value.factor, m))
      && (TripCount(loop.lb, loop.ub, loop.step) > r.value.factor ==> r.value.factor > 0)
      && r.value.plan == PlanUnrollCorrected(loop.lb, loop.ub, loop.step, r.value.factor)
      && Executed(loop.lb, loop.step, r.value.plan) == LoopValues(loop.lb, loop.ub, loop.step)
    ensures r.Some? && r.value.plan.FullUnroll? ==>
      && r.value.inBody == []
      && r.value.after == Copies(loop.body, r.value.plan.clones, Const(loop.lb), loop.step, false)
    ensures r.Some? && r.value.plan.PartialUnroll? ==>
      && r.value.inBody == Copies(loop.body, r.value.plan.inBody, InductionVar, loop.step, true)
      && r.value.after == Copies(loop.body, r.value.plan.remainder, Const(r.value.plan.newUpper), loop.step, false)
  {
    var found, sizes := CollectAcquireDepths(loop.body, fifos, split, tile);
    if !found {
      return None;
    }
    var factor := Lcm.ComputeLcm(sizes);
    var deps := IdentifyDependencies(loop.body);
    var plan := PlanUnrollCorrected(loop.lb, loop.ub, loop.step, factor);
    CorrectedPlanPreservesIterations(loop.lb, loop.ub, loop.step, factor);
    var inBody, after;
    match plan {
      case FullUnroll(n) =>
        inBody := [];
        after := DuplicateBlock(loop.body, deps, n, Const(loop.lb), loop.step, false);
        DuplicatesAreCopies(loop.body, deps, after, n, Const(loop.lb), loop.step, false);
      case PartialUnroll(_, newUpper, k, rem) =>
        inBody := DuplicateBlock(loop.body, deps, k, InductionVar, loop.step, true);
        DuplicatesAreCopies(loop.body, deps, inBody, k, InductionVar, loop.step, true);
        after := DuplicateBlock(loop.body, deps, rem, Const(newUpper), loop.step, false);
        DuplicatesAreCopies(loop.body, deps, after, rem, Const(newUpper), loop.step, false);
    }
    r := Some(Unrolled(factor, plan, inBody, after));
  }
}
