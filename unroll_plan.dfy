/** The iteration arithmetic of unrollForLoops: how many copies of a loop
    body are made, where, and what the loop's new step and bound are. */
module UnrollPlan {
  import Arith

  /** C++ (int64_t) division and remainder, truncating toward zero, for a positive divisor. */
  function TDiv(a: int, b: int): int
    requires b > 0
  {
    if a >= 0 then a / b else -((-a) / b)
  }

  function TMod(a: int, b: int): int
    requires b > 0
  {
    a - b * TDiv(a, b)
  }

  /** The values the induction variable takes in `for iv = lb to ub step step`. */
  function LoopValues(lb: int, ub: int, step: int): seq<int>
    requires step > 0
    decreases ub - lb
  {
    if lb >= ub then [] else [lb] + LoopValues(lb + step, ub, step)
  }

  /** The number of iterations of that loop. */
  function TripCount(lb: int, ub: int, step: int): nat
    requires step > 0
  {
    if ub <= lb then 0 else (ub - lb + step - 1) / step
  }

  /** The induction value of clone k: inside the loop the original body is
      iteration 0, so clone k runs base + (k+1)*step; outside it, base + k*step. */
  function CloneOffset(k: nat, step: int, inLoop: bool): int {
    if inLoop then (k + 1) * step else k * step
  }

  /** Induction values of `n` clones placed against `base`. */
  function Clones(base: int, step: int, n: nat, inLoop: bool): seq<int> {
    seq(n, k requires 0 <= k < n => base + CloneOffset(k, step, inLoop))
  }

  /** The decision: either the loop is removed and `clones` copies of its body
      follow from the lower bound, or the loop is kept with step `newStep`
      and bound `newUpper`, `inBody` extra copies of the body inside it and
      `remainder` copies after it, placed against the loop's upper bound. */
  datatype Plan =
    | FullUnroll(clones: nat)
    | PartialUnroll(newStep: int, newUpper: int, inBody: nat, remainder: nat)

  lemma TDivSign(a: int, b: int)
    requires b > 0
    ensures TDiv(a, b) > 0 ==> a > 0
    ensures a >= 0 ==> TDiv(a, b) == a / b && TMod(a, b) == a % b
  {
  }

  /** The plan as lib/AIEObjectFifoStatefulTransform.cpp computes it, with
      `factor` the unroll factor (the LCM of the fifo depths). */
  function PlanUnroll(lb: int, ub: int, step: int, factor: nat): Plan
    requires step > 0
    requires TDiv(ub - lb, step) > factor ==> factor > 0
  {
    var numIter := TDiv(ub - lb, step);
    if numIter <= factor then FullUnroll(if numIter > 0 then numIter else 0)
    else
      TDivSign(ub - lb, step);
      var newStep := factor * step;
      var remainder := TDiv(TMod(ub - lb, newStep), step);
      PartialUnroll(newStep, if remainder > 0 then TDiv(ub - lb, newStep) * newStep else ub,
                    factor - 1, remainder)
  }

  /** The plan with the trip count rounded up and the new bound measured
      from the lower bound. */
  function PlanUnrollCorrected(lb: int, ub: int, step: int, factor: nat): Plan
    requires step > 0
    requires TripCount(lb, ub, step) > factor ==> factor > 0
  {
    var trips := TripCount(lb, ub, step);
    if trips <= factor then FullUnroll(trips)
    else PartialUnroll(factor * step, lb + (trips / factor) * (factor * step), factor - 1, trips % factor)
  }

  /** The induction values each physical iteration runs the body with: the
      original body at the iteration's own value, then its in-loop copies. */
  function BodyRuns(ivs: seq<int>, step: int, inBody: nat): seq<int> {
    if ivs == [] then [] else [ivs[0]] + Clones(ivs[0], step, inBody, true) + BodyRuns(ivs[1..], step, inBody)
  }

  /** The induction values with which the rewritten code runs the body, in order. */
  function Executed(lb: int, step: int, plan: Plan): seq<int> {
    match plan
    case FullUnroll(n) => Clones(lb, step, n, false)
    case PartialUnroll(newStep, newUpper, inBody, rem) =>
      if newStep <= 0 then []
      else BodyRuns(LoopValues(lb, newUpper, newStep), step, inBody) + Clones(newUpper, step, rem, false)
  }

  /** A counted loop runs its body at lb, lb+step, ... : TripCount values in all. */
  lemma {:induction false} LoopValuesAreClones(lb: int, ub: int, step: int)
    requires step > 0
    ensures LoopValues(lb, ub, step) == Clones(lb, step, TripCount(lb, ub, step), false)
    decreases ub - lb
  {
    if lb < ub {
      var t := TripCount(lb, ub, step);
      LoopValuesAreClones(lb + step, ub, step);
      Arith.DivMultiple(ub - lb - 1, 1, step);
      assert t >= 1;
      assert TripCount(lb + step, ub, step) == t - 1 by {
        if ub <= lb + step {
          assert ub - lb - 1 < step;
          Arith.ModSmall(ub - lb - 1, step);
          Arith.DivModUnique(ub - lb - 1, step, 0, ub - lb - 1);
        } else {
          assert ub - (lb + step) + step - 1 == ub - lb - 1;
          assert (ub - lb - 1 + step) / step == (ub - lb - 1) / step + 1;
        }
      }
      ClonesCons(lb, step, t);
    }
  }

  lemma ClonesCons(base: int, step: int, n: nat)
    requires n > 0
    ensures Clones(base, step, n, false) == [base] + Clones(base + step, step, n - 1, false)
  {
    var a := Clones(base, step, n, false);
    var b := [base] + Clones(base + step, step, n - 1, false);
    forall k | 0 <= k < n
      ensures a[k] == b[k]
    {
      if k > 0 {
        assert (k - 1) * step + step == k * step;
      }
    }
  }

  /** Clones against base then against base + m*step continue each other. */
  lemma ClonesAppend(base: int, step: int, m: nat, n: nat)
    ensures Clones(base, step, m, false) + Clones(base + m * step, step, n, false) == Clones(base, step, m + n, false)
  {
    var a := Clones(base, step, m, false) + Clones(base + m * step, step, n, false);
    var b := Clones(base, step, m + n, false);
    forall k | 0 <= k < m + n
      ensures a[k] == b[k]
    {
      if k >= m {
        assert base + m * step + (k - m) * step == base + k * step;
      }
    }
  }

  /** One physical iteration of the unrolled loop covers `factor` logical ones. */
  lemma OneIterationCoversFactor(iv: int, step: int, factor: nat)
    requires factor > 0
    ensures [iv] + Clones(iv, step, factor - 1, true) == Clones(iv, step, factor, false)
  {
    var a := [iv] + Clones(iv, step, factor - 1, true);
    var b := Clones(iv, step, factor, false);
    forall k | 0 <= k < factor
      ensures a[k] == b[k]
    {
    }
  }

  /** The kept loop running j iterations of step factor*step, each with its
      factor-1 in-loop copies, runs the body at the first j*factor values. */
  lemma {:induction false} BodyRunsCover(lb: int, step: int, factor: nat, j: nat)
    requires factor > 0
    ensures BodyRuns(Clones(lb, factor * step, j, false), step, factor - 1) == Clones(lb, step, j * factor, false)
    decreases j
  {
    if j > 0 {
      var ivs := Clones(lb, factor * step, j, false);
      ClonesCons(lb, factor * step, j);
      assert ivs[0] == lb && ivs[1..] == Clones(lb + factor * step, factor * step, j - 1, false);
      BodyRunsCover(lb + factor * step, step, factor, j - 1);
      OneIterationCoversFactor(lb, step, factor);
      ClonesAppend(lb, step, factor, (j - 1) * factor);
      assert factor * step == factor * step;
      assert factor + (j - 1) * factor == j * factor;
    } else {
      assert Clones(lb, factor * step, 0, false) == [];
    }
  }

  /** A loop from lb to lb + j*s in steps of s runs exactly j times. */
  lemma TripCountOfMultiple(lb: int, j: nat, s: int)
    requires s > 0
    ensures TripCount(lb, lb + j * s, s) == j
  {
    if j > 0 {
      Arith.MulSign(j, s);
      Arith.DivModUnique(j * s + s - 1, s, j, s - 1);
    }
  }

  /** A kept loop of j iterations with factor-1 in-loop copies, followed by
      rem remainder copies, runs the body at the first j*factor + rem values. */
  lemma PartialPlanIterations(lb: int, step: int, factor: nat, j: nat, rem: nat)
    requires step > 0 && factor > 0
    ensures Executed(lb, step, PartialUnroll(factor * step, lb + j * (factor * step), factor - 1, rem))
         == Clones(lb, step, j * factor + rem, false)
  {
    var ns := factor * step;
    var ub := lb + j * ns;
    Arith.MulSign(factor, step);
    LoopValuesAreClones(lb, ub, ns);
    TripCountOfMultiple(lb, j, ns);
    assert LoopValues(lb, ub, ns) == Clones(lb, ns, j, false);
    BodyRunsCover(lb, step, factor, j);
    Arith.MulAssoc(j, factor, step);
    assert lb + (j * factor) * step == ub;
    ClonesAppend(lb, step, j * factor, rem);
    assert Clones(lb, step, j * factor, false) + Clones(ub, step, rem, false) == Clones(lb, step, j * factor + rem, false);
    assert Executed(lb, step, PartialUnroll(ns, ub, factor - 1, rem))
        == BodyRuns(Clones(lb, ns, j, false), step, factor - 1) + Clones(ub, step, rem, false);
  }

  /** The corrected plan runs the body exactly at the original loop's
      induction values, in order, for every loop and every factor. */
  lemma CorrectedPlanPreservesIterations(lb: int, ub: int, step: int, factor: nat)
    requires step > 0
    requires TripCount(lb, ub, step) > factor ==> factor > 0
    ensures Executed(lb, step, PlanUnrollCorrected(lb, ub, step, factor)) == LoopValues(lb, ub, step)
  {
    var trips := TripCount(lb, ub, step);
    var plan := PlanUnrollCorrected(lb, ub, step, factor);
    LoopValuesAreClones(lb, ub, step);
    if trips > factor {
      var j, rem := trips / factor, trips % factor;
      assert plan == PartialUnroll(factor * step, lb + j * (factor * step), factor - 1, rem);
      PartialPlanIterations(lb, step, factor, j, rem);
      Arith.DivModSplit(trips, factor);
    } else {
      assert plan == FullUnroll(trips);
    }
    assert Executed(lb, step, plan) == Clones(lb, step, trips, false);
  }

  /** For a span of t steps, a new step of factor*step splits it into
      t / factor whole new steps and t % factor single steps. */
  lemma AlignedSpan(t: nat, step: int, factor: nat)
    requires step > 0 && factor > 0
    ensures (t * step) / (factor * step) == t / factor
    ensures ((t * step) % (factor * step)) / step == t % factor
    ensures (t / factor) * (factor * step) == t * step - (t % factor) * step
  {
    var ns := factor * step;
    var j, rem := t / factor, t % factor;
    Arith.MulSign(factor, step);
    assert t * step == j * ns + rem * step by {
      assert t == j * factor + rem;
      assert t * step == (j * factor) * step + rem * step;
    }
    assert 0 <= rem * step < ns by {
      Arith.MulSign(factor - rem, step);
      assert ns - rem * step == (factor - rem) * step;
      if rem > 0 { Arith.MulSign(rem, step); }
    }
    Arith.DivModUnique(t * step, ns, j, rem * step);
    Arith.DivModUnique(rem * step, step, rem, 0);
  }

  /** With the lower bound 0 and a step dividing the span, the plan as
      written is the corrected plan, so it preserves the iterations too. */
  lemma PlanUnrollFromZero(ub: int, step: int, factor: nat)
    requires step > 0 && ub % step == 0
    requires TDiv(ub, step) > factor ==> factor > 0
    ensures TripCount(0, ub, step) > factor ==> factor > 0
    ensures PlanUnroll(0, ub, step, factor) == PlanUnrollCorrected(0, ub, step, factor)
    ensures Executed(0, step, PlanUnroll(0, ub, step, factor)) == LoopValues(0, ub, step)
  {
    if ub > 0 {
      FromZeroCounts(ub, step);
      if ub / step > factor {
        FromZeroPartial(ub, step, factor);
      }
    } else {
      assert TDiv(ub, step) <= 0;
    }
    CorrectedPlanPreservesIterations(0, ub, step, factor);
  }

  /** From 0 to a multiple of the step, rounding down and rounding up agree. */
  lemma FromZeroCounts(ub: int, step: int)
    requires step > 0 && ub > 0 && ub % step == 0
    ensures TripCount(0, ub, step) == ub / step && TDiv(ub, step) == ub / step
  {
    var t := ub / step;
    Arith.DivExact(ub, step);
    Arith.DivModUnique(ub + step - 1, step, t, step - 1);
  }

  /** The partial case of PlanUnrollFromZero: both plans keep the loop up
      to the same bound with the same remainder. */
  lemma FromZeroPartial(ub: int, step: int, factor: nat)
    requires step > 0 && ub > 0 && ub % step == 0 && ub / step > factor > 0
    ensures TDiv(ub, step) > factor && TripCount(0, ub, step) > factor
    ensures PlanUnroll(0, ub, step, factor) == PlanUnrollCorrected(0, ub, step, factor)
  {
    var t := ub / step;
    FromZeroCounts(ub, step);
    Arith.DivExact(ub, step);
    var ns := factor * step;
    var j, rem := t / factor, t % factor;
    AlignedSpan(t, step, factor);
    Arith.MulSign(factor, step);
    TDivSign(ub, ns);
    assert TDiv(ub, ns) == j && TMod(ub, ns) == ub % ns;
    TDivSign(ub % ns, step);
    assert TDiv(TMod(ub, ns), step) == rem;
    assert (if rem > 0 then TDiv(ub, ns) * ns else ub) == j * ns;
    assert PlanUnroll(0, ub, step, factor) == PartialUnroll(ns, j * ns, factor - 1, rem);
    assert PlanUnrollCorrected(0, ub, step, factor) == PartialUnroll(ns, 0 + j * ns, factor - 1, rem);
  }

  /** The new upper bound ignores the lower bound: for lb = 2, ub = 12,
      step = 2 and factor 2 the kept loop stops at 8 and the single
      remainder copy runs at 8 again, so iteration 10 never runs. */
  lemma LowerBoundIgnored()
    ensures PlanUnroll(2, 12, 2, 2) == PartialUnroll(4, 8, 1, 1)
    ensures LoopValues(2, 12, 2) == [2, 4, 6, 8, 10]
    ensures Executed(2, 2, PlanUnroll(2, 12, 2, 2)) == [2, 4, 6, 8, 8]
  {
    assert TMod(10, 4) == 2;
    assert LoopValues(2, 8, 4) == [2, 6] by {
      assert LoopValues(10, 8, 4) == [];
      assert LoopValues(6, 8, 4) == [6];
    }
    assert Clones(2, 2, 1, true) == [4];
    assert Clones(6, 2, 1, true) == [8];
    assert Clones(8, 2, 1, false) == [8];
    assert BodyRuns([6], 2, 1) == [6, 8] by { assert [6][1..] == []; }
    assert BodyRuns([2, 6], 2, 1) == [2, 4] + BodyRuns([6], 2, 1) by { assert [2, 6][1..] == [6]; }
    assert LoopValues(2, 12, 2) == [2, 4, 6, 8, 10] by {
      assert LoopValues(12, 12, 2) == [];
      assert LoopValues(10, 12, 2) == [10];
      assert LoopValues(8, 12, 2) == [8, 10];
      assert LoopValues(6, 12, 2) == [6, 8, 10];
      assert LoopValues(4, 12, 2) == [4, 6, 8, 10];
    }
  }

  /** The trip count rounds down: for lb = 0, ub = 5, step = 2 and factor 4
      the loop is replaced by two copies, at 0 and 2, and iteration 4 is lost. */
  lemma TripCountRoundedDown()
    ensures PlanUnroll(0, 5, 2, 4) == FullUnroll(2)
    ensures LoopValues(0, 5, 2) == [0, 2, 4]
    ensures Executed(0, 2, PlanUnroll(0, 5, 2, 4)) == [0, 2]
  {
    assert LoopValues(0, 5, 2) == [0, 2, 4] by {
      assert LoopValues(6, 5, 2) == [];
      assert LoopValues(4, 5, 2) == [4];
      assert LoopValues(2, 5, 2) == [2, 4];
    }
    assert Clones(0, 2, 2, false) == [0, 2];
  }

  /** As written, when the span is not a multiple of the step the remainder
      rounds to zero and the upper bound is kept: the last iteration of the
      unrolled loop runs its copies past the original bound. From 0 to 9 by 2
      with factor 2, the loop runs at 0, 4 and 8 with a copy 2 after each, so
      the body also runs at 10. */
  lemma UpperBoundOverrun()
    ensures PlanUnroll(0, 9, 2, 2) == PartialUnroll(4, 9, 1, 0)
    ensures LoopValues(0, 9, 2) == [0, 2, 4, 6, 8]
    ensures Executed(0, 2, PlanUnroll(0, 9, 2, 2)) == [0, 2, 4, 6, 8, 10]
  {
    assert TDiv(9, 2) == 4 && TMod(9, 4) == 1 && TDiv(1, 2) == 0;
    assert LoopValues(0, 9, 4) == [0, 4, 8] by {
      assert LoopValues(12, 9, 4) == [];
      assert LoopValues(8, 9, 4) == [8];
      assert LoopValues(4, 9, 4) == [4, 8];
    }
    assert Clones(0, 2, 1, true) == [2];
    assert Clones(4, 2, 1, true) == [6];
    assert Clones(8, 2, 1, true) == [10];
    assert BodyRuns([8], 2, 1) == [8, 10] by { assert [8][1..] == []; }
    assert BodyRuns([4, 8], 2, 1) == [4, 6] + BodyRuns([8], 2, 1) by { assert [4, 8][1..] == [8]; }
    assert BodyRuns([0, 4, 8], 2, 1) == [0, 2] + BodyRuns([4, 8], 2, 1) by { assert [0, 4, 8][1..] == [4, 8]; }
    assert LoopValues(0, 9, 2) == [0, 2, 4, 6, 8] by {
      assert LoopValues(10, 9, 2) == [];
      assert LoopValues(8, 9, 2) == [8];
      assert LoopValues(6, 9, 2) == [6, 8];
      assert LoopValues(4, 9, 2) == [4, 6, 8];
      assert LoopValues(2, 9, 2) == [2, 4, 6, 8];
    }
  }
}
