/** Copying a loop body (identifyDependencies and duplicateBlock): every
    operand of every body operation is tagged with where it comes from, and
    each copy rewires the tagged operands to the copy's own operations or to
    a shifted induction value. */
module BodyCloning {
  import opened Common
  import opened UnrollPlan

  /** Tag of an operand that is the loop's induction variable. */
  const LoopVarDependency: int := -2
  /** Tag of an operand defined outside the loop body. */
  const NoDependency: int := -1

  /** The SSA values an operation of a loop body can use. `CloneResult`
      and `Offset` only appear in copies: the result of operation `op` of
      copy `copy`, and `base + amount` (an arith.constant and an arith.addi). */
  datatype Value =
    | InductionVar
    | BodyResult(op: nat)
    | External(id: int)
    | Const(v: int)
    | CloneResult(copy: nat, op: nat)
    | Offset(base: Value, amount: int)

  datatype OpKind = AcquireOf(fifo: FifoId, port: Port) | OtherKind(name: string)

  /** An operation of a loop body (the terminator excluded). */
  datatype BodyOp = BodyOp(kind: OpKind, operands: seq<Value>)

  /** An operand of body operation `i` in SSA form: the induction variable,
      a value from outside the loop, or the result of an earlier operation. */
  predicate OperandOk(v: Value, i: nat) {
    v.InductionVar? || v.External? || v.Const? || (v.BodyResult? && v.op < i)
  }

  predicate WellFormedBody(body: seq<BodyOp>) {
    forall i, k :: 0 <= i < |body| && 0 <= k < |body[i].operands| ==> OperandOk(body[i].operands[k], i)
  }

  /** The tag identifyDependencies records for an operand. */
  function DependencyTag(v: Value): (tag: int)
    ensures tag >= 0 <==> v.BodyResult?
    ensures tag == LoopVarDependency <==> v.InductionVar?
    ensures v.BodyResult? ==> tag == v.op
  {
    match v
    case InductionVar => LoopVarDependency
    case BodyResult(j) => j
    case _ => NoDependency
  }

  /** Tags shaped like the body, and every non-negative tag of operation i
      names an earlier operation (so it has been copied when it is read). */
  predicate DependenciesFit(body: seq<BodyOp>, deps: seq<seq<int>>) {
    |deps| == |body|
    && (forall i :: 0 <= i < |body| ==> |deps[i]| == |body[i].operands|)
    && (forall i, k :: 0 <= i < |body| && 0 <= k < |deps[i]| ==> deps[i][k] < i)
  }

  /** identifyDependencies: the tag of every operand of every operation. */
  method IdentifyDependencies(body: seq<BodyOp>) returns (deps: seq<seq<int>>)
    requires WellFormedBody(body)
    ensures DependenciesFit(body, deps)
    ensures forall i, k :: 0 <= i < |body| && 0 <= k < |body[i].operands| ==>
      deps[i][k] == DependencyTag(body[i].operands[k])
  {
    deps := [];
    for i := 0 to |body|
      invariant |deps| == i
      invariant forall i', k :: 0 <= i' < i && 0 <= k < |body[i'].operands| ==>
        |deps[i']| == |body[i'].operands| && deps[i'][k] == DependencyTag(body[i'].operands[k])
      invariant forall i' :: 0 <= i' < i ==> |deps[i']| == |body[i'].operands|
    {
      var operands := body[i].operands;
      var indices: seq<int> := [];
      for k := 0 to |operands|
        invariant |indices| == k
        invariant forall k' :: 0 <= k' < k ==> indices[k'] == DependencyTag(operands[k'])
      {
        var index := NoDependency;
        match operands[k] {
          case InductionVar => index := LoopVarDependency;
          case BodyResult(j) => index := j;
          case _ =>
        }
        indices := indices + [index];
      }
      deps := deps + [indices];
    }
  }

  /** The operand a copy uses in place of `v`, given the tag of `v`. */
  function Rewire(tag: int, v: Value, copy: nat, base: Value, step: int, inLoop: bool): Value {
    if tag >= 0 then CloneResult(copy, tag)
    else if tag == LoopVarDependency then Offset(base, CloneOffset(copy, step, inLoop))
    else v
  }

  /** Copy `copy` of the body as duplicateBlock builds it from the tags. */
  function CloneBody(body: seq<BodyOp>, deps: seq<seq<int>>, copy: nat, base: Value, step: int, inLoop: bool): seq<BodyOp>
    requires DependenciesFit(body, deps)
  {
    seq(|body|, i requires 0 <= i < |body| =>
      BodyOp(body[i].kind, seq(|body[i].operands|, k requires 0 <= k < |body[i].operands| =>
        Rewire(deps[i][k], body[i].operands[k], copy, base, step, inLoop))))
  }

  /** The meaning of a copy: the body with the induction variable bound to
      `iv` and every body result renamed to the copy's own result. */
  function Instantiate(v: Value, copy: nat, iv: Value): Value {
    match v
    case InductionVar => iv
    case BodyResult(j) => CloneResult(copy, j)
    case _ => v
  }

  function InstantiateBody(body: seq<BodyOp>, copy: nat, iv: Value): seq<BodyOp> {
    seq(|body|, i requires 0 <= i < |body| =>
      BodyOp(body[i].kind, seq(|body[i].operands|, k requires 0 <= k < |body[i].operands| =>
        Instantiate(body[i].operands[k], copy, iv))))
  }

  /** `n` copies against `base`: copy c runs with induction value
      base + CloneOffset(c). */
  function Copies(body: seq<BodyOp>, n: nat, base: Value, step: int, inLoop: bool): seq<seq<BodyOp>> {
    seq(n, c requires 0 <= c < n => InstantiateBody(body, c, Offset(base, CloneOffset(c, step, inLoop))))
  }

  /** duplicateBlock: `numDuplications` copies of the body (none when the
      count is not positive), each operation cloned with its operands rewired. */
  method DuplicateBlock(body: seq<BodyOp>, deps: seq<seq<int>>, numDuplications: int,
                        base: Value, step: int, inLoop: bool) returns (copies: seq<seq<BodyOp>>)
    requires DependenciesFit(body, deps)
    ensures |copies| == Max(numDuplications, 0)
    ensures forall c :: 0 <= c < |copies| ==> copies[c] == CloneBody(body, deps, c, base, step, inLoop)
  {
    copies := [];
    var c := 0;
    while c < numDuplications
      invariant 0 <= c == |copies| <= Max(numDuplications, 0)
      invariant forall c' :: 0 <= c' < c ==> copies[c'] == CloneBody(body, deps, c', base, step, inLoop)
    {
      var duplicated: seq<BodyOp> := [];
      for i := 0 to |body|
        invariant |duplicated| == i
        invariant forall i' :: 0 <= i' < i ==> duplicated[i'] == CloneBody(body, deps, c, base, step, inLoop)[i']
      {
        var operands := body[i].operands;
        for k := 0 to |operands|
          invariant |operands| == |body[i].operands|
          invariant forall k' :: 0 <= k' < |operands| ==>
            operands[k'] == if k' < k then Rewire(deps[i][k'], body[i].operands[k'], c, base, step, inLoop)
                            else body[i].operands[k']
        {
          var dependency := deps[i][k];
          if dependency >= 0 {
            // the result of the operation with that index in this copy
            operands := operands[k := CloneResult(c, dependency)];
          } else if dependency == LoopVarDependency {
            operands := operands[k := Offset(base, CloneOffset(c, step, inLoop))];
          }
        }
        duplicated := duplicated + [BodyOp(body[i].kind, operands)];
      }
      copies := copies + [duplicated];
      c := c + 1;
    }
  }

  /** Tagging then rewiring is instantiation: with the tags
      identifyDependencies records, every copy duplicateBlock builds is the
      body instantiated at its own induction value. */
  lemma {:induction false} CloneBodyInstantiates(body: seq<BodyOp>, deps: seq<seq<int>>, copy: nat,
                                                 base: Value, step: int, inLoop: bool)
    requires WellFormedBody(body) && DependenciesFit(body, deps)
    requires forall i, k :: 0 <= i < |body| && 0 <= k < |body[i].operands| ==>
      deps[i][k] == DependencyTag(body[i].operands[k])
    ensures CloneBody(body, deps, copy, base, step, inLoop)
         == InstantiateBody(body, copy, Offset(base, CloneOffset(copy, step, inLoop)))
  {
    var iv := Offset(base, CloneOffset(copy, step, inLoop));
    var a := CloneBody(body, deps, copy, base, step, inLoop);
    var b := InstantiateBody(body, copy, iv);
    forall i | 0 <= i < |body|
      ensures a[i] == b[i]
    {
      forall k | 0 <= k < |body[i].operands|
        ensures a[i].operands[k] == b[i].operands[k]
      {
        var v := body[i].operands[k];
        assert OperandOk(v, i);
      }
    }
  }

  /** A copy never refers to the original body: every operand of a copy of
      a well-formed body is an outside value, a result of the same copy, or
      an offset induction value. */
  lemma CopiesAreSelfContained(body: seq<BodyOp>, copy: nat, iv: Value)
    requires WellFormedBody(body)
    ensures forall i, k :: 0 <= i < |body| && 0 <= k < |body[i].operands| ==>
      var w := InstantiateBody(body, copy, iv)[i].operands[k];
      !w.BodyResult? || iv.BodyResult?
    ensures forall i, k :: 0 <= i < |body| && 0 <= k < |body[i].operands| ==>
      var w := InstantiateBody(body, copy, iv)[i].operands[k];
      w.CloneResult? ==> w == iv || (w.copy == copy && w.op < i)
  {
    forall i, k | 0 <= i < |body| && 0 <= k < |body[i].operands|
      ensures OperandOk(body[i].operands[k], i)
    {
    }
  }
}
