/** The unroll factor of a loop (computeLCM): the least common multiple of
    the depths of the fifos the loop body acquires, folded with std::gcd. */
module Lcm {
  import Arith

  /** `d` divides `n`. */
  predicate Divides(d: nat, n: nat) {
    if d == 0 then n == 0 else n % d == 0
  }

  /** Every member of `values` divides `m`. */
  ghost predicate CommonMultiple(values: set<nat>, m: nat) {
    forall v :: v in values ==> Divides(v, m)
  }

  /** Greatest common divisor, by subtractive Euclid (std::gcd on non-negative values). */
  function Gcd(a: nat, b: nat): nat
    decreases a + b
  {
    if a == 0 then b
    else if b == 0 then a
    else if a >= b then Gcd(a - b, b)
    else Gcd(a, b - a)
  }

  /** Gcd(a, b) divides a and b (cofactors p, q) and is an integer
      combination of them (Bezout coefficients x, y). */
  lemma {:induction false} GcdBezout(a: nat, b: nat) returns (p: nat, q: nat, x: int, y: int)
    ensures a == Gcd(a, b) * p && b == Gcd(a, b) * q
    ensures Gcd(a, b) == a * x + b * y
    decreases a + b
  {
    var g := Gcd(a, b);
    if a == 0 {
      p, q, x, y := 0, 1, 0, 1;
    } else if b == 0 {
      p, q, x, y := 1, 0, 1, 0;
    } else if a >= b {
      assert g == Gcd(a - b, b);
      var p', q', x', y' := GcdBezout(a - b, b);
      p, q, x, y := p' + q', q', x', y' - x';
      Distribute(g, p', q');
      ShiftCombination(a, b, x', y');
    } else {
      assert g == Gcd(a, b - a);
      var p', q', x', y' := GcdBezout(a, b - a);
      p, q, x, y := p', q' + p', x' - y', y';
      Distribute(g, q', p');
      ShiftCombination(b, a, y', x');
    }
  }

  lemma Distribute(g: int, a: int, b: int)
    ensures g * (a + b) == g * a + g * b
  {
  }

  lemma ShiftCombination(a: int, b: int, x: int, y: int)
    ensures a * x + b * (y - x) == (a - b) * x + b * y
  {
  }

  lemma GcdPositive(a: nat, b: nat)
    requires a > 0 || b > 0
    ensures Gcd(a, b) > 0
  {
    var p, q, x, y := GcdBezout(a, b);
  }

  /** One fold step of computeLCM: (i * l) / gcd(i, l). */
  function LcmStep(i: nat, l: nat): nat
    requires i > 0 || l > 0
  {
    GcdPositive(i, l);
    (i * l) / Gcd(i, l)
  }

  lemma DividesOfProduct(d: nat, k: nat, n: nat)
    requires n == d * k
    ensures Divides(d, n)
  {
    if d > 0 {
      Arith.MulMod(d, k);
    }
  }

  lemma DividesTransitive(a: nat, b: nat, c: nat)
    requires Divides(a, b) && Divides(b, c)
    ensures Divides(a, c)
  {
    if a > 0 && b > 0 {
      var k1, k2 := b / a, c / b;
      assert b == a * k1;
      assert c == b * k2;
      assert c == a * (k1 * k2);
      DividesOfProduct(a, k1 * k2, c);
    }
  }

  /** The algebra behind minimality: with g = i*x + l*y and r*g = i*l, a
      common multiple m = i*s = l*t of i and l is r*(t*x + s*y). */
  lemma CancelCommonMultiple(m: int, i: int, l: int, g: int, r: int, s: int, t: int, x: int, y: int)
    requires g > 0 && m == i * s && m == l * t && g == i * x + l * y && r * g == i * l
    ensures m == r * (t * x + s * y)
  {
    var k := t * x + s * y;
    assert m * g == m * (i * x) + m * (l * y) by { Distribute(m, i * x, l * y); }
    assert m * (i * x) == (i * l) * (t * x) by { MulRearrange(l, t, i, x); }
    assert m * (l * y) == (i * l) * (s * y) by { MulRearrange(i, s, l, y); }
    assert (i * l) * (t * x) + (i * l) * (s * y) == (i * l) * k by { Distribute(i * l, t * x, s * y); }
    assert (i * l) * k == r * k * g by { MulRearrange(r, g, k, 1); }
    assert (m - r * k) * g == 0 by { Distribute(g, m, -(r * k)); }
    Arith.MulSign(m - r * k, g);
  }

  lemma MulRearrange(a: int, b: int, c: int, d: int)
    ensures (a * b) * (c * d) == (c * a) * (b * d)
  {
  }

  /** The step's value in terms of the gcd's cofactors: i = g*p and l = g*q
      give (i*l)/g = p*l = i*q. */
  lemma LcmStepCofactors(i: nat, l: nat) returns (p: nat, q: nat)
    requires i > 0 || l > 0
    ensures LcmStep(i, l) == p * l && LcmStep(i, l) == i * q
    ensures LcmStep(i, l) * Gcd(i, l) == i * l
    ensures i > 0 ==> p > 0
  {
    var g := Gcd(i, l);
    var x, y;
    p, q, x, y := GcdBezout(i, l);
    GcdPositive(i, l);
    Arith.MulAssoc(g, p, l);
    Arith.MulMod(g, p * l);
    Arith.MulAssoc(p, g, q);
    assert p * l == i * q;
  }

  /** The step's result is a common multiple of i and l ... */
  lemma LcmStepDivides(i: nat, l: nat)
    requires i > 0 || l > 0
    ensures Divides(i, LcmStep(i, l)) && Divides(l, LcmStep(i, l))
    ensures LcmStep(i, l) == 0 <==> i == 0 || l == 0
    ensures LcmStep(i, l) * Gcd(i, l) == i * l
  {
    var r := LcmStep(i, l);
    var p, q := LcmStepCofactors(i, l);
    DividesOfProduct(l, p, r);
    DividesOfProduct(i, q, r);
    if i > 0 && l > 0 {
      Arith.MulSign(p, l);
    }
  }

  /** ... and it divides every other common multiple of i and l. */
  lemma LcmStepLeast(i: nat, l: nat, m: nat)
    requires i > 0 || l > 0
    requires Divides(i, m) && Divides(l, m)
    ensures Divides(LcmStep(i, l), m)
  {
    if i > 0 && l > 0 {
      var k := LcmQuotient(i, l, m);
      DividesOfProduct(LcmStep(i, l), k, m);
    }
  }

  /** The cofactor of the step's value in a common multiple of i and l. */
  lemma LcmQuotient(i: nat, l: nat, m: nat) returns (k: nat)
    requires i > 0 && l > 0 && Divides(i, m) && Divides(l, m)
    ensures m == LcmStep(i, l) * k
  {
    var g := Gcd(i, l);
    var r := LcmStep(i, l);
    var p, q, x, y := GcdBezout(i, l);
    LcmStepDivides(i, l);
    var s, t := m / i, m / l;
    Arith.DivExact(m, i);
    Arith.DivExact(m, l);
    var k' := t * x + s * y;
    CancelCommonMultiple(m, i, l, g, r, s, t, x, y);
    Arith.MulSign(k', r);
    k := k';
  }

  /** computeLCM: folds the step over the set (std::set yields its members
      in ascending order; the result does not depend on the order). The
      result is 1 for the empty set, 0 exactly when 0 is a member, a common
      multiple of the members, and divides every other common multiple. */
  method ComputeLcm(values: set<nat>) returns (lcm: nat)
    ensures values == {} ==> lcm == 1
    ensures lcm == 0 <==> 0 in values
    ensures CommonMultiple(values, lcm)
    ensures forall m: nat :: CommonMultiple(values, m) ==> Divides(lcm, m)
  {
    lcm := 1;
    var rest := values;
    while rest != {}
      invariant rest <= values
      invariant rest == values ==> lcm == 1
      invariant lcm == 0 <==> 0 in values - rest
      invariant CommonMultiple(values - rest, lcm)
      invariant forall m: nat :: CommonMultiple(values - rest, m) ==> Divides(lcm, m)
      decreases rest
    {
      var i :| i in rest;
      ghost var done := values - rest;
      ghost var old_lcm := lcm;
      LcmStepDivides(i, lcm);
      lcm := LcmStep(i, lcm);
      rest := rest - {i};
      assert values - rest == done + {i};
      forall v | v in values - rest
        ensures Divides(v, lcm)
      {
        if v != i {
          DividesTransitive(v, old_lcm, lcm);
        }
      }
      forall m: nat | CommonMultiple(values - rest, m)
        ensures Divides(lcm, m)
      {
        assert CommonMultiple(done, m);
        LcmStepLeast(i, old_lcm, m);
      }
    }
  }
}
