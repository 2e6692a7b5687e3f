/** Walking around Z_p in steps of a fixed size: for a prime p the walk visits everything. */
module PrimeWalk {
  import opened Bits
  import opened Blocks
  import opened IntMod

  predicate IsPrime(p: nat) {
    p >= 2 && forall d {:trigger p % d} :: 2 <= d < p ==> p % d != 0
  }

  /** Every step size below a prime p is invertible mod p. */
  lemma {:induction false} Inverse(p: nat, step: nat) returns (s: int, t: int)
    requires IsPrime(p) && 1 <= step < p
    ensures s * step + t * p == 1
    decreases step
  {
    if step == 1 { return 1, 0; }
    var q, r := p / step, p % step;
    var a, b := Inverse(p, r);
    assert p == q * step + r;
    s, t := -q * a, a + b;
    calc {
      s * step + t * p;
      -q * a * step + a * p + b * p;
      { assert q * a * step == a * (q * step); }
      a * p - a * (q * step) + b * p;
      { assert a * p - a * (q * step) == a * (p - q * step); }
      a * r + b * p;
      1;
    }
  }

  /** The entry of u at position m mod |u|. */
  function At(u: Column, m: int): Block
    requires |u| > 0
  {
    u[m % |u|]
  }

  lemma AtPeriod(u: Column, m: int, t: int)
    requires |u| > 0
    ensures At(u, m + t * |u|) == At(u, m)
  {
    AddMultiple(m, t, |u|);
  }

  /** Neighbours at distance step differ by v everywhere. */
  ghost predicate Steps(u: Column, step: nat, v: Block)
    requires |u| > 0
  {
    forall m: int :: Xor(At(u, m + step), At(u, m)) == v
  }

  lemma AtInside(u: Column, m: nat)
    requires m < |u|
    ensures At(u, m) == u[m]
  {
  }

  lemma OneStep(u: Column, step: nat, v: Block, m: int)
    requires |u| > 0 && Steps(u, step, v)
    ensures At(u, m + step) == Xor(At(u, m), v)
  {
    hide Xor;
    assert Xor(At(u, m + step), At(u, m)) == v;
    XorCancel(At(u, m + step), At(u, m));
    XorComm(v, At(u, m));
  }

  lemma {:induction false} Walk(u: Column, step: nat, v: Block, m: int, s: nat)
    requires |u| > 0 && Steps(u, step, v)
    ensures At(u, m + s * step) == if s % 2 == 0 then At(u, m) else Xor(At(u, m), v)
  {
    hide Xor, At, Steps;
    if s == 0 {
      assert m + s * step == m;
    } else {
      var here := m + (s - 1) * step;
      assert m + s * step == here + step;
      Walk(u, step, v, m, s - 1);
      OneStep(u, step, v, here);
      XorCancel(At(u, m), v);
    }
  }

  /** Some number of steps leads from position p - 1 to position m. */
  lemma StepsTo(p: nat, step: nat, m: nat) returns (s: int, q: int)
    requires IsPrime(p) && 1 <= step < p
    ensures p - 1 + s * step == m + q * p
  {
    var a, b := Inverse(p, step);
    var d := m + 1 - p;
    s, q := d * a, -d * b;
    assert d * (a * step + b * p) == d;
    assert d * (a * step + b * p) == d * a * step + d * b * p;
  }

  /** A walk of equal entries through all of Z_p that meets a zero is zero everywhere. */
  lemma WalkIsZero(u: Column, step: nat, m: nat)
    requires IsPrime(|u|) && 1 <= step < |u| && Steps(u, step, 0) && m < |u| && u[|u| - 1] == 0
    ensures u[m] == 0
  {
    hide Xor, At, Steps, IsPrime;
    var p := |u|;
    var s, q := StepsTo(p, step, m);
    AtInside(u, m);
    AtInside(u, p - 1);
    XorZero(At(u, m));
    XorZero(At(u, p - 1));
    if s >= 0 {
      Walk(u, step, 0, p - 1, s);
      AtPeriod(u, m, q);
    } else {
      Walk(u, step, 0, m, -s);
      AtPeriod(u, p - 1, -q);
      assert m + (-s) * step == p - 1 + (-q) * p;
    }
  }

  /** If p is odd, going round once shows that the common difference is zero. */
  lemma OddWalkIsConstant(u: Column, step: nat, v: Block)
    requires |u| % 2 == 1 && Steps(u, step, v)
    ensures v == 0
  {
    hide At, Steps, Xor;
    Walk(u, step, v, 0, |u|);
    AtPeriod(u, 0, step);
    assert |u| * step == step * |u|;
    var x := At(u, 0);
    assert x == Xor(x, v);
    XorCancel(v, x);
    XorZero(x);
  }

  lemma NoEarlyReturn(p: nat, step: nat, s: nat)
    requires IsPrime(p) && 1 <= step < p && 0 < s < p
    ensures (s * step) % p != 0
  {
    if (s * step) % p == 0 {
      var a, b := Inverse(p, step);
      var q := s * step / p;
      assert s * step == q * p;
      var e := a * q + s * b;
      assert s == e * p by {
        assert s == s * (a * step + b * p) == a * (s * step) + s * b * p;
        assert a * (q * p) == a * q * p;
      }
      if e >= 1 { MulNonNegative(e - 1, p); }
      if e <= 0 { MulNonNegative(-e, p); }
      assert false;
    }
  }

  /** Neighbours at distance step are equal, except perhaps across position g. */
  ghost predicate StepsBut(u: Column, step: nat, g: nat)
    requires |u| > 0
  {
    forall m: int :: m % |u| != g ==> At(u, m + step) == At(u, m)
  }

  lemma {:induction false} GapWalk(u: Column, step: nat, g: nat, s: nat)
    requires IsPrime(|u|) && 1 <= step < |u| && g < |u| && StepsBut(u, step, g) && s < |u|
    ensures At(u, g + step + s * step) == At(u, g + step)
  {
    hide At, IsPrime;
    if s == 0 {
      assert g + step + s * step == g + step;
    } else {
      GapWalk(u, step, g, s - 1);
      var here, next := g + s * step, g + step + s * step;
      assert here == g + step + (s - 1) * step && next == here + step;
      NoEarlyReturn(|u|, step, s);
      NotSamePosition(g, s * step, |u|);
    }
  }

  lemma NotSamePosition(g: nat, d: nat, p: nat)
    requires g < p && d % p != 0
    ensures (g + d) % p != g
  {
    if (g + d) % p == g {
      var q := (g + d) / p;
      assert d == q * p;
      AddMultiple(0, q, p);
    }
  }

  lemma EqualStep(u: Column, step: nat, g: nat, m: int)
    requires |u| > 0 && StepsBut(u, step, g) && m % |u| != g
    ensures At(u, m + step) == At(u, m)
  {
  }

  /** Coming round from the other side closes the gap. */
  lemma GapCloses(u: Column, step: nat, g: nat)
    requires IsPrime(|u|) && 1 <= step < |u| && g < |u| && StepsBut(u, step, g)
    ensures Steps(u, step, 0)
  {
    hide At, IsPrime, Xor, StepsBut;
    var p := |u|;
    GapWalk(u, step, g, p - 1);
    assert g + step + (p - 1) * step == g + step * p;
    AtPeriod(u, g, step);
    forall m: int ensures Xor(At(u, m + step), At(u, m)) == 0 {
      if m % p == g {
        var q := m / p;
        assert m == g + q * p && m + step == (g + step) + q * p;
        AtPeriod(u, g, q);
        AtPeriod(u, g + step, q);
      } else {
        EqualStep(u, step, g, m);
      }
      XorZero(At(u, m));
    }
  }
}
