/** Quotients and remainders. */
module IntMod {

  lemma MulNonNegative(a: int, b: int)
    requires a >= 0 && b >= 0
    ensures a * b >= 0
  {
  }

  lemma AtLeastOnce(n: int, e: int)
    requires n >= 0 && e >= 1
    ensures n * e >= n && n * (-e) <= -n
  {
    MulNonNegative(n, e - 1);
    assert n * e == n * (e - 1) + n;
    assert n * (-e) == -(n * e);
  }

  function Quotient(a: nat, n: nat): nat
    requires n > 0
  {
    a / n
  }

  function Remainder(a: int, n: nat): (r: nat)
    requires n > 0
    ensures r < n
  {
    a % n
  }

  lemma Parts(x: nat, n: nat)
    requires n > 0
    ensures x == Quotient(x, n) * n + Remainder(x, n)
  {
  }

  /** Quotient and remainder are unique. */
  lemma DivMod(x: int, q: int, r: int, n: int)
    requires n > 0 && x == q * n + r && 0 <= r < n
    ensures x / n == q && x % n == r
  {
    var a, b := x / n, x % n;
    assert x == n * a + b;
    var e := a - q;
    assert n * e == r - b by { assert n * e == n * a - n * q; }
    if e >= 1 { AtLeastOnce(n, e); }
    if e <= -1 { AtLeastOnce(n, -e); }
  }

  lemma PartsAre(x: nat, q: nat, r: nat, n: nat)
    requires n > 0 && x == q * n + r && r < n
    ensures Quotient(x, n) == q && Remainder(x, n) == r
  {
    DivMod(x, q, r, n);
  }

  /** Numbers less than n apart have different remainders. */
  lemma CloseRemainders(x: int, t: int, n: int)
    requires n > 0 && 0 < t < n
    ensures (x + t) % n != x % n
  {
    var q, r := x / n, x % n;
    assert x == q * n + r;
    assert (q + 1) * n == q * n + n;
    if r + t < n { DivMod(x + t, q, r + t, n); } else { DivMod(x + t, q + 1, r + t - n, n); }
  }

  lemma AddMultiple(x: int, q: int, n: int)
    requires n > 0
    ensures (x + q * n) % n == x % n && (x + q * n) / n == x / n + q
  {
    assert x == n * (x / n) + x % n;
    assert (x / n + q) * n == n * (x / n) + q * n;
    DivMod(x + q * n, x / n + q, x % n, n);
  }

  lemma AddToMod(x: int, a: int, n: int)
    requires n > 0
    ensures (x % n + a) % n == (x + a) % n
  {
    assert x == n * (x / n) + x % n;
    AddMultiple(x % n + a, x / n, n);
    assert x / n * n == n * (x / n);
  }

  lemma RemainderAdd(x: int, a: int, n: nat)
    requires n > 0
    ensures Remainder(Remainder(x, n) + a, n) == Remainder(x + a, n)
  {
    AddToMod(x, a, n);
  }

  lemma RemainderTurn(x: int, n: nat)
    requires n > 0
    ensures Remainder(x + n, n) == Remainder(x, n)
  {
    AddMultiple(x, 1, n);
  }

  lemma SmallMod(x: int, n: int)
    requires 0 <= x < n
    ensures x % n == x && x / n == 0
  {
  }

  /** Remainder of division that rounds toward zero. */
  function TruncMod(a: int, b: int): int
    requires b > 0
  {
    if a >= 0 then a % b else -((-a) % b)
  }
}
