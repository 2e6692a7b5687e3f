/** Arithmetic of GF(2^w): words are polynomials over GF(2), reduced by a primitive polynomial
    that is given with or without its leading term. */
module GaloisField {
  import opened Bits
  import IntMod

  datatype Field = Field(w: nat, poly: nat)

  /** Every polynomial the library uses is odd. */
  predicate IsField(f: Field) {
    f.w >= 1 && f.poly % 2 == 1
  }

  predicate IsWord(f: Field, x: nat) {
    x < Pow2(f.w)
  }

  /** The low w bits of x. */
  function Low(x: nat, w: nat): (r: nat)
    ensures r < Pow2(w)
  {
    x % Pow2(w)
  }

  /** One left shift with reduction: multiplication by the polynomial x. */
  function Step(f: Field, y: nat): (r: nat)
    requires f.w >= 1
    ensures IsWord(f, y) ==> IsWord(f, r)
  {
    NoOverflow(f, y);
    if Bit(y, f.w - 1) then Low(Xor(2 * y, f.poly), f.w) else 2 * y
  }

  lemma NoOverflow(f: Field, y: nat)
    requires f.w >= 1
    ensures IsWord(f, y) && !Bit(y, f.w - 1) ==> IsWord(f, 2 * y)
  {
    if IsWord(f, y) && !Bit(y, f.w - 1) {
      forall i: nat | i >= f.w - 1 ensures !Bit(y, i) { if i >= f.w { NoBitsAbove(y, f.w, i); } }
      BelowByBits(y, f.w - 1);
    }
  }

  /** n shifts. */
  function Steps(f: Field, y: nat, n: nat): (r: nat)
    requires f.w >= 1
    ensures IsWord(f, y) ==> IsWord(f, r)
  {
    if n == 0 then y else Step(f, Steps(f, y, n - 1))
  }

  /** The sum of the shifts of y that the bits of x select. */
  function Mul(f: Field, x: nat, y: nat): (r: nat)
    requires f.w >= 1
    ensures IsWord(f, y) ==> IsWord(f, r)
  {
    if x == 0 then 0
    else
      var first, rest := if x % 2 == 1 then y else 0, Mul(f, x / 2, Step(f, y));
      XorWord(f, first, rest);
      Xor(first, rest)
  }

  lemma XorWord(f: Field, a: nat, b: nat)
    ensures IsWord(f, a) && IsWord(f, b) ==> IsWord(f, Xor(a, b))
  {
    hide Xor;
    if IsWord(f, a) && IsWord(f, b) { XorBound(a, b, f.w); }
  }

  /** The whole polynomial, leading term included. */
  function Modulus(f: Field): nat {
    Pow2(f.w) + Low(f.poly, f.w)
  }

  // ---- Shifts and XOR ----

  lemma SameHalves(x: nat, y: nat)
    requires x / 2 == y / 2 && x % 2 == y % 2
    ensures x == y
  {
  }

  lemma XorDouble(a: nat, b: nat)
    ensures Xor(2 * a, 2 * b) == 2 * Xor(a, b)
  {
    hide Xor;
    XorHalves(2 * a, 2 * b);
    SameHalves(Xor(2 * a, 2 * b), 2 * Xor(a, b));
  }

  lemma LowHalf(x: nat, w: nat)
    requires w > 0
    ensures Low(x, w) % 2 == x % 2 && Low(x, w) / 2 == Low(x / 2, w - 1)
  {
    var p := Pow2(w - 1);
    var q, r := x / 2 / p, x / 2 % p;
    assert x == 2 * (q * p + r) + x % 2;
    TimesTwice(q, p);
    IntMod.DivMod(x, q, 2 * r + x % 2, 2 * p);
  }

  lemma TimesTwice(q: int, p: int)
    ensures q * (2 * p) == 2 * (q * p)
  {
  }

  lemma LowNone(x: nat)
    ensures Low(x, 0) == 0
  {
  }

  lemma {:induction false} XorLow(a: nat, b: nat, w: nat)
    ensures Low(Xor(a, b), w) == Xor(Low(a, w), Low(b, w))
  {
    hide Xor, Low;
    if w == 0 {
      LowNone(a);
      LowNone(b);
      LowNone(Xor(a, b));
      XorZero(0);
    } else {
      LowHalf(a, w);
      LowHalf(b, w);
      LowHalf(Xor(a, b), w);
      XorLow(a / 2, b / 2, w - 1);
      XorHalves(a, b);
      XorHalves(Low(a, w), Low(b, w));
      SameHalves(Low(Xor(a, b), w), Xor(Low(a, w), Low(b, w)));
    }
  }

  /** A shift of a word, with the reduction as an addition. */
  lemma StepForm(f: Field, y: nat)
    requires f.w >= 1 && IsWord(f, y)
    ensures Step(f, y) == Xor(Low(2 * y, f.w), if Bit(y, f.w - 1) then Low(f.poly, f.w) else 0)
  {
    hide Xor, Bit, Pow2;
    NoOverflow(f, y);
    if Bit(y, f.w - 1) {
      XorLow(2 * y, f.poly, f.w);
    } else {
      IntMod.SmallMod(2 * y, Pow2(f.w));
      XorZero(2 * y);
    }
  }

  lemma StepSum(f: Field, a: nat, b: nat)
    requires f.w >= 1 && IsWord(f, a) && IsWord(f, b)
    ensures IsWord(f, Xor(a, b)) && Step(f, Xor(a, b)) == Xor(Step(f, a), Step(f, b))
  {
    hide Xor, Bit, Step, Pow2;
    XorBound(a, b, f.w);
    StepForm(f, a);
    StepForm(f, b);
    StepForm(f, Xor(a, b));
    BitOfXor(a, b, f.w - 1);
    XorDouble(a, b);
    XorLow(2 * a, 2 * b, f.w);
    var p := Low(f.poly, f.w);
    var s, t := if Bit(a, f.w - 1) then p else 0, if Bit(b, f.w - 1) then p else 0;
    XorSwap(Low(2 * a, f.w), s, Low(2 * b, f.w), t);
    XorZero(p);
    XorZero(0);
  }

  lemma LowOfZero(w: nat)
    ensures Low(0, w) == 0
  {
  }

  lemma StepZero(f: Field, y: nat)
    requires IsField(f) && IsWord(f, y)
    ensures Step(f, y) == 0 <==> y == 0
  {
    hide Bit, Xor, Pow2, Low;
    LowOfZero(f.w);
    BitOfZero(f.w - 1);
    LowHalf(Xor(2 * y, f.poly), f.w);
    XorHalves(2 * y, f.poly);
    assert (2 * y + f.poly) % 2 == 1;
  }

  /** With an odd polynomial shifting loses nothing. */
  lemma StepInjective(f: Field, a: nat, b: nat)
    requires IsField(f) && IsWord(f, a) && IsWord(f, b) && Step(f, a) == Step(f, b)
    ensures a == b
  {
    hide Xor, Step;
    StepSum(f, a, b);
    XorZero(Step(f, a));
    StepZero(f, Xor(a, b));
    EqualIfXorZero(a, b);
  }

  /** A word is its low bit and the shift of the rest. */
  lemma SplitLow(f: Field, x: nat)
    requires f.w >= 1 && IsWord(f, x)
    ensures IsWord(f, x / 2) && IsWord(f, x % 2) && x == Xor(x % 2, Step(f, x / 2))
  {
    hide Bit, Xor;
    assert Pow2(f.w) == 2 * Pow2(f.w - 1);
    NoBitsAbove(x / 2, f.w - 1, f.w - 1);
    assert Step(f, x / 2) == 2 * (x / 2);
    XorHalves(x % 2, 2 * (x / 2));
    XorZero(x / 2);
    var y := Xor(x % 2, 2 * (x / 2));
    assert y / 2 == x / 2 && y % 2 == x % 2;
  }

  // ---- Multiplication ----

  lemma MulUnfold(f: Field, x: nat, y: nat)
    requires f.w >= 1
    ensures Mul(f, x, y) == Xor(if x % 2 == 1 then y else 0, Mul(f, x / 2, Step(f, y)))
    ensures Mul(f, 0, y) == 0
  {
    XorZero(0);
  }

  lemma {:induction false} MulRight(f: Field, x: nat, y: nat, z: nat)
    requires f.w >= 1 && IsWord(f, y) && IsWord(f, z)
    ensures Mul(f, x, Xor(y, z)) == Xor(Mul(f, x, y), Mul(f, x, z))
  {
    hide Xor, Mul, Step, Bit;
    XorZero(0);
    MulUnfold(f, x, y);
    MulUnfold(f, x, z);
    MulUnfold(f, x, Xor(y, z));
    if x > 0 {
      StepSum(f, y, z);
      MulRight(f, x / 2, Step(f, y), Step(f, z));
      var a, b := Mul(f, x / 2, Step(f, y)), Mul(f, x / 2, Step(f, z));
      if x % 2 == 1 { XorSwap(y, z, a, b); } else { XorZero(a); XorZero(b); XorZero(Xor(a, b)); }
    }
  }

  lemma {:induction false} MulLeft(f: Field, x: nat, u: nat, y: nat)
    requires f.w >= 1
    ensures Mul(f, Xor(x, u), y) == Xor(Mul(f, x, y), Mul(f, u, y))
    decreases x + u
  {
    hide Xor, Mul, Step, Bit;
    XorZero(0);
    MulUnfold(f, 0, y);
    if x > 0 || u > 0 {
      XorHalves(x, u);
      MulLeft(f, x / 2, u / 2, Step(f, y));
      MulUnfold(f, x, y);
      MulUnfold(f, u, y);
      MulUnfold(f, Xor(x, u), y);
      var s, t := if x % 2 == 1 then y else 0, if u % 2 == 1 then y else 0;
      XorSwap(s, Mul(f, x / 2, Step(f, y)), t, Mul(f, u / 2, Step(f, y)));
      XorZero(y);
      XorZero(0);
    }
  }

  lemma {:induction false} MulStep(f: Field, x: nat, y: nat)
    requires f.w >= 1 && IsWord(f, y)
    ensures Mul(f, x, Step(f, y)) == Step(f, Mul(f, x, y))
  {
    hide Xor, Mul, Step, Bit;
    MulUnfold(f, x, y);
    MulUnfold(f, x, Step(f, y));
    ShiftOfZero(f);
    if x > 0 {
      MulStep(f, x / 2, Step(f, y));
      StepSum(f, if x % 2 == 1 then y else 0, Mul(f, x / 2, Step(f, y)));
    }
  }

  lemma ShiftOfZero(f: Field)
    requires f.w >= 1
    ensures Step(f, 0) == 0
  {
    BitOfZero(f.w - 1);
  }

  lemma MulDouble(f: Field, x: nat, y: nat)
    requires f.w >= 1 && IsWord(f, y)
    ensures Mul(f, 2 * x, y) == Step(f, Mul(f, x, y))
  {
    hide Xor, Mul, Step, Bit;
    MulUnfold(f, 2 * x, y);
    XorZero(Mul(f, x, Step(f, y)));
    MulStep(f, x, y);
  }

  lemma {:induction false} MulOne(f: Field, x: nat)
    requires f.w >= 1 && IsWord(f, x)
    ensures IsWord(f, 1) && Mul(f, x, 1) == x && Mul(f, 1, x) == x
  {
    assert IsWord(f, 1);
    assert Mul(f, 1, x) == Xor(x, Mul(f, 0, Step(f, x)));
    XorZero(x);
    hide Xor, Mul, Step, Bit;
    MulUnfold(f, x, 1);
    if x > 0 {
      SplitLow(f, x);
      MulOne(f, x / 2);
      MulStep(f, x / 2, 1);
    }
  }

  /** The polynomial itself counts as zero. */
  lemma {:induction false} MulModulus(f: Field, y: nat)
    requires f.w >= 1 && IsWord(f, y)
    ensures Mul(f, Modulus(f), y) == 0
  {
    hide Xor, Mul, Step, Bit;
    if y == 0 {
      MulOfZero(f, Modulus(f));
    } else if y == 1 {
      MulModulusOne(f);
    } else {
      SplitLow(f, y);
      MulModulus(f, y / 2);
      MulModulus(f, y % 2);
      MulRight(f, Modulus(f), y % 2, Step(f, y / 2));
      MulStep(f, Modulus(f), y / 2);
      ShiftOfZero(f);
      XorZero(0);
    }
  }

  lemma {:induction false} MulOfZero(f: Field, x: nat)
    requires f.w >= 1
    ensures Mul(f, x, 0) == 0
  {
    ShiftOfZero(f);
    XorZero(0);
    if x > 0 { MulOfZero(f, x / 2); }
  }

  lemma MulModulusOne(f: Field)
    requires f.w >= 1
    ensures Mul(f, Modulus(f), 1) == 0
  {
    hide Xor, Mul, Bit;
    var p, h := Low(f.poly, f.w), Pow2(f.w - 1);
    assert Pow2(f.w) == 2 * h;
    MulOne(f, p);
    MulOne(f, h);
    MulDouble(f, h, 1);
    BitOfPow2(f.w - 1, f.w - 1);
    XorLow(2 * h, f.poly, f.w);
    assert Low(2 * h, f.w) == 0;
    XorZero(p);
    assert Step(f, h) == p;
    AddHigh(f.w, p);
    MulLeft(f, 2 * h, p, 1);
  }

  /** Adding a power of two above a word is XOR. */
  lemma {:induction false} AddHigh(w: nat, p: nat)
    requires p < Pow2(w)
    ensures Pow2(w) + p == Xor(Pow2(w), p)
  {
    hide Xor;
    if w == 0 {
      XorZero(1);
    } else {
      AddHigh(w - 1, p / 2);
      XorHalves(Pow2(w), p);
      assert Xor(Pow2(w), p) == 2 * (Xor(Pow2(w), p) / 2) + Xor(Pow2(w), p) % 2;
    }
  }

  /** A shift as an addition of the whole polynomial. */
  lemma StepByModulus(f: Field, y: nat)
    requires f.w >= 1 && IsWord(f, y)
    ensures 2 * y == Xor(Step(f, y), if Bit(y, f.w - 1) then Modulus(f) else 0)
  {
    hide Xor, Bit;
    StepForm(f, y);
    var n, r, p := Pow2(f.w), Low(2 * y, f.w), Low(f.poly, f.w);
    if Bit(y, f.w - 1) {
      HighBit(f.w, y);
      assert 2 * y == n + r;
      AddHigh(f.w, p);
      AddHigh(f.w, r);
      XorComm(n, p);
      XorAssoc(r, p, Xor(p, n));
      XorCancel(n, p);
      XorComm(r, n);
    } else {
      XorZero(2 * y);
    }
  }

  lemma HighBit(w: nat, y: nat)
    requires w >= 1 && y < Pow2(w) && Bit(y, w - 1)
    ensures Pow2(w) <= 2 * y < 2 * Pow2(w) && Low(2 * y, w) == 2 * y - Pow2(w)
  {
    if y < Pow2(w - 1) { NoBitsAbove(y, w - 1, w - 1); }
    IntMod.DivMod(2 * y, 1, 2 * y - Pow2(w), Pow2(w));
  }

  lemma MulStepLeft(f: Field, x: nat, y: nat)
    requires f.w >= 1 && IsWord(f, x) && IsWord(f, y)
    ensures Mul(f, Step(f, x), y) == Step(f, Mul(f, x, y))
  {
    hide Xor, Mul, Step, Bit;
    StepByModulus(f, x);
    MulDouble(f, x, y);
    MulLeft(f, Step(f, x), if Bit(x, f.w - 1) then Modulus(f) else 0, y);
    MulModulus(f, y);
    MulUnfold(f, 0, y);
    XorZero(Mul(f, Step(f, x), y));
  }

  lemma {:induction false} MulAssoc(f: Field, x: nat, y: nat, z: nat)
    requires f.w >= 1 && IsWord(f, y) && IsWord(f, z)
    ensures Mul(f, Mul(f, x, y), z) == Mul(f, x, Mul(f, y, z))
  {
    hide Xor, Mul, Step, Bit;
    var u := Step(f, y);
    MulUnfold(f, x, y);
    MulUnfold(f, x, Mul(f, y, z));
    MulUnfold(f, 0, z);
    if x > 0 {
      MulAssoc(f, x / 2, u, z);
      MulLeft(f, if x % 2 == 1 then y else 0, Mul(f, x / 2, u), z);
      MulStepLeft(f, y, z);
    }
  }

  lemma {:induction false} MulComm(f: Field, x: nat, y: nat)
    requires f.w >= 1 && IsWord(f, x) && IsWord(f, y)
    ensures Mul(f, x, y) == Mul(f, y, x)
  {
    hide Xor, Mul, Step, Bit;
    MulUnfold(f, x, y);
    MulOfZero(f, y);
    if x > 0 {
      SplitLow(f, x);
      MulComm(f, x / 2, y);
      MulStep(f, x / 2, y);
      MulStep(f, y, x / 2);
      MulRight(f, y, x % 2, Step(f, x / 2));
      MulOne(f, y);
    }
  }

  // ---- Mul is the product of polynomials over GF(2), modulo the field's polynomial ----

  function Product(x: nat, y: nat): nat {
    if x == 0 then 0 else Xor(if x % 2 == 1 then y else 0, Product(x / 2, 2 * y))
  }

  /** r is the remainder of x times y. */
  ghost predicate IsReducedProduct(f: Field, x: nat, y: nat, r: nat) {
    IsWord(f, r) && exists q: nat :: Product(x, y) == Xor(Product(q, Modulus(f)), r)
  }

  lemma {:induction false} ProductRight(x: nat, y: nat, z: nat)
    ensures Product(x, Xor(y, z)) == Xor(Product(x, y), Product(x, z))
  {
    hide Xor;
    XorZero(0);
    if x > 0 {
      XorDouble(y, z);
      ProductRight(x / 2, 2 * y, 2 * z);
      var a, b := Product(x / 2, 2 * y), Product(x / 2, 2 * z);
      if x % 2 == 1 { XorSwap(y, z, a, b); } else { XorZero(a); XorZero(b); XorZero(Xor(a, b)); }
    }
  }

  lemma ProductUnfold(x: nat, y: nat)
    ensures Product(x, y) == Xor(if x % 2 == 1 then y else 0, Product(x / 2, 2 * y))
    ensures Product(0, y) == 0
  {
    XorZero(0);
  }

  lemma {:induction false} ProductLeft(x: nat, u: nat, y: nat)
    ensures Product(Xor(x, u), y) == Xor(Product(x, y), Product(u, y))
    decreases x + u
  {
    hide Xor, Product;
    XorZero(0);
    ProductUnfold(0, y);
    if x > 0 || u > 0 {
      XorHalves(x, u);
      ProductLeft(x / 2, u / 2, 2 * y);
      ProductUnfold(x, y);
      ProductUnfold(u, y);
      ProductUnfold(Xor(x, u), y);
      XorSwap(if x % 2 == 1 then y else 0, Product(x / 2, 2 * y), if u % 2 == 1 then y else 0, Product(u / 2, 2 * y));
      XorZero(y);
      XorZero(0);
    }
  }

  lemma {:induction false} ProductOfZero(x: nat)
    ensures Product(x, 0) == 0
  {
    XorZero(0);
    if x > 0 { ProductOfZero(x / 2); }
  }

  lemma {:induction false} MulQuotient(f: Field, x: nat, y: nat) returns (q: nat)
    requires f.w >= 1 && IsWord(f, y)
    ensures Product(x, y) == Xor(Product(q, Modulus(f)), Mul(f, x, y))
  {
    hide Xor, Mul, Step, Bit, Product;
    MulUnfold(f, x, y);
    ProductUnfold(x, y);
    ProductUnfold(0, Modulus(f));
    if x == 0 {
      XorZero(0);
      return 0;
    }
    var s, t := Step(f, y), if Bit(y, f.w - 1) then Modulus(f) else 0;
    var rest := MulQuotient(f, x / 2, s);
    StepByModulus(f, y);
    ProductRight(x / 2, s, t);
    ProductOfZero(x / 2);
    q := Xor(if Bit(y, f.w - 1) then x / 2 else 0, rest);
    ProductLeft(if Bit(y, f.w - 1) then x / 2 else 0, rest, Modulus(f));
    var a, b, c, e := Product(x / 2, t), Product(rest, Modulus(f)), Mul(f, x / 2, s), if x % 2 == 1 then y else 0;
    assert Product(q, Modulus(f)) == Xor(a, b);
    calc {
      Xor(e, Xor(Xor(b, c), a));
      { XorRight(b, c, a); XorComm(a, b); }
      Xor(e, Xor(Xor(a, b), c));
      { XorAssoc(e, Xor(a, b), c); XorComm(e, Xor(a, b)); XorAssoc(Xor(a, b), e, c); }
      Xor(Xor(a, b), Xor(e, c));
    }
  }

  lemma XorTop(u: nat, v: nat, n: nat)
    requires Pow2(n) <= u < Pow2(n + 1) && v < Pow2(n)
    ensures Pow2(n) <= Xor(u, v) < Pow2(n + 1)
  {
    XorBound(u, v, n + 1);
    if Xor(u, v) < Pow2(n) {
      XorBound(Xor(u, v), v, n);
      XorCancel(u, v);
    }
  }

  /** Degrees add up. */
  lemma {:induction false} ProductDegree(x: nat, y: nat, a: nat, c: nat)
    requires Pow2(a) <= x < Pow2(a + 1) && Pow2(c) <= y < Pow2(c + 1)
    ensures Pow2(a + c) <= Product(x, y) < Pow2(a + c + 1)
  {
    hide Xor;
    if a == 0 {
      assert x == 1;
      XorZero(y);
      assert Product(0, 2 * y) == 0;
    } else {
      ProductDegree(x / 2, 2 * y, a - 1, c + 1);
      var p := Product(x / 2, 2 * y);
      Pow2Grows(c + 1, a + c);
      XorTop(p, y, a + c);
      XorComm(p, y);
      XorZero(p);
    }
  }

  lemma {:induction false} Pow2Grows(a: nat, b: nat)
    requires a <= b
    ensures Pow2(a) <= Pow2(b)
  {
    if a < b { Pow2Grows(a, b - 1); }
  }

  lemma {:induction false} Degree(x: nat) returns (a: nat)
    requires x > 0
    ensures Pow2(a) <= x < Pow2(a + 1)
  {
    if x == 1 {
      a := 0;
    } else {
      var b := Degree(x / 2);
      a := b + 1;
    }
  }

  lemma ReducedProductIsUnique(f: Field, x: nat, y: nat, r: nat, s: nat)
    requires IsReducedProduct(f, x, y, r) && IsReducedProduct(f, x, y, s)
    ensures r == s
  {
    hide Xor, Product;
    var m := Modulus(f);
    var q: nat :| Product(x, y) == Xor(Product(q, m), r);
    var t: nat :| Product(x, y) == Xor(Product(t, m), s);
    var a, b, z := Product(q, m), Product(t, m), Product(x, y);
    XorCancel(r, a);
    XorCancel(s, b);
    assert Xor(a, z) == r && Xor(b, z) == s;
    XorSwap(a, z, b, z);
    XorZero(z);
    XorZero(Xor(a, b));
    ProductLeft(q, t, m);
    XorBound(r, s, f.w);
    if Xor(q, t) > 0 {
      var d := Degree(Xor(q, t));
      ProductDegree(Xor(q, t), m, d, f.w);
      Pow2Grows(f.w, d + f.w);
      assert false;
    }
    ProductUnfold(0, m);
    EqualIfXorZero(r, s);
  }

  /** The shift product is the remainder of the polynomial product, and nothing else is. */
  lemma MulIsReducedProduct(f: Field, x: nat, y: nat, r: nat)
    requires f.w >= 1 && IsWord(f, y)
    ensures r == Mul(f, x, y) <==> IsReducedProduct(f, x, y, r)
  {
    var q := MulQuotient(f, x, y);
    assert IsReducedProduct(f, x, y, Mul(f, x, y));
    if IsReducedProduct(f, x, y, r) { ReducedProductIsUnique(f, x, y, r, Mul(f, x, y)); }
  }
}
