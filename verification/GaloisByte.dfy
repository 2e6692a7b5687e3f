/** GF(256) as RAID-6 uses it, with the polynomial 285, and its operations on whole blocks. */
module GaloisByte {
  import opened Bits
  import opened GaloisField
  import opened GaloisTables
  import opened IntMod

  const F := Field(8, 285)

  lemma ByteRange()
    ensures Pow2(7) == 128 && Pow2(8) == 256
  {
    assert Pow2(4) == 16;
  }

  // ---- x is primitive modulo 285 ----

  /** The number with the given binary digits. */
  function Digits(b7: bool, b6: bool, b5: bool, b4: bool, b3: bool, b2: bool, b1: bool, b0: bool): nat {
    Above(Above(Above(Above(Above(Above(Above(Above(0, b7), b6), b5), b4), b3), b2), b1), b0)
  }

  function Above(rest: nat, low: bool): nat {
    2 * rest + if low then 1 else 0
  }

  lemma AboveParts(rest: nat, low: bool)
    ensures Above(rest, low) / 2 == rest && Above(rest, low) % 2 == if low then 1 else 0
  {
  }

  lemma FromHalves(z: nat, rest: nat, low: bool)
    requires z / 2 == rest && z % 2 == if low then 1 else 0
    ensures z == Above(rest, low)
  {
  }

  lemma ParityOfSum(a: nat, p: bool, b: nat, q: bool)
    requires a % 2 == (if p then 1 else 0) && b % 2 == (if q then 1 else 0)
    ensures (a + b) % 2 == if p != q then 1 else 0
  {
  }

  lemma XorAbove(x: nat, p: bool, y: nat, q: bool)
    ensures Xor(Above(x, p), Above(y, q)) == Above(Xor(x, y), p != q)
  {
    hide Xor, Above;
    var a, b := Above(x, p), Above(y, q);
    AboveParts(x, p);
    AboveParts(y, q);
    XorHalves(a, b);
    ParityOfSum(a, p, b, q);
    FromHalves(Xor(a, b), Xor(x, y), p != q);
  }

  lemma XorDigits(
      b7: bool, b6: bool, b5: bool, b4: bool, b3: bool, b2: bool, b1: bool, b0: bool,
      c7: bool, c6: bool, c5: bool, c4: bool, c3: bool, c2: bool, c1: bool, c0: bool)
    ensures Xor(Digits(b7, b6, b5, b4, b3, b2, b1, b0), Digits(c7, c6, c5, c4, c3, c2, c1, c0)) ==
      Digits(b7 != c7, b6 != c6, b5 != c5, b4 != c4, b3 != c3, b2 != c2, b1 != c1, b0 != c0)
  {
    hide Xor, Above;
    var x7, y7 := Above(0, b7), Above(0, c7);
    var x6, y6 := Above(x7, b6), Above(y7, c6);
    var x5, y5 := Above(x6, b5), Above(y6, c5);
    var x4, y4 := Above(x5, b4), Above(y5, c4);
    var x3, y3 := Above(x4, b3), Above(y4, c3);
    var x2, y2 := Above(x3, b2), Above(y3, c2);
    XorZero(0);
    XorAbove(0, b7, 0, c7);
    XorAbove(x7, b6, y7, c6);
    XorAbove(x6, b5, y6, c5);
    XorAbove(x5, b4, y5, c4);
    XorAbove(x4, b3, y4, c3);
    XorAbove(x3, b2, y3, c2);
    XorAbove(x2, b1, y2, c1);
    XorAbove(Above(x2, b1), b0, Above(y2, c1), c0);
  }

  /** A machine byte as a number. */
  function Value(b: bv8): nat {
    Digits(b & 128 != 0, b & 64 != 0, b & 32 != 0, b & 16 != 0, b & 8 != 0, b & 4 != 0, b & 2 != 0, b & 1 != 0)
  }

  /** A shift of a machine byte. */
  function Next(b: bv8): bv8 {
    (b << 1) ^ if b & 128 != 0 then 29 else 0
  }

  lemma NextIsStep(b: bv8)
    ensures Value(b) < 256 && Step(F, Value(b)) == Value(Next(b))
  {
    var b7, b6, b5, b4, b3, b2, b1, b0 := b & 128 != 0, b & 64 != 0, b & 32 != 0, b & 16 != 0, b & 8 != 0, b & 4 != 0,
      b & 2 != 0, b & 1 != 0;
    NextDigits(b);
    StepDigits(b7, b6, b5, b4, b3, b2, b1, b0);
  }

  lemma NextDigits(b: bv8)
    ensures var c, t := Next(b), b & 128 != 0;
      (c & 128 != 0) == (b & 64 != 0) && (c & 64 != 0) == (b & 32 != 0) && (c & 32 != 0) == (b & 16 != 0) &&
      (c & 16 != 0) == ((b & 8 != 0) != t) && (c & 8 != 0) == ((b & 4 != 0) != t) &&
      (c & 4 != 0) == ((b & 2 != 0) != t) && (c & 2 != 0) == (b & 1 != 0) && (c & 1 != 0) == t
  {
  }

  lemma DoubleDigits(b7: bool, b6: bool, b5: bool, b4: bool, b3: bool, b2: bool, b1: bool, b0: bool)
    ensures
      var y, z := Digits(b7, b6, b5, b4, b3, b2, b1, b0), Digits(b6, b5, b4, b3, b2, b1, b0, false);
      z < 256 && 2 * y == (if b7 then 256 else 0) + z && (b7 <==> y >= 128)
  {
    hide Above;
    var x6, y6 := Above(0, b6), Above(Above(0, b7), b6);
    var x5, y5 := Above(x6, b5), Above(y6, b5);
    var x4, y4 := Above(x5, b4), Above(y5, b4);
    var x3, y3 := Above(x4, b3), Above(y4, b3);
    var x2, y2 := Above(x3, b2), Above(y3, b2);
    var x1, y1 := Above(x2, b1), Above(y2, b1);
    var x0, y0 := Above(x1, b0), Above(y1, b0);
    var top := if b7 then 1 else 0;
    AboveSum(0, 0, top, 1, b7);
    AboveSum(Above(0, b7), 0, top, 1, b6);
    AboveSum(y6, x6, 2 * top, 2, b5);
    AboveSum(y5, x5, 4 * top, 4, b4);
    AboveSum(y4, x4, 8 * top, 8, b3);
    AboveSum(y3, x3, 16 * top, 16, b2);
    AboveSum(y2, x2, 32 * top, 32, b1);
    AboveSum(y1, x1, 64 * top, 64, b0);
    AboveSum(0, x0, 0, 128, false);
  }

  /** One more digit doubles the weight of the digit above the others. */
  lemma AboveSum(whole: nat, rest: nat, weight: nat, bound: nat, low: bool)
    requires rest < bound
    ensures whole == rest + weight ==> Above(whole, low) == Above(rest, low) + 2 * weight
    ensures Above(rest, low) < 2 * bound && Above(rest, false) == 2 * rest && Above(0, low) == if low then 1 else 0
  {
  }

  lemma PolynomialDigits()
    ensures Low(285, 8) == 29 == Digits(false, false, false, true, true, true, false, true)
  {
    ByteRange();
    DivMod(285, 1, 29, 256);
  }

  lemma StepDigits(b7: bool, b6: bool, b5: bool, b4: bool, b3: bool, b2: bool, b1: bool, b0: bool)
    ensures Digits(b7, b6, b5, b4, b3, b2, b1, b0) < 256
    ensures Step(F, Digits(b7, b6, b5, b4, b3, b2, b1, b0)) == Digits(b6, b5, b4, b3 != b7, b2 != b7, b1 != b7, b0, b7)
  {
    hide Xor, Bit, Digits, Pow2;
    ByteRange();
    var y := Digits(b7, b6, b5, b4, b3, b2, b1, b0);
    var shifted := Digits(b6, b5, b4, b3, b2, b1, b0, false);
    DoubleDigits(b7, b6, b5, b4, b3, b2, b1, b0);
    StepForm(F, y);
    if b7 {
      if !Bit(y, 7) { NoOverflow(F, y); }
      DivMod(2 * y, 1, shifted, 256);
      PolynomialDigits();
      XorDigits(b6, b5, b4, b3, b2, b1, b0, false, false, false, false, true, true, true, false, true);
    } else {
      NoBitsAbove(y, 7, 7);
    }
  }

  /** A listed run of shifts. */
  lemma {:induction false} Follow(run: seq<bv8>)
    requires |run| > 0 && forall i :: 0 < i < |run| ==> run[i] == Next(run[i - 1])
    ensures Steps(F, Value(run[0]), |run| - 1) == Value(run[|run| - 1])
  {
    hide Next, Step, Value;
    if |run| > 1 {
      var init := run[..|run| - 1];
      Follow(init);
      NextIsStep(init[|init| - 1]);
    }
  }

  lemma Run0()
    ensures Steps(F, Value(1), 17) == Value(152)
  {
    Follow([1, 2, 4, 8, 16, 32, 64, 128, 29, 58, 116, 232, 205, 135, 19, 38, 76, 152]);
  }

  lemma Run1()
    ensures Steps(F, Value(152), 17) == Value(78)
  {
    Follow([152, 45, 90, 180, 117, 234, 201, 143, 3, 6, 12, 24, 48, 96, 192, 157, 39, 78]);
  }

  lemma Run2()
    ensures Steps(F, Value(78), 17) == Value(10)
  {
    Follow([78, 156, 37, 74, 148, 53, 106, 212, 181, 119, 238, 193, 159, 35, 70, 140, 5, 10]);
  }

  lemma Run3()
    ensures Steps(F, Value(10), 17) == Value(153)
  {
    Follow([10, 20, 40, 80, 160, 93, 186, 105, 210, 185, 111, 222, 161, 95, 190, 97, 194, 153]);
  }

  lemma Run4()
    ensures Steps(F, Value(153), 17) == Value(214)
  {
    Follow([153, 47, 94, 188, 101, 202, 137, 15, 30, 60, 120, 240, 253, 231, 211, 187, 107, 214]);
  }

  lemma Run5()
    ensures Steps(F, Value(214), 17) == Value(68)
  {
    Follow([214, 177, 127, 254, 225, 223, 163, 91, 182, 113, 226, 217, 175, 67, 134, 17, 34, 68]);
  }

  lemma Run6()
    ensures Steps(F, Value(68), 17) == Value(147)
  {
    Follow([68, 136, 13, 26, 52, 104, 208, 189, 103, 206, 129, 31, 62, 124, 248, 237, 199, 147]);
  }

  lemma Run7()
    ensures Steps(F, Value(147), 17) == Value(79)
  {
    Follow([147, 59, 118, 236, 197, 151, 51, 102, 204, 133, 23, 46, 92, 184, 109, 218, 169, 79]);
  }

  lemma Run8()
    ensures Steps(F, Value(79), 17) == Value(146)
  {
    Follow([79, 158, 33, 66, 132, 21, 42, 84, 168, 77, 154, 41, 82, 164, 85, 170, 73, 146]);
  }

  lemma Run9()
    ensures Steps(F, Value(146), 17) == Value(215)
  {
    Follow([146, 57, 114, 228, 213, 183, 115, 230, 209, 191, 99, 198, 145, 63, 126, 252, 229, 215]);
  }

  lemma Run10()
    ensures Steps(F, Value(215), 17) == Value(220)
  {
    Follow([215, 179, 123, 246, 241, 255, 227, 219, 171, 75, 150, 49, 98, 196, 149, 55, 110, 220]);
  }

  lemma Run11()
    ensures Steps(F, Value(220), 17) == Value(221)
  {
    Follow([220, 165, 87, 174, 65, 130, 25, 50, 100, 200, 141, 7, 14, 28, 56, 112, 224, 221]);
  }

  lemma Run12()
    ensures Steps(F, Value(221), 17) == Value(69)
  {
    Follow([221, 167, 83, 166, 81, 162, 89, 178, 121, 242, 249, 239, 195, 155, 43, 86, 172, 69]);
  }

  lemma Run13()
    ensures Steps(F, Value(69), 17) == Value(11)
  {
    Follow([69, 138, 9, 18, 36, 72, 144, 61, 122, 244, 245, 247, 243, 251, 235, 203, 139, 11]);
  }

  lemma Run14()
    ensures Steps(F, Value(11), 17) == Value(1)
  {
    Follow([11, 22, 44, 88, 176, 125, 250, 233, 207, 131, 27, 54, 108, 216, 173, 71, 142, 1]);
  }

  /** The powers of x whose exponents are multiples of 17. */
  lemma Landmarks()
    ensures Steps(F, 1, 51) == Value(10) && Steps(F, 1, 85) == Value(214) && Steps(F, 1, 255) == 1
  {
    hide Value, Steps, Step;
    assert Value(1) == 1 by { OneIsOne(); }
    Run0();
    Run1();
    StepsAdd(F, 1, 17, 17);
    Run2();
    StepsAdd(F, 1, 34, 17);
    Run3();
    StepsAdd(F, 1, 51, 17);
    Run4();
    StepsAdd(F, 1, 68, 17);
    Run5();
    StepsAdd(F, 1, 85, 17);
    Run6();
    StepsAdd(F, 1, 102, 17);
    Run7();
    StepsAdd(F, 1, 119, 17);
    Run8();
    StepsAdd(F, 1, 136, 17);
    Run9();
    StepsAdd(F, 1, 153, 17);
    Run10();
    StepsAdd(F, 1, 170, 17);
    Run11();
    StepsAdd(F, 1, 187, 17);
    Run12();
    StepsAdd(F, 1, 204, 17);
    Run13();
    StepsAdd(F, 1, 221, 17);
    Run14();
    StepsAdd(F, 1, 238, 17);
  }

  lemma OneIsOne()
    ensures Value(1) == 1
  {
  }

  // ---- The order of x divides 255 and no smaller number ----

  lemma {:induction false} Return(a: nat, n: nat, m: nat)
    requires Steps(F, 1, a) == 1 && m == n * a
    ensures Steps(F, 1, m) == 1
  {
    hide Step;
    if n > 0 {
      assert m - a == (n - 1) * a;
      MulNonNegative(n - 1, a);
      Return(a, n - 1, m - a);
      StepsAdd(F, 1, m - a, a);
    }
  }

  /** If x returns to 1 after a and after b steps, it does so after gcd(a, b) steps. */
  lemma {:induction false} CommonReturn(a: nat, b: nat) returns (g: nat)
    requires a > 0 && Steps(F, 1, a) == 1 && Steps(F, 1, b) == 1
    ensures 0 < g <= a && Remainder(a, g) == 0 && Remainder(b, g) == 0 && Steps(F, 1, g) == 1
    decreases a
  {
    hide Step, Steps;
    var q, r := b / a, b % a;
    if r == 0 { return a; }
    assert b == q * a + r;
    MulNonNegative(q, a);
    Return(a, q, q * a);
    StepsAdd(F, 1, q * a, r);
    g := CommonReturn(r, a);
    var s, t := a / g, r / g;
    assert a == s * g && r == t * g;
    assert b == (q * s + t) * g by { assert q * (s * g) == q * s * g; }
    DivMod(b, q * s + t, 0, g);
  }

  lemma DivisorOf255(g: nat)
    requires 0 < g < 255 && Remainder(255, g) == 0
    ensures Remainder(15, g) == 0 || Remainder(51, g) == 0 || Remainder(85, g) == 0
  {
    var m := 255 / g;
    assert m * g == 255;
    if g >= 16 {
      if m >= 16 { MulNonNegative(m - 16, g - 16); }
      assert m == 3 || m == 5 || m == 15;
      assert g == 85 || g == 51 || g == 17;
    } else {
      assert g == 1 || g == 3 || g == 5 || g == 15;
    }
  }

  lemma MultipleReturns(g: nat, n: nat)
    requires g > 0 && Steps(F, 1, g) == 1 && Remainder(n, g) == 0
    ensures Steps(F, 1, n) == 1
  {
    hide Step, Steps;
    Parts(n, g);
    Return(g, Quotient(n, g), n);
  }

  lemma TwoSteps()
    ensures Steps(F, 1, 2) == 4
  {
    hide Step;
    NextIsStep(1);
    NextIsStep(2);
    assert Value(1) == 1 && Value(2) == 2 && Value(4) == 4;
    assert Steps(F, 1, 1) == Step(F, Steps(F, 1, 0));
    assert Steps(F, 1, 2) == Step(F, Steps(F, 1, 1));
  }

  lemma NoReturnAt15()
    ensures Steps(F, 1, 15) != 1
  {
    hide Step, Steps;
    Run0();
    TwoSteps();
    assert Value(152) == 152 && Value(1) == 1;
    StepsAdd(F, 1, 15, 2);
  }

  lemma NoEarlyReturn(d: nat)
    requires 0 < d < 255
    ensures Steps(F, 1, d) != 1
  {
    hide Step, Steps, Value, Remainder;
    if Steps(F, 1, d) == 1 {
      Landmarks();
      var g := CommonReturn(d, 255);
      DivisorOf255(g);
      NoReturnAt15();
      LandmarksDiffer();
      if Remainder(15, g) == 0 { MultipleReturns(g, 15); }
      if Remainder(51, g) == 0 { MultipleReturns(g, 51); }
      if Remainder(85, g) == 0 { MultipleReturns(g, 85); }
      assert false;
    }
  }

  lemma LandmarksDiffer()
    ensures Value(10) != 1 && Value(214) != 1
  {
    assert Value(10) == 10 && Value(214) == 214;
  }

  lemma {:induction false} BackToOne(i: nat, d: nat)
    requires Steps(F, 1, i + d) == Steps(F, 1, i)
    ensures Steps(F, 1, d) == 1
  {
    hide Step;
    ByteRange();
    if i > 0 {
      StepsNonZero(F, i - 1);
      StepsNonZero(F, i - 1 + d);
      StepInjective(F, Steps(F, 1, i - 1 + d), Steps(F, 1, i - 1));
      BackToOne(i - 1, d);
    }
  }

  lemma ByteFieldIsPrimitive()
    ensures IsField(F) && IsPrimitive(F) && Order(F) == 255
  {
    hide Step, Steps;
    ByteRange();
    forall i, j | 0 <= i < j < Order(F) ensures Steps(F, 1, i) != Steps(F, 1, j) {
      NoEarlyReturn(j - i);
      if Steps(F, 1, i) == Steps(F, 1, j) { BackToOne(i, j - i); }
    }
  }
}
