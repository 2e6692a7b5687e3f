/** Multiplication of 32-bit words from tables of byte products. One table serves all pairs of
    byte positions with the same sum. */
module GaloisSplit {
  import opened Bits
  import opened GaloisField
  import opened GaloisTables
  import opened IntMod

  lemma ByteValues()
    ensures Pow2(8) == 256
  {
    assert Pow2(4) == 16;
  }

  function Shr(x: nat, m: nat): nat {
    if m == 0 then x else Shr(x / 2, m - 1)
  }

  /** Bits 8i to 8i + 7 of x. */
  function Byte(x: nat, i: nat): (b: nat)
    ensures b < 256
  {
    ByteValues();
    Low(Shr(x, 8 * i), 8)
  }

  /** The product of a and b as polynomials, shifted s bytes to the left. */
  function ByteProduct(f: Field, a: nat, b: nat, s: nat): nat
    requires f.w >= 1
  {
    Steps(f, Mul(f, a, b), 8 * s)
  }

  /** What table s holds for bytes a and b. */
  ghost predicate IsSplitTable(f: Field, table: array2<nat>, s: nat)
    requires f.w >= 1
    reads table
  {
    table.Length0 == 7 && table.Length1 == 65536 && s < 7 &&
    forall a, b {:trigger ByteProduct(f, a, b, s)} :: 0 <= a < 256 && 0 <= b < 256 ==>
      table[s, a * 256 + b] == ByteProduct(f, a, b, s)
  }

  lemma {:induction false} ShlBound(b: nat, n: nat, t: nat)
    requires b < Pow2(n)
    ensures Shl(b, t) < Pow2(n + t)
  {
    if t > 0 {
      ShlBound(b, n, t - 1);
      DoubleShl(b, t);
    }
  }

  /** A shift that does not overflow is a plain shift. */
  lemma {:induction false} PlainShift(f: Field, b: nat, n: nat, t: nat)
    requires f.w >= 1 && b < Pow2(n) && n + t <= f.w
    ensures IsWord(f, Shl(b, t)) && Shl(b, t) == Steps(f, b, t)
  {
    hide Shl, Step, Pow2;
    ShlBound(b, n, t);
    Pow2Grows(n + t, f.w);
    if t == 0 {
      ShlByNone(b);
    } else {
      PlainShift(f, b, n, t - 1);
      DoubleShl(b, t);
      ShlBound(b, n, t - 1);
      Pow2Grows(n + t - 1, f.w - 1);
      PlainStep(f, Shl(b, t - 1));
    }
  }

  lemma ShlByNone(b: nat)
    ensures Shl(b, 0) == b
  {
  }

  lemma PlainStep(f: Field, y: nat)
    requires f.w >= 1 && y < Pow2(f.w - 1)
    ensures Step(f, y) == 2 * y
  {
    hide Pow2;
    NoBitsAbove(y, f.w - 1, f.w - 1);
  }

  lemma {:induction false} ShiftLeftFactor(f: Field, a: nat, m: nat, y: nat)
    requires f.w >= 1 && IsWord(f, y)
    ensures Mul(f, Shl(a, m), y) == Steps(f, Mul(f, a, y), m)
  {
    hide Mul, Step;
    if m > 0 {
      ShiftLeftFactor(f, a, m - 1, y);
      DoubleShl(a, m);
      MulDouble(f, Shl(a, m - 1), y);
    }
  }

  lemma {:induction false} ShiftRightFactor(f: Field, a: nat, b: nat, t: nat)
    requires f.w >= 1 && IsWord(f, b)
    ensures Mul(f, a, Steps(f, b, t)) == Steps(f, Mul(f, a, b), t)
  {
    hide Mul, Step;
    if t > 0 {
      ShiftRightFactor(f, a, b, t - 1);
      MulStep(f, a, Steps(f, b, t - 1));
    }
  }

  /** The product of two shifted bytes depends on the sum of their positions only. */
  lemma ShiftedBytes(f: Field, a: nat, b: nat, i: nat, j: nat)
    requires f.w == 32 && a < 256 && b < 256 && i < 4 && j < 4
    ensures IsWord(f, Shl(a, 8 * i)) && IsWord(f, Shl(b, 8 * j))
    ensures Mul(f, Shl(a, 8 * i), Shl(b, 8 * j)) == ByteProduct(f, a, b, i + j)
  {
    hide Mul, Steps, Shl, Pow2;
    ByteValues();
    PlainShift(f, a, 8, 8 * i);
    PlainShift(f, b, 8, 8 * j);
    Pow2Grows(8, 32);
    ShiftLeftFactor(f, a, 8 * i, Shl(b, 8 * j));
    ShiftRightFactor(f, a, b, 8 * j);
    StepsAdd(f, Mul(f, a, b), 8 * j, 8 * i);
  }

  /** Fills the table for byte positions i and j. */
  method FillTable(f: Field, table: array2<nat>, i: nat, j: nat)
    requires f.w == 32 && table.Length0 == 7 && table.Length1 == 65536 && i < 4 && j < 4
    modifies table
    ensures IsSplitTable(f, table, i + j)
    ensures forall s, e :: 0 <= s < 7 && 0 <= e < 65536 && s != i + j ==> table[s, e] == old(table[s, e])
  {
    hide Mul, ByteProduct, Shl;
    var index := 0;
    for p1 := 0 to 256
      invariant index == p1 * 256
      invariant forall a, b {:trigger ByteProduct(f, a, b, i + j)} :: 0 <= a < p1 && 0 <= b < 256 ==>
        table[i + j, a * 256 + b] == ByteProduct(f, a, b, i + j)
      invariant forall s, e :: 0 <= s < 7 && 0 <= e < 65536 && s != i + j ==> table[s, e] == old(table[s, e])
    {
      for p2 := 0 to 256
        invariant index == p1 * 256 + p2
        invariant forall a, b {:trigger ByteProduct(f, a, b, i + j)} ::
          0 <= a <= p1 && 0 <= b < 256 && (a < p1 || b < p2) ==>
          table[i + j, a * 256 + b] == ByteProduct(f, a, b, i + j)
        invariant forall s, e :: 0 <= s < 7 && 0 <= e < 65536 && s != i + j ==> table[s, e] == old(table[s, e])
      {
        ShiftedBytes(f, p1, p2, i, j);
        var product := ShiftMultiply(f, Shl(p1, i * 8), Shl(p2, j * 8));
        table[i + j, index] := product;
        index := index + 1;
      }
    }
  }

  /** The seven tables: positions 0 to 3 from the low byte of the left factor, 4 to 6 from its
      high byte. */
  method CreateSplitW8Tables(f: Field) returns (table: array2<nat>)
    requires f.w == 32
    ensures forall s :: 0 <= s < 7 ==> IsSplitTable(f, table, s)
  {
    hide ByteProduct;
    table := new nat[7, 65536];
    var i := 0;
    while i < 4
      invariant i == 0 || i == 3 || i == 6
      invariant table.Length0 == 7 && table.Length1 == 65536
      invariant forall s :: 0 <= s < (if i == 0 then 0 else i + 1) ==> IsSplitTable(f, table, s)
    {
      var first := if i == 0 then 0 else 1;
      for j := first to 4
        invariant table.Length0 == 7 && table.Length1 == 65536
        invariant forall s :: 0 <= s < i + j ==> IsSplitTable(f, table, s)
      {
        label before:
        FillTable(f, table, i, j);
        forall s | 0 <= s < i + j ensures IsSplitTable(f, table, s) {
          assert old@before(IsSplitTable(f, table, s));
          forall a, b | 0 <= a < 256 && 0 <= b < 256 ensures table[s, a * 256 + b] == ByteProduct(f, a, b, s) {
            assert a * 256 + b < 65536;
          }
        }
      }
      i := i + 3;
    }
  }

  // ---- Words from bytes ----

  lemma ShlNone(x: nat, n: nat)
    ensures Shr(x, 0) == x && Shl(Low(x, n), 0) == Low(x, n)
  {
  }

  lemma ShlHalves(x: nat, m: nat)
    requires m > 0
    ensures Shl(x, m) / 2 == Shl(x, m - 1) && Shl(x, m) % 2 == 0
  {
    hide Shl;
    DoubleShl(x, m);
  }

  lemma ShrHalf(x: nat, m: nat)
    requires m > 0
    ensures Shr(x, m) == Shr(x / 2, m - 1)
  {
  }

  lemma SumWithEven(a: nat, b: nat)
    requires b % 2 == 0
    ensures (a + b) % 2 == a % 2
  {
  }

  lemma {:induction false} LowParts(x: nat, m: nat, n: nat)
    ensures Low(x, m + n) == Xor(Low(x, m), Shl(Low(Shr(x, m), n), m))
  {
    hide Xor, Low, Pow2, Shl, Shr;
    if m == 0 {
      ShlNone(x, n);
      LowNone(x);
      XorZero(Low(x, n));
    } else {
      var high := Low(Shr(x, m), n);
      LowParts(x / 2, m - 1, n);
      LowHalf(x, m + n);
      LowHalf(x, m);
      ShrHalf(x, m);
      ShlHalves(high, m);
      XorHalves(Low(x, m), Shl(high, m));
      SumWithEven(Low(x, m), Shl(high, m));
      SameHalves(Low(x, m + n), Xor(Low(x, m), Shl(high, m)));
    }
  }

  lemma ByteAbove(x: nat, i: nat)
    ensures Low(x, 8 * i + 8) == Xor(Low(x, 8 * i), Shl(Byte(x, i), 8 * i))
  {
    hide Xor, Low, Shl, Shr, Pow2;
    LowParts(x, 8 * i, 8);
  }

  lemma NextByte(f: Field, x: nat, i: nat, y: nat)
    requires f.w == 32
    ensures Mul(f, Low(x, 8 * i + 8), y) == Xor(Mul(f, Low(x, 8 * i), y), Mul(f, Shl(Byte(x, i), 8 * i), y))
  {
    hide Xor, Mul, Low, Shl, Shr, Pow2, Byte;
    ByteAbove(x, i);
    MulLeft(f, Low(x, 8 * i), Shl(Byte(x, i), 8 * i), y);
  }

  lemma NextByteRight(f: Field, x: nat, y: nat, j: nat)
    requires f.w == 32 && j < 4
    ensures Mul(f, x, Low(y, 8 * j + 8)) == Xor(Mul(f, x, Low(y, 8 * j)), Mul(f, x, Shl(Byte(y, j), 8 * j)))
  {
    hide Xor, Mul, Shl, Pow2, Byte;
    ByteValues();
    ByteAbove(y, j);
    Pow2Grows(8 * j, 32);
    PlainShift(f, Byte(y, j), 8, 8 * j);
    MulRight(f, x, Low(y, 8 * j), Shl(Byte(y, j), 8 * j));
  }

  /** The sum of sixteen table entries is the product. */
  method SplitW8Multiply(f: Field, table: array2<nat>, x: nat, y: nat) returns (accumulator: nat)
    requires f.w == 32 && IsWord(f, x) && IsWord(f, y)
    requires forall s :: 0 <= s < 7 ==> IsSplitTable(f, table, s)
    ensures accumulator == Mul(f, x, y)
  {
    hide Xor, Mul, Low, Byte, Shl, Pow2, ByteProduct;
    accumulator := 0;
    LowNone(x);
    LowNone(y);
    MulUnfold(f, 0, y);
    for i := 0 to 4
      invariant accumulator == Mul(f, Low(x, 8 * i), y)
    {
      ghost var before := accumulator;
      var a := Byte(x, i);
      MulOfZero(f, Shl(a, 8 * i));
      XorZero(before);
      for j := 0 to 4
        invariant accumulator == Xor(before, Mul(f, Shl(a, 8 * i), Low(y, 8 * j)))
      {
        var b := Byte(y, j);
        assert IsSplitTable(f, table, i + j);
        ShiftedBytes(f, a, b, i, j);
        NextByteRight(f, Shl(a, 8 * i), y, j);
        XorAssoc(before, Mul(f, Shl(a, 8 * i), Low(y, 8 * j)), ByteProduct(f, a, b, i + j));
        accumulator := Xor(accumulator, table[i + j, a * 256 + b]);
      }
      LowAll(y, 32);
      NextByte(f, x, i, y);
    }
    LowAll(x, 32);
  }
}
