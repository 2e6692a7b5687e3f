/** GF(256) on whole blocks, byte by byte, and RAID-6's tables for it. */
module GaloisBlocks {
  import opened Bits
  import opened Blocks
  import opened GaloisByte
  import opened GaloisField
  import opened GaloisTables
  import opened IntMod

  /** Every byte of b multiplied by c. */
  function Scale(c: nat, b: Block): Block {
    if b == 0 then 0 else 256 * Scale(c, b / 256) + Mul(F, b % 256, c)
  }

  lemma WordOfByte(x: nat)
    ensures IsWord(F, x) <==> x < 256
  {
    ByteRange();
  }

  lemma ScaleUnfold(c: nat, b: Block)
    requires c < 256
    ensures Scale(c, b) / 256 == Scale(c, b / 256) && Scale(c, b) % 256 == Mul(F, b % 256, c) < 256
  {
    hide Mul;
    WordOfByte(c);
    WordOfByte(Mul(F, b % 256, c));
    MulUnfold(F, 0, c);
  }

  lemma SameBytes(x: nat, y: nat)
    requires x / 256 == y / 256 && x % 256 == y % 256
    ensures x == y
  {
  }

  lemma XorBytes(a: nat, b: nat)
    ensures Xor(a, b) / 256 == Xor(a / 256, b / 256) && Xor(a, b) % 256 == Xor(a % 256, b % 256)
  {
    hide Xor;
    XorLowBytes(a, b);
    XorSixteenth(a, b);
    XorSixteenth(a / 16, b / 16);
    Divided(a);
    Divided(b);
    Divided(Xor(a, b));
  }

  lemma XorLowBytes(a: nat, b: nat)
    ensures Xor(a, b) % 256 == Xor(a % 256, b % 256)
  {
    hide Xor, Low;
    XorLow(a, b, 8);
    LowIsByte(a);
    LowIsByte(b);
    LowIsByte(Xor(a, b));
  }

  lemma LowIsByte(x: nat)
    ensures Low(x, 8) == x % 256
  {
    ByteRange();
  }

  lemma Divided(x: nat)
    ensures x / 2 / 2 == x / 4 && x / 4 / 4 == x / 16 && x / 16 / 16 == x / 256
  {
  }

  lemma XorSixteenth(a: nat, b: nat)
    ensures Xor(a, b) / 16 == Xor(a / 16, b / 16)
  {
    hide Xor;
    XorQuarter(a, b);
    XorQuarter(a / 4, b / 4);
    Divided(a);
    Divided(b);
    Divided(Xor(a, b));
  }

  lemma XorQuarter(a: nat, b: nat)
    ensures Xor(a, b) / 4 == Xor(a / 4, b / 4)
  {
    hide Xor;
    XorHalves(a, b);
    XorHalves(a / 2, b / 2);
    Divided(a);
    Divided(b);
    Divided(Xor(a, b));
  }

  lemma {:induction false} ScaleXor(c: nat, a: Block, b: Block)
    requires c < 256
    ensures Scale(c, Xor(a, b)) == Xor(Scale(c, a), Scale(c, b))
    decreases a + b
  {
    hide Xor, Mul, Scale;
    if a == 0 && b == 0 {
      ScaleZeroBlock(c);
      XorZero(0);
    } else {
      ScaleXor(c, a / 256, b / 256);
      XorBytes(a, b);
      XorBytes(Scale(c, a), Scale(c, b));
      ScaleUnfold(c, a);
      ScaleUnfold(c, b);
      ScaleUnfold(c, Xor(a, b));
      MulLeft(F, a % 256, b % 256, c);
      SameBytes(Scale(c, Xor(a, b)), Xor(Scale(c, a), Scale(c, b)));
    }
  }

  lemma ScaleZeroBlock(c: nat)
    ensures Scale(c, 0) == 0
  {
  }

  lemma {:induction false} ScaleSum(c: nat, d: nat, b: Block)
    requires c < 256 && d < 256
    ensures Xor(c, d) < 256 && Scale(Xor(c, d), b) == Xor(Scale(c, b), Scale(d, b))
  {
    hide Xor, Mul, Scale;
    WordOfByte(c);
    WordOfByte(d);
    XorWord(F, c, d);
    WordOfByte(Xor(c, d));
    if b == 0 {
      ScaleZeroBlock(c);
      ScaleZeroBlock(d);
      ScaleZeroBlock(Xor(c, d));
      XorZero(0);
    } else {
      ScaleSum(c, d, b / 256);
      XorBytes(Scale(c, b), Scale(d, b));
      ScaleUnfold(c, b);
      ScaleUnfold(d, b);
      ScaleUnfold(Xor(c, d), b);
      MulRight(F, b % 256, c, d);
      SameBytes(Scale(Xor(c, d), b), Xor(Scale(c, b), Scale(d, b)));
    }
  }

  // ---- Tables ----

  ghost predicate IsGfTable(log: seq<nat>, ilog: seq<nat>) {
    |log| == 256 && |ilog| == 256 &&
    (forall b :: 0 < b < 256 ==> log[b] < 255 && Steps(F, 1, log[b]) == b) &&
    (forall j :: 0 <= j < 255 ==> ilog[j] == Steps(F, 1, j))
  }

  /** The tables of all powers of x, filled without looking for duplicates. */
  method GfGenTables() returns (gflog: array<nat>, gfilog: array<nat>)
    ensures fresh(gflog) && fresh(gfilog) && IsGfTable(gflog[..], gfilog[..])
  {
    hide Steps, Step, IsPrimitive;
    ByteFieldIsPrimitive();
    ByteRange();
    gflog, gfilog := new nat[256], new nat[256];
    var b := 1;
    StepsBegin(F);
    for index := 0 to 255
      invariant b == Steps(F, 1, index)
      invariant forall j :: 0 <= j < index ==> gfilog[j] == Steps(F, 1, j) < 256 && gflog[gfilog[j]] == j
    {
      StepsNonZero(F, index);
      StepsNext(F, 1, index);
      forall j | 0 <= j < index ensures gfilog[j] != b { PowersDiffer(j, index); }
      gflog[b] := index;
      gfilog[index] := b;
      b := Step(F, b);
    }
    forall v: nat | 0 < v < 256 ensures gflog[v] < 255 && Steps(F, 1, gflog[v]) == v {
      var i := EveryWordIsPower(F, v);
      assert gflog[gfilog[i]] == i;
    }
  }

  lemma PowersDiffer(i: nat, j: nat)
    requires i < j < 255
    ensures Steps(F, 1, i) != Steps(F, 1, j)
  {
    ByteFieldIsPrimitive();
  }

  function GfMul(gflog: seq<nat>, gfilog: seq<nat>, a: nat, b: nat): (r: nat)
    requires IsGfTable(gflog, gfilog) && a < 256 && b < 256
    ensures r == Mul(F, a, b) < 256
  {
    GfMulIsMul(gflog, gfilog, a, b);
    if a == 0 || b == 0 then 0
    else
      var sum := (gflog[a] + gflog[b]) % 255;
      gfilog[sum]
  }

  lemma GfMulIsMul(gflog: seq<nat>, gfilog: seq<nat>, a: nat, b: nat)
    requires IsGfTable(gflog, gfilog) && a < 256 && b < 256
    ensures Mul(F, a, b) == (if a == 0 || b == 0 then 0 else gfilog[(gflog[a] + gflog[b]) % 255]) < 256
  {
    hide Mul, Steps, IsPrimitive;
    WordOfByte(b);
    WordOfByte(Mul(F, a, b));
    if a == 0 || b == 0 {
      MulUnfold(F, 0, b);
      MulOfZero(F, a);
    } else {
      var sum := gflog[a] + gflog[b];
      MulOfSteps(F, gflog[a], gflog[b]);
      ByteFieldIsPrimitive();
      if sum >= 255 { Periodic(F, sum - 255); }
    }
  }

  function GfDiv(gflog: seq<nat>, gfilog: seq<nat>, a: nat, b: nat): (r: nat)
    requires IsGfTable(gflog, gfilog) && a < 256 && 0 < b < 256
    ensures r < 256 && Mul(F, r, b) == a
  {
    GfDivInverts(gflog, gfilog, a, b);
    if a == 0 then 0
    else
      var diff := gflog[a] as int - gflog[b];
      gfilog[if diff < 0 then diff + 255 else diff]
  }

  lemma GfDivInverts(gflog: seq<nat>, gfilog: seq<nat>, a: nat, b: nat)
    requires IsGfTable(gflog, gfilog) && a < 256 && 0 < b < 256
    ensures
      var diff := gflog[a] as int - gflog[b];
      var r := if a == 0 then 0 else gfilog[if diff < 0 then diff + 255 else diff];
      r < 256 && Mul(F, r, b) == a
  {
    hide Mul, Steps, IsPrimitive;
    ByteFieldIsPrimitive();
    if a == 0 {
      MulUnfold(F, 0, b);
    } else {
      var diff := gflog[a] as int - gflog[b];
      var e := if diff < 0 then diff + 255 else diff;
      StepsNonZero(F, e);
      WordOfByte(gfilog[e]);
      MulOfSteps(F, e, gflog[b]);
      if diff < 0 { Periodic(F, gflog[a]); }
    }
  }

  /** Every byte of b times c, by table. */
  function MulBlock(gflog: seq<nat>, gfilog: seq<nat>, b: Block, c: nat): (r: Block)
    requires IsGfTable(gflog, gfilog) && c < 256
    ensures r == Scale(c, b)
  {
    if b == 0 then 0 else 256 * MulBlock(gflog, gfilog, b / 256, c) + GfMul(gflog, gfilog, b % 256, c)
  }

  lemma ScaleStep(c: nat, rest: Block, low: nat, b: Block)
    requires c < 256 && low < 256 && Scale(c, rest) == b / 256 && Mul(F, low, c) == b % 256
    ensures Scale(c, 256 * rest + low) == b
  {
    hide Mul, Scale;
    var x := 256 * rest + low;
    assert x / 256 == rest && x % 256 == low;
    ScaleUnfold(c, x);
    SameBytes(Scale(c, x), b);
  }

  /** Every byte of b divided by c, by table. */
  function DivBlock(gflog: seq<nat>, gfilog: seq<nat>, b: Block, c: nat): (r: Block)
    requires IsGfTable(gflog, gfilog) && 0 < c < 256
    ensures Scale(c, r) == b
  {
    if b == 0 then 0
    else
      var rest, low := DivBlock(gflog, gfilog, b / 256, c), GfDiv(gflog, gfilog, b % 256, c);
      ScaleStep(c, rest, low, b);
      256 * rest + low
  }

  /** Scaling by a nonzero byte loses nothing. */
  lemma {:induction false} ScaleInjective(c: nat, a: Block, b: Block)
    requires 0 < c < 256 && Scale(c, a) == Scale(c, b)
    ensures a == b
    decreases a + b
  {
    hide Mul, IsPrimitive, Scale;
    if a != 0 || b != 0 {
      ScaleUnfold(c, a);
      ScaleUnfold(c, b);
      ScaleInjective(c, a / 256, b / 256);
      ByteFieldIsPrimitive();
      WordOfByte(c);
      WordOfByte(a % 256);
      WordOfByte(b % 256);
      MulCancel(F, a % 256, b % 256, c);
      SameBytes(a, b);
    }
  }

  lemma DivUndoesScale(gflog: seq<nat>, gfilog: seq<nat>, b: Block, c: nat)
    requires IsGfTable(gflog, gfilog) && 0 < c < 256
    ensures DivBlock(gflog, gfilog, Scale(c, b), c) == b
  {
    ScaleInjective(c, DivBlock(gflog, gfilog, Scale(c, b), c), b);
  }
}
