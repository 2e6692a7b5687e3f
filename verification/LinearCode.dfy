/** Coded blocks that are sums of data blocks times given coefficients of GF(256). */
module LinearCode {
  import opened Bits
  import opened Blocks
  import opened GaloisBlocks
  import opened IntMod

  /** Entry j of row i of the coefficients. */
  function Coefficient(gen: seq<nat>, m: nat, i: nat, j: nat): nat {
    var x := i * m + j;
    if 0 <= x < |gen| then gen[x] else 0
  }

  /** The matrix has c rows of m entries each. */
  ghost predicate IsSized(gen: seq<nat>, c: nat, m: nat) {
    |gen| == c * m
  }

  /** It is stored row by row. */
  lemma CoefficientIs(gen: seq<nat>, c: nat, m: nat, i: nat, j: nat)
    requires IsSized(gen, c, m) && i < c && j < m
    ensures 0 <= i * m + j < |gen| && Coefficient(gen, m, i, j) == gen[i * m + j]
  {
    MulNonNegative(i, m);
    MulNonNegative(c - i - 1, m);
    assert (c - i - 1) * m == c * m - i * m - m;
  }

  /** A coded block has gained the change x of a data block times entry e of the matrix. */
  ghost predicate Gained(gen: seq<nat>, was: Block, now: Block, e: int, x: Block) {
    0 <= e < |gen| && now == Xor(was, Scale(gen[e], x))
  }

  lemma GainedByCoefficient(gen: seq<nat>, c: nat, m: nat, i: nat, j: nat, was: Block, x: Block)
    requires IsSized(gen, c, m) && i < c && j < m
    ensures Gained(gen, was, Xor(was, Scale(Coefficient(gen, m, i, j), x)), i * m + j, x)
  {
    CoefficientIs(gen, c, m, i, j);
  }

  ghost predicate AreBytes(gen: seq<nat>) {
    forall e :: 0 <= e < |gen| ==> gen[e] < 256
  }

  /** The sum of the first j blocks, each times its coefficient in row i. */
  function CodeSum(gen: seq<nat>, m: nat, i: nat, seg: seq<Block>, j: nat): Block
    requires j <= m <= |seg|
  {
    if j == 0 then 0 else Xor(CodeSum(gen, m, i, seg, j - 1), Scale(Coefficient(gen, m, i, j - 1), seg[j - 1]))
  }

  /** Adding x to block id adds its multiple to the sum. */
  lemma {:induction false} CodeSumAdd(
      gen: seq<nat>, m: nat, i: nat, a: seq<Block>, b: seq<Block>, id: nat, x: Block, j: nat)
    requires j <= m <= |a| && m <= |b| && id < m && AreBytes(gen)
    requires forall e :: 0 <= e < m ==> b[e] == if e == id then Xor(a[e], x) else a[e]
    ensures CodeSum(gen, m, i, b, j) ==
      Xor(CodeSum(gen, m, i, a, j), if id < j then Scale(Coefficient(gen, m, i, id), x) else 0)
  {
    hide Xor, Scale;
    if j == 0 {
      XorZero(0);
    } else {
      CodeSumAdd(gen, m, i, a, b, id, x, j - 1);
      var s, c := CodeSum(gen, m, i, a, j - 1), Coefficient(gen, m, i, j - 1);
      var y, z := Scale(c, a[j - 1]), Scale(Coefficient(gen, m, i, id), x);
      XorZero(s);
      XorZero(Xor(s, y));
      if id == j - 1 {
        ScaleXor(c, a[j - 1], x);
        XorAssoc(s, y, z);
      } else {
        XorRight(s, z, y);
      }
    }
  }

  lemma {:induction false} ZeroCodeSum(gen: seq<nat>, m: nat, i: nat, seg: seq<Block>, j: nat)
    requires j <= m <= |seg| && forall e :: 0 <= e < |seg| ==> seg[e] == 0
    ensures CodeSum(gen, m, i, seg, j) == 0
  {
    XorZero(0);
    if j > 0 {
      ZeroCodeSum(gen, m, i, seg, j - 1);
      ScaleZeroBlock(Coefficient(gen, m, i, j - 1));
    }
  }
}
