/** Counting the ones of the bit matrix of a field element. */
module CauchyOnes {
  import opened Bits
  import opened GaloisField
  import opened GaloisTables
  import IntMod

  /** The number of ones of a word. */
  function Ones(x: nat): nat {
    if x == 0 then 0 else Ones(x / 2) + x % 2
  }

  /** The ones of n, n x, ..., n x^(w-1): the ones of the w by w bit matrix of n. */
  function MatrixOnes(f: Field, n: nat, w: nat): nat
    requires f.w >= 1
  {
    if w == 0 then 0 else MatrixOnes(f, n, w - 1) + Ones(Steps(f, n, w - 1))
  }

  lemma {:induction false} OnesAbove(x: nat, i: nat)
    requires x < Pow2(i)
    ensures Ones(x + Pow2(i)) == Ones(x) + 1
  {
    if i == 0 {
      assert Ones(1) == Ones(0) + 1;
    } else {
      OnesAbove(x / 2, i - 1);
      assert (x + Pow2(i)) / 2 == x / 2 + Pow2(i - 1) && (x + Pow2(i)) % 2 == x % 2;
    }
  }

  lemma OnesOfLow(x: nat, i: nat)
    ensures Ones(Low(x, i + 1)) == Ones(Low(x, i)) + if Bit(x, i) then 1 else 0
  {
    hide Xor, Low, Ones, Pow2;
    LowNext(x, i);
    XorZero(Low(x, i));
    if Bit(x, i) {
      AddHigh(i, Low(x, i));
      XorComm(Low(x, i), Pow2(i));
      OnesAbove(Low(x, i), i);
    }
  }

  lemma OnesNone(x: nat)
    ensures Ones(Low(x, 0)) == 0
  {
  }

  lemma OnesDouble(x: nat)
    ensures Ones(2 * x) == Ones(x)
  {
  }

  /** The change of the number of ones when the low j bits of p are flipped to give y. */
  function Change(y: nat, p: nat, j: nat): int {
    if j == 0 then 0
    else Change(y, p, j - 1) + if Bit(p, j - 1) then (if Bit(y, j - 1) then 1 else -1) else 0
  }

  lemma {:induction false} OnesOfXor(x: nat, p: nat, j: nat)
    ensures Ones(Low(Xor(x, p), j)) == Ones(Low(x, j)) + Change(Xor(x, p), p, j)
  {
    hide Xor, Low, Ones, Bit;
    if j == 0 {
      OnesNone(x);
      OnesNone(Xor(x, p));
    } else {
      OnesOfXor(x, p, j - 1);
      OnesOfLow(x, j - 1);
      OnesOfLow(Xor(x, p), j - 1);
      BitOfXor(x, p, j - 1);
    }
  }

  /** A shift with reduction, as cauchy_n_ones does it. */
  lemma ShiftHigh(f: Field, n: nat, p: nat)
    requires f.w >= 1 && IsWord(f, n) && Bit(n, f.w - 1) && p == Low(f.poly, f.w)
    ensures
      var low := Xor(n, Pow2(f.w - 1));
      Ones(low) == Ones(n) - 1 && IsWord(f, 2 * low) && Xor(2 * low, p) == Step(f, n)
  {
    hide Xor, Bit, Low, Ones;
    var h := Pow2(f.w - 1);
    assert Pow2(f.w) == 2 * h;
    HighBit(f.w, n);
    var low := n - h;
    AddHigh(f.w - 1, low);
    XorCancel(low, h);
    XorComm(low, h);
    OnesAbove(low, f.w - 1);
    StepForm(f, n);
  }

  lemma ShiftLow(f: Field, n: nat)
    requires f.w >= 1 && !Bit(n, f.w - 1)
    ensures Step(f, n) == 2 * n
  {
  }

  /** x^w reduced is the polynomial without its leading term. */
  lemma HighTimesX(f: Field)
    requires f.w >= 2
    ensures IsWord(f, 2) && IsWord(f, Pow2(f.w - 1)) && Mul(f, Pow2(f.w - 1), 2) == Low(f.poly, f.w)
  {
    hide Xor, Bit, Low, Mul;
    var h := Pow2(f.w - 1);
    assert Pow2(f.w) == 2 * h && Pow2(2) == 4;
    Pow2Grows(2, f.w);
    BitOfPow2(f.w - 1, f.w - 1);
    NoBitsAbove(1, f.w - 1, f.w - 1);
    ShiftLow(f, 1);
    MulStep(f, h, 1);
    MulOne(f, h);
    StepForm(f, h);
    DoubleHigh(f.w);
    XorZero(Low(f.poly, f.w));
  }

  lemma DoubleHigh(w: nat)
    requires w >= 1
    ensures Low(2 * Pow2(w - 1), w) == 0
  {
    IntMod.DivMod(2 * Pow2(w - 1), 1, 0, Pow2(w));
  }

  // ---- The ones as a set of positions ----

  /** Bit number bit of entry number entry, shifted shift times. */
  datatype Position = Position(entry: nat, shift: nat, bit: nat)

  /** The ones among the first n bits of x. */
  function WordBits(x: nat, j: nat, b: nat, n: nat): (s: set<Position>)
    ensures forall p :: p in s <==> p.entry == j && p.shift == b && p.bit < n && Bit(x, p.bit)
  {
    if n == 0 then {} else WordBits(x, j, b, n - 1) + if Bit(x, n - 1) then {Position(j, b, n - 1)} else {}
  }

  lemma {:induction false} CountWordBits(x: nat, j: nat, b: nat, n: nat)
    ensures |WordBits(x, j, b, n)| == Ones(Low(x, n))
  {
    hide Bit, Low, Ones;
    OnesNone(x);
    if n > 0 {
      CountWordBits(x, j, b, n - 1);
      OnesOfLow(x, n - 1);
    }
  }

  /** The ones of the first n rows of the bit matrix of entry x. */
  function MatrixBits(f: Field, x: nat, j: nat, n: nat): (s: set<Position>)
    requires f.w >= 1
    ensures forall p :: p in s <==> p.entry == j && p.shift < n && p.bit < f.w && Bit(Steps(f, x, p.shift), p.bit)
  {
    if n == 0 then {} else MatrixBits(f, x, j, n - 1) + WordBits(Steps(f, x, n - 1), j, n - 1, f.w)
  }

  lemma NextMatrixBits(f: Field, x: nat, j: nat, n: nat)
    requires f.w >= 1
    ensures MatrixBits(f, x, j, 0) == {} && MatrixOnes(f, x, 0) == 0
    ensures MatrixBits(f, x, j, n + 1) == MatrixBits(f, x, j, n) + WordBits(Steps(f, x, n), j, n, f.w)
    ensures MatrixBits(f, x, j, n) !! WordBits(Steps(f, x, n), j, n, f.w)
    ensures MatrixOnes(f, x, n + 1) == MatrixOnes(f, x, n) + Ones(Steps(f, x, n))
  {
    hide Bit, Ones, Steps, Step, Pow2;
  }

  lemma {:induction false} CountMatrixBits(f: Field, x: nat, j: nat, n: nat)
    requires f.w >= 1 && IsWord(f, x)
    ensures |MatrixBits(f, x, j, n)| == MatrixOnes(f, x, n)
  {
    hide Bit, Low, Ones, Steps, MatrixBits, MatrixOnes, WordBits, Pow2;
    if n == 0 {
      NextMatrixBits(f, x, j, 0);
    } else {
      CountMatrixBits(f, x, j, n - 1);
      NextMatrixBits(f, x, j, n - 1);
      var y := Steps(f, x, n - 1);
      CountWordBits(y, j, n - 1, f.w);
      LowAll(y, f.w);
      DisjointSize(MatrixBits(f, x, j, n - 1), WordBits(y, j, n - 1, f.w));
    }
  }

  lemma DisjointSize<T>(a: set<T>, b: set<T>)
    requires a !! b
    ensures |a + b| == |a| + |b|
  {
  }

  /** Counts the ones row by row: each shift moves the count by the flips of the reduction. */
  method NOnes(f: Field, n0: nat) returns (no: int)
    requires f.w >= 2 && IsWord(f, n0)
    ensures no == MatrixOnes(f, n0, f.w)
  {
    hide Xor, Bit, Low, Mul, Step, Ones, Pow2;
    HighTimesX(f);
    var highbit := Pow2(f.w - 1);
    var p := Mul(f, highbit, 2);
    var ones := SetBits(p, f.w);
    var n := n0;
    no := CountOnes(n, f.w);
    LowAll(n, f.w);
    var cno := no;
    FirstOnes(f, n0);
    for i := 1 to f.w
      invariant n == Steps(f, n0, i - 1) && IsWord(f, n)
      invariant cno == Ones(n) && no == MatrixOnes(f, n0, i)
    {
      if Bit(n, f.w - 1) {
        ShiftHigh(f, n, p);
        ghost var low := Xor(n, highbit);
        OnesOfXor(2 * low, p, f.w);
        OnesDouble(low);
        LowAll(2 * low, f.w);
        n := Xor(2 * Xor(n, highbit), p);
        LowAll(n, f.w);
        cno := cno - 1;
        for j := 0 to |ones|
          invariant cno == Ones(low) + ChangeAt(n, ones[..j])
        {
          assert ones[..j + 1][..j] == ones[..j];
          cno := cno + if Bit(n, ones[j]) then 1 else -1;
        }
        assert ones[..|ones|] == ones;
        ChangeByBits(n, p, f.w);
      } else {
        ShiftLow(f, n);
        OnesDouble(n);
        n := 2 * n;
      }
      NextOnes(f, n0, i);
      no := no + cno;
    }
  }

  lemma FirstOnes(f: Field, n: nat)
    requires f.w >= 1
    ensures Steps(f, n, 0) == n && MatrixOnes(f, n, 1) == Ones(n)
  {
    assert MatrixOnes(f, n, 0) == 0;
  }

  lemma NextOnes(f: Field, n: nat, i: nat)
    requires f.w >= 1 && i >= 1
    ensures Steps(f, n, i) == Step(f, Steps(f, n, i - 1))
    ensures MatrixOnes(f, n, i + 1) == MatrixOnes(f, n, i) + Ones(Steps(f, n, i))
  {
  }

  method CountOnes(n: nat, w: nat) returns (no: int)
    ensures no == Ones(Low(n, w))
  {
    hide Bit, Low, Ones;
    no := 0;
    OnesNone(n);
    for i := 0 to w
      invariant no == Ones(Low(n, i))
    {
      OnesOfLow(n, i);
      if Bit(n, i) { no := no + 1; }
    }
  }

  /** The positions of the ones of p. */
  function BitList(p: nat, w: nat): seq<nat> {
    if w == 0 then [] else BitList(p, w - 1) + if Bit(p, w - 1) then [w - 1] else []
  }

  method SetBits(p: nat, w: nat) returns (ones: seq<nat>)
    ensures ones == BitList(p, w)
  {
    hide Bit;
    ones := [];
    for i := 0 to w
      invariant ones == BitList(p, i)
    {
      if Bit(p, i) { ones := ones + [i]; } else { assert ones + [] == ones; }
    }
  }

  function ChangeAt(y: nat, ones: seq<nat>): int {
    if ones == [] then 0
    else ChangeAt(y, ones[..|ones| - 1]) + if Bit(y, ones[|ones| - 1]) then 1 else -1
  }

  lemma {:induction false} ChangeByBits(y: nat, p: nat, w: nat)
    ensures ChangeAt(y, BitList(p, w)) == Change(y, p, w)
  {
    hide Bit;
    if w > 0 {
      ChangeByBits(y, p, w - 1);
      var init := BitList(p, w - 1);
      assert (init + [w - 1])[..|init|] == init;
      assert init + [] == init;
    }
  }
}
