/** Square matrices over GF(2), one word per row, and their inversion in place. */
module BinaryMatrix {
  import opened Bits
  import opened GaloisField
  import opened GaloisTables

  /** The sum of the rows that the bits of mask select among the first n. */
  function Combine(mask: nat, rows: seq<nat>, n: nat): nat
    requires n <= |rows|
  {
    if n == 0 then 0
    else
      var rest := Combine(mask, rows, n - 1);
      if Bit(mask, n - 1) then Xor(rest, rows[n - 1]) else rest
  }

  /** The scalar product of the low n bits. */
  predicate Dot(r: nat, v: nat, n: nat) {
    n > 0 && (Dot(r, v, n - 1) != (Bit(r, n - 1) && Bit(v, n - 1)))
  }

  /** v is orthogonal to the first n rows. */
  ghost predicate InKernel(rows: seq<nat>, n: nat, v: nat)
    requires n <= |rows|
  {
    forall j :: 0 <= j < n ==> !Dot(rows[j], v, n)
  }

  ghost predicate IsNonsingular(rows: seq<nat>, n: nat)
    requires n <= |rows|
  {
    forall v: nat :: v < Pow2(n) && InKernel(rows, n, v) ==> v == 0
  }

  lemma {:induction false} CombineXor(a: nat, b: nat, rows: seq<nat>, n: nat)
    requires n <= |rows|
    ensures Combine(Xor(a, b), rows, n) == Xor(Combine(a, rows, n), Combine(b, rows, n))
  {
    hide Xor, Bit;
    XorZero(0);
    if n > 0 {
      CombineXor(a, b, rows, n - 1);
      BitOfXor(a, b, n - 1);
      var x, y, r := Combine(a, rows, n - 1), Combine(b, rows, n - 1), rows[n - 1];
      XorSwap(x, r, y, r);
      XorZero(r);
      XorZero(Xor(x, y));
      XorAssoc(x, y, r);
      XorRight(x, r, y);
    }
  }

  lemma {:induction false} CombineOne(i: nat, rows: seq<nat>, n: nat)
    requires n <= |rows|
    ensures Combine(Pow2(i), rows, n) == if i < n then rows[i] else 0
  {
    hide Xor, Bit, Pow2;
    if n > 0 {
      CombineOne(i, rows, n - 1);
      BitOfPow2(i, n - 1);
      XorZero(rows[n - 1]);
    }
  }

  lemma {:induction false} DotXorLeft(a: nat, b: nat, v: nat, n: nat)
    ensures Dot(Xor(a, b), v, n) == (Dot(a, v, n) != Dot(b, v, n))
  {
    hide Xor, Bit;
    if n > 0 {
      DotXorLeft(a, b, v, n - 1);
      BitOfXor(a, b, n - 1);
    }
  }

  lemma {:induction false} DotComm(r: nat, v: nat, n: nat)
    ensures Dot(r, v, n) == Dot(v, r, n)
  {
    if n > 0 { DotComm(r, v, n - 1); }
  }

  lemma {:induction false} DotOne(i: nat, v: nat, n: nat)
    ensures Dot(Pow2(i), v, n) == (i < n && Bit(v, i))
  {
    hide Bit, Pow2;
    if n > 0 {
      DotOne(i, v, n - 1);
      BitOfPow2(i, n - 1);
    }
  }

  lemma {:induction false} DotZero(v: nat, n: nat)
    ensures !Dot(0, v, n)
  {
    if n > 0 {
      DotZero(v, n - 1);
      BitOfZero(n - 1);
    }
  }

  /** What is orthogonal to the rows is orthogonal to their sums. */
  lemma {:induction false} KernelOfCombine(mask: nat, rows: seq<nat>, n: nat, m: nat, v: nat)
    requires m <= n <= |rows| && InKernel(rows, n, v)
    ensures !Dot(Combine(mask, rows, m), v, n)
  {
    hide Xor, Bit, Dot;
    if m == 0 {
      DotZero(v, n);
    } else {
      KernelOfCombine(mask, rows, n, m - 1, v);
      DotXorLeft(Combine(mask, rows, m - 1), rows[m - 1], v, n);
    }
  }

  /** A matrix whose rows combine to the unit vectors is nonsingular. */
  lemma InverseMeansNonsingular(inv: seq<nat>, rows: seq<nat>, n: nat)
    requires n <= |rows| && n <= |inv|
    requires forall i :: 0 <= i < n ==> Combine(inv[i], rows, n) == Pow2(i)
    ensures IsNonsingular(rows, n)
  {
    hide Combine, Dot, InKernel;
    forall v: nat | v < Pow2(n) && InKernel(rows, n, v) ensures v == 0 {
      forall i: nat ensures Bit(v, i) == Bit(0, i) {
        BitOfZero(i);
        if i < n {
          KernelOfCombine(inv[i], rows, n, n, v);
          DotOne(i, v, n);
        } else {
          NoBitsAbove(v, n, i);
        }
      }
      SameBits(v, 0);
    }
  }

  // ---- Triangular form ----

  /** The first i columns are zero below the diagonal and one on it. */
  ghost predicate IsTriangular(rows: seq<nat>, n: nat, i: nat)
    requires i <= n <= |rows|
  {
    (forall c :: 0 <= c < i ==> Bit(rows[c], c)) &&
    (forall c, j :: 0 <= c < i && c < j < n ==> !Bit(rows[j], c))
  }

  /** If column i has no one on or below the diagonal, the columns up to i are dependent:
      solving upwards gives a vector in the kernel. */
  lemma {:induction false} SolveUpwards(rows: seq<nat>, n: nat, i: nat, c: nat) returns (v: nat)
    requires c <= i < n <= |rows| && IsTriangular(rows, n, i)
    requires forall j :: i <= j < n ==> !Bit(rows[j], i)
    ensures v < Pow2(n) && Bit(v, i) && forall r :: c <= r < n ==> !Dot(rows[r], v, n)
    decreases i - c
  {
    hide Bit, Xor, Dot;
    if c == i {
      v := Pow2(i);
      Pow2Grows(i + 1, n);
      BitOfPow2(i, i);
      forall r | c <= r < n ensures !Dot(rows[r], v, n) {
        DotOne(i, rows[r], n);
        DotComm(rows[r], v, n);
      }
    } else {
      var below := SolveUpwards(rows, n, i, c + 1);
      v := below;
      if Dot(rows[c], below, n) {
        v := Xor(below, Pow2(c));
        Pow2Grows(c + 1, n);
        XorBound(below, Pow2(c), n);
        BitOfXor(below, Pow2(c), i);
        BitOfPow2(c, i);
        forall r | c <= r < n ensures !Dot(rows[r], v, n) {
          DotComm(rows[r], v, n);
          DotComm(rows[r], below, n);
          DotXorLeft(below, Pow2(c), rows[r], n);
          DotOne(c, rows[r], n);
        }
      }
    }
  }

  lemma StuckIsSingular(rows: seq<nat>, n: nat, i: nat)
    requires i < n <= |rows| && IsTriangular(rows, n, i)
    requires forall j :: i <= j < n ==> !Bit(rows[j], i)
    ensures !IsNonsingular(rows, n)
  {
    hide Bit, Dot, IsTriangular;
    var v := SolveUpwards(rows, n, i, 0);
    BitOfZero(i);
    assert InKernel(rows, n, v);
  }

  /** The state of the elimination: mat spans orig, inv records how. */
  ghost predicate Records(orig: seq<nat>, mat: seq<nat>, inv: seq<nat>, n: nat) {
    |orig| == |mat| == |inv| == n &&
    (forall j :: 0 <= j < n ==> Combine(inv[j], orig, n) == mat[j] && mat[j] < Pow2(n) && inv[j] < Pow2(n)) &&
    (forall v: nat :: InKernel(mat, n, v) ==> InKernel(orig, n, v))
  }

  lemma RecordsStart(orig: seq<nat>, inv: seq<nat>, n: nat)
    requires |orig| == |inv| == n && forall j :: 0 <= j < n ==> orig[j] < Pow2(n) && inv[j] == Pow2(j)
    ensures Records(orig, orig, inv, n)
  {
    hide Combine, InKernel;
    forall j | 0 <= j < n ensures Combine(inv[j], orig, n) == orig[j] && inv[j] < Pow2(n) {
      CombineOne(j, orig, n);
      Pow2Grows(j + 1, n);
    }
  }

  function Swap(s: seq<nat>, i: nat, j: nat): (r: seq<nat>)
    requires i < |s| && j < |s|
    ensures |r| == |s|
  {
    s[i := s[j]][j := s[i]]
  }

  lemma RecordsSwap(orig: seq<nat>, mat: seq<nat>, inv: seq<nat>, n: nat, i: nat, j: nat)
    requires Records(orig, mat, inv, n) && i < n && j < n
    ensures Records(orig, Swap(mat, i, j), Swap(inv, i, j), n)
  {
    hide Combine, Dot;
    var m := Swap(mat, i, j);
    forall v: nat | InKernel(m, n, v) ensures InKernel(orig, n, v) {
      assert m[i] == mat[j] && m[j] == mat[i];
      forall k | 0 <= k < n ensures !Dot(mat[k], v, n) { assert k == i || k == j || m[k] == mat[k]; }
      assert InKernel(mat, n, v);
    }
  }

  lemma RecordsAdd(orig: seq<nat>, mat: seq<nat>, inv: seq<nat>, n: nat, i: nat, j: nat)
    requires Records(orig, mat, inv, n) && i < n && j < n && i != j
    ensures Records(orig, mat[j := Xor(mat[j], mat[i])], inv[j := Xor(inv[j], inv[i])], n)
  {
    hide Combine, Dot, Xor;
    var m := mat[j := Xor(mat[j], mat[i])];
    CombineXor(inv[j], inv[i], orig, n);
    XorBound(mat[j], mat[i], n);
    XorBound(inv[j], inv[i], n);
    forall v: nat | InKernel(m, n, v) ensures InKernel(orig, n, v) {
      DotXorLeft(mat[j], mat[i], v, n);
      assert m[i] == mat[i] && !Dot(m[j], v, n) && !Dot(m[i], v, n);
      forall k | 0 <= k < n ensures !Dot(mat[k], v, n) { assert k == j || m[k] == mat[k]; }
      assert InKernel(mat, n, v);
    }
  }

  /** Brings a row with a one in column i to row i, if there is one at or below it. */
  method Pivot(mat: array<nat>, inv: array<nat>, rows: nat, i: nat, ghost orig: seq<nat>) returns (ok: bool)
    requires mat != inv && mat.Length == inv.Length == rows && i < rows
    requires Records(orig, mat[..], inv[..], rows) && IsTriangular(mat[..], rows, i)
    modifies mat, inv
    ensures Records(orig, mat[..], inv[..], rows) && IsTriangular(mat[..], rows, i)
    ensures ok ==> Bit(mat[i], i)
    ensures !ok ==> forall j :: i <= j < rows ==> !Bit(mat[j], i)
  {
    hide Bit, Records;
    if !Bit(mat[i], i) {
      var j := i + 1;
      while j < rows && !Bit(mat[j], i)
        invariant i < j <= rows
        invariant forall k :: i <= k < j ==> !Bit(mat[k], i)
      {
        j := j + 1;
      }
      if j == rows { return false; }
      RecordsSwap(orig, mat[..], inv[..], rows, i, j);
      ghost var m, n := Swap(mat[..], i, j), Swap(inv[..], i, j);
      mat[i], mat[j] := mat[j], mat[i];
      inv[i], inv[j] := inv[j], inv[i];
      assert mat[..] == m && inv[..] == n;
    }
    ok := true;
  }

  /** Clears column i below row i. */
  method Clear(mat: array<nat>, inv: array<nat>, rows: nat, i: nat, ghost orig: seq<nat>)
    requires mat != inv && mat.Length == inv.Length == rows && i < rows
    requires Records(orig, mat[..], inv[..], rows) && IsTriangular(mat[..], rows, i) && Bit(mat[i], i)
    modifies mat, inv
    ensures Records(orig, mat[..], inv[..], rows) && IsTriangular(mat[..], rows, i + 1)
  {
    hide Bit, Records, Xor;
    for j := i + 1 to rows
      invariant Records(orig, mat[..], inv[..], rows) && IsTriangular(mat[..], rows, i) && Bit(mat[i], i)
      invariant forall k :: i < k < j ==> !Bit(mat[k], i)
    {
      if Bit(mat[j], i) {
        ghost var m, n := mat[..][j := Xor(mat[j], mat[i])], inv[..][j := Xor(inv[j], inv[i])];
        RecordsAdd(orig, mat[..], inv[..], rows, i, j);
        BitOfXor(mat[j], mat[i], i);
        forall c | 0 <= c < i ensures !Bit(Xor(mat[j], mat[i]), c) { BitOfXor(mat[j], mat[i], c); }
        mat[j] := Xor(mat[j], mat[i]);
        inv[j] := Xor(inv[j], inv[i]);
        assert mat[..] == m && inv[..] == n;
      }
    }
  }

  lemma {:induction false} LowIsZero(x: nat, i: nat)
    requires forall c :: 0 <= c < i ==> !Bit(x, c)
    ensures Low(x, i) == 0
  {
    hide Xor, Low, Bit;
    LowNone(x);
    if i > 0 {
      LowIsZero(x, i - 1);
      LowNext(x, i - 1);
      XorZero(0);
    }
  }

  /** Back substitution. The rows of mat stay as they are; only inv is updated. */
  method Substitute(mat: array<nat>, inv: array<nat>, rows: nat, ghost orig: seq<nat>)
    requires mat != inv && mat.Length == inv.Length == rows
    requires Records(orig, mat[..], inv[..], rows) && IsTriangular(mat[..], rows, rows)
    modifies inv
    ensures forall j :: 0 <= j < rows ==> Combine(inv[j], orig, rows) == Pow2(j) && inv[j] < Pow2(rows)
  {
    hide Bit, Xor, Low, Combine, Dot, Pow2;
    forall j | 0 <= j < rows ensures Low(mat[j], rows) == mat[j] { LowAll(mat[j], rows); }
    for i := rows downto 0
      invariant forall j :: 0 <= j < rows ==> inv[j] < Pow2(rows)
      invariant forall j :: i <= j < rows ==> Combine(inv[j], orig, rows) == Pow2(j)
      invariant forall j :: 0 <= j < i ==> Combine(inv[j], orig, rows) == Low(mat[j], i)
    {
      LowIsZero(mat[i], i);
      LowNext(mat[i], i);
      XorZero(Pow2(i));
      for j := 0 to i
        invariant forall k :: 0 <= k < rows ==> inv[k] < Pow2(rows)
        invariant forall k :: i <= k < rows ==> Combine(inv[k], orig, rows) == Pow2(k)
        invariant forall k :: 0 <= k < i ==> Combine(inv[k], orig, rows) == Low(mat[k], if k < j then i else i + 1)
      {
        LowNext(mat[j], i);
        XorZero(Low(mat[j], i));
        if Bit(mat[j], i) {
          CombineXor(inv[j], inv[i], orig, rows);
          XorCancel(Low(mat[j], i), Pow2(i));
          XorBound(inv[j], inv[i], rows);
          inv[j] := Xor(inv[j], inv[i]);
        }
      }
    }
  }

  /** Inverts mat into inv, or finds that mat has no inverse. It destroys mat. */
  method InvertBinaryMatrix(mat: array<nat>, inv: array<nat>, rows: nat) returns (ok: bool)
    requires mat != inv && mat.Length == inv.Length == rows
    requires forall j :: 0 <= j < rows ==> mat[j] < Pow2(rows)
    modifies mat, inv
    ensures ok <==> IsNonsingular(old(mat[..]), rows)
    ensures ok ==> forall i :: 0 <= i < rows ==>
      Combine(inv[i], old(mat[..]), rows) == Pow2(i) && inv[i] < Pow2(rows)
  {
    hide Bit, Xor, Combine, Dot, Pow2, InKernel;
    ghost var orig := mat[..];
    for i := 0 to rows
      invariant mat[..] == orig
      invariant forall j :: 0 <= j < i ==> inv[j] == Pow2(j)
    {
      inv[i] := Pow2(i);
    }
    RecordsStart(orig, inv[..], rows);
    for i := 0 to rows
      invariant Records(orig, mat[..], inv[..], rows) && IsTriangular(mat[..], rows, i)
    {
      var found := Pivot(mat, inv, rows, i, orig);
      if !found {
        StuckIsSingular(mat[..], rows, i);
        return false;
      }
      Clear(mat, inv, rows, i, orig);
    }
    Substitute(mat, inv, rows, orig);
    InverseMeansNonsingular(inv[..], orig, rows);
    ok := true;
  }

  // ---- Inverses in GF(2^w) ----

  lemma {:induction false} CombineShifts(f: Field, mask: nat, rows: seq<nat>, y: nat, n: nat)
    requires f.w >= 1 && IsWord(f, y) && n <= |rows| && forall i :: 0 <= i < |rows| ==> rows[i] == Steps(f, y, i)
    ensures Combine(mask, rows, n) == Mul(f, Low(mask, n), y)
  {
    hide Xor, Low, Mul, Steps, Bit, Pow2;
    LowNone(mask);
    MulUnfold(f, 0, y);
    if n > 0 {
      CombineShifts(f, mask, rows, y, n - 1);
      LowNext(mask, n - 1);
      XorZero(Low(mask, n - 1));
      MulPow2(f, n - 1, y);
      MulLeft(f, Low(mask, n - 1), Pow2(n - 1), y);
    }
  }

  /** The multiples of z by the unit vectors. */
  function ShiftsOf(f: Field, z: nat): (r: seq<nat>)
    requires f.w >= 1
    ensures |r| == f.w && forall i :: 0 <= i < |r| ==> r[i] == Mul(f, Pow2(i), z)
  {
    seq(f.w, i requires 0 <= i < f.w => Mul(f, Pow2(i), z))
  }

  lemma UnitIsWord(f: Field, i: nat)
    requires i < f.w
    ensures IsWord(f, Pow2(i))
  {
    Pow2Grows(i + 1, f.w);
  }

  lemma UnitByInverse(f: Field, rows: seq<nat>, y: nat, z: nat, i: nat)
    requires f.w >= 1 && IsWord(f, y) && IsWord(f, z) && Mul(f, z, y) == 1 && i < f.w
    requires |rows| == f.w && forall i :: 0 <= i < |rows| ==> rows[i] == Steps(f, y, i)
    ensures Combine(Mul(f, Pow2(i), z), rows, f.w) == Pow2(i)
  {
    hide Mul, Steps, Combine, Low, Pow2;
    var u := Mul(f, Pow2(i), z);
    CombineShifts(f, u, rows, y, f.w);
    LowAll(u, f.w);
    MulAssoc(f, Pow2(i), z, y);
    UnitIsWord(f, i);
    MulOne(f, Pow2(i));
  }

  /** If y has an inverse, its multiples are all words, so its shifts are independent. */
  lemma InvertibleShifts(f: Field, rows: seq<nat>, y: nat, z: nat)
    requires f.w >= 1 && IsWord(f, y) && IsWord(f, z) && Mul(f, z, y) == 1
    requires |rows| == f.w && forall i :: 0 <= i < |rows| ==> rows[i] == Steps(f, y, i)
    ensures IsNonsingular(rows, f.w)
  {
    hide Mul, Steps, Combine, Low;
    var inv := ShiftsOf(f, z);
    forall i | 0 <= i < f.w ensures Combine(inv[i], rows, f.w) == Pow2(i) { UnitByInverse(f, rows, y, z, i); }
    InverseMeansNonsingular(inv, rows, f.w);
  }

  /** Finds the inverse of y exactly when it has one; with x primitive every nonzero word
      does. */
  method ShiftInverse(f: Field, y: nat) returns (ok: bool, z: nat)
    requires f.w >= 1 && IsWord(f, y)
    ensures ok <==> exists u :: IsWord(f, u) && Mul(f, u, y) == 1
    ensures ok ==> IsWord(f, z) && Mul(f, z, y) == 1
    ensures IsField(f) && IsPrimitive(f) && y != 0 ==> ok
  {
    hide Mul, Steps, Step, IsPrimitive, IsNonsingular, Combine, Low, Bit;
    var mat2, inv2 := new nat[f.w], new nat[f.w];
    var s := y;
    StepsStart(f, y);
    for i := 0 to f.w
      invariant s == Steps(f, y, i)
      invariant forall j :: 0 <= j < i ==> mat2[j] == Steps(f, y, j) && IsWord(f, mat2[j])
    {
      mat2[i] := s;
      s := Step(f, s);
      StepsNext(f, y, i);
    }
    ghost var rows := mat2[..];
    ok := InvertBinaryMatrix(mat2, inv2, f.w);
    z := inv2[0];
    if ok {
      CombineShifts(f, z, rows, y, f.w);
      LowAll(z, f.w);
      LowestUnit();
    }
    if u: nat :| IsWord(f, u) && Mul(f, u, y) == 1 { InvertibleShifts(f, rows, y, u); }
    if IsField(f) && IsPrimitive(f) && y != 0 {
      var u := Inverse(f, y);
      MulComm(f, y, u);
      InvertibleShifts(f, rows, y, u);
    }
  }

  lemma LowestUnit()
    ensures Pow2(0) == 1
  {
  }
}
