/** Building the MDR-I encoding matrix, and listing the rows to read for a failed disk. */
module MdrMatrix {
  import opened Bits
  import opened Blocks
  import opened MdrCode
  import opened MdrRepair

  /** A matrix mask holds bit 2^k - 1 - t exactly when row r names block t of column j. */
  ghost predicate MaskOk(mask: nat, k: nat, r: nat, j: nat) {
    forall b: nat :: Bit(mask, b) == (b < Pow2(k) && Names(k, r, j, Pow2(k) - 1 - b))
  }

  ghost predicate MatrixOk(m: array2<nat>, k: nat)
    reads m
  {
    m.Length0 == Pow2(k) && m.Length1 == k + 1 &&
    forall r, j :: 0 <= r < m.Length0 && 0 <= j < m.Length1 ==> MaskOk(m[r, j], k, r, j)
  }

  lemma OneBitMask(t: nat, k: nat, r: nat, j: nat)
    requires t < Pow2(k) && forall u :: 0 <= u < Pow2(k) ==> Names(k, r, j, u) == (u == Pow2(k) - 1 - t)
    ensures MaskOk(Pow2(t), k, r, j)
  {
    forall b: nat ensures Bit(Pow2(t), b) == (b < Pow2(k) && Names(k, r, j, Pow2(k) - 1 - b)) { BitOfPow2(t, b); }
  }

  lemma ZeroMask(k: nat, r: nat, j: nat)
    requires forall u :: 0 <= u < Pow2(k) ==> !Names(k, r, j, u)
    ensures MaskOk(0, k, r, j)
  {
    forall b: nat ensures !Bit(0, b) { BitOfZero(b); }
  }

  /** The mask of a data column one level up: both masks of the level below combined, and
      shifted past the bottom half for a top row. */
  lemma CombinedMask(x: nat, p: nat, k: nat, r: nat, j: nat)
    requires j < k && r < Pow2(k + 1)
    requires MaskOk(x, k, Fold(r, Pow2(k)), j) && MaskOk(p, k, Fold(r, Pow2(k)), k)
    ensures MaskOk(if r < Pow2(k) then Shl(Xor(x, p), Pow2(k)) else Xor(x, p), k + 1, r, j)
  {
    var h := Pow2(k);
    var mask := if r < h then Shl(Xor(x, p), h) else Xor(x, p);
    forall b: nat ensures Bit(mask, b) == (b < 2 * h && Names(k + 1, r, j, 2 * h - 1 - b)) {
      var c := if r < h then b - h else b;
      BitOfShl(Xor(x, p), h, b);
      if c >= 0 { BitOfXor(x, p, c); }
    }
  }

  /** The mask of the last data column: one block of the bottom half for a top row. */
  lemma LastDataMask(k: nat, r: nat)
    requires r < Pow2(k + 1)
    ensures MaskOk(if r < Pow2(k) then Pow2(Pow2(k) - 1 - r) else 0, k + 1, r, k)
  {
    if r < Pow2(k) { OneBitMask(Pow2(k) - 1 - r, k + 1, r, k); } else { ZeroMask(k + 1, r, k); }
  }

  /** The mask of P: one block of the top half for a bottom row. */
  lemma ParityMask(k: nat, r: nat)
    requires r < Pow2(k + 1)
    ensures MaskOk(if r < Pow2(k) then 0 else Pow2(Pow2(k) + (Pow2(k + 1) - 1 - r)), k + 1, r, k + 1)
  {
    if r < Pow2(k) { ZeroMask(k + 1, r, k + 1); }
    else { OneBitMask(Pow2(k) + (Pow2(k + 1) - 1 - r), k + 1, r, k + 1); }
  }

  /** One step of the recursion, from k data disks to k + 1. */
  method IterativeConstructEncodingMatrix(matrix: array2<nat>, k: nat) returns (newMatrix: array2<nat>)
    requires k > 0 && MatrixOk(matrix, k)
    ensures MatrixOk(newMatrix, k + 1) && fresh(newMatrix)
  {
    hide MaskOk, Xor, Shl;
    var row, newRow, newCol := Pow2(k), Pow2(k + 1), k + 2;
    var t := 0;
    newMatrix := new nat[newRow, newCol];
    for i := 0 to newCol
      invariant i == newCol - 1 ==> t == row
      invariant forall r, j :: 0 <= r < newRow && 0 <= j < i ==> MaskOk(newMatrix[r, j], k + 1, r, j)
    {
      if i < newCol - 2 {
        for j := 0 to row
          invariant forall r, c :: 0 <= r < newRow && 0 <= c < i ==> MaskOk(newMatrix[r, c], k + 1, r, c)
          invariant forall r :: 0 <= r < j ==> MaskOk(newMatrix[r, i], k + 1, r, i)
        {
          newMatrix[j, i] := Shl(Xor(matrix[j, i], matrix[j, k]), row);
          CombinedMask(matrix[j, i], matrix[j, k], k, j, i);
        }
        for j := row to newRow
          invariant forall r, c :: 0 <= r < newRow && 0 <= c < i ==> MaskOk(newMatrix[r, c], k + 1, r, c)
          invariant forall r :: 0 <= r < j ==> MaskOk(newMatrix[r, i], k + 1, r, i)
        {
          newMatrix[j, i] := Xor(matrix[j - row, i], matrix[j - row, k]);
          CombinedMask(matrix[j - row, i], matrix[j - row, k], k, j, i);
        }
      } else if i == newCol - 2 {
        t := 0;
        for j := row downto 0
          invariant t == row - j
          invariant forall r, c :: 0 <= r < newRow && 0 <= c < i ==> MaskOk(newMatrix[r, c], k + 1, r, c)
          invariant forall r :: j <= r < row ==> MaskOk(newMatrix[r, i], k + 1, r, i)
        {
          newMatrix[j, i] := Pow2(t);
          LastDataMask(k, j);
          t := t + 1;
        }
        for j := row to newRow
          invariant forall r, c :: 0 <= r < newRow && 0 <= c < i ==> MaskOk(newMatrix[r, c], k + 1, r, c)
          invariant forall r :: 0 <= r < j ==> MaskOk(newMatrix[r, i], k + 1, r, i)
        {
          newMatrix[j, i] := 0;
          LastDataMask(k, j);
        }
      } else {
        for j := 0 to row
          invariant forall r, c :: 0 <= r < newRow && 0 <= c < i ==> MaskOk(newMatrix[r, c], k + 1, r, c)
          invariant forall r :: 0 <= r < j ==> MaskOk(newMatrix[r, i], k + 1, r, i)
        {
          newMatrix[j, i] := 0;
          ParityMask(k, j);
        }
        for j := newRow downto row
          invariant t == row + (newRow - j)
          invariant forall r, c :: 0 <= r < newRow && 0 <= c < i ==> MaskOk(newMatrix[r, c], k + 1, r, c)
          invariant forall r :: 0 <= r < row || j <= r < newRow ==> MaskOk(newMatrix[r, i], k + 1, r, i)
        {
          newMatrix[j, i] := Pow2(t);
          ParityMask(k, j);
          t := t + 1;
        }
      }
    }
  }

  /** The matrix for k data disks; the process exits when k is not positive. */
  method EncodingMatrix(k: int) returns (matrix: array2?<nat>)
    ensures k <= 0 <==> matrix == null
    ensures k > 0 ==> MatrixOk(matrix, k) && fresh(matrix)
  {
    if k <= 0 { return null; }
    var m := new nat[2, 2];
    m[0, 0], m[0, 1], m[1, 0], m[1, 1] := 1, 0, 0, 2;
    OneBitMask(0, 1, 0, 0);
    ZeroMask(1, 0, 1);
    ZeroMask(1, 1, 0);
    OneBitMask(1, 1, 1, 1);
    var count := 1;
    while count != k
      invariant 1 <= count <= k && MatrixOk(m, count) && fresh(m)
      decreases k - count
    {
      m := IterativeConstructEncodingMatrix(m, count);
      count := count + 1;
    }
    matrix := m;
  }

  function PlusOne(s: seq<nat>): (r: seq<nat>)
    ensures |r| == |s| && forall i :: 0 <= i < |s| ==> r[i] == s[i] + 1
  {
    seq(|s|, i requires 0 <= i < |s| => s[i] + 1)
  }

  lemma InPlusOne(k: nat, d: nat, n: nat, u: int)
    ensures u in PlusOne(ReadList(k, d, n)) <==> 1 <= u <= n && Reads(k, d, u - 1)
  {
    var list := ReadList(k, d, n);
    if 1 <= u <= n && Reads(k, d, u - 1) {
      ReadListHasAll(k, d, n, u - 1);
      var m :| 0 <= m < |list| && list[m] == u - 1;
      assert PlusOne(list)[m] == u;
    }
  }

  lemma GrowPlusOne(k: nat, d: nat, t: nat)
    ensures PlusOne(ReadList(k, d, t + 1)) == PlusOne(ReadList(k, d, t)) + if Reads(k, d, t) then [t + 1] else []
  {
  }

  /** Membership in the rows to read, from the list of the level below. */
  lemma ReadsFromBelow(k: nat, d: nat, below: seq<nat>, i: nat)
    requires d + 1 < k && 1 <= i <= Pow2(k) && below == PlusOne(ReadList(k - 1, d, Pow2(k - 1)))
    ensures Reads(k, d, i - 1) <==> i in below || i - Pow2(k - 1) in below
  {
    var h := Pow2(k - 1);
    InPlusOne(k - 1, d, h, i);
    InPlusOne(k - 1, d, h, i - h);
    hide ReadList, PlusOne;
  }

  lemma ReadListNone(k: nat, d: nat)
    ensures PlusOne(ReadList(k, d, 0)) == []
  {
  }

  lemma ReadListOne(d: nat)
    requires d <= 1
    ensures PlusOne(ReadList(1, d, Pow2(1))) == [d + 1]
  {
    hide ReadList, PlusOne;
    assert Pow2(0) == 1 && Pow2(1) == 2;
    ReadListNone(1, d);
    GrowPlusOne(1, d, 0);
    GrowPlusOne(1, d, 1);
  }

  /** The rows to read when a disk fails, disks and rows both numbered from one. */
  method StripeIndexsInternal(diskId: nat, k: nat) returns (ivec: seq<nat>)
    requires 1 <= diskId <= k + 1 && k >= 1
    ensures ivec == PlusOne(ReadList(k, diskId - 1, Pow2(k)))
    decreases k
  {
    hide ReadList, PlusOne, Reads, Pow2;
    var size := Pow2(k);
    ghost var d := diskId - 1;
    ReadsOfLast(k, d);
    ivec := [];
    ReadListNone(k, d);
    if k == 1 {
      ReadListOne(d);
      return [diskId];
    }
    var r := size / 2;
    if diskId <= k - 1 {
      var below := StripeIndexsInternal(diskId, k - 1);
      var rows := set i: int | i in below;
      for i := 1 to size + 1
        invariant ivec == PlusOne(ReadList(k, d, i - 1))
      {
        ReadsFromBelow(k, d, below, i);
        GrowPlusOne(k, d, i - 1);
        if i in rows || i - r in rows { ivec := ivec + [i]; }
      }
    } else if diskId == k {
      for i := 1 to r + 1
        invariant ivec == PlusOne(ReadList(k, d, i - 1))
      {
        GrowPlusOne(k, d, i - 1);
        ivec := ivec + [i];
      }
      NoMoreReads(k, d, r, size);
    } else {
      NoMoreReads(k, d, 0, r);
      for i := r + 1 to size + 1
        invariant ivec == PlusOne(ReadList(k, d, i - 1))
      {
        GrowPlusOne(k, d, i - 1);
        ivec := ivec + [i];
      }
    }
  }

  lemma {:induction false} NoMoreReads(k: nat, d: nat, lo: nat, n: nat)
    requires lo <= n && forall t :: lo <= t < n ==> !Reads(k, d, t)
    ensures ReadList(k, d, n) == ReadList(k, d, lo)
  {
    if lo < n { NoMoreReads(k, d, lo, n - 1); }
  }

  /** The same rows numbered from zero. */
  method StripeIndexs(diskId: nat, k: nat) returns (ivec: seq<nat>)
    requires diskId <= k && k >= 1
    ensures ivec == ReadList(k, diskId, Pow2(k))
  {
    var one := StripeIndexsInternal(diskId + 1, k);
    ivec := [];
    for i := 0 to |one|
      invariant |ivec| == i && forall m :: 0 <= m < i ==> ivec[m] == one[m] - 1
    {
      ivec := ivec + [one[i] - 1];
    }
  }
}
