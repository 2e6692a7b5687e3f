/** Building Cauchy coding matrices and reducing their number of ones in place. */
module Cauchy {
  import opened BinaryMatrix
  import opened Bits
  import opened CauchyCode
  import opened CauchyOnes
  import opened GaloisField
  import opened GaloisTables

  /** Division by way of the inverse; -1 stands for division by zero. */
  method ShiftDivide(f: Field, a: nat, b: nat) returns (q: int)
    requires IsGalois(f) && IsWord(f, a) && IsWord(f, b)
    ensures q == -1 <==> b == 0
    ensures b != 0 ==> q >= 0 && IsWord(f, q) && forall z :: IsWord(f, z) ==> (Mul(f, z, b) == a <==> z == q)
  {
    hide Mul, IsPrimitive;
    if b == 0 { return -1; }
    if a == 0 {
      MulUnfold(f, 0, b);
      q := 0;
    } else {
      var ok, inverse := ShiftInverse(f, b);
      q := ShiftMultiply(f, a, inverse);
      MulAssoc(f, a, inverse, b);
      MulOne(f, a);
    }
    forall z | IsWord(f, z) ensures Mul(f, z, b) == a <==> z == q {
      if Mul(f, z, b) == a { MulCancel(f, z, q, b); }
    }
  }

  /** The contents of a matrix, row by row. */
  ghost function RowsOf(matrix: array2<nat>): (rows: seq<seq<nat>>)
    reads matrix
    ensures |rows| == matrix.Length0
    ensures forall i :: 0 <= i < |rows| ==> |rows[i]| == matrix.Length1
    ensures forall i, j :: 0 <= i < |rows| && 0 <= j < matrix.Length1 ==> rows[i][j] == matrix[i, j]
  {
    seq(matrix.Length0, i requires 0 <= i < matrix.Length0 reads matrix =>
      seq(matrix.Length1, j requires 0 <= j < matrix.Length1 reads matrix => matrix[i, j]))
  }

  /** The rows rs and columns cs of a matrix. */
  function Sub(rows: seq<seq<nat>>, n: nat, rs: seq<nat>, cs: seq<nat>): (sub: seq<seq<nat>>)
    requires forall i :: 0 <= i < |rows| ==> |rows[i]| == n
    requires forall i :: 0 <= i < |rs| ==> rs[i] < |rows|
    requires forall j :: 0 <= j < |cs| ==> cs[j] < n
    ensures |sub| == |rs| && forall i :: 0 <= i < |sub| ==> |sub[i]| == |cs|
    ensures forall i, j :: 0 <= i < |rs| && 0 <= j < |cs| ==> sub[i][j] == rows[rs[i]][cs[j]]
  {
    seq(|rs|, i requires 0 <= i < |rs| => seq(|cs|, j requires 0 <= j < |cs| => rows[rs[i]][cs[j]]))
  }

  ghost predicate AreIndices(s: seq<nat>, n: nat) {
    (forall i :: 0 <= i < |s| ==> s[i] < n) && forall i, j :: 0 <= i < j < |s| ==> s[i] != s[j]
  }

  /** Entry (i, j) is 1 / (i ^ (m + j)). No matrix if the field is too small for k + m points. */
  method OriginalCodingMatrix(f: Field, k: nat, m: nat) returns (matrix: array2?<nat>)
    requires IsGalois(f) && (f.w >= 31 ==> k + m <= Pow2(f.w))
    ensures matrix == null <==> f.w < 31 && k + m > Pow2(f.w)
    ensures matrix != null ==> fresh(matrix) && matrix.Length0 == m && matrix.Length1 == k
    ensures matrix != null ==> IsCauchy(f, k, m, matrix)
  {
    hide Mul, IsPrimitive, Xor, Pow2;
    if f.w < 31 && k + m > Pow2(f.w) { return null; }
    matrix := FillMatrix(f, k, m);
  }

  ghost predicate IsCauchy(f: Field, k: nat, m: nat, matrix: array2<nat>)
    requires IsGalois(f)
    reads matrix
  {
    matrix.Length0 == m && matrix.Length1 == k && k + m <= Pow2(f.w) &&
    forall i, j :: 0 <= i < m && 0 <= j < k ==> matrix[i, j] == Entry(f, i, m + j)
  }

  method FillMatrix(f: Field, k: nat, m: nat) returns (matrix: array2<nat>)
    requires IsGalois(f) && k + m <= Pow2(f.w)
    ensures fresh(matrix) && IsCauchy(f, k, m, matrix)
  {
    hide Mul, IsPrimitive, Xor, Pow2, Entry;
    matrix := new nat[m, k];
    LeastUnit(f);
    for i := 0 to m
      invariant forall r, c :: 0 <= r < i && 0 <= c < k ==> matrix[r, c] == Entry(f, r, m + c)
    {
      for j := 0 to k
        invariant forall r, c :: 0 <= r < m && 0 <= c < k && (r < i || (r == i && c < j)) ==>
          matrix[r, c] == Entry(f, r, m + c)
      {
        SumNotZero(f, i, m + j);
        var q := ShiftDivide(f, 1, Xor(i, m + j));
        EntryIsInverse(f, i, m + j);
        matrix[i, j] := q;
      }
    }
  }

  lemma EntryIsInverse(f: Field, x: nat, y: nat)
    requires IsGalois(f) && IsWord(f, x) && IsWord(f, y) && x != y
    ensures Mul(f, Entry(f, x, y), Xor(x, y)) == 1
  {
    hide Mul, Xor, IsPrimitive;
    SumNotZero(f, x, y);
    MulWords(f, Entry(f, x, y), Xor(x, y));
  }

  lemma LeastUnit(f: Field)
    requires f.w >= 1
    ensures IsWord(f, 1)
  {
  }

  function Shifted(cs: seq<nat>, m: nat): (ys: seq<nat>)
    ensures |ys| == |cs| && forall j :: 0 <= j < |cs| ==> ys[j] == m + cs[j]
  {
    seq(|cs|, j requires 0 <= j < |cs| => m + cs[j])
  }

  /** Every square submatrix of such a matrix is nonsingular. */
  lemma SubmatricesAreNonsingular(f: Field, k: nat, m: nat, rows: seq<seq<nat>>, rs: seq<nat>, cs: seq<nat>)
    requires IsGalois(f) && k + m <= Pow2(f.w) && |rows| == m && forall i :: 0 <= i < m ==> |rows[i]| == k
    requires forall i, j :: 0 <= i < m && 0 <= j < k ==> rows[i][j] == Entry(f, i, m + j)
    requires AreIndices(rs, m) && AreIndices(cs, k) && |rs| == |cs|
    ensures !IsSingular(f, Sub(rows, k, rs, cs), |cs|)
  {
    hide IsPrimitive, Pow2, IsSingular;
    var ys := Shifted(cs, m);
    var sub := Sub(rows, k, rs, cs);
    forall i | 0 <= i < |rs| ensures sub[i] == CauchyRow(f, rs[i], ys) {}
    CauchyIsNonsingular(f, rs, ys);
    assert sub == CauchyRows(f, rs, ys);
  }

  /** Submatrices of a scaled matrix are scaled submatrices. */
  lemma SubScaled(
      f: Field, a: seq<seq<nat>>, b: seq<seq<nat>>, n: nat, r: seq<nat>, c: seq<nat>, rs: seq<nat>, cs: seq<nat>)
    requires IsGalois(f) && IsScaled(f, a, b, n, r, c) && AreIndices(rs, |a|) && AreIndices(cs, n)
    ensures IsSingular(f, Sub(a, n, rs, cs), |cs|) <==> IsSingular(f, Sub(b, n, rs, cs), |cs|)
  {
    hide IsPrimitive, Mul, IsSingular;
    var x, y := Sub(a, n, rs, cs), Sub(b, n, rs, cs);
    var p := seq(|rs|, i requires 0 <= i < |rs| => r[rs[i]]);
    var q := seq(|cs|, j requires 0 <= j < |cs| => c[cs[j]]);
    forall i | 0 <= i < |rs| ensures AreWords(f, x[i]) { assert AreWords(f, a[rs[i]]); }
    assert IsScaled(f, x, y, |cs|, p, q);
    ScalingKeepsSingularity(f, x, y, |cs|, p, q);
  }

  // ---- Fewer ones ----

  function Times(f: Field, row: seq<nat>, t: nat): (r: seq<nat>)
    requires f.w >= 1
    ensures |r| == |row| && forall j :: 0 <= j < |r| ==> r[j] == Mul(f, row[j], t)
  {
    seq(|row|, j requires 0 <= j < |row| => Mul(f, row[j], t))
  }

  function RowOnes(f: Field, row: seq<nat>, n: nat): nat
    requires f.w >= 1 && n <= |row|
  {
    if n == 0 then 0 else RowOnes(f, row, n - 1) + MatrixOnes(f, row[n - 1], f.w)
  }

  /** The ones of the bit matrices of the first n entries of a row. */
  function OneBits(f: Field, row: seq<nat>, n: nat): (s: set<Position>)
    requires f.w >= 1 && n <= |row|
    ensures forall p :: p in s <==>
      p.entry < n && p.shift < f.w && p.bit < f.w && Bit(Steps(f, row[p.entry], p.shift), p.bit)
  {
    if n == 0 then {} else OneBits(f, row, n - 1) + MatrixBits(f, row[n - 1], n - 1, f.w)
  }

  lemma NextOneBits(f: Field, row: seq<nat>, n: nat)
    requires f.w >= 1 && n < |row|
    ensures OneBits(f, row, n + 1) == OneBits(f, row, n) + MatrixBits(f, row[n], n, f.w)
    ensures OneBits(f, row, n) !! MatrixBits(f, row[n], n, f.w)
    ensures RowOnes(f, row, n + 1) == RowOnes(f, row, n) + MatrixOnes(f, row[n], f.w)
  {
    hide Bit, Steps, MatrixBits, MatrixOnes;
  }

  lemma CountNextOneBits(f: Field, row: seq<nat>, n: nat)
    requires f.w >= 1 && n < |row| && IsWord(f, row[n])
    ensures |OneBits(f, row, n + 1)| - RowOnes(f, row, n + 1) == |OneBits(f, row, n)| - RowOnes(f, row, n)
  {
    hide Bit, Steps, MatrixBits, MatrixOnes, OneBits, RowOnes, Pow2;
    NextOneBits(f, row, n);
    CountMatrixBits(f, row[n], n, f.w);
    DisjointSize(OneBits(f, row, n), MatrixBits(f, row[n], n, f.w));
  }

  lemma {:induction false} CountOneBits(f: Field, row: seq<nat>, n: nat)
    requires f.w >= 1 && n <= |row| && AreWords(f, row)
    ensures |OneBits(f, row, n)| == RowOnes(f, row, n)
  {
    hide Bit, Steps, MatrixBits, MatrixOnes, OneBits, RowOnes, IsWord;
    if n > 0 {
      CountOneBits(f, row, n - 1);
      CountNextOneBits(f, row, n - 1);
    } else {
      NoOneBits(f, row);
    }
  }

  lemma NoOneBits(f: Field, row: seq<nat>)
    requires f.w >= 1
    ensures OneBits(f, row, 0) == {} && RowOnes(f, row, 0) == 0
  {
  }

  /** t is the inverse of x. */
  predicate IsInverse(f: Field, x: nat, t: nat)
    requires f.w >= 1
  {
    IsWord(f, t) && Mul(f, t, x) == 1
  }

  lemma InverseNotZero(f: Field, x: nat, t: nat)
    requires f.w >= 1 && IsInverse(f, x, t)
    ensures t != 0
  {
    hide Mul;
    MulUnfold(f, 0, x);
  }

  method ScaleColumn(f: Field, matrix: array2<nat>, j: nat, t: nat)
    requires f.w >= 1 && IsWord(f, t) && j < matrix.Length1
    requires forall i :: 0 <= i < matrix.Length0 ==> IsWord(f, matrix[i, j])
    modifies matrix
    ensures forall i, e :: 0 <= i < matrix.Length0 && 0 <= e < matrix.Length1 ==>
      matrix[i, e] == if e == j then Mul(f, old(matrix[i, e]), t) else old(matrix[i, e])
    ensures forall i :: 0 <= i < matrix.Length0 ==> IsWord(f, matrix[i, j])
  {
    hide Mul, Pow2;
    for i := 0 to matrix.Length0
      invariant forall r, e :: 0 <= r < matrix.Length0 && 0 <= e < matrix.Length1 ==>
        matrix[r, e] == if e == j && r < i then Mul(f, old(matrix[r, e]), t) else old(matrix[r, e])
      invariant forall r :: 0 <= r < matrix.Length0 ==> IsWord(f, matrix[r, j])
    {
      MulWords(f, matrix[i, j], t);
      matrix[i, j] := Mul(f, matrix[i, j], t);
    }
  }

  /** Divides each column by its entry in the first row. */
  method ScaleColumns(f: Field, k: nat, m: nat, matrix: array2<nat>) returns (ghost c: seq<nat>)
    requires IsGalois(f) && matrix.Length0 == m && matrix.Length1 == k && m > 0
    requires forall i, j :: 0 <= i < m && 0 <= j < k ==> IsWord(f, matrix[i, j])
    requires forall j :: 0 <= j < k ==> matrix[0, j] != 0
    modifies matrix
    ensures |c| == k && forall j :: 0 <= j < k ==> IsWord(f, c[j]) && c[j] != 0 && matrix[0, j] == 1
    ensures forall i, j :: 0 <= i < m && 0 <= j < k ==>
      IsWord(f, matrix[i, j]) && matrix[i, j] == Mul(f, old(matrix[i, j]), c[j])
  {
    hide Mul, IsPrimitive, Pow2;
    c := [];
    LeastUnit(f);
    for j := 0 to k
      invariant |c| == j && forall e :: 0 <= e < j ==> IsWord(f, c[e]) && c[e] != 0 && matrix[0, e] == 1
      invariant forall i, e :: 0 <= i < m && 0 <= e < k ==>
        IsWord(f, matrix[i, e]) &&
        matrix[i, e] == if e < j then Mul(f, old(matrix[i, e]), c[e]) else old(matrix[i, e])
    {
      var t: nat := 1;
      if matrix[0, j] != 1 {
        var q := ShiftDivide(f, 1, matrix[0, j]);
        t := q;
        MulWords(f, matrix[0, j], t);
        InverseNotZero(f, matrix[0, j], t);
        ScaleColumn(f, matrix, j, t);
      } else {
        forall i | 0 <= i < m ensures Mul(f, matrix[i, j], 1) == matrix[i, j] { MulOne(f, matrix[i, j]); }
      }
      c := c + [t];
    }
  }

  /** The ones of a row. */
  method CountRow(f: Field, row: seq<nat>) returns (no: int)
    requires f.w >= 2 && AreWords(f, row)
    ensures no == RowOnes(f, row, |row|)
  {
    hide MatrixOnes;
    no := 0;
    for x := 0 to |row|
      invariant no == RowOnes(f, row, x)
    {
      var ones := NOnes(f, row[x]);
      no := no + ones;
    }
  }

  /** Dividing the row by any of its first n entries leaves at least this many ones. */
  ghost predicate IsBest(f: Field, row: seq<nat>, n: nat, ones: int)
    requires f.w >= 1 && n <= |row|
  {
    forall e, t :: 0 <= e < n && IsInverse(f, row[e], t) ==> ones <= RowOnes(f, Times(f, row, t), |row|)
  }

  lemma NoneYet(f: Field, row: seq<nat>)
    requires f.w >= 1
    ensures forall ones :: IsBest(f, row, 0, ones) && IsFirst(f, row, -1, ones)
  {
  }

  lemma BestNext(f: Field, row: seq<nat>, j: nat, bno: int, t: nat)
    requires IsGalois(f) && j < |row| && AreWords(f, row) && row[j] != 0
    requires IsBest(f, row, j, bno) && IsInverse(f, row[j], t)
    ensures var tno := RowOnes(f, Times(f, row, t), |row|); IsBest(f, row, j + 1, if tno < bno then tno else bno)
  {
    hide Mul, IsPrimitive, Pow2, RowOnes, Times;
    forall u | IsInverse(f, row[j], u) ensures u == t { MulCancel(f, u, t, row[j]); }
  }

  /** Dividing the row by any entry before entry x leaves more ones than this. */
  ghost predicate IsFirst(f: Field, row: seq<nat>, x: int, ones: int)
    requires f.w >= 1 && x <= |row|
  {
    forall e, t :: 0 <= e < x && IsInverse(f, row[e], t) ==> ones < RowOnes(f, Times(f, row, t), |row|)
  }

  lemma BestIsFirst(f: Field, row: seq<nat>, j: nat, bno: int, tno: int)
    requires f.w >= 1 && j <= |row| && IsBest(f, row, j, bno) && tno < bno
    ensures IsFirst(f, row, j, tno)
  {
    hide RowOnes, Times, IsInverse;
  }

  /** The row divided by its entry x, whose inverse is r: the first of those entries that leave the
      fewest ones, if that is fewer than the row has. If no entry leaves fewer, x is -1 and the
      row is unchanged. */
  ghost predicate IsImproved(f: Field, row: seq<nat>, better: seq<nat>, x: int, r: nat)
    requires f.w >= 1
  {
    var n := |row|;
    better == Times(f, row, r) && -1 <= x < n &&
    (if x == -1 then better == row
     else Mul(f, r, row[x]) == 1 && |OneBits(f, better, n)| < |OneBits(f, row, n)|) &&
    forall e, t :: 0 <= e < n && IsWord(f, t) && Mul(f, t, row[e]) == 1 ==>
      |OneBits(f, better, n)| <= |OneBits(f, Times(f, row, t), n)| &&
      (e < x ==> |OneBits(f, better, n)| < |OneBits(f, Times(f, row, t), n)|)
  }

  lemma BestIsImproved(f: Field, row: seq<nat>, better: seq<nat>, x: int, r: nat)
    requires f.w >= 1 && AreWords(f, row) && AreWords(f, better) && better == Times(f, row, r) && -1 <= x < |row|
    requires if x == -1 then better == row
      else IsInverse(f, row[x], r) && RowOnes(f, better, |row|) < RowOnes(f, row, |row|)
    requires IsBest(f, row, |row|, RowOnes(f, better, |row|)) && IsFirst(f, row, x, RowOnes(f, better, |row|))
    ensures IsImproved(f, row, better, x, r)
  {
    hide Mul, Pow2, RowOnes, OneBits, Times, AreWords;
    var n := |row|;
    CountOneBits(f, row, n);
    CountOneBits(f, better, n);
    forall e, t | 0 <= e < n && IsWord(f, t) && Mul(f, t, row[e]) == 1
      ensures |OneBits(f, better, n)| <= |OneBits(f, Times(f, row, t), n)|
      ensures e < x ==> |OneBits(f, better, n)| < |OneBits(f, Times(f, row, t), n)|
    {
      TimesWords(f, row, t);
      CountOneBits(f, Times(f, row, t), n);
      assert IsInverse(f, row[e], t);
    }
  }

  /** Divides a row by the one of its entries that leaves the fewest ones, if that is fewer
      than it has. */
  method ImproveRow(f: Field, row: seq<nat>) returns (better: seq<nat>, ghost r: nat, ghost x: int)
    requires IsGalois(f) && f.w >= 2 && AreWords(f, row) && forall j :: 0 <= j < |row| ==> row[j] != 0
    ensures IsWord(f, r) && r != 0 && AreWords(f, better) && IsImproved(f, row, better, x, r)
  {
    hide Mul, IsPrimitive, Pow2, RowOnes, Times, MatrixOnes, Xor, IsBest, IsFirst, IsImproved, AreWords, Bit;
    NoneYet(f, row);
    var bno := CountRow(f, row);
    var bnoIndex := -1;
    ghost var best: nat := 1;
    LeastUnit(f);
    OneIsUnit(f, row);
    for j := 0 to |row|
      invariant IsWord(f, best) && best != 0 && bno == RowOnes(f, Times(f, row, best), |row|)
      invariant bno <= RowOnes(f, row, |row|) && -1 <= bnoIndex < j
      invariant if bnoIndex == -1 then best == 1
        else IsInverse(f, row[bnoIndex], best) && bno < RowOnes(f, row, |row|)
      invariant IsBest(f, row, j, bno) && IsFirst(f, row, bnoIndex, bno)
    {
      if row[j] != 1 {
        WordAt(f, row, j);
        var tmp := ShiftDivide(f, 1, row[j]);
        TimesWords(f, row, tmp);
        var tno := CountRow(f, Times(f, row, tmp));
        BestNext(f, row, j, bno, tmp);
        if tno < bno {
          BestIsFirst(f, row, j, bno, tno);
          bno, bnoIndex, best := tno, j, tmp;
          InverseNotZero(f, row[j], tmp);
        }
      } else {
        MulOne(f, 1);
        BestNext(f, row, j, bno, 1);
      }
    }
    better, r, x := row, 1, bnoIndex;
    if bnoIndex != -1 {
      WordAt(f, row, bnoIndex);
      var tmp := ShiftDivide(f, 1, row[bnoIndex]);
      assert IsWord(f, best) && Mul(f, best, row[bnoIndex]) == 1;
      better, r := Times(f, row, tmp), tmp;
    }
    TimesWords(f, row, r);
    BestIsImproved(f, row, better, x, r);
  }

  lemma WordAt(f: Field, row: seq<nat>, j: nat)
    requires AreWords(f, row) && j < |row|
    ensures IsWord(f, row[j])
  {
  }

  lemma OneIsUnit(f: Field, row: seq<nat>)
    requires f.w >= 1 && AreWords(f, row)
    ensures Times(f, row, 1) == row
  {
    hide Mul;
    forall j | 0 <= j < |row| ensures Times(f, row, 1)[j] == row[j] { MulOne(f, row[j]); }
  }

  lemma TimesWords(f: Field, row: seq<nat>, t: nat)
    requires f.w >= 1 && AreWords(f, row) && IsWord(f, t)
    ensures AreWords(f, Times(f, row, t))
  {
    hide Mul;
  }

  /** Divides the columns so that the first row becomes all ones, and then every other row by the
      first of its entries that leaves the fewest ones. Entry x[i] of row i is the one divided by,
      -1 if none leaves fewer ones than the row has. */
  method ImproveCodingMatrix(f: Field, k: nat, m: nat, matrix: array2<nat>)
      returns (ghost r: seq<nat>, ghost c: seq<nat>, ghost x: seq<int>)
    requires IsGalois(f) && f.w >= 2 && matrix.Length0 == m && matrix.Length1 == k && m > 0
    requires forall i, j :: 0 <= i < m && 0 <= j < k ==> IsWord(f, matrix[i, j]) && matrix[i, j] != 0
    modifies matrix
    ensures IsScaled(f, old(RowsOf(matrix)), RowsOf(matrix), k, r, c) && |x| == m
    ensures forall j :: 0 <= j < k ==> matrix[0, j] == 1
    ensures forall i :: 0 < i < m ==>
      var row, better := ColumnsScaled(f, old(RowsOf(matrix))[i], c), RowsOf(matrix)[i];
      better == Times(f, row, r[i]) && -1 <= x[i] < k &&
      (if x[i] == -1 then better == row
       else Mul(f, r[i], row[x[i]]) == 1 && |OneBits(f, better, k)| < |OneBits(f, row, k)|) &&
      forall e, t :: 0 <= e < k && IsWord(f, t) && Mul(f, t, row[e]) == 1 ==>
        |OneBits(f, better, k)| <= |OneBits(f, Times(f, row, t), k)| &&
        (e < x[i] ==> |OneBits(f, better, k)| < |OneBits(f, Times(f, row, t), k)|)
  {
    hide Mul, IsPrimitive, Pow2, Times, OneBits, AreWords, ColumnsScaled;
    ghost var before := RowsOf(matrix);
    c := ScaleColumns(f, k, m, matrix);
    ghost var scaled := RowsOf(matrix);
    ScaledRows(f, k, before, scaled, c);
    r, x := ImproveRows(f, k, m, matrix);
    Scaled(f, k, before, scaled, RowsOf(matrix), r, c);
    assert RowsOf(matrix)[0] == scaled[0];
  }

  /** The second pass: every row but the first. */
  method ImproveRows(f: Field, k: nat, m: nat, matrix: array2<nat>) returns (ghost r: seq<nat>, ghost x: seq<int>)
    requires IsGalois(f) && f.w >= 2 && matrix.Length0 == m && matrix.Length1 == k && m > 0
    requires forall i :: 0 <= i < m ==>
      AreWords(f, RowsOf(matrix)[i]) && forall j :: 0 <= j < k ==> RowsOf(matrix)[i][j] != 0
    modifies matrix
    ensures |r| == |x| == m && forall i :: 0 <= i < m ==> IsWord(f, r[i]) && r[i] != 0
    ensures forall i :: 0 <= i < m ==> RowsOf(matrix)[i] == Times(f, old(RowsOf(matrix))[i], r[i])
    ensures RowsOf(matrix)[0] == old(RowsOf(matrix))[0]
    ensures forall i :: 0 < i < m ==> IsImproved(f, old(RowsOf(matrix))[i], RowsOf(matrix)[i], x[i], r[i])
  {
    hide Mul, IsPrimitive, Pow2, Times, OneBits, IsImproved, AreWords;
    ghost var before := RowsOf(matrix);
    LeastUnit(f);
    r, x := [1], [-1];
    OneIsUnit(f, before[0]);
    for i := 1 to m
      invariant |r| == |x| == i && forall e :: 0 <= e < i ==> IsWord(f, r[e]) && r[e] != 0
      invariant forall e :: 0 <= e < m ==> RowsOf(matrix)[e] == if e < i then Times(f, before[e], r[e]) else before[e]
      invariant RowsOf(matrix)[0] == before[0]
      invariant forall e :: 0 < e < i ==> IsImproved(f, before[e], RowsOf(matrix)[e], x[e], r[e])
    {
      ghost var t, y := ImproveRowOf(f, k, m, matrix, i);
      r, x := r + [t], x + [y];
    }
  }

  /** A row with column j times c[j]. */
  function ColumnsScaled(f: Field, row: seq<nat>, c: seq<nat>): (s: seq<nat>)
    requires f.w >= 1 && |row| == |c|
    ensures |s| == |row| && forall j :: 0 <= j < |s| ==> s[j] == Mul(f, row[j], c[j])
  {
    seq(|row|, j requires 0 <= j < |row| => Mul(f, row[j], c[j]))
  }

  /** The rows after the first pass. */
  lemma ScaledRows(f: Field, k: nat, before: seq<seq<nat>>, scaled: seq<seq<nat>>, c: seq<nat>)
    requires f.w >= 1 && IsField(f) && IsPrimitive(f) && |before| == |scaled| && |c| == k
    requires forall i :: 0 <= i < |before| ==> |before[i]| == |scaled[i]| == k
    requires forall i, j :: 0 <= i < |before| && 0 <= j < k ==>
      IsWord(f, before[i][j]) && before[i][j] != 0 && IsWord(f, scaled[i][j]) &&
      scaled[i][j] == Mul(f, before[i][j], c[j])
    requires forall j :: 0 <= j < k ==> IsWord(f, c[j]) && c[j] != 0
    ensures forall i :: 0 <= i < |before| ==>
      scaled[i] == ColumnsScaled(f, before[i], c) && AreWords(f, scaled[i]) && AreWords(f, before[i]) &&
      forall j :: 0 <= j < k ==> scaled[i][j] != 0
  {
    hide Mul, IsPrimitive, Pow2, IsField, ColumnsScaled, AreWords;
    forall i | 0 <= i < |before|
      ensures scaled[i] == ColumnsScaled(f, before[i], c) && AreWords(f, scaled[i]) && AreWords(f, before[i])
      ensures forall j :: 0 <= j < k ==> scaled[i][j] != 0
    {
      var row, now := before[i], scaled[i];
      forall j | 0 <= j < k
        ensures IsWord(f, row[j]) && row[j] != 0 && IsWord(f, now[j]) && now[j] == Mul(f, row[j], c[j])
      {
        assert scaled[i][j] == Mul(f, before[i][j], c[j]);
      }
      ScaledRow(f, row, now, c);
    }
  }

  lemma ScaledRow(f: Field, row: seq<nat>, scaled: seq<nat>, c: seq<nat>)
    requires f.w >= 1 && IsField(f) && IsPrimitive(f) && |row| == |scaled| == |c|
    requires forall j :: 0 <= j < |c| ==>
      IsWord(f, row[j]) && row[j] != 0 && IsWord(f, scaled[j]) && scaled[j] == Mul(f, row[j], c[j]) &&
      IsWord(f, c[j]) && c[j] != 0
    ensures scaled == ColumnsScaled(f, row, c) && AreWords(f, scaled) && AreWords(f, row)
    ensures forall j :: 0 <= j < |c| ==> scaled[j] != 0
  {
    hide Mul, IsPrimitive, Pow2;
    forall j | 0 <= j < |c| ensures scaled[j] != 0 {
      if scaled[j] == 0 { NoZeroDivisors(f, row[j], c[j]); }
    }
  }

  /** Both passes together. */
  lemma Scaled(
      f: Field, k: nat, before: seq<seq<nat>>, scaled: seq<seq<nat>>, after: seq<seq<nat>>, r: seq<nat>, c: seq<nat>)
    requires f.w >= 1 && |before| == |scaled| == |after| == |r| && |c| == k
    requires forall i :: 0 <= i < |before| ==> |before[i]| == k && AreWords(f, before[i])
    requires forall i :: 0 <= i < |before| ==>
      scaled[i] == ColumnsScaled(f, before[i], c) && after[i] == Times(f, scaled[i], r[i])
    requires forall j :: 0 <= j < k ==> IsWord(f, c[j]) && c[j] != 0
    requires forall i :: 0 <= i < |r| ==> IsWord(f, r[i]) && r[i] != 0
    ensures IsScaled(f, before, after, k, r, c)
  {
    hide Mul, IsPrimitive, Pow2;
  }

  /** One row of the second pass. */
  method ImproveRowOf(f: Field, k: nat, m: nat, matrix: array2<nat>, i: nat) returns (ghost t: nat, ghost x: int)
    requires IsGalois(f) && f.w >= 2 && matrix.Length0 == m && matrix.Length1 == k && i < m
    requires AreWords(f, RowsOf(matrix)[i]) && forall j :: 0 <= j < k ==> matrix[i, j] != 0
    modifies matrix
    ensures IsWord(f, t) && t != 0
    ensures RowsOf(matrix)[i] == Times(f, old(RowsOf(matrix))[i], t)
    ensures IsImproved(f, old(RowsOf(matrix))[i], RowsOf(matrix)[i], x, t)
    ensures forall e :: 0 <= e < m && e != i ==> RowsOf(matrix)[e] == old(RowsOf(matrix))[e]
  {
    hide Mul, IsPrimitive, Pow2, IsImproved, Times, AreWords;
    ghost var before := RowsOf(matrix);
    var row := seq(k, j requires 0 <= j < k reads matrix => matrix[i, j]);
    assert row == before[i];
    var better;
    better, t, x := ImproveRow(f, row);
    ImprovedIsTimes(f, row, better, x, t);
    for j := 0 to k
      invariant forall e, y :: 0 <= e < m && 0 <= y < k ==>
        matrix[e, y] == if e == i && y < j then better[y] else before[e][y]
    {
      matrix[i, j] := better[j];
    }
    assert RowsOf(matrix)[i] == better;
    forall e | 0 <= e < m && e != i ensures RowsOf(matrix)[e] == before[e] {
      forall j | 0 <= j < k ensures RowsOf(matrix)[e][j] == before[e][j] {}
    }
  }

  lemma ImprovedIsTimes(f: Field, row: seq<nat>, better: seq<nat>, x: int, r: nat)
    requires f.w >= 1 && IsImproved(f, row, better, x, r)
    ensures better == Times(f, row, r) && |better| == |row|
  {
  }

  /** Every square submatrix is nonsingular. */
  ghost predicate IsSuperregular(f: Field, rows: seq<seq<nat>>, k: nat)
    requires f.w >= 1 && forall i :: 0 <= i < |rows| ==> |rows[i]| == k
  {
    forall rs, cs :: AreIndices(rs, |rows|) && AreIndices(cs, k) && |rs| == |cs| ==>
      !IsSingular(f, Sub(rows, k, rs, cs), |cs|)
  }

  /** Row i of the matrix before its columns and rows are divided. */
  ghost function OriginalRow(f: Field, k: nat, m: nat, i: nat): (row: seq<nat>)
    requires IsGalois(f) && k + m <= Pow2(f.w) && i < m
    ensures |row| == k && forall j :: 0 <= j < k ==> row[j] == Entry(f, i, m + j)
  {
    CauchyRow(f, i, seq(k, j requires 0 <= j < k => m + j))
  }

  /** A Cauchy matrix with few ones: still every square submatrix is nonsingular. Its rows but
      the first are improved rows of the Cauchy matrix with divided columns. */
  method GoodCodingMatrix(f: Field, k: nat, m: nat)
      returns (matrix: array2?<nat>, ghost r: seq<nat>, ghost c: seq<nat>, ghost x: seq<int>)
    requires IsGalois(f) && f.w >= 2 && m > 0 && (f.w >= 31 ==> k + m <= Pow2(f.w))
    ensures matrix == null <==> f.w < 31 && k + m > Pow2(f.w)
    ensures matrix != null ==> IsGood(f, k, m, matrix) && |c| == k && |r| == |x| == m && k + m <= Pow2(f.w)
    ensures matrix != null ==> forall i :: 0 < i < m ==>
      IsImproved(f, ColumnsScaled(f, OriginalRow(f, k, m, i), c), RowsOf(matrix)[i], x[i], r[i])
  {
    hide IsPrimitive, Pow2, IsSuperregular, Entry, Mul, OneBits, Times, ColumnsScaled;
    r, c, x := [], [], [];
    matrix := OriginalCodingMatrix(f, k, m);
    if matrix == null { return; }
    ghost var before := RowsOf(matrix);
    forall i, j | 0 <= i < m && 0 <= j < k ensures IsWord(f, matrix[i, j]) && matrix[i, j] != 0 {
      assert matrix[i, j] == Entry(f, i, m + j);
    }
    OriginalIsSuperregular(f, k, m, matrix);
    forall i | 0 < i < m ensures before[i] == OriginalRow(f, k, m, i) {}
    r, c, x := ImproveCodingMatrix(f, k, m, matrix);
    ScaledIsSuperregular(f, before, RowsOf(matrix), k, r, c);
  }

  ghost predicate IsGood(f: Field, k: nat, m: nat, matrix: array2<nat>)
    requires f.w >= 1
    reads matrix
  {
    matrix.Length0 == m && matrix.Length1 == k && m > 0 && IsSuperregular(f, RowsOf(matrix), k) &&
    forall j :: 0 <= j < k ==> matrix[0, j] == 1
  }

  lemma OriginalIsSuperregular(f: Field, k: nat, m: nat, matrix: array2<nat>)
    requires IsGalois(f) && IsCauchy(f, k, m, matrix)
    ensures IsSuperregular(f, RowsOf(matrix), k)
  {
    hide IsPrimitive, Pow2, IsSingular, Sub, Entry;
    var rows := RowsOf(matrix);
    forall rs, cs | AreIndices(rs, m) && AreIndices(cs, k) && |rs| == |cs|
      ensures !IsSingular(f, Sub(rows, k, rs, cs), |cs|)
    {
      SubmatricesAreNonsingular(f, k, m, rows, rs, cs);
    }
  }

  lemma ScaledIsSuperregular(f: Field, a: seq<seq<nat>>, b: seq<seq<nat>>, k: nat, r: seq<nat>, c: seq<nat>)
    requires IsGalois(f) && IsScaled(f, a, b, k, r, c) && IsSuperregular(f, a, k)
    ensures IsSuperregular(f, b, k)
  {
    hide IsPrimitive, Pow2, IsSingular, Sub;
    forall rs, cs | AreIndices(rs, |b|) && AreIndices(cs, k) && |rs| == |cs|
      ensures !IsSingular(f, Sub(b, k, rs, cs), |cs|)
    {
      SubScaled(f, a, b, k, r, c, rs, cs);
    }
  }
}
