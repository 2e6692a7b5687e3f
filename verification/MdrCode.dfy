/** The MDR-I code as equations: which blocks each Q block is the XOR of, and why any
    two lost columns of a strip are determined by the others. */
module MdrCode {
  import opened Bits
  import opened Blocks

  /** Row r of the Q equations for k data disks names block t of column j (column k is
      the P disk). A strip has 2^k rows; level k is built from two copies of level k-1. */
  predicate Names(k: nat, r: nat, j: nat, t: nat) {
    k > 0 &&
    var h := Pow2(k - 1);
    if j + 1 < k then
      (r < h <==> t < h) && r < 2 * h && t < 2 * h &&
      Names(k - 1, Fold(r, h), j, Fold(t, h)) != Names(k - 1, Fold(r, h), k - 1, Fold(t, h))
    else if j + 1 == k then r < h && t == r + h
    else j == k && h <= r < 2 * h && t == r - h
  }

  function Fold(x: nat, h: nat): nat {
    if x < h then x else x - h
  }

  ghost predicate IsStripe(k: nat, a: seq<Column>) {
    |a| == k + 1 && forall j :: 0 <= j <= k ==> |a[j]| == Pow2(k)
  }

  /** XOR of the blocks among the first n of column j that row r names. */
  function Named(k: nat, r: nat, j: nat, col: Column, n: nat): Block
    requires n <= |col|
  {
    if n == 0 then 0
    else Xor(Named(k, r, j, col, n - 1), if Names(k, r, j, n - 1) then col[n - 1] else 0)
  }

  /** XOR of everything row r names in the first n columns. */
  function QRow(k: nat, r: nat, a: seq<Column>, n: nat): Block
    requires n <= |a|
  {
    if n == 0 then 0 else Xor(QRow(k, r, a, n - 1), Named(k, r, n - 1, a[n - 1], |a[n - 1]|))
  }

  ghost predicate ParityOk(k: nat, a: seq<Column>)
    requires IsStripe(k, a)
  {
    forall t :: 0 <= t < Pow2(k) ==> a[k][t] == RowXor(a, k, t)
  }

  /** The value the Q disk must hold in row r. */
  function QValue(k: nat, r: nat, a: seq<Column>): Block
    requires |a| == k + 1
  {
    QRow(k, r, a, k + 1)
  }

  // ---- Splitting a level-k strip into two level-(k-1) strips ----

  function XorColumns(x: Column, y: Column): (z: Column)
    requires |x| == |y|
    ensures |z| == |x| && forall t :: 0 <= t < |x| ==> z[t] == Xor(x[t], y[t])
  {
    seq(|x|, t requires 0 <= t < |x| => Xor(x[t], y[t]))
  }

  ghost predicate IsHalfStart(k: nat, b: nat) {
    k > 0 && (b == 0 || b == Pow2(k - 1))
  }

  function Slice(k: nat, col: Column, b: nat): (s: Column)
    requires IsHalfStart(k, b) && |col| == Pow2(k)
    ensures |s| == Pow2(k - 1) && forall t :: 0 <= t < |s| ==> s[t] == col[b + t]
  {
    col[b..b + Pow2(k - 1)]
  }

  /** The half strip of 2^(k-1) rows starting at row b is a strip of the level below: the
      first k-1 data columns, and P with the last data column removed from it. */
  function Half(k: nat, a: seq<Column>, b: nat): (c: seq<Column>)
    requires IsHalfStart(k, b) && IsStripe(k, a)
    ensures IsStripe(k - 1, c)
    ensures c[k - 1] == XorColumns(Slice(k, a[k], b), Slice(k, a[k - 1], b))
    ensures forall j :: 0 <= j < k - 1 ==> c[j] == Slice(k, a[j], b)
  {
    seq(k - 1, j requires 0 <= j < k - 1 => Slice(k, a[j], b))
    + [XorColumns(Slice(k, a[k], b), Slice(k, a[k - 1], b))]
  }

  lemma {:induction false} HalfRowXor(k: nat, a: seq<Column>, b: nat, n: nat, t: nat)
    requires IsHalfStart(k, b) && IsStripe(k, a) && n < k && t < Pow2(k - 1)
    ensures RowXor(Half(k, a, b), n, t) == RowXor(a, n, b + t)
  {
    if n > 0 { HalfRowXor(k, a, b, n - 1, t); }
  }

  lemma HalfParity(k: nat, a: seq<Column>, b: nat)
    requires IsHalfStart(k, b) && IsStripe(k, a) && ParityOk(k, a)
    ensures ParityOk(k - 1, Half(k, a, b))
  {
    hide Xor;
    var c := Half(k, a, b);
    var p := c[k - 1];
    forall t | 0 <= t < |p| ensures p[t] == RowXor(c, k - 1, t) {
      HalfRowXor(k, a, b, k - 1, t);
      assert a[k][b + t] == RowXor(a, k, b + t) == Xor(RowXor(a, k - 1, b + t), a[k - 1][b + t]);
      XorCancel(RowXor(a, k - 1, b + t), a[k - 1][b + t]);
    }
  }

  // ---- The Q equations of a strip in terms of its halves ----

  lemma {:induction false} NamedNothing(k: nat, r: nat, j: nat, col: Column, lo: nat, n: nat)
    requires lo <= n <= |col|
    requires forall t :: lo <= t < n ==> !Names(k, r, j, t)
    ensures Named(k, r, j, col, n) == Named(k, r, j, col, lo)
  {
    if lo < n {
      NamedNothing(k, r, j, col, lo, n - 1);
      XorZero(Named(k, r, j, col, lo));
    }
  }

  lemma NamesInHalf(k: nat, r: nat, j: nat, b: nat, t: nat)
    requires IsHalfStart(k, b) && b <= r < b + Pow2(k - 1)
    requires j + 1 < k && t < Pow2(k - 1)
    ensures Names(k, r, j, b + t) == (Names(k - 1, r - b, j, t) != Names(k - 1, r - b, k - 1, t))
  {
  }

  lemma NamesOutOfHalf(k: nat, r: nat, j: nat, b: nat)
    requires IsHalfStart(k, b) && b <= r < b + Pow2(k - 1) && j + 1 < k
    ensures forall t :: 0 <= t < b || b + Pow2(k - 1) <= t < Pow2(k) ==> !Names(k, r, j, t)
  {
  }

  lemma {:induction false} NamedPrefix(k: nat, r: nat, j: nat, col: Column, b: nat, m: nat)
    requires IsHalfStart(k, b) && b <= r < b + Pow2(k - 1)
    requires j + 1 < k && |col| == Pow2(k) && m <= Pow2(k - 1)
    ensures
      var half := Slice(k, col, b);
      Named(k, r, j, col, b + m) == Xor(Named(k - 1, r - b, j, half, m), Named(k - 1, r - b, k - 1, half, m))
  {
    hide Names, Xor;
    if m == 0 {
      NamesOutOfHalf(k, r, j, b);
      NamedNothing(k, r, j, col, 0, b);
      XorZero(0);
    } else {
      NamedPrefix(k, r, j, col, b, m - 1);
      var half := Slice(k, col, b);
      var v := half[m - 1];
      NamesInHalf(k, r, j, b, m - 1);
      XorZero(v);
      XorZero(0);
      XorSwap(Named(k - 1, r - b, j, half, m - 1), Named(k - 1, r - b, k - 1, half, m - 1),
              if Names(k - 1, r - b, j, m - 1) then v else 0,
              if Names(k - 1, r - b, k - 1, m - 1) then v else 0);
    }
  }

  /** Over a data column a row reads only its own half, where it names what the level
      below names in that column or in P. */
  lemma NamedSplit(k: nat, r: nat, j: nat, col: Column, b: nat)
    requires IsHalfStart(k, b) && b <= r < b + Pow2(k - 1)
    requires j + 1 < k && |col| == Pow2(k)
    ensures
      var half := Slice(k, col, b);
      Named(k, r, j, col, |col|)
      == Xor(Named(k - 1, r - b, j, half, |half|), Named(k - 1, r - b, k - 1, half, |half|))
  {
    hide Names, Xor;
    var h := Pow2(k - 1);
    NamesOutOfHalf(k, r, j, b);
    NamedPrefix(k, r, j, col, b, h);
    NamedNothing(k, r, j, col, b + h, 2 * h);
  }

  /** Over the last data column and over P a row names at most one block. */
  lemma {:induction false} NamedSingle(k: nat, r: nat, j: nat, col: Column, n: nat)
    requires 0 < k <= j + 1 && j <= k && r < Pow2(k) && n <= |col| == Pow2(k)
    ensures
      var h := Pow2(k - 1);
      Named(k, r, j, col, n) ==
        if j + 1 == k then (if r < h && r + h < n then col[r + h] else 0)
        else (if h <= r && r - h < n then col[r - h] else 0)
  {
    if n > 0 {
      NamedSingle(k, r, j, col, n - 1);
      XorZero(col[n - 1]);
      XorZero(Named(k, r, j, col, n - 1));
    }
  }

  lemma {:induction false} NamedOfXor(k: nat, r: nat, j: nat, x: Column, y: Column, n: nat)
    requires |x| == |y| && n <= |x|
    ensures Named(k, r, j, XorColumns(x, y), n) == Xor(Named(k, r, j, x, n), Named(k, r, j, y, n))
  {
    if n > 0 {
      NamedOfXor(k, r, j, x, y, n - 1);
      XorZero(0);
      XorSwap(Named(k, r, j, x, n - 1), Named(k, r, j, y, n - 1),
              if Names(k, r, j, n - 1) then x[n - 1] else 0, if Names(k, r, j, n - 1) then y[n - 1] else 0);
    }
  }

  /** The columnwise XOR of the first n columns. */
  function RowXors(a: seq<Column>, n: nat, size: nat): (p: Column)
    requires n <= |a| && forall j :: 0 <= j < n ==> |a[j]| == size
    ensures |p| == size && forall t :: 0 <= t < size ==> p[t] == RowXor(a, n, t)
  {
    seq(size, t requires 0 <= t < size => RowXor(a, n, t))
  }

  lemma NoRowXors(a: seq<Column>, size: nat)
    ensures forall t :: 0 <= t < size ==> RowXors(a, 0, size)[t] == 0
  {
  }

  lemma RowXorsNext(a: seq<Column>, n: nat, size: nat)
    requires 0 < n <= |a| && forall j :: 0 <= j < n ==> |a[j]| == size
    ensures RowXors(a, n, size) == XorColumns(RowXors(a, n - 1, size), a[n - 1])
  {
    hide Xor;
  }

  lemma {:induction false} NamedOfNothing(k: nat, r: nat, j: nat, z: Column, n: nat)
    requires n <= |z| && forall t :: 0 <= t < |z| ==> z[t] == 0
    ensures Named(k, r, j, z, n) == 0
  {
    if n > 0 { NamedOfNothing(k, r, j, z, n - 1); XorZero(0); }
  }

  lemma {:induction false} QPrefix(k: nat, r: nat, a: seq<Column>, b: nat, n: nat)
    requires IsHalfStart(k, b) && b <= r < b + Pow2(k - 1) && IsStripe(k, a) && n < k
    ensures
      var c, h := Half(k, a, b), Pow2(k - 1);
      QRow(k, r, a, n) == Xor(QRow(k - 1, r - b, c, n), Named(k - 1, r - b, k - 1, RowXors(c, n, h), h))
  {
    hide Names, Named, Slice, Half, RowXors, XorColumns, Xor, RowXor;
    var c, h := Half(k, a, b), Pow2(k - 1);
    if n == 0 {
      NoRowXors(c, h);
      NamedOfNothing(k - 1, r - b, k - 1, RowXors(c, 0, h), h);
      XorZero(0);
    } else {
      var x := RowXors(c, n - 1, h);
      QPrefix(k, r, a, b, n - 1);
      NamedSplit(k, r, n - 1, a[n - 1], b);
      RowXorsNext(c, n, h);
      NamedOfXor(k - 1, r - b, k - 1, x, c[n - 1], h);
      XorSwap(QRow(k - 1, r - b, c, n - 1), Named(k - 1, r - b, k - 1, x, h),
              Named(k - 1, r - b, n - 1, c[n - 1], h), Named(k - 1, r - b, k - 1, c[n - 1], h));
    }
  }

  /** The blocks that the rows of the half starting at s read from the rest of the strip. */
  function Extra(k: nat, a: seq<Column>, s: nat): (e: Column)
    requires IsHalfStart(k, s) && IsStripe(k, a)
    ensures |e| == Pow2(k - 1)
  {
    if s == 0 then Slice(k, a[k - 1], Pow2(k - 1)) else Slice(k, a[k], 0)
  }

  lemma QExtra(k: nat, r: nat, a: seq<Column>, s: nat)
    requires IsHalfStart(k, s) && r < Pow2(k - 1) && IsStripe(k, a)
    ensures
      Xor(Named(k, s + r, k - 1, a[k - 1], |a[k - 1]|), Named(k, s + r, k, a[k], |a[k]|)) == Extra(k, a, s)[r]
  {
    NamedSingle(k, s + r, k - 1, a[k - 1], |a[k - 1]|);
    NamedSingle(k, s + r, k, a[k], |a[k]|);
    XorZero(Extra(k, a, s)[r]);
  }

  /** The recursion behind the matrix: a top row is the same row of the level below on
      the top half, plus one bottom block of the last data disk; a bottom row is that row
      on the bottom half, plus one top block of P. */
  lemma QSplit(k: nat, r: nat, a: seq<Column>, s: nat)
    requires IsHalfStart(k, s) && r < Pow2(k - 1) && IsStripe(k, a) && ParityOk(k, a)
    ensures QValue(k, s + r, a) == Xor(QValue(k - 1, r, Half(k, a, s)), Extra(k, a, s)[r])
  {
    hide Names, Named, Xor, Slice;
    var c, h, q := Half(k, a, s), Pow2(k - 1), s + r;
    HalfParity(k, a, s);
    QPrefix(k, q, a, s, k - 1);
    assert RowXors(c, k - 1, h) == c[k - 1];
    QExtra(k, r, a, s);
    assert QValue(k - 1, r, c) == Xor(QRow(k - 1, r, c, k - 1), Named(k - 1, r, k - 1, c[k - 1], h));
    assert QValue(k, q, a) == Xor(QRow(k, q, a, k), Named(k, q, k, a[k], |a[k]|));
    XorAssoc(QRow(k, q, a, k - 1), Named(k, q, k - 1, a[k - 1], |a[k - 1]|), Named(k, q, k, a[k], |a[k]|));
  }

  // ---- Any two columns can be lost ----

  ghost predicate SameQ(k: nat, a: seq<Column>, b: seq<Column>)
    requires |a| == |b| == k + 1
  {
    forall r :: 0 <= r < Pow2(k) ==> QValue(k, r, a) == QValue(k, r, b)
  }

  /** Two strips that satisfy the P equation and agree on every data column but i and l. */
  ghost predicate Alike(k: nat, a: seq<Column>, b: seq<Column>, i: nat, l: nat) {
    IsStripe(k, a) && IsStripe(k, b) && ParityOk(k, a) && ParityOk(k, b) &&
    forall j :: 0 <= j < k && j != i && j != l ==> a[j] == b[j]
  }

  /** If at most column i differs, then it agrees in exactly the rows where P does. */
  lemma {:induction false} RowXorAgree(k: nat, a: seq<Column>, b: seq<Column>, i: nat, n: nat, t: nat)
    requires Alike(k, a, b, i, i) && n <= k && t < Pow2(k)
    ensures i < n && RowXor(a, n, t) == RowXor(b, n, t) ==> a[i][t] == b[i][t]
    ensures i >= n || a[i][t] == b[i][t] ==> RowXor(a, n, t) == RowXor(b, n, t)
  {
    hide Xor, ParityOk;
    if n > 0 {
      RowXorAgree(k, a, b, i, n - 1, t);
      XorCancel(a[n - 1][t], RowXor(a, n - 1, t));
      XorCancel(b[n - 1][t], RowXor(b, n - 1, t));
      XorCancel(RowXor(a, n - 1, t), a[n - 1][t]);
      XorCancel(RowXor(b, n - 1, t), b[n - 1][t]);
    }
  }

  lemma SamePIffSameColumn(k: nat, a: seq<Column>, b: seq<Column>, i: nat, s: nat)
    requires IsHalfStart(k, s) && Alike(k, a, b, i, i) && i < k
    ensures Slice(k, a[i], s) == Slice(k, b[i], s) <==> Slice(k, a[k], s) == Slice(k, b[k], s)
  {
    hide RowXor;
    forall t | 0 <= t < Pow2(k - 1)
      ensures Slice(k, a[i], s)[t] == Slice(k, b[i], s)[t] <==> Slice(k, a[k], s)[t] == Slice(k, b[k], s)[t]
    {
      RowXorAgree(k, a, b, i, k, s + t);
    }
  }

  lemma SameSlices(k: nat, x: Column, y: Column)
    requires k > 0 && |x| == |y| == Pow2(k)
    requires Slice(k, x, 0) == Slice(k, y, 0) && Slice(k, x, Pow2(k - 1)) == Slice(k, y, Pow2(k - 1))
    ensures x == y
  {
    var h := Pow2(k - 1);
    assert x == Slice(k, x, 0) + Slice(k, x, h);
    assert y == Slice(k, y, 0) + Slice(k, y, h);
  }

  lemma HalfAlike(k: nat, a: seq<Column>, b: seq<Column>, s: nat, i: nat, l: nat)
    requires IsHalfStart(k, s) && Alike(k, a, b, i, l)
    ensures Alike(k - 1, Half(k, a, s), Half(k, b, s), i, l)
  {
    HalfParity(k, a, s);
    HalfParity(k, b, s);
  }

  /** With equal Q rows, the Q rows of a half agree where the extra blocks do, and back. */
  lemma HalfSameQ(k: nat, a: seq<Column>, b: seq<Column>, s: nat)
    requires IsHalfStart(k, s) && IsStripe(k, a) && IsStripe(k, b) && SameQ(k, a, b)
    requires ParityOk(k, a) && ParityOk(k, b)
    ensures Extra(k, a, s) == Extra(k, b, s) <==> SameQ(k - 1, Half(k, a, s), Half(k, b, s))
  {
    hide Names, QRow;
    var c, d, e, f := Half(k, a, s), Half(k, b, s), Extra(k, a, s), Extra(k, b, s);
    var h, m := |e|, k - 1;
    forall r | 0 <= r < h ensures e[r] == f[r] <==> QValue(m, r, c) == QValue(m, r, d) {
      QSplit(k, r, a, s);
      QSplit(k, r, b, s);
      var q := s + r;
      assert QValue(k, q, a) == QValue(k, q, b);
      XorCancel(QValue(k - 1, r, c), e[r]);
      XorCancel(QValue(k - 1, r, d), f[r]);
      XorCancel(e[r], QValue(k - 1, r, c));
      XorCancel(f[r], QValue(k - 1, r, d));
    }
    if e == f {
      forall r | 0 <= r < h ensures QValue(m, r, c) == QValue(m, r, d) { assert e[r] == f[r]; }
    }
    if SameQ(k - 1, c, d) {
      forall r | 0 <= r < h ensures e[r] == f[r] { assert QValue(m, r, c) == QValue(m, r, d); }
    }
  }

  /** Halves whose data columns agree are equal, P included. */
  lemma SameHalf(k: nat, a: seq<Column>, b: seq<Column>)
    requires Alike(k, a, b, k, k)
    ensures a == b
  {
    var p, q := a[k], b[k];
    forall t | 0 <= t < |p| ensures p[t] == q[t] { RowXorAgree(k, a, b, k, k, t); }
    assert p == q;
  }

  lemma LastFromHalf(k: nat, a: seq<Column>, b: seq<Column>, s: nat)
    requires IsHalfStart(k, s) && IsStripe(k, a) && IsStripe(k, b)
    requires Half(k, a, s) == Half(k, b, s) && Slice(k, a[k], s) == Slice(k, b[k], s)
    ensures Slice(k, a[k - 1], s) == Slice(k, b[k - 1], s)
  {
    var p, x, y := Slice(k, a[k], s), Slice(k, a[k - 1], s), Slice(k, b[k - 1], s);
    assert XorColumns(p, x) == XorColumns(p, y);
    forall t | 0 <= t < |x| ensures x[t] == y[t] {
      assert XorColumns(p, x)[t] == XorColumns(p, y)[t];
      XorCancel(x[t], p[t]);
      XorCancel(y[t], p[t]);
    }
  }

  /** The half starting at s of lost column i, when P is lost too and the blocks that the
      half reads from outside are known. */
  lemma HalfOfLost(k: nat, a: seq<Column>, b: seq<Column>, i: nat, l: nat, s: nat)
    requires IsHalfStart(k, s) && Alike(k, a, b, i, l) && i + 1 < k && (l == i || l == k - 1)
    requires SameQ(k, a, b) && Extra(k, a, s) == Extra(k, b, s)
    ensures Half(k, a, s) == Half(k, b, s) && Slice(k, a[i], s) == Slice(k, b[i], s)
    decreases k, 0
  {
    HalfSameQ(k, a, b, s);
    HalfAlike(k, a, b, s, i, l);
    LostDataAndP(k - 1, Half(k, a, s), Half(k, b, s), i);
    SameHalf(k - 1, Half(k, a, s), Half(k, b, s));
  }

  /** Lost: one data column and P. */
  lemma {:induction false} LostDataAndP(k: nat, a: seq<Column>, b: seq<Column>, i: nat)
    requires Alike(k, a, b, i, i) && i < k && SameQ(k, a, b)
    ensures a[i] == b[i]
    decreases k, 1
  {
    var h := Pow2(k - 1);
    if i + 1 < k {
      HalfOfLost(k, a, b, i, i, 0);
      SamePIffSameColumn(k, a, b, i, 0);
      HalfOfLost(k, a, b, i, i, h);
    } else {
      HalfAlike(k, a, b, 0, i, i);
      HalfAlike(k, a, b, h, i, i);
      SameHalf(k - 1, Half(k, a, 0), Half(k, b, 0));
      SameHalf(k - 1, Half(k, a, h), Half(k, b, h));
      HalfSameQ(k, a, b, 0);
      HalfSameQ(k, a, b, h);
      SamePIffSameColumn(k, a, b, i, 0);
    }
    SameSlices(k, a[i], b[i]);
  }

  /** Lost: two data columns. */
  lemma {:induction false} LostTwoData(k: nat, a: seq<Column>, b: seq<Column>, i: nat, l: nat)
    requires Alike(k, a, b, i, l) && i < l < k && a[k] == b[k] && SameQ(k, a, b)
    ensures a[i] == b[i] && a[l] == b[l]
  {
    hide Xor, RowXor;
    var h := Pow2(k - 1);
    if l + 1 < k {
      forall s | s == 0 || s == h
        ensures Slice(k, a[i], s) == Slice(k, b[i], s) && Slice(k, a[l], s) == Slice(k, b[l], s)
      {
        HalfSameQ(k, a, b, s);
        HalfAlike(k, a, b, s, i, l);
        LostTwoData(k - 1, Half(k, a, s), Half(k, b, s), i, l);
      }
    } else {
      HalfOfLost(k, a, b, i, l, h);
      LastFromHalf(k, a, b, h);
      HalfOfLost(k, a, b, i, l, 0);
      LastFromHalf(k, a, b, 0);
    }
    SameSlices(k, a[i], b[i]);
    SameSlices(k, a[l], b[l]);
  }

  ghost predicate IsFullStripe(k: nat, c: seq<Column>) {
    |c| == k + 2 && forall j :: 0 <= j < k + 2 ==> |c[j]| == Pow2(k)
  }

  /** A strip as stored: data columns, P and Q, satisfying both parity equations. */
  ghost predicate IsCodeword(k: nat, c: seq<Column>) {
    IsFullStripe(k, c) && ParityOk(k, c[..k + 1]) &&
    var q := c[k + 1];
    forall r :: 0 <= r < |q| ==> q[r] == QValue(k, r, c[..k + 1])
  }

  /** RAID-6: for every number of data disks, any k of the k+2 columns determine the strip. */
  lemma AnyTwoColumnsLost(k: nat, c: seq<Column>, d: seq<Column>, x: nat, y: nat)
    requires IsCodeword(k, c) && IsCodeword(k, d) && x < y < k + 2
    requires forall j :: 0 <= j < k + 2 && j != x && j != y ==> c[j] == d[j]
    ensures c == d
  {
    var a, b := c[..k + 1], d[..k + 1];
    var p, q := c[k + 1], d[k + 1];
    if y == k + 1 {
      if x < k {
        forall t | 0 <= t < |a[x]| ensures a[x][t] == b[x][t] { RowXorAgree(k, a, b, x, k, t); }
        assert a[x] == b[x];
      }
      SameHalf(k, a, b);
    } else {
      assert SameQ(k, a, b) by {
        forall r | 0 <= r < |p| ensures QValue(k, r, a) == QValue(k, r, b) { assert p[r] == q[r]; }
      }
      if y == k { LostDataAndP(k, a, b, x); SameHalf(k, a, b); } else { LostTwoData(k, a, b, x, y); }
      assert a == b;
    }
    forall r | 0 <= r < |p| ensures p[r] == q[r] { assert p[r] == QValue(k, r, a); }
    assert p == q;
    assert c == a + [p] && d == b + [q];
  }
}
