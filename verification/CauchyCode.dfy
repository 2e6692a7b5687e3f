/** Why Cauchy matrices make codes: every square submatrix is nonsingular, and scaling rows and
    columns does not change that. */
module CauchyCode {
  import opened Bits
  import opened GaloisField
  import opened GaloisTables

  // ---- Inverses ----

  /** A field in which every nonzero word has an inverse. */
  ghost predicate IsGalois(f: Field) {
    IsField(f) && IsPrimitive(f)
  }

  ghost function Inv(f: Field, y: nat): (z: nat)
    requires IsGalois(f) && IsWord(f, y) && y != 0
    ensures IsWord(f, z) && z != 0 && Mul(f, y, z) == 1
  {
    InverseExists(f, y);
    var z: nat :| IsWord(f, z) && z != 0 && Mul(f, y, z) == 1;
    z
  }

  lemma InverseExists(f: Field, y: nat)
    requires IsGalois(f) && IsWord(f, y) && y != 0
    ensures exists z: nat :: IsWord(f, z) && z != 0 && Mul(f, y, z) == 1
  {
    var z := GaloisTables.Inverse(f, y);
  }

  lemma NoZeroDivisors(f: Field, a: nat, b: nat)
    requires IsGalois(f) && IsWord(f, a) && IsWord(f, b) && Mul(f, a, b) == 0
    ensures a == 0 || b == 0
  {
    hide Mul, IsPrimitive;
    if b != 0 {
      MulUnfold(f, 0, b);
      MulCancel(f, a, 0, b);
    }
  }

  lemma MulWords(f: Field, a: nat, b: nat)
    requires f.w >= 1 && IsWord(f, a) && IsWord(f, b)
    ensures IsWord(f, Mul(f, a, b)) && IsWord(f, Xor(a, b)) && Mul(f, a, b) == Mul(f, b, a)
  {
    MulComm(f, a, b);
    XorWord(f, a, b);
  }

  predicate AreWords(f: Field, v: seq<nat>) {
    forall j :: 0 <= j < |v| ==> IsWord(f, v[j])
  }

  /** Product of a row and a column. */
  function Product(f: Field, row: seq<nat>, v: seq<nat>, n: nat): nat
    requires f.w >= 1 && n <= |row| && n <= |v|
  {
    if n == 0 then 0 else Xor(Product(f, row, v, n - 1), Mul(f, row[n - 1], v[n - 1]))
  }

  lemma {:induction false} ProductIsWord(f: Field, row: seq<nat>, v: seq<nat>, n: nat)
    requires f.w >= 1 && n <= |row| && n <= |v| && AreWords(f, row) && AreWords(f, v)
    ensures IsWord(f, Product(f, row, v, n))
  {
    hide Xor, Mul;
    if n == 0 {
      MulOne(f, 0);
    } else {
      ProductIsWord(f, row, v, n - 1);
      MulWords(f, row[n - 1], v[n - 1]);
      XorWord(f, Product(f, row, v, n - 1), Mul(f, row[n - 1], v[n - 1]));
    }
  }

  /** The columns are dependent: some combination of them, not all of it zero, is zero. */
  ghost predicate IsSingular(f: Field, rows: seq<seq<nat>>, n: nat)
    requires f.w >= 1 && forall i :: 0 <= i < |rows| ==> |rows[i]| == n
  {
    exists v: seq<nat> :: IsKernelVector(f, rows, n, v)
  }

  ghost predicate IsKernelVector(f: Field, rows: seq<seq<nat>>, n: nat, v: seq<nat>)
    requires f.w >= 1 && forall i :: 0 <= i < |rows| ==> |rows[i]| == n
  {
    |v| == n && AreWords(f, v) && (exists j :: 0 <= j < n && v[j] != 0) &&
    forall i :: 0 <= i < |rows| ==> Product(f, rows[i], v, n) == 0
  }

  // ---- Scaling ----

  /** b is a with row i times r[i] and column j times c[j]. */
  ghost predicate IsScaled(f: Field, a: seq<seq<nat>>, b: seq<seq<nat>>, n: nat, r: seq<nat>, c: seq<nat>) {
    f.w >= 1 && |a| == |b| == |r| && |c| == n && AreWords(f, r) && AreWords(f, c) &&
    (forall i :: 0 <= i < |r| ==> r[i] != 0 && |a[i]| == |b[i]| == n && AreWords(f, a[i])) &&
    (forall j :: 0 <= j < n ==> c[j] != 0) &&
    forall i, j :: 0 <= i < |r| && 0 <= j < n ==> b[i][j] == Mul(f, Mul(f, a[i][j], c[j]), r[i])
  }

  lemma {:induction false} ProductScaled(
      f: Field, a: seq<nat>, b: seq<nat>, v: seq<nat>, w: seq<nat>, c: seq<nat>, r: nat, n: nat)
    requires f.w >= 1 && n <= |a| && n <= |b| && n <= |v| && n <= |w| && n <= |c|
    requires AreWords(f, a) && AreWords(f, v) && AreWords(f, c) && AreWords(f, w) && IsWord(f, r)
    requires forall j :: 0 <= j < n ==> b[j] == Mul(f, Mul(f, a[j], c[j]), r) && Mul(f, c[j], v[j]) == w[j]
    ensures Product(f, b, v, n) == Mul(f, Product(f, a, w, n), r)
  {
    hide Xor, Mul;
    if n == 0 {
      MulUnfold(f, 0, r);
    } else {
      ProductScaled(f, a, b, v, w, c, r, n - 1);
      var j := n - 1;
      ScaledTerm(f, a[j], c[j], r, v[j]);
      MulWords(f, a[j], w[j]);
      MulLeft(f, Product(f, a, w, n - 1), Mul(f, a[j], w[j]), r);
    }
  }

  lemma ScaledTerm(f: Field, a: nat, c: nat, r: nat, v: nat)
    requires f.w >= 1 && IsWord(f, a) && IsWord(f, c) && IsWord(f, r) && IsWord(f, v)
    ensures Mul(f, Mul(f, Mul(f, a, c), r), v) == Mul(f, Mul(f, a, Mul(f, c, v)), r)
  {
    hide Mul;
    MulWords(f, a, c);
    MulWords(f, r, v);
    MulWords(f, c, v);
    MulAssoc(f, Mul(f, a, c), r, v);
    MulAssoc(f, Mul(f, a, c), v, r);
    MulAssoc(f, a, c, v);
  }

  function Divided(f: Field, w: seq<nat>, c: seq<nat>): (v: seq<nat>)
    requires f.w >= 1 && |w| == |c|
    ensures |v| == |w| && forall j :: 0 <= j < |v| ==> v[j] == Mul(f, c[j], w[j])
  {
    seq(|w|, j requires 0 <= j < |w| => Mul(f, c[j], w[j]))
  }

  ghost function Inverses(f: Field, c: seq<nat>): (d: seq<nat>)
    requires IsGalois(f) && AreWords(f, c) && forall j :: 0 <= j < |c| ==> c[j] != 0
    ensures |d| == |c| && AreWords(f, d)
    ensures forall j :: 0 <= j < |d| ==> d[j] != 0 && Mul(f, c[j], d[j]) == 1
  {
    seq(|c|, j requires 0 <= j < |c| => Inv(f, c[j]))
  }

  /** Scaling keeps dependent columns dependent. */
  lemma ScalingKeepsSingular(f: Field, a: seq<seq<nat>>, b: seq<seq<nat>>, n: nat, r: seq<nat>, c: seq<nat>)
    requires IsGalois(f) && IsScaled(f, a, b, n, r, c) && IsSingular(f, a, n)
    ensures IsSingular(f, b, n)
  {
    hide Mul, Product, IsPrimitive;
    var w: seq<nat> :| IsKernelVector(f, a, n, w);
    var d := Inverses(f, c);
    var v := Divided(f, w, d);
    forall j | 0 <= j < n ensures IsWord(f, v[j]) && Mul(f, c[j], v[j]) == w[j] && (w[j] != 0 ==> v[j] != 0) {
      MulWords(f, d[j], w[j]);
      MulAssoc(f, c[j], d[j], w[j]);
      MulOne(f, w[j]);
      MulOfZero(f, c[j]);
    }
    forall i | 0 <= i < |b| ensures Product(f, b[i], v, n) == 0 {
      ProductScaled(f, a[i], b[i], v, w, c, r[i], n);
      MulUnfold(f, 0, r[i]);
    }
    var j :| 0 <= j < n && w[j] != 0;
    assert v[j] != 0;
    assert IsKernelVector(f, b, n, v);
  }

  /** Scaling can be undone. */
  lemma ScalingUndone(f: Field, a: seq<seq<nat>>, b: seq<seq<nat>>, n: nat, r: seq<nat>, c: seq<nat>)
    requires IsGalois(f) && IsScaled(f, a, b, n, r, c)
    ensures IsScaled(f, b, a, n, Inverses(f, r), Inverses(f, c))
  {
    hide Mul, IsPrimitive;
    var s, d := Inverses(f, r), Inverses(f, c);
    forall i, j | 0 <= i < |r| && 0 <= j < n
      ensures a[i][j] == Mul(f, Mul(f, b[i][j], d[j]), s[i])
    {
      assert IsWord(f, a[i][j]);
      UndoneEntry(f, a[i][j], c[j], d[j], r[i], s[i]);
    }
    forall i | 0 <= i < |r| ensures AreWords(f, b[i]) {
      var row := b[i];
      forall j | 0 <= j < n ensures IsWord(f, row[j]) {
        assert IsWord(f, a[i][j]);
        UndoneEntry(f, a[i][j], c[j], d[j], r[i], s[i]);
      }
    }
  }

  lemma UndoneEntry(f: Field, a: nat, c: nat, d: nat, r: nat, s: nat)
    requires f.w >= 1 && IsWord(f, a) && IsWord(f, c) && IsWord(f, d) && IsWord(f, r) && IsWord(f, s)
    requires Mul(f, c, d) == 1 && Mul(f, r, s) == 1
    ensures var b := Mul(f, Mul(f, a, c), r); IsWord(f, b) && Mul(f, Mul(f, b, d), s) == a
  {
    hide Mul;
    var x := Mul(f, a, c);
    MulWords(f, a, c);
    MulWords(f, x, r);
    MulWords(f, r, d);
    MulWords(f, x, d);
    MulAssoc(f, x, r, d);
    MulAssoc(f, x, d, r);
    MulAssoc(f, a, c, d);
    MulOne(f, a);
    MulAssoc(f, a, r, s);
  }

  /** Scaling changes no submatrix from singular to nonsingular or back. */
  lemma ScalingKeepsSingularity(f: Field, a: seq<seq<nat>>, b: seq<seq<nat>>, n: nat, r: seq<nat>, c: seq<nat>)
    requires IsGalois(f) && IsScaled(f, a, b, n, r, c)
    ensures IsSingular(f, a, n) <==> IsSingular(f, b, n)
  {
    hide IsSingular, IsPrimitive;
    if IsSingular(f, a, n) { ScalingKeepsSingular(f, a, b, n, r, c); }
    if IsSingular(f, b, n) {
      ScalingUndone(f, a, b, n, r, c);
      ScalingKeepsSingular(f, b, a, n, Inverses(f, r), Inverses(f, c));
    }
  }

  // ---- Cauchy matrices ----

  ghost predicate AreDistinct(f: Field, xs: seq<nat>) {
    AreWords(f, xs) && forall i, j :: 0 <= i < j < |xs| ==> xs[i] != xs[j]
  }

  /** x is none of the ys, so that all sums with them can be inverted. */
  ghost predicate IsApart(f: Field, x: nat, ys: seq<nat>) {
    IsWord(f, x) && AreWords(f, ys) && forall j :: 0 <= j < |ys| ==> x != ys[j]
  }

  lemma SumNotZero(f: Field, x: nat, y: nat)
    requires IsWord(f, x) && IsWord(f, y) && x != y
    ensures IsWord(f, Xor(x, y)) && Xor(x, y) != 0
  {
    XorWord(f, x, y);
    if Xor(x, y) == 0 { EqualIfXorZero(x, y); }
  }

  /** 1 / (x + y). */
  ghost function Entry(f: Field, x: nat, y: nat): (z: nat)
    requires IsGalois(f) && IsWord(f, x) && IsWord(f, y) && x != y
    ensures IsWord(f, z) && z != 0
  {
    SumNotZero(f, x, y);
    Inv(f, Xor(x, y))
  }

  ghost function CauchyRow(f: Field, x: nat, ys: seq<nat>): (row: seq<nat>)
    requires IsGalois(f) && IsApart(f, x, ys)
    ensures |row| == |ys| && AreWords(f, row) && forall j :: 0 <= j < |ys| ==> row[j] == Entry(f, x, ys[j])
  {
    seq(|ys|, j requires 0 <= j < |ys| => Entry(f, x, ys[j]))
  }

  /** (x + z) / (x + y) == 1 + (y + z) / (x + y). */
  lemma SplitFraction(f: Field, x: nat, y: nat, z: nat)
    requires IsGalois(f) && IsWord(f, x) && IsWord(f, y) && IsWord(f, z) && x != y
    ensures Mul(f, Xor(x, z), Entry(f, x, y)) == Xor(1, Mul(f, Xor(y, z), Entry(f, x, y)))
  {
    hide Xor, Mul, IsPrimitive;
    SumNotZero(f, x, y);
    var e := Entry(f, x, y);
    assert Mul(f, Xor(x, y), e) == 1;
    MulLeft(f, Xor(x, y), Xor(y, z), e);
    XorAssoc(x, y, Xor(y, z));
    XorCancel(z, y);
  }

  /** 1 / (x + y) + 1 / (z + y) == (x + z) / ((x + y) (z + y)). */
  lemma SumOfFractions(f: Field, x: nat, z: nat, y: nat)
    requires IsGalois(f) && IsWord(f, x) && IsWord(f, y) && IsWord(f, z) && x != y && z != y
    ensures Xor(Entry(f, x, y), Entry(f, z, y)) == Mul(f, Xor(x, z), Mul(f, Entry(f, x, y), Entry(f, z, y)))
  {
    hide Xor, Mul, IsPrimitive;
    var a, b := Entry(f, x, y), Entry(f, z, y);
    XorWord(f, x, z);
    XorWord(f, y, z);
    SplitFraction(f, x, y, z);
    SumNotZero(f, z, y);
    XorComm(y, z);
    MulAssoc(f, Xor(x, z), a, b);
    MulLeft(f, 1, Mul(f, Xor(y, z), a), b);
    MulOne(f, b);
    MulWords(f, Xor(y, z), a);
    MulAssoc(f, a, Xor(y, z), b);
    MulOne(f, a);
    XorComm(a, b);
    assert Mul(f, Xor(z, y), b) == 1;
  }

  /** The sum of all entries of v. */
  function Total(v: seq<nat>, n: nat): nat
    requires n <= |v|
  {
    if n == 0 then 0 else Xor(Total(v, n - 1), v[n - 1])
  }

  /** v[j] times (ys[j] + y). */
  function Lifted(f: Field, v: seq<nat>, ys: seq<nat>, y: nat): (u: seq<nat>)
    requires f.w >= 1 && |v| == |ys|
    ensures |u| == |v| && forall j :: 0 <= j < |u| ==> u[j] == Mul(f, Xor(ys[j], y), v[j])
  {
    seq(|v|, j requires 0 <= j < |v| => Mul(f, Xor(ys[j], y), v[j]))
  }

  /** Times (x + y), a row of the system is the total of v plus the row applied to the lifted
      vector. */
  lemma {:induction false} LiftRow(f: Field, x: nat, ys: seq<nat>, y: nat, v: seq<nat>, n: nat)
    requires IsGalois(f) && IsApart(f, x, ys) && IsWord(f, y) && |v| == |ys| && AreWords(f, v) && n <= |ys|
    ensures Mul(f, Xor(x, y), Product(f, CauchyRow(f, x, ys), v, n)) ==
      Xor(Total(v, n), Product(f, CauchyRow(f, x, ys), Lifted(f, v, ys, y), n))
  {
    hide Xor, Mul, IsPrimitive;
    var row, u := CauchyRow(f, x, ys), Lifted(f, v, ys, y);
    XorWord(f, x, y);
    if n == 0 {
      MulOfZero(f, Xor(x, y));
      XorZero(0);
    } else {
      var j := n - 1;
      LiftRow(f, x, ys, y, v, j);
      LiftTerm(f, x, ys[j], y, v[j]);
      ProductIsWord(f, row, v, j);
      MulWords(f, row[j], v[j]);
      MulRight(f, Xor(x, y), Product(f, row, v, j), Mul(f, row[j], v[j]));
      XorSwap(Total(v, j), Product(f, row, u, j), v[j], Mul(f, row[j], u[j]));
    }
  }

  lemma LiftTerm(f: Field, x: nat, yj: nat, y: nat, v: nat)
    requires IsGalois(f) && IsWord(f, x) && IsWord(f, yj) && IsWord(f, y) && IsWord(f, v) && x != yj
    ensures Mul(f, Xor(x, y), Mul(f, Entry(f, x, yj), v)) == Xor(v, Mul(f, Entry(f, x, yj), Mul(f, Xor(yj, y), v)))
  {
    hide Xor, Mul, IsPrimitive;
    var e := Entry(f, x, yj);
    XorWord(f, x, y);
    XorWord(f, yj, y);
    SplitFraction(f, x, yj, y);
    MulAssoc(f, Xor(x, y), e, v);
    MulLeft(f, 1, Mul(f, Xor(yj, y), e), v);
    MulOne(f, v);
    MulWords(f, Xor(yj, y), e);
    MulAssoc(f, e, Xor(yj, y), v);
  }

  /** u[j] / (z + ys[j]). */
  ghost function Reduced(f: Field, u: seq<nat>, ys: seq<nat>, z: nat): (w: seq<nat>)
    requires IsGalois(f) && |u| == |ys| && IsApart(f, z, ys)
    ensures |w| == |u| && forall j :: 0 <= j < |w| ==> w[j] == Mul(f, Entry(f, z, ys[j]), u[j])
  {
    seq(|u|, j requires 0 <= j < |u| => Mul(f, Entry(f, z, ys[j]), u[j]))
  }

  /** The difference of two rows of the system is (x + z) times a row of a smaller system. */
  lemma {:induction false} RowDifference(f: Field, x: nat, z: nat, ys: seq<nat>, u: seq<nat>, n: nat)
    requires IsGalois(f) && IsApart(f, x, ys) && IsApart(f, z, ys) && |u| == |ys| && AreWords(f, u) && n <= |ys|
    ensures Xor(Product(f, CauchyRow(f, x, ys), u, n), Product(f, CauchyRow(f, z, ys), u, n)) ==
      Mul(f, Xor(x, z), Product(f, CauchyRow(f, x, ys), Reduced(f, u, ys, z), n))
  {
    hide Xor, Mul, IsPrimitive;
    var a, b, w := CauchyRow(f, x, ys), CauchyRow(f, z, ys), Reduced(f, u, ys, z);
    XorWord(f, x, z);
    if n == 0 {
      MulOfZero(f, Xor(x, z));
      XorZero(0);
    } else {
      var j := n - 1;
      RowDifference(f, x, z, ys, u, j);
      XorSwap(Product(f, a, u, j), Mul(f, a[j], u[j]), Product(f, b, u, j), Mul(f, b[j], u[j]));
      DifferenceTerm(f, x, z, ys[j], u[j]);
      forall i | 0 <= i < |w| ensures IsWord(f, w[i]) { MulWords(f, b[i], u[i]); }
      ProductIsWord(f, a, w, j);
      MulWords(f, a[j], w[j]);
      MulRight(f, Xor(x, z), Product(f, a, w, j), Mul(f, a[j], w[j]));
    }
  }

  lemma DifferenceTerm(f: Field, x: nat, z: nat, y: nat, u: nat)
    requires IsGalois(f) && IsWord(f, x) && IsWord(f, y) && IsWord(f, z) && IsWord(f, u) && x != y && z != y
    ensures Xor(Mul(f, Entry(f, x, y), u), Mul(f, Entry(f, z, y), u)) ==
      Mul(f, Xor(x, z), Mul(f, Entry(f, x, y), Mul(f, Entry(f, z, y), u)))
  {
    hide Xor, Mul, IsPrimitive;
    var a, b := Entry(f, x, y), Entry(f, z, y);
    XorWord(f, x, z);
    SumOfFractions(f, x, z, y);
    MulLeft(f, a, b, u);
    MulWords(f, a, b);
    MulAssoc(f, Xor(x, z), Mul(f, a, b), u);
    MulAssoc(f, a, b, u);
  }

  /** A vector that every row of a square Cauchy matrix sends to zero is zero. */
  lemma {:induction false} CauchyKernel(f: Field, xs: seq<nat>, ys: seq<nat>, v: seq<nat>)
    requires IsGalois(f) && |xs| == |ys| == |v| && AreWords(f, v) && AreDistinct(f, xs) && AreDistinct(f, ys)
    requires forall i :: 0 <= i < |xs| ==> IsApart(f, xs[i], ys)
    requires forall i :: 0 <= i < |xs| ==> Product(f, CauchyRow(f, xs[i], ys), v, |v|) == 0
    ensures forall j :: 0 <= j < |v| ==> v[j] == 0
    decreases |xs|
  {
    hide Xor, Mul, IsPrimitive, Product;
    if |xs| > 0 {
      var n := |xs| - 1;
      var z, y := xs[n], ys[n];
      var u := Lifted(f, v, ys, y);
      var w := Reduced(f, u[..n], ys[..n], z);
      LiftedWords(f, v, ys, y);
      forall i | 0 <= i < n ensures Product(f, CauchyRow(f, xs[i], ys[..n]), w, n) == 0 {
        SmallerRow(f, xs[i], z, ys, v, n);
      }
      ReducedWords(f, u[..n], ys[..n], z);
      CauchyKernel(f, xs[..n], ys[..n], w);
      forall j | 0 <= j < n ensures v[j] == 0 {
        assert w[j] == 0;
        NoZeroDivisors(f, Entry(f, z, ys[j]), u[j]);
        SumNotZero(f, ys[j], y);
        NoZeroDivisors(f, Xor(ys[j], y), v[j]);
      }
      LastEntry(f, z, ys, v, n);
    }
  }

  lemma LiftedWords(f: Field, v: seq<nat>, ys: seq<nat>, y: nat)
    requires f.w >= 1 && |v| == |ys| && AreWords(f, v) && AreWords(f, ys) && IsWord(f, y)
    ensures AreWords(f, Lifted(f, v, ys, y))
  {
    hide Mul, Xor;
    forall j | 0 <= j < |v| ensures IsWord(f, Lifted(f, v, ys, y)[j]) {
      XorWord(f, ys[j], y);
      MulWords(f, Xor(ys[j], y), v[j]);
    }
  }

  lemma ReducedWords(f: Field, u: seq<nat>, ys: seq<nat>, z: nat)
    requires IsGalois(f) && |u| == |ys| && IsApart(f, z, ys) && AreWords(f, u)
    ensures AreWords(f, Reduced(f, u, ys, z))
  {
    hide Mul, Xor, IsPrimitive;
    forall j | 0 <= j < |u| ensures IsWord(f, Reduced(f, u, ys, z)[j]) { MulWords(f, Entry(f, z, ys[j]), u[j]); }
  }

  lemma {:induction false} ProductPrefix(f: Field, a: seq<nat>, b: seq<nat>, v: seq<nat>, w: seq<nat>, n: nat)
    requires f.w >= 1 && n <= |a| && n <= |b| && n <= |v| && n <= |w|
    requires forall j :: 0 <= j < n ==> a[j] == b[j] && v[j] == w[j]
    ensures Product(f, a, v, n) == Product(f, b, w, n)
  {
    hide Mul, Xor;
    if n > 0 { ProductPrefix(f, a, b, v, w, n - 1); }
  }

  /** The row of x of the smaller system, from the rows of x and z of the larger one. */
  lemma SmallerRow(f: Field, x: nat, z: nat, ys: seq<nat>, v: seq<nat>, n: nat)
    requires IsGalois(f) && |v| == |ys| == n + 1 && AreWords(f, v) && IsApart(f, x, ys) && IsApart(f, z, ys) && x != z
    requires Product(f, CauchyRow(f, x, ys), v, n + 1) == 0 && Product(f, CauchyRow(f, z, ys), v, n + 1) == 0
    ensures IsApart(f, z, ys[..n]) && IsApart(f, x, ys[..n])
    ensures Product(f, CauchyRow(f, x, ys[..n]), Reduced(f, Lifted(f, v, ys, ys[n])[..n], ys[..n], z), n) == 0
  {
    hide Xor, Mul, IsPrimitive, Product;
    var y, u := ys[n], Lifted(f, v, ys, ys[n]);
    var w := Reduced(f, u[..n], ys[..n], z);
    LiftedWords(f, v, ys, y);
    var p, q := Product(f, CauchyRow(f, x, ys[..n]), u[..n], n), Product(f, CauchyRow(f, z, ys[..n]), u[..n], n);
    LiftedRowIsTotal(f, x, ys, v, n);
    LiftedRowIsTotal(f, z, ys, v, n);
    XorZero(p);
    RowDifference(f, x, z, ys[..n], u[..n], n);
    SumNotZero(f, x, z);
    ReducedWords(f, u[..n], ys[..n], z);
    ProductIsWord(f, CauchyRow(f, x, ys[..n]), w, n);
    NoZeroDivisors(f, Xor(x, z), Product(f, CauchyRow(f, x, ys[..n]), w, n));
  }

  /** If a row sends v to zero, it sends the lifted vector to the total of v. */
  lemma LiftedRowIsTotal(f: Field, x: nat, ys: seq<nat>, v: seq<nat>, n: nat)
    requires IsGalois(f) && |v| == |ys| == n + 1 && AreWords(f, v) && IsApart(f, x, ys)
    requires Product(f, CauchyRow(f, x, ys), v, n + 1) == 0
    ensures IsApart(f, x, ys[..n])
    ensures Product(f, CauchyRow(f, x, ys[..n]), Lifted(f, v, ys, ys[n])[..n], n) == Total(v, n + 1)
  {
    hide Xor, Mul, IsPrimitive;
    var y, u, row := ys[n], Lifted(f, v, ys, ys[n]), CauchyRow(f, x, ys);
    LiftRow(f, x, ys, y, v, n + 1);
    XorWord(f, x, y);
    MulOfZero(f, Xor(x, y));
    EqualIfXorZero(Total(v, n + 1), Product(f, row, u, n + 1));
    XorZero(y);
    MulUnfold(f, 0, v[n]);
    MulOfZero(f, row[n]);
    XorZero(Product(f, row, u, n));
    ProductPrefix(f, row, CauchyRow(f, x, ys[..n]), u, u[..n], n);
  }

  lemma {:induction false} ZeroProduct(f: Field, row: seq<nat>, v: seq<nat>, n: nat)
    requires f.w >= 1 && n <= |row| && n <= |v| && forall j :: 0 <= j < n ==> v[j] == 0
    ensures Product(f, row, v, n) == 0
  {
    hide Mul, Xor;
    if n > 0 {
      ZeroProduct(f, row, v, n - 1);
      MulOfZero(f, row[n - 1]);
      XorZero(0);
    }
  }

  lemma LastEntry(f: Field, z: nat, ys: seq<nat>, v: seq<nat>, n: nat)
    requires IsGalois(f) && |v| == |ys| == n + 1 && AreWords(f, v) && IsApart(f, z, ys)
    requires Product(f, CauchyRow(f, z, ys), v, n + 1) == 0 && forall j :: 0 <= j < n ==> v[j] == 0
    ensures v[n] == 0
  {
    hide Xor, Mul, IsPrimitive;
    ZeroProduct(f, CauchyRow(f, z, ys), v, n);
    XorZero(Mul(f, Entry(f, z, ys[n]), v[n]));
    NoZeroDivisors(f, Entry(f, z, ys[n]), v[n]);
  }

  ghost function CauchyRows(f: Field, xs: seq<nat>, ys: seq<nat>): (rows: seq<seq<nat>>)
    requires IsGalois(f) && forall i :: 0 <= i < |xs| ==> IsApart(f, xs[i], ys)
    ensures |rows| == |xs| && forall i :: 0 <= i < |xs| ==> rows[i] == CauchyRow(f, xs[i], ys)
  {
    seq(|xs|, i requires 0 <= i < |xs| => CauchyRow(f, xs[i], ys))
  }

  /** Square Cauchy matrices are nonsingular. */
  lemma CauchyIsNonsingular(f: Field, xs: seq<nat>, ys: seq<nat>)
    requires IsGalois(f) && |xs| == |ys| && AreDistinct(f, xs) && AreDistinct(f, ys)
    requires forall i :: 0 <= i < |xs| ==> IsApart(f, xs[i], ys)
    ensures !IsSingular(f, CauchyRows(f, xs, ys), |ys|)
  {
    hide Xor, Mul, IsPrimitive, Product;
    var rows := CauchyRows(f, xs, ys);
    if IsSingular(f, rows, |ys|) {
      var v: seq<nat> :| IsKernelVector(f, rows, |ys|, v);
      forall i | 0 <= i < |xs| ensures Product(f, CauchyRow(f, xs[i], ys), v, |v|) == 0 {
        assert Product(f, rows[i], v, |ys|) == 0;
      }
      CauchyKernel(f, xs, ys, v);
    }
  }
}
