/** What a matrix whose square submatrices are nonsingular is for: of the k words of a row and
    the words it is coded into, any k determine the others. */
module ErasureCode {
  import opened Bits
  import opened GaloisField
  import opened Cauchy
  import opened CauchyCode

  /** Word i of a coded row: the k data words first, then one word for each row of the matrix. */
  function Word(f: Field, rows: seq<seq<nat>>, k: nat, v: seq<nat>, i: nat): nat
    requires f.w >= 1 && |v| == k && i < k + |rows| && forall r :: 0 <= r < |rows| ==> |rows[r]| == k
  {
    if i < k then v[i] else CauchyCode.Product(f, rows[i - k], v, k)
  }

  function Sum(v: seq<nat>, w: seq<nat>): (u: seq<nat>)
    requires |v| == |w|
    ensures |u| == |v| && forall j :: 0 <= j < |u| ==> u[j] == Xor(v[j], w[j])
  {
    seq(|v|, j requires 0 <= j < |v| => Xor(v[j], w[j]))
  }

  lemma {:induction false} ProductOfSum(f: Field, row: seq<nat>, v: seq<nat>, w: seq<nat>, n: nat)
    requires f.w >= 1 && n <= |row| && n <= |v| == |w| && AreWords(f, v) && AreWords(f, w)
    ensures CauchyCode.Product(f, row, Sum(v, w), n) ==
      Xor(CauchyCode.Product(f, row, v, n), CauchyCode.Product(f, row, w, n))
  {
    hide Xor, Mul, Sum;
    if n == 0 {
      XorZero(0);
    } else {
      ProductOfSum(f, row, v, w, n - 1);
      MulRight(f, row[n - 1], v[n - 1], w[n - 1]);
      XorSwap(CauchyCode.Product(f, row, v, n - 1), CauchyCode.Product(f, row, w, n - 1), Mul(f, row[n - 1], v[n - 1]),
              Mul(f, row[n - 1], w[n - 1]));
    }
  }

  /** The data words below n that are not kept, in order. */
  function LostData(kept: set<nat>, n: nat): (cs: seq<nat>)
    ensures AreIndices(cs, n) && forall j :: 0 <= j < n && j !in kept ==> j in cs
    ensures forall i :: 0 <= i < |cs| ==> cs[i] !in kept
  {
    if n == 0 then [] else LostData(kept, n - 1) + if n - 1 in kept then [] else [n - 1]
  }

  /** The matrix rows below n whose words are kept, in order. */
  function KeptRows(kept: set<nat>, k: nat, n: nat): (rs: seq<nat>)
    ensures AreIndices(rs, n) && forall i :: 0 <= i < |rs| ==> k + rs[i] in kept
  {
    if n == 0 then [] else KeptRows(kept, k, n - 1) + if k + n - 1 in kept then [n - 1] else []
  }

  /** The entries of v at the listed positions. */
  function Pick(v: seq<nat>, cs: seq<nat>): (u: seq<nat>)
    requires forall i :: 0 <= i < |cs| ==> cs[i] < |v|
    ensures |u| == |cs| && forall i :: 0 <= i < |u| ==> u[i] == v[cs[i]]
  {
    seq(|cs|, i requires 0 <= i < |cs| => v[cs[i]])
  }

  /** Entries that are zero can be left out of a product. */
  lemma {:induction false} ProductOfLost(f: Field, row: seq<nat>, u: seq<nat>, kept: set<nat>, n: nat)
    requires f.w >= 1 && n <= |row| && n <= |u| && AreWords(f, u)
    requires forall j :: 0 <= j < n && j in kept ==> u[j] == 0
    ensures
      var cs := LostData(kept, n);
      CauchyCode.Product(f, row, u, n) == CauchyCode.Product(f, Pick(row, cs), Pick(u, cs), |cs|)
  {
    hide Xor, Mul, Pick, LostData, IsWord, CauchyCode.Product;
    if n == 0 {
      LostNext(kept, 0);
      ProductNone(f, row, u);
      ProductNone(f, Pick(row, []), Pick(u, []));
    } else {
      ProductOfLost(f, row, u, kept, n - 1);
      NextOfLost(f, row, u, kept, n - 1);
    }
  }

  lemma NextOfLost(f: Field, row: seq<nat>, u: seq<nat>, kept: set<nat>, n: nat)
    requires f.w >= 1 && n < |row| && n < |u| && (n in kept ==> u[n] == 0)
    requires
      var cs := LostData(kept, n);
      CauchyCode.Product(f, row, u, n) == CauchyCode.Product(f, Pick(row, cs), Pick(u, cs), |cs|)
    ensures
      var cs := LostData(kept, n + 1);
      CauchyCode.Product(f, row, u, n + 1) == CauchyCode.Product(f, Pick(row, cs), Pick(u, cs), |cs|)
  {
    hide Xor, Mul, Pick, LostData, CauchyCode.Product;
    LostNext(kept, n + 1);
    ProductNext(f, row, u, n);
    if n in kept {
      MulOfZero(f, row[n]);
      XorZero(CauchyCode.Product(f, row, u, n));
    } else {
      PickNext(f, row, u, LostData(kept, n), n);
    }
  }

  lemma ProductNone(f: Field, row: seq<nat>, u: seq<nat>)
    requires f.w >= 1
    ensures CauchyCode.Product(f, row, u, 0) == 0
  {
  }

  lemma ProductNext(f: Field, row: seq<nat>, u: seq<nat>, n: nat)
    requires f.w >= 1 && n < |row| && n < |u|
    ensures CauchyCode.Product(f, row, u, n + 1) == Xor(CauchyCode.Product(f, row, u, n), Mul(f, row[n], u[n]))
  {
  }

  lemma PickNext(f: Field, row: seq<nat>, u: seq<nat>, cs: seq<nat>, j: nat)
    requires f.w >= 1 && j < |row| && j < |u| && forall i :: 0 <= i < |cs| ==> cs[i] < |row| && cs[i] < |u|
    ensures
      var ds := cs + [j];
      CauchyCode.Product(f, Pick(row, ds), Pick(u, ds), |ds|) ==
        Xor(CauchyCode.Product(f, Pick(row, cs), Pick(u, cs), |cs|), Mul(f, row[j], u[j]))
  {
    hide Xor, Mul, Pick, CauchyCode.Product;
    var ds := cs + [j];
    ProductNext(f, Pick(row, ds), Pick(u, ds), |cs|);
    ProductPrefix(f, Pick(row, ds), Pick(row, cs), Pick(u, ds), Pick(u, cs), |cs|);
  }

  lemma LostNext(kept: set<nat>, n: nat)
    ensures n == 0 ==> LostData(kept, n) == []
    ensures n > 0 ==>
      LostData(kept, n) == if n - 1 in kept then LostData(kept, n - 1) else LostData(kept, n - 1) + [n - 1]
  {
  }

  lemma RowsNext(kept: set<nat>, k: nat, n: nat)
    ensures n == 0 ==> KeptRows(kept, k, n) == []
    ensures n > 0 ==>
      KeptRows(kept, k, n) ==
        if k + n - 1 in kept then KeptRows(kept, k, n - 1) + [n - 1] else KeptRows(kept, k, n - 1)
  {
  }

  lemma NoneBetween(s: set<nat>, n: nat)
    ensures |Between(s, n, n)| == 0
  {
    assert Between(s, n, n) == {};
  }

  function Between(s: set<nat>, lo: nat, hi: nat): set<nat> {
    set j | j in s && lo <= j < hi
  }

  lemma BetweenNext(s: set<nat>, lo: nat, n: nat)
    requires lo <= n
    ensures |Between(s, lo, n + 1)| == |Between(s, lo, n)| + if n in s then 1 else 0
  {
    var below := Between(s, lo, n);
    assert Between(s, lo, n + 1) == if n in s then below + {n} else below;
  }

  lemma {:induction false} CountLost(kept: set<nat>, n: nat)
    ensures |LostData(kept, n)| == n - |Between(kept, 0, n)|
  {
    hide LostData, Between;
    LostNext(kept, n);
    if n == 0 {
      NoneBetween(kept, 0);
    } else {
      CountLost(kept, n - 1);
      BetweenNext(kept, 0, n - 1);
    }
  }

  lemma {:induction false} CountRows(kept: set<nat>, k: nat, n: nat)
    ensures |KeptRows(kept, k, n)| == |Between(kept, k, k + n)|
  {
    hide KeptRows, Between;
    RowsNext(kept, k, n);
    if n == 0 {
      NoneBetween(kept, k);
    } else {
      CountRows(kept, k, n - 1);
      BetweenNext(kept, k, k + n - 1);
    }
  }

  /** Any k of the coded words determine the data, and so all of them. */
  lemma AnyKDetermine(f: Field, rows: seq<seq<nat>>, k: nat, kept: set<nat>, v: seq<nat>, w: seq<nat>)
    requires f.w >= 1 && forall r :: 0 <= r < |rows| ==> |rows[r]| == k
    requires IsSuperregular(f, rows, k)
    requires |v| == |w| == k && AreWords(f, v) && AreWords(f, w)
    requires |kept| == k && forall i :: i in kept ==> i < k + |rows|
    requires forall i :: i in kept ==> Word(f, rows, k, v, i) == Word(f, rows, k, w, i)
    ensures v == w
  {
    hide Xor, Mul, CauchyCode.Product, LostData, KeptRows, Sub, Sum, Pick, IsWord, IsSingular, IsSuperregular;
    var m, cs, rs, u := |rows|, LostData(kept, k), KeptRows(kept, k, |rows|), Sum(v, w);
    SplitKept(kept, k, m);
    SumIsWords(f, v, w);
    forall j | 0 <= j < k && j in kept ensures u[j] == 0 {
      assert Word(f, rows, k, v, j) == Word(f, rows, k, w, j);
      XorZero(v[j]);
    }
    forall i | 0 <= i < |rs| ensures CauchyCode.Product(f, Pick(rows[rs[i]], cs), Pick(u, cs), |cs|) == 0 {
      var r := rs[i];
      assert Word(f, rows, k, v, k + r) == Word(f, rows, k, w, k + r);
      ProductOfSum(f, rows[r], v, w, k);
      XorZero(CauchyCode.Product(f, rows[r], v, k));
      ProductOfLost(f, rows[r], u, kept, k);
    }
    LostAreZero(f, rows, k, rs, cs, u);
    forall j | 0 <= j < k ensures v[j] == w[j] {
      if j !in kept { assert j in cs; }
      EqualIfXorZero(v[j], w[j]);
    }
  }

  /** As many rows are kept as data words are lost, when k words are kept in all. */
  lemma SplitKept(kept: set<nat>, k: nat, m: nat)
    requires |kept| == k && forall i :: i in kept ==> i < k + m
    ensures |KeptRows(kept, k, m)| == |LostData(kept, k)|
  {
    CountLost(kept, k);
    CountRows(kept, k, m);
    var data, coded := Between(kept, 0, k), Between(kept, k, k + m);
    assert kept == data + coded && data !! coded;
  }

  lemma SumIsWords(f: Field, v: seq<nat>, w: seq<nat>)
    requires |v| == |w| && AreWords(f, v) && AreWords(f, w)
    ensures AreWords(f, Sum(v, w))
  {
    hide Xor, IsWord;
    forall j | 0 <= j < |v| ensures IsWord(f, Xor(v[j], w[j])) { XorWord(f, v[j], w[j]); }
  }

  /** The lost entries of a vector that the kept rows send to zero are zero. */
  lemma LostAreZero(f: Field, rows: seq<seq<nat>>, k: nat, rs: seq<nat>, cs: seq<nat>, u: seq<nat>)
    requires f.w >= 1 && (forall r :: 0 <= r < |rows| ==> |rows[r]| == k) && IsSuperregular(f, rows, k)
    requires AreIndices(rs, |rows|) && AreIndices(cs, k) && |rs| == |cs| && |u| == k && AreWords(f, u)
    requires forall i :: 0 <= i < |rs| ==> CauchyCode.Product(f, Pick(rows[rs[i]], cs), Pick(u, cs), |cs|) == 0
    ensures forall j :: j in cs ==> u[j] == 0
  {
    hide Xor, Mul, CauchyCode.Product, IsWord;
    var sub, x := Sub(rows, k, rs, cs), Pick(u, cs);
    assert !IsSingular(f, sub, |cs|);
    forall i | 0 <= i < |sub| ensures CauchyCode.Product(f, sub[i], x, |cs|) == 0 {
      assert sub[i] == Pick(rows[rs[i]], cs);
    }
    NoKernel(f, sub, |cs|, x);
    forall j | j in cs ensures u[j] == 0 {
      var i :| 0 <= i < |cs| && cs[i] == j;
      assert x[i] == u[j];
    }
  }

  lemma NoKernel(f: Field, rows: seq<seq<nat>>, n: nat, v: seq<nat>)
    requires f.w >= 1 && (forall i :: 0 <= i < |rows| ==> |rows[i]| == n) && !IsSingular(f, rows, n)
    requires |v| == n && AreWords(f, v) && forall i :: 0 <= i < |rows| ==> CauchyCode.Product(f, rows[i], v, n) == 0
    ensures forall j :: 0 <= j < n ==> v[j] == 0
  {
    hide CauchyCode.Product, IsWord;
    assert !IsKernelVector(f, rows, n, v);
  }

  /** The rows that the Cauchy matrix codes survive the loss of any m of their k + m words. */
  lemma CauchySurvives(f: Field, k: nat, m: nat, matrix: array2<nat>, kept: set<nat>, v: seq<nat>, w: seq<nat>)
    requires f.w >= 1 && IsGood(f, k, m, matrix)
    requires |v| == |w| == k && AreWords(f, v) && AreWords(f, w)
    requires |kept| == k && forall i :: i in kept ==> i < k + m
    requires forall i :: i in kept ==> Word(f, RowsOf(matrix), k, v, i) == Word(f, RowsOf(matrix), k, w, i)
    ensures v == w
  {
    hide IsSuperregular, Word;
    AnyKDetermine(f, RowsOf(matrix), k, kept, v, w);
  }
}
