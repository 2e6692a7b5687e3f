/** The EVENODD code for k data columns of k-1 rows, and exactly when it survives the loss of
    any two columns. */
module EvenoddCode {
  import opened Bits
  import opened Blocks
  import opened Diagonals
  import opened IntMod
  import opened PrimeWalk

  /** The data cells with row + column == k - 1 in the first n rows. */
  function DiagCells(k: nat, n: nat): seq<Elem>
    requires n < k
  {
    if n == 0 then [] else DiagCells(k, n - 1) + [Elem(n - 1, k - n)]
  }

  /** The data cells of diagonal l in the first n columns. */
  function LineCells(k: nat, l: nat, n: nat): seq<Elem>
    requires k > 0
  {
    if n == 0 then []
    else
      var first := RowOn(k, l, n - 1);
      LineCells(k, l, n - 1) + if first < k - 1 then [Elem(first, n - 1)] else []
  }

  /** The cells that Q row l is the XOR of. */
  function QCells(k: nat, l: nat): seq<Elem>
    requires k > 0
  {
    DiagCells(k, k - 1) + LineCells(k, l, k)
  }

  lemma {:induction false} DiagCount(k: nat, n: nat, e: Elem)
    requires n < k
    ensures multiset(DiagCells(k, n))[e] == if e.row < n && e.row + e.col == k - 1 then 1 else 0
  {
    if n > 0 {
      DiagCount(k, n - 1, e);
      assert DiagCells(k, n) == DiagCells(k, n - 1) + [Elem(n - 1, k - n)];
    }
  }

  lemma NoLineCells(k: nat, l: nat)
    requires k > 0
    ensures LineCells(k, l, 0) == []
  {
  }

  lemma NextLineCount(k: nat, l: nat, n: nat, e: Elem)
    requires k > 0
    ensures multiset(LineCells(k, l, n + 1))[e] ==
      multiset(LineCells(k, l, n))[e] +
      if RowOn(k, l, n) < k - 1 && e == Elem(RowOn(k, l, n), n) then 1 else 0
  {
    hide RowOn;
    var first := RowOn(k, l, n);
    var last := if first < k - 1 then [Elem(first, n)] else [];
    assert LineCells(k, l, n + 1) == LineCells(k, l, n) + last;
    assert multiset(LineCells(k, l, n + 1)) == multiset(LineCells(k, l, n)) + multiset(last);
  }

  lemma {:induction false} LineCount(k: nat, l: nat, n: nat, e: Elem)
    requires k > 0
    ensures multiset(LineCells(k, l, n))[e] ==
      if e.col < n && e.row < k - 1 && RowOn(k, l, e.col) == e.row then 1 else 0
  {
    hide RowOn, LineCells;
    if n == 0 {
      NoLineCells(k, l);
    } else {
      LineCount(k, l, n - 1, e);
      NextLineCount(k, l, n - 1, e);
    }
  }

  /** Q row l names the cells on the main diagonal and those on diagonal l, so twice or not at
      all a cell that is on both or on neither. */
  lemma QCount(k: nat, l: nat, i: nat, j: nat)
    requires l < k - 1 && i < k - 1 && j < k
    ensures multiset(QCells(k, l))[Elem(i, j)] ==
      (if i + j == k - 1 then 1 else 0) + (if (i + j) % k == l then 1 else 0)
  {
    hide DiagCells, LineCells, RowOn;
    DiagCount(k, k - 1, Elem(i, j));
    LineCount(k, l, k, Elem(i, j));
    OnDiagonal(k, l, i, j);
    assert QCells(k, l) == DiagCells(k, k - 1) + LineCells(k, l, k);
  }

  /** Data columns 0..k, P in column k and Q in column k + 1. */
  ghost predicate IsCodeword(k: nat, c: seq<Column>) {
    k > 0 && IsMatrix(c, k - 1, k + 2) &&
    var p, q := c[k], c[k + 1];
    (forall i :: 0 <= i < |p| ==> p[i] == RowXor(c, k, i)) &&
    (forall l :: 0 <= l < |q| ==> q[l] == XorCells(c, QCells(k, l)))
  }

  // ---- The equations of a stripe that is zero outside columns x and y ----

  lemma {:induction false} DiagSum(k: nat, c: seq<Column>, x: nat, y: nat, n: nat)
    requires k > 0 && IsMatrix(c, k - 1, k + 2) && x < y < k + 2 && ZeroBut(c, k - 1, k + 2, x, y) && n < k
    ensures XorCells(c, DiagCells(k, n)) ==
      Xor(if x < k && k - 1 - x < n then Cell(c, Elem(k - 1 - x, x)) else 0,
          if y < k && k - 1 - y < n then Cell(c, Elem(k - 1 - y, y)) else 0)
  {
    hide Xor, Cell;
    XorZero(0);
    if n > 0 {
      DiagSum(k, c, x, y, n - 1);
      var e := Elem(n - 1, k - n);
      var w := if y < k && k - 1 - y < n - 1 then Cell(c, Elem(k - 1 - y, y)) else 0;
      XorCellsAppend(c, DiagCells(k, n - 1), e);
      ZeroCell(k, c, x, y, e);
      XorZero(w);
      XorZero(Cell(c, e));
      XorComm(w, Cell(c, e));
      XorZero(XorCells(c, DiagCells(k, n - 1)));
    }
  }

  lemma ZeroCell(k: nat, c: seq<Column>, x: nat, y: nat, e: Elem)
    requires k > 0 && IsMatrix(c, k - 1, k + 2) && ZeroBut(c, k - 1, k + 2, x, y)
    ensures e.col != x && e.col != y ==> Cell(c, e) == 0
  {
  }

  lemma NoLine(k: nat, c: seq<Column>, l: nat)
    requires k > 0
    ensures XorCells(c, LineCells(k, l, 0)) == 0
  {
  }

  lemma LineStep(k: nat, c: seq<Column>, l: nat, n: nat)
    requires k > 0 && IsMatrix(c, k - 1, k + 2) && n < k
    ensures XorCells(c, LineCells(k, l, n + 1))
      == Xor(XorCells(c, LineCells(k, l, n)), Cell(c, Elem(RowOn(k, l, n), n)))
  {
    hide Xor, RowOn;
    XorCellsAppend(c, LineCells(k, l, n), Elem(RowOn(k, l, n), n));
    assert LineCells(k, l, n) + [] == LineCells(k, l, n);
    XorZero(XorCells(c, LineCells(k, l, n)));
  }

  lemma {:induction false} LineSum(k: nat, c: seq<Column>, x: nat, y: nat, l: nat, n: nat)
    requires k > 0 && IsMatrix(c, k - 1, k + 2) && x < y < k + 2 && ZeroBut(c, k - 1, k + 2, x, y) && n <= k
    ensures XorCells(c, LineCells(k, l, n)) ==
      Xor(if x < n then Cell(c, Elem(RowOn(k, l, x), x)) else 0, if y < n then Cell(c, Elem(RowOn(k, l, y), y)) else 0)
  {
    hide Xor, RowOn, Cell, XorCells, LineCells;
    XorZero(0);
    if n == 0 {
      NoLine(k, c, l);
    } else {
      LineSum(k, c, x, y, l, n - 1);
      var e := Elem(RowOn(k, l, n - 1), n - 1);
      LineStep(k, c, l, n - 1);
      ZeroCell(k, c, x, y, e);
      XorZero(Cell(c, e));
      XorZero(Cell(c, Elem(RowOn(k, l, x), x)));
      XorZero(XorCells(c, LineCells(k, l, n - 1)));
    }
  }

  /** What column c contributes to every Q row, and to Q row l alone. */
  function Shared(k: nat, a: seq<Column>, c: nat): Block
    requires k > 0 && c < |a| && |a[c]| == k - 1
  {
    if c < k then At(Virtual(a[c]), k - 1 - c) else 0
  }

  function Own(k: nat, a: seq<Column>, c: nat, l: int): Block
    requires k > 0 && c < |a| && |a[c]| == k - 1
  {
    if c < k then At(Virtual(a[c]), l - c) else 0
  }

  lemma CellIsAt(k: nat, c: seq<Column>, x: nat, l: nat)
    requires k > 0 && x < k && x < |c| && |c[x]| == k - 1
    ensures Cell(c, Elem(RowOn(k, l, x), x)) == At(Virtual(c[x]), l - x)
    ensures (if k - 1 - x < k - 1 then Cell(c, Elem(k - 1 - x, x)) else 0) == At(Virtual(c[x]), k - 1 - x)
  {
    var u := Virtual(c[x]);
    assert At(u, l - x) == u[RowOn(k, l, x)];
    hide RowOn;
    AtInside(u, k - 1 - x);
  }

  lemma QSum(k: nat, c: seq<Column>, x: nat, y: nat, l: nat)
    requires k > 0 && IsMatrix(c, k - 1, k + 2) && x < y < k + 2 && ZeroBut(c, k - 1, k + 2, x, y) && l < k
    ensures XorCells(c, QCells(k, l)) ==
      Xor(Xor(Shared(k, c, x), Shared(k, c, y)), Xor(Own(k, c, x, l), Own(k, c, y, l)))
  {
    hide Xor, Cell, XorCells, At, RowOn, Virtual;
    DiagSum(k, c, x, y, k - 1);
    LineSum(k, c, x, y, l, k);
    if x < k { CellIsAt(k, c, x, l); }
    if y < k { CellIsAt(k, c, y, l); }
    XorCellsConcat(c, DiagCells(k, k - 1), LineCells(k, l, k));
  }

  // ---- Any two columns can be lost when k is an odd prime ----

  lemma Residue(m: int, k: nat) returns (l: nat, t: int)
    requires k > 0
    ensures l < k && m == l + t * k
  {
    l, t := m % k, m / k;
  }

  /** With P zero, columns x and y are equal and every Q equation says the same thing: the
      entries of their common contents step by a fixed amount around Z_k. */
  lemma TwoDataSteps(k: nat, c: seq<Column>, x: nat, y: nat)
    requires IsCodeword(k, c) && x < y < k && ZeroBut(c, k - 1, k + 2, x, y)
    ensures c[x] == c[y]
    ensures Steps(Virtual(c[x]), y - x, Xor(Shared(k, c, x), Shared(k, c, y)))
  {
    hide Xor, XorCells, At;
    var p, q, z, w := c[k], c[k + 1], c[x], c[y];
    forall i | 0 <= i < |z| ensures z[i] == w[i] {
      assert p[i] == RowXor(c, k, i) == 0;
      RowXorOfTwo(c, k - 1, k + 2, x, y, k, i);
      EqualIfXorZero(z[i], w[i]);
    }
    assert z == w;
    var u, v := Virtual(z), Xor(Shared(k, c, x), Shared(k, c, y));
    forall m: int ensures Xor(At(u, m + (y - x)), At(u, m)) == v {
      var l, t := Residue(m + y, k);
      assert l - y + t * |u| == m && l - x + t * |u| == m + (y - x);
      AtPeriod(u, l - y, t);
      AtPeriod(u, l - x, t);
      if l < k - 1 {
        assert q[l] == XorCells(c, QCells(k, l)) == 0;
        QSum(k, c, x, y, l);
        EqualIfXorZero(v, Xor(At(u, l - x), At(u, l - y)));
      }
    }
  }

  /** Lost: two data columns. */
  lemma LostTwoData(k: nat, c: seq<Column>, x: nat, y: nat)
    requires IsPrime(k) && k != 2 && IsCodeword(k, c) && x < y < k && ZeroBut(c, k - 1, k + 2, x, y)
    ensures forall i :: 0 <= i < k - 1 ==> c[x][i] == 0 && c[y][i] == 0
  {
    hide Xor, At, Steps;
    TwoDataSteps(k, c, x, y);
    assert k % 2 == 1 by { assert k % 2 != 0; }
    OddWalkIsConstant(Virtual(c[x]), y - x, Xor(Shared(k, c, x), Shared(k, c, y)));
    forall i | 0 <= i < k - 1 ensures c[x][i] == 0 { WalkIsZero(Virtual(c[x]), y - x, i); }
  }

  lemma OneDataLine(k: nat, c: seq<Column>, x: nat, l: nat)
    requires IsCodeword(k, c) && x < k && ZeroBut(c, k - 1, k + 2, x, k) && l < k - 1
    ensures At(Virtual(c[x]), l - x) == Shared(k, c, x)
  {
    hide Xor, XorCells, At, Virtual;
    var q, s, o := c[k + 1], Shared(k, c, x), Own(k, c, x, l);
    assert q[l] == XorCells(c, QCells(k, l)) == 0;
    QSum(k, c, x, k, l);
    XorZero(s);
    XorZero(o);
    EqualIfXorZero(s, o);
  }

  /** Lost: one data column and P. The diagonal that meets the missing row gives the shared
      term away. This needs no prime. */
  lemma LostDataAndP(k: nat, c: seq<Column>, x: nat)
    requires IsCodeword(k, c) && x < k && ZeroBut(c, k - 1, k + 2, x, k)
    ensures forall i :: 0 <= i < k - 1 ==> c[x][i] == 0
  {
    hide Xor, XorCells, At;
    var u, s := Virtual(c[x]), Shared(k, c, x);
    AtInside(u, k - 1);
    if x > 0 {
      OneDataLine(k, c, x, x - 1);
      AtPeriod(u, k - 1, -1);
    }
    assert s == 0;
    forall i | 0 <= i < k - 1 ensures c[x][i] == 0 {
      var l := if i + x < k then i + x else i + x - k;
      if l < k - 1 { OneDataLine(k, c, x, l); }
      AtPeriod(u, i, -1);
      AtInside(u, i);
    }
  }

  lemma DifferenceIsCodeword(k: nat, a: seq<Column>, b: seq<Column>)
    requires IsCodeword(k, a) && IsCodeword(k, b)
    ensures IsCodeword(k, XorStripes(a, b, k - 1, k + 2))
  {
    hide Xor, XorCells;
    var d := XorStripes(a, b, k - 1, k + 2);
    var p, q, p0, q0, p1, q1 := d[k], d[k + 1], a[k], a[k + 1], b[k], b[k + 1];
    forall i | 0 <= i < |p| ensures p[i] == RowXor(d, k, i) {
      RowXorOfXor(a, b, k - 1, k + 2, k, i);
      assert p0[i] == RowXor(a, k, i) && p1[i] == RowXor(b, k, i);
    }
    forall l | 0 <= l < |q| ensures q[l] == XorCells(d, QCells(k, l)) {
      XorCellsOfXor(a, b, k - 1, k + 2, QCells(k, l));
      assert q0[l] == XorCells(a, QCells(k, l)) && q1[l] == XorCells(b, QCells(k, l));
    }
  }

  /** A codeword that is zero outside two columns is zero. */
  lemma ZeroCodeword(k: nat, c: seq<Column>, x: nat, y: nat)
    requires IsPrime(k) && k != 2 && IsCodeword(k, c) && x < y < k + 2 && ZeroBut(c, k - 1, k + 2, x, y)
    ensures forall j, i :: 0 <= j < k + 2 && 0 <= i < k - 1 ==> c[j][i] == 0
  {
    hide Xor, XorCells, At, IsPrime;
    var p, q := c[k], c[k + 1];
    if y < k {
      LostTwoData(k, c, x, y);
    } else if x < k {
      if y == k {
        LostDataAndP(k, c, x);
      } else {
        forall i | 0 <= i < k - 1 ensures c[x][i] == 0 {
          assert p[i] == RowXor(c, k, i);
          RowXorOfTwo(c, k - 1, k + 2, x, y, k, i);
          XorZero(c[x][i]);
        }
      }
    }
    assert forall j, i :: 0 <= j < k && 0 <= i < k - 1 ==> c[j][i] == 0;
    forall i | 0 <= i < k - 1 ensures p[i] == 0 && q[i] == 0 {
      RowXorOfTwo(c, k - 1, k + 2, x, y, k, i);
      QSum(k, c, x, y, i);
      ZeroTerms(k, c, x, i);
      ZeroTerms(k, c, y, i);
      XorZero(0);
    }
  }

  lemma ZeroTerms(k: nat, c: seq<Column>, x: nat, l: nat)
    requires k > 0 && x < |c| && |c[x]| == k - 1 && (x < k ==> forall i :: 0 <= i < k - 1 ==> c[x][i] == 0)
    ensures Shared(k, c, x) == 0 && Own(k, c, x, l) == 0
  {
  }

  /** The code survives the loss of any two columns: the other k determine the stripe. */
  ghost predicate SurvivesTwoLosses(k: nat) {
    forall a, b, x: nat, y: nat {:trigger IsCodeword(k, a), AgreeBut(a, b, x, y)} ::
      IsCodeword(k, a) && IsCodeword(k, b) && x < y < k + 2 && AgreeBut(a, b, x, y) ==> a == b
  }

  lemma AnyTwoColumnsLost(k: nat, a: seq<Column>, b: seq<Column>, x: nat, y: nat)
    requires IsPrime(k) && k != 2 && IsCodeword(k, a) && IsCodeword(k, b) && x < y < k + 2 && AgreeBut(a, b, x, y)
    ensures a == b
  {
    DifferenceIsCodeword(k, a, b);
    DifferenceZeroBut(a, b, k - 1, k + 2, x, y);
    ZeroCodeword(k, XorStripes(a, b, k - 1, k + 2), x, y);
    ZeroDifference(a, b, k - 1, k + 2);
  }

  /** For a proper divisor g of k, the same column of every g-th row in columns 0 and g
      cancels in all parities. */
  lemma DivisorCodeword(k: nat, g: nat)
    requires 2 <= g < k && k % g == 0
    ensures IsCodeword(k, Twice(Every(g, k - 1), 0, g, k + 2))
  {
    hide Xor, XorCells, At, QCells, RowXor, Virtual, Every;
    var u := Every(g, k - 1);
    var c := Twice(u, 0, g, k + 2);
    var p, q := c[k], c[k + 1];
    forall i | 0 <= i < k - 1 ensures p[i] == RowXor(c, k, i) && q[i] == XorCells(c, QCells(k, i)) {
      RowXorOfTwo(c, k - 1, k + 2, 0, g, k, i);
      QSum(k, c, 0, g, i);
      DivisorTerms(k, g, i);
      assert c[0] == u && c[g] == u;
      XorZero(u[i]);
      XorZero(0);
    }
  }

  lemma TwoColumnCodeword()
    ensures IsCodeword(2, Twice([1], 0, 1, 4))
  {
    hide Xor, XorCells;
    var c := Twice([1], 0, 1, 4);
    RowXorOfTwo(c, 1, 4, 0, 1, 2, 0);
    QSum(2, c, 0, 1, 0);
    XorZero(1);
    XorZero(0);
    assert c[0] == [1] && c[1] == [1];
    assert Virtual([1]) == [1, 0];
  }

  /** The constructor takes any number of data disks, but the code is RAID-6 for exactly the
      odd primes. */
  lemma SurvivesTwoLossesIffOddPrime(k: nat)
    requires k >= 2
    ensures SurvivesTwoLosses(k) <==> IsPrime(k) && k != 2
  {
    if IsPrime(k) && k != 2 {
      forall a, b, x: nat, y: nat
        | IsCodeword(k, a) && IsCodeword(k, b) && x < y < k + 2 && AgreeBut(a, b, x, y)
        ensures a == b
      {
        AnyTwoColumnsLost(k, a, b, x, y);
      }
    } else {
      var g := 1;
      if k == 2 {
        TwoColumnCodeword();
      } else {
        g :| 2 <= g < k && k % g == 0;
        DivisorCodeword(k, g);
      }
      var u := if k == 2 then [1] else Every(g, k - 1);
      var a, z := Twice(u, 0, g, k + 2), Twice(u, k + 2, k + 2, k + 2);
      ZeroIsCodeword(k, z);
      assert AgreeBut(a, z, 0, g);
      assert a[0][0] == 1 && z[0][0] == 0;
    }
  }

  lemma ZeroIsCodeword(k: nat, z: seq<Column>)
    requires k > 0 && IsMatrix(z, k - 1, k + 2) && ZeroBut(z, k - 1, k + 2, k + 2, k + 2)
    ensures IsCodeword(k, z)
  {
    hide Xor, XorCells;
    var p, q := z[k], z[k + 1];
    forall i | 0 <= i < k - 1 ensures p[i] == RowXor(z, k, i) && q[i] == XorCells(z, QCells(k, i)) {
      RowXorOfTwo(z, k - 1, k + 2, k, k + 1, k, i);
      QSum(k, z, k, k + 1, i);
      XorZero(0);
    }
  }
}
