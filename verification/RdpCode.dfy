/** The RDP code for k data columns of k rows, with p = k + 1, and exactly when it survives
    the loss of any two columns. */
module RdpCode {
  import opened Bits
  import opened Blocks
  import opened Diagonals
  import opened IntMod
  import opened PrimeWalk

  /** The data cells of diagonal l in the first n rows. The diagonal meets row (l+1) mod p in
      the P column. */
  function DiagCells(k: nat, l: nat, n: nat): seq<Elem> {
    if n == 0 then []
    else
      DiagCells(k, l, n - 1) +
      if n - 1 != RowOn(k + 1, l, k) then [Elem(n - 1, RowOn(k + 1, l, n - 1))] else []
  }

  /** The cells that Q row l is the XOR of: one diagonal mod p, P column included. */
  function QCells(k: nat, l: nat): seq<Elem> {
    var first := RowOn(k + 1, l, k);
    (if first < k then [Elem(first, k)] else []) + DiagCells(k, l, k)
  }

  lemma {:induction false} DiagCount(k: nat, l: nat, n: nat, e: Elem)
    ensures multiset(DiagCells(k, l, n))[e] ==
      if e.row < n && e.row != RowOn(k + 1, l, k) && e.col == RowOn(k + 1, l, e.row) then 1 else 0
  {
    hide RowOn, DiagCells;
    if n == 0 {
      NoDiagCells(k, l);
    } else {
      DiagCount(k, l, n - 1, e);
      NextDiagCount(k, l, n - 1, e);
    }
  }

  lemma NoDiagCells(k: nat, l: nat)
    ensures DiagCells(k, l, 0) == []
  {
  }

  lemma NextDiagCount(k: nat, l: nat, n: nat, e: Elem)
    ensures multiset(DiagCells(k, l, n + 1))[e] ==
      multiset(DiagCells(k, l, n))[e] +
      if n != RowOn(k + 1, l, k) && e == Elem(n, RowOn(k + 1, l, n)) then 1 else 0
  {
    hide RowOn;
    var last := if n != RowOn(k + 1, l, k) then [Elem(n, RowOn(k + 1, l, n))] else [];
    assert DiagCells(k, l, n + 1) == DiagCells(k, l, n) + last;
    assert multiset(DiagCells(k, l, n + 1)) == multiset(DiagCells(k, l, n)) + multiset(last);
  }

  /** Q row l names the data and P cells whose row and column add up to l mod k + 1, each once,
      and DiagCells those of them that hold data. */
  lemma QCount(k: nat, l: nat, i: nat, j: nat)
    requires l < k && i < k && j <= k
    ensures multiset(QCells(k, l))[Elem(i, j)] == if (i + j) % (k + 1) == l then 1 else 0
    ensures multiset(DiagCells(k, l, k))[Elem(i, j)] == if j < k && (i + j) % (k + 1) == l then 1 else 0
  {
    hide DiagCells, RowOn;
    DiagCount(k, l, k, Elem(i, j));
    HeadCount(k, l, Elem(i, j));
    OnDiagonal(k + 1, l, i, j);
    RowOnTwice(k + 1, l, i, j);
    RowOnTwice(k + 1, l, i, k);
  }

  lemma HeadCount(k: nat, l: nat, e: Elem)
    requires e.row < k
    ensures multiset(QCells(k, l))[e] ==
      multiset(DiagCells(k, l, k))[e] + if e.col == k && e.row == RowOn(k + 1, l, k) then 1 else 0
  {
    hide DiagCells, RowOn;
    var first := RowOn(k + 1, l, k);
    var head := if first < k then [Elem(first, k)] else [];
    assert QCells(k, l) == head + DiagCells(k, l, k);
  }

  /** Data columns 0..k, P in column k and Q in column k + 1. */
  ghost predicate IsCodeword(k: nat, c: seq<Column>) {
    IsMatrix(c, k, k + 2) &&
    var p, q := c[k], c[k + 1];
    (forall i :: 0 <= i < |p| ==> p[i] == RowXor(c, k, i)) &&
    (forall l :: 0 <= l < |q| ==> q[l] == XorCells(c, QCells(k, l)))
  }

  /** Rows and columns play the same part on a diagonal. */
  lemma RowOnTwice(p: nat, l: int, j: nat, x: nat)
    requires j < p && x < p
    ensures RowOn(p, l, j) == x <==> RowOn(p, l, x) == j
  {
    if RowOn(p, l, j) == x {
      var q := (l - j) / p;
      assert l - x == j + q * p;
      DivMod(l - x, q, j, p);
    }
    if RowOn(p, l, x) == j {
      var q := (l - x) / p;
      assert l - j == x + q * p;
      DivMod(l - j, q, x, p);
    }
  }

  /** Diagonal i meets the P column in row (i + 1) mod (k + 1). */
  lemma PMeets(k: nat, i: nat)
    requires i < k
    ensures RowOn(k + 1, i, k) == (i + 1) % (k + 1) == i + 1
  {
    SmallMod(i + 1, k + 1);
    AddMultiple(i - k, 1, k + 1);
  }

  lemma {:induction false} DiagInData(k: nat, l: nat, n: nat, i: nat)
    requires n <= k && i < |DiagCells(k, l, n)|
    ensures var e := DiagCells(k, l, n)[i]; e.row < k && e.col < k
  {
    if i < |DiagCells(k, l, n - 1)| {
      DiagInData(k, l, n - 1, i);
    } else {
      RowOnTwice(k + 1, l, n - 1, k);
    }
  }

  // ---- The equations of a stripe that is zero outside columns x and y ----

  lemma ZeroCell(k: nat, c: seq<Column>, x: nat, y: nat, e: Elem)
    requires IsMatrix(c, k, k + 2) && ZeroBut(c, k, k + 2, x, y)
    ensures e.col != x && e.col != y ==> Cell(c, e) == 0
  {
  }

  lemma DiagStep(k: nat, c: seq<Column>, l: nat, n: nat)
    ensures XorCells(c, DiagCells(k, l, n + 1)) ==
      if n == RowOn(k + 1, l, k) then XorCells(c, DiagCells(k, l, n))
      else Xor(XorCells(c, DiagCells(k, l, n)), Cell(c, Elem(n, RowOn(k + 1, l, n))))
  {
    hide Xor, RowOn;
    XorCellsAppend(c, DiagCells(k, l, n), Elem(n, RowOn(k + 1, l, n)));
    assert DiagCells(k, l, n) + [] == DiagCells(k, l, n);
  }

  /** What data column x adds to the first n rows of a diagonal. */
  function Met(k: nat, c: seq<Column>, l: nat, x: nat, n: nat): Block {
    if x < k && RowOn(k + 1, l, x) < n then Cell(c, Elem(RowOn(k + 1, l, x), x)) else 0
  }

  lemma {:induction false} DiagSum(k: nat, c: seq<Column>, x: nat, y: nat, l: nat, n: nat)
    requires IsMatrix(c, k, k + 2) && x < y < k + 2 && ZeroBut(c, k, k + 2, x, y) && n <= k
    ensures XorCells(c, DiagCells(k, l, n)) == Xor(Met(k, c, l, x, n), Met(k, c, l, y, n))
  {
    hide Xor, RowOn, Cell, XorCells;
    XorZero(0);
    if n == 0 {
      XorCellsNone(c);
    } else {
      DiagSum(k, c, x, y, l, n - 1);
      DiagStep(k, c, l, n - 1);
      var e := Elem(n - 1, RowOn(k + 1, l, n - 1));
      ZeroCell(k, c, x, y, e);
      if x <= k { RowOnTwice(k + 1, l, n - 1, x); }
      if y <= k { RowOnTwice(k + 1, l, n - 1, y); }
      RowOnTwice(k + 1, l, n - 1, k);
      XorZero(Cell(c, e));
      XorZero(Met(k, c, l, x, n - 1));
      XorZero(Met(k, c, l, y, n - 1));
      XorComm(Met(k, c, l, y, n - 1), Cell(c, e));
      XorZero(XorCells(c, DiagCells(k, l, n - 1)));
    }
  }

  /** What column x contributes to Q row l. */
  function Own(k: nat, a: seq<Column>, x: nat, l: int): Block
    requires x < |a| && |a[x]| == k
  {
    if x <= k then At(Virtual(a[x]), l - x) else 0
  }

  lemma CellIsAt(k: nat, c: seq<Column>, x: nat, l: nat)
    requires x <= k && x < |c| && |c[x]| == k
    ensures Cell(c, Elem(RowOn(k + 1, l, x), x)) == At(Virtual(c[x]), l - x)
  {
    var u := Virtual(c[x]);
    assert At(u, l - x) == u[RowOn(k + 1, l, x)];
  }

  lemma QSum(k: nat, c: seq<Column>, x: nat, y: nat, l: nat)
    requires IsMatrix(c, k, k + 2) && x < y < k + 2 && ZeroBut(c, k, k + 2, x, y)
    ensures XorCells(c, QCells(k, l)) == Xor(Own(k, c, x, l), Own(k, c, y, l))
  {
    hide Xor, Cell, XorCells, At, RowOn, Virtual, DiagCells;
    var first := RowOn(k + 1, l, k);
    var e := Elem(first, k);
    var head := if first < k then [e] else [];
    DiagSum(k, c, x, y, l, k);
    XorCellsConcat(c, head, DiagCells(k, l, k));
    HeadSum(k, c, e, head);
    ZeroCell(k, c, x, y, e);
    FullMet(k, c, l, x);
    FullMet(k, c, l, y);
    XorZero(0);
    XorZero(Own(k, c, x, l));
    XorZero(Own(k, c, y, l));
    XorZero(Xor(Own(k, c, x, l), Own(k, c, y, l)));
    XorComm(Own(k, c, x, l), Own(k, c, y, l));
  }

  lemma HeadSum(k: nat, c: seq<Column>, e: Elem, head: seq<Elem>)
    requires IsMatrix(c, k, k + 2) && e.col == k && head == if e.row < k then [e] else []
    ensures XorCells(c, head) == Cell(c, e)
  {
    XorCellsAppend(c, [], e);
    assert [] + [e] == [e];
    XorZero(Cell(c, e));
  }

  lemma FullMet(k: nat, c: seq<Column>, l: nat, x: nat)
    requires IsMatrix(c, k, k + 2) && x < k + 2
    ensures x < k ==> Met(k, c, l, x, k) == Own(k, c, x, l)
    ensures x == k ==> Met(k, c, l, x, k) == 0 && Own(k, c, x, l) == Cell(c, Elem(RowOn(k + 1, l, k), k))
    ensures x > k ==> Met(k, c, l, x, k) == 0 == Own(k, c, x, l)
  {
    hide At, Virtual, RowOn;
    if x <= k { CellIsAt(k, c, x, l); }
  }

  // ---- Any two columns can be lost when k + 1 is prime ----

  /** Two lost columns, neither of them Q, are equal. */
  lemma LostAreEqual(k: nat, c: seq<Column>, x: nat, y: nat)
    requires IsCodeword(k, c) && x < y <= k && ZeroBut(c, k, k + 2, x, y)
    ensures c[x] == c[y]
  {
    hide Xor, XorCells, QCells;
    var p, z, w := c[k], c[x], c[y];
    forall i | 0 <= i < |z| ensures z[i] == w[i] {
      assert p[i] == RowXor(c, k, i);
      RowXorOfTwo(c, k, k + 2, x, y, k, i);
      XorZero(z[i]);
      if y < k { EqualIfXorZero(z[i], w[i]); }
    }
    assert z == w;
  }

  /** Each diagonal makes two entries of their contents equal; the diagonal that has no Q
      block leaves one gap. */
  lemma DiagonalSteps(k: nat, c: seq<Column>, x: nat, y: nat)
    requires IsCodeword(k, c) && x < y <= k && ZeroBut(c, k, k + 2, x, y)
    ensures StepsBut(Virtual(c[x]), y - x, k - y)
  {
    hide Xor, XorCells, At, QCells;
    LostAreEqual(k, c, x, y);
    var u, q := Virtual(c[x]), c[k + 1];
    forall m: int | m % (k + 1) != k - y ensures At(u, m + (y - x)) == At(u, m) {
      var l := (m + y) % (k + 1);
      var t := (m + y) / (k + 1);
      assert m + y == l + t * (k + 1) && l - y + t * |u| == m && l - x + t * |u| == m + (y - x);
      AtPeriod(u, l - y, t);
      AtPeriod(u, l - x, t);
      if l == k {
        DivMod(m, t, k - y, k + 1);
        assert false;
      }
      assert q[l] == XorCells(c, QCells(k, l)) == 0;
      QSum(k, c, x, y, l);
      EqualIfXorZero(At(u, l - x), At(u, l - y));
    }
  }

  /** Lost: two columns among data and P. */
  lemma LostBeforeQ(k: nat, c: seq<Column>, x: nat, y: nat)
    requires IsPrime(k + 1) && IsCodeword(k, c) && x < y <= k && ZeroBut(c, k, k + 2, x, y)
    ensures forall i :: 0 <= i < k ==> c[x][i] == 0 && c[y][i] == 0
  {
    hide Xor, XorCells, QCells, RowXor, At, Steps, StepsBut, IsPrime;
    LostAreEqual(k, c, x, y);
    DiagonalSteps(k, c, x, y);
    var u := Virtual(c[x]);
    GapCloses(u, y - x, k - y);
    forall i | 0 <= i < k ensures c[x][i] == 0 { WalkIsZero(u, y - x, i); }
  }

  lemma DifferenceIsCodeword(k: nat, a: seq<Column>, b: seq<Column>)
    requires IsCodeword(k, a) && IsCodeword(k, b)
    ensures IsCodeword(k, XorStripes(a, b, k, k + 2))
  {
    hide Xor, XorCells, QCells;
    var d := XorStripes(a, b, k, k + 2);
    var p, q, p0, q0, p1, q1 := d[k], d[k + 1], a[k], a[k + 1], b[k], b[k + 1];
    forall i | 0 <= i < |p| ensures p[i] == RowXor(d, k, i) {
      RowXorOfXor(a, b, k, k + 2, k, i);
      assert p0[i] == RowXor(a, k, i) && p1[i] == RowXor(b, k, i);
    }
    forall l | 0 <= l < |q| ensures q[l] == XorCells(d, QCells(k, l)) {
      XorCellsOfXor(a, b, k, k + 2, QCells(k, l));
      assert q0[l] == XorCells(a, QCells(k, l)) && q1[l] == XorCells(b, QCells(k, l));
    }
  }

  /** A codeword that is zero outside two columns is zero. */
  lemma ZeroCodeword(k: nat, c: seq<Column>, x: nat, y: nat)
    requires IsPrime(k + 1) && IsCodeword(k, c) && x < y < k + 2 && ZeroBut(c, k, k + 2, x, y)
    ensures forall j, i :: 0 <= j < k + 2 && 0 <= i < k ==> c[j][i] == 0
  {
    hide Xor, XorCells, At, IsPrime, QCells;
    var p, q := c[k], c[k + 1];
    if y <= k {
      LostBeforeQ(k, c, x, y);
    } else {
      forall i | 0 <= i < k ensures c[x][i] == 0 {
        assert p[i] == RowXor(c, k, i);
        RowXorOfTwo(c, k, k + 2, x, y, k, i);
        XorZero(c[x][i]);
        XorZero(0);
      }
    }
    assert forall j, i :: 0 <= j <= k && 0 <= i < k ==> c[j][i] == 0;
    forall l | 0 <= l < k ensures q[l] == 0 {
      QSum(k, c, x, y, l);
      ZeroTerm(k, c, x, l);
      ZeroTerm(k, c, y, l);
      XorZero(0);
    }
  }

  lemma ZeroTerm(k: nat, c: seq<Column>, x: nat, l: nat)
    requires x < |c| && |c[x]| == k && (x <= k ==> forall i :: 0 <= i < k ==> c[x][i] == 0)
    ensures Own(k, c, x, l) == 0
  {
  }

  /** The code survives the loss of any two columns: the other k determine the stripe. */
  ghost predicate SurvivesTwoLosses(k: nat) {
    forall a, b, x: nat, y: nat {:trigger IsCodeword(k, a), AgreeBut(a, b, x, y)} ::
      IsCodeword(k, a) && IsCodeword(k, b) && x < y < k + 2 && AgreeBut(a, b, x, y) ==> a == b
  }

  lemma AnyTwoColumnsLost(k: nat, a: seq<Column>, b: seq<Column>, x: nat, y: nat)
    requires IsPrime(k + 1) && IsCodeword(k, a) && IsCodeword(k, b) && x < y < k + 2 && AgreeBut(a, b, x, y)
    ensures a == b
  {
    DifferenceIsCodeword(k, a, b);
    DifferenceZeroBut(a, b, k, k + 2, x, y);
    ZeroCodeword(k, XorStripes(a, b, k, k + 2), x, y);
    ZeroDifference(a, b, k, k + 2);
  }

  /** For a proper divisor g of k + 1, the same column of every g-th row in columns 0 and g
      cancels in all parities. */
  lemma DivisorCodeword(k: nat, g: nat)
    requires 2 <= g <= k && (k + 1) % g == 0
    ensures g < k && IsCodeword(k, Twice(Every(g, k), 0, g, k + 2))
  {
    hide Xor, XorCells, At, QCells;
    if g == k { DivMod(k + 1, 1, 1, k); }
    var u := Every(g, k);
    var c := Twice(u, 0, g, k + 2);
    var p, q := c[k], c[k + 1];
    forall i | 0 <= i < k ensures p[i] == RowXor(c, k, i) && q[i] == XorCells(c, QCells(k, i)) {
      RowXorOfTwo(c, k, k + 2, 0, g, k, i);
      QSum(k, c, 0, g, i);
      DivisorTerms(k + 1, g, i);
      assert c[0] == u && c[g] == u;
      XorZero(u[i]);
      XorZero(0);
    }
  }

  lemma ZeroIsCodeword(k: nat, z: seq<Column>)
    requires IsMatrix(z, k, k + 2) && ZeroBut(z, k, k + 2, k + 2, k + 2)
    ensures IsCodeword(k, z)
  {
    hide Xor, XorCells, QCells;
    var p, q := z[k], z[k + 1];
    forall i | 0 <= i < k ensures p[i] == RowXor(z, k, i) && q[i] == XorCells(z, QCells(k, i)) {
      RowXorOfTwo(z, k, k + 2, k, k + 1, k, i);
      QSum(k, z, k, k + 1, i);
      XorZero(0);
    }
  }

  /** The constructor takes any number of data disks, but the code is RAID-6 exactly when k + 1
      is prime. */
  lemma SurvivesTwoLossesIffPrime(k: nat)
    requires k >= 1
    ensures SurvivesTwoLosses(k) <==> IsPrime(k + 1)
  {
    if IsPrime(k + 1) {
      forall a, b, x: nat, y: nat
        | IsCodeword(k, a) && IsCodeword(k, b) && x < y < k + 2 && AgreeBut(a, b, x, y)
        ensures a == b
      {
        AnyTwoColumnsLost(k, a, b, x, y);
      }
    } else {
      var g :| 2 <= g < k + 1 && (k + 1) % g == 0;
      DivisorCodeword(k, g);
      var a, z := Twice(Every(g, k), 0, g, k + 2), Twice(Every(g, k), k + 2, k + 2, k + 2);
      ZeroIsCodeword(k, z);
      assert AgreeBut(a, z, 0, g);
      assert a[0][0] == 1 && z[0][0] == 0;
    }
  }
}
