/** Codes whose second parity is taken along the diagonals of a stripe: cells, sums of cells,
    and stripes that are zero outside two columns. */
module Diagonals {
  import opened Bits
  import opened Blocks
  import opened IntMod
  import opened PrimeWalk

  /** A cell of a stripe: its row and its column. */
  datatype Elem = Elem(row: nat, col: nat)

  ghost predicate IsMatrix(a: seq<Column>, rows: nat, cols: nat) {
    |a| == cols && forall j :: 0 <= j < cols ==> |a[j]| == rows
  }

  /** The contents of a cell; cells outside the stripe count as zero. */
  function Cell(a: seq<Column>, e: Elem): Block {
    if e.col < |a| && e.row < |a[e.col]| then a[e.col][e.row] else 0
  }

  /** XOR of the listed cells. */
  function XorCells(a: seq<Column>, cells: seq<Elem>): Block {
    if cells == [] then 0 else Xor(XorCells(a, cells[..|cells| - 1]), Cell(a, cells[|cells| - 1]))
  }

  lemma XorCellsNone(a: seq<Column>)
    ensures XorCells(a, []) == 0
  {
  }

  lemma XorCellsAppend(a: seq<Column>, cells: seq<Elem>, e: Elem)
    ensures XorCells(a, cells + [e]) == Xor(XorCells(a, cells), Cell(a, e))
  {
    assert (cells + [e])[..|cells|] == cells;
  }

  lemma {:induction false} XorCellsConcat(a: seq<Column>, x: seq<Elem>, y: seq<Elem>)
    ensures XorCells(a, x + y) == Xor(XorCells(a, x), XorCells(a, y))
  {
    hide Xor, Cell;
    if y == [] {
      assert x + y == x;
      XorZero(XorCells(a, x));
    } else {
      var init, e := y[..|y| - 1], y[|y| - 1];
      XorCellsConcat(a, x, init);
      assert x + y == (x + init) + [e];
      XorCellsAppend(a, x + init, e);
      XorAssoc(XorCells(a, x), XorCells(a, init), Cell(a, e));
    }
  }

  // ---- The difference of two stripes ----

  function XorStripes(a: seq<Column>, b: seq<Column>, rows: nat, cols: nat): (d: seq<Column>)
    requires IsMatrix(a, rows, cols) && IsMatrix(b, rows, cols)
    ensures IsMatrix(d, rows, cols)
    ensures forall j, i :: 0 <= j < cols && 0 <= i < rows ==> d[j][i] == Xor(a[j][i], b[j][i])
  {
    seq(cols, j requires 0 <= j < cols => seq(rows, i requires 0 <= i < rows => Xor(a[j][i], b[j][i])))
  }

  lemma {:induction false} XorCellsOfXor(a: seq<Column>, b: seq<Column>, rows: nat, cols: nat, cells: seq<Elem>)
    requires IsMatrix(a, rows, cols) && IsMatrix(b, rows, cols)
    ensures XorCells(XorStripes(a, b, rows, cols), cells) == Xor(XorCells(a, cells), XorCells(b, cells))
  {
    hide Xor;
    XorZero(0);
    if cells != [] {
      var init, e := cells[..|cells| - 1], cells[|cells| - 1];
      XorCellsOfXor(a, b, rows, cols, init);
      XorSwap(XorCells(a, init), XorCells(b, init), Cell(a, e), Cell(b, e));
    }
  }

  lemma {:induction false} RowXorOfXor(a: seq<Column>, b: seq<Column>, rows: nat, cols: nat, n: nat, i: nat)
    requires IsMatrix(a, rows, cols) && IsMatrix(b, rows, cols) && n <= cols && i < rows
    ensures RowXor(XorStripes(a, b, rows, cols), n, i) == Xor(RowXor(a, n, i), RowXor(b, n, i))
  {
    hide Xor;
    if n == 0 {
      XorZero(0);
    } else {
      RowXorOfXor(a, b, rows, cols, n - 1, i);
      XorSwap(RowXor(a, n - 1, i), RowXor(b, n - 1, i), a[n - 1][i], b[n - 1][i]);
    }
  }

  /** Stripes with zero difference are equal. */
  lemma ZeroDifference(a: seq<Column>, b: seq<Column>, rows: nat, cols: nat)
    requires IsMatrix(a, rows, cols) && IsMatrix(b, rows, cols)
    requires forall j, i :: 0 <= j < cols && 0 <= i < rows ==> XorStripes(a, b, rows, cols)[j][i] == 0
    ensures a == b
  {
    hide Xor;
    forall j | 0 <= j < cols ensures a[j] == b[j] {
      forall i | 0 <= i < rows ensures a[j][i] == b[j][i] {
        assert XorStripes(a, b, rows, cols)[j][i] == 0;
        XorCancel(a[j][i], b[j][i]);
        XorZero(b[j][i]);
      }
    }
  }

  // ---- Stripes that are zero outside columns x and y ----

  ghost predicate ZeroBut(a: seq<Column>, rows: nat, cols: nat, x: nat, y: nat)
    requires IsMatrix(a, rows, cols)
  {
    forall j, i :: 0 <= j < cols && 0 <= i < rows && j != x && j != y ==> a[j][i] == 0
  }

  lemma {:induction false} RowXorOfTwo(a: seq<Column>, rows: nat, cols: nat, x: nat, y: nat, n: nat, i: nat)
    requires IsMatrix(a, rows, cols) && x < y < cols && ZeroBut(a, rows, cols, x, y) && n <= cols && i < rows
    ensures RowXor(a, n, i) == Xor(if x < n then a[x][i] else 0, if y < n then a[y][i] else 0)
  {
    hide Xor;
    if n == 0 {
      XorZero(0);
    } else {
      RowXorOfTwo(a, rows, cols, x, y, n - 1, i);
      XorZero(RowXor(a, n - 1, i));
      XorZero(a[x][i]);
      if n - 1 == x { XorZero(a[x][i]); XorZero(0); }
    }
  }

  /** A column of a stripe whose rows are numbered mod p, with the missing last row zero. */
  function Virtual(col: Column): (u: Column)
    ensures |u| == |col| + 1 && u[|col|] == 0 && forall i :: 0 <= i < |col| ==> u[i] == col[i]
  {
    col + [0]
  }

  /** Two stripes that agree on every column but x and y. */
  ghost predicate AgreeBut(a: seq<Column>, b: seq<Column>, x: nat, y: nat) {
    |a| == |b| && forall j :: 0 <= j < |a| && j != x && j != y ==> a[j] == b[j]
  }

  lemma DifferenceZeroBut(a: seq<Column>, b: seq<Column>, rows: nat, cols: nat, x: nat, y: nat)
    requires IsMatrix(a, rows, cols) && IsMatrix(b, rows, cols) && AgreeBut(a, b, x, y)
    ensures ZeroBut(XorStripes(a, b, rows, cols), rows, cols, x, y)
  {
    hide Xor;
    forall j, i | 0 <= j < cols && 0 <= i < rows && j != x && j != y
      ensures XorStripes(a, b, rows, cols)[j][i] == 0
    {
      XorZero(a[j][i]);
    }
  }

  /** A stripe of zeros except for column u, which it holds twice. */
  function Twice(u: Column, x: nat, y: nat, cols: nat): (c: seq<Column>)
    ensures IsMatrix(c, |u|, cols)
    ensures forall j, i :: 0 <= j < cols && 0 <= i < |u| ==> c[j][i] == if j == x || j == y then u[i] else 0
  {
    seq(cols, j requires 0 <= j < cols => if j == x || j == y then u else seq(|u|, _ => 0))
  }

  /** Adding x to one cell adds it once for each time the cell is listed. Columns from z on
      may change in any way if no listed cell lies there. */
  lemma {:induction false} XorCellsAdd(
      a: seq<Column>, b: seq<Column>, rows: nat, cols: nat, z: nat, e: Elem, x: Block, cells: seq<Elem>)
    requires IsMatrix(a, rows, cols) && IsMatrix(b, rows, cols) && z <= cols && e.row < rows && e.col < z
    requires forall j, i :: 0 <= j < z && 0 <= i < rows ==>
      b[j][i] == if j == e.col && i == e.row then Xor(a[j][i], x) else a[j][i]
    requires forall i :: 0 <= i < |cells| ==> cells[i].col < z
    ensures XorCells(b, cells) == Xor(XorCells(a, cells), Toggle(multiset(cells)[e], x))
  {
    hide Xor, Toggle;
    if cells == [] {
      NoToggle(0, x);
    } else {
      var init, f := cells[..|cells| - 1], cells[|cells| - 1];
      assert cells == init + [f];
      XorCellsAdd(a, b, rows, cols, z, e, x, init);
      var s, t, y := XorCells(a, init), Toggle(multiset(init)[e], x), Cell(a, f);
      if f == e {
        XorAssoc(Xor(s, t), y, x);
        XorRight(s, t, y);
        ToggleOnce(Xor(s, y), multiset(init)[e], x);
      } else {
        assert Cell(b, f) == y;
        XorRight(s, t, y);
      }
    }
  }

  /** The sum depends only on the columns that the listed cells lie in. */
  lemma {:induction false} XorCellsAgree(a: seq<Column>, b: seq<Column>, z: nat, cells: seq<Elem>)
    requires z <= |a| && z <= |b| && forall j :: 0 <= j < z ==> a[j] == b[j]
    requires forall i :: 0 <= i < |cells| ==> cells[i].col < z
    ensures XorCells(a, cells) == XorCells(b, cells)
  {
    if cells != [] { XorCellsAgree(a, b, z, cells[..|cells| - 1]); }
  }

  /** The row in which diagonal l meets column t, numbering rows mod k. */
  function RowOn(k: nat, l: int, t: nat): (r: nat)
    requires k > 0
    ensures r < k
  {
    (l - t) % k
  }

  /** Cell (i, j) lies on diagonal l. */
  lemma OnDiagonal(k: nat, l: nat, i: nat, j: nat)
    requires l < k && i < k
    ensures RowOn(k, l, j) == i <==> (i + j) % k == l
  {
    if RowOn(k, l, j) == i {
      var q := (l - j) / k;
      assert i + j == l - q * k;
      DivMod(i + j, -q, l, k);
    }
    if (i + j) % k == l {
      var q := (i + j) / k;
      assert l - j == i - q * k;
      DivMod(l - j, -q, i, k);
    }
  }

  /** The row that the tables compute with a remainder that may be negative. */
  lemma FixedMod(i: nat, t: nat, k: nat)
    requires i < k && t < k
    ensures var first := TruncMod(i - t, k); (if first >= 0 then first else first + k) == RowOn(k, i, t)
  {
    if i >= t {
      SmallMod(i - t, k);
    } else {
      SmallMod(t - i, k);
      SmallMod(i - t + k, k);
      AddMultiple(i - t, 1, k);
    }
  }

  /** Every second, third, ... entry of a column. */
  function Every(g: nat, n: nat): (u: Column)
    requires g > 0
    ensures |u| == n && forall i :: 0 <= i < n ==> u[i] == if i % g == 0 then 1 else 0
  {
    seq(n, i => if i % g == 0 then 1 else 0)
  }

  lemma DivisorTerms(k: nat, g: nat, l: nat)
    requires 2 <= g < k && k % g == 0 && l < k - 1
    ensures
      var u := Virtual(Every(g, k - 1));
      At(u, k - 1) == 0 && At(u, k - 1 - g) == 0 && At(u, l) == At(u, l - g) == u[l]
  {
    hide At, Virtual;
    var u := Virtual(Every(g, k - 1));
    AtInside(u, k - 1);
    AtInside(u, k - 1 - g);
    AtInside(u, l);
    LastResidue(k, g);
    var m := if l >= g then l - g else l - g + k;
    SameResidue(k, g, l);
    AtPeriod(u, l - g, 1);
    AtInside(u, m);
    if m == k - 1 { SmallMod(l, g); }
  }

  lemma SameResidue(k: nat, g: nat, l: nat)
    requires 2 <= g < k && k % g == 0 && l < k - 1
    ensures (if l >= g then l - g else l - g + k) % g == l % g
  {
    if l >= g {
      AddMultiple(l - g, 1, g);
    } else {
      assert l - g + k == l + (k / g - 1) * g;
      AddMultiple(l, k / g - 1, g);
    }
  }

  lemma LastResidue(k: nat, g: nat)
    requires 2 <= g < k && k % g == 0
    ensures (k - 1 - g) % g == g - 1
  {
    var n := k / g;
    assert k - 1 - g == (n - 2) * g + (g - 1);
    DivMod(k - 1 - g, n - 2, g - 1, g);
  }
}
