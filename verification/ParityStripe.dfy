/** The in-memory stripe that EVENODD and RDP share, with its relation table. */
module ParityStripe {
  import opened Bits
  import opened Blocks
  import opened Diagonals

  /** For a cell, the cells related to it by the parity equations. */
  type Table = map<Elem, seq<Elem>>

  function Related(table: Table, e: Elem): seq<Elem> {
    if e in table then table[e] else []
  }

  /** The table after y has been appended to the cells related to x. */
  function Push(table: Table, x: Elem, y: Elem): (t: Table)
    ensures Related(t, x) == Related(table, x) + [y]
    ensures forall e :: e != x ==> Related(t, e) == Related(table, e)
    ensures forall a, b :: Count(t, a, b) == Count(table, a, b) + if a == x && b == y then 1 else 0
  {
    table[x := Related(table, x) + [y]]
  }

  /** How often the table lists y for x. */
  function Count(table: Table, x: Elem, y: Elem): nat {
    multiset(Related(table, x))[y]
  }

  /** The cells of two columns, the later of them P or Q, list each other equally often. */
  ghost predicate Symmetric(table: Table, p: nat) {
    forall d: Elem, q: Elem :: d.col < q.col && p <= q.col ==> Count(table, d, q) == Count(table, q, d)
  }

  /** The cells that the table lists for row l of the last column. */
  function QList(table: Table, l: nat, col: nat): seq<Elem>
    requires col > 0
  {
    Related(table, Elem(l, col - 1))
  }

  lemma PushQ(table: Table, x: Elem, y: Elem, col: nat)
    requires col > 0
    ensures forall l ::
      QList(Push(table, x, y), l, col) == QList(table, l, col) + if x == Elem(l, col - 1) then [y] else []
  {
  }

  /** Q cells below the stripe are related to nothing. */
  ghost predicate NoneBelow(table: Table, row: nat, col: nat) {
    forall q: Elem :: q.col + 1 == col && q.row >= row ==> Related(table, q) == []
  }

  lemma PushNoneBelow(table: Table, row: nat, col: nat, x: Elem, y: Elem)
    requires NoneBelow(table, row, col) && (x.col + 1 == col ==> x.row < row)
    ensures NoneBelow(Push(table, x, y), row, col)
  {
  }

  /** Relating a cell and a parity cell to each other keeps the table symmetric. */
  lemma PushBoth(table: Table, p: nat, x: Elem, y: Elem)
    requires Symmetric(table, p) && x.col < y.col && p <= y.col
    ensures Symmetric(Push(Push(table, x, y), y, x), p)
  {
    hide Related, Push;
  }

  lemma EmptyTable(row: nat, col: nat)
    requires col > 1
    ensures NoneBelow(map[], row, col) && Symmetric(map[], col - 2) && forall l :: QList(map[], l, col) == []
  {
  }

  /** Relates a data or P cell and a parity cell to each other. */
  method Both(table: Table, row: nat, col: nat, d: Elem, q: Elem) returns (t: Table)
    requires col >= 3 && d.col < q.col && col - 2 <= q.col && d.col < col - 1 && (q.col + 1 == col ==> q.row < row)
    requires NoneBelow(table, row, col) && Symmetric(table, col - 2)
    ensures NoneBelow(t, row, col) && Symmetric(t, col - 2)
    ensures forall l ::
      QList(t, l, col) == if q == Elem(l, col - 1) then QList(table, l, col) + [d] else QList(table, l, col)
    ensures forall x, y ::
      Count(t, x, y) == Count(table, x, y) + if (x == d && y == q) || (x == q && y == d) then 1 else 0
  {
    hide QList, Push, Related, Count, NoneBelow, Symmetric;
    PushQ(table, d, q, col);
    PushNoneBelow(table, row, col, d, q);
    PushBoth(table, col - 2, d, q);
    t := Push(table, d, q);
    PushQ(t, q, d, col);
    PushNoneBelow(t, row, col, q, d);
    t := Push(t, q, d);
  }

  /** Each data cell of the rows before i, and of row i before column j, and the P cell of its
      row list each other once, and no other data and P cells list each other. */
  ghost predicate RowsRelated(table: Table, k: nat, i: nat, j: nat) {
    forall d: Elem, p: Elem :: d.col < k && p.col == k ==>
      Count(table, d, p) == Count(table, p, d) ==
        if p.row == d.row && (d.row < i || (d.row == i && d.col < j)) then 1 else 0
  }

  lemma NoRowsRelated(k: nat)
    ensures RowsRelated(map[], k, 0, 0)
  {
  }

  lemma NextRowsRelated(table: Table, t: Table, k: nat, i: nat, j: nat)
    requires RowsRelated(table, k, i, j) && j < k
    requires
      var d, p := Elem(i, j), Elem(i, k);
      forall x, y :: Count(t, x, y) == Count(table, x, y) + if (x == d && y == p) || (x == p && y == d) then 1 else 0
    ensures RowsRelated(t, k, i, j + 1) && (j + 1 == k ==> RowsRelated(t, k, i + 1, 0))
  {
    hide Count;
  }

  /** Relating cells to Q cells leaves the P cells alone. */
  lemma SameRowsRelated(table: Table, t: Table, k: nat, i: nat, j: nat)
    requires RowsRelated(table, k, i, j)
    requires forall x: Elem, y: Elem :: x.col <= k && y.col <= k ==> Count(t, x, y) == Count(table, x, y)
    ensures RowsRelated(t, k, i, j)
  {
    hide Count;
  }

  /** The rows of the Q cells that the table relates to e. */
  method QRowsOf(table: Table, e: Elem, col: nat) returns (rows: seq<nat>)
    requires col > 0
    ensures forall r: nat :: multiset(rows)[r] == Count(table, e, Elem(r, col - 1))
  {
    var list := Related(table, e);
    rows := [];
    for i := 0 to |list|
      invariant forall r: nat :: multiset(rows)[r] == multiset(list[..i])[Elem(r, col - 1)]
    {
      assert list[..i + 1] == list[..i] + [list[i]];
      if list[i].col == col - 1 { rows := rows + [list[i].row]; }
    }
    assert list[..|list|] == list;
  }

  /** The table relates Q cells only to cells of the columns before Q. */
  ghost predicate TableOk(table: Table, row: nat, col: nat)
    requires col > 0
  {
    forall l, i :: 0 <= l < row && 0 <= i < |QList(table, l, col)| ==>
      var e := QList(table, l, col)[i]; e.row < row && e.col < col - 1
  }

  /** P and Q are still zero. */
  ghost predicate NoParityYet(c: seq<Column>, row: nat, k: nat) {
    IsMatrix(c, row, k + 2) && forall i :: 0 <= i < row ==> c[k][i] == 0 && c[k + 1][i] == 0
  }

  /** P has had the XOR of the data columns added; nothing else has changed. */
  ghost predicate PAdded(was: seq<Column>, now: seq<Column>, row: nat, col: nat) {
    col >= 2 && IsMatrix(was, row, col) && IsMatrix(now, row, col) &&
    (forall j :: 0 <= j < col && j != col - 2 ==> now[j] == was[j]) &&
    var p := now[col - 2];
    forall i :: 0 <= i < row ==> p[i] == Xor(was[col - 2][i], RowXor(was, col - 2, i))
  }

  /** Each Q cell has had the cells added that the table lists for it; nothing else has changed. */
  ghost predicate QAdded(table: Table, was: seq<Column>, now: seq<Column>, row: nat, col: nat) {
    col >= 2 && IsMatrix(was, row, col) && IsMatrix(now, row, col) &&
    (forall j :: 0 <= j < col - 1 ==> now[j] == was[j]) &&
    var q := now[col - 1];
    forall i :: 0 <= i < row ==> q[i] == Xor(was[col - 1][i], XorCells(was, QList(table, i, col)))
  }

  /** Data columns, then P, then Q. */
  class ParityMatrix {
    const row: nat
    const col: nat
    const matrix: array2<Block>
    const table: Table

    ghost predicate Valid() {
      col >= 2 && matrix.Length0 == row && matrix.Length1 == col && TableOk(table, row, col)
    }

    constructor (row: nat, col: nat, table: Table)
      requires col >= 2 && TableOk(table, row, col)
      ensures Valid() && this.row == row && this.col == col && this.table == table && fresh(matrix)
      ensures forall j, i :: 0 <= j < col && 0 <= i < row ==> Contents()[j][i] == 0
    {
      this.row, this.col, this.table := row, col, table;
      matrix := new Block[row, col]((_, _) => 0);
    }

    ghost function Contents(): (c: seq<Column>)
      requires Valid()
      reads matrix
      ensures IsMatrix(c, row, col)
      ensures forall j, i :: 0 <= j < col && 0 <= i < row ==> c[j][i] == matrix[i, j]
    {
      seq(col, j requires 0 <= j < col reads matrix =>
        seq(row, i requires 0 <= i < row reads matrix => matrix[i, j]))
    }

    /** Sets the data columns, row by row. */
    method Fill(data: seq<Column>)
      requires Valid() && IsMatrix(data, row, col - 2)
      modifies matrix
      ensures forall j, i :: 0 <= j < col && 0 <= i < row ==>
        Contents()[j][i] == if j < col - 2 then data[j][i] else old(Contents())[j][i]
    {
      for i := 0 to row
        invariant forall m, j :: 0 <= m < row && 0 <= j < col ==>
          matrix[m, j] == if j < col - 2 && m < i then data[j][m] else old(matrix[m, j])
      {
        for j := 0 to col - 2
          invariant forall m, n :: 0 <= m < row && 0 <= n < col ==>
            matrix[m, n] ==
              if n < col - 2 && (m < i || (m == i && n < j)) then data[n][m] else old(matrix[m, n])
        {
          matrix[i, j] := data[j][i];
        }
      }
    }

    /** Adds to P the XOR of the data columns. */
    method GenP()
      requires Valid()
      modifies matrix
      ensures PAdded(old(Contents()), Contents(), row, col)
    {
      hide Xor;
      ghost var c := Contents();
      for i := 0 to row
        invariant forall m, j :: 0 <= m < row && 0 <= j < col ==>
          matrix[m, j] == if j == col - 2 && m < i then Xor(c[j][m], RowXor(c, col - 2, m)) else c[j][m]
      {
        XorZero(c[col - 2][i]);
        for j := 0 to col - 2
          invariant matrix[i, col - 2] == Xor(c[col - 2][i], RowXor(c, j, i))
          invariant forall m, n :: 0 <= m < row && 0 <= n < col && (m != i || n != col - 2) ==>
            matrix[m, n] == if n == col - 2 && m < i then Xor(c[n][m], RowXor(c, col - 2, m)) else c[n][m]
        {
          XorAssoc(c[col - 2][i], RowXor(c, j, i), c[j][i]);
          matrix[i, col - 2] := Xor(matrix[i, col - 2], matrix[i, j]);
        }
      }
      OnlyColumn(c, col - 2);
    }

    /** Adds to one Q cell the XOR of the cells the table lists for it. */
    method GenQCell(i: nat)
      requires Valid() && i < row
      modifies matrix
      ensures matrix[i, col - 1] == Xor(old(matrix[i, col - 1]), XorCells(old(Contents()), QList(table, i, col)))
      ensures forall m, n :: 0 <= m < row && 0 <= n < col && (m != i || n != col - 1) ==>
        matrix[m, n] == old(matrix[m, n])
    {
      hide Xor, XorCells, QList;
      ghost var c := Contents();
      var cells := QList(table, i, col);
      XorCellsNone(c);
      XorZero(c[col - 1][i]);
      for x := 0 to |cells|
        invariant matrix[i, col - 1] == Xor(c[col - 1][i], XorCells(c, cells[..x]))
        invariant forall m, n :: 0 <= m < row && 0 <= n < col && (m != i || n != col - 1) ==> matrix[m, n] == c[n][m]
      {
        var e := cells[x];
        XorCellsAppend(c, cells[..x], e);
        XorAssoc(c[col - 1][i], XorCells(c, cells[..x]), c[e.col][e.row]);
        assert cells[..x + 1] == cells[..x] + [e];
        matrix[i, col - 1] := Xor(matrix[i, col - 1], matrix[e.row, e.col]);
      }
      assert cells[..|cells|] == cells;
    }

    /** Adds to each Q cell the XOR of the cells the table lists for it. */
    method GenQ()
      requires Valid()
      modifies matrix
      ensures QAdded(table, old(Contents()), Contents(), row, col)
    {
      hide Xor, XorCells, QList;
      ghost var c := Contents();
      ghost var z := col - 1;
      for i := 0 to row
        invariant forall m, j :: 0 <= m < row && 0 <= j < col && (j != z || m >= i) ==> matrix[m, j] == c[j][m]
        invariant forall m :: 0 <= m < i ==> matrix[m, z] == Xor(c[z][m], XorCells(c, QList(table, m, col)))
      {
        ghost var d := Contents();
        GenQCell(i);
        OnlyColumnsBefore(c, d, z);
        QListCovered(c, d, i);
      }
      OnlyColumn(c, z);
    }

    lemma OnlyColumnsBefore(c: seq<Column>, d: seq<Column>, z: nat)
      requires IsMatrix(c, row, col) && IsMatrix(d, row, col) && z < col
      requires forall i, j :: 0 <= i < row && 0 <= j < col && j != z ==> d[j][i] == c[j][i]
      ensures forall j :: 0 <= j < col && j != z ==> d[j] == c[j]
    {
      forall j | 0 <= j < col && j != z ensures d[j] == c[j] {
        forall i | 0 <= i < row ensures d[j][i] == c[j][i] {}
      }
    }

    lemma QListCovered(c: seq<Column>, d: seq<Column>, i: nat)
      requires Valid() && IsMatrix(c, row, col) && IsMatrix(d, row, col) && i < row
      requires forall j :: 0 <= j < col - 1 ==> d[j] == c[j]
      ensures XorCells(d, QList(table, i, col)) == XorCells(c, QList(table, i, col))
    {
      XorCellsAgree(d, c, col - 1, QList(table, i, col));
    }

    lemma OnlyColumn(c: seq<Column>, z: nat)
      requires Valid() && IsMatrix(c, row, col)
      requires forall i, j :: 0 <= i < row && 0 <= j < col && j != z ==> matrix[i, j] == c[j][i]
      ensures forall j :: 0 <= j < col && j != z ==> Contents()[j] == c[j]
    {
      forall j | 0 <= j < col && j != z ensures Contents()[j] == c[j] {
        forall i | 0 <= i < row ensures Contents()[j][i] == c[j][i] {}
      }
    }

    /** One cell of a data or P column, from the others of its row. */
    method RepairFromRow(id: nat, i: nat) returns (ret: Block)
      requires Valid() && id < col - 1 && i < row
      ensures ret == RowXorBut(Contents(), id, col - 1, i)
    {
      ret := 0;
      for j := 0 to col - 1
        invariant ret == RowXorBut(Contents(), id, j, i)
      {
        if j != id { ret := Xor(ret, matrix[i, j]); }
      }
    }

    /** One cell of Q, from the cells the table lists for it. */
    method RepairQ(i: nat) returns (ret: Block)
      requires Valid() && i < row
      ensures ret == XorCells(Contents(), QList(table, i, col))
    {
      var cells := QList(table, i, col);
      ret := 0;
      for x := 0 to |cells|
        invariant ret == XorCells(Contents(), cells[..x])
      {
        var e := cells[x];
        XorCellsAppend(Contents(), cells[..x], e);
        assert cells[..x + 1] == cells[..x] + [e];
        ret := Xor(ret, matrix[e.row, e.col]);
      }
      assert cells[..|cells|] == cells;
    }

    /** The column that one disk must hold, from the others; none for an unknown disk. */
    method Repair(id: int) returns (disk: seq<Block>)
      requires Valid()
      ensures |disk| == if 0 <= id < col then row else 0
      ensures forall i :: 0 <= i < |disk| ==>
        disk[i] ==
          if id < col - 1 then RowXorBut(Contents(), id, col - 1, i)
          else XorCells(Contents(), QList(table, i, col))
    {
      hide Xor, RowXorBut, XorCells, QList;
      disk := [];
      if id < 0 || id >= col { return; }
      for i := 0 to row
        invariant |disk| == i
        invariant forall m :: 0 <= m < i ==>
          disk[m] ==
            if id < col - 1 then RowXorBut(Contents(), id, col - 1, m)
            else XorCells(Contents(), QList(table, m, col))
      {
        var ret;
        if id != col - 1 { ret := RepairFromRow(id, i); } else { ret := RepairQ(i); }
        disk := disk + [ret];
      }
    }
  }
}
