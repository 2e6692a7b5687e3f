/** The EVENODD coding layer: its relation table, generating parity in memory, and reading
    and writing blocks on disk. */
module Evenodd {
  import opened Bits
  import opened Blocks
  import opened Diagonals
  import opened EvenoddCode
  import opened IntMod
  import opened Ncfs
  import opened ParityStripe
  import opened StripWrite

  /** The relation table for k data columns. */
  method ElemsRelatedElems(row: nat, col: nat) returns (table: Table)
    requires col >= 3 && row == col - 3
    ensures forall l :: 0 <= l < row ==> QList(table, l, col) == QCells(col - 2, l)
    ensures NoneBelow(table, row, col) && Symmetric(table, col - 2)
    ensures forall d: Elem, p: Elem :: d.row < row && d.col < col - 2 && p.row < row && p.col == col - 2 ==>
      Count(table, d, p) == Count(table, p, d) == if p.row == d.row then 1 else 0
    ensures forall d: Elem, q: Elem :: d.row < row && d.col < col - 2 && q.row < row && q.col == col - 1 ==>
      Count(table, d, q) == Count(table, q, d) ==
        (if d.row + d.col == col - 3 then 1 else 0) + (if (d.row + d.col) % (col - 2) == q.row then 1 else 0)
  {
    hide RowsRelated, QCells, DiagCells, LineCells, QList, Push, Related, Count, NoneBelow, Symmetric;
    var k := col - 2;
    table := map[];
    EmptyTable(row, col);
    NoDiag(k);
    NoRowsRelated(k);
    for i := 0 to row
      invariant forall l :: 0 <= l < row ==> QList(table, l, col) == DiagCells(k, i)
      invariant NoneBelow(table, row, col) && Symmetric(table, k) && RowsRelated(table, k, i, 0)
    {
      var p := Elem(i, col - 2);
      for j := 0 to k
        invariant forall l :: 0 <= l < row ==> QList(table, l, col) == DiagCells(k, if k - 1 - i < j then i + 1 else i)
        invariant NoneBelow(table, row, col) && Symmetric(table, k)
        invariant if j < k then RowsRelated(table, k, i, j) else RowsRelated(table, k, i + 1, 0)
      {
        var d := Elem(i, j);
        ghost var was := table;
        table := Both(table, row, col, d, p);
        NextRowsRelated(was, table, k, i, j);
        if i + j == k - 1 {
          was := table;
          table := AddDiag(table, row, col, d, DiagCells(k, i));
          if j + 1 < k { SameRowsRelated(was, table, k, i, j + 1); } else { SameRowsRelated(was, table, k, i + 1, 0); }
          DiagStep(k, i);
        }
      }
    }
    for i := 0 to row
      invariant forall l :: 0 <= l < row ==> QList(table, l, col) == if l < i then QCells(k, l) else DiagCells(k, k - 1)
      invariant NoneBelow(table, row, col) && Symmetric(table, k) && RowsRelated(table, k, row, 0)
    {
      var q := Elem(i, col - 1);
      NoLineCells(k, i);
      assert DiagCells(k, k - 1) + [] == DiagCells(k, k - 1);
      for t := 0 to k
        invariant forall l :: 0 <= l < row ==>
          QList(table, l, col) ==
            if l < i then QCells(k, l)
            else if l == i then DiagCells(k, k - 1) + LineCells(k, i, t)
            else DiagCells(k, k - 1)
        invariant NoneBelow(table, row, col) && Symmetric(table, k) && RowsRelated(table, k, row, 0)
      {
        var first := TruncMod(i - t, k);
        first := if first >= 0 then first else first + k;
        FixedMod(i, t, k);
        LineCellsStep(k, DiagCells(k, k - 1), i, t);
        if first >= 0 && first < row {
          ghost var was := table;
          table := Both(table, row, col, Elem(first, t), q);
          SameRowsRelated(was, table, k, row, 0);
        }
      }
      QCellsAre(k, i);
    }
    TableCounts(k, table);
  }

  /** How often the finished table lists each data cell and each parity cell for each other. */
  lemma TableCounts(k: nat, table: Table)
    requires k > 0 && Symmetric(table, k) && RowsRelated(table, k, k - 1, 0)
    requires forall l :: 0 <= l < k - 1 ==> QList(table, l, k + 2) == QCells(k, l)
    ensures forall d: Elem, p: Elem :: d.row < k - 1 && d.col < k && p.row < k - 1 && p.col == k ==>
      Count(table, d, p) == Count(table, p, d) == if p.row == d.row then 1 else 0
    ensures forall d: Elem, q: Elem :: d.row < k - 1 && d.col < k && q.row < k - 1 && q.col == k + 1 ==>
      Count(table, d, q) == Count(table, q, d) ==
        (if d.row + d.col == k - 1 then 1 else 0) + (if (d.row + d.col) % k == q.row then 1 else 0)
  {
    hide QCells, Count, QList, Symmetric;
    forall d: Elem, q: Elem | d.row < k - 1 && d.col < k && q.row < k - 1 && q.col == k + 1
      ensures Count(table, d, q) == Count(table, q, d)
      ensures Count(table, q, d) ==
        (if d.row + d.col == k - 1 then 1 else 0) + (if (d.row + d.col) % k == q.row then 1 else 0)
    {
      QCellCount(k, table, d, q);
    }
  }

  lemma QCellCount(k: nat, table: Table, d: Elem, q: Elem)
    requires k > 0 && Symmetric(table, k) && d.row < k - 1 && d.col < k && q.row < k - 1 && q.col == k + 1
    requires QList(table, q.row, k + 2) == QCells(k, q.row)
    ensures Count(table, d, q) == Count(table, q, d)
    ensures Count(table, q, d) ==
      (if d.row + d.col == k - 1 then 1 else 0) + (if (d.row + d.col) % k == q.row then 1 else 0)
  {
    hide QCells;
    assert q == Elem(q.row, k + 1) && d == Elem(d.row, d.col);
    assert QList(table, q.row, k + 2) == Related(table, q);
    QCount(k, q.row, d.row, d.col);
  }

  /** Relates diagonal cell d to every Q cell. */
  method AddDiag(table: Table, row: nat, col: nat, d: Elem, ghost before: seq<Elem>) returns (t: Table)
    requires col >= 3 && d.col < col - 2 && NoneBelow(table, row, col) && Symmetric(table, col - 2)
    requires forall l :: 0 <= l < row ==> QList(table, l, col) == before
    ensures forall l :: 0 <= l < row ==> QList(t, l, col) == before + [d]
    ensures NoneBelow(t, row, col) && Symmetric(t, col - 2)
    ensures forall x: Elem, y: Elem :: x.col <= col - 2 && y.col <= col - 2 ==> Count(t, x, y) == Count(table, x, y)
  {
    hide QList, Push, Related, NoneBelow, Count;
    t := table;
    for l := 0 to row
      invariant forall x: Elem, y: Elem :: x.col <= col - 2 && y.col <= col - 2 ==> Count(t, x, y) == Count(table, x, y)
      invariant NoneBelow(t, row, col) && forall m :: QList(t, m, col) == QList(table, m, col)
      invariant forall e: Elem, q: Elem :: e.col < q.col && col - 2 <= q.col ==>
        Count(t, e, q) == Count(t, q, e) + if e == d && q.col == col - 1 && q.row < l then 1 else 0
    {
      PushQ(t, d, Elem(l, col - 1), col);
      PushNoneBelow(t, row, col, d, Elem(l, col - 1));
      t := Push(t, d, Elem(l, col - 1));
    }
    for l := 0 to row
      invariant forall x: Elem, y: Elem :: x.col <= col - 2 && y.col <= col - 2 ==> Count(t, x, y) == Count(table, x, y)
      invariant NoneBelow(t, row, col)
      invariant forall m :: 0 <= m < row ==> QList(t, m, col) == if m < l then before + [d] else before
      invariant forall e: Elem, q: Elem :: e.col < q.col && col - 2 <= q.col ==>
        Count(t, e, q) == Count(t, q, e) + if e == d && q.col == col - 1 && l <= q.row < row then 1 else 0
    {
      PushQ(t, Elem(l, col - 1), d, col);
      PushNoneBelow(t, row, col, Elem(l, col - 1), d);
      t := Push(t, Elem(l, col - 1), d);
    }
  }

  lemma NoDiag(k: nat)
    requires k > 0
    ensures DiagCells(k, 0) == []
  {
  }

  lemma DiagStep(k: nat, i: nat)
    requires i + 1 < k
    ensures DiagCells(k, i + 1) == DiagCells(k, i) + [Elem(i, k - 1 - i)]
  {
  }

  lemma LineCellsStep(k: nat, start: seq<Elem>, l: nat, t: nat)
    requires k > 0
    ensures start + LineCells(k, l, t + 1) ==
      if RowOn(k, l, t) < k - 1 then (start + LineCells(k, l, t)) + [Elem(RowOn(k, l, t), t)]
      else start + LineCells(k, l, t)
  {
    assert LineCells(k, l, t) + [] == LineCells(k, l, t);
    var e := Elem(RowOn(k, l, t), t);
    assert start + (LineCells(k, l, t) + [e]) == (start + LineCells(k, l, t)) + [e];
  }

  lemma QCellsAre(k: nat, l: nat)
    requires k > 0
    ensures QCells(k, l) == DiagCells(k, k - 1) + LineCells(k, l, k)
  {
  }

  // ---- Generating parity in memory ----

  lemma {:induction false} DiagInData(k: nat, n: nat, i: nat)
    requires n < k && i < |DiagCells(k, n)|
    ensures var e := DiagCells(k, n)[i]; e.row < k - 1 && e.col < k
  {
    if i < |DiagCells(k, n - 1)| { DiagInData(k, n - 1, i); }
  }

  lemma {:induction false} LineInData(k: nat, l: nat, n: nat, i: nat)
    requires 0 < k && n <= k && i < |LineCells(k, l, n)|
    ensures var e := LineCells(k, l, n)[i]; e.row < k - 1 && e.col < k
  {
    if i < |LineCells(k, l, n - 1)| { LineInData(k, l, n - 1, i); }
  }

  lemma QInData(k: nat, l: nat)
    requires k > 0
    ensures forall i :: 0 <= i < |QCells(k, l)| ==> var e := QCells(k, l)[i]; e.row < k - 1 && e.col < k
  {
    forall i | 0 <= i < |QCells(k, l)| ensures var e := QCells(k, l)[i]; e.row < k - 1 && e.col < k {
      var n := |DiagCells(k, k - 1)|;
      if i < n { DiagInData(k, k - 1, i); } else { LineInData(k, l, k, i - n); }
    }
  }

  /** The stripe in memory, with its relation table, for k data columns. */
  method NewStripe(k: nat) returns (m: ParityMatrix)
    requires k > 0
    ensures fresh(m) && fresh(m.matrix) && m.Valid() && IsEvenodd(k, m)
    ensures forall j, i :: 0 <= j < k + 2 && 0 <= i < k - 1 ==> m.Contents()[j][i] == 0
  {
    var table := ElemsRelatedElems(k - 1, k + 2);
    forall l | 0 <= l < k - 1 ensures QList(table, l, k + 2) == QCells(k, l) { QInData(k, l); }
    TableOkFromCells(k, table);
    m := new ParityMatrix(k - 1, k + 2, table);
  }

  lemma TableOkFromCells(k: nat, table: Table)
    requires k > 0 && forall l :: 0 <= l < k - 1 ==> QList(table, l, k + 2) == QCells(k, l)
    ensures TableOk(table, k - 1, k + 2)
  {
    hide QCells, QList;
    var col := k + 2;
    forall l, i | 0 <= l < k - 1 && 0 <= i < |QList(table, l, col)|
      ensures var e := QList(table, l, col)[i]; e.row < k - 1 && e.col < k + 1
    {
      QInData(k, l);
      assert QList(table, l, col)[i] == QCells(k, l)[i];
    }
  }

  ghost predicate IsEvenodd(k: nat, m: ParityMatrix) {
    k > 0 && m.row == k - 1 && m.col == k + 2 &&
    forall l :: 0 <= l < k - 1 ==> QList(m.table, l, k + 2) == QCells(k, l)
  }

  /** gen_p and then gen_q, on a stripe whose P and Q are still zero, make it a codeword and
      leave the data alone. */
  method Generate(k: nat, m: ParityMatrix)
    requires m.Valid() && IsEvenodd(k, m)
    requires NoParityYet(m.Contents(), k - 1, k)
    modifies m.matrix
    ensures IsCodeword(k, m.Contents())
    ensures forall j :: 0 <= j < k ==> m.Contents()[j] == old(m.Contents())[j]
  {
    hide QCells, QList, PAdded, QAdded, NoParityYet;
    ghost var a := m.Contents();
    m.GenP();
    ghost var b := m.Contents();
    m.GenQ();
    GeneratedIsCodeword(k, m.table, a, b, m.Contents());
  }

  lemma GeneratedIsCodeword(k: nat, table: Table, a: seq<Column>, b: seq<Column>, c: seq<Column>)
    requires k > 0 && PAdded(a, b, k - 1, k + 2) && QAdded(table, b, c, k - 1, k + 2)
    requires NoParityYet(a, k - 1, k)
    requires forall l :: 0 <= l < k - 1 ==> QList(table, l, k + 2) == QCells(k, l)
    ensures IsCodeword(k, c) && forall j :: 0 <= j < k ==> c[j] == a[j]
  {
    hide QCells, QList, XorCells, RowXor, Xor;
    var p, q, bp := c[k], c[k + 1], b[k];
    forall i | 0 <= i < k - 1 ensures p[i] == RowXor(c, k, i) && q[i] == XorCells(c, QCells(k, i)) {
      assert QList(table, i, k + 2) == QCells(k, i);
      assert bp[i] == Xor(a[k][i], RowXor(a, k, i));
      RowXorAgree(a, c, k, i);
      QInData(k, i);
      XorCellsAgree(b, c, k, QCells(k, i));
      XorZero(RowXor(a, k, i));
      XorZero(XorCells(b, QCells(k, i)));
    }
  }

  /** Repairing any one disk of a generated stripe returns that disk. */
  method RepairDisk(k: nat, m: ParityMatrix, id: nat) returns (disk: seq<Block>)
    requires m.Valid() && IsEvenodd(k, m) && IsCodeword(k, m.Contents()) && id < k + 2
    ensures disk == m.Contents()[id]
  {
    hide QCells, QList, XorCells, RowXor, RowXorBut, Xor;
    disk := m.Repair(id);
    ghost var c := m.Contents();
    ghost var p, q := c[k], c[k + 1];
    forall i | 0 <= i < k - 1 ensures disk[i] == c[id][i] {
      if id <= k { RowOfOthers(k, k - 1, c, id, i); }
      assert q[i] == XorCells(c, QCells(k, i));
    }
  }

  /** A new stripe is filled with data and generated, and one disk of it is repaired. */
  method StripeComesBack(k: nat, data: seq<Column>, id: nat) returns (disk: seq<Block>, ghost c: seq<Column>)
    requires k > 0 && IsMatrix(data, k - 1, k) && id < k + 2
    ensures IsCodeword(k, c) && c[..k] == data && disk == c[id]
  {
    hide IsCodeword, IsEvenodd, XorCells;
    var m := NewStripe(k);
    IsStripe(k, m);
    m.Fill(data);
    Generate(k, m);
    c := m.Contents();
    SameColumns(c[..k], data);
    disk := RepairDisk(k, m, id);
  }

  lemma IsStripe(k: nat, m: ParityMatrix)
    requires IsEvenodd(k, m)
    ensures m.row == k - 1 && m.col == k + 2
  {
  }

  // ---- Blocks on disk ----

  /** How often encode updates Q block r for a write to block t of data disk d: as often as
      Q cell r lists the data cell. */
  function MentionList(k: nat, d: nat, t: nat): (m: seq<nat>)
    requires k > 0
    ensures |m| == k - 1 && forall r :: 0 <= r < |m| ==> m[r] == multiset(QCells(k, r))[Elem(t, d)]
  {
    seq(k - 1, r requires 0 <= r < k - 1 => multiset(QCells(k, r))[Elem(t, d)])
  }

  ghost function Code(k: nat): seq<Column> -> bool {
    c => IsCodeword(k, c)
  }

  /** A write keeps the strip a codeword if and only if the block it overwrites was zero. */
  lemma OverwriteKeepsCodeIffFresh(k: nat, c: seq<Column>, d: nat, t: nat, v: Block)
    requires IsCodeword(k, c) && d < k && t < k - 1
    ensures IsCodeword(k, Overwritten(k, c, d, t, v, MentionList(k, d, t))) <==> c[d][t] == 0
  {
    hide Xor, XorCells, RowXor, Toggle, QCells;
    var m := MentionList(k, d, t);
    var e := Overwritten(k, c, d, t, v, m);
    assert RowsAddUp(k, k - 1, c);
    PKeptIffFresh(k, c, d, t, v, m);
    if c[d][t] == 0 {
      var p, q := c[k + 1], e[k + 1];
      XorZero(v);
      forall r | 0 <= r < |q| ensures q[r] == XorCells(e, QCells(k, r)) {
        QInData(k, r);
        XorCellsAdd(c, e, k - 1, k + 2, k, Elem(t, d), v, QCells(k, r));
        assert p[r] == XorCells(c, QCells(k, r));
      }
    }
  }

  /** The Q blocks that change: those that list the data block once, not those that list it twice. */
  lemma QUpdates(k: nat, d: nat, t: nat, v: Block)
    requires d < k && t < k - 1
    ensures forall r :: 0 <= r < k - 1 ==>
      Toggle(MentionList(k, d, t)[r], v) == if (t + d == k - 1) != ((t + d) % k == r) then v else 0
  {
    hide QCells;
    forall r | 0 <= r < k - 1
      ensures Toggle(MentionList(k, d, t)[r], v) == if (t + d == k - 1) != ((t + d) % k == r) then v else 0
    {
      QCount(k, r, t, d);
    }
  }

  /** The parity blocks after a write, one by one. */
  lemma ParityStored(k: nat, len: nat, before: seq<Column>, after: seq<Column>, d: nat, b: nat, v: Block)
    requires k > 1 && IsArray(k, k - 1, before, len) && IsArray(k, k - 1, after, len) && d < k && b < len
    requires WrittenAt(k, len, before, after, d, b, v, MentionList(k, d, b % (k - 1)))
    ensures
      var base, t := Base(b, k - 1), b % (k - 1);
      var p, q, wasP, wasQ := after[k], after[k + 1], before[k], before[k + 1];
      (forall i :: 0 <= i < len ==> p[i] == if i == b then Xor(wasP[i], v) else wasP[i]) &&
      forall i :: 0 <= i < len ==>
        q[i] ==
          if base <= i < base + (k - 1) && ((t + d == k - 1) != ((t + d) % k == i - base))
          then Xor(wasQ[i], v) else wasQ[i]
  {
    hide Xor, Toggle, QCells, MentionList, WrittenAt;
    var n, t := k - 1, b % (k - 1);
    var m := MentionList(k, d, t);
    StripBounds(b, n, len);
    ParityWritten(k, len, before, after, d, b, v, m);
    QUpdates(k, d, t, v);
    var hit := seq(n, r requires 0 <= r < n => (t + d == k - 1) != ((t + d) % k == r));
    ParityToggled(before[k + 1], after[k + 1], Base(b, n), m, hit, v);
  }

  class EvenoddLayer {
    const nc: DiskArray
    const k: nat
    const stripSize: nat
    const table: Table

    ghost predicate Valid()
      reads nc
    {
      nc.Valid() && nc.total == k + 2 && k >= 2 && stripSize == k - 1 && nc.len % stripSize == 0 &&
      (forall l :: 0 <= l < stripSize ==> QList(table, l, k + 2) == QCells(k, l)) &&
      NoneBelow(table, stripSize, k + 2) && Symmetric(table, k)
    }

    constructor (nc: DiskArray)
      requires nc.Valid() && nc.total >= 4 && nc.len % (nc.total - 3) == 0
      ensures Valid() && this.nc == nc
    {
      this.nc, k, stripSize := nc, nc.total - 2, nc.total - 3;
      var t := ElemsRelatedElems(nc.total - 3, nc.total);
      table := t;
    }

    /** The Q blocks that the table relates to block t of data disk d. */
    method FindQBlocksId(d: nat, t: nat) returns (rows: seq<nat>)
      requires Valid() && d < k && t < stripSize
      ensures NamesEach(rows, MentionList(k, d, t))
    {
      hide QCells, QList, Count;
      rows := QRowsOf(table, Elem(t, d), k + 2);
      forall r: nat
        ensures multiset(rows)[r] == if r < stripSize then multiset(QCells(k, r))[Elem(t, d)] else 0
      {
        MentionsInTable(Elem(t, d), r);
      }
      forall i | 0 <= i < |rows| ensures rows[i] < stripSize { assert multiset(rows)[rows[i]] > 0; }
    }

    lemma MentionsInTable(e: Elem, r: nat)
      requires Valid() && e.col < k
      ensures Count(table, e, Elem(r, k + 1)) == if r < stripSize then multiset(QCells(k, r))[e] else 0
    {
      hide QCells;
      assert Count(table, e, Elem(r, k + 1)) == Count(table, Elem(r, k + 1), e);
      if r < stripSize {
        assert QList(table, r, k + 2) == Related(table, Elem(r, k + 1));
      }
    }

    /** Writes one data block, updating P and Q in place. */
    method Store(d: nat, b: nat, buf: Block)
      requires Valid() && d < k && b < nc.len && forall j :: 0 <= j < nc.total ==> !nc.failed[j]
      modifies nc`disks, nc`readLog
      ensures Valid()
      ensures OnlyWritten(k, nc.len, old(nc.disks), nc.disks, d, b, buf)
      ensures
        var base, t := Base(b, stripSize), b % stripSize;
        var p, q, wasP, wasQ := nc.disks[k], nc.disks[k + 1], old(nc.disks)[k], old(nc.disks)[k + 1];
        (forall i :: 0 <= i < nc.len ==> p[i] == if i == b then Xor(wasP[i], buf) else wasP[i]) &&
        forall i :: 0 <= i < nc.len ==>
          q[i] ==
            if base <= i < base + stripSize && ((t + d == k - 1) != ((t + d) % k == i - base))
            then Xor(wasQ[i], buf) else wasQ[i]
      ensures old(Coded(Code(k), k, stripSize, nc.disks, nc.len)) ==>
        (Coded(Code(k), k, stripSize, nc.disks, nc.len) <==> old(nc.disks)[d][b] == 0)
    {
      hide Accounts, WrittenAt, Coded, NamesEach, QCells, QList, NoneBelow, Symmetric, Xor, MentionList, Code, Base,
        OnlyWritten;
      ghost var before := nc.disks;
      var offset := b % stripSize;
      var rows := FindQBlocksId(d, offset);
      ghost var m := MentionList(k, d, offset);
      StoreAt(nc, stripSize, d, b, buf, rows, m);
      DataWritten(k, nc.len, before, nc.disks, d, b, buf, m);
      ParityStored(k, nc.len, before, nc.disks, d, b, buf);
      if Coded(Code(k), k, stripSize, before, nc.len) {
        WriteKeepsCodeIffFresh(k, nc.len, before, nc.disks, d, b, buf);
      }
    }

    /** Stores one block in the slot that is due, updating P and Q in place. */
    method Encode(buf: Block) returns (diskId: int, blockNo: nat)
      requires Valid() && forall d :: 0 <= d < nc.total ==> !nc.failed[d]
      modifies nc
      ensures Valid() && -1 <= diskId < k && (diskId >= 0 ==> blockNo < nc.len) && nc.failed == old(nc.failed)
      ensures Due(old(nc.freeOffset), old(nc.freeSize), old(nc.spaceList), k, diskId, blockNo)
      ensures nc.spaceList ==
        if old(nc.spaceList) != [] &&
          (forall d :: 0 <= d < k ==> old(nc.freeSize)[d] < 1 || old(nc.freeOffset)[d] > old(nc.freeOffset)[0])
        then old(nc.spaceList)[1..] else old(nc.spaceList)
      ensures
        var x := if diskId == 0 && old(nc.freeSize)[0] >= 1 then 1 else 0;
        var y := if x == 1 && blockNo % stripSize == 0 then stripSize else 0;
        forall i :: 0 <= i < k + 2 ==>
          var taken := if i == diskId then 1 else if i == k then x else if i == k + 1 then y else 0;
          nc.freeSize[i] == old(nc.freeSize)[i] - taken &&
          nc.freeOffset[i] == if i == diskId then blockNo + 1 else old(nc.freeOffset)[i] + taken
      ensures OnlyWritten(k, nc.len, old(nc.disks), nc.disks, diskId, blockNo, buf)
      ensures diskId == -1 ==> nc.disks == old(nc.disks)
      ensures diskId >= 0 ==>
        var base, t := Base(blockNo, stripSize), blockNo % stripSize;
        var p, q, wasP, wasQ := nc.disks[k], nc.disks[k + 1], old(nc.disks)[k], old(nc.disks)[k + 1];
        (forall i :: 0 <= i < nc.len ==> p[i] == if i == blockNo then Xor(wasP[i], buf) else wasP[i]) &&
        forall i :: 0 <= i < nc.len ==>
          q[i] ==
            if base <= i < base + stripSize && ((t + diskId == k - 1) != ((t + diskId) % k == i - base))
            then Xor(wasQ[i], buf) else wasQ[i]
      ensures old(Coded(Code(k), k, stripSize, nc.disks, nc.len)) && diskId >= 0 ==>
        (Coded(Code(k), k, stripSize, nc.disks, nc.len) <==> old(nc.disks)[diskId][blockNo] == 0)
      ensures
        old(Coded(Code(k), k, stripSize, nc.disks, nc.len) && nc.Unwritten() && nc.spaceList == []) ==>
        Coded(Code(k), k, stripSize, nc.disks, nc.len) && nc.Unwritten() && nc.spaceList == []
    {
      hide Accounts, Coded, Code, QCells, QList, NoneBelow, Symmetric, Due, Eligible, OnlyWritten, ZeroPast;
      diskId, blockNo := nc.Allocate(stripSize);
      NothingWritten(k, nc.len, nc.disks, blockNo, buf);
      if diskId != -1 {
        ghost var before := nc.disks;
        Store(diskId, blockNo, buf);
        if ZeroPast(before, nc.freeOffset, k, nc.len) {
          WriteKeepsZeroPast(before, nc.disks, nc.freeOffset, k, nc.len, diskId, blockNo, buf);
        }
      }
    }

    /** A run of writes that continues a run of t writes to empty disks. The blocks are dealt
        out in turn until the disks are full; every strip stays a codeword, every block written
        is still on its disk at the end, and no other data block has changed. */
    method WriteAll(bufs: seq<Block>, ghost t: nat) returns (slots: seq<Slot>)
      requires Valid() && nc.spaceList == [] && forall d :: 0 <= d < nc.total ==> !nc.failed[d]
      requires Coded(Code(k), k, stripSize, nc.disks, nc.len) && nc.Unwritten()
      requires InTurn(nc.freeOffset, nc.freeSize, k, nc.len, t) && t <= k * nc.len
      modifies nc
      ensures Valid() && nc.failed == old(nc.failed)
      ensures Coded(Code(k), k, stripSize, nc.disks, nc.len) && nc.Unwritten() && nc.spaceList == []
      ensures InTurn(nc.freeOffset, nc.freeSize, k, nc.len, t + |slots|)
      ensures |slots| == if t + |bufs| <= k * nc.len then |bufs| else k * nc.len - t
      ensures forall i :: 0 <= i < |slots| ==>
        slots[i] == Turn(k, t + i) && slots[i].block < nc.len &&
        nc.disks[slots[i].disk][slots[i].block] == bufs[i]
      ensures forall d, b :: 0 <= d < k && 0 <= b < nc.len && Slot(d, b) !in slots ==>
        nc.disks[d][b] == old(nc.disks)[d][b]
    {
      hide Accounts, Coded, Due, InTurn, Turn, QCells, QList, NoneBelow, Symmetric;
      slots := [];
      while |slots| < |bufs|
        invariant Valid() && nc.failed == old(nc.failed) && |slots| <= |bufs|
        invariant Coded(Code(k), k, stripSize, nc.disks, nc.len) && nc.Unwritten() && nc.spaceList == []
        invariant InTurn(nc.freeOffset, nc.freeSize, k, nc.len, t + |slots|) && t + |slots| <= k * nc.len
        invariant forall i :: 0 <= i < |slots| ==>
          slots[i] == Turn(k, t + i) && slots[i].block < nc.len &&
          slots[i].block < nc.freeOffset[slots[i].disk] && nc.disks[slots[i].disk][slots[i].block] == bufs[i]
        invariant forall d, b :: 0 <= d < k && 0 <= b < nc.len && Slot(d, b) !in slots ==>
          nc.disks[d][b] == old(nc.disks)[d][b]
        decreases |bufs| - |slots|
      {
        ghost var offsets, sizes := nc.freeOffset, nc.freeSize;
        var d, b := Encode(bufs[|slots|]);
        DueInTurn(offsets, sizes, nc.freeOffset, nc.freeSize, k, nc.len, t + |slots|, d, b);
        if d == -1 { break; }
        slots := slots + [Slot(d, b)];
      }
    }

    /** Reads block b of disk d, rebuilding it if d is the one failed disk. */
    method Decode(d: nat, b: nat) returns (ok: bool, buf: Block)
      requires Valid() && d < nc.total && b < nc.len && CodedAt(Code(k), k, stripSize, nc.disks, nc.len, b)
      modifies nc`readLog
      ensures ok <==> !nc.failed[d] || nc.OnlyFailed(d)
      ensures ok ==> buf == nc.disks[d][b]
    {
      hide Xor, RowXorBut, XorCells, QCells, QList, Base;
      if !nc.failed[d] {
        buf := nc.ReadDisk(d, b);
        return true, buf;
      }
      buf := 0;
      var count := nc.CountFailed();
      nc.OneFailure(d);
      if count != 1 { return false, 0; }
      ok := true;
      StripBounds(b, stripSize, nc.len);
      if d < nc.total - 1 {
        buf := nc.XorRow(d, b, buf);
        RowRebuilds(k, stripSize, nc.disks, nc.len, d, b);
      } else {
        buf := RebuildQ(Base(b, stripSize), b % stripSize);
      }
    }

    /** Q block offset of the strip at base, from the blocks the table lists for it. */
    method RebuildQ(base: nat, offset: nat) returns (buf: Block)
      requires Valid() && nc.OnlyFailed(k + 1) && base + stripSize <= nc.len && offset < stripSize
      requires IsCodeword(k, Strip(nc.disks, base, stripSize))
      modifies nc`readLog
      ensures buf == nc.disks[k + 1][base + offset]
    {
      hide Xor, XorCells, RowXor, QCells, QList, Symmetric, NoneBelow;
      QInData(k, offset);
      var cells := QList(table, offset, k + 2);
      assert cells == QCells(k, offset);
      buf := XorListed(nc, k + 1, base, stripSize, cells);
      QRebuilds(k, Strip(nc.disks, base, stripSize), offset);
    }
  }

  lemma QRebuilds(k: nat, c: seq<Column>, i: nat)
    requires IsCodeword(k, c) && i < k - 1
    ensures XorCells(c, QCells(k, i)) == c[k + 1][i]
  {
    hide XorCells, QCells;
    var q := c[k + 1];
    assert q[i] == XorCells(c, QCells(k, i));
  }

  /** Empty disks hold codewords. */
  lemma EmptyIsCoded(k: nat, disks: seq<Column>, len: nat)
    requires k > 1 && IsArray(k, k - 1, disks, len)
    requires forall j, b :: 0 <= j < k + 2 && 0 <= b < len ==> disks[j][b] == 0
    ensures Coded(Code(k), k, k - 1, disks, len)
  {
    hide IsCodeword, Base;
    var n := k - 1;
    forall b | 0 <= b < len ensures CodedAt(Code(k), k, n, disks, len, b) {
      StripBounds(b, n, len);
      ZeroIsCodeword(k, Strip(disks, Base(b, n), n));
    }
  }

  /** A write keeps all strips codewords exactly when it overwrites a zero block. */
  lemma WriteKeepsCodeIffFresh(k: nat, len: nat, before: seq<Column>, after: seq<Column>, d: nat, b: nat, v: Block)
    requires k > 1 && IsArray(k, k - 1, before, len) && IsArray(k, k - 1, after, len) && d < k && b < len
    requires Coded(Code(k), k, k - 1, before, len)
    requires WrittenAt(k, len, before, after, d, b, v, MentionList(k, d, b % (k - 1)))
    ensures Coded(Code(k), k, k - 1, after, len) <==> before[d][b] == 0
  {
    hide IsCodeword, WrittenAt, Coded, Overwritten, QCells;
    var n := k - 1;
    StripBounds(b, n, len);
    StripCoded(k, before, len, b);
    OverwriteKeepsCodeIffFresh(k, Strip(before, Base(b, n), n), d, b % n, v);
    CodeKeptIffFresh(Code(k), k, len, before, after, d, b, v, MentionList(k, d, b % n), before[d][b] == 0);
  }

  lemma StripCoded(k: nat, disks: seq<Column>, len: nat, b: nat)
    requires k > 1 && Coded(Code(k), k, k - 1, disks, len) && b < len
    ensures Base(b, k - 1) + k - 1 <= len && CodedAt(Code(k), k, k - 1, disks, len, b)
    ensures IsCodeword(k, Strip(disks, Base(b, k - 1), k - 1))
  {
    StripBounds(b, k - 1, len);
    assert CodedAt(Code(k), k, k - 1, disks, len, b);
  }
}
