/** The RDP coding layer: its relation table, generating parity in memory, and what is really
    stored on disk, where Q leaves out the P column. */
module Rdp {
  import opened Bits
  import opened Blocks
  import opened Diagonals
  import opened IntMod
  import opened Ncfs
  import opened ParityStripe
  import opened PrimeWalk
  import opened RdpCode
  import opened RdpStore
  import opened StripWrite

  /** The relation table for k data columns. */
  method ElemsRelatedElems(row: nat, col: nat) returns (table: Table)
    requires col >= 3 && row == col - 2
    ensures forall l :: 0 <= l < row ==> QList(table, l, col) == QCells(row, l)
    ensures NoneBelow(table, row, col) && Symmetric(table, col - 2)
    ensures forall d: Elem, p: Elem :: d.row < row && d.col < row && p.row < row && p.col == row ==>
      Count(table, d, p) == Count(table, p, d) == if p.row == d.row then 1 else 0
    ensures forall d: Elem, q: Elem :: d.row < row && d.col <= row && q.row < row && q.col == row + 1 ==>
      Count(table, d, q) == Count(table, q, d) == if (d.row + d.col) % (row + 1) == q.row then 1 else 0
  {
    hide QCells, QList, NoneBelow, Symmetric, RowsRelated, Count;
    table := map[];
    EmptyTable(row, col);
    NoRowsRelated(row);
    for i := 0 to row
      invariant forall l :: QList(table, l, col) == []
      invariant NoneBelow(table, row, col) && Symmetric(table, row) && RowsRelated(table, row, i, 0)
    {
      for j := 0 to col - 2
        invariant forall l :: QList(table, l, col) == []
        invariant NoneBelow(table, row, col) && Symmetric(table, row)
        invariant if j < row then RowsRelated(table, row, i, j) else RowsRelated(table, row, i + 1, 0)
      {
        ghost var was := table;
        table := Both(table, row, col, Elem(i, j), Elem(i, col - 2));
        NextRowsRelated(was, table, row, i, j);
      }
    }
    for i := 0 to row
      invariant forall l :: 0 <= l < row ==> QList(table, l, col) == if l < i then QCells(row, l) else []
      invariant NoneBelow(table, row, col) && Symmetric(table, row) && RowsRelated(table, row, row, 0)
    {
      ghost var was := table;
      table := RelateDiagonal(table, row, col, i);
      SameRowsRelated(was, table, row, row, 0);
    }
    TableCounts(row, table);
  }

  /** How often the finished table lists each cell and each parity cell for each other. */
  lemma TableCounts(k: nat, table: Table)
    requires Symmetric(table, k) && RowsRelated(table, k, k, 0)
    requires forall l :: 0 <= l < k ==> QList(table, l, k + 2) == QCells(k, l)
    ensures forall d: Elem, p: Elem :: d.row < k && d.col < k && p.row < k && p.col == k ==>
      Count(table, d, p) == Count(table, p, d) == if p.row == d.row then 1 else 0
    ensures forall d: Elem, q: Elem :: d.row < k && d.col <= k && q.row < k && q.col == k + 1 ==>
      Count(table, d, q) == Count(table, q, d) == if (d.row + d.col) % (k + 1) == q.row then 1 else 0
  {
    hide QCells, Count, QList, Symmetric;
    forall d: Elem, q: Elem | d.row < k && d.col <= k && q.row < k && q.col == k + 1
      ensures Count(table, d, q) == Count(table, q, d)
      ensures Count(table, q, d) ==
        if (d.row + d.col) % (k + 1) == q.row then 1 else 0
    {
      QCellCount(k, table, d, q);
    }
  }

  lemma QCellCount(k: nat, table: Table, d: Elem, q: Elem)
    requires Symmetric(table, k) && d.row < k && d.col <= k && q.row < k && q.col == k + 1
    requires QList(table, q.row, k + 2) == QCells(k, q.row)
    ensures Count(table, d, q) == Count(table, q, d)
    ensures Count(table, q, d) ==
      if (d.row + d.col) % (k + 1) == q.row then 1 else 0
  {
    hide QCells;
    assert q == Elem(q.row, k + 1) && d == Elem(d.row, d.col);
    assert QList(table, q.row, k + 2) == Related(table, q);
    QCount(k, q.row, d.row, d.col);
  }

  /** Relates Q cell i to the cells of its diagonal: first the P cell, if the diagonal meets
      P in a row of the stripe, then the data cells. */
  method RelateDiagonal(table: Table, row: nat, col: nat, i: nat) returns (t: Table)
    requires col >= 3 && row == col - 2 && i < row && QList(table, i, col) == []
    requires NoneBelow(table, row, col) && Symmetric(table, col - 2)
    ensures NoneBelow(t, row, col) && Symmetric(t, col - 2)
    ensures forall l :: 0 <= l < row ==> QList(t, l, col) == if l == i then QCells(row, i) else QList(table, l, col)
    ensures forall x: Elem, y: Elem :: x.col <= row && y.col <= row ==> Count(t, x, y) == Count(table, x, y)
  {
    hide QCells, DiagCells, QList, NoneBelow, Symmetric, Count;
    var q := Elem(i, col - 1);
    var k, m := row, row + 1;
    var first := (i + 1) % m;
    PMeets(k, i);
    NoneYet(k, i);
    t := table;
    if first < row { t := Both(t, row, col, Elem(first, col - 2), q); }
    for j := 0 to m - 1
      invariant forall l :: 0 <= l < row ==>
        QList(t, l, col) == if l == i then Head(k, i) + DiagCells(k, i, j) else QList(table, l, col)
      invariant NoneBelow(t, row, col) && Symmetric(t, col - 2)
      invariant forall x: Elem, y: Elem :: x.col <= row && y.col <= row ==> Count(t, x, y) == Count(table, x, y)
    {
      DiagCellsStep(k, i, j);
      if j != first {
        var second := TruncMod(i - j, m);
        second := if second >= 0 then second else second + m;
        FixedMod(i, j, m);
        DataMeets(k, i, j);
        t := Both(t, row, col, Elem(j, second), q);
      }
    }
  }

  lemma DataMeets(k: nat, i: nat, j: nat)
    requires i < k && j < k && j != RowOn(k + 1, i, k)
    ensures RowOn(k + 1, i, j) < k
  {
    RowOnTwice(k + 1, i, j, k);
  }

  /** The P cell of diagonal l, if there is one. */
  function Head(k: nat, l: nat): seq<Elem> {
    var first := RowOn(k + 1, l, k);
    if first < k then [Elem(first, k)] else []
  }

  lemma NoneYet(k: nat, l: nat)
    ensures DiagCells(k, l, 0) == [] && Head(k, l) + [] == Head(k, l)
    ensures QCells(k, l) == Head(k, l) + DiagCells(k, l, k)
  {
  }

  lemma DiagCellsStep(k: nat, l: nat, n: nat)
    ensures Head(k, l) + DiagCells(k, l, n + 1) ==
      if n == RowOn(k + 1, l, k) then Head(k, l) + DiagCells(k, l, n)
      else (Head(k, l) + DiagCells(k, l, n)) + [Elem(n, RowOn(k + 1, l, n))]
  {
    assert DiagCells(k, l, n) + [] == DiagCells(k, l, n);
    var e := Elem(n, RowOn(k + 1, l, n));
    assert Head(k, l) + (DiagCells(k, l, n) + [e]) == (Head(k, l) + DiagCells(k, l, n)) + [e];
  }

  // ---- Generating parity in memory ----

  lemma QBeforeQ(k: nat, l: nat)
    ensures forall i :: 0 <= i < |QCells(k, l)| ==> var e := QCells(k, l)[i]; e.row < k && e.col <= k
  {
    forall i | 0 <= i < |QCells(k, l)| ensures var e := QCells(k, l)[i]; e.row < k && e.col <= k {
      var n := |Head(k, l)|;
      if i >= n { DiagInData(k, l, k, i - n); }
    }
  }

  ghost predicate IsRdp(k: nat, m: ParityMatrix) {
    m.row == k && m.col == k + 2 && forall l :: 0 <= l < k ==> QList(m.table, l, k + 2) == QCells(k, l)
  }

  /** The stripe in memory, with its relation table, for k data columns. */
  method NewStripe(k: nat) returns (m: ParityMatrix)
    requires k > 0
    ensures fresh(m) && fresh(m.matrix) && m.Valid() && IsRdp(k, m)
    ensures forall j, i :: 0 <= j < k + 2 && 0 <= i < k ==> m.Contents()[j][i] == 0
  {
    var table := ElemsRelatedElems(k, k + 2);
    TableOkFromCells(k, table);
    m := new ParityMatrix(k, k + 2, table);
  }

  lemma TableOkFromCells(k: nat, table: Table)
    requires forall l :: 0 <= l < k ==> QList(table, l, k + 2) == QCells(k, l)
    ensures TableOk(table, k, k + 2)
  {
    hide QCells, QList;
    var col := k + 2;
    forall l, i | 0 <= l < k && 0 <= i < |QList(table, l, col)|
      ensures var e := QList(table, l, col)[i]; e.row < k && e.col < k + 1
    {
      QBeforeQ(k, l);
      assert QList(table, l, col)[i] == QCells(k, l)[i];
    }
  }

  /** gen_p and then gen_q, on a stripe whose P and Q are still zero, make it a codeword and
      leave the data alone. */
  method Generate(k: nat, m: ParityMatrix)
    requires k > 0 && m.Valid() && IsRdp(k, m)
    requires NoParityYet(m.Contents(), k, k)
    modifies m.matrix
    ensures IsCodeword(k, m.Contents())
    ensures forall j :: 0 <= j < k ==> m.Contents()[j] == old(m.Contents())[j]
  {
    hide QCells, QList, PAdded, QAdded, NoParityYet;
    ghost var a := m.Contents();
    m.GenP();
    ghost var b := m.Contents();
    m.GenQ();
    GeneratedIsCodeword(k, m.table, a, b, m.Contents());
  }

  lemma GeneratedIsCodeword(k: nat, table: Table, a: seq<Column>, b: seq<Column>, c: seq<Column>)
    requires k > 0 && PAdded(a, b, k, k + 2) && QAdded(table, b, c, k, k + 2)
    requires NoParityYet(a, k, k)
    requires forall l :: 0 <= l < k ==> QList(table, l, k + 2) == QCells(k, l)
    ensures IsCodeword(k, c) && forall j :: 0 <= j < k ==> c[j] == a[j]
  {
    hide QCells, QList, XorCells, RowXor, Xor;
    var p, q, bp := c[k], c[k + 1], b[k];
    forall i | 0 <= i < k ensures p[i] == RowXor(c, k, i) && q[i] == XorCells(c, QCells(k, i)) {
      assert QList(table, i, k + 2) == QCells(k, i);
      assert bp[i] == Xor(a[k][i], RowXor(a, k, i));
      RowXorAgree(a, c, k, i);
      QBeforeQ(k, i);
      XorCellsAgree(b, c, k + 1, QCells(k, i));
      XorZero(RowXor(a, k, i));
      XorZero(XorCells(b, QCells(k, i)));
    }
  }

  /** Repairing any one disk of a generated stripe returns that disk. */
  method RepairDisk(k: nat, m: ParityMatrix, id: nat) returns (disk: seq<Block>)
    requires m.Valid() && IsRdp(k, m) && IsCodeword(k, m.Contents()) && id < k + 2
    ensures disk == m.Contents()[id]
  {
    hide QCells, QList, XorCells, RowXor, RowXorBut, Xor;
    disk := m.Repair(id);
    ghost var c := m.Contents();
    ghost var p, q := c[k], c[k + 1];
    forall i | 0 <= i < k ensures disk[i] == c[id][i] {
      if id <= k { RowOfOthers(k, k, c, id, i); }
      assert q[i] == XorCells(c, QCells(k, i));
    }
  }

  /** A new stripe is filled with data and generated, and one disk of it is repaired. */
  method StripeComesBack(k: nat, data: seq<Column>, id: nat) returns (disk: seq<Block>, ghost c: seq<Column>)
    requires k > 0 && IsMatrix(data, k, k) && id < k + 2
    ensures IsCodeword(k, c) && c[..k] == data && disk == c[id]
  {
    hide IsCodeword, IsRdp, XorCells;
    var m := NewStripe(k);
    IsStripe(k, m);
    m.Fill(data);
    Generate(k, m);
    c := m.Contents();
    SameColumns(c[..k], data);
    disk := RepairDisk(k, m, id);
  }

  lemma IsStripe(k: nat, m: ParityMatrix)
    requires IsRdp(k, m)
    ensures m.row == k && m.col == k + 2
  {
  }

  // ---- Blocks on disk ----

  ghost function Code(k: nat): seq<Column> -> bool {
    c => IsStored(k, c)
  }

  /** The Q block that changes: that of the diagonal that the data block lies on. */
  lemma QUpdates(k: nat, d: nat, t: nat, v: Block)
    requires d < k && t < k
    ensures forall r :: 0 <= r < k ==>
      Toggle(MentionList(k, d, t)[r], v) == if (t + d) % (k + 1) == r then v else 0
  {
    hide DiagCells;
    forall r | 0 <= r < k
      ensures Toggle(MentionList(k, d, t)[r], v) == if (t + d) % (k + 1) == r then v else 0
    {
      QCount(k, r, t, d);
    }
  }

  /** The parity blocks after a write, one by one. */
  lemma ParityStored(k: nat, len: nat, before: seq<Column>, after: seq<Column>, d: nat, b: nat, v: Block)
    requires k > 0 && IsArray(k, k, before, len) && IsArray(k, k, after, len) && d < k && b < len
    requires WrittenAt(k, len, before, after, d, b, v, MentionList(k, d, b % k))
    ensures
      var base, t := Base(b, k), b % k;
      var p, q, wasP, wasQ := after[k], after[k + 1], before[k], before[k + 1];
      (forall i :: 0 <= i < len ==> p[i] == if i == b then Xor(wasP[i], v) else wasP[i]) &&
      forall i :: 0 <= i < len ==>
        q[i] == if base <= i < base + k && ((t + d) % (k + 1) == i - base) then Xor(wasQ[i], v) else wasQ[i]
  {
    hide Xor, Toggle, DiagCells, MentionList, WrittenAt;
    var n, t := k, b % k;
    var m := MentionList(k, d, t);
    StripBounds(b, n, len);
    ParityWritten(k, len, before, after, d, b, v, m);
    QUpdates(k, d, t, v);
    var hit := seq(n, r requires 0 <= r < n => (t + d) % (k + 1) == r);
    ParityToggled(before[k + 1], after[k + 1], Base(b, n), m, hit, v);
  }

  class RdpLayer {
    const nc: DiskArray
    const k: nat
    const stripSize: nat
    const table: Table

    ghost predicate Valid()
      reads nc
    {
      nc.Valid() && nc.total == k + 2 && k >= 1 && stripSize == k && nc.len % stripSize == 0 &&
      (forall l :: 0 <= l < stripSize ==> QList(table, l, k + 2) == QCells(k, l)) &&
      NoneBelow(table, stripSize, k + 2) && Symmetric(table, k)
    }

    constructor (nc: DiskArray)
      requires nc.Valid() && nc.total >= 3 && nc.len % (nc.total - 2) == 0
      ensures Valid() && this.nc == nc
    {
      this.nc, k, stripSize := nc, nc.total - 2, nc.total - 2;
      var t := ElemsRelatedElems(nc.total - 2, nc.total);
      table := t;
    }

    /** The Q blocks that the table relates to block t of data disk d. */
    method FindQBlocksId(d: nat, t: nat) returns (rows: seq<nat>)
      requires Valid() && d < k && t < stripSize
      ensures NamesEach(rows, MentionList(k, d, t))
    {
      hide QCells, QList, Count, DiagCells;
      rows := QRowsOf(table, Elem(t, d), k + 2);
      forall r: nat
        ensures multiset(rows)[r] == if r < stripSize then multiset(DiagCells(k, r, k))[Elem(t, d)] else 0
      {
        MentionsInTable(Elem(t, d), r);
      }
      forall i | 0 <= i < |rows| ensures rows[i] < stripSize { assert multiset(rows)[rows[i]] > 0; }
    }

    lemma MentionsInTable(e: Elem, r: nat)
      requires Valid() && e.col < k
      ensures Count(table, e, Elem(r, k + 1)) == if r < stripSize then multiset(DiagCells(k, r, k))[e] else 0
    {
      hide QCells, DiagCells;
      assert Count(table, e, Elem(r, k + 1)) == Count(table, Elem(r, k + 1), e);
      if r < stripSize {
        assert QList(table, r, k + 2) == Related(table, Elem(r, k + 1));
        DataMentions(k, r, e);
      }
    }

    /** Writes one data block, updating P and the Q blocks related to it in place. */
    method Store(d: nat, b: nat, buf: Block)
      requires Valid() && d < k && b < nc.len && forall j :: 0 <= j < nc.total ==> !nc.failed[j]
      modifies nc`disks, nc`readLog
      ensures Valid()
      ensures OnlyWritten(k, nc.len, old(nc.disks), nc.disks, d, b, buf)
      ensures
        var base, t := Base(b, stripSize), b % stripSize;
        var p, q, wasP, wasQ := nc.disks[k], nc.disks[k + 1], old(nc.disks)[k], old(nc.disks)[k + 1];
        (forall i :: 0 <= i < nc.len ==> p[i] == if i == b then Xor(wasP[i], buf) else wasP[i]) &&
        forall i :: 0 <= i < nc.len ==>
          q[i] ==
            if base <= i < base + stripSize && ((t + d) % (k + 1) == i - base)
            then Xor(wasQ[i], buf) else wasQ[i]
      ensures old(Coded(Code(k), k, stripSize, nc.disks, nc.len)) ==>
        (Coded(Code(k), k, stripSize, nc.disks, nc.len) <==> old(nc.disks)[d][b] == 0)
    {
      hide Accounts, WrittenAt, Coded, NamesEach, QCells, QList, NoneBelow, Symmetric, Xor, MentionList, Code, Base,
        OnlyWritten;
      ghost var before := nc.disks;
      var offset := b % stripSize;
      var rows := FindQBlocksId(d, offset);
      ghost var m := MentionList(k, d, offset);
      StoreAt(nc, stripSize, d, b, buf, rows, m);
      DataWritten(k, nc.len, before, nc.disks, d, b, buf, m);
      ParityStored(k, nc.len, before, nc.disks, d, b, buf);
      if Coded(Code(k), k, stripSize, before, nc.len) {
        WriteKeepsStoredIffFresh(k, nc.len, before, nc.disks, d, b, buf);
      }
    }

    /** Stores one block in the slot that is due. */
    method Encode(buf: Block) returns (diskId: int, blockNo: nat)
      requires Valid() && forall d :: 0 <= d < nc.total ==> !nc.failed[d]
      modifies nc
      ensures Valid() && -1 <= diskId < k && (diskId >= 0 ==> blockNo < nc.len) && nc.failed == old(nc.failed)
      ensures Due(old(nc.freeOffset), old(nc.freeSize), old(nc.spaceList), k, diskId, blockNo)
      ensures nc.spaceList ==
        if old(nc.spaceList) != [] &&
          (forall d :: 0 <= d < k ==> old(nc.freeSize)[d] < 1 || old(nc.freeOffset)[d] > old(nc.freeOffset)[0])
        then old(nc.spaceList)[1..] else old(nc.spaceList)
      ensures
        var x := if diskId == 0 && old(nc.freeSize)[0] >= 1 then 1 else 0;
        var y := if x == 1 && blockNo % stripSize == 0 then stripSize else 0;
        forall i :: 0 <= i < k + 2 ==>
          var taken := if i == diskId then 1 else if i == k then x else if i == k + 1 then y else 0;
          nc.freeSize[i] == old(nc.freeSize)[i] - taken &&
          nc.freeOffset[i] == if i == diskId then blockNo + 1 else old(nc.freeOffset)[i] + taken
      ensures OnlyWritten(k, nc.len, old(nc.disks), nc.disks, diskId, blockNo, buf)
      ensures diskId == -1 ==> nc.disks == old(nc.disks)
      ensures diskId >= 0 ==>
        var base, t := Base(blockNo, stripSize), blockNo % stripSize;
        var p, q, wasP, wasQ := nc.disks[k], nc.disks[k + 1], old(nc.disks)[k], old(nc.disks)[k + 1];
        (forall i :: 0 <= i < nc.len ==> p[i] == if i == blockNo then Xor(wasP[i], buf) else wasP[i]) &&
        forall i :: 0 <= i < nc.len ==>
          q[i] ==
            if base <= i < base + stripSize && ((t + diskId) % (k + 1) == i - base)
            then Xor(wasQ[i], buf) else wasQ[i]
      ensures old(Coded(Code(k), k, stripSize, nc.disks, nc.len)) && diskId >= 0 ==>
        (Coded(Code(k), k, stripSize, nc.disks, nc.len) <==> old(nc.disks)[diskId][blockNo] == 0)
      ensures
        old(Coded(Code(k), k, stripSize, nc.disks, nc.len) && nc.Unwritten() && nc.spaceList == []) ==>
        Coded(Code(k), k, stripSize, nc.disks, nc.len) && nc.Unwritten() && nc.spaceList == []
    {
      hide Accounts, Coded, Code, QCells, QList, NoneBelow, Symmetric, Due, Eligible, OnlyWritten, ZeroPast;
      diskId, blockNo := nc.Allocate(stripSize);
      NothingWritten(k, nc.len, nc.disks, blockNo, buf);
      if diskId != -1 {
        ghost var before := nc.disks;
        Store(diskId, blockNo, buf);
        if ZeroPast(before, nc.freeOffset, k, nc.len) {
          WriteKeepsZeroPast(before, nc.disks, nc.freeOffset, k, nc.len, diskId, blockNo, buf);
        }
      }
    }

    /** A run of writes that continues a run of t writes to empty disks. The blocks are dealt
        out in turn until the disks are full; every strip stays as encode means to leave it,
        every block written is still on its disk at the end, and no other data block has changed. */
    method WriteAll(bufs: seq<Block>, ghost t: nat) returns (slots: seq<Slot>)
      requires Valid() && nc.spaceList == [] && forall d :: 0 <= d < nc.total ==> !nc.failed[d]
      requires Coded(Code(k), k, stripSize, nc.disks, nc.len) && nc.Unwritten()
      requires InTurn(nc.freeOffset, nc.freeSize, k, nc.len, t) && t <= k * nc.len
      modifies nc
      ensures Valid() && nc.failed == old(nc.failed)
      ensures Coded(Code(k), k, stripSize, nc.disks, nc.len) && nc.Unwritten() && nc.spaceList == []
      ensures InTurn(nc.freeOffset, nc.freeSize, k, nc.len, t + |slots|)
      ensures |slots| == if t + |bufs| <= k * nc.len then |bufs| else k * nc.len - t
      ensures forall i :: 0 <= i < |slots| ==>
        slots[i] == Turn(k, t + i) && slots[i].block < nc.len &&
        nc.disks[slots[i].disk][slots[i].block] == bufs[i]
      ensures forall d, b :: 0 <= d < k && 0 <= b < nc.len && Slot(d, b) !in slots ==>
        nc.disks[d][b] == old(nc.disks)[d][b]
    {
      hide Accounts, Coded, Due, InTurn, Turn, QCells, QList, NoneBelow, Symmetric;
      slots := [];
      while |slots| < |bufs|
        invariant Valid() && nc.failed == old(nc.failed) && |slots| <= |bufs|
        invariant Coded(Code(k), k, stripSize, nc.disks, nc.len) && nc.Unwritten() && nc.spaceList == []
        invariant InTurn(nc.freeOffset, nc.freeSize, k, nc.len, t + |slots|) && t + |slots| <= k * nc.len
        invariant forall i :: 0 <= i < |slots| ==>
          slots[i] == Turn(k, t + i) && slots[i].block < nc.len &&
          slots[i].block < nc.freeOffset[slots[i].disk] && nc.disks[slots[i].disk][slots[i].block] == bufs[i]
        invariant forall d, b :: 0 <= d < k && 0 <= b < nc.len && Slot(d, b) !in slots ==>
          nc.disks[d][b] == old(nc.disks)[d][b]
        decreases |bufs| - |slots|
      {
        ghost var offsets, sizes := nc.freeOffset, nc.freeSize;
        var d, b := Encode(bufs[|slots|]);
        DueInTurn(offsets, sizes, nc.freeOffset, nc.freeSize, k, nc.len, t + |slots|, d, b);
        if d == -1 { break; }
        slots := slots + [Slot(d, b)];
      }
    }

    /** Reads block b of disk d, rebuilding it if d is the one failed disk. A data or P block
        comes back as it was. The Q block of diagonal l comes back with the P block of row
        l + 1 added, because the table lists that block but encode never added it. */
    method Decode(d: nat, b: nat) returns (ok: bool, buf: Block)
      requires Valid() && d < nc.total && b < nc.len && CodedAt(Code(k), k, stripSize, nc.disks, nc.len, b)
      modifies nc`readLog
      ensures ok <==> !nc.failed[d] || nc.OnlyFailed(d)
      ensures ok && (!nc.failed[d] || d <= k) ==> buf == nc.disks[d][b]
      ensures ok && nc.failed[d] && d == k + 1 ==>
        (b % stripSize == k - 1 ==> buf == nc.disks[d][b]) &&
        (b % stripSize < k - 1 ==> b + 1 < nc.len && buf == Xor(nc.disks[k][b + 1], nc.disks[d][b]))
    {
      hide Xor, RowXorBut, XorCells, QCells, QList, Base;
      if !nc.failed[d] {
        buf := nc.ReadDisk(d, b);
        return true, buf;
      }
      buf := 0;
      var count := nc.CountFailed();
      nc.OneFailure(d);
      if count != 1 { return false, 0; }
      ok := true;
      StripBounds(b, stripSize, nc.len);
      if d < nc.total - 1 {
        buf := nc.XorRow(d, b, buf);
        RowRebuilds(k, stripSize, nc.disks, nc.len, d, b);
      } else {
        buf := RebuildQ(Base(b, stripSize), b % stripSize);
      }
    }

    /** Q block offset of the strip at base, from the blocks the table lists for it. */
    method RebuildQ(base: nat, offset: nat) returns (buf: Block)
      requires Valid() && nc.OnlyFailed(k + 1) && base + stripSize <= nc.len && offset < stripSize
      requires IsStored(k, Strip(nc.disks, base, stripSize))
      modifies nc`readLog
      ensures buf ==
        if offset + 1 < k then Xor(nc.disks[k][base + offset + 1], nc.disks[k + 1][base + offset])
        else nc.disks[k + 1][base + offset]
    {
      hide Xor, XorCells, RowXor, QCells, DiagCells, QList, Symmetric, NoneBelow;
      QBeforeQ(k, offset);
      var cells := QList(table, offset, k + 2);
      assert cells == QCells(k, offset);
      buf := XorListed(nc, k + 1, base, stripSize, cells);
      ghost var c := Strip(nc.disks, base, stripSize);
      assert var q := c[k + 1]; q[offset] == XorCells(c, DiagCells(k, offset, k));
      QCellsSum(k, c, offset);
      XorZero(c[k + 1][offset]);
    }
  }

  /** A write keeps all strips as encode means to leave them exactly when it overwrites a zero
      block. */
  lemma WriteKeepsStoredIffFresh(k: nat, len: nat, before: seq<Column>, after: seq<Column>, d: nat, b: nat, v: Block)
    requires k > 0 && IsArray(k, k, before, len) && IsArray(k, k, after, len) && d < k && b < len
    requires Coded(Code(k), k, k, before, len)
    requires WrittenAt(k, len, before, after, d, b, v, MentionList(k, d, b % k))
    ensures Coded(Code(k), k, k, after, len) <==> before[d][b] == 0
  {
    hide IsStored, WrittenAt, Coded, Overwritten, DiagCells;
    StripBounds(b, k, len);
    StripCoded(k, before, len, b);
    OverwriteKeepsStoredIffFresh(k, Strip(before, Base(b, k), k), d, b % k, v);
    CodeKeptIffFresh(Code(k), k, len, before, after, d, b, v, MentionList(k, d, b % k), before[d][b] == 0);
  }

  lemma StripCoded(k: nat, disks: seq<Column>, len: nat, b: nat)
    requires k > 0 && Coded(Code(k), k, k, disks, len) && b < len
    ensures Base(b, k) + k <= len && CodedAt(Code(k), k, k, disks, len, b)
    ensures IsStored(k, Strip(disks, Base(b, k), k))
  {
    StripBounds(b, k, len);
    assert CodedAt(Code(k), k, k, disks, len, b);
  }

  /** Empty disks hold codewords. */
  lemma EmptyIsCoded(k: nat, disks: seq<Column>, len: nat)
    requires k > 0 && IsArray(k, k, disks, len)
    requires forall j, b :: 0 <= j < k + 2 && 0 <= b < len ==> disks[j][b] == 0
    ensures Coded(Code(k), k, k, disks, len)
  {
    hide IsStored, Base;
    forall b | 0 <= b < len ensures CodedAt(Code(k), k, k, disks, len, b) {
      StripBounds(b, k, len);
      ZeroIsStored(k, Strip(disks, Base(b, k), k));
    }
  }
}
