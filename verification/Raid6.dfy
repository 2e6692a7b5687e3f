/** The RAID-6 coding layer: writing with rotating parity, and reading around one or two
    failed disks. */
module Raid6 {
  import opened Bits
  import opened Blocks
  import opened GaloisBlocks
  import opened GaloisTables
  import opened IntMod
  import opened Ncfs
  import opened Raid6Alloc
  import opened Raid6Code

  /** Row b of the disks. */
  function RowOf(disks: seq<Column>, b: nat): (row: seq<Block>)
    requires forall i :: 0 <= i < |disks| ==> b < |disks[i]|
    ensures |row| == |disks| && forall i :: 0 <= i < |row| ==> row[i] == disks[i][b]
  {
    seq(|disks|, i requires 0 <= i < |disks| => disks[i][b])
  }

  /** Every row is coded. */
  ghost predicate AllCoded(n: nat, len: nat, disks: seq<Column>) {
    |disks| == n && (forall i :: 0 <= i < n ==> |disks[i]| == len) &&
    forall b :: 0 <= b < len ==> IsRow(n, b, RowOf(disks, b))
  }

  lemma {:induction false} ZeroSums(n: nat, b: nat, row: seq<Block>, skip: set<nat>, m: nat)
    requires 3 <= n <= 10 && |row| == n && m <= n && forall i :: 0 <= i < n ==> row[i] == 0
    ensures PSum(row, skip, m) == 0 && QSum(n, b, row, skip, m) == 0
  {
    hide CodeDisk, ParityDisk;
    XorZero(0);
    if m > 0 {
      ZeroSums(n, b, row, skip, m - 1);
      if IsData(n, b, m - 1) { ScaleZeroBlock(Weight(n, b, m - 1)); }
    }
  }

  /** Empty disks are coded. */
  lemma EmptyIsCoded(n: nat, len: nat, disks: seq<Column>)
    requires 3 <= n <= 10 && |disks| == n && forall i :: 0 <= i < n ==> |disks[i]| == len
    requires forall i, b :: 0 <= i < n && 0 <= b < len ==> disks[i][b] == 0
    ensures AllCoded(n, len, disks)
  {
    hide PSum, QSum, CodeDisk, ParityDisk;
    forall b | 0 <= b < len ensures IsRow(n, b, RowOf(disks, b)) {
      ZeroSums(n, b, RowOf(disks, b), {ParityDisk(n, b), CodeDisk(n, b)}, n);
      ZeroSums(n, b, RowOf(disks, b), {}, n);
    }
  }

  /** Rows that are not written stay coded. */
  lemma StillCoded(n: nat, len: nat, before: seq<Column>, after: seq<Column>, b: nat)
    requires AllCoded(n, len, before) && |after| == n && (forall i :: 0 <= i < n ==> |after[i]| == len) && b < len
    requires forall i, c :: 0 <= i < n && 0 <= c < len && c != b ==> after[i][c] == before[i][c]
    requires IsRow(n, b, RowOf(after, b))
    ensures AllCoded(n, len, after)
  {
    hide IsRow;
    forall c | 0 <= c < len ensures IsRow(n, c, RowOf(after, c)) {
      if c != b { assert RowOf(after, c) == RowOf(before, c); }
    }
  }

  /** Writing the sums of the data blocks to P and Q makes a row coded. */
  lemma RowWritten(n: nat, b: nat, len: nat, written: seq<Column>, after: seq<Column>, p: Block, q: Block)
    requires 3 <= n <= 10 && |written| == n && (forall i :: 0 <= i < n ==> |written[i]| == len) && b < len
    requires after == Put(Put(written, ParityDisk(n, b), b, p), CodeDisk(n, b), b, q)
    requires p == PSum(RowOf(written, b), {ParityDisk(n, b), CodeDisk(n, b)}, n)
    requires q == QSum(n, b, RowOf(written, b), {}, n)
    ensures |after| == n && (forall i :: 0 <= i < n ==> |after[i]| == len)
    ensures IsRow(n, b, RowOf(after, b))
    ensures forall i, c :: 0 <= i < n && 0 <= c < len && (c == b ==> IsData(n, b, i)) ==>
      after[i][c] == written[i][c]
  {
    hide PSum, QSum, CodeDisk, ParityDisk;
    ParityBeforeCode(n, b);
    PSumAgree(RowOf(after, b), RowOf(written, b), {ParityDisk(n, b), CodeDisk(n, b)}, n);
    QSumAgree(n, b, RowOf(after, b), RowOf(written, b), {}, n);
  }

  /** The blocks of bufs are in their slots, those of writes t, t + 1, and so on, and the other
      data blocks are as they were. */
  ghost predicate AllThere(
      n: nat, len: nat, was: seq<Column>, now: seq<Column>, t: nat, slots: seq<Slot>, bufs: seq<Block>)
  {
    n >= 3 && |slots| <= |bufs| && |was| == |now| == n && (forall i :: 0 <= i < n ==> |was[i]| == |now[i]| == len) &&
    (forall i :: 0 <= i < |slots| ==>
      slots[i] == RotatingTurn(n, t + i) && slots[i].block < len && now[slots[i].disk][slots[i].block] == bufs[i]) &&
    forall d, b :: 0 <= d < n && 0 <= b < len && IsData(n, b, d) && Slot(d, b) !in slots ==> now[d][b] == was[d][b]
  }

  lemma NextThere(
      n: nat, len: nat, was: seq<Column>, mid: seq<Column>, now: seq<Column>, t: nat, slots: seq<Slot>,
      bufs: seq<Block>, d: nat, b: nat)
    requires |slots| < |bufs| && AllThere(n, len, was, mid, t, slots, bufs) && d < n && b < len
    requires Slot(d, b) == RotatingTurn(n, t + |slots|) && |now| == n && forall i :: 0 <= i < n ==> |now[i]| == len
    requires forall i, c :: 0 <= i < n && 0 <= c < len && IsData(n, c, i) ==>
      now[i][c] == if i == d && c == b then bufs[|slots|] else mid[i][c]
    ensures AllThere(n, len, was, now, t, slots + [Slot(d, b)], bufs)
  {
    hide RotatingTurn, IsData;
    forall i | 0 <= i < |slots| ensures slots[i] != Slot(d, b) { TurnsDiffer(n, t + i, t + |slots|); }
  }

  class Raid6Layer {
    const nc: DiskArray
    const n: nat
    const gflog: seq<nat>
    const gfilog: seq<nat>

    ghost predicate Valid()
      reads nc
    {
      nc.Shape() && n == nc.total && 3 <= n <= 10 && IsGfTable(gflog, gfilog) &&
      Accounts(nc.freeOffset, nc.freeSize, nc.spaceList, n, nc.len)
    }

    constructor (nc: DiskArray)
      requires nc.Shape() && 3 <= nc.total <= 10
      requires Accounts(nc.freeOffset, nc.freeSize, nc.spaceList, nc.total, nc.len)
      ensures Valid() && this.nc == nc
    {
      this.nc, n := nc, nc.total;
      var log, ilog := GfGenTables();
      gflog, gfilog := log[..], ilog[..];
    }

    // ---- Writing ----

    /** Moves each disk that stands on a slot for P or Q on by one. */
    method StepOffsets()
      requires Valid()
      modifies nc`freeOffset, nc`freeSize
      ensures Valid()
      ensures nc.freeOffset == SteppedOffset(n, old(nc.freeOffset))
      ensures nc.freeSize == SteppedSize(n, old(nc.freeOffset), old(nc.freeSize))
    {
      hide Accounts, CodeDisk, ParityDisk, IsGfTable, SteppedOffset, SteppedSize;
      ghost var offset, size := nc.freeOffset, nc.freeSize;
      for i := 0 to n
        invariant Valid()
        invariant forall j :: 0 <= j < n ==>
          nc.freeOffset[j] == if j < i then SteppedOffset(n, offset)[j] else offset[j]
        invariant forall j :: 0 <= j < n ==>
          nc.freeSize[j] == if j < i then SteppedSize(n, offset, size)[j] else size[j]
      {
        var o := nc.freeOffset[i];
        SteppedAccounts(nc.freeOffset, nc.freeSize, nc.spaceList, n, nc.len, i);
        if i == CodeDisk(n, o) || i == ParityDisk(n, o) {
          nc.freeOffset, nc.freeSize := nc.freeOffset[i := o + 1], nc.freeSize[i := nc.freeSize[i] - 1];
        }
      }
    }

    /** P and Q of row b, from all its data blocks. */
    method ComputeParity(b: nat) returns (p: Block, q: Block)
      requires Valid() && b < nc.len && forall d :: 0 <= d < n ==> !nc.failed[d]
      modifies nc`readLog
      ensures p == PSum(RowOf(nc.disks, b), {ParityDisk(n, b), CodeDisk(n, b)}, n)
      ensures q == QSum(n, b, RowOf(nc.disks, b), {}, n)
    {
      hide Accounts, Xor, Scale, CodeDisk, ParityDisk, IsGfTable;
      p, q := 0, 0;
      ghost var row := RowOf(nc.disks, b);
      for i := 0 to n
        invariant p == PSum(row, {ParityDisk(n, b), CodeDisk(n, b)}, i)
        invariant q == QSum(n, b, row, {}, i)
      {
        if i != ParityDisk(n, b) && i != CodeDisk(n, b) {
          var temp := nc.ReadDisk(i, b);
          p := Xor(p, temp);
          q := Xor(q, MulBlock(gflog, gfilog, temp, Weight(n, b, i)));
        }
      }
    }

    /** Writes one block and recomputes P and Q of its row from the data. If the block is not
        a data slot of its row, it is overwritten at once. */
    method Store(d: nat, b: nat, buf: Block)
      requires Valid() && d < n && b < nc.len && forall i :: 0 <= i < n ==> !nc.failed[i]
      modifies nc`disks, nc`readLog
      ensures Valid()
      ensures forall i, c :: 0 <= i < n && 0 <= c < nc.len && (c == b ==> IsData(n, b, i)) ==>
        nc.disks[i][c] == if i == d && c == b then buf else old(nc.disks)[i][c]
      ensures IsRow(n, b, RowOf(nc.disks, b))
      ensures IsData(n, b, d) ==> QUpdated(n, b, RowOf(old(nc.disks), b), RowOf(nc.disks, b), d, buf)
    {
      hide Accounts, PSum, QSum, CodeDisk, ParityDisk, IsGfTable, QUpdated, IsRow, IsData;
      ghost var was := RowOf(nc.disks, b);
      nc.WriteDisk(d, b, buf);
      ghost var written := nc.disks;
      var p, q := ComputeParity(b);
      nc.WriteDisk(ParityDisk(n, b), b, p);
      nc.WriteDisk(CodeDisk(n, b), b, q);
      RowWritten(n, b, nc.len, written, nc.disks, p, q);
      if IsData(n, b, d) { QUpdatedWhenCoded(n, b, was, RowOf(nc.disks, b), d, buf); }
    }

    /** Takes the slot that is due after the parity slots have been stepped over. */
    method Allocate() returns (diskId: int, blockNo: nat)
      requires Valid()
      modifies nc`freeOffset, nc`freeSize, nc`spaceList
      ensures Valid() && -1 <= diskId < n && (diskId >= 0 ==> blockNo < nc.len)
      ensures
        var offset, size := SteppedOffset(n, old(nc.freeOffset)), SteppedSize(n, old(nc.freeOffset), old(nc.freeSize));
        Due(offset, size, old(nc.spaceList), n, diskId, blockNo) &&
        (forall i :: 0 <= i < n ==>
          nc.freeOffset[i] == (if i == diskId then blockNo + 1 else offset[i]) &&
          nc.freeSize[i] == size[i] - if i == diskId then 1 else 0) &&
        nc.spaceList ==
          if old(nc.spaceList) != [] && (forall d :: 0 <= d < n ==> size[d] < 1 || offset[d] > offset[0])
          then old(nc.spaceList)[1..] else old(nc.spaceList)
    {
      hide Accounts, Eligible, Due, CodeDisk, ParityDisk, IsGfTable, IsData, SteppedOffset, SteppedSize;
      StepOffsets();
      ghost var offset, size, list := nc.freeOffset, nc.freeSize, nc.spaceList;
      var d, b := nc.Pick(n);
      diskId, blockNo := nc.HandOut(n, nc.len, d, b);
      PickedIsDue(offset, size, list, n, d, b, diskId, blockNo);
    }

    /** Stores one block in the slot that is due after the parity slots have been stepped over.
        A write keeps all rows coded whatever was in the block before. */
    method Encode(buf: Block) returns (diskId: int, blockNo: nat)
      requires Valid() && forall d :: 0 <= d < n ==> !nc.failed[d]
      modifies nc
      ensures Valid() && -1 <= diskId < n && (diskId >= 0 ==> blockNo < nc.len) && nc.failed == old(nc.failed)
      ensures
        var offset, size := SteppedOffset(n, old(nc.freeOffset)), SteppedSize(n, old(nc.freeOffset), old(nc.freeSize));
        Due(offset, size, old(nc.spaceList), n, diskId, blockNo) &&
        (forall i :: 0 <= i < n ==>
          nc.freeOffset[i] == (if i == diskId then blockNo + 1 else offset[i]) &&
          nc.freeSize[i] == size[i] - if i == diskId then 1 else 0) &&
        nc.spaceList ==
          if old(nc.spaceList) != [] && (forall d :: 0 <= d < n ==> size[d] < 1 || offset[d] > offset[0])
          then old(nc.spaceList)[1..] else old(nc.spaceList)
      ensures diskId == -1 ==> nc.disks == old(nc.disks)
      ensures forall i, c :: 0 <= i < n && 0 <= c < nc.len && IsData(n, c, i) ==>
        nc.disks[i][c] == if i == diskId && c == blockNo then buf else old(nc.disks)[i][c]
      ensures old(AllCoded(n, nc.len, nc.disks)) ==> AllCoded(n, nc.len, nc.disks)
      ensures diskId >= 0 && IsData(n, blockNo, diskId) ==>
        QUpdated(n, blockNo, RowOf(old(nc.disks), blockNo), RowOf(nc.disks, blockNo), diskId, buf)
    {
      hide Accounts, Eligible, Due, IsRow, CodeDisk, ParityDisk, IsGfTable, IsData, QUpdated, SteppedOffset,
        SteppedSize, AllCoded;
      ghost var before := nc.disks;
      diskId, blockNo := Allocate();
      if diskId != -1 {
        Store(diskId, blockNo, buf);
        if AllCoded(n, nc.len, before) { StillCoded(n, nc.len, before, nc.disks, blockNo); }
      }
    }

    /** A run of writes that continues a run of t writes to empty disks. No data slot is skipped
        until the disks are full, and no slot for P or Q is handed out; every block written is
        still there at the end, no other data block has changed, and every row stays coded. */
    method WriteAll(bufs: seq<Block>, ghost t: nat) returns (slots: seq<Slot>)
      requires Valid() && nc.spaceList == [] && forall d :: 0 <= d < n ==> !nc.failed[d]
      requires AllCoded(n, nc.len, nc.disks) && InRotation(nc.freeOffset, nc.freeSize, n, nc.len, t)
      requires t <= (n - 2) * nc.len
      modifies nc
      ensures Valid() && nc.failed == old(nc.failed) && nc.spaceList == []
      ensures AllCoded(n, nc.len, nc.disks) && InRotation(nc.freeOffset, nc.freeSize, n, nc.len, t + |slots|)
      ensures |slots| == if t + |bufs| <= (n - 2) * nc.len then |bufs| else (n - 2) * nc.len - t
      ensures forall i :: 0 <= i < |slots| ==>
        slots[i] == RotatingTurn(n, t + i)
          && slots[i].block < nc.len && nc.disks[slots[i].disk][slots[i].block] == bufs[i]
      ensures forall d, b :: 0 <= d < n && 0 <= b < nc.len && IsData(n, b, d) && Slot(d, b) !in slots ==>
        nc.disks[d][b] == old(nc.disks)[d][b]
    {
      hide Accounts, AllCoded, Due, Taken, InRotation, RotatingTurn, IsData, IsGfTable, SteppedOffset, SteppedSize,
        QUpdated;
      slots := [];
      while |slots| < |bufs|
        invariant Valid() && nc.failed == old(nc.failed) && nc.spaceList == [] && |slots| <= |bufs|
        invariant AllCoded(n, nc.len, nc.disks) && InRotation(nc.freeOffset, nc.freeSize, n, nc.len, t + |slots|)
        invariant t + |slots| <= (n - 2) * nc.len
        invariant AllThere(n, nc.len, old(nc.disks), nc.disks, t, slots, bufs)
        decreases |bufs| - |slots|
      {
        ghost var offset, size, before, j := nc.freeOffset, nc.freeSize, nc.disks, t + |slots|;
        var d, b := Encode(bufs[|slots|]);
        IsTaken(SteppedOffset(n, offset), SteppedSize(n, offset, size), nc.freeOffset, nc.freeSize, n, d, b);
        DueInRotation(offset, size, nc.freeOffset, nc.freeSize, n, nc.len, j, d, b);
        if d == -1 { break; }
        NextThere(n, nc.len, old(nc.disks), before, nc.disks, t, slots, bufs, d, b);
        slots := slots + [Slot(d, b)];
      }
    }

    // ---- Reading ----

    /** Adds block b of every disk but those in skip to buf. */
    method XorDisks(b: nat, skip: set<nat>, buf: Block) returns (r: Block)
      requires Valid() && b < nc.len && forall i :: 0 <= i < n && nc.failed[i] ==> i in skip
      modifies nc`readLog
      ensures r == Xor(buf, PSum(RowOf(nc.disks, b), skip, n))
    {
      hide Accounts, Xor, IsGfTable;
      r := buf;
      XorZero(buf);
      ghost var row := RowOf(nc.disks, b);
      for i := 0 to n
        invariant r == Xor(buf, PSum(row, skip, i))
      {
        if i !in skip {
          var temp := nc.ReadDisk(i, b);
          XorAssoc(buf, PSum(row, skip, i), temp);
          r := Xor(r, temp);
        }
      }
    }

    /** The same for data blocks times their coefficients. */
    method CodeDisks(b: nat, skip: set<nat>, buf: Block) returns (r: Block)
      requires Valid() && b < nc.len
      requires forall i :: 0 <= i < n && nc.failed[i] && IsData(n, b, i) ==> i in skip
      modifies nc`readLog
      ensures r == Xor(buf, QSum(n, b, RowOf(nc.disks, b), skip, n))
    {
      hide Accounts, Xor, Scale, CodeDisk, ParityDisk, IsGfTable;
      r := buf;
      XorZero(buf);
      ghost var row := RowOf(nc.disks, b);
      for i := 0 to n
        invariant r == Xor(buf, QSum(n, b, row, skip, i))
      {
        if i !in skip && i != ParityDisk(n, b) && i != CodeDisk(n, b) {
          var temp := nc.ReadDisk(i, b);
          var term := MulBlock(gflog, gfilog, temp, Weight(n, b, i));
          XorAssoc(buf, QSum(n, b, row, skip, i), term);
          r := Xor(r, term);
        }
      }
    }

    /** Block b of failed disk d and at most one more, neither of them both P and Q. */
    method SolveForData(b: nat, x: nat, divisor: nat) returns (r: Block)
      requires Valid() && b < nc.len && IsRow(n, b, RowOf(nc.disks, b)) && 0 < divisor < 256
      requires x < n && IsData(n, b, x)
      requires forall i :: 0 <= i < n && nc.failed[i] ==> i == x || i == ParityDisk(n, b)
      modifies nc`readLog
      ensures Scale(divisor, r) == Scale(Weight(n, b, x), nc.disks[x][b])
    {
      hide Accounts, Xor, Scale, Weight, CodeDisk, PSum, QSum, IsGfTable;
      r := CodeDisks(b, {x}, 0);
      ParityBeforeCode(n, b);
      var temp := nc.ReadDisk(CodeDisk(n, b), b);
      r := Xor(r, temp);
      ghost var row := RowOf(nc.disks, b);
      XorZero(QSum(n, b, row, {x}, n));
      LostFromCode(n, b, row, x);
      r := DivBlock(gflog, gfilog, r, divisor);
    }

    /** Block b of data disk x when data disk y has failed as well. As in the source, the
        quotient is computed again for every disk that is passed; the last one stands. */
    method SolveForPair(b: nat, x: nat, y: nat) returns (buf: Block)
      requires Valid() && b < nc.len && IsRow(n, b, RowOf(nc.disks, b))
      requires x < n && y < n && x != y && IsData(n, b, x) && IsData(n, b, y)
      requires forall i :: 0 <= i < n && nc.failed[i] ==> i == x || i == y
      modifies nc`readLog
      ensures buf == nc.disks[x][b]
    {
      hide Accounts, Xor, Scale, Weight, CodeDisk, ParityDisk, PSum, QSum, IsGfTable, IsRow;
      ghost var row := RowOf(nc.disks, b);
      var parity, code := ParityDisk(n, b), CodeDisk(n, b);
      var g1, g2 := Weight(n, b, x), Weight(n, b, y);
      var g12 := Xor(g1, g2);
      LostPair(n, b, row, x, y);
      var pTemp := XorDisks(b, {parity, code, x, y}, 0);
      XorZero(PSum(row, {parity, code, x, y}, n));
      var temp := nc.ReadDisk(parity, b);
      pTemp := Xor(pTemp, temp);
      var qTemp := 0;
      buf := 0;
      QSumNone(n, b, row, {x, y});
      for i := 0 to n
        invariant qTemp == QSum(n, b, row, {x, y}, i)
        invariant i == n ==> buf == DivBlock(gflog, gfilog, Xor(Xor(Scale(g2, pTemp), qTemp), row[code]), g12)
      {
        QSumNext(n, b, row, {x, y}, i);
        if i != x && i != y && i != parity && i != code {
          temp := nc.ReadDisk(i, b);
          qTemp := Xor(qTemp, MulBlock(gflog, gfilog, temp, Weight(n, b, i)));
        }
        temp := nc.ReadDisk(code, b);
        buf := DivBlock(gflog, gfilog, Xor(Xor(MulBlock(gflog, gfilog, pTemp, g2), qTemp), temp), g12);
      }
      DivUndoesScale(gflog, gfilog, row[x], g12);
    }

    /** Q of row b when data disk x has failed, from the others and the rebuilt block of x. */
    method RebuildCode(b: nat, x: nat, buf: Block) returns (r: Block)
      requires Valid() && b < nc.len && x < n && buf == nc.disks[x][b]
      requires forall i :: 0 <= i < n && nc.failed[i] ==> i == x || i == CodeDisk(n, b)
      modifies nc`readLog
      ensures r == QSum(n, b, RowOf(nc.disks, b), {}, n)
    {
      hide Accounts, Xor, Scale, CodeDisk, ParityDisk, IsGfTable;
      r := 0;
      for i := 0 to n
        invariant r == QSum(n, b, RowOf(nc.disks, b), {}, i)
      {
        if i != ParityDisk(n, b) && i != CodeDisk(n, b) {
          var temp;
          if i != x { temp := nc.ReadDisk(i, b); } else { temp := buf; }
          r := Xor(r, MulBlock(gflog, gfilog, temp, Weight(n, b, i)));
        }
      }
    }

    /** What decode computes for P when data disk x has failed as well: it divides by the
        coefficient that the place of P itself would have. That is the coefficient of x only
        if x comes right after Q. */
    method RebuildParity(b: nat, x: nat) returns (buf: Block)
      requires Valid() && b < nc.len && IsRow(n, b, RowOf(nc.disks, b)) && x < n && IsData(n, b, x)
      requires ParityDisk(n, b) < n - 2
      requires forall i :: 0 <= i < n && nc.failed[i] ==> i == x || i == ParityDisk(n, b)
      modifies nc`readLog
      ensures buf == nc.disks[ParityDisk(n, b)][b] <==> x == CodeDisk(n, b) + 1 || nc.disks[x][b] == 0
    {
      hide Accounts, Xor, Scale, PSum, QSum, IsGfTable, Coefficient;
      var parity, code := ParityDisk(n, b), CodeDisk(n, b);
      ParityBeforeCode(n, b);
      var divisor := Coefficient(n, Place(n, b, parity));
      CoefficientIsByte(n, Place(n, b, parity));
      var r := SolveForData(b, x, divisor);
      buf := XorDisks(b, {parity, code, x}, r);
      ghost var row := RowOf(nc.disks, b);
      ghost var others := PSum(row, {parity, code, x}, n);
      assert {parity, code} + {x} == {parity, code, x};
      PSumSkip(row, {parity, code}, x, n);
      XorComm(r, others);
      XorCancel(r, others);
      XorCancel(row[x], others);
      assert buf == row[parity] <==> r == row[x];
      if x == code + 1 {
        assert Place(n, b, x) == Place(n, b, parity);
        ScaleInjective(divisor, r, row[x]);
      } else {
        PlaceInRange(n, b, x);
        assert Place(n, b, x) != Place(n, b, parity);
        CoefficientsDiffer(n, Place(n, b, x), Place(n, b, parity));
        TwoScales(divisor, Weight(n, b, x), r, row[x]);
      }
    }

    /** The number of failed disks, and the last one besides d. */
    method FindFailed(d: nat) returns (count: nat, another: nat)
      requires Valid() && d < n && nc.failed[d]
      ensures count == |nc.FailedDisks()|
      ensures count == 1 ==> nc.FailedDisks() == {d}
      ensures count == 2 ==> another < n && another != d && nc.FailedDisks() == {d, another}
    {
      hide Accounts, IsGfTable;
      count, another := 0, d;
      ghost var seen: set<nat> := {};
      for i := 0 to n
        invariant seen == (set j: nat | j < i && nc.failed[j]) && count == |seen|
        invariant another < n && (another != d ==> another in seen)
        invariant another == d ==> seen <= {d}
      {
        if nc.failed[i] {
          count, seen := count + 1, seen + {i};
          if i != d { another := i; }
        }
      }
      assert seen == nc.FailedDisks() && d in seen;
      if count == 1 { SameSet({d}, seen); }
      if count == 2 {
        if another == d { SubsetSize(seen, {d}); }
        SameSet({d, another}, seen);
      }
    }

    /** Reads block b of disk d, with at most two failed disks. Reading P after P and a data
        disk have failed is the one case that can go wrong. There the shift count of the
        coefficient is -1 when P is one of the last two disks; that case is excluded. */
    method Decode(d: nat, b: nat) returns (ok: bool, buf: Block)
      requires Valid() && d < n && b < nc.len && IsRow(n, b, RowOf(nc.disks, b))
      requires d == ParityDisk(n, b) && d >= n - 2 ==>
        forall x :: 0 <= x < n && IsData(n, b, x) ==> nc.FailedDisks() != {d, x}
      modifies nc`readLog
      ensures ok <==> !nc.failed[d] || |nc.FailedDisks()| <= 2
      ensures
        ok && (d == ParityDisk(n, b) ==> forall x :: 0 <= x < n && IsData(n, b, x) ==> nc.FailedDisks() != {d, x}) ==>
        buf == nc.disks[d][b]
      ensures forall x :: 0 <= x < n && IsData(n, b, x) && d == ParityDisk(n, b) && nc.FailedDisks() == {d, x} ==>
        (buf == nc.disks[d][b] <==> x == CodeDisk(n, b) + 1 || nc.disks[x][b] == 0)
    {
      hide Accounts, Xor, Scale, Weight, CodeDisk, ParityDisk, PSum, QSum, IsGfTable;
      if !nc.failed[d] {
        buf := nc.ReadDisk(d, b);
        assert d !in nc.FailedDisks();
        return true, buf;
      }
      var count, another := FindFailed(d);
      OnlyThese(d, another, count);
      ParityBeforeCode(n, b);
      var code, parity := CodeDisk(n, b), ParityDisk(n, b);
      ok, buf := true, 0;
      ghost var row := RowOf(nc.disks, b);
      if (count == 1 && d != code) || (count == 2 && another == code) {
        buf := XorDisks(b, {code, d}, 0);
        XorZero(PSum(row, {code, d}, n));
        LostFromParity(n, b, row, d);
      } else if (count == 1 && d == code) || (count == 2 && d == code && another == parity) {
        buf := CodeDisks(b, {}, 0);
        XorZero(QSum(n, b, row, {}, n));
      } else if count == 2 {
        if d == parity && another != code {
          buf := RebuildParity(b, another);
        } else if d == code && another != parity {
          buf := XorDisks(b, {code, another}, 0);
          XorZero(PSum(row, {code, another}, n));
          LostFromParity(n, b, row, another);
          buf := RebuildCode(b, another, buf);
        } else if another == parity {
          buf := SolveForData(b, d, Weight(n, b, d));
          ScaleInjective(Weight(n, b, d), buf, row[d]);
        } else {
          buf := SolveForPair(b, d, another);
        }
      } else {
        ok := false;
      }
    }

    lemma OnlyThese(d: nat, another: nat, count: nat)
      requires Valid() && d < n && nc.failed[d] && count == |nc.FailedDisks()|
      requires count == 1 ==> nc.FailedDisks() == {d}
      requires count == 2 ==> another != d && nc.FailedDisks() == {d, another}
      ensures count >= 1
      ensures count == 1 ==> forall i :: 0 <= i < n && nc.failed[i] ==> i == d
      ensures count == 2 ==> forall i :: 0 <= i < n && nc.failed[i] ==> i == d || i == another
      ensures forall x :: nc.FailedDisks() == {d, x} && x != d ==> count == 2 && x == another
    {
      var s := nc.FailedDisks();
      assert d in s;
      forall i | 0 <= i < n && nc.failed[i] ensures i in s {}
      forall x | s == {d, x} && x != d ensures count == 2 && x == another {
        assert |{d, x}| == 2;
        assert x in {d, another};
      }
    }
  }

  lemma SameSet(a: set<nat>, b: set<nat>)
    requires a <= b && |a| == |b|
    ensures a == b
  {
    if x :| x in b && x !in a { SubsetSize(a, b - {x}); }
  }

  /** Two different coefficients agree on no block but zero. */
  lemma TwoScales(g: nat, h: nat, r: Block, v: Block)
    requires 0 < g < 256 && 0 < h < 256 && g != h && Scale(g, r) == Scale(h, v)
    ensures r == v <==> v == 0
  {
    hide Xor, Scale;
    ScaleZeroBlock(g);
    ScaleZeroBlock(h);
    if v == 0 { ScaleInjective(g, r, 0); }
    if r == v {
      ScaleSum(g, h, v);
      XorZero(Scale(g, v));
      ScaleZeroBlock(Xor(g, h));
      if Xor(g, h) == 0 { EqualIfXorZero(g, h); }
      ScaleInjective(Xor(g, h), v, 0);
    }
  }

  lemma TurnsDiffer(n: nat, s: nat, t: nat)
    requires n >= 3 && s < t
    ensures RotatingTurn(n, s) != RotatingTurn(n, t)
  {
    hide CodeDisk, ParityDisk, IsData, Place, Quotient, Remainder;
    var k := n - 2;
    var q := Quotient(t, k);
    if Quotient(s, k) == q {
      Parts(s, k);
      Parts(t, k);
      assert Place(n, q, DataDisk(n, q, Remainder(s, k))) == Remainder(s, k);
      assert Place(n, q, DataDisk(n, q, Remainder(t, k))) == Remainder(t, k);
    }
  }
}
