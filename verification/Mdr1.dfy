/** The MDR-I coding layer: writing blocks, and rebuilding the blocks of one failed disk. */
module Mdr1 {
  import opened Bits
  import opened Blocks
  import opened IntMod
  import opened MdrCode
  import opened MdrRepair
  import opened MdrStore
  import opened MdrMatrix
  import opened StripWrite
  import opened Ncfs

  class Mdr1Layer {
    const nc: DiskArray
    const k: nat
    const stripSize: nat
    var matrix: array2<nat>
    /** Cached by the first repair of a data or P disk, and by the first repair of Q. */
    var rowsKnown: bool
    var listsKnown: bool
    var qListsKnown: bool
    var stripeIndex: seq<nat>
    var nonStripeIndex: map<nat, seq<seq<nat>>>
    var qStripeIndex: map<nat, seq<seq<nat>>>
    /** The failed disk that the row and block lists were computed for. */
    ghost var cachedDisk: nat

    ghost predicate Valid()
      reads this, nc, matrix
    {
      k > 0 && nc.Valid() && nc.total == k + 2 && stripSize == Pow2(k) && nc.len % stripSize == 0 &&
      MatrixOk(matrix, k) && cachedDisk <= k &&
      (rowsKnown ==> stripeIndex == ReadList(k, cachedDisk, Pow2(k))) &&
      (listsKnown ==> rowsKnown && ListsFor(cachedDisk, nonStripeIndex)) &&
      (qListsKnown ==> forall r :: 0 <= r < stripSize ==> r in qStripeIndex && QLists(r, qStripeIndex[r]))
    }

    constructor (nc: DiskArray)
      requires nc.Valid() && nc.len % Pow2(nc.total - 2) == 0
      ensures Valid() && this.nc == nc && fresh(matrix) && !rowsKnown && !listsKnown
    {
      this.nc, k, stripSize := nc, nc.total - 2, Pow2(nc.total - 2);
      rowsKnown, listsKnown, qListsKnown := false, false, false;
      stripeIndex, nonStripeIndex, qStripeIndex := [], map[], map[];
      cachedDisk := 0;
      var m := EncodingMatrix(nc.total - 2);
      matrix := m;
    }

    /** The disk whose lists a repair of disk d works from: the lists are computed once and
        kept, whichever disk fails later. */
    ghost function PlanFor(d: nat): nat
      reads this
    {
      if rowsKnown then cachedDisk else d
    }

    ghost predicate ListsFor(d: nat, m: map<nat, seq<seq<nat>>>)
      requires d <= k
    {
      forall t :: 0 <= t < Pow2(k) && !Reads(k, d, t) ==> t in m && m[t] == Lists(k, d, SolvedBy(k, d, t))
    }

    ghost predicate QLists(r: nat, lists: seq<seq<nat>>) {
      |lists| == k + 1 && forall j :: 0 <= j <= k ==> lists[j] == NamedList(k, r, j, Pow2(k))
    }

    /** The bit test of the matrix code. */
    predicate Marked(r: nat, j: nat, t: nat)
      requires Valid() && r < stripSize && j <= k && t < stripSize
      reads this, nc, matrix
    {
      Bit(matrix[r, j], stripSize - t - 1)
    }

    lemma MarkedIsNamed(r: nat, j: nat, t: nat)
      requires Valid() && r < stripSize && j <= k && t < stripSize
      ensures Marked(r, j, t) == Names(k, r, j, t)
    {
      assert MaskOk(matrix[r, j], k, r, j);
    }

    /** The Q blocks to update when block blockNo of data disk diskId changes: a Q block is
        listed once for naming that block and once for naming the P block of its row. */
    method FindQBlocksId(diskId: nat, blockNo: nat) returns (ivec: seq<nat>)
      requires Valid() && diskId < k && blockNo < stripSize
      ensures NamesEach(ivec, MentionList(k, diskId, blockNo))
      ensures forall r: nat ::
        multiset(ivec)[r] ==
          if r >= stripSize then 0
          else (if Names(k, r, diskId, blockNo) then 1 else 0) + (if Names(k, r, k, blockNo) then 1 else 0)
    {
      ivec := [];
      for i := 0 to stripSize
        invariant forall m :: 0 <= m < |ivec| ==> ivec[m] < stripSize
        invariant forall r: nat :: multiset(ivec)[r] == if r < i then Mentions(k, diskId, blockNo, r) else 0
      {
        MarkedIsNamed(i, diskId, blockNo);
        MarkedIsNamed(i, k, blockNo);
        if Marked(i, diskId, blockNo) { ivec := ivec + [i]; }
        if Marked(i, k, blockNo) { ivec := ivec + [i]; }
      }
    }

    /** The blocks that Q block blockNo is the XOR of, column by column. */
    method RepairQDiskBlocksId(blockNo: nat) returns (iivec: seq<seq<nat>>)
      requires Valid() && blockNo < stripSize
      ensures QLists(blockNo, iivec)
    {
      iivec := [];
      for i := 0 to k + 1
        invariant |iivec| == i && forall j :: 0 <= j < i ==> iivec[j] == NamedList(k, blockNo, j, Pow2(k))
      {
        var ivec := [];
        for j := 0 to stripSize
          invariant ivec == NamedList(k, blockNo, i, j)
        {
          MarkedIsNamed(blockNo, i, j);
          if Marked(blockNo, i, j) { ivec := ivec + [j]; }
        }
        iivec := iivec + [ivec];
      }
    }

    /** For every block that is not read, the lists of read blocks that rebuild it. No row
        lacks an unread block, so the error exit of the source is never taken. */
    method NonstripeIndexsBlocksNo(ghost d: nat, rows: seq<nat>) returns (ivmap: map<nat, seq<seq<nat>>>)
      requires Valid() && d <= k && rows == ReadList(k, d, Pow2(k))
      ensures ListsFor(d, ivmap)
    {
      hide Accounts, Reads, Solves, SolvedBy, Names, Lists, ReadList, ReadCount, Pow2, MatrixOk;
      ivmap := map[];
      var read := set i | i in rows;
      RowSet(d, rows, read);
      for i := 0 to |rows|
        invariant forall t :: t in ivmap ==> ivmap[t] == Lists(k, d, SolvedBy(k, d, t))
        invariant forall m :: 0 <= m < i ==> Solves(k, d, rows[m]) in ivmap
      {
        var iivec, lost := UnreadOfRow(d, rows[i], read);
        if lost == -1 { assert false; }
        SolvesBijection(k, d, rows[i], rows[i]);
        ivmap := ivmap[lost := iivec];
      }
      AllSolved(d, rows, ivmap.Keys);
    }

    lemma RowSet(d: nat, rows: seq<nat>, read: set<nat>)
      requires rows == ReadList(k, d, Pow2(k)) && read == set i | i in rows
      ensures forall t: nat :: t in read <==> t < Pow2(k) && Reads(k, d, t)
    {
      forall t: nat | t < Pow2(k) && Reads(k, d, t) ensures t in read { ReadListHasAll(k, d, Pow2(k), t); }
    }

    lemma AllSolved(d: nat, rows: seq<nat>, solved: set<nat>)
      requires k > 0 && d <= k && rows == ReadList(k, d, Pow2(k))
      requires forall m :: 0 <= m < |rows| ==> Solves(k, d, rows[m]) in solved
      ensures forall t :: 0 <= t < Pow2(k) && !Reads(k, d, t) ==> t in solved
    {
      hide Accounts, Reads, Solves, SolvedBy;
      forall t | 0 <= t < Pow2(k) && !Reads(k, d, t) ensures t in solved {
        SolvesBijection(k, d, t, t);
        ReadListHasAll(k, d, Pow2(k), SolvedBy(k, d, t));
      }
    }

    /** One row of the matrix: the read blocks it names, disk by disk and with its own Q
        block last, and the one block it names that is not read. */
    method UnreadOfRow(ghost d: nat, r: nat, read: set<nat>) returns (iivec: seq<seq<nat>>, lost: int)
      requires Valid() && d <= k && r < stripSize && Reads(k, d, r)
      requires forall t: nat :: t in read <==> t < stripSize && Reads(k, d, t)
      ensures iivec == Lists(k, d, r) && lost == Solves(k, d, r)
    {
      hide Accounts, Reads, Solves, Names, MatrixOk, QLists, ListsFor;
      iivec, lost := [], -1;
      SolvesBijection(k, d, r, r);
      for j := 0 to k + 1
        invariant |iivec| == j && forall c :: 0 <= c < j ==> iivec[c] == NamedRead(k, d, r, c, Pow2(k))
        invariant lost == if d < j then Solves(k, d, r) else -1
      {
        var ivec := [];
        for t := 0 to stripSize
          invariant ivec == NamedRead(k, d, r, j, t)
          invariant lost == if d < j || (d == j && Solves(k, d, r) < t) then Solves(k, d, r) else -1
        {
          MarkedIsNamed(r, j, t);
          OneUnread(k, d, r, j, t);
          if Marked(r, j, t) {
            if t in read { ivec := ivec + [t]; } else { lost := t; }
          }
        }
        iivec := iivec + [ivec];
      }
      iivec := iivec + [[r]];
    }

    /** Writes one data block, updating P and Q in place. */
    method Store(d: nat, b: nat, buf: Block)
      requires Valid() && d < k && b < nc.len && forall j :: 0 <= j < nc.total ==> !nc.failed[j]
      modifies nc`disks, nc`readLog
      ensures Valid() && IsArray(k, Pow2(k), nc.disks, nc.len)
      ensures WrittenAt(k, nc.len, old(nc.disks), nc.disks, d, b, buf, MentionList(k, d, b % Pow2(k)))
      ensures OnlyWritten(k, nc.len, old(nc.disks), nc.disks, d, b, buf)
      ensures ParityAdded(k, stripSize, nc.len, old(nc.disks), nc.disks, d, b, buf)
      ensures old(Coded(Code(k), k, Pow2(k), nc.disks, nc.len)) ==>
        (Coded(Code(k), k, Pow2(k), nc.disks, nc.len) <==> old(nc.disks)[d][b] == 0)
    {
      hide Accounts, WrittenAt, MentionList, Coded, MatrixOk, Code, Pow2, OnlyWritten, ParityAdded, ReadList, ListsFor,
        QLists;
      var rows := FindQBlocksId(d, b % stripSize);
      StoreNamed(nc, k, stripSize, d, b, buf, rows);
    }

    /** Stores one block in the slot that is due. */
    method Encode(buf: Block) returns (diskId: int, blockNo: nat)
      requires Valid() && forall d :: 0 <= d < nc.total ==> !nc.failed[d]
      modifies nc
      ensures Valid() && -1 <= diskId < k && (diskId >= 0 ==> blockNo < nc.len) && nc.failed == old(nc.failed)
      ensures Due(old(nc.freeOffset), old(nc.freeSize), old(nc.spaceList), k, diskId, blockNo)
      ensures nc.spaceList ==
        if old(nc.spaceList) != [] &&
          (forall d :: 0 <= d < k ==> old(nc.freeSize)[d] < 1 || old(nc.freeOffset)[d] > old(nc.freeOffset)[0])
        then old(nc.spaceList)[1..] else old(nc.spaceList)
      ensures
        var x := if diskId == 0 && old(nc.freeSize)[0] >= 1 then 1 else 0;
        var y := if x == 1 && blockNo % stripSize == 0 then stripSize else 0;
        forall i :: 0 <= i < k + 2 ==>
          var taken := if i == diskId then 1 else if i == k then x else if i == k + 1 then y else 0;
          nc.freeSize[i] == old(nc.freeSize)[i] - taken &&
          nc.freeOffset[i] == if i == diskId then blockNo + 1 else old(nc.freeOffset)[i] + taken
      ensures OnlyWritten(k, nc.len, old(nc.disks), nc.disks, diskId, blockNo, buf)
      ensures diskId == -1 ==> nc.disks == old(nc.disks)
      ensures diskId >= 0 ==>
        IsArray(k, Pow2(k), nc.disks, nc.len) &&
        WrittenAt(k, nc.len, old(nc.disks), nc.disks, diskId, blockNo, buf, MentionList(k, diskId, blockNo % Pow2(k)))
      ensures diskId >= 0 ==> ParityAdded(k, stripSize, nc.len, old(nc.disks), nc.disks, diskId, blockNo, buf)
      ensures old(Coded(Code(k), k, Pow2(k), nc.disks, nc.len)) && diskId >= 0 ==>
        (Coded(Code(k), k, Pow2(k), nc.disks, nc.len) <==> old(nc.disks)[diskId][blockNo] == 0)
      ensures old(Coded(Code(k), k, Pow2(k), nc.disks, nc.len) && nc.Unwritten() && nc.spaceList == []) ==>
        Coded(Code(k), k, Pow2(k), nc.disks, nc.len) && nc.Unwritten() && nc.spaceList == []
    {
      hide Accounts, WrittenAt, MentionList, Coded, Code, MatrixOk, Due, Eligible, OnlyWritten, ZeroPast, ParityAdded;
      diskId, blockNo := nc.Allocate(stripSize);
      NothingWritten(k, nc.len, nc.disks, blockNo, buf);
      if diskId != -1 {
        ghost var before := nc.disks;
        Store(diskId, blockNo, buf);
        if ZeroPast(before, nc.freeOffset, k, nc.len) {
          WriteKeepsZeroPast(before, nc.disks, nc.freeOffset, k, nc.len, diskId, blockNo, buf);
        }
      }
    }

    /** A run of writes that continues a run of t writes to empty disks. The blocks are dealt
        out in turn until the disks are full; everything stays coded, every block written is
        still on its disk at the end, and no other data block has changed. */
    method WriteAll(bufs: seq<Block>, ghost t: nat) returns (slots: seq<Slot>)
      requires Valid() && nc.spaceList == [] && forall d :: 0 <= d < nc.total ==> !nc.failed[d]
      requires Coded(Code(k), k, Pow2(k), nc.disks, nc.len) && nc.Unwritten()
      requires InTurn(nc.freeOffset, nc.freeSize, k, nc.len, t) && t <= k * nc.len
      modifies nc
      ensures Valid() && nc.failed == old(nc.failed)
      ensures Coded(Code(k), k, Pow2(k), nc.disks, nc.len) && nc.Unwritten() && nc.spaceList == []
      ensures InTurn(nc.freeOffset, nc.freeSize, k, nc.len, t + |slots|)
      ensures |slots| == if t + |bufs| <= k * nc.len then |bufs| else k * nc.len - t
      ensures forall i :: 0 <= i < |slots| ==>
        slots[i] == Turn(k, t + i) && slots[i].block < nc.len &&
        nc.disks[slots[i].disk][slots[i].block] == bufs[i]
      ensures forall d, b :: 0 <= d < k && 0 <= b < nc.len && Slot(d, b) !in slots ==>
        nc.disks[d][b] == old(nc.disks)[d][b]
    {
      hide Accounts, WrittenAt, MatrixOk, Coded, Due, InTurn, MentionList, Turn;
      slots := [];
      while |slots| < |bufs|
        invariant Valid() && nc.failed == old(nc.failed) && |slots| <= |bufs|
        invariant Coded(Code(k), k, Pow2(k), nc.disks, nc.len) && nc.Unwritten() && nc.spaceList == []
        invariant InTurn(nc.freeOffset, nc.freeSize, k, nc.len, t + |slots|) && t + |slots| <= k * nc.len
        invariant forall i :: 0 <= i < |slots| ==>
          slots[i] == Turn(k, t + i) && slots[i].block < nc.len &&
          slots[i].block < nc.freeOffset[slots[i].disk] && nc.disks[slots[i].disk][slots[i].block] == bufs[i]
        invariant forall d, b :: 0 <= d < k && 0 <= b < nc.len && Slot(d, b) !in slots ==>
          nc.disks[d][b] == old(nc.disks)[d][b]
        decreases |bufs| - |slots|
      {
        ghost var offsets, sizes := nc.freeOffset, nc.freeSize;
        var d, b := Encode(bufs[|slots|]);
        DueInTurn(offsets, sizes, nc.freeOffset, nc.freeSize, k, nc.len, t + |slots|, d, b);
        if d == -1 { break; }
        slots := slots + [Slot(d, b)];
      }
    }

    /** Adds to buf the listed blocks of column j of the strip at base. If j is the failed
        disk each of them is first rebuilt from its row. */
    method XorListed(d: nat, j: nat, rows: seq<nat>, base: nat, buf: Block) returns (r: Block)
      requires Valid() && base + stripSize <= nc.len && nc.OnlyFailed(d) && j < k + 2
      requires d <= k && IsCodeword(k, Strip(nc.disks, base, stripSize))
      requires forall i :: 0 <= i < |rows| ==> rows[i] < stripSize
      modifies nc`readLog
      ensures r == Xor(buf, XorAt(Strip(nc.disks, base, stripSize)[j], rows))
    {
      hide Accounts, Xor, RowXorBut, IsCodeword, MatrixOk;
      ghost var c := Strip(nc.disks, base, stripSize);
      r := buf;
      XorZero(buf);
      for i := 0 to |rows|
        invariant r == Xor(buf, XorAt(c[j], rows[..i]))
      {
        if j == d {
          ReadRowRebuilds(k, c, d, rows[i]);
          StripRowXorBut(nc.disks, base, stripSize, d, k + 1, rows[i]);
          r := nc.XorRow(d, base + rows[i], r);
        } else {
          var temp := nc.ReadDisk(j, base + rows[i]);
          r := Xor(r, temp);
        }
        XorAtAppend(c[j], rows[..i], rows[i]);
        XorAssoc(buf, XorAt(c[j], rows[..i]), c[j][rows[i]]);
        assert rows[..i + 1] == rows[..i] + [rows[i]];
      }
      assert rows[..|rows|] == rows;
    }

    /** Fills the row cache on the first repair. */
    method CacheRows(d: nat)
      requires Valid() && d <= k
      modifies this`rowsKnown, this`stripeIndex, this`cachedDisk
      ensures Valid() && rowsKnown && cachedDisk == old(PlanFor(d))
    {
      if !rowsKnown {
        rowsKnown := true;
        stripeIndex := StripeIndexs(d, k);
        cachedDisk := d;
      }
    }

    /** Fills the list cache on the first repair that needs it. */
    method CacheLists()
      requires Valid() && rowsKnown
      modifies this`listsKnown, this`nonStripeIndex
      ensures Valid() && listsKnown
    {
      if !listsKnown {
        nonStripeIndex := NonstripeIndexsBlocksNo(cachedDisk, stripeIndex);
        listsKnown := true;
      }
    }

    /** Reads block b of disk d, rebuilding it if d is the one failed disk. A repair that
        works from the lists of another disk e is right in the rows that e's lists read, and
        elsewhere returns the block of disk e. A failed Q disk is never rebuilt here. */
    method Decode(d: nat, b: nat) returns (ok: bool, buf: Block)
      requires Valid() && d < nc.total && b < nc.len && CodedAt(Code(k), k, Pow2(k), nc.disks, nc.len, b)
      modifies this, nc`readLog
      ensures Valid() && ok == (!nc.failed[d] || nc.OnlyFailed(d))
      ensures ok && nc.failed[d] && d <= k ==>
        rowsKnown && PlanFor(d) == old(PlanFor(d)) <= k &&
        buf == nc.disks[if Reads(k, PlanFor(d), b % Pow2(k)) then d else PlanFor(d)][b]
      ensures ok && nc.failed[d] && d == k + 1 ==> buf == 0
      ensures !nc.failed[d] ==>
        buf == nc.disks[d][b] && rowsKnown == old(rowsKnown) && cachedDisk == old(cachedDisk)
    {
      hide Accounts, Reads, MatrixOk, IsCodeword, QLists, ListsFor;
      if !nc.failed[d] {
        buf := nc.ReadDisk(d, b);
        return true, buf;
      }
      buf := 0;
      var count := nc.CountFailed();
      nc.OneFailure(d);
      if count != 1 { return false, 0; }
      ok := true;
      if d <= k {
        CacheRows(d);
        StripBounds(b, stripSize, nc.len);
        var base, offset := b / stripSize * stripSize, b % stripSize;
        buf := RebuildBlock(d, base, offset);
      }
    }

    /** Rebuilds block offset of failed data or P disk d in the strip at base. */
    method RebuildBlock(d: nat, base: nat, offset: nat) returns (buf: Block)
      requires Valid() && rowsKnown && nc.OnlyFailed(d) && d <= k
      requires base + stripSize <= nc.len && offset < stripSize
      requires IsCodeword(k, Strip(nc.disks, base, stripSize))
      modifies this`listsKnown, this`nonStripeIndex, nc`readLog
      ensures Valid()
      ensures buf == nc.disks[if Reads(k, cachedDisk, offset) then d else cachedDisk][base + offset]
    {
      hide Accounts, Reads, Solves, SolvedBy, RowXorBut, KnownXor, XorAt, IsCodeword, Lists, Xor, MatrixOk;
      ghost var c := Strip(nc.disks, base, stripSize);
      buf := 0;
      ListedIffRead(cachedDisk, offset);
      if offset in stripeIndex {
        buf := nc.XorRow(d, base + offset, buf);
        ReadRowRebuilds(k, c, d, offset);
        StripRowXorBut(nc.disks, base, stripSize, d, k + 1, offset);
        XorZero(RowXorBut(nc.disks, d, k + 1, base + offset));
      } else {
        CacheLists();
        QRowRebuilds(k, c, cachedDisk, offset);
        buf := XorLists(d, cachedDisk, base, SolvedBy(k, cachedDisk, offset), nonStripeIndex[offset]);
      }
    }

    lemma ListedIffRead(e: nat, t: nat)
      requires t < Pow2(k)
      ensures t in ReadList(k, e, Pow2(k)) <==> Reads(k, e, t)
    {
      if Reads(k, e, t) { ReadListHasAll(k, e, Pow2(k), t); }
    }

    lemma ListedIffReads(e: nat)
      ensures forall t :: 0 <= t < Pow2(k) ==> (t in ReadList(k, e, Pow2(k)) <==> Reads(k, e, t))
    {
      forall t | 0 <= t < Pow2(k) ensures t in ReadList(k, e, Pow2(k)) <==> Reads(k, e, t) { ListedIffRead(e, t); }
    }

    /** Adds up everything on the lists that solve for a block of disk e, while disk d is failed. */
    method XorLists(d: nat, ghost e: nat, base: nat, ghost r: nat, lists: seq<seq<nat>>) returns (buf: Block)
      requires Valid() && nc.OnlyFailed(d) && d <= k && e <= k && base + stripSize <= nc.len && r < stripSize
      requires IsCodeword(k, Strip(nc.disks, base, stripSize)) && lists == Lists(k, e, r)
      modifies nc`readLog
      ensures var c := Strip(nc.disks, base, stripSize);
        IsStripe(k, c[..k + 1]) && buf == Xor(KnownXor(k, e, r, c[..k + 1], k + 1), c[k + 1][r])
    {
      hide Accounts, Xor, XorAt, KnownXor, ParityOk, MatrixOk, QRow;
      ghost var c := Strip(nc.disks, base, stripSize);
      ghost var a := c[..k + 1];
      buf := 0;
      KnownXorNone(e, r, a);
      for j := 0 to k + 1
        invariant buf == KnownXor(k, e, r, a, j)
      {
        KnownXorStep(e, r, a, j);
        buf := XorListed(d, j, lists[j], base, buf);
      }
      buf := XorListed(d, k + 1, lists[k + 1], base, buf);
      XorAtOne(c[k + 1], r);
    }

    lemma XorAtOne(col: Column, r: nat)
      requires r < |col|
      ensures XorAt(col, [r]) == col[r]
    {
      XorAtAppend(col, [], r);
      XorZero(col[r]);
    }

    // ---- Rebuilding a whole strip ----

    /** The buffer holds the listed rows of strip c, except for column skip. */
    ghost predicate Holds(pread: array2<Block>, c: seq<Column>, rows: seq<nat>, skip: nat)
      requires IsFullStripe(k, c) && pread.Length1 == k + 2 && |rows| <= pread.Length0
      requires forall i :: 0 <= i < |rows| ==> rows[i] < Pow2(k)
      reads pread
    {
      forall i, j :: 0 <= i < |rows| && 0 <= j < k + 2 && j != skip ==> pread[i, j] == c[j][rows[i]]
    }

    /** Slot s is a listed row of the strip at base, on a disk below top other than d. */
    ghost predicate IsListed(s: Slot, rows: seq<nat>, base: nat, d: nat, top: nat) {
      s.disk < top && s.disk != d && s.block >= base && s.block - base in rows
    }

    /** Reads the listed rows of the disks below top, other than d, into the buffer. */
    method ReadRows(d: nat, rows: seq<nat>, base: nat, top: nat, pread: array2<Block>)
      requires Valid() && nc.OnlyFailed(d) && base + stripSize <= nc.len && top <= k + 2
      requires forall i :: 0 <= i < |rows| ==> rows[i] < stripSize
      requires pread.Length1 == k + 2 && |rows| <= pread.Length0 && pread != matrix
      modifies pread, nc`readLog
      ensures Valid()
      ensures forall i, j :: 0 <= i < pread.Length0 && 0 <= j < k + 2 ==>
        pread[i, j] == if i < |rows| && j < top && j != d then nc.disks[j][base + rows[i]] else old(pread[i, j])
      ensures forall s :: s in nc.readLog <==> s in old(nc.readLog) || IsListed(s, rows, base, d, top)
    {
      hide Accounts, MatrixOk;
      for i := 0 to |rows|
        invariant Valid()
        invariant forall m, j :: 0 <= m < pread.Length0 && 0 <= j < k + 2 ==>
          pread[m, j] == if m < i && j < top && j != d then nc.disks[j][base + rows[m]] else old(pread[m, j])
        invariant forall s :: s in nc.readLog <==> s in old(nc.readLog) || IsListed(s, rows[..i], base, d, top)
      {
        for j := 0 to top
          invariant Valid()
          invariant forall m, c :: 0 <= m < pread.Length0 && 0 <= c < k + 2 ==>
            pread[m, c] ==
              if (m < i && c < top && c != d) || (m == i && c < j && c != d) then nc.disks[c][base + rows[m]]
              else old(pread[m, c])
          invariant forall s :: s in nc.readLog <==>
            s in old(nc.readLog) || IsListed(s, rows[..i], base, d, top) ||
            (s.disk < j && s.disk != d && s.block == base + rows[i])
        {
          if j != d {
            pread[i, j] := nc.ReadDisk(j, base + rows[i]);
          }
        }
        assert rows[..i + 1] == rows[..i] + [rows[i]];
      }
      assert rows[..|rows|] == rows;
    }

    /** Rebuilds the failed column in the rows that were read. */
    method RebuildReadRows(d: nat, ghost c: seq<Column>, buf: array<Block>, pread: array2<Block>)
      requires Valid() && d <= k && rowsKnown && IsFullStripe(k, c) && IsCodeword(k, c)
      requires buf.Length == stripSize && pread.Length1 == k + 2 && |stripeIndex| <= pread.Length0 && pread != matrix
      requires Holds(pread, c, stripeIndex, d) && forall i :: 0 <= i < |stripeIndex| ==> pread[i, d] == 0
      modifies buf, pread
      ensures Valid() && Holds(pread, c, stripeIndex, k + 2)
      ensures forall t :: 0 <= t < stripSize ==> buf[t] == if t in stripeIndex then c[d][t] else old(buf[t])
    {
      hide Accounts, MatrixOk, Xor, RowXorBut, IsCodeword, ReadList, Reads;
      for i := 0 to |stripeIndex|
        invariant Valid() && Holds(pread, c, stripeIndex, d)
        invariant forall m :: 0 <= m < |stripeIndex| ==> pread[m, d] == if m < i then c[d][stripeIndex[m]] else 0
        invariant forall t :: 0 <= t < stripSize ==>
          buf[t] == if t in stripeIndex[..i] then c[d][t] else old(buf[t])
      {
        var t := stripeIndex[i];
        RowXorButNone(c, d, t);
        for j := 0 to k + 1
          modifies pread
          invariant Valid() && Holds(pread, c, stripeIndex, d)
          invariant pread[i, d] == RowXorBut(c, d, j, t)
          invariant forall m :: 0 <= m < |stripeIndex| && m != i ==>
            pread[m, d] == if m < i then c[d][stripeIndex[m]] else 0
        {
          RowXorButStep(c, d, j, t);
          if j != d { pread[i, d] := Xor(pread[i, d], pread[i, j]); }
        }
        ReadRowRebuilds(k, c, d, t);
        buf[t] := pread[i, d];
        assert stripeIndex[..i + 1] == stripeIndex[..i] + [t];
      }
      assert stripeIndex[..|stripeIndex|] == stripeIndex;
    }

    lemma RowXorButNone(c: seq<Column>, d: nat, t: nat)
      ensures RowXorBut(c, d, 0, t) == 0
    {
    }

    lemma RowXorButStep(c: seq<Column>, d: nat, j: nat, t: nat)
      requires j < |c| && forall i :: 0 <= i <= j ==> t < |c[i]|
      ensures RowXorBut(c, d, j + 1, t) ==
        if j == d then RowXorBut(c, d, j, t) else Xor(RowXorBut(c, d, j, t), c[j][t])
    {
    }

    /** Position of a row in the buffer. */
    method ChgBlkIndexOffset(t: nat) returns (count: int)
      ensures t in stripeIndex ==> 0 <= count < |stripeIndex| && stripeIndex[count] == t
      ensures t !in stripeIndex ==> count == -1
    {
      for i := 0 to |stripeIndex|
        invariant t !in stripeIndex[..i]
      {
        if t == stripeIndex[i] { return i; }
      }
      return -1;
    }

    /** Adds the buffered blocks of column j at the listed rows. Every listed row is in the
        buffer, so the error exit of the source is never taken. */
    method AddBuffered(rows: seq<nat>, j: nat, ghost c: seq<Column>, pread: array2<Block>, before: Block)
      returns (v: Block)
      requires IsFullStripe(k, c) && j < k + 2
      requires pread.Length1 == k + 2 && |stripeIndex| <= pread.Length0
      requires forall i :: 0 <= i < |stripeIndex| ==> stripeIndex[i] < Pow2(k)
      requires Holds(pread, c, stripeIndex, k + 2)
      requires forall i :: 0 <= i < |rows| ==> rows[i] in stripeIndex && rows[i] < Pow2(k)
      ensures v == Xor(before, XorAt(c[j], rows))
    {
      hide Accounts, Xor, XorAt;
      v := before;
      XorAtNone(c[j]);
      XorZero(before);
      for x := 0 to |rows|
        invariant v == Xor(before, XorAt(c[j], rows[..x]))
      {
        var par := ChgBlkIndexOffset(rows[x]);
        if par == -1 { assert false; }
        v := Xor(v, pread[par, j]);
        XorAtAppend(c[j], rows[..x], rows[x]);
        XorAssoc(before, XorAt(c[j], rows[..x]), c[j][rows[x]]);
        assert rows[..x + 1] == rows[..x] + [rows[x]];
      }
      assert rows[..|rows|] == rows;
    }

    lemma ListedRowsAreRead(d: nat, r: nat)
      requires d <= k && Reads(k, d, r) && r < Pow2(k)
      ensures var lists, read := Lists(k, d, r), ReadList(k, d, Pow2(k));
        forall j, i :: 0 <= j < k + 2 && 0 <= i < |lists[j]| ==> lists[j][i] in read && lists[j][i] < Pow2(k)
    {
      hide Accounts, Reads;
      var lists, read := Lists(k, d, r), ReadList(k, d, Pow2(k));
      forall j, i | 0 <= j < k + 2 && 0 <= i < |lists[j]| ensures lists[j][i] in read && lists[j][i] < Pow2(k) {
        ReadListHasAll(k, d, Pow2(k), lists[j][i]);
      }
    }

    /** Adds the buffered blocks that solve for block t of the disk the lists were computed for. */
    method RebuildOther(t: nat, ghost c: seq<Column>, pread: array2<Block>) returns (v: Block)
      requires Valid() && rowsKnown && listsKnown
      requires IsFullStripe(k, c) && IsCodeword(k, c) && t < stripSize && t !in stripeIndex
      requires pread.Length1 == k + 2 && |stripeIndex| <= pread.Length0
      requires Holds(pread, c, stripeIndex, k + 2)
      ensures v == c[cachedDisk][t]
    {
      hide Accounts, MatrixOk, Xor, XorAt, KnownXor, Reads, Solves, SolvedBy, Names, IsCodeword, Lists, ReadList, Holds;
      ghost var d := cachedDisk;
      ListedIffRead(d, t);
      QRowRebuilds(k, c, d, t);
      ghost var a, r := c[..k + 1], SolvedBy(k, d, t);
      ListedRowsAreRead(d, r);
      var iivec := nonStripeIndex[t];
      v := 0;
      KnownXorNone(d, r, a);
      for j := 0 to |iivec|
        invariant v == if j <= k + 1 then KnownXor(k, d, r, a, j) else Xor(KnownXor(k, d, r, a, k + 1), c[k + 1][r])
      {
        v := AddBuffered(iivec[j], j, c, pread, v);
        if j <= k { KnownXorStep(d, r, a, j); } else { XorAtOne(c[k + 1], r); }
      }
    }

    lemma KnownXorNone(d: nat, r: nat, a: seq<Column>)
      requires IsStripe(k, a)
      ensures KnownXor(k, d, r, a, 0) == 0
    {
    }

    lemma KnownXorStep(d: nat, r: nat, a: seq<Column>, j: nat)
      requires IsStripe(k, a) && j <= k
      ensures KnownXor(k, d, r, a, j + 1) == Xor(KnownXor(k, d, r, a, j), XorAt(a[j], Lists(k, d, r)[j]))
    {
    }

    /** The list of all rows of a strip. */
    function AllRows(n: nat): (s: seq<nat>)
      ensures |s| == n && forall i :: 0 <= i < n ==> s[i] == i
    {
      seq(n, i requires 0 <= i < n => i)
    }

    /** Fills the list cache for Q on its first repair. */
    method CacheQLists()
      requires Valid()
      modifies this`qListsKnown, this`qStripeIndex
      ensures Valid() && qListsKnown
    {
      if !qListsKnown {
        qStripeIndex := map[];
        for i := 0 to stripSize
          invariant Valid() && !qListsKnown
          invariant forall r :: 0 <= r < i ==> r in qStripeIndex && QLists(r, qStripeIndex[r])
        {
          var lists := RepairQDiskBlocksId(i);
          qStripeIndex := qStripeIndex[i := lists];
        }
        qListsKnown := true;
      }
    }

    /** Q block r of a strip held in the buffer, from the blocks its row names. */
    method RebuildQ(r: nat, ghost c: seq<Column>, pread: array2<Block>) returns (v: Block)
      requires Valid() && qListsKnown && r < stripSize
      requires IsFullStripe(k, c) && IsCodeword(k, c)
      requires pread.Length1 == k + 2 && stripSize <= pread.Length0 && Holds(pread, c, AllRows(stripSize), k + 1)
      ensures v == c[k + 1][r]
    {
      hide Accounts, MatrixOk, Xor, XorAt, QRow, Names, Named, NamedList;
      ghost var a := c[..k + 1];
      var iivec := qStripeIndex[r];
      v := 0;
      QRowNone(r, a);
      for j := 0 to |iivec|
        invariant v == QRow(k, r, a, j)
      {
        ghost var before := v;
        XorAtNone(a[j]);
        XorZero(before);
        for x := 0 to |iivec[j]|
          invariant v == Xor(before, XorAt(a[j], iivec[j][..x]))
        {
          var row := iivec[j][x];
          assert AllRows(stripSize)[row] == row;
          v := Xor(v, pread[row, j]);
          XorAtAppend(a[j], iivec[j][..x], row);
          XorAssoc(before, XorAt(a[j], iivec[j][..x]), a[j][row]);
          assert iivec[j][..x + 1] == iivec[j][..x] + [row];
        }
        assert iivec[j][..|iivec[j]|] == iivec[j];
        NamedListXor(k, r, j, a[j], |a[j]|);
        QRowStep(r, a, j);
      }
      assert var q := c[k + 1]; q[r] == QValue(k, r, a);
    }

    lemma QRowNone(r: nat, a: seq<Column>)
      ensures QRow(k, r, a, 0) == 0
    {
    }

    lemma QRowStep(r: nat, a: seq<Column>, j: nat)
      requires j < |a|
      ensures QRow(k, r, a, j + 1) == Xor(QRow(k, r, a, j), Named(k, r, j, a[j], |a[j]|))
    {
    }

    /** Adds the rebuilt block to every row of the zeroed buffer that was not read. */
    method RebuildOtherRows(ghost c: seq<Column>, buf: array<Block>, pread: array2<Block>)
      requires Valid() && rowsKnown && listsKnown && IsFullStripe(k, c) && IsCodeword(k, c)
      requires buf.Length == stripSize && pread.Length1 == k + 2 && |stripeIndex| <= pread.Length0
      requires Holds(pread, c, stripeIndex, k + 2)
      requires forall t :: 0 <= t < stripSize && t !in stripeIndex ==> buf[t] == 0
      modifies buf
      ensures forall t :: 0 <= t < stripSize ==>
        buf[t] == if t in stripeIndex then old(buf[t]) else c[cachedDisk][t]
    {
      hide Accounts, MatrixOk, Xor, IsCodeword, Reads, ReadList, Lists;
      for t := 0 to stripSize
        invariant forall u :: 0 <= u < stripSize ==>
          buf[u] == if u in stripeIndex then old(buf[u]) else if u < t then c[cachedDisk][u] else 0
      {
        if t !in stripeIndex {
          var v := RebuildOther(t, c, pread);
          XorZero(v);
          buf[t] := Xor(buf[t], v);
        }
      }
    }

    /** The blocks a strip repair may read: for a data or P disk the rows of the other disks
        that e's list selects, half of the strip; for Q all rows of the data and P disks. */
    ghost predicate IsRead(s: Slot, base: nat, d: nat, e: nat) {
      if d <= k then IsListed(s, ReadList(k, e, Pow2(k)), base, d, k + 2)
      else IsListed(s, AllRows(Pow2(k)), base, d, k + 1)
    }

    /** What a strip repair needs before it starts. */
    method CacheBoth(d: nat)
      requires Valid() && d <= k
      modifies this
      ensures Valid() && matrix == old(matrix) && rowsKnown && listsKnown && cachedDisk == old(PlanFor(d))
      ensures |stripeIndex| == stripSize / 2 && stripeIndex == ReadList(k, cachedDisk, Pow2(k))
      ensures forall i :: 0 <= i < |stripeIndex| ==> stripeIndex[i] < stripSize
      ensures forall t :: 0 <= t < stripSize ==> (t in stripeIndex <==> Reads(k, cachedDisk, t))
    {
      hide Accounts, MatrixOk, Reads, QLists, ListsFor, Pow2;
      CacheRows(d);
      CacheLists();
      HalfOfRows(cachedDisk);
      ListedIffReads(cachedDisk);
    }

    method RecoverDataOrP(d: nat, base: nat, buf: array<Block>, pread: array2<Block>)
      requires Valid() && nc.OnlyFailed(d) && d <= k && base + stripSize <= nc.len
      requires IsFullStripe(k, Strip(nc.disks, base, stripSize)) && IsCodeword(k, Strip(nc.disks, base, stripSize))
      requires buf.Length == stripSize && forall t :: 0 <= t < stripSize ==> buf[t] == 0
      requires pread != matrix && pread.Length1 == k + 2 && pread.Length0 == stripSize / 2
      requires forall i, j :: 0 <= i < pread.Length0 && 0 <= j < k + 2 ==> pread[i, j] == 0
      modifies this, nc`readLog, buf, pread
      ensures Valid() && matrix == old(matrix) && rowsKnown && cachedDisk == old(PlanFor(d))
      ensures forall t :: 0 <= t < stripSize ==>
        buf[t] == nc.disks[if Reads(k, cachedDisk, t) then d else cachedDisk][base + t]
      ensures forall s :: s in nc.readLog <==> s in old(nc.readLog) || IsRead(s, base, d, cachedDisk)
    {
      hide Accounts, MatrixOk, Xor, IsCodeword, ReadList, Reads, QLists, ListsFor, Pow2;
      ghost var c := Strip(nc.disks, base, stripSize);
      CacheBoth(d);
      ReadRows(d, stripeIndex, base, k + 2, pread);
      RebuildReadRows(d, c, buf, pread);
      RebuildOtherRows(c, buf, pread);
    }

    method RecoverQ(base: nat, buf: array<Block>, pread: array2<Block>)
      requires Valid() && nc.OnlyFailed(k + 1) && base + stripSize <= nc.len
      requires IsFullStripe(k, Strip(nc.disks, base, stripSize)) && IsCodeword(k, Strip(nc.disks, base, stripSize))
      requires buf.Length == stripSize && pread != matrix && pread.Length1 == k + 2 && pread.Length0 == stripSize
      modifies this`qListsKnown, this`qStripeIndex, nc`readLog, buf, pread
      ensures Valid() && matrix == old(matrix) && cachedDisk == old(cachedDisk) && rowsKnown == old(rowsKnown)
      ensures forall t :: 0 <= t < stripSize ==> buf[t] == nc.disks[k + 1][base + t]
      ensures forall s :: s in nc.readLog <==> s in old(nc.readLog) || IsRead(s, base, k + 1, cachedDisk)
    {
      hide Accounts, MatrixOk, Xor, IsCodeword;
      ghost var c := Strip(nc.disks, base, stripSize);
      ReadRows(k + 1, AllRows(stripSize), base, k + 1, pread);
      CacheQLists();
      for r := 0 to stripSize
        modifies buf
        invariant forall u :: 0 <= u < r ==> buf[u] == c[k + 1][u]
      {
        buf[r] := RebuildQ(r, c, pread);
      }
    }

    /** The disk whose block b a repair of disk d from the lists of disk e returns. */
    ghost function Source(d: nat, e: nat, b: nat): nat {
      if d > k || Reads(k, e, b % Pow2(k)) then d else e
    }

    /** Reads the strip of a healthy disk. */
    method CopyStrip(d: nat, base: nat, buf: array<Block>)
      requires nc.Valid() && d < nc.total && !nc.failed[d] && base + buf.Length <= nc.len
      modifies nc`readLog, buf
      ensures nc.Valid() && forall t :: 0 <= t < buf.Length ==> buf[t] == nc.disks[d][base + t]
      ensures forall s :: s in nc.readLog <==>
        s in old(nc.readLog) || (s.disk == d && base <= s.block < base + buf.Length)
    {
      hide Accounts;
      for t := 0 to buf.Length
        invariant nc.Valid() && forall u :: 0 <= u < t ==> buf[u] == nc.disks[d][base + u]
        invariant forall s :: s in nc.readLog <==> s in old(nc.readLog) || (s.disk == d && base <= s.block < base + t)
      {
        var temp := nc.ReadDisk(d, base + t);
        buf[t] := temp;
      }
    }

    /** Reads or rebuilds the strip of disk d that starts at block base. A healthy disk is read
        as it is. A failed disk is rebuilt, reading only what is needed; the result is the lost
        strip when the lists in use are those of d. */
    method RecoverOneStripeGroup(d: nat, base: nat, buf: array<Block>, pread: array2<Block>) returns (ok: bool)
      requires Valid() && d < nc.total && base < nc.len && base % stripSize == 0
      requires CodedAt(Code(k), k, Pow2(k), nc.disks, nc.len, base)
      requires buf.Length == stripSize && pread != matrix && pread.Length1 == k + 2
      requires pread.Length0 == if d <= k then stripSize / 2 else stripSize
      requires forall i, j :: 0 <= i < pread.Length0 && 0 <= j < k + 2 ==> pread[i, j] == 0
      modifies this, nc`readLog, buf, pread
      ensures Valid() && matrix == old(matrix) && PlanFor(d) == old(PlanFor(d))
      ensures ok <==> !nc.failed[d] || nc.OnlyFailed(d)
      ensures ok && d <= k ==> PlanFor(d) <= k
      ensures ok ==> base + stripSize <= nc.len && forall t :: 0 <= t < stripSize ==>
        buf[t] == nc.disks[if nc.failed[d] then Source(d, PlanFor(d), t) else d][base + t]
      ensures ok ==> forall s :: s in nc.readLog <==>
        s in old(nc.readLog) ||
        if nc.failed[d] then IsRead(s, base, d, PlanFor(d)) else s.disk == d && base <= s.block < base + stripSize
    {
      hide Accounts, MatrixOk, IsCodeword, ReadList, Lists, Reads;
      BaseOfMultiple(base);
      StripBounds(base, stripSize, nc.len);
      if !nc.failed[d] {
        CopyStrip(d, base, buf);
        return true;
      }
      for i := 0 to buf.Length
        modifies buf
        invariant forall m :: 0 <= m < i ==> buf[m] == 0
      {
        buf[i] := 0;
      }
      var count := nc.CountFailed();
      nc.OneFailure(d);
      if count != 1 { return false; }
      ok := true;
      RowsBelow();
      if d <= k {
        RecoverDataOrP(d, base, buf, pread);
      } else {
        RecoverQ(base, buf, pread);
      }
    }

    /** Rebuilds a whole failed disk onto a new device, strip by strip. The device becomes the
        lost disk when no lists of another disk have been kept. */
    method RecoverOneDisk(d: nat, device: array<Block>)
      requires Valid() && nc.OnlyFailed(d) && device.Length == nc.len
      requires Coded(Code(k), k, Pow2(k), nc.disks, nc.len)
      modifies this, nc`readLog, device
      ensures Valid() && PlanFor(d) == old(PlanFor(d)) && (d <= k ==> PlanFor(d) <= k)
      ensures forall b :: 0 <= b < nc.len ==> device[b] == nc.disks[Source(d, PlanFor(d), b)][b]
      ensures old(PlanFor(d)) == d ==> device[..] == nc.disks[d]
      ensures d <= k ==> forall s :: s in nc.readLog ==>
        s in old(nc.readLog) || (s.disk != d && s.disk < k + 2 && Reads(k, PlanFor(d), s.block % Pow2(k)))
    {
      hide Accounts, MatrixOk, Coded, IsCodeword, Reads, ReadList, IsRead, Source;
      var i := 0;
      var rows := if d <= k then stripSize / 2 else stripSize;
      ghost var e := PlanFor(d);
      SourceInArray(d, e);
      while i < nc.len
        invariant Valid() && nc.OnlyFailed(d) && PlanFor(d) == e && device.Length == nc.len
        invariant i <= nc.len && i % stripSize == 0 && matrix == old(matrix)
        invariant forall b :: 0 <= b < i ==> device[b] == nc.disks[Source(d, e, b)][b]
        invariant d <= k ==> forall s :: s in nc.readLog ==>
          s in old(nc.readLog) || (s.disk != d && s.disk < k + 2 && Reads(k, e, s.block % Pow2(k)))
      {
        var buf := new Block[stripSize];
        var pread := new Block[rows, k + 2]((_, _) => 0);
        StripIsCoded(i);
        var ok := RecoverOneStripeGroup(d, i, buf, pread);
        ReadsInStrip(d, e, i);
        CopyToDevice(d, e, i, buf, device);
        NextStrip(i);
        i := i + stripSize;
      }
      SourceIsLost(d);
    }

    method CopyToDevice(d: nat, ghost e: nat, i: nat, buf: array<Block>, device: array<Block>)
      requires Valid() && device != buf && buf.Length == stripSize && device.Length == nc.len && i + stripSize <= nc.len
      requires i % stripSize == 0 && d <= k + 1 && forall b :: Source(d, e, b) < nc.total
      requires forall t :: 0 <= t < stripSize ==> buf[t] == nc.disks[Source(d, e, t)][i + t]
      requires forall b :: 0 <= b < i ==> device[b] == nc.disks[Source(d, e, b)][b]
      modifies device
      ensures forall b :: 0 <= b < i + stripSize ==> device[b] == nc.disks[Source(d, e, b)][b]
    {
      hide Accounts, MatrixOk, Source;
      for j := 0 to stripSize
        invariant forall b :: 0 <= b < i + j ==> device[b] == nc.disks[Source(d, e, b)][b]
      {
        SourceInStrip(d, e, i, j);
        device[i + j] := buf[j];
      }
    }

    lemma SourceInArray(d: nat, e: nat)
      requires d <= k + 1 && (d <= k ==> e <= k)
      ensures forall b :: Source(d, e, b) <= k + 1
    {
    }

    lemma SourceInStrip(d: nat, e: nat, base: nat, t: nat)
      requires base % Pow2(k) == 0 && t < Pow2(k)
      ensures Source(d, e, base + t) == Source(d, e, t)
    {
      hide Reads;
      OffsetInStrip(base, t);
      SmallMod(t, Pow2(k));
    }

    lemma SourceIsLost(d: nat)
      ensures forall b :: Source(d, d, b) == d
    {
    }

    lemma RowsBelow()
      ensures forall t :: 0 <= t < Pow2(k) ==> t % Pow2(k) == t
    {
      hide Pow2;
      forall t | 0 <= t < Pow2(k) ensures t % Pow2(k) == t { SmallMod(t, Pow2(k)); }
    }

    lemma StripIsCoded(b: nat)
      requires Valid() && Coded(Code(k), k, Pow2(k), nc.disks, nc.len) && b < nc.len
      ensures CodedAt(Code(k), k, Pow2(k), nc.disks, nc.len, b)
    {
    }

    lemma NextStrip(i: nat)
      requires Pow2(k) > 0 && i % Pow2(k) == 0
      ensures (i + Pow2(k)) % Pow2(k) == 0
    {
      AddMultiple(i, 1, Pow2(k));
    }

    lemma OffsetInStrip(base: nat, t: nat)
      requires base % Pow2(k) == 0 && t < Pow2(k)
      ensures (base + t) % Pow2(k) == t
    {
      var n := Pow2(k);
      assert base == base / n * n;
      DivMod(base + t, base / n, t, n);
    }

    lemma ReadsInStrip(d: nat, e: nat, base: nat)
      requires k > 0 && base % Pow2(k) == 0
      ensures d <= k ==> forall s :: IsRead(s, base, d, e) ==>
        s.disk != d && s.disk < k + 2 && Reads(k, e, s.block % Pow2(k))
    {
      hide Accounts, Reads;
      forall s | d <= k && IsRead(s, base, d, e) ensures Reads(k, e, s.block % Pow2(k)) {
        assert s.block - base in ReadList(k, e, Pow2(k));
        OffsetInStrip(base, s.block - base);
      }
    }

    lemma BaseOfMultiple(base: nat)
      requires Pow2(k) > 0 && base % Pow2(k) == 0
      ensures Base(base, Pow2(k)) == base
    {
    }

    lemma HalfOfRows(d: nat)
      requires k > 0 && d <= k && stripSize == Pow2(k)
      ensures |ReadList(k, d, Pow2(k))| == stripSize / 2
    {
      HalfIsRead(k, d);
    }
  }
}
