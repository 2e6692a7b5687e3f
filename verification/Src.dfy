/** The SRC-RS coding layer: Reed-Solomon rows with SRC diagonals across them, so that one lost
    block can be rebuilt from f others. */
module Src {
  import opened Bits
  import opened Blocks
  import opened GaloisBlocks
  import opened IntMod
  import opened LinearCode
  import opened Ncfs
  import opened SrcAlloc
  import opened SrcCode

  /** The first k blocks of row b. */
  function DataRow(disks: seq<Column>, k: nat, b: nat): (r: seq<Block>)
    ensures |r| == k && forall d :: 0 <= d < k ==> r[d] == At(disks, d, b)
  {
    seq(k, d requires 0 <= d < k => At(disks, d, b))
  }

  /** The RS blocks of a row are the coded sums of its data blocks. */
  ghost predicate RowCoded(n: nat, k: nat, gen: seq<nat>, disks: seq<Column>, b: nat)
    requires k <= n
  {
    forall d :: k <= d < n ==> At(disks, d, b) == CodeSum(gen, k, d - k, DataRow(disks, k, b), k)
  }

  /** Every row but the SRC rows is coded, and every diagonal adds up to zero. */
  ghost predicate IsStored(n: nat, k: nat, f: nat, gen: seq<nat>, disks: seq<Column>, len: nat) {
    k <= n && DiagonalsZero(n, f, disks, len)
      && forall g: nat, r: nat :: r < f ==> RowCoded(n, k, gen, disks, Row(f, g, r))
  }

  /** The rows but the SRC rows are as before except that x has been added to the block in row
      r of segment g of disk d, and the diagonals still add up to zero. */
  ghost predicate PairAdded(
      n: nat, f: nat, len: nat, before: seq<Column>, now: seq<Column>, d: nat, g: nat, r: nat, x: Block)
  {
    IsArray(n, before, len) && IsArray(n, now, len) && d < n && r < f && Row(f, g, r) < len &&
    DiagonalsZero(n, f, now, len) &&
    forall e, b :: 0 <= e < n && 0 <= b < len && Remainder(b, f + 1) != f ==>
      now[e][b] == if e == d && b == Row(f, g, r) then Xor(before[e][b], x) else before[e][b]
  }

  /** Row b while a write is under way that adds x to data block d: the first i RS blocks have
      been updated. The other rows but the SRC rows are untouched. */
  ghost predicate InProgress(
      n: nat, k: nat, f: nat, gen: seq<nat>, len: nat, before: seq<Column>, now: seq<Column>, d: nat, g: nat, r: nat,
      x: Block, i: nat)
  {
    k <= n && d < k && r < f && IsArray(n, before, len) && DiagonalsZero(n, f, now, len) &&
    (forall e, b :: 0 <= e < n && 0 <= b < len && Remainder(b, f + 1) != f && b != Row(f, g, r) ==>
      now[e][b] == before[e][b]) &&
    (forall e :: 0 <= e < n ==>
      At(now, e, Row(f, g, r)) ==
        if e == d then Xor(At(before, e, Row(f, g, r)), x)
        else if k <= e < k + i then Xor(At(before, e, Row(f, g, r)), Scale(Coefficient(gen, k, e - k, d), x))
        else At(before, e, Row(f, g, r)))
  }

  lemma WriteBegins(
      n: nat, k: nat, f: nat, gen: seq<nat>, len: nat, before: seq<Column>, now: seq<Column>, d: nat, g: nat, r: nat,
      x: Block)
    requires d < k <= n && PairAdded(n, f, len, before, now, d, g, r, x)
    ensures InProgress(n, k, f, gen, len, before, now, d, g, r, x, 0)
  {
    hide Xor, Scale, Coefficient, Row, DiagonalsZero;
    RowParts(f, g, r);
  }

  lemma WriteStep(
      n: nat, k: nat, f: nat, gen: seq<nat>, len: nat, before: seq<Column>, mid: seq<Column>, now: seq<Column>, d: nat,
      g: nat, r: nat, x: Block, i: nat)
    requires k + i < n && InProgress(n, k, f, gen, len, before, mid, d, g, r, x, i)
    requires PairAdded(n, f, len, mid, now, k + i, g, r, Scale(Coefficient(gen, k, i, d), x))
    ensures InProgress(n, k, f, gen, len, before, now, d, g, r, x, i + 1)
  {
    hide Xor, Scale, Coefficient, Row, DiagonalsZero;
    RowParts(f, g, r);
  }

  lemma {:induction false} ZeroDiagSum(n: nat, f: nat, disks: seq<Column>, len: nat, g: nat, c: nat, m: nat)
    requires n > 0 && IsArray(n, disks, len) && forall d, b :: 0 <= d < n && 0 <= b < len ==> disks[d][b] == 0
    ensures DiagSum(n, f, disks, len, g, c, m) == 0
  {
    hide Member, Row;
    XorZero(0);
    if m > 0 { ZeroDiagSum(n, f, disks, len, g, c, m - 1); }
  }

  /** Empty disks are coded. */
  lemma EmptyIsStored(n: nat, k: nat, f: nat, gen: seq<nat>, disks: seq<Column>, len: nat)
    requires 0 < n && k <= n && IsArray(n, disks, len)
    requires forall d, b :: 0 <= d < n && 0 <= b < len ==> disks[d][b] == 0
    ensures IsStored(n, k, f, gen, disks, len)
  {
    hide Row, CodeSum, DiagSum, Member;
    forall g: nat, c: nat | c < n ensures DiagonalZero(n, f, disks, len, g, c) {
      ZeroDiagSum(n, f, disks, len, g, c, f + 1);
    }
    forall g: nat, r: nat | r < f ensures RowCoded(n, k, gen, disks, Row(f, g, r)) {
      var row := DataRow(disks, k, Row(f, g, r));
      forall d | k <= d < n ensures At(disks, d, Row(f, g, r)) == CodeSum(gen, k, d - k, row, k) {
        ZeroCodeSum(gen, k, d - k, row, k);
      }
    }
  }

  /** The data and RS blocks after a write. */
  lemma BlockAfter(
      n: nat, k: nat, f: nat, gen: seq<nat>, len: nat, before: seq<Column>, now: seq<Column>, d: nat, g: nat, r: nat,
      x: Block, e: nat, b: nat)
    requires k <= n && InProgress(n, k, f, gen, len, before, now, d, g, r, x, n - k)
    requires e < n && b < len && Remainder(b, f + 1) != f
    ensures e < |now| && e < |before| && b < |now[e]| && b < |before[e]| && d < k
    ensures now[e][b] ==
      if b != Row(f, g, r) then before[e][b]
      else if e == d then Xor(before[e][b], x)
      else if k <= e then Xor(before[e][b], Scale(Coefficient(gen, k, e - k, d), x))
      else before[e][b]
  {
    hide Xor, Scale, Coefficient, Row;
    if b == Row(f, g, r) { assert At(now, e, b) == now[e][b]; }
  }

  lemma WriteEnds(
      n: nat, k: nat, f: nat, gen: seq<nat>, len: nat, before: seq<Column>, now: seq<Column>, d: nat, g: nat, r: nat,
      x: Block)
    requires IsStored(n, k, f, gen, before, len) && AreBytes(gen) && k <= n
    requires InProgress(n, k, f, gen, len, before, now, d, g, r, x, n - k)
    ensures IsStored(n, k, f, gen, now, len)
  {
    hide Xor, Scale, CodeSum, Coefficient, Row, DiagonalsZero, RowCoded, AreBytes, InProgress;
    forall h: nat, q: nat | q < f ensures RowCoded(n, k, gen, now, Row(f, h, q)) {
      var b := Row(f, h, q);
      assert RowCoded(n, k, gen, before, b);
      RowParts(f, h, q);
      if b == Row(f, g, r) {
        WrittenRow(n, k, f, gen, len, before, now, d, g, r, x);
      } else {
        OtherRow(n, k, f, gen, len, before, now, d, g, r, x, b);
      }
    }
    assert DiagonalsZero(n, f, now, len) by { ArrayOfDiagonals(n, k, f, gen, len, before, now, d, g, r, x, n - k); }
  }

  lemma WrittenRow(
      n: nat, k: nat, f: nat, gen: seq<nat>, len: nat, before: seq<Column>, now: seq<Column>, d: nat, g: nat, r: nat,
      x: Block)
    requires AreBytes(gen) && k <= n && InProgress(n, k, f, gen, len, before, now, d, g, r, x, n - k)
    requires RowCoded(n, k, gen, before, Row(f, g, r))
    ensures RowCoded(n, k, gen, now, Row(f, g, r))
  {
    hide Xor, Scale, CodeSum, Coefficient, Row, DiagonalsZero, AreBytes, At;
    var b := Row(f, g, r);
    forall e | k <= e < n ensures At(now, e, b) == CodeSum(gen, k, e - k, DataRow(now, k, b), k) {
      CodeSumAdd(gen, k, e - k, DataRow(before, k, b), DataRow(now, k, b), d, x, k);
    }
  }

  lemma OtherRow(
      n: nat, k: nat, f: nat, gen: seq<nat>, len: nat, before: seq<Column>, now: seq<Column>, d: nat, g: nat, r: nat,
      x: Block, b: nat)
    requires k <= n && InProgress(n, k, f, gen, len, before, now, d, g, r, x, n - k)
    requires RowCoded(n, k, gen, before, b) && b != Row(f, g, r) && Remainder(b, f + 1) != f
    ensures RowCoded(n, k, gen, now, b)
  {
    hide Xor, Scale, CodeSum, Coefficient, Row;
    forall e | 0 <= e < n ensures At(now, e, b) == At(before, e, b) {}
    assert DataRow(now, k, b) == DataRow(before, k, b);
  }

  lemma ArrayOfDiagonals(
      n: nat, k: nat, f: nat, gen: seq<nat>, len: nat, before: seq<Column>, now: seq<Column>, d: nat, g: nat, r: nat,
      x: Block, i: nat)
    requires InProgress(n, k, f, gen, len, before, now, d, g, r, x, i)
    ensures DiagonalsZero(n, f, now, len)
  {
  }

  /** The data and RS blocks after v has been stored in row b of disk d. */
  lemma StoredAfter(
      n: nat, k: nat, f: nat, gen: seq<nat>, len: nat, before: seq<Column>, now: seq<Column>, d: nat, g: nat, r: nat,
      x: Block, b: nat, v: Block)
    requires k <= n && InProgress(n, k, f, gen, len, before, now, d, g, r, x, n - k)
    requires Row(f, g, r) == b && d < |before| && b < |before[d]|
    requires x == Xor(before[d][b], v) && Xor(before[d][b], x) == v
    ensures IsArray(n, before, len) && IsArray(n, now, len) && d < k
    ensures forall e, c :: 0 <= e < k && 0 <= c < len && Remainder(c, f + 1) != f ==>
      now[e][c] == if e == d && c == b then v else before[e][c]
    ensures forall e, c {:trigger now[e][c]} :: k <= e < n && 0 <= c < len && Remainder(c, f + 1) != f ==>
      now[e][c] ==
        if c == b then Xor(before[e][c], Scale(Coefficient(gen, k, e - k, d), Xor(before[d][c], v)))
        else before[e][c]
  {
    hide Xor, Scale, Coefficient, Row, DiagonalsZero, InProgress, Remainder;
    InProgressIsArray(n, k, f, gen, len, before, now, d, g, r, x);
    forall e, c | 0 <= e < n && 0 <= c < len && Remainder(c, f + 1) != f
      ensures now[e][c] ==
        if c != b then before[e][c]
        else if e == d then v
        else if k <= e then Xor(before[e][c], Scale(Coefficient(gen, k, e - k, d), x))
        else before[e][c]
    {
      BlockAfter(n, k, f, gen, len, before, now, d, g, r, x, e, c);
    }
  }

  /** The RS blocks after v has been stored in row b of disk d: block b of RS disk i has had the
      change of the data block added, times entry (i, d) of the matrix. */
  ghost predicate RsUpdated(
      n: nat, k: nat, f: nat, gen: seq<nat>, len: nat, before: seq<Column>, now: seq<Column>, d: nat, b: nat, v: Block)
  {
    d < k <= n && IsArray(n, before, len) && IsArray(n, now, len) &&
    forall e, c {:trigger now[e][c]} :: k <= e < n && 0 <= c < len && Remainder(c, f + 1) != f ==>
      if c == b then Gained(gen, before[e][c], now[e][c], (e - k) * k + d, Xor(before[d][c], v))
      else now[e][c] == before[e][c]
  }

  /** The RS block of row b on RS disk i, and any other RS block. */
  lemma RsUpdatedAt(
      n: nat, k: nat, f: nat, gen: seq<nat>, len: nat, before: seq<Column>, now: seq<Column>, d: nat, b: nat, v: Block,
      i: nat, c: nat)
    requires RsUpdated(n, k, f, gen, len, before, now, d, b, v)
    requires k + i < n && c < len && c % (f + 1) != f
    ensures d < k && n <= |before| && n <= |now| && len <= |before[d]| && len <= |before[k + i]| && len <= |now[k + i]|
    ensures c != b ==> now[k + i][c] == before[k + i][c]
    ensures c == b ==>
      0 <= i * k + d < |gen| && now[k + i][b] == Xor(before[k + i][b], Scale(gen[i * k + d], Xor(before[d][b], v)))
  {
    hide Xor, Scale;
    var e := k + i;
    assert (e - k) * k == i * k;
    assert c == b ==> Gained(gen, before[e][c], now[e][c], (e - k) * k + d, Xor(before[d][c], v));
  }

  lemma RsUpdatedAfter(
      n: nat, k: nat, f: nat, gen: seq<nat>, len: nat, before: seq<Column>, now: seq<Column>, d: nat, b: nat, v: Block)
    requires d < k <= n && IsSized(gen, n - k, k) && IsArray(n, before, len) && IsArray(n, now, len)
    requires forall e, c {:trigger now[e][c]} :: k <= e < n && 0 <= c < len && Remainder(c, f + 1) != f ==>
      now[e][c] ==
        if c == b then Xor(before[e][c], Scale(Coefficient(gen, k, e - k, d), Xor(before[d][c], v)))
        else before[e][c]
    ensures RsUpdated(n, k, f, gen, len, before, now, d, b, v)
  {
    hide Xor, Scale, Coefficient, Remainder, IsSized, Gained;
    forall e, c {:trigger now[e][c]} | k <= e < n && 0 <= c < len && Remainder(c, f + 1) != f
      ensures
        if c == b then Gained(gen, before[e][c], now[e][c], (e - k) * k + d, Xor(before[d][c], v))
        else now[e][c] == before[e][c]
    {
      GainedByCoefficient(gen, n - k, k, e - k, d, before[e][c], Xor(before[d][c], v));
    }
  }

  lemma InProgressIsArray(
      n: nat, k: nat, f: nat, gen: seq<nat>, len: nat, before: seq<Column>, now: seq<Column>, d: nat, g: nat, r: nat,
      x: Block)
    requires k <= n && InProgress(n, k, f, gen, len, before, now, d, g, r, x, n - k)
    ensures IsArray(n, before, len) && IsArray(n, now, len) && d < k
  {
  }

  /** The data blocks after v has been written to logical block b of disk d, or after nothing
      has been written. */
  ghost predicate DataWritten(
      n: nat, k: nat, f: nat, before: seq<Column>, after: seq<Column>, len: nat, d: int, b: nat, v: Block) {
    0 < f && k <= n && IsArray(n, before, len) && IsArray(n, after, len) &&
    forall e, c :: 0 <= e < k && 0 <= c < Logical(f, len) && Physical(f, c) < len ==>
      after[e][Physical(f, c)] == if e == d && c == b then v else before[e][Physical(f, c)]
  }

  /** The blocks of bufs are in their slots, and the other data blocks are as they were. */
  ghost predicate AllThere(
      n: nat, k: nat, f: nat, size: nat, len: nat, was: seq<Column>, now: seq<Column>, freeOffset: seq<nat>,
      slots: seq<Slot>, bufs: seq<Block>)
  {
    0 < f && k <= n && k <= |freeOffset| && |slots| <= |bufs| && IsArray(n, was, len) && IsArray(n, now, len) &&
    (forall b :: 0 <= b < size ==> Physical(f, b) < len) &&
    (forall i :: 0 <= i < |slots| ==>
      slots[i].disk < k && slots[i].block < freeOffset[slots[i].disk] && slots[i].block < size &&
      now[slots[i].disk][Physical(f, slots[i].block)] == bufs[i]) &&
    forall d, b :: 0 <= d < k && 0 <= b < size && Slot(d, b) !in slots ==>
      now[d][Physical(f, b)] == was[d][Physical(f, b)]
  }

  /** One more block is written at the offset of disk d. */
  lemma NextThere(
      n: nat, k: nat, f: nat, size: nat, len: nat, was: seq<Column>, mid: seq<Column>, now: seq<Column>,
      offset: seq<nat>, freeOffset: seq<nat>, slots: seq<Slot>, bufs: seq<Block>, d: nat, b: nat)
    requires |slots| < |bufs| && AllThere(n, k, f, size, len, was, mid, offset, slots, bufs)
    requires DataWritten(n, k, f, mid, now, len, d, b, bufs[|slots|]) && size == Logical(f, len)
    requires d < k <= |offset| && k <= |freeOffset| && b == offset[d] < size
    requires forall i :: 0 <= i < k ==> freeOffset[i] == if i == d then b + 1 else offset[i]
    ensures AllThere(n, k, f, size, len, was, now, freeOffset, slots + [Slot(d, b)], bufs)
  {
    hide Physical, Logical;
  }

  class SrcLayer {
    const nc: DiskArray
    const n: nat
    const k: nat
    const f: nat
    /** The n - k rows of k coefficients of the RS blocks. */
    const gen: seq<nat>

    ghost predicate Valid()
      reads nc
    {
      nc.Shape() && n == nc.total && 0 < k <= n && 1 <= f < n && Remainder(nc.len, f + 1) == 0 &&
      IsSized(gen, n - k, k) && AreBytes(gen)
    }

    constructor (nc: DiskArray, k: nat, f: nat, gen: seq<nat>)
      requires nc.Shape() && 0 < k <= nc.total && 1 <= f < nc.total && Remainder(nc.len, f + 1) == 0
      requires |gen| == (nc.total - k) * k && AreBytes(gen)
      ensures Valid() && this.nc == nc && this.k == k && this.f == f && this.gen == gen
    {
      this.nc, n, this.k, this.f, this.gen := nc, nc.total, k, f, gen;
    }

    /** Adds x to one block, given its old contents, and to the SRC block of its diagonal. */
    method AddPair(d: nat, g: nat, r: nat, contents: Block, x: Block)
      requires Valid() && d < n && r < f && Row(f, g, f) < nc.len && DiagonalsZero(n, f, nc.disks, nc.len)
      requires Row(f, g, r) < nc.len && contents == nc.disks[d][Row(f, g, r)]
      requires forall i :: 0 <= i < n ==> !nc.failed[i]
      modifies nc`disks, nc`readLog
      ensures Valid() && PairAdded(n, f, nc.len, old(nc.disks), nc.disks, d, g, r, x)
    {
      hide Xor, Row, SrcDisk, DiagonalsZero;
      ghost var a := nc.disks;
      var c := SrcDisk(n, f, d, r);
      RowParts(f, g, f);
      RowParts(f, g, r);
      var src := nc.ReadDisk(c, Row(f, g, f));
      nc.WriteDisk(c, Row(f, g, f), Xor(src, x));
      ghost var b := nc.disks;
      nc.WriteDisk(d, Row(f, g, r), Xor(contents, x));
      assert AddedAt(n, f, nc.len, a, b, c, g, f, x);
      assert AddedAt(n, f, nc.len, b, nc.disks, d, g, r, x);
      PairKeepsDiagonals(n, f, nc.len, a, b, nc.disks, d, g, r, x);
    }

    /** Adds x to block (d, g, r), given its old contents, and its multiples to the RS blocks of
        the row. */
    method AddToRow(d: nat, g: nat, r: nat, contents: Block, x: Block)
      requires Valid() && d < k && r < f && Row(f, g, f) < nc.len && Row(f, g, r) < nc.len
      requires contents == nc.disks[d][Row(f, g, r)] && DiagonalsZero(n, f, nc.disks, nc.len)
      requires forall i :: 0 <= i < n ==> !nc.failed[i]
      modifies nc`disks, nc`readLog
      ensures Valid() && InProgress(n, k, f, gen, nc.len, old(nc.disks), nc.disks, d, g, r, x, n - k)
    {
      hide Xor, Scale, Coefficient, Row, DiagonalsZero, AreBytes, InProgress, PairAdded, Quotient, Remainder;
      ghost var before := nc.disks;
      AddPair(d, g, r, contents, x);
      WriteBegins(n, k, f, gen, nc.len, before, nc.disks, d, g, r, x);
      for i := 0 to n - k
        invariant Valid() && InProgress(n, k, f, gen, nc.len, before, nc.disks, d, g, r, x, i)
      {
        ghost var mid := nc.disks;
        var temp := Scale(Coefficient(gen, k, i, d), x);
        var parity := nc.ReadDisk(k + i, Row(f, g, r));
        ArrayOfDiagonals(n, k, f, gen, nc.len, before, nc.disks, d, g, r, x, i);
        AddPair(k + i, g, r, parity, temp);
        WriteStep(n, k, f, gen, nc.len, before, mid, nc.disks, d, g, r, x, i);
      }
    }

    /** Stores logical block b of data disk d, updating the RS blocks of its row and the SRC
        blocks of all diagonals concerned. Everything stays coded, whatever was there before. */
    method Store(d: nat, b: nat, buf: Block)
      requires Valid() && d < k && Physical(f, b) < nc.len && IsStored(n, k, f, gen, nc.disks, nc.len)
      requires forall i :: 0 <= i < n ==> !nc.failed[i]
      modifies nc`disks, nc`readLog
      ensures Valid() && IsStored(n, k, f, gen, nc.disks, nc.len)
      ensures forall e, c :: 0 <= e < k && 0 <= c < nc.len && Remainder(c, f + 1) != f ==>
        nc.disks[e][c] == if e == d && c == Physical(f, b) then buf else old(nc.disks)[e][c]
      ensures RsUpdated(n, k, f, gen, nc.len, old(nc.disks), nc.disks, d, Physical(f, b), buf)
    {
      hide Xor, Scale, CodeSum, Coefficient, Row, DiagonalsZero, RowCoded, AreBytes, InProgress, Physical,
        Quotient, Remainder, IsSized, RsUpdated;
      ghost var before := nc.disks;
      var g, r := Quotient(b, f), Remainder(b, f);
      PhysicalIsRow(f, b);
      SegmentInside(f, g, r, f, nc.len);
      var contents := nc.ReadDisk(d, Row(f, g, r));
      var x := Xor(buf, contents);
      XorCancel(buf, contents);
      XorComm(contents, x);
      XorComm(buf, contents);
      AddToRow(d, g, r, contents, x);
      WriteEnds(n, k, f, gen, nc.len, before, nc.disks, d, g, r, x);
      StoredAfter(n, k, f, gen, nc.len, before, nc.disks, d, g, r, x, Physical(f, b), buf);
      RsUpdatedAfter(n, k, f, gen, nc.len, before, nc.disks, d, Physical(f, b), buf);
    }

    // ---- Allocation ----

    /** The disk whose turn it is; -1 if no disk has space. */
    method Pick() returns (diskId: int, blockNo: nat)
      requires Valid() && k >= 2
      ensures -1 <= diskId < k && (diskId >= 0 ==> nc.freeSize[diskId] >= 1 && blockNo == nc.freeOffset[diskId])
      ensures forall d ::
        0 <= d < k && nc.freeSize[d] >= 1 &&
        (nc.freeOffset[d] % (k - 1) != 0 || nc.freeOffset[0] > nc.freeOffset[d]) ==>
        0 <= diskId <= d && (blockNo % (k - 1) != 0 || nc.freeOffset[0] > blockNo)
      ensures diskId >= 0 && blockNo % (k - 1) == 0 && nc.freeOffset[0] <= blockNo ==> diskId == 0
      ensures diskId == -1 ==> nc.freeSize[0] < 1
    {
      hide AreBytes;
      diskId, blockNo := -1, 0;
      var freeOffset := nc.freeOffset[0];
      for i := k downto 0
        invariant -1 <= diskId < k && (diskId >= 0 ==> nc.freeSize[diskId] >= 1 && blockNo == nc.freeOffset[diskId])
        invariant forall d ::
          i <= d < k && nc.freeSize[d] >= 1 && (nc.freeOffset[d] % (k - 1) != 0 || freeOffset > nc.freeOffset[d]) ==>
          0 <= diskId <= d && (blockNo % (k - 1) != 0 || freeOffset > blockNo)
        invariant diskId >= 0 && blockNo % (k - 1) == 0 && freeOffset <= blockNo ==> i == diskId == 0
        invariant i == 0 && diskId == -1 ==> nc.freeSize[0] < 1
      {
        if 1 <= nc.freeSize[i] {
          if nc.freeOffset[i] % (k - 1) != 0 || freeOffset > nc.freeOffset[i] || (i == 0 && diskId == -1) {
            diskId, blockNo := i, nc.freeOffset[i];
          }
        }
      }
    }

    /** Stores one block in the slot that is due. */
    method Encode(buf: Block) returns (diskId: int, blockNo: nat)
      requires Valid() && k >= 2 && IsStored(n, k, f, gen, nc.disks, nc.len)
      requires forall i :: 0 <= i < n ==> !nc.failed[i]
      requires Accounts(nc.freeOffset, nc.freeSize, nc.spaceList, k, Logical(f, nc.len))
      modifies nc
      ensures Valid() && IsStored(n, k, f, gen, nc.disks, nc.len) && nc.failed == old(nc.failed)
      ensures Accounts(nc.freeOffset, nc.freeSize, nc.spaceList, k, Logical(f, nc.len))
      ensures -1 <= diskId < k && (diskId >= 0 ==> blockNo < Logical(f, nc.len))
      ensures DueInRuns(k, old(nc.freeOffset), old(nc.freeSize), old(nc.spaceList), diskId, blockNo)
      ensures forall i :: 0 <= i < n ==>
        nc.freeOffset[i] == (if i == diskId then blockNo + 1 else old(nc.freeOffset)[i]) &&
        nc.freeSize[i] == old(nc.freeSize)[i] - if i == diskId then 1 else 0
      ensures old(nc.spaceList) == [] ==> nc.spaceList == []
      ensures diskId == -1 ==> nc.disks == old(nc.disks)
      ensures DataWritten(n, k, f, old(nc.disks), nc.disks, nc.len, diskId, blockNo, buf)
      ensures diskId >= 0 ==>
        RsUpdated(n, k, f, gen, nc.len, old(nc.disks), nc.disks, diskId, Physical(f, blockNo), buf)
    {
      hide Accounts, IsStored, Logical, Physical, AreBytes, DataWritten, RsUpdated, DueInRuns, IsSized, IsArray,
        Remainder, Quotient;
      ghost var offset, size, list := nc.freeOffset, nc.freeSize, nc.spaceList;
      var p, q := Pick();
      diskId, blockNo := nc.HandOut(k, Logical(f, nc.len), p, q);
      PickedIsDueInRuns(k, offset, size, list, p, q, diskId, blockNo);
      StoredIsArray(nc.disks);
      NothingWritten(nc.disks, blockNo, buf);
      if diskId != -1 {
        ghost var before := nc.disks;
        PhysicalFits(f, blockNo, nc.len);
        Store(diskId, blockNo, buf);
        StoredIsArray(nc.disks);
        OnlyDataWritten(before, diskId, blockNo, buf);
      }
    }

    lemma StoredIsArray(disks: seq<Column>)
      requires Valid() && IsStored(n, k, f, gen, disks, nc.len)
      ensures IsArray(n, disks, nc.len)
    {
    }

    lemma NothingWritten(disks: seq<Column>, b: nat, v: Block)
      requires Valid() && IsArray(n, disks, nc.len)
      ensures DataWritten(n, k, f, disks, disks, nc.len, -1, b, v)
    {
    }

    lemma OnlyDataWritten(before: seq<Column>, d: nat, b: nat, v: Block)
      requires Valid() && IsArray(n, before, nc.len)
      requires forall e, c :: 0 <= e < k && 0 <= c < nc.len && Remainder(c, f + 1) != f ==>
        nc.disks[e][c] == if e == d && c == Physical(f, b) then v else before[e][c]
      ensures DataWritten(n, k, f, before, nc.disks, nc.len, d, b, v)
    {
      hide Logical, Physical, Remainder, AreBytes;
      forall e, c | 0 <= e < k && 0 <= c < Logical(f, nc.len) && Physical(f, c) < nc.len
        ensures nc.disks[e][Physical(f, c)] == if e == d && c == b then v else before[e][Physical(f, c)]
      {
        PhysicalFits(f, c, nc.len);
        if Physical(f, c) == Physical(f, b) { PhysicalApart(f, c, b); }
      }
    }

    /** A run of writes to an array without released blocks. The disks are filled completely
        before a write is refused, and every block written is still there at the end. If the run
        continues a run of t writes to empty disks, the blocks are dealt out in runs. */
    method WriteAll(bufs: seq<Block>, ghost t: nat) returns (slots: seq<Slot>)
      requires Valid() && k >= 2 && IsStored(n, k, f, gen, nc.disks, nc.len)
      requires forall i :: 0 <= i < n ==> !nc.failed[i]
      requires nc.spaceList == [] && Balanced(nc.freeOffset, nc.freeSize, k, Logical(f, nc.len))
      modifies nc
      ensures Valid() && IsStored(n, k, f, gen, nc.disks, nc.len) && nc.failed == old(nc.failed)
      ensures
        var space := k * Logical(f, nc.len) - Total(old(nc.freeOffset), k);
        |slots| == if |bufs| <= space then |bufs| else space
      ensures forall i :: 0 <= i < |slots| ==>
        slots[i].disk < k && slots[i].block < Logical(f, nc.len) && Physical(f, slots[i].block) < nc.len &&
        nc.disks[slots[i].disk][Physical(f, slots[i].block)] == bufs[i]
      ensures forall d, b :: 0 <= d < k && 0 <= b < Logical(f, nc.len) && Slot(d, b) !in slots ==>
        Physical(f, b) < nc.len && nc.disks[d][Physical(f, b)] == old(nc.disks)[d][Physical(f, b)]
      ensures old(InRuns(nc.freeOffset, nc.freeSize, k, Logical(f, nc.len), t)) ==>
        forall i :: 0 <= i < |slots| ==>
          IsPlace(k, Logical(f, nc.len), t + i, slots[i].disk, slots[i].block)
    {
      hide IsStored, Logical, Physical, AreBytes, DueInRuns, Total, RsUpdated, IsPlace, InRuns, Accounts, Balanced,
        Goes, IsSized, Remainder, Quotient;
      slots := [];
      AllFit();
      ghost var size := Logical(f, nc.len);
      BalancedTotal(nc.freeOffset, nc.freeSize, k, size);
      ghost var inRuns := InRuns(nc.freeOffset, nc.freeSize, k, size, t);
      while |slots| < |bufs|
        invariant Valid() && IsStored(n, k, f, gen, nc.disks, nc.len) && nc.failed == old(nc.failed)
        invariant nc.spaceList == [] && Balanced(nc.freeOffset, nc.freeSize, k, size)
        invariant |slots| <= |bufs| && Total(nc.freeOffset, k) == Total(old(nc.freeOffset), k) + |slots| <= k * size
        invariant AllThere(n, k, f, size, nc.len, old(nc.disks), nc.disks, nc.freeOffset, slots, bufs)
        invariant inRuns ==>
          InRuns(nc.freeOffset, nc.freeSize, k, size, t + |slots|) &&
          forall i :: 0 <= i < |slots| ==> IsPlace(k, size, t + i, slots[i].disk, slots[i].block)
        decreases |bufs| - |slots|
      {
        ghost var offset, sizes, before := nc.freeOffset, nc.freeSize, nc.disks;
        BalancedAccounts(nc.freeOffset, nc.freeSize, size);
        var d, b := Encode(bufs[|slots|]);
        DueWhenBalanced(k, size, offset, sizes, nc.freeOffset, nc.freeSize, d, b);
        if inRuns { DueInOrderOfRuns(k, size, offset, sizes, nc.freeOffset, nc.freeSize, t + |slots|, d, b); }
        if d == -1 { break; }
        NextThere(n, k, f, size, nc.len, old(nc.disks), before, nc.disks, offset, nc.freeOffset, slots, bufs, d, b);
        slots := slots + [Slot(d, b)];
      }
    }

    lemma AllFit()
      requires Valid()
      ensures forall b :: 0 <= b < Logical(f, nc.len) ==> Physical(f, b) < nc.len
    {
      hide Logical, Physical, Remainder, AreBytes;
      forall b | 0 <= b < Logical(f, nc.len) ensures Physical(f, b) < nc.len { PhysicalFits(f, b, nc.len); }
    }

    lemma BalancedAccounts(freeOffset: seq<nat>, freeSize: seq<int>, size: nat)
      requires Balanced(freeOffset, freeSize, k, size)
      ensures Accounts(freeOffset, freeSize, [], k, size)
    {
    }

    // ---- Reading ----

    /** The next block of the walk that starts at a block and visits the rest of its diagonal:
        one row down and one disk to the left, and from the SRC row back to the first row. */
    method Next(disk: nat, row: nat) returns (d: nat, b: nat)
      requires Valid() && disk < n && row < nc.len
      ensures d < n
      ensures
        var g, r, c := Quotient(row, f + 1), Remainder(row, f + 1), SrcDisk(n, f, disk, Remainder(row, f + 1));
        var q := if r == f then 0 else r + 1;
        b == Row(f, g, q) && d == Member(n, f, c, q)
    {
      hide Row, Member, SrcDisk, Quotient, Remainder, AreBytes;
      ghost var g, r := Quotient(row, f + 1), Remainder(row, f + 1);
      ghost var c := SrcDisk(n, f, disk, r);
      OneDiagonal(n, f, c, disk, r);
      NextRow(f, row);
      b := row + 1;
      d := Remainder(disk + n - 1, n);
      if Remainder(b, f + 1) == 0 {
        b := b - (f + 1);
        d := Remainder(d + f + 1, n);
        WrapMember(n, f, c);
      } else {
        LeftMember(n, f, c, r);
      }
    }

    /** Whether every block that the walk from a block visits can be read. */
    method WalkIsAvailable(disk: nat, row: nat) returns (available: bool)
      requires Valid() && disk < n && row < nc.len
      ensures
        var g, r, c := Quotient(row, f + 1), Remainder(row, f + 1), SrcDisk(n, f, disk, Remainder(row, f + 1));
        available <==> forall q :: 0 <= q <= f && q != r ==> !nc.failed[Member(n, f, c, q)]
    {
      hide Row, Member, SrcDisk, WalkRow, AreBytes, Quotient, Remainder;
      ghost var g, r, c := Quotient(row, f + 1), Remainder(row, f + 1), SrcDisk(n, f, disk, Remainder(row, f + 1));
      available := true;
      StartOfWalk(n, f, disk, row, nc.len);
      var d, b := disk, row;
      for i := 0 to f
        invariant d == Member(n, f, c, WalkRow(f, r, i)) && b == Row(f, g, WalkRow(f, r, i)) < nc.len
        invariant forall j :: 1 <= j <= i ==> !nc.failed[Member(n, f, c, WalkRow(f, r, j))]
      {
        StepOfWalk(n, f, g, c, r, i, nc.len);
        d, b := Next(d, b);
        if nc.failed[d] {
          NeverBack(f, r, i + 1);
          return false;
        }
      }
      forall q | 0 <= q <= f && q != r ensures !nc.failed[Member(n, f, c, q)] {
        var j := Reaches(f, r, q);
      }
    }

    /** Reads logical block b of a data or RS disk. If the disk has failed and the other members
        of the block's diagonal can be read, these f blocks and no others are read. Otherwise it
        would take the decoding matrix. */
    method Decode(disk: nat, b: nat) returns (ok: bool, buf: Block)
      requires Valid() && disk < n && Physical(f, b) < nc.len && IsStored(n, k, f, gen, nc.disks, nc.len)
      modifies nc`readLog
      ensures
        var g, r, c := Quotient(b, f), Remainder(b, f), SrcDisk(n, f, disk, Remainder(b, f));
        (ok <==> !nc.failed[disk] || forall q :: 0 <= q <= f && q != r ==> !nc.failed[Member(n, f, c, q)]) &&
        (ok && nc.failed[disk] ==> nc.readLog == old(nc.readLog) + Others(n, f, g, c, r))
      ensures ok ==> buf == nc.disks[disk][Physical(f, b)]
    {
      hide Row, Member, SrcDisk, Xor, DiagSum, DiagonalZero, IsArray, Others, Physical, Quotient, Remainder;
      var row := Physical(f, b);
      PhysicalIsRow(f, b);
      RowParts(f, Quotient(b, f), Remainder(b, f));
      if !nc.failed[disk] {
        buf := nc.ReadDisk(disk, row);
        return true, buf;
      }
      ok := WalkIsAvailable(disk, row);
      buf := 0;
      if ok { buf := XorWalk(disk, row); }
    }

    /** The XOR of the blocks of the walk. */
    method XorWalk(disk: nat, row: nat) returns (buf: Block)
      requires Valid() && disk < n && row < nc.len && DiagonalsZero(n, f, nc.disks, nc.len)
      requires
        var r, c := Remainder(row, f + 1), SrcDisk(n, f, disk, Remainder(row, f + 1));
        forall q :: 0 <= q <= f && q != r ==> !nc.failed[Member(n, f, c, q)]
      modifies nc`readLog
      ensures buf == nc.disks[disk][row]
      ensures
        var g, r, c := Quotient(row, f + 1), Remainder(row, f + 1), SrcDisk(n, f, disk, Remainder(row, f + 1));
        nc.readLog == old(nc.readLog) + Others(n, f, g, c, r)
    {
      hide Row, Member, SrcDisk, Xor, DiagonalZero, WalkSum, Others, Quotient, Remainder, WalkRow;
      ghost var g, r, c := Quotient(row, f + 1), Remainder(row, f + 1), SrcDisk(n, f, disk, Remainder(row, f + 1));
      StartOfWalk(n, f, disk, row, nc.len);
      buf := 0;
      var d, b := disk, row;
      WalkSumStarts(n, f, nc.disks, nc.len, g, c, r);
      for i := 0 to f
        invariant d == Member(n, f, c, WalkRow(f, r, i)) && b == Row(f, g, WalkRow(f, r, i)) < nc.len
        invariant buf == WalkSum(n, f, nc.disks, nc.len, g, c, r, i)
        invariant nc.readLog == old(nc.readLog) + Visited(n, f, g, c, r, i)
      {
        StepOfWalk(n, f, g, c, r, i, nc.len);
        d, b := Next(d, b);
        NeverBack(f, r, i + 1);
        var temp := nc.ReadDisk(d, b);
        WalkSumNext(n, f, nc.disks, nc.len, g, c, r, i);
        buf := Xor(buf, temp);
      }
      WalkSumEnds(n, f, nc.disks, nc.len, g, c, r);
      AllVisited(n, f, g, c, r);
    }

    /** Rebuilds the SRC block that follows logical block i of a failed disk. */
    method RebuildSrc(disk: nat, i: nat) returns (buf: Block)
      requires Valid() && disk < n && Remainder(i + 1, f) == 0 && i + Quotient(i + 1, f) < nc.len
      requires IsStored(n, k, f, gen, nc.disks, nc.len) && forall e :: 0 <= e < n ==> nc.failed[e] == (e == disk)
      modifies nc`readLog
      ensures buf == nc.disks[disk][i + Quotient(i + 1, f)]
    {
      hide Row, Member, Xor, DiagonalZero, RowCoded, DiagSum, Quotient, Remainder, AreBytes;
      var g := Quotient(i + 1, f) - 1;
      SrcRow(f, i);
      var b, d := i + Quotient(i + 1, f), disk;
      ghost var top := DiagSum(n, f, nc.disks, nc.len, g, disk, f);
      buf := 0;
      XorZero(top);
      OwnDiagonal(n, f, disk);
      for j := 0 to f
        invariant d == Member(n, f, disk, f - j) && b == Row(f, g, f - j) < nc.len
        invariant buf == Xor(top, DiagSum(n, f, nc.disks, nc.len, g, disk, f - j))
      {
        SrcStep(n, f, nc.disks, nc.len, g, disk, j);
        b := b - 1;
        d := Remainder(d + 1, n);
        var temp := nc.ReadDisk(d, b);
        Peel(top, DiagSum(n, f, nc.disks, nc.len, g, disk, f - j - 1), temp);
        buf := Xor(buf, temp);
      }
      LastOfDiagonal(n, f, nc.disks, nc.len, g, disk);
      XorZero(top);
    }
  }

  // ---- The walk around a diagonal ----

  /** The row after i steps from row r. */
  function WalkRow(f: nat, r: nat, i: nat): (q: nat)
    requires r <= f && i <= f
    ensures q <= f
  {
    if r + i <= f then r + i else r + i - (f + 1)
  }

  lemma NeverBack(f: nat, r: nat, i: nat)
    requires r <= f && 1 <= i <= f
    ensures WalkRow(f, r, i) != r
  {
  }

  lemma Reaches(f: nat, r: nat, q: nat) returns (i: nat)
    requires r <= f && q <= f && q != r
    ensures 1 <= i <= f && WalkRow(f, r, i) == q
  {
    i := if q > r then q - r else q + f + 1 - r;
  }

  lemma StartOfWalk(n: nat, f: nat, disk: nat, row: nat, len: nat)
    requires 0 < n && disk < n && row < len
    ensures
      var g, r, c := Quotient(row, f + 1), Remainder(row, f + 1), SrcDisk(n, f, disk, Remainder(row, f + 1));
      disk == Member(n, f, c, r) && row == Row(f, g, r) && r == WalkRow(f, r, 0)
  {
    hide Row, Member, SrcDisk, Quotient, Remainder;
    RowOfParts(f, row);
    var r := Remainder(row, f + 1);
    OneDiagonal(n, f, SrcDisk(n, f, disk, r), disk, r);
  }

  lemma StepOfWalk(n: nat, f: nat, g: nat, c: nat, r: nat, i: nat, len: nat)
    requires f < n && c < n && r <= f && i < f && Remainder(len, f + 1) == 0 && Row(f, g, WalkRow(f, r, i)) < len
    ensures
      var q, b := WalkRow(f, r, i), Row(f, g, WalkRow(f, r, i));
      Quotient(b, f + 1) == g && Remainder(b, f + 1) == q && SrcDisk(n, f, Member(n, f, c, q), q) == c &&
      WalkRow(f, r, i + 1) == (if q == f then 0 else q + 1) && Row(f, g, WalkRow(f, r, i + 1)) < len
  {
    hide Row, Member, SrcDisk, Quotient, Remainder;
    var q := WalkRow(f, r, i);
    RowParts(f, g, q);
    OneDiagonal(n, f, c, Member(n, f, c, q), q);
    SegmentInside(f, g, q, WalkRow(f, r, i + 1), len);
  }

  /** The sum of the blocks visited in i steps, by the sums of the rows below a given one. */
  ghost function WalkSum(n: nat, f: nat, disks: seq<Column>, len: nat, g: nat, c: nat, r: nat, i: nat): Block
    requires n > 0 && IsArray(n, disks, len) && r <= f && i <= f
  {
    var start := DiagSum(n, f, disks, len, g, c, r + 1);
    if r + i <= f then Xor(start, DiagSum(n, f, disks, len, g, c, r + i + 1))
    else Xor(start, DiagSum(n, f, disks, len, g, c, r + i - f))
  }

  lemma WalkSumStarts(n: nat, f: nat, disks: seq<Column>, len: nat, g: nat, c: nat, r: nat)
    requires n > 0 && IsArray(n, disks, len) && r <= f
    ensures WalkSum(n, f, disks, len, g, c, r, 0) == 0
  {
    XorZero(DiagSum(n, f, disks, len, g, c, r + 1));
  }

  lemma WalkSumNext(n: nat, f: nat, disks: seq<Column>, len: nat, g: nat, c: nat, r: nat, i: nat)
    requires DiagonalsZero(n, f, disks, len) && c < n && r <= f && i < f
    ensures
      var q := WalkRow(f, r, i + 1);
      WalkSum(n, f, disks, len, g, c, r, i + 1) ==
        Xor(WalkSum(n, f, disks, len, g, c, r, i), At(disks, Member(n, f, c, q), Row(f, g, q)))
  {
    hide Xor, Member, Row;
    var q := WalkRow(f, r, i + 1);
    assert DiagonalZero(n, f, disks, len, g, c);
    var start, x := DiagSum(n, f, disks, len, g, c, r + 1), At(disks, Member(n, f, c, q), Row(f, g, q));
    assert DiagSum(n, f, disks, len, g, c, q + 1) == Xor(DiagSum(n, f, disks, len, g, c, q), x);
    XorAssoc(start, DiagSum(n, f, disks, len, g, c, q), x);
    XorZero(start);
    XorZero(x);
  }

  lemma WalkSumEnds(n: nat, f: nat, disks: seq<Column>, len: nat, g: nat, c: nat, r: nat)
    requires DiagonalsZero(n, f, disks, len) && c < n && r <= f
    ensures WalkSum(n, f, disks, len, g, c, r, f) == At(disks, Member(n, f, c, r), Row(f, g, r))
  {
    hide Xor, Member, Row;
    assert DiagonalZero(n, f, disks, len, g, c);
    var s, x := DiagSum(n, f, disks, len, g, c, r), At(disks, Member(n, f, c, r), Row(f, g, r));
    XorCancel(x, s);
    XorComm(Xor(s, x), s);
    XorComm(s, x);
    XorZero(Xor(s, x));
    XorZero(x);
    if r == 0 { assert s == 0; }
  }

  /** The addresses of the other members of a diagonal. */
  ghost function Others(n: nat, f: nat, g: nat, c: nat, r: nat): set<Slot>
    requires n > 0
  {
    set q: nat | q <= f && q != r :: Slot(Member(n, f, c, q), Row(f, g, q))
  }

  ghost function Visited(n: nat, f: nat, g: nat, c: nat, r: nat, i: nat): set<Slot>
    requires n > 0 && r <= f && i <= f
  {
    if i == 0 then {}
    else
      Visited(n, f, g, c, r, i - 1) + {Slot(Member(n, f, c, WalkRow(f, r, i)), Row(f, g, WalkRow(f, r, i)))}
  }

  lemma {:induction false} VisitedIs(n: nat, f: nat, g: nat, c: nat, r: nat, i: nat, s: Slot)
    requires n > 0 && r <= f && i <= f
    ensures s in Visited(n, f, g, c, r, i) <==>
      exists j :: 1 <= j <= i && s == Slot(Member(n, f, c, WalkRow(f, r, j)), Row(f, g, WalkRow(f, r, j)))
  {
    hide Member, Row, WalkRow;
    if i > 0 { VisitedIs(n, f, g, c, r, i - 1, s); }
  }

  lemma AllVisited(n: nat, f: nat, g: nat, c: nat, r: nat)
    requires n > 0 && r <= f
    ensures Visited(n, f, g, c, r, f) == Others(n, f, g, c, r)
  {
    hide Member, Row, Visited;
    forall s ensures s in Visited(n, f, g, c, r, f) <==> s in Others(n, f, g, c, r) {
      VisitedIs(n, f, g, c, r, f, s);
      if s in Others(n, f, g, c, r) {
        var q: nat :| q <= f && q != r && s == Slot(Member(n, f, c, q), Row(f, g, q));
        var j := Reaches(f, r, q);
      }
      if s in Visited(n, f, g, c, r, f) {
        var j :| 1 <= j <= f && s == Slot(Member(n, f, c, WalkRow(f, r, j)), Row(f, g, WalkRow(f, r, j)));
        NeverBack(f, r, j);
      }
    }
  }

  // ---- SRC blocks ----

  lemma SrcRow(f: nat, i: nat)
    requires f > 0 && Remainder(i + 1, f) == 0
    ensures var g := Quotient(i + 1, f) - 1; g >= 0 && i + Quotient(i + 1, f) == Row(f, g, f)
  {
    hide Quotient, Remainder;
    var m := Quotient(i + 1, f);
    Parts(i + 1, f);
    if m > 0 {
      OneMoreTimes(f, m - 1);
      assert m * f == (m - 1) * f + f;
    }
  }

  /** One step up a diagonal from its SRC block on disk c. */
  lemma SrcStep(n: nat, f: nat, disks: seq<Column>, len: nat, g: nat, c: nat, j: nat)
    requires IsArray(n, disks, len) && f < n && c < n && j < f && Row(f, g, f - j) < len
    ensures
      var d, b := Remainder(Member(n, f, c, f - j) + 1, n), Row(f, g, f - j) - 1;
      d == Member(n, f, c, f - (j + 1)) && d != c && b == Row(f, g, f - (j + 1)) &&
      DiagSum(n, f, disks, len, g, c, f - j) == Xor(DiagSum(n, f, disks, len, g, c, f - j - 1), disks[d][b])
  {
    hide Xor, Member, Remainder;
    RightMember(n, f, c, f - j);
    DifferentDisks(n, f, c, f - j - 1, f);
    OwnDiagonal(n, f, c);
  }

  lemma Peel(top: Block, rest: Block, x: Block)
    ensures Xor(Xor(top, Xor(rest, x)), x) == Xor(top, rest)
  {
    hide Xor;
    XorAssoc(top, Xor(rest, x), x);
    XorCancel(rest, x);
  }

  lemma LastOfDiagonal(n: nat, f: nat, disks: seq<Column>, len: nat, g: nat, c: nat)
    requires DiagonalsZero(n, f, disks, len) && c < n && Row(f, g, f) < len
    ensures DiagSum(n, f, disks, len, g, c, f) == disks[c][Row(f, g, f)] && DiagSum(n, f, disks, len, g, c, 0) == 0
  {
    hide Xor, Row, Member;
    assert DiagonalZero(n, f, disks, len, g, c);
    OwnDiagonal(n, f, c);
    EqualIfXorZero(DiagSum(n, f, disks, len, g, c, f), disks[c][Row(f, g, f)]);
  }
}
