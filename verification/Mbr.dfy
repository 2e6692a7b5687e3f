/** The MBR coding layer: every write updates both copies of the data block and of every coded
    block, and a lost block is read from its other copy. */
module Mbr {
  import opened Bits
  import opened Blocks
  import opened GaloisBlocks
  import opened IntMod
  import opened LinearCode
  import opened MbrAddress
  import opened MbrAlloc
  import opened Ncfs

  /** Row r of segment g. */
  function Row(s: nat, g: nat, r: nat): nat {
    MulNonNegative(g, s);
    g * s + r
  }

  lemma RowBounds(s: nat, g: nat, r: nat, len: nat)
    requires r < s && Remainder(len, s) == 0 && g < Quotient(len, s)
    ensures Row(s, g, r) < len && Row(s, g, r) / s == g && Row(s, g, r) % s == r
  {
    MulNonNegative(g, s);
    DivMod(g * s + r, g, r, s);
    MulNonNegative(Quotient(len, s) - g - 1, s);
    assert len == (Quotient(len, s) - g - 1) * s + g * s + s;
  }

  lemma RowOfBlock(s: nat, b: nat, len: nat)
    requires 0 < s && b < len && Remainder(len, s) == 0
    ensures Quotient(b, s) < Quotient(len, s) && b == Row(s, Quotient(b, s), Remainder(b, s))
  {
    assert b == Quotient(b, s) * s + Remainder(b, s) && len == Quotient(len, s) * s;
    if Quotient(b, s) >= Quotient(len, s) { MulNonNegative(Quotient(b, s) - Quotient(len, s), s); }
  }

  lemma RowsApart(s: nat, g: nat, q: nat, h: nat, r: nat)
    requires q < s && r < s && Row(s, g, q) == Row(s, h, r)
    ensures g == h && q == r
  {
    MulNonNegative(g, s);
    MulNonNegative(h, s);
    DivMod(g * s + q, g, q, s);
    DivMod(h * s + r, h, r, s);
  }

  /** Where the copies of a block lie in segment g. */
  function FirstCopy(s: nat, g: nat, id: nat): Slot
    requires id < BlocksBefore(s, s)
  {
    Slot(First(s, id), Row(s, g, Second(s, id) - 1))
  }

  function SecondCopy(s: nat, g: nat, id: nat): Slot
    requires id < BlocksBefore(s, s)
  {
    Slot(Second(s, id), Row(s, g, First(s, id)))
  }

  /** No two copies of blocks share an address. */
  lemma CopiesApart(s: nat, g: nat, id: nat, h: nat, jd: nat)
    requires id < BlocksBefore(s, s) && jd < BlocksBefore(s, s)
    ensures FirstCopy(s, g, id) != SecondCopy(s, h, jd)
    ensures FirstCopy(s, g, id) == FirstCopy(s, h, jd) ==> g == h && id == jd
    ensures SecondCopy(s, g, id) == SecondCopy(s, h, jd) ==> g == h && id == jd
  {
    hide First, Second, Row;
    var a, b, c, d := First(s, id), Second(s, id), First(s, jd), Second(s, jd);
    SharedBlock(s, a, b, id);
    SharedBlock(s, c, d, jd);
    if Row(s, g, b - 1) == Row(s, h, c) { RowsApart(s, g, b - 1, h, c); }
    if Row(s, g, b - 1) == Row(s, h, d - 1) { RowsApart(s, g, b - 1, h, d - 1); }
    if Row(s, g, a) == Row(s, h, c) { RowsApart(s, g, a, h, c); }
  }

  /** The address of the other copy of what is at block b of disk d. */
  function OtherCopy(s: nat, d: nat, b: nat): (o: Slot)
    requires 0 < s && d <= s
    ensures o.disk != d && o.disk <= s
  {
    var g, r := Quotient(b, s), Remainder(b, s);
    if r < d then Slot(r, Row(s, g, d - 1)) else Slot(r + 1, Row(s, g, d))
  }

  lemma CopiesOfBlock(s: nat, d: nat, b: nat, len: nat)
    requires 0 < s && d <= s && b < len && Remainder(len, s) == 0
    ensures
      var g, r := Quotient(b, s), Remainder(b, s);
      var id := if r < d then PairId(s, r, d) else PairId(s, d, r + 1);
      g < Quotient(len, s) && id < BlocksBefore(s, s) &&
      if r < d then SecondCopy(s, g, id) == Slot(d, b) && FirstCopy(s, g, id) == OtherCopy(s, d, b)
      else FirstCopy(s, g, id) == Slot(d, b) && SecondCopy(s, g, id) == OtherCopy(s, d, b)
  {
    hide First, Second, Row;
    RowOfBlock(s, b, len);
    var r := Remainder(b, s);
    var x, y := if r < d then r else d, if r < d then d else r + 1;
    SharedBlockExists(s, x, y);
    SharedBlock(s, x, y, PairId(s, x, y));
  }

  ghost predicate IsArray(s: nat, disks: seq<Column>, len: nat) {
    0 < s && |disks| == s + 1 && Remainder(len, s) == 0 && forall d :: 0 <= d < |disks| ==> |disks[d]| == len
  }

  lemma CopiesInside(s: nat, len: nat, g: nat, id: nat)
    requires 0 < s && Remainder(len, s) == 0 && g < Quotient(len, s) && id < BlocksBefore(s, s)
    ensures FirstCopy(s, g, id).block < len && SecondCopy(s, g, id).block < len
  {
    hide First, Second, Row;
    RowBounds(s, g, Second(s, id) - 1, len);
    RowBounds(s, g, First(s, id), len);
  }

  function AtSlot(disks: seq<Column>, a: Slot): Block {
    if a.disk < |disks| && a.block < |disks[a.disk]| then disks[a.disk][a.block] else 0
  }

  /** The contents of a segment by block id, from the first and from the second copies. */
  ghost function Segment(s: nat, disks: seq<Column>, g: nat): (r: seq<Block>)
    ensures |r| == BlocksBefore(s, s)
    ensures forall id :: 0 <= id < |r| ==> r[id] == AtSlot(disks, FirstCopy(s, g, id))
  {
    seq(BlocksBefore(s, s), id requires 0 <= id < BlocksBefore(s, s) => AtSlot(disks, FirstCopy(s, g, id)))
  }

  ghost function Mirror(s: nat, disks: seq<Column>, g: nat): (r: seq<Block>)
    ensures |r| == BlocksBefore(s, s)
    ensures forall id :: 0 <= id < |r| ==> r[id] == AtSlot(disks, SecondCopy(s, g, id))
  {
    seq(BlocksBefore(s, s), id requires 0 <= id < BlocksBefore(s, s) => AtSlot(disks, SecondCopy(s, g, id)))
  }

  /** The blocks from m on are the coded sums of the first m. */
  ghost predicate IsCoded(gen: seq<nat>, m: nat, seg: seq<Block>) {
    m <= |seg| && forall j :: m <= j < |seg| ==> seg[j] == CodeSum(gen, m, j - m, seg, m)
  }

  /** The state of a segment while a write of v over block id is under way: the coded blocks
      below i have been updated. */
  function Updated(gen: seq<nat>, m: nat, seg: seq<Block>, id: nat, v: Block, i: nat): (r: seq<Block>)
    requires id < m && m + i <= |seg|
    ensures |r| == |seg|
    ensures forall j :: 0 <= j < |seg| ==> r[j] == UpdatedBlock(gen, m, seg, id, v, i, j)
  {
    seq(|seg|, j requires 0 <= j < |seg| => UpdatedBlock(gen, m, seg, id, v, i, j))
  }

  function UpdatedBlock(gen: seq<nat>, m: nat, seg: seq<Block>, id: nat, v: Block, i: nat, j: nat): Block
    requires id < |seg| && j < |seg|
  {
    if j == id then v
    else if m <= j < m + i then Xor(seg[j], Scale(Coefficient(gen, m, j - m, id), Xor(seg[id], v)))
    else seg[j]
  }

  lemma UpdateStarts(gen: seq<nat>, m: nat, seg: seq<Block>, id: nat, v: Block)
    requires id < m <= |seg|
    ensures Updated(gen, m, seg, id, v, 0) == seg[id := v]
  {
    hide Coefficient, Xor, Scale;
  }

  lemma UpdateNext(gen: seq<nat>, m: nat, seg: seq<Block>, id: nat, v: Block, i: nat)
    requires id < m && m + i < |seg|
    ensures var was := Updated(gen, m, seg, id, v, i);
      Updated(gen, m, seg, id, v, i + 1) ==
        was[m + i := Xor(was[m + i], Scale(Coefficient(gen, m, i, id), Xor(seg[id], v)))]
  {
    hide Coefficient, Xor, Scale, Updated;
  }

  /** A segment after v has been written to native block id: coded block i has had the change
      added, times entry (i, id) of the matrix. */
  ghost predicate SegmentUpdated(gen: seq<nat>, m: nat, was: seq<Block>, now: seq<Block>, id: nat, v: Block) {
    id < m <= |was| == |now| &&
    (forall j :: 0 <= j < m ==> now[j] == if j == id then v else was[j]) &&
    forall j {:trigger now[j]} :: m <= j < |now| ==> Gained(gen, was[j], now[j], (j - m) * m + id, Xor(was[id], v))
  }

  lemma UpdatedByMatrix(gen: seq<nat>, m: nat, c: nat, was: seq<Block>, id: nat, v: Block)
    requires id < m && |was| == m + c && IsSized(gen, c, m)
    ensures SegmentUpdated(gen, m, was, Updated(gen, m, was, id, v, c), id, v)
  {
    hide Coefficient, Xor, Scale, IsSized, Updated, Gained;
    var now := Updated(gen, m, was, id, v, c);
    forall j {:trigger now[j]} | m <= j < |now| ensures Gained(gen, was[j], now[j], (j - m) * m + id, Xor(was[id], v)) {
      GainedByCoefficient(gen, c, m, j - m, id, was[j], Xor(was[id], v));
    }
  }

  /** The blocks of the segment after the write, one by one. */
  lemma SegmentUpdatedAt(
      gen: seq<nat>, m: nat, was: seq<Block>, now: seq<Block>, id: nat, v: Block, i: nat)
    requires SegmentUpdated(gen, m, was, now, id, v)
    ensures id < m <= |was| == |now| && (i < m ==> now[i] == if i == id then v else was[i])
    ensures m + i < |now| ==>
      0 <= i * m + id < |gen| && now[m + i] == Xor(was[m + i], Scale(gen[i * m + id], Xor(was[id], v)))
  {
    hide Xor, Scale;
    if m + i < |now| { assert Gained(gen, was[m + i], now[m + i], i * m + id, Xor(was[id], v)); }
  }

  /** A write keeps the segment coded, whatever it overwrites. */
  lemma UpdateKeepsCode(gen: seq<nat>, m: nat, seg: seq<Block>, id: nat, v: Block)
    requires IsCoded(gen, m, seg) && id < m && AreBytes(gen)
    ensures IsCoded(gen, m, Updated(gen, m, seg, id, v, |seg| - m))
  {
    hide Xor, Scale, Updated, CodeSum, Coefficient;
    var r, x := Updated(gen, m, seg, id, v, |seg| - m), Xor(seg[id], v);
    XorCancel(v, seg[id]);
    forall j | m <= j < |seg| ensures r[j] == CodeSum(gen, m, j - m, r, m) {
      CodeSumAdd(gen, m, j - m, seg, r, id, x, m);
    }
  }

  /** Both copies of every block agree, and every segment is coded. */
  ghost predicate IsStored(s: nat, m: nat, gen: seq<nat>, disks: seq<Column>, len: nat) {
    IsArray(s, disks, len) &&
    forall g :: 0 <= g < Quotient(len, s) ==>
      Mirror(s, disks, g) == Segment(s, disks, g) && IsCoded(gen, m, Segment(s, disks, g))
  }

  /** Writing both copies of block id of segment g. */
  lemma BothCopiesWritten(s: nat, before: seq<Column>, after: seq<Column>, len: nat, g: nat, id: nat, v: Block, h: nat)
    requires IsArray(s, before, len) && IsArray(s, after, len)
    requires g < Quotient(len, s) && h < Quotient(len, s) && id < BlocksBefore(s, s)
    requires
      var a, b := FirstCopy(s, g, id), SecondCopy(s, g, id);
      a.disk <= s && b.disk <= s && a.block < len && b.block < len &&
      after == Put(Put(before, a.disk, a.block, v), b.disk, b.block, v)
    ensures Segment(s, after, h) ==
      if h == g then Segment(s, before, h)[id := v] else Segment(s, before, h)
    ensures Mirror(s, after, h) == if h == g then Mirror(s, before, h)[id := v] else Mirror(s, before, h)
  {
    hide First, Second, FirstCopy, SecondCopy, Put;
    var x, y := Segment(s, after, h), Segment(s, before, h);
    var z, w := Mirror(s, after, h), Mirror(s, before, h);
    forall j | 0 <= j < BlocksBefore(s, s)
      ensures x[j] == if h == g && j == id then v else y[j]
      ensures z[j] == if h == g && j == id then v else w[j]
    {
      CopiesApart(s, g, id, h, j);
      CopiesApart(s, h, j, g, id);
    }
  }

  /** The native blocks after v has been written to native block b of disk d, or after nothing
      has been written. */
  ghost predicate NativeWritten(
      s: nat, k: nat, before: seq<Column>, after: seq<Column>, len: nat, d: int, b: nat, v: Block) {
    IsArray(s, before, len) && IsArray(s, after, len) &&
    forall e, c :: 0 <= e <= s && 0 <= c < len && IsNative(s, k, c, e) ==>
      after[e][c] == if e == d && c == b then v else before[e][c]
  }

  /** The blocks of bufs are in their slots, which are the native slots in order from number
      start to the one before disk r of row q, and the other native blocks are as they were. */
  ghost predicate AllThere(
      s: nat, k: nat, len: nat, was: seq<Column>, now: seq<Column>, start: nat, q: nat, r: nat, slots: seq<Slot>,
      bufs: seq<Block>)
  {
    0 < s && |slots| <= |bufs| && IsArray(s, was, len) && IsArray(s, now, len) &&
    (forall i :: 0 <= i < |slots| ==>
      slots[i].disk < k && slots[i].disk <= s && slots[i].block < len &&
      (slots[i].block < q || (slots[i].block == q && slots[i].disk < r)) &&
      IsNative(s, k, slots[i].block, slots[i].disk) && now[slots[i].disk][slots[i].block] == bufs[i]) &&
    (forall i :: 0 <= i < |slots| ==> SlotsBelow(s, k, slots[i].block) + slots[i].disk == start + i) &&
    forall d, b :: 0 <= d <= s && 0 <= b < len && IsNative(s, k, b, d) && Slot(d, b) !in slots ==>
      now[d][b] == was[d][b]
  }

  /** One more block is written to disk r of row q, the next native slot. */
  lemma NextThere(
      s: nat, k: nat, len: nat, was: seq<Column>, mid: seq<Column>, now: seq<Column>, start: nat, q: nat, r: nat,
      p: nat, t: nat, slots: seq<Slot>, bufs: seq<Block>)
    requires |slots| < |bufs| && AllThere(s, k, len, was, mid, start, q, r, slots, bufs)
    requires q < len && IsNative(s, k, q, r) && SlotsBelow(s, k, q) + r == start + |slots|
    requires NativeWritten(s, k, mid, now, len, r, q, bufs[|slots|])
    requires (p == q && t == r + 1) || (p == q + 1 && t == 0)
    ensures AllThere(s, k, len, was, now, start, p, t, slots + [Slot(r, q)], bufs)
  {
    hide SlotsBelow, IsNative, Remainder, Quotient;
    NativeBelow(s, k, q, r);
    IsArrays(s, k, mid, now, len, r, q, bufs[|slots|]);
  }

  lemma IsArrays(s: nat, k: nat, before: seq<Column>, after: seq<Column>, len: nat, d: int, b: nat, v: Block)
    requires NativeWritten(s, k, before, after, len, d, b, v)
    ensures IsArray(s, before, len) && IsArray(s, after, len) && |before| == |after| == s + 1
  {
  }

  class MbrLayer {
    const nc: DiskArray
    const n: nat
    const k: nat
    const s: nat
    const m: nat
    const c: nat
    /** The c rows of m coefficients that define the coded blocks. */
    const gen: seq<nat>

    ghost predicate Valid()
      reads nc
    {
      nc.Shape() && IsArray(s, nc.disks, nc.len) && n == nc.total == s + 1 && 0 < k <= n &&
      m == Native(n, k) && c == Coded(n, k) && m + c == BlocksBefore(s, s) &&
      IsSized(gen, c, m) && AreBytes(gen)
    }

    constructor (nc: DiskArray, k: nat, gen: seq<nat>)
      requires nc.Shape() && 0 < k <= nc.total && Remainder(nc.len, nc.total - 1) == 0
      requires |gen| == Native(nc.total, k) * Coded(nc.total, k) && AreBytes(gen)
      ensures Valid() && this.nc == nc && this.k == k && this.gen == gen
    {
      Parameters(nc.total, k);
      NativeNotNegative(nc.total, k);
      this.nc, this.k, this.gen := nc, k, gen;
      n, m, c := nc.total, Native(nc.total, k), Coded(nc.total, k);
      Commute(Native(nc.total, k), Coded(nc.total, k));
      s := 2 * (Native(nc.total, k) + Coded(nc.total, k)) / nc.total;
    }

    /** Writes v to both copies of block id of segment g. */
    method WriteBoth(g: nat, id: nat, v: Block)
      requires Valid() && g < Quotient(nc.len, s) && id < BlocksBefore(s, s)
      modifies nc`disks
      ensures Valid()
      ensures forall h :: 0 <= h < Quotient(nc.len, s) ==>
        Segment(s, nc.disks, h) ==
          (if h == g then Segment(s, old(nc.disks), h)[id := v] else Segment(s, old(nc.disks), h)) &&
        Mirror(s, nc.disks, h) ==
          if h == g then Mirror(s, old(nc.disks), h)[id := v] else Mirror(s, old(nc.disks), h)
    {
      hide First, Second, Put, Native, Coded, Row;
      ghost var before := nc.disks;
      CopiesInside(s, nc.len, g, id);
      var d := GetDiskId(id, s);
      var b := GetBlockNo(d, id, s);
      var e := GetDupDiskId(id, s);
      var r := GetDupBlockNo(d, id, s);
      nc.WriteDisk(d, Row(s, g, b), v);
      nc.WriteDisk(e, Row(s, g, r), v);
      forall h | 0 <= h < Quotient(nc.len, s)
        ensures Segment(s, nc.disks, h) ==
          (if h == g then Segment(s, before, h)[id := v] else Segment(s, before, h)) &&
          Mirror(s, nc.disks, h) ==
          if h == g then Mirror(s, before, h)[id := v] else Mirror(s, before, h)
      {
        BothCopiesWritten(s, before, nc.disks, nc.len, g, id, v, h);
      }
    }

    /** The segments while a write over block id of segment g is under way. */
    ghost predicate InProgress(before: seq<Column>, now: seq<Column>, g: nat, id: nat, v: Block, i: nat) {
      IsArray(s, before, nc.len) && IsArray(s, now, nc.len) && g < Quotient(nc.len, s) && id < m && i <= c &&
      m + c == BlocksBefore(s, s) &&
      var seg := Segment(s, before, g);
      forall h :: 0 <= h < Quotient(nc.len, s) ==>
        Segment(s, now, h) == (if h == g then Updated(gen, m, seg, id, v, i) else Segment(s, before, h)) &&
        Mirror(s, now, h) == Segment(s, now, h)
    }

    /** Stores a native block at its address, with its copy and all coded blocks. Every segment
        stays mirrored and coded, whatever was there before, and no other native block changes. */
    method Store(d: nat, b: nat, buf: Block)
      requires Valid() && d <= s && b < nc.len && forall i :: 0 <= i < n ==> !nc.failed[i]
      requires Remainder(b, s) >= d && PairId(s, d, Remainder(b, s) + 1) < m
      requires IsStored(s, m, gen, nc.disks, nc.len)
      modifies nc`disks, nc`readLog
      ensures Valid() && IsStored(s, m, gen, nc.disks, nc.len)
      ensures NativeWritten(s, k, old(nc.disks), nc.disks, nc.len, d, b, buf)
      ensures
        var g, id := Quotient(b, s), PairId(s, d, Remainder(b, s) + 1);
        SegmentUpdated(gen, m, Segment(s, old(nc.disks), g), Segment(s, nc.disks, g), id, buf) &&
        forall h :: 0 <= h < Quotient(nc.len, s) && h != g ==> Segment(s, nc.disks, h) == Segment(s, old(nc.disks), h)
    {
      hide First, Second, Native, Coded, Xor, Scale, Updated, IsCoded, CodeSum, Row, InProgress, IsSized,
        SegmentUpdated;
      ghost var before := nc.disks;
      var g := Quotient(b, s);
      CopiesOfBlock(s, d, b, nc.len);
      var id := FindBlockId(d, b, s);
      var buf2 := nc.ReadDisk(d, b);
      buf2 := Xor(buf2, buf);
      WriteBoth(g, id, buf);
      WriteBegins(before, g, id, buf);
      for i := 0 to c
        invariant Valid() && InProgress(before, nc.disks, g, id, buf, i)
      {
        UpdateCoded(before, g, id, i, buf2, buf);
      }
      WriteEnds(before, g, id, buf);
      forall e, c | 0 <= e <= s && 0 <= c < nc.len && IsNative(s, k, c, e)
        ensures nc.disks[e][c] == if e == d && c == b then buf else before[e][c]
      {
        NativeSlot(before, d, b, e, c, buf);
      }
    }

    /** The native block at a slot, by segment and block id. */
    lemma NativeSlot(before: seq<Column>, d: nat, b: nat, e: nat, c: nat, v: Block)
      requires Valid() && IsArray(s, before, nc.len) && d <= s && b < nc.len && Remainder(b, s) >= d
      requires PairId(s, d, Remainder(b, s) + 1) < m
      requires
        var g, id := Quotient(b, s), PairId(s, d, Remainder(b, s) + 1);
        g < Quotient(nc.len, s) && Segment(s, nc.disks, g)[id] == v &&
        forall h, j :: 0 <= h < Quotient(nc.len, s) && 0 <= j < m && (h != g || j != id) ==>
          Segment(s, nc.disks, h)[j] == Segment(s, before, h)[j]
      requires e <= s && c < nc.len && IsNative(s, k, c, e)
      ensures nc.disks[e][c] == if e == d && c == b then v else before[e][c]
    {
      hide First, Second, Native, Coded, Row, BlocksBefore, Segment, Quotient, Remainder;
      NativeById(n, k, c, e);
      CopiesOfBlock(s, d, b, nc.len);
      CopiesOfBlock(s, e, c, nc.len);
      AtFirstCopy(nc.disks, e, c);
      AtFirstCopy(before, e, c);
    }

    lemma AtFirstCopy(disks: seq<Column>, e: nat, c: nat)
      requires Valid() && IsArray(s, disks, nc.len) && e <= s && c < nc.len && Remainder(c, s) >= e
      ensures
        var id := PairId(s, e, Remainder(c, s) + 1);
        id < BlocksBefore(s, s) && Segment(s, disks, Quotient(c, s))[id] == disks[e][c]
    {
      hide First, Second, Native, Coded, Row, FirstCopy, SecondCopy, PairId, BlocksBefore, Quotient, Remainder;
      CopiesOfBlock(s, e, c, nc.len);
    }

    // ---- Allocation ----

    ghost predicate AllNative(list: seq<Slot>) {
      s > 0 && forall i :: 0 <= i < |list| ==> IsNative(s, k, list[i].block, list[i].disk)
    }

    method TestNative(d: nat, b: nat) returns (native: bool)
      requires Valid() && d <= s
      ensures native == IsNative(s, k, b, d)
    {
      hide Native, Coded, BlocksBefore, IsNative;
      NativeById(n, k, b, d);
      var id := FindBlockId(d, b, s);
      native := id != -1 && id < m;
    }

    /** Moves each disk that does not stand on a native slot on by one. */
    method StepOffsets()
      requires Valid() && Accounts(nc.freeOffset, nc.freeSize, nc.spaceList, n, nc.len)
      modifies nc`freeOffset, nc`freeSize
      ensures Valid() && Accounts(nc.freeOffset, nc.freeSize, nc.spaceList, n, nc.len)
      ensures nc.freeOffset == SteppedOffset(s, k, old(nc.freeOffset))
      ensures nc.freeSize == SteppedSize(s, k, old(nc.freeOffset), old(nc.freeSize))
    {
      hide Accounts, Native, Coded, BlocksBefore, SteppedOffset, SteppedSize, IsNative;
      ghost var offset, size := nc.freeOffset, nc.freeSize;
      for i := 0 to n
        invariant Valid() && Accounts(nc.freeOffset, nc.freeSize, nc.spaceList, n, nc.len)
        invariant forall j :: 0 <= j < n ==>
          nc.freeOffset[j] == if j < i then SteppedOffset(s, k, offset)[j] else offset[j]
        invariant forall j :: 0 <= j < n ==>
          nc.freeSize[j] == if j < i then SteppedSize(s, k, offset, size)[j] else size[j]
      {
        var o := nc.freeOffset[i];
        SteppedAccounts(nc.freeOffset, nc.freeSize, nc.spaceList, n, nc.len, i);
        var native := TestNative(i, o);
        if !native {
          nc.freeOffset, nc.freeSize := nc.freeOffset[i := o + 1], nc.freeSize[i := nc.freeSize[i] - 1];
        }
      }
    }

    /** The disk on a native slot that is furthest behind, the lowest numbered of these. */
    method PickNative() returns (diskId: int, blockNo: nat)
      requires Valid()
      ensures -1 <= diskId < n
      ensures diskId >= 0 ==>
        IsNative(s, k, blockNo, diskId) && nc.freeSize[diskId] >= 1 &&
        blockNo == nc.freeOffset[diskId] <= nc.freeOffset[0]
      ensures forall d {:trigger nc.freeOffset[d]} ::
        0 <= d < n && IsNative(s, k, nc.freeOffset[d], d) && nc.freeSize[d] >= 1 &&
        nc.freeOffset[d] <= nc.freeOffset[0] ==>
        diskId >= 0 && blockNo <= nc.freeOffset[d] && (d < diskId ==> blockNo < nc.freeOffset[d])
    {
      hide Native, Coded, BlocksBefore, IsNative, Remainder, Quotient, AreBytes;
      blockNo, diskId := 0, -1;
      var lowest := nc.freeOffset[0];
      for i := n downto 0
        invariant -1 <= diskId < n
        invariant diskId == -1 ==> lowest == nc.freeOffset[0]
        invariant diskId >= 0 ==>
          i <= diskId && IsNative(s, k, blockNo, diskId) && nc.freeSize[diskId] >= 1 &&
          blockNo == lowest == nc.freeOffset[diskId] <= nc.freeOffset[0]
        invariant forall d {:trigger nc.freeOffset[d]} ::
          i <= d < n && IsNative(s, k, nc.freeOffset[d], d) && nc.freeSize[d] >= 1 &&
          nc.freeOffset[d] <= nc.freeOffset[0] ==>
          diskId >= 0 && lowest <= nc.freeOffset[d] && (d < diskId ==> lowest < nc.freeOffset[d])
      {
        var native := TestNative(i, nc.freeOffset[i]);
        if 1 <= nc.freeSize[i] && lowest >= nc.freeOffset[i] && native {
          diskId, blockNo := i, nc.freeOffset[i];
          lowest := blockNo;
        }
      }
    }

    /** Takes the slot that is due after stepping. */
    method Allocate() returns (diskId: int, blockNo: nat)
      requires Valid() && Accounts(nc.freeOffset, nc.freeSize, nc.spaceList, n, nc.len) && AllNative(nc.spaceList)
      modifies nc`freeOffset, nc`freeSize, nc`spaceList
      ensures Valid() && Accounts(nc.freeOffset, nc.freeSize, nc.spaceList, n, nc.len) && AllNative(nc.spaceList)
      ensures -1 <= diskId < n && (diskId >= 0 ==> blockNo < nc.len && IsNative(s, k, blockNo, diskId))
      ensures
        var offset, size := SteppedOffset(s, k, old(nc.freeOffset)),
          SteppedSize(s, k, old(nc.freeOffset), old(nc.freeSize));
        DueNative(s, k, offset, size, old(nc.spaceList), n, diskId, blockNo) &&
        (forall i :: 0 <= i < n ==>
          nc.freeOffset[i] == (if i == diskId then blockNo + 1 else offset[i]) &&
          nc.freeSize[i] == size[i] - if i == diskId then 1 else 0) &&
        nc.spaceList ==
          if old(nc.spaceList) != [] &&
            (forall d :: 0 <= d < n && IsNative(s, k, offset[d], d) ==> size[d] < 1 || offset[d] > offset[0])
          then old(nc.spaceList)[1..] else old(nc.spaceList)
    {
      hide Accounts, Native, Coded, BlocksBefore, SteppedOffset, SteppedSize, IsNative;
      StepOffsets();
      ghost var offset, size, list := nc.freeOffset, nc.freeSize, nc.spaceList;
      var p, q := PickNative();
      diskId, blockNo := nc.HandOut(n, nc.len, p, q);
      PickedIsDueNative(s, k, offset, size, list, n, p, q, diskId, blockNo);
    }

    /** Stores one block in the slot that is due. */
    method Encode(buf: Block) returns (diskId: int, blockNo: nat)
      requires Valid() && IsStored(s, m, gen, nc.disks, nc.len) && forall i :: 0 <= i < n ==> !nc.failed[i]
      requires Accounts(nc.freeOffset, nc.freeSize, nc.spaceList, n, nc.len) && AllNative(nc.spaceList)
      modifies nc
      ensures Valid() && IsStored(s, m, gen, nc.disks, nc.len) && nc.failed == old(nc.failed)
      ensures Accounts(nc.freeOffset, nc.freeSize, nc.spaceList, n, nc.len) && AllNative(nc.spaceList)
      ensures -1 <= diskId < n && (diskId >= 0 ==> blockNo < nc.len && IsNative(s, k, blockNo, diskId))
      ensures
        var offset, size := SteppedOffset(s, k, old(nc.freeOffset)),
          SteppedSize(s, k, old(nc.freeOffset), old(nc.freeSize));
        DueNative(s, k, offset, size, old(nc.spaceList), n, diskId, blockNo) &&
        (forall i :: 0 <= i < n ==>
          nc.freeOffset[i] == (if i == diskId then blockNo + 1 else offset[i]) &&
          nc.freeSize[i] == size[i] - if i == diskId then 1 else 0) &&
        nc.spaceList ==
          if old(nc.spaceList) != [] &&
            (forall d :: 0 <= d < n && IsNative(s, k, offset[d], d) ==> size[d] < 1 || offset[d] > offset[0])
          then old(nc.spaceList)[1..] else old(nc.spaceList)
      ensures diskId == -1 ==> nc.disks == old(nc.disks)
      ensures NativeWritten(s, k, old(nc.disks), nc.disks, nc.len, diskId, blockNo, buf)
    {
      hide Accounts, Native, Coded, BlocksBefore, SteppedOffset, SteppedSize, IsNative, IsStored, DueNative, Taken,
        AllNative;
      diskId, blockNo := Allocate();
      if diskId != -1 {
        NativeById(n, k, blockNo, diskId);
        Store(diskId, blockNo, buf);
      }
    }

    /** A run of writes to an array whose native slots have been filled in order up to disk r of
        row q. They go on being filled in order, none is skipped, and every block written is
        still there at the end. */
    method WriteAll(bufs: seq<Block>, ghost q0: nat, ghost r0: nat) returns (slots: seq<Slot>)
      requires Valid() && IsStored(s, m, gen, nc.disks, nc.len) && forall i :: 0 <= i < n ==> !nc.failed[i]
      requires Accounts(nc.freeOffset, nc.freeSize, nc.spaceList, n, nc.len) && nc.spaceList == []
      requires Dealt(s, k, nc.freeOffset, nc.freeSize, n, nc.len, q0, r0) && q0 <= nc.len && (q0 == nc.len ==> r0 == 0)
      modifies nc
      ensures Valid() && IsStored(s, m, gen, nc.disks, nc.len) && nc.failed == old(nc.failed)
      ensures
        var space := SlotsBelow(s, k, nc.len) - (SlotsBelow(s, k, q0) + r0);
        |slots| == if |bufs| <= space then |bufs| else space
      ensures forall i :: 0 <= i < |slots| ==>
        slots[i].disk < k && slots[i].disk <= s && slots[i].block < nc.len &&
        IsNative(s, k, slots[i].block, slots[i].disk) && nc.disks[slots[i].disk][slots[i].block] == bufs[i]
      ensures forall i :: 0 <= i < |slots| ==>
        SlotsBelow(s, k, slots[i].block) + slots[i].disk == SlotsBelow(s, k, q0) + r0 + i
      ensures forall d, b :: 0 <= d <= s && 0 <= b < nc.len && IsNative(s, k, b, d) && Slot(d, b) !in slots ==>
        nc.disks[d][b] == old(nc.disks)[d][b]
    {
      hide Accounts, Native, Coded, BlocksBefore, SteppedOffset, SteppedSize, IsNative, IsStored, DueNative, Taken,
        Dealt, SlotsBelow, Width, Remainder, IsSized, NativeWritten, SegmentUpdated, Quotient;
      slots := [];
      ghost var q: nat, r: nat := q0, r0;
      while |slots| < |bufs|
        invariant Valid() && IsStored(s, m, gen, nc.disks, nc.len) && nc.failed == old(nc.failed)
        invariant Accounts(nc.freeOffset, nc.freeSize, nc.spaceList, n, nc.len) && nc.spaceList == []
        invariant Dealt(s, k, nc.freeOffset, nc.freeSize, n, nc.len, q, r) && q <= nc.len && (q == nc.len ==> r == 0)
        invariant |slots| <= |bufs| && SlotsBelow(s, k, q) + r == SlotsBelow(s, k, q0) + r0 + |slots|
        invariant AllThere(s, k, nc.len, old(nc.disks), nc.disks, SlotsBelow(s, k, q0) + r0, q, r, slots, bufs)
        decreases |bufs| - |slots|
      {
        ghost var offset, size, before := nc.freeOffset, nc.freeSize, nc.disks;
        var d, b := Encode(bufs[|slots|]);
        IsTaken(SteppedOffset(s, k, offset), SteppedSize(s, k, offset, size), nc.freeOffset, nc.freeSize, n, d, b);
        DueWhenDealt(s, k, offset, size, nc.freeOffset, nc.freeSize, n, nc.len, q, r, d, b);
        if d == -1 { break; }
        DealtBelow(s, k, offset, size, n, nc.len, q, r);
        ghost var p, t := NextPlace(s, k, q, r);
        NextThere(s, k, nc.len, old(nc.disks), before, nc.disks, SlotsBelow(s, k, q0) + r0, q, r, p, t, slots, bufs);
        q, r := p, t;
        slots := slots + [Slot(d, b)];
      }
      DealtBelow(s, k, nc.freeOffset, nc.freeSize, n, nc.len, q, r);
      SpaceLeft(s, k, nc.len, q, r);
    }

    // ---- The steps of a write ----

    lemma WriteBegins(before: seq<Column>, g: nat, id: nat, v: Block)
      requires Valid() && IsStored(s, m, gen, before, nc.len) && g < Quotient(nc.len, s) && id < m
      requires forall h :: 0 <= h < Quotient(nc.len, s) ==>
        Segment(s, nc.disks, h) ==
          (if h == g then Segment(s, before, h)[id := v] else Segment(s, before, h)) &&
        Mirror(s, nc.disks, h) ==
          if h == g then Mirror(s, before, h)[id := v] else Mirror(s, before, h)
      ensures InProgress(before, nc.disks, g, id, v, 0)
    {
      hide Segment, Mirror, Updated, IsCoded, Native, Coded;
      UpdateStarts(gen, m, Segment(s, before, g), id, v);
    }

    lemma WriteEnds(before: seq<Column>, g: nat, id: nat, v: Block)
      requires Valid() && IsStored(s, m, gen, before, nc.len) && g < Quotient(nc.len, s) && id < m
      requires InProgress(before, nc.disks, g, id, v, c)
      ensures IsStored(s, m, gen, nc.disks, nc.len) && Segment(s, nc.disks, g)[id] == v
      ensures SegmentUpdated(gen, m, Segment(s, before, g), Segment(s, nc.disks, g), id, v)
      ensures forall h :: 0 <= h < Quotient(nc.len, s) && h != g ==> Segment(s, nc.disks, h) == Segment(s, before, h)
      ensures forall h, j :: 0 <= h < Quotient(nc.len, s) && 0 <= j < m && (h != g || j != id) ==>
        Segment(s, nc.disks, h)[j] == Segment(s, before, h)[j]
    {
      hide Segment, Mirror, Updated, IsCoded, Native, Coded, Xor, Scale, Coefficient, IsSized, SegmentUpdated;
      UpdateKeepsCode(gen, m, Segment(s, before, g), id, v);
      UpdatedByMatrix(gen, m, c, Segment(s, before, g), id, v);
    }

    /** Reads the first copy of block id of segment g. */
    method ReadFirst(g: nat, id: nat) returns (v: Block)
      requires Valid() && g < Quotient(nc.len, s) && id < BlocksBefore(s, s)
      requires forall j :: 0 <= j < n ==> !nc.failed[j]
      modifies nc`readLog
      ensures v == Segment(s, nc.disks, g)[id]
    {
      hide First, Second, Native, Coded, Row, BlocksBefore, AreBytes, Quotient, Remainder;
      CopiesInside(s, nc.len, g, id);
      var d := GetDiskId(id, s);
      var b := GetBlockNo(d, id, s);
      v := nc.ReadDisk(d, Row(s, g, b));
    }

    /** Adds a multiple of the change buf2 to coded block i of segment g. */
    method UpdateCoded(ghost before: seq<Column>, g: nat, id: nat, i: nat, buf2: Block, ghost v: Block)
      requires Valid() && IsArray(s, before, nc.len) && g < Quotient(nc.len, s) && id < m && i < c
      requires buf2 == Xor(Segment(s, before, g)[id], v) && InProgress(before, nc.disks, g, id, v, i)
      requires forall j :: 0 <= j < n ==> !nc.failed[j]
      modifies nc`disks, nc`readLog
      ensures Valid() && InProgress(before, nc.disks, g, id, v, i + 1)
    {
      hide First, Second, Native, Coded, Xor, Scale, Row, Coefficient, InProgress, BlocksBefore, Segment, Mirror,
        AreBytes, Quotient, Remainder;
      ghost var mid := nc.disks;
      var bufRead := ReadFirst(g, m + i);
      bufRead := Xor(bufRead, Scale(Coefficient(gen, m, i, id), buf2));
      WriteBoth(g, m + i, bufRead);
      ProgressNext(before, mid, nc.disks, g, id, v, i);
    }

    lemma ProgressNext(
        before: seq<Column>, mid: seq<Column>, now: seq<Column>, g: nat, id: nat, v: Block, i: nat)
      requires InProgress(before, mid, g, id, v, i) && IsArray(s, now, nc.len) && i < c
      requires
        var w := Xor(Segment(s, mid, g)[m + i], Scale(Coefficient(gen, m, i, id), Xor(Segment(s, before, g)[id], v)));
        forall h :: 0 <= h < Quotient(nc.len, s) ==>
          Segment(s, now, h) == (if h == g then Segment(s, mid, h)[m + i := w] else Segment(s, mid, h)) &&
          Mirror(s, now, h) == if h == g then Mirror(s, mid, h)[m + i := w] else Mirror(s, mid, h)
      ensures InProgress(before, now, g, id, v, i + 1)
    {
      hide Xor, Scale, Coefficient, Updated, BlocksBefore, Segment, Mirror, Quotient, IsArray;
      UpdateNext(gen, m, Segment(s, before, g), id, v, i);
    }

    /** The address of the other copy of what is at block b of disk d. */
    method FindOther(d: nat, b: nat) returns (other: Slot)
      requires Valid() && d <= s && b < nc.len
      ensures other == OtherCopy(s, d, b)
    {
      hide First, Second, Native, Coded, Row, OtherCopy, PairId, BlocksBefore, AreBytes, Remainder, Quotient;
      CopiesOfBlock(s, d, b, nc.len);
      var g := Quotient(b, s);
      var id := FindBlockId(d, b, s);
      if id == -1 {
        id := FindDupBlockId(d, b, s);
        var dupDisk := GetDiskId(id, s);
        var dupBlock := GetBlockNo(dupDisk, id, s);
        other := Slot(dupDisk, Row(s, g, dupBlock));
      } else {
        var dupDisk := GetDupDiskId(id, s);
        var dupBlock := GetDupBlockNo(d, id, s);
        other := Slot(dupDisk, Row(s, g, dupBlock));
      }
    }

    lemma OtherHoldsTheSame(d: nat, b: nat)
      requires Valid() && d <= s && b < nc.len && IsStored(s, m, gen, nc.disks, nc.len)
      ensures var o := OtherCopy(s, d, b); o.block < nc.len && nc.disks[o.disk][o.block] == nc.disks[d][b]
    {
      hide First, Second, FirstCopy, SecondCopy, OtherCopy, PairId, Native, Coded, IsCoded, Row;
      CopiesOfBlock(s, d, b, nc.len);
      var id := if Remainder(b, s) < d then PairId(s, Remainder(b, s), d) else PairId(s, d, Remainder(b, s) + 1);
      CopiesInside(s, nc.len, Quotient(b, s), id);
      assert Mirror(s, nc.disks, Quotient(b, s))[id] == Segment(s, nc.disks, Quotient(b, s))[id];
    }

    /** Reads block b of disk d. If d has failed, the block comes from its other copy; with two
        lost copies it would take the decoding matrix. The blocks of one disk have their other
        copies spread over all other disks, so with one failed disk this always succeeds. */
    method Decode(d: nat, b: nat) returns (ok: bool, buf: Block)
      requires Valid() && d <= s && b < nc.len && IsStored(s, m, gen, nc.disks, nc.len)
      modifies nc`readLog
      ensures ok <==> !nc.failed[d] || !nc.failed[OtherCopy(s, d, b).disk]
      ensures ok ==> buf == nc.disks[d][b]
      ensures ok ==> nc.readLog == old(nc.readLog) + {if nc.failed[d] then OtherCopy(s, d, b) else Slot(d, b)}
    {
      hide OtherCopy, Native, Coded, IsStored;
      if !nc.failed[d] {
        buf := nc.ReadDisk(d, b);
        return true, buf;
      }
      OtherHoldsTheSame(d, b);
      var other := FindOther(d, b);
      if nc.failed[other.disk] { return false, 0; }
      buf := nc.ReadDisk(other.disk, other.block);
      ok := true;
    }
  }

  lemma Commute(x: int, y: int)
    ensures x * y == y * x
  {
  }

  lemma NativeNotNegative(n: nat, k: nat)
    requires 0 < k <= n && n >= 2
    ensures Native(n, k) >= 0
  {
    EvenProduct(k);
    MulNonNegative(k, n - k);
    assert k * (n - 1) == k * (k - 1) + k * (n - k);
  }

  /** The other copies of the blocks that disk d has in a segment lie on different disks. */
  lemma DifferentSurvivors(s: nat, d: nat, b: nat, c: nat)
    requires 0 < s && d <= s && Quotient(b, s) == Quotient(c, s) && b != c
    ensures OtherCopy(s, d, b).disk != OtherCopy(s, d, c).disk
  {
    assert b == Quotient(b, s) * s + Remainder(b, s) && c == Quotient(c, s) * s + Remainder(c, s);
  }

  /** Empty disks are mirrored and coded. */
  lemma EmptyIsStored(s: nat, m: nat, gen: seq<nat>, disks: seq<Column>, len: nat)
    requires IsArray(s, disks, len) && m <= BlocksBefore(s, s)
    requires forall d, b :: 0 <= d <= s && 0 <= b < len ==> disks[d][b] == 0
    ensures IsStored(s, m, gen, disks, len)
  {
    hide First, Second, FirstCopy, SecondCopy, CodeSum;
    forall g | 0 <= g < Quotient(len, s)
      ensures Mirror(s, disks, g) == Segment(s, disks, g) && IsCoded(gen, m, Segment(s, disks, g))
    {
      var seg := Segment(s, disks, g);
      forall j | m <= j < |seg| ensures seg[j] == CodeSum(gen, m, j - m, seg, m) {
        ZeroCodeSum(gen, m, j - m, seg, m);
      }
    }
  }
}
