/** Whole runs, from an empty array to a degraded one: whatever has been written can be read
    back after disks have failed. */
module Survival {
  import opened Bits
  import opened Blocks
  import opened Diagonals
  import opened IntMod
  import opened LinearCode
  import opened Mbr
  import opened Ncfs
  import opened Src
  import opened PrimeWalk
  import opened StripWrite
  import opened Mdr1
  import opened Raid6
  import opened Raid6Alloc
  import Raid6Code
  import Evenodd
  import EvenoddCode
  import GaloisBlocks
  import GaloisTables
  import MbrAddress
  import MbrAlloc
  import MdrCode
  import MdrMatrix
  import MdrRepair
  import MdrStore
  import ParityStripe
  import Rdp
  import SrcAlloc
  import SrcCode

  /** Block j of bufs is in slot j, a slot of the first k disks. */
  ghost predicate Holds(disks: seq<Column>, k: nat, len: nat, slots: seq<Slot>, bufs: seq<Block>) {
    k <= |disks| && |slots| <= |bufs| && (forall d :: 0 <= d < |disks| ==> |disks[d]| == len) &&
    forall j :: 0 <= j < |slots| ==>
      slots[j].disk < k && slots[j].block < len && disks[slots[j].disk][slots[j].block] == bufs[j]
  }

  // ---- One failed disk ----

  method Mdr1ReadAll(layer: Mdr1Layer, slots: seq<Slot>, ghost bufs: seq<Block>, ghost x: nat)
      returns (back: seq<Block>)
    requires layer.Valid() && layer.nc.OnlyFailed(x) && layer.PlanFor(x) == x
    requires Coded(MdrStore.Code(layer.k), layer.k, Pow2(layer.k), layer.nc.disks, layer.nc.len)
    requires Holds(layer.nc.disks, layer.k, layer.nc.len, slots, bufs)
    modifies layer, layer.nc`readLog
    ensures back == bufs[..|slots|]
  {
    hide Accounts, MdrMatrix.MatrixOk, CodedAt, MdrRepair.Reads, MdrStore.Code;
    back := [];
    for i := 0 to |slots|
      invariant layer.Valid() && layer.PlanFor(x) == x && back == bufs[..i]
    {
      var ok, buf := layer.Decode(slots[i].disk, slots[i].block);
      back := back + [buf];
    }
  }

  method Mdr1Empty(total: nat, len: nat) returns (layer: Mdr1Layer)
    requires total >= 3 && len % Pow2(total - 2) == 0
    ensures fresh(layer) && fresh(layer.nc) && layer.Valid() && !layer.rowsKnown
    ensures layer.nc.total == total && layer.nc.len == len && layer.nc.spaceList == []
    ensures layer.nc.failed == seq(total, _ => false)
    ensures layer.nc.Unwritten() && Coded(MdrStore.Code(layer.k), layer.k, Pow2(layer.k), layer.nc.disks, len)
    ensures InTurn(layer.nc.freeOffset, layer.nc.freeSize, layer.k, len, 0)
  {
    hide Accounts, MdrMatrix.MatrixOk, Coded, MdrStore.Code, ZeroPast, InTurn;
    var nc := new DiskArray(total, len, len);
    layer := new Mdr1Layer(nc);
    MdrStore.EmptyIsCoded(total - 2, nc.disks, len);
    EmptyInTurn(nc.freeOffset, nc.freeSize, total, total - 2, len);
  }

  /** MDR-I, after any one disk has failed. What does not fit is not written. */
  method Mdr1ReadsBack(total: nat, len: nat, bufs: seq<Block>, x: nat) returns (back: seq<Block>)
    requires total >= 3 && len % Pow2(total - 2) == 0 && x < total
    ensures |back| == if |bufs| <= (total - 2) * len then |bufs| else (total - 2) * len
    ensures forall i :: 0 <= i < |back| ==> back[i] == bufs[i]
  {
    hide Accounts, MdrMatrix.MatrixOk, Coded, MdrStore.Code, ZeroPast, InTurn, Turn;
    var layer := Mdr1Empty(total, len);
    var slots := layer.WriteAll(bufs, 0);
    layer.nc.SetDeviceStatus(x, true);
    back := Mdr1ReadAll(layer, slots, bufs, x);
  }

  method EvenoddReadAll(layer: Evenodd.EvenoddLayer, slots: seq<Slot>, ghost bufs: seq<Block>, ghost x: nat)
      returns (back: seq<Block>)
    requires layer.Valid() && layer.nc.OnlyFailed(x)
    requires Coded(Evenodd.Code(layer.k), layer.k, layer.stripSize, layer.nc.disks, layer.nc.len)
    requires Holds(layer.nc.disks, layer.k, layer.nc.len, slots, bufs)
    modifies layer.nc`readLog
    ensures back == bufs[..|slots|]
  {
    hide Accounts, CodedAt, Evenodd.Code, ParityStripe.QList, ParityStripe.NoneBelow, ParityStripe.Symmetric;
    back := [];
    for i := 0 to |slots|
      invariant layer.Valid() && back == bufs[..i]
    {
      var ok, buf := layer.Decode(slots[i].disk, slots[i].block);
      back := back + [buf];
    }
  }

  method EvenoddEmpty(total: nat, len: nat) returns (layer: Evenodd.EvenoddLayer)
    requires total >= 4 && len % (total - 3) == 0
    ensures fresh(layer.nc) && layer.Valid() && layer.nc.total == total && layer.nc.len == len
    ensures layer.nc.spaceList == [] && layer.nc.failed == seq(total, _ => false)
    ensures layer.nc.Unwritten() && Coded(Evenodd.Code(layer.k), layer.k, layer.stripSize, layer.nc.disks, len)
    ensures InTurn(layer.nc.freeOffset, layer.nc.freeSize, layer.k, len, 0)
  {
    hide Accounts, Coded, Evenodd.Code, ZeroPast, InTurn,
      ParityStripe.QList, ParityStripe.NoneBelow, ParityStripe.Symmetric;
    var nc := new DiskArray(total, len, len);
    layer := new Evenodd.EvenoddLayer(nc);
    Evenodd.EmptyIsCoded(total - 2, nc.disks, len);
    EmptyInTurn(nc.freeOffset, nc.freeSize, total, total - 2, len);
  }

  /** EVENODD, after any one disk has failed. */
  method EvenoddReadsBack(total: nat, len: nat, bufs: seq<Block>, x: nat) returns (back: seq<Block>)
    requires total >= 4 && len % (total - 3) == 0 && x < total
    ensures |back| == if |bufs| <= (total - 2) * len then |bufs| else (total - 2) * len
    ensures forall i :: 0 <= i < |back| ==> back[i] == bufs[i]
  {
    hide Accounts, Coded, Evenodd.Code, ZeroPast, InTurn, Turn,
      ParityStripe.QList, ParityStripe.NoneBelow, ParityStripe.Symmetric;
    var layer := EvenoddEmpty(total, len);
    var slots := layer.WriteAll(bufs, 0);
    layer.nc.SetDeviceStatus(x, true);
    back := EvenoddReadAll(layer, slots, bufs, x);
  }

  method RdpReadAll(layer: Rdp.RdpLayer, slots: seq<Slot>, ghost bufs: seq<Block>, ghost x: nat)
      returns (back: seq<Block>)
    requires layer.Valid() && layer.nc.OnlyFailed(x)
    requires Coded(Rdp.Code(layer.k), layer.k, layer.stripSize, layer.nc.disks, layer.nc.len)
    requires Holds(layer.nc.disks, layer.k, layer.nc.len, slots, bufs)
    modifies layer.nc`readLog
    ensures back == bufs[..|slots|]
  {
    hide Accounts, CodedAt, Rdp.Code, ParityStripe.QList, ParityStripe.NoneBelow, ParityStripe.Symmetric;
    back := [];
    for i := 0 to |slots|
      invariant layer.Valid() && back == bufs[..i]
    {
      var ok, buf := layer.Decode(slots[i].disk, slots[i].block);
      back := back + [buf];
    }
  }

  method RdpEmpty(total: nat, len: nat) returns (layer: Rdp.RdpLayer)
    requires total >= 3 && len % (total - 2) == 0
    ensures fresh(layer.nc) && layer.Valid() && layer.nc.total == total && layer.nc.len == len
    ensures layer.nc.spaceList == [] && layer.nc.failed == seq(total, _ => false)
    ensures layer.nc.Unwritten() && Coded(Rdp.Code(layer.k), layer.k, layer.stripSize, layer.nc.disks, len)
    ensures InTurn(layer.nc.freeOffset, layer.nc.freeSize, layer.k, len, 0)
  {
    hide Accounts, Coded, Rdp.Code, ZeroPast, InTurn,
      ParityStripe.QList, ParityStripe.NoneBelow, ParityStripe.Symmetric;
    var nc := new DiskArray(total, len, len);
    layer := new Rdp.RdpLayer(nc);
    Rdp.EmptyIsCoded(total - 2, nc.disks, len);
    EmptyInTurn(nc.freeOffset, nc.freeSize, total, total - 2, len);
  }

  /** RDP, after any one disk has failed. */
  method RdpReadsBack(total: nat, len: nat, bufs: seq<Block>, x: nat) returns (back: seq<Block>)
    requires total >= 3 && len % (total - 2) == 0 && x < total
    ensures |back| == if |bufs| <= (total - 2) * len then |bufs| else (total - 2) * len
    ensures forall i :: 0 <= i < |back| ==> back[i] == bufs[i]
  {
    hide Accounts, Coded, Rdp.Code, ZeroPast, InTurn, Turn,
      ParityStripe.QList, ParityStripe.NoneBelow, ParityStripe.Symmetric;
    var layer := RdpEmpty(total, len);
    var slots := layer.WriteAll(bufs, 0);
    layer.nc.SetDeviceStatus(x, true);
    back := RdpReadAll(layer, slots, bufs, x);
  }

  // ---- Two failed disks ----

  method Raid6ReadAll(layer: Raid6Layer, slots: seq<Slot>, ghost bufs: seq<Block>) returns (back: seq<Block>)
    requires layer.Valid() && |layer.nc.FailedDisks()| <= 2 && AllCoded(layer.n, layer.nc.len, layer.nc.disks)
    requires Holds(layer.nc.disks, layer.n, layer.nc.len, slots, bufs)
    requires forall j :: 0 <= j < |slots| ==> Raid6Code.IsData(layer.n, slots[j].block, slots[j].disk)
    modifies layer.nc`readLog
    ensures back == bufs[..|slots|]
  {
    hide Accounts, GaloisBlocks.IsGfTable, Raid6Code.IsRow;
    back := [];
    for i := 0 to |slots|
      invariant layer.Valid() && back == bufs[..i]
    {
      var d, b := slots[i].disk, slots[i].block;
      assert d != Raid6Code.ParityDisk(layer.n, b);
      var ok, buf := layer.Decode(d, b);
      back := back + [buf];
    }
  }

  method Raid6Empty(total: nat, len: nat) returns (layer: Raid6Layer)
    requires 3 <= total <= 10
    ensures fresh(layer.nc) && layer.Valid() && layer.nc.total == total && layer.nc.len == len
    ensures layer.nc.spaceList == [] && layer.nc.failed == seq(total, _ => false)
    ensures AllCoded(total, len, layer.nc.disks) && InRotation(layer.nc.freeOffset, layer.nc.freeSize, total, len, 0)
  {
    hide AllCoded, Dealt, GaloisBlocks.IsGfTable;
    SmallMod(0, total - 2);
    var nc := new DiskArray(total, len, len);
    layer := new Raid6Layer(nc);
    Raid6.EmptyIsCoded(total, len, nc.disks);
    EmptyIsDealt(nc.freeOffset, nc.freeSize, total, len);
  }

  /** RAID-6, after any two disks have failed. */
  method Raid6ReadsBack(total: nat, len: nat, bufs: seq<Block>, x: nat, y: nat) returns (back: seq<Block>)
    requires 3 <= total <= 10 && x < total && y < total
    ensures |back| == if |bufs| <= (total - 2) * len then |bufs| else (total - 2) * len
    ensures forall i :: 0 <= i < |back| ==> back[i] == bufs[i]
  {
    hide Accounts, AllCoded, InRotation, GaloisBlocks.IsGfTable, Raid6Code.IsData;
    var layer := Raid6Empty(total, len);
    var slots := layer.WriteAll(bufs, 0);
    layer.nc.SetDeviceStatus(x, true);
    layer.nc.SetDeviceStatus(y, true);
    GaloisTables.SubsetSize(layer.nc.FailedDisks(), {x, y});
    back := Raid6ReadAll(layer, slots, bufs);
  }

  // ---- MBR and SRC ----

  method MbrEmpty(total: nat, len: nat, k: nat, gen: seq<nat>) returns (layer: MbrLayer)
    requires total >= 3 && Remainder(len, total - 1) == 0 && 0 < k <= total
    requires |gen| == MbrAddress.Native(total, k) * MbrAddress.Coded(total, k) && AreBytes(gen)
    ensures fresh(layer.nc) && layer.Valid() && layer.n == total && layer.k == k && layer.nc.len == len
    ensures layer.nc.spaceList == [] && layer.nc.failed == seq(total, _ => false)
    ensures Accounts(layer.nc.freeOffset, layer.nc.freeSize, [], total, len)
    ensures Mbr.IsStored(layer.s, layer.m, layer.gen, layer.nc.disks, len)
    ensures MbrAlloc.Dealt(layer.s, k, layer.nc.freeOffset, layer.nc.freeSize, total, len, 0, 0)
  {
    hide MbrAddress.Native, MbrAddress.Coded, MbrAddress.BlocksBefore, MbrAlloc.Dealt, Mbr.IsStored, Remainder;
    var nc := new DiskArray(total, len, len);
    layer := new MbrLayer(nc, k, gen);
    Mbr.EmptyIsStored(layer.s, layer.m, gen, nc.disks, len);
    MbrAlloc.EmptyIsDealt(layer.s, k, nc.freeOffset, nc.freeSize, total, len);
  }

  method MbrReadAll(layer: MbrLayer, slots: seq<Slot>, ghost bufs: seq<Block>, ghost x: nat) returns (back: seq<Block>)
    requires layer.Valid() && layer.nc.OnlyFailed(x)
    requires Mbr.IsStored(layer.s, layer.m, layer.gen, layer.nc.disks, layer.nc.len)
    requires Holds(layer.nc.disks, layer.n, layer.nc.len, slots, bufs)
    modifies layer.nc`readLog
    ensures back == bufs[..|slots|]
  {
    hide MbrAddress.Native, MbrAddress.Coded, MbrAddress.BlocksBefore, Mbr.IsStored, Mbr.OtherCopy;
    back := [];
    for i := 0 to |slots|
      invariant layer.Valid() && back == bufs[..i]
    {
      var ok, buf := layer.Decode(slots[i].disk, slots[i].block);
      back := back + [buf];
    }
  }

  method MbrRun(total: nat, len: nat, k: nat, gen: seq<nat>, bufs: seq<Block>, x: nat)
      returns (back: seq<Block>)
    requires total >= 3 && Remainder(len, total - 1) == 0 && 0 < k <= total && x < total
    requires |gen| == MbrAddress.Native(total, k) * MbrAddress.Coded(total, k) && AreBytes(gen)
    ensures |back| == if |bufs| <= MbrSpace(total, len, k) then |bufs| else MbrSpace(total, len, k)
    ensures forall i :: 0 <= i < |back| ==> back[i] == bufs[i]
  {
    hide Accounts, MbrAddress.Native, MbrAddress.Coded, MbrAddress.BlocksBefore, MbrAlloc.Dealt, MbrAlloc.IsNative,
      MbrAlloc.SlotsBelow, Mbr.IsStored, Remainder, Quotient;
    var layer := MbrEmpty(total, len, k, gen);
    MbrSlots(total, len, k);
    var slots := layer.WriteAll(bufs, 0, 0);
    layer.nc.SetDeviceStatus(x, true);
    back := MbrReadAll(layer, slots, bufs, x);
  }

  /** MBR, after any one disk has failed: all mbr_m native blocks of every segment can be used. */
  method MbrReadsBack(total: nat, len: nat, k: nat, gen: seq<nat>, bufs: seq<Block>, x: nat)
      returns (back: seq<Block>)
    requires total >= 3 && len % (total - 1) == 0 && 0 < k <= total && x < total
    requires
      var m, c := k * (total - 1) - k * (k - 1) / 2, total * (total - 1) / 2 - k * (2 * total - k - 1) / 2;
      |gen| == m * c && forall i :: 0 <= i < |gen| ==> gen[i] < 256
    ensures
      var space := len / (total - 1) * (k * (total - 1) - k * (k - 1) / 2);
      |back| == (if |bufs| <= space then |bufs| else space) && forall i :: 0 <= i < |back| ==> back[i] == bufs[i]
  {
    back := MbrRun(total, len, k, gen, bufs, x);
  }

  function MbrSpace(total: nat, len: nat, k: nat): nat
    requires total >= 3 && 0 < k <= total
  {
    Mbr.NativeNotNegative(total, k);
    MulNonNegative(Quotient(len, total - 1), MbrAddress.Native(total, k));
    Quotient(len, total - 1) * MbrAddress.Native(total, k)
  }

  lemma MbrSlots(total: nat, len: nat, k: nat)
    requires total >= 3 && Remainder(len, total - 1) == 0 && 0 < k <= total
    ensures MbrAlloc.SlotsBelow(total - 1, k, len) == MbrSpace(total, len, k)
    ensures MbrAlloc.SlotsBelow(total - 1, k, 0) == 0
  {
    hide MbrAddress.Native, Remainder, Quotient;
    Mbr.NativeNotNegative(total, k);
    Parts(len, total - 1);
    MbrAlloc.SlotsOfSegments(total, k, Quotient(len, total - 1));
  }

  method SrcEmpty(total: nat, len: nat, k: nat, f: nat, gen: seq<nat>) returns (layer: SrcLayer)
    requires total >= 3 && 2 <= k <= total && 1 <= f < total && Remainder(len, f + 1) == 0
    requires |gen| == (total - k) * k && AreBytes(gen)
    ensures fresh(layer.nc) && layer.Valid() && layer.n == total && layer.k == k && layer.f == f && layer.nc.len == len
    ensures layer.nc.spaceList == [] && layer.nc.failed == seq(total, _ => false)
    ensures Src.IsStored(total, k, f, layer.gen, layer.nc.disks, len)
    ensures SrcAlloc.Balanced(layer.nc.freeOffset, layer.nc.freeSize, k, SrcAlloc.Logical(f, len))
    ensures SrcAlloc.Total(layer.nc.freeOffset, k) == 0
  {
    hide Src.IsStored, SrcAlloc.Logical, SrcAlloc.Total, Remainder, AreBytes;
    SrcAlloc.LogicalFits(f, len);
    var nc := new DiskArray(total, len, SrcAlloc.Logical(f, len));
    layer := new SrcLayer(nc, k, f, gen);
    Src.EmptyIsStored(total, k, f, gen, nc.disks, len);
    SrcAlloc.TotalIs(nc.freeOffset, k, 0);
  }

  method SrcReadAll(layer: SrcLayer, slots: seq<Slot>, ghost bufs: seq<Block>, ghost x: nat) returns (back: seq<Block>)
    requires layer.Valid() && layer.nc.OnlyFailed(x)
    requires Src.IsStored(layer.n, layer.k, layer.f, layer.gen, layer.nc.disks, layer.nc.len)
    requires |slots| <= |bufs| && forall i :: 0 <= i < |slots| ==>
      slots[i].disk < layer.k && SrcCode.Physical(layer.f, slots[i].block) < layer.nc.len &&
      layer.nc.disks[slots[i].disk][SrcCode.Physical(layer.f, slots[i].block)] == bufs[i]
    modifies layer.nc`readLog
    ensures back == bufs[..|slots|]
  {
    hide Src.IsStored, SrcCode.Physical, SrcCode.Member, SrcCode.SrcDisk, Src.Others, Quotient, Remainder, AreBytes;
    back := [];
    for i := 0 to |slots|
      invariant layer.Valid() && back == bufs[..i]
    {
      var d, b := slots[i].disk, slots[i].block;
      WalkIsFree(layer.n, layer.f, d, Remainder(b, layer.f));
      var ok, buf := layer.Decode(d, b);
      back := back + [buf];
    }
  }

  /** The walk from a block never comes back to its disk. */
  lemma WalkIsFree(n: nat, f: nat, d: nat, r: nat)
    requires f < n && d < n && r <= f
    ensures
      var c := SrcCode.SrcDisk(n, f, d, r);
      forall q :: 0 <= q <= f && q != r ==> SrcCode.Member(n, f, c, q) != d
  {
    hide SrcCode.Member, SrcCode.SrcDisk;
    var c := SrcCode.SrcDisk(n, f, d, r);
    SrcCode.OneDiagonal(n, f, c, d, r);
    forall q | 0 <= q <= f && q != r ensures SrcCode.Member(n, f, c, q) != d {
      if q < r { SrcCode.DifferentDisks(n, f, c, q, r); } else { SrcCode.DifferentDisks(n, f, c, r, q); }
    }
  }

  method SrcRun(total: nat, len: nat, k: nat, f: nat, gen: seq<nat>, bufs: seq<Block>, x: nat)
      returns (back: seq<Block>)
    requires total >= 3 && 2 <= k <= total && 1 <= f < total && Remainder(len, f + 1) == 0 && x < total
    requires |gen| == (total - k) * k && AreBytes(gen)
    ensures |back| == if |bufs| <= k * SrcAlloc.Logical(f, len) then |bufs| else k * SrcAlloc.Logical(f, len)
    ensures forall i :: 0 <= i < |back| ==> back[i] == bufs[i]
  {
    hide Src.IsStored, SrcAlloc.Logical, SrcAlloc.Total, SrcAlloc.Balanced, SrcCode.Physical, Remainder, AreBytes;
    var layer := SrcEmpty(total, len, k, f, gen);
    var slots := layer.WriteAll(bufs, 0);
    layer.nc.SetDeviceStatus(x, true);
    back := SrcReadAll(layer, slots, bufs, x);
  }

  /** SRC, after any one disk has failed: all rows of the data disks but the SRC rows can be used. */
  method SrcReadsBack(total: nat, len: nat, k: nat, f: nat, gen: seq<nat>, bufs: seq<Block>, x: nat)
      returns (back: seq<Block>)
    requires total >= 3 && 2 <= k <= total && 1 <= f < total && len % (f + 1) == 0 && x < total
    requires |gen| == (total - k) * k && forall i :: 0 <= i < |gen| ==> gen[i] < 256
    ensures
      var space := k * (len / (f + 1) * f);
      |back| == (if |bufs| <= space then |bufs| else space) && forall i :: 0 <= i < |back| ==> back[i] == bufs[i]
  {
    back := SrcRun(total, len, k, f, gen, bufs, x);
  }

  // ---- Two lost disks of an array ----

  /** If strips are determined by the columns that two disks do not hold, so are whole arrays. */
  lemma ArraysDetermined(
      code: seq<Column> -> bool, k: nat, n: nat, len: nat, a: seq<Column>, b: seq<Column>, x: nat, y: nat)
    requires Coded(code, k, n, a, len) && Coded(code, k, n, b, len) && AgreeBut(a, b, x, y)
    requires forall c, d :: code(c) && code(d) && AgreeBut(c, d, x, y) ==> c == d
    ensures a == b
  {
    hide CodedAt;
    forall j, i | 0 <= j < k + 2 && 0 <= i < len ensures a[j][i] == b[j][i] {
      SameInStrip(code, k, n, len, a, b, x, y, j, i);
    }
    SameColumns(a, b);
  }

  lemma SameInStrip(
      code: seq<Column> -> bool, k: nat, n: nat, len: nat, a: seq<Column>, b: seq<Column>, x: nat, y: nat, j: nat,
      i: nat)
    requires Coded(code, k, n, a, len) && Coded(code, k, n, b, len) && AgreeBut(a, b, x, y)
    requires forall c, d :: code(c) && code(d) && AgreeBut(c, d, x, y) ==> c == d
    requires j < k + 2 && i < len
    ensures a[j][i] == b[j][i]
  {
    hide Base;
    StripBounds(i, n, len);
    var base := Base(i, n);
    assert CodedAt(code, k, n, a, len, i) && CodedAt(code, k, n, b, len, i);
    var c, d := Strip(a, base, n), Strip(b, base, n);
    forall m | 0 <= m < k + 2 && m != x && m != y ensures c[m] == d[m] { assert a[m] == b[m]; }
    assert c[j][i % n] == a[j][i] && d[j][i % n] == b[j][i];
  }

  /** MDR-I, for every number of disks: what any k disks hold determines the other two. */
  lemma Mdr1TwoDisksLost(k: nat, len: nat, a: seq<Column>, b: seq<Column>, x: nat, y: nat)
    requires Coded(MdrStore.Code(k), k, Pow2(k), a, len) && Coded(MdrStore.Code(k), k, Pow2(k), b, len)
    requires x < y < k + 2 && AgreeBut(a, b, x, y)
    ensures a == b
  {
    hide MdrCode.IsCodeword;
    var code := MdrStore.Code(k);
    forall c, d | code(c) && code(d) && AgreeBut(c, d, x, y) ensures c == d {
      assert MdrCode.IsCodeword(k, c) && MdrCode.IsCodeword(k, d);
      MdrLengths(k, c);
      MdrCode.AnyTwoColumnsLost(k, c, d, x, y);
    }
    ArraysDetermined(code, k, Pow2(k), len, a, b, x, y);
  }

  lemma MdrLengths(k: nat, c: seq<Column>)
    requires MdrCode.IsCodeword(k, c)
    ensures |c| == k + 2
  {
  }

  /** EVENODD, for every odd prime k. */
  lemma EvenoddTwoDisksLost(k: nat, len: nat, a: seq<Column>, b: seq<Column>, x: nat, y: nat)
    requires IsPrime(k) && k != 2
    requires Coded(Evenodd.Code(k), k, k - 1, a, len) && Coded(Evenodd.Code(k), k, k - 1, b, len)
    requires x < y < k + 2 && AgreeBut(a, b, x, y)
    ensures a == b
  {
    hide EvenoddCode.IsCodeword;
    var code := Evenodd.Code(k);
    forall c, d | code(c) && code(d) && AgreeBut(c, d, x, y) ensures c == d {
      EvenoddCode.AnyTwoColumnsLost(k, c, d, x, y);
    }
    ArraysDetermined(code, k, k - 1, len, a, b, x, y);
  }
}
