/** Runs that end badly, from an empty array: inputs for which the layers do not do what a
    reader would expect. The conditions under which they do are proved with the layers. */
module Failures {
  import opened Bits
  import opened Blocks
  import opened IntMod
  import opened Ncfs
  import opened StripWrite
  import opened Survival
  import opened Mdr1
  import opened Raid6
  import opened Raid6Alloc
  import opened Raid6Code
  import Diagonals
  import Evenodd
  import GaloisBlocks
  import MdrMatrix
  import MdrRepair
  import MdrStore
  import ParityStripe
  import Rdp

  // ---- RAID-6: P is read while P and a data disk have failed ----

  method Raid6Example(len: nat) returns (layer: Raid6Layer)
    requires len >= 2
    ensures fresh(layer) && fresh(layer.nc)
    ensures layer.Valid() && layer.nc.total == 4 && layer.nc.len == len && AllCoded(4, len, layer.nc.disks)
    ensures layer.nc.failed == seq(4, _ => false) && layer.nc.disks[0][1] == 1
  {
    hide Accounts, AllCoded, InRotation, GaloisBlocks.IsGfTable, RotatingTurn, IsData;
    layer := Raid6Empty(4, len);
    var slots := layer.WriteAll([0, 0, 1, 0], 0);
    assert slots[2] == RotatingTurn(4, 2);
    ThirdTurn();
  }

  /** Four disks. In row 1 disk 2 holds Q, disk 1 holds P and disks 0 and 3 hold 1 and 0. With
      disks 0 and 1 lost, reading P gives a wrong block. */
  method Raid6ParityReadWrong(len: nat) returns (layer: Raid6Layer, ok: bool, answer: Block)
    requires len >= 2
    ensures layer.Valid() && layer.nc.total == 4 && layer.nc.len == len && AllCoded(4, len, layer.nc.disks)
    ensures layer.nc.FailedDisks() == {0, 1} && ParityDisk(4, 1) == 1 && IsData(4, 1, 0)
    ensures ok && answer != layer.nc.disks[1][1]
  {
    hide Accounts, AllCoded, GaloisBlocks.IsGfTable, ParityDisk, CodeDisk, IsRow;
    layer := Raid6Example(len);
    layer.nc.SetDeviceStatus(0, true);
    layer.nc.SetDeviceStatus(1, true);
    assert layer.nc.FailedDisks() == {0, 1};
    CodedRow(4, len, layer.nc.disks, 1);
    ThirdTurn();
    ok, answer := layer.Decode(1, 1);
  }

  lemma ThirdTurn()
    ensures RotatingTurn(4, 2) == Slot(0, 1)
    ensures CodeDisk(4, 1) == 2 && ParityDisk(4, 1) == 1
  {
    assert IsData(4, 1, 0) && Place(4, 1, 0) == 0;
    assert IsData(4, 1, 3) && Place(4, 1, 3) == 1;
  }

  lemma CodedRow(n: nat, len: nat, disks: seq<Column>, b: nat)
    requires AllCoded(n, len, disks) && b < len
    ensures IsRow(n, b, RowOf(disks, b))
  {
  }

  // ---- A released block is written again ----

  /** Blocks that fill an array of k data disks. */
  function Ones(k: nat, len: nat): (bufs: seq<Block>)
    ensures |bufs| == k * len && forall i :: 0 <= i < |bufs| ==> bufs[i] == 1
  {
    seq(k * len, _ => 1)
  }

  /** The first k disks are full and hold a one in their first block. */
  ghost predicate IsFull(disks: seq<Column>, freeOffset: seq<nat>, freeSize: seq<int>, k: nat, len: nat) {
    0 < k <= |disks| && k <= |freeOffset| == |freeSize| && 0 < len <= |disks[0]| && disks[0][0] == 1 &&
    forall d :: 0 <= d < k ==> freeOffset[d] == len && freeSize[d] == 0
  }

  lemma FirstOfAll(
      disks: seq<Column>, freeOffset: seq<nat>, freeSize: seq<int>, k: nat, len: nat, slots: seq<Slot>)
    requires 0 < k <= |disks| && k <= |freeOffset| == |freeSize| && 0 < len <= |disks[0]| && |slots| == k * len
    requires forall i :: 0 <= i < |slots| ==>
      slots[i] == Turn(k, i) && slots[i].disk < |disks| && slots[i].block < |disks[slots[i].disk]| &&
      disks[slots[i].disk][slots[i].block] == 1
    requires InTurn(freeOffset, freeSize, k, len, k * len)
    ensures IsFull(disks, freeOffset, freeSize, k, len)
  {
    hide InTurn;
    FullInTurn(freeOffset, freeSize, k, len);
    MulNonNegative(k - 1, len);
    assert k * len == (k - 1) * len + len;
    assert Turn(k, 0) == Slot(0, 0) by { SmallMod(0, k); }
  }

  method Mdr1Filled(total: nat, len: nat) returns (layer: Mdr1Layer)
    requires total >= 3 && len % Pow2(total - 2) == 0 && len > 0
    ensures fresh(layer) && fresh(layer.nc) && layer.Valid() && layer.nc.total == total && layer.nc.len == len
    ensures layer.nc.failed == seq(total, _ => false) && layer.nc.spaceList == []
    ensures Coded(MdrStore.Code(layer.k), layer.k, Pow2(layer.k), layer.nc.disks, len)
    ensures IsFull(layer.nc.disks, layer.nc.freeOffset, layer.nc.freeSize, layer.k, len)
  {
    hide Accounts, Coded, MdrStore.Code, ZeroPast, InTurn, Turn, IsFull, MdrMatrix.MatrixOk;
    layer := Mdr1Empty(total, len);
    var slots := layer.WriteAll(Ones(layer.k, len), 0);
    FirstOfAll(layer.nc.disks, layer.nc.freeOffset, layer.nc.freeSize, layer.k, len, slots);
  }

  /** MDR-I: the first block of a full array is released and written again. The strips are no
      longer codewords. */
  method Mdr1RewriteBreaksParity(total: nat, len: nat, buf: Block) returns (layer: Mdr1Layer, slot: Slot)
    requires total >= 3 && len % Pow2(total - 2) == 0 && len > 0
    ensures layer.Valid() && layer.nc.total == total && layer.nc.len == len && slot == Slot(0, 0)
    ensures layer.nc.disks[0][0] == buf && !Coded(MdrStore.Code(layer.k), layer.k, Pow2(layer.k), layer.nc.disks, len)
  {
    hide Accounts, Coded, MdrStore.Code, ZeroPast, Taken, MdrMatrix.MatrixOk;
    layer := Mdr1Filled(total, len);
    ghost var place := layer.nc.SpaceListAdd(0, 0);
    var d, b := layer.Encode(buf);
    slot := Slot(d, b);
  }

  method EvenoddFilled(total: nat, len: nat) returns (layer: Evenodd.EvenoddLayer)
    requires total >= 4 && len % (total - 3) == 0 && len > 0
    ensures fresh(layer.nc) && layer.Valid() && layer.nc.total == total && layer.nc.len == len
    ensures layer.nc.failed == seq(total, _ => false) && layer.nc.spaceList == []
    ensures Coded(Evenodd.Code(layer.k), layer.k, layer.stripSize, layer.nc.disks, len)
    ensures IsFull(layer.nc.disks, layer.nc.freeOffset, layer.nc.freeSize, layer.k, len)
  {
    hide Accounts, Coded, Evenodd.Code, ZeroPast, InTurn, Turn, IsFull,
      ParityStripe.QList, ParityStripe.NoneBelow, ParityStripe.Symmetric;
    layer := EvenoddEmpty(total, len);
    var slots := layer.WriteAll(Ones(layer.k, len), 0);
    FirstOfAll(layer.nc.disks, layer.nc.freeOffset, layer.nc.freeSize, layer.k, len, slots);
  }

  /** EVENODD: the first block of a full array is released and written again. The strips are no
      longer codewords. */
  method EvenoddRewriteBreaksParity(total: nat, len: nat, buf: Block) returns (layer: Evenodd.EvenoddLayer, slot: Slot)
    requires total >= 4 && len % (total - 3) == 0 && len > 0
    ensures layer.Valid() && layer.nc.total == total && layer.nc.len == len && slot == Slot(0, 0)
    ensures layer.nc.disks[0][0] == buf && !Coded(Evenodd.Code(layer.k), layer.k, layer.stripSize, layer.nc.disks, len)
  {
    hide Accounts, Coded, Evenodd.Code, ZeroPast, Taken,
      ParityStripe.QList, ParityStripe.NoneBelow, ParityStripe.Symmetric;
    layer := EvenoddFilled(total, len);
    ghost var place := layer.nc.SpaceListAdd(0, 0);
    var d, b := layer.Encode(buf);
    slot := Slot(d, b);
  }

  method RdpFilled(total: nat, len: nat) returns (layer: Rdp.RdpLayer)
    requires total >= 3 && len % (total - 2) == 0 && len > 0
    ensures fresh(layer.nc) && layer.Valid() && layer.nc.total == total && layer.nc.len == len
    ensures layer.nc.failed == seq(total, _ => false) && layer.nc.spaceList == []
    ensures Coded(Rdp.Code(layer.k), layer.k, layer.stripSize, layer.nc.disks, len)
    ensures IsFull(layer.nc.disks, layer.nc.freeOffset, layer.nc.freeSize, layer.k, len)
  {
    hide Accounts, Coded, Rdp.Code, ZeroPast, InTurn, Turn, IsFull,
      ParityStripe.QList, ParityStripe.NoneBelow, ParityStripe.Symmetric;
    layer := RdpEmpty(total, len);
    var slots := layer.WriteAll(Ones(layer.k, len), 0);
    FirstOfAll(layer.nc.disks, layer.nc.freeOffset, layer.nc.freeSize, layer.k, len, slots);
  }

  /** RDP: the first block of a full array is released and written again. The strips are no
      longer as encode means to leave them. */
  method RdpRewriteBreaksParity(total: nat, len: nat, buf: Block) returns (layer: Rdp.RdpLayer, slot: Slot)
    requires total >= 3 && len % (total - 2) == 0 && len > 0
    ensures layer.Valid() && layer.nc.total == total && layer.nc.len == len && slot == Slot(0, 0)
    ensures layer.nc.disks[0][0] == buf && !Coded(Rdp.Code(layer.k), layer.k, layer.stripSize, layer.nc.disks, len)
  {
    hide Accounts, Coded, Rdp.Code, ZeroPast, Taken,
      ParityStripe.QList, ParityStripe.NoneBelow, ParityStripe.Symmetric;
    layer := RdpFilled(total, len);
    ghost var place := layer.nc.SpaceListAdd(0, 0);
    var d, b := layer.Encode(buf);
    slot := Slot(d, b);
  }

  // ---- MDR-I: the lists of one disk are used for another ----

  /** Row 1 is not read when disk 0 has failed. */
  lemma {:induction false} SecondRowUnread(k: nat)
    requires k >= 1
    ensures !MdrRepair.Reads(k, 0, 1)
  {
    if k > 1 { SecondRowUnread(k - 1); }
  }

  /** Blocks for the first two rows of k disks: all zero but one. */
  function TwoRows(k: nat, one: nat): (bufs: seq<Block>)
    ensures |bufs| == 2 * k && forall i :: 0 <= i < |bufs| ==> bufs[i] == if i == one then 1 else 0
  {
    seq(2 * k, i => if i == one then 1 else 0)
  }

  /** Where the blocks of two rows go. */
  lemma TwoRowTurns(k: nat, len: nat)
    requires k > 0 && len >= 2
    ensures 2 * k <= k * len && forall j :: 0 <= j < k ==> Turn(k, k + j) == Slot(j, 1)
  {
    MulNonNegative(k, len - 2);
    assert k * (len - 2) == k * len - 2 * k;
    forall j | 0 <= j < k ensures Turn(k, k + j) == Slot(j, 1) { PartsAre(k + j, 1, j, k); }
  }

  lemma StripHasTwoRows(k: nat, len: nat)
    requires k >= 2 && len > 0 && len % Pow2(k) == 0
    ensures len >= 2 && 1 % Pow2(k) == 1
  {
    assert Pow2(k) == 2 * Pow2(k - 1) && Pow2(k - 1) == 2 * Pow2(k - 2);
    SmallMod(1, Pow2(k));
    if len < Pow2(k) { SmallMod(len, Pow2(k)); }
  }

  method Mdr1SecondRow(total: nat, len: nat) returns (layer: Mdr1Layer)
    requires total >= 4 && len > 0 && len % Pow2(total - 2) == 0
    ensures fresh(layer) && fresh(layer.nc) && layer.Valid() && layer.nc.total == total && layer.nc.len == len >= 2
    ensures layer.nc.failed == seq(total, _ => false) && !layer.rowsKnown
    ensures Coded(MdrStore.Code(layer.k), layer.k, Pow2(layer.k), layer.nc.disks, len)
    ensures layer.nc.disks[0][1] == 0 && layer.nc.disks[1][1] == 1
  {
    hide Accounts, MdrMatrix.MatrixOk, Coded, MdrStore.Code, ZeroPast, InTurn, Turn;
    layer := Mdr1Empty(total, len);
    StripHasTwoRows(layer.k, len);
    TwoRowTurns(layer.k, len);
    var slots := layer.WriteAll(TwoRows(layer.k, layer.k + 1), 0);
    assert slots[layer.k + 0] == Slot(0, 1) && slots[layer.k + 1] == Slot(1, 1);
  }

  /** Disk 0 fails and is read, then it is replaced and disk 1 fails: the lists of disk 0 are
      still in use, and block 1 of disk 1 is returned as that of disk 0. */
  method Mdr1StaleListsReadWrong(total: nat, len: nat) returns (layer: Mdr1Layer, ok: bool, answer: Block)
    requires total >= 4 && len > 0 && len % Pow2(total - 2) == 0
    ensures layer.Valid() && layer.nc.total == total && layer.nc.len == len >= 2 && layer.nc.OnlyFailed(1)
    ensures Coded(MdrStore.Code(layer.k), layer.k, Pow2(layer.k), layer.nc.disks, len)
    ensures ok && answer != layer.nc.disks[1][1]
  {
    hide Accounts, MdrMatrix.MatrixOk, CodedAt, MdrStore.Code, MdrRepair.Reads;
    layer := Mdr1SecondRow(total, len);
    layer.nc.SetDeviceStatus(0, true);
    var first, zero := layer.Decode(0, 0);
    layer.nc.SetDeviceStatus(0, false);
    layer.nc.SetDeviceStatus(1, true);
    StripHasTwoRows(layer.k, len);
    SecondRowUnread(layer.k);
    ok, answer := layer.Decode(1, 1);
  }

  // ---- RDP: a Q block is read while its disk has failed ----

  lemma {:induction false} OneTerm(a: seq<Column>, n: nat, t: nat)
    requires 0 < n <= |a| && forall j :: 0 <= j < n ==> t < |a[j]|
    requires forall j :: 1 <= j < n ==> a[j][t] == 0
    ensures RowXor(a, n, t) == a[0][t]
  {
    hide Xor;
    XorZero(a[0][t]);
    if n > 1 {
      OneTerm(a, n - 1, t);
    } else {
      assert RowXor(a, 0, t) == 0;
    }
  }

  /** P of row 1 is the XOR of that row. */
  lemma SecondParity(k: nat, len: nat, disks: seq<Column>)
    requires k >= 2 && len >= 2 && Coded(Rdp.Code(k), k, k, disks, len)
    requires forall j :: 0 <= j < k ==> disks[j][1] == if j == 0 then 1 else 0
    ensures disks[k][1] == 1
  {
    hide Diagonals.XorCells, Xor;
    Rdp.StripCoded(k, disks, len, 1);
    SmallMod(1, k);
    var c := Strip(disks, Base(1, k), k);
    assert Base(1, k) == 0;
    OneTerm(c, k, 1);
    assert c[k][1] == RowXor(c, k, 1);
  }

  method RdpSecondRow(total: nat, len: nat) returns (layer: Rdp.RdpLayer)
    requires total >= 4 && len > 0 && len % (total - 2) == 0
    ensures fresh(layer.nc) && layer.Valid() && layer.nc.total == total && layer.nc.len == len >= 2
    ensures layer.nc.failed == seq(total, _ => false)
    ensures Coded(Rdp.Code(layer.k), layer.k, layer.stripSize, layer.nc.disks, len)
    ensures forall j :: 0 <= j < layer.k ==> layer.nc.disks[j][1] == if j == 0 then 1 else 0
  {
    hide Accounts, Coded, Rdp.Code, ZeroPast, InTurn, Turn,
      ParityStripe.QList, ParityStripe.NoneBelow, ParityStripe.Symmetric;
    if len < total - 2 { SmallMod(len, total - 2); }
    layer := RdpEmpty(total, len);
    TwoRowTurns(layer.k, len);
    var slots := layer.WriteAll(TwoRows(layer.k, layer.k), 0);
    forall j | 0 <= j < layer.k ensures layer.nc.disks[j][1] == if j == 0 then 1 else 0 {
      assert slots[layer.k + j] == Slot(j, 1);
    }
  }

  /** A one in the second row of data disk 0 makes P of that row one. With the Q disk lost, its
      first block is returned with that P block added. */
  method RdpQReadWrong(total: nat, len: nat) returns (layer: Rdp.RdpLayer, ok: bool, answer: Block)
    requires total >= 4 && len > 0 && len % (total - 2) == 0
    ensures layer.Valid() && layer.nc.total == total && layer.nc.len == len >= 2 && layer.nc.OnlyFailed(total - 1)
    ensures Coded(Rdp.Code(layer.k), layer.k, layer.stripSize, layer.nc.disks, len)
    ensures ok && answer != layer.nc.disks[total - 1][0]
  {
    hide Accounts, CodedAt, Rdp.Code, Xor, ParityStripe.QList, ParityStripe.NoneBelow, ParityStripe.Symmetric;
    layer := RdpSecondRow(total, len);
    SecondParity(layer.k, len, layer.nc.disks);
    layer.nc.SetDeviceStatus(total - 1, true);
    SmallMod(0, layer.k);
    ok, answer := layer.Decode(total - 1, 0);
    XorCancel(1, layer.nc.disks[total - 1][0]);
    XorZero(layer.nc.disks[total - 1][0]);
  }
}
