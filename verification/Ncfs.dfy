/** The disks and the shared file-system state that every code works on. */
module Ncfs {
  import opened Bits
  import opened Blocks
  import opened IntMod

  datatype Slot = Slot(disk: nat, block: nat)

  /** The disks after block b of disk d has been overwritten with v. */
  function Put(disks: seq<Column>, d: nat, b: nat, v: Block): (r: seq<Column>)
    requires d < |disks| && b < |disks[d]|
    ensures |r| == |disks| && |r[d]| == |disks[d]| && r[d][b] == v
    ensures forall i :: 0 <= i < |r| && i != d ==> r[i] == disks[i]
    ensures forall i :: 0 <= i < |r[d]| && i != b ==> r[d][i] == disks[d][i]
  {
    var col: Column := disks[d][..b] + [v] + disks[d][b + 1..];
    disks[d := col]
  }

  /** Disk d can take the next block: it has space and does not run ahead of disk 0. */
  predicate Eligible(freeOffset: seq<nat>, freeSize: seq<int>, d: nat)
    requires d < |freeOffset| == |freeSize|
  {
    freeSize[d] >= 1 && freeOffset[0] >= freeOffset[d]
  }

  /** The accounts of the first k disks, those that take data, of len blocks each. */
  ghost predicate Accounts(freeOffset: seq<nat>, freeSize: seq<int>, spaceList: seq<Slot>, k: nat, len: nat)
    requires k <= |freeOffset| == |freeSize|
  {
    (forall d :: 0 <= d < k && freeSize[d] > 0 ==> freeOffset[d] + freeSize[d] <= len) &&
    (forall i :: 0 <= i < |spaceList| ==>
      spaceList[i].disk < k && spaceList[i].block < len && spaceList[i].block + freeSize[spaceList[i].disk] <= len)
  }

  /** The block that the next one-block write goes to: on the eligible disk of the first k
      that is furthest behind, the lowest numbered of these; else the head of the list of
      released blocks; else none. */
  ghost predicate Due(freeOffset: seq<nat>, freeSize: seq<int>, spaceList: seq<Slot>, k: nat, diskId: int, blockNo: nat)
    requires k <= |freeOffset| == |freeSize|
  {
    if exists d :: 0 <= d < k && Eligible(freeOffset, freeSize, d) then
      0 <= diskId < k && Eligible(freeOffset, freeSize, diskId) && blockNo == freeOffset[diskId] &&
      forall d :: 0 <= d < k && Eligible(freeOffset, freeSize, d) ==>
        blockNo <= freeOffset[d] && (d < diskId ==> blockNo < freeOffset[d])
    else if spaceList == [] then diskId == -1
    else diskId >= 0 && Slot(diskId, blockNo) == spaceList[0]
  }

  /** Of the disks that have space and are not ahead of disk 0 the due slot is on the one that is
      furthest behind, the lowest numbered of these. Only if there is no such disk is it the head
      of the list of released blocks. */
  lemma DueSlot(freeOffset: seq<nat>, freeSize: seq<int>, spaceList: seq<Slot>, k: nat, diskId: int, blockNo: nat)
    requires k <= |freeOffset| == |freeSize| && Due(freeOffset, freeSize, spaceList, k, diskId, blockNo)
    ensures forall d :: 0 <= d < k && freeSize[d] >= 1 && freeOffset[d] <= freeOffset[0] ==>
      0 <= diskId < k && freeSize[diskId] >= 1 && blockNo == freeOffset[diskId] <= freeOffset[d] &&
      (blockNo == freeOffset[d] ==> diskId <= d)
    ensures (forall d :: 0 <= d < k ==> freeSize[d] < 1 || freeOffset[d] > freeOffset[0]) ==>
      if spaceList == [] then diskId == -1 else diskId >= 0 && Slot(diskId, blockNo) == spaceList[0]
  {
    forall d | 0 <= d < k && freeSize[d] >= 1 && freeOffset[d] <= freeOffset[0]
      ensures 0 <= diskId < k && freeSize[diskId] >= 1 && blockNo == freeOffset[diskId] <= freeOffset[d]
      ensures blockNo == freeOffset[d] ==> diskId <= d
    {
      assert Eligible(freeOffset, freeSize, d);
    }
  }

  /** What Pick finds, or the head of the list if it finds nothing, is the slot that is due. */
  lemma PickedIsDue(
      freeOffset: seq<nat>, freeSize: seq<int>, spaceList: seq<Slot>, k: nat, picked: int, b: nat, diskId: int,
      blockNo: nat)
    requires 0 < k <= |freeOffset| == |freeSize| && -1 <= picked < k
    requires picked >= 0 ==> freeSize[picked] >= 1 && b == freeOffset[picked] <= freeOffset[0]
    requires forall d :: 0 <= d < k && freeSize[d] >= 1 && freeOffset[d] <= freeOffset[0] ==>
      picked >= 0 && b <= freeOffset[d] && (d < picked ==> b < freeOffset[d])
    requires
      if picked >= 0 then diskId == picked && blockNo == b
      else if spaceList == [] then diskId == -1
      else diskId >= 0 && Slot(diskId, blockNo) == spaceList[0]
    ensures Due(freeOffset, freeSize, spaceList, k, diskId, blockNo)
  {
    if picked >= 0 { assert Eligible(freeOffset, freeSize, picked); }
  }

  /** The first k disks are as before except that block b of disk d now holds v. */
  ghost predicate OnlyWritten(k: nat, len: nat, before: seq<Column>, after: seq<Column>, d: int, b: nat, v: Block) {
    k <= |before| && k <= |after| && (forall j :: 0 <= j < k ==> |before[j]| == |after[j]| == len) &&
    forall j, i :: 0 <= j < k && 0 <= i < len ==> after[j][i] == if j == d && i == b then v else before[j][i]
  }

  /** No block of the first k disks at or past its disk's free offset has ever been written. */
  ghost predicate ZeroPast(disks: seq<Column>, freeOffset: seq<nat>, k: nat, len: nat) {
    k <= |disks| && k <= |freeOffset| && (forall d :: 0 <= d < k ==> |disks[d]| == len) &&
    forall d, b :: 0 <= d < k && freeOffset[d] <= b < len ==> disks[d][b] == 0
  }

  lemma NothingWritten(k: nat, len: nat, disks: seq<Column>, b: nat, v: Block)
    requires k <= |disks| && forall j :: 0 <= j < k ==> |disks[j]| == len
    ensures OnlyWritten(k, len, disks, disks, -1, b, v)
  {
  }

  lemma WriteKeepsZeroPast(
      before: seq<Column>, after: seq<Column>, freeOffset: seq<nat>, k: nat, len: nat, d: int, b: nat, v: Block)
    requires ZeroPast(before, freeOffset, k, len) && OnlyWritten(k, len, before, after, d, b, v)
    requires 0 <= d < k ==> b < freeOffset[d]
    ensures ZeroPast(after, freeOffset, k, len)
  {
  }

  /** The accounts of the first k disks after block b of disk d has been handed out. */
  ghost predicate Taken(
      was: seq<nat>, wasSize: seq<int>, freeOffset: seq<nat>, freeSize: seq<int>, k: nat, d: int, b: nat)
    requires k <= |was| == |wasSize| == |freeOffset| == |freeSize|
  {
    forall i :: 0 <= i < k ==>
      freeOffset[i] == (if i == d then b + 1 else was[i]) && freeSize[i] == wasSize[i] - if i == d then 1 else 0
  }

  lemma IsTaken(was: seq<nat>, wasSize: seq<int>, freeOffset: seq<nat>, freeSize: seq<int>, k: nat, d: int, b: nat)
    requires k <= |was| == |wasSize| == |freeOffset| == |freeSize|
    requires forall i :: 0 <= i < k ==>
      freeOffset[i] == (if i == d then b + 1 else was[i]) && freeSize[i] == wasSize[i] - if i == d then 1 else 0
    ensures Taken(was, wasSize, freeOffset, freeSize, k, d, b)
  {
  }

  /** The accounts when rows below q are full and row q has been filled up to disk r. */
  ghost predicate Filled(freeOffset: seq<nat>, freeSize: seq<int>, k: nat, len: nat, q: nat, r: nat)
    requires k <= |freeOffset| == |freeSize|
  {
    r < k && forall d :: 0 <= d < k ==>
      freeOffset[d] == (if d < r then q + 1 else q) && freeSize[d] == len - freeOffset[d]
  }

  lemma DueWhenFilled(
      was: seq<nat>, wasSize: seq<int>, freeOffset: seq<nat>, freeSize: seq<int>, k: nat, len: nat, q: nat, r: nat,
      d: int, b: nat)
    requires k <= |was| == |wasSize| == |freeOffset| == |freeSize| && Filled(was, wasSize, k, len, q, r)
    requires Due(was, wasSize, [], k, d, b) && Taken(was, wasSize, freeOffset, freeSize, k, d, b)
    ensures q < len ==> d == r && b == q
    ensures q < len && r + 1 < k ==> Filled(freeOffset, freeSize, k, len, q, r + 1)
    ensures q < len && r + 1 == k ==> Filled(freeOffset, freeSize, k, len, q + 1, 0)
    ensures q >= len && r == 0 ==> d == -1 && Filled(freeOffset, freeSize, k, len, q, r)
    ensures d >= 0 ==> d < k && b == was[d]
  {
    if q < len { assert Eligible(was, wasSize, r); }
  }

  /** Where write number t goes when blocks are dealt out to k disks in turn. */
  function Turn(k: nat, t: nat): (s: Slot)
    requires k > 0
    ensures s.disk < k
  {
    Slot(Remainder(t, k), Quotient(t, k))
  }

  lemma TurnIs(k: nat, t: nat)
    requires k > 0
    ensures Turn(k, t) == Slot(t % k, t / k)
  {
  }

  /** The accounts after t blocks have been dealt out to k empty disks in turn. */
  ghost predicate InTurn(freeOffset: seq<nat>, freeSize: seq<int>, k: nat, len: nat, t: nat)
    requires k <= |freeOffset| == |freeSize|
  {
    k > 0 && Filled(freeOffset, freeSize, k, len, Turn(k, t).block, Turn(k, t).disk)
  }

  lemma EmptyInTurn(freeOffset: seq<nat>, freeSize: seq<int>, n: nat, k: nat, len: nat)
    requires 0 < k <= n && freeOffset == seq(n, _ => 0) && freeSize == seq(n, _ => len)
    ensures InTurn(freeOffset, freeSize, k, len, 0)
  {
  }

  /** From empty disks, blocks are dealt out in turn, and no slot is skipped before the disks
      are full. */
  lemma DueInTurn(
      was: seq<nat>, wasSize: seq<int>, freeOffset: seq<nat>, freeSize: seq<int>, k: nat, len: nat, t: nat, d: int,
      b: nat)
    requires k <= |was| == |wasSize| == |freeOffset| == |freeSize| && InTurn(was, wasSize, k, len, t)
    requires Due(was, wasSize, [], k, d, b) && Taken(was, wasSize, freeOffset, freeSize, k, d, b)
    ensures t < k * len ==> d >= 0 && Slot(d, b) == Turn(k, t) && InTurn(freeOffset, freeSize, k, len, t + 1)
    ensures t == k * len ==> d == -1 && InTurn(freeOffset, freeSize, k, len, t)
    ensures d >= 0 ==> d < k && b == was[d]
  {
    hide Filled, Due, Taken, Quotient, Remainder;
    var q, r := Quotient(t, k), Remainder(t, k);
    DueWhenFilled(was, wasSize, freeOffset, freeSize, k, len, q, r, d, b);
    NextTurn(k, len, t);
  }

  lemma NextTurn(k: nat, len: nat, t: nat)
    requires k > 0
    ensures t < k * len ==> Quotient(t, k) < len
    ensures t == k * len ==> Quotient(t, k) == len && Remainder(t, k) == 0
    ensures
      var q, r := Quotient(t, k), Remainder(t, k);
      if r + 1 < k then Quotient(t + 1, k) == q && Remainder(t + 1, k) == r + 1
      else Quotient(t + 1, k) == q + 1 && Remainder(t + 1, k) == 0
  {
    hide Quotient, Remainder;
    var q, r := Quotient(t, k), Remainder(t, k);
    Parts(t, k);
    if t < k * len && q >= len { MulNonNegative(q - len, k); }
    if t == k * len { PartsAre(t, len, 0, k); }
    if r + 1 < k { PartsAre(t + 1, q, r + 1, k); } else { PartsAre(t + 1, q + 1, 0, k); }
  }

  /** After k * len writes to empty disks no disk has space. */
  lemma FullInTurn(freeOffset: seq<nat>, freeSize: seq<int>, k: nat, len: nat)
    requires 0 < k <= |freeOffset| == |freeSize| && InTurn(freeOffset, freeSize, k, len, k * len)
    ensures forall d :: 0 <= d < k ==> freeOffset[d] == len && freeSize[d] == 0
  {
    NextTurn(k, len, k * len);
  }

  predicate GoesBefore(s: Slot, t: Slot) {
    s.disk <= t.disk && s.block < t.block
  }

  lemma {:induction false} InsertedAt(list: seq<Slot>, s: Slot, i: nat)
    requires i <= |list| && (forall j :: 0 <= j < i ==> !GoesBefore(s, list[j]))
    requires i < |list| ==> GoesBefore(s, list[i])
    ensures Inserted(list, s) == list[..i] + [s] + list[i..]
  {
    hide GoesBefore, Inserted;
    InsertedStep(list, s);
    if i == 0 {
      assert list[..0] + [s] + list[0..] == [s] + list;
    } else {
      InsertedAt(list[1..], s, i - 1);
      ShiftedPosition(list, s, i);
    }
  }

  lemma InsertedStep(list: seq<Slot>, s: Slot)
    ensures Inserted(list, s) ==
      if list == [] || GoesBefore(s, list[0]) then [s] + list else [list[0]] + Inserted(list[1..], s)
  {
  }

  lemma ShiftedPosition(list: seq<Slot>, s: Slot, i: nat)
    requires 0 < i <= |list|
    ensures [list[0]] + (list[1..][..i - 1] + [s] + list[1..][i - 1..]) == list[..i] + [s] + list[i..]
  {
    var rest := list[1..];
    assert list[..i] == [list[0]] + rest[..i - 1];
    assert rest[i - 1..] == list[i..];
  }

  /** The list of released blocks with s put before the first entry on the same or a later disk
      at a later block. */
  function Inserted(list: seq<Slot>, s: Slot): seq<Slot> {
    if list == [] || GoesBefore(s, list[0]) then [s] + list else [list[0]] + Inserted(list[1..], s)
  }

  /** Moving a disk on by one keeps the accounts in order. */
  lemma SteppedAccounts(freeOffset: seq<nat>, freeSize: seq<int>, spaceList: seq<Slot>, n: nat, len: nat, i: nat)
    requires n == |freeOffset| == |freeSize| && i < n && Accounts(freeOffset, freeSize, spaceList, n, len)
    ensures Accounts(freeOffset[i := freeOffset[i] + 1], freeSize[i := freeSize[i] - 1], spaceList, n, len)
  {
  }

  /** The disks of an array. In the array codes the first total-2 hold data, the last two P and
      Q; RAID-6 rotates them. */
  class DiskArray {
    const total: nat
    const len: nat
    var disks: seq<Column>
    var failed: seq<bool>
    var freeOffset: seq<nat>
    var freeSize: seq<int>
    var spaceList: seq<Slot>
    /** Every block read so far. */
    ghost var readLog: set<Slot>

    ghost predicate Shape()
      reads this
    {
      total >= 3 &&
      |disks| == |failed| == |freeOffset| == |freeSize| == total &&
      forall d :: 0 <= d < total ==> |disks[d]| == len
    }

    ghost predicate Valid()
      reads this
    {
      Shape() && Accounts(freeOffset, freeSize, spaceList, total - 2, len)
    }

    ghost predicate Unwritten()
      requires Valid()
      reads this
    {
      ZeroPast(disks, freeOffset, total - 2, len)
    }

    /** Empty disks of len blocks, of which size may be handed out. */
    constructor (total: nat, len: nat, size: nat)
      requires total >= 3 && size <= len
      ensures Valid() && this.total == total && this.len == len
      ensures disks == seq(total, _ => seq(len, _ => 0)) && Unwritten()
      ensures failed == seq(total, _ => false) && spaceList == [] && readLog == {}
      ensures freeOffset == seq(total, _ => 0) && freeSize == seq(total, _ => size)
    {
      this.total, this.len := total, len;
      disks, failed := seq(total, _ => seq(len, _ => 0)), seq(total, _ => false);
      freeOffset, freeSize := seq(total, _ => 0), seq(total, _ => size);
      spaceList, readLog := [], {};
    }

    /** A failed disk cannot be read. */
    method ReadDisk(d: nat, b: nat) returns (v: Block)
      requires Shape() && d < total && b < len && !failed[d]
      modifies this`readLog
      ensures v == disks[d][b] && readLog == old(readLog) + {Slot(d, b)}
    {
      readLog := readLog + {Slot(d, b)};
      v := disks[d][b];
    }

    method WriteDisk(d: nat, b: nat, v: Block)
      requires Shape() && d < total && b < len
      modifies this`disks
      ensures Shape() && disks == Put(old(disks), d, b, v) && (old(Valid()) ==> Valid())
    {
      disks := Put(disks, d, b, v);
    }

    method SetDeviceStatus(d: nat, status: bool)
      requires Shape() && d < total
      modifies this`failed
      ensures Shape() && failed == old(failed)[d := status]
    {
      failed := failed[d := status];
    }

    /** Releases a block that has been handed out. It is put into the list at place i, before
        the first entry on the same or a later disk at a later block. */
    method SpaceListAdd(d: nat, b: nat) returns (ghost i: nat)
      requires Valid() && d < total - 2 && b < len && b < freeOffset[d]
      modifies this`spaceList
      ensures Valid() && spaceList == Inserted(old(spaceList), Slot(d, b))
      ensures
        var was := old(spaceList);
        i <= |was| && spaceList == was[..i] + [Slot(d, b)] + was[i..] &&
        (forall j :: 0 <= j < i ==> d > was[j].disk || b >= was[j].block) &&
        (i < |was| ==> d <= was[i].disk && b < was[i].block)
    {
      hide Inserted;
      var place := 0;
      while place < |spaceList| && !GoesBefore(Slot(d, b), spaceList[place])
        invariant place <= |spaceList| && forall j :: 0 <= j < place ==> !GoesBefore(Slot(d, b), spaceList[j])
      {
        place := place + 1;
      }
      InsertedAt(spaceList, Slot(d, b), place);
      spaceList := spaceList[..place] + [Slot(d, b)] + spaceList[place..];
      i := place;
    }

    ghost function FailedDisks(): set<nat>
      requires Shape()
      reads this
    {
      set d: nat | d < total && failed[d]
    }

    /** The number of failed disks. */
    method CountFailed() returns (n: nat)
      requires Shape()
      ensures n == |FailedDisks()|
    {
      n := 0;
      ghost var seen: set<nat> := {};
      for i := 0 to total
        invariant seen == (set d: nat | d < i && failed[d]) && n == |seen|
      {
        if failed[i] {
          n, seen := n + 1, seen + {i};
        }
      }
    }

    /** The eligible disk of the first k that is furthest behind, the lowest numbered of these. */
    method Pick(k: nat) returns (diskId: int, blockNo: nat)
      requires Shape() && 0 < k <= total
      ensures -1 <= diskId < k
      ensures diskId >= 0 ==> freeSize[diskId] >= 1 && blockNo == freeOffset[diskId] <= freeOffset[0]
      ensures forall d :: 0 <= d < k && freeSize[d] >= 1 && freeOffset[d] <= freeOffset[0] ==>
        diskId >= 0 && blockNo <= freeOffset[d] && (d < diskId ==> blockNo < freeOffset[d])
    {
      blockNo, diskId := 0, -1;
      var lowest := freeOffset[0];
      for i := k downto 0
        invariant -1 <= diskId < k && (diskId == -1 ==> lowest == freeOffset[0])
        invariant diskId >= 0 ==>
          i <= diskId && freeSize[diskId] >= 1 && blockNo == lowest == freeOffset[diskId] <= freeOffset[0]
        invariant forall d :: i <= d < k && freeSize[d] >= 1 && freeOffset[d] <= freeOffset[0] ==>
          diskId >= 0 && lowest <= freeOffset[d] && (d < diskId ==> lowest < freeOffset[d])
      {
        if 1 <= freeSize[i] && lowest >= freeOffset[i] {
          diskId, blockNo := i, freeOffset[i];
          lowest := blockNo;
        }
      }
    }

    /** Hands out block b of disk d, or the head of the list of released blocks if d is -1. The
        disks take up to bound blocks each. */
    method HandOut(k: nat, ghost bound: nat, d: int, b: nat) returns (diskId: int, blockNo: nat)
      requires Shape() && 0 < k <= total && Accounts(freeOffset, freeSize, spaceList, k, bound) && -1 <= d < k
      requires d >= 0 ==> freeSize[d] >= 1 && b == freeOffset[d]
      modifies this`freeOffset, this`freeSize, this`spaceList
      ensures Shape() && Accounts(freeOffset, freeSize, spaceList, k, bound)
      ensures -1 <= diskId < k && (diskId >= 0 ==> blockNo < bound)
      ensures
        if d >= 0 then diskId == d && blockNo == b && spaceList == old(spaceList)
        else if old(spaceList) == [] then diskId == -1 && spaceList == []
        else diskId >= 0 && Slot(diskId, blockNo) == old(spaceList[0]) && spaceList == old(spaceList[1..])
      ensures forall i :: 0 <= i < total ==>
        freeOffset[i] == (if i == diskId then blockNo + 1 else old(freeOffset)[i]) &&
        freeSize[i] == old(freeSize)[i] - if i == diskId then 1 else 0
    {
      diskId, blockNo := d, b;
      if diskId == -1 && spaceList != [] {
        diskId, blockNo := spaceList[0].disk, spaceList[0].block;
        spaceList := spaceList[1..];
      }
      if diskId != -1 {
        freeOffset := freeOffset[diskId := blockNo + 1];
        freeSize := freeSize[diskId := freeSize[diskId] - 1];
      }
    }

    /** Taking block 0 of a row also takes the P block of the row, and the Q blocks of the
        strip when the row is the first one of its strip. */
    method ChargeParity(blockNo: nat, stripSize: nat)
      requires Valid() && stripSize > 0
      modifies this`freeOffset, this`freeSize
      ensures Valid()
      ensures forall d :: 0 <= d < total - 2 ==>
        freeOffset[d] == old(freeOffset[d]) && freeSize[d] == old(freeSize[d])
      ensures
        freeOffset[total - 2] == old(freeOffset[total - 2]) + 1 && freeSize[total - 2] == old(freeSize[total - 2]) - 1
      ensures
        var q, size := total - 1, if blockNo % stripSize == 0 then stripSize else 0;
        freeOffset[q] == old(freeOffset[q]) + size && freeSize[q] == old(freeSize[q]) - size
    {
      var p, q := total - 2, total - 1;
      freeOffset, freeSize := freeOffset[p := freeOffset[p] + 1], freeSize[p := freeSize[p] - 1];
      if blockNo % stripSize == 0 {
        freeOffset, freeSize := freeOffset[q := freeOffset[q] + stripSize], freeSize[q := freeSize[q] - stripSize];
      }
    }

    /** One-block allocation: hands out the block that is due. */
    method Allocate(stripSize: nat) returns (diskId: int, blockNo: nat)
      requires Valid() && stripSize > 0
      modifies this`freeOffset, this`freeSize, this`spaceList
      ensures Valid() && -1 <= diskId < total - 2 && (diskId >= 0 ==> blockNo < len)
      ensures Due(old(freeOffset), old(freeSize), old(spaceList), total - 2, diskId, blockNo)
      ensures old(Unwritten() && spaceList == []) ==>
        Unwritten() && (diskId >= 0 ==> disks[diskId][blockNo] == 0 && blockNo < freeOffset[diskId])
      ensures spaceList ==
        if old(spaceList) != [] &&
          (forall d :: 0 <= d < total - 2 ==> old(freeSize)[d] < 1 || old(freeOffset)[d] > old(freeOffset)[0])
        then old(spaceList)[1..] else old(spaceList)
      ensures
        var x := if diskId == 0 && old(freeSize)[0] >= 1 then 1 else 0;
        var y := if x == 1 && blockNo % stripSize == 0 then stripSize else 0;
        forall i :: 0 <= i < total ==>
          var taken := if i == diskId then 1 else if i == total - 2 then x else if i == total - 1 then y else 0;
          freeSize[i] == old(freeSize)[i] - taken &&
          freeOffset[i] == if i == diskId then blockNo + 1 else old(freeOffset)[i] + taken
    {
      hide Accounts, Due;
      var d, b := Pick(total - 2);
      if d == 0 { ChargeParity(b, stripSize); }
      diskId, blockNo := HandOut(total - 2, len, d, b);
      PickedIsDue(old(freeOffset), old(freeSize), old(spaceList), total - 2, d, b, diskId, blockNo);
    }

    ghost predicate OnlyFailed(d: nat)
      requires Shape()
      reads this
    {
      d < total && forall i :: 0 <= i < total ==> failed[i] == (i == d)
    }

    lemma OneFailure(d: nat)
      requires Shape() && d < total && failed[d]
      ensures |FailedDisks()| == 1 <==> OnlyFailed(d)
    {
      var s := FailedDisks();
      if OnlyFailed(d) { assert s == {d}; }
      if |s| == 1 {
        assert |s - {d}| == 0;
        forall i | 0 <= i < total ensures failed[i] == (i == d) { assert i !in s - {d}; }
      }
    }

    /** Adds block b of every data disk and P, other than failed disk d, to buf. */
    method XorRow(d: nat, b: nat, buf: Block) returns (r: Block)
      requires Valid() && b < len && OnlyFailed(d)
      modifies this`readLog
      ensures r == Xor(buf, RowXorBut(disks, d, total - 1, b))
    {
      hide Xor;
      r := buf;
      XorZero(buf);
      for i := 0 to total - 1
        invariant r == Xor(buf, RowXorBut(disks, d, i, b))
      {
        if i != d {
          var temp := ReadDisk(i, b);
          XorAssoc(buf, RowXorBut(disks, d, i, b), temp);
          r := Xor(r, temp);
        }
      }
    }
  }
}
