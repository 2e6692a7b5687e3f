/** MBR's allocator: only the first copies of native blocks are handed out, and each call steps
    each disk over at most one other slot. In every segment disk d has d second copies first. */
module MbrAlloc {
  import opened IntMod
  import opened MbrAddress
  import opened Ncfs

  /** Row b of disk d holds the first copy of a native block. */
  predicate IsNative(s: nat, k: nat, b: nat, d: nat)
    requires s > 0
  {
    d < k && d <= Remainder(b, s)
  }

  /** The test by block id says the same. */
  lemma NativeById(n: nat, k: nat, b: nat, d: nat)
    requires 0 < k <= n && n >= 2 && d < n
    ensures
      var s, r := n - 1, Remainder(b, n - 1);
      IsNative(s, k, b, d) <==> r >= d && PairId(s, d, r + 1) < Native(n, k)
  {
    hide BlocksBefore, Remainder, Native;
    var s, r := n - 1, Remainder(b, n - 1);
    NativeValue(n, k);
    if r >= d {
      BlocksBeforeGrows(s, d, r);
      BlocksBeforeGrows(s, d + 1, s);
      OneMoreDisk(s, d);
      if d < k && k <= s { BlocksBeforeGrows(s, d + 1, k); }
      if k <= d { BlocksBeforeGrows(s, k, d); }
    }
  }

  lemma OneMoreDisk(s: nat, d: nat)
    requires d < s
    ensures BlocksBefore(s, d + 1) == BlocksBefore(s, d) + s - d
  {
  }

  /** The native blocks are those of the first k disks. */
  lemma NativeValue(n: nat, k: nat)
    requires 0 < k <= n && n >= 2
    ensures Native(n, k) == BlocksBefore(n - 1, if k < n then k else n - 1)
  {
    hide BlocksBefore;
    var s := n - 1;
    EvenProduct(k);
    if k < n {
      BlocksBeforeValue(s, k);
      TwiceNative(s, k);
    } else {
      AllPairs(n);
      assert k * (n - 1) == n * (n - 1);
    }
  }

  lemma TwiceNative(s: int, k: int)
    ensures k * (2 * s - k + 1) == 2 * (k * s) - k * (k - 1)
  {
  }

  // ---- Stepping ----

  function SteppedOffset(s: nat, k: nat, freeOffset: seq<nat>): (r: seq<nat>)
    requires s > 0
    ensures |r| == |freeOffset|
    ensures forall i :: 0 <= i < |r| ==>
      r[i] == if IsNative(s, k, freeOffset[i], i) then freeOffset[i] else freeOffset[i] + 1
  {
    seq(|freeOffset|, i requires 0 <= i < |freeOffset| =>
      if IsNative(s, k, freeOffset[i], i) then freeOffset[i] else freeOffset[i] + 1)
  }

  function SteppedSize(s: nat, k: nat, freeOffset: seq<nat>, freeSize: seq<int>): (r: seq<int>)
    requires s > 0 && |freeOffset| == |freeSize|
    ensures |r| == |freeSize|
    ensures forall i :: 0 <= i < |r| ==>
      r[i] == if IsNative(s, k, freeOffset[i], i) then freeSize[i] else freeSize[i] - 1
  {
    seq(|freeSize|, i requires 0 <= i < |freeSize| =>
      if IsNative(s, k, freeOffset[i], i) then freeSize[i] else freeSize[i] - 1)
  }

  /** Disk d stands on a native slot and can take the next block. */
  predicate Ready(s: nat, k: nat, freeOffset: seq<nat>, freeSize: seq<int>, d: nat)
    requires s > 0 && d < |freeOffset| == |freeSize|
  {
    Eligible(freeOffset, freeSize, d) && IsNative(s, k, freeOffset[d], d)
  }

  /** The slot that the next write goes to, after stepping. */
  ghost predicate DueNative(
      s: nat, k: nat, freeOffset: seq<nat>, freeSize: seq<int>, spaceList: seq<Slot>, n: nat, diskId: int, blockNo: nat)
    requires s > 0 && n <= |freeOffset| == |freeSize|
  {
    if exists d :: 0 <= d < n && Ready(s, k, freeOffset, freeSize, d) then
      0 <= diskId < n && Ready(s, k, freeOffset, freeSize, diskId) && blockNo == freeOffset[diskId] &&
      forall d :: 0 <= d < n && Ready(s, k, freeOffset, freeSize, d) ==>
        blockNo <= freeOffset[d] && (d < diskId ==> blockNo < freeOffset[d])
    else if spaceList == [] then diskId == -1
    else diskId >= 0 && Slot(diskId, blockNo) == spaceList[0]
  }

  /** Of the disks that stand on a native slot, have space and are not ahead of disk 0, the due
      slot is on the one that is furthest behind, the lowest numbered of these. Only if there is
      no such disk is it the head of the list of released blocks. */
  lemma DueNativeSlot(
      s: nat, k: nat, freeOffset: seq<nat>, freeSize: seq<int>, spaceList: seq<Slot>, n: nat, diskId: int, blockNo: nat)
    requires s > 0 && n <= |freeOffset| == |freeSize|
    requires DueNative(s, k, freeOffset, freeSize, spaceList, n, diskId, blockNo)
    ensures forall d ::
      0 <= d < n && IsNative(s, k, freeOffset[d], d) && freeSize[d] >= 1 && freeOffset[d] <= freeOffset[0] ==>
      0 <= diskId < n && IsNative(s, k, blockNo, diskId) && freeSize[diskId] >= 1 &&
      blockNo == freeOffset[diskId] <= freeOffset[d] && (blockNo == freeOffset[d] ==> diskId <= d)
    ensures
      (forall d :: 0 <= d < n && IsNative(s, k, freeOffset[d], d) ==>
        freeSize[d] < 1 || freeOffset[d] > freeOffset[0]) ==>
      if spaceList == [] then diskId == -1 else diskId >= 0 && Slot(diskId, blockNo) == spaceList[0]
  {
    hide IsNative;
    forall d | 0 <= d < n && IsNative(s, k, freeOffset[d], d) && freeSize[d] >= 1 && freeOffset[d] <= freeOffset[0]
      ensures 0 <= diskId < n && IsNative(s, k, blockNo, diskId) && freeSize[diskId] >= 1
      ensures blockNo == freeOffset[diskId] <= freeOffset[d] && (blockNo == freeOffset[d] ==> diskId <= d)
    {
      assert Ready(s, k, freeOffset, freeSize, d);
    }
  }

  /** What the loop over the disks finds, or the head of the list if it finds nothing. */
  lemma PickedIsDueNative(
      s: nat, k: nat, freeOffset: seq<nat>, freeSize: seq<int>, spaceList: seq<Slot>, n: nat, picked: int, b: nat,
      diskId: int, blockNo: nat)
    requires s > 0 && n <= |freeOffset| == |freeSize| && -1 <= picked < n
    requires picked >= 0 ==>
      IsNative(s, k, b, picked) && freeSize[picked] >= 1 && b == freeOffset[picked] <= freeOffset[0]
    requires forall d {:trigger freeOffset[d]} ::
      0 <= d < n && IsNative(s, k, freeOffset[d], d) && freeSize[d] >= 1 && freeOffset[d] <= freeOffset[0] ==>
      picked >= 0 && b <= freeOffset[d] && (d < picked ==> b < freeOffset[d])
    requires
      if picked >= 0 then diskId == picked && blockNo == b
      else if spaceList == [] then diskId == -1
      else diskId >= 0 && Slot(diskId, blockNo) == spaceList[0]
    ensures DueNative(s, k, freeOffset, freeSize, spaceList, n, diskId, blockNo)
  {
    hide IsNative;
    if picked >= 0 { assert Ready(s, k, freeOffset, freeSize, picked); }
  }

  // ---- From empty disks ----

  /** Where data disk i may stand when the native slots of the rows below q are full and row q
      has been filled up to disk r. */
  ghost predicate Stands(s: nat, q: nat, r: nat, i: nat, o: nat)
    requires s > 0
  {
    var x := Remainder(q, s);
    if i <= x && i >= r then o == q
    else if i <= x then q + 1 <= o <= q + 1 + if x + 1 == s then i else 0
    else (if r == 0 then q else q + 1) <= o <= q - x + i
  }

  ghost predicate Dealt(
      s: nat, k: nat, freeOffset: seq<nat>, freeSize: seq<int>, n: nat, len: nat, q: nat, r: nat) {
    0 < s && 0 < k <= n == |freeOffset| == |freeSize| && r < k && r <= Remainder(q, s) &&
    forall i :: 0 <= i < k && i < s ==> Stands(s, q, r, i, freeOffset[i]) && freeSize[i] == len - freeOffset[i]
  }

  lemma EmptyIsDealt(s: nat, k: nat, freeOffset: seq<nat>, freeSize: seq<int>, n: nat, len: nat)
    requires 0 < s && 0 < k <= n && freeOffset == seq(n, _ => 0) && freeSize == seq(n, _ => len)
    ensures Dealt(s, k, freeOffset, freeSize, n, len, 0, 0)
  {
    PartsAre(0, 0, 0, s);
  }

  /** Rows of the segment that q lies in. */
  lemma RowInSegment(s: nat, q: nat, j: nat)
    requires s > 0 && j < s
    ensures
      var x := Remainder(q, s);
      x <= q && Remainder(q - x + j, s) == j &&
      Remainder(q + 1, s) == (if x + 1 == s then 0 else x + 1) && (x + 1 == s ==> Remainder(q + 1 + j, s) == j)
  {
    hide Quotient, Remainder;
    var x, g := Remainder(q, s), Quotient(q, s);
    Parts(q, s);
    MulNonNegative(g, s);
    PartsAre(q - x + j, g, j, s);
    if x + 1 == s {
      assert (g + 1) * s == g * s + s;
      PartsAre(q + 1, g + 1, 0, s);
      PartsAre(q + 1 + j, g + 1, j, s);
    } else {
      PartsAre(q + 1, g, x + 1, s);
    }
  }

  /** Stepping keeps every disk in place, and clears the second copies of row q. */
  lemma StepStands(s: nat, k: nat, q: nat, r: nat, i: nat, o: nat)
    requires 0 < s && i < k && i < s && Stands(s, q, r, i, o)
    ensures
      var p := if IsNative(s, k, o, i) then o else o + 1;
      Stands(s, q, r, i, p) && (i > Remainder(q, s) ==> p >= q + 1)
  {
    hide Quotient, Remainder;
    var x := Remainder(q, s);
    RowInSegment(s, q, i);
    if i <= x && i < r && x + 1 == s { RowInSegment(s, q, o - (q + 1)); }
    if i > x { RowInSegment(s, q, o - (q - x)); }
  }

  lemma DueIsPlace(
      s: nat, k: nat, offset: seq<nat>, size: seq<int>, n: nat, len: nat, q: nat, r: nat, d: int, b: nat)
    requires 0 < s && Dealt(s, k, offset, size, n, len, q, r) && DueNative(s, k, offset, size, [], n, d, b)
    ensures q < len ==> d == r && b == q == offset[r]
    ensures q >= len ==> d == -1
  {
    hide Quotient, Remainder;
    assert Stands(s, q, r, 0, offset[0]);
    forall i | 0 <= i < n && Ready(s, k, offset, size, i)
      ensures offset[i] >= q && q < len && (offset[i] == q ==> i >= r)
    {
      NativeBelow(s, k, offset[i], i);
      assert Stands(s, q, r, i, offset[i]);
    }
    if q < len {
      assert r < s by { NativeBelow(s, k, q, r); }
      assert Stands(s, q, r, r, offset[r]);
      assert Ready(s, k, offset, size, r);
    }
  }

  lemma NativeBelow(s: nat, k: nat, b: nat, d: nat)
    requires s > 0 && IsNative(s, k, b, d)
    ensures d < k && d < s
  {
  }

  /** Taking the slot of disk r in row q. */
  lemma NextStands(s: nat, k: nat, q: nat, r: nat, i: nat, o: nat, p: nat)
    requires 0 < s && i < k && i < s && r < k && r <= Remainder(q, s)
    requires Stands(s, q, r, i, o) && (i > Remainder(q, s) ==> o >= q + 1)
    requires p == if i == r then q + 1 else o
    ensures
      if r + 1 < k && r + 1 <= Remainder(q, s) then Stands(s, q, r + 1, i, p)
      else Stands(s, q + 1, 0, i, p)
  {
    hide Quotient, Remainder;
    RowInSegment(s, q, i);
  }

  /** The next native slot is handed out, and the disks stand ready for the one after it. */
  lemma DueWhenDealt(
      s: nat, k: nat, was: seq<nat>, wasSize: seq<int>, freeOffset: seq<nat>, freeSize: seq<int>, n: nat, len: nat,
      q: nat, r: nat, d: int, b: nat)
    requires Dealt(s, k, was, wasSize, n, len, q, r) && |freeOffset| == |freeSize| == n
    requires
      var offset, size := SteppedOffset(s, k, was), SteppedSize(s, k, was, wasSize);
      DueNative(s, k, offset, size, [], n, d, b) && Taken(offset, size, freeOffset, freeSize, n, d, b)
    ensures q < len ==>
      d == r && b == q &&
      if r + 1 < k && r + 1 <= Remainder(q, s) then Dealt(s, k, freeOffset, freeSize, n, len, q, r + 1)
      else Dealt(s, k, freeOffset, freeSize, n, len, q + 1, 0)
    ensures q >= len ==> d == -1 && Dealt(s, k, freeOffset, freeSize, n, len, q, r)
  {
    hide Quotient, Remainder, Stands, IsNative, DueNative;
    var offset, size := SteppedOffset(s, k, was), SteppedSize(s, k, was, wasSize);
    forall i | 0 <= i < k && i < s
      ensures Stands(s, q, r, i, offset[i]) && (i > Remainder(q, s) ==> offset[i] >= q + 1)
      ensures size[i] == len - offset[i]
    {
      StepStands(s, k, q, r, i, was[i]);
    }
    DueIsPlace(s, k, offset, size, n, len, q, r, d, b);
    if q < len {
      forall i | 0 <= i < k && i < s
        ensures freeSize[i] == len - freeOffset[i]
        ensures
          if r + 1 < k && r + 1 <= Remainder(q, s) then Stands(s, q, r + 1, i, freeOffset[i])
          else Stands(s, q + 1, 0, i, freeOffset[i])
      {
        NextStands(s, k, q, r, i, offset[i], freeOffset[i]);
      }
    }
  }

  // ---- How many there are ----

  /** The native slots of row q. */
  function Width(s: nat, k: nat, q: nat): nat
    requires s > 0
  {
    if Remainder(q, s) + 1 < k then Remainder(q, s) + 1 else k
  }

  /** The native slots of the rows below q. */
  function SlotsBelow(s: nat, k: nat, q: nat): nat
    requires s > 0
  {
    if q == 0 then 0 else SlotsBelow(s, k, q - 1) + Width(s, k, q - 1)
  }

  lemma {:induction false} SlotsGrow(s: nat, k: nat, q: nat, t: nat)
    requires s > 0 && q <= t
    ensures SlotsBelow(s, k, q) + (if q < t then Width(s, k, q) else 0) <= SlotsBelow(s, k, t)
  {
    hide Remainder;
    if q + 1 < t { SlotsGrow(s, k, q, t - 1); }
  }

  /** The first x rows of a segment. */
  lemma {:induction false} SlotsInSegment(s: nat, k: nat, g: nat, start: nat, x: nat)
    requires s > 0 && 0 < k && x <= s && start == g * s
    ensures
      var h := if x < k then x else k;
      2 * (SlotsBelow(s, k, start + x) - SlotsBelow(s, k, start)) == h * (2 * x - h + 1)
  {
    hide Remainder;
    if x > 0 {
      SlotsInSegment(s, k, g, start, x - 1);
      PartsAre(start + (x - 1), g, x - 1, s);
      SlotsStep(x, k);
    }
  }

  lemma SlotsStep(x: int, k: int)
    ensures x * (2 * x - x + 1) == (x - 1) * (2 * (x - 1) - (x - 1) + 1) + 2 * x
    ensures k * (2 * x - k + 1) == k * (2 * (x - 1) - k + 1) + 2 * k
  {
  }

  /** Every segment has mbr_m native slots. */
  lemma {:induction false} SlotsOfSegments(n: nat, k: nat, g: nat)
    requires 0 < k <= n && n >= 2
    ensures SlotsBelow(n - 1, k, g * (n - 1)) == g * Native(n, k)
  {
    hide BlocksBefore, Native, SlotsBelow;
    var s := n - 1;
    if g == 0 {
      NoSlots(s, k);
    } else {
      SlotsOfSegments(n, k, g - 1);
      MulNonNegative(g - 1, s);
      SlotsInSegment(s, k, g - 1, (g - 1) * s, s);
      NativeOfSegment(n, k);
      OnceMore(g, s);
      OnceMore(g, Native(n, k));
    }
  }

  lemma NoSlots(s: nat, k: nat)
    requires s > 0
    ensures SlotsBelow(s, k, 0) == 0
  {
  }

  lemma OnceMore(g: int, x: int)
    ensures g * x == (g - 1) * x + x
  {
  }

  lemma NativeOfSegment(n: nat, k: nat)
    requires 0 < k <= n && n >= 2
    ensures
      var s := n - 1;
      var h := if s < k then s else k;
      2 * Native(n, k) == h * (2 * s - h + 1)
  {
    hide BlocksBefore, Native;
    NativeValue(n, k);
    BlocksBeforeValue(n - 1, if k < n then k else n - 1);
  }

  /** The place after disk r of row q. */
  lemma NextPlace(s: nat, k: nat, q: nat, r: nat) returns (p: nat, t: nat)
    requires s > 0 && r < k && r <= Remainder(q, s)
    ensures
      if r + 1 < k && r + 1 <= Remainder(q, s) then p == q && t == r + 1
      else p == q + 1 && t == 0
    ensures SlotsBelow(s, k, p) + t == SlotsBelow(s, k, q) + r + 1
  {
    hide Remainder;
    p, t := if r + 1 < k && r + 1 <= Remainder(q, s) then q else q + 1,
      if r + 1 < k && r + 1 <= Remainder(q, s) then r + 1 else 0;
  }

  lemma DealtBelow(
      s: nat, k: nat, freeOffset: seq<nat>, freeSize: seq<int>, n: nat, len: nat, q: nat, r: nat)
    requires Dealt(s, k, freeOffset, freeSize, n, len, q, r)
    ensures s > 0 && r < k && r <= Remainder(q, s)
  {
  }

  /** No more places have been passed than there are. */
  lemma SpaceLeft(s: nat, k: nat, len: nat, q: nat, r: nat)
    requires s > 0 && r < k && r <= Remainder(q, s) && q <= len && (q == len ==> r == 0)
    ensures SlotsBelow(s, k, q) + r <= SlotsBelow(s, k, len)
  {
    hide Remainder;
    SlotsGrow(s, k, q, len);
  }
}
