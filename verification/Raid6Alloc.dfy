/** RAID-6's allocator: parity slots rotate, and each call steps each disk over at most one. */
module Raid6Alloc {
  import opened IntMod
  import opened Ncfs
  import opened Raid6Code

  /** The offsets after every disk that stands on a slot for P or Q has moved on by one. */
  function SteppedOffset(n: nat, freeOffset: seq<nat>): (r: seq<nat>)
    requires 0 < n == |freeOffset|
    ensures |r| == n
    ensures forall i :: 0 <= i < n ==> r[i] == if IsData(n, freeOffset[i], i) then freeOffset[i] else freeOffset[i] + 1
  {
    seq(n, i requires 0 <= i < n => if IsData(n, freeOffset[i], i) then freeOffset[i] else freeOffset[i] + 1)
  }

  function SteppedSize(n: nat, freeOffset: seq<nat>, freeSize: seq<int>): (r: seq<int>)
    requires 0 < n == |freeOffset| == |freeSize|
    ensures |r| == n
    ensures forall i :: 0 <= i < n ==> r[i] == if IsData(n, freeOffset[i], i) then freeSize[i] else freeSize[i] - 1
  {
    seq(n, i requires 0 <= i < n => if IsData(n, freeOffset[i], i) then freeSize[i] else freeSize[i] - 1)
  }

  /** Disk i holds no data in rows lo to hi - 1. */
  ghost predicate NoData(n: nat, i: nat, lo: nat, hi: nat)
    requires n > 0
  {
    forall b :: lo <= b < hi ==> !IsData(n, b, i)
  }

  /** Where disk i may stand when rows below q are full and row q has been filled up to place
      r: never past a data slot that is still free. */
  ghost predicate Stands(n: nat, q: nat, r: nat, i: nat, o: nat)
    requires n > 0
  {
    if IsData(n, q, i) && Place(n, q, i) >= r then o == q
    else if IsData(n, q, i) then o >= q + 1 && NoData(n, i, q + 1, o)
    else o >= (if r == 0 then q else q + 1) && NoData(n, i, q, o)
  }

  ghost predicate Dealt(freeOffset: seq<nat>, freeSize: seq<int>, n: nat, len: nat, q: nat, r: nat)
    requires |freeOffset| == |freeSize| == n
  {
    n >= 3 && r < n - 2 &&
    forall i :: 0 <= i < n ==> Stands(n, q, r, i, freeOffset[i]) && freeSize[i] == len - freeOffset[i]
  }

  lemma EmptyIsDealt(freeOffset: seq<nat>, freeSize: seq<int>, n: nat, len: nat)
    requires n >= 3 && freeOffset == seq(n, _ => 0) && freeSize == seq(n, _ => len)
    ensures Dealt(freeOffset, freeSize, n, len, 0, 0)
  {
    forall i | 0 <= i < n ensures Stands(n, 0, 0, i, freeOffset[i]) {
      if IsData(n, 0, i) { PlaceInRange(n, 0, i); }
    }
  }

  /** Stepping keeps every disk in place, and clears the parity slots of row q. */
  lemma StepStands(n: nat, q: nat, r: nat, i: nat, o: nat)
    requires n >= 3 && i < n && Stands(n, q, r, i, o)
    ensures
      var s := if IsData(n, o, i) then o else o + 1;
      Stands(n, q, r, i, s) && (!IsData(n, q, i) ==> s >= q + 1)
  {
    hide CodeDisk, ParityDisk, IsData;
  }

  /** The disk with the next place is the first of those that are furthest behind. */
  lemma DueWhenDealt(
      was: seq<nat>, wasSize: seq<int>, freeOffset: seq<nat>, freeSize: seq<int>, n: nat, len: nat, q: nat, r: nat,
      d: int, b: nat)
    requires |was| == |wasSize| == |freeOffset| == |freeSize| == n && Dealt(was, wasSize, n, len, q, r) && q < len
    requires
      var offset, size := SteppedOffset(n, was), SteppedSize(n, was, wasSize);
      Due(offset, size, [], n, d, b) && Taken(offset, size, freeOffset, freeSize, n, d, b)
    ensures d == DataDisk(n, q, r) && b == q
    ensures if r + 1 < n - 2 then Dealt(freeOffset, freeSize, n, len, q, r + 1)
      else Dealt(freeOffset, freeSize, n, len, q + 1, 0)
  {
    hide CodeDisk, ParityDisk, IsData, Place, Stands;
    var offset, size := SteppedOffset(n, was), SteppedSize(n, was, wasSize);
    forall i | 0 <= i < n
      ensures Stands(n, q, r, i, offset[i]) && (!IsData(n, q, i) ==> offset[i] >= q + 1) && size[i] == len - offset[i]
    {
      StepStands(n, q, r, i, was[i]);
    }
    var x := DataDisk(n, q, r);
    DueIsPlace(offset, size, n, len, q, r, d, b);
    forall i | 0 <= i < n
      ensures freeSize[i] == len - freeOffset[i]
      ensures if r + 1 < n - 2 then Stands(n, q, r + 1, i, freeOffset[i]) else Stands(n, q + 1, 0, i, freeOffset[i])
    {
      NextStands(n, q, r, i, offset[i], freeOffset[i]);
    }
  }

  /** When all rows are full no disk has space. */
  lemma NoneWhenFull(
      was: seq<nat>, wasSize: seq<int>, freeOffset: seq<nat>, freeSize: seq<int>, n: nat, len: nat, d: int, b: nat)
    requires |was| == |wasSize| == |freeOffset| == |freeSize| == n && Dealt(was, wasSize, n, len, len, 0)
    requires
      var offset, size := SteppedOffset(n, was), SteppedSize(n, was, wasSize);
      Due(offset, size, [], n, d, b) && Taken(offset, size, freeOffset, freeSize, n, d, b)
    ensures d == -1 && Dealt(freeOffset, freeSize, n, len, len, 0)
  {
    hide CodeDisk, ParityDisk, IsData, Place, Stands;
    var offset, size := SteppedOffset(n, was), SteppedSize(n, was, wasSize);
    forall i | 0 <= i < n
      ensures Stands(n, len, 0, i, offset[i]) && offset[i] >= len && size[i] == len - offset[i]
    {
      StepStands(n, len, 0, i, was[i]);
      StandsAtEnd(n, len, i, offset[i]);
    }
  }

  lemma StandsAtEnd(n: nat, q: nat, i: nat, o: nat)
    requires n >= 3 && i < n && Stands(n, q, 0, i, o)
    ensures o >= q
  {
    hide CodeDisk, ParityDisk, IsData, Place;
    if IsData(n, q, i) { PlaceInRange(n, q, i); }
  }

  lemma DueIsPlace(offset: seq<nat>, size: seq<int>, n: nat, len: nat, q: nat, r: nat, d: int, b: nat)
    requires |offset| == |size| == n >= 3 && r < n - 2 && q < len && Due(offset, size, [], n, d, b)
    requires forall i :: 0 <= i < n ==>
      Stands(n, q, r, i, offset[i]) && (!IsData(n, q, i) ==> offset[i] >= q + 1) && size[i] == len - offset[i]
    ensures d == DataDisk(n, q, r) && b == q
  {
    hide CodeDisk, ParityDisk, IsData, Place, NoData;
    var x := DataDisk(n, q, r);
    assert offset[x] == q;
    assert Stands(n, q, r, 0, offset[0]);
    assert Eligible(offset, size, x);
    assert Stands(n, q, r, d, offset[d]);
    assert b == q;
    if d != x { if d < x { PlacesInOrder(n, q, d, x); } }
  }

  /** Taking place r of row q. */
  lemma NextStands(n: nat, q: nat, r: nat, i: nat, o: nat, p: nat)
    requires n >= 3 && r < n - 2 && i < n
    requires Stands(n, q, r, i, o) && (!IsData(n, q, i) ==> o >= q + 1)
    requires p == if i == DataDisk(n, q, r) then q + 1 else o
    ensures r + 1 < n - 2 ==> Stands(n, q, r + 1, i, p)
    ensures r + 1 == n - 2 ==> Stands(n, q + 1, 0, i, p)
  {
    hide CodeDisk, ParityDisk, IsData, Place;
    var x := DataDisk(n, q, r);
    if IsData(n, q, i) {
      PlaceInRange(n, q, i);
      if i < x { PlacesInOrder(n, q, i, x); }
      if x < i { PlacesInOrder(n, q, x, i); }
    }
    if r + 1 == n - 2 {
      RowAfter(n, q, i);
      if IsData(n, q + 1, i) {
        PlaceInRange(n, q + 1, i);
        NoDataStops(n, i, q + 1, p);
      }
    }
  }

  lemma NoDataStops(n: nat, i: nat, lo: nat, hi: nat)
    requires n > 0 && lo <= hi && NoData(n, i, lo, hi) && IsData(n, lo, i)
    ensures hi == lo
  {
  }

  /** A disk that stays free of data for two rows held P first and then Q. */
  lemma RowAfter(n: nat, q: nat, i: nat)
    requires n >= 3
    ensures ParityDisk(n, q) == CodeDisk(n, q + 1)
    ensures IsData(n, q, i) || IsData(n, q + 1, i) || i == ParityDisk(n, q)
  {
    hide CodeDisk;
    assert CodeDisk(n, q + 1) == n - 1 - (q + 1) % n by { CodeIs(n, q + 1); }
    ParityBeforeCode(n, q);
    ParityBeforeCode(n, q + 1);
  }

  lemma CodeIs(n: nat, b: nat)
    requires n > 0
    ensures CodeDisk(n, b) == n - 1 - b % n
  {
  }

  /** Write number t from empty disks goes to place t mod (n-2) of row t / (n-2). */
  function RotatingTurn(n: nat, t: nat): (s: Slot)
    requires n >= 3
    ensures s.disk < n && IsData(n, s.block, s.disk)
  {
    Slot(DataDisk(n, Quotient(t, n - 2), Remainder(t, n - 2)), Quotient(t, n - 2))
  }

  /** That is the data disk of row t / (n - 2) with t mod (n - 2) data disks before it. */
  lemma RotatingTurnIs(n: nat, t: nat)
    requires n >= 3
    ensures
      var s := RotatingTurn(n, t);
      s.block == t / (n - 2) && |Below(s.disk) - {CodeDisk(n, s.block), ParityDisk(n, s.block)}| == t % (n - 2)
  {
    hide CodeDisk, ParityDisk, IsData, Place;
    var s := RotatingTurn(n, t);
    PlaceCounts(n, s.block, s.disk);
  }

  ghost predicate InRotation(freeOffset: seq<nat>, freeSize: seq<int>, n: nat, len: nat, t: nat)
    requires |freeOffset| == |freeSize| == n
  {
    n >= 3 && Dealt(freeOffset, freeSize, n, len, Quotient(t, n - 2), Remainder(t, n - 2))
  }

  /** From empty disks, places are dealt out in order, and none is skipped before the disks
      are full. */
  lemma DueInRotation(
      was: seq<nat>, wasSize: seq<int>, freeOffset: seq<nat>, freeSize: seq<int>, n: nat, len: nat, t: nat, d: int,
      b: nat)
    requires |was| == |wasSize| == |freeOffset| == |freeSize| == n && InRotation(was, wasSize, n, len, t)
    requires
      var offset, size := SteppedOffset(n, was), SteppedSize(n, was, wasSize);
      Due(offset, size, [], n, d, b) && Taken(offset, size, freeOffset, freeSize, n, d, b)
    ensures t < (n - 2) * len ==>
      d >= 0 && Slot(d, b) == RotatingTurn(n, t) && InRotation(freeOffset, freeSize, n, len, t + 1)
    ensures t == (n - 2) * len ==> d == -1 && InRotation(freeOffset, freeSize, n, len, t)
  {
    hide Dealt, Due, Taken, CodeDisk, ParityDisk, IsData, Place, SteppedOffset, SteppedSize, Quotient, Remainder;
    var q, r := Quotient(t, n - 2), Remainder(t, n - 2);
    NextTurn(n - 2, len, t);
    if t < (n - 2) * len { DueWhenDealt(was, wasSize, freeOffset, freeSize, n, len, q, r, d, b); }
    if t == (n - 2) * len { NoneWhenFull(was, wasSize, freeOffset, freeSize, n, len, d, b); }
  }
}
