/** SRC's allocator: the data disks take k - 1 blocks each in turn. */
module SrcAlloc {
  import opened IntMod
  import opened Ncfs
  import opened SrcCode

  /** Disk d is inside its run of k - 1 blocks, or behind disk 0. */
  predicate Goes(k: nat, freeOffset: seq<nat>, freeSize: seq<int>, d: nat)
    requires k >= 2 && d < |freeOffset| == |freeSize|
  {
    freeSize[d] >= 1 && (Remainder(freeOffset[d], k - 1) != 0 || freeOffset[0] > freeOffset[d])
  }

  /** The block that the next write goes to: on the first disk that goes, else on disk 0. */
  ghost predicate DueInRuns(
      k: nat, freeOffset: seq<nat>, freeSize: seq<int>, spaceList: seq<Slot>, diskId: int, blockNo: nat)
    requires 2 <= k <= |freeOffset| == |freeSize|
  {
    if exists d :: 0 <= d < k && Goes(k, freeOffset, freeSize, d) then
      0 <= diskId < k && Goes(k, freeOffset, freeSize, diskId) && blockNo == freeOffset[diskId] &&
      forall d :: 0 <= d < diskId ==> !Goes(k, freeOffset, freeSize, d)
    else if freeSize[0] >= 1 then diskId == 0 && blockNo == freeOffset[0]
    else if spaceList == [] then diskId == -1
    else diskId >= 0 && Slot(diskId, blockNo) == spaceList[0]
  }

  /** The due slot in terms of offsets and sizes: on the first disk with space that is inside its
      run of k - 1 blocks or behind disk 0, else on disk 0. */
  lemma DueInRunsSlot(
      k: nat, freeOffset: seq<nat>, freeSize: seq<int>, spaceList: seq<Slot>, diskId: int, blockNo: nat)
    requires 2 <= k <= |freeOffset| == |freeSize| && DueInRuns(k, freeOffset, freeSize, spaceList, diskId, blockNo)
    ensures forall d ::
      0 <= d < k && freeSize[d] >= 1 && (freeOffset[d] % (k - 1) != 0 || freeOffset[0] > freeOffset[d]) ==>
      0 <= diskId <= d && freeSize[diskId] >= 1 && blockNo == freeOffset[diskId] &&
      (freeOffset[diskId] % (k - 1) != 0 || freeOffset[0] > freeOffset[diskId])
    ensures
      (forall d :: 0 <= d < k && freeSize[d] >= 1 ==>
        freeOffset[d] % (k - 1) == 0 && freeOffset[0] <= freeOffset[d]) ==>
      if freeSize[0] >= 1 then diskId == 0 && blockNo == freeOffset[0]
      else if spaceList == [] then diskId == -1
      else diskId >= 0 && Slot(diskId, blockNo) == spaceList[0]
  {
    forall d | 0 <= d < k && freeSize[d] >= 1 && (freeOffset[d] % (k - 1) != 0 || freeOffset[0] > freeOffset[d])
      ensures 0 <= diskId <= d && freeSize[diskId] >= 1 && blockNo == freeOffset[diskId]
      ensures freeOffset[diskId] % (k - 1) != 0 || freeOffset[0] > freeOffset[diskId]
    {
      assert Goes(k, freeOffset, freeSize, d);
    }
  }

  /** What the loop over the disks finds, or the head of the list if it finds nothing. */
  lemma PickedIsDueInRuns(
      k: nat, freeOffset: seq<nat>, freeSize: seq<int>, spaceList: seq<Slot>, picked: int, b: nat, diskId: int,
      blockNo: nat)
    requires 2 <= k <= |freeOffset| == |freeSize| && -1 <= picked < k
    requires picked >= 0 ==> freeSize[picked] >= 1 && b == freeOffset[picked]
    requires forall d ::
      0 <= d < k && freeSize[d] >= 1 && (freeOffset[d] % (k - 1) != 0 || freeOffset[0] > freeOffset[d]) ==>
      0 <= picked <= d && (b % (k - 1) != 0 || freeOffset[0] > b)
    requires picked >= 0 && b % (k - 1) == 0 && freeOffset[0] <= b ==> picked == 0
    requires picked == -1 ==> freeSize[0] < 1
    requires
      if picked >= 0 then diskId == picked && blockNo == b
      else if spaceList == [] then diskId == -1
      else diskId >= 0 && Slot(diskId, blockNo) == spaceList[0]
    ensures DueInRuns(k, freeOffset, freeSize, spaceList, diskId, blockNo)
  {
    if exists d :: 0 <= d < k && Goes(k, freeOffset, freeSize, d) {
      assert Goes(k, freeOffset, freeSize, picked);
    } else {
      assert picked >= 0 ==> !Goes(k, freeOffset, freeSize, picked);
    }
  }

  // ---- From empty disks ----

  /** How long the runs are that begin at block b of the disks: k - 1 blocks, or what is left. */
  function RunLength(k: nat, size: nat, b: nat): nat
    requires 2 <= k && b <= size
  {
    if size - b < k - 1 then size - b else k - 1
  }

  /** All disks have handed out b blocks, disks before d one run more, and disk d the first r
      blocks of its run. */
  ghost predicate RunsAt(freeOffset: seq<nat>, freeSize: seq<int>, k: nat, size: nat, b: nat, d: nat, r: nat) {
    2 <= k <= |freeOffset| == |freeSize| && b <= size && (Remainder(b, k - 1) == 0 || b == size) && d < k &&
    var h := RunLength(k, size, b);
    (r < h || (h == 0 && d == 0 && r == 0)) &&
    forall i :: 0 <= i < k ==>
      freeOffset[i] == b + (if i < d then h else if i == d then r else 0) && freeSize[i] == size - freeOffset[i]
  }

  /** The accounts after t blocks have been dealt out in runs to k empty disks of size blocks. */
  ghost predicate InRuns(freeOffset: seq<nat>, freeSize: seq<int>, k: nat, size: nat, t: nat) {
    exists b: nat, d: nat, r: nat ::
      RunsAt(freeOffset, freeSize, k, size, b, d, r) && t == k * b + d * RunLength(k, size, b) + r
  }

  lemma EmptyInRuns(freeOffset: seq<nat>, freeSize: seq<int>, n: nat, k: nat, size: nat)
    requires 2 <= k <= n && freeOffset == seq(n, _ => 0) && freeSize == seq(n, _ => size)
    ensures InRuns(freeOffset, freeSize, k, size, 0)
  {
    PartsAre(0, 0, 0, k - 1);
    assert RunsAt(freeOffset, freeSize, k, size, 0, 0, 0);
  }

  lemma InsideRun(k: nat, size: nat, b: nat, r: nat)
    requires 2 <= k && b < size && Remainder(b, k - 1) == 0 && r <= RunLength(k, size, b)
    ensures Remainder(b + r, k - 1) == if r < k - 1 then r else 0
  {
    hide Quotient, Remainder;
    var w, q := k - 1, Quotient(b, k - 1);
    Parts(b, w);
    if r < w { PartsAre(b + r, q, r, w); }
    else {
      assert (q + 1) * w == q * w + w;
      PartsAre(b + r, q + 1, 0, w);
    }
  }

  /** The disk whose run is not finished yet takes the next block. */
  lemma DueAtRun(
      k: nat, size: nat, freeOffset: seq<nat>, freeSize: seq<int>, b: nat, e: nat, r: nat, d: int, blockNo: nat)
    requires RunsAt(freeOffset, freeSize, k, size, b, e, r) && DueInRuns(k, freeOffset, freeSize, [], d, blockNo)
    ensures b < size ==> d == e && blockNo == b + r
    ensures b == size ==> d == -1
  {
    hide Quotient, Remainder;
    var h := RunLength(k, size, b);
    if b < size {
      InsideRun(k, size, b, h);
      InsideRun(k, size, b, r);
      InsideRun(k, size, b, 0);
      forall i | 0 <= i < k ensures Goes(k, freeOffset, freeSize, i) <==> i >= e && (e > 0 || r > 0) {}
      if e > 0 || r > 0 { assert Goes(k, freeOffset, freeSize, e); }
    } else {
      forall i | 0 <= i < k ensures !Goes(k, freeOffset, freeSize, i) {}
    }
  }

  /** The accounts after block r of the run of disk e. */
  lemma NextRunsAt(
      k: nat, size: nat, was: seq<nat>, wasSize: seq<int>, freeOffset: seq<nat>, freeSize: seq<int>, b: nat, e: nat,
      r: nat)
    requires |was| == |wasSize| == |freeOffset| == |freeSize|
    requires RunsAt(was, wasSize, k, size, b, e, r) && b < size
    requires Taken(was, wasSize, freeOffset, freeSize, k, e, b + r)
    ensures
      var h := RunLength(k, size, b);
      if r + 1 < h then RunsAt(freeOffset, freeSize, k, size, b, e, r + 1)
      else if e + 1 < k then RunsAt(freeOffset, freeSize, k, size, b, e + 1, 0)
      else RunsAt(freeOffset, freeSize, k, size, b + h, 0, 0)
  {
    hide Remainder;
    InsideRun(k, size, b, RunLength(k, size, b));
  }

  lemma NextInRuns(
      k: nat, size: nat, was: seq<nat>, wasSize: seq<int>, freeOffset: seq<nat>, freeSize: seq<int>, b: nat, e: nat,
      r: nat, t: nat)
    requires |was| == |wasSize| == |freeOffset| == |freeSize| && 2 <= k && b < size
    requires RunsAt(was, wasSize, k, size, b, e, r) && t == k * b + e * RunLength(k, size, b) + r
    requires Taken(was, wasSize, freeOffset, freeSize, k, e, b + r)
    ensures InRuns(freeOffset, freeSize, k, size, t + 1)
  {
    hide RunsAt, RunLength, Taken;
    NextRunsAt(k, size, was, wasSize, freeOffset, freeSize, b, e, r);
    RunIsOpen(was, wasSize, k, size, b, e, r);
    var h := RunLength(k, size, b);
    OneRunMore(k, b, h, e);
    if r + 1 < h {
      assert RunsAt(freeOffset, freeSize, k, size, b, e, r + 1);
    } else if e + 1 < k {
      assert RunsAt(freeOffset, freeSize, k, size, b, e + 1, 0);
    } else {
      assert RunsAt(freeOffset, freeSize, k, size, b + h, 0, 0);
    }
  }

  lemma OneRunMore(k: nat, b: nat, h: nat, e: nat)
    ensures (e + 1) * h == e * h + h && k * (b + h) == k * b + k * h
  {
  }

  /** Before the disks are full, t is below k times their size. */
  lemma RunsEnd(k: nat, size: nat, b: nat, d: nat, r: nat)
    requires 2 <= k && b <= size && d < k
    ensures
      var h := RunLength(k, size, b);
      (b < size && r < h ==> k * b + d * h + r < k * size) && (b == size ==> k * b + d * h == k * size)
  {
    var h := RunLength(k, size, b);
    if b < size && r < h {
      MulNonNegative(k - d - 1, h);
      MulNonNegative(k, size - b - h);
      assert k * size == k * b + d * h + h + (k - d - 1) * h + k * (size - b - h);
    }
  }

  /** The place of write t as it follows from t alone: the disks take k - 1 blocks each in turn,
      and in the last round what is left. */
  ghost predicate IsPlace(k: nat, size: nat, t: nat, d: nat, b: nat)
    requires 2 <= k
  {
    var w, full := k - 1, Quotient(size, k - 1) * (k * (k - 1));
    if t < full then d == Remainder(Quotient(t, w), k) && b == Quotient(Quotient(t, w), k) * w + Remainder(t, w)
    else
      Remainder(size, w) > 0 && d == Quotient(t - full, Remainder(size, w)) &&
      b == Quotient(size, w) * w + Remainder(t - full, Remainder(size, w))
  }

  lemma PlaceInRuns(k: nat, size: nat, b: nat, d: nat, r: nat, t: nat)
    requires 2 <= k && b < size && Remainder(b, k - 1) == 0 && d < k && r < RunLength(k, size, b)
    requires t == k * b + d * RunLength(k, size, b) + r
    ensures IsPlace(k, size, t, d, b + r)
  {
    hide Quotient, Remainder, IsPlace;
    Parts(b, k - 1);
    if size - b < k - 1 {
      PlaceInLastRound(k, size, Quotient(b, k - 1), k - 1, size - b, d, r, t);
    } else {
      PlaceInWholeRound(k, size, Quotient(b, k - 1), d, r, t);
    }
  }

  lemma PlaceInLastRound(k: nat, size: nat, q: nat, w: nat, left: nat, d: nat, r: nat, t: nat)
    requires 2 <= k && w == k - 1 && size == q * w + left && 0 < left < w && d < k && r < left
    requires t == k * (q * w) + d * left + r
    ensures IsPlace(k, size, t, d, q * w + r)
  {
    hide Quotient, Remainder;
    PartsAre(size, q, left, w);
    FullRounds(q, k, w);
    MulNonNegative(d, left);
    PartsAre(d * left + r, d, r, left);
  }

  lemma PlaceInWholeRound(k: nat, size: nat, q: nat, d: nat, r: nat, t: nat)
    requires 2 <= k && q * (k - 1) + (k - 1) <= size && d < k && r < k - 1
    requires t == k * (q * (k - 1)) + d * (k - 1) + r
    ensures IsPlace(k, size, t, d, q * (k - 1) + r)
  {
    hide Quotient, Remainder;
    var w, m, rest := k - 1, Quotient(size, k - 1), Remainder(size, k - 1);
    Parts(size, w);
    WholeRound(q, m, size - q * w, rest, w);
    RoundSum(k, q, w, d);
    PartsAre(t, k * q + d, r, w);
    PartsAre(k * q + d, q, d, k);
    RoundsBelow(k, q, m, w, d);
  }

  lemma FullRounds(q: nat, k: nat, w: nat)
    ensures k * (q * w) == q * (k * w)
  {
  }

  lemma RoundSum(k: nat, q: nat, w: nat, d: nat)
    ensures k * (q * w) + d * w == (k * q + d) * w && k * q == q * k
  {
  }

  lemma WholeRound(q: nat, m: nat, left: nat, rest: nat, w: nat)
    requires q * w + left == m * w + rest && w <= left && rest < w
    ensures q + 1 <= m
  {
    if q >= m { MulNonNegative(q - m, w); }
  }

  lemma RoundsBelow(k: nat, q: nat, m: nat, w: nat, d: nat)
    requires q + 1 <= m && d < k
    ensures k * (q * w) + d * w + w <= m * (k * w)
  {
    MulNonNegative(k, w);
    MulNonNegative(m - q - 1, k * w);
    MulNonNegative(k - d - 1, w);
    FullRounds(q, k, w);
    assert (m - q - 1) * (k * w) == m * (k * w) - q * (k * w) - k * w;
    assert (k - d - 1) * w == k * w - d * w - w;
  }

  /** The same by division of t: as long as whole runs are left, write t goes to disk
      (t / (k - 1)) mod k, block (t / (k (k - 1))) (k - 1) + t mod (k - 1). */
  lemma PlaceByDivision(k: nat, size: nat, t: nat, d: nat, b: nat)
    requires 2 <= k && IsPlace(k, size, t, d, b) && t < size / (k - 1) * (k * (k - 1))
    ensures k * (k - 1) > 0
    ensures d == t / (k - 1) % k && b == t / (k * (k - 1)) * (k - 1) + t % (k - 1)
  {
    RoundsOf(k, t, k - 1);
  }

  lemma RoundsOf(k: nat, t: nat, w: nat)
    requires 0 < k && 0 < w
    ensures k * w > 0 && t / w / k == t / (k * w)
  {
    hide Quotient, Remainder;
    var q, r := Quotient(t, w), Remainder(t, w);
    var p, d := Quotient(q, k), Remainder(q, k);
    Parts(t, w);
    Parts(q, k);
    RoundOf(p, k, d, w);
    PartsAre(t, p, d * w + r, k * w);
    QuotientIs(t, w);
    QuotientIs(q, k);
    QuotientIs(t, k * w);
  }

  lemma QuotientIs(t: nat, w: nat)
    requires w > 0
    ensures Quotient(t, w) == t / w
  {
  }

  lemma RoundOf(p: nat, k: nat, d: nat, w: nat)
    requires d < k && 0 < w
    ensures (p * k + d) * w == p * (k * w) + d * w && 0 <= d * w && d * w + w <= k * w
  {
    MulNonNegative(d, w);
    MulNonNegative(k - 1 - d, w);
    assert (k - 1 - d) * w == k * w - w - d * w;
  }

  /** From empty disks, blocks are dealt out in runs, and no slot is skipped before the disks are
      full. */
  lemma DueInOrderOfRuns(
      k: nat, size: nat, was: seq<nat>, wasSize: seq<int>, freeOffset: seq<nat>, freeSize: seq<int>, t: nat, d: int,
      b: nat)
    requires 2 <= k <= |was| == |wasSize| == |freeOffset| == |freeSize| && InRuns(was, wasSize, k, size, t)
    requires DueInRuns(k, was, wasSize, [], d, b) && Taken(was, wasSize, freeOffset, freeSize, k, d, b)
    ensures t < k * size ==> d >= 0 && IsPlace(k, size, t, d, b) && InRuns(freeOffset, freeSize, k, size, t + 1)
    ensures t >= k * size ==> d == -1
  {
    hide Quotient, Remainder, DueInRuns, Taken, InRuns, RunLength, RunsAt, IsPlace;
    var a, e, r := RunsOf(was, wasSize, k, size, t);
    DueAtRun(k, size, was, wasSize, a, e, r, d, b);
    RunsEnd(k, size, a, e, r);
    if a < size {
      RunIsOpen(was, wasSize, k, size, a, e, r);
      PlaceInRuns(k, size, a, e, r, t);
      NextInRuns(k, size, was, wasSize, freeOffset, freeSize, a, e, r, t);
    }
  }

  lemma RunsOf(freeOffset: seq<nat>, freeSize: seq<int>, k: nat, size: nat, t: nat)
      returns (b: nat, d: nat, r: nat)
    requires InRuns(freeOffset, freeSize, k, size, t)
    ensures RunsAt(freeOffset, freeSize, k, size, b, d, r) && b <= size && t == k * b + d * RunLength(k, size, b) + r
    ensures b == size ==> r == 0
    ensures d < k
  {
    b, d, r :| RunsAt(freeOffset, freeSize, k, size, b, d, r) && t == k * b + d * RunLength(k, size, b) + r;
  }

  lemma RunIsOpen(freeOffset: seq<nat>, freeSize: seq<int>, k: nat, size: nat, b: nat, d: nat, r: nat)
    requires RunsAt(freeOffset, freeSize, k, size, b, d, r) && b < size
    ensures r < RunLength(k, size, b) && Remainder(b, k - 1) == 0 && b + RunLength(k, size, b) <= size && d < k
  {
  }

  /** The blocks of a disk that hold data or RS blocks: all but the SRC rows. */
  function Logical(f: nat, len: nat): nat {
    MulNonNegative(Quotient(len, f + 1), f);
    Quotient(len, f + 1) * f
  }

  lemma LogicalFits(f: nat, len: nat)
    ensures Logical(f, len) <= len
  {
    hide Quotient, Remainder;
    Parts(len, f + 1);
    assert Quotient(len, f + 1) * (f + 1) == Quotient(len, f + 1) * f + Quotient(len, f + 1);
  }

  /** Logical blocks are stored on the disk, outside its SRC rows. */
  lemma PhysicalFits(f: nat, b: nat, len: nat)
    requires f > 0 && Remainder(len, f + 1) == 0 && b < Logical(f, len)
    ensures Physical(f, b) < len && Remainder(Physical(f, b), f + 1) != f
  {
    hide Quotient, Remainder;
    var g, m := Quotient(b, f), Quotient(len, f + 1);
    Parts(b, f);
    Parts(len, f + 1);
    assert (g - m) * f == g * f - m * f;
    if g >= m { MulNonNegative(g - m, f); }
    PhysicalIsRow(f, b);
    RowParts(f, g, Remainder(b, f));
    RowBound(f, g, m);
  }

  lemma RowBound(f: nat, g: nat, m: nat)
    requires g < m
    ensures forall r :: 0 <= r < f ==> Row(f, g, r) < m * (f + 1)
  {
    MulNonNegative(m - 1 - g, f + 1);
    assert (m - 1 - g) * (f + 1) == m * (f + 1) - (f + 1) - (f + 1) * g;
  }

  lemma PhysicalApart(f: nat, a: nat, b: nat)
    requires f > 0 && Physical(f, a) == Physical(f, b)
    ensures a == b
  {
    hide Quotient, Remainder, Row, Physical;
    PhysicalIsRow(f, a);
    PhysicalIsRow(f, b);
    RowsApart(f, Quotient(a, f), Remainder(a, f), Quotient(b, f), Remainder(b, f));
    Parts(a, f);
    Parts(b, f);
  }

  // ---- How many there are ----

  /** The blocks that the first k disks have handed out. */
  function Total(freeOffset: seq<nat>, k: nat): nat
    requires k <= |freeOffset|
  {
    if k == 0 then 0 else Total(freeOffset, k - 1) + freeOffset[k - 1]
  }

  lemma {:induction false} TotalTaken(was: seq<nat>, now: seq<nat>, k: nat, d: nat)
    requires k <= |was| && k <= |now|
    requires forall i :: 0 <= i < k ==> now[i] == was[i] + if i == d then 1 else 0
    ensures Total(now, k) == Total(was, k) + if d < k then 1 else 0
  {
    if k > 0 { TotalTaken(was, now, k - 1, d); }
  }

  lemma {:induction false} TotalIs(freeOffset: seq<nat>, k: nat, size: nat)
    requires k <= |freeOffset|
    ensures (forall i :: 0 <= i < k ==> freeOffset[i] == size) ==> Total(freeOffset, k) == k * size
    ensures (forall i :: 0 <= i < k ==> freeOffset[i] <= size) ==> Total(freeOffset, k) <= k * size
  {
    if k > 0 {
      TotalIs(freeOffset, k - 1, size);
      assert k * size == (k - 1) * size + size;
    }
  }

  /** Disks that have handed out the same as they have left. */
  ghost predicate Balanced(freeOffset: seq<nat>, freeSize: seq<int>, k: nat, size: nat) {
    k <= |freeOffset| == |freeSize| && forall d :: 0 <= d < k ==> freeSize[d] == size - freeOffset[d] >= 0
  }

  lemma BalancedTotal(freeOffset: seq<nat>, freeSize: seq<int>, k: nat, size: nat)
    requires Balanced(freeOffset, freeSize, k, size)
    ensures k <= |freeOffset| == |freeSize| && Total(freeOffset, k) <= k * size
  {
    TotalIs(freeOffset, k, size);
  }

  /** Some disk takes the next block as long as any of them has space. */
  lemma DueWhenBalanced(
      k: nat, size: nat, was: seq<nat>, wasSize: seq<int>, freeOffset: seq<nat>, freeSize: seq<int>, d: int, b: nat)
    requires 2 <= k <= |was| == |wasSize| == |freeOffset| == |freeSize| && Balanced(was, wasSize, k, size)
    requires DueInRuns(k, was, wasSize, [], d, b) && Taken(was, wasSize, freeOffset, freeSize, k, d, b)
    ensures Balanced(freeOffset, freeSize, k, size) && Total(freeOffset, k) <= k * size
    ensures d >= 0 ==> d < k && b == was[d] < size && Total(freeOffset, k) == Total(was, k) + 1
    ensures d < 0 ==> Total(was, k) == k * size && freeOffset[..k] == was[..k]
  {
    hide Remainder;
    TotalIs(freeOffset, k, size);
    TotalIs(was, k, size);
    if d >= 0 {
      TotalTaken(was, freeOffset, k, d);
    } else {
      forall i | 0 <= i < k ensures was[i] == size { assert !Goes(k, was, wasSize, i); }
    }
  }
}
