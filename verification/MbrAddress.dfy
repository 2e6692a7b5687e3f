/** MBR addressing: every block lies on exactly two disks, and every two disks share exactly one
    block. A segment has s = n - 1 rows on n disks. */
module MbrAddress {
  import opened IntMod

  /** The number of blocks whose first copy lies on a disk before d. */
  function BlocksBefore(s: nat, d: nat): (b: nat)
    requires d <= s
  {
    if d == 0 then 0 else BlocksBefore(s, d - 1) + (s - (d - 1))
  }

  /** The block that disks d and e share. */
  function PairId(s: nat, d: nat, e: nat): nat
    requires d < e <= s
  {
    BlocksBefore(s, d) + (e - 1 - d)
  }

  lemma {:induction false} BlocksBeforeGrows(s: nat, d: nat, e: nat)
    requires d <= e <= s
    ensures BlocksBefore(s, d) + (if d < e then s - d else 0) <= BlocksBefore(s, e)
  {
    if d + 1 < e { BlocksBeforeGrows(s, d, e - 1); }
  }

  /** Twice the number of blocks of a segment. */
  lemma {:induction false} BlocksBeforeValue(s: nat, d: nat)
    requires d <= s
    ensures 2 * BlocksBefore(s, d) == d * (2 * s - d + 1)
  {
    if d > 0 {
      BlocksBeforeValue(s, d - 1);
      LessTimesMore(d, 2 * s - d + 1);
    }
  }

  lemma LessTimesMore(d: int, x: int)
    ensures (d - 1) * (x + 1) == d * x + d - x - 1
  {
  }

  /** The disk with the first copy of a block. */
  function First(s: nat, id: nat): (d: nat)
    requires id < BlocksBefore(s, s)
    ensures d < s && BlocksBefore(s, d) <= id < BlocksBefore(s, d + 1)
  {
    FirstFrom(s, id, 0)
  }

  function FirstFrom(s: nat, id: nat, d: nat): (r: nat)
    requires d <= s && BlocksBefore(s, d) <= id < BlocksBefore(s, s)
    ensures d <= r < s && BlocksBefore(s, r) <= id < BlocksBefore(s, r + 1)
    decreases s - d
  {
    if id < BlocksBefore(s, d + 1) then d else FirstFrom(s, id, d + 1)
  }

  /** The disk with the second copy. */
  function Second(s: nat, id: nat): (e: nat)
    requires id < BlocksBefore(s, s)
    ensures First(s, id) < e <= s
  {
    id - BlocksBefore(s, First(s, id)) + First(s, id) + 1
  }

  lemma FirstIs(s: nat, id: nat, d: nat)
    requires d < s && BlocksBefore(s, d) <= id < BlocksBefore(s, d + 1)
    ensures id < BlocksBefore(s, s) && First(s, id) == d
  {
    BlocksBeforeGrows(s, d + 1, s);
    var r := First(s, id);
    if r < d { BlocksBeforeGrows(s, r + 1, d); }
    if d < r { BlocksBeforeGrows(s, d + 1, r); }
  }

  /** Two disks share exactly one block, and its two copies are on these disks. */
  lemma SharedBlock(s: nat, d: nat, e: nat, id: nat)
    requires d < e <= s && id < BlocksBefore(s, s)
    ensures id == PairId(s, d, e) <==> First(s, id) == d && Second(s, id) == e
  {
    if id == PairId(s, d, e) { FirstIs(s, id, d); }
  }

  /** Blocks are numbered by the disk of their first copy and then by that of their second. */
  lemma PairIdValue(s: nat, d: nat, e: nat)
    requires d < e <= s
    ensures 2 * PairId(s, d, e) == d * (2 * s - d + 1) + 2 * (e - 1 - d)
  {
    BlocksBeforeValue(s, d);
  }

  lemma CopiesValue(s: nat, id: nat)
    requires id < BlocksBefore(s, s)
    ensures
      var d, e := First(s, id), Second(s, id);
      2 * id == d * (2 * s - d + 1) + 2 * (e - 1 - d)
  {
    BlocksBeforeValue(s, First(s, id));
  }

  lemma SharedBlockExists(s: nat, d: nat, e: nat)
    requires d < e <= s
    ensures PairId(s, d, e) < BlocksBefore(s, s)
  {
    FirstIs(s, PairId(s, d, e), d);
  }

  // ---- The address functions ----

  /** The block whose first copy is at a row of a disk; -1 if the row holds a second copy. */
  method FindBlockId(diskId: nat, blockNo: nat, s: nat) returns (id: int)
    requires 0 < s && diskId <= s
    ensures id == if Remainder(blockNo, s) < diskId then -1 else PairId(s, diskId, Remainder(blockNo, s) + 1)
    ensures id >= 0 ==> id < BlocksBefore(s, s) && First(s, id) == diskId && Second(s, id) == Remainder(blockNo, s) + 1
  {
    var blockOffset := blockNo % s;
    if blockOffset < diskId { return -1; }
    var offset := blockOffset - diskId;
    id := 0;
    var counter := s;
    for i := 0 to diskId
      invariant id == BlocksBefore(s, i) && counter == s - i
    {
      id := id + counter;
      counter := counter - 1;
    }
    id := id + offset;
    FirstIs(s, id, diskId);
  }

  /** The block whose second copy is at a row of a disk; -1 if the row holds a first copy. */
  method FindDupBlockId(diskId: nat, blockNo: nat, s: nat) returns (id: int)
    requires 0 < s && diskId <= s
    ensures id == if Remainder(blockNo, s) >= diskId then -1 else PairId(s, Remainder(blockNo, s), diskId)
    ensures id >= 0 ==> id < BlocksBefore(s, s) && First(s, id) == Remainder(blockNo, s) && Second(s, id) == diskId
  {
    var blockOffset := blockNo % s;
    if blockOffset >= diskId { return -1; }
    var offset := diskId - 1;
    id := 0;
    var counter := s;
    for i := 0 to blockOffset
      invariant id == BlocksBefore(s, i) && counter == s - i && offset == diskId - 1 - i
    {
      id := id + counter;
      counter := counter - 1;
      offset := offset - 1;
    }
    id := id + offset;
    FirstIs(s, id, blockOffset);
  }

  /** The loop ends for every block of the segment. */
  method GetDiskId(id: nat, s: nat) returns (group: nat)
    requires id < BlocksBefore(s, s)
    ensures group == First(s, id)
  {
    group := 0;
    var counter: int := s;
    var temp := id + 1 - counter;
    while temp > 0
      invariant group < s && counter == s - group && temp == id + 1 - BlocksBefore(s, group + 1)
        && BlocksBefore(s, group) <= id
      decreases counter
    {
      counter := counter - 1;
      temp := temp - counter;
      group := group + 1;
    }
    FirstIs(s, id, group);
  }

  method GetBlockNo(diskId: nat, id: nat, s: nat) returns (blockNo: int)
    requires diskId <= s
    ensures blockNo == id - BlocksBefore(s, diskId) + diskId
    ensures id < BlocksBefore(s, s) && diskId == First(s, id) ==> blockNo == Second(s, id) - 1
  {
    var offset: int := id;
    for j := 0 to diskId
      invariant offset == id - BlocksBefore(s, j)
    {
      offset := offset - (s - j);
    }
    blockNo := offset + diskId;
  }

  method GetDupDiskId(id: nat, s: nat) returns (dupDiskId: nat)
    requires id < BlocksBefore(s, s)
    ensures dupDiskId == Second(s, id)
  {
    var diskId := GetDiskId(id, s);
    var offset: int := id;
    for j := 0 to diskId
      invariant offset == id - BlocksBefore(s, j)
    {
      offset := offset - (s - j);
    }
    dupDiskId := offset + 1 + diskId;
  }

  method GetDupBlockNo(diskId: nat, id: nat, s: nat) returns (dupBlockNo: nat)
    ensures dupBlockNo == diskId
  {
    dupBlockNo := diskId;
  }

  /** Finding the block at the addresses computed for it gives the block again, for both copies
      and in any segment. */
  method RoundTrip(id: nat, s: nat, segment: nat) returns (same: bool)
    requires id < BlocksBefore(s, s)
    ensures same
  {
    var d := GetDiskId(id, s);
    var e := GetDupDiskId(id, s);
    var b := GetBlockNo(d, id, s);
    var c := GetDupBlockNo(d, id, s);
    AddMultiple(b, segment, s);
    AddMultiple(c, segment, s);
    SmallMod(b, s);
    SmallMod(c, s);
    MulNonNegative(segment, s);
    var first := FindBlockId(d, b + segment * s, s);
    var second := FindDupBlockId(e, c + segment * s, s);
    var none := FindDupBlockId(d, b + segment * s, s);
    same := first == id && second == id && none == -1;
    SharedBlock(s, d, e, id);
  }

  // ---- Counting ----

  /** How many of the disks from d on have failed. */
  function FailedFrom(failed: seq<bool>, d: nat): nat
    requires d <= |failed|
    decreases |failed| - d
  {
    if d == |failed| then 0 else FailedFrom(failed, d + 1) + if failed[d] then 1 else 0
  }

  /** Both copies of a block are lost. */
  predicate IsErased(failed: seq<bool>, id: nat)
    requires |failed| > 0 && id < BlocksBefore(|failed| - 1, |failed| - 1)
  {
    var s := |failed| - 1;
    failed[First(s, id)] && failed[Second(s, id)]
  }

  /** How many of the blocks from id on are lost. */
  function ErasedFrom(failed: seq<bool>, id: nat): nat
    requires |failed| > 0 && id <= BlocksBefore(|failed| - 1, |failed| - 1)
    decreases BlocksBefore(|failed| - 1, |failed| - 1) - id
  {
    if id == BlocksBefore(|failed| - 1, |failed| - 1) then 0
    else ErasedFrom(failed, id + 1) + if IsErased(failed, id) then 1 else 0
  }

  /** The true entries of a list from position d on. */
  function TrueFrom(list: seq<bool>, d: nat): (s: set<int>)
    ensures forall i :: i in s <==> d <= i < |list| && list[i]
  {
    set i | d <= i < |list| && list[i]
  }

  lemma {:induction false} FailedFromIsCount(failed: seq<bool>, d: nat)
    requires d <= |failed|
    ensures FailedFrom(failed, d) == |TrueFrom(failed, d)|
    decreases |failed| - d
  {
    if d == |failed| {
      assert TrueFrom(failed, d) == {};
    } else {
      FailedFromIsCount(failed, d + 1);
      assert TrueFrom(failed, d) == TrueFrom(failed, d + 1) + if failed[d] then {d} else {};
    }
  }

  lemma {:induction false} ErasedFromIsCount(failed: seq<bool>, erased: seq<bool>, id: nat)
    requires |failed| > 0 && |erased| == BlocksBefore(|failed| - 1, |failed| - 1) && id <= |erased|
    requires forall i :: 0 <= i < |erased| ==> erased[i] == IsErased(failed, i)
    ensures ErasedFrom(failed, id) == |TrueFrom(erased, id)|
    decreases |erased| - id
  {
    hide IsErased;
    if id == |erased| {
      assert TrueFrom(erased, id) == {};
    } else {
      ErasedFromIsCount(failed, erased, id + 1);
      assert TrueFrom(erased, id) == TrueFrom(erased, id + 1) + if erased[id] then {id} else {};
    }
  }

  /** The blocks whose first copy is on disk d and second copy on a disk from e on. */
  lemma {:induction false} ErasedInRow(failed: seq<bool>, s: nat, d: nat, e: nat)
    requires |failed| == s + 1 && d < e <= s + 1 && d < s
    ensures var id := BlocksBefore(s, d) + (e - 1 - d);
      id <= BlocksBefore(s, d + 1) <= BlocksBefore(s, s) &&
      ErasedFrom(failed, id) ==
        ErasedFrom(failed, BlocksBefore(s, d + 1)) + if failed[d] then FailedFrom(failed, e) else 0
    decreases s + 1 - e
  {
    hide First, Second;
    BlocksBeforeGrows(s, d + 1, s);
    if e <= s {
      var id := PairId(s, d, e);
      SharedBlockExists(s, d, e);
      SharedBlock(s, d, e, id);
      ErasedInRow(failed, s, d, e + 1);
      assert IsErased(failed, id) == (failed[d] && failed[e]);
    }
  }

  /** f failed disks share f (f - 1) / 2 blocks. */
  lemma {:induction false} ErasedFromRow(failed: seq<bool>, s: nat, d: nat)
    requires |failed| == s + 1 && d <= s
    ensures
      var f := FailedFrom(failed, d);
      BlocksBefore(s, d) <= BlocksBefore(s, s) && 2 * ErasedFrom(failed, BlocksBefore(s, d)) == f * (f as int - 1)
    decreases s - d
  {
    hide IsErased;
    BlocksBeforeGrows(s, d, s);
    var g := FailedFrom(failed, d + 1);
    if d < s {
      ErasedFromRow(failed, s, d + 1);
      ErasedInRow(failed, s, d, d + 1);
      OneMore(g);
    }
  }

  lemma OneMore(g: int)
    ensures (g + 1) * g == g * (g - 1) + 2 * g
  {
  }

  /** mbr_m and mbr_c as the constructor computes them. */
  function Native(n: nat, k: nat): int {
    k * (n - 1) - k * (k - 1) / 2
  }

  function Coded(n: nat, k: nat): int {
    n * (n - 1) / 2 - k * (2 * n - k - 1) / 2
  }

  lemma {:induction false} EvenProduct(a: nat)
    ensures a * (a - 1) % 2 == 0 && a * (a - 1) >= 0
  {
    if a > 0 {
      EvenProduct(a - 1);
      assert a * (a - 1) == (a - 1) * (a - 2) + 2 * (a - 1);
    }
  }

  lemma Products(n: int, k: int)
    ensures k * (2 * n - k - 1) == n * (n - 1) - (n - k) * (n - k - 1)
    ensures k * (2 * n - k - 1) == 2 * (k * (n - 1)) - k * (k - 1)
  {
  }

  lemma AllPairs(n: nat)
    requires n >= 1
    ensures 2 * BlocksBefore(n - 1, n - 1) == n * (n - 1)
  {
    var s := n - 1;
    BlocksBeforeValue(s, s);
    assert s * (2 * s - s + 1) == n * s;
  }

  /** The parameters add up: the blocks of a segment are the native and the coded ones, the
      segment has n - 1 rows, and there are as many coded blocks as pairs of n - k disks. */
  lemma Parameters(n: nat, k: nat)
    requires 0 < k <= n && n >= 2
    ensures Native(n, k) + Coded(n, k) == BlocksBefore(n - 1, n - 1)
    ensures 2 * (Native(n, k) + Coded(n, k)) / n == n - 1
    ensures 2 * Coded(n, k) == (n - k) * (n - k - 1) && 0 <= Coded(n, k)
  {
    hide BlocksBefore;
    var a, b, c, d, e := n * (n - 1), (n - k) * (n - k - 1), k * (k - 1), k * (n - 1), k * (2 * n - k - 1);
    AllPairs(n);
    EvenProduct(n);
    EvenProduct(k);
    EvenProduct(n - k);
    Products(n, k);
    HalfSums(a, b, c, d, e);
    DivMod(a, n - 1, 0, n);
  }

  lemma HalfSums(a: int, b: int, c: int, d: int, e: int)
    requires a % 2 == 0 && b % 2 == 0 && c % 2 == 0 && e == a - b && e == 2 * d - c
    ensures 2 * ((d - c / 2) + (a / 2 - e / 2)) == a && 2 * (a / 2 - e / 2) == b
  {
  }

  /** The erasure loop of decode for n disks of which k hold data. With exactly n - k failed
      disks it marks exactly mbr_c blocks, so the other k disks hold mbr_m different ones. */
  method MarkErased(failed: seq<bool>, n: nat, k: nat) returns (erased: seq<bool>, ghost lost: nat)
    requires |failed| == n >= 2 && 0 < k <= n
    ensures |erased| == BlocksBefore(n - 1, n - 1)
    ensures forall i :: 0 <= i < |erased| ==>
      First(n - 1, i) < n && Second(n - 1, i) < n &&
      erased[i] == (failed[First(n - 1, i)] && failed[Second(n - 1, i)])
    ensures lost == |TrueFrom(erased, 0)|
    ensures
      var f := |TrueFrom(failed, 0)|;
      (f == n - k ==> lost == Coded(n, k) && |erased| - lost == Native(n, k)) && (f < n - k ==> lost <= Coded(n, k))
  {
    hide IsErased;
    var s := n - 1;
    Parameters(n, k);
    erased := [];
    for i := 0 to Native(n, k) + Coded(n, k)
      invariant |erased| == i
      invariant forall j :: 0 <= j < i ==> erased[j] == IsErased(failed, j)
    {
      var d := GetDiskId(i, s);
      var e := GetDupDiskId(i, s);
      BothLost(failed, i);
      erased := erased + [failed[d] && failed[e]];
    }
    forall i | 0 <= i < |erased| ensures erased[i] == (failed[First(s, i)] && failed[Second(s, i)]) {
      BothLost(failed, i);
    }
    lost := ErasedFrom(failed, 0);
    ErasedFromIsCount(failed, erased, 0);
    FailedFromIsCount(failed, 0);
    ErasedFromRow(failed, s, 0);
    assert BlocksBefore(s, 0) == 0;
    FewerPairs(FailedFrom(failed, 0), n - k);
  }

  lemma BothLost(failed: seq<bool>, id: nat)
    requires |failed| > 0 && id < BlocksBefore(|failed| - 1, |failed| - 1)
    ensures var s := |failed| - 1; IsErased(failed, id) == (failed[First(s, id)] && failed[Second(s, id)])
  {
  }

  lemma FewerPairs(f: nat, g: int)
    ensures f <= g ==> f * (f - 1) <= g * (g - 1)
  {
    if f < g {
      MulNonNegative(g - f, g + f - 1);
      assert g * (g - 1) - f * (f - 1) == (g - f) * (g + f - 1);
    }
  }
}
