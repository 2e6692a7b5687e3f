/** RAID-6 rows: P and Q on rotating disks, and the algebra that rebuilds lost blocks. */
module Raid6Code {
  import opened Bits
  import opened Blocks
  import opened GaloisBlocks
  import opened GaloisByte
  import opened GaloisField
  import opened IntMod

  function CodeDisk(n: nat, b: nat): (d: nat)
    requires n > 0
    ensures d < n
  {
    n - 1 - b % n
  }

  function ParityDisk(n: nat, b: nat): (d: nat)
    requires n > 0
    ensures d < n
  {
    n - 1 - (b + 1) % n
  }

  predicate IsData(n: nat, b: nat, i: nat)
    requires n > 0
  {
    i != CodeDisk(n, b) && i != ParityDisk(n, b)
  }

  /** The place of disk i among the data disks of row b. */
  function Place(n: nat, b: nat, i: nat): int
    requires n > 0
  {
    i - (if i > CodeDisk(n, b) then 1 else 0) - (if i > ParityDisk(n, b) then 1 else 0)
  }

  /** P lies just before Q, or at the other end. */
  lemma ParityBeforeCode(n: nat, b: nat)
    requires n >= 2
    ensures ParityDisk(n, b) == if CodeDisk(n, b) == 0 then n - 1 else CodeDisk(n, b) - 1
  {
    var q, r := b / n, b % n;
    assert b + 1 == q * n + (r + 1);
    if r + 1 < n { DivMod(b + 1, q, r + 1, n); } else { DivMod(b + 1, q + 1, 0, n); }
  }

  /** Q begins on the last disk and moves one disk to the left from row to row, P goes before it. */
  lemma ParityRotates(n: nat, b: nat)
    requires n >= 2
    ensures CodeDisk(n, 0) == n - 1
    ensures CodeDisk(n, b + 1) == (if CodeDisk(n, b) == 0 then n - 1 else CodeDisk(n, b) - 1) == ParityDisk(n, b)
  {
    ParityBeforeCode(n, b);
  }

  lemma PlaceInRange(n: nat, b: nat, i: nat)
    requires n >= 3 && i < n && IsData(n, b, i)
    ensures 0 <= Place(n, b, i) < n - 2
  {
    ParityBeforeCode(n, b);
  }

  lemma PlacesInOrder(n: nat, b: nat, i: nat, j: nat)
    requires n >= 3 && i < j < n && IsData(n, b, i) && IsData(n, b, j)
    ensures Place(n, b, i) < Place(n, b, j)
  {
    ParityBeforeCode(n, b);
  }

  /** The data disk at a place. */
  function DataDisk(n: nat, b: nat, p: nat): (i: nat)
    requires n >= 3 && p < n - 2
    ensures i < n && IsData(n, b, i) && Place(n, b, i) == p
  {
    ParityBeforeCode(n, b);
    var code, parity := CodeDisk(n, b), ParityDisk(n, b);
    if parity > code then p + 1 else if p < parity then p else p + 2
  }

  /** 1 << value. */
  function Coefficient(n: nat, place: int): nat
    requires place <= n - 3
  {
    Pow2(n - 3 - place)
  }

  lemma CoefficientIsByte(n: nat, place: int)
    requires n <= 10 && 0 <= place <= n - 3
    ensures 0 < Coefficient(n, place) < 256
  {
    ByteRange();
    Pow2Grows(n - 3 - place, 7);
  }

  lemma CoefficientsDiffer(n: nat, p: int, q: int)
    requires p <= n - 3 && q <= n - 3 && p != q
    ensures Coefficient(n, p) != Coefficient(n, q)
  {
    if p < q { Pow2Grows(n - 3 - q + 1, n - 3 - p); } else { Pow2Grows(n - 3 - p + 1, n - 3 - q); }
  }

  /** The coefficient of data disk i. */
  function Weight(n: nat, b: nat, i: nat): (w: nat)
    requires 3 <= n <= 10 && i < n && IsData(n, b, i)
    ensures 0 < w < 256
  {
    PlaceInRange(n, b, i);
    CoefficientIsByte(n, Place(n, b, i));
    Coefficient(n, Place(n, b, i))
  }

  lemma WeightsDiffer(n: nat, b: nat, i: nat, j: nat)
    requires 3 <= n <= 10 && i < n && j < n && i != j && IsData(n, b, i) && IsData(n, b, j)
    ensures Weight(n, b, i) != Weight(n, b, j)
  {
    if i < j { PlacesInOrder(n, b, i, j); } else { PlacesInOrder(n, b, j, i); }
    PlaceInRange(n, b, i);
    PlaceInRange(n, b, j);
    CoefficientsDiffer(n, Place(n, b, i), Place(n, b, j));
  }

  // ---- Sums over the disks of a row ----

  /** XOR of the first m blocks of a row, without those of the disks in skip. */
  function PSum(row: seq<Block>, skip: set<nat>, m: nat): Block
    requires m <= |row|
  {
    if m == 0 then 0
    else if m - 1 in skip then PSum(row, skip, m - 1)
    else Xor(PSum(row, skip, m - 1), row[m - 1])
  }

  /** The same with every data block multiplied by its coefficient. P and Q are skipped. */
  function QSum(n: nat, b: nat, row: seq<Block>, skip: set<nat>, m: nat): Block
    requires 3 <= n <= 10 && |row| == n && m <= n
  {
    if m == 0 then 0
    else if m - 1 in skip || !IsData(n, b, m - 1) then QSum(n, b, row, skip, m - 1)
    else Xor(QSum(n, b, row, skip, m - 1), Scale(Weight(n, b, m - 1), row[m - 1]))
  }

  lemma QSumNone(n: nat, b: nat, row: seq<Block>, skip: set<nat>)
    requires 3 <= n <= 10 && |row| == n
    ensures QSum(n, b, row, skip, 0) == 0
  {
  }

  lemma QSumNext(n: nat, b: nat, row: seq<Block>, skip: set<nat>, i: nat)
    requires 3 <= n <= 10 && |row| == n && i < n
    ensures QSum(n, b, row, skip, i + 1) ==
      if i in skip || i == ParityDisk(n, b) || i == CodeDisk(n, b) then QSum(n, b, row, skip, i)
      else Xor(QSum(n, b, row, skip, i), Scale(Weight(n, b, i), row[i]))
  {
    hide Xor, Scale, Weight, CodeDisk, ParityDisk;
  }

  lemma {:induction false} PSumSkip(row: seq<Block>, skip: set<nat>, x: nat, m: nat)
    requires m <= |row| && x < |row| && x !in skip
    ensures PSum(row, skip, m) == Xor(PSum(row, skip + {x}, m), if x < m then row[x] else 0)
  {
    hide Xor;
    XorZero(0);
    if m > 0 {
      PSumSkip(row, skip, x, m - 1);
      var s := PSum(row, skip + {x}, m - 1);
      XorZero(s);
      XorZero(Xor(s, row[m - 1]));
      XorRight(s, row[x], row[m - 1]);
    }
  }

  lemma {:induction false} QSumSkip(n: nat, b: nat, row: seq<Block>, skip: set<nat>, x: nat, m: nat)
    requires 3 <= n <= 10 && |row| == n && m <= n && x < n && x !in skip && IsData(n, b, x)
    ensures QSum(n, b, row, skip, m) ==
      Xor(QSum(n, b, row, skip + {x}, m), if x < m then Scale(Weight(n, b, x), row[x]) else 0)
  {
    hide Xor, Scale, Weight, CodeDisk, ParityDisk;
    XorZero(0);
    if m > 0 {
      QSumSkip(n, b, row, skip, x, m - 1);
      var s := QSum(n, b, row, skip + {x}, m - 1);
      XorZero(s);
      if m - 1 != x && m - 1 !in skip && IsData(n, b, m - 1) {
        var t := Scale(Weight(n, b, m - 1), row[m - 1]);
        XorZero(Xor(s, t));
        XorRight(s, Scale(Weight(n, b, x), row[x]), t);
      }
    }
  }

  lemma {:induction false} PSumAgree(r: seq<Block>, s: seq<Block>, skip: set<nat>, m: nat)
    requires m <= |r| && m <= |s| && forall i :: 0 <= i < m && i !in skip ==> r[i] == s[i]
    ensures PSum(r, skip, m) == PSum(s, skip, m)
  {
    if m > 0 { PSumAgree(r, s, skip, m - 1); }
  }

  lemma {:induction false} QSumAgree(n: nat, b: nat, r: seq<Block>, s: seq<Block>, skip: set<nat>, m: nat)
    requires 3 <= n <= 10 && |r| == n && |s| == n && m <= n
    requires forall i :: 0 <= i < m && i !in skip && IsData(n, b, i) ==> r[i] == s[i]
    ensures QSum(n, b, r, skip, m) == QSum(n, b, s, skip, m)
  {
    hide CodeDisk, ParityDisk;
    if m > 0 { QSumAgree(n, b, r, s, skip, m - 1); }
  }

  ghost predicate IsRow(n: nat, b: nat, row: seq<Block>) {
    3 <= n <= 10 && |row| == n &&
    row[ParityDisk(n, b)] == PSum(row, {ParityDisk(n, b), CodeDisk(n, b)}, n) &&
    row[CodeDisk(n, b)] == QSum(n, b, row, {}, n)
  }

  // ---- The coefficients by the number of data disks below ----

  /** The numbers below n. */
  function Below(n: nat): (s: set<nat>)
    ensures |s| == n && forall i :: i in s <==> 0 <= i < n
  {
    if n == 0 then {} else Below(n - 1) + {n - 1}
  }

  /** The place of a data disk is the number of data disks before it. */
  lemma PlaceCounts(n: nat, b: nat, i: nat)
    requires n >= 3 && i < n && IsData(n, b, i)
    ensures Place(n, b, i) == |Below(i) - {CodeDisk(n, b), ParityDisk(n, b)}|
  {
    hide CodeDisk, ParityDisk;
    ParityBeforeCode(n, b);
    var code, parity := CodeDisk(n, b), ParityDisk(n, b);
    assert Below(i) - {code, parity} == Below(i) - {code} - {parity};
    if parity < i { assert parity in Below(i) - {code}; }
  }

  /** So the coefficient of a data disk is 2^(n - 3 - p) for p data disks before it. */
  lemma WeightIs(n: nat, b: nat, i: nat)
    requires 3 <= n <= 10 && i < n && IsData(n, b, i)
    ensures
      var p := |Below(i) - {CodeDisk(n, b), ParityDisk(n, b)}|;
      p <= n - 3 && Weight(n, b, i) == Pow2(n - 3 - p)
  {
    hide CodeDisk, ParityDisk, Place, Pow2;
    PlaceInRange(n, b, i);
    PlaceCounts(n, b, i);
  }

  /** What Q becomes when data block d changes from x to v: the change is added, times 2^(n - 3 - p)
      for p data disks before d. If the other data blocks are zero, Q is v times that. */
  ghost predicate QUpdated(n: nat, b: nat, was: seq<Block>, now: seq<Block>, d: nat, v: Block) {
    3 <= n <= 10 && |was| == |now| == n && d < n &&
    var code, parity := CodeDisk(n, b), ParityDisk(n, b);
    var p := |Below(d) - {code, parity}|;
    p <= n - 3 &&
    (IsRow(n, b, was) ==> now[code] == Xor(was[code], Scale(Pow2(n - 3 - p), Xor(was[d], v)))) &&
    ((forall i :: 0 <= i < n && i != d && i != code && i != parity ==> was[i] == 0) ==>
      now[code] == Scale(Pow2(n - 3 - p), v))
  }

  lemma {:induction false} QSumOne(n: nat, b: nat, row: seq<Block>, d: nat, m: nat)
    requires 3 <= n <= 10 && |row| == n && m <= n && d < n && IsData(n, b, d)
    requires forall i :: 0 <= i < n && i != d && IsData(n, b, i) ==> row[i] == 0
    ensures QSum(n, b, row, {}, m) == if d < m then Scale(Weight(n, b, d), row[d]) else 0
  {
    hide Xor, Scale, Weight, CodeDisk, ParityDisk, IsData;
    if m > 0 {
      QSumOne(n, b, row, d, m - 1);
      QSumNext(n, b, row, {}, m - 1);
      DataIs(n, b, m - 1);
      XorZero(0);
      XorZero(Scale(Weight(n, b, d), row[d]));
      if IsData(n, b, m - 1) && m - 1 != d { ScaleZeroBlock(Weight(n, b, m - 1)); }
    }
  }

  lemma DataIs(n: nat, b: nat, i: nat)
    requires n > 0
    ensures IsData(n, b, i) <==> i != CodeDisk(n, b) && i != ParityDisk(n, b)
  {
  }

  /** The Q sums of two rows that differ in one data block. */
  lemma QSumChange(n: nat, b: nat, was: seq<Block>, now: seq<Block>, d: nat)
    requires 3 <= n <= 10 && |was| == |now| == n && d < n && IsData(n, b, d)
    requires forall i :: 0 <= i < n && i != d && IsData(n, b, i) ==> now[i] == was[i]
    ensures QSum(n, b, now, {}, n) == Xor(QSum(n, b, was, {}, n), Scale(Weight(n, b, d), Xor(was[d], now[d])))
  {
    hide Xor, Scale, Weight, IsData, QSum;
    var w := Weight(n, b, d);
    assert {} + {d} == {d};
    QSumSkip(n, b, was, {}, d, n);
    QSumSkip(n, b, now, {}, d, n);
    QSumAgree(n, b, now, was, {d}, n);
    ScaleXor(w, was[d], now[d]);
    var s, x, y := QSum(n, b, was, {d}, n), Scale(w, was[d]), Scale(w, now[d]);
    XorAssoc(s, x, Xor(x, y));
    XorCancel(y, x);
  }

  /** A coded row is one whose Q has been updated. */
  lemma QUpdatedWhenCoded(n: nat, b: nat, was: seq<Block>, now: seq<Block>, d: nat, v: Block)
    requires |was| == n && IsRow(n, b, now) && d < n && IsData(n, b, d) && now[d] == v
    requires forall i :: 0 <= i < n && i != d && IsData(n, b, i) ==> now[i] == was[i]
    ensures QUpdated(n, b, was, now, d, v)
  {
    hide Xor, Scale, Weight, CodeDisk, ParityDisk, QSum, PSum, Pow2, Below;
    WeightIs(n, b, d);
    QSumChange(n, b, was, now, d);
    if forall i :: 0 <= i < n && i != d && IsData(n, b, i) ==> was[i] == 0 { QSumOne(n, b, now, d, n); }
  }

  /** XOR over the first m places p of 2^(n - 3 - p) times the block at place p. */
  function PlaceSum(n: nat, data: seq<Block>, m: nat): Block
    requires n >= 3 && m <= |data| == n - 2
  {
    if m == 0 then 0 else Xor(PlaceSum(n, data, m - 1), Scale(Pow2(n - 2 - m), data[m - 1]))
  }

  /** The data blocks of a row by place. */
  function ByPlace(n: nat, b: nat, row: seq<Block>): (data: seq<Block>)
    requires n >= 3 && |row| == n
    ensures |data| == n - 2 && forall p :: 0 <= p < n - 2 ==> data[p] == row[DataDisk(n, b, p)]
  {
    seq(n - 2, p requires 0 <= p < n - 2 => row[DataDisk(n, b, p)])
  }

  /** The number of data disks among the first m disks. */
  function DataCount(n: nat, b: nat, m: nat): int
    requires n > 0
  {
    m - (if m > CodeDisk(n, b) then 1 else 0) - if m > ParityDisk(n, b) then 1 else 0
  }

  lemma DataCountNext(n: nat, b: nat, m: nat)
    requires n >= 3 && m < n
    ensures 0 <= DataCount(n, b, m) <= n - 2 && 0 <= DataCount(n, b, m + 1) <= n - 2
    ensures DataCount(n, b, m + 1) == DataCount(n, b, m) + if IsData(n, b, m) then 1 else 0
    ensures IsData(n, b, m) ==>
      Place(n, b, m) == DataCount(n, b, m) < n - 2 && DataDisk(n, b, DataCount(n, b, m)) == m
    ensures DataCount(n, b, 0) == 0 && DataCount(n, b, n) == n - 2
  {
    ParityBeforeCode(n, b);
  }

  /** The Q sum of a row is the sum over the places of its data blocks. */
  lemma {:induction false} QSumIsPlaceSum(n: nat, b: nat, row: seq<Block>, m: nat)
    requires 3 <= n <= 10 && |row| == n && m <= n
    ensures 0 <= DataCount(n, b, m) <= n - 2
    ensures QSum(n, b, row, {}, m) == PlaceSum(n, ByPlace(n, b, row), DataCount(n, b, m))
  {
    hide Xor, Scale, CodeDisk, ParityDisk, IsData, DataCount, Place, DataDisk, Pow2, ByPlace, PlaceSum;
    if m == 0 {
      DataCountNext(n, b, 0);
      NoPlaces(n, ByPlace(n, b, row));
    } else {
      QSumIsPlaceSum(n, b, row, m - 1);
      DataCountNext(n, b, m - 1);
      QSumNext(n, b, row, {}, m - 1);
      DataIs(n, b, m - 1);
      if IsData(n, b, m - 1) { NextPlaceSum(n, ByPlace(n, b, row), DataCount(n, b, m)); }
    }
  }

  lemma NoPlaces(n: nat, data: seq<Block>)
    requires n >= 3 && |data| == n - 2
    ensures PlaceSum(n, data, 0) == 0
  {
  }

  lemma NextPlaceSum(n: nat, data: seq<Block>, m: nat)
    requires n >= 3 && 0 < m <= |data| == n - 2
    ensures PlaceSum(n, data, m) == Xor(PlaceSum(n, data, m - 1), Scale(Pow2(n - 2 - m), data[m - 1]))
  {
  }

  /** Q of a coded row is the XOR over the places p of 2^(n - 3 - p) times the block at place p. */
  lemma CodeIsPlaceSum(n: nat, b: nat, row: seq<Block>)
    requires IsRow(n, b, row)
    ensures row[CodeDisk(n, b)] == PlaceSum(n, ByPlace(n, b, row), n - 2)
  {
    hide Xor, Scale, QSum, PSum, PlaceSum, ByPlace;
    QSumIsPlaceSum(n, b, row, n);
    DataCountNext(n, b, n - 1);
  }

  // ---- Lost blocks of coded rows ----

  /** Any block but Q is the XOR of the other blocks but Q. */
  lemma LostFromParity(n: nat, b: nat, row: seq<Block>, d: nat)
    requires IsRow(n, b, row) && d < n && d != CodeDisk(n, b)
    ensures PSum(row, {CodeDisk(n, b), d}, n) == row[d]
  {
    hide Xor, PSum, QSum;
    ParityBeforeCode(n, b);
    var code, parity := CodeDisk(n, b), ParityDisk(n, b);
    assert {code} + {d} == {code, d} && {code} + {parity} == {parity, code};
    PSumSkip(row, {code}, parity, n);
    PSumSkip(row, {code}, d, n);
    XorZero(row[parity]);
    EqualIfXorZero(PSum(row, {code, d}, n), row[d]);
  }

  /** Q without the other data leaves one scaled data block. */
  lemma LostFromCode(n: nat, b: nat, row: seq<Block>, x: nat)
    requires IsRow(n, b, row) && x < n && IsData(n, b, x)
    ensures Xor(QSum(n, b, row, {x}, n), row[CodeDisk(n, b)]) == Scale(Weight(n, b, x), row[x])
  {
    hide Xor, PSum, QSum, Scale, Weight;
    assert {} + {x} == {x};
    QSumSkip(n, b, row, {}, x, n);
    XorCancel(Scale(Weight(n, b, x), row[x]), QSum(n, b, row, {x}, n));
  }

  /** P and Q without the other data are two equations for two lost data blocks. */
  lemma LostPair(n: nat, b: nat, row: seq<Block>, x: nat, y: nat)
    requires IsRow(n, b, row) && x < n && y < n && x != y && IsData(n, b, x) && IsData(n, b, y)
    ensures
      var parity, code, gx, gy := ParityDisk(n, b), CodeDisk(n, b), Weight(n, b, x), Weight(n, b, y);
      var p := Xor(PSum(row, {parity, code, x, y}, n), row[parity]);
      var q := QSum(n, b, row, {x, y}, n);
      0 < Xor(gx, gy) < 256 && Xor(Xor(Scale(gy, p), q), row[code]) == Scale(Xor(gx, gy), row[x])
  {
    hide Xor, PSum, QSum, Scale, Weight;
    ParityBeforeCode(n, b);
    var parity, code, gx, gy := ParityDisk(n, b), CodeDisk(n, b), Weight(n, b, x), Weight(n, b, y);
    var s, q := PSum(row, {parity, code, x, y}, n), QSum(n, b, row, {x, y}, n);
    var u, v := row[x], row[y];
    assert {parity, code} + {x} == {parity, code, x} && {parity, code, x} + {y} == {parity, code, x, y};
    assert {} + {x} == {x} && {x} + {y} == {x, y};
    PSumSkip(row, {parity, code}, x, n);
    PSumSkip(row, {parity, code, x}, y, n);
    QSumSkip(n, b, row, {}, x, n);
    QSumSkip(n, b, row, {x}, y, n);
    WeightsDiffer(n, b, x, y);
    ScaleSum(gx, gy, u);
    if Xor(gx, gy) == 0 { EqualIfXorZero(gx, gy); }
    ScaleXor(gy, v, u);
    TwoUnknowns(s, u, v, q, Scale(gx, u), Scale(gy, u), Scale(gy, v));
  }

  lemma TwoUnknowns(s: Block, u: Block, v: Block, q: Block, a: Block, c: Block, e: Block)
    ensures Xor(s, Xor(Xor(s, v), u)) == Xor(v, u)
    ensures Xor(Xor(Xor(e, c), q), Xor(Xor(q, e), a)) == Xor(a, c)
  {
    hide Xor;
    XorAssoc(s, v, u);
    XorCancel(Xor(v, u), s);
    var m := Xor(e, c);
    XorAssoc(q, e, a);
    XorAssoc(m, q, Xor(q, Xor(e, a)));
    XorCancel(Xor(e, a), q);
    XorComm(e, c);
    XorAssoc(c, e, Xor(e, a));
    XorCancel(a, e);
    XorComm(c, a);
  }

  /** Any two of the n blocks of a row are determined by the others. */
  lemma AnyTwoDisksLost(n: nat, b: nat, r: seq<Block>, s: seq<Block>, x: nat, y: nat)
    requires IsRow(n, b, r) && IsRow(n, b, s) && x < y < n
    requires forall i :: 0 <= i < n && i != x && i != y ==> r[i] == s[i]
    ensures r == s
  {
    hide Xor, PSum, QSum, Scale, Weight;
    ParityBeforeCode(n, b);
    var code, parity := CodeDisk(n, b), ParityDisk(n, b);
    if IsData(n, b, x) && IsData(n, b, y) {
      LostPair(n, b, r, x, y);
      LostPair(n, b, s, x, y);
      PSumAgree(r, s, {parity, code, x, y}, n);
      QSumAgree(n, b, r, s, {x, y}, n);
      ScaleInjective(Xor(Weight(n, b, x), Weight(n, b, y)), r[x], s[x]);
      LastLost(n, b, r, s, y);
    } else if x == code || y == code {
      var d := if x == code then y else x;
      LostFromParity(n, b, r, d);
      LostFromParity(n, b, s, d);
      PSumAgree(r, s, {code, d}, n);
      LastLost(n, b, r, s, code);
    } else {
      var d := if x == parity then y else x;
      LostFromCode(n, b, r, d);
      LostFromCode(n, b, s, d);
      QSumAgree(n, b, r, s, {d}, n);
      ScaleInjective(Weight(n, b, d), r[d], s[d]);
      LastLost(n, b, r, s, parity);
    }
  }

  lemma LastLost(n: nat, b: nat, r: seq<Block>, s: seq<Block>, d: nat)
    requires IsRow(n, b, r) && IsRow(n, b, s) && d < n && forall i :: 0 <= i < n && i != d ==> r[i] == s[i]
    ensures r == s
  {
    hide Xor, PSum, QSum, Scale, Weight;
    if d == CodeDisk(n, b) {
      QSumAgree(n, b, r, s, {}, n);
    } else {
      LostFromParity(n, b, r, d);
      LostFromParity(n, b, s, d);
      PSumAgree(r, s, {CodeDisk(n, b), d}, n);
    }
  }
}
