/** Which half of a strip is read to rebuild one failed data or P disk of the MDR-I code,
    and why the other half follows from it. */
module MdrRepair {
  import opened Bits
  import opened Blocks
  import opened MdrCode

  /** Row t is read when disk d (d == k is P) has failed. */
  predicate Reads(k: nat, d: nat, t: nat) {
    k > 0 && t < Pow2(k) &&
    var h := Pow2(k - 1);
    if d + 1 < k then Reads(k - 1, d, Fold(t, h))
    else if d + 1 == k then t < h
    else t >= h
  }

  /** The block of the failed disk that the Q equation of row r, a row that is read, solves for. */
  function Solves(k: nat, d: nat, r: nat): nat
    requires d <= k
  {
    if k == 0 then 0 else
    var h := Pow2(k - 1);
    if d + 1 < k then (if r < h then Solves(k - 1, d, r) else h + Solves(k - 1, d, Fold(r, h)))
    else if d + 1 == k then h + r
    else Fold(r, h)
  }

  /** The row whose Q equation rebuilds block t, a block that is not read. */
  function SolvedBy(k: nat, d: nat, t: nat): nat
    requires d <= k
  {
    if k == 0 then 0 else
    var h := Pow2(k - 1);
    if d + 1 < k then (if t < h then SolvedBy(k - 1, d, t) else h + SolvedBy(k - 1, d, Fold(t, h)))
    else if d + 1 == k then Fold(t, h)
    else h + t
  }

  /** Of everything the Q equation of a read row names, exactly one block lies in a row
      that is not read, and it belongs to the failed disk. */
  lemma {:induction false} OneUnread(k: nat, d: nat, r: nat, j: nat, t: nat)
    requires k > 0 && d <= k && j <= k && Reads(k, d, r) && t < Pow2(k)
    ensures Names(k, r, j, t) && !Reads(k, d, t) <==> j == d && t == Solves(k, d, r)
  {
    hide Names, Reads, Solves;
    var h := Pow2(k - 1);
    ReadsIsRow(k, d, r);
    if d + 1 < k {
      DataColumn(k, d, r, t);
      if j + 1 < k {
        NamesInData(k, r, j, t);
        OneUnread(k - 1, d, Fold(r, h), j, Fold(t, h));
        OneUnread(k - 1, d, Fold(r, h), k - 1, Fold(t, h));
      } else {
        OneUnreadOutside(k, d, r, j, t);
      }
    } else {
      OneUnreadDirect(k, d, r, j, t);
    }
  }

  lemma ReadsIsRow(k: nat, d: nat, r: nat)
    ensures Reads(k, d, r) ==> r < Pow2(k)
  {
  }

  /** The rows read when the last data disk or P has failed. */
  lemma ReadsOfLast(k: nat, d: nat)
    requires k > 0 && d <= k
    ensures Pow2(k) == 2 * Pow2(k - 1) && (k == 1 ==> Pow2(k) == 2)
    ensures d + 1 == k ==> forall t: nat :: Reads(k, d, t) <==> t < Pow2(k - 1)
    ensures d == k ==> forall t: nat :: Reads(k, d, t) <==> Pow2(k - 1) <= t < Pow2(k)
  {
  }

  lemma NamesInData(k: nat, r: nat, j: nat, t: nat)
    requires j + 1 < k && r < Pow2(k) && t < Pow2(k)
    ensures
      var h := Pow2(k - 1);
      Names(k, r, j, t) <==>
        (r < h <==> t < h) &&
        Names(k - 1, Fold(r, h), j, Fold(t, h)) != Names(k - 1, Fold(r, h), k - 1, Fold(t, h))
  {
  }

  /** What the level below says of a failed data disk that it has too. */
  lemma DataColumn(k: nat, d: nat, r: nat, t: nat)
    requires d + 1 < k && r < Pow2(k) && t < Pow2(k) && Reads(k, d, r)
    ensures
      var h := Pow2(k - 1);
      Fold(r, h) < h && Fold(t, h) < h && Reads(k - 1, d, Fold(r, h)) &&
      (Reads(k, d, t) <==> Reads(k - 1, d, Fold(t, h))) &&
      Solves(k, d, r) == (if r < h then 0 else h) + Solves(k - 1, d, Fold(r, h)) &&
      Solves(k - 1, d, Fold(r, h)) < h
  {
    SolvesBijection(k - 1, d, Fold(r, Pow2(k - 1)), 0);
  }

  /** The blocks of the last data disk and of P that a row names are read when an earlier disk
      has failed. */
  lemma OneUnreadOutside(k: nat, d: nat, r: nat, j: nat, t: nat)
    requires d + 1 < k && k <= j + 1 && j <= k && Reads(k, d, r) && r < Pow2(k) && t < Pow2(k)
    ensures Names(k, r, j, t) ==> Reads(k, d, t)
  {
  }

  lemma OneUnreadDirect(k: nat, d: nat, r: nat, j: nat, t: nat)
    requires k > 0 && k <= d + 1 && d <= k && j <= k && Reads(k, d, r) && t < Pow2(k)
    ensures Names(k, r, j, t) && !Reads(k, d, t) <==> j == d && t == Solves(k, d, r)
  {
  }

  /** Solves maps the rows that are read one-to-one onto the rows that are not, and
      SolvedBy is its inverse. */
  lemma {:induction false} SolvesBijection(k: nat, d: nat, r: nat, t: nat)
    requires k > 0 && d <= k && r < Pow2(k) && t < Pow2(k)
    ensures Reads(k, d, r) ==>
      Solves(k, d, r) < Pow2(k) && !Reads(k, d, Solves(k, d, r)) && SolvedBy(k, d, Solves(k, d, r)) == r
    ensures !Reads(k, d, t) ==>
      SolvedBy(k, d, t) < Pow2(k) && Reads(k, d, SolvedBy(k, d, t)) && Solves(k, d, SolvedBy(k, d, t)) == t
  {
    var h := Pow2(k - 1);
    if d + 1 < k { SolvesBijection(k - 1, d, Fold(r, h), Fold(t, h)); }
  }

  /** How many of the rows below n are read. */
  function ReadCount(k: nat, d: nat, n: nat): nat {
    if n == 0 then 0 else ReadCount(k, d, n - 1) + if Reads(k, d, n - 1) then 1 else 0
  }

  lemma {:induction false} ReadCountPrefix(k: nat, d: nat, n: nat)
    requires k > 0 && d <= k && n <= Pow2(k)
    ensures
      var h := Pow2(k - 1);
      ReadCount(k, d, n) ==
        if d + 1 < k then ReadCount(k - 1, d, if n < h then n else h) + ReadCount(k - 1, d, if n < h then 0 else n - h)
        else if d + 1 == k then (if n < h then n else h)
        else (if n < h then 0 else n - h)
  {
    if n > 0 { ReadCountPrefix(k, d, n - 1); }
  }

  /** Exactly half of the rows are read. */
  lemma {:induction false} HalfIsRead(k: nat, d: nat)
    requires k > 0 && d <= k
    ensures ReadCount(k, d, Pow2(k)) == |ReadList(k, d, Pow2(k))| == Pow2(k - 1)
  {
    ReadCountPrefix(k, d, Pow2(k));
    if d + 1 < k { HalfIsRead(k - 1, d); }
  }

  // ---- The block lists that the repair code works from ----

  /** The rows below n that are read, in order. */
  function ReadList(k: nat, d: nat, n: nat): (s: seq<nat>)
    ensures |s| == ReadCount(k, d, n)
    ensures forall i :: 0 <= i < |s| ==> s[i] < n && Reads(k, d, s[i])
    ensures forall i, j :: 0 <= i < j < |s| ==> s[i] < s[j]
  {
    if n == 0 then [] else ReadList(k, d, n - 1) + if Reads(k, d, n - 1) then [n - 1] else []
  }

  lemma {:induction false} ReadListHasAll(k: nat, d: nat, n: nat, t: nat)
    requires t < n && Reads(k, d, t)
    ensures t in ReadList(k, d, n)
  {
    if t < n - 1 { ReadListHasAll(k, d, n - 1, t); }
  }

  /** The blocks below n of column j that row r names and that are read. */
  function NamedRead(k: nat, d: nat, r: nat, j: nat, n: nat): (s: seq<nat>)
    ensures forall i :: 0 <= i < |s| ==> s[i] < n && Reads(k, d, s[i])
  {
    if n == 0 then [] else
    NamedRead(k, d, r, j, n - 1) + if Names(k, r, j, n - 1) && Reads(k, d, n - 1) then [n - 1] else []
  }

  /** All the blocks below n of column j that row r names. */
  function NamedList(k: nat, r: nat, j: nat, n: nat): (s: seq<nat>)
    ensures forall i :: 0 <= i < |s| ==> s[i] < n
  {
    if n == 0 then [] else NamedList(k, r, j, n - 1) + if Names(k, r, j, n - 1) then [n - 1] else []
  }

  /** Each list has exactly its blocks, in order and without repetition. */
  lemma {:induction false} NamedListIsExact(k: nat, r: nat, j: nat, n: nat)
    ensures
      var all := NamedList(k, r, j, n);
      (forall t: nat :: t in all <==> t < n && Names(k, r, j, t)) &&
      forall i, l :: 0 <= i < l < |all| ==> all[i] < all[l]
  {
    hide Names;
    if n > 0 { NamedListIsExact(k, r, j, n - 1); }
  }

  lemma {:induction false} NamedReadIsExact(k: nat, d: nat, r: nat, j: nat, n: nat)
    ensures forall t: nat :: t in NamedRead(k, d, r, j, n) <==> t < n && Names(k, r, j, t) && Reads(k, d, t)
  {
    hide Names, Reads;
    if n > 0 { NamedReadIsExact(k, d, r, j, n - 1); }
  }

  lemma {:induction false} NamedReadInOrder(k: nat, d: nat, r: nat, j: nat, n: nat, i: nat, l: nat)
    requires i < l < |NamedRead(k, d, r, j, n)|
    ensures NamedRead(k, d, r, j, n)[i] < NamedRead(k, d, r, j, n)[l]
  {
    hide Names, Reads;
    if l < |NamedRead(k, d, r, j, n - 1)| { NamedReadInOrder(k, d, r, j, n - 1, i, l); }
  }

  lemma {:induction false} NamedListXor(k: nat, r: nat, j: nat, col: Column, n: nat)
    requires n <= |col|
    ensures XorAt(col, NamedList(k, r, j, n)) == Named(k, r, j, col, n)
  {
    hide Names, Xor, XorAt;
    XorAtNone(col);
    if n > 0 {
      NamedListXor(k, r, j, col, n - 1);
      XorAtAppend(col, NamedList(k, r, j, n - 1), n - 1);
      XorZero(Named(k, r, j, col, n - 1));
      assert NamedList(k, r, j, n - 1) + [] == NamedList(k, r, j, n - 1);
    }
  }

  /** The blocks that the Q equation of row r names and that are read, disk by disk, with
      the Q block itself last. */
  function Lists(k: nat, d: nat, r: nat): (s: seq<seq<nat>>)
    ensures |s| == k + 2 && s[k + 1] == [r]
    ensures forall j :: 0 <= j <= k ==> s[j] == NamedRead(k, d, r, j, Pow2(k))
  {
    seq(k + 1, j requires 0 <= j <= k => NamedRead(k, d, r, j, Pow2(k))) + [[r]]
  }

  /** XOR of the blocks of a column at the listed rows. */
  function XorAt(col: Column, rows: seq<nat>): Block
    requires forall i :: 0 <= i < |rows| ==> rows[i] < |col|
  {
    if rows == [] then 0 else Xor(XorAt(col, rows[..|rows| - 1]), col[rows[|rows| - 1]])
  }

  lemma XorAtNone(col: Column)
    ensures XorAt(col, []) == 0
  {
  }

  lemma XorAtAppend(col: Column, rows: seq<nat>, t: nat)
    requires t < |col| && forall i :: 0 <= i < |rows| ==> rows[i] < |col|
    ensures XorAt(col, rows + [t]) == Xor(XorAt(col, rows), col[t])
  {
    assert (rows + [t])[..|rows|] == rows;
  }

  /** XOR of everything that is both named by row r and read, in the first n columns. */
  function KnownXor(k: nat, d: nat, r: nat, a: seq<Column>, n: nat): Block
    requires IsStripe(k, a) && n <= k + 1
  {
    if n == 0 then 0
    else Xor(KnownXor(k, d, r, a, n - 1), XorAt(a[n - 1], NamedRead(k, d, r, n - 1, Pow2(k))))
  }

  lemma {:induction false} NamedIsReadPlusLost(k: nat, d: nat, r: nat, j: nat, col: Column, n: nat)
    requires 0 < k && d <= k && j <= k && Reads(k, d, r) && n <= |col| == Pow2(k)
    ensures Named(k, r, j, col, n) ==
      Xor(XorAt(col, NamedRead(k, d, r, j, n)), if j == d && Solves(k, d, r) < n then col[Solves(k, d, r)] else 0)
  {
    hide Names, Reads, Solves, Xor, XorAt;
    if n > 0 {
      var t, rows, lost := n - 1, NamedRead(k, d, r, j, n - 1), Solves(k, d, r);
      NamedIsReadPlusLost(k, d, r, j, col, t);
      OneUnread(k, d, r, j, t);
      XorAtAppend(col, rows, t);
      var x, y, v := XorAt(col, rows), if j == d && lost < t then col[lost] else 0, col[t];
      assert rows + [] == rows;
      if Names(k, r, j, t) {
        if Reads(k, d, t) { XorRight(x, y, v); } else { XorZero(x); }
      } else {
        XorZero(Xor(x, y));
      }
    } else {
      XorAtNone(col);
      XorZero(0);
    }
  }

  /** The equation that rebuilds a block: the stored Q block and the read blocks it names
      XOR to the one block of the failed disk that was not read. */
  lemma {:induction false} KnownPlusLost(k: nat, d: nat, r: nat, a: seq<Column>, n: nat)
    requires 0 < k && IsStripe(k, a) && d <= k && r < Pow2(k) && Reads(k, d, r) && n <= k + 1
    ensures Solves(k, d, r) < Pow2(k)
    ensures Xor(KnownXor(k, d, r, a, n), QRow(k, r, a, n)) == if d < n then a[d][Solves(k, d, r)] else 0
  {
    hide Names, Xor, Reads, Solves, SolvedBy, Named, NamedRead, XorAt;
    SolvesBijection(k, d, r, r);
    if n == 0 {
      XorZero(0);
    } else {
      var j := n - 1;
      KnownPlusLost(k, d, r, a, j);
      NamedIsReadPlusLost(k, d, r, j, a[j], Pow2(k));
      var x := XorAt(a[j], NamedRead(k, d, r, j, Pow2(k)));
      var y := if j == d then a[d][Solves(k, d, r)] else 0;
      XorSwap(KnownXor(k, d, r, a, j), x, QRow(k, r, a, j), Xor(x, y));
      XorComm(x, y);
      XorCancel(y, x);
      XorZero(y);
      XorZero(if d < j then a[d][Solves(k, d, r)] else 0);
    }
  }

  /** In a strip that satisfies the P equation every column is the XOR of the others. */
  lemma RowRebuilds(k: nat, a: seq<Column>, d: nat, t: nat)
    requires IsStripe(k, a) && ParityOk(k, a) && d <= k && t < Pow2(k)
    ensures RowXorBut(a, d, k + 1, t) == a[d][t]
  {
    RowXorButOne(a, d, k + 1, t);
    assert a[k][t] == RowXor(a, k, t);
    XorZero(RowXor(a, k, t));
    XorZero(a[d][t]);
  }

  /** A read row gives its block of the failed disk directly. */
  lemma ReadRowRebuilds(k: nat, c: seq<Column>, d: nat, t: nat)
    requires IsCodeword(k, c) && d <= k && t < Pow2(k)
    ensures RowXorBut(c, d, k + 1, t) == c[d][t]
  {
    hide RowXorBut, QRow, Xor;
    RowRebuilds(k, c[..k + 1], d, t);
    SameRowXorBut(c, c[..k + 1], d, k + 1, t);
  }

  /** Any other block follows from the Q equation that solves for it. */
  lemma QRowRebuilds(k: nat, c: seq<Column>, d: nat, t: nat)
    requires k > 0 && IsCodeword(k, c) && d <= k && t < Pow2(k) && !Reads(k, d, t)
    ensures
      var r := SolvedBy(k, d, t);
      r < Pow2(k) && Reads(k, d, r) && Xor(KnownXor(k, d, r, c[..k + 1], k + 1), c[k + 1][r]) == c[d][t]
  {
    hide Reads, Solves, SolvedBy, Xor, QRow, RowXor, KnownXor;
    SolvesBijection(k, d, t, t);
    var r, q := SolvedBy(k, d, t), c[k + 1];
    assert q[r] == QValue(k, r, c[..k + 1]);
    KnownPlusLost(k, d, r, c[..k + 1], k + 1);
  }

  lemma {:induction false} SameRowXorBut(a: seq<Column>, b: seq<Column>, d: nat, n: nat, t: nat)
    requires n <= |a| && n <= |b| && forall j :: 0 <= j < n ==> a[j] == b[j] && t < |a[j]|
    ensures RowXorBut(a, d, n, t) == RowXorBut(b, d, n, t)
  {
    if n > 0 { SameRowXorBut(a, b, d, n - 1, t); }
  }
}
