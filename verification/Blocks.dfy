/** Blocks, columns of blocks, and the XOR sums that the codes are made of. */
module Blocks {
  import opened Bits
  import opened IntMod

  /** A block of any number of bytes, read as one binary number. */
  type Block = nat
  type Column = seq<Block>

  /** XOR of block t of the first n columns. */
  function RowXor(a: seq<Column>, n: nat, t: nat): Block
    requires n <= |a| && forall j :: 0 <= j < n ==> t < |a[j]|
  {
    if n == 0 then 0 else Xor(RowXor(a, n - 1, t), a[n - 1][t])
  }

  lemma {:induction false} RowXorAgree(a: seq<Column>, b: seq<Column>, n: nat, t: nat)
    requires n <= |a| && n <= |b| && forall j :: 0 <= j < n ==> a[j] == b[j] && t < |a[j]|
    ensures RowXor(a, n, t) == RowXor(b, n, t)
  {
    if n > 0 { RowXorAgree(a, b, n - 1, t); }
  }

  /** The same sum with column skip left out. */
  function RowXorBut(a: seq<Column>, skip: nat, n: nat, t: nat): Block
    requires n <= |a| && forall j :: 0 <= j < n ==> t < |a[j]|
  {
    if n == 0 then 0
    else if n - 1 == skip then RowXorBut(a, skip, n - 1, t)
    else Xor(RowXorBut(a, skip, n - 1, t), a[n - 1][t])
  }

  /** A sum without one of its terms is the whole sum with that term added again. */
  lemma {:induction false} RowXorButOne(a: seq<Column>, skip: nat, n: nat, t: nat)
    requires n <= |a| && forall j :: 0 <= j < n ==> t < |a[j]|
    ensures RowXorBut(a, skip, n, t) == Xor(RowXor(a, n, t), if skip < n then a[skip][t] else 0)
  {
    XorZero(RowXor(a, n, t));
    if n > 0 {
      RowXorButOne(a, skip, n - 1, t);
      XorZero(RowXor(a, n - 1, t));
      XorCancel(RowXor(a, n - 1, t), a[n - 1][t]);
      if skip < n { XorRight(RowXor(a, n - 1, t), a[skip][t], a[n - 1][t]); }
    }
  }

  /** Adding v an odd number of times adds it once, an even number of times not at all. */
  function Toggle(times: nat, v: Block): Block {
    if times % 2 == 1 then v else 0
  }

  lemma ToggleOnce(x: Block, times: nat, v: Block)
    ensures Xor(Xor(x, Toggle(times, v)), v) == Xor(x, Toggle(times + 1, v))
  {
    hide Xor;
    XorZero(x);
    XorCancel(x, v);
  }

  lemma NoToggle(x: Block, v: Block)
    ensures Xor(x, Toggle(0, v)) == x
  {
    XorZero(x);
  }

  // ---- Strips of a set of disks ----

  /** The first block of the strip that block b lies in. */
  function Base(b: nat, n: nat): nat
    requires n > 0
  {
    b / n * n
  }

  lemma StripBounds(b: nat, n: nat, len: nat)
    requires n > 0 && b < len && len % n == 0
    ensures Base(b, n) + b % n == b && Base(b, n) + n <= len && Base(b, n) % n == 0
  {
    var m, q := len / n, b / n;
    assert len == m * n && b == q * n + b % n;
    if q >= m { MulNonNegative(q - m, n); }
    MulNonNegative(m - q - 1, n);
    AddMultiple(0, q, n);
  }

  /** Rows base..base+n of every disk. */
  function Strip(disks: seq<Column>, base: nat, n: nat): (c: seq<Column>)
    requires forall d :: 0 <= d < |disks| ==> base + n <= |disks[d]|
    ensures |c| == |disks| && forall d :: 0 <= d < |c| ==> |c[d]| == n
    ensures forall d, t :: 0 <= d < |c| && 0 <= t < n ==> c[d][t] == disks[d][base + t]
  {
    seq(|disks|, d requires 0 <= d < |disks| => disks[d][base..base + n])
  }

  lemma {:induction false} StripRowXorBut(disks: seq<Column>, base: nat, size: nat, d: nat, n: nat, t: nat)
    requires n <= |disks| && t < size && forall j :: 0 <= j < |disks| ==> base + size <= |disks[j]|
    ensures RowXorBut(Strip(disks, base, size), d, n, t) == RowXorBut(disks, d, n, base + t)
  {
    if n > 0 { StripRowXorBut(disks, base, size, d, n - 1, t); }
  }

  /** Strips are disjoint. */
  lemma BasesApart(a: nat, b: nat, n: nat)
    requires n > 0 && Base(a, n) != Base(b, n)
    ensures Base(a, n) + n <= Base(b, n) || Base(b, n) + n <= Base(a, n)
  {
    var x, y := a / n, b / n;
    if x < y { MulNonNegative(y - x - 1, n); }
    if y < x { MulNonNegative(x - y - 1, n); }
  }
}
