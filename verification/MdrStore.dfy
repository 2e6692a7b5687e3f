/** What one write does to a strip of the MDR-I code, and when it keeps the strip a codeword. */
module MdrStore {
  import opened Bits
  import opened Blocks
  import opened Diagonals
  import opened MdrCode
  import opened Ncfs
  import opened StripWrite

  /** How often encode updates Q block r for a write to block t of data disk d: once if the
      row names the data block, once if it names the P block of its row. */
  function Mentions(k: nat, d: nat, t: nat, r: nat): nat {
    (if Names(k, r, d, t) then 1 else 0) + (if Names(k, r, k, t) then 1 else 0)
  }

  function MentionList(k: nat, d: nat, t: nat): (m: seq<nat>)
    ensures |m| == Pow2(k) && forall r :: 0 <= r < |m| ==> m[r] == Mentions(k, d, t, r)
  {
    seq(Pow2(k), r requires 0 <= r < Pow2(k) => Mentions(k, d, t, r))
  }

  /** Row r names either the data block or the P block of its row, not both. */
  predicate NamesOne(k: nat, d: nat, t: nat, r: nat): (one: bool)
    ensures one <==> Names(k, r, d, t) != Names(k, r, k, t)
  {
    Names(k, r, d, t) != Names(k, r, k, t)
  }

  /** The Q blocks that change: those of the rows that name the data block or the P block of its
      row, not those of the rows that name both. */
  lemma QUpdates(k: nat, d: nat, t: nat, v: Block)
    ensures forall r :: 0 <= r < Pow2(k) ==>
      Toggle(MentionList(k, d, t)[r], v) == if NamesOne(k, d, t, r) then v else 0
  {
    hide Names;
    forall r | 0 <= r < Pow2(k)
      ensures Toggle(MentionList(k, d, t)[r], v) == if NamesOne(k, d, t, r) then v else 0
    {
      assert MentionList(k, d, t)[r] == Mentions(k, d, t, r);
    }
  }

  /** v has been added to P block b and, in the strip of n rows that it lies in, to the Q blocks
      of the rows that name it or the P block, not to those that name both. */
  ghost predicate ParityAdded(
      k: nat, n: nat, len: nat, before: seq<Column>, after: seq<Column>, d: nat, b: nat, v: Block)
    requires IsArray(k, n, before, len) && IsArray(k, n, after, len)
  {
    var base, t, p, q := Base(b, n), b % n, after[k], after[k + 1];
    (forall i :: 0 <= i < len ==> p[i] == if i == b then Xor(before[k][i], v) else before[k][i]) &&
    forall i :: 0 <= i < len ==>
      q[i] ==
        if base <= i < base + n && NamesOne(k, d, t, i - base) then Xor(before[k + 1][i], v) else before[k + 1][i]
  }

  /** The parity blocks after a write, one by one. */
  lemma ParityAddedAt(
      k: nat, n: nat, len: nat, before: seq<Column>, after: seq<Column>, d: nat, b: nat, v: Block, i: nat)
    requires IsArray(k, n, before, len) && IsArray(k, n, after, len) && ParityAdded(k, n, len, before, after, d, b, v)
    requires i < len
    ensures after[k][i] == if i == b then Xor(before[k][i], v) else before[k][i]
    ensures
      var base, t := b / n * n, b % n;
      after[k + 1][i] ==
        if base <= i < base + n && Names(k, i - base, d, t) != Names(k, i - base, k, t)
        then Xor(before[k + 1][i], v) else before[k + 1][i]
  {
    hide Names, Xor;
    var p, q := after[k], after[k + 1];
    assert q[i] == q[i] && p[i] == p[i];
  }

  lemma ParityStored(k: nat, n: nat, len: nat, before: seq<Column>, after: seq<Column>, d: nat, b: nat, v: Block)
    requires n == Pow2(k) && IsArray(k, n, before, len) && IsArray(k, n, after, len) && d < k && b < len
    requires WrittenAt(k, len, before, after, d, b, v, MentionList(k, d, b % n))
    ensures ParityAdded(k, n, len, before, after, d, b, v)
  {
    hide Xor, Toggle, Names, NamesOne, MentionList, WrittenAt;
    var t := b % n;
    var m := MentionList(k, d, t);
    StripBounds(b, n, len);
    ParityWritten(k, len, before, after, d, b, v, m);
    QUpdates(k, d, t, v);
    var hit := seq(n, r requires 0 <= r < n => NamesOne(k, d, t, r));
    ParityToggled(before[k + 1], after[k + 1], Base(b, n), m, hit, v);
  }

  lemma {:induction false} NamedAdd(k: nat, r: nat, j: nat, a: Column, b: Column, t: nat, v: Block, n: nat)
    requires t < |a| == |b| && n <= |a|
    requires forall u :: 0 <= u < |a| ==> b[u] == if u == t then Xor(a[u], v) else a[u]
    ensures Named(k, r, j, b, n) == Xor(Named(k, r, j, a, n), if t < n && Names(k, r, j, t) then v else 0)
  {
    hide Names, Xor;
    if n == 0 {
      XorZero(0);
    } else {
      NamedAdd(k, r, j, a, b, t, v, n - 1);
      var x, y := Named(k, r, j, a, n - 1), if Names(k, r, j, n - 1) then a[n - 1] else 0;
      XorZero(x);
      XorZero(Xor(x, y));
      if t == n - 1 { XorAssoc(x, y, v); } else { XorRight(x, v, y); }
    }
  }

  /** b is a with v added to block t of columns d and k. */
  ghost predicate AddedToTwo(k: nat, a: seq<Column>, b: seq<Column>, d: nat, t: nat, v: Block) {
    IsStripe(k, a) && IsStripe(k, b) && d < k && t < Pow2(k) &&
    forall j, u :: 0 <= j <= k && 0 <= u < Pow2(k) ==>
      b[j][u] == if (j == d || j == k) && u == t then Xor(a[j][u], v) else a[j][u]
  }

  lemma {:induction false} QRowAdd(k: nat, r: nat, a: seq<Column>, b: seq<Column>, d: nat, t: nat, v: Block, n: nat)
    requires AddedToTwo(k, a, b, d, t, v) && n <= k + 1
    ensures QRow(k, r, b, n) ==
      Xor(QRow(k, r, a, n), if (d < n && Names(k, r, d, t)) != (k < n && Names(k, r, k, t)) then v else 0)
  {
    hide Names, Named, Xor;
    if n == 0 {
      XorZero(0);
    } else {
      QRowAdd(k, r, a, b, d, t, v, n - 1);
      var j := n - 1;
      if j == d || j == k { NamedAdd(k, r, j, a[j], b[j], t, v, |a[j]|); } else { assert a[j] == b[j]; }
      var x, y := QRow(k, r, a, j), Named(k, r, j, a[j], |a[j]|);
      var e, f := if d < j && Names(k, r, d, t) then v else 0, if (j == d || j == k) && Names(k, r, j, t) then v else 0;
      XorZero(y);
      XorZero(v);
      XorZero(0);
      XorSwap(x, e, y, f);
    }
  }

  lemma FreshOverwriteIsAdding(k: nat, c: seq<Column>, d: nat, t: nat, v: Block)
    requires IsFullStripe(k, c) && d < k && t < Pow2(k) && c[d][t] == 0
    ensures AddedToTwo(k, c[..k + 1], Overwritten(k, c, d, t, v, MentionList(k, d, t))[..k + 1], d, t, v)
  {
    hide Toggle, Mentions, Xor;
    XorZero(v);
  }

  lemma OddMentions(k: nat, d: nat, t: nat, r: nat, v: Block)
    ensures Toggle(Mentions(k, d, t, r), v) == if Names(k, r, d, t) != Names(k, r, k, t) then v else 0
  {
    hide Names;
  }

  /** A write keeps the strip a codeword if and only if the block it overwrites was zero:
      the old contents are never taken out of P and Q. */
  lemma OverwriteKeepsCodeIffFresh(k: nat, c: seq<Column>, d: nat, t: nat, v: Block)
    requires IsCodeword(k, c) && d < k && t < Pow2(k)
    ensures IsCodeword(k, Overwritten(k, c, d, t, v, MentionList(k, d, t))) <==> c[d][t] == 0
  {
    hide Xor, QRow, RowXor, Toggle, Mentions;
    var m := MentionList(k, d, t);
    var e := Overwritten(k, c, d, t, v, m);
    PWithoutQ(k, c);
    PWithoutQ(k, e);
    PKeptIffFresh(k, c, d, t, v, m);
    if c[d][t] == 0 {
      FreshOverwriteIsAdding(k, c, d, t, v);
      var p, q := c[k + 1], e[k + 1];
      forall r | 0 <= r < |q| ensures q[r] == QValue(k, r, e[..k + 1]) {
        QRowAdd(k, r, c[..k + 1], e[..k + 1], d, t, v, k + 1);
        OddMentions(k, d, t, r, v);
        assert p[r] == QValue(k, r, c[..k + 1]);
      }
    }
  }

  lemma PWithoutQ(k: nat, c: seq<Column>)
    requires IsFullStripe(k, c)
    ensures ParityOk(k, c[..k + 1]) <==> RowsAddUp(k, Pow2(k), c)
  {
    hide Xor;
    forall i | 0 <= i < Pow2(k) ensures RowXor(c[..k + 1], k, i) == RowXor(c, k, i) {
      Blocks.RowXorAgree(c[..k + 1], c, k, i);
    }
    assert c[..k + 1][k] == c[k];
  }

  // ---- Whole disks ----

  ghost function Code(k: nat): seq<Column> -> bool {
    c => IsCodeword(k, c)
  }

  /** A write keeps all strips codewords exactly when it overwrites a zero block. */
  lemma WriteKeepsCodeIffFresh(k: nat, len: nat, before: seq<Column>, after: seq<Column>, d: nat, b: nat, v: Block)
    requires IsArray(k, Pow2(k), before, len) && IsArray(k, Pow2(k), after, len) && d < k && b < len
    requires Coded(Code(k), k, Pow2(k), before, len)
    requires WrittenAt(k, len, before, after, d, b, v, MentionList(k, d, b % Pow2(k)))
    ensures Coded(Code(k), k, Pow2(k), after, len) <==> before[d][b] == 0
  {
    hide IsCodeword, Mentions, WrittenAt, Coded, Overwritten;
    var n := Pow2(k);
    StripBounds(b, n, len);
    StripCoded(k, before, len, b);
    var c := Strip(before, Base(b, n), n);
    OverwriteKeepsCodeIffFresh(k, c, d, b % n, v);
    CodeKeptIffFresh(Code(k), k, len, before, after, d, b, v, MentionList(k, d, b % n), before[d][b] == 0);
  }

  lemma StripCoded(k: nat, disks: seq<Column>, len: nat, b: nat)
    requires Coded(Code(k), k, Pow2(k), disks, len) && b < len
    ensures Base(b, Pow2(k)) + Pow2(k) <= len && CodedAt(Code(k), k, Pow2(k), disks, len, b)
    ensures IsCodeword(k, Strip(disks, Base(b, Pow2(k)), Pow2(k)))
  {
    StripBounds(b, Pow2(k), len);
    assert CodedAt(Code(k), k, Pow2(k), disks, len, b);
  }

  lemma {:induction false} ZeroQ(k: nat, r: nat, a: seq<Column>, n: nat)
    requires n <= |a| && forall j, t :: 0 <= j < n && 0 <= t < |a[j]| ==> a[j][t] == 0
    ensures QRow(k, r, a, n) == 0
  {
    XorZero(0);
    if n > 0 {
      ZeroQ(k, r, a, n - 1);
      NamedOfNothing(k, r, n - 1, a[n - 1], |a[n - 1]|);
    }
  }

  /** Empty disks hold codewords. */
  lemma EmptyIsCoded(k: nat, disks: seq<Column>, len: nat)
    requires IsArray(k, Pow2(k), disks, len) && forall j, b :: 0 <= j < k + 2 && 0 <= b < len ==> disks[j][b] == 0
    ensures Coded(Code(k), k, Pow2(k), disks, len)
  {
    hide QRow, RowXor, Base;
    forall b | 0 <= b < len ensures CodedAt(Code(k), k, Pow2(k), disks, len, b) {
      StripBounds(b, Pow2(k), len);
      var c := Strip(disks, Base(b, Pow2(k)), Pow2(k));
      var a, p, q := c[..k + 1], c[k], c[k + 1];
      forall t | 0 <= t < |p| ensures p[t] == RowXor(a, k, t) { ZeroRow(a, k, t); }
      forall r | 0 <= r < |q| ensures q[r] == QValue(k, r, a) { ZeroQ(k, r, a, k + 1); }
    }
  }

  /** The block writes of encode, for the Q blocks that the matrix names. */
  method StoreNamed(nc: DiskArray, k: nat, n: nat, d: nat, b: nat, buf: Block, rows: seq<nat>)
    requires nc.Valid() && nc.total == k + 2 && n == Pow2(k) && nc.len % n == 0 && d < k && b < nc.len
    requires forall j :: 0 <= j < nc.total ==> !nc.failed[j]
    requires NamesEach(rows, MentionList(k, d, b % n))
    modifies nc`disks, nc`readLog
    ensures nc.Valid() && IsArray(k, n, nc.disks, nc.len)
    ensures WrittenAt(k, nc.len, old(nc.disks), nc.disks, d, b, buf, MentionList(k, d, b % n))
    ensures OnlyWritten(k, nc.len, old(nc.disks), nc.disks, d, b, buf)
    ensures ParityAdded(k, n, nc.len, old(nc.disks), nc.disks, d, b, buf)
    ensures old(Coded(Code(k), k, n, nc.disks, nc.len)) ==>
      (Coded(Code(k), k, n, nc.disks, nc.len) <==> old(nc.disks)[d][b] == 0)
  {
    hide WrittenAt, MentionList, Coded, Code, Pow2, OnlyWritten, ParityAdded, NamesEach;
    ghost var before := nc.disks;
    ghost var m := MentionList(k, d, b % n);
    StoreAt(nc, n, d, b, buf, rows, m);
    DataWritten(k, nc.len, before, nc.disks, d, b, buf, m);
    ParityStored(k, n, nc.len, before, nc.disks, d, b, buf);
    if Coded(Code(k), k, n, before, nc.len) {
      WriteKeepsCodeIffFresh(k, nc.len, before, nc.disks, d, b, buf);
    }
  }
}
