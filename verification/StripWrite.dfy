/** Writing one block of a striped array with P and Q disks: what every code's encode does,
    whichever Q blocks its own equations make it touch; and reading around one failed disk. */
module StripWrite {
  import opened Bits
  import opened Blocks
  import opened IntMod
  import opened Diagonals
  import opened Ncfs

  /** Adding v to block t of a column. */
  function Add(col: Column, t: nat, v: Block): (r: Column)
    requires t < |col|
    ensures |r| == |col| && r[t] == Xor(col[t], v) && forall i :: 0 <= i < |r| && i != t ==> r[i] == col[i]
  {
    col[..t] + [Xor(col[t], v)] + col[t + 1..]
  }

  /** A column after v has been added m[r] times to each block r. */
  function AddTimes(col: Column, m: seq<nat>, v: Block): (r: Column)
    requires |m| == |col|
    ensures |r| == |col| && forall i :: 0 <= i < |r| ==> r[i] == Xor(col[i], Toggle(m[i], v))
  {
    seq(|col|, i requires 0 <= i < |col| => Xor(col[i], Toggle(m[i], v)))
  }

  /** A strip after v has been written over block t of data column d: the data block is
      replaced, v is added to the P block of the row, and m[r] times to Q block r. */
  function Overwritten(k: nat, c: seq<Column>, d: nat, t: nat, v: Block, m: seq<nat>): (e: seq<Column>)
    requires IsMatrix(c, |m|, k + 2) && d < k && t < |m|
    ensures IsMatrix(e, |m|, k + 2)
    ensures forall j, i :: 0 <= j < k + 2 && 0 <= i < |m| ==>
      e[j][i] ==
        if j == d then (if i == t then v else c[j][i])
        else if j == k then (if i == t then Xor(c[j][i], v) else c[j][i])
        else if j == k + 1 then Xor(c[j][i], Toggle(m[i], v))
        else c[j][i]
  {
    hide Xor, Toggle;
    var data: Column := c[d][..t] + [v] + c[d][t + 1..];
    var e := c[d := data][k := Add(c[k], t, v)][k + 1 := AddTimes(c[k + 1], m, v)];
    assert forall j :: 0 <= j < k + 2 && j != d && j != k && j != k + 1 ==> e[j] == c[j];
    e
  }

  // ---- The P equation ----

  ghost predicate RowsAddUp(k: nat, n: nat, c: seq<Column>)
    requires IsMatrix(c, n, k + 2)
  {
    var p := c[k];
    forall i :: 0 <= i < n ==> p[i] == RowXor(c, k, i)
  }

  lemma {:induction false} RowXorAdd(k: nat, rows: nat, a: seq<Column>, b: seq<Column>,
    d: nat, t: nat, x: Block, n: nat, i: nat)
    requires IsMatrix(a, rows, k + 2) && IsMatrix(b, rows, k + 2) && d < k && t < rows && n <= k && i < rows
    requires forall j, u :: 0 <= j < k && 0 <= u < rows ==>
      b[j][u] == if j == d && u == t then Xor(a[j][u], x) else a[j][u]
    ensures RowXor(b, n, i) == Xor(RowXor(a, n, i), if d < n && i == t then x else 0)
  {
    hide Xor;
    if n == 0 {
      XorZero(0);
    } else {
      RowXorAdd(k, rows, a, b, d, t, x, n - 1, i);
      var s, y := RowXor(a, n - 1, i), a[n - 1][i];
      XorZero(s);
      XorZero(Xor(s, y));
      if d == n - 1 { XorAssoc(s, y, x); } else { XorRight(s, x, y); }
    }
  }

  /** The write keeps the P equation exactly when it overwrites a zero block: the old
      contents are never taken out of P. */
  lemma PKeptIffFresh(k: nat, c: seq<Column>, d: nat, t: nat, v: Block, m: seq<nat>)
    requires IsMatrix(c, |m|, k + 2) && d < k && t < |m| && RowsAddUp(k, |m|, c)
    ensures RowsAddUp(k, |m|, Overwritten(k, c, d, t, v, m)) <==> c[d][t] == 0
  {
    hide Xor, RowXor, Toggle;
    var e := Overwritten(k, c, d, t, v, m);
    var x := Xor(c[d][t], v);
    var p, q := c[k], e[k];
    XorCancel(v, c[d][t]);
    forall i | 0 <= i < |m| ensures RowXor(e, k, i) == Xor(p[i], if i == t then x else 0) {
      RowXorAdd(k, |m|, c, e, d, t, x, k, i);
      assert p[i] == RowXor(c, k, i);
      XorZero(p[i]);
    }
    forall i | 0 <= i < |m| && i != t ensures q[i] == RowXor(e, k, i) { XorZero(p[i]); }
    assert q[t] == Xor(p[t], v);
    if c[d][t] == 0 { XorZero(v); }
    if Xor(p[t], v) == Xor(p[t], x) {
      XorCancel(v, p[t]);
      XorCancel(x, p[t]);
      XorCancel(c[d][t], v);
      XorZero(v);
    }
  }

  // ---- Blocks of the disks ----

  ghost predicate IsArray(k: nat, n: nat, disks: seq<Column>, len: nat) {
    n > 0 && len % n == 0 && IsMatrix(disks, len, k + 2)
  }

  /** after is before with v written over block b of data disk d, P and Q included. */
  ghost predicate WrittenAt(
      k: nat, len: nat, before: seq<Column>, after: seq<Column>, d: nat, b: nat, v: Block, m: seq<nat>)
    requires IsArray(k, |m|, before, len) && IsArray(k, |m|, after, len) && d < k && b < len
  {
    StripBounds(b, |m|, len);
    var base := Base(b, |m|);
    Strip(after, base, |m|) == Overwritten(k, Strip(before, base, |m|), d, b % |m|, v, m) &&
    forall j, i :: 0 <= j < k + 2 && 0 <= i < len && !(base <= i < base + |m|) ==> after[j][i] == before[j][i]
  }

  /** A column after v has been added in turn to each of the listed rows past base. */
  function Toggled(col: Column, base: nat, rows: seq<nat>, v: Block): (r: Column)
    requires forall i :: 0 <= i < |rows| ==> base + rows[i] < |col|
    ensures |r| == |col|
  {
    if rows == [] then col
    else Add(Toggled(col, base, rows[..|rows| - 1], v), base + rows[|rows| - 1], v)
  }

  lemma {:induction false} ToggledAt(col: Column, base: nat, rows: seq<nat>, v: Block, b: nat)
    requires b < |col| && forall i :: 0 <= i < |rows| ==> base + rows[i] < |col|
    ensures Toggled(col, base, rows, v)[b] ==
      Xor(col[b], Toggle(if b >= base then multiset(rows)[b - base] else 0, v))
  {
    hide Xor, Toggle, Add;
    if rows == [] {
      NoToggle(col[b], v);
    } else {
      var init, last := rows[..|rows| - 1], rows[|rows| - 1];
      assert rows == init + [last];
      ToggledAt(col, base, init, v, b);
      if b == base + last { ToggleOnce(col[b], multiset(init)[last], v); }
    }
  }

  /** The list of Q rows to update names each row r m[r] times, and no other row. */
  ghost predicate NamesEach(rows: seq<nat>, m: seq<nat>) {
    (forall i :: 0 <= i < |rows| ==> rows[i] < |m|) &&
    forall r: nat :: multiset(rows)[r] == if r < |m| then m[r] else 0
  }

  /** The three writes of encode, disk by disk. */
  ghost predicate EncodedBy(
      k: nat, len: nat, before: seq<Column>, after: seq<Column>, d: nat, b: nat, v: Block, m: seq<nat>, rows: seq<nat>)
    requires IsArray(k, |m|, before, len) && IsArray(k, |m|, after, len) && d < k && b < len && NamesEach(rows, m)
  {
    StripBounds(b, |m|, len);
    (forall j :: 0 <= j < k && j != d ==> after[j] == before[j]) &&
    after[d][b] == v && (forall i :: 0 <= i < len && i != b ==> after[d][i] == before[d][i]) &&
    after[k] == Add(before[k], b, v) &&
    after[k + 1] == Toggled(before[k + 1], Base(b, |m|), rows, v)
  }

  lemma EncodeOutside(
      k: nat, len: nat, before: seq<Column>, after: seq<Column>, d: nat, b: nat, v: Block, m: seq<nat>, rows: seq<nat>,
      j: nat, i: nat)
    requires IsArray(k, |m|, before, len) && IsArray(k, |m|, after, len) && d < k && b < len && NamesEach(rows, m)
    requires EncodedBy(k, len, before, after, d, b, v, m, rows)
    requires j < k + 2 && i < len && !(Base(b, |m|) <= i < Base(b, |m|) + |m|)
    ensures after[j][i] == before[j][i]
  {
    hide Xor, Toggle, Base, Toggled;
    StripBounds(b, |m|, len);
    if j == k + 1 {
      ToggledAt(before[j], Base(b, |m|), rows, v, i);
      NoToggle(before[j][i], v);
    }
  }

  lemma EncodeInside(
      k: nat, len: nat, before: seq<Column>, after: seq<Column>, d: nat, b: nat, v: Block, m: seq<nat>, rows: seq<nat>,
      j: nat, i: nat)
    requires IsArray(k, |m|, before, len) && IsArray(k, |m|, after, len) && d < k && b < len && NamesEach(rows, m)
    requires EncodedBy(k, len, before, after, d, b, v, m, rows) && j < k + 2 && i < |m|
    ensures Base(b, |m|) + |m| <= len
    ensures after[j][Base(b, |m|) + i] ==
      Overwritten(k, Strip(before, Base(b, |m|), |m|), d, b % |m|, v, m)[j][i]
  {
    hide Xor, Toggle, Base, Toggled, Overwritten, AddTimes;
    StripBounds(b, |m|, len);
    if j == k + 1 { ToggledAt(before[j], Base(b, |m|), rows, v, Base(b, |m|) + i); }
    InsidePlaced(k, len, before, after, d, Base(b, |m|), b % |m|, v, m, rows, j, i);
  }

  lemma InsidePlaced(
      k: nat, len: nat, before: seq<Column>, after: seq<Column>, d: nat, base: nat, t: nat, v: Block, m: seq<nat>,
      rows: seq<nat>, j: nat, i: nat)
    requires IsMatrix(before, len, k + 2) && IsMatrix(after, len, k + 2) && d < k && t < |m| && base + |m| <= len
    requires j < k + 2 && i < |m|
    requires forall c :: 0 <= c < k && c != d ==> after[c] == before[c]
    requires after[d][base + t] == v && forall x :: 0 <= x < len && x != base + t ==> after[d][x] == before[d][x]
    requires after[k] == Add(before[k], base + t, v)
    requires j == k + 1 ==> after[j][base + i] == Xor(before[j][base + i], Toggle(m[i], v))
    ensures after[j][base + i] == Overwritten(k, Strip(before, base, |m|), d, t, v, m)[j][i]
  {
    hide Xor, Toggle, Toggled, AddTimes;
  }

  lemma SameColumns(x: seq<Column>, y: seq<Column>)
    requires |x| == |y|
    requires forall j :: 0 <= j < |x| ==> |x[j]| == |y[j]|
    requires forall j, i :: 0 <= j < |x| && 0 <= i < |x[j]| ==> x[j][i] == y[j][i]
    ensures x == y
  {
    forall j | 0 <= j < |x| ensures x[j] == y[j] {}
  }

  /** The writes of encode, taken together. */
  lemma EncodeWrites(
      k: nat, len: nat, before: seq<Column>, after: seq<Column>, d: nat, b: nat, v: Block, m: seq<nat>, rows: seq<nat>)
    requires IsArray(k, |m|, before, len) && IsArray(k, |m|, after, len) && d < k && b < len && NamesEach(rows, m)
    requires EncodedBy(k, len, before, after, d, b, v, m, rows)
    ensures WrittenAt(k, len, before, after, d, b, v, m)
  {
    hide Xor, Toggle, Base, Toggled, Overwritten, EncodedBy, NamesEach;
    StripBounds(b, |m|, len);
    var base := Base(b, |m|);
    forall j, i | 0 <= j < k + 2 && 0 <= i < len && !(base <= i < base + |m|) ensures after[j][i] == before[j][i] {
      EncodeOutside(k, len, before, after, d, b, v, m, rows, j, i);
    }
    var x, y := Strip(after, base, |m|), Overwritten(k, Strip(before, base, |m|), d, b % |m|, v, m);
    forall j, i | 0 <= j < k + 2 && 0 <= i < |m| ensures x[j][i] == y[j][i] {
      EncodeInside(k, len, before, after, d, b, v, m, rows, j, i);
    }
    SameColumns(x, y);
  }

  /** The parity blocks after such a write, block by block. */
  lemma ParityWritten(
      k: nat, len: nat, before: seq<Column>, after: seq<Column>, d: nat, b: nat, v: Block, m: seq<nat>)
    requires IsArray(k, |m|, before, len) && IsArray(k, |m|, after, len) && d < k && b < len
    requires WrittenAt(k, len, before, after, d, b, v, m)
    ensures
      var base, p, q := Base(b, |m|), after[k], after[k + 1];
      (forall i :: 0 <= i < len ==> p[i] == if i == b then Xor(before[k][i], v) else before[k][i]) &&
      forall i :: 0 <= i < len ==>
        q[i] == if base <= i < base + |m| then Xor(before[k + 1][i], Toggle(m[i - base], v)) else before[k + 1][i]
  {
    StripBounds(b, |m|, len);
    ParityPlaced(k, len, before, after, d, Base(b, |m|), b % |m|, v, m);
  }

  /** A Q block after its update, for the rows that are updated an odd number of times. */
  lemma ParityToggled(was: Column, now: Column, base: nat, m: seq<nat>, hit: seq<bool>, v: Block)
    requires |was| == |now| && base + |m| <= |was| && |hit| == |m|
    requires forall i :: 0 <= i < |was| ==>
      now[i] == if base <= i < base + |m| then Xor(was[i], Toggle(m[i - base], v)) else was[i]
    requires forall r :: 0 <= r < |m| ==> Toggle(m[r], v) == if hit[r] then v else 0
    ensures forall i :: 0 <= i < |was| ==>
      now[i] == if base <= i < base + |m| && hit[i - base] then Xor(was[i], v) else was[i]
  {
    hide Xor, Toggle;
    forall i | 0 <= i < |was|
      ensures now[i] == if base <= i < base + |m| && hit[i - base] then Xor(was[i], v) else was[i]
    {
      XorZero(was[i]);
    }
  }

  lemma ParityPlaced(
      k: nat, len: nat, before: seq<Column>, after: seq<Column>, d: nat, base: nat, t: nat, v: Block, m: seq<nat>)
    requires IsMatrix(before, len, k + 2) && IsMatrix(after, len, k + 2) && d < k && t < |m| && base + |m| <= len
    requires Strip(after, base, |m|) == Overwritten(k, Strip(before, base, |m|), d, t, v, m)
    requires forall j, i :: 0 <= j < k + 2 && 0 <= i < len && !(base <= i < base + |m|) ==> after[j][i] == before[j][i]
    ensures
      var p, q := after[k], after[k + 1];
      (forall i :: 0 <= i < len ==> p[i] == if i == base + t then Xor(before[k][i], v) else before[k][i]) &&
      forall i :: 0 <= i < len ==>
        q[i] == if base <= i < base + |m| then Xor(before[k + 1][i], Toggle(m[i - base], v)) else before[k + 1][i]
  {
    hide Xor, Toggle;
    var p, q := after[k], after[k + 1];
    var c := Overwritten(k, Strip(before, base, |m|), d, t, v, m);
    forall i | base <= i < base + |m| ensures p[i] == c[k][i - base] && q[i] == c[k + 1][i - base] {
      assert p[i] == Strip(after, base, |m|)[k][i - base];
      assert q[i] == Strip(after, base, |m|)[k + 1][i - base];
    }
  }

  /** The block writes of encode: P, then the listed Q blocks of the strip, then the data block. */
  method StoreAt(nc: DiskArray, n: nat, d: nat, b: nat, buf: Block, rows: seq<nat>, ghost m: seq<nat>)
    requires nc.Valid() && n > 0 && nc.len % n == 0 && d < nc.total - 2 && b < nc.len
    requires forall j :: 0 <= j < nc.total ==> !nc.failed[j]
    requires |m| == n && NamesEach(rows, m)
    modifies nc`disks, nc`readLog
    ensures nc.Valid() && WrittenAt(nc.total - 2, nc.len, old(nc.disks), nc.disks, d, b, buf, m)
  {
    hide Xor, Toggle, Toggled, Base, WrittenAt;
    StripBounds(b, n, nc.len);
    var k := nc.total - 2;
    ghost var before := nc.disks;
    var bufP := nc.ReadDisk(k, b);
    nc.WriteDisk(k, b, Xor(bufP, buf));
    assert nc.disks[k] == Add(before[k], b, buf);
    UpdateQ(nc, n, Base(b, n), rows, buf);
    nc.WriteDisk(d, b, buf);
    EncodeWrites(k, nc.len, before, nc.disks, d, b, buf, m, rows);
  }

  /** Adds buf to each listed row of the strip of Q that starts at base. */
  method UpdateQ(nc: DiskArray, n: nat, base: nat, rows: seq<nat>, buf: Block)
    requires nc.Valid() && base + n <= nc.len && !nc.failed[nc.total - 1]
    requires forall i :: 0 <= i < |rows| ==> rows[i] < n
    modifies nc`disks, nc`readLog
    ensures nc.Valid() && forall j :: 0 <= j < nc.total - 1 ==> nc.disks[j] == old(nc.disks)[j]
    ensures nc.disks[nc.total - 1] == Toggled(old(nc.disks)[nc.total - 1], base, rows, buf)
  {
    var q := nc.total - 1;
    ghost var col := nc.disks[q];
    for i := 0 to |rows|
      invariant nc.Valid() && forall j :: 0 <= j < q ==> nc.disks[j] == old(nc.disks)[j]
      invariant nc.disks[q] == Toggled(col, base, rows[..i], buf)
    {
      assert rows[..i + 1][..i] == rows[..i];
      var bufQ := nc.ReadDisk(q, base + rows[i]);
      nc.WriteDisk(q, base + rows[i], Xor(bufQ, buf));
    }
    assert rows[..|rows|] == rows;
  }

  // ---- Whole disks: every strip is a codeword of the given code ----

  /** The strip that block b lies in is a codeword. */
  ghost predicate CodedAt(code: seq<Column> -> bool, k: nat, n: nat, disks: seq<Column>, len: nat, b: nat)
    requires IsArray(k, n, disks, len) && b < len
  {
    StripBounds(b, n, len);
    code(Strip(disks, Base(b, n), n))
  }

  ghost predicate Coded(code: seq<Column> -> bool, k: nat, n: nat, disks: seq<Column>, len: nat) {
    IsArray(k, n, disks, len) && forall b :: 0 <= b < len ==> CodedAt(code, k, n, disks, len, b)
  }

  /** A write changes one data block and no other. */
  lemma DataAfterWrite(
      k: nat, len: nat, before: seq<Column>, after: seq<Column>, d: nat, b: nat, v: Block, m: seq<nat>, j: nat, i: nat)
    requires IsArray(k, |m|, before, len) && IsArray(k, |m|, after, len) && d < k && b < len
    requires WrittenAt(k, len, before, after, d, b, v, m) && j < k && i < len
    ensures after[j][i] == if j == d && i == b then v else before[j][i]
  {
    hide Xor, Toggle, Base;
    StripBounds(b, |m|, len);
    var base := Base(b, |m|);
    if base <= i < base + |m| {
      var x, t := Strip(before, base, |m|), i - base;
      assert Strip(after, base, |m|)[j][t] == after[j][i] && x[j][t] == before[j][i];
      assert Overwritten(k, x, d, b % |m|, v, m)[j][t] == if j == d && t == b % |m| then v else x[j][t];
    }
  }

  lemma DataWritten(
      k: nat, len: nat, before: seq<Column>, after: seq<Column>, d: nat, b: nat, v: Block, m: seq<nat>)
    requires IsArray(k, |m|, before, len) && IsArray(k, |m|, after, len) && d < k && b < len
    requires WrittenAt(k, len, before, after, d, b, v, m)
    ensures OnlyWritten(k, len, before, after, d, b, v)
  {
    hide WrittenAt;
    forall j, i | 0 <= j < k && 0 <= i < len ensures after[j][i] == if j == d && i == b then v else before[j][i] {
      DataAfterWrite(k, len, before, after, d, b, v, m, j, i);
    }
  }

  /** A write does to all the strips on the disks what it does to its own: if a fresh write,
      and only a fresh write, keeps the strip a codeword, then the same holds of the disks. */
  lemma CodeKeptIffFresh(
      code: seq<Column> -> bool, k: nat, len: nat, before: seq<Column>, after: seq<Column>, d: nat, b: nat, v: Block,
      m: seq<nat>, kept: bool)
    requires Coded(code, k, |m|, before, len) && IsArray(k, |m|, after, len) && d < k && b < len
    requires WrittenAt(k, len, before, after, d, b, v, m)
    requires Base(b, |m|) + |m| <= len
    requires code(Overwritten(k, Strip(before, Base(b, |m|), |m|), d, b % |m|, v, m)) == kept
    ensures Coded(code, k, |m|, after, len) == kept
  {
    hide Overwritten, Xor;
    var n, base := |m|, Base(b, |m|);
    StripBounds(b, n, len);
    assert CodedAt(code, k, n, after, len, b) == kept;
    if kept {
      forall c | 0 <= c < len ensures CodedAt(code, k, n, after, len, c) {
        var other := Base(c, n);
        StripBounds(c, n, len);
        assert CodedAt(code, k, n, before, len, c);
        if other != base {
          BasesApart(b, c, n);
          SameColumns(Strip(after, other, n), Strip(before, other, n));
        }
      }
    }
  }

  // ---- Reading a block of the one failed disk from the others ----

  /** When the rows add up, every data or P column is the XOR of the others. */
  lemma RowOfOthers(k: nat, n: nat, c: seq<Column>, id: nat, i: nat)
    requires IsMatrix(c, n, k + 2) && RowsAddUp(k, n, c) && id <= k && i < n
    ensures RowXorBut(c, id, k + 1, i) == c[id][i]
  {
    hide Xor;
    var p := c[k];
    RowXorButOne(c, id, k + 1, i);
    assert p[i] == RowXor(c, k, i);
    XorZero(RowXor(c, k, i));
    XorZero(c[id][i]);
  }

  lemma RowRebuilds(k: nat, n: nat, disks: seq<Column>, len: nat, d: nat, b: nat)
    requires IsArray(k, n, disks, len) && d <= k && b < len && Base(b, n) + n <= len
    requires RowsAddUp(k, n, Strip(disks, Base(b, n), n))
    ensures Xor(0, RowXorBut(disks, d, k + 1, b)) == disks[d][b]
  {
    hide Xor, RowXor, RowXorBut, Base;
    StripBounds(b, n, len);
    XorZero(RowXorBut(disks, d, k + 1, b));
    StripRowXorBut(disks, Base(b, n), n, d, k + 1, b % n);
    RowOfOthers(k, n, Strip(disks, Base(b, n), n), d, b % n);
  }

  /** The XOR of the listed blocks of the strip at base, none of them on disk d. */
  method XorListed(nc: DiskArray, d: nat, base: nat, n: nat, cells: seq<Elem>) returns (buf: Block)
    requires nc.Valid() && nc.OnlyFailed(d) && base + n <= nc.len
    requires forall i :: 0 <= i < |cells| ==> cells[i].row < n && cells[i].col < nc.total && cells[i].col != d
    modifies nc`readLog
    ensures buf == XorCells(Strip(nc.disks, base, n), cells)
  {
    hide Xor, XorCells;
    ghost var c := Strip(nc.disks, base, n);
    XorCellsNone(c);
    buf := 0;
    for i := 0 to |cells|
      invariant buf == XorCells(c, cells[..i])
    {
      var temp := nc.ReadDisk(cells[i].col, base + cells[i].row);
      XorCellsAppend(c, cells[..i], cells[i]);
      assert cells[..i + 1] == cells[..i] + [cells[i]];
      buf := Xor(buf, temp);
    }
    assert cells[..|cells|] == cells;
  }

  lemma {:induction false} ZeroRow(a: seq<Column>, n: nat, t: nat)
    requires n <= |a| && forall j :: 0 <= j < n ==> t < |a[j]| && a[j][t] == 0
    ensures RowXor(a, n, t) == 0
  {
    XorZero(0);
    if n > 0 { ZeroRow(a, n - 1, t); }
  }
}
