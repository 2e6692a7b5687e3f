/** The wrap-around diagonals of SRC: segments of f + 1 rows whose last row holds the XOR of f
    blocks, one in each other row, each on the next disk. */
module SrcCode {
  import opened Bits
  import opened Blocks
  import opened IntMod

  /** Rows are numbered physically: segment g has rows (f+1) g to (f+1) g + f. */
  function Row(f: nat, g: nat, r: nat): nat {
    MulNonNegative(g, f);
    (f + 1) * g + r
  }

  lemma RowParts(f: nat, g: nat, r: nat)
    requires r <= f
    ensures Quotient(Row(f, g, r), f + 1) == g && Remainder(Row(f, g, r), f + 1) == r
  {
    DivMod(Row(f, g, r), g, r, f + 1);
  }

  lemma RowsApart(f: nat, g: nat, q: nat, h: nat, r: nat)
    requires q <= f && r <= f && Row(f, g, q) == Row(f, h, r)
    ensures g == h && q == r
  {
    hide Row, Quotient, Remainder;
    RowParts(f, g, q);
    RowParts(f, h, r);
  }

  lemma RowOfParts(f: nat, b: nat)
    ensures b == Row(f, Quotient(b, f + 1), Remainder(b, f + 1))
  {
    hide Quotient, Remainder;
    Parts(b, f + 1);
  }

  /** The row in which logical block b of a disk is stored: the SRC rows are left out. */
  function Physical(f: nat, b: nat): nat
    requires f > 0
  {
    b + Quotient(b, f)
  }

  lemma PhysicalIsRow(f: nat, b: nat)
    requires f > 0
    ensures Physical(f, b) == Row(f, Quotient(b, f), Remainder(b, f))
  {
    hide Quotient, Remainder;
    Parts(b, f);
    OneMoreTimes(f, Quotient(b, f));
  }

  lemma OneMoreTimes(f: nat, g: nat)
    ensures (f + 1) * g == g * f + g
  {
  }

  /** A segment that begins on the disk ends on it. */
  lemma SegmentInside(f: nat, g: nat, r: nat, q: nat, len: nat)
    requires Remainder(len, f + 1) == 0 && q <= f && Row(f, g, r) < len
    ensures Row(f, g, q) < len
  {
    hide Quotient, Remainder;
    var m := Quotient(len, f + 1);
    Parts(len, f + 1);
    if g >= m { MulNonNegative(g - m, f + 1); } else { MulNonNegative(m - g - 1, f + 1); }
    assert (f + 1) * (g - m) == (f + 1) * g - m * (f + 1);
    assert (f + 1) * (m - g - 1) == m * (f + 1) - (f + 1) * g - (f + 1);
  }

  /** The next row, in the same segment or at the start of the next one. */
  lemma NextRow(f: nat, row: nat)
    ensures
      var g, r := Quotient(row, f + 1), Remainder(row, f + 1);
      if Remainder(row + 1, f + 1) == 0 then r == f && row + 1 == Row(f, g, 0) + (f + 1)
      else r < f && row + 1 == Row(f, g, r + 1)
  {
    hide Row, Quotient, Remainder;
    var g, r := Quotient(row, f + 1), Remainder(row, f + 1);
    RowOfParts(f, row);
    RowBelow(f, g, r);
    if r < f { RowParts(f, g, r + 1); } else { RowParts(f, g + 1, 0); }
  }

  lemma RowBelow(f: nat, g: nat, r: nat)
    ensures Row(f, g, r) + 1 == Row(f, g, r + 1) && Row(f, g, f) + 1 == Row(f, g + 1, 0) == Row(f, g, 0) + (f + 1)
  {
    assert (f + 1) * (g + 1) == (f + 1) * g + (f + 1);
  }

  /** The disk of the row r member of diagonal c; its SRC block is on disk c in row f. */
  function Member(n: nat, f: nat, c: nat, r: nat): (d: nat)
    requires n > 0
    ensures d < n
  {
    Remainder(c + f - r, n)
  }

  /** The diagonal of a block in row r of disk d, as encode computes it. */
  function SrcDisk(n: nat, f: nat, d: nat, r: nat): (c: nat)
    requires n > 0
    ensures c < n
  {
    Remainder(d - f + r + n, n)
  }

  /** The SRC block of diagonal c is on disk c. */
  lemma SrcMember(n: nat, f: nat, c: nat)
    requires c < n
    ensures Member(n, f, c, f) == c
  {
    SmallMod(c, n);
  }

  /** Every block lies on exactly one diagonal. */
  lemma OneDiagonal(n: nat, f: nat, c: nat, d: nat, r: nat)
    requires c < n && d < n
    ensures Member(n, f, c, r) == d <==> SrcDisk(n, f, d, r) == c
  {
    var x, y := c + f - r, d - f + r + n;
    if x % n == d {
      var q := x / n;
      assert x == q * n + d;
      DivMod(y, 1 - q, c, n);
    }
    if y % n == c {
      var q := y / n;
      assert y == q * n + c;
      DivMod(x, 1 - q, d, n);
    }
  }

  /** The members of a diagonal lie on different disks. */
  lemma DifferentDisks(n: nat, f: nat, c: nat, q: nat, r: nat)
    requires f < n && c < n && q < r <= f
    ensures Member(n, f, c, q) != Member(n, f, c, r)
  {
    CloseRemainders(c + f - r, r - q, n);
  }

  /** One disk to the left is the next member. */
  lemma LeftMember(n: nat, f: nat, c: nat, r: nat)
    requires n > 0
    ensures Remainder(Member(n, f, c, r) + n - 1, n) == Member(n, f, c, r + 1)
  {
    hide Remainder;
    RemainderAdd(c + f - r, n - 1, n);
    RemainderTurn(c + f - r - 1, n);
  }

  /** From the SRC block, f disks to the right is the first member. */
  lemma WrapMember(n: nat, f: nat, c: nat)
    requires n > 0
    ensures Remainder(Remainder(Member(n, f, c, f) + n - 1, n) + f + 1, n) == Member(n, f, c, 0)
  {
    hide Member;
    LeftMember(n, f, c, f);
    WrapRight(n, f, c);
  }

  lemma WrapRight(n: nat, f: nat, c: nat)
    requires n > 0
    ensures Remainder(Member(n, f, c, f + 1) + f + 1, n) == Member(n, f, c, 0)
  {
    hide Remainder;
    RemainderAdd(c - 1, f + 1, n);
  }

  /** One disk to the right is the member before. */
  lemma RightMember(n: nat, f: nat, c: nat, r: nat)
    requires n > 0 && r > 0
    ensures Remainder(Member(n, f, c, r) + 1, n) == Member(n, f, c, r - 1)
  {
    hide Remainder;
    RemainderAdd(c + f - r, 1, n);
  }

  ghost predicate IsArray(n: nat, disks: seq<Column>, len: nat) {
    |disks| == n && forall d :: 0 <= d < n ==> |disks[d]| == len
  }

  /** The XOR of the first m members of diagonal c of segment g. */
  function DiagSum(n: nat, f: nat, disks: seq<Column>, len: nat, g: nat, c: nat, m: nat): Block
    requires n > 0 && IsArray(n, disks, len)
  {
    if m == 0 then 0
    else Xor(DiagSum(n, f, disks, len, g, c, m - 1), At(disks, Member(n, f, c, m - 1), Row(f, g, m - 1)))
  }

  function At(disks: seq<Column>, d: nat, b: nat): Block {
    if d < |disks| && b < |disks[d]| then disks[d][b] else 0
  }

  /** The same without row r. */
  function DiagSumBut(n: nat, f: nat, disks: seq<Column>, len: nat, g: nat, c: nat, r: nat, m: nat): Block
    requires n > 0 && IsArray(n, disks, len)
  {
    if m == 0 then 0
    else if m - 1 == r then DiagSumBut(n, f, disks, len, g, c, r, m - 1)
    else Xor(DiagSumBut(n, f, disks, len, g, c, r, m - 1), At(disks, Member(n, f, c, m - 1), Row(f, g, m - 1)))
  }

  lemma {:induction false} DiagSumSplit(n: nat, f: nat, disks: seq<Column>, len: nat, g: nat, c: nat, r: nat, m: nat)
    requires n > 0 && IsArray(n, disks, len)
    ensures DiagSum(n, f, disks, len, g, c, m) ==
      Xor(DiagSumBut(n, f, disks, len, g, c, r, m), if r < m then At(disks, Member(n, f, c, r), Row(f, g, r)) else 0)
  {
    hide Xor, Member, Row;
    XorZero(0);
    if m > 0 {
      DiagSumSplit(n, f, disks, len, g, c, r, m - 1);
      var s, x, y := DiagSumBut(n, f, disks, len, g, c, r, m - 1), At(disks, Member(n, f, c, r), Row(f, g, r)),
        At(disks, Member(n, f, c, m - 1), Row(f, g, m - 1));
      XorZero(s);
      XorZero(Xor(s, y));
      XorRight(s, x, y);
    }
  }

  ghost predicate DiagonalZero(n: nat, f: nat, disks: seq<Column>, len: nat, g: nat, c: nat)
    requires n > 0 && IsArray(n, disks, len)
  {
    DiagSum(n, f, disks, len, g, c, f + 1) == 0
  }

  ghost predicate DiagonalsZero(n: nat, f: nat, disks: seq<Column>, len: nat) {
    0 < n && IsArray(n, disks, len) && forall g: nat, c: nat :: c < n ==> DiagonalZero(n, f, disks, len, g, c)
  }

  /** Any member of a diagonal is the XOR of the others. */
  lemma LostMember(n: nat, f: nat, disks: seq<Column>, len: nat, g: nat, c: nat, r: nat)
    requires DiagonalsZero(n, f, disks, len) && c < n && r <= f
    ensures DiagSumBut(n, f, disks, len, g, c, r, f + 1) == At(disks, Member(n, f, c, r), Row(f, g, r))
  {
    hide Xor, DiagSum, DiagSumBut, Member, Row;
    assert DiagonalZero(n, f, disks, len, g, c);
    DiagSumSplit(n, f, disks, len, g, c, r, f + 1);
    EqualIfXorZero(DiagSumBut(n, f, disks, len, g, c, r, f + 1), At(disks, Member(n, f, c, r), Row(f, g, r)));
  }

  /** after is before with x added to the block in row r of segment g of disk d. */
  ghost predicate AddedAt(
      n: nat, f: nat, len: nat, before: seq<Column>, after: seq<Column>, d: nat, g: nat, r: nat, x: Block) {
    IsArray(n, before, len) && IsArray(n, after, len) && d < n && Row(f, g, r) < len &&
    forall e, b :: 0 <= e < n && 0 <= b < len ==>
      after[e][b] == if e == d && b == Row(f, g, r) then Xor(before[e][b], x) else before[e][b]
  }

  /** Such a change is seen by the diagonal of the block and by no other. */
  lemma {:induction false} DiagSumAdd(
      n: nat, f: nat, len: nat, before: seq<Column>, after: seq<Column>, d: nat, g: nat, r: nat, x: Block, h: nat,
      c: nat, m: nat)
    requires AddedAt(n, f, len, before, after, d, g, r, x) && r <= f && c < n && m <= f + 1
    ensures DiagSum(n, f, after, len, h, c, m) ==
      Xor(DiagSum(n, f, before, len, h, c, m), if h == g && c == SrcDisk(n, f, d, r) && r < m then x else 0)
  {
    hide Xor, Member, Row, SrcDisk;
    XorZero(0);
    if m > 0 {
      DiagSumAdd(n, f, len, before, after, d, g, r, x, h, c, m - 1);
      OneDiagonal(n, f, c, d, m - 1);
      if Row(f, h, m - 1) == Row(f, g, r) { RowsApart(f, h, m - 1, g, r); }
      var s, y := DiagSum(n, f, before, len, h, c, m - 1), At(before, Member(n, f, c, m - 1), Row(f, h, m - 1));
      XorZero(s);
      XorZero(Xor(s, y));
      XorAssoc(s, y, x);
      XorRight(s, x, y);
    }
  }

  /** Adding the same to a block and to its SRC block keeps every diagonal. */
  lemma PairKeepsDiagonals(
      n: nat, f: nat, len: nat, a: seq<Column>, b: seq<Column>, c: seq<Column>, d: nat, g: nat, r: nat, x: Block)
    requires DiagonalsZero(n, f, a, len) && d < n && r < f
    requires AddedAt(n, f, len, a, b, SrcDisk(n, f, d, r), g, f, x) && AddedAt(n, f, len, b, c, d, g, r, x)
    ensures DiagonalsZero(n, f, c, len)
  {
    hide Xor, DiagSum, Member, Row, SrcDisk, AddedAt;
    var e := SrcDisk(n, f, d, r);
    OwnDiagonal(n, f, e);
    ArraysAround(n, f, len, a, b, e, g, f, x);
    ArraysAround(n, f, len, b, c, d, g, r, x);
    XorZero(x);
    XorZero(0);
    forall h: nat, i: nat | i < n ensures DiagonalZero(n, f, c, len, h, i) {
      assert DiagonalZero(n, f, a, len, h, i);
      DiagSumAdd(n, f, len, a, b, e, g, f, x, h, i, f + 1);
      DiagSumAdd(n, f, len, b, c, d, g, r, x, h, i, f + 1);
    }
  }

  lemma ArraysAround(n: nat, f: nat, len: nat, b: seq<Column>, c: seq<Column>, d: nat, g: nat, r: nat, x: Block)
    requires AddedAt(n, f, len, b, c, d, g, r, x)
    ensures IsArray(n, b, len) && IsArray(n, c, len)
  {
  }

  lemma OwnDiagonal(n: nat, f: nat, c: nat)
    requires c < n
    ensures SrcDisk(n, f, c, f) == c && Member(n, f, c, f) == c
  {
    DivMod(c + n, 1, c, n);
    SmallMod(c, n);
  }
}
