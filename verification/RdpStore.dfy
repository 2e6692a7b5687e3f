/** What the RDP layer keeps on disk. Its encode updates only the Q blocks that list the data
    block itself and never those that list the P block of its row, so the stored Q rows are
    the diagonals without their P cell. */
module RdpStore {
  import opened Bits
  import opened Blocks
  import opened Diagonals
  import opened PrimeWalk
  import opened RdpCode
  import opened StripWrite

  /** A strip as encode leaves it. */
  ghost predicate IsStored(k: nat, c: seq<Column>) {
    IsMatrix(c, k, k + 2) && RowsAddUp(k, k, c) &&
    var q := c[k + 1];
    forall l :: 0 <= l < |q| ==> q[l] == XorCells(c, DiagCells(k, l, k))
  }

  /** The P block that diagonal l meets; diagonal k - 1 meets none. */
  function PMet(k: nat, c: seq<Column>, l: nat): Block {
    if l + 1 < k then Cell(c, Elem(l + 1, k)) else 0
  }

  lemma QCellsSum(k: nat, c: seq<Column>, l: nat)
    requires IsMatrix(c, k, k + 2) && l < k
    ensures XorCells(c, QCells(k, l)) == Xor(PMet(k, c, l), XorCells(c, DiagCells(k, l, k)))
  {
    hide Xor, XorCells, RowOn, DiagCells;
    PMeets(k, l);
    var e := Elem(l + 1, k);
    var head := if e.row < k then [e] else [];
    XorCellsConcat(c, head, DiagCells(k, l, k));
    HeadSum(k, c, e, head);
  }

  /** A stored strip is RDP exactly when the P blocks that lie on diagonals are all zero. */
  lemma StoredIsCodewordIff(k: nat, c: seq<Column>)
    requires IsStored(k, c)
    ensures IsCodeword(k, c) <==> forall i :: 1 <= i < k ==> c[k][i] == 0
  {
    hide Xor, XorCells, DiagCells, QCells;
    var p, q := c[k], c[k + 1];
    forall l | 0 <= l < k
      ensures q[l] == XorCells(c, QCells(k, l)) <==> PMet(k, c, l) == 0
    {
      assert q[l] == XorCells(c, DiagCells(k, l, k));
      QCellsSum(k, c, l);
      XorZero(q[l]);
      if Xor(PMet(k, c, l), q[l]) == q[l] { XorCancel(PMet(k, c, l), q[l]); }
    }
    if IsCodeword(k, c) {
      forall i | 1 <= i < k ensures p[i] == 0 { assert PMet(k, c, i - 1) == 0; }
    }
  }

  // ---- Writes ----

  /** How often encode updates Q block r for a write to block t of data disk d: as often as
      diagonal r lists the data cell. */
  function MentionList(k: nat, d: nat, t: nat): (m: seq<nat>)
    ensures |m| == k && forall r :: 0 <= r < |m| ==> m[r] == multiset(DiagCells(k, r, k))[Elem(t, d)]
  {
    seq(k, r requires 0 <= r < k => multiset(DiagCells(k, r, k))[Elem(t, d)])
  }

  /** The table lists no other data cell than the diagonal does. */
  lemma DataMentions(k: nat, r: nat, e: Elem)
    requires e.col < k
    ensures multiset(QCells(k, r))[e] == multiset(DiagCells(k, r, k))[e]
  {
    hide RowOn, DiagCells;
    var first := RowOn(k + 1, r, k);
    var head := if first < k then [Elem(first, k)] else [];
    assert QCells(k, r) == head + DiagCells(k, r, k);
    assert multiset(head)[e] == 0;
  }

  /** A write keeps a strip as encode means to leave it if and only if the block it overwrites
      was zero. */
  lemma OverwriteKeepsStoredIffFresh(k: nat, c: seq<Column>, d: nat, t: nat, v: Block)
    requires IsStored(k, c) && d < k && t < k
    ensures IsStored(k, Overwritten(k, c, d, t, v, MentionList(k, d, t))) <==> c[d][t] == 0
  {
    hide Xor, XorCells, RowXor, Toggle, DiagCells;
    var m := MentionList(k, d, t);
    var e := Overwritten(k, c, d, t, v, m);
    PKeptIffFresh(k, c, d, t, v, m);
    if c[d][t] == 0 {
      var p, q := c[k + 1], e[k + 1];
      XorZero(v);
      forall r | 0 <= r < |q| ensures q[r] == XorCells(e, DiagCells(k, r, k)) {
        DiagCellsInData(k, r);
        XorCellsAdd(c, e, k, k + 2, k, Elem(t, d), v, DiagCells(k, r, k));
        assert p[r] == XorCells(c, DiagCells(k, r, k));
      }
    }
  }

  lemma DiagCellsInData(k: nat, l: nat)
    ensures forall i :: 0 <= i < |DiagCells(k, l, k)| ==>
      var e := DiagCells(k, l, k)[i]; e.row < k && e.col < k
  {
    forall i | 0 <= i < |DiagCells(k, l, k)| ensures var e := DiagCells(k, l, k)[i]; e.row < k && e.col < k {
      DiagInData(k, l, k, i);
    }
  }

  // ---- What the stored form loses ----

  ghost predicate SurvivesTwoLosses(k: nat) {
    forall a, b, x: nat, y: nat {:trigger IsStored(k, a), AgreeBut(a, b, x, y)} ::
      IsStored(k, a) && IsStored(k, b) && x < y < k + 2 && AgreeBut(a, b, x, y) ==> a == b
  }

  /** A column of zeros that ends in a one. */
  function LastOne(k: nat): (u: Column)
    ensures |u| == k && forall i :: 0 <= i < k ==> u[i] == if i == k - 1 then 1 else 0
  {
    seq(k, i => if i == k - 1 then 1 else 0)
  }

  lemma DataDiagSum(k: nat, c: seq<Column>, x: nat, y: nat, l: nat)
    requires IsMatrix(c, k, k + 2) && x < y < k + 2 && k <= y && ZeroBut(c, k, k + 2, x, y) && l < k
    ensures XorCells(c, DiagCells(k, l, k)) == if x < k then Own(k, c, x, l) else 0
  {
    hide Xor, Cell, XorCells, At, RowOn, Virtual, DiagCells;
    DiagSum(k, c, x, y, l, k);
    FullMet(k, c, l, x);
    FullMet(k, c, l, y);
    XorZero(if x < k then Own(k, c, x, l) else 0);
  }

  /** The diagonal that has no Q block meets data column 1 in its last row, so a block there
      is seen by nothing but its own row. */
  lemma UnseenBlock(k: nat)
    requires k >= 2
    ensures IsStored(k, Twice(LastOne(k), 1, k, k + 2))
  {
    hide Xor, XorCells, At, DiagCells;
    var u := LastOne(k);
    var c := Twice(u, 1, k, k + 2);
    var p, q := c[k], c[k + 1];
    forall i | 0 <= i < k ensures p[i] == RowXor(c, k, i) && q[i] == XorCells(c, DiagCells(k, i, k)) {
      RowXorOfTwo(c, k, k + 2, 1, k, k, i);
      XorZero(u[i]);
      DataDiagSum(k, c, 1, k, i);
      assert c[1] == u;
      var w := Virtual(u);
      if i == 0 { AtPeriod(w, -1, 1); AtInside(w, k); } else { AtInside(w, i - 1); }
    }
  }

  lemma ZeroIsStored(k: nat, z: seq<Column>)
    requires IsMatrix(z, k, k + 2) && ZeroBut(z, k, k + 2, k + 2, k + 2)
    ensures IsStored(k, z)
  {
    hide Xor, XorCells, DiagCells;
    var p, q := z[k], z[k + 1];
    forall i | 0 <= i < k ensures p[i] == RowXor(z, k, i) && q[i] == XorCells(z, DiagCells(k, i, k)) {
      RowXorOfTwo(z, k, k + 2, k, k + 1, k, i);
      DataDiagSum(k, z, k, k + 1, i);
      XorZero(0);
    }
  }

  /** With one data disk all three disks hold the same; with more, losing data disk 1 and P
      loses data, whatever k is. */
  lemma StoredSurvivesTwoLossesIffMirror(k: nat)
    requires k >= 1
    ensures SurvivesTwoLosses(k) <==> k == 1
  {
    hide IsStored;
    if k == 1 {
      forall a, b, x: nat, y: nat
        | IsStored(k, a) && IsStored(k, b) && x < y < k + 2 && AgreeBut(a, b, x, y)
        ensures a == b
      {
        MirrorsAgree(a, b, x, y);
      }
    } else {
      UnseenBlock(k);
      var a, z := Twice(LastOne(k), 1, k, k + 2), Twice(LastOne(k), k + 2, k + 2, k + 2);
      ZeroIsStored(k, z);
      assert AgreeBut(a, z, 1, k);
      assert a[1][k - 1] == 1 && z[1][k - 1] == 0;
    }
  }

  lemma MirrorsAgree(a: seq<Column>, b: seq<Column>, x: nat, y: nat)
    requires IsStored(1, a) && IsStored(1, b) && x < y < 3 && AgreeBut(a, b, x, y)
    ensures a == b
  {
    hide XorCells, DiagCells, RowsAddUp;
    Mirrored(a);
    Mirrored(b);
    SameColumns(a, b);
  }

  lemma Mirrored(c: seq<Column>)
    requires IsStored(1, c)
    ensures c[1][0] == c[0][0] && c[2][0] == c[0][0]
  {
    hide Xor, XorCells, DiagCells;
    var p, q := c[1], c[2];
    XorZero(c[0][0]);
    assert p[0] == RowXor(c, 1, 0) == Xor(RowXor(c, 0, 0), c[0][0]);
    assert q[0] == XorCells(c, DiagCells(1, 0, 1));
    OneDiagCell();
    XorCellsNone(c);
    XorCellsAppend(c, [], Elem(0, 0));
    assert [] + [Elem(0, 0)] == [Elem(0, 0)];
  }

  lemma OneDiagCell()
    ensures DiagCells(1, 0, 1) == [Elem(0, 0)]
  {
    assert RowOn(2, 0, 0) == 0 && RowOn(2, 0, 1) == 1;
    assert DiagCells(1, 0, 0) == [];
  }
}
