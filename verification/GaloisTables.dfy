/** Multiplication and division by shifting and by tables of logarithms. */
module GaloisTables {
  import opened Bits
  import opened GaloisField
  import opened IntMod

  // ---- Shifts ----

  lemma {:induction false} LowNext(x: nat, i: nat)
    ensures Low(x, i + 1) == Xor(Low(x, i), if Bit(x, i) then Pow2(i) else 0)
  {
    hide Xor, Low;
    LowHalf(x, i + 1);
    if i == 0 {
      LowNone(x);
      LowNone(x / 2);
      XorZero(x % 2);
      SameHalves(Low(x, 1), x % 2);
    } else {
      LowNext(x / 2, i - 1);
      LowHalf(x, i);
      var p := if Bit(x, i) then Pow2(i) else 0;
      XorHalves(Low(x, i), p);
      SameHalves(Low(x, i + 1), Xor(Low(x, i), p));
    }
  }

  lemma LowAll(x: nat, w: nat)
    requires x < Pow2(w)
    ensures Low(x, w) == x
  {
    SmallMod(x, Pow2(w));
  }

  lemma {:induction false} MulPow2(f: Field, i: nat, y: nat)
    requires f.w >= 1 && IsWord(f, y)
    ensures Mul(f, Pow2(i), y) == Steps(f, y, i)
  {
    hide Xor, Mul, Step;
    if i == 0 {
      MulUnfold(f, 1, y);
      MulUnfold(f, 0, Step(f, y));
      XorZero(y);
    } else {
      MulPow2(f, i - 1, y);
      MulDouble(f, Pow2(i - 1), y);
    }
  }

  lemma StepsStart(f: Field, y: nat)
    requires f.w >= 1
    ensures Steps(f, y, 0) == y
  {
  }

  lemma StepsNext(f: Field, y: nat, i: nat)
    requires f.w >= 1
    ensures Steps(f, y, i + 1) == Step(f, Steps(f, y, i))
  {
  }

  /** Adds s to prod bit by bit. */
  method AddBits(prod0: nat, s: nat, w: nat) returns (prod: nat)
    requires s < Pow2(w)
    ensures prod == Xor(prod0, s)
  {
    hide Xor, Low, Bit, Pow2;
    prod := prod0;
    LowNone(s);
    XorZero(prod0);
    for k := 0 to w
      invariant prod == Xor(prod0, Low(s, k))
    {
      LowNext(s, k);
      XorZero(Low(s, k));
      if Bit(s, k) {
        XorAssoc(prod0, Low(s, k), Pow2(k));
        prod := Xor(prod, Pow2(k));
      }
    }
    LowAll(s, w);
  }

  /** Multiplication by shifting y and adding, bit by bit, the shifts that x selects. */
  method ShiftMultiply(f: Field, x: nat, y: nat) returns (prod: nat)
    requires f.w >= 1 && IsWord(f, x) && IsWord(f, y)
    ensures prod == Mul(f, x, y)
  {
    hide Xor, Mul, Step, Low, Bit, Steps, Pow2;
    StepsStart(f, y);
    var scratch := new nat[f.w];
    var z := y;
    for i := 0 to f.w
      invariant z == Steps(f, y, i)
      invariant forall j :: 0 <= j < i ==> scratch[j] == Steps(f, y, j) && IsWord(f, scratch[j])
    {
      scratch[i] := z;
      z := Step(f, z);
      StepsNext(f, y, i);
    }
    prod := 0;
    LowNone(x);
    MulUnfold(f, 0, y);
    for i := 0 to f.w
      invariant prod == Mul(f, Low(x, i), y)
      modifies {}
    {
      if Bit(x, i) { prod := AddBits(prod, scratch[i], f.w); }
      LowNext(x, i);
      MulPow2(f, i, y);
      MulLeft(f, Low(x, i), Pow2(i), y);
      XorZero(Low(x, i));
    }
    LowAll(x, f.w);
  }

  // ---- Powers of the polynomial x ----

  lemma {:induction false} StepsAdd(f: Field, y: nat, m: nat, n: nat)
    requires f.w >= 1
    ensures Steps(f, Steps(f, y, m), n) == Steps(f, y, m + n)
  {
    hide Step;
    if n > 0 { StepsAdd(f, y, m, n - 1); }
  }

  lemma {:induction false} MulSteps(f: Field, x: nat, n: nat)
    requires f.w >= 1 && IsWord(f, x)
    ensures Mul(f, x, Steps(f, 1, n)) == Steps(f, x, n)
  {
    hide Mul, Step;
    MulOne(f, x);
    if n > 0 {
      MulSteps(f, x, n - 1);
      MulStep(f, x, Steps(f, 1, n - 1));
    }
  }

  lemma MulOfSteps(f: Field, m: nat, n: nat)
    requires f.w >= 1
    ensures Mul(f, Steps(f, 1, m), Steps(f, 1, n)) == Steps(f, 1, m + n)
  {
    MulOne(f, 0);
    MulSteps(f, Steps(f, 1, m), n);
    StepsAdd(f, 1, m, n);
  }

  lemma {:induction false} StepsNonZero(f: Field, n: nat)
    requires IsField(f)
    ensures IsWord(f, Steps(f, 1, n)) && Steps(f, 1, n) != 0
  {
    hide Step;
    MulOne(f, 0);
    if n > 0 {
      StepsNonZero(f, n - 1);
      StepZero(f, Steps(f, 1, n - 1));
    }
  }

  /** The number of nonzero words. */
  function Order(f: Field): nat {
    Pow2(f.w) - 1
  }

  /** x is primitive: its first powers are all different. */
  ghost predicate IsPrimitive(f: Field)
    requires f.w >= 1
  {
    forall i, j :: 0 <= i < j < Order(f) ==> Steps(f, 1, i) != Steps(f, 1, j)
  }

  /** The numbers from 1 to n. */
  function UpTo(n: nat): (s: set<nat>)
    ensures |s| == n && forall i :: i in s <==> 1 <= i <= n
  {
    if n == 0 then {} else UpTo(n - 1) + {n}
  }

  /** n different numbers from 1 to n are all of them. */
  lemma Pigeonhole(s: seq<nat>, n: nat, b: nat)
    requires |s| == n && 0 < b <= n
    requires forall i :: 0 <= i < n ==> 0 < s[i] <= n
    requires forall i, j :: 0 <= i < j < n ==> s[i] != s[j]
    ensures b in s
  {
    var seen := set i | 0 <= i < n :: s[i];
    CountDistinct(s);
    if b !in seen {
      assert seen <= UpTo(n) - {b};
      SubsetSize(seen, UpTo(n) - {b});
      assert false;
    }
  }

  lemma {:induction false} CountDistinct(s: seq<nat>)
    requires forall i, j :: 0 <= i < j < |s| ==> s[i] != s[j]
    ensures |set i | 0 <= i < |s| :: s[i]| == |s|
  {
    var seen := set i | 0 <= i < |s| :: s[i];
    if s == [] {
      assert seen == {};
    } else {
      var m := |s| - 1;
      var init := s[..m];
      CountDistinct(init);
      var before := set i | 0 <= i < |init| :: init[i];
      assert s[m] !in before;
      forall x | x in seen ensures x in before + {s[m]} {
        var i :| 0 <= i < |s| && s[i] == x;
        if i < m { assert init[i] == x; }
      }
      forall x | x in before ensures x in seen {
        var i :| 0 <= i < m && init[i] == x;
        assert s[i] == x;
      }
      assert seen == before + {s[m]};
    }
  }

  lemma {:induction false} SubsetSize<T>(a: set<T>, b: set<T>)
    requires a <= b
    ensures |a| <= |b|
  {
    if a != {} {
      var x :| x in a;
      SubsetSize(a - {x}, b - {x});
    }
  }

  function Powers(f: Field): (s: seq<nat>)
    requires f.w >= 1
    ensures |s| == Order(f) && forall i :: 0 <= i < |s| ==> s[i] == Steps(f, 1, i)
  {
    seq(Order(f), i requires 0 <= i < Order(f) => Steps(f, 1, i))
  }

  /** Then every nonzero word is one of them. */
  lemma EveryWordIsPower(f: Field, b: nat) returns (i: nat)
    requires IsField(f) && IsPrimitive(f) && IsWord(f, b) && b != 0
    ensures i < Order(f) && Steps(f, 1, i) == b
  {
    hide Steps;
    var s := Powers(f);
    forall i | 0 <= i < |s| ensures 0 < s[i] <= |s| { StepsNonZero(f, i); }
    Pigeonhole(s, |s|, b);
    i :| 0 <= i < |s| && s[i] == b;
  }

  /** And the powers repeat with that period. */
  lemma FullCircle(f: Field)
    requires IsField(f) && IsPrimitive(f)
    ensures Steps(f, 1, Order(f)) == 1
  {
    hide Step;
    var n := Order(f);
    StepsNonZero(f, n);
    assert n >= 1;
    var i := EveryWordIsPower(f, Steps(f, 1, n));
    if i > 0 {
      StepsNonZero(f, n - 1);
      StepsNonZero(f, i - 1);
      StepInjective(f, Steps(f, 1, n - 1), Steps(f, 1, i - 1));
      assert false;
    }
  }

  lemma Periodic(f: Field, m: nat)
    requires IsField(f) && IsPrimitive(f)
    ensures Steps(f, 1, Order(f) + m) == Steps(f, 1, m)
  {
    FullCircle(f);
    StepsAdd(f, 1, Order(f), m);
  }

  // ---- Logarithm tables ----

  datatype Status = Created | TooWide | Duplicate

  /** log and ilog are inverse; ilog holds three periods of the powers of x. */
  ghost predicate IsLogTable(f: Field, log: seq<nat>, ilog: seq<nat>) {
    IsField(f) && IsPrimitive(f) && |log| == Pow2(f.w) && |ilog| >= 3 * Order(f) &&
    (forall b :: 0 < b < |log| ==> log[b] < Order(f) && Steps(f, 1, log[b]) == b) &&
    (forall j :: 0 <= j < 3 * Order(f) ==> ilog[j] == Steps(f, 1, j))
  }

  /** The table of the first n powers, filled up to power j. */
  ghost predicate Filled(f: Field, log: seq<nat>, ilog: seq<nat>, j: nat)
    requires f.w >= 1
  {
    |log| == Pow2(f.w) && |ilog| >= Order(f) >= j &&
    (forall i :: 0 <= i < j ==> ilog[i] == Steps(f, 1, i) < |log| && log[ilog[i]] == i) &&
    (forall b :: 0 <= b < |log| && log[b] != Order(f) ==> log[b] < j && ilog[log[b]] == b)
  }

  lemma FilledIsDistinct(f: Field, log: seq<nat>, ilog: seq<nat>)
    requires IsField(f) && Filled(f, log, ilog, Order(f))
    ensures IsPrimitive(f) && forall b :: 0 < b < |log| ==> log[b] < Order(f) && Steps(f, 1, log[b]) == b
  {
    hide Steps;
    forall i, j | 0 <= i < j < Order(f) ensures Steps(f, 1, i) != Steps(f, 1, j) {
      assert log[ilog[i]] == i && log[ilog[j]] == j;
    }
    forall b | 0 < b < |log| ensures log[b] < Order(f) && Steps(f, 1, log[b]) == b {
      var i := EveryWordIsPower(f, b);
      assert log[ilog[i]] == i;
    }
  }

  /** Fills both tables, or finds that x is not primitive. */
  method CreateLogTables(f: Field) returns (status: Status, log: array<nat>, ilog: array<nat>)
    requires IsField(f)
    ensures status == TooWide <==> f.w > 30
    ensures f.w <= 30 ==> (status == Created <==> IsPrimitive(f))
    ensures status == Created ==> IsLogTable(f, log[..], ilog[..])
  {
    hide Steps, Step, Pow2;
    if f.w > 30 { return TooWide, new nat[0], new nat[0]; }
    var n := Pow2(f.w) - 1;
    log := new nat[n + 1](_ => n);
    ilog := new nat[3 * (n + 1)](_ => 0);
    var b := 1;
    StepsBegin(f);
    for j := 0 to n
      invariant b == Steps(f, 1, j)
      invariant Filled(f, log[..], ilog[..], j)
    {
      StepsNonZero(f, j);
      if log[b] != n {
        assert ilog[log[b]] == b == Steps(f, 1, log[b]);
        return Duplicate, log, ilog;
      }
      FillNext(f, log[..], ilog[..], j, b);
      log[b] := j;
      ilog[j] := b;
      b := Step(f, b);
      StepsNext(f, 1, j);
    }
    FilledIsDistinct(f, log[..], ilog[..]);
    CopyPeriods(f, ilog);
    status := Created;
  }

  lemma StepsBegin(f: Field)
    requires f.w >= 1
    ensures Steps(f, 1, 0) == 1 && Pow2(f.w) >= 2
  {
  }

  lemma FillNext(f: Field, log: seq<nat>, ilog: seq<nat>, j: nat, b: nat)
    requires f.w >= 1 && Filled(f, log, ilog, j) && j < Order(f) && b == Steps(f, 1, j)
    requires b < |log| && log[b] == Order(f)
    ensures Filled(f, log[b := j], ilog[j := b], j + 1)
  {
    hide Steps;
  }

  /** Repeats the first period of the table twice. */
  method CopyPeriods(f: Field, ilog: array<nat>)
    requires IsField(f) && IsPrimitive(f) && ilog.Length >= 3 * Order(f)
    requires forall i :: 0 <= i < Order(f) ==> ilog[i] == Steps(f, 1, i)
    modifies ilog
    ensures forall i :: 0 <= i < 3 * Order(f) ==> ilog[i] == Steps(f, 1, i)
  {
    hide Steps, Pow2;
    var n := Order(f);
    for j := 0 to n
      invariant forall i :: 0 <= i < n ==> ilog[i] == Steps(f, 1, i)
      invariant forall i :: n <= i < n + j ==> ilog[i] == Steps(f, 1, i)
      invariant forall i :: 2 * n <= i < 2 * n + j ==> ilog[i] == Steps(f, 1, i)
    {
      Periodic(f, j);
      Periodic(f, n + j);
      ilog[j + n] := ilog[j];
      ilog[j + n * 2] := ilog[j];
    }
  }

  /** The table is used through a pointer to its second period. */
  function Ilog(f: Field, ilog: seq<nat>, sum: int): nat
    requires 0 <= sum + Order(f) < |ilog|
  {
    ilog[sum + Order(f)]
  }

  method LogtableMultiply(f: Field, log: array<nat>, ilog: array<nat>, x: nat, y: nat) returns (r: nat)
    requires IsLogTable(f, log[..], ilog[..]) && IsWord(f, x) && IsWord(f, y)
    ensures r == Mul(f, x, y)
  {
    hide Mul, Steps, IsPrimitive;
    if x == 0 || y == 0 {
      MulUnfold(f, 0, y);
      MulOfZero(f, x);
      return 0;
    }
    var sum := log[x] + log[y];
    Periodic(f, sum);
    MulOfSteps(f, log[x], log[y]);
    r := Ilog(f, ilog[..], sum);
  }

  /** -1 stands for division by zero. */
  method LogtableDivide(f: Field, log: array<nat>, ilog: array<nat>, x: nat, y: nat) returns (r: int)
    requires IsLogTable(f, log[..], ilog[..]) && IsWord(f, x) && IsWord(f, y)
    ensures r == -1 <==> y == 0
    ensures y != 0 ==> r >= 0 && IsWord(f, r) && forall z :: IsWord(f, z) ==> (Mul(f, z, y) == x <==> z == r)
  {
    hide Mul, Steps, IsPrimitive;
    if y == 0 { return -1; }
    if x == 0 {
      MulUnfold(f, 0, y);
      r := 0;
    } else {
      var sum := log[x] as int - log[y];
      r := Ilog(f, ilog[..], sum);
      StepsNonZero(f, sum + Order(f));
      MulOfSteps(f, sum + Order(f), log[y]);
      Periodic(f, log[x]);
    }
    forall z | IsWord(f, z) ensures Mul(f, z, y) == x <==> z == r {
      if Mul(f, z, y) == x { MulCancel(f, z, r, y); }
    }
  }

  /** With x primitive every nonzero word has an inverse, so products by it are different. */
  lemma MulCancel(f: Field, a: nat, b: nat, y: nat)
    requires IsField(f) && IsPrimitive(f) && IsWord(f, a) && IsWord(f, b) && IsWord(f, y) && y != 0
    requires Mul(f, a, y) == Mul(f, b, y)
    ensures a == b
  {
    hide Mul, Steps, IsPrimitive;
    var z := Inverse(f, y);
    MulAssoc(f, a, y, z);
    MulAssoc(f, b, y, z);
    MulOne(f, a);
    MulOne(f, b);
  }

  lemma Inverse(f: Field, y: nat) returns (z: nat)
    requires IsField(f) && IsPrimitive(f) && IsWord(f, y) && y != 0
    ensures IsWord(f, z) && z != 0 && Mul(f, y, z) == 1
  {
    hide Mul, Steps, IsPrimitive;
    var i := EveryWordIsPower(f, y);
    var n := Order(f);
    z := Steps(f, 1, n - i);
    StepsNonZero(f, n - i);
    MulOfSteps(f, i, n - i);
    FullCircle(f);
  }
}
