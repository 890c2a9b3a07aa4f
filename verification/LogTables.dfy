/** Logarithm tables (galois.c). If filling the table never meets a slot twice, the powers of 2 visit every
    nonzero word and return to 1; multiplying by adding logarithms is then multiplication by shifting, and
    dividing by subtracting them undoes it. */
module LogTables {
  import opened Erasures
  import opened Fields
  import opened Galois
  import opened Options

  function Pow2(w: nat): (n: nat)
    ensures n >= 1
  {
    if w == 0 then 1 else 2 * Pow2(w - 1)
  }

  // The integer that the library indexes its tables with.
  function Num(x: seq<bool>): (n: nat)
    ensures n < Pow2(|x|)
  {
    if |x| == 0 then 0 else Num(x[..|x| - 1]) + if x[|x| - 1] then Pow2(|x| - 1) else 0
  }

  lemma {:induction false} NumInjective(x: seq<bool>, y: seq<bool>)
    requires |x| == |y| && Num(x) == Num(y)
    ensures x == y
  {
    if |x| > 0 {
      NumInjective(x[..|x| - 1], y[..|y| - 1]);
      assert x == x[..|x| - 1] + [x[|x| - 1]] && y == y[..|y| - 1] + [y[|y| - 1]];
    }
  }

  lemma {:induction false} NumZero(w: nat)
    ensures Num(Zero(w)) == 0
  {
    if w > 0 {
      assert Zero(w)[..w - 1] == Zero(w - 1);
      NumZero(w - 1);
    }
  }

  /** Bit 0 is the lowest: it says whether the integer is odd, and the rest is the word of its half. */
  lemma {:induction false} NumHalf(x: seq<bool>)
    requires |x| > 0
    ensures Num(x) == 2 * Num(x[1..]) + if x[0] then 1 else 0
  {
    var n := |x| - 1;
    if n > 0 {
      NumHalf(x[..n]);
      assert x[..n][1..] == x[1..][..n - 1] && x[1..][n - 1] == x[n];
      assert Pow2(n) == 2 * Pow2(n - 1);
    } else {
      assert x[..0] == [] && x[1..] == [];
    }
  }

  /** Bit i stands for 2^i. */
  lemma {:induction false} NumSetBit(x: seq<bool>, i: nat)
    requires i < |x| && !x[i]
    ensures Num(x[i := true]) == Num(x) + Pow2(i)
  {
    var n, y := |x| - 1, x[i := true];
    if i < n {
      NumSetBit(x[..n], i);
      assert y[..n] == x[..n][i := true] && y[n] == x[n];
    } else {
      assert y[..n] == x[..n];
    }
  }

  lemma NumBasis(w: nat, i: nat)
    requires i < w
    ensures Num(Basis(w, i)) == Pow2(i)
  {
    NumZero(w);
    NumSetBit(Zero(w), i);
    assert Basis(w, i) == Zero(w)[i := true];
  }

  /** Doubling is b << 1, and with the bit that leaves the word at the top, the xor with the polynomial. */
  lemma NumDouble(g: seq<bool>, x: seq<bool>)
    requires |x| == |g| > 0
    ensures !x[|g| - 1] ==> Num(Double(g, x)) == 2 * Num(x)
    ensures x[|g| - 1] ==> Num(Xor(Double(g, x), g)) == 2 * Num(x) - Pow2(|g|)
  {
    var n := |g| - 1;
    var s := [false] + x[..n];
    NumHalf(s);
    assert s[1..] == x[..n];
    assert Num(x) == Num(x[..n]) + if x[n] then Pow2(n) else 0;
    assert Pow2(|g|) == 2 * Pow2(n);
    if x[n] {
      assert Xor(Double(g, x), g) == s;
    } else {
      assert Double(g, x) == s;
    }
  }

  // The word of w bits of an integer below 2^w.
  function Bits(n: nat, w: nat): (x: seq<bool>)
    ensures |x| == w
  {
    if w == 0 then []
    else if n >= Pow2(w - 1) then Bits(n - Pow2(w - 1), w - 1) + [true]
    else Bits(n, w - 1) + [false]
  }

  lemma {:induction false} NumBits(n: nat, w: nat)
    requires n < Pow2(w)
    ensures Num(Bits(n, w)) == n
  {
    if w > 0 {
      var x := Bits(n, w);
      assert Pow2(w) == 2 * Pow2(w - 1);
      if n >= Pow2(w - 1) {
        NumBits(n - Pow2(w - 1), w - 1);
        assert x[..w - 1] == Bits(n - Pow2(w - 1), w - 1);
      } else {
        NumBits(n, w - 1);
        assert x[..w - 1] == Bits(n, w - 1);
      }
    }
  }

  /** The same for the words of integers. */
  lemma BitsHalf(n: nat, w: nat)
    requires 0 < w && n < Pow2(w)
    ensures Bits(n, w) == [n % 2 == 1] + Bits(n / 2, w - 1)
  {
    hide Num, Bits, Pow2;
    TwicePow2(w);
    var x := Bits(n, w);
    NumBits(n, w);
    NumHalf(x);
    NumBits(n / 2, w - 1);
    NumInjective(x[1..], Bits(n / 2, w - 1));
    assert x == [x[0]] + x[1..];
  }

  lemma TwicePow2(w: nat)
    requires 0 < w
    ensures Pow2(w) == 2 * Pow2(w - 1)
  {
  }

  lemma BitsOfPower(w: nat, i: nat)
    requires i < w
    ensures Pow2(i) < Pow2(w) && Bits(Pow2(i), w) == Basis(w, i)
  {
    NumBasis(w, i);
    BitsNum(Basis(w, i));
  }

  lemma BitsNum(x: seq<bool>)
    ensures Bits(Num(x), |x|) == x
  {
    NumBits(Num(x), |x|);
    NumInjective(Bits(Num(x), |x|), x);
  }

  // The n-th power of 2 in the field.
  function Power(g: seq<bool>, n: nat): (z: seq<bool>)
    ensures |z| == |g|
  {
    Doubled(g, One(|g|), n)
  }

  // How many nonzero words there are.
  function Order(g: seq<bool>): nat { Pow2(|g|) - 1 }

  ghost predicate DistinctPowers(g: seq<bool>) {
    forall i, j | 0 <= i < j < Order(g) :: Power(g, i) != Power(g, j)
  }

  lemma PowerSum(g: seq<bool>, m: nat, n: nat)
    ensures Mul(g, Power(g, m), Power(g, n)) == Power(g, m + n)
  {
    MulDoubled(g, Power(g, m), One(|g|), n);
    MulOne(g, Power(g, m));
    DoubledSum(g, One(|g|), m, n);
  }

  // ---- With constant term 1, doubling is one to one.

  lemma DoubleInjective(g: seq<bool>, x: seq<bool>, y: seq<bool>)
    requires |x| == |y| == |g| > 0 && g[0] && Double(g, x) == Double(g, y)
    ensures x == y
  {
    var w := |g|;
    assert Double(g, x)[0] == x[w - 1] && Double(g, y)[0] == y[w - 1];
    forall i | 0 <= i < w - 1
      ensures x[i] == y[i]
    {
      assert Double(g, x)[i + 1] == Double(g, y)[i + 1];
    }
  }

  lemma DoubleZero(g: seq<bool>, x: seq<bool>)
    requires |x| == |g| > 0 && g[0]
    ensures Double(g, x) == Zero(|g|) <==> x == Zero(|g|)
  {
    DoubleXor(g, x, x);
    if Double(g, x) == Zero(|g|) {
      DoubleInjective(g, x, Zero(|g|));
    }
  }

  lemma {:induction false} PowerNonzero(g: seq<bool>, n: nat)
    requires |g| > 0 && g[0]
    ensures Power(g, n) != Zero(|g|)
  {
    if n == 0 {
      assert One(|g|)[0] != Zero(|g|)[0];
    } else {
      PowerNonzero(g, n - 1);
      DoubleZero(g, Power(g, n - 1));
    }
  }

  // ---- Distinct powers are all nonzero words.

  ghost function Interval(n: nat): (s: set<nat>)
    ensures |s| == n
    ensures forall v: nat :: v in s <==> 1 <= v <= n
  {
    if n == 0 then {} else Interval(n - 1) + {n}
  }

  lemma AllVisited(s: seq<nat>, v: nat)
    requires NoRepeats(s) && forall i | 0 <= i < |s| :: 1 <= s[i] <= |s|
    requires 1 <= v <= |s|
    ensures v in s
  {
    ElementCount(s);
    if v !in s {
      SubsetCount(Elements(s), Interval(|s|) - {v});
    }
  }

  /** The powers of 2 visit every nonzero word. */
  lemma EveryPower(g: seq<bool>, x: seq<bool>) returns (n: nat)
    requires |x| == |g| > 0 && g[0] && DistinctPowers(g) && x != Zero(|g|)
    ensures n < Order(g) && Power(g, n) == x
  {
    hide Power, Pow2;
    var s := seq(Order(g), i requires 0 <= i < Order(g) => Num(Power(g, i)));
    NumZero(|g|);
    forall i | 0 <= i < |s|
      ensures 1 <= s[i] <= |s|
    {
      PowerNonzero(g, i);
      NotZero(Power(g, i));
    }
    forall i, j | 0 <= i < j < |s|
      ensures s[i] != s[j]
    {
      if s[i] == s[j] {
        NumInjective(Power(g, i), Power(g, j));
      }
    }
    NotZero(x);
    AllVisited(s, Num(x));
    n :| 0 <= n < |s| && s[n] == Num(x);
    NumInjective(Power(g, n), x);
  }

  lemma NotZero(x: seq<bool>)
    requires x != Zero(|x|)
    ensures Num(x) >= 1
  {
    NumZero(|x|);
    if Num(x) == 0 {
      NumInjective(x, Zero(|x|));
    }
  }

  /** ... and come back to 1. */
  lemma PowersReturn(g: seq<bool>)
    requires |g| > 0 && g[0] && DistinctPowers(g)
    ensures Order(g) > 0 && Power(g, Order(g)) == One(|g|)
  {
    var N := Order(g);
    assert Pow2(|g|) == 2 * Pow2(|g| - 1);
    PowerNonzero(g, N);
    var k := EveryPower(g, Power(g, N));
    if k > 0 {
      DoubleInjective(g, Power(g, k - 1), Power(g, N - 1));
    }
  }

  lemma PowerPeriod(g: seq<bool>, n: nat)
    requires |g| > 0 && g[0] && DistinctPowers(g)
    ensures Power(g, n + Order(g)) == Power(g, n)
  {
    PowersReturn(g);
    DoubledSum(g, One(|g|), Order(g), n);
  }

  // ---- The tables.

  /** log has the exponent of every power; ilog holds the powers three times over, starting Order(g) before
      its origin. */
  ghost predicate Tables(g: seq<bool>, log: seq<int>, ilog: seq<seq<bool>>) {
    && |log| == Pow2(|g|) && |ilog| == 3 * Pow2(|g|)
    && forall j | 0 <= j < Order(g) :: TableAt(g, log, ilog, j)
  }

  ghost predicate TableAt(g: seq<bool>, log: seq<int>, ilog: seq<seq<bool>>, j: nat)
    requires |log| == Pow2(|g|) && |ilog| == 3 * Pow2(|g|) && j < Order(g)
  {
    var N := Order(g);
    && log[Num(Power(g, j))] == j
    && ilog[j] == ilog[j + N] == ilog[j + 2 * N] == Power(g, j)
  }

  // The slots used once j powers have been stored.
  ghost predicate Stored(g: seq<bool>, log: seq<int>, ilog: seq<seq<bool>>, j: nat) {
    && |log| == Pow2(|g|) && j <= Order(g) && |ilog| == 3 * Pow2(|g|)
    && (forall i | 0 <= i < j :: log[Num(Power(g, i))] == i && ilog[i] == Power(g, i))
    && (forall v | 0 <= v < |log| :: log[v] != Order(g) ==> 0 <= log[v] < j && Num(Power(g, log[v])) == v)
  }

  // An unused slot means a new power; a used one a repeated power.
  lemma SlotFree(g: seq<bool>, log: seq<int>, ilog: seq<seq<bool>>, j: nat)
    requires Stored(g, log, ilog, j) && j < Order(g)
    ensures log[Num(Power(g, j))] != Order(g) ==> !DistinctPowers(g)
    ensures log[Num(Power(g, j))] == Order(g) ==> forall i | 0 <= i < j :: Power(g, i) != Power(g, j)
  {
    var v := Num(Power(g, j));
    if log[v] != Order(g) {
      NumInjective(Power(g, log[v]), Power(g, j));
    }
  }

  lemma StoreNext(g: seq<bool>, log: seq<int>, ilog: seq<seq<bool>>, j: nat)
    requires Stored(g, log, ilog, j) && j < Order(g) && log[Num(Power(g, j))] == Order(g)
    ensures Stored(g, log[Num(Power(g, j)) := j], ilog[j := Power(g, j)], j + 1)
  {
    hide Power, Num, Pow2;
    SlotFree(g, log, ilog, j);
    var v := Num(Power(g, j));
    forall i | 0 <= i < j
      ensures Num(Power(g, i)) != v
    {
    }
  }

  /** galois_create_log_tables: refused for w > 30, and given up exactly when two powers agree. */
  method CreateLogTables(g: seq<bool>) returns (ok: bool, log: array<int>, ilog: array<seq<bool>>)
    requires |g| > 0
    ensures ok <==> |g| <= 30 && DistinctPowers(g)
    ensures ok ==> Tables(g, log[..], ilog[..])
    ensures ok ==> 1 < log.Length && log[1] == 0
    ensures ok ==> forall i | 0 <= i < |g| ::
      Pow2(i) < log.Length && log[Pow2(i)] == i && ilog.Length > i && ilog[i] == Bits(Pow2(i), |g|)
  {
    hide Power, Num, Pow2, Stored, DistinctPowers, Tables, Bits;
    var w := |g|;
    log, ilog := new int[0], new seq<bool>[0];
    if w > 30 {
      return false, log, ilog;
    }
    var nwm1: nat := Pow2(w) - 1;
    log, ilog := new int[Pow2(w)](i => nwm1), new seq<bool>[3 * Pow2(w)](i => Zero(w));
    var b := One(w);
    NothingStored(g, log[..], ilog[..]);
    for j := 0 to nwm1
      invariant b == Power(g, j)
      invariant Stored(g, log[..], ilog[..], j)
      invariant forall i, i' | 0 <= i < i' < j :: Power(g, i) != Power(g, i')
    {
      SlotFree(g, log[..], ilog[..], j);
      if log[Num(b)] != nwm1 {
        return false, log, ilog;
      }
      StoreNext(g, log[..], ilog[..], j);
      ghost var log', ilog' := log[..][Num(b) := j], ilog[..][j := b];
      log[Num(b)] := j;
      ilog[j] := b;
      assert log[..] == log' && ilog[..] == ilog';
      NextPower(g, j);
      b := ShiftLeft(g, b);
    }
    ok := true;
    AllDistinct(g);
    Triplicate(g, log, ilog, nwm1);
    LogOfOne(g, log[..], ilog[..]);
    forall i | 0 <= i < w
      ensures Pow2(i) < log.Length && log[Pow2(i)] == i && ilog.Length > i && ilog[i] == Bits(Pow2(i), w)
    {
      LogOfPower(g, log[..], ilog[..], i);
    }
  }

  lemma {:induction false} MoreWords(w: nat)
    ensures Pow2(w) > w
  {
    if w > 0 {
      MoreWords(w - 1);
    }
  }

  /** The integers 1, 2, 4, ... below 2^w are the first powers. */
  lemma LogOfPower(g: seq<bool>, log: seq<int>, ilog: seq<seq<bool>>, i: nat)
    requires Tables(g, log, ilog) && i < |g|
    ensures Pow2(i) < |log| && log[Pow2(i)] == i && i < |ilog| && ilog[i] == Bits(Pow2(i), |g|)
  {
    MoreWords(|g|);
    assert TableAt(g, log, ilog, i);
    DoubledOne(g, i);
    NumBasis(|g|, i);
    BitsOfPower(|g|, i);
  }

  lemma LogOfOne(g: seq<bool>, log: seq<int>, ilog: seq<seq<bool>>)
    requires Tables(g, log, ilog) && |g| > 0
    ensures 1 < |log| && log[1] == 0
  {
    LogOfPower(g, log, ilog, 0);
  }

  lemma NothingStored(g: seq<bool>, log: seq<int>, ilog: seq<seq<bool>>)
    requires |log| == Pow2(|g|) && |ilog| == 3 * Pow2(|g|) && forall v | 0 <= v < |log| :: log[v] == Order(g)
    ensures Stored(g, log, ilog, 0) && Power(g, 0) == One(|g|)
  {
  }

  lemma NextPower(g: seq<bool>, j: nat)
    ensures Power(g, j + 1) == Double(g, Power(g, j))
  {
  }

  lemma AllDistinct(g: seq<bool>)
    requires forall i, j | 0 <= i < j < Order(g) :: Power(g, i) != Power(g, j)
    ensures DistinctPowers(g)
  {
  }

  method Triplicate(g: seq<bool>, log: array<int>, ilog: array<seq<bool>>, nwm1: nat)
    requires nwm1 == Order(g) && Stored(g, log[..], ilog[..], nwm1)
    requires log as object != ilog
    modifies ilog
    ensures Tables(g, log[..], ilog[..])
  {
    hide Power, Num, Pow2;
    for j := 0 to nwm1
      invariant forall i | 0 <= i < nwm1 :: ilog[i] == Power(g, i)
      invariant forall i | 0 <= i < j :: ilog[i + nwm1] == Power(g, i) && ilog[i + nwm1 * 2] == Power(g, i)
    {
      ilog[j + nwm1] := ilog[j];
      ilog[j + nwm1 * 2] := ilog[j];
    }
  }

  lemma TableLookup(g: seq<bool>, log: seq<int>, ilog: seq<seq<bool>>, x: seq<bool>) returns (j: nat)
    requires |x| == |g| > 0 && g[0] && DistinctPowers(g) && Tables(g, log, ilog) && x != Zero(|g|)
    ensures j < Order(g) && log[Num(x)] == j && Power(g, j) == x
  {
    j := EveryPower(g, x);
    assert TableAt(g, log, ilog, j);
  }

  // The replicated table needs no reduction: every index the sums and differences reach is a power.
  lemma TableReach(g: seq<bool>, log: seq<int>, ilog: seq<seq<bool>>, n: int)
    requires |g| > 0 && g[0] && DistinctPowers(g) && Tables(g, log, ilog) && 0 < Order(g) + n < 3 * Order(g)
    ensures 0 <= Order(g) + n < |ilog| && ilog[Order(g) + n] == Power(g, Order(g) + n)
  {
    hide Power, Pow2;
    var N := Order(g);
    var m := N + n;
    var j := if m < N then m else if m < 2 * N then m - N else m - 2 * N;
    assert TableAt(g, log, ilog, j);
    PowerPeriod(g, j);
    PowerPeriod(g, j + N);
  }

  // What galois_logtable_multiply computes is multiplication by shifting; ilog's origin is at Order(g).
  lemma LogSum(g: seq<bool>, log: seq<int>, ilog: seq<seq<bool>>, x: seq<bool>, y: seq<bool>)
    requires |x| == |y| == |g| > 0 && g[0] && DistinctPowers(g) && Tables(g, log, ilog)
    requires x != Zero(|g|) && y != Zero(|g|)
    ensures 0 <= Order(g) + log[Num(x)] + log[Num(y)] < |ilog|
    ensures ilog[Order(g) + log[Num(x)] + log[Num(y)]] == Mul(g, x, y)
  {
    hide Power, Pow2, Num, Mul, Order, Tables, DistinctPowers;
    var i := TableLookup(g, log, ilog, x);
    var j := TableLookup(g, log, ilog, y);
    TableReach(g, log, ilog, i + j);
    PowerSum(g, i, j);
    PowerPeriod(g, i + j);
    assert i + j + Order(g) == Order(g) + (i + j);
  }

  lemma LogDifference(g: seq<bool>, log: seq<int>, ilog: seq<seq<bool>>, x: seq<bool>, y: seq<bool>)
    requires |x| == |y| == |g| > 0 && g[0] && DistinctPowers(g) && Tables(g, log, ilog)
    requires x != Zero(|g|) && y != Zero(|g|)
    ensures 0 <= Order(g) + log[Num(x)] - log[Num(y)] < |ilog|
    ensures |ilog[Order(g) + log[Num(x)] - log[Num(y)]]| == |g|
    ensures Mul(g, y, ilog[Order(g) + log[Num(x)] - log[Num(y)]]) == x
  {
    hide Power, Pow2, Num, Mul, Order;
    var i := TableLookup(g, log, ilog, x);
    var j := TableLookup(g, log, ilog, y);
    TableReach(g, log, ilog, i as int - j);
    PowerSum(g, j, Order(g) + i - j);
    PowerPeriod(g, i);
  }

  lemma MulZeroLaw(g: seq<bool>, x: seq<bool>)
    requires |x| == |g|
    ensures Mul(g, x, Zero(|g|)) == Zero(|g|) && Mul(g, Zero(|g|), x) == Zero(|g|)
  {
    MulRightZero(g, x);
    MulCommutes(g, x, Zero(|g|));
  }

  /** galois_logtable_multiply. */
  function LogtableMultiply(g: seq<bool>, log: seq<int>, ilog: seq<seq<bool>>, x: seq<bool>,
                            y: seq<bool>): (z: seq<bool>)
    requires |x| == |y| == |g| > 0 && g[0] && DistinctPowers(g) && Tables(g, log, ilog)
    ensures z == Mul(g, x, y)
  {
    if x == Zero(|g|) || y == Zero(|g|) then
      MulZeroLaw(g, x);
      MulZeroLaw(g, y);
      Zero(|g|)
    else
      LogSum(g, log, ilog, x, y);
      var sum := log[Num(x)] + log[Num(y)];
      ilog[Order(g) + sum]
  }

  /** galois_logtable_divide: no value when the divisor is zero, else what times y gives x. */
  function LogtableDivide(g: seq<bool>, log: seq<int>, ilog: seq<seq<bool>>, x: seq<bool>,
                          y: seq<bool>): (z: Option<seq<bool>>)
    requires |x| == |y| == |g| > 0 && g[0] && DistinctPowers(g) && Tables(g, log, ilog)
    ensures z == None <==> y == Zero(|g|)
    ensures z.Some? ==> |z.value| == |g| && Mul(g, y, z.value) == x
  {
    if y == Zero(|g|) then None
    else if x == Zero(|g|) then
      MulZeroLaw(g, y);
      Some(Zero(|g|))
    else
      LogDifference(g, log, ilog, x, y);
      var sum := log[Num(x)] - log[Num(y)];
      Some(ilog[Order(g) + sum])
  }

  // ---- The field.

  function FindInverse(g: seq<bool>, x: seq<bool>, n: nat): (z: seq<bool>)
    requires |x| == |g|
    ensures |z| == |g|
    ensures forall m | 0 <= m <= n :: Mul(g, x, Power(g, m)) == One(|g|) ==> Mul(g, x, z) == One(|g|)
  {
    if Mul(g, x, Power(g, n)) == One(|g|) || n == 0 then Power(g, n) else FindInverse(g, x, n - 1)
  }

  function GF(g: seq<bool>): Field<seq<bool>> {
    Field(x => |x| == |g|, Zero(|g|), One(|g|),
          (x, y) => if |x| == |y| then Xor(x, y) else x,
          (x, y) => if |x| == |y| == |g| then Mul(g, x, y) else x,
          x => if |x| == |g| then FindInverse(g, x, Order(g)) else x)
  }

  ghost predicate Primitive(g: seq<bool>) {
    |g| > 0 && g[0] && DistinctPowers(g)
  }

  lemma HasInverse(g: seq<bool>, x: seq<bool>)
    requires Primitive(g) && |x| == |g| && x != Zero(|g|)
    ensures Mul(g, x, FindInverse(g, x, Order(g))) == One(|g|)
  {
    hide Power, Pow2, Num, Mul, FindInverse, Order;
    var k := EveryPower(g, x);
    PowerSum(g, k, Order(g) - k);
    PowersReturn(g);
  }

  /** Whenever the log tables can be built, words form a field. */
  lemma GFValid(g: seq<bool>)
    requires Primitive(g)
    ensures GF(g).Valid()
  {
    hide Xor, Mul, FindInverse, Order, DistinctPowers;
    var F := GF(g);
    forall a, b, c
      ensures F.AddLaws(a, b, c)
    {
      if |a| == |b| == |c| == |g| {
        XorLaws(a, b, c);
      }
    }
    forall a, b, c
      ensures F.MulLaws(a, b, c)
    {
      if |a| == |b| == |c| == |g| {
        MulLaws(g, a, b, c);
      }
    }
    forall a
      ensures F.InvLaw(a)
    {
      if |a| == |g| && a != Zero(|g|) {
        HasInverse(g, a);
      }
    }
    assert One(|g|)[0] != Zero(|g|)[0];
  }
}
