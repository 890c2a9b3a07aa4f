/** Counting the ones of a bitmatrix block, and improving a Cauchy matrix (cauchy.c). */
module CauchyOnes {
  import opened Erasures
  import opened Schedules
  import opened Galois

  // ---- The ones of the block of element e: its columns are the first doublings of e.

  function BlockOnes(g: seq<bool>, e: seq<bool>, n: nat): nat
    requires |e| == |g|
  {
    if n == 0 then 0 else BlockOnes(g, e, n - 1) + Ones(Doubled(g, e, n - 1), |g|)
  }

  lemma {:induction false} OnesShift(x: seq<bool>, n: nat)
    requires 0 < n <= |x|
    ensures Ones([false] + x[..|x| - 1], n) == Ones(x, n - 1)
  {
    if n > 1 {
      OnesShift(x, n - 1);
      assert ([false] + x[..|x| - 1])[n - 1] == x[n - 2];
    } else {
      assert Ones([false] + x[..|x| - 1], 0) == 0;
    }
  }

  // One for every listed bit that is set, minus one for every other.
  function Balance(x: seq<bool>, bits: seq<nat>, n: nat): int
    requires n <= |bits| && forall j | 0 <= j < |bits| :: bits[j] < |x|
  {
    if n == 0 then 0 else Balance(x, bits, n - 1) + if x[bits[n - 1]] then 1 else -1
  }

  lemma {:induction false} BalanceCong(x: seq<bool>, bits: seq<nat>, bits': seq<nat>, n: nat)
    requires n <= |bits| && n <= |bits'| && (forall j | 0 <= j < |bits| :: bits[j] < |x|)
    requires forall j | 0 <= j < |bits'| :: bits'[j] < |x|
    requires forall j | 0 <= j < n :: bits[j] == bits'[j]
    ensures Balance(x, bits, n) == Balance(x, bits', n)
  {
    if n > 0 {
      BalanceCong(x, bits, bits', n - 1);
    }
  }

  lemma XorAt(x: seq<bool>, g: seq<bool>, i: nat)
    requires |x| == |g| && i < |g|
    ensures Xor(x, g)[i] == (x[i] != g[i])
  {
  }

  // Adding g changes the number of ones by the balance of its bits in the sum.
  lemma {:induction false} XorOnes(x: seq<bool>, g: seq<bool>, n: nat)
    requires |x| == |g| && n <= |g|
    ensures Ones(Xor(x, g), n) == Ones(x, n) + Balance(Xor(x, g), Where(g, 0, n, true), |Where(g, 0, n, true)|)
  {
    hide Xor;
    if n > 0 {
      XorOnes(x, g, n - 1);
      assert Xor(x, g)[n - 1] == (x[n - 1] != g[n - 1]) by { XorAt(x, g, n - 1); }
      BalanceCong(Xor(x, g), Where(g, 0, n, true), Where(g, 0, n - 1, true), |Where(g, 0, n - 1, true)|);
    }
  }

  method ListBits(x: seq<bool>) returns (bits: seq<nat>)
    ensures bits == Where(x, 0, |x|, true)
  {
    bits := [];
    for i := 0 to |x|
      invariant bits == Where(x, 0, i, true)
    {
      if x[i] {
        bits := bits + [i];
      }
    }
  }

  // The highest power times 2 is what every reduction adds.
  lemma TopDoubled(g: seq<bool>)
    requires |g| > 1
    ensures Mul(g, Basis(|g|, |g| - 1), Basis(|g|, 1)) == g
  {
    var w := |g|;
    DoubledOne(g, 1);
    MulDoubled(g, Basis(w, w - 1), One(w), 1);
    MulOne(g, Basis(w, w - 1));
    assert Doubled(g, Basis(w, w - 1), 1) == Double(g, Doubled(g, Basis(w, w - 1), 0));
    assert Double(g, Basis(w, w - 1)) == g;
  }

  lemma ReduceStep(g: seq<bool>, n: seq<bool>)
    requires |n| == |g| > 0
    ensures n[|g| - 1] ==> Double(g, n) == Xor([false] + n[|g| - 1 := false][..|g| - 1], g)
    ensures !n[|g| - 1] ==> Double(g, n) == [false] + n[..|g| - 1]
    ensures Ones([false] + n[|g| - 1 := false][..|g| - 1], |g|) == Ones(n, |g|) - if n[|g| - 1] then 1 else 0
  {
    OnesShift(n, |g|);
    assert n[|g| - 1 := false][..|g| - 1] == n[..|g| - 1];
  }

  method CountReduced(n: seq<bool>, bits: seq<nat>, cno: int) returns (r: int)
    requires forall j | 0 <= j < |bits| :: bits[j] < |n|
    ensures r == cno + Balance(n, bits, |bits|)
  {
    r := cno;
    for j := 0 to |bits|
      invariant r == cno + Balance(n, bits, j)
    {
      r := r + if n[bits[j]] then 1 else -1;
    }
  }

  /** cauchy_n_ones: the count is kept up to date through the doublings instead of being taken afresh. */
  method CauchyNOnes(g: seq<bool>, e: seq<bool>) returns (no: int)
    requires |e| == |g| > 0
    ensures no == BlockOnes(g, e, |g|)
  {
    hide Xor, Mul, Double, Where;
    var w := |g|;
    var pp := Mul(g, Basis(w, w - 1), Basis(w, 1));
    var bits := ListBits(pp);
    var n := e;
    no := 0;
    for i := 0 to w
      invariant no == Ones(n, i)
    {
      if n[i] { no := no + 1; }
    }
    var cno := no;
    FirstOnes(g, e);
    for i := 1 to w
      invariant n == Doubled(g, e, i - 1) && cno == Ones(n, w) && no == BlockOnes(g, e, i)
    {
      TopDoubled(g);
      ReduceStep(g, n);
      NextOnes(g, e, i);
      if n[w - 1] {
        n := n[w - 1 := false];
        n := [false] + n[..w - 1];
        XorOnes(n, g, w);
        n := Xor(n, pp);
        cno := cno - 1;
        cno := CountReduced(n, bits, cno);
      } else {
        assert n[w - 1 := false] == n;
        n := [false] + n[..w - 1];
      }
      no := no + cno;
    }
  }

  lemma FirstOnes(g: seq<bool>, e: seq<bool>)
    requires |e| == |g|
    ensures Doubled(g, e, 0) == e && BlockOnes(g, e, 1) == Ones(e, |g|)
  {
    assert BlockOnes(g, e, 0) == 0;
  }

  lemma NextOnes(g: seq<bool>, e: seq<bool>, i: nat)
    requires |e| == |g| && i > 0
    ensures Doubled(g, e, i) == Double(g, Doubled(g, e, i - 1))
    ensures BlockOnes(g, e, i + 1) == BlockOnes(g, e, i) + Ones(Doubled(g, e, i), |g|)
  {
  }
}
