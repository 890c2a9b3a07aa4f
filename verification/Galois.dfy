/** GF(2^w) by shifting (galois.c). A word is its w bits, lowest first; g holds the low w bits of the primitive
    polynomial. Multiplication is the sum of the doublings of y picked by the bits of x. It is shown to be a
    commutative ring with 1, whatever g is. */
module Galois {

  function Xor(x: seq<bool>, y: seq<bool>): (z: seq<bool>)
    requires |x| == |y|
    ensures |z| == |x|
  {
    seq(|x|, i requires 0 <= i < |x| => x[i] != y[i])
  }

  function Zero(w: nat): (z: seq<bool>)
    ensures |z| == w
  {
    seq(w, i => false)
  }

  // The power 2^n of the field, for n < w.
  function Basis(w: nat, n: nat): (z: seq<bool>)
    ensures |z| == w
  {
    seq(w, i => i == n)
  }

  function One(w: nat): seq<bool> { Basis(w, 0) }

  // Times two: shift, and reduce when a bit falls out at the top.
  function Double(g: seq<bool>, x: seq<bool>): (z: seq<bool>)
    requires |x| == |g|
    ensures |z| == |g|
  {
    seq(|g|, i requires 0 <= i < |g| => (i > 0 && x[i - 1]) != (x[|g| - 1] && g[i]))
  }

  function Doubled(g: seq<bool>, x: seq<bool>, n: nat): (z: seq<bool>)
    requires |x| == |g|
    ensures |z| == |g|
  {
    if n == 0 then x else Double(g, Doubled(g, x, n - 1))
  }

  // The doublings of y picked by the first n bits of x.
  function MulTo(g: seq<bool>, x: seq<bool>, y: seq<bool>, n: nat): (z: seq<bool>)
    requires |x| == |y| == |g| && n <= |g|
    ensures |z| == |g|
  {
    if n == 0 then Zero(|g|)
    else if x[n - 1] then Xor(MulTo(g, x, y, n - 1), Doubled(g, y, n - 1))
    else MulTo(g, x, y, n - 1)
  }

  function Mul(g: seq<bool>, x: seq<bool>, y: seq<bool>): (z: seq<bool>)
    requires |x| == |y| == |g|
    ensures |z| == |g|
  {
    MulTo(g, x, y, |g|)
  }

  // ---- Addition.

  lemma XorLaws(x: seq<bool>, y: seq<bool>, z: seq<bool>)
    requires |x| == |y| == |z|
    ensures Xor(x, y) == Xor(y, x)
    ensures Xor(Xor(x, y), z) == Xor(x, Xor(y, z))
    ensures Xor(Zero(|x|), x) == x == Xor(x, Zero(|x|))
    ensures Xor(x, x) == Zero(|x|)
  {
  }

  lemma XorSwap(a: seq<bool>, b: seq<bool>, c: seq<bool>, d: seq<bool>)
    requires |a| == |b| == |c| == |d|
    ensures Xor(Xor(a, b), Xor(c, d)) == Xor(Xor(a, c), Xor(b, d))
  {
  }

  // ---- Doubling is linear.

  lemma DoubleXor(g: seq<bool>, x: seq<bool>, y: seq<bool>)
    requires |x| == |y| == |g|
    ensures Double(g, Xor(x, y)) == Xor(Double(g, x), Double(g, y))
    ensures Double(g, Zero(|g|)) == Zero(|g|)
  {
  }

  lemma {:induction false} DoubledXor(g: seq<bool>, x: seq<bool>, y: seq<bool>, n: nat)
    requires |x| == |y| == |g|
    ensures Doubled(g, Xor(x, y), n) == Xor(Doubled(g, x, n), Doubled(g, y, n))
  {
    if n > 0 {
      DoubledXor(g, x, y, n - 1);
      DoubleXor(g, Doubled(g, x, n - 1), Doubled(g, y, n - 1));
    }
  }

  lemma {:induction false} DoubledSum(g: seq<bool>, x: seq<bool>, m: nat, n: nat)
    requires |x| == |g|
    ensures Doubled(g, Doubled(g, x, m), n) == Doubled(g, x, m + n)
  {
    if n > 0 {
      DoubledSum(g, x, m, n - 1);
    }
  }

  // Below w, doubling just moves the bit.
  lemma {:induction false} DoubledOne(g: seq<bool>, n: nat)
    requires n < |g|
    ensures Doubled(g, One(|g|), n) == Basis(|g|, n)
  {
    if n > 0 {
      DoubledOne(g, n - 1);
    }
  }

  // ---- Multiplication is linear on both sides, and commutes with doubling.

  lemma {:induction false} MulToXorLeft(g: seq<bool>, x: seq<bool>, x': seq<bool>, y: seq<bool>, n: nat)
    requires |x| == |x'| == |y| == |g| && n <= |g|
    ensures MulTo(g, Xor(x, x'), y, n) == Xor(MulTo(g, x, y, n), MulTo(g, x', y, n))
  {
    if n == 0 {
      XorLaws(Zero(|g|), Zero(|g|), Zero(|g|));
    } else {
      MulToXorLeft(g, x, x', y, n - 1);
      var a, b, d := MulTo(g, x, y, n - 1), MulTo(g, x', y, n - 1), Doubled(g, y, n - 1);
      XorSwap(a, d, b, d);
      XorLaws(d, d, Xor(a, b));
      XorLaws(Xor(a, b), d, d);
      XorLaws(a, b, d);
      XorLaws(a, d, b);
      XorLaws(b, d, d);
    }
  }

  lemma {:induction false} MulToXorRight(g: seq<bool>, x: seq<bool>, y: seq<bool>, y': seq<bool>, n: nat)
    requires |x| == |y| == |y'| == |g| && n <= |g|
    ensures MulTo(g, x, Xor(y, y'), n) == Xor(MulTo(g, x, y, n), MulTo(g, x, y', n))
  {
    if n == 0 {
      XorLaws(Zero(|g|), Zero(|g|), Zero(|g|));
    } else {
      MulToXorRight(g, x, y, y', n - 1);
      DoubledXor(g, y, y', n - 1);
      XorSwap(MulTo(g, x, y, n - 1), MulTo(g, x, y', n - 1), Doubled(g, y, n - 1), Doubled(g, y', n - 1));
    }
  }

  lemma {:induction false} MulToDouble(g: seq<bool>, x: seq<bool>, y: seq<bool>, n: nat)
    requires |x| == |y| == |g| && n <= |g|
    ensures MulTo(g, x, Double(g, y), n) == Double(g, MulTo(g, x, y, n))
  {
    if n == 0 {
      DoubleXor(g, x, y);
    } else {
      MulToDouble(g, x, y, n - 1);
      DoubleXor(g, MulTo(g, x, y, n - 1), Doubled(g, y, n - 1));
      DoubledSum(g, y, 1, n - 1);
      assert Doubled(g, y, 1) == Double(g, Doubled(g, y, 0));
    }
  }

  lemma {:induction false} MulDoubled(g: seq<bool>, x: seq<bool>, y: seq<bool>, n: nat)
    requires |x| == |y| == |g|
    ensures Mul(g, x, Doubled(g, y, n)) == Doubled(g, Mul(g, x, y), n)
  {
    if n > 0 {
      MulDoubled(g, x, y, n - 1);
      MulToDouble(g, x, Doubled(g, y, n - 1), |g|);
    }
  }

  // The bits of x below n.
  function Low(x: seq<bool>, n: nat): (z: seq<bool>)
    ensures |z| == |x|
  {
    seq(|x|, i requires 0 <= i < |x| => i < n && x[i])
  }

  lemma LowStep(x: seq<bool>, n: nat)
    requires n < |x|
    ensures Low(x, n + 1) == if x[n] then Xor(Low(x, n), Basis(|x|, n)) else Low(x, n)
    ensures Low(x, 0) == Zero(|x|) && Low(x, |x|) == x
  {
  }

  lemma {:induction false} MulToOne(g: seq<bool>, x: seq<bool>, n: nat)
    requires |x| == |g| && n <= |g|
    ensures MulTo(g, x, One(|g|), n) == Low(x, n)
  {
    if n > 0 {
      MulToOne(g, x, n - 1);
      DoubledOne(g, n - 1);
      LowStep(x, n - 1);
    } else {
      assert Low(x, 0) == Zero(|g|);
    }
  }

  lemma MulOne(g: seq<bool>, x: seq<bool>)
    requires |x| == |g|
    ensures Mul(g, x, One(|g|)) == x
  {
    MulToOne(g, x, |g|);
    assert Low(x, |x|) == x;
  }

  lemma {:induction false} MulToZero(g: seq<bool>, x: seq<bool>, y: seq<bool>, n: nat)
    requires |x| == |y| == |g| && n <= |g| && x == Zero(|g|)
    ensures MulTo(g, x, y, n) == Zero(|g|)
  {
    if n > 0 {
      MulToZero(g, x, y, n - 1);
    }
  }

  lemma {:induction false} MulToSwap(g: seq<bool>, x: seq<bool>, y: seq<bool>, n: nat)
    requires |x| == |y| == |g| && n <= |g|
    ensures MulTo(g, x, y, n) == Mul(g, y, Low(x, n))
  {
    if n == 0 {
      MulRightZero(g, y);
      assert Low(x, 0) == Zero(|g|);
    } else {
      MulToSwap(g, x, y, n - 1);
      LowStep(x, n - 1);
      MulToXorRight(g, y, Low(x, n - 1), Basis(|g|, n - 1), |g|);
      DoubledOne(g, n - 1);
      MulDoubled(g, y, One(|g|), n - 1);
      MulOne(g, y);
    }
  }

  lemma MulRightZero(g: seq<bool>, x: seq<bool>)
    requires |x| == |g|
    ensures Mul(g, x, Zero(|g|)) == Zero(|g|)
  {
    XorLaws(x, x, x);
    MulToXorRight(g, x, x, x, |g|);
    XorLaws(Mul(g, x, x), x, x);
  }

  lemma MulCommutes(g: seq<bool>, x: seq<bool>, y: seq<bool>)
    requires |x| == |y| == |g|
    ensures Mul(g, x, y) == Mul(g, y, x)
  {
    MulToSwap(g, x, y, |g|);
    assert Low(x, |x|) == x;
  }

  lemma DoubledMul(g: seq<bool>, x: seq<bool>, y: seq<bool>, n: nat)
    requires |x| == |y| == |g|
    ensures Mul(g, Doubled(g, x, n), y) == Doubled(g, Mul(g, x, y), n)
  {
    MulCommutes(g, Doubled(g, x, n), y);
    MulDoubled(g, y, x, n);
    MulCommutes(g, x, y);
  }

  lemma {:induction false} MulToAssociates(g: seq<bool>, x: seq<bool>, y: seq<bool>, z: seq<bool>, n: nat)
    requires |x| == |y| == |z| == |g| && n <= |g|
    ensures MulTo(g, x, Mul(g, y, z), n) == Mul(g, MulTo(g, x, y, n), z)
  {
    if n == 0 {
      MulToZero(g, Zero(|g|), z, |g|);
    } else {
      MulToAssociates(g, x, y, z, n - 1);
      DoubledMul(g, y, z, n - 1);
      MulToXorLeft(g, MulTo(g, x, y, n - 1), Doubled(g, y, n - 1), z, |g|);
    }
  }

  /** The laws of a commutative ring. */
  lemma MulLaws(g: seq<bool>, x: seq<bool>, y: seq<bool>, z: seq<bool>)
    requires |x| == |y| == |z| == |g|
    ensures Mul(g, x, y) == Mul(g, y, x)
    ensures Mul(g, Mul(g, x, y), z) == Mul(g, x, Mul(g, y, z))
    ensures Mul(g, One(|g|), x) == x
    ensures Mul(g, x, Xor(y, z)) == Xor(Mul(g, x, y), Mul(g, x, z))
  {
    MulCommutes(g, x, y);
    MulToAssociates(g, x, y, z, |g|);
    MulCommutes(g, One(|g|), x);
    MulOne(g, x);
    MulToXorRight(g, x, y, z, |g|);
  }

  // ---- The methods.

  // y << 1, reduced: the step that every loop of the file repeats.
  method ShiftLeft(g: seq<bool>, y: seq<bool>) returns (z: seq<bool>)
    requires |y| == |g| > 0
    ensures z == Double(g, y)
  {
    z := [false] + y[..|g| - 1];
    if y[|g| - 1] {
      z := Xor(z, g);
    }
  }

  // Adds the bits one at a time.
  method AddBits(was: seq<bool>, bits: seq<bool>) returns (prod: seq<bool>)
    requires |was| == |bits|
    ensures prod == Xor(was, bits)
  {
    prod := was;
    for k := 0 to |was|
      invariant |prod| == |was|
      invariant forall j | 0 <= j < |was| :: prod[j] == if j < k then was[j] != bits[j] else was[j]
    {
      prod := prod[k := prod[k] != bits[k]];
    }
  }

  /** galois_shift_multiply. */
  method ShiftMultiply(g: seq<bool>, x: seq<bool>, y: seq<bool>) returns (prod: seq<bool>)
    requires |x| == |y| == |g| > 0
    ensures prod == Mul(g, x, y)
  {
    hide Double, Xor;
    var w := |g|;
    var scratch := new seq<bool>[w](i => []);
    var shifted := y;
    for i := 0 to w
      invariant shifted == Doubled(g, y, i)
      invariant forall j | 0 <= j < i :: scratch[j] == Doubled(g, y, j)
    {
      scratch[i] := shifted;
      shifted := ShiftLeft(g, shifted);
    }
    prod := Zero(w);
    for i := 0 to w
      invariant prod == MulTo(g, x, y, i)
      invariant forall j | 0 <= j < w :: scratch[j] == Doubled(g, y, j)
    {
      if x[i] {
        prod := AddBits(prod, scratch[i]);
      }
    }
  }
}
