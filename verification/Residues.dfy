/** Residues modulo a prime. Congruence is kept behind a predicate, so that proofs move between residues
    by naming the step. */
module Residues {

  ghost predicate Prime(p: int) {
    p >= 2 && forall d | 1 < d < p :: p % d != 0
  }

  ghost predicate Cong(p: int, a: int, b: int)
    requires p > 0
  {
    a % p == b % p
  }

  lemma RemainderUnique(p: int, q: int, r: int)
    requires 0 <= r < p
    ensures (p * q + r) % p == r
  {
    var x := p * q + r;
    var q', r' := x / p, x % p;
    assert x == p * q' + r';
    if q' < q {
      assert p * (q - q') == r' - r;
      Positive(p, q - q');
    } else if q < q' {
      assert p * (q' - q) == r - r';
      Positive(p, q' - q);
    }
  }

  lemma Positive(p: int, d: int)
    requires p > 0 && d > 0
    ensures p * d >= p
  {
  }

  // Adding a multiple of p changes nothing.
  lemma Multiple(p: int, a: int, k: int)
    requires p > 0
    ensures Cong(p, a + p * k, a)
  {
    assert a == p * (a / p) + a % p;
    assert a + p * k == p * (a / p + k) + a % p;
    RemainderUnique(p, a / p + k, a % p);
  }

  lemma CongWitness(p: int, a: int, b: int) returns (k: int)
    requires p > 0 && Cong(p, a, b)
    ensures a == b + p * k
  {
    k := a / p - b / p;
    assert a == p * (a / p) + a % p && b == p * (b / p) + b % p;
    assert p * k == p * (a / p) - p * (b / p);
  }

  lemma Distribute(p: int, k: int, l: int)
    ensures p * (k + l) == p * k + p * l && p * (k - l) == p * k - p * l
  {
  }

  lemma TimesWitness(p: int, b: int, k: int, c: int)
    ensures c * (b + p * k) == c * b + p * (c * k)
  {
    assert c * (p * k) == p * (c * k);
  }

  lemma CongShift(p: int, a: int, b: int, c: int)
    requires p > 0 && Cong(p, a, b)
    ensures Cong(p, a + c, b + c) && Cong(p, a - c, b - c)
  {
    CongAdd(p, a, b, c, c);
  }

  lemma CongAdd(p: int, a: int, b: int, c: int, d: int)
    requires p > 0 && Cong(p, a, b) && Cong(p, c, d)
    ensures Cong(p, a + c, b + d) && Cong(p, a - c, b - d)
  {
    hide Cong;
    var k := CongWitness(p, a, b);
    var l := CongWitness(p, c, d);
    Distribute(p, k, l);
    Multiple(p, b + d, k + l);
    Multiple(p, b - d, k - l);
  }

  lemma CongMul(p: int, a: int, b: int, c: int)
    requires p > 0 && Cong(p, a, b)
    ensures Cong(p, c * a, c * b)
  {
    hide Cong;
    var k := CongWitness(p, a, b);
    TimesWitness(p, b, k, c);
    Multiple(p, c * b, c * k);
  }

  lemma CongSmall(p: int, a: int, b: int)
    requires 0 <= a < p && 0 <= b < p && Cong(p, a, b)
    ensures a == b
  {
    RemainderUnique(p, 0, a);
    RemainderUnique(p, 0, b);
  }

  lemma CongResidue(p: int, a: int)
    requires p > 0
    ensures 0 <= a % p < p && Cong(p, a % p, a)
  {
    RemainderUnique(p, 0, a % p);
  }

  /** Modulo a prime, everything but zero has an inverse. */
  lemma Inverse(p: int, a: int) returns (b: int, c: int)
    requires Prime(p) && 0 < a < p
    ensures a * b == 1 + p * c
    decreases a
  {
    if a == 1 {
      b, c := 1, 0;
    } else {
      var q, r := p / a, p % a;
      assert p == a * q + r;
      var b', c' := Inverse(p, r);
      b, c := -q * b', c' - b';
      calc {
        a * b;
        -(a * q) * b';
        (r - p) * b';
        r * b' - p * b';
        1 + p * c' - p * b';
        1 + p * (c' - b');
      }
    }
  }

  /** A step that is not zero modulo p. */
  ghost predicate Unit(p: int, s: int)
    requires p > 0
  {
    exists b, c :: s * b == 1 + p * c
  }

  lemma NonzeroIsUnit(p: int, s: int)
    requires Prime(p) && !Cong(p, s, 0)
    ensures Unit(p, s)
  {
    RemainderUnique(p, 0, 0);
    CongResidue(p, s);
    var a := s % p;
    var b, c := Inverse(p, a);
    assert s == p * (s / p) + a;
    assert s * b == (p * (s / p) + a) * b == p * (s / p * b) + a * b;
    assert s * b == 1 + p * (s / p * b + c);
  }

  // Multiples of a unit reach every residue ...
  lemma Reaches(p: int, s: int, x: int) returns (m: int)
    requires p > 0 && Unit(p, s)
    ensures 0 <= m < p && Cong(p, s * m, x)
  {
    var b, c :| s * b == 1 + p * c;
    m := (b * x) % p;
    CongResidue(p, b * x);
    CongMul(p, m, b * x, s);
    assert s * (b * x) == (s * b) * x == (1 + p * c) * x == x + p * (c * x);
    Multiple(p, x, c * x);
  }

  // ... and no two of them below p agree.
  lemma Cancels(p: int, s: int, m: int, n: int)
    requires p > 0 && Unit(p, s) && Cong(p, s * m, s * n)
    ensures Cong(p, m, n)
  {
    hide Cong;
    var b, c :| s * b == 1 + p * c;
    CongMul(p, s * m, s * n, b);
    UndoMultiple(p, s, b, c, m);
    UndoMultiple(p, s, b, c, n);
    CongJoin(p, m, b * (s * m), b * (s * n), n);
  }

  lemma UndoMultiple(p: int, s: int, b: int, c: int, m: int)
    requires p > 0 && s * b == 1 + p * c
    ensures Cong(p, b * (s * m), m)
  {
    assert b * (s * m) == (s * b) * m == m + p * (c * m);
    Multiple(p, m, c * m);
  }

  lemma CongJoin(p: int, a: int, b: int, c: int, d: int)
    requires p > 0 && Cong(p, b, a) && Cong(p, b, c) && Cong(p, c, d)
    ensures Cong(p, a, d)
  {
  }

  // Two multiples of a unit agree only when they are the same below p.
  lemma SameMultiple(p: nat, s: int, m: nat, n: nat)
    requires 0 < p && Unit(p, s) && m < p && n < p
    ensures Cong(p, s * m, s * n) <==> m == n
  {
    if Cong(p, s * m, s * n) {
      Cancels(p, s, m, n);
      CongSmall(p, m, n);
    }
  }

  // The difference of two columns is a unit, so a walk with that step meets every column.
  lemma StepIsUnit(p: nat, i: nat, j: nat)
    requires Prime(p) && i < j < p
    ensures Unit(p, j - i)
  {
    if Cong(p, j - i, 0) {
      CongSmall(p, j - i, 0);
    }
    NonzeroIsUnit(p, j - i);
  }
}
