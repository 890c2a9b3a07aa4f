/** Facts about products, quotients and remainders, stated so that the solver meets no others. */
module Arithmetic {

  lemma MulMonotone(a: nat, b: nat, w: nat)
    requires a <= b
    ensures a * w <= b * w
  {
  }

  lemma MulNext(a: nat, b: nat, w: nat)
    requires a < b
    ensures a * w + w <= b * w
  {
    MulMonotone(a + 1, b, w);
    assert (a + 1) * w == a * w + w;
  }

  lemma DivModUnique(w: nat, d: nat, y: nat)
    requires y < w
    ensures (d * w + y) / w == d && (d * w + y) % w == y
  {
    var q := d * w + y;
    assert q == q / w * w + q % w;
    if q / w < d {
      MulNext(q / w, d, w);
    } else if d < q / w {
      MulNext(d, q / w, w);
    }
  }

  lemma Position(w: nat, base: nat, q: nat)
    requires 0 < w
    ensures (base + q / w) * w + q % w == base * w + q
  {
    assert q == q / w * w + q % w;
    assert (base + q / w) * w == base * w + q / w * w;
  }

  lemma DeviceBound(w: nat, devs: nat, q: nat)
    requires 0 < w && q < devs * w
    ensures q / w < devs
  {
    var d := q / w;
    assert d * w <= q;
    if devs <= d {
      MulMonotone(devs, d, w);
    }
  }

  lemma FactorsPositive(a: nat, b: nat)
    requires 0 < a * b
    ensures 0 < a && 0 < b
  {
  }
}
