/** Multiplication of 32-bit words by seven tables of byte products (galois.c). A product of byte i of x and
    byte j of y depends on i and j only through their sum, so the tables built for (0, 0..3) and (3, 1..3)
    serve all sixteen pairs. */
module SplitTables {
  import opened Galois
  import opened LogTables

  // b << s.
  function Place(w: nat, b: seq<bool>, s: nat): (x: seq<bool>)
    ensures |x| == w
  {
    seq(w, i => s <= i < s + |b| && b[i - s])
  }

  lemma {:induction false} PlaceDoubled(g: seq<bool>, b: seq<bool>, s: nat)
    requires s + |b| <= |g|
    ensures Place(|g|, b, s) == Doubled(g, Place(|g|, b, 0), s)
  {
    if s > 0 {
      PlaceDoubled(g, b, s - 1);
      var x := Place(|g|, b, s - 1);
      assert Double(g, x) == Place(|g|, b, s);
    }
  }

  /** A product of placed bytes depends only on the sum of the places. */
  lemma PlaceProduct(g: seq<bool>, b: seq<bool>, c: seq<bool>, s: nat, t: nat)
    requires s + |b| <= |g| && t + |c| <= |g|
    ensures Mul(g, Place(|g|, b, s), Place(|g|, c, t)) == Doubled(g, Mul(g, Place(|g|, b, 0), Place(|g|, c, 0)), s + t)
  {
    var x, y := Place(|g|, b, 0), Place(|g|, c, 0);
    PlaceDoubled(g, b, s);
    PlaceDoubled(g, c, t);
    MulDoubled(g, Doubled(g, x, s), y, t);
    DoubledMul(g, x, y, s);
    DoubledSum(g, Mul(g, x, y), s, t);
  }

  function Byte(x: seq<bool>, i: nat): (b: seq<bool>)
    requires |x| == 32 && i < 4
    ensures |b| == 8
  {
    x[8 * i..8 * i + 8]
  }

  lemma LowByte(x: seq<bool>, i: nat)
    requires |x| == 32 && i < 4
    ensures Low(x, 8 * (i + 1)) == Xor(Low(x, 8 * i), Place(32, Byte(x, i), 8 * i))
    ensures Low(x, 0) == Zero(32) && Low(x, 32) == x
  {
  }

  // What table n holds at index 256 * p1 + p2.
  ghost function ByteProduct(g: seq<bool>, p1: nat, p2: nat, n: nat): seq<bool>
    requires |g| == 32
  {
    Doubled(g, Mul(g, Place(32, Bits(p1, 8), 0), Place(32, Bits(p2, 8), 0)), 8 * n)
  }

  ghost predicate HasProduct(g: seq<bool>, table: seq<seq<bool>>, p1: nat, p2: nat, n: nat)
    requires |g| == 32
  {
    p1 * 256 + p2 < |table| && table[p1 * 256 + p2] == ByteProduct(g, p1, p2, n)
  }

  ghost predicate SplitTable(g: seq<bool>, table: seq<seq<bool>>, n: nat)
    requires |g| == 32
  {
    |table| == 65536 && forall p1, p2 | 0 <= p1 < 256 && 0 <= p2 < 256 :: HasProduct(g, table, p1, p2, n)
  }

  // The entries before (p1, p2).
  ghost predicate FilledTo(g: seq<bool>, table: seq<seq<bool>>, n: nat, p1: nat, p2: nat)
    requires |g| == 32
  {
    |table| == 65536 && forall q, p | 0 <= q < 256 && 0 <= p < 256 && (q < p1 || (q == p1 && p < p2)) ::
      HasProduct(g, table, q, p, n)
  }

  lemma FillOne(g: seq<bool>, table: seq<seq<bool>>, n: nat, p1: nat, p2: nat)
    requires |g| == 32 && p1 < 256 && p2 < 256 && FilledTo(g, table, n, p1, p2)
    ensures FilledTo(g, table[p1 * 256 + p2 := ByteProduct(g, p1, p2, n)], n, p1, p2 + 1)
  {
    var table' := table[p1 * 256 + p2 := ByteProduct(g, p1, p2, n)];
    forall q, p | 0 <= q < 256 && 0 <= p < 256 && (q < p1 || (q == p1 && p < p2 + 1))
      ensures HasProduct(g, table', q, p, n)
    {
      if !(q == p1 && p == p2) {
        assert HasProduct(g, table, q, p, n);
      }
    }
  }

  lemma RowFilled(g: seq<bool>, table: seq<seq<bool>>, n: nat, p1: nat)
    requires |g| == 32 && FilledTo(g, table, n, p1, 256)
    ensures FilledTo(g, table, n, p1 + 1, 0)
  {
  }

  method FillTable(g: seq<bool>, i: nat, j: nat) returns (table: array<seq<bool>>)
    requires |g| == 32 && i < 4 && j < 4
    ensures SplitTable(g, table[..], i + j)
  {
    hide ByteProduct, Bits, Place, FilledTo, HasProduct;
    table := new seq<bool>[65536](index => []);
    var index := 0;
    EmptyTable(g, table[..], i + j);
    for p1 := 0 to 256
      invariant index == p1 * 256 && FilledTo(g, table[..], i + j, p1, 0)
    {
      var p1elt := Place(32, Bits(p1, 8), i * 8);
      for p2 := 0 to 256
        invariant index == p1 * 256 + p2 && FilledTo(g, table[..], i + j, p1, p2)
      {
        var p2elt := Place(32, Bits(p2, 8), j * 8);
        var product := ShiftMultiply(g, p1elt, p2elt);
        EntryProduct(g, p1, p2, i, j);
        FillOne(g, table[..], i + j, p1, p2);
        ghost var next := table[..][index := product];
        table[index] := product;
        assert table[..] == next;
        index := index + 1;
      }
      RowFilled(g, table[..], i + j, p1);
    }
    TableFilled(g, table[..], i + j);
  }

  lemma EmptyTable(g: seq<bool>, table: seq<seq<bool>>, n: nat)
    requires |g| == 32 && |table| == 65536
    ensures FilledTo(g, table, n, 0, 0)
  {
  }

  lemma TableFilled(g: seq<bool>, table: seq<seq<bool>>, n: nat)
    requires |g| == 32 && FilledTo(g, table, n, 256, 0)
    ensures SplitTable(g, table, n)
  {
  }

  lemma EntryProduct(g: seq<bool>, p1: nat, p2: nat, i: nat, j: nat)
    requires |g| == 32 && i < 4 && j < 4
    ensures Mul(g, Place(32, Bits(p1, 8), i * 8), Place(32, Bits(p2, 8), j * 8)) == ByteProduct(g, p1, p2, i + j)
  {
    hide Mul, Place, Doubled, Bits;
    PlaceProduct(g, Bits(p1, 8), Bits(p2, 8), i * 8, j * 8);
  }

  /** galois_create_split_w8_tables: tables 0 to 3 from byte 0 of x, tables 4 to 6 from byte 3. */
  method CreateSplitTables(g: seq<bool>) returns (tables: array<seq<seq<bool>>>)
    requires |g| == 32
    ensures tables.Length == 7 && forall n | 0 <= n < 7 :: SplitTable(g, tables[n], n)
  {
    hide SplitTable;
    tables := new seq<seq<bool>>[7](n => []);
    var i := 0;
    while i < 4
      invariant i == 0 || i == 3 || i == 6
      invariant i > 0 ==> forall n | 0 <= n < i + 1 && n < 7 :: SplitTable(g, tables[n], n)
    {
      var start := if i == 0 then 0 else 1;
      for j := start to 4
        invariant forall n | 0 <= n < i + j :: SplitTable(g, tables[n], n)
      {
        var table := FillTable(g, i, j);
        tables[i + j] := table[..];
      }
      i := i + 3;
    }
  }

  // Adding one entry adds one byte of y.
  lemma NextByte(g: seq<bool>, table: seq<seq<bool>>, x: seq<bool>, y: seq<bool>, i: nat, j: nat)
    requires |g| == |x| == |y| == 32 && i < 4 && j < 4 && SplitTable(g, table, i + j)
    ensures Num(Byte(x, i)) * 256 + Num(Byte(y, j)) < |table|
    ensures table[Num(Byte(x, i)) * 256 + Num(Byte(y, j))] ==
      Mul(g, Place(32, Byte(x, i), 8 * i), Place(32, Byte(y, j), 8 * j))
  {
    hide Num, ByteProduct, Place, Mul;
    var p1, p2 := Num(Byte(x, i)), Num(Byte(y, j));
    assert Pow2(8) == 256;
    assert HasProduct(g, table, p1, p2, i + j);
    BitsNum(Byte(x, i));
    BitsNum(Byte(y, j));
    EntryProduct(g, p1, p2, i, j);
  }

  // The products of byte i of x.
  method AddByte(g: seq<bool>, tables: array<seq<seq<bool>>>, x: seq<bool>, y: seq<bool>, i: nat, was: seq<bool>)
    returns (accumulator: seq<bool>)
    requires |g| == |x| == |y| == |was| == 32 && i < 4
    requires tables.Length == 7 && forall n | 0 <= n < 7 :: SplitTable(g, tables[n], n)
    ensures accumulator == Xor(was, Mul(g, Place(32, Byte(x, i), 8 * i), y))
  {
    hide SplitTable, Place, Xor, Mul, Low, Byte;
    ghost var piece := Place(32, Byte(x, i), 8 * i);
    accumulator := was;
    MulRightZero(g, piece);
    LowByte(y, 0);
    XorLaws(was, was, was);
    for j := 0 to 4
      invariant accumulator == Xor(was, Mul(g, piece, Low(y, 8 * j)))
    {
      NextByte(g, tables[i + j], x, y, i, j);
      ghost var product := Mul(g, piece, Place(32, Byte(y, j), 8 * j));
      LowByte(y, j);
      MulSum(g, piece, Low(y, 8 * j), Place(32, Byte(y, j), 8 * j));
      XorLaws(was, Mul(g, piece, Low(y, 8 * j)), product);
      var a, b := Num(Byte(x, i)) * 256, Num(Byte(y, j));
      accumulator := Xor(accumulator, tables[i + j][a + b]);
    }
  }

  lemma MulSum(g: seq<bool>, x: seq<bool>, y: seq<bool>, z: seq<bool>)
    requires |x| == |y| == |z| == |g|
    ensures Mul(g, x, Xor(y, z)) == Xor(Mul(g, x, y), Mul(g, x, z))
    ensures Mul(g, Xor(y, z), x) == Xor(Mul(g, y, x), Mul(g, z, x))
  {
    MulToXorRight(g, x, y, z, |g|);
    MulToXorLeft(g, y, z, x, |g|);
  }

  /** galois_split_w8_multiply is multiplication by shifting. */
  method SplitMultiply(g: seq<bool>, tables: array<seq<seq<bool>>>, x: seq<bool>, y: seq<bool>)
    returns (accumulator: seq<bool>)
    requires |g| == |x| == |y| == 32
    requires tables.Length == 7 && forall n | 0 <= n < 7 :: SplitTable(g, tables[n], n)
    ensures accumulator == Mul(g, x, y)
  {
    hide SplitTable, Place, Xor, Mul, Low, Byte;
    accumulator := Zero(32);
    MulZeroLaw(g, y);
    LowByte(x, 0);
    for i := 0 to 4
      invariant accumulator == Mul(g, Low(x, 8 * i), y)
    {
      accumulator := AddByte(g, tables, x, y, i, accumulator);
      LowByte(x, i);
      MulSum(g, y, Low(x, 8 * i), Place(32, Byte(x, i), 8 * i));
    }
  }
}
