/** Doubling several field elements at once in a 32-bit word (reed_sol.c). A word holds lanes of w bits, 8, 16 or
    32; masks keep the shift inside each lane, and a subtraction spreads the bit that falls out of each lane over
    that lane, without a borrow from one lane to the next. */
module PackedDoubling {
  import opened Galois

  // ---- Bits of a 32-bit word.

  function Mask(i: nat): bv32 {
    if i == 0 then 0x1 else if i == 1 then 0x2 else if i == 2 then 0x4 else if i == 3 then 0x8
    else if i == 4 then 0x10 else if i == 5 then 0x20 else if i == 6 then 0x40 else if i == 7 then 0x80
    else if i == 8 then 0x100 else if i == 9 then 0x200 else if i == 10 then 0x400 else if i == 11 then 0x800
    else if i == 12 then 0x1000 else if i == 13 then 0x2000 else if i == 14 then 0x4000 else if i == 15 then 0x8000
    else if i == 16 then 0x1_0000 else if i == 17 then 0x2_0000
    else if i == 18 then 0x4_0000 else if i == 19 then 0x8_0000
    else if i == 20 then 0x10_0000 else if i == 21 then 0x20_0000
    else if i == 22 then 0x40_0000 else if i == 23 then 0x80_0000
    else if i == 24 then 0x100_0000 else if i == 25 then 0x200_0000
    else if i == 26 then 0x400_0000 else if i == 27 then 0x800_0000
    else if i == 28 then 0x1000_0000 else if i == 29 then 0x2000_0000
    else if i == 30 then 0x4000_0000 else 0x8000_0000
  }

  predicate Has(x: bv32, m: bv32) { x & m != 0 }

  predicate Bit(x: bv32, i: nat) { Has(x, Mask(i)) }

  predicate OneBit(m: bv32) { m != 0 && m & (m - 1) == 0 }

  lemma MaskStep(i: nat)
    requires 0 < i < 32
    ensures Mask(i) == Mask(i - 1) << 1
  {
    if i <= 8 {
    } else if i <= 16 {
    } else if i <= 24 {
    } else {
    }
  }

  lemma MaskTop(i: nat)
    requires i < 31
    ensures Mask(i) < 0x8000_0000
  {
  }

  lemma MaskOne(i: nat)
    requires i < 32
    ensures OneBit(Mask(i))
  {
  }

  lemma HasXor(x: bv32, y: bv32, m: bv32)
    requires OneBit(m)
    ensures Has(x ^ y, m) == (Has(x, m) != Has(y, m))
  {
    assert ((x ^ y) & m != 0) == ((x & m != 0) != (y & m != 0));
  }

  lemma HasAnd(x: bv32, y: bv32, m: bv32)
    requires OneBit(m)
    ensures Has(x & y, m) == (Has(x, m) && Has(y, m))
  {
    assert ((x & y) & m != 0) == ((x & m != 0) && (y & m != 0));
  }

  lemma OrSpreads(x: bv32, y: bv32)
    ensures x | y == 0 <==> x == 0 && y == 0
  {
  }

  lemma HasOr(x: bv32, y: bv32, m: bv32)
    ensures Has(x | y, m) == (Has(x, m) || Has(y, m))
  {
    OrSpreads(x & m, y & m);
    assert (x | y) & m == (x & m) | (y & m);
  }

  lemma BitXor(x: bv32, y: bv32, i: nat)
    requires i < 32
    ensures Bit(x ^ y, i) == (Bit(x, i) != Bit(y, i))
  {
    hide Mask, Has, OneBit;
    MaskOne(i);
    HasXor(x, y, Mask(i));
  }

  lemma BitAnd(x: bv32, y: bv32, i: nat)
    requires i < 32
    ensures Bit(x & y, i) == (Bit(x, i) && Bit(y, i))
  {
    hide Mask, Has, OneBit;
    MaskOne(i);
    HasAnd(x, y, Mask(i));
  }

  lemma BitOr(x: bv32, y: bv32, i: nat)
    ensures Bit(x | y, i) == (Bit(x, i) || Bit(y, i))
  {
    hide Mask, Has;
    HasOr(x, y, Mask(i));
  }

  lemma HasShift(x: bv32, m: bv32)
    ensures m < 0x8000_0000 ==> Has(x << 1, m << 1) == Has(x, m)
    ensures !Has(x << 1, 1)
  {
  }

  lemma BitShift(x: bv32, i: nat)
    requires i < 32
    ensures Bit(x << 1, i) == (i > 0 && Bit(x, i - 1))
  {
    hide Mask, Has;
    if i > 0 {
      MaskStep(i);
      MaskTop(i - 1);
      HasShift(x, Mask(i - 1));
    } else {
      MaskZero();
      HasShift(x, 1);
    }
  }

  lemma MaskZero()
    ensures Mask(0) == 1
  {
  }

  // ---- Lanes.

  predicate LaneWidth(w: nat) { w == 8 || w == 16 || w == 32 }

  // The top bit of the lane of bit i.
  function TopOf(w: nat, i: nat): (t: nat)
    requires LaneWidth(w) && i < 32
    ensures i <= t < 32
  {
    i - i % w + (w - 1)
  }

  // The masks of the file: all but the lowest bit of each lane, and the highest bit of each lane.
  function InnerMask(w: nat): bv32 { if w == 8 then 0xFEFE_FEFE else if w == 16 then 0xFFFE_FFFE else 0xFFFF_FFFE }

  function TopMask(w: nat): bv32 { if w == 8 then 0x8080_8080 else if w == 16 then 0x8000_8000 else 0x8000_0000 }

  lemma InnerBits(w: nat, i: nat)
    requires LaneWidth(w) && i < 32
    ensures Bit(InnerMask(w), i) == (i % w > 0)
  {
    if w == 8 { InnerBits8(i); } else if w == 16 { InnerBits16(i); } else { InnerBits32(i); }
  }

  lemma InnerBits8(i: nat)
    requires i < 32
    ensures Bit(0xFEFE_FEFE, i) == (i % 8 > 0)
  {
  }

  lemma InnerBits16(i: nat)
    requires i < 32
    ensures Bit(0xFFFE_FFFE, i) == (i % 16 > 0)
  {
  }

  lemma InnerBits32(i: nat)
    requires i < 32
    ensures Bit(0xFFFF_FFFE, i) == (i % 32 > 0)
  {
  }

  // tmp2 of the region routines, before it is masked with the polynomial.
  function Spread(w: nat, l: bv32): bv32
    requires w == 8 || w == 16
  {
    var tmp2 := l & TopMask(w);
    (tmp2 << 1) - (if w == 8 then tmp2 >> 7 else tmp2 >> 15)
  }

  function Fill(b: bool, m: bv32): bv32 { if b then m else 0 }

  lemma SpreadLanes8(l: bv32)
    ensures Spread(8, l) & 0xFF == Fill(l & 0x80 != 0, 0xFF)
    ensures Spread(8, l) & 0xFF00 == Fill(l & 0x8000 != 0, 0xFF00)
    ensures Spread(8, l) & 0xFF_0000 == Fill(l & 0x80_0000 != 0, 0xFF_0000)
    ensures Spread(8, l) & 0xFF00_0000 == Fill(l & 0x8000_0000 != 0, 0xFF00_0000)
  {
  }

  lemma SpreadLanes16(l: bv32)
    ensures Spread(16, l) & 0xFFFF == Fill(l & 0x8000 != 0, 0xFFFF)
    ensures Spread(16, l) & 0xFFFF_0000 == Fill(l & 0x8000_0000 != 0, 0xFFFF_0000)
  {
  }

  // The mask of the lane of bit i, and of its top bit.
  function LaneMask(w: nat, i: nat): bv32
    requires w == 8 || w == 16
  {
    if w == 8 then if i < 8 then 0xFF else if i < 16 then 0xFF00 else if i < 24 then 0xFF_0000 else 0xFF00_0000
    else if i < 16 then 0xFFFF else 0xFFFF_0000
  }

  lemma InLane8(i: nat)
    requires i < 32
    ensures Inside(Mask(i), LaneMask(8, i))
  {
    if i < 8 {
    } else if i < 16 {
    } else if i < 24 {
    } else {
    }
  }

  lemma TopMask8(i: nat)
    requires i < 32
    ensures Mask(TopOf(8, i)) ==
      if i < 8 then 0x80 else if i < 16 then 0x8000 else if i < 24 then 0x80_0000 else 0x8000_0000
  {
    assert TopOf(8, i) == if i < 8 then 7 else if i < 16 then 15 else if i < 24 then 23 else 31;
  }

  lemma InLane16(i: nat)
    requires i < 32
    ensures Inside(Mask(i), LaneMask(16, i))
  {
  }

  lemma TopMask16(i: nat)
    requires i < 32
    ensures Mask(TopOf(16, i)) == if i < 16 then 0x8000 else 0x8000_0000
  {
    assert TopOf(16, i) == if i < 16 then 15 else 31;
  }

  // s has all of the lane or none of it.
  predicate Filled(s: bv32, b: bool, lane: bv32) { s & lane == Fill(b, lane) }

  predicate Inside(m: bv32, lane: bv32) { m & lane == m && m != 0 }

  lemma FilledBit(s: bv32, b: bool, lane: bv32, m: bv32)
    requires Filled(s, b, lane) && Inside(m, lane)
    ensures Has(s, m) == b
  {
  }

  lemma SpreadLane(w: nat, l: bv32, i: nat)
    requires (w == 8 || w == 16) && i < 32
    ensures Filled(Spread(w, l), Bit(l, TopOf(w, i)), LaneMask(w, i))
  {
    hide Mask, TopOf, Spread;
    if w == 8 {
      SpreadLanes8(l);
      TopMask8(i);
    } else {
      SpreadLanes16(l);
      TopMask16(i);
    }
  }

  /** No borrow leaves its lane: every bit of the spread word is the top bit of its lane in l. */
  lemma SpreadBit(w: nat, l: bv32, i: nat)
    requires (w == 8 || w == 16) && i < 32
    ensures Bit(Spread(w, l), i) == Bit(l, TopOf(w, i))
  {
    hide Mask, Has, TopOf, Spread, LaneMask, Filled, Inside;
    if w == 8 { InLane8(i); } else { InLane16(i); }
    SpreadLane(w, l, i);
    FilledBit(Spread(w, l), Bit(l, TopOf(w, i)), LaneMask(w, i), Mask(i));
  }

  // ---- The polynomial, copied into every lane.

  // p holds the word g of the field in its low w bits.
  ghost predicate Reduction(g: seq<bool>, w: nat, p: bv32) {
    LaneWidth(w) && |g| == w && forall i | 0 <= i < 32 :: Bit(p, i) == (i < w && g[i])
  }

  ghost predicate InEveryLane(g: seq<bool>, w: nat, prim: bv32) {
    LaneWidth(w) && |g| == w && forall i | 0 <= i < 32 :: Bit(prim, i) == g[i % w]
  }

  // One byte up, and the words that a byte can be taken up from or kept in.
  function Up8(x: bv32): bv32 { x << 8 }

  predicate FitsUp8(m: bv32) { m < 0x100_0000 }

  predicate LowByte(m: bv32) { m & 0xFF == m }

  lemma HasUp8(x: bv32, m: bv32)
    ensures FitsUp8(m) ==> Has(Up8(x), Up8(m)) == Has(x, m)
    ensures LowByte(m) ==> !Has(Up8(x), m)
  {
  }

  lemma MaskByte(i: nat)
    requires 8 <= i < 32
    ensures Mask(i) == Up8(Mask(i - 8)) && FitsUp8(Mask(i - 8))
  {
  }

  lemma MaskLow(i: nat)
    requires i < 8
    ensures LowByte(Mask(i))
  {
  }

  lemma BitUp8(x: bv32, i: nat)
    requires i < 32
    ensures Bit(Up8(x), i) == (i >= 8 && Bit(x, i - 8))
  {
    hide Mask, Has, Up8, FitsUp8, LowByte;
    if i >= 8 {
      MaskByte(i);
      HasUp8(x, Mask(i - 8));
    } else {
      MaskLow(i);
      HasUp8(x, Mask(i));
    }
  }

  lemma Shift8(x: bv32, i: nat)
    requires i < 32
    ensures Bit(x << 8, i) == (i >= 8 && Bit(x, i - 8))
  {
    hide Mask, Has;
    BitUp8(x, i);
  }

  lemma Shift16(x: bv32, i: nat)
    requires i < 32
    ensures Bit(x << 16, i) == (i >= 16 && Bit(x, i - 16))
  {
    hide Mask, Has;
    ShiftTwice(x);
    Shift8(x << 8, i);
    if i >= 8 {
      Shift8(x, i - 8);
    }
  }

  lemma ShiftTwice(x: bv32)
    ensures x << 16 == (x << 8) << 8
  {
  }

  lemma AllClear(x: bv32)
    requires forall i | 0 <= i < 32 :: !Bit(x, i)
    ensures x == 0
  {
    assert !Bit(x, 0) && !Bit(x, 1) && !Bit(x, 2) && !Bit(x, 3) && !Bit(x, 4) && !Bit(x, 5) && !Bit(x, 6) && !Bit(x, 7);
    assert !Bit(x, 8) && !Bit(x, 9) && !Bit(x, 10) && !Bit(x, 11) && !Bit(x, 12) && !Bit(x, 13) && !Bit(x, 14) &&
        !Bit(x, 15);
    assert !Bit(x, 16) && !Bit(x, 17) && !Bit(x, 18) && !Bit(x, 19) && !Bit(x, 20) && !Bit(x, 21) && !Bit(x, 22) &&
        !Bit(x, 23);
    assert !Bit(x, 24) && !Bit(x, 25) && !Bit(x, 26) && !Bit(x, 27) && !Bit(x, 28) && !Bit(x, 29) && !Bit(x, 30) &&
        !Bit(x, 31);
  }

  lemma NoBits(i: nat)
    ensures !Bit(0, i)
  {
  }

  // The lanes before bit n are filled, and what is left of tmp is the next one.
  ghost predicate Copied(g: seq<bool>, w: nat, tmp: bv32, prim: bv32, n: nat) {
    CopyPoint(w, n) && |g| == w && OneLane(g, w, tmp, n) && LanesTo(g, w, prim, n)
  }

  ghost predicate CopyPoint(w: nat, n: nat) {
    (w == 8 || w == 16) && (n == 0 || n == 8 || n == 16 || n == 24 || n == 32) && n % w == 0
  }

  ghost predicate OneLane(g: seq<bool>, w: nat, tmp: bv32, n: nat)
    requires |g| == w
  {
    forall i | 0 <= i < 32 :: Bit(tmp, i) == (n <= i < n + w && g[i - n])
  }

  ghost predicate LanesTo(g: seq<bool>, w: nat, prim: bv32, n: nat)
    requires |g| == w > 0
  {
    forall i | 0 <= i < 32 :: Bit(prim, i) == (i < n && g[i % w])
  }

  lemma LaneIndex(w: nat, n: nat, i: nat)
    requires (w == 8 || w == 16) && n % w == 0 && n <= i < n + w
    ensures i % w == i - n
  {
  }

  function MoveUp(w: nat, tmp: bv32): bv32 { if w == 8 then tmp << 8 else tmp << 16 }

  lemma MovedBit(w: nat, tmp: bv32, i: nat)
    requires (w == 8 || w == 16) && i < 32
    ensures Bit(MoveUp(w, tmp), i) == (i >= w && Bit(tmp, i - w))
  {
    hide Mask, Has;
    Shift8(tmp, i);
    Shift16(tmp, i);
  }

  lemma CopyBound(g: seq<bool>, w: nat, tmp: bv32, prim: bv32, n: nat)
    requires Copied(g, w, tmp, prim, n)
    ensures n <= 32 && (tmp != 0 ==> n < 32)
  {
    hide Mask, Bit;
    if n == 32 {
      AllClear(tmp);
    }
  }

  lemma CopyOr(g: seq<bool>, w: nat, tmp: bv32, prim: bv32, n: nat)
    requires CopyPoint(w, n) && |g| == w && OneLane(g, w, tmp, n) && LanesTo(g, w, prim, n)
    ensures LanesTo(g, w, prim | tmp, n + w)
  {
    hide Mask, Bit;
    forall i | 0 <= i < 32
      ensures Bit(prim | tmp, i) == (i < n + w && g[i % w])
    {
      BitOr(prim, tmp, i);
      if n <= i < n + w {
        LaneIndex(w, n, i);
      }
    }
  }

  lemma CopyUp(g: seq<bool>, w: nat, tmp: bv32, n: nat)
    requires CopyPoint(w, n) && |g| == w && OneLane(g, w, tmp, n)
    ensures OneLane(g, w, MoveUp(w, tmp), n + w)
  {
    hide Mask, Bit, MoveUp;
    forall i | 0 <= i < 32
      ensures Bit(MoveUp(w, tmp), i) == (n + w <= i < n + w + w && g[i - (n + w)])
    {
      MovedBit(w, tmp, i);
    }
  }

  lemma NextLane(w: nat, n: nat)
    requires CopyPoint(w, n) && n < 32
    ensures CopyPoint(w, n + w)
  {
  }

  lemma CopyNext(g: seq<bool>, w: nat, tmp: bv32, prim: bv32, n: nat)
    requires Copied(g, w, tmp, prim, n) && n < 32
    ensures Copied(g, w, MoveUp(w, tmp), prim | tmp, n + w)
  {
    hide MoveUp, OneLane, LanesTo, CopyPoint;
    NextLane(w, n);
    CopyOr(g, w, tmp, prim, n);
    CopyUp(g, w, tmp, n);
  }

  lemma CopyDone(g: seq<bool>, w: nat, prim: bv32, n: nat)
    requires Copied(g, w, 0, prim, n)
    ensures InEveryLane(g, w, prim)
  {
    hide Mask;
    if n < 32 {
      forall t | 0 <= t < w
        ensures !g[t]
      {
        assert Bit(0, n + t) == g[(n + t) - n];
      }
    }
  }

  // The loops that build prim08 and prim16: tmp moves up a lane at a time until nothing is left of it.
  method CopyToLanes(g: seq<bool>, w: nat, p: bv32) returns (prim: bv32)
    requires (w == 8 || w == 16) && Reduction(g, w, p)
    ensures InEveryLane(g, w, prim)
  {
    hide Copied, InEveryLane;
    var tmp := p;
    prim := 0;
    ghost var n := 0;
    CopyStart(g, w, p);
    while tmp != 0
      invariant Copied(g, w, tmp, prim, n)
      decreases 32 - n
    {
      CopyBound(g, w, tmp, prim, n);
      CopyNext(g, w, tmp, prim, n);
      prim := prim | tmp;
      tmp := MoveUp(w, tmp);
      n := n + w;
    }
    CopyDone(g, w, prim, n);
  }

  lemma CopyStart(g: seq<bool>, w: nat, p: bv32)
    requires (w == 8 || w == 16) && Reduction(g, w, p)
    ensures Copied(g, w, p, 0, 0)
  {
    hide Mask;
    forall i | 0 <= i < 32
      ensures !Bit(0, i)
    {
      NoBits(i);
    }
  }

  // ---- Doubling every lane.

  function ShiftUp(l: bv32): bv32 { l << 1 }

  function Both(x: bv32, y: bv32): bv32 { x & y }

  function Sum(x: bv32, y: bv32): bv32 { x ^ y }

  lemma PieceBits(x: bv32, y: bv32, i: nat)
    requires i < 32
    ensures Bit(ShiftUp(x), i) == (i > 0 && Bit(x, i - 1))
    ensures Bit(Both(x, y), i) == (Bit(x, i) && Bit(y, i))
    ensures Bit(Sum(x, y), i) == (Bit(x, i) != Bit(y, i))
    ensures !Bit(0, i)
  {
    hide Bit;
    BitShift(x, i);
    BitAnd(x, y, i);
    BitXor(x, y, i);
    NoBits(i);
  }

  // What falls out of the lanes and is reduced.
  function Carried(w: nat, l: bv32, prim: bv32): bv32
    requires LaneWidth(w)
  {
    if w == 32 then if Has(l, TopMask(32)) then prim else 0 else Both(Spread(w, l), prim)
  }

  /** One word of reed_sol_galois_w08_region_multby_2, its w16 and its w32 counterpart. */
  function Times2(w: nat, l: bv32, prim: bv32): bv32
    requires LaneWidth(w)
  {
    if w == 32 then Sum(ShiftUp(l), Carried(w, l, prim)) else Sum(Both(ShiftUp(l), InnerMask(w)), Carried(w, l, prim))
  }

  lemma TopBit(l: bv32)
    ensures Has(l, TopMask(32)) == Bit(l, 31)
  {
  }

  lemma CarriedBit(g: seq<bool>, w: nat, l: bv32, prim: bv32, i: nat)
    requires LaneWidth(w) && |g| == w && InEveryLane(g, w, prim) && i < 32
    ensures Bit(Carried(w, l, prim), i) == (Bit(l, TopOf(w, i)) && g[i % w])
  {
    hide Bit, Has, TopMask, Spread, Both;
    if w == 32 {
      TopBit(l);
      PieceBits(l, l, i);
    } else {
      hide TopOf;
      SpreadBit(w, l, i);
      PieceBits(Spread(w, l), prim, i);
    }
  }

  ghost predicate DoubledBit(g: seq<bool>, w: nat, l: bv32, r: bv32, i: nat)
    requires LaneWidth(w) && |g| == w && i < 32
  {
    Bit(r, i) == ((i % w > 0 && Bit(l, i - 1)) != (Bit(l, TopOf(w, i)) && g[i % w]))
  }

  lemma Times2Bit(g: seq<bool>, w: nat, l: bv32, prim: bv32, i: nat)
    requires LaneWidth(w) && |g| == w && InEveryLane(g, w, prim) && i < 32
    ensures DoubledBit(g, w, l, Times2(w, l, prim), i)
  {
    hide Bit, Carried, TopOf, InnerMask, ShiftUp, Both, Sum;
    CarriedBit(g, w, l, prim, i);
    InnerBits(w, i);
    PieceBits(l, l, i);
    PieceBits(ShiftUp(l), InnerMask(w), i);
    PieceBits(ShiftUp(l), Carried(w, l, prim), i);
    PieceBits(Both(ShiftUp(l), InnerMask(w)), Carried(w, l, prim), i);
  }

  ghost predicate LaneStart(w: nat, first: nat) {
    LaneWidth(w) && first % w == 0 && first + w <= 32
  }

  /** The element in the lane that starts at bit first. */
  ghost function Lane(w: nat, x: bv32, first: nat): (e: seq<bool>)
    ensures |e| == w
  {
    seq(w, t requires 0 <= t < w => Bit(x, first + t))
  }

  lemma LanePlace(w: nat, first: nat, t: nat)
    requires LaneStart(w, first) && t < w
    ensures first + t < 32 && (first + t) % w == t && TopOf(w, first + t) == first + (w - 1)
  {
  }

  /** Each lane is doubled by itself. */
  lemma LaneDoubled(g: seq<bool>, w: nat, l: bv32, prim: bv32, first: nat)
    requires LaneStart(w, first) && |g| == w && InEveryLane(g, w, prim)
    ensures Lane(w, Times2(w, l, prim), first) == Double(g, Lane(w, l, first))
  {
    hide Bit, Times2, TopOf, InEveryLane;
    var r, e := Times2(w, l, prim), Lane(w, l, first);
    forall t | 0 <= t < w
      ensures Bit(r, first + t) == Double(g, e)[t]
    {
      LanePlace(w, first, t);
      Times2Bit(g, w, l, prim, first + t);
      assert t > 0 ==> e[t - 1] == Bit(l, first + t - 1);
      assert e[w - 1] == Bit(l, first + (w - 1));
    }
  }

  lemma LaneXor(w: nat, x: bv32, y: bv32, first: nat)
    requires LaneStart(w, first)
    ensures Lane(w, Sum(x, y), first) == Xor(Lane(w, x, first), Lane(w, y, first))
  {
    hide Bit, Sum, ShiftUp, Both;
    var z, a, b := Lane(w, Sum(x, y), first), Lane(w, x, first), Lane(w, y, first);
    forall t | 0 <= t < w
      ensures z[t] == Xor(a, b)[t]
    {
      PieceBits(x, y, first + t);
    }
  }
}
