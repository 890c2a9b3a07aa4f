/** Device buffers, and schedules run on them stripe by stripe.

    A buffer is a sequence of bits. It is cut into stripes, a stripe into w packets and a packet into ps
    bits. Copying and xoring packets treats every bit alike, so the state of all devices seen at one
    stripe and one bit of every packet is a state of the abstract machine in module Schedules. */
module Buffers {
  import opened Arithmetic
  import opened Schedules

  // Bit b of packet y of stripe t.
  function At(w: nat, ps: nat, t: nat, y: nat, b: nat): nat {
    t * (w * ps) + y * ps + b
  }

  function Size(w: nat, ps: nat, stripes: nat): nat { stripes * (w * ps) }

  lemma AtBound(w: nat, ps: nat, stripes: nat, t: nat, y: nat, b: nat)
    requires t < stripes && y < w && b < ps
    ensures At(w, ps, t, y, b) < Size(w, ps, stripes)
  {
    MulNext(t, stripes, w * ps);
    MulNext(y, w, ps);
  }

  lemma AtParts(w: nat, ps: nat, s: nat, t: nat, y: nat, b: nat)
    requires y < w && b < ps && s == w * ps
    ensures At(w, ps, t, y, b) / s == t && At(w, ps, t, y, b) % s == y * ps + b
    ensures (y * ps + b) / ps == y && (y * ps + b) % ps == b
  {
    MulNext(y, w, ps);
    DivModUnique(s, t, y * ps + b);
    DivModUnique(ps, y, b);
    assert At(w, ps, t, y, b) == t * s + (y * ps + b);
  }

  lemma AtInjective(w: nat, ps: nat, t: nat, y: nat, b: nat, t': nat, y': nat, b': nat)
    requires y < w && b < ps && y' < w && b' < ps
    requires At(w, ps, t, y, b) == At(w, ps, t', y', b')
    ensures t == t' && y == y' && b == b'
  {
    hide At;
    AtParts(w, ps, w * ps, t, y, b);
    AtParts(w, ps, w * ps, t', y', b');
  }

  lemma AtCovers(w: nat, ps: nat, stripes: nat, i: nat) returns (t: nat, y: nat, b: nat)
    requires i < Size(w, ps, stripes)
    ensures t < stripes && y < w && b < ps && At(w, ps, t, y, b) == i
  {
    FactorsPositive(stripes, w * ps);
    FactorsPositive(w, ps);
    var s := w * ps;
    t := i / s;
    var r := i % s;
    assert i == t * s + r;
    DeviceBound(s, stripes, i);
    y, b := r / ps, r % ps;
    assert r == y * ps + b;
    DeviceBound(ps, w, r);
  }

  // Different packets of a stripe do not overlap.
  lemma PacketsApart(w: nat, ps: nat, t: nat, y: nat, y': nat)
    ensures y < y' ==> At(w, ps, t, y, 0) + ps <= At(w, ps, t, y', 0)
    ensures y' < y ==> At(w, ps, t, y', 0) + ps <= At(w, ps, t, y, 0)
  {
    if y < y' {
      MulNext(y, y', ps);
    } else if y' < y {
      MulNext(y', y, ps);
    }
  }

  // One operation on stripe t of all buffers.
  function StepBuffers(w: nat, ps: nat, S: seq<seq<bool>>, t: nat, op: Op): (S': seq<seq<bool>>)
    ensures |S'| == |S| && forall d | 0 <= d < |S| :: |S'[d]| == |S[d]|
  {
    if 0 <= op.srcDev < |S| && op.dstDev < |S| then
      var from, to := At(w, ps, t, op.srcPkt, 0), At(w, ps, t, op.dstPkt, 0);
      S[op.dstDev := seq(|S[op.dstDev]|, i requires 0 <= i < |S[op.dstDev]| =>
        if to <= i < to + ps && i - to + from < |S[op.srcDev]| then
          if op.isXor then S[op.dstDev][i] != S[op.srcDev][i - to + from] else S[op.srcDev][i - to + from]
        else S[op.dstDev][i])]
    else S
  }

  ghost predicate Sized(S: seq<seq<bool>>, devs: nat, size: nat) {
    |S| == devs && forall d | 0 <= d < devs :: |S[d]| == size
  }

  function RunBuffers(w: nat, ps: nat, S: seq<seq<bool>>, t: nat, ops: seq<Op>): (S': seq<seq<bool>>)
    ensures |S'| == |S| && forall d | 0 <= d < |S| :: |S'[d]| == |S[d]|
  {
    if |ops| == 0 then S else
      StepBuffers(w, ps, RunBuffers(w, ps, S, t, ops[..|ops| - 1]), t, ops[|ops| - 1])
  }

  lemma RunBuffersSnoc(w: nat, ps: nat, S: seq<seq<bool>>, t: nat, ops: seq<Op>, op: Op)
    ensures RunBuffers(w, ps, S, t, ops + [op]) == StepBuffers(w, ps, RunBuffers(w, ps, S, t, ops), t, op)
  {
    assert (ops + [op])[..|ops|] == ops;
  }

  lemma {:induction false} RunBuffersAppend(w: nat, ps: nat, S: seq<seq<bool>>, t: nat, a: seq<Op>, b: seq<Op>)
    ensures RunBuffers(w, ps, S, t, a + b) == RunBuffers(w, ps, RunBuffers(w, ps, S, t, a), t, b)
  {
    if |b| == 0 {
      assert a + b == a;
    } else {
      assert (a + b)[..|a + b| - 1] == a + b[..|b| - 1];
      RunBuffersAppend(w, ps, S, t, a, b[..|b| - 1]);
    }
  }

  // The n packets of all devices, seen at bit b of stripe t.
  ghost function View(w: nat, ps: nat, n: nat, S: seq<seq<bool>>, t: nat, b: nat): (P: seq<bool>)
    requires 0 < w
    ensures |P| == n
  {
    seq(n,
        q requires 0 <= q < n => q / w < |S| && At(w, ps, t, q % w, b) < |S[q / w]| && S[q / w][At(w, ps, t, q % w, b)])
  }

  lemma PacketIndex(w: nat, devs: nat, n: nat, d: nat, y: nat)
    requires y < w && d < devs && n == devs * w
    ensures d * w + y < n && (d * w + y) / w == d && (d * w + y) % w == y
  {
    DivModUnique(w, d, y);
    MulNext(d, devs, w);
  }

  lemma ViewAt(w: nat, ps: nat, n: nat, stripes: nat, S: seq<seq<bool>>, t: nat, b: nat, d: nat, y: nat)
    requires 0 < w && n == |S| * w && Sized(S, |S|, Size(w, ps, stripes)) && t < stripes && b < ps && d < |S| && y < w
    ensures d * w + y < n && At(w, ps, t, y, b) < Size(w, ps, stripes)
    ensures View(w, ps, n, S, t, b)[d * w + y] == S[d][At(w, ps, t, y, b)]
  {
    PacketIndex(w, |S|, n, d, y);
    AtBound(w, ps, stripes, t, y, b);
  }

  ghost predicate OpFits(devs: nat, w: nat, op: Op) {
    0 <= op.srcDev < devs && op.srcPkt < w && op.dstDev < devs && op.dstPkt < w
  }

  // At the stripe it works on, an operation on buffers is the operation of the abstract machine.
  lemma StepView(w: nat, ps: nat, n: nat, stripes: nat, S: seq<seq<bool>>, t: nat, b: nat, op: Op)
    requires 0 < w && n == |S| * w && Sized(S, |S|, Size(w, ps, stripes)) && t < stripes && b < ps && OpFits(|S|, w, op)
    ensures View(w, ps, n, StepBuffers(w, ps, S, t, op), t, b) == Step(w, View(w, ps, n, S, t, b), op)
  {
    hide At, Size, View;
    var P, S' := View(w, ps, n, S, t, b), StepBuffers(w, ps, S, t, op);
    ViewAt(w, ps, n, stripes, S, t, b, op.srcDev, op.srcPkt);
    ViewAt(w, ps, n, stripes, S, t, b, op.dstDev, op.dstPkt);
    PacketBit(w, ps, stripes, S, t, op, b);
    forall q | 0 <= q < n
      ensures View(w, ps, n, S', t, b)[q] == Step(w, P, op)[q]
    {
      var e, y := Dividing(w, |S|, n, q);
      ViewAt(w, ps, n, stripes, S, t, b, e, y);
      ViewAt(w, ps, n, stripes, S', t, b, e, y);
      if e != op.dstDev || y != op.dstPkt {
        OtherPosition(w, |S|, n, e, y, op.dstDev, op.dstPkt);
        if e == op.dstDev {
          OtherPacket(w, ps, t, y, b, t, op.dstPkt);
        }
      }
    }
  }

  lemma OtherPosition(w: nat, devs: nat, n: nat, d: nat, y: nat, d': nat, y': nat)
    requires y < w && y' < w && d < devs && d' < devs && n == devs * w && (d != d' || y != y')
    ensures d * w + y != d' * w + y'
  {
    PacketIndex(w, devs, n, d, y);
    PacketIndex(w, devs, n, d', y');
  }

  lemma Dividing(w: nat, devs: nat, n: nat, q: nat) returns (d: nat, y: nat)
    requires 0 < w && n == devs * w && q < n
    ensures d == q / w < devs && y == q % w < w && q == d * w + y
  {
    DeviceBound(w, devs, q);
    d, y := q / w, q % w;
  }

  // Bit b of the packet an operation writes.
  lemma PacketBit(w: nat, ps: nat, stripes: nat, S: seq<seq<bool>>, t: nat, op: Op, b: nat)
    requires Sized(S, |S|, Size(w, ps, stripes)) && t < stripes && b < ps && OpFits(|S|, w, op)
    ensures At(w, ps, t, op.srcPkt, b) < Size(w, ps, stripes) && At(w, ps, t, op.dstPkt, b) < Size(w, ps, stripes)
    ensures var was, src := S[op.dstDev][At(w, ps, t, op.dstPkt, b)], S[op.srcDev][At(w, ps, t, op.srcPkt, b)];
      StepBuffers(w, ps, S, t, op)[op.dstDev][At(w, ps, t, op.dstPkt, b)] == if op.isXor then was != src else src
  {
    AtBound(w, ps, stripes, t, op.srcPkt, b);
    AtBound(w, ps, stripes, t, op.dstPkt, b);
    assert At(w, ps, t, op.srcPkt, b) == At(w, ps, t, op.srcPkt, 0) + b;
    assert At(w, ps, t, op.dstPkt, b) == At(w, ps, t, op.dstPkt, 0) + b;
  }

  // A bit of another packet, or of another stripe, lies outside the packet written.
  lemma OtherPacket(w: nat, ps: nat, t: nat, y: nat, b: nat, t': nat, y': nat)
    requires y < w && y' < w && b < ps && (t != t' || y != y')
    ensures !(At(w, ps, t', y', 0) <= At(w, ps, t, y, b) < At(w, ps, t', y', 0) + ps)
  {
    var a, a0 := At(w, ps, t, y, b), At(w, ps, t', y', 0);
    if a0 <= a < a0 + ps {
      assert At(w, ps, t', y', a - a0) == a;
      AtInjective(w, ps, t, y, b, t', y', a - a0);
    }
  }

  lemma StepOtherStripe(w: nat, ps: nat, n: nat, S: seq<seq<bool>>, t: nat, b: nat, t': nat, op: Op)
    requires 0 < w && n == |S| * w && t != t' && b < ps && OpFits(|S|, w, op)
    ensures View(w, ps, n, StepBuffers(w, ps, S, t', op), t, b) == View(w, ps, n, S, t, b)
  {
    forall q | 0 <= q < n
      ensures View(w, ps, n, StepBuffers(w, ps, S, t', op), t, b)[q] == View(w, ps, n, S, t, b)[q]
    {
      var d, y := Dividing(w, |S|, n, q);
      OtherPacket(w, ps, t, y, b, t', op.dstPkt);
    }
  }

  lemma FitsPrefix(devs: nat, w: nat, ops: seq<Op>)
    requires Fits(devs, w, ops) && |ops| > 0
    ensures Fits(devs, w, ops[..|ops| - 1]) && OpFits(devs, w, ops[|ops| - 1])
  {
  }

  lemma {:induction false} RunView(w: nat, ps: nat, n: nat, stripes: nat, S: seq<seq<bool>>, t: nat, b: nat,
                                   ops: seq<Op>)
    requires 0 < w && n == |S| * w && Sized(S, |S|, Size(w, ps, stripes)) && t < stripes && b < ps && Fits(|S|, w, ops)
    ensures View(w, ps, n, RunBuffers(w, ps, S, t, ops), t, b) == Run(w, View(w, ps, n, S, t, b), ops)
  {
    hide Size, Step, StepBuffers, View;
    if |ops| > 0 {
      FitsPrefix(|S|, w, ops);
      RunView(w, ps, n, stripes, S, t, b, ops[..|ops| - 1]);
      StepView(w, ps, n, stripes, RunBuffers(w, ps, S, t, ops[..|ops| - 1]), t, b, ops[|ops| - 1]);
    }
  }

  lemma {:induction false} RunOtherStripe(w: nat, ps: nat, n: nat, S: seq<seq<bool>>, t: nat, b: nat, t': nat,
                                          ops: seq<Op>)
    requires 0 < w && n == |S| * w && t != t' && b < ps && Fits(|S|, w, ops)
    ensures View(w, ps, n, RunBuffers(w, ps, S, t', ops), t, b) == View(w, ps, n, S, t, b)
  {
    hide StepBuffers, View;
    if |ops| > 0 {
      FitsPrefix(|S|, w, ops);
      RunOtherStripe(w, ps, n, S, t, b, t', ops[..|ops| - 1]);
      StepOtherStripe(w, ps, n, RunBuffers(w, ps, S, t', ops[..|ops| - 1]), t, b, t', ops[|ops| - 1]);
    }
  }

  /** The schedule run on each of the first n stripes. */
  function RunStripes(w: nat, ps: nat, S: seq<seq<bool>>, n: nat, ops: seq<Op>): (S': seq<seq<bool>>)
    ensures |S'| == |S| && forall d | 0 <= d < |S| :: |S'[d]| == |S[d]|
  {
    if n == 0 then S else RunBuffers(w, ps, RunStripes(w, ps, S, n - 1, ops), n - 1, ops)
  }

  lemma {:induction false} RunStripesView(w: nat, ps: nat, n: nat, stripes: nat, S: seq<seq<bool>>, T: nat, t: nat,
                                          b: nat, ops: seq<Op>)
    requires 0 < w && n == |S| * w && Sized(S, |S|, Size(w, ps, stripes)) && t < stripes && T <= stripes && b < ps
    requires Fits(|S|, w, ops)
    ensures View(w, ps, n, RunStripes(w, ps, S, T, ops), t, b) ==
      if t < T then Run(w, View(w, ps, n, S, t, b), ops) else View(w, ps, n, S, t, b)
  {
    hide Size, Run, RunBuffers, View;
    if T > 0 {
      RunStripesView(w, ps, n, stripes, S, T - 1, t, b, ops);
      var S1 := RunStripes(w, ps, S, T - 1, ops);
      if t == T - 1 {
        RunView(w, ps, n, stripes, S1, t, b, ops);
      } else {
        RunOtherStripe(w, ps, n, S1, t, b, T - 1, ops);
      }
    }
  }

  /** Buffers that look alike at every stripe and bit are equal. */
  lemma SameViews(w: nat, ps: nat, n: nat, stripes: nat, S: seq<seq<bool>>, S': seq<seq<bool>>)
    requires 0 < w && n == |S| * w
    requires Sized(S, |S|, Size(w, ps, stripes)) && Sized(S', |S|, Size(w, ps, stripes))
    requires forall t, b | 0 <= t < stripes && 0 <= b < ps :: View(w, ps, n, S, t, b) == View(w, ps, n, S', t, b)
    ensures S == S'
  {
    forall d, i | 0 <= d < |S| && 0 <= i < |S[d]|
      ensures S[d][i] == S'[d][i]
    {
      var t, y, b := AtCovers(w, ps, stripes, i);
      PacketIndex(w, |S|, n, d, y);
      assert View(w, ps, n, S, t, b)[d * w + y] == S[d][i];
      assert View(w, ps, n, S', t, b)[d * w + y] == S'[d][i];
    }
    assert forall d | 0 <= d < |S| :: S[d] == S'[d];
  }

  // ---- Buffers as arrays.

  function Contents<E>(ptrs: seq<array<E>>): (S: seq<seq<E>>)
    reads ptrs
    ensures |S| == |ptrs| && forall d | 0 <= d < |S| :: S[d] == ptrs[d][..]
  {
    seq(|ptrs|, d requires 0 <= d < |ptrs| reads ptrs => ptrs[d][..])
  }

  lemma Written<E>(ptrs: seq<array<E>>, dest: nat, T: seq<seq<E>>)
    requires dest < |ptrs| == |T| && forall d | 0 <= d < |ptrs| && d != dest :: ptrs[d][..] == T[d]
    ensures Contents(ptrs) == T[dest := ptrs[dest][..]]
  {
  }

  ghost predicate Distinct<E>(ptrs: seq<array<E>>) {
    forall d, e | 0 <= d < e < |ptrs| :: ptrs[d] != ptrs[e]
  }

  ghost predicate AllSized<E>(ptrs: seq<array<E>>, size: nat) {
    forall d | 0 <= d < |ptrs| :: ptrs[d].Length == size
  }
}
