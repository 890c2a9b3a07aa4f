/** Buffers that hold codewords of a bitmatrix: what encoding leaves behind, and how to make them. */
module Codewords {
  import opened Arithmetic
  import opened Fields
  import opened LinearAlgebra
  import opened Schedules
  import opened Buffers
  import opened Encoders
  import opened DecodingTheory

  ghost predicate CodewordAt(w: nat, ps: nat, cols: nat, B: seq<seq<bool>>, S: seq<seq<bool>>, t: nat, b: nat)
    requires 0 < w && IsBitmatrix(B, |B|, cols)
  {
    Codeword(cols, B, View(w, ps, cols + |B|, S, t, b))
  }

  /** The coding devices of S hold the encoding of its data devices. */
  ghost predicate CodewordBuffers(w: nat, ps: nat, stripes: nat, cols: nat, B: seq<seq<bool>>, S: seq<seq<bool>>)
    requires 0 < w && IsBitmatrix(B, |B|, cols)
  {
    forall t, b | 0 <= t < stripes && 0 <= b < ps :: CodewordAt(w, ps, cols, B, S, t, b)
  }

  // ---- What an encoder leaves.

  // Every packet of the matrix is written.
  ghost predicate RowsHaveOnes(cols: nat, B: seq<seq<bool>>)
    requires IsBitmatrix(B, |B|, cols)
  {
    forall r | 0 <= r < |B| :: Ones(B[r], cols) > 0
  }

  lemma EncodedKeepsData(cols: nat, B: seq<seq<bool>>, P: seq<bool>)
    requires IsBitmatrix(B, |B|, cols) && |P| == cols + |B|
    ensures Encoded(cols, B, P)[..cols] == P[..cols]
  {
  }

  lemma EncodedIsCodeword(cols: nat, B: seq<seq<bool>>, P: seq<bool>)
    requires IsBitmatrix(B, |B|, cols) && RowsHaveOnes(cols, B) && |P| == cols + |B|
    ensures Codeword(cols, B, Encoded(cols, B, P))
  {
    EncodedKeepsData(cols, B, P);
  }

  /** What the encoders leave is a codeword, when no row of the bitmatrix is zero. */
  lemma EncodingGivesCodewords(w: nat, ps: nat, stripes: nat, cols: nat, B: seq<seq<bool>>, S: seq<seq<bool>>,
                               S': seq<seq<bool>>)
    requires 0 < w && IsBitmatrix(B, |B|, cols) && RowsHaveOnes(cols, B)
    requires EncodedBuffers(w, ps, stripes, cols, B, S, S')
    ensures CodewordBuffers(w, ps, stripes, cols, B, S')
  {
    hide View, Encoded, Codeword;
    forall t, b | 0 <= t < stripes && 0 <= b < ps
      ensures CodewordAt(w, ps, cols, B, S', t, b)
    {
      assert EncodedAt(w, ps, cols, B, S, S', t, b);
      EncodedIsCodeword(cols, B, View(w, ps, cols + |B|, S, t, b));
    }
  }

  // The data devices keep what they held.
  lemma EncodingKeepsData(k: nat, m: nat, w: nat, ps: nat, stripes: nat, cols: nat, B: seq<seq<bool>>,
                          S: seq<seq<bool>>, S': seq<seq<bool>>)
    requires 0 < w && Shape(k, m, w, cols, |B|) && IsBitmatrix(B, |B|, cols)
    requires Sized(S, k + m, Size(w, ps, stripes)) && Sized(S', k + m, Size(w, ps, stripes))
    requires EncodedBuffers(w, ps, stripes, cols, B, S, S')
    ensures forall d | 0 <= d < k :: S'[d] == S[d]
  {
    hide View, Encoded, Size, At;
    AllPackets(k, m, w, cols, |B|);
    forall d, i | 0 <= d < k && 0 <= i < Size(w, ps, stripes)
      ensures S'[d][i] == S[d][i]
    {
      var t, y, b := AtCovers(w, ps, stripes, i);
      DataPosition(k, m, w, cols, |B|, d, y);
      assert EncodedAt(w, ps, cols, B, S, S', t, b);
      EncodedKeepsData(cols, B, View(w, ps, cols + |B|, S, t, b));
      ViewAt(w, ps, cols + |B|, stripes, S, t, b, d, y);
      ViewAt(w, ps, cols + |B|, stripes, S', t, b, d, y);
      var V, V' := View(w, ps, cols + |B|, S, t, b), View(w, ps, cols + |B|, S', t, b);
      assert V'[..cols][d * w + y] == V[..cols][d * w + y];
    }
  }

  lemma DataPosition(k: nat, m: nat, w: nat, cols: nat, rows: nat, d: nat, y: nat)
    requires Shape(k, m, w, cols, rows) && d < k && y < w
    ensures d * w + y < cols
  {
    MulNext(d, k, w);
  }

  // ---- Bit x of coding device i, in terms of positions in the buffers.

  // The data bits behind it: packet c % w of device c / w, as far into its packet as x is into its packet y.
  ghost function DataBehind(w: nat, ps: nat, cols: nat, S: seq<seq<bool>>, x: nat, y: nat): (z: seq<bool>)
    requires 0 < w
    ensures |z| == cols
  {
    seq(cols, c requires 0 <= c < cols =>
      c / w < |S| && 0 <= x + (c % w - y) * ps < |S[c / w]| && S[c / w][x + (c % w - y) * ps])
  }

  lemma AtFlat(w: nat, ps: nat, t: nat, y: nat, b: nat)
    ensures At(w, ps, t, y, b) == (t * w + y) * ps + b
  {
    assert t * (w * ps) == (t * w) * ps;
  }

  lemma AtShift(w: nat, ps: nat, t: nat, y: nat, y': nat, b: nat)
    ensures At(w, ps, t, y', b) == At(w, ps, t, y, b) + (y' - y) * ps
  {
  }

  lemma PacketHolding(w: nat, ps: nat, stripes: nat, x: nat) returns (t: nat, y: nat, b: nat)
    requires x < Size(w, ps, stripes)
    ensures 0 < w && 0 < ps && t < stripes && y < w && b < ps && At(w, ps, t, y, b) == x && y == (x / ps) % w
    ensures forall y' | 0 <= y' < w :: At(w, ps, t, y', b) == x + (y' - y) * ps
  {
    hide At, Size;
    t, y, b := AtCovers(w, ps, stripes, x);
    AtFlat(w, ps, t, y, b);
    DivModUnique(ps, t * w + y, b);
    DivModUnique(w, t, y);
    forall y' | 0 <= y' < w
      ensures At(w, ps, t, y', b) == x + (y' - y) * ps
    {
      AtShift(w, ps, t, y, y', b);
    }
  }

  lemma BehindIsView(k: nat, m: nat, w: nat, ps: nat, stripes: nat, cols: nat, rows: nat, S: seq<seq<bool>>, x: nat,
                     t: nat, y: nat, b: nat)
    requires Shape(k, m, w, cols, rows) && Sized(S, k + m, Size(w, ps, stripes)) && 0 < ps && t < stripes && b < ps
    requires forall y' | 0 <= y' < w :: At(w, ps, t, y', b) == x + (y' - y) * ps
    ensures View(w, ps, cols + rows, S, t, b)[..cols] == DataBehind(w, ps, cols, S, x, y)
  {
    hide At, Size, View, Shape;
    AllPackets(k, m, w, cols, rows);
    assert 0 < w && cols == k * w by { ShapeIs(k, m, w, cols, rows); }
    var V, z := View(w, ps, cols + rows, S, t, b), DataBehind(w, ps, cols, S, x, y);
    forall c | 0 <= c < cols
      ensures V[c] == z[c]
    {
      DeviceBound(w, k, c);
      assert c == c / w * w + c % w;
      ViewAt(w, ps, cols + rows, stripes, S, t, b, c / w, c % w);
    }
  }

  lemma ShapeIs(k: nat, m: nat, w: nat, cols: nat, rows: nat)
    requires Shape(k, m, w, cols, rows)
    ensures 0 < w && cols == k * w && rows == m * w
  {
  }

  /** Bit x of coding device i lies in packet y = x / ps mod w; after encoding it is row i * w + y of the bitmatrix
      times the bits as far into the data packets, or what it was when that row is zero. */
  lemma EncodedBit(k: nat, m: nat, w: nat, ps: nat, stripes: nat, cols: nat, B: seq<seq<bool>>, S: seq<seq<bool>>,
                   S': seq<seq<bool>>, i: nat, x: nat)
    requires 0 < w && Shape(k, m, w, cols, |B|) && IsBitmatrix(B, |B|, cols)
    requires Sized(S, k + m, Size(w, ps, stripes)) && Sized(S', k + m, Size(w, ps, stripes))
    requires EncodedBuffers(w, ps, stripes, cols, B, S, S') && i < m && x < stripes * (w * ps)
    ensures 0 < ps && x < |S'[k + i]| && x < |S[k + i]|
    ensures var y := (x / ps) % w;
      var behind := seq(cols, c requires 0 <= c < cols =>
        c / w < |S| && 0 <= x + (c % w - y) * ps < |S[c / w]| && S[c / w][x + (c % w - y) * ps]);
      && i * w + y < |B|
      && S'[k + i][x] == if Ones(B[i * w + y], cols) > 0 then Dot(F2, B[i * w + y], behind) else S[k + i][x]
  {
    hide At, Shape, Dot, Ones, EncodedBuffers, DataBehind;
    var t, y, b := PacketHolding(w, ps, stripes, x);
    EncodedBitAt(k, m, w, ps, stripes, cols, B, S, S', i, x, t, y, b);
    BehindIs(w, ps, cols, S, x, y);
  }

  lemma BehindIs(w: nat, ps: nat, cols: nat, S: seq<seq<bool>>, x: nat, y: nat)
    requires 0 < w
    ensures DataBehind(w, ps, cols, S, x, y) == seq(cols, c requires 0 <= c < cols =>
      c / w < |S| && 0 <= x + (c % w - y) * ps < |S[c / w]| && S[c / w][x + (c % w - y) * ps])
  {
  }

  lemma EncodedBitAt(k: nat, m: nat, w: nat, ps: nat, stripes: nat, cols: nat, B: seq<seq<bool>>, S: seq<seq<bool>>,
                     S': seq<seq<bool>>, i: nat, x: nat, t: nat, y: nat, b: nat)
    requires 0 < w && Shape(k, m, w, cols, |B|) && IsBitmatrix(B, |B|, cols)
    requires Sized(S, k + m, Size(w, ps, stripes)) && Sized(S', k + m, Size(w, ps, stripes))
    requires EncodedBuffers(w, ps, stripes, cols, B, S, S') && i < m && t < stripes && y < w && b < ps
    requires x == At(w, ps, t, y, b) && forall y' | 0 <= y' < w :: At(w, ps, t, y', b) == x + (y' - y) * ps
    ensures i * w + y < |B| && k + i < |S| && x < |S'[k + i]| && x < |S[k + i]|
    ensures S'[k + i][x] ==
      if Ones(B[i * w + y], cols) > 0 then Dot(F2, B[i * w + y], DataBehind(w, ps, cols, S, x, y)) else S[k + i][x]
  {
    hide At, View, Shape, Dot, Ones, Encoded, EncodedBuffers, DataBehind;
    ShapeIs(k, m, w, cols, |B|);
    AllPackets(k, m, w, cols, |B|);
    MulNext(i, m, w);
    BehindIsView(k, m, w, ps, stripes, cols, |B|, S, x, t, y, b);
    EncodedHere(w, ps, stripes, cols, B, S, S', t, b);
    ViewAt(w, ps, cols + |B|, stripes, S, t, b, k + i, y);
    ViewAt(w, ps, cols + |B|, stripes, S', t, b, k + i, y);
    CodingPosition(k, w, cols, i, y);
    EncodedRowIs(cols, B, View(w, ps, cols + |B|, S, t, b), i * w + y);
  }

  lemma CodingPosition(k: nat, w: nat, cols: nat, i: nat, y: nat)
    requires cols == k * w
    ensures (k + i) * w + y == cols + (i * w + y)
  {
  }

  lemma EncodedHere(w: nat, ps: nat, stripes: nat, cols: nat, B: seq<seq<bool>>, S: seq<seq<bool>>, S': seq<seq<bool>>,
                    t: nat, b: nat)
    requires 0 < w && IsBitmatrix(B, |B|, cols) && EncodedBuffers(w, ps, stripes, cols, B, S, S') && t < stripes
    requires b < ps
    ensures View(w, ps, cols + |B|, S', t, b) == Encoded(cols, B, View(w, ps, cols + |B|, S, t, b))
  {
    assert EncodedAt(w, ps, cols, B, S, S', t, b);
  }

  lemma EncodedRowIs(cols: nat, B: seq<seq<bool>>, P: seq<bool>, r: nat)
    requires IsBitmatrix(B, |B|, cols) && |P| == cols + |B| && r < |B|
    ensures Encoded(cols, B, P)[cols + r] ==
      if Ones(B[r], cols) > 0 then Dot(F2, B[r], P[..cols]) else P[cols + r]
  {
  }

  // ---- Buffers that show the same packets at every stripe and bit.

  function Stride(w: nat, ps: nat): (s: nat)
    requires 0 < w && 0 < ps
    ensures s == w * ps > 0
  {
    MulNext(0, w, ps);
    w * ps
  }

  // Bit i of device d when every packet repeats its bit of C.
  ghost predicate Repeated(w: nat, ps: nat, C: seq<bool>, d: nat, i: nat)
    requires 0 < w && 0 < ps
  {
    var p := Pos(w, d, i % Stride(w, ps) / ps);
    p < |C| && C[p]
  }

  ghost function FromPackets(w: nat, ps: nat, stripes: nat, devs: nat, C: seq<bool>): (S: seq<seq<bool>>)
    requires 0 < w && 0 < ps
    ensures Sized(S, devs, Size(w, ps, stripes))
  {
    seq(devs, d requires 0 <= d < devs =>
      seq(Size(w, ps, stripes), i requires 0 <= i < Size(w, ps, stripes) => Repeated(w, ps, C, d, i)))
  }

  lemma FromPacketsAt(w: nat, ps: nat, stripes: nat, devs: nat, C: seq<bool>, t: nat, y: nat, b: nat, d: nat)
    requires 0 < w && 0 < ps && t < stripes && y < w && b < ps && d < devs && Pos(w, d, y) < |C|
    ensures At(w, ps, t, y, b) < Size(w, ps, stripes)
    ensures FromPackets(w, ps, stripes, devs, C)[d][At(w, ps, t, y, b)] == C[Pos(w, d, y)]
  {
    hide At, Size, Pos;
    AtBound(w, ps, stripes, t, y, b);
    AtParts(w, ps, w * ps, t, y, b);
  }

  lemma FromPacketsView(k: nat, m: nat, w: nat, ps: nat, stripes: nat, n: nat, C: seq<bool>, t: nat, b: nat)
    requires 0 < w && 0 < ps && n == |C| == (k + m) * w && t < stripes && b < ps
    ensures View(w, ps, n, FromPackets(w, ps, stripes, k + m, C), t, b) == C
  {
    hide At, Size, View, FromPackets;
    var X := FromPackets(w, ps, stripes, k + m, C);
    forall q | 0 <= q < n
      ensures View(w, ps, n, X, t, b)[q] == C[q]
    {
      var d, y := Dividing(w, k + m, n, q);
      FromPacketsAt(w, ps, stripes, k + m, C, t, y, b, d);
      ViewAt(w, ps, n, stripes, X, t, b, d, y);
    }
  }

  // A device all of whose packets are zero.
  lemma FromPacketsZero(w: nat, ps: nat, stripes: nat, devs: nat, C: seq<bool>, d: nat)
    requires 0 < w && 0 < ps && d < devs && forall y | 0 <= y < w && Pos(w, d, y) < |C| :: !C[Pos(w, d, y)]
    ensures FromPackets(w, ps, stripes, devs, C)[d] == seq(Size(w, ps, stripes), i => false)
  {
    hide Size, Pos;
    var X := FromPackets(w, ps, stripes, devs, C)[d];
    forall i | 0 <= i < Size(w, ps, stripes)
      ensures !X[i]
    {
      PacketOf(w, ps, i);
    }
  }

  lemma PacketOf(w: nat, ps: nat, i: nat)
    requires 0 < w && 0 < ps
    ensures i % Stride(w, ps) / ps < w
  {
    DeviceBound(ps, w, i % Stride(w, ps));
  }

  // ---- Sums of codewords.

  ghost function XorBuffers(S: seq<seq<bool>>, X: seq<seq<bool>>): (T: seq<seq<bool>>)
    requires |S| == |X| && forall d | 0 <= d < |S| :: |S[d]| == |X[d]|
    ensures |T| == |S| && forall d | 0 <= d < |S| :: |T[d]| == |S[d]|
  {
    seq(|S|, d requires 0 <= d < |S| => AddScaled(F2, S[d], true, X[d]))
  }

  lemma CodewordSum(cols: nat, B: seq<seq<bool>>, C: seq<bool>, C': seq<bool>)
    requires IsBitmatrix(B, |B|, cols) && Codeword(cols, B, C) && Codeword(cols, B, C')
    ensures Codeword(cols, B, AddScaled(F2, C, true, C'))
  {
    F2Valid();
    var T := AddScaled(F2, C, true, C');
    assert T[..cols] == AddScaled(F2, C[..cols], true, C'[..cols]);
    forall r | 0 <= r < |B|
      ensures T[cols + r] == Dot(F2, B[r], T[..cols])
    {
      DotComm(F2, B[r], T[..cols], cols);
      DotComm(F2, B[r], C[..cols], cols);
      DotComm(F2, B[r], C'[..cols], cols);
      DotAddScaled(F2, C[..cols], true, C'[..cols], B[r], cols);
    }
  }

  lemma XorView(w: nat, ps: nat, n: nat, stripes: nat, S: seq<seq<bool>>, X: seq<seq<bool>>, t: nat, b: nat)
    requires 0 < w && n == |S| * w && Sized(S, |S|, Size(w, ps, stripes)) && Sized(X, |S|, Size(w, ps, stripes))
    requires t < stripes && b < ps
    ensures View(w, ps, n, XorBuffers(S, X), t, b) ==
      AddScaled(F2, View(w, ps, n, S, t, b), true, View(w, ps, n, X, t, b))
  {
    hide At, Size, View;
    forall q | 0 <= q < n
      ensures View(w, ps, n, XorBuffers(S, X), t, b)[q] == (View(w, ps, n, S, t, b)[q] != View(w, ps, n, X, t, b)[q])
    {
      var d, y := Dividing(w, |S|, n, q);
      ViewAt(w, ps, n, stripes, S, t, b, d, y);
      ViewAt(w, ps, n, stripes, X, t, b, d, y);
      ViewAt(w, ps, n, stripes, XorBuffers(S, X), t, b, d, y);
    }
  }

  /** Adding a codeword, repeated over all stripes and bits, gives another codeword. */
  lemma SumIsCodeword(k: nat, m: nat, w: nat, ps: nat, stripes: nat, cols: nat, B: seq<seq<bool>>, S: seq<seq<bool>>,
                      C: seq<bool>)
    requires 0 < w && 0 < ps && Shape(k, m, w, cols, |B|) && IsBitmatrix(B, |B|, cols)
    requires Sized(S, k + m, Size(w, ps, stripes)) && CodewordBuffers(w, ps, stripes, cols, B, S)
    requires Codeword(cols, B, C)
    ensures CodewordBuffers(w, ps, stripes, cols, B, XorBuffers(S, FromPackets(w, ps, stripes, k + m, C)))
  {
    AllPackets(k, m, w, cols, |B|);
    assert |C| == cols + |B|;
    hide Shape, View, Size, FromPackets, XorBuffers, Codeword;
    var X := FromPackets(w, ps, stripes, k + m, C);
    forall t, b | 0 <= t < stripes && 0 <= b < ps
      ensures CodewordAt(w, ps, cols, B, XorBuffers(S, X), t, b)
    {
      assert CodewordAt(w, ps, cols, B, S, t, b);
      FromPacketsView(k, m, w, ps, stripes, cols + |B|, C, t, b);
      XorView(w, ps, cols + |B|, stripes, S, X, t, b);
      CodewordSum(cols, B, View(w, ps, cols + |B|, S, t, b), C);
    }
  }

  /** There are codewords: zero everywhere is one. */
  lemma ZeroBuffers(k: nat, m: nat, w: nat, ps: nat, stripes: nat, cols: nat, B: seq<seq<bool>>)
    returns (S: seq<seq<bool>>)
    requires 0 < w && 0 < ps && Shape(k, m, w, cols, |B|) && IsBitmatrix(B, |B|, cols)
    ensures Sized(S, k + m, Size(w, ps, stripes)) && CodewordBuffers(w, ps, stripes, cols, B, S)
  {
    hide Shape, View, Size, FromPackets, Codeword;
    AllPackets(k, m, w, cols, |B|);
    var C := seq(cols + |B|, i => false);
    ZeroCodeword(cols, B);
    S := FromPackets(w, ps, stripes, k + m, C);
    forall t, b | 0 <= t < stripes && 0 <= b < ps
      ensures CodewordAt(w, ps, cols, B, S, t, b)
    {
      FromPacketsView(k, m, w, ps, stripes, cols + |B|, C, t, b);
    }
  }
}
