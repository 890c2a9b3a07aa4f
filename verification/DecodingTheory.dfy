/** Why the combined decoding matrix works.

    Packet p of a codeword is its generator row times the data: a unit row for a data packet, a row of
    the bitmatrix for a coding packet. The survivor matrix lists the generator rows of the packets the
    decoder reads. A row of the decoding matrix recovers a packet when its product with what is read is
    that packet, whatever the data. */
module DecodingTheory {
  import opened Arithmetic
  import opened Fields
  import opened LinearAlgebra
  import opened Schedules

  // Packet y of device d.
  function Pos(w: nat, d: nat, y: nat): nat { d * w + y }

  ghost function Generator(cols: nat, B: seq<seq<bool>>, p: nat): (g: seq<bool>)
    requires IsBitmatrix(B, |B|, cols)
    ensures |g| == cols
  {
    if p >= cols && p - cols < |B| then B[p - cols] else UnitVec(F2, cols, p)
  }

  /** The coding packets of C are the products of their rows with its data packets. */
  ghost predicate Codeword(cols: nat, B: seq<seq<bool>>, C: seq<bool>)
    requires IsBitmatrix(B, |B|, cols)
  {
    |C| == cols + |B| && forall r | 0 <= r < |B| :: C[cols + r] == Dot(F2, B[r], C[..cols])
  }

  lemma ZeroCodeword(cols: nat, B: seq<seq<bool>>)
    requires IsBitmatrix(B, |B|, cols)
    ensures Codeword(cols, B, seq(cols + |B|, i => false))
  {
    var C := seq(cols + |B|, i => false);
    F2Valid();
    forall r | 0 <= r < |B|
      ensures !Dot(F2, B[r], C[..cols])
    {
      DotZero(F2, B[r], C[..cols], cols);
    }
  }

  // The packets that the pointers ids give the decoder to read, and to write.
  ghost function Arranged(w: nat, n: nat, ids: seq<nat>, C: seq<bool>): (P: seq<bool>)
    requires 0 < w
    ensures |P| == n
  {
    seq(n, q requires 0 <= q < n => q / w < |ids| && Pos(w, ids[q / w], q % w) < |C| && C[Pos(w, ids[q / w], q % w)])
  }

  ghost function SurvivorMatrix(w: nat, cols: nat, B: seq<seq<bool>>, ids: seq<nat>): (D: seq<seq<bool>>)
    requires 0 < w && IsBitmatrix(B, |B|, cols)
    ensures IsMatrix(F2, D, cols, cols)
  {
    seq(cols, q requires 0 <= q < cols => Generator(cols, B, if q / w < |ids| then Pos(w, ids[q / w], q % w) else q))
  }

  ghost predicate RecoversAt(cols: nat, D: seq<seq<bool>>, row: seq<bool>, g: seq<bool>, d: seq<bool>)
    requires IsMatrix(F2, D, cols, cols) && |row| == |g| == |d| == cols
  {
    Dot(F2, row, MatVec(F2, D, d)) == Dot(F2, g, d)
  }

  /** From what the survivors hold, row computes the packet with generator row g. */
  ghost predicate Recovers(cols: nat, D: seq<seq<bool>>, row: seq<bool>, g: seq<bool>) {
    && IsMatrix(F2, D, cols, cols) && |row| == |g| == cols
    && forall d | |d| == cols :: RecoversAt(cols, D, row, g, d)
  }

  // A row of the inverse recovers a data packet.
  lemma InverseRecovers(cols: nat, D: seq<seq<bool>>, inverse: seq<seq<bool>>, p: nat)
    requires IsMatrix(F2, D, cols, cols) && IsMatrix(F2, inverse, cols, cols) && p < cols
    requires Inverses(F2, D, inverse, cols)
    ensures Recovers(cols, D, inverse[p], UnitVec(F2, cols, p))
  {
    F2Valid();
    forall d | |d| == cols
      ensures RecoversAt(cols, D, inverse[p], UnitVec(F2, cols, p), d)
    {
      assert IsVec(F2, d, cols);
      DotUnit(F2, d, p);
      assert MatVec(F2, inverse, MatVec(F2, D, d))[p] == d[p];
    }
  }

  lemma RecoversSum(cols: nat, D: seq<seq<bool>>, row: seq<bool>, g: seq<bool>, row': seq<bool>, g': seq<bool>)
    requires Recovers(cols, D, row, g) && Recovers(cols, D, row', g')
    ensures Recovers(cols, D, AddScaled(F2, row, true, row'), AddScaled(F2, g, true, g'))
  {
    F2Valid();
    forall d | |d| == cols
      ensures RecoversAt(cols, D, AddScaled(F2, row, true, row'), AddScaled(F2, g, true, g'), d)
    {
      assert RecoversAt(cols, D, row, g, d) && RecoversAt(cols, D, row', g', d);
      DotAddScaled(F2, row, true, row', MatVec(F2, D, d), cols);
      DotAddScaled(F2, g, true, g', d, cols);
    }
  }

  // The columns of row that are not lost, and the lost ones before c.
  function Masked(lost: seq<bool>, row: seq<bool>, c: nat): (r: seq<bool>)
    requires |lost| == |row|
    ensures |r| == |row|
  {
    seq(|row|, x requires 0 <= x < |row| => row[x] && (x < c || !lost[x]))
  }

  // The columns that are read directly need no correction.
  lemma MaskStart(cols: nat, D: seq<seq<bool>>, lost: seq<bool>, row: seq<bool>)
    requires IsMatrix(F2, D, cols, cols) && |lost| == |row| == cols
    requires forall c | 0 <= c < cols && !lost[c] :: D[c] == UnitVec(F2, cols, c)
    ensures Recovers(cols, D, Masked(lost, row, 0), Masked(lost, row, 0))
  {
    F2Valid();
    var r := Masked(lost, row, 0);
    forall d | |d| == cols
      ensures RecoversAt(cols, D, r, r, d)
    {
      var s := MatVec(F2, D, d);
      forall c | 0 <= c < cols && r[c]
        ensures s[c] == d[c]
      {
        DotUnit(F2, d, c);
      }
      DotAgree(r, s, d, cols);
    }
  }

  lemma DotAgree(row: seq<bool>, s: seq<bool>, d: seq<bool>, n: nat)
    requires n <= |row| && n <= |s| && n <= |d|
    requires forall c | 0 <= c < n && row[c] :: s[c] == d[c]
    ensures DotTo(F2, row, s, n) == DotTo(F2, row, d, n)
  {
  }

  // Adding the row that recovers a lost column restores that column.
  lemma MaskNext(cols: nat, D: seq<seq<bool>>, lost: seq<bool>, row: seq<bool>, c: nat, cur: seq<bool>, fix: seq<bool>)
    requires |lost| == |row| == cols && c < cols
    requires Recovers(cols, D, cur, Masked(lost, row, c))
    requires lost[c] && row[c] ==> Recovers(cols, D, fix, UnitVec(F2, cols, c))
    ensures lost[c] && row[c] ==> Recovers(cols, D, AddScaled(F2, cur, true, fix), Masked(lost, row, c + 1))
    ensures !(lost[c] && row[c]) ==> Recovers(cols, D, cur, Masked(lost, row, c + 1))
  {
    if lost[c] && row[c] {
      RecoversSum(cols, D, cur, Masked(lost, row, c), fix, UnitVec(F2, cols, c));
      assert AddScaled(F2, Masked(lost, row, c), true, UnitVec(F2, cols, c)) == Masked(lost, row, c + 1);
    } else {
      assert Masked(lost, row, c) == Masked(lost, row, c + 1);
    }
  }

  lemma MaskDone(lost: seq<bool>, row: seq<bool>)
    requires |lost| == |row|
    ensures Masked(lost, row, |row|) == row
  {
  }

  lemma NoOnesNoDot(row: seq<bool>, x: seq<bool>, n: nat)
    requires n <= |row| && n <= |x| && Ones(row, n) == 0
    ensures !DotTo(F2, row, x, n)
  {
  }

  lemma OneSomewhere(row: seq<bool>, n: nat) returns (c: nat)
    requires n <= |row| && Ones(row, n) > 0
    ensures c < n && row[c]
  {
    if row[n - 1] { c := n - 1; } else { c := OneSomewhere(row, n - 1); }
  }

  // A nonzero packet is recovered by a nonzero row, so its target is written.
  lemma RecoversNonzero(cols: nat, D: seq<seq<bool>>, row: seq<bool>, g: seq<bool>)
    requires Recovers(cols, D, row, g) && Ones(g, cols) > 0
    ensures Ones(row, cols) > 0
  {
    F2Valid();
    var c := OneSomewhere(g, cols);
    var d := UnitVec(F2, cols, c);
    assert RecoversAt(cols, D, row, g, d);
    DotUnit(F2, g, c);
    if Ones(row, cols) == 0 {
      NoOnesNoDot(row, MatVec(F2, D, d), cols);
    }
  }

  lemma UnitHasOne(cols: nat, p: nat, n: nat)
    requires p < n <= cols
    ensures Ones(UnitVec(F2, cols, p), n) > 0
  {
    if n - 1 != p {
      UnitHasOne(cols, p, n - 1);
    }
  }

  lemma PosBound(k: nat, m: nat, w: nat, cols: nat, rows: nat, d: nat, y: nat)
    requires Shape(k, m, w, cols, rows) && y < w && d < k + m
    ensures Pos(w, d, y) < cols + rows
  {
    MulNext(d, k + m, w);
  }

  lemma DataDevice(k: nat, m: nat, w: nat, cols: nat, rows: nat, q: nat)
    requires Shape(k, m, w, cols, rows) && q < cols
    ensures q / w < k
  {
    DeviceBound(w, k, q);
  }

  // What is read is the survivor matrix times the data.
  lemma ReadPackets(k: nat, m: nat, w: nat, cols: nat, B: seq<seq<bool>>, ids: seq<nat>, n: nat, C: seq<bool>)
    requires 0 < w && Shape(k, m, w, cols, |B|) && IsBitmatrix(B, |B|, cols)
    requires k <= |ids| && (forall x | 0 <= x < |ids| :: ids[x] < k + m) && n >= cols
    requires Codeword(cols, B, C)
    ensures Arranged(w, n, ids, C)[..cols] == MatVec(F2, SurvivorMatrix(w, cols, B, ids), C[..cols])
  {
    hide Shape, Pos;
    F2Valid();
    var d := C[..cols];
    forall q | 0 <= q < cols
      ensures Arranged(w, n, ids, C)[q] == Dot(F2, SurvivorMatrix(w, cols, B, ids)[q], d)
    {
      DataDevice(k, m, w, cols, |B|, q);
      var p := Pos(w, ids[q / w], q % w);
      PosBound(k, m, w, cols, |B|, ids[q / w], q % w);
      CodewordPacket(cols, B, C, p);
    }
  }

  lemma CodewordPacket(cols: nat, B: seq<seq<bool>>, C: seq<bool>, p: nat)
    requires IsBitmatrix(B, |B|, cols) && Codeword(cols, B, C) && p < cols + |B|
    ensures C[p] == Dot(F2, Generator(cols, B, p), C[..cols])
  {
    if p < cols {
      F2Valid();
      DotUnit(F2, C[..cols], p);
    } else {
      assert C[cols + (p - cols)] == Dot(F2, B[p - cols], C[..cols]);
    }
  }

  // The packet that row r of the decoding matrix is for: one of the device behind pointer k + r / w.
  ghost predicate HasTarget(w: nat, k: nat, ids: seq<nat>, r: nat)
    requires 0 < w
  {
    k + r / w < |ids|
  }

  ghost function Target(w: nat, k: nat, ids: seq<nat>, r: nat): nat
    requires 0 < w && HasTarget(w, k, ids, r)
  {
    Pos(w, ids[k + r / w], r % w)
  }

  // Row r is for packet y of device d.
  ghost predicate RowIsFor(w: nat, k: nat, ids: seq<nat>, r: nat, d: nat, y: nat)
    requires 0 < w
  {
    HasTarget(w, k, ids, r) && ids[k + r / w] == d && r % w == y
  }

  /** Row r of R recovers its packet. */
  ghost predicate DecodesRow(w: nat, k: nat, cols: nat, B: seq<seq<bool>>, ids: seq<nat>, R: seq<seq<bool>>, r: nat)
    requires 0 < w && IsBitmatrix(B, |B|, cols) && r < |R|
  {
    && HasTarget(w, k, ids, r)
    && Recovers(cols, SurvivorMatrix(w, cols, B, ids), R[r], Generator(cols, B, Target(w, k, ids, r)))
  }

  // The packet that row r is for is zero whatever the data.
  ghost predicate Blank(w: nat, k: nat, cols: nat, B: seq<seq<bool>>, ids: seq<nat>, r: nat)
    requires 0 < w && IsBitmatrix(B, |B|, cols)
  {
    HasTarget(w, k, ids, r) && Ones(Generator(cols, B, Target(w, k, ids, r)), cols) == 0
  }

  // The packets to be decoded that are always zero are so already.
  ghost predicate BlanksClear(w: nat, k: nat, cols: nat, B: seq<seq<bool>>, ids: seq<nat>, P: seq<bool>)
    requires 0 < w && IsBitmatrix(B, |B|, cols)
  {
    forall r | 0 <= r < |P| - cols && Blank(w, k, cols, B, ids, r) :: !P[cols + r]
  }

  lemma PosSplit(k: nat, m: nat, w: nat, cols: nat, rows: nat, r: nat)
    requires 0 < w && Shape(k, m, w, cols, rows)
    ensures (cols + r) / w == k + r / w && (cols + r) % w == r % w
  {
    Position(w, k, r);
    DivModUnique(w, k + r / w, r % w);
  }

  lemma TargetPacket(k: nat, m: nat, w: nat, cols: nat, rows: nat, ids: seq<nat>, n: nat, C: seq<bool>, r: nat)
    requires 0 < w && Shape(k, m, w, cols, rows) && |C| == cols + rows
    requires (forall x | 0 <= x < |ids| :: ids[x] < k + m) && cols + r < n && HasTarget(w, k, ids, r)
    ensures Target(w, k, ids, r) < cols + rows
    ensures Arranged(w, n, ids, C)[cols + r] == C[Target(w, k, ids, r)]
  {
    PosSplit(k, m, w, cols, rows, r);
    PosBound(k, m, w, cols, rows, ids[k + r / w], r % w);
  }

  // The packet that row r is for: the product of its row, which is nonzero unless the packet is blank.
  lemma DecodeOne(k: nat, m: nat, w: nat, cols: nat, B: seq<seq<bool>>, ids: seq<nat>, R: seq<seq<bool>>, C: seq<bool>,
                  r: nat)
    requires 0 < w && Shape(k, m, w, cols, |B|) && IsBitmatrix(B, |B|, cols)
    requires k <= |ids| && forall x | 0 <= x < |ids| :: ids[x] < k + m
    requires IsBitmatrix(R, |R|, cols) && r < |R| && DecodesRow(w, k, cols, B, ids, R, r)
    requires Codeword(cols, B, C)
    ensures Arranged(w, cols + |R|, ids, C)[cols + r] == Dot(F2, R[r], Arranged(w, cols + |R|, ids, C)[..cols])
    ensures Blank(w, k, cols, B, ids, r) ==> !Arranged(w, cols + |R|, ids, C)[cols + r]
    ensures !Blank(w, k, cols, B, ids, r) ==> Ones(R[r], cols) > 0
  {
    hide Shape, HasTarget, Target, Arranged, SurvivorMatrix, Generator;
    var g := Generator(cols, B, Target(w, k, ids, r));
    TargetPacket(k, m, w, cols, |B|, ids, cols + |R|, C, r);
    ReadPackets(k, m, w, cols, B, ids, cols + |R|, C);
    CodewordPacket(cols, B, C, Target(w, k, ids, r));
    var D := SurvivorMatrix(w, cols, B, ids);
    assert RecoversAt(cols, D, R[r], g, C[..cols]);
    if Ones(g, cols) > 0 {
      RecoversNonzero(cols, D, R[r], g);
    } else {
      NoOnesNoDot(g, C[..cols], cols);
    }
  }

  /** Encoding the packets that are read with such a matrix gives the packets asked for. */
  lemma DecodingIsEncoding(k: nat, m: nat, w: nat, cols: nat, B: seq<seq<bool>>, ids: seq<nat>, R: seq<seq<bool>>,
                           C: seq<bool>, P: seq<bool>)
    requires 0 < w && Shape(k, m, w, cols, |B|) && IsBitmatrix(B, |B|, cols)
    requires k <= |ids| && forall x | 0 <= x < |ids| :: ids[x] < k + m
    requires IsBitmatrix(R, |R|, cols) && forall r | 0 <= r < |R| :: DecodesRow(w, k, cols, B, ids, R, r)
    requires Codeword(cols, B, C)
    requires |P| == cols + |R| && P[..cols] == Arranged(w, cols + |R|, ids, C)[..cols]
    requires BlanksClear(w, k, cols, B, ids, P)
    ensures Encoded(cols, R, P) == Arranged(w, cols + |R|, ids, C)
  {
    hide Shape, Arranged, DecodesRow, Codeword, Blank;
    var A := Arranged(w, cols + |R|, ids, C);
    forall q | 0 <= q < cols + |R|
      ensures Encoded(cols, R, P)[q] == A[q]
    {
      if q >= cols {
        DecodeOne(k, m, w, cols, B, ids, R, C, q - cols);
      } else {
        assert P[q] == P[..cols][q] == A[..cols][q];
      }
    }
  }
}
