/** When decoding by schedule can work at all.

    The packets read determine the lost ones only if the survivor matrix is nonsingular, and a coding packet
    whose row has no ones is never written. So a decoding matrix, however it was made, restores every codeword
    from every content of the lost devices only if the survivors are decodable and no lost row is zero. */
module DecodingLimits {
  import opened Arithmetic
  import opened Fields
  import opened LinearAlgebra
  import opened Schedules
  import opened Erasures
  import opened DecodingTheory
  import opened ScheduledDecoding

  // ---- A nonsingular matrix over GF(2) reaches every vector: it is injective on a finite set.

  ghost function AllBits(n: nat): (s: set<seq<bool>>)
    ensures forall v | |v| == n :: v in s
    ensures forall v | v in s :: |v| == n
  {
    if n == 0 then {[]} else
      var s := set v, b | v in AllBits(n - 1) && b in {false, true} :: v + [b];
      assert forall v: seq<bool> | |v| == n :: v in s by {
        forall v: seq<bool> | |v| == n
          ensures v in s
        {
          var u, b := v[..n - 1], v[n - 1];
          assert u in AllBits(n - 1) && b in {false, true} && v == u + [b];
        }
      }
      s
  }

  lemma MatVecSum(A: seq<seq<bool>>, n: nat, x: seq<bool>, y: seq<bool>, i: nat)
    requires IsMatrix(F2, A, n, n) && |x| == |y| == n && i < n
    ensures MatVec(F2, A, AddScaled(F2, x, true, y))[i] == (MatVec(F2, A, x)[i] != MatVec(F2, A, y)[i])
  {
    F2Valid();
    DotComm(F2, A[i], AddScaled(F2, x, true, y), n);
    DotComm(F2, A[i], x, n);
    DotComm(F2, A[i], y, n);
    DotAddScaled(F2, x, true, y, A[i], n);
  }

  lemma SameImage(A: seq<seq<bool>>, n: nat, x: seq<bool>, y: seq<bool>)
    requires IsMatrix(F2, A, n, n) && Nonsingular(F2, A, n) && |x| == |y| == n && MatVec(F2, A, x) == MatVec(F2, A, y)
    ensures x == y
  {
    var z := AddScaled(F2, x, true, y);
    forall i | 0 <= i < n
      ensures MatVec(F2, A, z)[i] == ZeroVec(F2, n)[i]
    {
      MatVecSum(A, n, x, y, i);
    }
    assert MatVec(F2, A, z) == ZeroVec(F2, n);
    assert IsVec(F2, z, n);
    forall i | 0 <= i < n
      ensures x[i] == y[i]
    {
      assert z[i] == ZeroVec(F2, n)[i];
    }
  }

  ghost function Image(A: seq<seq<bool>>, n: nat, s: set<seq<bool>>): set<seq<bool>>
    requires IsMatrix(F2, A, n, n)
  {
    set x | x in s && |x| == n :: MatVec(F2, A, x)
  }

  lemma {:induction false} ImageSize(A: seq<seq<bool>>, n: nat, s: set<seq<bool>>)
    requires IsMatrix(F2, A, n, n) && Nonsingular(F2, A, n) && forall x | x in s :: |x| == n
    ensures |Image(A, n, s)| == |s|
    decreases |s|
  {
    if s == {} {
      assert Image(A, n, s) == {};
    } else {
      var x :| x in s;
      ImageSize(A, n, s - {x});
      if MatVec(F2, A, x) in Image(A, n, s - {x}) {
        var y :| y in s - {x} && MatVec(F2, A, y) == MatVec(F2, A, x);
        SameImage(A, n, x, y);
      }
      assert Image(A, n, s) == Image(A, n, s - {x}) + {MatVec(F2, A, x)};
    }
  }

  lemma SubsetOfSameSize(a: set<seq<bool>>, b: set<seq<bool>>)
    requires a <= b && |a| == |b|
    ensures a == b
  {
    assert b == a + (b - a);
    assert |b| == |a| + |b - a|;
  }

  lemma ImageInside(A: seq<seq<bool>>, n: nat, s: set<seq<bool>>)
    requires IsMatrix(F2, A, n, n)
    ensures forall y | y in Image(A, n, s) :: |y| == n
  {
  }

  lemma Reaches(A: seq<seq<bool>>, n: nat, y: seq<bool>) returns (x: seq<bool>)
    requires IsMatrix(F2, A, n, n) && Nonsingular(F2, A, n) && |y| == n
    ensures |x| == n && MatVec(F2, A, x) == y
  {
    hide AllBits, MatVec, Nonsingular;
    ImageSize(A, n, AllBits(n));
    ImageInside(A, n, AllBits(n));
    SubsetOfSameSize(Image(A, n, AllBits(n)), AllBits(n));
    assert y in Image(A, n, AllBits(n));
    x :| x in AllBits(n) && |x| == n && MatVec(F2, A, x) == y;
  }

  // ---- The packets a codeword shows.

  ghost function Extended(cols: nat, B: seq<seq<bool>>, x: seq<bool>): (C: seq<bool>)
    requires IsBitmatrix(B, |B|, cols) && |x| == cols
    ensures |C| == cols + |B| && C[..cols] == x && Codeword(cols, B, C)
  {
    var C := x + seq(|B|, r requires 0 <= r < |B| => Dot(F2, B[r], x));
    assert C[..cols] == x;
    C
  }

  // R turns what is read of C, with the targets holding anything, into what C has there.
  ghost predicate Restores(w: nat, cols: nat, B: seq<seq<bool>>, ids: seq<nat>, R: seq<seq<bool>>, C: seq<bool>,
                           P: seq<bool>)
    requires 0 < w && IsBitmatrix(B, |B|, cols) && IsBitmatrix(R, |R|, cols)
  {
    Codeword(cols, B, C) && |P| == cols + |R| && P[..cols] == Arranged(w, cols + |R|, ids, C)[..cols] ==>
      Encoded(cols, R, P) == Arranged(w, cols + |R|, ids, C)
  }

  ghost predicate RestoresAll(w: nat, cols: nat, B: seq<seq<bool>>, ids: seq<nat>, R: seq<seq<bool>>)
    requires 0 < w && IsBitmatrix(B, |B|, cols) && IsBitmatrix(R, |R|, cols)
  {
    forall C, P :: Restores(w, cols, B, ids, R, C, P)
  }

  /** Data that the survivors do not see, of which a lost packet is a one. */
  ghost predicate Unseen(w: nat, cols: nat, B: seq<seq<bool>>, ids: seq<nat>, rows: nat, x: seq<bool>, r: nat)
    requires 0 < w && IsBitmatrix(B, |B|, cols)
  {
    && |x| == cols && r < rows
    && Arranged(w, cols + rows, ids, Extended(cols, B, x))[..cols] == ZeroVec(F2, cols)
    && Arranged(w, cols + rows, ids, Extended(cols, B, x))[cols + r]
  }

  // The row of the decoding matrix for packet y of a lost device.
  lemma RowFor(w: nat, k: nat, cols: nat, rows: nat, ids: seq<nat>, p: nat, y: nat) returns (r: nat)
    requires 0 < w && k <= p < |ids| && y < w && Shape(k, |ids| - k, w, cols, rows)
    ensures r < rows && k + r / w == p && r % w == y
    ensures HasTarget(w, k, ids, r) && Target(w, k, ids, r) == Pos(w, ids[p], y)
  {
    hide Pos;
    var d := p - k;
    r := d * w + y;
    MulNext(d, |ids| - k, w);
    DivModUnique(w, d, y);
  }

  // A packet that is read directly shows its data.
  lemma SurvivorUnit(w: nat, k: nat, m: nat, cols: nat, B: seq<seq<bool>>, ids: seq<nat>, c: nat, x: seq<bool>)
    requires 0 < w && Shape(k, m, w, cols, |B|) && IsBitmatrix(B, |B|, cols) && c < cols && k <= |ids| && c / w < k
    requires ids[c / w] == c / w
    requires |x| == cols
    ensures MatVec(F2, SurvivorMatrix(w, cols, B, ids), x)[c] == x[c]
  {
    PosOf(w, c);
    assert SurvivorMatrix(w, cols, B, ids)[c] == UnitVec(F2, cols, c);
    F2Valid();
    DotUnit(F2, x, c);
  }

  /** A singular survivor matrix leaves such data. */
  lemma SingularUnseen(k: nat, m: nat, w: nat, cols: nat, B: seq<seq<bool>>, e: seq<bool>, rows: nat)
    returns (x: seq<bool>, r: nat)
    requires 0 < w && Shape(k, m, w, cols, |B|) && IsBitmatrix(B, |B|, cols) && |e| == k + m && Recoverable(e, k)
    requires Shape(k, |RowIds(e, k)| - k, w, cols, rows) && !Decodable(w, k, cols, B, e)
    ensures Unseen(w, cols, B, RowIds(e, k), rows, x, r)
  {
    hide Shape, RowIds, StandIn, Where, Recoverable, SurvivorMatrix, Arranged, Generator, HasTarget, Target, Pos, Dot;
    var ids := RowIds(e, k);
    var D := SurvivorMatrix(w, cols, B, ids);
    x :| IsVec(F2, x, cols) && MatVec(F2, D, x) == ZeroVec(F2, cols) && x != ZeroVec(F2, cols);
    var c := OneOf(x);
    var d, y := c / w, c % w;
    DataDevice(k, m, w, cols, |B|, c);
    StandInFirst(e, k, d);
    if !e[d] {
      SurvivorUnit(w, k, m, cols, B, ids, c, x);
      assert false;
    }
    RowIdsDistinct(e, k);
    assert d in ids[k..];
    var p :| k <= p < |ids| && ids[p] == d;
    r := RowFor(w, k, cols, rows, ids, p, y);
    ReadPackets(k, m, w, cols, B, ids, cols + rows, Extended(cols, B, x));
    TargetPacket(k, m, w, cols, |B|, ids, cols + rows, Extended(cols, B, x), r);
    assert Pos(w, d, y) == c by { PosOf(w, c); }
    assert Extended(cols, B, x)[..cols][c] == x[c];
  }

  lemma PosOf(w: nat, c: nat)
    requires 0 < w
    ensures Pos(w, c / w, c % w) == c
  {
  }

  lemma OneOf(x: seq<bool>) returns (c: nat)
    requires x != ZeroVec(F2, |x|)
    ensures c < |x| && x[c]
  {
    c :| 0 <= c < |x| && x[c] != ZeroVec(F2, |x|)[c];
  }

  // Such data and no data at all cannot both be restored.
  lemma UnseenNotRestored(k: nat, w: nat, cols: nat, B: seq<seq<bool>>, ids: seq<nat>, R: seq<seq<bool>>, x: seq<bool>,
                          r: nat)
    requires 0 < w && IsBitmatrix(B, |B|, cols) && IsBitmatrix(R, |R|, cols) && Unseen(w, cols, B, ids, |R|, x, r)
    ensures !RestoresAll(w, cols, B, ids, R)
  {
    hide Encoded, Codeword;
    var C, Z := Extended(cols, B, x), seq(cols + |B|, i => false);
    ZeroCodeword(cols, B);
    var P := seq(cols + |R|, i => false);
    assert P[..cols] == Arranged(w, cols + |R|, ids, Z)[..cols] == ZeroVec(F2, cols);
    assert !Arranged(w, cols + |R|, ids, Z)[cols + r];
    if Restores(w, cols, B, ids, R, C, P) {
      assert !Restores(w, cols, B, ids, R, Z, P);
    }
  }

  // A zero row leaves a one in the packet standing.
  lemma BlankLeftAlone(k: nat, m: nat, w: nat, cols: nat, B: seq<seq<bool>>, ids: seq<nat>, R: seq<seq<bool>>, r: nat)
    requires 0 < w && IsBitmatrix(B, |B|, cols) && IsBitmatrix(R, |R|, cols) && r < |R| && Ones(R[r], cols) == 0
    ensures !RestoresAll(w, cols, B, ids, R)
  {
    hide Codeword, Pos;
    var n := cols + |R|;
    var Z, P := seq(cols + |B|, i => false), seq(n, i => i == cols + r);
    ZeroCodeword(cols, B);
    assert P[..cols] == Arranged(w, n, ids, Z)[..cols];
    assert Encoded(cols, R, P)[cols + r] && !Arranged(w, n, ids, Z)[cols + r];
    assert !Restores(w, cols, B, ids, R, Z, P);
  }

  lemma EncodedPacket(cols: nat, R: seq<seq<bool>>, P: seq<bool>, r: nat)
    requires IsBitmatrix(R, |R|, cols) && |P| == cols + |R| && r < |R| && Ones(R[r], cols) > 0
    ensures Encoded(cols, R, P)[cols + r] == Dot(F2, R[r], P[..cols])
  {
  }

  // What a packet that is always zero looks like to the decoder.
  lemma BlankArranged(k: nat, m: nat, w: nat, cols: nat, B: seq<seq<bool>>, ids: seq<nat>, n: nat, C: seq<bool>, r: nat)
    requires 0 < w && Shape(k, m, w, cols, |B|) && IsBitmatrix(B, |B|, cols) && Codeword(cols, B, C)
    requires (forall x | 0 <= x < |ids| :: ids[x] < k + m) && cols + r < n && Blank(w, k, cols, B, ids, r)
    ensures !Arranged(w, n, ids, C)[cols + r]
  {
    hide Shape, Generator, HasTarget, Target, Arranged;
    TargetPacket(k, m, w, cols, |B|, ids, n, C, r);
    CodewordPacket(cols, B, C, Target(w, k, ids, r));
    NoOnesNoDot(Generator(cols, B, Target(w, k, ids, r)), C[..cols], cols);
  }

  /** A row for a packet that is always zero writes nothing, or is wrong for some codeword. */
  lemma BlankNotRestored(k: nat, m: nat, w: nat, cols: nat, B: seq<seq<bool>>, ids: seq<nat>, R: seq<seq<bool>>, r: nat)
    requires 0 < w && Shape(k, m, w, cols, |B|) && IsBitmatrix(B, |B|, cols) && IsBitmatrix(R, |R|, cols)
    requires k <= |ids| && (forall x | 0 <= x < |ids| :: ids[x] < k + m)
    requires Nonsingular(F2, SurvivorMatrix(w, cols, B, ids), cols)
    requires r < |R| && Blank(w, k, cols, B, ids, r)
    ensures !RestoresAll(w, cols, B, ids, R)
  {
    hide Shape, SurvivorMatrix, Blank, Arranged, Codeword, Nonsingular, Encoded, Dot;
    var n := cols + |R|;
    if Ones(R[r], cols) == 0 {
      BlankLeftAlone(k, m, w, cols, B, ids, R, r);
    } else {
      var c := OneSomewhere(R[r], cols);
      var u := UnitVec(F2, cols, c);
      var x := Reaches(SurvivorMatrix(w, cols, B, ids), cols, u);
      var C := Extended(cols, B, x);
      ReadPackets(k, m, w, cols, B, ids, n, C);
      var P := Arranged(w, n, ids, C);
      BlankArranged(k, m, w, cols, B, ids, n, C, r);
      F2Valid();
      DotUnit(F2, R[r], c);
      EncodedPacket(cols, R, P, r);
      assert !Restores(w, cols, B, ids, R, C, P);
    }
  }

  lemma BlankRow(k: nat, m: nat, w: nat, cols: nat, B: seq<seq<bool>>, e: seq<bool>, rows: nat) returns (r: nat)
    requires 0 < w && Shape(k, m, w, cols, |B|) && IsBitmatrix(B, |B|, cols) && |e| == k + m && Recoverable(e, k)
    requires Shape(k, |RowIds(e, k)| - k, w, cols, rows) && !NonzeroRows(w, k, cols, B, e)
    ensures r < rows && Blank(w, k, cols, B, RowIds(e, k), r)
  {
    hide RowIds, StandIn, Where, Recoverable, Shape, HasTarget, Target, Pos;
    var ids := RowIds(e, k);
    var d, y :| k <= d < |e| && e[d] && 0 <= y < w && Ones(Generator(cols, B, Pos(w, d, y)), cols) == 0;
    RowIdsDistinct(e, k);
    assert d in ids[k..];
    var p :| k <= p < |ids| && ids[p] == d;
    r := RowFor(w, k, cols, rows, ids, p, y);
  }

  /** Whatever matrix is used: it restores every codeword only if the survivors determine the data and every
      lost coding packet has a nonzero row. */
  lemma RestoringNeeds(k: nat, m: nat, w: nat, cols: nat, B: seq<seq<bool>>, e: seq<bool>, R: seq<seq<bool>>)
    requires 0 < w && Shape(k, m, w, cols, |B|) && IsBitmatrix(B, |B|, cols) && |e| == k + m && Recoverable(e, k)
    requires IsBitmatrix(R, |R|, cols) && Shape(k, |RowIds(e, k)| - k, w, cols, |R|)
    requires RestoresAll(w, cols, B, RowIds(e, k), R)
    ensures Decodable(w, k, cols, B, e) && NonzeroRows(w, k, cols, B, e)
  {
    hide Shape, RowIds, Recoverable, RestoresAll, NonzeroRows;
    if !Decodable(w, k, cols, B, e) {
      var x, r := SingularUnseen(k, m, w, cols, B, e, |R|);
      UnseenNotRestored(k, w, cols, B, RowIds(e, k), R, x, r);
    } else if !NonzeroRows(w, k, cols, B, e) {
      var r := BlankRow(k, m, w, cols, B, e, |R|);
      BlankNotRestored(k, m, w, cols, B, RowIds(e, k), R, r);
    }
  }

  // Over a nonsingular matrix only the zero row recovers a packet that is always zero.
  lemma RecoversBlank(cols: nat, D: seq<seq<bool>>, row: seq<bool>, g: seq<bool>)
    requires Recovers(cols, D, row, g) && Nonsingular(F2, D, cols) && Ones(g, cols) == 0
    ensures Ones(row, cols) == 0
  {
    hide Nonsingular, Dot;
    if Ones(row, cols) > 0 {
      var c := OneSomewhere(row, cols);
      var d := Reaches(D, cols, UnitVec(F2, cols, c));
      assert RecoversAt(cols, D, row, g, d);
      F2Valid();
      DotUnit(F2, row, c);
      BlankDot(g, d, cols);
    }
  }

  lemma BlankDot(g: seq<bool>, d: seq<bool>, cols: nat)
    requires |g| == |d| == cols && Ones(g, cols) == 0
    ensures !Dot(F2, g, d)
  {
    NoOnesNoDot(g, d, cols);
  }

  /** When the survivors determine the data, the library's matrix restores what is read of C exactly when the
      packets that are always zero, which it does not write, are zero already. */
  lemma EncodedExact(k: nat, m: nat, w: nat, cols: nat, B: seq<seq<bool>>, ids: seq<nat>, R: seq<seq<bool>>,
                     C: seq<bool>, P: seq<bool>)
    requires 0 < w && Shape(k, m, w, cols, |B|) && IsBitmatrix(B, |B|, cols)
    requires k <= |ids| && forall x | 0 <= x < |ids| :: ids[x] < k + m
    requires Nonsingular(F2, SurvivorMatrix(w, cols, B, ids), cols)
    requires IsBitmatrix(R, |R|, cols) && forall r | 0 <= r < |R| :: DecodesRow(w, k, cols, B, ids, R, r)
    requires Codeword(cols, B, C) && |P| == cols + |R| && P[..cols] == Arranged(w, cols + |R|, ids, C)[..cols]
    ensures Encoded(cols, R, P) == Arranged(w, cols + |R|, ids, C) <==> BlanksClear(w, k, cols, B, ids, P)
  {
    hide Shape, Arranged, Codeword, Encoded, Nonsingular, SurvivorMatrix, Generator, HasTarget, Target, Recovers;
    if BlanksClear(w, k, cols, B, ids, P) {
      DecodingIsEncoding(k, m, w, cols, B, ids, R, C, P);
    } else {
      var r :| 0 <= r < |P| - cols && Blank(w, k, cols, B, ids, r) && P[cols + r];
      assert DecodesRow(w, k, cols, B, ids, R, r);
      RecoversBlank(cols, SurvivorMatrix(w, cols, B, ids), R[r], Generator(cols, B, Target(w, k, ids, r)));
      UnwrittenPacket(cols, R, P, r);
      BlankArranged(k, m, w, cols, B, ids, cols + |R|, C, r);
    }
  }

  lemma UnwrittenPacket(cols: nat, R: seq<seq<bool>>, P: seq<bool>, r: nat)
    requires IsBitmatrix(R, |R|, cols) && |P| == cols + |R| && r < |R| && Ones(R[r], cols) == 0
    ensures Encoded(cols, R, P)[cols + r] == P[cols + r]
  {
  }

  lemma NoBlanks(k: nat, m: nat, w: nat, cols: nat, B: seq<seq<bool>>, e: seq<bool>, r: nat)
    requires 0 < w && Shape(k, m, w, cols, |B|) && IsBitmatrix(B, |B|, cols) && |e| == k + m && Recoverable(e, k)
    requires NonzeroRows(w, k, cols, B, e)
    ensures !Blank(w, k, cols, B, RowIds(e, k), r)
  {
    if HasTarget(w, k, RowIds(e, k), r) {
      var ddf, cdf := |Where(e, 0, k, true)|, |Where(e, k, k + m, true)|;
      TargetNonzero(k, m, w, cols, B, e, ddf, cdf, RowIds(e, k), r);
    }
  }

  /** The combined decoding matrix of the library restores every codeword if and only if that is so. */
  lemma DecodingMatrixExact(k: nat, m: nat, w: nat, cols: nat, B: seq<seq<bool>>, e: seq<bool>, R: seq<seq<bool>>)
    requires 0 < w && Shape(k, m, w, cols, |B|) && IsBitmatrix(B, |B|, cols) && DecodingMatrix(k, m, w, cols, B, e, R)
    ensures RestoresAll(w, cols, B, RowIds(e, k), R) <==> Decodable(w, k, cols, B, e) && NonzeroRows(w, k, cols, B, e)
  {
    hide Shape, RowIds, Recoverable, NonzeroRows, Decodable, DecodesRow, Arranged, Codeword, Encoded, Blank;
    if RestoresAll(w, cols, B, RowIds(e, k), R) {
      RestoringNeeds(k, m, w, cols, B, e, R);
    } else if Decodable(w, k, cols, B, e) && NonzeroRows(w, k, cols, B, e) {
      var C, P :| !Restores(w, cols, B, RowIds(e, k), R, C, P);
      forall r
        ensures !Blank(w, k, cols, B, RowIds(e, k), r)
      {
        NoBlanks(k, m, w, cols, B, e, r);
      }
      IdsBound(e, k);
      DecodingIsEncoding(k, m, w, cols, B, RowIds(e, k), R, C, P);
    }
  }

  lemma IdsBound(e: seq<bool>, k: nat)
    requires Recoverable(e, k)
    ensures k <= |RowIds(e, k)| && forall x | 0 <= x < |RowIds(e, k)| :: RowIds(e, k)[x] < |e|
  {
  }
}
