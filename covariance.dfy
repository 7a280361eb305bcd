/** The GPFA joint covariance over n_obs time points and n_features observed
    variables, with one latent dimension.

    The matrix has side n_features * n_obs and is an n_obs x n_obs grid of
    n_features x n_features blocks: block (i, j) is Lambda * kT[i][j] * Lambda^T,
    and the diagonal blocks (i == j) also carry the noise diag(psi).
    Entries are exact reals; floating-point rounding is not modelled. */
module GpfaCovariance {

  /** The leading n x n part of m exists: the builder only reads kT[i][j] for i, j < n. */
  predicate Covers(m: seq<seq<real>>, n: nat) {
    |m| >= n && forall i :: 0 <= i < n ==> |m[i]| >= n
  }

  /** m is exactly n x n. */
  predicate IsSquare(m: seq<seq<real>>, n: nat) {
    |m| == n && forall i :: 0 <= i < n ==> |m[i]| == n
  }

  /** The leading n x n part of m is symmetric (as a Gram matrix of a kernel is). */
  predicate SymmetricOn(m: seq<seq<real>>, n: nat) {
    Covers(m, n) && forall i, j :: 0 <= i < n && 0 <= j < n ==> m[i][j] == m[j][i]
  }

  // ---------------------------------------------------------------------------
  // Block indexing: cell r of the big matrix is entry r % nf of block r / nf.

  /** Every cell of an (nf * n)-sided matrix lies in some block i < n at some offset a < nf. */
  lemma BlockOfCell(r: int, nf: nat, n: nat)
    requires 0 <= r < nf * n
    ensures nf > 0
    ensures 0 <= r / nf < n && 0 <= r % nf < nf
    ensures (r / nf) * nf + r % nf == r
  {
    if r / nf >= n {
      MulMonotone(n, r / nf, nf);
      assert false;
    }
  }

  /** Cell (block i, offset a) lies in the matrix, and division recovers i and a. */
  lemma CellOfBlock(i: nat, a: nat, nf: nat, n: nat)
    requires i < n && a < nf
    ensures i * nf + a < nf * n
    ensures (i * nf + a) / nf == i && (i * nf + a) % nf == a
  {
    MulMonotone(i + 1, n, nf);
    var r := i * nf + a;
    BlockCoordsUnique(r / nf, r % nf, i, a, nf);
  }

  /** Distinct (block, offset) pairs name distinct cells: the blocks are disjoint. */
  lemma BlockCoordsUnique(i: int, a: int, i2: int, a2: int, nf: nat)
    requires 0 <= a < nf && 0 <= a2 < nf
    requires i * nf + a == i2 * nf + a2
    ensures i == i2 && a == a2
  {
    if i < i2 {
      MulMonotone(i + 1, i2, nf);
      assert false;
    } else if i2 < i {
      MulMonotone(i2 + 1, i, nf);
      assert false;
    }
  }

  /** Cell r lies in the rows of block i exactly when r / nf == i. */
  lemma InBlockIff(r: nat, i: nat, nf: nat)
    requires nf > 0
    ensures (i * nf <= r < i * nf + nf) <==> r / nf == i
  {
    if i * nf <= r < i * nf + nf {
      BlockCoordsUnique(r / nf, r % nf, i, r - i * nf, nf);
    }
    if r / nf == i {
      assert r == i * nf + r % nf;
    }
  }

  /** Moving from pair (i, j) to the next in row-major order adds exactly the cells of block (i, j). */
  lemma RowMajorStep(r: nat, c: nat, i: nat, j: nat, nf: nat)
    requires nf > 0
    ensures (i * nf <= r < i * nf + nf && j * nf <= c < j * nf + nf) <==> (r / nf == i && c / nf == j)
    ensures r / nf == i ==> r - i * nf == r % nf
    ensures c / nf == j ==> c - j * nf == c % nf
  {
    InBlockIff(r, i, nf);
    InBlockIff(c, j, nf);
  }

  lemma MulMonotone(x: int, y: int, k: nat)
    requires x <= y
    ensures x * k <= y * k
  {
    assert y * k - x * k == (y - x) * k;
  }

  // ---------------------------------------------------------------------------
  // The block and the closed-form entry.

  /** Lambda * k * Lambda^T, plus diag(psi) when withNoise: the block `cov` of one
      observation pair. It is square and symmetric whatever k is. */
  function Block(lambda: seq<real>, k: real, psi: seq<real>, withNoise: bool): (cov: seq<seq<real>>)
    requires |psi| == |lambda|
    ensures IsSquare(cov, |lambda|)
    ensures forall a, b :: 0 <= a < |lambda| && 0 <= b < |lambda| ==> cov[a][b] == cov[b][a]
  {
    seq(|lambda|, a requires 0 <= a < |lambda| =>
      seq(|lambda|, b requires 0 <= b < |lambda| =>
        lambda[a] * k * lambda[b] + (if withNoise && a == b then psi[a] else 0.0)))
  }

  /** Entry (r, c) of the joint covariance: entry (r % nf, c % nf) of the block of
      observation pair (r / nf, c / nf), noise included when the pair is on the diagonal. */
  function CovEntry(lambda: seq<real>, kT: seq<seq<real>>, psi: seq<real>, nf: nat, nObs: nat, r: nat, c: nat): real
    requires |lambda| == nf && |psi| == nf && Covers(kT, nObs)
    requires r < nf * nObs && c < nf * nObs
  {
    BlockOfCell(r, nf, nObs);
    BlockOfCell(c, nf, nObs);
    var i, j := r / nf, c / nf;
    Block(lambda, kT[i][j], psi, i == j)[r % nf][c % nf]
  }

  /** The closed form: [i*nf + a, j*nf + b] holds Lambda[a] * kT[i][j] * Lambda[b],
      plus psi[a] exactly when i == j and a == b. */
  lemma CovEntryAt(lambda: seq<real>, kT: seq<seq<real>>, psi: seq<real>, nf: nat, nObs: nat,
                   i: nat, j: nat, a: nat, b: nat)
    requires |lambda| == nf && |psi| == nf && Covers(kT, nObs)
    requires i < nObs && j < nObs && a < nf && b < nf
    ensures i * nf + a < nf * nObs && j * nf + b < nf * nObs
    ensures CovEntry(lambda, kT, psi, nf, nObs, i * nf + a, j * nf + b)
         == lambda[a] * kT[i][j] * lambda[b] + (if i == j && a == b then psi[a] else 0.0)
  {
    CellOfBlock(i, a, nf, nObs);
    CellOfBlock(j, b, nf, nObs);
  }

  /** Off-diagonal blocks carry no noise: only the Lambda kT Lambda^T term. */
  lemma OffDiagonalBlockNoNoise(lambda: seq<real>, kT: seq<seq<real>>, psi: seq<real>, nf: nat, nObs: nat,
                                i: nat, j: nat, a: nat, b: nat)
    requires |lambda| == nf && |psi| == nf && Covers(kT, nObs)
    requires i < nObs && j < nObs && a < nf && b < nf && i != j
    ensures i * nf + a < nf * nObs && j * nf + b < nf * nObs
    ensures CovEntry(lambda, kT, psi, nf, nObs, i * nf + a, j * nf + b) == lambda[a] * kT[i][j] * lambda[b]
  {
    CovEntryAt(lambda, kT, psi, nf, nObs, i, j, a, b);
  }

  /** Seen cell by cell, the noise sits exactly on the main diagonal of the whole
      matrix: cell (r, c) gets psi[r % nf] if and only if r == c. */
  lemma NoiseOnMainDiagonal(lambda: seq<real>, kT: seq<seq<real>>, psi: seq<real>, nf: nat, nObs: nat,
                            r: nat, c: nat)
    requires |lambda| == nf && |psi| == nf && Covers(kT, nObs)
    requires r < nf * nObs && c < nf * nObs
    ensures nf > 0
    ensures CovEntry(lambda, kT, psi, nf, nObs, r, c)
         == lambda[r % nf] * kT[r / nf][c / nf] * lambda[c % nf] + (if r == c then psi[r % nf] else 0.0)
  {
    BlockOfCell(r, nf, nObs);
    BlockOfCell(c, nf, nObs);
    if r / nf == c / nf && r % nf == c % nf {
      assert r == c;
    }
  }

  /** A symmetric latent Gram matrix gives a symmetric joint covariance. */
  lemma CovSymmetric(lambda: seq<real>, kT: seq<seq<real>>, psi: seq<real>, nf: nat, nObs: nat,
                     r: nat, c: nat)
    requires |lambda| == nf && |psi| == nf && SymmetricOn(kT, nObs)
    requires r < nf * nObs && c < nf * nObs
    ensures CovEntry(lambda, kT, psi, nf, nObs, r, c) == CovEntry(lambda, kT, psi, nf, nObs, c, r)
  {
    NoiseOnMainDiagonal(lambda, kT, psi, nf, nObs, r, c);
    NoiseOnMainDiagonal(lambda, kT, psi, nf, nObs, c, r);
    BlockOfCell(r, nf, nObs);
    BlockOfCell(c, nf, nObs);
    assert kT[r / nf][c / nf] == kT[c / nf][r / nf];
  }

  /** A worked case: two features, three observations, Lambda = [1, 2],
      psi = [0.1, 0.2] and an identity latent Gram matrix. Diagonal blocks are
      [[1.1, 2], [2, 4.2]]; off-diagonal blocks are all zero. */
  lemma TwoFeaturesThreeObservations(i: nat, j: nat, a: nat, b: nat)
    requires i < 3 && j < 3 && a < 2 && b < 2
    ensures CovEntry([1.0, 2.0], [[1.0, 0.0, 0.0], [0.0, 1.0, 0.0], [0.0, 0.0, 1.0]], [0.1, 0.2], 2, 3, i * 2 + a, j * 2 + b)
         == if i == j then [[1.1, 2.0], [2.0, 4.2]][a][b] else 0.0
  {
    CovEntryAt([1.0, 2.0], [[1.0, 0.0, 0.0], [0.0, 1.0, 0.0], [0.0, 0.0, 1.0]], [0.1, 0.2], 2, 3, i, j, a, b);
  }

  // ---------------------------------------------------------------------------
  // The builder.

  /** The slice assignment X[row0 : row0+n, col0 : col0+n] = cov, as element writes.
      Exactly the cells of that square change. */
  method WriteBlock(X: array2<real>, cov: seq<seq<real>>, row0: nat, col0: nat)
    requires IsSquare(cov, |cov|)
    requires row0 + |cov| <= X.Length0 && col0 + |cov| <= X.Length1
    modifies X
    ensures forall r, c :: 0 <= r < X.Length0 && 0 <= c < X.Length1 ==>
      X[r, c] == if row0 <= r < row0 + |cov| && col0 <= c < col0 + |cov|
                 then cov[r - row0][c - col0] else old(X[r, c])
  {
    var n := |cov|;
    var a := 0;
    while a < n
      invariant 0 <= a <= n
      invariant forall r, c :: 0 <= r < X.Length0 && 0 <= c < X.Length1 ==>
        X[r, c] == if row0 <= r < row0 + a && col0 <= c < col0 + n
                   then cov[r - row0][c - col0] else old(X[r, c])
    {
      var b := 0;
      while b < n
        invariant 0 <= b <= n
        invariant forall r, c :: 0 <= r < X.Length0 && 0 <= c < X.Length1 ==>
          X[r, c] == if (row0 <= r < row0 + a && col0 <= c < col0 + n) || (r == row0 + a && col0 <= c < col0 + b)
                     then cov[r - row0][c - col0] else old(X[r, c])
      {
        X[row0 + a, col0 + b] := cov[a][b];
        b := b + 1;
      }
      a := a + 1;
    }
  }

  /** The cells of every block (i', j') before (i, j) in row-major order hold their final values. */
  ghost predicate FilledBefore(X: array2<real>, lambda: seq<real>, kT: seq<seq<real>>, psi: seq<real>,
                               nf: nat, nObs: nat, i: nat, j: nat)
    requires |lambda| == nf && |psi| == nf && Covers(kT, nObs)
    requires X.Length0 == nf * nObs && X.Length1 == nf * nObs
    reads X
  {
    forall r, c :: 0 <= r < X.Length0 && 0 <= c < X.Length1 && (r / nf < i || (r / nf == i && c / nf < j)) ==>
      X[r, c] == CovEntry(lambda, kT, psi, nf, nObs, r, c)
  }

  /** The body of the inner loop of compute_gpfa_covariance: compute the block of
      observation pair (i, j), with diag(psi) added only when i == j, and assign it at
      offset (i * nf, j * nf). Afterwards the pairs up to and including (i, j) in
      row-major order hold their final values, and no cell outside block (i, j) changed. */
  method PlaceBlock(X: array2<real>, lambda: seq<real>, kT: seq<seq<real>>, psi: seq<real>,
                    nf: nat, nObs: nat, i: nat, j: nat)
    requires |lambda| == nf && |psi| == nf && Covers(kT, nObs) && i < nObs && j < nObs
    requires X.Length0 == nf * nObs && X.Length1 == nf * nObs
    requires FilledBefore(X, lambda, kT, psi, nf, nObs, i, j)
    modifies X
    ensures FilledBefore(X, lambda, kT, psi, nf, nObs, i, j + 1)
    ensures forall r, c :: 0 <= r < X.Length0 && 0 <= c < X.Length1 && !(r / nf == i && c / nf == j) ==>
      X[r, c] == old(X[r, c])
  {
    // block (i, j) is Lambda kT[i][j] Lambda^T, with diag(psi) only when i == j
    var cov := Block(lambda, kT[i][j], psi, i == j);
    MulMonotone(i + 1, nObs, nf);
    MulMonotone(j + 1, nObs, nf);
    WriteBlock(X, cov, i * nf, j * nf);
    assert FilledBefore(X, lambda, kT, psi, nf, nObs, i, j + 1) by {
      forall r, c | 0 <= r < X.Length0 && 0 <= c < X.Length1 && (r / nf < i || (r / nf == i && c / nf < j + 1))
        ensures X[r, c] == CovEntry(lambda, kT, psi, nf, nObs, r, c)
      {
        RowMajorStep(r, c, i, j, nf);
      }
    }
    forall r, c | 0 <= r < X.Length0 && 0 <= c < X.Length1 && !(r / nf == i && c / nf == j)
      ensures X[r, c] == old(X[r, c])
    {
      RowMajorStep(r, c, i, j, nf);
    }
  }

  /** compute_gpfa_covariance: allocate the (nf * nObs)-sided matrix and fill it block
      by block, observation pairs in row-major order. Every cell ends up holding its
      closed-form value, and the result is symmetric whenever kT is. */
  method ComputeGpfaCovariance(lambda: seq<real>, kT: seq<seq<real>>, psi: seq<real>, nf: nat, nObs: nat)
    returns (X: array2<real>)
    requires |lambda| == nf && |psi| == nf && Covers(kT, nObs)
    ensures fresh(X)
    ensures X.Length0 == nf * nObs && X.Length1 == nf * nObs
    ensures forall r, c :: 0 <= r < X.Length0 && 0 <= c < X.Length1 ==>
      X[r, c] == CovEntry(lambda, kT, psi, nf, nObs, r, c)
    ensures SymmetricOn(kT, nObs) ==>
      forall r, c :: 0 <= r < X.Length0 && 0 <= c < X.Length1 ==> X[r, c] == X[c, r]
  {
    // torch.empty: the initial contents are never read
    X := new real[nf * nObs, nf * nObs];
    forall r, c | 0 <= r < X.Length0 && 0 <= c < X.Length1
      ensures 0 <= r / nf && 0 <= c / nf
    {
      BlockOfCell(r, nf, nObs);
      BlockOfCell(c, nf, nObs);
    }
    var i := 0;
    while i < nObs
      invariant 0 <= i <= nObs
      invariant X.Length0 == nf * nObs && X.Length1 == nf * nObs
      invariant FilledBefore(X, lambda, kT, psi, nf, nObs, i, 0)
    {
      var j := 0;
      while j < nObs
        invariant 0 <= j <= nObs
        invariant FilledBefore(X, lambda, kT, psi, nf, nObs, i, j)
      {
        PlaceBlock(X, lambda, kT, psi, nf, nObs, i, j);
        j := j + 1;
      }
      assert FilledBefore(X, lambda, kT, psi, nf, nObs, i + 1, 0) by {
        forall r, c | 0 <= r < X.Length0 && 0 <= c < X.Length1 && r / nf < i + 1
          ensures X[r, c] == CovEntry(lambda, kT, psi, nf, nObs, r, c)
        {
          BlockOfCell(c, nf, nObs);
        }
      }
      i := i + 1;
    }
    forall r, c | 0 <= r < X.Length0 && 0 <= c < X.Length1
      ensures X[r, c] == CovEntry(lambda, kT, psi, nf, nObs, r, c)
    {
      BlockOfCell(r, nf, nObs);
    }
    if SymmetricOn(kT, nObs) {
      forall r, c | 0 <= r < X.Length0 && 0 <= c < X.Length1
        ensures X[r, c] == X[c, r]
      {
        CovSymmetric(lambda, kT, psi, nf, nObs, r, c);
      }
    }
  }
}
