# GPFA joint covariance, modelled in Dafny

This project models the core of a Gaussian Process Factor Analysis (GPFA) kernel
(`gpfa_imputation/gpfa.py`). GPFA explains `n_features` observed series as
noisy scalings of one latent Gaussian-process series. Its kernel builds the joint covariance
over all features at `n_obs` time points. That covariance is a matrix of side
`n_features * n_obs`, made of `n_obs x n_obs` blocks of size `n_features x n_features`.
Block `(i, j)` is `Lambda * kT[i, j] * Lambda^T`, and the diagonal blocks also
get the noise `diag(psi)`.

- `covariance.dfy` (module `GpfaCovariance`): `compute_gpfa_covariance` as a
  method that allocates an `array2<real>` and fills it with the source's nested
  loop over observation pairs. Each block goes in through element writes in place
  of the slice assignment. The method is proved against `CovEntry`, a function that
  gives each cell through its block. The lemmas about `CovEntry` prove the
  closed form, that the blocks tile the matrix, where the noise sits, and symmetry.
- `kernel.dfy` (module `GpfaKernel`): `GPFAKernel`. It covers the constructor's
  `latent_dims == 1` guard and defaults, the `psi` accessors over an abstract
  transform, `forward` with its `diag` / `last_dim_is_batch` guards, and
  `num_outputs_per_input`.
- `mean.dfy` (module `GpfaMean`): `GPFAZeroMean.forward`.

Arithmetic is exact (`real`); only the structure and algebra of the computation are
modelled. `Lambda` has one latent column, so it is a `seq<real>` of length `n_features`.
The latent Gram matrix `kT` is a `seq<seq<real>>`.

About the code as written:
- No shape is ever checked, so shape agreement is a precondition and not an error.
- The default noise is `transform(0)` for every feature, because `raw_psi_diag` starts at zeros.
- Take two features, three observations, `Lambda = [1, 2]`, `psi = [0.1, 0.2]` and an identity latent Gram matrix. The diagonal blocks are
  `[[1.1, 2], [2, 4.2]]`, and the off-diagonal blocks are zero, since `kT[i, j] = 0` there (`TwoFeaturesThreeObservations`).

## Model

| member | source | states |
|---|---|---|
| `GpfaCovariance.ComputeGpfaCovariance` | gpfa_imputation/gpfa.py:81-92 | the result is fresh and square with side `n_features * n_obs`; every cell holds `CovEntry`; it is symmetric whenever the leading `n_obs x n_obs` part of `kT` is |
| `GpfaCovariance.PlaceBlock` | gpfa_imputation/gpfa.py:87-91 | one pass of the inner loop: if every pair before `(i, j)` in row-major order is final, then afterwards every pair up to and including `(i, j)` is final, and every cell outside block `(i, j)` keeps its old value |
| `GpfaCovariance.WriteBlock` | gpfa_imputation/gpfa.py:91 | the slice assignment: the square at `(row0, col0)` becomes `cov`, and every other cell keeps its old value |
| `GpfaCovariance.Block` | gpfa_imputation/gpfa.py:87-89 | the block `Lambda * k * Lambda^T (+ diag(psi))` is `n_features x n_features` and symmetric for every `k` |
| `GpfaCovariance.CovEntryAt` | gpfa_imputation/gpfa.py:84-91 | cell `[i*nf + a, j*nf + b]` lies in the matrix and equals `Lambda[a] * kT[i][j] * Lambda[b]`, plus `psi[a]` exactly when `i == j` and `a == b` |
| `GpfaCovariance.OffDiagonalBlockNoNoise` | gpfa_imputation/gpfa.py:89 | in a block with `i != j`, each cell is `Lambda[a] * kT[i][j] * Lambda[b]` and has no noise term |
| `GpfaCovariance.NoiseOnMainDiagonal` | gpfa_imputation/gpfa.py:87-91 | cell by cell, `psi[r % nf]` is added to cell `(r, c)` if and only if `r == c` |
| `GpfaCovariance.CovSymmetric` | gpfa_imputation/gpfa.py:87-91 | if `kT` is symmetric, then `CovEntry(r, c) == CovEntry(c, r)` for every pair of cells |
| `GpfaCovariance.BlockOfCell` | gpfa_imputation/gpfa.py:83-85 | the blocks cover the matrix: every cell `r < nf * n_obs` is `(r / nf) * nf + r % nf`, with block index `< n_obs` and offset `< nf` |
| `GpfaCovariance.BlockCoordsUnique` | gpfa_imputation/gpfa.py:91 | the blocks are disjoint: two (block, offset) pairs that name the same cell are equal |
| `GpfaCovariance.CellOfBlock` | gpfa_imputation/gpfa.py:91 | cell `i*nf + a` of block `i < n_obs` at offset `a < nf` is inside the matrix, and division by `nf` gives back `i` and `a` |
| `GpfaCovariance.TwoFeaturesThreeObservations` | gpfa_imputation/gpfa.py:84-91 | with `Lambda = [1, 2]`, `psi = [0.1, 0.2]` and `kT = I3`, diagonal blocks are `[[1.1, 2], [2, 4.2]]` and off-diagonal blocks are zero |
| `GpfaMean.ZeroMeanForward` | gpfa_imputation/gpfa.py:102-104 | the mean has length `input.shape[0] * n_features`, and every entry is 0 |
| `GpfaKernel.NewKernelAsWritten` | gpfa_imputation/gpfa.py:15-41 | construction succeeds if and only if `latent_dims == 1`, and otherwise fails with that value; the result is valid and sized by `n_features`; `Lambda` is all ones whatever is passed |
| `GpfaKernel.LambdaArgumentIgnored` | gpfa_imputation/gpfa.py:31-33 | passing `Lambda = [[2], [3]]` still yields a kernel whose `Lambda` is `[1, 1]` |
| `GpfaKernel.NewKernel` | gpfa_imputation/gpfa.py:15-41 | the same guard, and `Lambda` is the given one, or all ones when none is given |
| `GpfaKernel.RawFromPsi` | gpfa_imputation/gpfa.py:53-57 | the psi setter: the raw parameter has one entry per given value, and each is the constraint's inverse transform of that value |
| `GpfaKernel.Psi` | gpfa_imputation/gpfa.py:44-47 | the psi getter: one noise variance per raw entry, and each is the constraint's transform of that entry |
| `GpfaKernel.PsiRoundTrip` | gpfa_imputation/gpfa.py:41-57 | psi given at construction reads back unchanged whenever the transform undoes its inverse on those values |
| `GpfaKernel.DefaultPsi` | gpfa_imputation/gpfa.py:37-47 | without a psi argument, every feature's noise is `transform(0)`, because the raw parameter starts at zeros |
| `GpfaKernel.PsiPositive` | gpfa_imputation/gpfa.py:40-47 | with a transform of positive range, every noise variance read through the getter is positive |
| `GpfaKernel.NumOutputsPerInput` | gpfa_imputation/gpfa.py:76-77 | returns `n_features` whatever the two inputs are |
| `GpfaKernel.Forward` | gpfa_imputation/gpfa.py:62-74 | fails if and only if `diag` or `last_dim_is_batch` is set, with the `diag` error first; otherwise it returns a fresh matrix of side `n_features * len(t1)` whose cells are `CovEntry` over Lambda, `kT` and the current psi, and which is symmetric when `kT` is |
| `GpfaKernel.MeanMatchesOutputs` | gpfa_imputation/gpfa.py:76-77 | the zero mean's length is `NumOutputsPerInput * len(t)`, which equals `n_features * len(t)`, the side of the matrix `Forward` returns |

## Left out

- The positivity constraint (`gpytorch.constraints.Positive`, a softplus-style transform) is foreign floating-point code. Its transform and inverse transform are function parameters. Nothing about them is assumed except what a lemma's `requires` states.
- NewKernelAsWritten / NewKernel: the model does not capture two effects of GPyTorch's `initialize` (library code, not part of this model), which the psi path at line 41 goes through. First, construction should fail for a non-positive `psi`, because `initialize` checks the raw value against the `Positive` constraint and the inverse transform is undefined there; the model's `inverse` is total, so it accepts such a `psi`. Second, a scalar or length-1 `psi` is broadcast to all features, but the model requires one value per feature.
- Setting `psi` on an existing kernel (`_set_psi` via `initialize`) is modelled only as used at construction (`RawFromPsi`). Non-tensor values are converted with `torch.as_tensor` first, which is not modelled.
- The latent kernel call `self.latent_kernel(...).evaluate()` is foreign code. Its Gram matrix `kT` is an argument of `Forward`, and `**params` are not modelled.
- The `GPFA` model class (`ExactGP`, `MultivariateNormal`) composes framework objects and leaves inference to an external library, so it is not modelled. `MeanMatchesOutputs` states the size agreement it relies on.
- `torch.jit.script` and tensor slicing mechanics are not modelled. The slice assignment is explicit element writes, and the block product is exact real arithmetic with no rounding.
- `torch.empty` leaves the matrix contents unspecified. The model likewise allocates an array whose contents are arbitrary, and the proof never reads them.
- Positive semi-definiteness of the result is not stated. It needs quadratic-form reasoning about `kT`, and the code never checks it.
- Shape mismatches are not error paths, since the code raises none. Shape agreement is a precondition of `ComputeGpfaCovariance` and `Forward`.
- Forward: requires `len(t1) <= len(t2)`. With a shorter `t2`, the source's matrix product fails on an empty slice of `kT`, and that failure is not modelled.
- Floating point is not modelled: entries are exact reals, so NaN, infinity and rounding are out of scope.
- `gpfa_imputation/imputation.py` (random synthetic data) is not part of this model.

## Findings

| source | as written | input that shows it | evidently intended | confidence | as-written member | corrected member |
|---|---|---|---|---|---|---|
| gpfa_imputation/gpfa.py:15-33 | the constructor accepts `Lambda`, documented at line 20 as the initial loading matrix, but line 33 always registers a matrix of ones and never reads the argument | `GPFAKernel(2, k, Lambda=[[2], [3]])` gives `Lambda == [[1], [1]]` | start from the given `Lambda` when one is passed, as is done for `psi` at line 41 | high; not executed | `GpfaKernel.NewKernelAsWritten` (counterexample `GpfaKernel.LambdaArgumentIgnored`) | `GpfaKernel.NewKernel` |
