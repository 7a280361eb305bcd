/** The GPFA kernel: configuration guards and defaults at construction, the
    forward evaluation that hands the latent Gram matrix to the covariance
    builder, and the number of outputs per input point.

    The latent kernel and the positivity constraint on the noise are foreign
    library code: the latent Gram matrix is an argument of Forward, and the
    constraint's transform and inverse transform are function arguments. */
module GpfaKernel {
  import opened GpfaCovariance
  import opened GpfaMean

  datatype Option<T> = None | Some(value: T)

  /** The configurations the kernel refuses (each an assertion failure in the source). */
  datatype ConfigError =
    | LatentDimsNotSupported(latentDims: int)
    | DiagNotSupported
    | LastDimIsBatchNotSupported

  datatype Result<T> = Ok(value: T) | Err(error: ConfigError)

  /** The kernel's parameters: the loading matrix Lambda (n_features x 1, kept as one
      column) and the unconstrained noise parameter raw_psi_diag. */
  datatype Kernel = Kernel(nFeatures: nat, latentDims: nat, lambda: seq<real>, rawPsi: seq<real>)

  /** What construction guarantees: one latent dimension and parameters sized by nFeatures. */
  predicate Valid(k: Kernel) {
    k.latentDims == 1 && |k.lambda| == k.nFeatures && |k.rawPsi| == k.nFeatures
  }

  /** A vector of n copies of x (torch.ones / torch.zeros). */
  function Constant(n: nat, x: real): (v: seq<real>)
    ensures |v| == n && forall i :: 0 <= i < n ==> v[i] == x
  {
    seq(n, _ => x)
  }

  /** The psi setter: the raw parameter is the inverse transform of the requested noise. */
  function RawFromPsi(psi: seq<real>, inverse: real -> real): (raw: seq<real>)
    ensures |raw| == |psi| && forall i :: 0 <= i < |psi| ==> raw[i] == inverse(psi[i])
  {
    seq(|psi|, i requires 0 <= i < |psi| => inverse(psi[i]))
  }

  /** The psi getter: the constrained noise is the transform of the raw parameter. */
  function Psi(k: Kernel, transform: real -> real): (psi: seq<real>)
    ensures |psi| == |k.rawPsi| && forall i :: 0 <= i < |psi| ==> psi[i] == transform(k.rawPsi[i])
  {
    seq(|k.rawPsi|, i requires 0 <= i < |k.rawPsi| => transform(k.rawPsi[i]))
  }

  /** GPFAKernel.__init__ as written: latent_dims must be 1, Lambda starts as all ones
      and the Lambda argument is not used, raw_psi_diag starts at zero and is set from
      psi when one is given. */
  function NewKernelAsWritten(nFeatures: nat, latentDims: int, lambda: Option<seq<real>>,
                              psi: Option<seq<real>>, inverse: real -> real): (r: Result<Kernel>)
    requires psi.Some? ==> |psi.value| == nFeatures
    ensures r.Ok? <==> latentDims == 1
    ensures r.Err? ==> r.error == LatentDimsNotSupported(latentDims)
    ensures r.Ok? ==> Valid(r.value) && r.value.nFeatures == nFeatures
    ensures r.Ok? ==> r.value.lambda == Constant(nFeatures, 1.0)
  {
    if latentDims != 1 then Err(LatentDimsNotSupported(latentDims))
    else
      var raw := if psi.Some? then RawFromPsi(psi.value, inverse) else Constant(nFeatures, 0.0);
      Ok(Kernel(nFeatures, 1, Constant(nFeatures, 1.0), raw))
  }

  /** Counterexample: a Lambda of [[2], [3]] passed to the constructor is discarded. */
  lemma LambdaArgumentIgnored()
    ensures NewKernelAsWritten(2, 1, Some([2.0, 3.0]), None, x => x).Ok?
    ensures NewKernelAsWritten(2, 1, Some([2.0, 3.0]), None, x => x).value.lambda != [2.0, 3.0]
  {
    var k := NewKernelAsWritten(2, 1, Some([2.0, 3.0]), None, x => x).value;
    assert k.lambda[0] == 1.0;
  }

  /** GPFAKernel.__init__ with the documented Lambda argument honoured: the initial
      loading matrix is the one given, and all ones when none is given. */
  function NewKernel(nFeatures: nat, latentDims: int, lambda: Option<seq<real>>,
                     psi: Option<seq<real>>, inverse: real -> real): (r: Result<Kernel>)
    requires lambda.Some? ==> |lambda.value| == nFeatures
    requires psi.Some? ==> |psi.value| == nFeatures
    ensures r.Ok? <==> latentDims == 1
    ensures r.Err? ==> r.error == LatentDimsNotSupported(latentDims)
    ensures r.Ok? ==> Valid(r.value) && r.value.nFeatures == nFeatures
    ensures r.Ok? ==> r.value.lambda == if lambda.Some? then lambda.value else Constant(nFeatures, 1.0)
  {
    match NewKernelAsWritten(nFeatures, latentDims, lambda, psi, inverse)
    case Err(e) => Err(e)
    case Ok(k) => Ok(if lambda.Some? then k.(lambda := lambda.value) else k)
  }

  /** Setting psi at construction and reading it back gives psi again, whenever the
      transform undoes the inverse transform on the given values. */
  lemma PsiRoundTrip(nFeatures: nat, lambda: Option<seq<real>>, psi: seq<real>,
                     transform: real -> real, inverse: real -> real)
    requires lambda.Some? ==> |lambda.value| == nFeatures
    requires |psi| == nFeatures
    requires forall i :: 0 <= i < |psi| ==> transform(inverse(psi[i])) == psi[i]
    ensures NewKernel(nFeatures, 1, lambda, Some(psi), inverse).Ok?
    ensures Psi(NewKernel(nFeatures, 1, lambda, Some(psi), inverse).value, transform) == psi
  {
    var k := NewKernel(nFeatures, 1, lambda, Some(psi), inverse).value;
    assert k.rawPsi == RawFromPsi(psi, inverse);
  }

  /** Without a psi argument every feature starts with the same noise, transform(0). */
  lemma DefaultPsi(nFeatures: nat, lambda: Option<seq<real>>, transform: real -> real, inverse: real -> real)
    requires lambda.Some? ==> |lambda.value| == nFeatures
    ensures NewKernel(nFeatures, 1, lambda, None, inverse).Ok?
    ensures Psi(NewKernel(nFeatures, 1, lambda, None, inverse).value, transform) == Constant(nFeatures, transform(0.0))
  {
    var k := NewKernel(nFeatures, 1, lambda, None, inverse).value;
    assert k.rawPsi == Constant(nFeatures, 0.0);
  }

  /** A transform with positive range makes every noise variance positive, whatever
      the raw parameter holds. */
  lemma PsiPositive(k: Kernel, transform: real -> real)
    requires forall x :: transform(x) > 0.0
    ensures forall i :: 0 <= i < |Psi(k, transform)| ==> Psi(k, transform)[i] > 0.0
  {
    forall i | 0 <= i < |Psi(k, transform)|
      ensures Psi(k, transform)[i] > 0.0
    {
      var x := k.rawPsi[i];
      assert transform(x) > 0.0;
    }
  }

  /** GPFAKernel.num_outputs_per_input: each input point has nFeatures outputs,
      whatever the inputs are. */
  function NumOutputsPerInput(k: Kernel, x1: seq<real>, x2: seq<real>): (n: nat)
    ensures n == k.nFeatures
  {
    k.nFeatures
  }

  /** GPFAKernel.forward. Diagonal-only and batched evaluation are refused; otherwise
      n_obs is the number of points in t1, and kT, the latent kernel's Gram matrix over
      (t1, t2), is handed to the covariance builder with Lambda and the current psi. */
  method Forward(k: Kernel, t1: seq<real>, t2: seq<real>, diag: bool, lastDimIsBatch: bool,
                 kT: seq<seq<real>>, transform: real -> real) returns (r: Result<array2<real>>)
    requires Valid(k)
    requires |kT| == |t1| && (forall i :: 0 <= i < |kT| ==> |kT[i]| == |t2|)
    requires |t1| <= |t2|
    ensures r.Err? <==> diag || lastDimIsBatch
    ensures diag ==> r == Err(DiagNotSupported)
    ensures !diag && lastDimIsBatch ==> r == Err(LastDimIsBatchNotSupported)
    ensures r.Ok? ==> fresh(r.value)
    ensures r.Ok? ==> r.value.Length0 == k.nFeatures * |t1| && r.value.Length1 == k.nFeatures * |t1|
    ensures r.Ok? ==> forall a, b :: 0 <= a < r.value.Length0 && 0 <= b < r.value.Length1 ==>
      r.value[a, b] == CovEntry(k.lambda, kT, Psi(k, transform), k.nFeatures, |t1|, a, b)
    ensures r.Ok? && SymmetricOn(kT, |t1|) ==> forall a, b :: 0 <= a < r.value.Length0 && 0 <= b < r.value.Length1 ==>
      r.value[a, b] == r.value[b, a]
  {
    if diag {
      return Err(DiagNotSupported);
    }
    if lastDimIsBatch {
      return Err(LastDimIsBatchNotSupported);
    }
    var nObs := |t1|;
    var cov := ComputeGpfaCovariance(k.lambda, kT, Psi(k, transform), k.nFeatures, nObs);
    return Ok(cov);
  }

  /** The mean and the covariance agree in size: the mean has NumOutputsPerInput
      entries for each time point, which is k.nFeatures * |t|, the side of the
      matrix Forward returns for t. */
  lemma MeanMatchesOutputs(k: Kernel, t: seq<real>)
    ensures |ZeroMeanForward(k.nFeatures, t)| == NumOutputsPerInput(k, t, t) * |t|
    ensures |ZeroMeanForward(k.nFeatures, t)| == k.nFeatures * |t|
  {
  }
}
