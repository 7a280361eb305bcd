/** The GPFA mean function: a zero mean over every (time point, feature) output. */
module GpfaMean {

  /** GPFAZeroMean.forward: one zero per output, and each input time point expands
      to nFeatures outputs. */
  function ZeroMeanForward(nFeatures: nat, input: seq<real>): (mean: seq<real>)
    ensures |mean| == |input| * nFeatures
    ensures forall k :: 0 <= k < |mean| ==> mean[k] == 0.0
  {
    seq(|input| * nFeatures, _ => 0.0)
  }
}
