/**
 The two plug-ins defined beside the sampler in manim_ml/diffusion/mcmc.py: the
 Gaussian random-walk proposal and the Gaussian posterior with its bounded support.
 The Gaussian variates and the multivariate normal log-density are parameters.
 */
module McmcPlugins {
  import opened Results
  import opened Mcmc

  /** `gaussian_proposal(x, sigma)`: step every coordinate by `sigma` times a standard
      normal variate. `z` is the stream of standard normal variates the call draws;
      `np.random.randn(len(x))` consumes its first `len(x)` values. */
  function GaussianProposal(sigma: real, x: State, z: nat -> real): (p: Proposed)
    ensures p.factor == 1.0
    ensures |p.candidate| == |x|
    ensures forall k :: 0 <= k < |x| ==> p.candidate[k] - x[k] == z(k) * sigma
  {
    Proposed(seq(|x|, k requires 0 <= k < |x| => x[k] + z(k) * sigma), 1.0)
  }

  /** A sampler whose proposal function is `gaussian_proposal` with step size `sigma`. */
  function GaussianSampler(logProb: State -> real, sigma: real, exp: real -> real): Sampler<nat -> real> {
    Sampler(logProb, (x, z) => GaussianProposal(sigma, x, z), exp)
  }

  /** The log-density returned outside the support. */
  const Sentinel: real := -1000000.0

  /** `MultidimensionalGaussianPosterior`: its mean and its per-coordinate variances. */
  datatype Posterior = Posterior(mu: seq<real>, variance: seq<real>)

  /** `MultidimensionalGaussianPosterior.__call__`: the multivariate normal log-density
      `logPdf(mu, variance, x)` when every coordinate lies strictly between -500 and 500,
      and the sentinel otherwise. */
  function PosteriorLogProb(p: Posterior, logPdf: (seq<real>, seq<real>, State) -> real, x: State): (r: real)
    ensures (exists k :: 0 <= k < |x| && (x[k] >= 500.0 || x[k] <= -500.0)) ==> r == Sentinel
    ensures (forall k :: 0 <= k < |x| ==> -500.0 < x[k] < 500.0) ==> r == logPdf(p.mu, p.variance, x)
  {
    if forall k :: 0 <= k < |x| ==> x[k] < 500.0 && x[k] > -500.0 then logPdf(p.mu, p.variance, x)
    else Sentinel
  }

  // ---------------------------------------------------------------------------
  // The plug-ins inside the sampler.

  /** With the Gaussian proposal, every candidate has the dimension of the initial location. */
  lemma {:induction false} GaussianKeepsDimension(logProb: State -> real, sigma: real, exp: real -> real,
                                                 init: State, draws: nat -> Draw<nat -> real>, ii: nat)
    ensures |Walk(GaussianSampler(logProb, sigma, exp), init, draws, ii)| == |init|
    ensures |Candidate(GaussianSampler(logProb, sigma, exp), init, draws, ii)| == |init|
    decreases ii
  {
    if ii > 0 {
      GaussianKeepsDimension(logProb, sigma, exp, init, draws, ii - 1);
    }
  }

  /** With the Gaussian proposal, a run with `warm_up == 0`, at least one iteration and an
      initial location of `ndim` coordinates always returns a chain. */
  lemma GaussianSampleSucceeds(logProb: State -> real, sigma: real, exp: real -> real,
                               init: State, iterations: int, ndim: int, draws: nat -> Draw<nat -> real>)
    requires iterations >= 1 && |init| == ndim
    ensures Sample(GaussianSampler(logProb, sigma, exp), init, iterations, 0, ndim, draws).Ok?
  {
    var s := GaussianSampler(logProb, sigma, exp);
    forall k | 0 <= k < iterations
      ensures |Candidate(s, init, draws, k)| == ndim
    {
      GaussianKeepsDimension(logProb, sigma, exp, init, draws, k);
    }
    SampleOutcome(s, init, iterations, ndim, draws);
  }

  /** A constant target with the symmetric proposal accepts every candidate when
      exp(0) == 1 and every uniform draw lies in [0, 1): the chain follows its candidates
      and the acceptance rate is 1 from the first iteration on. */
  lemma ConstantTargetAcceptsAll(c: real, sigma: real, exp: real -> real,
                                 init: State, draws: nat -> Draw<nat -> real>, n: nat, ii: nat)
    requires exp(0.0) == 1.0
    requires forall k :: 0.0 <= draws(k).u < 1.0
    requires 1 <= ii < n
    ensures var e := Trace(GaussianSampler(_ => c, sigma, exp), init, draws, n).steps[ii];
      e.state == e.candidate && e.acceptRate == 1.0
  {
    var s := GaussianSampler(_ => c, sigma, exp);
    AllMovesAccepted(c, sigma, exp, init, draws, ii);
    TraceAgreesWithWalk(s, init, draws, n, ii);
    TraceRate(s, init, draws, n, ii);
    FullRate(ii);
  }

  lemma FullRate(ii: nat)
    requires ii >= 1
    ensures Rate(ii, ii) == 1.0
  {
  }

  lemma {:induction false} AllMovesAccepted(c: real, sigma: real, exp: real -> real,
                                           init: State, draws: nat -> Draw<nat -> real>, ii: nat)
    requires exp(0.0) == 1.0
    requires forall k :: 0.0 <= draws(k).u < 1.0
    ensures Moves(GaussianSampler(_ => c, sigma, exp), init, draws, ii) == ii
    ensures ii >= 1 ==> Walk(GaussianSampler(_ => c, sigma, exp), init, draws, ii)
                        == Candidate(GaussianSampler(_ => c, sigma, exp), init, draws, ii)
    decreases ii
  {
    if ii > 0 {
      AllMovesAccepted(c, sigma, exp, init, draws, ii - 1);
      var s := GaussianSampler(_ => c, sigma, exp);
      assert c - c == 0.0;
      assert MoveAccepted(s, Walk(s, init, draws, ii - 1), draws(ii));
    }
  }
}
