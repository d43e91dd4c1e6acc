/**
 The sampler's loop as written: preallocated arrays are replaced by sequences that
 grow by one entry per iteration, and the loop variables `x0`, `lnprob0` and
 `naccept` are kept exactly as in manim_ml/diffusion/mcmc.py.
 */
module McmcLoop {
  import opened Results
  import opened Mcmc

  /** `metropolis_hastings_sampler`, iteration by iteration; it computes exactly `Sample`. */
  method MetropolisHastingsSampler<N>(s: Sampler<N>, init: State, iterations: int, warmUp: int, ndim: int,
                                      draws: nat -> Draw<N>)
    returns (r: Result<Output, SampleError>)
    ensures r == Sample(s, init, iterations, warmUp, ndim, draws)
  {
    if warmUp != 0 {
      return Err(WarmUpNotImplemented);
    }
    if iterations < 0 || ndim < 0 {
      return Err(NegativeDimension);
    }
    if iterations == 0 {
      return Err(EmptyChain);
    }
    if |init| != ndim {
      return Err(ShapeMismatch);
    }
    var steps := Iterate(s, init, iterations, ndim, draws);
    SampleFromTrace(s, init, iterations, ndim, draws);
    if steps.Ok? {
      return Ok(Output(ChainOf(steps.value), [], ProposalsOf(steps.value)));
    } else {
      return Err(steps.error);
    }
  }

  /** Slot 0, then iterations 1 .. n-1, stopping at the first
      candidate whose length is not `ndim`. */
  method Iterate<N>(s: Sampler<N>, init: State, n: nat, ndim: int, draws: nat -> Draw<N>)
    returns (r: Result<seq<Step>, SampleError>)
    requires n >= 1 && |init| == ndim
    ensures var t := Trace(s, init, draws, n);
      if Shaped(t.steps, ndim) then r == Ok(t.steps) else r == Err(ShapeMismatch)
  {
    var lnprob0 := s.logProb(init);
    var t := ChainRecord([Step(init, init, lnprob0, 0.0)], init, lnprob0, 0);
    var ii := 1;
    while ii < n
      invariant 1 <= ii <= n
      invariant t == Trace(s, init, draws, ii)
      invariant Shaped(t.steps, ndim)
    {
      ghost var prev := t;
      t := Iteration(s, t, draws(ii));
      assert t == Trace(s, init, draws, ii + 1);
      if |t.steps[ii].candidate| != ndim {
        // the row assignment raises, and the candidate stays in every longer trace
        MisshapenStays(s, init, draws, ii, n, ndim);
        return Err(ShapeMismatch);
      }
      ShapedGrows(prev.steps, t.steps, ndim);
      ii := ii + 1;
    }
    return Ok(t.steps);
  }

  /** A trace whose step `ii` holds a misshapen candidate is never `Shaped` again. */
  lemma MisshapenStays<N>(s: Sampler<N>, init: State, draws: nat -> Draw<N>, ii: nat, n: nat, ndim: int)
    requires ii < n && |Trace(s, init, draws, ii + 1).steps[ii].candidate| != ndim
    ensures !Shaped(Trace(s, init, draws, n).steps, ndim)
  {
    TraceStepFinal(s, init, draws, ii, n);
  }

  lemma ShapedGrows(prev: seq<Step>, next: seq<Step>, ndim: int)
    requires |next| == |prev| + 1 && next[..|prev|] == prev
    requires Shaped(prev, ndim) && |next[|prev|].candidate| == ndim
    ensures Shaped(next, ndim)
  {
    forall k | 0 <= k < |prev|
      ensures |next[k].candidate| == ndim
    {
      assert next[k] == next[..|prev|][k];
    }
  }

  /** One iteration, on the loop variables `x0`, `lnprob0` and `naccept`. */
  method Iteration<N>(s: Sampler<N>, t: ChainRecord, d: Draw<N>) returns (t': ChainRecord)
    requires |t.steps| >= 1
    ensures t' == Advance(s, t, d)
  {
    var ii := |t.steps|;
    var x0, lnprob0, naccept := t.x0, t.lnprob0, t.naccept;
    var p := s.propose(x0, d.noise);
    var xStar, factor := p.candidate, p.factor;
    var u := d.u;
    var lnprobStar := s.logProb(xStar);
    var h := s.exp(lnprobStar - lnprob0) * factor;
    if u < h {
      x0 := xStar;
      lnprob0 := lnprobStar;
      naccept := naccept + 1;
    }
    t' := ChainRecord(t.steps + [Step(x0, xStar, lnprob0, Rate(naccept, ii))], x0, lnprob0, naccept);
  }
}
