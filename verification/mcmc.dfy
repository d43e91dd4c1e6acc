/**
 Metropolis-Hastings sampling (manim_ml/diffusion/mcmc.py, `metropolis_hastings_sampler`).

 Randomness and numerics are parameters: the sampler's plug-ins are the target
 log-density, the proposal function and the exponential, and the random source is a
 stream of per-iteration draws. Every structural property below holds whatever
 values these take.
 */
module Mcmc {
  import opened Results

  /** A point of the state space: a vector of reals. */
  type State = seq<real>

  /** What a proposal function returns: the candidate and the proposal-ratio factor
      q(current | candidate) / q(candidate | current). */
  datatype Proposed = Proposed(candidate: State, factor: real)

  /** What iteration `ii` takes from the random source: whatever the proposal function
      draws (of type N), followed by the uniform variate `u`. */
  datatype Draw<N> = Draw(noise: N, u: real)

  /** The sampler's plug-ins: `log_prob_fn`, `prop_fn` and `np.exp`. */
  datatype Sampler<!N> = Sampler(logProb: State -> real, propose: (State, N) -> Proposed, exp: real -> real)

  /** The ways a call can fail before returning a chain. */
  datatype SampleError =
    | WarmUpNotImplemented   // the assertion on warm_up
    | NegativeDimension      // np.zeros with a negative iteration count or ndim
    | EmptyChain             // chain[0] on a zero-length array
    | ShapeMismatch          // a row whose length differs from ndim

  /** What the sampler records at one iteration index: `chain[ii]`, `proposals[ii]`,
      `lnprob[ii]` and `accept_rate[ii]`. The four arrays of the source are kept as one
      sequence of these, so that they are aligned by construction. */
  datatype Step = Step(state: State, candidate: State, lnprob: real, acceptRate: real)

  /** The sampler's working state: the steps recorded so far, together with the loop
      variables `x0`, `lnprob0` and `naccept`. */
  datatype ChainRecord = ChainRecord(steps: seq<Step>, x0: State, lnprob0: real, naccept: nat)

  /** What the sampler returns: the chain, the (empty) warm-up samples and the candidates. */
  datatype Output = Output(chain: seq<State>, warmUp: seq<State>, proposals: seq<State>)

  /** The Hastings test: accept iff u < exp(lnStar - lnCur) * factor. */
  predicate Accepts(exp: real -> real, u: real, lnStar: real, lnCur: real, factor: real) {
    u < exp(lnStar - lnCur) * factor
  }

  /** The running acceptance rate `naccept / ii` of iteration `ii >= 1`. */
  function Rate(naccept: nat, ii: nat): real
    requires ii >= 1
  {
    naccept as real / ii as real
  }

  /** Slot 0: the initial location is both the first state and the first candidate,
      and the acceptance rate keeps the zero it was allocated with. */
  function Begin<N>(s: Sampler<N>, init: State): ChainRecord {
    var ln := s.logProb(init);
    ChainRecord([Step(init, init, ln, 0.0)], init, ln, 0)
  }

  /** One pass of the loop body, for iteration `ii == |t.steps|`. */
  function Advance<N>(s: Sampler<N>, t: ChainRecord, d: Draw<N>): (t': ChainRecord)
    requires |t.steps| >= 1
    ensures |t'.steps| == |t.steps| + 1 && t'.steps[..|t.steps|] == t.steps
    ensures t'.x0 == t'.steps[|t.steps|].state && t'.lnprob0 == t'.steps[|t.steps|].lnprob
    ensures t'.x0 == t.x0 || t'.x0 == t'.steps[|t.steps|].candidate
    ensures t.naccept <= t'.naccept <= t.naccept + 1
  {
    var ii := |t.steps|;
    var p := s.propose(t.x0, d.noise);
    var lnStar := s.logProb(p.candidate);
    var accept := Accepts(s.exp, d.u, lnStar, t.lnprob0, p.factor);
    var x0 := if accept then p.candidate else t.x0;
    var lnprob0 := if accept then lnStar else t.lnprob0;
    var naccept := if accept then t.naccept + 1 else t.naccept;
    ChainRecord(t.steps + [Step(x0, p.candidate, lnprob0, Rate(naccept, ii))], x0, lnprob0, naccept)
  }

  /** The record after `n` iterations of the sampler (slot 0 plus iterations 1 .. n-1). */
  function Trace<N>(s: Sampler<N>, init: State, draws: nat -> Draw<N>, n: nat): (t: ChainRecord)
    requires n >= 1
    ensures |t.steps| == n
    ensures t.x0 == t.steps[n - 1].state && t.lnprob0 == t.steps[n - 1].lnprob
    ensures t.naccept <= n - 1
    decreases n
  {
    if n == 1 then Begin(s, init)
    else Advance(s, Trace(s, init, draws, n - 1), draws(n - 1))
  }

  // ---------------------------------------------------------------------------
  // Reference definition: the Metropolis-Hastings Markov chain on states alone,
  // re-evaluating the log-density of the current state at every step.

  /** Whether the move proposed from `x` with draw `d` is accepted. */
  predicate MoveAccepted<N>(s: Sampler<N>, x: State, d: Draw<N>) {
    var p := s.propose(x, d.noise);
    Accepts(s.exp, d.u, s.logProb(p.candidate), s.logProb(x), p.factor)
  }

  /** The state of the chain after `ii` steps. */
  function Walk<N>(s: Sampler<N>, init: State, draws: nat -> Draw<N>, ii: nat): State
    decreases ii
  {
    if ii == 0 then init
    else
      var x := Walk(s, init, draws, ii - 1);
      if MoveAccepted(s, x, draws(ii)) then s.propose(x, draws(ii).noise).candidate else x
  }

  /** The candidate considered at step `ii`; at step 0 the initial location. */
  function Candidate<N>(s: Sampler<N>, init: State, draws: nat -> Draw<N>, ii: nat): State {
    if ii == 0 then init else s.propose(Walk(s, init, draws, ii - 1), draws(ii).noise).candidate
  }

  /** How many of the steps 1 .. ii accepted their candidate. */
  function Moves<N>(s: Sampler<N>, init: State, draws: nat -> Draw<N>, ii: nat): (m: nat)
    ensures m <= ii
    decreases ii
  {
    if ii == 0 then 0
    else Moves(s, init, draws, ii - 1) + (if MoveAccepted(s, Walk(s, init, draws, ii - 1), draws(ii)) then 1 else 0)
  }

  // ---------------------------------------------------------------------------
  // The recorded steps agree with the reference chain.

  /** The loop variables track the reference chain: `x0` is the current state,
      `lnprob0` its log-density and `naccept` the number of accepted moves. */
  lemma {:induction false} TraceCursor<N>(s: Sampler<N>, init: State, draws: nat -> Draw<N>, n: nat)
    requires n >= 1
    ensures var t := Trace(s, init, draws, n);
      && t.x0 == Walk(s, init, draws, n - 1)
      && t.lnprob0 == s.logProb(t.x0)
      && t.naccept == Moves(s, init, draws, n - 1)
    decreases n
  {
    if n > 1 {
      TraceCursor(s, init, draws, n - 1);
    }
  }

  /** Entry `ii` of every record holds the reference chain's state, the candidate
      considered and that state's log-density. */
  lemma {:induction false} TraceAgreesWithWalk<N>(s: Sampler<N>, init: State, draws: nat -> Draw<N>, n: nat, ii: nat)
    requires ii < n
    ensures var e := Trace(s, init, draws, n).steps[ii];
      && e.state == Walk(s, init, draws, ii)
      && e.candidate == Candidate(s, init, draws, ii)
      && e.lnprob == s.logProb(e.state)
    decreases n
  {
    if ii < n - 1 {
      TraceAgreesWithWalk(s, init, draws, n - 1, ii);
      var t := Trace(s, init, draws, n);
      assert t.steps[ii] == t.steps[..n - 1][ii];
    } else if n > 1 {
      TraceCursor(s, init, draws, n - 1);
    }
  }

  /** Entry `ii` of every record holds the acceptance rate of the reference chain's
      first `ii` steps. */
  lemma {:induction false} TraceRate<N>(s: Sampler<N>, init: State, draws: nat -> Draw<N>, n: nat, ii: nat)
    requires ii < n
    ensures Trace(s, init, draws, n).steps[ii].acceptRate == (if ii == 0 then 0.0 else Rate(Moves(s, init, draws, ii), ii))
    decreases n
  {
    if ii < n - 1 {
      TraceRate(s, init, draws, n - 1, ii);
      var t := Trace(s, init, draws, n);
      assert t.steps[ii] == t.steps[..n - 1][ii];
    } else if n > 1 {
      TraceCursor(s, init, draws, n - 1);
      TraceCursor(s, init, draws, n);
    }
  }

  /** Recording is final: step `ii`, once recorded, is the same in every longer trace. */
  lemma {:induction false} TraceStepFinal<N>(s: Sampler<N>, init: State, draws: nat -> Draw<N>, ii: nat, n: nat)
    requires ii < n
    ensures Trace(s, init, draws, n).steps[ii] == Trace(s, init, draws, ii + 1).steps[ii]
    decreases n
  {
    if ii + 1 < n {
      TraceStepFinal(s, init, draws, ii, n - 1);
      var v := Trace(s, init, draws, n - 1);
      var u := Trace(s, init, draws, n);
      assert u == Advance(s, v, draws(n - 1));
      assert u.steps[ii] == u.steps[..n - 1][ii];
    }
  }

  /** Slot 0 holds the initial location, its log-density and a zero acceptance rate,
      however many iterations follow. */
  lemma InitialCondition<N>(s: Sampler<N>, init: State, draws: nat -> Draw<N>, n: nat)
    requires n >= 1
    ensures Trace(s, init, draws, n).steps[0] == Step(init, init, s.logProb(init), 0.0)
  {
    TraceAgreesWithWalk(s, init, draws, n, 0);
    TraceRate(s, init, draws, n, 0);
  }

  /** Every step proposes from the previous chain entry, always records its candidate,
      and either moves to it (when the Hastings test on the recorded log-density passes)
      or stays where it was. */
  lemma ChainContinuity<N>(s: Sampler<N>, init: State, draws: nat -> Draw<N>, n: nat, ii: nat)
    requires 1 <= ii < n
    ensures var t := Trace(s, init, draws, n);
      var prev := t.steps[ii - 1];
      var p := s.propose(prev.state, draws(ii).noise);
      && t.steps[ii].candidate == p.candidate
      && t.steps[ii].state == (if Accepts(s.exp, draws(ii).u, s.logProb(p.candidate), prev.lnprob, p.factor)
                               then p.candidate else prev.state)
  {
    TraceAgreesWithWalk(s, init, draws, n, ii - 1);
    TraceAgreesWithWalk(s, init, draws, n, ii);
  }

  /** The recorded log-density is always the target's log-density of the recorded state. */
  lemma LogProbRecorded<N>(s: Sampler<N>, init: State, draws: nat -> Draw<N>, n: nat, ii: nat)
    requires ii < n
    ensures var e := Trace(s, init, draws, n).steps[ii];
      e.lnprob == s.logProb(e.state)
  {
    TraceAgreesWithWalk(s, init, draws, n, ii);
  }

  /** The number of accepted steps a running rate stands for after `ii` steps:
      `accept_rate[ii] * ii`. */
  function Tally(rate: real, ii: nat): real {
    rate * ii as real
  }

  lemma RateTimesSteps(naccept: nat, ii: nat)
    requires ii >= 1
    ensures Tally(Rate(naccept, ii), ii) == naccept as real
  {
  }

  /** acceptRate[ii] * ii is exactly the number of accepted steps among 1 .. ii,
      hence between 0 and ii. */
  lemma AcceptRateCounts<N>(s: Sampler<N>, init: State, draws: nat -> Draw<N>, n: nat, ii: nat)
    requires ii < n
    ensures var e := Trace(s, init, draws, n).steps[ii];
      && Tally(e.acceptRate, ii) == Moves(s, init, draws, ii) as real
      && 0.0 <= Tally(e.acceptRate, ii) <= ii as real
  {
    TraceRate(s, init, draws, n, ii);
    if ii > 0 {
      RateTimesSteps(Moves(s, init, draws, ii), ii);
    }
  }

  /** acceptRate[ii] * ii grows by zero or one per step. */
  lemma AcceptRateStep<N>(s: Sampler<N>, init: State, draws: nat -> Draw<N>, n: nat, ii: nat)
    requires 1 <= ii < n
    ensures var t := Trace(s, init, draws, n);
      var grow := Tally(t.steps[ii].acceptRate, ii) - Tally(t.steps[ii - 1].acceptRate, ii - 1);
      grow == 0.0 || grow == 1.0
  {
    AcceptRateCounts(s, init, draws, n, ii);
    AcceptRateCounts(s, init, draws, n, ii - 1);
  }

  /** acceptRate[ii] * ii never decreases along the chain. */
  lemma {:induction false} AcceptRateMonotone<N>(s: Sampler<N>, init: State, draws: nat -> Draw<N>, n: nat, a: nat, b: nat)
    requires a <= b < n
    ensures var t := Trace(s, init, draws, n);
      Tally(t.steps[a].acceptRate, a) <= Tally(t.steps[b].acceptRate, b)
    decreases b - a
  {
    if a < b {
      AcceptRateMonotone(s, init, draws, n, a, b - 1);
      AcceptRateStep(s, init, draws, n, b);
    }
  }

  // ---------------------------------------------------------------------------
  // The entry point.

  /** Every recorded candidate has `ndim` coordinates, so every row assignment succeeds. */
  predicate Shaped(steps: seq<Step>, ndim: int) {
    forall k :: 0 <= k < |steps| ==> |steps[k].candidate| == ndim
  }

  /** The recorded states, in order. */
  function ChainOf(steps: seq<Step>): (c: seq<State>)
    ensures |c| == |steps| && forall k :: 0 <= k < |steps| ==> c[k] == steps[k].state
  {
    seq(|steps|, k requires 0 <= k < |steps| => steps[k].state)
  }

  /** The recorded candidates, in order. */
  function ProposalsOf(steps: seq<Step>): (c: seq<State>)
    ensures |c| == |steps| && forall k :: 0 <= k < |steps| ==> c[k] == steps[k].candidate
  {
    seq(|steps|, k requires 0 <= k < |steps| => steps[k].candidate)
  }

  /** `metropolis_hastings_sampler(log_prob_fn, prop_fn, initial_location, iterations, warm_up, ndim)`. */
  function Sample<N>(s: Sampler<N>, init: State, iterations: int, warmUp: int, ndim: int, draws: nat -> Draw<N>)
    : (r: Result<Output, SampleError>)
    ensures warmUp != 0 ==> r == Err(WarmUpNotImplemented)
    ensures warmUp == 0 && (iterations < 0 || ndim < 0) ==> r == Err(NegativeDimension)
    ensures warmUp == 0 && iterations == 0 && ndim >= 0 ==> r == Err(EmptyChain)
    ensures r.Ok? ==>
      && iterations >= 1
      && |r.value.chain| == iterations && |r.value.proposals| == iterations
      && r.value.warmUp == []
      && r.value.chain[0] == init && r.value.proposals[0] == init
      && (forall k :: 0 <= k < iterations ==> |r.value.chain[k]| == ndim && |r.value.proposals[k]| == ndim)
  {
    if warmUp != 0 then Err(WarmUpNotImplemented)
    else if iterations < 0 || ndim < 0 then Err(NegativeDimension)
    else if iterations == 0 then Err(EmptyChain)
    else if |init| != ndim then Err(ShapeMismatch)
    else
      var t := Trace(s, init, draws, iterations);
      if Shaped(t.steps, ndim) then
        InitialCondition(s, init, draws, iterations);
        StatesKeepShape(s, init, draws, iterations, ndim);
        Ok(Output(ChainOf(t.steps), [], ProposalsOf(t.steps)))
      else Err(ShapeMismatch)
  }

  /** The step whose candidate the chain occupies after `ii` steps: the last accepted
      step, or 0 when none was accepted yet. */
  function Origin<N>(s: Sampler<N>, init: State, draws: nat -> Draw<N>, ii: nat): (k: nat)
    ensures k <= ii
    ensures Walk(s, init, draws, ii) == Candidate(s, init, draws, k)
    decreases ii
  {
    if ii == 0 then 0
    else if MoveAccepted(s, Walk(s, init, draws, ii - 1), draws(ii)) then ii
    else Origin(s, init, draws, ii - 1)
  }

  /** Every recorded state is the candidate recorded at its origin step. */
  lemma StatesAreCandidates<N>(s: Sampler<N>, init: State, draws: nat -> Draw<N>, n: nat)
    requires n >= 1
    ensures var t := Trace(s, init, draws, n);
      forall ii :: 0 <= ii < n ==> t.steps[ii].state == t.steps[Origin(s, init, draws, ii)].candidate
  {
    forall ii | 0 <= ii < n
      ensures Trace(s, init, draws, n).steps[ii].state == Trace(s, init, draws, n).steps[Origin(s, init, draws, ii)].candidate
    {
      TraceAgreesWithWalk(s, init, draws, n, ii);
      TraceAgreesWithWalk(s, init, draws, n, Origin(s, init, draws, ii));
    }
  }

  /** Past the configuration checks, `Sample` returns the trace's states and candidates
      when every candidate has `ndim` coordinates, and a shape error otherwise. */
  lemma SampleFromTrace<N>(s: Sampler<N>, init: State, iterations: nat, ndim: int, draws: nat -> Draw<N>)
    requires iterations >= 1 && |init| == ndim
    ensures var t := Trace(s, init, draws, iterations);
      Sample(s, init, iterations, 0, ndim, draws) ==
        if Shaped(t.steps, ndim)
        then Ok(Output(ChainOf(t.steps), [], ProposalsOf(t.steps)))
        else Err(ShapeMismatch)
  {
  }

  /** When every candidate has `ndim` coordinates, so has every recorded state. */
  lemma StatesKeepShape<N>(s: Sampler<N>, init: State, draws: nat -> Draw<N>, n: nat, ndim: int)
    requires n >= 1
    requires Shaped(Trace(s, init, draws, n).steps, ndim)
    ensures forall k :: 0 <= k < n ==> |Trace(s, init, draws, n).steps[k].state| == ndim
  {
    var t := Trace(s, init, draws, n);
    StatesAreCandidates(s, init, draws, n);
    forall k | 0 <= k < n
      ensures |t.steps[k].state| == ndim
    {
      var o := Origin(s, init, draws, k);
      assert t.steps[k].state == t.steps[o].candidate;
    }
  }

  /** The candidates recorded in a trace all have `ndim` coordinates exactly when the
      reference chain's candidates do. */
  lemma ShapedIffCandidates<N>(s: Sampler<N>, init: State, draws: nat -> Draw<N>, n: nat, ndim: int)
    requires n >= 1
    ensures Shaped(Trace(s, init, draws, n).steps, ndim) <==>
            forall k :: 0 <= k < n ==> |Candidate(s, init, draws, k)| == ndim
  {
    forall k | 0 <= k < n
      ensures Trace(s, init, draws, n).steps[k].candidate == Candidate(s, init, draws, k)
    {
      TraceAgreesWithWalk(s, init, draws, n, k);
    }
  }

  /** A well-formed call fails only when some candidate has the wrong length; when it
      succeeds, it returns exactly the reference chain and its candidates. */
  lemma SampleOutcome<N>(s: Sampler<N>, init: State, iterations: int, ndim: int, draws: nat -> Draw<N>)
    requires iterations >= 1 && ndim >= 0
    ensures var r := Sample(s, init, iterations, 0, ndim, draws);
      && (r.Ok? <==> forall k :: 0 <= k < iterations ==> |Candidate(s, init, draws, k)| == ndim)
      && (r.Err? ==> r.error == ShapeMismatch)
      && (r.Ok? ==> forall ii :: 0 <= ii < iterations ==>
            r.value.chain[ii] == Walk(s, init, draws, ii) && r.value.proposals[ii] == Candidate(s, init, draws, ii))
  {
    var r := Sample(s, init, iterations, 0, ndim, draws);
    ShapedIffCandidates(s, init, draws, iterations, ndim);
    if |init| != ndim {
      assert Candidate(s, init, draws, 0) == init;
    } else {
      SampleFromTrace(s, init, iterations, ndim, draws);
      if r.Ok? {
        var t := Trace(s, init, draws, iterations);
        forall ii | 0 <= ii < iterations
          ensures r.value.chain[ii] == Walk(s, init, draws, ii)
          ensures r.value.proposals[ii] == Candidate(s, init, draws, ii)
        {
          TraceAgreesWithWalk(s, init, draws, iterations, ii);
        }
      }
    }
  }
}
