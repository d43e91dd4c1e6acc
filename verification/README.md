# Metropolis-Hastings sampling and image patch grids, in Dafny

This project models two pieces of ManimML:

- The Metropolis-Hastings sampler `metropolis_hastings_sampler` in
  `manim_ml/diffusion/mcmc.py`. Its two plug-ins from the same file are modelled too:
  the Gaussian random-walk proposal `gaussian_proposal` and the bounded Gaussian
  posterior `MultidimensionalGaussianPosterior.__call__`.
- The integer slice arithmetic of `ImagePatches._split_image_into_patches` in
  `examples/cross_attention_vis/cross_attention_vis.py`. This code cuts a square image
  into a `grid_width × grid_width` grid of patches.

What the proofs cover is the sampler's bookkeeping, not its statistics:

- which entry of which array holds what;
- that each step either stays put or moves to its candidate;
- the accept counter and the running acceptance rate;
- the error cases.

The randomness and the numerics are parameters, so every property holds whatever values
they take:

- `Sampler<N>` bundles the target log-density `logProb`, the proposal function
  `propose` and an uninterpreted `exp`.
- The global NumPy generator becomes a stream `draws: nat -> Draw<N>`. Iteration `ii`
  takes `draws(ii)`: the proposal's noise (of type `N`) and the uniform variate `u`.

Files:

- `results.dfy`: `Result`, the outcome of an operation that may raise.
- `mcmc.dfy`, module `Mcmc`:
  - the per-iteration record `Step`, one entry per index of `chain`, `proposals`,
    `lnprob` and `accept_rate`;
  - the functional sampler: `Begin` fills slot 0, `Advance` runs one loop pass,
    `Trace` runs `n` iterations, and `Sample` is the entry point with its error cases;
  - a reference Markov chain on states alone (`Walk`, `Candidate`, `Moves`, `Origin`),
    which recomputes the current log-density at each step instead of caching
    `lnprob0`;
  - the lemmas connecting the sampler to the reference chain.
- `mcmc_loop.dfy`, module `McmcLoop`: the sampler as the source writes it. It is a
  `while` loop over the loop variables `x0`, `lnprob0` and `naccept`, and it is proved
  to return exactly what `Sample` returns.
- `mcmc_plugins.dfy`, module `McmcPlugins`: the Gaussian proposal, the posterior, and
  what they imply when plugged into the sampler.
- `patches.dfy`, module `ImagePatches`: the nested patch loop, the row-major grid it
  builds, and the tiling lemmas.

The sampler as written:

- It compares `u < exp(lnprob_star - lnprob0) * factor` directly, with no log-space
  comparison.
- It never checks for non-finite log-densities.
- It has no separate dimension check: a wrong dimension shows up only as a failing
  row assignment.
- It draws from NumPy's global generator.

## Model

| member | source | states |
|---|---|---|
| Mcmc.Sample | manim_ml/diffusion/mcmc.py:122-155 | A nonzero `warm_up` always fails with `WarmUpNotImplemented`, whatever the plug-ins and draws are. Negative sizes fail with `NegativeDimension`. Zero iterations fail with `EmptyChain`. A successful run returns `iterations` chain rows and `iterations` proposal rows, each of `ndim` coordinates, plus an empty warm-up sequence. Slot 0 of both row sequences is the initial location. |
| Mcmc.SampleOutcome | manim_ml/diffusion/mcmc.py:124-155 | With `warm_up == 0`, `iterations >= 1` and `ndim >= 0`, the only possible error is `ShapeMismatch`. It happens exactly when some candidate of the reference chain lacks `ndim` coordinates. Otherwise the chain returned is the reference Metropolis-Hastings walk, and the proposals returned are its candidates. |
| Mcmc.Advance | manim_ml/diffusion/mcmc.py:136-153 | One iteration appends exactly one entry and leaves every earlier entry unchanged. The new `x0` is the old `x0` or the new candidate, and it is what gets recorded. The accept counter grows by at most one. |
| Mcmc.Trace | manim_ml/diffusion/mcmc.py:124-153 | After `n` iterations there are exactly `n` aligned entries. `x0` and `lnprob0` equal the last recorded state and log-density, and `naccept <= n - 1`. |
| Mcmc.Moves | manim_ml/diffusion/mcmc.py:145-148 | The number of accepted steps among 1 .. ii never exceeds `ii`. |
| Mcmc.Origin | manim_ml/diffusion/mcmc.py:143-150 | After `ii` steps the chain sits on the candidate of the last accepted step, or on the initial location (step 0) when no step was accepted. That step is never later than `ii`. |
| Mcmc.TraceCursor | manim_ml/diffusion/mcmc.py:131-148 | The loop variables track the reference chain: `x0` is its current state, `lnprob0` is `log_prob_fn(x0)`, and `naccept` counts its accepted moves. |
| Mcmc.TraceAgreesWithWalk | manim_ml/diffusion/mcmc.py:129-152 | Entry `ii` holds the reference chain's state after `ii` steps and the candidate considered at step `ii`. Its log-density is the target's log-density of that state. |
| Mcmc.TraceRate | manim_ml/diffusion/mcmc.py:127-153 | `accept_rate[0]` stays 0. For `ii >= 1`, `accept_rate[ii]` is the number of accepted moves among steps 1 .. ii divided by `ii`. |
| Mcmc.TraceStepFinal | manim_ml/diffusion/mcmc.py:149-152 | Once an entry is recorded, it is the same in every longer run. |
| Mcmc.InitialCondition | manim_ml/diffusion/mcmc.py:127-132 | `chain[0] == proposals[0] == initial_location`, `lnprob[0] == log_prob_fn(initial_location)` and `accept_rate[0] == 0`, for every iteration count. |
| Mcmc.ChainContinuity | manim_ml/diffusion/mcmc.py:136-151 | For `ii >= 1`, `proposals[ii]` is the candidate proposed from `chain[ii-1]`, whether or not it is accepted. `chain[ii]` is that candidate when `u < exp(lnprob_star - lnprob[ii-1]) * factor`, and `chain[ii-1]` otherwise. |
| Mcmc.LogProbRecorded | manim_ml/diffusion/mcmc.py:131-152 | `lnprob[ii] == log_prob_fn(chain[ii])` at every index. |
| Mcmc.AcceptRateCounts | manim_ml/diffusion/mcmc.py:135-153 | `accept_rate[ii] * ii` equals the number of accepted steps among 1 .. ii, so it lies between 0 and `ii`. |
| Mcmc.AcceptRateStep | manim_ml/diffusion/mcmc.py:145-153 | From one index to the next, `accept_rate[ii] * ii` grows by exactly 0 or exactly 1. |
| Mcmc.AcceptRateMonotone | manim_ml/diffusion/mcmc.py:135-153 | `accept_rate[ii] * ii` never decreases along the chain. |
| Mcmc.StatesAreCandidates | manim_ml/diffusion/mcmc.py:143-151 | Every recorded state is the candidate recorded at its origin step, which is that index or an earlier one. |
| Mcmc.StatesKeepShape | manim_ml/diffusion/mcmc.py:150-151 | When every candidate row has `ndim` coordinates, so does every chain row. |
| Mcmc.ShapedIffCandidates | manim_ml/diffusion/mcmc.py:151 | The recorded candidates all have `ndim` coordinates exactly when the reference chain's candidates do. |
| McmcLoop.MetropolisHastingsSampler | manim_ml/diffusion/mcmc.py:90-155 | The loop version returns exactly what `Sample` returns: the same error, or the same chain and proposals. |
| McmcLoop.Iterate | manim_ml/diffusion/mcmc.py:129-153 | The loop returns the full trace when every candidate has `ndim` coordinates. Otherwise it stops with `ShapeMismatch` at the first misshapen candidate. |
| McmcLoop.Iteration | manim_ml/diffusion/mcmc.py:138-153 | The loop body, written on `x0`, `lnprob0` and `naccept`, performs the same step as `Advance`. |
| McmcPlugins.GaussianProposal | manim_ml/diffusion/mcmc.py:38-42 | The proposal-ratio factor is exactly 1 and the candidate has as many coordinates as `x`. Coordinate `k` moves by `sigma` times the `k`-th standard normal variate. |
| McmcPlugins.PosteriorLogProb | manim_ml/diffusion/mcmc.py:85-88 | If some coordinate is `>= 500` or `<= -500`, the result is the sentinel `-1e6`. If every coordinate lies strictly between -500 and 500, the result is the multivariate normal log-density at the posterior's mean and variances. |
| McmcPlugins.GaussianKeepsDimension | manim_ml/diffusion/mcmc.py:136-150 | With the Gaussian proposal, every state and every candidate of the chain has the dimension of the initial location. |
| McmcPlugins.GaussianSampleSucceeds | manim_ml/diffusion/mcmc.py:92-155 | With the default Gaussian proposal, `warm_up == 0`, at least one iteration and an initial location of `ndim` coordinates, the sampler always returns a chain. |
| McmcPlugins.ConstantTargetAcceptsAll | manim_ml/diffusion/mcmc.py:140-153 | Suppose the target is constant, the proposal is the symmetric Gaussian, `exp(0) == 1` and every `u` lies in [0, 1). Then every step accepts: from index 1 on, the chain equals its candidates and the acceptance rate is 1. |
| McmcPlugins.AllMovesAccepted | manim_ml/diffusion/mcmc.py:143-148 | Under the same assumptions, all `ii` steps are accepted, and the chain sits on the latest candidate. |
| ImagePatches.SplitImageIntoPatches | examples/cross_attention_vis/cross_attention_vis.py:49-82 | Each failing condition has its own error: a non-square image gives `NotSquare`, a zero grid width gives `ZeroGridWidth`, and a size that the grid width does not divide gives `NotDivisible`. A split succeeds exactly when none of these applies. A negative grid width gives no patches. A positive one gives the `g*g` slices in row-major order, each `width/g` pixels on a side. |
| ImagePatches.GridLayout | examples/cross_attention_vis/cross_attention_vis.py:55-62 | There are exactly `g*g` patches. Patch `(i, j)` is the `(i*g + j)`-th one added, and it covers rows `[i*pw, (i+1)*pw)` and columns `[j*pw, (j+1)*pw)`, with `pw == width / g`. |
| ImagePatches.GridInBounds | examples/cross_attention_vis/cross_attention_vis.py:55-61 | Every patch is a `pw × pw` rectangle that lies inside the `width × width` image. |
| ImagePatches.GridTilesImage | examples/cross_attention_vis/cross_attention_vis.py:57-62 | Every pixel of the image lies in some patch. Two patches that share a pixel are the same patch, so each pixel is covered exactly once. |
| ImagePatches.LayoutAt | examples/cross_attention_vis/cross_attention_vis.py:57-61 | The row-major position `i*g + j` of patch `(i, j)` is within the grid and holds exactly that patch's slice. |
| ImagePatches.CoveredAt | examples/cross_attention_vis/cross_attention_vis.py:57-61 | Pixel `(r, c)` lies in the patch at grid row `r / pw` and grid column `c / pw`. |
| ImagePatches.PatchOfPixel | examples/cross_attention_vis/cross_attention_vis.py:60-61 | A patch containing pixel `(r, c)` sits in grid row `r / pw` and grid column `c / pw`. |
| ImagePatches.DisjointAt | examples/cross_attention_vis/cross_attention_vis.py:57-61 | Two patches that contain the same pixel have the same index. |

## Left out

- Mcmc.Sample: a row whose length differs from `ndim` is always a `ShapeMismatch`. NumPy would instead broadcast a length-1 row across all `ndim` columns. This broadcasting is not modelled.
- Mcmc.Sample: the `warm_up` guard is a Python `assert`, which `python -O` removes. The model always performs it.
- Random sources: `np.random.randn`, `np.random.uniform` and the global seed are replaced by the input stream `draws`. Their distributions are not modelled. The statistical properties are out of scope: convergence, acceptance near 1 for a constant target in distribution, and rejection near 1 at the support boundary.
- Floating point: log-densities, rates and coordinates are exact reals. `exp` is uninterpreted, so its overflow to infinity is not modelled. NaN comparisons are not modelled either. `naccept / ii` is exact real division.
- The plug-ins are pure functions. A `log_prob_fn` with hidden state is not modelled.
- `MultidimensionalGaussianPosterior.__init__` (mcmc.py:55-78) draws its mean and variances from the global generator. The model takes them as given values. `scipy.stats.multivariate_normal(...).logpdf` is a parameter, including its errors for mismatched dimensions.
- McmcPlugins.PosteriorLogProb: the "sentinel exactly when out of support" claim is stated as two implications. The abstract log-density could itself return `-1e6` inside the support.
- Python default arguments are built once at definition time (mcmc.py:91). This is a language artefact, and plug-ins are passed explicitly instead.
- `MCMCAxes` and all rendering in mcmc.py:159-375, including the tqdm progress bar.
- Patch placement through `scale` and `move_to` (cross_attention_vis.py:64-80), the `print` calls, and `ExpandPatches` (cross_attention_vis.py:84-120). `ExpandPatches` relies on float vector normalisation.
- The patch loop ranges over `self.grid_width`, while the slice arithmetic uses the `grid_width` parameter. The constructor passes the same value to both, so the model uses one value.
- `pixel_array.shape[:2]` is taken as the given height and width. An array with fewer than three dimensions is not modelled: cross_attention_vis.py:62 indexes a third axis, so a 2-D array raises IndexError there.
- ImagePatches.SplitImageIntoPatches: the squareness and divisibility guards (cross_attention_vis.py:53-54) are Python `assert`s, which `python -O` removes. The model always performs both. Without them, a non-square image would be split instead of refused, and a zero `grid_width` would fail at line 55 (`width // grid_width`).
- manim_ml/neural_network/layers/image_to_feed_forward.py only wires animations, and tests/test_expand_image_patches.py has no assertions. Neither is modelled.
- Determinism across runs holds because every member is a mathematical function of its inputs. No separate property states it.
