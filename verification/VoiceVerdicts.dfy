/** What the analyses report, told from the detector's verdicts on the frames alone. */
module VoiceVerdicts {
  import opened Results
  import opened Voice
  import opened VoiceLaws

  /** The verdicts on the whole frames of `xs` from a state on; none when a frame is rejected. */
  function Verdicts<D>(c: VadConfig<D>, state: D, xs: seq<real>): Option<seq<bool>>
    requires c.frameSamples > 0
    decreases |xs|
  {
    if |xs| < c.frameSamples then Some([])
    else
      var (next, result) := c.detector.process(state, QuantiseAll(xs[..c.frameSamples]));
      match result
      case None => None
      case Some(speech) =>
        match Verdicts(c, next, xs[c.frameSamples..])
        case None => None
        case Some(rest) => Some([speech] + rest)
  }

  function Count(verdicts: seq<bool>): nat {
    if verdicts == [] then 0
    else Count(verdicts[..|verdicts| - 1]) + if verdicts[|verdicts| - 1] then 1 else 0
  }

  /** There is speech, its last frame is `n` frames before the end. */
  predicate SilentFor(verdicts: seq<bool>, n: nat) {
    n < |verdicts| && verdicts[|verdicts| - 1 - n] && forall k :: |verdicts| - n <= k < |verdicts| ==> !verdicts[k]
  }

  /** So many frames in milliseconds, within 64 bits. */
  function Milliseconds(frames: nat): nat {
    if frames * 30 > U64_MAX then U64_MAX else frames * 30
  }

  /** At some frame without speech, speech lay far enough back. */
  ghost predicate EndReached(verdicts: seq<bool>, endSilenceMs: nat) {
    exists m, n: nat :: 0 < n < m <= |verdicts| && SilentFor(verdicts[..m], n) && Milliseconds(n) >= endSilenceMs
  }

  /** What an analysis has to say after these verdicts. */
  ghost predicate Reflects<D>(c: VadConfig<D>, a: Analysis<D>, verdicts: seq<bool>) {
    && (a.speechSeen <==> true in verdicts)
    && a.speechDurationMs == Milliseconds(Count(verdicts))
    && (forall n: nat :: SilentFor(verdicts, n) ==> a.trailingSilenceMs == Milliseconds(n))
    && (true !in verdicts ==> a.trailingSilenceMs == 0)
    && (a.vadEndDetected <==> EndReached(verdicts, c.endSilenceMs))
  }

  /** Speech has a last frame. */
  lemma {:induction false} LastSpeech(verdicts: seq<bool>) returns (n: nat)
    requires true in verdicts
    ensures SilentFor(verdicts, n)
    decreases |verdicts|
  {
    var before := verdicts[..|verdicts| - 1];
    if verdicts[|verdicts| - 1] {
      n := 0;
    } else {
      assert true in before;
      n := LastSpeech(before);
      n := n + 1;
    }
  }

  lemma SilentForOnce(verdicts: seq<bool>, m: nat, n: nat)
    requires SilentFor(verdicts, m) && SilentFor(verdicts, n)
    ensures m == n
  {
  }

  lemma CountNext(verdicts: seq<bool>, speech: bool)
    ensures Count(verdicts + [speech]) == Count(verdicts) + if speech then 1 else 0
  {
    assert (verdicts + [speech])[..|verdicts|] == verdicts;
  }

  /** One more verdict: after speech nothing is silent yet, after silence one frame more. */
  lemma SilentNext(verdicts: seq<bool>, speech: bool, n: nat)
    ensures SilentFor(verdicts + [speech], n) <==>
      if speech then n == 0 else n > 0 && SilentFor(verdicts, n - 1)
  {
    var longer := verdicts + [speech];
    if n > 0 && n < |longer| { assert longer[|longer| - 1 - n] == verdicts[|verdicts| - 1 - (n - 1)]; }
    if !speech && n > 0 && SilentFor(longer, n) {
      forall k | |verdicts| - (n - 1) <= k < |verdicts| ensures !verdicts[k] { assert !longer[k]; }
    }
    if speech && n > 0 { assert longer[|verdicts|]; }
  }

  lemma EndNext(verdicts: seq<bool>, speech: bool, endSilenceMs: nat)
    ensures EndReached(verdicts + [speech], endSilenceMs) <==>
      EndReached(verdicts, endSilenceMs)
      || (!speech && exists n: nat :: SilentFor(verdicts, n) && Milliseconds(n + 1) >= endSilenceMs)
  {
    var longer := verdicts + [speech];
    assert longer[..|longer|] == longer;
    if m, n: nat :| 0 < n < m <= |longer| && SilentFor(longer[..m], n) && Milliseconds(n) >= endSilenceMs {
      if m <= |verdicts| {
        assert longer[..m] == verdicts[..m];
      } else {
        SilentNext(verdicts, speech, n);
        assert SilentFor(verdicts, n - 1) && Milliseconds((n - 1) + 1) >= endSilenceMs;
      }
    }
    if m, n: nat :| 0 < n < m <= |verdicts| && SilentFor(verdicts[..m], n) && Milliseconds(n) >= endSilenceMs {
      assert longer[..m] == verdicts[..m];
    }
    if n: nat :| !speech && SilentFor(verdicts, n) && Milliseconds(n + 1) >= endSilenceMs {
      SilentNext(verdicts, speech, n + 1);
      assert SilentFor(longer[..|longer|], n + 1);
    }
  }

  lemma FrameReflects<D>(c: VadConfig<D>, a: Analysis<D>, verdicts: seq<bool>, frame: seq<int>)
    requires Reflects(c, a, verdicts) && c.detector.process(a.state, frame).1.Some?
    ensures var (state, result) := c.detector.process(a.state, frame);
      var next := AnalyseFrame(c, a, frame);
      next.Some? && next.value.state == state && Reflects(c, next.value, verdicts + [result.value])
  {
    var (state, result) := c.detector.process(a.state, frame);
    var speech, longer := result.value, verdicts + [result.value];
    CountNext(verdicts, speech);
    EndNext(verdicts, speech, c.endSilenceMs);
    assert true in longer <==> true in verdicts || speech;
    forall n: nat ensures SilentFor(longer, n) <==> if speech then n == 0 else n > 0 && SilentFor(verdicts, n - 1) {
      SilentNext(verdicts, speech, n);
    }
    if true in verdicts {
      var n := LastSpeech(verdicts);
      forall m: nat | SilentFor(verdicts, m) ensures m == n { SilentForOnce(verdicts, m, n); }
      assert SaturatingAdd(Milliseconds(n), VAD_FRAME_MS) == Milliseconds(n + 1);
    }
  }

  /** From a situation that reflects what was heard so far, the analysis fails with a rejected frame and otherwise
      reflects everything. */
  lemma {:induction false} AnalysisReflects<D>(c: VadConfig<D>, a: Analysis<D>, past: seq<bool>, xs: seq<real>)
    requires c.frameSamples > 0 && Reflects(c, a, past)
    ensures match Verdicts(c, a.state, xs)
      case None => AnalyseFrames(c, a, xs).None?
      case Some(verdicts) =>
        AnalyseFrames(c, a, xs).Some? && Reflects(c, AnalyseFrames(c, a, xs).value, past + verdicts)
    decreases |xs|
  {
    if |xs| < c.frameSamples {
      assert past + [] == past;
    } else {
      var frame, rest := QuantiseAll(xs[..c.frameSamples]), xs[c.frameSamples..];
      var (state, result) := c.detector.process(a.state, frame);
      if result.Some? {
        FrameReflects(c, a, past, frame);
        var next := AnalyseFrame(c, a, frame).value;
        AnalysisReflects(c, next, past + [result.value], rest);
        var later := Verdicts(c, state, rest);
        if later.Some? { assert (past + [result.value]) + later.value == past + ([result.value] + later.value); }
      }
    }
  }

  /** The whole batch analysis in terms of the verdicts: it fails exactly when the detector rejects a frame, the speech
      it reports is 30 ms for every frame with speech, the trailing silence 30 ms for every frame after the last one
      with speech, and the end is detected exactly when such a silence was once long enough. */
  lemma AnalysisExact<D>(make: (nat, nat) -> Option<Detector<D>>, samples: seq<real>, settings: VadSettings)
    requires settings.enabled && settings.aggressiveness <= 3
    requires make(TARGET_SAMPLE_RATE_HZ, settings.aggressiveness).Some?
    ensures var detector := make(TARGET_SAMPLE_RATE_HZ, settings.aggressiveness).value;
      match Verdicts(VadConfig(detector, 480, settings.endSilenceMs), detector.initial, samples)
      case None => Analyse(make, samples, settings) == Failure(VadError)
      case Some(verdicts) =>
        var r := Analyse(make, samples, settings);
        && r.Success?
        && r.value.speechDurationMs == Milliseconds(Count(verdicts))
        && r.value.hasMinimumSpeech == (Milliseconds(Count(verdicts)) >= settings.minimumSpeechMs)
        && (forall n: nat :: SilentFor(verdicts, n) ==> r.value.trailingSilenceMs == Milliseconds(n))
        && (true !in verdicts ==> r.value.trailingSilenceMs == 0)
        && (r.value.vadEndDetected <==> EndReached(verdicts, settings.endSilenceMs))
  {
    var detector := make(TARGET_SAMPLE_RATE_HZ, settings.aggressiveness).value;
    var c := VadConfig(detector, 480, settings.endSilenceMs);
    assert Reflects(c, StartAnalysis(detector), []);
    AnalysisReflects(c, StartAnalysis(detector), [], samples);
    if Verdicts(c, detector.initial, samples).Some? {
      assert [] + Verdicts(c, detector.initial, samples).value == Verdicts(c, detector.initial, samples).value;
    }
  }

  // ----- levels -----

  /** The peak is the largest magnitude among the stored samples, but never more than 1. */
  lemma PeakExact<D>(c: CaptureConfig<D>, input: seq<real>)
    requires c.channels > 0
    ensures var s := Append(c, Empty(c), input);
      && 0.0 <= s.peak <= 1.0
      && (forall k :: 0 <= k < |s.samples| ==> s.peak == 1.0 || -s.peak <= s.samples[k] <= s.peak)
      && (s.peak > 0.0 ==> exists k :: 0 <= k < |s.samples| && (s.samples[k] >= s.peak || -s.samples[k] >= s.peak))
  {
    var kept := TakeAtMost(Means(c.channels, input), c.capacity);
    AppendExact(c, Empty(c), input);
    assert Empty(c).samples + kept == kept;
    LoudestExact(kept, 0.0);
  }

  lemma {:induction false} LoudestExact(xs: seq<real>, start: real)
    requires 0.0 <= start <= 1.0
    ensures var peak := Loudest(xs, start);
      && start <= peak <= 1.0
      && (forall k :: 0 <= k < |xs| ==> Level(xs[k]) <= peak)
      && (peak > start ==> exists k :: 0 <= k < |xs| && Level(xs[k]) == peak)
    decreases |xs|
  {
    if xs != [] {
      var next := Max(start, Level(xs[0]));
      LoudestExact(xs[1..], next);
      var peak := Loudest(xs, start);
      forall k | 0 <= k < |xs| ensures Level(xs[k]) <= peak {
        if k > 0 { assert xs[k] == xs[1..][k - 1]; }
      }
      if peak > next {
        var k :| 0 <= k < |xs[1..]| && Level(xs[1..][k]) == peak;
        assert xs[k + 1] == xs[1..][k];
      }
    }
  }

  /** The samples of a frame added up from the first one on. */
  function Total(xs: seq<real>): real {
    if xs == [] then 0.0 else xs[0] + Total(xs[1..])
  }

  lemma {:induction false} TotalNext(xs: seq<real>, x: real)
    ensures Total(xs + [x]) == Total(xs) + x
  {
    if xs == [] {
      assert [] + [x] == [x] && [x][1..] == [];
    } else {
      assert (xs + [x])[1..] == xs[1..] + [x];
      TotalNext(xs[1..], x);
    }
  }

  lemma {:induction false} SumIsTotal(xs: seq<real>)
    ensures Sum(xs) == Total(xs)
    decreases |xs|
  {
    if xs != [] {
      var before := xs[..|xs| - 1];
      SumIsTotal(before);
      TotalNext(before, xs[|xs| - 1]);
      assert xs == before + [xs[|xs| - 1]];
    }
  }

  /** A mono sample is the channels' common share of their total. */
  lemma MeanExact(frame: seq<real>)
    requires frame != []
    ensures Mean(frame) * |frame| as real == Total(frame)
  {
    SumIsTotal(frame);
  }

  /** A sample within the range is rounded to the nearest step, one outside to its end. */
  lemma QuantiseExact(x: real)
    ensures x >= 1.0 ==> Quantise(x) == 32767
    ensures x <= -1.0 ==> Quantise(x) == -32767
    ensures -1.0 <= x <= 1.0 ==> -0.5 <= Quantise(x) as real - x * 32767.0 <= 0.5
  {
  }
}
