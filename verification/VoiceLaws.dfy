/** Streaming detection agrees with batch analysis, and capture depends only on the stream of whole frames. */
module VoiceLaws {
  import opened Results
  import opened Voice

  // ----- streaming against batch -----

  lemma {:induction false} PushAllConcat<D>(c: VadConfig<D>, v: Vad<D>, a: seq<real>, b: seq<real>)
    ensures PushAll(c, v, a + b) == PushAll(c, PushAll(c, v, a), b)
    decreases |a|
  {
    if a == [] {
      assert a + b == b;
    } else {
      assert (a + b)[0] == a[0] && (a + b)[1..] == a[1..] + b;
      PushAllConcat(c, PushSample(c, v, a[0]), a[1..], b);
    }
  }

  /** Samples that do not complete a frame are only collected. */
  lemma {:induction false} PushPartial<D>(c: VadConfig<D>, v: Vad<D>, xs: seq<real>)
    requires |v.frame| + |xs| < c.frameSamples
    ensures PushAll(c, v, xs) == v.(frame := v.frame + QuantiseAll(xs))
    decreases |xs|
  {
    if xs == [] {
      assert v.frame + [] == v.frame;
    } else {
      var next := PushSample(c, v, xs[0]);
      PushPartial(c, next, xs[1..]);
      AppendOne(v.frame, Quantise(xs[0]), QuantiseAll(xs[1..]));
    }
  }

  /** Only the frame that is handed over matters, not what was collected before. */
  lemma FrameDoneIgnores<D>(c: VadConfig<D>, v: Vad<D>, collected: seq<int>, frame: seq<int>)
    ensures FrameDone(c, v.(frame := collected), frame) == FrameDone(c, v, frame)
  {
  }

  /** The samples that complete a frame hand it over. */
  lemma {:induction false} PushCompletes<D>(c: VadConfig<D>, v: Vad<D>, xs: seq<real>)
    requires xs != [] && |v.frame| + |xs| == c.frameSamples
    ensures PushAll(c, v, xs) == FrameDone(c, v, v.frame + QuantiseAll(xs))
    decreases |xs|
  {
    var q, rest := Quantise(xs[0]), xs[1..];
    AppendOne(v.frame, q, QuantiseAll(rest));
    if rest == [] {
      assert PushAll(c, v, xs) == PushSample(c, v, xs[0]);
      assert v.frame + QuantiseAll(xs) == v.frame + [q];
    } else {
      PushCompletes(c, v.(frame := v.frame + [q]), rest);
      FrameDoneIgnores(c, v, v.frame + [q], v.frame + QuantiseAll(xs));
    }
  }

  /** One whole frame of samples is processed at once. */
  lemma PushFrame<D>(c: VadConfig<D>, v: Vad<D>, xs: seq<real>)
    requires v.frame == [] && |xs| == c.frameSamples > 0
    ensures PushAll(c, v, xs) == FrameDone(c, v, QuantiseAll(xs))
  {
    PushCompletes(c, v, xs);
    assert [] + QuantiseAll(xs) == QuantiseAll(xs);
  }

  /** A rejected frame is never forgotten. */
  lemma {:induction false} FailedStays<D>(c: VadConfig<D>, v: Vad<D>, xs: seq<real>)
    requires v.failed
    ensures PushAll(c, v, xs).failed
    decreases |xs|
  {
    if xs != [] { FailedStays(c, PushSample(c, v, xs[0]), xs[1..]); }
  }

  /** The two detectors are in the same situation at a frame boundary. */
  predicate Agree<D(==)>(v: Vad<D>, a: Analysis<D>) {
    v.frame == [] && !v.failed && SameSituation(v, a)
  }

  predicate SameSituation<D(==)>(v: Vad<D>, a: Analysis<D>) {
    v.state == a.state && v.speechSeen == a.speechSeen && v.trailingSilenceMs == a.trailingSilenceMs
    && v.endDetected == a.vadEndDetected
  }

  lemma FrameAgrees<D>(c: VadConfig<D>, v: Vad<D>, a: Analysis<D>, frame: seq<int>)
    requires Agree(v, a)
    ensures match AnalyseFrame(c, a, frame)
      case None => FrameDone(c, v, frame).failed
      case Some(next) => Agree(FrameDone(c, v, frame), next)
  {
  }

  /** From agreeing situations both reach agreeing situations, or both report the rejected frame. */
  lemma {:induction false} StreamAgrees<D>(c: VadConfig<D>, v: Vad<D>, a: Analysis<D>, xs: seq<real>)
    requires c.frameSamples > 0 && Agree(v, a)
    ensures var live := PushAll(c, v, xs);
      match AnalyseFrames(c, a, xs)
      case None => live.failed
      case Some(batch) => !live.failed && SameSituation(live, batch)
    decreases |xs|
  {
    if |xs| < c.frameSamples {
      PushPartial(c, v, xs);
    } else {
      var frame, rest := xs[..c.frameSamples], xs[c.frameSamples..];
      assert xs == frame + rest;
      PushAllConcat(c, v, frame, rest);
      PushFrame(c, v, frame);
      FrameAgrees(c, v, a, QuantiseAll(frame));
      match AnalyseFrame(c, a, QuantiseAll(frame)) {
        case None => FailedStays(c, FrameDone(c, v, QuantiseAll(frame)), rest);
        case Some(next) => StreamAgrees(c, FrameDone(c, v, QuantiseAll(frame)), next, rest);
      }
    }
  }

  /** At 16 kHz, whatever the samples: the live detector has failed exactly when the batch analysis fails, and
      otherwise both give the same trailing silence and the same end detection. */
  lemma LiveAgreesWithBatch<D>(make: (nat, nat) -> Option<Detector<D>>, samples: seq<real>, settings: VadSettings)
    requires settings.enabled && settings.aggressiveness <= 3
    requires LiveConfig(make, TARGET_SAMPLE_RATE_HZ, settings).Some?
    ensures var c := LiveConfig(make, TARGET_SAMPLE_RATE_HZ, settings).value;
      var live := PushAll(c, Idle(c), samples);
      match Analyse(make, samples, settings)
      case Failure(e) => e == VadError && live.failed
      case Success(s) =>
        !live.failed && live.trailingSilenceMs == s.trailingSilenceMs
        && live.endDetected == s.vadEndDetected
  {
    var c := LiveConfig(make, TARGET_SAMPLE_RATE_HZ, settings).value;
    StreamAgrees(c, Idle(c), StartAnalysis(c.detector), samples);
  }

  // ----- capture is a function of the stream of frames -----

  function Means(channels: nat, input: seq<real>): seq<real>
    requires channels > 0
    decreases |input|
  {
    if |input| < channels then [] else [Mean(input[..channels])] + Means(channels, input[channels..])
  }

  function Loudest(xs: seq<real>, start: real): real
    decreases |xs|
  {
    if xs == [] then start else Loudest(xs[1..], Max(start, Level(xs[0])))
  }

  function TakeAtMost(xs: seq<real>, n: nat): seq<real> {
    if |xs| <= n then xs else xs[..n]
  }

  predicate WithinCapacity<D>(c: CaptureConfig<D>, s: Capture<D>) {
    |s.samples| <= c.capacity && (s.vad.Some? <==> c.vad.Some?)
  }

  /** The capture after mono samples: as many as still fit are kept, and the limit is reported when one did not fit. */
  function Captured<D>(c: CaptureConfig<D>, s: Capture<D>, means: seq<real>): Capture<D>
    requires WithinCapacity(c, s)
  {
    var kept := TakeAtMost(means, c.capacity - |s.samples|);
    Capture(s.samples + kept, Loudest(kept, s.peak), s.durationLimitReached || |kept| < |means|,
            if c.vad.Some? then Some(PushAll(c.vad.value, s.vad.value, kept)) else None)
  }

  /** What one callback adds. */
  lemma {:induction false} AppendExact<D>(c: CaptureConfig<D>, s: Capture<D>, input: seq<real>)
    requires c.channels > 0 && WithinCapacity(c, s)
    ensures Append(c, s, input) == Captured(c, s, Means(c.channels, input))
    decreases |input|
  {
    var means := Means(c.channels, input);
    var kept := TakeAtMost(means, c.capacity - |s.samples|);
    if |input| < c.channels || |s.samples| == c.capacity {
      assert kept == [] && s.samples + [] == s.samples;
    } else {
      var mono := Mean(input[..c.channels]);
      var next := Store(c, s, mono);
      AppendExact(c, next, input[c.channels..]);
      var rest := TakeAtMost(means[1..], c.capacity - |next.samples|);
      assert kept == [mono] + rest;
      assert kept[1..] == rest;
      AppendOne(s.samples, mono, rest);
    }
  }

  /** A whole capture: the buffer holds the first samples up to its capacity and nothing else, the limit is reported
      exactly when more arrived, and the live detector has seen exactly what is stored. */
  lemma CaptureExact<D>(c: CaptureConfig<D>, input: seq<real>)
    requires c.channels > 0
    ensures var s := Append(c, Empty(c), input);
      var means := Means(c.channels, input);
      && s.samples == TakeAtMost(means, c.capacity) && |s.samples| <= c.capacity
      && (s.durationLimitReached <==> |means| > c.capacity)
      && (c.vad.Some? ==> s.vad == Some(PushAll(c.vad.value, Idle(c.vad.value), s.samples)))
  {
    var kept := TakeAtMost(Means(c.channels, input), c.capacity);
    AppendExact(c, Empty(c), input);
    assert Empty(c).samples + kept == kept;
  }

  /** Callbacks that deliver whole frames, here `n` of them, may split the stream anywhere. */
  lemma {:induction false} AppendSplits<D>(c: CaptureConfig<D>, s: Capture<D>, a: seq<real>, n: nat, b: seq<real>)
    requires c.channels > 0 && |a| == n * c.channels
    ensures Append(c, s, a + b) == Append(c, Append(c, s, a), b)
    decreases n
  {
    if n == 0 {
      assert a + b == b;
    } else {
      assert |a| == (n - 1) * c.channels + c.channels;
      var frame, rest := a[..c.channels], a[c.channels..];
      assert (a + b)[..c.channels] == frame && (a + b)[c.channels..] == rest + b;
      if |s.samples| < c.capacity || |s.samples| > c.capacity {
        AppendSplits(c, Store(c, s, Mean(frame)), rest, n - 1, b);
      }
    }
  }

  /** Input of `n` whole frames and a remainder has `n` means. */
  lemma {:induction false} MeansCount(channels: nat, input: seq<real>, n: nat)
    requires channels > 0 && n * channels <= |input| < n * channels + channels
    ensures |Means(channels, input)| == n
    decreases n
  {
    if n > 0 {
      assert n * channels == (n - 1) * channels + channels;
      MeansCount(channels, input[channels..], n - 1);
    }
  }

  /** The first whole frames decide the first means. */
  lemma {:induction false} MeansPrefix(channels: nat, a: seq<real>, b: seq<real>)
    requires channels > 0
    ensures Means(channels, a) <= Means(channels, a + b)
    decreases |a|
  {
    if |a| >= channels {
      assert (a + b)[..channels] == a[..channels] && (a + b)[channels..] == a[channels..] + b;
      MeansPrefix(channels, a[channels..], b);
    }
  }

  /** The buffer is full and the limit was reported, so that nothing can change any more. */
  predicate Finished<D>(c: CaptureConfig<D>, s: Capture<D>) {
    |s.samples| == c.capacity && s.durationLimitReached
  }

  /** A continuation that completes the broken frame is heard whole but not in two parts. */
  lemma BrokenFrameIsLost<D>(c: CaptureConfig<D>, s: Capture<D>, a: seq<real>, n: nat, b: seq<real>)
    requires c.channels > 0 && WithinCapacity(c, s) && n * c.channels < |a| < n * c.channels + c.channels
    requires |a| + |b| == n * c.channels + c.channels && !Finished(c, Append(c, s, a))
    ensures Append(c, s, a + b) != Append(c, Append(c, s, a), b)
  {
    MeansCount(c.channels, a, n);
    assert n * c.channels + c.channels == (n + 1) * c.channels;
    MeansCount(c.channels, a + b, n + 1);
    AppendExact(c, s, a);
    AppendExact(c, s, a + b);
    assert Append(c, Append(c, s, a), b) == Append(c, s, a);
  }

  lemma FinishedHeard<D>(c: CaptureConfig<D>, s: Capture<D>, short: seq<real>, long: seq<real>)
    requires WithinCapacity(c, s) && short <= long && Finished(c, Captured(c, s, short))
    ensures Captured(c, s, long) == Captured(c, s, short)
  {
    var room := c.capacity - |s.samples|;
    assert TakeAtMost(long, room) == TakeAtMost(short, room);
  }

  /** Once finished, a capture ignores what the rest of the stream brings, however it is split. */
  lemma FinishedIgnores<D>(c: CaptureConfig<D>, s: Capture<D>, a: seq<real>, b: seq<real>)
    requires c.channels > 0 && WithinCapacity(c, s) && Finished(c, Append(c, s, a))
    ensures Append(c, s, a + b) == Append(c, Append(c, s, a), b) == Append(c, s, a)
  {
    MeansPrefix(c.channels, a, b);
    AppendExact(c, s, a);
    AppendExact(c, s, a + b);
    FinishedHeard(c, s, Means(c.channels, a), Means(c.channels, a + b));
  }

  /** Splitting the stream after `a` makes no difference, whatever follows. */
  ghost predicate SplitHarmless<D(!new)>(c: CaptureConfig<D>, s: Capture<D>, a: seq<real>)
    requires c.channels > 0
  {
    forall b :: Append(c, s, a + b) == Append(c, Append(c, s, a), b)
  }

  lemma InsideHarms<D(!new)>(c: CaptureConfig<D>, s: Capture<D>, a: seq<real>, n: nat)
    requires c.channels > 0 && WithinCapacity(c, s) && n * c.channels < |a| < n * c.channels + c.channels
    requires !Finished(c, Append(c, s, a))
    ensures !SplitHarmless(c, s, a)
  {
    var b := seq(n * c.channels + c.channels - |a|, _ => 0.0);
    BrokenFrameIsLost(c, s, a, n, b);
  }

  lemma BetweenIsHarmless<D(!new)>(c: CaptureConfig<D>, s: Capture<D>, a: seq<real>, n: nat)
    requires c.channels > 0 && |a| == n * c.channels
    ensures SplitHarmless(c, s, a)
  {
    forall b ensures Append(c, s, a + b) == Append(c, Append(c, s, a), b) { AppendSplits(c, s, a, n, b); }
  }

  lemma FinishedIsHarmless<D(!new)>(c: CaptureConfig<D>, s: Capture<D>, a: seq<real>)
    requires c.channels > 0 && WithinCapacity(c, s) && Finished(c, Append(c, s, a))
    ensures SplitHarmless(c, s, a)
  {
    forall b ensures Append(c, s, a + b) == Append(c, Append(c, s, a), b) { FinishedIgnores(c, s, a, b); }
  }

  lemma CountFrames(length: nat, channels: nat) returns (n: nat)
    requires channels > 0
    ensures n * channels <= length < n * channels + channels
    ensures length % channels == 0 <==> length == n * channels
  {
    n := length / channels;
  }

  /** A split is harmless if and only if it falls between frames or the capture is finished by then. */
  lemma SplitExact<D(!new)>(c: CaptureConfig<D>, s: Capture<D>, a: seq<real>)
    requires c.channels > 0 && WithinCapacity(c, s)
    ensures SplitHarmless(c, s, a) <==> |a| % c.channels == 0 || Finished(c, Append(c, s, a))
  {
    var n := CountFrames(|a|, c.channels);
    if Finished(c, Append(c, s, a)) {
      FinishedIsHarmless(c, s, a);
    } else if |a| == n * c.channels {
      BetweenIsHarmless(c, s, a, n);
    } else {
      InsideHarms(c, s, a, n);
    }
  }

  // ----- finishing a recording at the target rate -----

  datatype Finalized = Finalized(audio: seq<real>, speech: SpeechAnalysis)

  /** Finishing a 16 kHz capture; at that rate the samples are passed on as they are. */
  function Finish<D>(make: (nat, nat) -> Option<Detector<D>>, s: Capture<D>, settings: VadSettings, streamError: bool,
                     callbackOverflow: bool)
    : Result<Finalized, AudioError>
  {
    if streamError then Failure(DeviceLost)
    else if callbackOverflow then Failure(BufferOverflow)
    else if s.durationLimitReached then Failure(DurationLimitReached)
    else if s.vad.Some? && s.vad.value.failed then Failure(VadError)
    else if s.samples == [] then Failure(EmptyRecording)
    else match Analyse(make, s.samples, settings)
      case Failure(e) => Failure(e)
      case Success(speech) => Success(Finalized(s.samples, speech))
  }

  /** A 16 kHz recording with a live detector that survives its checks is never lost to the batch analysis: it is
      delivered whole, with the end detection that was shown live. */
  lemma FinishNeverSurprises<D>(make: (nat, nat) -> Option<Detector<D>>, settings: VadSettings, capacity: nat,
                                channels: nat,
                                input: seq<real>, streamError: bool, callbackOverflow: bool)
    requires channels > 0 && settings.enabled && settings.aggressiveness <= 3
    requires LiveConfig(make, TARGET_SAMPLE_RATE_HZ, settings).Some?
    ensures var c := CaptureConfig(capacity, channels, LiveConfig(make, TARGET_SAMPLE_RATE_HZ, settings));
      var s := Append(c, Empty(c), input);
      var r := Finish(make, s, settings, streamError, callbackOverflow);
      s.vad.Some?
      && (r.Success?
        <==> !streamError && !callbackOverflow && 0 < |Means(channels, input)| <= capacity && !s.vad.value.failed)
      && (r.Success? ==> r.value.audio == Means(channels, input)
                         && r.value.speech.vadEndDetected == s.vad.value.endDetected
                         && r.value.speech.trailingSilenceMs == s.vad.value.trailingSilenceMs)
  {
    var c := CaptureConfig(capacity, channels, LiveConfig(make, TARGET_SAMPLE_RATE_HZ, settings));
    CaptureExact(c, input);
    LiveAgreesWithBatch(make, Append(c, Empty(c), input).samples, settings);
  }
}
