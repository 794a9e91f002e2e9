/** Microphone capture with a streaming voice detector, and the batch analysis of the finished recording. */
module Voice {
  import opened Results

  const TARGET_SAMPLE_RATE_HZ: nat := 16_000
  const VAD_FRAME_MS: nat := 30

  /** A deterministic detector for one rate and mode: whether a frame is speech, or nothing when it is rejected. */
  datatype Detector<!D> = Detector(initial: D, process: (D, seq<int>) -> (D, Option<bool>))

  datatype VadSettings = VadSettings(enabled: bool, aggressiveness: nat, endSilenceMs: nat, minimumSpeechMs: nat)

  datatype SpeechAnalysis = SpeechAnalysis(
    speechDurationMs: nat,
    trailingSilenceMs: nat,
    hasMinimumSpeech: bool,
    vadEndDetected: bool)

  datatype AudioError =
    | DeviceLost | BufferOverflow | DurationLimitReached | VadError | EmptyRecording | InvalidVadAggressiveness

  function SaturatingAdd(a: nat, b: nat): nat {
    if a + b > U64_MAX then U64_MAX else a + b
  }

  // ----- samples -----

  function Clamp(x: real): real {
    if x < -1.0 then -1.0 else if x > 1.0 then 1.0 else x
  }

  /** Rounds half away from zero. */
  function Round(x: real): int {
    if x >= 0.0 then (x + 0.5).Floor else -((0.5 - x).Floor)
  }

  /** A sample in the 16-bit range. */
  function Quantise(x: real): (q: int)
    ensures -32767 <= q <= 32767
  {
    Round(Clamp(x) * 32767.0)
  }

  function QuantiseAll(xs: seq<real>): (r: seq<int>)
    ensures |r| == |xs| && forall k :: 0 <= k < |r| ==> r[k] == Quantise(xs[k])
  {
    if xs == [] then [] else [Quantise(xs[0])] + QuantiseAll(xs[1..])
  }

  // ----- the streaming detector -----

  datatype Vad<!D> = Vad(
    state: D,
    frame: seq<int>,
    speechSeen: bool,
    trailingSilenceMs: nat,
    endDetected: bool,
    failed: bool)

  datatype VadConfig<!D> = VadConfig(detector: Detector<D>, frameSamples: nat, endSilenceMs: nat)

  function Heard<D>(c: VadConfig<D>, v: Vad<D>, speech: bool): Vad<D> {
    if speech then v.(speechSeen := true, trailingSilenceMs := 0)
    else if v.speechSeen then
      var silence := SaturatingAdd(v.trailingSilenceMs, VAD_FRAME_MS);
      v.(trailingSilenceMs := silence, endDetected := v.endDetected || silence >= c.endSilenceMs)
    else v
  }

  /** A complete frame; one that the detector rejects counts as silence and is remembered. */
  function FrameDone<D>(c: VadConfig<D>, v: Vad<D>, frame: seq<int>): Vad<D> {
    var (state, result) := c.detector.process(v.state, frame);
    match result
    case None => Heard(c, v.(state := state, frame := [], failed := true), false)
    case Some(speech) => Heard(c, v.(state := state, frame := []), speech)
  }

  function PushSample<D>(c: VadConfig<D>, v: Vad<D>, x: real): Vad<D> {
    var frame := v.frame + [Quantise(x)];
    if |frame| != c.frameSamples then v.(frame := frame) else FrameDone(c, v, frame)
  }

  function PushAll<D>(c: VadConfig<D>, v: Vad<D>, xs: seq<real>): Vad<D>
    decreases |xs|
  {
    if xs == [] then v else PushAll(c, PushSample(c, v, xs[0]), xs[1..])
  }

  function Idle<D>(c: VadConfig<D>): Vad<D> {
    Vad(c.detector.initial, [], false, 0, false, false)
  }

  class LiveVad<D> {
    const config: VadConfig<D>
    var state: D
    var frame: seq<int>
    var speechSeen: bool
    var trailingSilenceMs: nat
    var endDetected: bool
    var failed: bool

    function View(): Vad<D>
      reads this
    {
      Vad(state, frame, speechSeen, trailingSilenceMs, endDetected, failed)
    }

    constructor (config: VadConfig<D>)
      ensures this.config == config && View() == Idle(config)
    {
      this.config := config;
      state := config.detector.initial;
      frame, speechSeen, trailingSilenceMs, endDetected, failed := [], false, 0, false, false;
    }

    method Push(sample: real)
      modifies this
      ensures View() == PushSample(config, old(View()), sample)
    {
      frame := frame + [Quantise(sample)];
      if |frame| != config.frameSamples { return; }
      var (next, result) := config.detector.process(state, frame);
      state := next;
      var isSpeech := false;
      match result {
        case Some(speech) => isSpeech := speech;
        case None => failed := true;
      }
      frame := [];
      if isSpeech {
        speechSeen := true;
        trailingSilenceMs := 0;
      } else if speechSeen {
        trailingSilenceMs := SaturatingAdd(trailingSilenceMs, VAD_FRAME_MS);
        endDetected := endDetected || trailingSilenceMs >= config.endSilenceMs;
      }
    }
  }

  // ----- capture -----

  datatype Capture<!D> = Capture(samples: seq<real>, peak: real, durationLimitReached: bool, vad: Option<Vad<D>>)

  datatype CaptureConfig<!D> = CaptureConfig(capacity: nat, channels: nat, vad: Option<VadConfig<D>>)

  function Sum(xs: seq<real>): real {
    if xs == [] then 0.0 else Sum(xs[..|xs| - 1]) + xs[|xs| - 1]
  }

  function Mean(frame: seq<real>): real
    requires frame != []
  {
    Sum(frame) / (|frame| as real)
  }

  function Level(x: real): real {
    var size := if x < 0.0 then -x else x;
    if size > 1.0 then 1.0 else size
  }

  function Max(a: real, b: real): real {
    if a > b then a else b
  }

  function Store<D>(c: CaptureConfig<D>, s: Capture<D>, mono: real): Capture<D> {
    Capture(s.samples + [mono], Max(s.peak, Level(mono)), s.durationLimitReached,
            if s.vad.Some? && c.vad.Some? then Some(PushSample(c.vad.value, s.vad.value, mono)) else s.vad)
  }

  /** One callback's input, frame by frame; a trailing part of a frame is dropped, a full buffer ends it. */
  function Append<D>(c: CaptureConfig<D>, s: Capture<D>, input: seq<real>): Capture<D>
    requires c.channels > 0
    decreases |input|
  {
    if |input| < c.channels then s
    else if |s.samples| == c.capacity then s.(durationLimitReached := true)
    else Append(c, Store(c, s, Mean(input[..c.channels])), input[c.channels..])
  }

  function Empty<D>(c: CaptureConfig<D>): Capture<D> {
    Capture([], 0.0, false, if c.vad.Some? then Some(Idle(c.vad.value)) else None)
  }

  class CaptureState<D> {
    const config: CaptureConfig<D>
    var samples: seq<real>
    var peak: real
    var durationLimitReached: bool
    const liveVad: LiveVad?<D>

    ghost predicate Valid()
      reads this, liveVad
    {
      && config.channels > 0
      && (liveVad != null <==> config.vad.Some?)
      && (liveVad != null ==> liveVad.config == config.vad.value)
    }

    function View(): Capture<D>
      reads this, liveVad
    {
      Capture(samples, peak, durationLimitReached, if liveVad == null then None else Some(liveVad.View()))
    }

    constructor (config: CaptureConfig<D>)
      requires config.channels > 0
      ensures this.config == config && Valid() && View() == Empty(config) && (liveVad != null ==> fresh(liveVad))
    {
      this.config := config;
      samples, peak, durationLimitReached := [], 0.0, false;
      if config.vad.Some? {
        liveVad := new LiveVad(config.vad.value);
      } else {
        liveVad := null;
      }
    }

    method AppendInput(input: seq<real>)
      requires Valid()
      modifies this, liveVad
      ensures Valid() && View() == Append(config, old(View()), input)
    {
      var rest := input;
      while |rest| >= config.channels
        invariant Valid()
        invariant Append(config, View(), rest) == Append(config, old(View()), input)
      {
        if |samples| == config.capacity {
          durationLimitReached := true;
          return;
        }
        ghost var before := View();
        var mono := Mean(rest[..config.channels]);
        peak := Max(peak, Level(mono));
        samples := samples + [mono];
        if liveVad != null { liveVad.Push(mono); }
        assert View() == Store(config, before, mono);
        rest := rest[config.channels..];
      }
    }
  }

  // ----- configuration -----

  function FrameSamples(rate: nat): nat {
    rate * VAD_FRAME_MS / 1_000
  }

  /** The live detector of a capture: none when disabled, when the rate is unsupported or when it cannot be made. */
  function LiveConfig<D>(make: (nat, nat) -> Option<Detector<D>>, rate: nat,
                         settings: VadSettings): Option<VadConfig<D>> {
    if !settings.enabled || rate !in {8_000, 16_000, 32_000, 48_000} then None
    else match make(rate, settings.aggressiveness)
      case None => None
      case Some(detector) => Some(VadConfig(detector, FrameSamples(rate), settings.endSilenceMs))
  }

  // ----- batch analysis -----

  datatype Analysis<!D> = Analysis(state: D, speechSeen: bool, speechDurationMs: nat, trailingSilenceMs: nat,
                                   vadEndDetected: bool)

  function AnalyseFrame<D>(c: VadConfig<D>, a: Analysis<D>, frame: seq<int>): Option<Analysis<D>> {
    var (state, result) := c.detector.process(a.state, frame);
    match result
    case None => None
    case Some(speech) =>
      if speech then Some(Analysis(state, true, SaturatingAdd(a.speechDurationMs, VAD_FRAME_MS), 0, a.vadEndDetected))
      else if a.speechSeen then
        var silence := SaturatingAdd(a.trailingSilenceMs, VAD_FRAME_MS);
        Some(Analysis(state, true, a.speechDurationMs, silence, a.vadEndDetected || silence >= c.endSilenceMs))
      else Some(a.(state := state))
  }

  /** The analysis of the whole frames of `xs`; a last incomplete frame is ignored. */
  function AnalyseFrames<D>(c: VadConfig<D>, a: Analysis<D>, xs: seq<real>): Option<Analysis<D>>
    requires c.frameSamples > 0
    decreases |xs|
  {
    if |xs| < c.frameSamples then Some(a)
    else match AnalyseFrame(c, a, QuantiseAll(xs[..c.frameSamples]))
      case None => None
      case Some(next) => AnalyseFrames(c, next, xs[c.frameSamples..])
  }

  function StartAnalysis<D>(detector: Detector<D>): Analysis<D> {
    Analysis(detector.initial, false, 0, 0, false)
  }

  function Report<D>(a: Analysis<D>, settings: VadSettings): SpeechAnalysis {
    SpeechAnalysis(a.speechDurationMs, a.trailingSilenceMs, a.speechDurationMs >= settings.minimumSpeechMs,
                   a.vadEndDetected)
  }

  function TotalMs(samples: nat): nat {
    (if samples * 1_000 > U64_MAX then U64_MAX else samples * 1_000) / TARGET_SAMPLE_RATE_HZ
  }

  function Analyse<D>(make: (nat, nat) -> Option<Detector<D>>, samples: seq<real>,
                      settings: VadSettings): Result<SpeechAnalysis, AudioError> {
    if settings.aggressiveness > 3 then Failure(InvalidVadAggressiveness)
    else if !settings.enabled then Success(SpeechAnalysis(TotalMs(|samples|), 0, samples != [], false))
    else match make(TARGET_SAMPLE_RATE_HZ, settings.aggressiveness)
      case None => Failure(VadError)
      case Some(detector) =>
        var c := VadConfig(detector, FrameSamples(TARGET_SAMPLE_RATE_HZ), settings.endSilenceMs);
        match AnalyseFrames(c, StartAnalysis(detector), samples)
        case None => Failure(VadError)
        case Some(a) => Success(Report(a, settings))
  }

  method AnalyzeSpeech<D>(make: (nat, nat) -> Option<Detector<D>>, samples: seq<real>, settings: VadSettings)
    returns (result: Result<SpeechAnalysis, AudioError>)
    ensures result == Analyse(make, samples, settings)
  {
    if settings.aggressiveness > 3 { return Failure(InvalidVadAggressiveness); }
    if !settings.enabled { return Success(SpeechAnalysis(TotalMs(|samples|), 0, samples != [], false)); }
    var made := make(TARGET_SAMPLE_RATE_HZ, settings.aggressiveness);
    if made.None? { return Failure(VadError); }
    var detector := made.value;
    ghost var c := VadConfig(detector, FrameSamples(TARGET_SAMPLE_RATE_HZ), settings.endSilenceMs);
    var frameSamples := FrameSamples(TARGET_SAMPLE_RATE_HZ);
    var state, rest := detector.initial, samples;
    var speechDurationMs: nat, trailingSilenceMs: nat := 0, 0;
    var speechSeen, vadEndDetected := false, false;
    while |rest| >= frameSamples
      invariant AnalyseFrames(c, Analysis(state, speechSeen, speechDurationMs, trailingSilenceMs, vadEndDetected), rest)
             == AnalyseFrames(c, StartAnalysis(detector), samples)
    {
      var (next, speech) := detector.process(state, QuantiseAll(rest[..frameSamples]));
      if speech.None? { return Failure(VadError); }
      if speech.value {
        speechSeen := true;
        speechDurationMs := SaturatingAdd(speechDurationMs, VAD_FRAME_MS);
        trailingSilenceMs := 0;
      } else if speechSeen {
        trailingSilenceMs := SaturatingAdd(trailingSilenceMs, VAD_FRAME_MS);
        vadEndDetected := vadEndDetected || trailingSilenceMs >= settings.endSilenceMs;
      }
      state, rest := next, rest[frameSamples..];
    }
    return Success(SpeechAnalysis(speechDurationMs, trailingSilenceMs, speechDurationMs >= settings.minimumSpeechMs,
                                  vadEndDetected));
  }
}
