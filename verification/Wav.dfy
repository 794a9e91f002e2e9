/** Validation of uploaded audio: raw float PCM, RIFF/WAVE chunk walking, and the PCM-to-WAV wrapper. */
module Wav {
  import opened Results

  const U32_LIMIT: nat := 0x1_0000_0000

  datatype AudioError =
    | MalformedPcm | NonFiniteSample | NotRiffWave | TruncatedChunk | ShortFormat
    | MissingFormat | MissingData | UnsupportedFormat | IncompleteData | PcmTooLarge

  // ----- little-endian fields -----

  function Le16(b: Bytes, i: nat): nat
    requires i + 2 <= |b|
  {
    b[i] as int + 0x100 * b[i + 1] as int
  }

  function Le32(b: Bytes, i: nat): nat
    requires i + 4 <= |b|
  {
    b[i] as int + 0x100 * b[i + 1] as int + 0x1_0000 * b[i + 2] as int + 0x100_0000 * b[i + 3] as int
  }

  function ToLe16(n: nat): Bytes
    requires n < 0x1_0000
  {
    [n % 0x100, n / 0x100]
  }

  function ToLe32(n: nat): Bytes
    requires n < U32_LIMIT
  {
    [n % 0x100, n / 0x100 % 0x100, n / 0x1_0000 % 0x100, n / 0x100_0000]
  }

  lemma Le32RoundTrip(n: nat)
    requires n < U32_LIMIT
    ensures Le32(ToLe32(n), 0) == n
  {
    assert n / 0x100 == 0x100 * (n / 0x1_0000) + n / 0x100 % 0x100;
    assert n / 0x1_0000 == 0x100 * (n / 0x100_0000) + n / 0x1_0000 % 0x100;
  }

  // ----- samples -----

  /** An IEEE 754 single is finite unless its eight exponent bits are all ones. */
  predicate FiniteSample(b: Bytes, i: nat)
    requires i + 4 <= |b|
  {
    !(b[i + 3] % 128 == 127 && b[i + 2] >= 128)
  }

  ghost predicate AllFinite(b: Bytes) {
    forall k: nat :: 4 * k + 4 <= |b| ==> FiniteSample(b, 4 * k)
  }

  method CheckSamples(b: Bytes) returns (ok: bool)
    ensures ok <==> AllFinite(b)
  {
    var k := 0;
    while 4 * k + 4 <= |b|
      invariant forall m: nat :: m < k ==> 4 * m + 4 <= |b| && FiniteSample(b, 4 * m)
      decreases |b| - 4 * k
    {
      if !FiniteSample(b, 4 * k) {
        return false;
      }
      k := k + 1;
    }
    ok := true;
  }

  /** Saturating 64-bit multiplication by 1000, then division by the sample rate. */
  function DurationMs(samples: nat): nat {
    (if samples * 1_000 > U64_MAX then U64_MAX else samples * 1_000) / 16_000
  }

  ghost predicate ValidPcm(b: Bytes) {
    b != [] && |b| % 4 == 0 && AllFinite(b)
  }

  method ValidatePcm(b: Bytes) returns (r: Result<nat, AudioError>)
    ensures r.Success? <==> ValidPcm(b)
    ensures r.Success? ==> r.value == DurationMs(|b| / 4)
    ensures r.Failure? ==> r.error == if b == [] || |b| % 4 != 0 then MalformedPcm else NonFiniteSample
  {
    if b == [] || |b| % 4 != 0 {
      return Failure(MalformedPcm);
    }
    var finite := CheckSamples(b);
    r := if finite then Success(DurationMs(|b| / 4)) else Failure(NonFiniteSample);
  }

  // ----- RIFF chunks -----

  datatype Chunk = Chunk(id: Bytes, size: nat, start: nat)

  const FMT_ID: Bytes := [0x66, 0x6D, 0x74, 0x20]
  const DATA_ID: Bytes := [0x64, 0x61, 0x74, 0x61]
  const RIFF_ID: Bytes := [0x52, 0x49, 0x46, 0x46]
  const WAVE_ID: Bytes := [0x57, 0x41, 0x56, 0x45]

  function ChunkAt(b: Bytes, offset: nat): Chunk
    requires offset + 8 <= |b|
  {
    Chunk(b[offset..offset + 4], Le32(b, offset + 4), offset + 8)
  }

  /** Where the chunk after `c` starts: chunks of odd size are padded. */
  function NextOffset(c: Chunk): nat {
    c.start + c.size + c.size % 2
  }

  predicate Complete(b: Bytes, c: Chunk) {
    c.start + c.size <= |b|
  }

  /** The chunks from `offset` on, ending after the last one whose header fits or with the first truncated one. */
  function Chunks(b: Bytes, offset: nat): (r: seq<Chunk>)
    ensures forall c :: c in r ==> offset + 8 <= c.start <= |b|
    decreases if offset <= |b| then |b| - offset + 1 else 0
  {
    if offset + 8 > |b| then []
    else
      var c := ChunkAt(b, offset);
      [c] + if Complete(b, c) then Chunks(b, NextOffset(c)) else []
  }

  function LastFormat(chunks: seq<Chunk>): Option<Chunk> {
    if chunks == [] then None
    else
      var later := LastFormat(chunks[1..]);
      if later.None? && chunks[0].id == FMT_ID then Some(chunks[0]) else later
  }

  function FirstData(chunks: seq<Chunk>): Option<Chunk> {
    if chunks == [] then None
    else if chunks[0].id == DATA_ID then Some(chunks[0])
    else FirstData(chunks[1..])
  }

  ghost predicate WellFormedChunks(b: Bytes, chunks: seq<Chunk>) {
    forall c :: c in chunks ==> Complete(b, c) && (c.id == FMT_ID ==> c.size >= 16)
  }

  function FormatCode(b: Bytes, c: Chunk): nat
    requires c.size >= 16 && Complete(b, c)
  {
    Le16(b, c.start)
  }

  function BitsPerSample(b: Bytes, c: Chunk): nat
    requires c.size >= 16 && Complete(b, c)
  {
    Le16(b, c.start + 14)
  }

  predicate SupportedFormat(b: Bytes, c: Chunk)
    requires c.size >= 16 && Complete(b, c)
  {
    && Le16(b, c.start + 2) == 1 && Le32(b, c.start + 4) == 16_000
    && ((FormatCode(b, c) == 1 && BitsPerSample(b, c) == 16) || (FormatCode(b, c) == 3 && BitsPerSample(b, c) == 32))
  }

  predicate HasRiffHeader(b: Bytes) {
    |b| >= 44 && b[0..4] == RIFF_ID && b[8..12] == WAVE_ID
  }

  function Payload(b: Bytes, c: Chunk): Bytes
    requires Complete(b, c)
  {
    if c.start <= |b| then b[c.start..c.start + c.size] else []
  }

  lemma {:induction false} FoundChunks(chunks: seq<Chunk>)
    ensures LastFormat(chunks).Some? ==> LastFormat(chunks).value in chunks && LastFormat(chunks).value.id == FMT_ID
    ensures FirstData(chunks).Some? ==> FirstData(chunks).value in chunks && FirstData(chunks).value.id == DATA_ID
  {
    if chunks != [] { FoundChunks(chunks[1..]); }
  }

  /** What the deciding format chunk and data chunk must look like. */
  ghost predicate Acceptable(b: Bytes, format: Chunk, data: Chunk) {
    && format.size >= 16 && Complete(b, format) && Complete(b, data)
    && SupportedFormat(b, format)
    && Payload(b, data) != [] && |Payload(b, data)| % (BitsPerSample(b, format) / 8) == 0
    && (FormatCode(b, format) == 3 ==> AllFinite(Payload(b, data)))
  }

  /** A mono 16 kHz PCM16 or float32 file: every chunk complete, the last `fmt ` and the first `data` decide. */
  ghost predicate ValidWav(b: Bytes) {
    && HasRiffHeader(b)
    && WellFormedChunks(b, Chunks(b, 12))
    && LastFormat(Chunks(b, 12)).Some? && FirstData(Chunks(b, 12)).Some?
    && Acceptable(b, LastFormat(Chunks(b, 12)).value, FirstData(Chunks(b, 12)).value)
  }

  function Samples(b: Bytes, format: Chunk, data: Chunk): nat
    requires format.size >= 16 && Complete(b, format) && Complete(b, data) && SupportedFormat(b, format)
  {
    |Payload(b, data)| / (BitsPerSample(b, format) / 8)
  }

  /** The samples of a valid file. */
  ghost function WavSamples(b: Bytes): nat
    requires ValidWav(b)
  {
    Samples(b, LastFormat(Chunks(b, 12)).value, FirstData(Chunks(b, 12)).value)
  }

  /** Walks the chunks once; on success yields the deciding format chunk and data chunk, if any. */
  method WalkChunks(b: Bytes) returns (r: Result<(Option<Chunk>, Option<Chunk>), AudioError>)
    requires |b| >= 12
    ensures r.Success? <==> WellFormedChunks(b, Chunks(b, 12))
    ensures r.Success? ==> r.value == (LastFormat(Chunks(b, 12)), FirstData(Chunks(b, 12)))
    ensures r.Failure? ==> r.error == TruncatedChunk || r.error == ShortFormat
  {
    var offset := 12;
    var format: Option<Chunk>, data: Option<Chunk> := None, None;
    while offset + 8 <= |b|
      invariant WellFormedChunks(b, Chunks(b, 12)) <==> WellFormedChunks(b, Chunks(b, offset))
      invariant LastFormat(Chunks(b, 12)) == if LastFormat(Chunks(b, offset)).Some?
        then LastFormat(Chunks(b, offset)) else format
      invariant FirstData(Chunks(b, 12)) == if data.Some? then data else FirstData(Chunks(b, offset))
      decreases if offset <= |b| then |b| - offset + 1 else 0
    {
      var c, rest := ChunkAt(b, offset), Chunks(b, offset);
      assert c in rest;
      if !Complete(b, c) {
        return Failure(TruncatedChunk);
      }
      if c.id == FMT_ID {
        if c.size < 16 {
          return Failure(ShortFormat);
        }
        format := Some(c);
      } else if c.id == DATA_ID && data.None? {
        data := Some(c);
      }
      assert rest == [c] + Chunks(b, NextOffset(c));
      assert WellFormedChunks(b, rest) <==> WellFormedChunks(b, Chunks(b, NextOffset(c)));
      offset := NextOffset(c);
    }
    r := Success((format, data));
  }

  method CheckChunks(b: Bytes, format: Chunk, data: Chunk) returns (r: Result<nat, AudioError>)
    requires format.size >= 16 && Complete(b, format) && Complete(b, data)
    ensures r.Success? <==> Acceptable(b, format, data)
    ensures r.Success? ==> r.value == DurationMs(Samples(b, format, data))
  {
    if !SupportedFormat(b, format) {
      return Failure(UnsupportedFormat);
    }
    var payload, bytesPerSample := Payload(b, data), BitsPerSample(b, format) / 8;
    if payload == [] || |payload| % bytesPerSample != 0 {
      return Failure(IncompleteData);
    }
    if FormatCode(b, format) == 3 {
      var finite := CheckSamples(payload);
      if !finite {
        return Failure(NonFiniteSample);
      }
    }
    r := Success(DurationMs(|payload| / bytesPerSample));
  }

  method ValidateWav(b: Bytes) returns (r: Result<nat, AudioError>)
    ensures r.Success? <==> ValidWav(b)
    ensures r.Success? ==> r.value == DurationMs(WavSamples(b))
  {
    if !HasRiffHeader(b) {
      return Failure(NotRiffWave);
    }
    var walked := WalkChunks(b);
    if walked.Failure? {
      return Failure(walked.error);
    }
    var (format, data) := walked.value;
    if format.None? {
      return Failure(MissingFormat);
    }
    if data.None? {
      return Failure(MissingData);
    }
    FoundChunks(Chunks(b, 12));
    r := CheckChunks(b, format.value, data.value);
  }

  // ----- wrapping PCM -----

  function RiffPart(dataSize: nat): (h: Bytes)
    requires dataSize + 36 < U32_LIMIT
    ensures |h| == 12
  {
    RIFF_ID + ToLe32(dataSize + 36) + WAVE_ID
  }

  /** The format chunk of mono 16 kHz float32 samples. */
  function FormatPart(): (h: Bytes)
    ensures |h| == 24
  {
    FMT_ID + ToLe32(16) + ToLe16(3) + ToLe16(1) + ToLe32(16_000) + ToLe32(64_000) + ToLe16(4) + ToLe16(32)
  }

  function DataPart(dataSize: nat): (h: Bytes)
    requires dataSize < U32_LIMIT
    ensures |h| == 8
  {
    DATA_ID + ToLe32(dataSize)
  }

  function Wrapped(pcm: Bytes): Bytes
    requires |pcm| + 36 < U32_LIMIT
  {
    RiffPart(|pcm|) + (FormatPart() + (DataPart(|pcm|) + pcm))
  }

  /** Appends the container fields one by one, then the samples. */
  method PcmToWav(pcm: Bytes) returns (r: Result<Bytes, AudioError>)
    ensures r.Success? <==> pcm != [] && |pcm| % 4 == 0 && |pcm| + 36 < U32_LIMIT
    ensures r.Success? ==> r.value == Wrapped(pcm)
    ensures r.Failure? ==> r.error == if pcm == [] || |pcm| % 4 != 0 then MalformedPcm else PcmTooLarge
  {
    if pcm == [] || |pcm| % 4 != 0 {
      return Failure(MalformedPcm);
    }
    if |pcm| >= U32_LIMIT || |pcm| + 36 >= U32_LIMIT {
      return Failure(PcmTooLarge);
    }
    var wav := RIFF_ID + ToLe32(|pcm| + 36) + WAVE_ID;
    ghost var riff := wav;
    wav := wav + (FMT_ID + ToLe32(16) + ToLe16(3) + ToLe16(1) + ToLe32(16_000) + ToLe32(64_000)
                  + ToLe16(4) + ToLe16(32));
    wav := wav + (DATA_ID + ToLe32(|pcm|));
    wav := wav + pcm;
    assert wav == riff + (FormatPart() + (DataPart(|pcm|) + pcm));
    r := Success(wav);
  }

  predicate Wrappable(pcm: Bytes) {
    pcm != [] && |pcm| % 4 == 0 && |pcm| + 36 < U32_LIMIT
  }

  /** Where the three parts and the samples sit. */
  lemma Layout(pcm: Bytes)
    requires Wrappable(pcm)
    ensures var b := Wrapped(pcm);
      |b| == 44 + |pcm| && b[..12] == RiffPart(|pcm|) && b[12..36] == FormatPart() && b[36..44] == DataPart(|pcm|)
        && b[44..] == pcm
  {
  }

  lemma FieldAt(b: Bytes, part: Bytes, at: nat, i: nat)
    requires at + |part| <= |b| && b[at..at + |part|] == part
    ensures i + 2 <= |part| ==> Le16(b, at + i) == Le16(part, i)
    ensures i + 4 <= |part| ==> Le32(b, at + i) == Le32(part, i) && b[at + i..at + i + 4] == part[i..i + 4]
  {
    assert forall k :: 0 <= k < |part| ==> b[at + k] == part[k];
  }

  lemma RiffHeader(pcm: Bytes)
    requires Wrappable(pcm)
    ensures HasRiffHeader(Wrapped(pcm))
  {
    Layout(pcm);
    FieldAt(Wrapped(pcm), RiffPart(|pcm|), 0, 0);
    FieldAt(Wrapped(pcm), RiffPart(|pcm|), 0, 8);
  }

  lemma FormatFields()
    ensures var part := FormatPart();
      && part[0..4] == FMT_ID && Le32(part, 4) == 16 && Le16(part, 8) == 3 && Le16(part, 10) == 1
      && Le32(part, 12) == 16_000 && Le16(part, 22) == 32
  {
  }

  lemma FormatChunk(pcm: Bytes)
    requires Wrappable(pcm)
    ensures var b, c := Wrapped(pcm), Chunk(FMT_ID, 16, 20);
      |b| == 44 + |pcm| && ChunkAt(b, 12) == c && SupportedFormat(b, c) && FormatCode(b, c) == 3
        && BitsPerSample(b, c) == 32
  {
    var b, part := Wrapped(pcm), FormatPart();
    Layout(pcm);
    FormatFields();
    FieldAt(b, part, 12, 0);
    FieldAt(b, part, 12, 4);
    FieldAt(b, part, 12, 8);
    FieldAt(b, part, 12, 10);
    FieldAt(b, part, 12, 12);
    FieldAt(b, part, 12, 22);
  }

  lemma DataChunk(pcm: Bytes)
    requires Wrappable(pcm)
    ensures var b, c := Wrapped(pcm), Chunk(DATA_ID, |pcm|, 44);
      |b| == 44 + |pcm| && ChunkAt(b, 36) == c && Payload(b, c) == pcm
  {
    var b, part := Wrapped(pcm), DataPart(|pcm|);
    Layout(pcm);
    FieldAt(b, part, 36, 0);
    FieldAt(b, part, 36, 4);
    Le32RoundTrip(|pcm|);
    assert part[4..8] == ToLe32(|pcm|) && Le32(part, 4) == Le32(ToLe32(|pcm|), 0);
  }

  lemma WrappedChunks(pcm: Bytes)
    requires Wrappable(pcm)
    ensures Chunks(Wrapped(pcm), 12) == [Chunk(FMT_ID, 16, 20), Chunk(DATA_ID, |pcm|, 44)]
  {
    var b := Wrapped(pcm);
    FormatChunk(pcm);
    DataChunk(pcm);
    assert Chunks(b, 44 + |pcm|) == [];
    assert Chunks(b, 36) == [ChunkAt(b, 36)] + Chunks(b, 44 + |pcm|);
  }

  lemma TwoChunks(format: Chunk, data: Chunk)
    requires format.id == FMT_ID && data.id == DATA_ID
    ensures LastFormat([format, data]) == Some(format) && FirstData([format, data]) == Some(data)
  {
    assert [format, data][1..] == [data] && [data][1..] == [];
    assert FMT_ID[0] != DATA_ID[0];
    assert LastFormat([data]) == None && FirstData([data]) == Some(data);
  }

  /** The wrapped PCM gets the same verdict and the same duration as the raw PCM. */
  lemma WrappedPcmSameVerdict(pcm: Bytes)
    requires Wrappable(pcm)
    ensures ValidWav(Wrapped(pcm)) <==> ValidPcm(pcm)
    ensures ValidPcm(pcm) ==> DurationMs(WavSamples(Wrapped(pcm))) == DurationMs(|pcm| / 4)
  {
    RiffHeader(pcm);
    WrappedChunks(pcm);
    TwoChunks(Chunk(FMT_ID, 16, 20), Chunk(DATA_ID, |pcm|, 44));
    FormatChunk(pcm);
    DataChunk(pcm);
  }
}
