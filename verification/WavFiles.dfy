/** What the chunk walk makes of whole files, told by a printer that knows nothing of the walk. */
module WavFiles {
  import opened Results
  import opened Wav

  /** A chunk as it is written. */
  datatype RawChunk = RawChunk(id: Bytes, payload: Bytes)

  predicate Proper(r: RawChunk) {
    |r.id| == 4 && |r.payload| < U32_LIMIT
  }

  ghost predicate AllProper(raws: seq<RawChunk>) {
    forall k :: 0 <= k < |raws| ==> Proper(raws[k])
  }

  /** The id, the size, the payload and, when that is odd, one zero byte. */
  function Print(r: RawChunk): Bytes
    requires Proper(r)
  {
    r.id + ToLe32(|r.payload|) + r.payload + if |r.payload| % 2 == 1 then [0] else []
  }

  function PrintAll(raws: seq<RawChunk>): Bytes
    requires AllProper(raws)
  {
    if raws == [] then [] else Print(raws[0]) + PrintAll(raws[1..])
  }

  // ----- the walk finds what was written -----

  /** The walk has found `raws`, with their ids and payloads. */
  ghost predicate Finds(b: Bytes, chunks: seq<Chunk>, raws: seq<RawChunk>) {
    |chunks| == |raws|
    && forall k :: 0 <= k < |raws| ==>
         Complete(b, chunks[k]) && chunks[k].id == raws[k].id && Payload(b, chunks[k]) == raws[k].payload
         && chunks[k].size == |raws[k].payload|
  }

  lemma PrintedChunk(pre: Bytes, r: RawChunk, rest: Bytes)
    requires Proper(r)
    ensures var b, c := pre + Print(r) + rest, Chunk(r.id, |r.payload|, |pre| + 8);
      |pre| + 8 <= |b| && ChunkAt(b, |pre|) == c && Complete(b, c) && Payload(b, c) == r.payload
      && NextOffset(c) == |pre + Print(r)|
  {
    var b := pre + Print(r) + rest;
    FieldAt(b, Print(r), |pre|, 0);
    FieldAt(b, Print(r), |pre|, 4);
    FieldAt(Print(r), ToLe32(|r.payload|), 4, 0);
    Le32RoundTrip(|r.payload|);
    assert Print(r)[0..4] == r.id;
    assert b[|pre| + 8..|pre| + 8 + |r.payload|] == r.payload;
  }

  lemma {:induction false} WalkFrom(pre: Bytes, raws: seq<RawChunk>, tail: Bytes)
    requires AllProper(raws) && |tail| < 8
    ensures var b := pre + PrintAll(raws) + tail; Finds(b, Chunks(b, |pre|), raws)
    decreases |raws|
  {
    var b := pre + PrintAll(raws) + tail;
    if raws != [] {
      var rest, before := PrintAll(raws[1..]) + tail, pre + Print(raws[0]);
      assert b == pre + Print(raws[0]) + rest == before + PrintAll(raws[1..]) + tail;
      PrintedChunk(pre, raws[0], rest);
      WalkFrom(before, raws[1..], tail);
      assert Chunks(b, |pre|) == [ChunkAt(b, |pre|)] + Chunks(b, |before|);
    }
  }

  /** Whatever chunks are written after a header of 12 bytes, the walk finds exactly them, over the pad bytes of odd
      ones; fewer than 8 bytes after them are ignored. */
  lemma WalkPrinted(header: Bytes, raws: seq<RawChunk>, tail: Bytes)
    requires |header| == 12 && AllProper(raws) && |tail| < 8
    ensures var b := header + PrintAll(raws) + tail; Finds(b, Chunks(b, 12), raws)
  {
    WalkFrom(header, raws, tail);
  }

  // ----- the verdict in terms of what was written -----

  function LastFmt(raws: seq<RawChunk>): Option<Bytes> {
    if raws == [] then None
    else
      var later := LastFmt(raws[1..]);
      if later.None? && raws[0].id == FMT_ID then Some(raws[0].payload) else later
  }

  function FirstPayload(raws: seq<RawChunk>): Option<Bytes> {
    if raws == [] then None
    else if raws[0].id == DATA_ID then Some(raws[0].payload)
    else FirstPayload(raws[1..])
  }

  /** Mono at 16 kHz with 16-bit integer or 32-bit float samples. */
  predicate IntegerFormat(fmt: Bytes)
    requires |fmt| >= 16
  {
    Le16(fmt, 0) == 1 && Le16(fmt, 14) == 16
  }

  predicate FloatFormat(fmt: Bytes)
    requires |fmt| >= 16
  {
    Le16(fmt, 0) == 3 && Le16(fmt, 14) == 32
  }

  ghost predicate Playable(fmt: Bytes, data: Bytes) {
    && |fmt| >= 16 && Le16(fmt, 2) == 1 && Le32(fmt, 4) == 16_000
    && ((IntegerFormat(fmt) && data != [] && |data| % 2 == 0) || (FloatFormat(fmt) && ValidPcm(data)))
  }

  function SampleCount(fmt: Bytes, data: Bytes): nat
    requires |fmt| >= 16
  {
    if IntegerFormat(fmt) then |data| / 2 else |data| / 4
  }

  ghost predicate GoodFile(raws: seq<RawChunk>) {
    && (forall k :: 0 <= k < |raws| ==> raws[k].id == FMT_ID ==> |raws[k].payload| >= 16)
    && LastFmt(raws).Some? && FirstPayload(raws).Some?
    && Playable(LastFmt(raws).value, FirstPayload(raws).value)
  }

  function WaveHeader(size: Bytes): Bytes {
    RIFF_ID + size + WAVE_ID
  }

  function File(size: Bytes, raws: seq<RawChunk>, tail: Bytes): Bytes
    requires AllProper(raws)
  {
    WaveHeader(size) + PrintAll(raws) + tail
  }

  /** A chunk found by the walk and the payload that was written for it. */
  ghost predicate Stands(b: Bytes, c: Option<Chunk>, payload: Option<Bytes>) {
    (c.Some? <==> payload.Some?)
    && (c.Some? ==> Complete(b, c.value) && Payload(b, c.value) == payload.value && c.value.size == |payload.value|)
  }

  lemma {:induction false} FoundStand(b: Bytes, chunks: seq<Chunk>, raws: seq<RawChunk>)
    requires Finds(b, chunks, raws)
    ensures Stands(b, LastFormat(chunks), LastFmt(raws)) && Stands(b, FirstData(chunks), FirstPayload(raws))
    decreases |raws|
  {
    if raws != [] { FoundStand(b, chunks[1..], raws[1..]); }
  }

  lemma FoundWellFormed(b: Bytes, chunks: seq<Chunk>, raws: seq<RawChunk>)
    requires Finds(b, chunks, raws)
    ensures WellFormedChunks(b, chunks) <==>
      forall k :: 0 <= k < |raws| ==> raws[k].id == FMT_ID ==> |raws[k].payload| >= 16
  {
    if WellFormedChunks(b, chunks) {
      forall k | 0 <= k < |raws| && raws[k].id == FMT_ID ensures |raws[k].payload| >= 16 {
        assert chunks[k] in chunks;
      }
    }
  }

  lemma FieldsOfPayload(b: Bytes, c: Chunk, i: nat)
    requires Complete(b, c) && c.start <= |b|
    ensures i + 2 <= c.size ==> Le16(b, c.start + i) == Le16(Payload(b, c), i)
    ensures i + 4 <= c.size ==> Le32(b, c.start + i) == Le32(Payload(b, c), i)
  {
    FieldAt(b, Payload(b, c), c.start, i);
  }

  lemma PlayableExact(b: Bytes, format: Chunk, data: Chunk)
    requires Complete(b, format) && Complete(b, data) && format.start <= |b| && data.start <= |b|
    ensures Acceptable(b, format, data) <==> Playable(Payload(b, format), Payload(b, data))
    ensures Acceptable(b, format, data) ==>
      Samples(b, format, data) == SampleCount(Payload(b, format), Payload(b, data))
  {
    if format.size >= 16 {
      FieldsOfPayload(b, format, 0);
      FieldsOfPayload(b, format, 2);
      FieldsOfPayload(b, format, 4);
      FieldsOfPayload(b, format, 14);
    }
  }

  /** The header is a RIFF header, and a file with a format chunk and samples has its 44 bytes. */
  lemma {:induction false} PrintedLength(raws: seq<RawChunk>)
    requires AllProper(raws)
    ensures LastFmt(raws).Some? && FirstPayload(raws).Some? ==>
      |PrintAll(raws)| >= 16 + |LastFmt(raws).value| + |FirstPayload(raws).value|
    ensures LastFmt(raws).Some? ==> |PrintAll(raws)| >= 8 + |LastFmt(raws).value|
    ensures FirstPayload(raws).Some? ==> |PrintAll(raws)| >= 8 + |FirstPayload(raws).value|
    decreases |raws|
  {
    if raws != [] {
      PrintedLength(raws[1..]);
      assert FMT_ID[0] != DATA_ID[0];
    }
  }

  lemma HeaderRead(size: Bytes, rest: Bytes)
    requires |size| == 4
    ensures var b := WaveHeader(size) + rest; HasRiffHeader(b) <==> |b| >= 44
  {
    var b := WaveHeader(size) + rest;
    assert b[0..4] == RIFF_ID && b[8..12] == WAVE_ID;
  }

  lemma FoundVerdict(b: Bytes, raws: seq<RawChunk>)
    requires Finds(b, Chunks(b, 12), raws) && (HasRiffHeader(b) <==> |b| >= 44) && (GoodFile(raws) ==> |b| >= 44)
    ensures ValidWav(b) <==> GoodFile(raws)
    ensures GoodFile(raws) ==> WavSamples(b) == SampleCount(LastFmt(raws).value, FirstPayload(raws).value)
  {
    var chunks := Chunks(b, 12);
    FoundStand(b, chunks, raws);
    FoundWellFormed(b, chunks, raws);
    FoundChunks(chunks);
    if LastFormat(chunks).Some? && FirstData(chunks).Some? {
      PlayableExact(b, LastFormat(chunks).value, FirstData(chunks).value);
    }
  }

  /** The verdict on a written file and its duration depend on the written format and data alone. */
  lemma PrintedVerdict(size: Bytes, raws: seq<RawChunk>, tail: Bytes)
    requires |size| == 4 && AllProper(raws) && |tail| < 8
    ensures ValidWav(File(size, raws, tail)) <==> GoodFile(raws)
    ensures GoodFile(raws) ==>
      WavSamples(File(size, raws, tail)) == SampleCount(LastFmt(raws).value, FirstPayload(raws).value)
  {
    var b := File(size, raws, tail);
    WalkPrinted(WaveHeader(size), raws, tail);
    PrintedLength(raws);
    assert b == WaveHeader(size) + (PrintAll(raws) + tail);
    HeaderRead(size, PrintAll(raws) + tail);
    FoundVerdict(b, raws);
  }

  /** The fields of a format chunk in the order in which they are written. */
  function FormatPayload(code: nat, channels: nat, rate: nat, byteRate: nat, align: nat, bits: nat): Bytes
    requires code < 0x1_0000 && channels < 0x1_0000 && align < 0x1_0000 && bits < 0x1_0000
    requires rate < U32_LIMIT && byteRate < U32_LIMIT
  {
    ToLe16(code) + ToLe16(channels) + ToLe32(rate) + ToLe32(byteRate) + ToLe16(align) + ToLe16(bits)
  }

  /** Which written formats are playable with samples that suit them. */
  lemma WrittenFormats(code: nat, channels: nat, rate: nat, byteRate: nat, align: nat, bits: nat, extra: Bytes,
                       data: Bytes)
    requires code < 0x1_0000 && channels < 0x1_0000 && align < 0x1_0000 && bits < 0x1_0000
    requires rate < U32_LIMIT && byteRate < U32_LIMIT
    ensures Playable(FormatPayload(code, channels, rate, byteRate, align, bits) + extra, data) <==>
      && channels == 1 && rate == 16_000
      && ((code == 1 && bits == 16 && data != [] && |data| % 2 == 0) || (code == 3 && bits == 32 && ValidPcm(data)))
  {
    var fmt := FormatPayload(code, channels, rate, byteRate, align, bits) + extra;
    FieldAt(fmt, ToLe16(code), 0, 0);
    FieldAt(fmt, ToLe16(channels), 2, 0);
    FieldAt(fmt, ToLe32(rate), 4, 0);
    FieldAt(fmt, ToLe16(bits), 14, 0);
    Le32RoundTrip(rate);
  }

  // ----- foreign chunks -----

  lemma {:induction false} InsertedChunk(before: seq<RawChunk>, foreign: RawChunk, after: seq<RawChunk>)
    requires foreign.id != FMT_ID && foreign.id != DATA_ID
    ensures LastFmt(before + [foreign] + after) == LastFmt(before + after)
    ensures FirstPayload(before + [foreign] + after) == FirstPayload(before + after)
    decreases |before|
  {
    if before == [] {
      assert [] + [foreign] + after == [foreign] + after && [] + after == after;
      assert ([foreign] + after)[1..] == after;
    } else {
      assert (before + [foreign] + after)[1..] == before[1..] + [foreign] + after;
      assert (before + after)[1..] == before[1..] + after;
      InsertedChunk(before[1..], foreign, after);
    }
  }

  /** Any foreign chunk, of odd or even size, may stand before, between or after the format and the data: it changes
      neither the verdict nor the duration. */
  lemma ForeignChunksIgnored(size: Bytes, otherSize: Bytes, before: seq<RawChunk>, foreign: RawChunk,
                             after: seq<RawChunk>, tail: Bytes)
    requires |size| == |otherSize| == 4 && |tail| < 8
    requires AllProper(before) && Proper(foreign) && AllProper(after)
    requires foreign.id != FMT_ID && foreign.id != DATA_ID
    ensures var with, without := File(size, before + [foreign] + after, tail), File(otherSize, before + after, tail);
      (ValidWav(with) <==> ValidWav(without))
      && (ValidWav(with) ==> DurationMs(WavSamples(with)) == DurationMs(WavSamples(without)))
  {
    var longer, shorter := before + [foreign] + after, before + after;
    PrintedVerdict(size, longer, tail);
    PrintedVerdict(otherSize, shorter, tail);
    InsertedChunk(before, foreign, after);
    GoodWithForeign(before, foreign, after);
  }

  lemma GoodWithForeign(before: seq<RawChunk>, foreign: RawChunk, after: seq<RawChunk>)
    requires foreign.id != FMT_ID && foreign.id != DATA_ID
    ensures GoodFile(before + [foreign] + after) <==> GoodFile(before + after)
  {
    var longer, shorter := before + [foreign] + after, before + after;
    InsertedChunk(before, foreign, after);
    forall k | 0 <= k < |shorter| ensures shorter[k] == longer[if k < |before| then k else k + 1] {
    }
    forall k | 0 <= k < |longer| && k != |before|
      ensures longer[k] == shorter[if k < |before| then k else k - 1]
    {
    }
  }

  // ----- durations and the wrapper -----

  /** 16 samples are a millisecond, and an incomplete one does not count. */
  lemma DurationExact(samples: nat)
    requires samples * 1_000 <= U64_MAX
    ensures 16 * DurationMs(samples) <= samples < 16 * DurationMs(samples) + 16
  {
  }

  /** The chunks of a wrapped PCM: mono 16 kHz float samples. */
  function WrappedChunksOf(pcm: Bytes): seq<RawChunk> {
    [RawChunk(FMT_ID, FormatPayload(3, 1, 16_000, 64_000, 4, 32)), RawChunk(DATA_ID, pcm)]
  }

  lemma PrintedFormat()
    ensures Print(RawChunk(FMT_ID, FormatPayload(3, 1, 16_000, 64_000, 4, 32))) == FormatPart()
  {
  }

  lemma PrintedData(pcm: Bytes)
    requires Wrappable(pcm)
    ensures Print(RawChunk(DATA_ID, pcm)) == DataPart(|pcm|) + pcm
  {
  }

  lemma PrintedWrapper(pcm: Bytes)
    requires Wrappable(pcm)
    ensures AllProper(WrappedChunksOf(pcm)) && PrintAll(WrappedChunksOf(pcm)) == FormatPart() + (DataPart(|pcm|) + pcm)
  {
    var chunks := WrappedChunksOf(pcm);
    PrintedFormat();
    PrintedData(pcm);
    assert chunks[1..] == [RawChunk(DATA_ID, pcm)] && chunks[1..][1..] == [];
    assert PrintAll(chunks[1..]) == Print(chunks[1]) + [] == Print(chunks[1]);
  }

  /** The wrapper writes a file with just a format chunk and the samples, and its header states the file's size. */
  lemma WrappedIsFile(pcm: Bytes)
    requires Wrappable(pcm)
    ensures var b := Wrapped(pcm);
      Le32(b, 4) == |b| - 8 && AllProper(WrappedChunksOf(pcm))
      && b == File(ToLe32(|pcm| + 36), WrappedChunksOf(pcm), [])
  {
    var size := ToLe32(|pcm| + 36);
    PrintedWrapper(pcm);
    Layout(pcm);
    assert RiffPart(|pcm|) == WaveHeader(size) && RiffPart(|pcm|)[4..8] == size;
    FieldAt(Wrapped(pcm), RiffPart(|pcm|), 0, 4);
    FieldAt(RiffPart(|pcm|), size, 4, 0);
    Le32RoundTrip(|pcm| + 36);
  }
}
