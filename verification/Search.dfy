/** Substring search and search through case-folded text with a map back to the raw text. */
module Search {
  import opened Results
  import opened Text

  /**
   * The character positions reported by `match_indices`, from position `from` on: leftmost and
   * non-overlapping. An empty needle matches at every position, the end included.
   */
  function MatchIndices(t: string, needle: string, from: nat): seq<nat>
    decreases if from <= |t| then |t| + 1 - from else 0
  {
    if from + |needle| > |t| then []
    else if t[from..from + |needle|] == needle then
      [from] + MatchIndices(t, needle, from + if needle == [] then 1 else |needle|)
    else MatchIndices(t, needle, from + 1)
  }

  predicate OccursAt(t: string, needle: string, p: nat) {
    p + |needle| <= |t| && t[p..p + |needle|] == needle
  }

  /** Occurrence `p` starts inside the reported match `r`. */
  predicate StartsInside(needle: string, r: nat, p: nat) {
    r <= p < r + (if needle == [] then 1 else |needle|)
  }

  ghost predicate AllOccur(t: string, needle: string, from: nat, m: seq<nat>) {
    forall k :: 0 <= k < |m| ==> from <= m[k] && OccursAt(t, needle, m[k])
  }

  ghost predicate Spaced(needle: string, m: seq<nat>) {
    forall k, l :: 0 <= k < l < |m| ==> m[k] + |needle| <= m[l] && m[k] < m[l]
  }

  ghost predicate Covered(t: string, needle: string, m: seq<nat>, p: nat) {
    exists k :: 0 <= k < |m| && StartsInside(needle, m[k], p)
  }

  lemma PrependMatch(t: string, needle: string, p: nat, next: nat, rest: seq<nat>)
    requires OccursAt(t, needle, p) && p + |needle| <= next && p < next
    requires AllOccur(t, needle, next, rest) && Spaced(needle, rest)
    ensures AllOccur(t, needle, p, [p] + rest) && Spaced(needle, [p] + rest)
  {
  }

  lemma {:induction false} MatchesOccur(t: string, needle: string, from: nat)
    ensures AllOccur(t, needle, from, MatchIndices(t, needle, from))
    ensures Spaced(needle, MatchIndices(t, needle, from))
    decreases if from <= |t| then |t| + 1 - from else 0
  {
    if from + |needle| > |t| {
    } else if t[from..from + |needle|] == needle {
      var step := if needle == [] then 1 else |needle|;
      MatchesOccur(t, needle, from + step);
      var m, rest := MatchIndices(t, needle, from), MatchIndices(t, needle, from + step);
      assert m == [from] + rest;
      PrependMatch(t, needle, from, from + step, rest);
    } else {
      MatchesOccur(t, needle, from + 1);
    }
  }

  lemma {:induction false} MatchesCover(t: string, needle: string, from: nat, p: nat)
    requires from <= p && OccursAt(t, needle, p)
    ensures Covered(t, needle, MatchIndices(t, needle, from), p)
    decreases if from <= |t| then |t| + 1 - from else 0
  {
    var m := MatchIndices(t, needle, from);
    if t[from..from + |needle|] == needle {
      var step := if needle == [] then 1 else |needle|;
      if p < from + step {
        assert StartsInside(needle, m[0], p);
      } else {
        MatchesCover(t, needle, from + step, p);
        var rest := MatchIndices(t, needle, from + step);
        var k :| 0 <= k < |rest| && StartsInside(needle, rest[k], p);
        assert m[k + 1] == rest[k];
      }
    } else {
      MatchesCover(t, needle, from + 1, p);
    }
  }

  /** Exactly the greedy leftmost occurrences: real, disjoint, and none starts outside a reported one. */
  lemma MatchIndicesLeftmost(t: string, needle: string)
    ensures AllOccur(t, needle, 0, MatchIndices(t, needle, 0))
    ensures Spaced(needle, MatchIndices(t, needle, 0))
    ensures forall p :: OccursAt(t, needle, p) ==> Covered(t, needle, MatchIndices(t, needle, 0), p)
  {
    MatchesOccur(t, needle, 0);
    forall p | OccursAt(t, needle, p) ensures Covered(t, needle, MatchIndices(t, needle, 0), p) {
      MatchesCover(t, needle, 0, p);
    }
  }

  predicate Inside(t: string, positions: seq<nat>) {
    forall k :: 0 <= k < |positions| ==> positions[k] <= |t|
  }

  /** The byte ranges of the matches at the given character positions. */
  function ByteRanges(t: string, needle: string, positions: seq<nat>): (r: seq<(nat, nat)>)
    requires Inside(t, positions)
    ensures |r| == |positions| && forall k :: 0 <= k < |r| ==> r[k] == RangeAt(t, needle, positions[k])
  {
    if positions == [] then []
    else [RangeAt(t, needle, positions[0])] + ByteRanges(t, needle, positions[1..])
  }

  function RangeAt(t: string, needle: string, p: nat): (nat, nat)
    requires p <= |t|
  {
    (ByteOffset(t, p), ByteOffset(t, p) + ByteLen(needle))
  }

  function MatchRanges(t: string, needle: string): seq<(nat, nat)> {
    MatchesOccur(t, needle, 0);
    ByteRanges(t, needle, MatchIndices(t, needle, 0))
  }

  // ----- folded text -----

  datatype FoldSpan = FoldSpan(foldedStart: nat, foldedEnd: nat, rawStart: nat, rawEnd: nat)

  datatype FoldedText = FoldedText(value: string, spans: seq<FoldSpan>)

  type FoldTable = char -> string

  /** Case folding never makes a character disappear. */
  ghost predicate NonEmptyFold(fold: FoldTable) {
    forall c :: fold(c) != []
  }

  function FoldText(fold: FoldTable, t: string): string {
    if t == [] then [] else fold(t[0]) + FoldText(fold, t[1..])
  }

  function SpanAt(fold: FoldTable, raw: string, i: nat): FoldSpan
    requires i < |raw|
  {
    FoldSpan(ByteLen(FoldText(fold, raw[..i])), ByteLen(FoldText(fold, raw[..i + 1])),
             ByteOffset(raw, i), ByteOffset(raw, i + 1))
  }

  function Folded(fold: FoldTable, raw: string): FoldedText {
    FoldedText(
      FoldText(fold, raw),
      seq(|raw|, i requires 0 <= i < |raw| => SpanAt(fold, raw, i)))
  }

  lemma {:induction false} FoldTextConcat(fold: FoldTable, a: string, b: string)
    ensures FoldText(fold, a + b) == FoldText(fold, a) + FoldText(fold, b)
  {
    if a == [] {
      assert a + b == b;
    } else {
      assert (a + b)[1..] == a[1..] + b;
      FoldTextConcat(fold, a[1..], b);
    }
  }

  lemma FoldSplit(fold: FoldTable, t: string, i: nat)
    requires i <= |t|
    ensures FoldText(fold, t) == FoldText(fold, t[..i]) + FoldText(fold, t[i..])
  {
    assert t == t[..i] + t[i..];
    FoldTextConcat(fold, t[..i], t[i..]);
  }

  lemma {:induction false} FoldTextLonger(fold: FoldTable, t: string)
    requires NonEmptyFold(fold)
    ensures |FoldText(fold, t)| >= |t|
  {
    if t != [] { FoldTextLonger(fold, t[1..]); }
  }

  /** Builds the folded text and its span map in one pass over the raw characters. */
  method NewFoldedText(fold: FoldTable, raw: string) returns (r: FoldedText)
    ensures r == Folded(fold, raw)
  {
    var value, spans: seq<FoldSpan>, rawStart, i := "", [], 0, 0;
    while i < |raw|
      invariant 0 <= i <= |raw|
      invariant rawStart == ByteOffset(raw, i)
      invariant value == FoldText(fold, raw[..i])
      invariant spans == Folded(fold, raw).spans[..i]
    {
      var rawEnd := rawStart + Width(raw[i]);
      var foldedStart := ByteLen(value);
      assert raw[..i + 1] == raw[..i] + [raw[i]];
      ByteLenConcat(raw[..i], [raw[i]]);
      FoldTextConcat(fold, raw[..i], [raw[i]]);
      assert FoldText(fold, [raw[i]]) == fold(raw[i]);
      value := value + fold(raw[i]);
      spans := spans + [FoldSpan(foldedStart, ByteLen(value), rawStart, rawEnd)];
      rawStart, i := rawEnd, i + 1;
    }
    assert raw[..|raw|] == raw;
    r := FoldedText(value, spans);
  }

  /** The index of the first span whose folded start is `start`. */
  function FirstStarting(spans: seq<FoldSpan>, start: nat, from: nat): (r: Option<nat>)
    requires from <= |spans|
    ensures r.Some? ==> from <= r.value < |spans| && spans[r.value].foldedStart == start
    decreases |spans| - from
  {
    if from == |spans| then None
    else if spans[from].foldedStart == start then Some(from)
    else FirstStarting(spans, start, from + 1)
  }

  /** The index of the first span whose folded end is `end`. */
  function FirstEnding(spans: seq<FoldSpan>, end: nat, from: nat): (r: Option<nat>)
    requires from <= |spans|
    ensures r.Some? ==> from <= r.value < |spans| && spans[r.value].foldedEnd == end
    decreases |spans| - from
  {
    if from == |spans| then None
    else if spans[from].foldedEnd == end then Some(from)
    else FirstEnding(spans, end, from + 1)
  }

  /** The raw range of a folded match, when both its ends are ends of whole folded characters. */
  function RawRange(spans: seq<FoldSpan>, m: (nat, nat)): seq<(nat, nat)> {
    var first, last := FirstStarting(spans, m.0, 0), FirstEnding(spans, m.1, 0);
    if first.Some? && last.Some? then [(spans[first.value].rawStart, spans[last.value].rawEnd)] else []
  }

  function Aligned(spans: seq<FoldSpan>, matches: seq<(nat, nat)>): seq<(nat, nat)> {
    if matches == [] then [] else RawRange(spans, matches[0]) + Aligned(spans, matches[1..])
  }

  function FindAll(text: FoldedText, needle: string): seq<(nat, nat)> {
    Aligned(text.spans, MatchRanges(text.value, needle))
  }

  /** `r` delimits a run of whole raw characters that folds exactly to the needle. */
  ghost predicate FoldsTo(fold: FoldTable, raw: string, needle: string, r: (nat, nat)) {
    && IsBoundary(raw, r.0) && IsBoundary(raw, r.1)
    && r.0 <= r.1 <= ByteLen(raw)
    && (needle != [] ==> r.0 < r.1)
    && FoldText(fold, ByteSlice(raw, r.0, r.1)) == needle
  }

  ghost predicate Disjoint(ranges: seq<(nat, nat)>) {
    forall k, l :: 0 <= k < l < |ranges| ==> ranges[k].1 <= ranges[l].0
  }

  function FoldLen(fold: FoldTable, raw: string, i: nat): nat
    requires i <= |raw|
  {
    |FoldText(fold, raw[..i])|
  }

  lemma FoldLenMonotone(fold: FoldTable, raw: string, i: nat, j: nat)
    requires NonEmptyFold(fold)
    requires i <= j <= |raw|
    ensures FoldText(fold, raw[..j]) == FoldText(fold, raw[..i]) + FoldText(fold, raw[i..j])
    ensures FoldLen(fold, raw, i) + (j - i) <= FoldLen(fold, raw, j)
  {
    assert raw[..j] == raw[..i] + raw[i..j];
    FoldTextConcat(fold, raw[..i], raw[i..j]);
    FoldTextLonger(fold, raw[i..j]);
  }

  /** A span edge at byte offset `b` of the folded text sits at the folded character that `b` names. */
  lemma EdgePosition(fold: FoldTable, raw: string, i: nat, p: nat)
    requires i <= |raw| && p <= |FoldText(fold, raw)|
    requires ByteLen(FoldText(fold, raw[..i])) == ByteOffset(FoldText(fold, raw), p)
    ensures FoldLen(fold, raw, i) == p
  {
    var v := FoldText(fold, raw);
    FoldSplit(fold, raw, i);
    assert v[..FoldLen(fold, raw, i)] == FoldText(fold, raw[..i]);
    CharIndexOfOffset(v, FoldLen(fold, raw, i));
    CharIndexOfOffset(v, p);
  }

  lemma MiddleOf(v: string, ab: string, a: string, b: string, c: string)
    requires v == ab + c && ab == a + b
    ensures |a| <= |ab| <= |v| && v[|a|..|ab|] == b
  {
  }

  /** The folding of a raw slice is the matching slice of the folded text. */
  lemma FoldSlice(fold: FoldTable, raw: string, i: nat, j: nat)
    requires i <= j <= |raw|
    ensures FoldLen(fold, raw, i) <= FoldLen(fold, raw, j) <= |FoldText(fold, raw)|
    ensures FoldText(fold, raw)[FoldLen(fold, raw, i)..FoldLen(fold, raw, j)] == FoldText(fold, raw[i..j])
  {
    FoldSplit(fold, raw, j);
    FoldSplit(fold, raw[..j], i);
    assert raw[..j][..i] == raw[..i] && raw[..j][i..] == raw[i..j];
    MiddleOf(FoldText(fold, raw), FoldText(fold, raw[..j]), FoldText(fold, raw[..i]), FoldText(fold, raw[i..j]),
             FoldText(fold, raw[j..]));
  }

  /** A run of whole characters as a byte range. */
  lemma RunIsRange(raw: string, i: nat, j: nat)
    requires i <= j <= |raw|
    ensures IsBoundary(raw, ByteOffset(raw, i)) && IsBoundary(raw, ByteOffset(raw, j))
    ensures ByteOffset(raw, i) <= ByteOffset(raw, j) <= ByteLen(raw)
    ensures i < j ==> ByteOffset(raw, i) < ByteOffset(raw, j)
    ensures ByteSlice(raw, ByteOffset(raw, i), ByteOffset(raw, j)) == raw[i..j]
  {
    CharIndexOfOffset(raw, i);
    CharIndexOfOffset(raw, j);
    ByteOffsetSum(raw, i, j);
    ByteOffsetSum(raw, j, |raw|);
    assert raw[..|raw|] == raw;
  }

  /** The raw characters whose folding is the occurrence of the needle at `p`. */
  lemma AlignedFolds(fold: FoldTable, raw: string, needle: string, p: nat, i: nat, j: nat)
    requires NonEmptyFold(fold)
    requires OccursAt(FoldText(fold, raw), needle, p)
    requires i <= |raw| && j <= |raw|
    requires FoldLen(fold, raw, i) == p && FoldLen(fold, raw, j) == p + |needle|
    ensures FoldsTo(fold, raw, needle, (ByteOffset(raw, i), ByteOffset(raw, j)))
  {
    if j < i {
      FoldLenMonotone(fold, raw, j, i);
      assert false;
    } else {
      FoldSlice(fold, raw, i, j);
      RunIsRange(raw, i, j);
    }
  }

  /** `range` holds the one raw range whose folding occupies `[p, p + n)` of the folded text, or nothing. */
  ghost predicate MapsBack(fold: FoldTable, raw: string, p: nat, n: nat, range: seq<(nat, nat)>) {
    range == [] || exists i, j ::
      Between(raw, i, j) && FoldLen(fold, raw, i) == p && FoldLen(fold, raw, j) == p + n
      && range == [(ByteOffset(raw, i), ByteOffset(raw, j))]
  }

  predicate Between(raw: string, i: nat, j: nat) {
    i <= |raw| && j <= |raw|
  }

  lemma RawRangeMapsBack(fold: FoldTable, raw: string, p: nat, n: nat, m: (nat, nat))
    requires p + n <= |FoldText(fold, raw)|
    requires m == (ByteOffset(FoldText(fold, raw), p), ByteOffset(FoldText(fold, raw), p + n))
    ensures MapsBack(fold, raw, p, n, RawRange(Folded(fold, raw).spans, m))
  {
    var spans := Folded(fold, raw).spans;
    var first, last := FirstStarting(spans, m.0, 0), FirstEnding(spans, m.1, 0);
    if first.Some? && last.Some? {
      var i, j := first.value, last.value + 1;
      assert spans[i] == SpanAt(fold, raw, i);
      assert spans[last.value] == SpanAt(fold, raw, last.value);
      EdgePosition(fold, raw, i, p);
      EdgePosition(fold, raw, j, p + n);
      assert Between(raw, i, j);
    }
  }

  /** The aligned ranges start no earlier than folded position `low`. */
  ghost predicate StartAtLeast(fold: FoldTable, raw: string, low: nat, ranges: seq<(nat, nat)>) {
    forall k :: 0 <= k < |ranges| ==>
      IsBoundary(raw, ranges[k].0) && low <= FoldLen(fold, raw, CharIndex(raw, ranges[k].0))
  }

  ghost predicate AllFoldTo(fold: FoldTable, raw: string, needle: string, ranges: seq<(nat, nat)>) {
    forall k :: 0 <= k < |ranges| ==> FoldsTo(fold, raw, needle, ranges[k])
  }

  /** Ranges that start after folded position `low` lie behind every raw position folded before it. */
  lemma StartsBehind(fold: FoldTable, raw: string, j: nat, ranges: seq<(nat, nat)>)
    requires NonEmptyFold(fold) && j <= |raw|
    requires StartAtLeast(fold, raw, FoldLen(fold, raw, j), ranges)
    ensures forall k :: 0 <= k < |ranges| ==> ByteOffset(raw, j) <= ranges[k].0
  {
    forall k | 0 <= k < |ranges| ensures ByteOffset(raw, j) <= ranges[k].0 {
      var i := CharIndex(raw, ranges[k].0);
      if i < j { FoldLenMonotone(fold, raw, i, j); assert false; }
      ByteOffsetSum(raw, j, i);
    }
  }

  ghost predicate GoodRanges(fold: FoldTable, raw: string, needle: string, low: nat, ranges: seq<(nat, nat)>) {
    AllFoldTo(fold, raw, needle, ranges) && Disjoint(ranges) && StartAtLeast(fold, raw, low, ranges)
  }

  lemma {:induction false} AlignedRanges(fold: FoldTable, raw: string, needle: string, positions: seq<nat>, low: nat)
    requires NonEmptyFold(fold)
    requires AllOccur(FoldText(fold, raw), needle, low, positions)
    requires Spaced(needle, positions)
    ensures GoodRanges(fold, raw, needle, low,
              Aligned(Folded(fold, raw).spans, ByteRanges(FoldText(fold, raw), needle, positions)))
  {
    if positions == [] {
    } else {
      var v, p := FoldText(fold, raw), positions[0];
      TailOccurs(v, needle, low, positions);
      AlignedRanges(fold, raw, needle, positions[1..], p + |needle|);
      ByteOffsetSum(v, p, p + |needle|);
      RawRangeMapsBack(fold, raw, p, |needle|, RangeAt(v, needle, p));
      AlignedStep(fold, raw, needle, p, low, RawRange(Folded(fold, raw).spans, RangeAt(v, needle, p)),
                  Aligned(Folded(fold, raw).spans, ByteRanges(v, needle, positions[1..])));
    }
  }

  lemma AlignedStep(fold: FoldTable, raw: string, needle: string, p: nat, low: nat, range: seq<(nat, nat)>,
                    rest: seq<(nat, nat)>)
    requires NonEmptyFold(fold)
    requires low <= p && OccursAt(FoldText(fold, raw), needle, p)
    requires MapsBack(fold, raw, p, |needle|, range)
    requires GoodRanges(fold, raw, needle, p + |needle|, rest)
    ensures GoodRanges(fold, raw, needle, low, range + rest)
  {
    if range == [] {
      assert range + rest == rest;
      StartEarlier(fold, raw, p + |needle|, low, rest);
    } else {
      var i, j :| Between(raw, i, j) && FoldLen(fold, raw, i) == p && FoldLen(fold, raw, j) == p + |needle|
                  && range == [(ByteOffset(raw, i), ByteOffset(raw, j))];
      AlignedFolds(fold, raw, needle, p, i, j);
      PrependRange(fold, raw, needle, i, j, low, rest);
    }
  }

  lemma StartEarlier(fold: FoldTable, raw: string, high: nat, low: nat, ranges: seq<(nat, nat)>)
    requires low <= high && StartAtLeast(fold, raw, high, ranges)
    ensures StartAtLeast(fold, raw, low, ranges)
  {
  }

  lemma TailOccurs(v: string, needle: string, low: nat, positions: seq<nat>)
    requires positions != [] && AllOccur(v, needle, low, positions) && Spaced(needle, positions)
    ensures AllOccur(v, needle, positions[0] + |needle|, positions[1..]) && Spaced(needle, positions[1..])
  {
    forall k | 0 <= k < |positions[1..]|
      ensures positions[0] + |needle| <= positions[1..][k] && OccursAt(v, needle, positions[1..][k])
    {
      assert positions[1..][k] == positions[k + 1];
    }
  }

  lemma PrependRange(fold: FoldTable, raw: string, needle: string, i: nat, j: nat, low: nat, rest: seq<(nat, nat)>)
    requires NonEmptyFold(fold) && i <= |raw| && j <= |raw|
    requires low <= FoldLen(fold, raw, i) <= FoldLen(fold, raw, j)
    requires FoldsTo(fold, raw, needle, (ByteOffset(raw, i), ByteOffset(raw, j)))
    requires GoodRanges(fold, raw, needle, FoldLen(fold, raw, j), rest)
    ensures GoodRanges(fold, raw, needle, low, [(ByteOffset(raw, i), ByteOffset(raw, j))] + rest)
  {
    StartsBehind(fold, raw, j, rest);
    CharIndexOfOffset(raw, i);
  }

  /** Every range the folded search reports is whole raw characters folding to the needle; ranges are disjoint and
      ordered. */
  lemma FoldedSearchSound(fold: FoldTable, raw: string, needle: string)
    requires NonEmptyFold(fold)
    ensures AllFoldTo(fold, raw, needle, FindAll(Folded(fold, raw), needle))
    ensures Disjoint(FindAll(Folded(fold, raw), needle))
  {
    MatchesOccur(FoldText(fold, raw), needle, 0);
    AlignedRanges(fold, raw, needle, MatchIndices(FoldText(fold, raw), needle, 0), 0);
  }

  // ----- nothing aligned is dropped -----

  lemma {:induction false} FirstStartingFinds(spans: seq<FoldSpan>, start: nat, from: nat, k: nat)
    requires from <= k < |spans| && spans[k].foldedStart == start
    ensures FirstStarting(spans, start, from).Some?
    decreases k - from
  {
    if spans[from].foldedStart != start { FirstStartingFinds(spans, start, from + 1, k); }
  }

  lemma {:induction false} FirstEndingFinds(spans: seq<FoldSpan>, end: nat, from: nat, k: nat)
    requires from <= k < |spans| && spans[k].foldedEnd == end
    ensures FirstEnding(spans, end, from).Some?
    decreases k - from
  {
    if spans[from].foldedEnd != end { FirstEndingFinds(spans, end, from + 1, k); }
  }

  lemma EdgeOffset(fold: FoldTable, raw: string, i: nat)
    requires i <= |raw|
    ensures FoldLen(fold, raw, i) <= |FoldText(fold, raw)|
    ensures ByteLen(FoldText(fold, raw[..i])) == ByteOffset(FoldText(fold, raw), FoldLen(fold, raw, i))
  {
    FoldSplit(fold, raw, i);
    assert FoldText(fold, raw)[..FoldLen(fold, raw, i)] == FoldText(fold, raw[..i]);
  }

  lemma SameEdge(fold: FoldTable, raw: string, i: nat, j: nat)
    requires NonEmptyFold(fold) && i <= |raw| && j <= |raw| && FoldLen(fold, raw, i) == FoldLen(fold, raw, j)
    ensures i == j
  {
    if i <= j { FoldLenMonotone(fold, raw, i, j); } else { FoldLenMonotone(fold, raw, j, i); }
  }

  /** Spans with the wanted edges exist, so the search for them succeeds. */
  lemma EdgesFound(fold: FoldTable, raw: string, i: nat, j: nat)
    requires i < j <= |raw|
    ensures var spans, v := Folded(fold, raw).spans, FoldText(fold, raw);
      FoldLen(fold, raw, i) <= |v| && FoldLen(fold, raw, j) <= |v|
      && RawRange(spans, (ByteOffset(v, FoldLen(fold, raw, i)), ByteOffset(v, FoldLen(fold, raw, j)))) != []
  {
    var spans, v := Folded(fold, raw).spans, FoldText(fold, raw);
    EdgeOffset(fold, raw, i);
    EdgeOffset(fold, raw, j);
    assert spans[i] == SpanAt(fold, raw, i) && spans[j - 1] == SpanAt(fold, raw, j - 1);
    FirstStartingFinds(spans, ByteOffset(v, FoldLen(fold, raw, i)), 0, i);
    FirstEndingFinds(spans, ByteOffset(v, FoldLen(fold, raw, j)), 0, j - 1);
  }

  /** A folded match from the edge before character `i` to the edge before character `j` maps to these characters. */
  lemma AlignedIsFound(fold: FoldTable, raw: string, p: nat, n: nat, m: (nat, nat), i: nat, j: nat)
    requires NonEmptyFold(fold) && i < j <= |raw| && FoldLen(fold, raw, i) == p && FoldLen(fold, raw, j) == p + n
    requires p + n <= |FoldText(fold, raw)|
    requires m == (ByteOffset(FoldText(fold, raw), p), ByteOffset(FoldText(fold, raw), p + n))
    ensures RawRange(Folded(fold, raw).spans, m) == [(ByteOffset(raw, i), ByteOffset(raw, j))]
  {
    var range := RawRange(Folded(fold, raw).spans, m);
    EdgesFound(fold, raw, i, j);
    RawRangeMapsBack(fold, raw, p, n, m);
    var i', j' :| Between(raw, i', j') && FoldLen(fold, raw, i') == p && FoldLen(fold, raw, j') == p + n
                  && range == [(ByteOffset(raw, i'), ByteOffset(raw, j'))];
    SameEdge(fold, raw, i, i');
    SameEdge(fold, raw, j, j');
  }

  lemma {:induction false} AlignedKeeps(spans: seq<FoldSpan>, matches: seq<(nat, nat)>, k: nat, r: (nat, nat))
    requires k < |matches| && RawRange(spans, matches[k]) == [r]
    ensures r in Aligned(spans, matches)
  {
    if k > 0 { AlignedKeeps(spans, matches[1..], k - 1, r); }
  }

  lemma EdgesOrdered(fold: FoldTable, raw: string, i: nat, j: nat)
    requires NonEmptyFold(fold) && i <= |raw| && j <= |raw| && FoldLen(fold, raw, i) < FoldLen(fold, raw, j)
    ensures i < j
  {
    if j <= i { FoldLenMonotone(fold, raw, j, i); }
  }

  lemma MatchRangeAt(v: string, needle: string, k: nat)
    requires k < |MatchIndices(v, needle, 0)|
    ensures var p := MatchIndices(v, needle, 0)[k];
      p + |needle| <= |v| && k < |MatchRanges(v, needle)|
      && MatchRanges(v, needle)[k] == (ByteOffset(v, p), ByteOffset(v, p + |needle|))
  {
    MatchesOccur(v, needle, 0);
    OccurrenceRange(v, needle, MatchIndices(v, needle, 0)[k]);
  }

  lemma OccurrenceRange(v: string, needle: string, p: nat)
    requires OccursAt(v, needle, p)
    ensures RangeAt(v, needle, p) == (ByteOffset(v, p), ByteOffset(v, p + |needle|))
  {
    ByteOffsetSum(v, p, p + |needle|);
  }

  /** Every leftmost match that begins and ends on whole folded characters is reported. */
  lemma FoldedSearchComplete(fold: FoldTable, raw: string, needle: string, k: nat, i: nat, j: nat)
    requires NonEmptyFold(fold) && needle != [] && i <= |raw| && j <= |raw|
    requires k < |MatchIndices(FoldText(fold, raw), needle, 0)|
    requires var p := MatchIndices(FoldText(fold, raw), needle, 0)[k];
      FoldLen(fold, raw, i) == p && FoldLen(fold, raw, j) == p + |needle|
    ensures (ByteOffset(raw, i), ByteOffset(raw, j)) in FindAll(Folded(fold, raw), needle)
  {
    var v := FoldText(fold, raw);
    var p := MatchIndices(v, needle, 0)[k];
    MatchRangeAt(v, needle, k);
    EdgesOrdered(fold, raw, i, j);
    AlignedIsFound(fold, raw, p, |needle|, MatchRanges(v, needle)[k], i, j);
    AlignedKeeps(Folded(fold, raw).spans, MatchRanges(v, needle), k, (ByteOffset(raw, i), ByteOffset(raw, j)));
  }

  ghost predicate SlicesTo(raw: string, needle: string, r: (nat, nat)) {
    IsBoundary(raw, r.0) && IsBoundary(raw, r.1) && r.0 <= r.1 && ByteSlice(raw, r.0, r.1) == needle
  }

  lemma OccurrenceSlices(raw: string, needle: string, p: nat)
    requires OccursAt(raw, needle, p)
    ensures SlicesTo(raw, needle, RangeAt(raw, needle, p))
  {
    ByteOffsetSum(raw, p, p + |needle|);
    RunIsRange(raw, p, p + |needle|);
  }

  lemma {:induction false} ExactRanges(raw: string, needle: string, positions: seq<nat>)
    requires AllOccur(raw, needle, 0, positions)
    ensures forall r :: r in ByteRanges(raw, needle, positions) ==> SlicesTo(raw, needle, r)
  {
    if positions == [] {
    } else {
      ExactRanges(raw, needle, positions[1..]);
      OccurrenceSlices(raw, needle, positions[0]);
    }
  }

  /** Every range of a case-sensitive search slices out exactly the needle. */
  lemma ExactSearchSound(raw: string, needle: string)
    ensures forall r :: r in MatchRanges(raw, needle) ==> SlicesTo(raw, needle, r)
  {
    MatchesOccur(raw, needle, 0);
    ExactRanges(raw, needle, MatchIndices(raw, needle, 0));
  }
}
