/** Which correction wins and what text it leaves, told without the comparator and without the rewriting loop. */
module CorrectionChoice {
  import opened Results
  import opened Sorting
  import opened Text
  import opened Search
  import opened Lexicon
  import opened Corrections
  import opened CorrectionLaws
  import opened RenderLaws

  // ----- which candidate wins -----

  /** Why `winner` goes before `c` when both start at one place: priority, then length, then spelling, then id. */
  ghost predicate Outranks(winner: Candidate, c: Candidate) {
    && winner.priority >= c.priority
    && (winner.priority == c.priority ==> winner.endByte >= c.endByte)
    && (winner.priority == c.priority && winner.endByte == c.endByte ==>
          SpelledFirst(winner.replacement, c.replacement))
    && (winner.priority == c.priority && winner.endByte == c.endByte && winner.replacement == c.replacement ==>
          winner.variantId <= c.variantId)
  }

  /** `c` starts inside `winner`, and if it starts where `winner` does it is outranked. */
  ghost predicate Displaces(winner: Candidate, c: Candidate) {
    winner.startByte <= c.startByte < winner.endByte && (winner.startByte == c.startByte ==> Outranks(winner, c))
  }

  /** Every copy of a candidate that is left out is displaced by a selected one. */
  lemma LosersDisplaced(candidates: seq<Candidate>, c: Candidate) returns (winner: Candidate)
    requires AllRanges(candidates) && multiset(Selected(candidates))[c] < multiset(candidates)[c]
    ensures winner in Selected(candidates) && Displaces(winner, c)
  {
    var selected := Selected(candidates);
    GreedyJustified(candidates);
    assert Beaten(c, selected);
    var k :| 0 <= k < |selected| && CandidateLe(selected[k], c) && Overlaps(selected[k], c);
    winner := selected[k];
    SpelledFirstExact(winner.replacement, c.replacement);
  }

  /** A correction that records `c`. */
  predicate Records(raw: string, c: Candidate, a: AppliedCorrection) {
    && a.variantId == c.variantId && a.replacement == c.replacement
    && a.startChar == CharIndex(raw, c.startByte) && a.endChar == CharIndex(raw, c.endByte)
  }

  ghost predicate Wins(raw: string, c: Candidate, corrections: seq<AppliedCorrection>) {
    exists m :: 0 <= m < |corrections| && Records(raw, c, corrections[m])
  }

  lemma SelectedWins(raw: string, rules: seq<CorrectionRule>, boundaries: set<nat>, fold: FoldTable, freshId: IdSource,
                     appliedAt: int, c: Candidate)
    requires WordBoundaries(raw, boundaries) && NonEmptyFold(fold)
    requires Applied(raw, rules, boundaries, fold, freshId, appliedAt).Success?
    requires c in SelectedFor(raw, rules, boundaries, fold)
    ensures Wins(raw, c, Applied(raw, rules, boundaries, fold, freshId, appliedAt).value.corrections)
  {
    var selected := SelectedFor(raw, rules, boundaries, fold);
    SelectionFits(raw, rules, boundaries, fold);
    Recorded(raw, selected, 0, freshId, 0, appliedAt);
    var m :| 0 <= m < |selected| && selected[m] == c;
    var cs := Applied(raw, rules, boundaries, fold, freshId, appliedAt).value.corrections;
    assert RecordOf(raw, selected[m], freshId(0 + m), cs[m]);
    assert Records(raw, c, cs[m]);
  }

  /** Whatever a rule proposes for a text is either applied or displaced by an applied proposal of some rule. */
  lemma AppliedChooses(raw: string, rules: seq<CorrectionRule>, boundaries: set<nat>, fold: FoldTable,
                       freshId: IdSource, appliedAt: int, k: nat, c: Candidate)
    returns (winner: Candidate, l: nat)
    requires WordBoundaries(raw, boundaries) && NonEmptyFold(fold)
    requires Applied(raw, rules, boundaries, fold, freshId, appliedAt).Success?
    requires k < |rules| && Proposes(raw, boundaries, Folded(fold, raw), rules[k], c)
    ensures l < |rules| && Proposes(raw, boundaries, Folded(fold, raw), rules[l], winner)
    ensures Wins(raw, winner, Applied(raw, rules, boundaries, fold, freshId, appliedAt).value.corrections)
    ensures winner == c || Displaces(winner, c)
  {
    var folded := Folded(fold, raw);
    var candidates := Contributions(raw, boundaries, folded, rules);
    CandidatesExact(raw, boundaries, folded, rules, c);
    if c in Selected(candidates) {
      winner := c;
    } else {
      ContributionsAreRanges(raw, rules, boundaries, fold);
      assert c in multiset(candidates) && c !in multiset(Selected(candidates));
      winner := LosersDisplaced(candidates, c);
      SortElements(candidates, CandidateLe);
      SelectIsSubset(Sort(candidates, CandidateLe), 0);
    }
    CandidatesExact(raw, boundaries, folded, rules, winner);
    l :| 0 <= l < |rules| && Proposes(raw, boundaries, folded, rules[l], winner);
    SelectedWins(raw, rules, boundaries, fold, freshId, appliedAt, winner);
  }

  // ----- what text is left -----

  /** The corrections can be made one after the other: in order, apart, inside the text, and on their originals. */
  ghost predicate Applicable(raw: string, cs: seq<AppliedCorrection>) {
    && (forall k :: 0 <= k < |cs| ==>
          cs[k].startChar <= cs[k].endChar <= |raw| && raw[cs[k].startChar..cs[k].endChar] == cs[k].original)
    && (forall k, l :: 0 <= k < l < |cs| ==> cs[k].endChar <= cs[l].startChar)
  }

  /** How far the first `m` corrections move what follows them. */
  function Shift(cs: seq<AppliedCorrection>, m: nat): int
    requires m <= |cs|
  {
    if m == 0 then 0
    else Shift(cs, m - 1) + |cs[m - 1].replacement| - (cs[m - 1].endChar - cs[m - 1].startChar)
  }

  /** Where the text between corrections `m - 1` and `m` begins and ends. */
  function GapStart(cs: seq<AppliedCorrection>, m: nat): nat
    requires m <= |cs|
  {
    if m == 0 then 0 else cs[m - 1].endChar
  }

  function GapEnd(raw: string, cs: seq<AppliedCorrection>, m: nat): nat
    requires m <= |cs|
  {
    if m == |cs| then |raw| else cs[m].startChar
  }

  predicate Holds(t: string, at: int, piece: string) {
    0 <= at && at + |piece| <= |t| && t[at..at + |piece|] == piece
  }

  /** What lies between two corrections is kept, moved by what comes before. */
  predicate GapKept(raw: string, cs: seq<AppliedCorrection>, t: string, m: nat)
    requires m <= |cs|
  {
    var from, until := GapStart(cs, m), GapEnd(raw, cs, m);
    from <= until <= |raw| && Holds(t, from + Shift(cs, m), raw[from..until])
  }

  /** In place of a correction's range stands its replacement. */
  predicate Replaced(cs: seq<AppliedCorrection>, t: string, m: nat)
    requires m < |cs|
  {
    Holds(t, cs[m].startChar + Shift(cs, m), cs[m].replacement)
  }

  /** `t` is the text with every range replaced and everything else kept, and nothing more. */
  ghost predicate Spliced(raw: string, cs: seq<AppliedCorrection>, t: string) {
    && |t| == |raw| + Shift(cs, |cs|)
    && (forall m :: 0 <= m < |cs| ==> Replaced(cs, t, m))
    && (forall m :: 0 <= m <= |cs| ==> GapKept(raw, cs, t, m))
  }

  /** From correction `k` on. */
  ghost predicate SplicedFrom(raw: string, cs: seq<AppliedCorrection>, t: string, k: nat)
    requires k <= |cs|
  {
    && |t| == |raw| + Shift(cs, |cs|)
    && (forall m :: k <= m < |cs| ==> Replaced(cs, t, m))
    && (forall m :: k <= m <= |cs| ==> GapKept(raw, cs, t, m))
  }

  lemma HoldsInside(before: string, piece: string, after: string)
    ensures Holds(before + piece + after, |before|, piece)
  {
  }

  /** What one successful step of the rendering loop says about its first correction. */
  lemma RenderHead(raw: string, ordered: seq<AppliedCorrection>, position: nat)
    requires position <= |raw| && IsBoundary(raw, ByteOffset(raw, position)) && ordered != []
    requires RenderFrom(raw, ordered, ByteOffset(raw, position)).Success?
    ensures var c := ordered[0];
      && position <= c.startChar <= c.endChar <= |raw| && raw[c.startChar..c.endChar] == c.original
      && IsBoundary(raw, ByteOffset(raw, c.endChar))
      && RenderFrom(raw, ordered[1..], ByteOffset(raw, c.endChar)).Success?
      && RenderFrom(raw, ordered, ByteOffset(raw, position)).value
         == raw[position..c.startChar] + c.replacement + RenderFrom(raw, ordered[1..], ByteOffset(raw, c.endChar)).value
  {
    var c := ordered[0];
    OffsetAtCharIsBoundary(raw, position);
    OffsetAtCharIsBoundary(raw, c.startChar);
    OffsetAtCharIsBoundary(raw, c.endChar);
    BoundaryOrder(raw, ByteOffset(raw, position), ByteOffset(raw, c.startChar));
    BoundaryOrder(raw, ByteOffset(raw, c.startChar), ByteOffset(raw, c.endChar));
  }

  lemma RenderEnd(raw: string, position: nat)
    requires position <= |raw| && IsBoundary(raw, ByteOffset(raw, position))
    ensures RenderFrom(raw, [], ByteOffset(raw, position)) == Success(raw[position..])
  {
    OffsetAtCharIsBoundary(raw, position);
    EndsAreBoundaries(raw);
    BoundaryOrder(raw, ByteOffset(raw, position), ByteLen(raw));
    SliceToEnd(raw, ByteOffset(raw, position), position);
  }

  lemma SliceToEnd(raw: string, b: nat, position: nat)
    requires IsBoundary(raw, b) && b <= ByteLen(raw) && CharIndex(raw, b) == position <= |raw|
    requires IsBoundary(raw, ByteLen(raw)) && CharIndex(raw, ByteLen(raw)) == |raw|
    ensures ByteSlice(raw, b, ByteLen(raw)) == raw[position..]
  {
    assert raw[position..|raw|] == raw[position..];
  }

  /** One correction: the gap before it and its replacement stand where they should, and what follows is moved. */
  lemma SpliceStep(raw: string, cs: seq<AppliedCorrection>, k: nat, before: string, tail: string)
    requires k < |cs| && GapStart(cs, k) <= cs[k].startChar <= cs[k].endChar <= |raw|
    requires |before| == GapStart(cs, k) + Shift(cs, k)
    ensures var longer := before + raw[GapStart(cs, k)..cs[k].startChar] + cs[k].replacement;
      |longer| == cs[k].endChar + Shift(cs, k + 1)
      && GapKept(raw, cs, longer + tail, k) && Replaced(cs, longer + tail, k)
  {
    var gap, piece := raw[GapStart(cs, k)..cs[k].startChar], cs[k].replacement;
    assert before + gap + piece + tail == before + gap + (piece + tail);
    HoldsInside(before, gap, piece + tail);
    HoldsInside(before + gap, piece, tail);
  }

  lemma SplicedEarlier(raw: string, cs: seq<AppliedCorrection>, t: string, k: nat)
    requires k < |cs| && SplicedFrom(raw, cs, t, k + 1) && GapKept(raw, cs, t, k) && Replaced(cs, t, k)
    ensures SplicedFrom(raw, cs, t, k)
  {
  }

  lemma SplicedEnd(raw: string, cs: seq<AppliedCorrection>, before: string)
    requires GapStart(cs, |cs|) <= |raw| && |before| == GapStart(cs, |cs|) + Shift(cs, |cs|)
    ensures SplicedFrom(raw, cs, before + raw[GapStart(cs, |cs|)..], |cs|)
  {
    var rest := raw[GapStart(cs, |cs|)..];
    HoldsInside(before, rest, "");
    assert before + rest + "" == before + rest;
  }

  /** Rendering goes on with correction `k` and yields `tail`. */
  predicate RendersTo(raw: string, cs: seq<AppliedCorrection>, k: nat, tail: string)
    requires k <= |cs|
  {
    GapStart(cs, k) <= |raw| && IsBoundary(raw, ByteOffset(raw, GapStart(cs, k)))
    && RenderFrom(raw, cs[k..], ByteOffset(raw, GapStart(cs, k))) == Success(tail)
  }

  /** Correction `k` comes after the one before it, inside the text and on its original. */
  predicate InPlace(raw: string, cs: seq<AppliedCorrection>, k: nat)
    requires k < |cs|
  {
    GapStart(cs, k) <= cs[k].startChar <= cs[k].endChar <= |raw|
    && raw[cs[k].startChar..cs[k].endChar] == cs[k].original
  }

  lemma RendersNext(raw: string, cs: seq<AppliedCorrection>, k: nat, tail: string) returns (next: string)
    requires k < |cs| && RendersTo(raw, cs, k, tail)
    ensures InPlace(raw, cs, k) && RendersTo(raw, cs, k + 1, next)
    ensures tail == raw[GapStart(cs, k)..cs[k].startChar] + cs[k].replacement + next
  {
    RenderHead(raw, cs[k..], GapStart(cs, k));
    assert cs[k..][1..] == cs[k + 1..];
    next := RenderFrom(raw, cs[k + 1..], ByteOffset(raw, cs[k].endChar)).value;
  }

  lemma RendersLast(raw: string, cs: seq<AppliedCorrection>, tail: string)
    requires RendersTo(raw, cs, |cs|, tail)
    ensures tail == raw[GapStart(cs, |cs|)..]
  {
    RenderEnd(raw, GapStart(cs, |cs|));
  }

  lemma Regroup(a: string, b: string, c: string, d: string)
    ensures a + (b + c + d) == (a + b + c) + d
  {
  }

  lemma {:induction false} SplicesFrom(raw: string, cs: seq<AppliedCorrection>, k: nat, before: string, tail: string)
    requires k <= |cs| && RendersTo(raw, cs, k, tail) && |before| == GapStart(cs, k) + Shift(cs, k)
    ensures SplicedFrom(raw, cs, before + tail, k) && forall m :: k <= m < |cs| ==> InPlace(raw, cs, m)
    decreases |cs| - k
  {
    if k == |cs| {
      RendersLast(raw, cs, tail);
      SplicedEnd(raw, cs, before);
    } else {
      var next := RendersNext(raw, cs, k, tail);
      var longer := before + raw[GapStart(cs, k)..cs[k].startChar] + cs[k].replacement;
      SpliceStep(raw, cs, k, before, next);
      SplicesFrom(raw, cs, k + 1, longer, next);
      Regroup(before, raw[GapStart(cs, k)..cs[k].startChar], cs[k].replacement, next);
      SplicedEarlier(raw, cs, longer + next, k);
    }
  }

  lemma {:induction false} ApartByGaps(raw: string, cs: seq<AppliedCorrection>, k: nat, l: nat)
    requires k < l < |cs| && forall m :: 0 <= m < |cs| ==> InPlace(raw, cs, m)
    ensures cs[k].endChar <= cs[l].startChar
    decreases l
  {
    assert InPlace(raw, cs, l) && InPlace(raw, cs, l - 1);
    if k < l - 1 { ApartByGaps(raw, cs, k, l - 1); }
  }

  lemma SplicesAll(raw: string, cs: seq<AppliedCorrection>, t: string)
    requires RendersTo(raw, cs, 0, t)
    ensures Applicable(raw, cs) && Spliced(raw, cs, t)
  {
    SplicesFrom(raw, cs, 0, "", t);
    assert "" + t == t;
    forall k | 0 <= k < |cs|
      ensures cs[k].startChar <= cs[k].endChar <= |raw| && raw[cs[k].startChar..cs[k].endChar] == cs[k].original
    {
      assert InPlace(raw, cs, k);
    }
    forall k, l | 0 <= k < l < |cs| ensures cs[k].endChar <= cs[l].startChar {
      ApartByGaps(raw, cs, k, l);
    }
  }

  /** Rendering that succeeds replaces exactly the ranges of the corrections, in place, and keeps everything else. */
  lemma RenderSplices(raw: string, corrections: seq<AppliedCorrection>)
    requires Render(raw, corrections).Success?
    ensures var ordered := Sort(corrections, CorrectionLe);
      Applicable(raw, ordered) && Spliced(raw, ordered, Render(raw, corrections).value)
  {
    var ordered := Sort(corrections, CorrectionLe);
    EndsAreBoundaries(raw);
    assert ordered[0..] == ordered && ByteOffset(raw, 0) == 0;
    SplicesAll(raw, ordered, Render(raw, corrections).value);
  }

  lemma {:induction false} ApplicableRenders(raw: string, cs: seq<AppliedCorrection>, k: nat)
    requires Applicable(raw, cs) && k <= |cs|
    ensures GapStart(cs, k) <= |raw| && IsBoundary(raw, ByteOffset(raw, GapStart(cs, k)))
    ensures RenderFrom(raw, cs[k..], ByteOffset(raw, GapStart(cs, k))).Success?
    decreases |cs| - k
  {
    var position := GapStart(cs, k);
    OffsetAtCharIsBoundary(raw, position);
    if k < |cs| {
      ApplicableRenders(raw, cs, k + 1);
      assert cs[k..][1..] == cs[k + 1..];
      OffsetAtCharIsBoundary(raw, cs[k].startChar);
      OffsetAtCharIsBoundary(raw, cs[k].endChar);
      BoundaryOrder(raw, ByteOffset(raw, position), ByteOffset(raw, cs[k].startChar));
      BoundaryOrder(raw, ByteOffset(raw, cs[k].startChar), ByteOffset(raw, cs[k].endChar));
    } else {
      RenderEnd(raw, position);
    }
  }

  /** Rendering succeeds exactly for corrections that, in their order, can be made one after the other. */
  lemma RenderSucceedsExactly(raw: string, corrections: seq<AppliedCorrection>)
    ensures Render(raw, corrections).Success? <==> Applicable(raw, Sort(corrections, CorrectionLe))
  {
    var ordered := Sort(corrections, CorrectionLe);
    if Render(raw, corrections).Success? {
      RenderSplices(raw, corrections);
    }
    if Applicable(raw, ordered) {
      ApplicableRenders(raw, ordered, 0);
      assert ordered[0..] == ordered && ByteOffset(raw, 0) == 0;
    }
  }

  /** There is at most one such text. */
  lemma SplicedOnce(raw: string, cs: seq<AppliedCorrection>, s: string, t: string)
    requires Applicable(raw, cs) && Spliced(raw, cs, s) && Spliced(raw, cs, t)
    ensures s == t
  {
    forall i | 0 <= i < |s| ensures s[i] == t[i] {
      var m := PieceAt(raw, cs, i, |cs|);
      assert GapKept(raw, cs, s, m) && GapKept(raw, cs, t, m);
      var from, until := GapStart(cs, m), GapEnd(raw, cs, m);
      if i < until + Shift(cs, m) {
        HoldAlike(s, t, from + Shift(cs, m), raw[from..until], i);
      } else {
        assert Replaced(cs, s, m) && Replaced(cs, t, m);
        HoldAlike(s, t, cs[m].startChar + Shift(cs, m), cs[m].replacement, i);
      }
    }
  }

  lemma HoldAlike(s: string, t: string, at: int, piece: string, i: nat)
    requires Holds(s, at, piece) && Holds(t, at, piece) && at <= i < at + |piece|
    ensures s[i] == t[i]
  {
    assert s[at..at + |piece|][i - at] == t[at..at + |piece|][i - at];
  }

  /** The gap or replacement that position `i` of the result belongs to, among those up to gap `n`. */
  lemma {:induction false} PieceAt(raw: string, cs: seq<AppliedCorrection>, i: nat, n: nat) returns (m: nat)
    requires Applicable(raw, cs) && n <= |cs| && i < GapEnd(raw, cs, n) + Shift(cs, n)
    ensures m <= n
    ensures GapStart(cs, m) + Shift(cs, m) <= i
    ensures i < GapEnd(raw, cs, m) + Shift(cs, m)
      || (m < |cs| && i < cs[m].startChar + Shift(cs, m) + |cs[m].replacement|)
    decreases n
  {
    if GapStart(cs, n) + Shift(cs, n) <= i {
      m := n;
    } else {
      var c := cs[n - 1];
      if c.startChar + Shift(cs, n - 1) <= i {
        m := n - 1;
        assert GapStart(cs, m) <= c.startChar;
      } else {
        m := PieceAt(raw, cs, i, n - 1);
      }
    }
  }

  /** The text of a successful pass is the raw text with the recorded ranges replaced and everything else kept. */
  lemma AppliedSplices(raw: string, rules: seq<CorrectionRule>, boundaries: set<nat>, fold: FoldTable,
                       freshId: IdSource, appliedAt: int)
    requires WordBoundaries(raw, boundaries) && NonEmptyFold(fold)
    requires Applied(raw, rules, boundaries, fold, freshId, appliedAt).Success?
    ensures var result := Applied(raw, rules, boundaries, fold, freshId, appliedAt).value;
      Applicable(raw, result.corrections) && Spliced(raw, result.corrections, result.finalText)
  {
    var selected := SelectedFor(raw, rules, boundaries, fold);
    SelectionFits(raw, rules, boundaries, fold);
    RenderMirrorsRewrite(raw, selected, 0, freshId, 0, appliedAt);
    var cs := Applied(raw, rules, boundaries, fold, freshId, appliedAt).value.corrections;
    EndsAreBoundaries(raw);
    assert cs[0..] == cs && ByteOffset(raw, 0) == 0;
    SplicesAll(raw, cs, Rewrite(raw, selected, 0));
  }
}
