/** Applying lexicon rules to a raw transcript, and rebuilding the final text from stored corrections. */
module Corrections {
  import opened Results
  import opened Sorting
  import opened Text
  import opened Search
  import opened Lexicon

  datatype CorrectionRule = CorrectionRule(entry: LexiconEntry, variant: LexiconVariant)

  datatype CorrectionError =
    | VariantBelongsToOtherEntry(variantId: nat, entryId: nat)
    | PositionTooLarge
    | InvalidStoredCorrection(correctionId: nat)

  datatype CorrectionResult = CorrectionResult(finalText: string, corrections: seq<AppliedCorrection>)

  datatype Candidate = Candidate(startByte: nat, endByte: nat, priority: nat, variantId: nat, replacement: string)

  /** The word boundaries of a text: character boundaries that include both ends. */
  ghost predicate WordBoundaries(raw: string, boundaries: set<nat>) {
    && 0 in boundaries && ByteLen(raw) in boundaries
    && forall b :: b in boundaries ==> IsBoundary(raw, b)
  }

  // ----- finding candidates -----

  function Locations(raw: string, folded: FoldedText, variant: LexiconVariant): seq<(nat, nat)> {
    match variant.matchMode
    case ExactCaseSensitive => MatchRanges(raw, variant.variantText)
    case ExactCasefold => FindAll(folded, variant.variantKey)
  }

  function ToCandidates(boundaries: set<nat>, rule: CorrectionRule, ranges: seq<(nat, nat)>): seq<Candidate> {
    if ranges == [] then []
    else
      var r := ranges[0];
      (if r.0 in boundaries && r.1 in boundaries
       then [Candidate(r.0, r.1, rule.entry.priority, rule.variant.id, rule.entry.canonicalText)] else [])
      + ToCandidates(boundaries, rule, ranges[1..])
  }

  function FindCandidates(raw: string, boundaries: set<nat>, folded: FoldedText, rule: CorrectionRule): seq<Candidate> {
    ToCandidates(boundaries, rule, Locations(raw, folded, rule.variant))
  }

  /** The candidates one rule contributes: none when its entry is disabled or the text has no word. */
  function Contribution(raw: string, boundaries: set<nat>, folded: FoldedText, rule: CorrectionRule): seq<Candidate> {
    if !rule.entry.enabled || |boundaries| <= 1 then [] else FindCandidates(raw, boundaries, folded, rule)
  }

  function Contributions(raw: string, boundaries: set<nat>, folded: FoldedText,
                         rules: seq<CorrectionRule>): seq<Candidate> {
    if rules == [] then []
    else Contribution(raw, boundaries, folded, rules[0]) + Contributions(raw, boundaries, folded, rules[1..])
  }

  /** The first rule whose variant belongs to another entry. */
  function FirstForeign(rules: seq<CorrectionRule>): Option<CorrectionRule> {
    if rules == [] then None
    else if rules[0].variant.entryId != rules[0].entry.id then Some(rules[0])
    else FirstForeign(rules[1..])
  }

  // ----- choosing among candidates -----

  /** Earlier start, then higher priority, then longer range, then replacement and variant id. */
  predicate CandidateLe(l: Candidate, r: Candidate) {
    if l.startByte != r.startByte then l.startByte < r.startByte
    else if l.priority != r.priority then l.priority > r.priority
    else if l.endByte != r.endByte then l.endByte > r.endByte
    else if l.replacement != r.replacement then StringLe(l.replacement, r.replacement)
    else l.variantId <= r.variantId
  }

  /** Greedy choice: a candidate is kept when it starts at or after the end of the last kept one. */
  function Select(candidates: seq<Candidate>, nextFreeByte: nat): seq<Candidate> {
    if candidates == [] then []
    else if candidates[0].startByte >= nextFreeByte then
      [candidates[0]] + Select(candidates[1..], candidates[0].endByte)
    else Select(candidates[1..], nextFreeByte)
  }

  predicate ValidCandidate(raw: string, c: Candidate) {
    IsBoundary(raw, c.startByte) && IsBoundary(raw, c.endByte) && c.startByte <= c.endByte
  }

  ghost predicate AllValid(raw: string, candidates: seq<Candidate>) {
    forall c :: c in candidates ==> ValidCandidate(raw, c)
  }

  /** The candidates are sliceable ranges of the text, in order, disjoint, and from `cursor` on. */
  predicate Fits(raw: string, selected: seq<Candidate>, cursor: nat) {
    && IsBoundary(raw, cursor)
    && (selected != [] ==>
          && ValidCandidate(raw, selected[0]) && cursor <= selected[0].startByte
          && Fits(raw, selected[1..], selected[0].endByte))
  }

  // ----- rewriting -----

  /** The text from byte `cursor` on with every selected range replaced. */
  function Rewrite(raw: string, selected: seq<Candidate>, cursor: nat): string
    requires Fits(raw, selected, cursor)
  {
    EndsAreBoundaries(raw);
    BoundaryOrder(raw, cursor, ByteLen(raw));
    if selected == [] then ByteSlice(raw, cursor, ByteLen(raw))
    else
      ByteSlice(raw, cursor, selected[0].startByte) + selected[0].replacement
      + Rewrite(raw, selected[1..], selected[0].endByte)
  }

  type IdSource = nat -> nat

  function MakeCorrections(raw: string, selected: seq<Candidate>, cursor: nat, freshId: IdSource, k: nat,
                           appliedAt: int)
    : (r: Result<seq<AppliedCorrection>, CorrectionError>)
    requires Fits(raw, selected, cursor)
    ensures r.Success? ==> |r.value| == |selected|
  {
    if selected == [] then Success([])
    else
      var c := selected[0];
      var startChar, endChar := CharCountToU32(raw, c.startByte), CharCountToU32(raw, c.endByte);
      if startChar.None? || endChar.None? then Failure(PositionTooLarge)
      else
        var head := AppliedCorrection(freshId(k), c.variantId, ByteSlice(raw, c.startByte, c.endByte), c.replacement,
                                      startChar.value, endChar.value, appliedAt);
        Prepend([head], MakeCorrections(raw, selected[1..], c.endByte, freshId, k + 1, appliedAt))
  }

  function Selected(candidates: seq<Candidate>): seq<Candidate> {
    Select(Sort(candidates, CandidateLe), 0)
  }

  function Applied(raw: string, rules: seq<CorrectionRule>, boundaries: set<nat>, fold: FoldTable, freshId: IdSource,
                   appliedAt: int)
    : Result<CorrectionResult, CorrectionError>
    requires WordBoundaries(raw, boundaries) && NonEmptyFold(fold)
  {
    match FirstForeign(rules)
    case Some(rule) => Failure(VariantBelongsToOtherEntry(rule.variant.id, rule.entry.id))
    case None =>
      var candidates := Contributions(raw, boundaries, Folded(fold, raw), rules);
      SelectionFits(raw, rules, boundaries, fold);
      match MakeCorrections(raw, Selected(candidates), 0, freshId, 0, appliedAt)
      case Failure(e) => Failure(e)
      case Success(corrections) => Success(CorrectionResult(Rewrite(raw, Selected(candidates), 0), corrections))
  }

  // ----- rendering stored corrections -----

  predicate CorrectionLe(l: AppliedCorrection, r: AppliedCorrection) {
    if l.startChar != r.startChar then l.startChar < r.startChar
    else if l.endChar != r.endChar then l.endChar < r.endChar
    else l.id <= r.id
  }

  /** Renders corrections that are already in order, from byte `previousEnd` on. */
  function RenderFrom(raw: string, ordered: seq<AppliedCorrection>, previousEnd: nat): Result<string, CorrectionError>
    requires IsBoundary(raw, previousEnd)
  {
    EndsAreBoundaries(raw);
    BoundaryOrder(raw, previousEnd, ByteLen(raw));
    if ordered == [] then Success(ByteSlice(raw, previousEnd, ByteLen(raw)))
    else
      var c := ordered[0];
      OffsetAtCharIsBoundary(raw, c.startChar);
      OffsetAtCharIsBoundary(raw, c.endChar);
      var start, end := ByteOffsetAtChar(raw, c.startChar), ByteOffsetAtChar(raw, c.endChar);
      if start.None? || end.None? then Failure(PositionTooLarge)
      else if start.value < previousEnd || start.value > end.value
              || ByteSlice(raw, start.value, end.value) != c.original then Failure(InvalidStoredCorrection(c.id))
      else
        Prepend(ByteSlice(raw, previousEnd, start.value) + c.replacement, RenderFrom(raw, ordered[1..], end.value))
  }

  function Render(raw: string, corrections: seq<AppliedCorrection>): Result<string, CorrectionError> {
    EndsAreBoundaries(raw);
    RenderFrom(raw, Sort(corrections, CorrectionLe), 0)
  }

  // ----- the two orders -----

  /** The comparator is total, and only identical candidates are equivalent. */
  lemma CandidateAntisymmetric(x: Candidate, y: Candidate)
    ensures CandidateLe(x, y) || CandidateLe(y, x)
    ensures CandidateLe(x, y) && CandidateLe(y, x) ==> x == y
  {
    StringLeTotal(x.replacement, y.replacement);
  }

  lemma CandidateOrder()
    ensures TotalPreorder(CandidateLe)
  {
    forall x: Candidate, y: Candidate ensures CandidateLe(x, y) || CandidateLe(y, x) {
      CandidateAntisymmetric(x, y);
    }
    forall x: Candidate, y: Candidate, z: Candidate | CandidateLe(x, y) && CandidateLe(y, z) ensures CandidateLe(x, z) {
      if StringLe(x.replacement, y.replacement) && StringLe(y.replacement, z.replacement) {
        StringLeTransitive(x.replacement, y.replacement, z.replacement);
        StringLeTotal(x.replacement, y.replacement);
      }
    }
  }

  lemma CorrectionOrder()
    ensures TotalPreorder(CorrectionLe)
  {
  }

  // ----- selected candidates are sliceable and disjoint -----

  lemma {:induction false} CandidatesValid(raw: string, boundaries: set<nat>, rule: CorrectionRule,
                                           ranges: seq<(nat, nat)>)
    requires WordBoundaries(raw, boundaries)
    requires forall r :: r in ranges ==> r.0 <= r.1
    ensures AllValid(raw, ToCandidates(boundaries, rule, ranges))
  {
    if ranges != [] {
      CandidatesValid(raw, boundaries, rule, ranges[1..]);
    }
  }

  lemma LocationsOrdered(raw: string, fold: FoldTable, variant: LexiconVariant)
    requires NonEmptyFold(fold)
    ensures forall r :: r in Locations(raw, Folded(fold, raw), variant) ==> r.0 <= r.1
  {
    match variant.matchMode
    case ExactCaseSensitive => ExactSearchSound(raw, variant.variantText);
    case ExactCasefold => FoldedSearchSound(fold, raw, variant.variantKey);
  }

  lemma {:induction false} ContributionsValid(raw: string, rules: seq<CorrectionRule>, boundaries: set<nat>,
                                              fold: FoldTable)
    requires WordBoundaries(raw, boundaries) && NonEmptyFold(fold)
    ensures AllValid(raw, Contributions(raw, boundaries, Folded(fold, raw), rules))
  {
    if rules != [] {
      LocationsOrdered(raw, fold, rules[0].variant);
      CandidatesValid(raw, boundaries, rules[0], Locations(raw, Folded(fold, raw), rules[0].variant));
      ContributionsValid(raw, rules[1..], boundaries, fold);
    }
  }

  lemma {:induction false} SelectFits(raw: string, candidates: seq<Candidate>, nextFreeByte: nat)
    requires AllValid(raw, candidates) && IsBoundary(raw, nextFreeByte)
    ensures Fits(raw, Select(candidates, nextFreeByte), nextFreeByte)
    decreases |candidates|
  {
    if candidates != [] {
      assert ValidCandidate(raw, candidates[0]);
      if candidates[0].startByte >= nextFreeByte {
        SelectFits(raw, candidates[1..], candidates[0].endByte);
      } else {
        SelectFits(raw, candidates[1..], nextFreeByte);
      }
    }
  }

  lemma SelectionFits(raw: string, rules: seq<CorrectionRule>, boundaries: set<nat>, fold: FoldTable)
    requires WordBoundaries(raw, boundaries) && NonEmptyFold(fold)
    ensures Fits(raw, Selected(Contributions(raw, boundaries, Folded(fold, raw), rules)), 0)
  {
    var candidates := Contributions(raw, boundaries, Folded(fold, raw), rules);
    ContributionsValid(raw, rules, boundaries, fold);
    SortElements(candidates, CandidateLe);
    EndsAreBoundaries(raw);
    SelectFits(raw, Sort(candidates, CandidateLe), 0);
  }

  // ----- the two entry points -----

  /** Greedy pass over sorted candidates. */
  method SelectGreedily(candidates: seq<Candidate>) returns (selected: seq<Candidate>)
    ensures selected == Select(candidates, 0)
  {
    selected := [];
    var nextFreeByte := 0;
    for i := 0 to |candidates|
      invariant Select(candidates, 0) == selected + Select(candidates[i..], nextFreeByte)
    {
      assert candidates[i..][1..] == candidates[i + 1..];
      if candidates[i].startByte >= nextFreeByte {
        nextFreeByte := candidates[i].endByte;
        selected := selected + [candidates[i]];
      }
    }
  }

  /** What the rewriting loop has produced, together with what is still to come, is the whole result. */
  ghost predicate Rewriting(raw: string, selected: seq<Candidate>, rest: seq<Candidate>, cursor: nat, text: string) {
    && Fits(raw, selected, 0) && Fits(raw, rest, cursor)
    && Rewrite(raw, selected, 0) == text + Rewrite(raw, rest, cursor)
  }

  lemma RewritingStep(raw: string, selected: seq<Candidate>, rest: seq<Candidate>, cursor: nat, text: string)
    requires Rewriting(raw, selected, rest, cursor, text) && rest != []
    ensures Rewriting(raw, selected, rest[1..], rest[0].endByte,
                      text + ByteSlice(raw, cursor, rest[0].startByte) + rest[0].replacement)
  {
  }

  /** Rewrites the text with one byte cursor and records every replacement by character offsets. */
  method RewriteSelected(raw: string, selected: seq<Candidate>, freshId: IdSource, appliedAt: int)
    returns (result: Result<CorrectionResult, CorrectionError>)
    requires Fits(raw, selected, 0)
    ensures result == match MakeCorrections(raw, selected, 0, freshId, 0, appliedAt)
                      case Failure(e) => Failure(e)
                      case Success(corrections) => Success(CorrectionResult(Rewrite(raw, selected, 0), corrections))
  {
    ghost var goal := MakeCorrections(raw, selected, 0, freshId, 0, appliedAt);
    var finalText, corrections, cursor, i := "", [], 0, 0;
    assert selected[0..] == selected;
    PrependNothing(goal);
    while i < |selected|
      invariant 0 <= i <= |selected|
      invariant Rewriting(raw, selected, selected[i..], cursor, finalText)
      invariant goal == Prepend(corrections, MakeCorrections(raw, selected[i..], cursor, freshId, i, appliedAt))
    {
      var c := selected[i];
      assert selected[i..][1..] == selected[i + 1..];
      var startChar, endChar := CharCountToU32(raw, c.startByte), CharCountToU32(raw, c.endByte);
      if startChar.None? || endChar.None? {
        return Failure(PositionTooLarge);
      }
      var correction := AppliedCorrection(freshId(i), c.variantId, ByteSlice(raw, c.startByte, c.endByte),
                                          c.replacement, startChar.value, endChar.value, appliedAt);
      PrependTwice(corrections, [correction],
                   MakeCorrections(raw, selected[i + 1..], c.endByte, freshId, i + 1, appliedAt));
      RewritingStep(raw, selected, selected[i..], cursor, finalText);
      finalText := finalText + ByteSlice(raw, cursor, c.startByte) + c.replacement;
      corrections := corrections + [correction];
      cursor, i := c.endByte, i + 1;
    }
    EndsAreBoundaries(raw);
    BoundaryOrder(raw, cursor, ByteLen(raw));
    assert corrections + [] == corrections;
    finalText := finalText + ByteSlice(raw, cursor, ByteLen(raw));
    result := Success(CorrectionResult(finalText, corrections));
  }

  method CollectCandidates(raw: string, rules: seq<CorrectionRule>, boundaries: set<nat>, folded: FoldedText)
    returns (result: Result<seq<Candidate>, CorrectionError>)
    ensures result == match FirstForeign(rules)
                      case Some(rule) => Failure(VariantBelongsToOtherEntry(rule.variant.id, rule.entry.id))
                      case None => Success(Contributions(raw, boundaries, folded, rules))
  {
    var candidates, i := [], 0;
    assert rules[0..] == rules;
    while i < |rules|
      invariant 0 <= i <= |rules|
      invariant FirstForeign(rules) == FirstForeign(rules[i..])
      invariant Contributions(raw, boundaries, folded, rules)
             == candidates + Contributions(raw, boundaries, folded, rules[i..])
    {
      var rule := rules[i];
      assert rules[i..][1..] == rules[i + 1..];
      if rule.variant.entryId != rule.entry.id {
        return Failure(VariantBelongsToOtherEntry(rule.variant.id, rule.entry.id));
      }
      ghost var before, rest := candidates, Contributions(raw, boundaries, folded, rules[i + 1..]);
      var found := Contribution(raw, boundaries, folded, rule);
      candidates := candidates + found;
      assert before + (found + rest) == candidates + rest;
      i := i + 1;
    }
    assert candidates + [] == candidates;
    result := Success(candidates);
  }

  method ApplyCorrections(raw: string, rules: seq<CorrectionRule>, boundaries: set<nat>, fold: FoldTable,
                          freshId: IdSource, appliedAt: int)
    returns (result: Result<CorrectionResult, CorrectionError>)
    requires WordBoundaries(raw, boundaries) && NonEmptyFold(fold)
    ensures result == Applied(raw, rules, boundaries, fold, freshId, appliedAt)
  {
    var folded := NewFoldedText(fold, raw);
    var collected := CollectCandidates(raw, rules, boundaries, folded);
    if collected.Failure? {
      return Failure(collected.error);
    }
    SelectionFits(raw, rules, boundaries, fold);
    var selected := SelectGreedily(Sort(collected.value, CandidateLe));
    result := RewriteSelected(raw, selected, freshId, appliedAt);
  }

  method RenderCorrections(raw: string, corrections: seq<AppliedCorrection>)
    returns (result: Result<string, CorrectionError>)
    ensures result == Render(raw, corrections)
  {
    EndsAreBoundaries(raw);
    var ordered := Sort(corrections, CorrectionLe);
    var output, previousEnd, i := "", 0, 0;
    assert ordered[0..] == ordered;
    PrependNothing(RenderFrom(raw, ordered, 0));
    while i < |ordered|
      invariant 0 <= i <= |ordered| && IsBoundary(raw, previousEnd)
      invariant Render(raw, corrections) == Prepend(output, RenderFrom(raw, ordered[i..], previousEnd))
    {
      var c := ordered[i];
      assert ordered[i..][1..] == ordered[i + 1..];
      OffsetAtCharIsBoundary(raw, c.startChar);
      OffsetAtCharIsBoundary(raw, c.endChar);
      var start, end := ByteOffsetAtChar(raw, c.startChar), ByteOffsetAtChar(raw, c.endChar);
      if start.None? || end.None? {
        return Failure(PositionTooLarge);
      }
      if start.value < previousEnd || start.value > end.value || ByteSlice(raw, start.value, end.value) != c.original {
        return Failure(InvalidStoredCorrection(c.id));
      }
      var piece := ByteSlice(raw, previousEnd, start.value) + c.replacement;
      PrependTwice(output, piece, RenderFrom(raw, ordered[i + 1..], end.value));
      output := output + piece;
      previousEnd, i := end.value, i + 1;
    }
    BoundaryOrder(raw, previousEnd, ByteLen(raw));
    result := Success(output + ByteSlice(raw, previousEnd, ByteLen(raw)));
  }
}
