/** The correction rules and prompt terms of a transcription, taken from the stored lexicon. */
module LexiconRules {
  import opened Results
  import opened Sorting
  import opened Text
  import opened Search
  import opened Lexicon
  import opened LexiconValidation
  import opened LexiconImport
  import opened LexiconImportLaws
  import opened LexiconTransfer
  import P = Prompts
  import opened Corrections
  import opened CorrectionLaws
  import opened RenderLaws
  import T = TranscriptStore
  import TranscriptFlow

  function RulesFor(e: LexiconEntry, variants: seq<LexiconVariant>): (r: seq<CorrectionRule>)
    ensures |r| == |variants| && forall k :: 0 <= k < |r| ==> r[k] == CorrectionRule(e, variants[k])
  {
    if variants == [] then [] else [CorrectionRule(e, variants[0])] + RulesFor(e, variants[1..])
  }

  function RulesOfEntry(db: LexiconDb, active: Option<nat>, e: LexiconEntry): seq<CorrectionRule> {
    if P.AppliesTo(e.scope, active) then RulesFor(e, Sort(OfEntry(db.variants, e.id), VariantLe)) else []
  }

  /** The rules of the entries that apply, entry by entry in query order. */
  function RulesOf(db: LexiconDb, active: Option<nat>, entries: seq<LexiconEntry>): seq<CorrectionRule> {
    if entries == [] then [] else RulesOfEntry(db, active, entries[0]) + RulesOf(db, active, entries[1..])
  }

  function Rules(db: LexiconDb, active: Option<nat>): seq<CorrectionRule> {
    RulesOf(db, active, Sort(db.entries, EntryLe))
  }

  method LexiconSnapshot(db: LexiconDb, active: Option<nat>) returns (prompt: seq<string>, rules: seq<CorrectionRule>)
    ensures prompt == P.Terms(P.Selected(Sort(db.entries, EntryLe), active))
    ensures rules == Rules(db, active)
  {
    var entries := Sort(db.entries, EntryLe);
    var selection := P.SelectPromptTerms(entries, active);
    prompt, rules := selection.terms, [];
    assert entries[0..] == entries;
    for i := 0 to |entries|
      invariant rules + RulesOf(db, active, entries[i..]) == Rules(db, active)
    {
      var e := entries[i];
      assert entries[i..][0] == e && entries[i..][1..] == entries[i + 1..];
      if !P.AppliesTo(e.scope, active) {
        assert [] + RulesOf(db, active, entries[i + 1..]) == RulesOf(db, active, entries[i + 1..]);
        continue;
      }
      rules := PushRules(e, Sort(OfEntry(db.variants, e.id), VariantLe), rules, RulesOf(db, active, entries[i + 1..]));
    }
    assert rules + [] == rules;
  }

  method PushRules(e: LexiconEntry, variants: seq<LexiconVariant>, rules: seq<CorrectionRule>,
                   ghost rest: seq<CorrectionRule>)
    returns (longer: seq<CorrectionRule>)
    ensures longer == rules + RulesFor(e, variants)
    ensures longer + rest == rules + (RulesFor(e, variants) + rest)
  {
    longer := rules;
    for k := 0 to |variants|
      invariant longer == rules + RulesFor(e, variants)[..k]
    {
      longer := longer + [CorrectionRule(e, variants[k])];
    }
  }

  lemma {:induction false} RulesForExact(e: LexiconEntry, variants: seq<LexiconVariant>, r: CorrectionRule)
    ensures r in RulesFor(e, variants) <==> r.entry == e && r.variant in variants
  {
    var rules := RulesFor(e, variants);
    if r.entry == e && r.variant in variants {
      var k :| 0 <= k < |variants| && variants[k] == r.variant;
      assert rules[k] == r;
    }
  }

  lemma {:induction false} RulesOfExact(db: LexiconDb, active: Option<nat>, entries: seq<LexiconEntry>,
                                        r: CorrectionRule)
    ensures r in RulesOf(db, active, entries) <==>
      r.entry in entries && P.AppliesTo(r.entry.scope, active) && r.variant in OfEntry(db.variants, r.entry.id)
  {
    if entries != [] {
      var e, rest := entries[0], entries[1..];
      var sorted := Sort(OfEntry(db.variants, e.id), VariantLe);
      RulesOfExact(db, active, rest, r);
      RulesForExact(e, sorted, r);
      SortElements(OfEntry(db.variants, e.id), VariantLe);
      assert r.entry in entries <==> r.entry == e || r.entry in rest;
    }
  }

  lemma {:induction false} OfEntryExact(variants: seq<LexiconVariant>, id: nat, v: LexiconVariant)
    ensures v in OfEntry(variants, id) <==> v in variants && v.entryId == id
  {
    if variants != [] { OfEntryExact(variants[1..], id, v); }
  }

  /** The rules of a transcription are exactly the pairs of a stored entry of the global scope or of the active profile
      and a stored variant of that entry. */
  lemma RulesExact(db: LexiconDb, active: Option<nat>, r: CorrectionRule)
    ensures r in Rules(db, active) <==>
      && r.entry in db.entries && r.variant in db.variants && r.variant.entryId == r.entry.id
      && (r.entry.scope == Global || (active.Some? && r.entry.scope == Profile(active.value)))
  {
    RulesOfExact(db, active, Sort(db.entries, EntryLe), r);
    OfEntryExact(db.variants, r.entry.id, r.variant);
    SortElements(db.entries, EntryLe);
  }

  // ----- rules of a sound lexicon are usable -----

  predicate Usable(rule: CorrectionRule) {
    rule.variant.variantText != [] && rule.variant.variantKey != [] && rule.variant.entryId == rule.entry.id
  }

  lemma StoredVariantNonEmpty(u: Unicode, v: LexiconVariant)
    requires KeepsText(u) && WellFormedVariant(v) && SettledVariant(u, v)
    ensures v.variantText != "" && v.variantKey != ""
  {
  }

  lemma EntryRulesUsable(u: Unicode, show: nat -> string, db: LexiconDb, active: Option<nat>, e: LexiconEntry)
    requires KeepsText(u) && Sound(show, db) && AllSettled(u, db)
    ensures forall r :: r in RulesOfEntry(db, active, e) ==> Usable(r)
  {
    var own := OfEntry(db.variants, e.id);
    var sorted := Sort(own, VariantLe);
    SortElements(own, VariantLe);
    OfEntryMembers(db.variants, e.id);
    OfEntryOwn(db.variants, e.id);
    forall k | 0 <= k < |sorted| ensures Usable(CorrectionRule(e, sorted[k])) {
      assert sorted[k] in sorted && sorted[k] in own && sorted[k] in db.variants;
      StoredVariantNonEmpty(u, sorted[k]);
    }
  }

  lemma {:induction false} RulesOfUsable(u: Unicode, show: nat -> string, db: LexiconDb, active: Option<nat>,
                                         entries: seq<LexiconEntry>)
    requires KeepsText(u) && Sound(show, db) && AllSettled(u, db)
    ensures forall r :: r in RulesOf(db, active, entries) ==> Usable(r)
  {
    if entries != [] {
      EntryRulesUsable(u, show, db, active, entries[0]);
      RulesOfUsable(u, show, db, active, entries[1..]);
    }
  }

  /** Every rule taken from a lexicon built by imports has a non-empty variant of its own entry. */
  lemma RulesUsable(u: Unicode, show: nat -> string, db: LexiconDb, active: Option<nat>)
    requires KeepsText(u) && Sound(show, db) && AllSettled(u, db)
    ensures NonEmptyVariants(Rules(db, active)) && OwnVariants(Rules(db, active))
  {
    RulesOfUsable(u, show, db, active, Sort(db.entries, EntryLe));
  }

  // ----- corrections by a stored lexicon -----

  /** With the rules of a stored lexicon the pass fails only on positions beyond 32 bits; otherwise rendering its
      corrections gives its final text, and the transcript can be saved. */
  lemma StoredLexiconCorrects(u: Unicode, show: nat -> string, lexicon: LexiconDb, active: Option<nat>, db: T.Database,
                              id: nat, raw: string, boundaries: set<nat>, fold: FoldTable, freshId: IdSource,
                              appliedAt: int)
    requires KeepsText(u) && Sound(show, lexicon) && AllSettled(u, lexicon)
    requires WordBoundaries(raw, boundaries) && NonEmptyFold(fold)
    requires T.Sound(db) && id !in db.transcripts && TranscriptFlow.NewIds(db, freshId)
    ensures match Applied(raw, Rules(lexicon, active), boundaries, fold, freshId, appliedAt)
      case Failure(e) => e == PositionTooLarge && |raw| > U32_MAX
      case Success(result) =>
        Render(raw, result.corrections) == Success(result.finalText)
        && T.Save(db, TranscriptFlow.TranscriptOf(id, raw, result)).Success?
  {
    var rules := Rules(lexicon, active);
    RulesUsable(u, show, lexicon, active);
    ForeignFound(rules);
    SelectionFits(raw, rules, boundaries, fold);
    NoEmptyNoTwins(raw, rules, boundaries, fold);
    if Applied(raw, rules, boundaries, fold, freshId, appliedAt).Success? {
      RenderRebuildsApplied(raw, rules, boundaries, fold, freshId, appliedAt);
      TranscriptFlow.AppliedSaves(db, id, raw, rules, boundaries, fold, freshId, appliedAt);
    } else {
      OnlyTooLarge(raw, SelectedFor(raw, rules, boundaries, fold), 0, freshId, 0, appliedAt);
    }
  }

  // ----- does a variant match itself -----

  /** Folding a text folds its characters one by one with this table. */
  ghost predicate FoldsBy(u: Unicode, fold: FoldTable) {
    forall s :: u.fold(s) == FoldText(fold, s)
  }

  predicate FoundWhole(fold: FoldTable, raw: string, v: LexiconVariant) {
    (0, ByteLen(raw)) in Locations(raw, Folded(fold, raw), v)
  }

  lemma WholeIsFirst(t: string)
    requires t != ""
    ensures MatchIndices(t, t, 0) == [0] && MatchRanges(t, t) == [(0, ByteLen(t))]
  {
    assert t[0..|t|] == t && t[..|t|] == t && t[..0] == "";
    assert MatchIndices(t, t, |t|) == [];
    MatchRangeAt(t, t, 0);
    assert |MatchRanges(t, t)| == 1;
  }

  lemma FoldedWhole(fold: FoldTable, raw: string, key: string)
    requires NonEmptyFold(fold) && raw != "" && key != ""
    ensures (0, ByteLen(raw)) in FindAll(Folded(fold, raw), key) <==> key == FoldText(fold, raw)
  {
    assert raw[..|raw|] == raw && raw[..0] == "";
    if key == FoldText(fold, raw) {
      WholeIsFirst(key);
      FoldedSearchComplete(fold, raw, key, 0, 0, |raw|);
    }
    if (0, ByteLen(raw)) in FindAll(Folded(fold, raw), key) {
      FoldedSearchSound(fold, raw, key);
      assert FoldsTo(fold, raw, key, (0, ByteLen(raw)));
      EndsAreBoundaries(raw);
    }
  }

  /** A validated variant is found as a whole in its own text if it is case-sensitive, and otherwise if and only if
      composing its folded text changes nothing: keys are composed, but the folded text they are looked up in is not. */
  lemma VariantFindsItself(u: Unicode, fold: FoldTable, id: nat, entryId: nat, draft: LexiconVariantDraft)
    requires KeepsText(u) && NonEmptyFold(fold) && FoldsBy(u, fold) && NewVariant(u, id, entryId, draft).Success?
    ensures var v := NewVariant(u, id, entryId, draft).value;
      var folded := FoldText(fold, v.variantText);
      FoundWhole(fold, v.variantText, v) <==> draft.matchMode == ExactCaseSensitive || u.nfc(folded) == folded
  {
    var v := NewVariant(u, id, entryId, draft).value;
    DisplayTextTrimmed(u, draft.variantText, VariantText);
    NewVariantNonEmpty(u, id, entryId, draft);
    match draft.matchMode
    case ExactCaseSensitive => WholeIsFirst(v.variantText);
    case ExactCasefold => FoldedWhole(fold, v.variantText, v.variantKey);
  }

  const J_CARON: string := "\U{01F0}"
  const J_AND_CARON: string := "j\U{030C}"

  /** The letter j with caron folds to two characters, which compose to the letter again: a variant of that letter that
      ignores case is accepted, but not found in its own text. */
  lemma ComposedKeyIsNotFound(u: Unicode, fold: FoldTable, id: nat, entryId: nat)
    requires KeepsText(u) && NonEmptyFold(fold) && FoldsBy(u, fold)
    requires fold('\U{01F0}') == J_AND_CARON && u.nfc(J_AND_CARON) == J_CARON && u.nfc(J_CARON) == J_CARON
    ensures var r := NewVariant(u, id, entryId, LexiconVariantDraft(J_CARON, ExactCasefold));
      r.Success? && r.value.variantText == J_CARON && !FoundWhole(fold, J_CARON, r.value)
  {
    var draft := LexiconVariantDraft(J_CARON, ExactCasefold);
    CollapseExact(["", ""], [J_CARON]);
    assert Interleave(["", ""], [J_CARON]) == J_CARON && Join([J_CARON], " ") == J_CARON;
    assert FoldText(fold, J_CARON) == J_AND_CARON + "" == J_AND_CARON;
    assert |J_CARON| != |J_AND_CARON|;
    VariantFindsItself(u, fold, id, entryId, draft);
  }
}
