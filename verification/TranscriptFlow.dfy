/** From correcting a transcript to storing it and taking every correction back. */
module TranscriptFlow {
  import opened Results
  import opened Sorting
  import opened Text
  import opened Search
  import opened Lexicon
  import opened Corrections
  import opened CorrectionLaws
  import opened RenderLaws
  import opened TranscriptStore

  /** New corrections are stored as active ones. */
  function StoredAs(corrections: seq<AppliedCorrection>): (r: seq<StoredCorrection>)
    ensures |r| == |corrections| && forall k :: 0 <= k < |r| ==> r[k] == StoredCorrection(corrections[k], None)
  {
    if corrections == [] then [] else [StoredCorrection(corrections[0], None)] + StoredAs(corrections[1..])
  }

  lemma {:induction false} StoredAreActive(corrections: seq<AppliedCorrection>)
    ensures Plain(Active(StoredAs(corrections))) == corrections
  {
    if corrections != [] { StoredAreActive(corrections[1..]); }
  }

  /** Identifiers that are pairwise different and not in the table. */
  ghost predicate NewIds(db: Database, freshId: IdSource) {
    && Unrepeated(freshId)
    && (forall i: nat, k :: 0 <= k < |db.corrections| ==> IdOf(db.corrections[k]) != freshId(i))
  }

  lemma {:induction false} InsertAllSucceeds(rows: seq<CorrectionRow>, id: nat, stored: seq<StoredCorrection>)
    requires forall m :: 0 <= m < |stored| ==> Insertable(rows, stored[m])
    requires forall m, n :: 0 <= m < n < |stored| ==> stored[m].correction.id != stored[n].correction.id
    ensures InsertAll(rows, id, stored).Success?
    decreases |stored|
  {
    if stored != [] {
      var more, rest := rows + [CorrectionRow(id, stored[0])], stored[1..];
      forall m | 0 <= m < |rest| ensures Insertable(more, rest[m]) {
        assert Insertable(rows, stored[m + 1]) && rest[m] == stored[m + 1];
      }
      InsertAllSucceeds(more, id, rest);
    }
  }

  lemma CorrectionsInsertable(db: Database, raw: string, selected: seq<Candidate>, freshId: IdSource, appliedAt: int,
                              id: nat)
    requires Fits(raw, selected, 0) && NewIds(db, freshId)
    requires MakeCorrections(raw, selected, 0, freshId, 0, appliedAt).Success?
    ensures var stored := StoredAs(MakeCorrections(raw, selected, 0, freshId, 0, appliedAt).value);
      InsertAll(db.corrections, id, stored).Success?
      && forall m, n :: 0 <= m < n < |stored| ==> stored[m].correction.id != stored[n].correction.id
  {
    var corrections := MakeCorrections(raw, selected, 0, freshId, 0, appliedAt).value;
    Recorded(raw, selected, 0, freshId, 0, appliedAt);
    var stored := StoredAs(corrections);
    forall m | 0 <= m < |stored|
      ensures Insertable(db.corrections, stored[m]) && stored[m].correction.id == freshId(m)
    {
      assert corrections[m].id == freshId(0 + m);
    }
    InsertAllSucceeds(db.corrections, id, stored);
  }

  function TranscriptOf(id: nat, raw: string, result: CorrectionResult): Transcript {
    Transcript(id, raw, result.finalText, StoredAs(result.corrections))
  }

  /** What the correction pass produces can always be saved under a new transcript id. */
  lemma AppliedSaves(db: Database, id: nat, raw: string, rules: seq<CorrectionRule>, boundaries: set<nat>,
                     fold: FoldTable,
                     freshId: IdSource, appliedAt: int)
    requires Sound(db) && id !in db.transcripts && NewIds(db, freshId)
    requires WordBoundaries(raw, boundaries) && NonEmptyFold(fold)
    requires TwinsCommute(SelectedFor(raw, rules, boundaries, fold))
    requires Applied(raw, rules, boundaries, fold, freshId, appliedAt).Success?
    ensures var result := Applied(raw, rules, boundaries, fold, freshId, appliedAt).value;
      var saved := Save(db, TranscriptOf(id, raw, result));
      && saved.Success? && Sound(saved.value) && id in saved.value.transcripts
      && saved.value.transcripts[id].rawText == raw && saved.value.transcripts[id].finalText == result.finalText
      && ActiveOf(saved.value, id) == result.corrections
  {
    var result := Applied(raw, rules, boundaries, fold, freshId, appliedAt).value;
    var candidates := Contributions(raw, boundaries, Folded(fold, raw), rules);
    var stored := StoredAs(result.corrections);
    RenderRebuildsApplied(raw, rules, boundaries, fold, freshId, appliedAt);
    StoredAreActive(result.corrections);
    SelectionFits(raw, rules, boundaries, fold);
    CorrectionsInsertable(db, raw, Selected(candidates), freshId, appliedAt, id);
    SaveKeepsSound(db, TranscriptOf(id, raw, result));
    InsertAllAppends(db.corrections, id, stored);
    NoForeignRows(db.corrections, id);
    assert [] + stored == stored;
  }

  lemma {:induction false} ActiveHasRow(rows: seq<CorrectionRow>, id: nat, c: AppliedCorrection)
    requires c in Plain(Active(RowsOf(rows, id)))
    ensures exists k :: 0 <= k < |rows| && IsActiveRow(rows[k], id, c.id)
  {
    var own := rows[0].transcriptId == id && rows[0].stored.revertedAt.None?;
    if own && rows[0].stored.correction == c {
      assert IsActiveRow(rows[0], id, c.id);
    } else {
      ActiveHasRow(rows[1..], id, c);
      var k :| 0 <= k < |rows[1..]| && IsActiveRow(rows[1..][k], id, c.id);
      assert rows[k + 1] == rows[1..][k];
    }
  }

  function IdsOf(corrections: seq<AppliedCorrection>): (r: seq<nat>)
    ensures |r| == |corrections| && forall k :: 0 <= k < |r| ==> r[k] == corrections[k].id
  {
    if corrections == [] then [] else [corrections[0].id] + IdsOf(corrections[1..])
  }

  /** The ids of the active corrections are exactly what can be reverted. */
  lemma IdsAreActive(db: Database, id: nat)
    ensures forall x :: x in IdsOf(ActiveOf(db, id)) ==> HasActive(db, id, x)
    ensures forall c :: c in ActiveOf(db, id) ==> c.id in IdsOf(ActiveOf(db, id))
  {
    var corrections := ActiveOf(db, id);
    var ids := IdsOf(corrections);
    forall x | x in ids ensures HasActive(db, id, x) {
      var k :| 0 <= k < |ids| && ids[k] == x;
      ActiveHasRow(db.corrections, id, corrections[k]);
    }
    forall c | c in corrections ensures c.id in ids {
      var k :| 0 <= k < |corrections| && corrections[k] == c;
      assert ids[k] == c.id;
    }
  }

  lemma AppliedIdsDistinct(raw: string, rules: seq<CorrectionRule>, boundaries: set<nat>, fold: FoldTable,
                           freshId: IdSource, appliedAt: int)
    requires WordBoundaries(raw, boundaries) && NonEmptyFold(fold)
    requires Unrepeated(freshId)
    requires Applied(raw, rules, boundaries, fold, freshId, appliedAt).Success?
    ensures Distinct(IdsOf(Applied(raw, rules, boundaries, fold, freshId, appliedAt).value.corrections))
  {
    var selected := Selected(Contributions(raw, boundaries, Folded(fold, raw), rules));
    SelectionFits(raw, rules, boundaries, fold);
    Recorded(raw, selected, 0, freshId, 0, appliedAt);
    var corrections := MakeCorrections(raw, selected, 0, freshId, 0, appliedAt).value;
    assert forall k :: 0 <= k < |corrections| ==> corrections[k].id == freshId(0 + k);
  }

  /** Correct, save, and revert every correction: the history shows the raw text again. */
  lemma CorrectSaveRevertAll(db: Database, id: nat, raw: string, rules: seq<CorrectionRule>, boundaries: set<nat>,
                             fold: FoldTable,
                             freshId: IdSource, appliedAt: int, now: int)
    requires Sound(db) && id !in db.transcripts && NewIds(db, freshId)
    requires WordBoundaries(raw, boundaries) && NonEmptyFold(fold)
    requires TwinsCommute(SelectedFor(raw, rules, boundaries, fold))
    requires Applied(raw, rules, boundaries, fold, freshId, appliedAt).Success?
    ensures var result := Applied(raw, rules, boundaries, fold, freshId, appliedAt).value;
      var saved := Save(db, TranscriptOf(id, raw, result));
      saved.Success? &&
      var reverted := RevertMany(saved.value, id, IdsOf(result.corrections), now);
      reverted.Success? && id in reverted.value.transcripts && reverted.value.transcripts[id].finalText == raw
  {
    AppliedSaves(db, id, raw, rules, boundaries, fold, freshId, appliedAt);
    AppliedIdsDistinct(raw, rules, boundaries, fold, freshId, appliedAt);
    var result := Applied(raw, rules, boundaries, fold, freshId, appliedAt).value;
    var saved := Save(db, TranscriptOf(id, raw, result)).value;
    IdsAreActive(saved, id);
    RevertAllRestoresRaw(saved, id, IdsOf(result.corrections), now);
  }
}
