/** From the tables to a sheet and back: what an export can restore. */
module LexiconTransfer {
  import opened Results
  import opened Sorting
  import opened Text
  import opened Lexicon
  import opened LexiconValidation
  import opened Csv
  import opened LexiconCsv
  import opened LexiconCsvImport
  import opened LexiconImport
  import opened LexiconImportLaws

  // ----- export -----

  predicate VariantLe(a: LexiconVariant, b: LexiconVariant) {
    StringLe(a.variantKey, b.variantKey) && (a.variantKey == b.variantKey ==> a.id <= b.id)
  }

  function OfEntry(variants: seq<LexiconVariant>, entryId: nat): seq<LexiconVariant> {
    if variants == [] then []
    else if variants[0].entryId == entryId then [variants[0]] + OfEntry(variants[1..], entryId)
    else OfEntry(variants[1..], entryId)
  }

  function VariantDrafts(variants: seq<LexiconVariant>): (r: seq<LexiconVariantDraft>)
    ensures |r| == |variants|
    ensures forall k :: 0 <= k < |r| ==> r[k] == LexiconVariantDraft(variants[k].variantText, variants[k].matchMode)
  {
    if variants == [] then []
    else [LexiconVariantDraft(variants[0].variantText, variants[0].matchMode)] + VariantDrafts(variants[1..])
  }

  function DraftWith(e: LexiconEntry, variants: seq<LexiconVariant>): LexiconEntryDraft {
    LexiconEntryDraft(e.canonicalText, e.language, e.category, e.priority, e.enabled, e.scope, VariantDrafts(variants))
  }

  /** An entry with its variants in the order of the query. */
  function DraftOf(variants: seq<LexiconVariant>, e: LexiconEntry): LexiconEntryDraft {
    DraftWith(e, Sort(OfEntry(variants, e.id), VariantLe))
  }

  function DraftsOf(variants: seq<LexiconVariant>, entries: seq<LexiconEntry>): (r: seq<LexiconEntryDraft>)
    ensures |r| == |entries| && forall k :: 0 <= k < |r| ==> r[k] == DraftOf(variants, entries[k])
  {
    if entries == [] then [] else [DraftOf(variants, entries[0])] + DraftsOf(variants, entries[1..])
  }

  function ExportDrafts(db: LexiconDb): seq<LexiconEntryDraft> {
    DraftsOf(db.variants, Sort(db.entries, EntryLe))
  }

  method ExportLexicon(f: Formats, db: LexiconDb) returns (csv: string)
    requires Faithful(f) && forall e :: e in db.entries ==> e.priority <= MAX_PRIORITY
    ensures csv == PrintRecords(Sheet(f, ExportDrafts(db)))
  {
    var entries := Sort(db.entries, EntryLe);
    SortElements(db.entries, EntryLe);
    var drafts: seq<LexiconEntryDraft> := [];
    for k := 0 to |entries|
      invariant |drafts| == k && forall j :: 0 <= j < k ==> drafts[j] == DraftOf(db.variants, entries[j])
    {
      drafts := drafts + [DraftOf(db.variants, entries[k])];
    }
    assert drafts == ExportDrafts(db);
    forall d | d in drafts ensures d.priority <= 255 {
      var k :| 0 <= k < |drafts| && drafts[k] == d;
      assert entries[k] in entries;
    }
    csv := LexiconToCsv(f, drafts);
  }

  // ----- stored text is settled -----

  /** Validating stored text again changes nothing. */
  predicate Settled(u: Unicode, e: LexiconEntry) {
    && BoundedText(u, e.canonicalText, CanonicalText, MAX_TERM_CHARS) == Success(e.canonicalText)
    && OptionalLanguage(u, e.language) == Success(e.language)
    && OptionalCategory(u, e.category) == Success(e.category)
    && e.canonicalKey == CasefoldKey(u, e.canonicalText)
  }

  predicate SettledVariant(u: Unicode, v: LexiconVariant) {
    && BoundedText(u, v.variantText, VariantText, MAX_TERM_CHARS) == Success(v.variantText)
    && v.variantKey == if v.matchMode.ExactCasefold? then CasefoldKey(u, v.variantText) else v.variantText
  }

  ghost predicate VariantsSettled(u: Unicode, variants: seq<LexiconVariant>) {
    forall k :: 0 <= k < |variants| ==> SettledVariant(u, variants[k])
  }

  ghost predicate AllSettled(u: Unicode, db: LexiconDb) {
    && (forall k :: 0 <= k < |db.entries| ==> Settled(u, db.entries[k]))
    && VariantsSettled(u, db.variants)
  }

  /** Composed text stays composed when its whitespace is collapsed, and ASCII text is composed. */
  ghost predicate UnicodeLaws(u: Unicode) {
    && (forall s :: u.nfc(Collapse(u.nfc(s))) == Collapse(u.nfc(s)))
    && (forall s :: (forall k :: 0 <= k < |s| ==> s[k] as int < 0x80) ==> u.nfc(s) == s)
  }

  lemma {:induction false} SplitWord(w: string, word: string, tail: string)
    requires forall k :: 0 <= k < |w| ==> !IsWhitespace(w[k])
    ensures SplitWhitespace(w + tail, word) == SplitWhitespace(tail, word + w)
    decreases |w|
  {
    if w == "" {
      assert w + tail == tail && word + w == word;
    } else {
      assert (w + tail)[0] == w[0] && (w + tail)[1..] == w[1..] + tail;
      SplitWord(w[1..], word + [w[0]], tail);
      assert (word + [w[0]]) + w[1..] == word + w;
    }
  }

  lemma SplitOne(w: string)
    requires IsWord(w)
    ensures SplitWhitespace(w, "") == [w]
  {
    SplitWord(w, "", "");
    assert w + "" == w && "" + w == w;
  }

  lemma SplitFirst(w: string, rest: string)
    requires IsWord(w)
    ensures SplitWhitespace(w + " " + rest, "") == [w] + SplitWhitespace(rest, "")
  {
    var tail := " " + rest;
    SplitWord(w, "", tail);
    assert w + " " + rest == w + tail && "" + w == w;
    assert tail[0] == ' ' && tail[1..] == rest;
  }

  lemma {:induction false} SplitJoined(words: seq<string>)
    requires forall w :: w in words ==> IsWord(w)
    ensures SplitWhitespace(Join(words, " "), "") == words
  {
    if words == [] {
    } else {
      assert words[0] in words;
      assert words == [words[0]] + words[1..];
      if |words| == 1 {
        SplitOne(words[0]);
      } else {
        SplitJoined(words[1..]);
        SplitFirst(words[0], Join(words[1..], " "));
      }
    }
  }

  /** Collapsing whitespace is idempotent. */
  lemma CollapseTwice(s: string)
    ensures Collapse(Collapse(s)) == Collapse(s)
  {
    SplitIntoWords(s, "");
    SplitJoined(SplitWhitespace(s, ""));
  }

  lemma BoundedTextSettles(u: Unicode, s: string, field: Field, max: nat)
    requires UnicodeLaws(u)
    ensures var r := BoundedText(u, s, field, max); r.Success? ==> BoundedText(u, r.value, field, max) == r
  {
    CollapseTwice(u.nfc(s));
    assert u.nfc(Collapse(u.nfc(s))) == Collapse(u.nfc(s));
  }

  lemma {:induction false} LowerTwice(s: string)
    ensures ToAsciiLower(ToAsciiLower(s)) == ToAsciiLower(s)
  {
    if s != "" {
      LowerTwice(s[1..]);
      assert ToAsciiLower(s)[1..] == ToAsciiLower(s[1..]);
    }
  }

  lemma TagIsWord(u: Unicode, s: string)
    requires UnicodeLaws(u) && LanguageTag(s)
    ensures Trimmed(s) && DisplayText(u, s, Language) == Success(s)
  {
    forall k | 0 <= k < |s| ensures s[k] as int < 0x80 && !IsWhitespace(s[k]) {
      assert s[k] in s;
    }
    assert IsWord(s);
    SplitJoined([s]);
  }

  lemma LanguageSettles(u: Unicode, language: Option<string>)
    requires UnicodeLaws(u)
    ensures var r := OptionalLanguage(u, language); r.Success? ==> OptionalLanguage(u, r.value) == r
  {
    var r := OptionalLanguage(u, language);
    if r.Success? && language.Some? {
      DisplayTextTrimmed(u, language.value, Language);
      LowerLength(Collapse(u.nfc(language.value)));
      LowerTwice(Collapse(u.nfc(language.value)));
      TagIsWord(u, r.value.value);
    }
  }

  /** Whatever passes validation is settled. */
  lemma NewEntrySettled(u: Unicode, id: nat, draft: LexiconEntryDraft)
    requires UnicodeLaws(u)
    ensures var r := NewEntry(u, id, draft); r.Success? ==> Settled(u, r.value)
  {
    BoundedTextSettles(u, draft.canonicalText, CanonicalText, MAX_TERM_CHARS);
    LanguageSettles(u, draft.language);
    if draft.category.Some? { BoundedTextSettles(u, draft.category.value, Category, MAX_CATEGORY_CHARS); }
  }

  lemma NewVariantSettled(u: Unicode, id: nat, entryId: nat, draft: LexiconVariantDraft)
    requires UnicodeLaws(u)
    ensures var r := NewVariant(u, id, entryId, draft); r.Success? ==> SettledVariant(u, r.value)
  {
    BoundedTextSettles(u, draft.variantText, VariantText, MAX_TERM_CHARS);
  }

  ghost predicate SettledForm(u: Unicode, d: ValidatedEntryDraft) {
    Settled(u, d.entry) && VariantsSettled(u, d.variants)
  }

  lemma SettledFirst(u: Unicode, v: LexiconVariant, rest: seq<LexiconVariant>)
    requires SettledVariant(u, v) && VariantsSettled(u, rest)
    ensures VariantsSettled(u, [v] + rest)
  {
  }

  lemma {:induction false} NewVariantsAllSettled(u: Unicode, ids: NewIds, drafts: seq<LexiconVariantDraft>, k: nat)
    requires UnicodeLaws(u) && k <= |drafts|
    ensures var r := NewVariants(u, ids, drafts, k); r.Success? ==> VariantsSettled(u, r.value)
    decreases |drafts| - k
  {
    if k < |drafts| {
      var first, rest := NewVariant(u, ids.variantId(k), ids.entryId, drafts[k]), NewVariants(u, ids, drafts, k + 1);
      NewVariantSettled(u, ids.variantId(k), ids.entryId, drafts[k]);
      NewVariantsAllSettled(u, ids, drafts, k + 1);
      if first.Success? && rest.Success? { SettledFirst(u, first.value, rest.value); }
    }
  }

  lemma ValidateSettles(u: Unicode, ids: NewIds, draft: LexiconEntryDraft)
    requires UnicodeLaws(u)
    ensures var r := Validate(u, ids, draft); r.Success? ==> SettledForm(u, r.value)
  {
    NewEntrySettled(u, ids.entryId, draft);
    NewVariantsAllSettled(u, ids, draft.variants, 0);
  }

  lemma {:induction false} ValidatedSettle(u: Unicode, ids: nat -> NewIds, drafts: seq<LexiconEntryDraft>, k: nat)
    requires UnicodeLaws(u) && k <= |drafts|
    ensures forall d :: d in Validated(u, ids, drafts, k) ==> SettledForm(u, d)
    decreases |drafts| - k
  {
    if k < |drafts| {
      ValidateSettles(u, ids(k), drafts[k]);
      ValidatedSettle(u, ids, drafts, k + 1);
    }
  }

  lemma {:induction false} AddedMembers(show: nat -> string, known: set<string>, drafts: seq<ValidatedEntryDraft>)
    ensures forall d :: d in Added(show, known, drafts) ==> d in drafts
    decreases |drafts|
  {
    if drafts != [] {
      AddedMembers(show, known, drafts[1..]);
      AddedMembers(show, known + {IdentityKey(show, drafts[0].entry)}, drafts[1..]);
    }
  }

  lemma {:induction false} AppendedSettled(u: Unicode, added: seq<ValidatedEntryDraft>)
    requires forall d :: d in added ==> SettledForm(u, d)
    ensures forall e :: e in EntriesOf(added) ==> Settled(u, e)
    ensures forall v :: v in KeptVariants(added) ==> SettledVariant(u, v)
  {
    if added != [] {
      assert added[0] in added;
      UniqueSubset(added[0].variants, {});
      AppendedSettled(u, added[1..]);
    }
  }

  /** Imports only ever store settled text, so every lexicon built by imports can be exported and restored. */
  lemma ImportKeepsSettled(u: Unicode, show: nat -> string, ids: nat -> NewIds, db: LexiconDb,
                           drafts: seq<LexiconEntryDraft>)
    requires UnicodeLaws(u) && Sound(show, db) && AllSettled(u, db)
    ensures var r := ImportDrafts(u, show, ids, db, drafts);
      r.Success? ==> Sound(show, r.value.db) && AllSettled(u, r.value.db)
  {
    var r := ImportDrafts(u, show, ids, db, drafts);
    if r.Success? {
      var validated := Validated(u, ids, drafts, 0);
      var added := Added(show, Identities(show, db.entries), validated);
      ImportExact(u, show, ids, db, drafts);
      ValidatedSettle(u, ids, drafts, 0);
      AddedMembers(show, Identities(show, db.entries), validated);
      AppendedSettled(u, added);
      SettledAppend(u, db, added);
    }
  }

  lemma SettledAppend(u: Unicode, db: LexiconDb, added: seq<ValidatedEntryDraft>)
    requires AllSettled(u, db)
    requires forall e :: e in EntriesOf(added) ==> Settled(u, e)
    requires forall v :: v in KeptVariants(added) ==> SettledVariant(u, v)
    ensures AllSettled(u, Appended(db, added))
  {
    var after := Appended(db, added);
    forall k | 0 <= k < |after.entries| ensures Settled(u, after.entries[k]) {
      if k >= |db.entries| { assert after.entries[k] == EntriesOf(added)[k - |db.entries|]; }
    }
    forall k | 0 <= k < |after.variants| ensures SettledVariant(u, after.variants[k]) {
      if k >= |db.variants| { assert after.variants[k] == KeptVariants(added)[k - |db.variants|]; }
    }
  }

  // ----- drafts that validation leaves alone -----

  predicate SettledVariantDraft(u: Unicode, v: LexiconVariantDraft) {
    BoundedText(u, v.variantText, VariantText, MAX_TERM_CHARS) == Success(v.variantText)
  }

  predicate SettledDraft(u: Unicode, d: LexiconEntryDraft) {
    && d.priority <= MAX_PRIORITY
    && BoundedText(u, d.canonicalText, CanonicalText, MAX_TERM_CHARS) == Success(d.canonicalText)
    && OptionalLanguage(u, d.language) == Success(d.language)
    && OptionalCategory(u, d.category) == Success(d.category)
    && forall k :: 0 <= k < |d.variants| ==> SettledVariantDraft(u, d.variants[k])
  }

  function EntryFrom(u: Unicode, id: nat, d: LexiconEntryDraft): LexiconEntry {
    LexiconEntry(id, d.canonicalText, CasefoldKey(u, d.canonicalText), d.language, d.category, d.priority, d.enabled,
                 d.scope)
  }

  function VariantFrom(u: Unicode, ids: NewIds, k: nat, d: LexiconVariantDraft): LexiconVariant {
    LexiconVariant(ids.variantId(k), ids.entryId, d.variantText,
                   if d.matchMode.ExactCasefold? then CasefoldKey(u, d.variantText) else d.variantText, d.matchMode)
  }

  ghost predicate VariantForms(u: Unicode, ids: NewIds, drafts: seq<LexiconVariantDraft>, k: nat,
                               v: seq<LexiconVariant>) {
    k + |v| == |drafts| && forall j :: k <= j < |drafts| ==> v[j - k] == VariantFrom(u, ids, j, drafts[j])
  }

  lemma VariantFormsFirst(u: Unicode, ids: NewIds, drafts: seq<LexiconVariantDraft>, k: nat, rest: seq<LexiconVariant>)
    requires k < |drafts| && VariantForms(u, ids, drafts, k + 1, rest)
    ensures VariantForms(u, ids, drafts, k, [VariantFrom(u, ids, k, drafts[k])] + rest)
  {
  }

  lemma {:induction false} NewVariantsSettled(u: Unicode, ids: NewIds, drafts: seq<LexiconVariantDraft>, k: nat)
    requires k <= |drafts| && forall j :: 0 <= j < |drafts| ==> SettledVariantDraft(u, drafts[j])
    ensures var r := NewVariants(u, ids, drafts, k); r.Success? && VariantForms(u, ids, drafts, k, r.value)
    decreases |drafts| - k
  {
    if k < |drafts| {
      assert SettledVariantDraft(u, drafts[k]);
      NewVariantsSettled(u, ids, drafts, k + 1);
      assert NewVariant(u, ids.variantId(k), ids.entryId, drafts[k]) == Success(VariantFrom(u, ids, k, drafts[k]));
      VariantFormsFirst(u, ids, drafts, k, NewVariants(u, ids, drafts, k + 1).value);
    }
  }

  /** The validated form of a settled draft. */
  predicate FormOf(u: Unicode, ids: NewIds, d: LexiconEntryDraft, v: ValidatedEntryDraft) {
    && v.entry == EntryFrom(u, ids.entryId, d)
    && |v.variants| == |d.variants|
    && forall j :: 0 <= j < |d.variants| ==> v.variants[j] == VariantFrom(u, ids, j, d.variants[j])
  }

  lemma ValidateSettled(u: Unicode, ids: NewIds, d: LexiconEntryDraft)
    requires SettledDraft(u, d)
    ensures var r := Validate(u, ids, d); r.Success? && FormOf(u, ids, d, r.value)
  {
    NewVariantsSettled(u, ids, d.variants, 0);
    var v := NewVariants(u, ids, d.variants, 0).value;
    assert forall j :: 0 <= j < |d.variants| ==> v[j - 0] == VariantFrom(u, ids, j, d.variants[j]);
  }

  /** The validated forms of the settled drafts from position `k` on. */
  ghost predicate FormsOf(u: Unicode, ids: nat -> NewIds, drafts: seq<LexiconEntryDraft>, k: nat,
                          v: seq<ValidatedEntryDraft>) {
    k + |v| == |drafts| && forall j :: k <= j < |drafts| ==> FormOf(u, ids(j), drafts[j], v[j - k])
  }

  lemma FormsFirst(u: Unicode, ids: nat -> NewIds, drafts: seq<LexiconEntryDraft>, k: nat, first: ValidatedEntryDraft,
                   rest: seq<ValidatedEntryDraft>)
    requires k < |drafts| && FormOf(u, ids(k), drafts[k], first) && FormsOf(u, ids, drafts, k + 1, rest)
    ensures FormsOf(u, ids, drafts, k, [first] + rest)
  {
  }

  lemma ValidatedStep(u: Unicode, ids: nat -> NewIds, drafts: seq<LexiconEntryDraft>, k: nat)
    requires k < |drafts| && SettledDraft(u, drafts[k])
    ensures Refused(u, ids, drafts, k) == Refused(u, ids, drafts, k + 1)
    ensures Validate(u, ids(k), drafts[k]).Success?
    ensures FormOf(u, ids(k), drafts[k], Validate(u, ids(k), drafts[k]).value)
    ensures Validated(u, ids, drafts, k) == [Validate(u, ids(k), drafts[k]).value] + Validated(u, ids, drafts, k + 1)
  {
    ValidateSettled(u, ids(k), drafts[k]);
  }

  /** From draft `k` on nothing is refused, and the validated drafts say what the drafts say. */
  ghost predicate AllValidate(u: Unicode, ids: nat -> NewIds, drafts: seq<LexiconEntryDraft>, k: nat)
    requires k <= |drafts|
  {
    Refused(u, ids, drafts, k) == [] && FormsOf(u, ids, drafts, k, Validated(u, ids, drafts, k))
  }

  lemma ValidateOneMore(u: Unicode, ids: nat -> NewIds, drafts: seq<LexiconEntryDraft>, k: nat)
    requires k < |drafts| && SettledDraft(u, drafts[k]) && AllValidate(u, ids, drafts, k + 1)
    ensures AllValidate(u, ids, drafts, k)
  {
    ValidatedStep(u, ids, drafts, k);
    FormsFirst(u, ids, drafts, k, Validate(u, ids(k), drafts[k]).value, Validated(u, ids, drafts, k + 1));
  }

  lemma {:induction false} ValidateFrom(u: Unicode, ids: nat -> NewIds, drafts: seq<LexiconEntryDraft>, k: nat)
    requires k <= |drafts| && forall i :: k <= i < |drafts| ==> SettledDraft(u, drafts[i])
    ensures AllValidate(u, ids, drafts, k)
    decreases |drafts| - k
  {
    if k < |drafts| {
      ValidateFrom(u, ids, drafts, k + 1);
      ValidateOneMore(u, ids, drafts, k);
    }
  }

  lemma ValidateAllSettled(u: Unicode, ids: nat -> NewIds, drafts: seq<LexiconEntryDraft>)
    requires forall d :: d in drafts ==> SettledDraft(u, d)
    ensures Refused(u, ids, drafts, 0) == [] && FormsOf(u, ids, drafts, 0, Validated(u, ids, drafts, 0))
  {
    ValidateFrom(u, ids, drafts, 0);
  }

  function DraftIdentity(u: Unicode, show: nat -> string, d: LexiconEntryDraft): string {
    IdentityKey(show, EntryFrom(u, 0, d))
  }

  // ----- what is exported -----

  lemma {:induction false} OfEntryMembers(variants: seq<LexiconVariant>, entryId: nat)
    ensures forall v :: v in OfEntry(variants, entryId) ==> v in variants
  {
    if variants != [] { OfEntryMembers(variants[1..], entryId); }
  }

  lemma TagTrimmed(s: string)
    requires LanguageTag(s)
    ensures Trimmed(s)
  {
    assert s[0] in s && s[|s| - 1] in s;
  }

  /** The draft of a stored entry survives the sheet and validation unchanged. */
  lemma ExportedDraft(u: Unicode, show: nat -> string, db: LexiconDb, e: LexiconEntry)
    requires Sound(show, db) && AllSettled(u, db) && e in db.entries
    ensures var d := DraftOf(db.variants, e);
      Normalised(d) && SettledDraft(u, d) && DraftIdentity(u, show, d) == IdentityKey(show, e)
  {
    var own := OfEntry(db.variants, e.id);
    var sorted := Sort(own, VariantLe);
    OfEntryMembers(db.variants, e.id);
    SortElements(own, VariantLe);
    forall k | 0 <= k < |sorted| ensures WellFormedVariant(sorted[k]) && SettledVariant(u, sorted[k]) {
      assert sorted[k] in sorted && sorted[k] in db.variants;
    }
    if e.language.Some? { TagTrimmed(e.language.value); }
    var d := DraftOf(db.variants, e);
    forall k | 0 <= k < |d.variants| ensures SettledVariantDraft(u, d.variants[k]) {
      assert SettledVariant(u, sorted[k]);
    }
    forall v | v in d.variants ensures v.variantText != "" && Trimmed(v.variantText) {
      var k :| 0 <= k < |d.variants| && d.variants[k] == v;
      assert WellFormedVariant(sorted[k]);
    }
  }

  ghost predicate Exportable(u: Unicode, show: nat -> string, db: LexiconDb, d: LexiconEntryDraft) {
    && Normalised(d) && SettledDraft(u, d)
    && HasIdentity(show, db.entries, DraftIdentity(u, show, d))
    && (d.scope.Profile? ==> d.scope.profileId in db.profiles)
  }

  lemma ExportedAll(u: Unicode, show: nat -> string, db: LexiconDb)
    requires Sound(show, db) && AllSettled(u, db)
    ensures forall d :: d in ExportDrafts(db) ==> Exportable(u, show, db, d)
  {
    var entries, drafts := Sort(db.entries, EntryLe), ExportDrafts(db);
    SortElements(db.entries, EntryLe);
    forall d | d in drafts ensures Exportable(u, show, db, d) {
      var k :| 0 <= k < |drafts| && drafts[k] == d;
      assert entries[k] in entries && entries[k] in db.entries;
      ExportedDraft(u, show, db, entries[k]);
    }
  }

  /** Exported drafts have pairwise distinct identities. */
  lemma ExportedIdentities(u: Unicode, show: nat -> string, db: LexiconDb)
    requires Sound(show, db) && AllSettled(u, db)
    ensures DistinctBy(ExportDrafts(db), d => DraftIdentity(u, show, d))
  {
    var entries, drafts := Sort(db.entries, EntryLe), ExportDrafts(db);
    var key := (e: LexiconEntry) => IdentityKey(show, e);
    SortPermutes(db.entries, EntryLe);
    SortElements(db.entries, EntryLe);
    assert DistinctBy(db.entries, key);
    DistinctByPermutes(db.entries, entries, key);
    forall i, j | 0 <= i < j < |drafts| ensures DraftIdentity(u, show, drafts[i]) != DraftIdentity(u, show, drafts[j]) {
      assert entries[i] in entries && entries[j] in entries;
      ExportedDraft(u, show, db, entries[i]);
      ExportedDraft(u, show, db, entries[j]);
      assert key(entries[i]) != key(entries[j]);
    }
  }

  /** Without bars in the text fields the exported entries have distinct grouping keys. */
  lemma NoBarsDistinct(u: Unicode, f: Formats, db: LexiconDb)
    requires Sound(f.showProfile, db) && AllSettled(u, db)
    requires forall d :: d in ExportDrafts(db) ==> NoBars(d)
    requires forall a, b :: f.debugScope(a) == f.debugScope(b) ==> a == b
    ensures DistinctKeys(f, ExportDrafts(db))
  {
    var drafts := ExportDrafts(db);
    var key := d => DraftIdentity(u, f.showProfile, d);
    ExportedAll(u, f.showProfile, db);
    ExportedIdentities(u, f.showProfile, db);
    forall i, j | 0 <= i < j < |drafts| ensures KeyOf(f, drafts[i]) != KeyOf(f, drafts[j]) {
      assert drafts[i] in drafts && drafts[j] in drafts;
      KeyExactWithoutBars(f, drafts[i], drafts[j]);
      assert key(drafts[i]) != key(drafts[j]);
    }
  }

  /** The exported sheet of a sound lexicon with distinct grouping keys reads back as the exported drafts. */
  lemma SheetReadsBack(u: Unicode, f: Formats, db: LexiconDb)
    requires Faithful(f) && Sound(f.showProfile, db) && AllSettled(u, db) && DistinctKeys(f, ExportDrafts(db))
    ensures var r := ParseLexiconCsv(f, PrintRecords(Sheet(f, ExportDrafts(db))));
      r.Success? && multiset(r.value) == multiset(ExportDrafts(db))
      && (forall d :: d in r.value ==> Exportable(u, f.showProfile, db, d))
      && DistinctBy(r.value, d => DraftIdentity(u, f.showProfile, d))
  {
    var drafts := ExportDrafts(db);
    ExportedAll(u, f.showProfile, db);
    ExportedIdentities(u, f.showProfile, db);
    ExportImport(f, drafts);
    var r := ParseLexiconCsv(f, PrintRecords(Sheet(f, drafts)));
    DistinctByPermutes(drafts, r.value, d => DraftIdentity(u, f.showProfile, d));
    forall d | d in r.value ensures Exportable(u, f.showProfile, db, d) {
      assert d in multiset(r.value) && d in multiset(drafts);
    }
  }

  /** The sheet of a lexicon whose import yields as many entries had distinct grouping keys. */
  lemma FullExportDistinct(u: Unicode, f: Formats, db: LexiconDb)
    requires Faithful(f) && Sound(f.showProfile, db) && AllSettled(u, db)
    ensures var r := ParseLexiconCsv(f, PrintRecords(Sheet(f, ExportDrafts(db))));
      r.Success? ==> |r.value| <= |db.entries| && (|r.value| == |db.entries| ==> DistinctKeys(f, ExportDrafts(db)))
  {
    ExportedAll(u, f.showProfile, db);
    SortPermutes(db.entries, EntryLe);
    FullImportDistinct(f, ExportDrafts(db));
  }

  // ----- importing an export -----

  /** The import of a lexicon's export into that lexicon skips every entry and changes nothing. */
  ghost predicate ImportSkips(u: Unicode, f: Formats, ids: nat -> NewIds, db: LexiconDb) {
    var r := ParseLexiconCsv(f, PrintRecords(Sheet(f, ExportDrafts(db))));
    r.Success? && ImportDrafts(u, f.showProfile, ids, db, r.value) == Success(Imported(db, AllSkipped(|db.entries|)))
  }

  lemma SkipsWhenDistinct(u: Unicode, f: Formats, ids: nat -> NewIds, db: LexiconDb)
    requires Faithful(f) && Sound(f.showProfile, db) && AllSettled(u, db) && DistinctKeys(f, ExportDrafts(db))
    ensures ImportSkips(u, f, ids, db)
  {
    SheetReadsBack(u, f, db);
    var drafts := ParseLexiconCsv(f, PrintRecords(Sheet(f, ExportDrafts(db)))).value;
    SkipsExportable(u, f.showProfile, ids, db, drafts);
    SameLength(drafts, ExportDrafts(db));
    SortPermutes(db.entries, EntryLe);
  }

  /** Importing a lexicon's own export skips all of its entries and changes nothing if and only if no two of them share
      a grouping key. */
  lemma ExportSkipsItself(u: Unicode, f: Formats, ids: nat -> NewIds, db: LexiconDb)
    requires Faithful(f) && Sound(f.showProfile, db) && AllSettled(u, db)
    ensures ImportSkips(u, f, ids, db) <==> DistinctKeys(f, ExportDrafts(db))
  {
    if DistinctKeys(f, ExportDrafts(db)) {
      SkipsWhenDistinct(u, f, ids, db);
    }
    if ImportSkips(u, f, ids, db) {
      var drafts := ParseLexiconCsv(f, PrintRecords(Sheet(f, ExportDrafts(db)))).value;
      ImportExact(u, f.showProfile, ids, db, drafts);
      FullExportDistinct(u, f, db);
    }
  }

  lemma FormIdentity(u: Unicode, show: nat -> string, ids: NewIds, d: LexiconEntryDraft, v: ValidatedEntryDraft)
    requires FormOf(u, ids, d, v)
    ensures IdentityKey(show, v.entry) == DraftIdentity(u, show, d)
  {
  }

  /** Validation keeps number, order and identity of settled drafts. */
  lemma ValidatedIdentities(u: Unicode, show: nat -> string, ids: nat -> NewIds, drafts: seq<LexiconEntryDraft>)
    requires forall d :: d in drafts ==> SettledDraft(u, d)
    ensures Refused(u, ids, drafts, 0) == []
    ensures var v := Validated(u, ids, drafts, 0);
      |v| == |drafts| && forall j :: 0 <= j < |v| ==>
        FormOf(u, ids(j), drafts[j], v[j]) && IdentityKey(show, v[j].entry) == DraftIdentity(u, show, drafts[j])
  {
    ValidateAllSettled(u, ids, drafts);
    var v := Validated(u, ids, drafts, 0);
    forall j | 0 <= j < |v|
      ensures FormOf(u, ids(j), drafts[j], v[j]) && IdentityKey(show, v[j].entry) == DraftIdentity(u, show, drafts[j])
    {
      assert FormOf(u, ids(j), drafts[j], v[j - 0]);
      FormIdentity(u, show, ids(j), drafts[j], v[j]);
    }
  }

  lemma ExportableAt(u: Unicode, show: nat -> string, db: LexiconDb, drafts: seq<LexiconEntryDraft>, j: nat)
    requires j < |drafts| && forall d :: d in drafts ==> Exportable(u, show, db, d)
    ensures HasIdentity(show, db.entries, DraftIdentity(u, show, drafts[j]))
  {
    assert drafts[j] in drafts;
  }

  lemma SkipsExportable(u: Unicode, show: nat -> string, ids: nat -> NewIds, db: LexiconDb,
                        drafts: seq<LexiconEntryDraft>)
    requires forall d :: d in drafts ==> Exportable(u, show, db, d)
    ensures ImportDrafts(u, show, ids, db, drafts) == Success(Imported(db, AllSkipped(|drafts|)))
  {
    ValidatedIdentities(u, show, ids, drafts);
    var validated := Validated(u, ids, drafts, 0);
    forall j | 0 <= j < |validated| ensures HasIdentity(show, db.entries, IdentityKey(show, validated[j].entry)) {
      ExportableAt(u, show, db, drafts, j);
    }
    assert AllKnown(show, db.entries, validated);
    SkipsKnown(show, db, validated, {}, NO_REPORT);
  }

  // ----- restoring an export -----

  /** Entries and their variants in the order of the tables. */
  function Listing(db: LexiconDb, entries: seq<LexiconEntry>): (r: seq<LexiconEntryDraft>)
    ensures |r| == |entries| && forall k :: 0 <= k < |r| ==>
      r[k] == DraftWith(entries[k], OfEntry(db.variants, entries[k].id))
  {
    if entries == [] then []
    else [DraftWith(entries[0], OfEntry(db.variants, entries[0].id))] + Listing(db, entries[1..])
  }

  function KeyFrom(u: Unicode, d: LexiconVariantDraft): string {
    SeenKey(VariantFrom(u, NewIds(0, _ => 0), 0, d))
  }

  lemma {:induction false} OfEntryDistinct(variants: seq<LexiconVariant>, entryId: nat)
    requires forall i, j :: 0 <= i < j < |variants| ==> !SameVariant(variants[i], variants[j])
    ensures DistinctBy(OfEntry(variants, entryId), SeenKey)
  {
    if variants == [] {
    } else {
      OfEntryDistinct(variants[1..], entryId);
      var rest := OfEntry(variants[1..], entryId);
      OfEntryMembers(variants[1..], entryId);
      OfEntryOwn(variants[1..], entryId);
      if variants[0].entryId == entryId {
        forall j | 0 <= j < |rest| ensures SeenKey(variants[0]) != SeenKey(rest[j]) {
          assert rest[j] in rest && rest[j] in variants[1..];
          var k :| 0 <= k < |variants[1..]| && variants[1..][k] == rest[j];
          assert !SameVariant(variants[0], variants[k + 1]);
          SeenKeyExact(variants[0], rest[j]);
        }
      }
    }
  }

  lemma {:induction false} OfEntryOwn(variants: seq<LexiconVariant>, entryId: nat)
    ensures forall v :: v in OfEntry(variants, entryId) ==> v.entryId == entryId
  {
    if variants != [] { OfEntryOwn(variants[1..], entryId); }
  }

  /** No two variants of an exported draft fall together. */
  lemma ExportedVariants(u: Unicode, show: nat -> string, db: LexiconDb, e: LexiconEntry)
    requires Sound(show, db) && AllSettled(u, db)
    ensures DistinctBy(DraftOf(db.variants, e).variants, v => KeyFrom(u, v))
  {
    var own := OfEntry(db.variants, e.id);
    var sorted := Sort(own, VariantLe);
    OfEntryDistinct(db.variants, e.id);
    OfEntryMembers(db.variants, e.id);
    SortPermutes(own, VariantLe);
    SortElements(own, VariantLe);
    DistinctByPermutes(own, sorted, SeenKey);
    var d := DraftOf(db.variants, e).variants;
    forall k | 0 <= k < |d| ensures KeyFrom(u, d[k]) == SeenKey(sorted[k]) {
      assert sorted[k] in sorted && sorted[k] in db.variants;
    }
  }

  lemma ExportedVariantsAll(u: Unicode, show: nat -> string, db: LexiconDb)
    requires Sound(show, db) && AllSettled(u, db)
    ensures forall d :: d in ExportDrafts(db) ==> DistinctBy(d.variants, v => KeyFrom(u, v))
  {
    var entries, drafts := Sort(db.entries, EntryLe), ExportDrafts(db);
    forall d | d in drafts ensures DistinctBy(d.variants, v => KeyFrom(u, v)) {
      var k :| 0 <= k < |drafts| && drafts[k] == d;
      ExportedVariants(u, show, db, entries[k]);
    }
  }

  lemma KeysApartNext(variants: seq<LexiconVariant>, seen: set<string>)
    requires variants != [] && KeysApart(variants, seen)
    ensures KeysApart(variants[1..], seen + {SeenKey(variants[0])})
    ensures UniqueVariants(variants, seen)
         == [variants[0]] + UniqueVariants(variants[1..], seen + {SeenKey(variants[0])})
  {
  }

  lemma {:induction false} UniqueOfDistinct(variants: seq<LexiconVariant>, seen: set<string>)
    requires KeysApart(variants, seen)
    ensures UniqueVariants(variants, seen) == variants
    decreases |variants|
  {
    if variants != [] {
      KeysApartNext(variants, seen);
      UniqueOfDistinct(variants[1..], seen + {SeenKey(variants[0])});
    }
  }

  lemma {:induction false} AddedAll(show: nat -> string, known: set<string>, drafts: seq<ValidatedEntryDraft>)
    requires forall k :: 0 <= k < |drafts| ==> IdentityKey(show, drafts[k].entry) !in known
    requires forall i, j :: 0 <= i < j < |drafts| ==>
      IdentityKey(show, drafts[i].entry) != IdentityKey(show, drafts[j].entry)
    ensures Added(show, known, drafts) == drafts
    decreases |drafts|
  {
    if drafts != [] {
      AddedAll(show, known + {IdentityKey(show, drafts[0].entry)}, drafts[1..]);
      assert drafts == [drafts[0]] + drafts[1..];
    }
  }

  /** A validated draft that loses no variant. */
  ghost predicate Lossless(d: ValidatedEntryDraft) {
    KeysApart(d.variants, {}) && forall k :: 0 <= k < |d.variants| ==> d.variants[k].entryId == d.entry.id
  }

  lemma {:induction false} OfEntryConcat(a: seq<LexiconVariant>, b: seq<LexiconVariant>, id: nat)
    ensures OfEntry(a + b, id) == OfEntry(a, id) + OfEntry(b, id)
  {
    if a == [] {
      assert a + b == b;
    } else {
      assert (a + b)[1..] == a[1..] + b;
      OfEntryConcat(a[1..], b, id);
    }
  }

  lemma {:induction false} OfEntryUniform(variants: seq<LexiconVariant>, owner: nat, id: nat)
    requires forall k :: 0 <= k < |variants| ==> variants[k].entryId == owner
    ensures OfEntry(variants, id) == if owner == id then variants else []
  {
    if variants != [] {
      OfEntryUniform(variants[1..], owner, id);
      assert variants == [variants[0]] + variants[1..];
    }
  }

  lemma {:induction false} OfEntryNone(drafts: seq<ValidatedEntryDraft>, id: nat)
    requires forall k :: 0 <= k < |drafts| ==> Lossless(drafts[k]) && drafts[k].entry.id != id
    ensures OfEntry(KeptVariants(drafts), id) == []
  {
    if drafts != [] {
      var d := drafts[0];
      assert Lossless(drafts[0]);
      UniqueOfDistinct(d.variants, {});
      OfEntryUniform(d.variants, d.entry.id, id);
      OfEntryConcat(d.variants, KeptVariants(drafts[1..]), id);
      OfEntryNone(drafts[1..], id);
    }
  }

  /** Each added entry finds exactly its own variants again. */
  lemma {:induction false} OfEntryKept(drafts: seq<ValidatedEntryDraft>, k: nat)
    requires k < |drafts| && forall j :: 0 <= j < |drafts| ==> Lossless(drafts[j])
    requires forall i, j :: 0 <= i < j < |drafts| ==> drafts[i].entry.id != drafts[j].entry.id
    ensures OfEntry(KeptVariants(drafts), drafts[k].entry.id) == drafts[k].variants
    decreases k
  {
    var d, id := drafts[0], drafts[k].entry.id;
    assert Lossless(drafts[0]);
    UniqueOfDistinct(d.variants, {});
    OfEntryUniform(d.variants, d.entry.id, id);
    OfEntryConcat(d.variants, KeptVariants(drafts[1..]), id);
    if k == 0 {
      OfEntryNone(drafts[1..], id);
      assert d.variants + [] == d.variants;
    } else {
      OfEntryKept(drafts[1..], k - 1);
      assert [] + drafts[k].variants == drafts[k].variants;
    }
  }

  lemma {:induction false} EntriesOfAt(drafts: seq<ValidatedEntryDraft>)
    ensures |EntriesOf(drafts)| == |drafts| && forall k :: 0 <= k < |drafts| ==> EntriesOf(drafts)[k] == drafts[k].entry
  {
    if drafts != [] { EntriesOfAt(drafts[1..]); }
  }

  function Blank(profiles: set<nat>): LexiconDb {
    LexiconDb(profiles, [], [])
  }

  /** No identifier is drawn twice. */
  ghost predicate UniqueIds(ids: nat -> NewIds) {
    && (forall i: nat, j: nat :: ids(i).entryId == ids(j).entryId ==> i == j)
    && (forall i: nat, a: nat, j: nat, b: nat :: ids(i).variantId(a) == ids(j).variantId(b) ==> i == j && a == b)
  }

  lemma FormsFresh(u: Unicode, ids: nat -> NewIds, profiles: set<nat>, drafts: seq<LexiconEntryDraft>,
                   validated: seq<ValidatedEntryDraft>)
    requires UniqueIds(ids)
    requires |validated| == |drafts| && forall j :: 0 <= j < |drafts| ==> FormOf(u, ids(j), drafts[j], validated[j])
    ensures FreshIds(Blank(profiles), validated)
  {
    forall i, j | 0 <= i < |validated| && 0 <= j < |validated| && i != j ensures IdsApart(validated[i], validated[j]) {
      assert FormOf(u, ids(i), drafts[i], validated[i]) && FormOf(u, ids(j), drafts[j], validated[j]);
    }
    forall k | 0 <= k < |validated| ensures NewTo(Blank(profiles), validated[k]) {
      assert FormOf(u, ids(k), drafts[k], validated[k]);
    }
  }

  lemma FormLossless(u: Unicode, ids: NewIds, d: LexiconEntryDraft, v: ValidatedEntryDraft)
    requires FormOf(u, ids, d, v) && DistinctBy(d.variants, w => KeyFrom(u, w))
    ensures Lossless(v)
  {
    var key := w => KeyFrom(u, w);
    forall i, j | 0 <= i < j < |v.variants| ensures SeenKey(v.variants[i]) != SeenKey(v.variants[j]) {
      assert key(d.variants[i]) != key(d.variants[j]);
      assert SeenKey(v.variants[i]) == KeyFrom(u, d.variants[i]) && SeenKey(v.variants[j]) == KeyFrom(u, d.variants[j]);
    }
  }

  lemma FormDraft(u: Unicode, ids: NewIds, d: LexiconEntryDraft, v: ValidatedEntryDraft)
    requires FormOf(u, ids, d, v)
    ensures DraftWith(v.entry, v.variants) == d
  {
    var w := VariantDrafts(v.variants);
    forall k | 0 <= k < |w| ensures w[k] == d.variants[k] {
      assert v.variants[k] == VariantFrom(u, ids, k, d.variants[k]);
    }
    assert w == d.variants;
  }

  lemma ListingOfAppended(u: Unicode, ids: nat -> NewIds, profiles: set<nat>, drafts: seq<LexiconEntryDraft>,
                          validated: seq<ValidatedEntryDraft>)
    requires |validated| == |drafts| && forall j :: 0 <= j < |drafts| ==>
      FormOf(u, ids(j), drafts[j], validated[j]) && Lossless(validated[j])
    requires forall i, j :: 0 <= i < j < |validated| ==> validated[i].entry.id != validated[j].entry.id
    ensures var db := Appended(Blank(profiles), validated); Listing(db, db.entries) == drafts
  {
    var db := Appended(Blank(profiles), validated);
    EntriesOfAt(validated);
    assert db.entries == EntriesOf(validated) && db.variants == KeptVariants(validated);
    forall k | 0 <= k < |drafts| ensures Listing(db, db.entries)[k] == drafts[k] {
      OfEntryKept(validated, k);
      FormDraft(u, ids(k), drafts[k], validated[k]);
    }
  }

  /** The import of a lexicon's export into an empty one with the same profiles lists exactly the exported entries. */
  ghost predicate ImportRestores(u: Unicode, f: Formats, ids: nat -> NewIds, db: LexiconDb) {
    var r := ParseLexiconCsv(f, PrintRecords(Sheet(f, ExportDrafts(db))));
    r.Success? &&
    var restored := ImportDrafts(u, f.showProfile, ids, Blank(db.profiles), r.value);
    restored.Success? && Sound(f.showProfile, restored.value.db)
    && multiset(Listing(restored.value.db, restored.value.db.entries)) == multiset(ExportDrafts(db))
  }

  lemma RestoresWhenDistinct(u: Unicode, f: Formats, ids: nat -> NewIds, db: LexiconDb)
    requires Faithful(f) && Sound(f.showProfile, db) && AllSettled(u, db) && UniqueIds(ids)
    requires DistinctKeys(f, ExportDrafts(db))
    ensures ImportRestores(u, f, ids, db)
  {
    SheetReadsBack(u, f, db);
    ExportedVariantsAll(u, f.showProfile, db);
    var drafts := ParseLexiconCsv(f, PrintRecords(Sheet(f, ExportDrafts(db)))).value;
    forall d | d in drafts ensures Importable(u, db.profiles, d) {
      assert d in multiset(drafts) && d in multiset(ExportDrafts(db));
    }
    RestoreDrafts(u, f.showProfile, ids, db.profiles, drafts);
  }

  lemma ListingFits(u: Unicode, show: nat -> string, ids: nat -> NewIds, profiles: set<nat>,
                    drafts: seq<LexiconEntryDraft>)
    ensures var r := ImportDrafts(u, show, ids, Blank(profiles), drafts);
      r.Success? ==> |r.value.db.entries| <= |drafts|
  {
    ImportExact(u, show, ids, Blank(profiles), drafts);
    EntriesOfAt(Added(show, Identities(show, []), Validated(u, ids, drafts, 0)));
  }

  /** Importing the export of a lexicon into an empty one with the same profiles restores every entry with its variants
      and nothing else, if and only if no two entries share a grouping key. */
  lemma ExportRestores(u: Unicode, f: Formats, ids: nat -> NewIds, db: LexiconDb)
    requires Faithful(f) && Sound(f.showProfile, db) && AllSettled(u, db) && UniqueIds(ids)
    ensures ImportRestores(u, f, ids, db) <==> DistinctKeys(f, ExportDrafts(db))
  {
    if DistinctKeys(f, ExportDrafts(db)) {
      RestoresWhenDistinct(u, f, ids, db);
    }
    if ImportRestores(u, f, ids, db) {
      var drafts := ParseLexiconCsv(f, PrintRecords(Sheet(f, ExportDrafts(db)))).value;
      var restored := ImportDrafts(u, f.showProfile, ids, Blank(db.profiles), drafts).value.db;
      ListingFits(u, f.showProfile, ids, db.profiles, drafts);
      SameLength(Listing(restored, restored.entries), ExportDrafts(db));
      SortPermutes(db.entries, EntryLe);
      FullExportDistinct(u, f, db);
    }
  }

  /** A draft that validation leaves alone, for an existing profile, none of whose variants fall together. */
  ghost predicate Importable(u: Unicode, profiles: set<nat>, d: LexiconEntryDraft) {
    && SettledDraft(u, d) && (d.scope.Profile? ==> d.scope.profileId in profiles)
    && DistinctBy(d.variants, v => KeyFrom(u, v))
  }

  lemma RestoreDrafts(u: Unicode, show: nat -> string, ids: nat -> NewIds, profiles: set<nat>,
                      drafts: seq<LexiconEntryDraft>)
    requires forall d :: d in drafts ==> Importable(u, profiles, d)
    requires DistinctBy(drafts, d => DraftIdentity(u, show, d))
    requires UniqueIds(ids)
    ensures var r := ImportDrafts(u, show, ids, Blank(profiles), drafts);
      r.Success? && Sound(show, r.value.db) && Listing(r.value.db, r.value.db.entries) == drafts
  {
    var blank, validated := Blank(profiles), Validated(u, ids, drafts, 0);
    ValidatedIdentities(u, show, ids, drafts);
    FormsFresh(u, ids, profiles, drafts, validated);
    forall j | 0 <= j < |drafts| ensures Lossless(validated[j]) && ProfileExists(blank, validated[j]) {
      assert drafts[j] in drafts;
      FormLossless(u, ids(j), drafts[j], validated[j]);
    }
    var key := d => DraftIdentity(u, show, d);
    forall i, j | 0 <= i < j < |validated|
      ensures IdentityKey(show, validated[i].entry) != IdentityKey(show, validated[j].entry)
    {
      assert key(drafts[i]) != key(drafts[j]);
    }
    AddedAll(show, {}, validated);
    assert Identities(show, blank.entries) == {};
    ImportSucceeds(u, show, ids, blank, drafts);
    ImportExact(u, show, ids, blank, drafts);
    forall i, j | 0 <= i < j < |validated| ensures validated[i].entry.id != validated[j].entry.id {
      assert IdsApart(validated[i], validated[j]);
    }
    ListingOfAppended(u, ids, profiles, drafts, validated);
  }

  // ----- a lexicon whose export loses an entry -----

  lemma AsciiWordSettled(u: Unicode, s: string, field: Field)
    requires UnicodeLaws(u) && IsWord(s) && forall k :: 0 <= k < |s| ==> s[k] as int < 0x80
    ensures DisplayText(u, s, field) == Success(s)
  {
    SplitJoined([s]);
  }

  lemma AsciiWordBounded(u: Unicode, s: string, field: Field, max: nat)
    requires UnicodeLaws(u) && IsWord(s) && (forall k :: 0 <= k < |s| ==> s[k] as int < 0x80) && |s| <= max
    ensures BoundedText(u, s, field, max) == Success(s)
  {
    AsciiWordSettled(u, s, field);
  }

  lemma BarInTermSettled(u: Unicode)
    requires UnicodeLaws(u)
    ensures SettledDraft(u, BAR_IN_TERM)
  {
    AsciiWordBounded(u, "a|b", CanonicalText, MAX_TERM_CHARS);
    LetterSettled(u, 'c');
    assert "c" == ['c'];
  }

  lemma BarInCategorySettled(u: Unicode)
    requires UnicodeLaws(u)
    ensures SettledDraft(u, BAR_IN_CATEGORY)
  {
    AsciiWordBounded(u, "a", CanonicalText, MAX_TERM_CHARS);
    AsciiWordBounded(u, "c|", Category, MAX_CATEGORY_CHARS);
    LetterSettled(u, 'b');
    assert "b" == ['b'];
  }

  /** Both entries are left alone by validation, so a lexicon may hold them. */
  lemma BarDraftsImportable(u: Unicode, d: LexiconEntryDraft)
    requires UnicodeLaws(u) && (d == BAR_IN_TERM || d == BAR_IN_CATEGORY)
    ensures Importable(u, {}, d)
  {
    BarInTermSettled(u);
    BarInCategorySettled(u);
    assert d.variants == [] && d.scope == Global;
  }

  lemma LetterSettled(u: Unicode, c: char)
    requires UnicodeLaws(u) && 'a' <= c <= 'z'
    ensures OptionalLanguage(u, Some([c])) == Success(Some([c]))
  {
    TagIsWord(u, [c]);
    assert [c][1..] == "";
    assert ToAsciiLower([c]) == [c] + "" == [c];
    assert ByteLen([c]) == 1;
  }

  lemma BarIdentitiesDiffer(u: Unicode, show: nat -> string)
    ensures DistinctBy([BAR_IN_TERM, BAR_IN_CATEGORY], d => DraftIdentity(u, show, d))
  {
    var one, other := DraftIdentity(u, show, BAR_IN_TERM), DraftIdentity(u, show, BAR_IN_CATEGORY);
    assert one[..8] == "global|c" && other[..8] == "global|b";
    assert one[7] == 'c' && other[7] == 'b';
  }

  lemma DistinctExport(f: Formats, db: LexiconDb)
    requires DistinctKeys(f, ExportDrafts(db))
    ensures DistinctBy(db.entries, e => KeyOf(f, DraftOf(db.variants, e)))
  {
    var key := (e: LexiconEntry) => KeyOf(f, DraftOf(db.variants, e));
    var sorted, drafts := Sort(db.entries, EntryLe), ExportDrafts(db);
    SortPermutes(db.entries, EntryLe);
    forall i, j | 0 <= i < j < |sorted| ensures key(sorted[i]) != key(sorted[j]) {
      assert KeyOf(f, drafts[i]) != KeyOf(f, drafts[j]);
    }
    DistinctByPermutes(sorted, db.entries, key);
  }

  lemma ListedKey(f: Formats, db: LexiconDb, k: nat)
    requires k < |db.entries|
    ensures KeyOf(f, Listing(db, db.entries)[k]) == KeyOf(f, DraftOf(db.variants, db.entries[k]))
  {
  }

  lemma ListedCollision(f: Formats, db: LexiconDb, i: nat, j: nat)
    requires i < j < |db.entries| && KeyOf(f, Listing(db, db.entries)[i]) == KeyOf(f, Listing(db, db.entries)[j])
    ensures !DistinctKeys(f, ExportDrafts(db))
  {
    ListedKey(f, db, i);
    ListedKey(f, db, j);
    if DistinctKeys(f, ExportDrafts(db)) { DistinctExport(f, db); }
  }

  lemma BarKeys(f: Formats, drafts: seq<LexiconEntryDraft>)
    requires drafts == [BAR_IN_TERM, BAR_IN_CATEGORY]
    ensures |drafts| == 2 && KeyOf(f, drafts[0]) == KeyOf(f, drafts[1])
  {
    BarCollides(f);
  }

  lemma BarsImport(u: Unicode, show: nat -> string, ids: nat -> NewIds, drafts: seq<LexiconEntryDraft>)
    requires UnicodeLaws(u) && UniqueIds(ids) && drafts == [BAR_IN_TERM, BAR_IN_CATEGORY]
    ensures var r := ImportDrafts(u, show, ids, Blank({}), drafts);
      r.Success? && Sound(show, r.value.db) && AllSettled(u, r.value.db)
        && Listing(r.value.db, r.value.db.entries) == drafts
  {
    forall d | d in drafts ensures Importable(u, {}, d) { BarDraftsImportable(u, d); }
    BarIdentitiesDiffer(u, show);
    RestoreDrafts(u, show, ids, {}, drafts);
    ImportKeepsSettled(u, show, ids, Blank({}), drafts);
  }

  /** A lexicon that a valid import builds and that its own export cannot restore: two entries share a grouping key. */
  lemma BarsLoseAnEntry(u: Unicode, f: Formats, ids: nat -> NewIds, drafts: seq<LexiconEntryDraft>)
    requires UnicodeLaws(u) && Faithful(f) && UniqueIds(ids) && drafts == [BAR_IN_TERM, BAR_IN_CATEGORY]
    ensures var r := ImportDrafts(u, f.showProfile, ids, Blank({}), drafts);
      r.Success? && !ImportRestores(u, f, ids, r.value.db) && !ImportSkips(u, f, ids, r.value.db)
  {
    BarsImport(u, f.showProfile, ids, drafts);
    var db := ImportDrafts(u, f.showProfile, ids, Blank({}), drafts).value.db;
    BarKeys(f, drafts);
    ListedCollision(f, db, 0, 1);
    ExportRestores(u, f, ids, db);
    ExportSkipsItself(u, f, ids, db);
  }
}
