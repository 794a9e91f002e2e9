/** What an import guarantees: exact keys, both uniqueness constraints, an exact report, and idempotence. */
module LexiconImportLaws {
  import opened Results
  import opened Lexicon
  import opened LexiconValidation
  import opened LexiconImport

  // ----- the keys identify what they are built from -----

  /** Printed profile ids differ and contain no bar. */
  ghost predicate IdText(show: nat -> string) {
    && (forall a: nat, b: nat :: show(a) == show(b) ==> a == b)
    && (forall a: nat :: '|' !in show(a))
  }

  predicate LanguageOk(language: Option<string>) {
    language.Some? ==> LanguageTag(language.value)
  }

  lemma ScopeTextExact(show: nat -> string, a: LexiconScope, b: LexiconScope)
    requires IdText(show)
    ensures '|' !in ScopeText(show, a)
    ensures ScopeText(show, a) == ScopeText(show, b) <==> a == b
  {
    var g := "global";
    assert g[0] == 'g';
    if a.Profile? {
      assert ScopeText(show, a)[0] == 'p' && ScopeText(show, a)[8..] == show(a.profileId);
      assert '|' !in "profile:";
    }
    if b.Profile? {
      assert ScopeText(show, b)[0] == 'p' && ScopeText(show, b)[8..] == show(b.profileId);
    }
  }

  lemma LanguageExact(a: Option<string>, b: Option<string>)
    requires LanguageOk(a) && LanguageOk(b)
    ensures '|' !in GetOr(a)
    ensures GetOr(a) == GetOr(b) <==> a == b
  {
    assert !IsLanguageChar('|');
  }

  /** Entries share an identity exactly when scope, language and comparison key agree. */
  lemma IdentityExact(show: nat -> string, a: LexiconEntry, b: LexiconEntry)
    requires IdText(show) && WellFormed(a) && WellFormed(b)
    ensures IdentityKey(show, a) == IdentityKey(show, b) <==>
      a.scope == b.scope && a.language == b.language && a.canonicalKey == b.canonicalKey
  {
    ScopeTextExact(show, a.scope, b.scope);
    ScopeTextExact(show, b.scope, a.scope);
    LanguageExact(a.language, b.language);
    LanguageExact(b.language, a.language);
    if IdentityKey(show, a) == IdentityKey(show, b) {
      var x, y := GetOr(a.language) + "|" + a.canonicalKey, GetOr(b.language) + "|" + b.canonicalKey;
      assert IdentityKey(show, a) == ScopeText(show, a.scope) + "|" + x;
      assert IdentityKey(show, b) == ScopeText(show, b.scope) + "|" + y;
      SplitAtBar(ScopeText(show, a.scope), x, ScopeText(show, b.scope), y);
      SplitAtBar(GetOr(a.language), a.canonicalKey, GetOr(b.language), b.canonicalKey);
    }
  }

  lemma SameEnding(x: string, y: string, ending: string)
    requires x + ending == y + ending
    ensures x == y
  {
    assert |x| == |y|;
    assert x == (x + ending)[..|x|] && y == (y + ending)[..|y|];
  }

  /** Two variants count as duplicates exactly when key and mode agree, even when keys contain bars. */
  lemma SeenKeyExact(a: LexiconVariant, b: LexiconVariant)
    ensures SeenKey(a) == SeenKey(b) <==> a.variantKey == b.variantKey && a.matchMode == b.matchMode
  {
    if SeenKey(a) == SeenKey(b) {
      var s, t := SeenKey(a), SeenKey(b);
      assert s[|s| - 1] == (if a.matchMode.ExactCasefold? then 'd' else 'e');
      assert t[|t| - 1] == (if b.matchMode.ExactCasefold? then 'd' else 'e');
      var ending := "|" + ModeText(a.matchMode);
      assert s == a.variantKey + ending && t == b.variantKey + ending;
      SameEnding(a.variantKey, b.variantKey, ending);
    }
  }

  // ----- keeping the first variant of every key -----

  ghost predicate KeysApart(variants: seq<LexiconVariant>, seen: set<string>) {
    && (forall k :: 0 <= k < |variants| ==> SeenKey(variants[k]) !in seen)
    && (forall i, j :: 0 <= i < j < |variants| ==> SeenKey(variants[i]) != SeenKey(variants[j]))
  }

  lemma {:induction false} UniqueApart(variants: seq<LexiconVariant>, seen: set<string>)
    ensures KeysApart(UniqueVariants(variants, seen), seen)
    decreases |variants|
  {
    if variants == [] {
    } else {
      var key := SeenKey(variants[0]);
      if key in seen {
        UniqueApart(variants[1..], seen);
      } else {
        UniqueApart(variants[1..], seen + {key});
      }
    }
  }

  predicate HasKey(variants: seq<LexiconVariant>, key: string) {
    exists k :: 0 <= k < |variants| && SeenKey(variants[k]) == key
  }

  lemma HasKeyCons(first: LexiconVariant, rest: seq<LexiconVariant>, key: string)
    ensures HasKey([first] + rest, key) <==> SeenKey(first) == key || HasKey(rest, key)
  {
    var all := [first] + rest;
    assert all[0] == first;
    if HasKey(rest, key) {
      var k :| 0 <= k < |rest| && SeenKey(rest[k]) == key;
      assert all[k + 1] == rest[k];
    }
  }

  /** No key is lost and none is invented. */
  lemma {:induction false} UniqueCovers(variants: seq<LexiconVariant>, seen: set<string>, key: string)
    ensures HasKey(UniqueVariants(variants, seen), key) <==> key !in seen && HasKey(variants, key)
    decreases |variants|
  {
    if variants == [] {
    } else {
      var first, rest := variants[0], variants[1..];
      assert variants == [first] + rest;
      HasKeyCons(first, rest, key);
      if SeenKey(first) in seen {
        UniqueCovers(rest, seen, key);
      } else {
        var next := seen + {SeenKey(first)};
        UniqueCovers(rest, next, key);
        HasKeyCons(first, UniqueVariants(rest, next), key);
      }
    }
  }

  lemma {:induction false} UniqueSubset(variants: seq<LexiconVariant>, seen: set<string>)
    ensures forall w :: w in UniqueVariants(variants, seen) ==> w in variants
    decreases |variants|
  {
    if variants != [] {
      UniqueSubset(variants[1..], seen);
      UniqueSubset(variants[1..], seen + {SeenKey(variants[0])});
    }
  }

  /** `variants[i]` is the first of its key, which is none of `seen`, and what is kept before it is `before`. */
  ghost predicate FirstOfKey(variants: seq<LexiconVariant>, seen: set<string>, i: nat, before: seq<LexiconVariant>)
    requires i < |variants|
  {
    && SeenKey(variants[i]) !in seen
    && (forall j :: 0 <= j < i ==> SeenKey(variants[j]) != SeenKey(variants[i]))
    && UniqueVariants(variants[..i], seen) == before
  }

  lemma FirstAfterDuplicate(variants: seq<LexiconVariant>, seen: set<string>, i: nat, before: seq<LexiconVariant>)
    requires variants != [] && SeenKey(variants[0]) in seen
    requires i < |variants| - 1 && FirstOfKey(variants[1..], seen, i, before)
    ensures FirstOfKey(variants, seen, i + 1, before)
  {
    assert variants[..i + 1][1..] == variants[1..][..i] && variants[i + 1] == variants[1..][i];
    forall j | 0 <= j < i + 1 ensures SeenKey(variants[j]) != SeenKey(variants[i + 1]) {
      if j > 0 { assert variants[j] == variants[1..][j - 1]; }
    }
  }

  lemma FirstAfterKept(variants: seq<LexiconVariant>, seen: set<string>, i: nat, before: seq<LexiconVariant>)
    requires variants != [] && SeenKey(variants[0]) !in seen
    requires i < |variants| - 1 && FirstOfKey(variants[1..], seen + {SeenKey(variants[0])}, i, before)
    ensures FirstOfKey(variants, seen, i + 1, [variants[0]] + before)
  {
    assert variants[..i + 1][1..] == variants[1..][..i] && variants[i + 1] == variants[1..][i];
    forall j | 0 <= j < i + 1 ensures SeenKey(variants[j]) != SeenKey(variants[i + 1]) {
      if j > 0 { assert variants[j] == variants[1..][j - 1]; }
    }
  }

  /** What is kept is the first of its key, in the order of the variants. */
  lemma {:induction false} UniqueFirst(variants: seq<LexiconVariant>, seen: set<string>, k: nat) returns (i: nat)
    requires k < |UniqueVariants(variants, seen)|
    ensures i < |variants| && variants[i] == UniqueVariants(variants, seen)[k]
    ensures FirstOfKey(variants, seen, i, UniqueVariants(variants, seen)[..k])
    decreases |variants|
  {
    var key, rest := SeenKey(variants[0]), variants[1..];
    if key in seen {
      i := UniqueFirst(rest, seen, k);
      FirstAfterDuplicate(variants, seen, i, UniqueVariants(rest, seen)[..k]);
      i := i + 1;
    } else if k == 0 {
      i := 0;
    } else {
      i := UniqueFirst(rest, seen + {key}, k - 1);
      var later := UniqueVariants(rest, seen + {key});
      FirstAfterKept(variants, seen, i, later[..k - 1]);
      assert [variants[0]] + later[..k - 1] == ([variants[0]] + later)[..k];
      i := i + 1;
    }
  }

  // ----- which drafts an import adds -----

  function Identities(show: nat -> string, entries: seq<LexiconEntry>): (r: set<string>)
    ensures forall key :: key in r <==> HasIdentity(show, entries, key)
  {
    set k | 0 <= k < |entries| :: IdentityKey(show, entries[k])
  }

  /** The first draft of every identity that is not known yet, in order. */
  function Added(show: nat -> string, known: set<string>,
                 drafts: seq<ValidatedEntryDraft>): (r: seq<ValidatedEntryDraft>)
    ensures |r| <= |drafts|
    decreases |drafts|
  {
    if drafts == [] then []
    else
      var key := IdentityKey(show, drafts[0].entry);
      if key in known then Added(show, known, drafts[1..])
      else [drafts[0]] + Added(show, known + {key}, drafts[1..])
  }

  function EntriesOf(drafts: seq<ValidatedEntryDraft>): seq<LexiconEntry> {
    if drafts == [] then [] else [drafts[0].entry] + EntriesOf(drafts[1..])
  }

  function KeptVariants(drafts: seq<ValidatedEntryDraft>): seq<LexiconVariant> {
    if drafts == [] then [] else UniqueVariants(drafts[0].variants, {}) + KeptVariants(drafts[1..])
  }

  function TotalVariants(drafts: seq<ValidatedEntryDraft>): nat {
    if drafts == [] then 0 else |drafts[0].variants| + TotalVariants(drafts[1..])
  }

  function Tally(show: nat -> string, known: set<string>, drafts: seq<ValidatedEntryDraft>,
                 report: LexiconImportReport): LexiconImportReport {
    var added := Added(show, known, drafts);
    LexiconImportReport(
      report.addedEntries + |added|,
      report.addedVariants + |KeptVariants(added)|,
      report.duplicateEntries + (|drafts| - |added|),
      report.duplicateVariants + Dropped(added),
      report.skipped + (|drafts| - |added|))
  }

  function Dropped(drafts: seq<ValidatedEntryDraft>): (n: nat)
    ensures n + |KeptVariants(drafts)| == TotalVariants(drafts)
  {
    if drafts == [] then 0
    else |drafts[0].variants| - |UniqueVariants(drafts[0].variants, {})| + Dropped(drafts[1..])
  }

  lemma {:induction false} InsertVariantsAppends(rows: seq<LexiconVariant>, entryId: nat, variants: seq<LexiconVariant>)
    ensures var r := InsertVariants(rows, entryId, variants); r.Success? ==> r.value == rows + variants
    decreases |variants|
  {
    if variants == [] {
      assert rows + [] == rows;
    } else {
      InsertVariantsAppends(rows + [variants[0]], entryId, variants[1..]);
      AppendOne(rows, variants[0], variants[1..]);
    }
  }

  lemma InsertAppends(show: nat -> string, db: LexiconDb, e: LexiconEntry, variants: seq<LexiconVariant>)
    ensures var r := InsertEntryAndVariants(show, db, e, variants);
      r.Success? ==> r.value == LexiconDb(db.profiles, db.entries + [e], db.variants + variants)
  {
    InsertVariantsAppends(db.variants, e.id, variants);
  }

  lemma IdentitiesGrow(show: nat -> string, entries: seq<LexiconEntry>, e: LexiconEntry)
    ensures Identities(show, entries + [e]) == Identities(show, entries) + {IdentityKey(show, e)}
  {
    var more := entries + [e];
    assert more[|entries|] == e;
    forall key | HasIdentity(show, entries, key) ensures HasIdentity(show, more, key) {
      var k :| 0 <= k < |entries| && IdentityKey(show, entries[k]) == key;
      assert more[k] == entries[k];
    }
    assert HasIdentity(show, more, IdentityKey(show, e));
  }

  function Appended(db: LexiconDb, added: seq<ValidatedEntryDraft>): LexiconDb {
    LexiconDb(db.profiles, db.entries + EntriesOf(added), db.variants + KeptVariants(added))
  }

  lemma AppendedNothing(db: LexiconDb)
    ensures Appended(db, []) == db
  {
    assert db.entries + [] == db.entries && db.variants + [] == db.variants;
  }

  lemma AppendedFirst(db: LexiconDb, d: ValidatedEntryDraft, rest: seq<ValidatedEntryDraft>)
    ensures Appended(LexiconDb(db.profiles, db.entries + [d.entry], db.variants + UniqueVariants(d.variants, {})), rest)
         == Appended(db, [d] + rest)
  {
    assert ([d] + rest)[1..] == rest;
    var kept := UniqueVariants(d.variants, {});
    assert (db.entries + [d.entry]) + EntriesOf(rest) == db.entries + ([d.entry] + EntriesOf(rest));
    assert (db.variants + kept) + KeptVariants(rest) == db.variants + (kept + KeptVariants(rest));
  }

  lemma TallyFirst(show: nat -> string, known: set<string>, drafts: seq<ValidatedEntryDraft>,
                   report: LexiconImportReport)
    requires drafts != []
    ensures var key := IdentityKey(show, drafts[0].entry);
      Tally(show, known, drafts, report) ==
      (if key in known then Tally(show, known, drafts[1..], Skip(report))
       else Tally(show, known + {key}, drafts[1..],
                  Add(report, |UniqueVariants(drafts[0].variants, {})|, |drafts[0].variants|)))
  {
    var key := IdentityKey(show, drafts[0].entry);
    if key !in known {
      var rest := Added(show, known + {key}, drafts[1..]);
      assert ([drafts[0]] + rest)[1..] == rest;
    }
  }

  /** A successful run appends exactly the added drafts with their distinct variants, and reports exactly that. */
  lemma {:induction false} ImportFromExact(show: nat -> string, db: LexiconDb, drafts: seq<ValidatedEntryDraft>,
                                           seen: set<string>,
                                           report: LexiconImportReport)
    requires seen <= Identities(show, db.entries)
    ensures var r := ImportFrom(show, db, drafts, seen, report);
      var known := Identities(show, db.entries);
      r.Success? ==> r.value == Imported(Appended(db, Added(show, known, drafts)), Tally(show, known, drafts, report))
    decreases |drafts|
  {
    var known := Identities(show, db.entries);
    if drafts == [] {
      AppendedNothing(db);
    } else {
      var d, key := drafts[0], IdentityKey(show, drafts[0].entry);
      TallyFirst(show, known, drafts, report);
      if key in known {
        ImportFromExact(show, db, drafts[1..], seen + {key}, Skip(report));
      } else {
        var kept := UniqueVariants(d.variants, {});
        InsertAppends(show, db, d.entry, kept);
        var next := InsertEntryAndVariants(show, db, d.entry, kept);
        if next.Success? {
          IdentitiesGrow(show, db.entries, d.entry);
          ImportFromExact(show, next.value, drafts[1..], seen + {key}, Add(report, |kept|, |d.variants|));
          AppendedFirst(db, d, Added(show, known + {key}, drafts[1..]));
        }
      }
    }
  }

  // ----- the tables stay sound -----

  ghost predicate EntriesSound(show: nat -> string, db: LexiconDb) {
    && (forall k :: 0 <= k < |db.entries| ==>
        WellFormed(db.entries[k]) && (db.entries[k].scope.Profile? ==> db.entries[k].scope.profileId in db.profiles))
    && (forall i, j :: 0 <= i < j < |db.entries| ==>
        db.entries[i].id != db.entries[j].id && IdentityKey(show, db.entries[i]) != IdentityKey(show, db.entries[j]))
  }

  predicate HasEntry(entries: seq<LexiconEntry>, id: nat) {
    exists k :: 0 <= k < |entries| && entries[k].id == id
  }

  ghost predicate VariantsSound(entries: seq<LexiconEntry>, variants: seq<LexiconVariant>) {
    && (forall k :: 0 <= k < |variants| ==> WellFormedVariant(variants[k]) && HasEntry(entries, variants[k].entryId))
    && (forall i, j :: 0 <= i < j < |variants| ==>
      variants[i].id != variants[j].id && !SameVariant(variants[i], variants[j]))
  }

  /** Both uniqueness constraints, both references, and validated text everywhere. */
  ghost predicate Sound(show: nat -> string, db: LexiconDb) {
    EntriesSound(show, db) && VariantsSound(db.entries, db.variants)
  }

  ghost predicate ValidatedDraft(d: ValidatedEntryDraft) {
    WellFormed(d.entry) && forall k :: 0 <= k < |d.variants| ==>
      WellFormedVariant(d.variants[k]) && d.variants[k].entryId == d.entry.id
  }

  lemma {:induction false} InsertVariantsSound(entries: seq<LexiconEntry>, rows: seq<LexiconVariant>, entryId: nat,
                                               variants: seq<LexiconVariant>)
    requires VariantsSound(entries, rows) && HasEntry(entries, entryId)
    requires forall k :: 0 <= k < |variants| ==> WellFormedVariant(variants[k])
    ensures var r := InsertVariants(rows, entryId, variants); r.Success? ==> VariantsSound(entries, r.value)
    decreases |variants|
  {
    if variants != [] && variants[0].entryId == entryId && VariantInsertable(rows, variants[0]) {
      InsertVariantsSound(entries, rows + [variants[0]], entryId, variants[1..]);
    }
  }

  lemma MoreEntries(entries: seq<LexiconEntry>, e: LexiconEntry, variants: seq<LexiconVariant>)
    requires VariantsSound(entries, variants)
    ensures VariantsSound(entries + [e], variants) && HasEntry(entries + [e], e.id)
  {
    var more := entries + [e];
    assert more[|entries|] == e;
    forall k | 0 <= k < |variants| ensures HasEntry(more, variants[k].entryId) {
      var j :| 0 <= j < |entries| && entries[j].id == variants[k].entryId;
      assert more[j] == entries[j];
    }
  }

  lemma InsertEntrySound(show: nat -> string, db: LexiconDb, e: LexiconEntry)
    requires EntriesSound(show, db) && EntryInsertable(show, db, e) && WellFormed(e)
    ensures EntriesSound(show, LexiconDb(db.profiles, db.entries + [e], db.variants))
  {
    forall k | 0 <= k < |db.entries| ensures IdentityKey(show, db.entries[k]) != IdentityKey(show, e) {
      assert HasIdentity(show, db.entries, IdentityKey(show, db.entries[k]));
    }
  }

  lemma InsertSound(show: nat -> string, db: LexiconDb, d: ValidatedEntryDraft)
    requires Sound(show, db) && ValidatedDraft(d)
    ensures var r := InsertEntryAndVariants(show, db, d.entry, UniqueVariants(d.variants, {}));
      r.Success? ==> Sound(show, r.value)
  {
    var kept := UniqueVariants(d.variants, {});
    UniqueSubset(d.variants, {});
    forall k | 0 <= k < |kept| ensures WellFormedVariant(kept[k]) {
      assert kept[k] in kept && kept[k] in d.variants;
    }
    if EntryInsertable(show, db, d.entry) {
      InsertEntrySound(show, db, d.entry);
      MoreEntries(db.entries, d.entry, db.variants);
      InsertVariantsSound(db.entries + [d.entry], db.variants, d.entry.id, kept);
    }
  }

  lemma {:induction false} ImportFromSound(show: nat -> string, db: LexiconDb, drafts: seq<ValidatedEntryDraft>,
                                           seen: set<string>,
                                           report: LexiconImportReport)
    requires Sound(show, db) && forall k :: 0 <= k < |drafts| ==> ValidatedDraft(drafts[k])
    ensures var r := ImportFrom(show, db, drafts, seen, report); r.Success? ==> Sound(show, r.value.db)
    decreases |drafts|
  {
    if drafts != [] {
      var d, key := drafts[0], IdentityKey(show, drafts[0].entry);
      if key in seen || HasIdentity(show, db.entries, key) {
        ImportFromSound(show, db, drafts[1..], seen + {key}, Skip(report));
      } else {
        var kept := UniqueVariants(d.variants, {});
        var next := InsertEntryAndVariants(show, db, d.entry, kept);
        InsertSound(show, db, d);
        if next.Success? {
          ImportFromSound(show, next.value, drafts[1..], seen + {key}, Add(report, |kept|, |d.variants|));
        }
      }
    }
  }

  // ----- when an import succeeds -----

  ghost predicate IdsDistinct(variants: seq<LexiconVariant>) {
    forall a, b :: 0 <= a < b < |variants| ==> variants[a].id != variants[b].id
  }

  /** The identifiers of a draft are new to the tables. */
  ghost predicate NewTo(db: LexiconDb, d: ValidatedEntryDraft) {
    && (forall k :: 0 <= k < |db.entries| ==> db.entries[k].id != d.entry.id)
    && (forall a, k :: 0 <= a < |d.variants| && 0 <= k < |db.variants| ==> d.variants[a].id != db.variants[k].id)
    && IdsDistinct(d.variants)
  }

  ghost predicate IdsApart(c: ValidatedEntryDraft, d: ValidatedEntryDraft) {
    && c.entry.id != d.entry.id
    && forall a, b :: 0 <= a < |c.variants| && 0 <= b < |d.variants| ==> c.variants[a].id != d.variants[b].id
  }

  /** No identifier was ever drawn before. */
  ghost predicate FreshIds(db: LexiconDb, drafts: seq<ValidatedEntryDraft>) {
    && (forall k :: 0 <= k < |drafts| ==> NewTo(db, drafts[k]))
    && (forall i, j :: 0 <= i < j < |drafts| ==> IdsApart(drafts[i], drafts[j]))
  }

  predicate ProfileExists(db: LexiconDb, d: ValidatedEntryDraft) {
    d.entry.scope.Profile? ==> d.entry.scope.profileId in db.profiles
  }

  ghost predicate ProfilesExist(db: LexiconDb, drafts: seq<ValidatedEntryDraft>) {
    forall k :: 0 <= k < |drafts| ==> ProfileExists(db, drafts[k])
  }

  lemma {:induction false} InsertVariantsSucceeds(rows: seq<LexiconVariant>, entryId: nat,
                                                  variants: seq<LexiconVariant>)
    requires forall k :: 0 <= k < |variants| ==> variants[k].entryId == entryId && VariantInsertable(rows, variants[k])
    requires forall i, j :: 0 <= i < j < |variants| ==>
      variants[i].id != variants[j].id && !SameVariant(variants[i], variants[j])
    ensures InsertVariants(rows, entryId, variants).Success?
    decreases |variants|
  {
    if variants != [] {
      var more, rest := rows + [variants[0]], variants[1..];
      forall k | 0 <= k < |rest| ensures rest[k].entryId == entryId && VariantInsertable(more, rest[k]) {
        assert rest[k] == variants[k + 1] && VariantInsertable(rows, variants[k + 1]);
      }
      InsertVariantsSucceeds(more, entryId, rest);
    }
  }

  lemma {:induction false} UniqueKeepsIdsApart(variants: seq<LexiconVariant>, seen: set<string>)
    requires IdsDistinct(variants)
    ensures IdsDistinct(UniqueVariants(variants, seen))
    decreases |variants|
  {
    if variants == [] {
    } else if SeenKey(variants[0]) in seen {
      assert IdsDistinct(variants[1..]);
      UniqueKeepsIdsApart(variants[1..], seen);
    } else {
      assert IdsDistinct(variants[1..]);
      var next := seen + {SeenKey(variants[0])};
      UniqueKeepsIdsApart(variants[1..], next);
      UniqueSubset(variants[1..], next);
      var rest := UniqueVariants(variants[1..], next);
      forall b | 0 <= b < |rest| ensures variants[0].id != rest[b].id {
        assert rest[b] in rest && rest[b] in variants[1..];
      }
    }
  }

  lemma KeptInsertable(show: nat -> string, db: LexiconDb, d: ValidatedEntryDraft, v: LexiconVariant)
    requires Sound(show, db) && ValidatedDraft(d) && NewTo(db, d) && v in d.variants
    ensures v.entryId == d.entry.id && VariantInsertable(db.variants, v)
  {
    var a :| 0 <= a < |d.variants| && d.variants[a] == v;
    forall k | 0 <= k < |db.variants| ensures db.variants[k].id != v.id && !SameVariant(db.variants[k], v) {
      assert HasEntry(db.entries, db.variants[k].entryId);
    }
  }

  /** With new identifiers only a missing profile stops an entry whose identity is new. */
  lemma InsertSucceeds(show: nat -> string, db: LexiconDb, d: ValidatedEntryDraft)
    requires Sound(show, db) && ValidatedDraft(d) && NewTo(db, d)
    requires !HasIdentity(show, db.entries, IdentityKey(show, d.entry))
    ensures InsertEntryAndVariants(show, db, d.entry, UniqueVariants(d.variants, {})).Success? <==> ProfileExists(db, d)
  {
    var kept := UniqueVariants(d.variants, {});
    UniqueSubset(d.variants, {});
    UniqueApart(d.variants, {});
    UniqueKeepsIdsApart(d.variants, {});
    forall k | 0 <= k < |kept| ensures kept[k].entryId == d.entry.id && VariantInsertable(db.variants, kept[k]) {
      assert kept[k] in kept;
      KeptInsertable(show, db, d, kept[k]);
    }
    forall i, j | 0 <= i < j < |kept| ensures kept[i].id != kept[j].id && !SameVariant(kept[i], kept[j]) {
      SeenKeyExact(kept[i], kept[j]);
    }
    InsertVariantsSucceeds(db.variants, d.entry.id, kept);
  }

  lemma FreshAfter(db: LexiconDb, drafts: seq<ValidatedEntryDraft>, kept: seq<LexiconVariant>)
    requires drafts != [] && FreshIds(db, drafts) && forall w :: w in kept ==> w in drafts[0].variants
    ensures FreshIds(LexiconDb(db.profiles, db.entries + [drafts[0].entry], db.variants + kept), drafts[1..])
  {
    var next := LexiconDb(db.profiles, db.entries + [drafts[0].entry], db.variants + kept);
    forall i | 0 <= i < |drafts[1..]| ensures NewTo(next, drafts[1..][i]) {
      var d := drafts[i + 1];
      assert NewTo(db, drafts[i + 1]) && IdsApart(drafts[0], drafts[i + 1]);
      forall a, k | 0 <= a < |d.variants| && 0 <= k < |next.variants| ensures d.variants[a].id != next.variants[k].id {
        if k >= |db.variants| {
          assert next.variants[k] == kept[k - |db.variants|] && next.variants[k] in kept;
          var b :| 0 <= b < |drafts[0].variants| && drafts[0].variants[b] == next.variants[k];
        }
      }
    }
    forall i, j | 0 <= i < j < |drafts[1..]| ensures IdsApart(drafts[1..][i], drafts[1..][j]) {
      assert IdsApart(drafts[i + 1], drafts[j + 1]);
    }
  }

  /** A validated import with new identifiers fails only over a missing profile of an entry it would add. */
  lemma {:induction false} ImportFromSucceeds(show: nat -> string, db: LexiconDb, drafts: seq<ValidatedEntryDraft>,
                                              seen: set<string>,
                                              report: LexiconImportReport)
    requires Sound(show, db) && FreshIds(db, drafts) && seen <= Identities(show, db.entries)
    requires forall k :: 0 <= k < |drafts| ==> ValidatedDraft(drafts[k])
    ensures ImportFrom(show, db, drafts, seen, report).Success? <==>
      ProfilesExist(db, Added(show, Identities(show, db.entries), drafts))
    decreases |drafts|
  {
    if drafts != [] {
      var d, key, known := drafts[0], IdentityKey(show, drafts[0].entry), Identities(show, db.entries);
      assert NewTo(db, drafts[0]);
      if key in known {
        FreshLater(db, drafts);
        ImportFromSucceeds(show, db, drafts[1..], seen + {key}, Skip(report));
      } else {
        var kept := UniqueVariants(d.variants, {});
        InsertSucceeds(show, db, d);
        InsertAppends(show, db, d.entry, kept);
        var rest := Added(show, known + {key}, drafts[1..]);
        assert ProfilesExist(db, [d] + rest)
          <==> ProfileExists(db, d) && ProfilesExist(db, rest) by { FirstProfile(db, d, rest); }
        if ProfileExists(db, d) {
          var next := InsertEntryAndVariants(show, db, d.entry, kept).value;
          InsertSound(show, db, d);
          UniqueSubset(d.variants, {});
          FreshAfter(db, drafts, kept);
          IdentitiesGrow(show, db.entries, d.entry);
          ImportFromSucceeds(show, next, drafts[1..], seen + {key}, Add(report, |kept|, |d.variants|));
          assert ProfilesExist(next, rest) <==> ProfilesExist(db, rest);
        }
      }
    }
  }

  lemma FreshLater(db: LexiconDb, drafts: seq<ValidatedEntryDraft>)
    requires drafts != [] && FreshIds(db, drafts)
    ensures FreshIds(db, drafts[1..])
  {
    assert forall k :: 0 <= k < |drafts[1..]| ==> drafts[1..][k] == drafts[k + 1] && NewTo(db, drafts[k + 1]);
    forall i, j | 0 <= i < j < |drafts[1..]| ensures IdsApart(drafts[1..][i], drafts[1..][j]) {
      assert IdsApart(drafts[i + 1], drafts[j + 1]);
    }
  }

  lemma FirstProfile(db: LexiconDb, d: ValidatedEntryDraft, rest: seq<ValidatedEntryDraft>)
    ensures ProfilesExist(db, [d] + rest) <==> ProfileExists(db, d) && ProfilesExist(db, rest)
  {
    var all := [d] + rest;
    assert all[0] == d;
    assert forall k :: 0 <= k < |rest| ==> all[k + 1] == rest[k];
    if ProfilesExist(db, all) {
      assert ProfileExists(db, all[0]);
      forall k | 0 <= k < |rest| ensures ProfileExists(db, rest[k]) { assert ProfileExists(db, all[k + 1]); }
    }
  }

  // ----- the whole operation -----

  lemma {:induction false} ValidatedAreValid(u: Unicode, ids: nat -> NewIds, drafts: seq<LexiconEntryDraft>, k: nat)
    requires k <= |drafts|
    ensures forall i :: 0 <= i < |Validated(u, ids, drafts, k)| ==> ValidatedDraft(Validated(u, ids, drafts, k)[i])
    decreases |drafts| - k
  {
    if k < |drafts| {
      ValidatedAreValid(u, ids, drafts, k + 1);
      NewEntryWellFormed(u, ids(k).entryId, drafts[k]);
      NewVariantsWellFormed(u, ids(k), drafts[k].variants, 0);
    }
  }

  lemma {:induction false} ValidatedCount(u: Unicode, ids: nat -> NewIds, drafts: seq<LexiconEntryDraft>, k: nat)
    requires k <= |drafts|
    ensures |Validated(u, ids, drafts, k)| + |Refused(u, ids, drafts, k)| == |drafts| - k
    decreases |drafts| - k
  {
    if k < |drafts| { ValidatedCount(u, ids, drafts, k + 1); }
  }

  /** An import keeps the tables sound, appends exactly the first draft of every new identity with one variant per
      key, and its report accounts for every draft and every variant. */
  lemma ImportExact(u: Unicode, show: nat -> string, ids: nat -> NewIds, db: LexiconDb, drafts: seq<LexiconEntryDraft>)
    requires Sound(show, db)
    ensures var r := ImportDrafts(u, show, ids, db, drafts);
      var added := Added(show, Identities(show, db.entries), Validated(u, ids, drafts, 0));
      r.Success? ==>
        && Sound(show, r.value.db)
        && r.value.db == Appended(db, added)
        && r.value.report.addedEntries == |added|
        && r.value.report.addedEntries + r.value.report.skipped == |drafts|
        && r.value.report.duplicateEntries == r.value.report.skipped
        && r.value.report.addedVariants == |KeptVariants(added)|
        && r.value.report.addedVariants + r.value.report.duplicateVariants == TotalVariants(added)
  {
    var validated := Validated(u, ids, drafts, 0);
    ValidatedAreValid(u, ids, drafts, 0);
    ValidatedCount(u, ids, drafts, 0);
    ImportFromSound(show, db, validated, {}, NO_REPORT);
    ImportFromExact(show, db, validated, {}, NO_REPORT);
  }

  /** When an import succeeds: every draft is valid and the profiles of the entries to be added exist. */
  lemma ImportSucceeds(u: Unicode, show: nat -> string, ids: nat -> NewIds, db: LexiconDb,
                       drafts: seq<LexiconEntryDraft>)
    requires Sound(show, db) && FreshIds(db, Validated(u, ids, drafts, 0))
    ensures ImportDrafts(u, show, ids, db, drafts).Success? <==>
      Refused(u, ids, drafts, 0) == []
      && ProfilesExist(db, Added(show, Identities(show, db.entries), Validated(u, ids, drafts, 0)))
  {
    ValidatedAreValid(u, ids, drafts, 0);
    ImportFromSucceeds(show, db, Validated(u, ids, drafts, 0), {}, NO_REPORT);
  }

  // ----- importing again -----

  ghost predicate AllKnown(show: nat -> string, entries: seq<LexiconEntry>, drafts: seq<ValidatedEntryDraft>) {
    forall k :: 0 <= k < |drafts| ==> HasIdentity(show, entries, IdentityKey(show, drafts[k].entry))
  }

  function AlsoSkipped(report: LexiconImportReport, n: nat): LexiconImportReport {
    report.(duplicateEntries := report.duplicateEntries + n, skipped := report.skipped + n)
  }

  /** Drafts whose identities are all stored change nothing. */
  lemma {:induction false} SkipsKnown(show: nat -> string, db: LexiconDb, drafts: seq<ValidatedEntryDraft>,
                                      seen: set<string>, report: LexiconImportReport)
    requires AllKnown(show, db.entries, drafts)
    ensures ImportFrom(show, db, drafts, seen, report)
         == Success(Imported(db, AlsoSkipped(report, |drafts|)))
    decreases |drafts|
  {
    if drafts != [] {
      assert HasIdentity(show, db.entries, IdentityKey(show, drafts[0].entry));
      SkipsKnown(show, db, drafts[1..], seen + {IdentityKey(show, drafts[0].entry)}, Skip(report));
    }
  }

  /** After a successful run every draft's identity is stored. */
  lemma {:induction false} KnownAfter(show: nat -> string, db: LexiconDb, drafts: seq<ValidatedEntryDraft>,
                                      seen: set<string>, report: LexiconImportReport)
    requires seen <= Identities(show, db.entries)
    ensures var r := ImportFrom(show, db, drafts, seen, report);
      r.Success? ==>
        AllKnown(show, r.value.db.entries, drafts)
        && Identities(show, db.entries) <= Identities(show, r.value.db.entries)
    decreases |drafts|
  {
    if drafts != [] {
      var d, key := drafts[0], IdentityKey(show, drafts[0].entry);
      if key in Identities(show, db.entries) {
        KnownAfter(show, db, drafts[1..], seen + {key}, Skip(report));
      } else {
        var kept := UniqueVariants(d.variants, {});
        var next := InsertEntryAndVariants(show, db, d.entry, kept);
        if next.Success? {
          InsertAppends(show, db, d.entry, kept);
          IdentitiesGrow(show, db.entries, d.entry);
          KnownAfter(show, next.value, drafts[1..], seen + {key}, Add(report, |kept|, |d.variants|));
        }
      }
      var r := ImportFrom(show, db, drafts, seen, report);
      if r.Success? { assert key in Identities(show, r.value.db.entries); }
    }
  }

  lemma {:induction false} VariantsIgnoreIds(u: Unicode, ids: NewIds, other: NewIds, drafts: seq<LexiconVariantDraft>,
                                             k: nat)
    requires k <= |drafts|
    ensures NewVariants(u, ids, drafts, k).Success? <==> NewVariants(u, other, drafts, k).Success?
    decreases |drafts| - k
  {
    if k < |drafts| { VariantsIgnoreIds(u, ids, other, drafts, k + 1); }
  }

  /** Neither refusals nor identities depend on the identifiers drawn. */
  lemma {:induction false} ValidationIgnoresIds(u: Unicode, show: nat -> string, ids: nat -> NewIds,
                                                other: nat -> NewIds,
                                                drafts: seq<LexiconEntryDraft>, k: nat)
    requires k <= |drafts|
    ensures Refused(u, ids, drafts, k) == Refused(u, other, drafts, k)
    ensures var a, b := Validated(u, ids, drafts, k), Validated(u, other, drafts, k);
      |a| == |b| && forall j :: 0 <= j < |a| ==> IdentityKey(show, a[j].entry) == IdentityKey(show, b[j].entry)
    decreases |drafts| - k
  {
    if k < |drafts| {
      VariantsIgnoreIds(u, ids(k), other(k), drafts[k].variants, 0);
      ValidationIgnoresIds(u, show, ids, other, drafts, k + 1);
    }
  }

  function AllSkipped(n: nat): LexiconImportReport {
    LexiconImportReport(0, 0, n, 0, n)
  }

  lemma KnownAlike(show: nat -> string, entries: seq<LexiconEntry>, a: seq<ValidatedEntryDraft>,
                   b: seq<ValidatedEntryDraft>)
    requires AllKnown(show, entries, a) && |a| == |b|
    requires forall j :: 0 <= j < |a| ==> IdentityKey(show, a[j].entry) == IdentityKey(show, b[j].entry)
    ensures AllKnown(show, entries, b)
  {
    forall k | 0 <= k < |b| ensures HasIdentity(show, entries, IdentityKey(show, b[k].entry)) {
      assert HasIdentity(show, entries, IdentityKey(show, a[k].entry));
    }
  }

  lemma AllKnownSkipped(u: Unicode, show: nat -> string, other: nat -> NewIds, db: LexiconDb,
                        drafts: seq<LexiconEntryDraft>)
    requires Refused(u, other, drafts, 0) == [] && AllKnown(show, db.entries, Validated(u, other, drafts, 0))
    ensures ImportDrafts(u, show, other, db, drafts) == Success(Imported(db, AllSkipped(|drafts|)))
  {
    ValidatedCount(u, other, drafts, 0);
    SkipsKnown(show, db, Validated(u, other, drafts, 0), {}, NO_REPORT);
  }

  /** Importing the same drafts again, with whatever new identifiers, skips all of them and changes nothing. */
  lemma ImportAgain(u: Unicode, show: nat -> string, ids: nat -> NewIds, other: nat -> NewIds, db: LexiconDb,
                    drafts: seq<LexiconEntryDraft>)
    ensures var r := ImportDrafts(u, show, ids, db, drafts);
      r.Success? ==>
        ImportDrafts(u, show, other, r.value.db, drafts) == Success(Imported(r.value.db, AllSkipped(|drafts|)))
  {
    var r := ImportDrafts(u, show, ids, db, drafts);
    if r.Success? {
      var first := Validated(u, ids, drafts, 0);
      KnownAfter(show, db, first, {}, NO_REPORT);
      ValidationIgnoresIds(u, show, ids, other, drafts, 0);
      KnownAlike(show, r.value.db.entries, first, Validated(u, other, drafts, 0));
      AllKnownSkipped(u, show, other, r.value.db, drafts);
    }
  }
}
