/** The lexicon tables and the import of drafts with de-duplication. */
module LexiconImport {
  import opened Results
  import opened Lexicon
  import opened LexiconValidation

  datatype LexiconDb = LexiconDb(profiles: set<nat>, entries: seq<LexiconEntry>, variants: seq<LexiconVariant>)

  datatype LexiconImportReport = LexiconImportReport(
    addedEntries: nat,
    addedVariants: nat,
    duplicateEntries: nat,
    duplicateVariants: nat,
    skipped: nat)

  datatype ImportError = ImportValidation(items: seq<nat>) | VariantOfOtherEntry | ConstraintViolation

  datatype Imported = Imported(db: LexiconDb, report: LexiconImportReport)

  // ----- keys -----

  function ScopeText(show: nat -> string, scope: LexiconScope): string {
    match scope
    case Global => "global"
    case Profile(id) => "profile:" + show(id)
  }

  function IdentityKey(show: nat -> string, e: LexiconEntry): string {
    ScopeText(show, e.scope) + "|" + GetOr(e.language) + "|" + e.canonicalKey
  }

  function ModeText(mode: MatchMode): string {
    match mode
    case ExactCasefold => "ExactCasefold"
    case ExactCaseSensitive => "ExactCaseSensitive"
  }

  function SeenKey(v: LexiconVariant): string {
    v.variantKey + "|" + ModeText(v.matchMode)
  }

  // ----- tables -----

  predicate HasIdentity(show: nat -> string, entries: seq<LexiconEntry>, key: string) {
    exists k :: 0 <= k < |entries| && IdentityKey(show, entries[k]) == key
  }

  /** The primary key, the unique identity, the priority check and the profile reference. */
  predicate EntryInsertable(show: nat -> string, db: LexiconDb, e: LexiconEntry) {
    && (forall k :: 0 <= k < |db.entries| ==> db.entries[k].id != e.id)
    && !HasIdentity(show, db.entries, IdentityKey(show, e))
    && e.priority <= MAX_PRIORITY
    && (e.scope.Profile? ==> e.scope.profileId in db.profiles)
  }

  predicate SameVariant(a: LexiconVariant, b: LexiconVariant) {
    a.entryId == b.entryId && a.variantKey == b.variantKey && a.matchMode == b.matchMode
  }

  /** The primary key and `UNIQUE (entry_id, variant_key, match_mode)`. */
  predicate VariantInsertable(rows: seq<LexiconVariant>, v: LexiconVariant) {
    forall k :: 0 <= k < |rows| ==> rows[k].id != v.id && !SameVariant(rows[k], v)
  }

  function InsertVariants(rows: seq<LexiconVariant>, entryId: nat,
                          variants: seq<LexiconVariant>): Result<seq<LexiconVariant>, ImportError>
    decreases |variants|
  {
    if variants == [] then Success(rows)
    else if variants[0].entryId != entryId then Failure(VariantOfOtherEntry)
    else if !VariantInsertable(rows, variants[0]) then Failure(ConstraintViolation)
    else InsertVariants(rows + [variants[0]], entryId, variants[1..])
  }

  function InsertEntryAndVariants(show: nat -> string, db: LexiconDb, e: LexiconEntry, variants: seq<LexiconVariant>)
    : Result<LexiconDb, ImportError>
  {
    if !EntryInsertable(show, db, e) then Failure(ConstraintViolation)
    else match InsertVariants(db.variants, e.id, variants)
      case Failure(error) => Failure(error)
      case Success(rows) => Success(LexiconDb(db.profiles, db.entries + [e], rows))
  }

  // ----- import -----

  /** The first variant of every key that is not in `seen`. */
  function UniqueVariants(variants: seq<LexiconVariant>, seen: set<string>): (r: seq<LexiconVariant>)
    ensures |r| <= |variants|
    decreases |variants|
  {
    if variants == [] then []
    else if SeenKey(variants[0]) in seen then UniqueVariants(variants[1..], seen)
    else [variants[0]] + UniqueVariants(variants[1..], seen + {SeenKey(variants[0])})
  }

  method KeepFirstVariants(variants: seq<LexiconVariant>) returns (unique: seq<LexiconVariant>, duplicates: nat)
    ensures unique == UniqueVariants(variants, {})
    ensures |unique| + duplicates == |variants|
  {
    unique, duplicates := [], 0;
    var seen: set<string> := {};
    assert variants[0..] == variants;
    for k := 0 to |variants|
      invariant unique + UniqueVariants(variants[k..], seen) == UniqueVariants(variants, {})
      invariant |unique| + duplicates == k
    {
      var v := variants[k];
      assert variants[k..][0] == v && variants[k..][1..] == variants[k + 1..];
      if SeenKey(v) in seen {
        duplicates := duplicates + 1;
      } else {
        AppendOne(unique, v, UniqueVariants(variants[k + 1..], seen + {SeenKey(v)}));
        unique := unique + [v];
        seen := seen + {SeenKey(v)};
      }
    }
    assert unique + [] == unique;
  }

  function Skip(report: LexiconImportReport): LexiconImportReport {
    report.(duplicateEntries := report.duplicateEntries + 1, skipped := report.skipped + 1)
  }

  function Add(report: LexiconImportReport, kept: nat, total: nat): LexiconImportReport
    requires kept <= total
  {
    report.(addedEntries := report.addedEntries + 1,
            addedVariants := report.addedVariants + kept,
            duplicateVariants := report.duplicateVariants + (total - kept))
  }

  /** The import loop over validated drafts, given the identities met so far. */
  function ImportFrom(show: nat -> string, db: LexiconDb, drafts: seq<ValidatedEntryDraft>, seen: set<string>,
                      report: LexiconImportReport)
    : Result<Imported, ImportError>
    decreases |drafts|
  {
    if drafts == [] then Success(Imported(db, report))
    else
      var d, key := drafts[0], IdentityKey(show, drafts[0].entry);
      if key in seen || HasIdentity(show, db.entries, key) then
        ImportFrom(show, db, drafts[1..], seen + {key}, Skip(report))
      else
        var kept := UniqueVariants(d.variants, {});
        match InsertEntryAndVariants(show, db, d.entry, kept)
        case Failure(error) => Failure(error)
        case Success(next) => ImportFrom(show, next, drafts[1..], seen + {key}, Add(report, |kept|, |d.variants|))
  }

  /** Stores one new entry with the first variant of each of its keys and counts what was stored. */
  method InsertDraft(show: nat -> string, tx: LexiconDb, d: ValidatedEntryDraft, report: LexiconImportReport)
    returns (inserted: Result<Imported, ImportError>)
    ensures var kept := UniqueVariants(d.variants, {});
      match InsertEntryAndVariants(show, tx, d.entry, kept)
      case Failure(error) => inserted == Failure(error)
      case Success(next) => inserted == Success(Imported(next, Add(report, |kept|, |d.variants|)))
  {
    var unique, duplicates := KeepFirstVariants(d.variants);
    match InsertEntryAndVariants(show, tx, d.entry, unique) {
      case Failure(error) => inserted := Failure(error);
      case Success(next) => inserted := Success(Imported(next, Add(report, |unique|, |unique| + duplicates)));
    }
  }

  const NO_REPORT := LexiconImportReport(0, 0, 0, 0, 0)

  /** The validated drafts from position `k` on, without the refused ones. */
  function Validated(u: Unicode, ids: nat -> NewIds, drafts: seq<LexiconEntryDraft>, k: nat): seq<ValidatedEntryDraft>
    requires k <= |drafts|
    decreases |drafts| - k
  {
    if k == |drafts| then []
    else match Validate(u, ids(k), drafts[k])
      case Success(v) => [v] + Validated(u, ids, drafts, k + 1)
      case Failure(_) => Validated(u, ids, drafts, k + 1)
  }

  /** The positions from `k` on whose draft is refused. */
  function Refused(u: Unicode, ids: nat -> NewIds, drafts: seq<LexiconEntryDraft>, k: nat): seq<nat>
    requires k <= |drafts|
    decreases |drafts| - k
  {
    if k == |drafts| then []
    else match Validate(u, ids(k), drafts[k])
      case Success(_) => Refused(u, ids, drafts, k + 1)
      case Failure(_) => [k] + Refused(u, ids, drafts, k + 1)
  }

  function ImportDrafts(u: Unicode, show: nat -> string, ids: nat -> NewIds, db: LexiconDb,
                        drafts: seq<LexiconEntryDraft>)
    : Result<Imported, ImportError>
  {
    if Refused(u, ids, drafts, 0) != [] then Failure(ImportValidation(Refused(u, ids, drafts, 0)))
    else ImportFrom(show, db, Validated(u, ids, drafts, 0), {}, NO_REPORT)
  }

  /** The lexicon tables behind one connection; a transaction that fails leaves them as they were. */
  class LexiconRepository {
    var db: LexiconDb

    constructor (profiles: set<nat>)
      ensures db == LexiconDb(profiles, [], [])
    {
      db := LexiconDb(profiles, [], []);
    }

    method ValidateAll(u: Unicode, ids: nat -> NewIds, drafts: seq<LexiconEntryDraft>)
      returns (validated: seq<ValidatedEntryDraft>, errors: seq<nat>)
      ensures validated == Validated(u, ids, drafts, 0) && errors == Refused(u, ids, drafts, 0)
    {
      validated, errors := [], [];
      for k := 0 to |drafts|
        invariant validated + Validated(u, ids, drafts, k) == Validated(u, ids, drafts, 0)
        invariant errors + Refused(u, ids, drafts, k) == Refused(u, ids, drafts, 0)
      {
        var r := Validate(u, ids(k), drafts[k]);
        if r.Success? {
          AppendOne(validated, r.value, Validated(u, ids, drafts, k + 1));
          validated := validated + [r.value];
        } else {
          AppendOne(errors, k, Refused(u, ids, drafts, k + 1));
          errors := errors + [k];
        }
      }
      assert validated + [] == validated && errors + [] == errors;
    }

    method Import(u: Unicode, show: nat -> string, ids: nat -> NewIds, drafts: seq<LexiconEntryDraft>)
      returns (result: Result<LexiconImportReport, ImportError>)
      modifies this
      ensures match ImportDrafts(u, show, ids, old(db), drafts)
        case Failure(e) => result == Failure(e) && db == old(db)
        case Success(done) => result == Success(done.report) && db == done.db
    {
      var validated, errors := ValidateAll(u, ids, drafts);
      if errors != [] { return Failure(ImportValidation(errors)); }
      var tx, report := db, NO_REPORT;
      var seen: set<string> := {};
      assert validated[0..] == validated;
      for k := 0 to |validated|
        invariant db == old(db)
        invariant ImportFrom(show, tx, validated[k..], seen, report) == ImportFrom(show, db, validated, {}, NO_REPORT)
      {
        var d, key := validated[k], IdentityKey(show, validated[k].entry);
        assert validated[k..][0] == d && validated[k..][1..] == validated[k + 1..];
        if key in seen || HasIdentity(show, tx.entries, key) {
          report := Skip(report);
        } else {
          var inserted := InsertDraft(show, tx, d, report);
          if inserted.Failure? { return Failure(inserted.error); }
          tx, report := inserted.value.db, inserted.value.report;
        }
        seen := seen + {key};
      }
      db := tx;
      return Success(report);
    }
  }
}
