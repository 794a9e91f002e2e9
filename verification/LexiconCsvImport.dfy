/** Reading a lexicon sheet back: columns by header name, rows grouped into entries, and the round trip. */
module LexiconCsvImport {
  import opened Results
  import opened Sorting
  import opened Text
  import opened Lexicon
  import opened Csv
  import opened LexiconCsv

  // ----- one row -----

  datatype CsvLexiconRow = CsvLexiconRow(
    canonicalText: string,
    language: Option<string>,
    category: Option<string>,
    priority: nat,
    enabled: bool,
    scope: string,
    profileId: Option<string>,
    variantText: Option<string>,
    matchMode: Option<string>)

  /** The first position of `name`, or the length when it is absent. */
  function IndexOf(headers: seq<string>, name: string): (k: nat)
    ensures k <= |headers|
  {
    if headers == [] || headers[0] == name then 0 else 1 + IndexOf(headers[1..], name)
  }

  lemma {:induction false} IndexFound(headers: seq<string>, k: nat)
    requires k < |headers| && forall j :: 0 <= j < k ==> headers[j] != headers[k]
    ensures IndexOf(headers, headers[k]) == k
  {
    if k > 0 {
      assert headers[0] != headers[k];
      IndexFound(headers[1..], k - 1);
    }
  }

  /** The field under a header, if the sheet has that column. */
  function Column(headers: seq<string>, record: seq<string>, name: string): Option<string>
    requires |record| == |headers|
  {
    var k := IndexOf(headers, name);
    if k < |headers| then Some(record[k]) else None
  }

  /** An empty field stands for a missing optional value. */
  function Optional(field: Option<string>): Option<string> {
    if field == Some("") then None else field
  }

  predicate RepeatsKnownColumn(headers: seq<string>) {
    exists i, j :: 0 <= i < j < |headers| && headers[i] == headers[j] && headers[i] in HEADERS
  }

  function ReadBool(field: Option<string>): Option<bool> {
    match field
    case None => Some(true)
    case Some(s) => if s == "true" then Some(true) else if s == "false" then Some(false) else None
  }

  function ReadNumber(f: Formats, field: Option<string>): Option<nat> {
    if field.Some? then f.readPriority(field.value) else None
  }

  /** One trimmed record as a row, or nothing when a column is missing, repeated or unreadable. */
  function ReadRow(f: Formats, headers: seq<string>, record: seq<string>): Option<CsvLexiconRow> {
    if |record| != |headers| || RepeatsKnownColumn(headers) then None
    else
      var canonical := Column(headers, record, "canonical_text");
      var priority := ReadNumber(f, Column(headers, record, "priority"));
      var enabled := ReadBool(Column(headers, record, "enabled"));
      var scope := Column(headers, record, "scope");
      if canonical.None? || priority.None? || enabled.None? || scope.None? then None
      else Some(CsvLexiconRow(
        canonical.value,
        Optional(Column(headers, record, "language")),
        Optional(Column(headers, record, "category")),
        priority.value,
        enabled.value,
        scope.value,
        Optional(Column(headers, record, "profile_id")),
        Optional(Column(headers, record, "variant_text")),
        Optional(Column(headers, record, "match_mode"))))
  }

  function CsvScope(f: Formats, scope: string, profileId: Option<string>): Option<LexiconScope> {
    if scope == "global" then (if profileId.Some? then None else Some(Global))
    else if scope == "profile" then
      if profileId.None? then None
      else match f.readProfile(profileId.value)
        case Some(id) => Some(Profile(id))
        case None => None
    else None
  }

  function ParseMatchMode(s: string): Option<MatchMode> {
    if s == "exact_casefold" then Some(ExactCasefold)
    else if s == "exact_case_sensitive" then Some(ExactCaseSensitive)
    else None
  }

  // ----- grouping rows into entries -----

  /** One slot of the ordered map from grouping key to entry. */
  datatype Group = Group(key: string, draft: LexiconEntryDraft)

  function GroupingKey(f: Formats, canonical: string, language: Option<string>, category: Option<string>,
                       scope: LexiconScope): string {
    canonical + "|" + GetOr(language) + "|" + GetOr(category) + "|" + f.debugScope(scope)
  }

  function KeyOf(f: Formats, e: LexiconEntryDraft): string {
    GroupingKey(f, e.canonicalText, e.language, e.category, e.scope)
  }

  function FindGroup(groups: seq<Group>, key: string): (k: nat)
    ensures k <= |groups| && (k < |groups| ==> groups[k].key == key)
    ensures forall j :: 0 <= j < k ==> groups[j].key != key
  {
    if groups == [] || groups[0].key == key then 0 else 1 + FindGroup(groups[1..], key)
  }

  function FreshDraft(row: CsvLexiconRow, scope: LexiconScope): LexiconEntryDraft {
    LexiconEntryDraft(row.canonicalText, row.language, row.category, row.priority, row.enabled, scope, [])
  }

  /** The variant of a row: none, exactly one, or an error when text and mode do not come together. */
  function RowVariants(row: CsvLexiconRow): Option<seq<LexiconVariantDraft>> {
    if row.variantText.None? && row.matchMode.None? then Some([])
    else if row.variantText.None? || row.matchMode.None? then None
    else match ParseMatchMode(row.matchMode.value)
      case Some(mode) => Some([LexiconVariantDraft(row.variantText.value, mode)])
      case None => None
  }

  function Absorb(f: Formats, groups: seq<Group>, row: CsvLexiconRow): Option<seq<Group>> {
    match CsvScope(f, row.scope, row.profileId)
    case None => None
    case Some(scope) =>
      var key := GroupingKey(f, row.canonicalText, row.language, row.category, scope);
      var k := FindGroup(groups, key);
      var draft := if k < |groups| then groups[k].draft else FreshDraft(row, scope);
      match RowVariants(row)
      case None => None
      case Some(variants) =>
        if draft.priority != row.priority || draft.enabled != row.enabled then None
        else
          var group := Group(key, draft.(variants := draft.variants + variants));
          Some(if k < |groups| then groups[k := group] else groups + [group])
  }

  type Stepper = (seq<string>, seq<Group>) -> Option<seq<Group>>

  /** One turn of the import loop on a raw record. */
  function Step(f: Formats, headers: seq<string>): Stepper {
    (record: seq<string>, groups: seq<Group>) =>
      match ReadRow(f, headers, TrimAll(record))
      case None => None
      case Some(row) => Absorb(f, groups, row)
  }

  /** The groups after every record, or the line number of the first record that is refused. */
  function AbsorbAll(step: Stepper, records: seq<seq<string>>, line: nat, groups: seq<Group>): Result<seq<Group>, nat> {
    if records == [] then Success(groups)
    else match step(records[0], groups)
      case None => Failure(line)
      case Some(more) => AbsorbAll(step, records[1..], line + 1, more)
  }

  predicate KeyLe(a: Group, b: Group) {
    StringLe(a.key, b.key)
  }

  function Drafts(groups: seq<Group>): seq<LexiconEntryDraft> {
    if groups == [] then [] else [groups[0].draft] + Drafts(groups[1..])
  }

  /** The entries of a sheet in key order. */
  function ParseLexiconCsv(f: Formats, csv: string): Result<seq<LexiconEntryDraft>, nat> {
    var records := ReadRecords(csv);
    if records == [] then Success([])
    else match AbsorbAll(Step(f, TrimAll(records[0])), records[1..], 2, [])
      case Success(groups) => Success(Drafts(Sort(groups, KeyLe)))
      case Failure(line) => Failure(line)
  }

  method ParseSheet(f: Formats, csv: string) returns (result: Result<seq<LexiconEntryDraft>, nat>)
    ensures result == ParseLexiconCsv(f, csv)
  {
    var records := ReadRecords(csv);
    if records == [] { return Success([]); }
    var headers := TrimAll(records[0]);
    var rows := records[1..];
    var grouped: seq<Group> := [];
    assert rows[0..] == rows;
    for i := 0 to |rows|
      invariant AbsorbAll(Step(f, headers), rows, 2, []) == AbsorbAll(Step(f, headers), rows[i..], i + 2, grouped)
    {
      var record := TrimAll(rows[i]);
      assert rows[i..][0] == rows[i] && rows[i..][1..] == rows[i + 1..];
      var row := ReadRow(f, headers, record);
      if row.None? { return Failure(i + 2); }
      var more := Absorb(f, grouped, row.value);
      if more.None? { return Failure(i + 2); }
      grouped := more.value;
    }
    return Success(Drafts(Sort(grouped, KeyLe)));
  }

  // ----- an exported row reads back as itself -----

  /** Text as the validating constructor leaves it: trimmed, and never present but empty. */
  predicate Normalised(e: LexiconEntryDraft) {
    && Trimmed(e.canonicalText) && Present(e.language) && Present(e.category) && e.priority <= 255
    && forall v :: v in e.variants ==> v.variantText != "" && Trimmed(v.variantText)
  }

  predicate NormalisedVariant(v: Option<LexiconVariantDraft>) {
    v.Some? ==> v.value.variantText != "" && Trimmed(v.value.variantText)
  }

  function RowOf(f: Formats, e: LexiconEntryDraft, v: Option<LexiconVariantDraft>): CsvLexiconRow {
    CsvLexiconRow(e.canonicalText, e.language, e.category, e.priority, e.enabled, ShowScope(e.scope),
                  if e.scope.Global? then None else Some(f.showProfile(e.scope.profileId)),
                  if v.Some? then Some(v.value.variantText) else None,
                  if v.Some? then Some(ShowMode(v.value.matchMode)) else None)
  }

  lemma HeadersDiffer()
    ensures forall i, j :: 0 <= i < j < |HEADERS| ==> HEADERS[i] != HEADERS[j]
  {
  }

  lemma HeadersTrimmed()
    ensures TrimAll(HEADERS) == HEADERS
  {
    HeadersAreWords();
    forall s | s in HEADERS ensures Trimmed(s) {
      WordBare(s);
    }
    TrimAllTrimmed(HEADERS);
  }

  /** In the exported sheet the column named by the k-th header is the k-th field. */
  lemma ColumnAt(record: seq<string>, k: nat)
    requires |record| == |HEADERS| && k < |HEADERS|
    ensures Column(HEADERS, record, HEADERS[k]) == Some(record[k])
  {
    HeadersDiffer();
    IndexFound(HEADERS, k);
  }

  lemma FieldsTrimmed(f: Formats, e: LexiconEntryDraft, v: Option<LexiconVariantDraft>)
    requires Faithful(f) && Normalised(e) && NormalisedVariant(v)
    ensures TrimAll(RowFields(f, e, v)) == RowFields(f, e, v)
  {
    FixedTextWords(e, if v.Some? then v.value.matchMode else ExactCasefold);
    var r := RowFields(f, e, v);
    WordBare(r[4]);
    WordBare(r[5]);
    WordBare(r[8]);
    TrimAllTrimmed(r);
  }

  lemma ReadShown(b: bool, mode: MatchMode)
    ensures ReadBool(Some(ShowBool(b))) == Some(b)
    ensures ParseMatchMode(ShowMode(mode)) == Some(mode) && ShowMode(mode) != ""
  {
  }

  /** The named columns of a record laid out like the exported sheet. */
  lemma RequiredColumns(r: seq<string>)
    requires |r| == |HEADERS|
    ensures Column(HEADERS, r, "canonical_text") == Some(r[0])
    ensures Column(HEADERS, r, "priority") == Some(r[3])
    ensures Column(HEADERS, r, "enabled") == Some(r[4])
    ensures Column(HEADERS, r, "scope") == Some(r[5])
  {
    ColumnAt(r, 0);
    ColumnAt(r, 3);
    ColumnAt(r, 4);
    ColumnAt(r, 5);
  }

  lemma OptionalColumns(r: seq<string>)
    requires |r| == |HEADERS|
    ensures Column(HEADERS, r, "language") == Some(r[1])
    ensures Column(HEADERS, r, "category") == Some(r[2])
    ensures Column(HEADERS, r, "profile_id") == Some(r[6])
    ensures Column(HEADERS, r, "variant_text") == Some(r[7])
    ensures Column(HEADERS, r, "match_mode") == Some(r[8])
  {
    ColumnAt(r, 1);
    ColumnAt(r, 2);
    ColumnAt(r, 6);
    ColumnAt(r, 7);
    ColumnAt(r, 8);
  }

  /** What a row of the exported layout reads as, field by field. */
  function RowFrom(f: Formats, r: seq<string>): Option<CsvLexiconRow>
    requires |r| == 9
  {
    var priority, enabled := f.readPriority(r[3]), ReadBool(Some(r[4]));
    if priority.None? || enabled.None? then None
    else Some(CsvLexiconRow(r[0], Optional(Some(r[1])), Optional(Some(r[2])), priority.value, enabled.value, r[5],
                            Optional(Some(r[6])), Optional(Some(r[7])), Optional(Some(r[8]))))
  }

  lemma ReadInLayout(f: Formats, r: seq<string>)
    requires |r| == 9
    ensures ReadRow(f, HEADERS, r) == RowFrom(f, r)
  {
    HeadersDiffer();
    RequiredColumns(r);
    OptionalColumns(r);
  }

  lemma OptionalShown(o: Option<string>)
    requires Present(o)
    ensures Optional(Some(GetOr(o))) == o
  {
  }

  lemma ScopeShown(f: Formats, scope: LexiconScope)
    requires Faithful(f)
    ensures var id := Optional(Some(ShowProfileId(f, scope)));
      id == (if scope.Global? then None else Some(f.showProfile(scope.profileId)))
      && CsvScope(f, ShowScope(scope), id) == Some(scope)
  {
    if scope.Profile? { assert Plain(f.showProfile(scope.profileId)); }
  }

  lemma VariantShown(v: Option<LexiconVariantDraft>)
    requires NormalisedVariant(v)
    ensures Optional(Some(if v.Some? then v.value.variantText else ""))
      == (if v.Some? then Some(v.value.variantText) else None)
    ensures Optional(Some(if v.Some? then ShowMode(v.value.matchMode) else ""))
      == (if v.Some? then Some(ShowMode(v.value.matchMode)) else None)
  {
    if v.Some? { ReadShown(true, v.value.matchMode); }
  }

  lemma ReadExportedFields(f: Formats, e: LexiconEntryDraft, v: Option<LexiconVariantDraft>)
    requires Faithful(f) && Normalised(e) && NormalisedVariant(v)
    ensures RowFrom(f, RowFields(f, e, v)) == Some(RowOf(f, e, v))
  {
    var r := RowFields(f, e, v);
    OptionalShown(e.language);
    OptionalShown(e.category);
    ScopeShown(f, e.scope);
    VariantShown(v);
    assert f.readPriority(r[3]) == Some(e.priority);
    assert ReadBool(Some(r[4])) == Some(e.enabled) by { ReadShown(e.enabled, ExactCasefold); }
  }

  lemma ReadExportedRow(f: Formats, e: LexiconEntryDraft, v: Option<LexiconVariantDraft>)
    requires Faithful(f) && Normalised(e) && NormalisedVariant(v)
    ensures ReadRow(f, HEADERS, TrimAll(RowFields(f, e, v))) == Some(RowOf(f, e, v))
  {
    FieldsTrimmed(f, e, v);
    ReadInLayout(f, RowFields(f, e, v));
    ReadExportedFields(f, e, v);
  }

  // ----- grouping the exported rows restores the entries -----

  function GroupOf(f: Formats, e: LexiconEntryDraft): Group {
    Group(KeyOf(f, e), e)
  }

  function GroupsOf(f: Formats, entries: seq<LexiconEntryDraft>): (g: seq<Group>)
    ensures |g| == |entries| && forall k :: 0 <= k < |g| ==> g[k] == GroupOf(f, entries[k])
  {
    if entries == [] then [] else [GroupOf(f, entries[0])] + GroupsOf(f, entries[1..])
  }

  ghost predicate NoGroup(groups: seq<Group>, key: string) {
    forall k :: 0 <= k < |groups| ==> groups[k].key != key
  }

  lemma {:induction false} FindNew(groups: seq<Group>, group: Group, key: string)
    requires NoGroup(groups, key)
    ensures FindGroup(groups, key) == |groups|
    ensures group.key == key ==> FindGroup(groups + [group], key) == |groups|
  {
    assert (groups + [group])[|groups|] == group;
  }

  /** The first row of an entry opens its group. */
  lemma AbsorbFirst(f: Formats, groups: seq<Group>, e: LexiconEntryDraft, v: Option<LexiconVariantDraft>)
    requires Faithful(f) && NoGroup(groups, KeyOf(f, e))
    ensures Absorb(f, groups, RowOf(f, e, v))
         == Some(groups + [GroupOf(f, e.(variants := if v.Some? then [v.value] else []))])
  {
    ScopeShown(f, e.scope);
    FindNew(groups, GroupOf(f, e), KeyOf(f, e));
    var variants: seq<LexiconVariantDraft> := if v.Some? then [v.value] else [];
    assert [] + variants == variants;
    assert RowVariants(RowOf(f, e, v)) == Some(variants) by {
      if v.Some? { ReadShown(true, v.value.matchMode); }
    }
    assert FreshDraft(RowOf(f, e, v), e.scope) == e.(variants := []);
  }

  /** Every further row of an entry adds its variant to the end of the open group. */
  lemma AbsorbNext(f: Formats, groups: seq<Group>, e: LexiconEntryDraft, part: seq<LexiconVariantDraft>,
                   v: LexiconVariantDraft)
    requires Faithful(f) && NoGroup(groups, KeyOf(f, e))
    ensures Absorb(f, groups + [GroupOf(f, e.(variants := part))], RowOf(f, e, Some(v)))
         == Some(groups + [GroupOf(f, e.(variants := part + [v]))])
  {
    var open := GroupOf(f, e.(variants := part));
    ScopeShown(f, e.scope);
    FindNew(groups, open, KeyOf(f, e));
    ReadShown(true, v.matchMode);
    assert (groups + [open])[|groups| := GroupOf(f, e.(variants := part + [v]))]
        == groups + [GroupOf(f, e.(variants := part + [v]))];
  }

  function WithVariant(e: LexiconEntryDraft, v: Option<LexiconVariantDraft>): LexiconEntryDraft {
    e.(variants := if v.Some? then [v.value] else [])
  }

  /** `row`, read while no group has the key of `e`, opens the group of `e` with the variant `v`. */
  ghost predicate Opens(step: Stepper, f: Formats, e: LexiconEntryDraft, row: seq<string>,
                        v: Option<LexiconVariantDraft>) {
    forall groups :: NoGroup(groups, KeyOf(f, e)) ==>
      step(row, groups) == Some(groups + [GroupOf(f, WithVariant(e, v))])
  }

  /** `row`, read right after the group of `e` was opened, adds the variant `v` to it. */
  ghost predicate Extends(step: Stepper, f: Formats, e: LexiconEntryDraft, row: seq<string>, v: LexiconVariantDraft) {
    forall groups, part :: NoGroup(groups, KeyOf(f, e)) ==>
      step(row, groups + [GroupOf(f, e.(variants := part))]) == Some(groups + [GroupOf(f, e.(variants := part + [v]))])
  }

  lemma StepOpens(f: Formats, e: LexiconEntryDraft, v: Option<LexiconVariantDraft>)
    requires Faithful(f) && Normalised(e) && NormalisedVariant(v)
    ensures Opens(Step(f, HEADERS), f, e, RowFields(f, e, v), v)
  {
    var step := Step(f, HEADERS);
    forall groups | NoGroup(groups, KeyOf(f, e))
      ensures step(RowFields(f, e, v), groups) == Some(groups + [GroupOf(f, WithVariant(e, v))])
    {
      ReadExportedRow(f, e, v);
      AbsorbFirst(f, groups, e, v);
    }
  }

  lemma StepExtends(f: Formats, e: LexiconEntryDraft, v: LexiconVariantDraft)
    requires Faithful(f) && Normalised(e) && NormalisedVariant(Some(v))
    ensures Extends(Step(f, HEADERS), f, e, RowFields(f, e, Some(v)), v)
  {
    var step := Step(f, HEADERS);
    forall groups, part | NoGroup(groups, KeyOf(f, e))
      ensures step(RowFields(f, e, Some(v)), groups + [GroupOf(f, e.(variants := part))])
           == Some(groups + [GroupOf(f, e.(variants := part + [v]))])
    {
      ReadExportedRow(f, e, Some(v));
      AbsorbNext(f, groups, e, part, v);
    }
  }

  /** Every row adds its variant to the group of `e`. */
  ghost predicate RowsExtend(step: Stepper, f: Formats, e: LexiconEntryDraft, rows: seq<seq<string>>,
                             vs: seq<LexiconVariantDraft>) {
    |rows| == |vs| && forall k :: 0 <= k < |vs| ==> Extends(step, f, e, rows[k], vs[k])
  }

  lemma AbsorbVariant(step: Stepper, f: Formats, groups: seq<Group>, e: LexiconEntryDraft,
                      part: seq<LexiconVariantDraft>, v: LexiconVariantDraft, row: seq<string>,
                      rest: seq<seq<string>>, line: nat)
    requires Extends(step, f, e, row, v) && NoGroup(groups, KeyOf(f, e))
    ensures AbsorbAll(step, [row] + rest, line, groups + [GroupOf(f, e.(variants := part))])
         == AbsorbAll(step, rest, line + 1, groups + [GroupOf(f, e.(variants := part + [v]))])
  {
    assert ([row] + rest)[0] == row && ([row] + rest)[1..] == rest;
  }

  lemma {:induction false} AbsorbVariants(step: Stepper, f: Formats, groups: seq<Group>, e: LexiconEntryDraft,
                                          part: seq<LexiconVariantDraft>, vs: seq<LexiconVariantDraft>,
                                          rows: seq<seq<string>>, tail: seq<seq<string>>, line: nat)
    requires RowsExtend(step, f, e, rows, vs) && NoGroup(groups, KeyOf(f, e))
    ensures AbsorbAll(step, rows + tail, line, groups + [GroupOf(f, e.(variants := part))])
         == AbsorbAll(step, tail, line + |vs|, groups + [GroupOf(f, e.(variants := part + vs))])
    decreases |vs|
  {
    if vs == [] {
      assert rows + tail == tail && part + vs == part;
    } else {
      assert rows + tail == [rows[0]] + (rows[1..] + tail);
      AbsorbVariant(step, f, groups, e, part, vs[0], rows[0], rows[1..] + tail, line);
      AbsorbVariants(step, f, groups, e, part + [vs[0]], vs[1..], rows[1..], tail, line + 1);
      assert (part + [vs[0]]) + vs[1..] == part + vs;
    }
  }

  /** `rows`, read while no group has the key of `e`, leave exactly the group of `e` behind. */
  ghost predicate Restores(step: Stepper, f: Formats, e: LexiconEntryDraft, rows: seq<seq<string>>) {
    forall groups, tail, line: nat :: NoGroup(groups, KeyOf(f, e)) ==>
      AbsorbAll(step, rows + tail, line, groups) == AbsorbAll(step, tail, line + |rows|, groups + [GroupOf(f, e)])
  }

  lemma RestoresBare(step: Stepper, f: Formats, e: LexiconEntryDraft, row: seq<string>)
    requires e.variants == [] && Opens(step, f, e, row, None)
    ensures Restores(step, f, e, [row])
  {
    assert WithVariant(e, None) == e;
    forall groups, tail, line: nat | NoGroup(groups, KeyOf(f, e))
      ensures AbsorbAll(step, [row] + tail, line, groups) == AbsorbAll(step, tail, line + 1, groups + [GroupOf(f, e)])
    {
      assert ([row] + tail)[0] == row && ([row] + tail)[1..] == tail;
    }
  }

  lemma RestoresVariants(step: Stepper, f: Formats, e: LexiconEntryDraft, rows: seq<seq<string>>)
    requires |rows| == |e.variants| > 0 && Opens(step, f, e, rows[0], Some(e.variants[0]))
    requires forall k :: 1 <= k < |rows| ==> Extends(step, f, e, rows[k], e.variants[k])
    ensures Restores(step, f, e, rows)
  {
    var v, rest := e.variants[0], e.variants[1..];
    forall groups, tail, line: nat | NoGroup(groups, KeyOf(f, e))
      ensures AbsorbAll(step, rows + tail, line, groups)
        == AbsorbAll(step, tail, line + |rows|, groups + [GroupOf(f, e)])
    {
      assert (rows + tail)[0] == rows[0] && (rows + tail)[1..] == rows[1..] + tail;
      AbsorbVariants(step, f, groups, e, [v], rest, rows[1..], tail, line + 1);
      assert [v] + rest == e.variants && e.(variants := e.variants) == e;
    }
  }

  lemma EntryRestores(f: Formats, e: LexiconEntryDraft)
    requires Faithful(f) && Normalised(e)
    ensures Restores(Step(f, HEADERS), f, e, EntryRows(f, e))
  {
    var step := Step(f, HEADERS);
    if e.variants == [] {
      StepOpens(f, e, None);
      RestoresBare(step, f, e, RowFields(f, e, None));
    } else {
      var rows := VariantRows(f, e, e.variants);
      VariantRowsAt(f, e, e.variants);
      assert e.variants[0] in e.variants;
      StepOpens(f, e, Some(e.variants[0]));
      forall k | 1 <= k < |rows| ensures Extends(step, f, e, rows[k], e.variants[k]) {
        assert e.variants[k] in e.variants;
        StepExtends(f, e, e.variants[k]);
      }
      RestoresVariants(step, f, e, rows);
    }
  }

  lemma {:induction false} VariantRowsAt(f: Formats, e: LexiconEntryDraft, variants: seq<LexiconVariantDraft>)
    ensures var rows := VariantRows(f, e, variants);
      |rows| == |variants| && forall k :: 0 <= k < |rows| ==> rows[k] == RowFields(f, e, Some(variants[k]))
  {
    if variants != [] { VariantRowsAt(f, e, variants[1..]); }
  }

  /** No two entries share a grouping key. */
  ghost predicate DistinctKeys(f: Formats, entries: seq<LexiconEntryDraft>) {
    forall i, j :: 0 <= i < j < |entries| ==> KeyOf(f, entries[i]) != KeyOf(f, entries[j])
  }

  ghost predicate Apart(f: Formats, groups: seq<Group>, entries: seq<LexiconEntryDraft>) {
    forall k :: 0 <= k < |entries| ==> NoGroup(groups, KeyOf(f, entries[k]))
  }

  function Flatten(blocks: seq<seq<seq<string>>>): seq<seq<string>> {
    if blocks == [] then [] else blocks[0] + Flatten(blocks[1..])
  }

  function Blocks(f: Formats, entries: seq<LexiconEntryDraft>): (b: seq<seq<seq<string>>>)
    ensures |b| == |entries| && forall k :: 0 <= k < |b| ==> b[k] == EntryRows(f, entries[k])
  {
    if entries == [] then [] else [EntryRows(f, entries[0])] + Blocks(f, entries[1..])
  }

  lemma {:induction false} RowsInBlocks(f: Formats, entries: seq<LexiconEntryDraft>)
    ensures AllRows(f, entries) == Flatten(Blocks(f, entries))
  {
    if entries != [] {
      RowsInBlocks(f, entries[1..]);
      assert Blocks(f, entries)[1..] == Blocks(f, entries[1..]);
    }
  }

  ghost predicate AllRestore(step: Stepper, f: Formats, entries: seq<LexiconEntryDraft>,
                             blocks: seq<seq<seq<string>>>) {
    |blocks| == |entries| && forall k :: 0 <= k < |entries| ==> Restores(step, f, entries[k], blocks[k])
  }

  lemma RestoreFirst(step: Stepper, f: Formats, groups: seq<Group>, entries: seq<LexiconEntryDraft>,
                     blocks: seq<seq<seq<string>>>,
                     tail: seq<seq<string>>, line: nat)
    requires entries != [] && AllRestore(step, f, entries, blocks) && NoGroup(groups, KeyOf(f, entries[0]))
    ensures AbsorbAll(step, blocks[0] + tail, line, groups)
         == AbsorbAll(step, tail, line + |blocks[0]|, groups + [GroupOf(f, entries[0])])
    ensures AllRestore(step, f, entries[1..], blocks[1..])
  {
    assert Restores(step, f, entries[0], blocks[0]);
  }

  lemma GroupsOfCons(f: Formats, groups: seq<Group>, entries: seq<LexiconEntryDraft>)
    requires entries != []
    ensures (groups + [GroupOf(f, entries[0])]) + GroupsOf(f, entries[1..]) == groups + GroupsOf(f, entries)
  {
  }

  lemma {:induction false} AbsorbBlocks(step: Stepper, f: Formats, groups: seq<Group>, entries: seq<LexiconEntryDraft>,
                                        blocks: seq<seq<seq<string>>>, line: nat)
    requires AllRestore(step, f, entries, blocks) && DistinctKeys(f, entries) && Apart(f, groups, entries)
    ensures AbsorbAll(step, Flatten(blocks), line, groups) == Success(groups + GroupsOf(f, entries))
    decreases |entries|
  {
    if entries == [] {
      assert groups + [] == groups;
    } else {
      ApartNext(f, groups, entries);
      RestoreFirst(step, f, groups, entries, blocks, Flatten(blocks[1..]), line);
      AbsorbBlocks(step, f, groups + [GroupOf(f, entries[0])], entries[1..], blocks[1..], line + |blocks[0]|);
      GroupsOfCons(f, groups, entries);
    }
  }

  lemma ApartNext(f: Formats, groups: seq<Group>, entries: seq<LexiconEntryDraft>)
    requires entries != [] && DistinctKeys(f, entries) && Apart(f, groups, entries)
    ensures NoGroup(groups, KeyOf(f, entries[0]))
    ensures DistinctKeys(f, entries[1..]) && Apart(f, groups + [GroupOf(f, entries[0])], entries[1..])
  {
    var rest, more := entries[1..], groups + [GroupOf(f, entries[0])];
    forall k | 0 <= k < |rest| ensures NoGroup(more, KeyOf(f, rest[k])) {
      assert rest[k] == entries[k + 1];
      assert NoGroup(groups, KeyOf(f, entries[k + 1]));
    }
  }

  lemma AbsorbExported(f: Formats, entries: seq<LexiconEntryDraft>)
    requires Faithful(f) && DistinctKeys(f, entries) && forall e :: e in entries ==> Normalised(e)
    ensures AbsorbAll(Step(f, HEADERS), AllRows(f, entries), 2, []) == Success(GroupsOf(f, entries))
  {
    var blocks := Blocks(f, entries);
    forall k | 0 <= k < |entries| ensures Restores(Step(f, HEADERS), f, entries[k], blocks[k]) {
      assert entries[k] in entries;
      EntryRestores(f, entries[k]);
    }
    RowsInBlocks(f, entries);
    AbsorbBlocks(Step(f, HEADERS), f, [], entries, blocks, 2);
    assert [] + GroupsOf(f, entries) == GroupsOf(f, entries);
  }

  // ----- order of the result -----

  lemma {:induction false} DraftsAt(groups: seq<Group>)
    ensures |Drafts(groups)| == |groups| && forall k :: 0 <= k < |groups| ==> Drafts(groups)[k] == groups[k].draft
  {
    if groups != [] { DraftsAt(groups[1..]); }
  }

  lemma {:induction false} DraftsConcat(a: seq<Group>, b: seq<Group>)
    ensures Drafts(a + b) == Drafts(a) + Drafts(b)
  {
    if a == [] {
      assert a + b == b;
    } else {
      assert (a + b)[1..] == a[1..] + b;
      DraftsConcat(a[1..], b);
    }
  }

  lemma {:induction false} DraftsPermute(a: seq<Group>, b: seq<Group>)
    requires multiset(a) == multiset(b)
    ensures multiset(Drafts(a)) == multiset(Drafts(b))
    decreases |a|
  {
    SameLength(a, b);
    if a == [] {
    } else {
      var p, q := LocateFirst(a, b);
      DraftsPermute(a[1..], p + q);
      DraftsConcat(p, q);
      DraftsConcat(p, [a[0]] + q);
      assert ([a[0]] + q)[1..] == q;
    }
  }

  lemma DistinctPermutes(f: Formats, a: seq<LexiconEntryDraft>, b: seq<LexiconEntryDraft>)
    requires multiset(a) == multiset(b) && DistinctKeys(f, a)
    ensures DistinctKeys(f, b)
  {
    var key := (e: LexiconEntryDraft) => KeyOf(f, e);
    DistinctByPermutes(a, b, key);
    forall i, j | 0 <= i < j < |b| ensures KeyOf(f, b[i]) != KeyOf(f, b[j]) {
      assert key(b[i]) != key(b[j]);
    }
  }

  // ----- every import keeps one group per key -----

  ghost predicate OnePerKey(f: Formats, groups: seq<Group>) {
    && (forall k :: 0 <= k < |groups| ==> groups[k].key == KeyOf(f, groups[k].draft))
    && (forall i, j :: 0 <= i < j < |groups| ==> groups[i].key != groups[j].key)
  }

  lemma AbsorbKeepsKeys(f: Formats, groups: seq<Group>, row: CsvLexiconRow)
    requires OnePerKey(f, groups) && Absorb(f, groups, row).Some?
    ensures OnePerKey(f, Absorb(f, groups, row).value)
  {
  }

  lemma {:induction false} AbsorbAllKeepsKeys(f: Formats, headers: seq<string>, records: seq<seq<string>>, line: nat,
                                              groups: seq<Group>)
    requires OnePerKey(f, groups)
    ensures var r := AbsorbAll(Step(f, headers), records, line, groups); r.Success? ==> OnePerKey(f, r.value)
    decreases |records|
  {
    if records != [] {
      var more := Step(f, headers)(records[0], groups);
      if more.Some? {
        AbsorbKeepsKeys(f, groups, ReadRow(f, headers, TrimAll(records[0])).value);
        AbsorbAllKeepsKeys(f, headers, records[1..], line + 1, more.value);
      }
    }
  }

  lemma OnePerKeyDistinct(f: Formats, groups: seq<Group>)
    requires OnePerKey(f, groups)
    ensures DistinctKeys(f, Drafts(groups))
  {
    DraftsAt(groups);
  }

  /** Whatever the sheet, an import never yields two entries with one grouping key. */
  lemma ParsedKeysDistinct(f: Formats, csv: string)
    ensures var r := ParseLexiconCsv(f, csv); r.Success? ==> DistinctKeys(f, r.value)
  {
    var records := ReadRecords(csv);
    if records != [] {
      var headers := TrimAll(records[0]);
      AbsorbAllKeepsKeys(f, headers, records[1..], 2, []);
      var r := AbsorbAll(Step(f, headers), records[1..], 2, []);
      if r.Success? {
        SortPermutes(r.value, KeyLe);
        DraftsPermute(Sort(r.value, KeyLe), r.value);
        OnePerKeyDistinct(f, r.value);
        DistinctPermutes(f, Drafts(r.value), Drafts(Sort(r.value, KeyLe)));
      }
    }
  }

  // ----- export, then import -----

  lemma {:induction false} RowsWide(f: Formats, entries: seq<LexiconEntryDraft>)
    ensures forall r :: r in AllRows(f, entries) ==> |r| == 9
  {
    if entries != [] {
      VariantRowsAt(f, entries[0], entries[0].variants);
      RowsWide(f, entries[1..]);
    }
  }

  lemma ReadSheet(f: Formats, entries: seq<LexiconEntryDraft>)
    ensures ReadRecords(PrintRecords(Sheet(f, entries))) == Sheet(f, entries)
  {
    RowsWide(f, entries);
    ReadPrinted(Sheet(f, entries));
  }

  lemma SheetParts(f: Formats, entries: seq<LexiconEntryDraft>)
    ensures var records := ReadRecords(PrintRecords(Sheet(f, entries)));
      records != [] && TrimAll(records[0]) == HEADERS && records[1..] == AllRows(f, entries)
  {
    ReadSheet(f, entries);
    HeadersTrimmed();
    assert Sheet(f, entries)[0] == HEADERS && Sheet(f, entries)[1..] == AllRows(f, entries);
  }

  lemma ParseExported(f: Formats, entries: seq<LexiconEntryDraft>)
    requires Faithful(f) && DistinctKeys(f, entries) && forall e :: e in entries ==> Normalised(e)
    ensures ParseLexiconCsv(f, PrintRecords(Sheet(f, entries))) == Success(Drafts(Sort(GroupsOf(f, entries), KeyLe)))
  {
    SheetParts(f, entries);
    AbsorbExported(f, entries);
  }

  /** Importing an exported lexicon gives back exactly its entries, up to their order, when and only when no two of
      them share a grouping key. */
  lemma ExportImport(f: Formats, entries: seq<LexiconEntryDraft>)
    requires Faithful(f) && forall e :: e in entries ==> Normalised(e)
    ensures var r := ParseLexiconCsv(f, PrintRecords(Sheet(f, entries)));
      (r.Success? && multiset(r.value) == multiset(entries)) <==> DistinctKeys(f, entries)
  {
    var csv := PrintRecords(Sheet(f, entries));
    var r := ParseLexiconCsv(f, csv);
    ParsedKeysDistinct(f, csv);
    if r.Success? && multiset(r.value) == multiset(entries) {
      DistinctPermutes(f, r.value, entries);
    }
    if DistinctKeys(f, entries) {
      ParseExported(f, entries);
      var groups := GroupsOf(f, entries);
      SortPermutes(groups, KeyLe);
      DraftsPermute(Sort(groups, KeyLe), groups);
      DraftsAt(groups);
      assert Drafts(groups) == entries;
    }
  }

  // ----- colliding keys lose an entry -----

  function Keys(f: Formats, entries: seq<LexiconEntryDraft>): set<string> {
    if entries == [] then {} else {KeyOf(f, entries[0])} + Keys(f, entries[1..])
  }

  lemma {:induction false} KeysOfEntries(f: Formats, entries: seq<LexiconEntryDraft>)
    ensures forall e :: e in entries ==> KeyOf(f, e) in Keys(f, entries)
    ensures |Keys(f, entries)| <= |entries|
  {
    if entries != [] {
      KeysOfEntries(f, entries[1..]);
      assert forall e :: e in entries ==> e == entries[0] || e in entries[1..];
    }
  }

  /** As many keys as entries means that all keys are different. */
  lemma {:induction false} FullKeysDistinct(f: Formats, entries: seq<LexiconEntryDraft>)
    requires |Keys(f, entries)| == |entries|
    ensures DistinctKeys(f, entries)
  {
    if entries != [] {
      var key, rest := KeyOf(f, entries[0]), entries[1..];
      KeysOfEntries(f, rest);
      assert key in Keys(f, rest) ==> {key} + Keys(f, rest) == Keys(f, rest);
      assert key !in Keys(f, rest);
      assert Keys(f, entries) == {key} + Keys(f, rest);
      FullKeysDistinct(f, rest);
      forall i, j | 0 <= i < j < |entries| ensures KeyOf(f, entries[i]) != KeyOf(f, entries[j]) {
        assert entries[j] == rest[j - 1] && rest[j - 1] in rest;
        if i > 0 { assert entries[i] == rest[i - 1]; }
      }
    }
  }

  ghost predicate KeysIn(groups: seq<Group>, keys: set<string>) {
    forall k :: 0 <= k < |groups| ==> groups[k].key in keys
  }

  lemma {:induction false} DistinctGroupsFit(groups: seq<Group>, keys: set<string>)
    requires KeysIn(groups, keys) && forall i, j :: 0 <= i < j < |groups| ==> groups[i].key != groups[j].key
    ensures |groups| <= |keys|
    decreases |groups|
  {
    if groups != [] {
      var key := groups[0].key;
      forall k | 0 <= k < |groups[1..]| ensures groups[1..][k].key in keys - {key} {
        assert groups[1..][k] == groups[k + 1];
      }
      DistinctGroupsFit(groups[1..], keys - {key});
    }
  }

  /** Reading `row` opens no group outside `keys`. */
  ghost predicate Stays(step: Stepper, keys: set<string>, row: seq<string>) {
    forall groups :: KeysIn(groups, keys) && step(row, groups).Some? ==> KeysIn(step(row, groups).value, keys)
  }

  lemma {:induction false} AbsorbStays(step: Stepper, keys: set<string>, records: seq<seq<string>>, line: nat,
                                       groups: seq<Group>)
    requires KeysIn(groups, keys) && forall k :: 0 <= k < |records| ==> Stays(step, keys, records[k])
    ensures var r := AbsorbAll(step, records, line, groups); r.Success? ==> KeysIn(r.value, keys)
    decreases |records|
  {
    if records != [] {
      assert Stays(step, keys, records[0]);
      var more := step(records[0], groups);
      if more.Some? { AbsorbStays(step, keys, records[1..], line + 1, more.value); }
    }
  }

  lemma ExportedRowStays(f: Formats, e: LexiconEntryDraft, v: Option<LexiconVariantDraft>, keys: set<string>)
    requires Faithful(f) && Normalised(e) && NormalisedVariant(v) && KeyOf(f, e) in keys
    ensures Stays(Step(f, HEADERS), keys, RowFields(f, e, v))
  {
    var step, row := Step(f, HEADERS), RowFields(f, e, v);
    forall groups | KeysIn(groups, keys) && step(row, groups).Some? ensures KeysIn(step(row, groups).value, keys) {
      ReadExportedRow(f, e, v);
      AbsorbKey(f, groups, e, v, keys);
    }
  }

  lemma AbsorbKey(f: Formats, groups: seq<Group>, e: LexiconEntryDraft, v: Option<LexiconVariantDraft>,
                  keys: set<string>)
    requires Faithful(f) && KeysIn(groups, keys) && KeyOf(f, e) in keys
    ensures var r := Absorb(f, groups, RowOf(f, e, v)); r.Some? ==> KeysIn(r.value, keys)
  {
    ScopeShown(f, e.scope);
  }

  lemma {:induction false} ExportedRowsStay(f: Formats, entries: seq<LexiconEntryDraft>, keys: set<string>)
    requires Faithful(f) && forall e :: e in entries ==> Normalised(e) && KeyOf(f, e) in keys
    ensures forall k :: 0 <= k < |AllRows(f, entries)| ==> Stays(Step(f, HEADERS), keys, AllRows(f, entries)[k])
  {
    if entries != [] {
      var e := entries[0];
      assert e in entries;
      var rows := EntryRows(f, e);
      EntryRowsStay(f, e, keys);
      ExportedRowsStay(f, entries[1..], keys);
      assert AllRows(f, entries) == rows + AllRows(f, entries[1..]);
    }
  }

  lemma EntryRowsStay(f: Formats, e: LexiconEntryDraft, keys: set<string>)
    requires Faithful(f) && Normalised(e) && KeyOf(f, e) in keys
    ensures forall k :: 0 <= k < |EntryRows(f, e)| ==> Stays(Step(f, HEADERS), keys, EntryRows(f, e)[k])
  {
    var rows := EntryRows(f, e);
    if e.variants == [] {
      ExportedRowStays(f, e, None, keys);
    } else {
      VariantRowsAt(f, e, e.variants);
      forall k | 0 <= k < |rows| ensures Stays(Step(f, HEADERS), keys, rows[k]) {
        assert e.variants[k] in e.variants;
        ExportedRowStays(f, e, Some(e.variants[k]), keys);
      }
    }
  }

  /** An import of an export that yields as many entries as were exported had no two keys alike. */
  lemma FullImportDistinct(f: Formats, entries: seq<LexiconEntryDraft>)
    requires Faithful(f) && forall e :: e in entries ==> Normalised(e)
    ensures var r := ParseLexiconCsv(f, PrintRecords(Sheet(f, entries)));
      r.Success? ==> |r.value| <= |entries| && (|r.value| == |entries| ==> DistinctKeys(f, entries))
  {
    SheetParts(f, entries);
    var all := AbsorbAll(Step(f, HEADERS), AllRows(f, entries), 2, []);
    if all.Success? {
      var groups, keys := all.value, Keys(f, entries);
      KeysOfEntries(f, entries);
      ExportedRowsStay(f, entries, keys);
      AbsorbStays(Step(f, HEADERS), keys, AllRows(f, entries), 2, []);
      AbsorbAllKeepsKeys(f, HEADERS, AllRows(f, entries), 2, []);
      DistinctGroupsFit(groups, keys);
      SortPermutes(groups, KeyLe);
      DraftsAt(Sort(groups, KeyLe));
      if |groups| == |entries| { FullKeysDistinct(f, entries); }
    }
  }

  lemma KeyLeTotal()
    ensures TotalPreorder(KeyLe)
  {
    forall a, b ensures KeyLe(a, b) || KeyLe(b, a) {
      StringLeTotal(a.key, b.key);
    }
    forall a, b, c | KeyLe(a, b) && KeyLe(b, c) ensures KeyLe(a, c) {
      StringLeTransitive(a.key, b.key, c.key);
    }
  }

  /** The entries come out in the order of their keys. */
  lemma ExportImportSorted(f: Formats, entries: seq<LexiconEntryDraft>)
    requires Faithful(f) && DistinctKeys(f, entries) && forall e :: e in entries ==> Normalised(e)
    ensures var r := ParseLexiconCsv(f, PrintRecords(Sheet(f, entries)));
      r.Success? && forall i, j :: 0 <= i < j < |r.value| ==> StringLe(KeyOf(f, r.value[i]), KeyOf(f, r.value[j]))
  {
    ParseExported(f, entries);
    KeyLeTotal();
    var groups := GroupsOf(f, entries);
    var sorted := Sort(groups, KeyLe);
    SortSorts(groups, KeyLe);
    SortElements(groups, KeyLe);
    DraftsAt(sorted);
    forall i | 0 <= i < |sorted| ensures sorted[i].key == KeyOf(f, sorted[i].draft) {
      assert sorted[i] in sorted && sorted[i] in groups;
    }
    forall i, j | 0 <= i < j < |sorted| ensures StringLe(sorted[i].key, sorted[j].key) {
      assert KeyLe(sorted[i], sorted[j]);
    }
  }

  /** Term `a|b` in language `c`. */
  const BAR_IN_TERM := LexiconEntryDraft("a|b", Some("c"), None, 1, true, Global, [])

  /** Term `a` in language `b` with category `c|`. */
  const BAR_IN_CATEGORY := LexiconEntryDraft("a", Some("b"), Some("c|"), 1, true, Global, [])

  /** Two different normalised entries that the joined key cannot tell apart: a bar in a field plays the separator. */
  lemma BarCollides(f: Formats)
    ensures BAR_IN_TERM != BAR_IN_CATEGORY && Normalised(BAR_IN_TERM) && Normalised(BAR_IN_CATEGORY)
    ensures KeyOf(f, BAR_IN_TERM) == KeyOf(f, BAR_IN_CATEGORY)
  {
    assert KeyOf(f, BAR_IN_TERM) == "a|b|c||" + f.debugScope(Global);
    assert KeyOf(f, BAR_IN_CATEGORY) == "a|b|c||" + f.debugScope(Global);
  }

  predicate NoBars(e: LexiconEntryDraft) {
    '|' !in e.canonicalText && '|' !in GetOr(e.language) && '|' !in GetOr(e.category)
  }

  lemma JoinedPartsEqual(a: string, b: string, c: string, d: string, a': string, b': string, c': string, d': string)
    requires '|' !in a && '|' !in b && '|' !in c && '|' !in a' && '|' !in b' && '|' !in c'
    requires a + "|" + b + "|" + c + "|" + d == a' + "|" + b' + "|" + c' + "|" + d'
    ensures a == a' && b == b' && c == c' && d == d'
  {
    var cd, cd' := c + "|" + d, c' + "|" + d';
    var bcd, bcd' := b + "|" + cd, b' + "|" + cd';
    assert a + "|" + bcd == a + "|" + b + "|" + c + "|" + d;
    assert a' + "|" + bcd' == a' + "|" + b' + "|" + c' + "|" + d';
    SplitAtBar(a, bcd, a', bcd');
    SplitAtBar(b, cd, b', cd');
    SplitAtBar(c, d, c', d');
  }

  /** Without bars in the text fields only entries of the same term, language, category and scope text share a key. */
  lemma KeyExactWithoutBars(f: Formats, a: LexiconEntryDraft, b: LexiconEntryDraft)
    requires Normalised(a) && Normalised(b) && NoBars(a) && NoBars(b)
    ensures KeyOf(f, a) == KeyOf(f, b) <==>
      a.canonicalText == b.canonicalText && a.language == b.language && a.category == b.category
      && f.debugScope(a.scope) == f.debugScope(b.scope)
  {
    if KeyOf(f, a) == KeyOf(f, b) {
      JoinedPartsEqual(a.canonicalText, GetOr(a.language), GetOr(a.category), f.debugScope(a.scope),
                       b.canonicalText, GetOr(b.language), GetOr(b.category), f.debugScope(b.scope));
    }
  }
}
