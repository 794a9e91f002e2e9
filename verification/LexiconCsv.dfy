/** The lexicon as a spreadsheet: one row per variant on export, rows grouped back into entries on import. */
module LexiconCsv {
  import opened Results
  import opened Sorting
  import opened Text
  import opened Lexicon
  import opened Csv

  /** How numbers, ids and debug output are written and read; only their mutual agreement matters. */
  datatype Formats = Formats(
    showPriority: nat -> string,
    readPriority: string -> Option<nat>,
    showProfile: nat -> string,
    readProfile: string -> Option<nat>,
    debugScope: LexiconScope -> string)

  /** What is printed without quoting is unquoted, non-blank text that reads back. */
  ghost predicate Faithful(f: Formats) {
    && (forall n: nat :: n <= 255 ==> Plain(f.showPriority(n)) && f.readPriority(f.showPriority(n)) == Some(n))
    && (forall id: nat :: Plain(f.showProfile(id)) && f.readProfile(f.showProfile(id)) == Some(id))
  }

  predicate Plain(s: string) {
    s != "" && !NeedsQuotes(s) && Trimmed(s)
  }

  const HEADERS: seq<string> :=
    ["canonical_text", "language", "category", "priority", "enabled", "scope", "profile_id", "variant_text",
     "match_mode"]

  // ----- export -----

  function ShowMode(mode: MatchMode): string {
    match mode
    case ExactCasefold => "exact_casefold"
    case ExactCaseSensitive => "exact_case_sensitive"
  }

  function ShowBool(b: bool): string {
    if b then "true" else "false"
  }

  function ShowScope(scope: LexiconScope): string {
    match scope
    case Global => "global"
    case Profile(_) => "profile"
  }

  function ShowProfileId(f: Formats, scope: LexiconScope): string {
    match scope
    case Global => ""
    case Profile(id) => f.showProfile(id)
  }

  /** The fields of one row, before quoting. */
  function RowFields(f: Formats, e: LexiconEntryDraft, v: Option<LexiconVariantDraft>): seq<string> {
    [e.canonicalText, GetOr(e.language), GetOr(e.category), f.showPriority(e.priority), ShowBool(e.enabled),
     ShowScope(e.scope), ShowProfileId(f, e.scope),
     if v.Some? then v.value.variantText else "", if v.Some? then ShowMode(v.value.matchMode) else ""]
  }

  /** The row as written: only free text is passed through the quoting. */
  function RowLine(f: Formats, e: LexiconEntryDraft, v: Option<LexiconVariantDraft>): string {
    var r := RowFields(f, e, v);
    Join([CsvField(r[0]), CsvField(r[1]), CsvField(r[2]), r[3], r[4], r[5], CsvField(r[6]), CsvField(r[7]), r[8]], ",")
  }

  function VariantRows(f: Formats, e: LexiconEntryDraft, variants: seq<LexiconVariantDraft>): seq<seq<string>> {
    if variants == [] then [] else [RowFields(f, e, Some(variants[0]))] + VariantRows(f, e, variants[1..])
  }

  function EntryRows(f: Formats, e: LexiconEntryDraft): seq<seq<string>> {
    if e.variants == [] then [RowFields(f, e, None)] else VariantRows(f, e, e.variants)
  }

  function AllRows(f: Formats, entries: seq<LexiconEntryDraft>): seq<seq<string>> {
    if entries == [] then [] else EntryRows(f, entries[0]) + AllRows(f, entries[1..])
  }

  lemma {:induction false} AllRowsConcat(f: Formats, a: seq<LexiconEntryDraft>, b: seq<LexiconEntryDraft>)
    ensures AllRows(f, a + b) == AllRows(f, a) + AllRows(f, b)
  {
    if a == [] {
      assert a + b == b;
    } else {
      assert (a + b)[1..] == a[1..] + b;
      AllRowsConcat(f, a[1..], b);
    }
  }

  lemma {:induction false} VariantRowsConcat(f: Formats, e: LexiconEntryDraft, a: seq<LexiconVariantDraft>,
                                             b: seq<LexiconVariantDraft>)
    ensures VariantRows(f, e, a + b) == VariantRows(f, e, a) + VariantRows(f, e, b)
  {
    if a == [] {
      assert a + b == b;
    } else {
      assert (a + b)[1..] == a[1..] + b;
      VariantRowsConcat(f, e, a[1..], b);
    }
  }

  /** Lower-case letters and underscores: the fixed vocabulary of the format. */
  predicate Word(s: string) {
    forall k :: 0 <= k < |s| ==> 'a' <= s[k] <= 'z' || s[k] == '_'
  }

  lemma WordBare(s: string)
    requires Word(s)
    ensures !NeedsQuotes(s) && Trimmed(s)
  {
  }

  lemma HeadersAreWords()
    ensures forall h :: h in HEADERS ==> Word(h)
  {
    assert Word("canonical_text") && Word("language") && Word("category") && Word("priority") && Word("enabled");
    assert Word("scope") && Word("profile_id") && Word("variant_text") && Word("match_mode");
  }

  lemma FixedTextWords(e: LexiconEntryDraft, mode: MatchMode)
    ensures Word(ShowBool(e.enabled)) && Word(ShowScope(e.scope)) && Word(ShowMode(mode))
  {
  }

  lemma FixedTextBare(f: Formats, e: LexiconEntryDraft, v: Option<LexiconVariantDraft>)
    requires Faithful(f) && e.priority <= 255
    ensures var r := RowFields(f, e, v);
      !NeedsQuotes(r[3]) && !NeedsQuotes(r[4]) && !NeedsQuotes(r[5]) && !NeedsQuotes(r[8])
  {
    FixedTextWords(e, if v.Some? then v.value.matchMode else ExactCasefold);
    var r := RowFields(f, e, v);
    WordBare(r[4]);
    WordBare(r[5]);
    WordBare(r[8]);
  }

  /** Quoting only the free text gives the same line as quoting every field. */
  lemma RowLineIsRecord(f: Formats, e: LexiconEntryDraft, v: Option<LexiconVariantDraft>)
    requires Faithful(f) && e.priority <= 255
    ensures RowLine(f, e, v) == PrintRecord(RowFields(f, e, v))
  {
    FixedTextBare(f, e, v);
    var r := RowFields(f, e, v);
    QuotedJoin(r);
    assert RowLine(f, e, v) == Join(Quoted(r), ",") by {
      assert Quoted(r)
        == [CsvField(r[0]), CsvField(r[1]), CsvField(r[2]), r[3], r[4], r[5], CsvField(r[6]), CsvField(r[7]), r[8]];
    }
  }

  function Quoted(r: seq<string>): (q: seq<string>)
    ensures |q| == |r| && forall k :: 0 <= k < |r| ==> q[k] == CsvField(r[k])
  {
    if r == [] then [] else [CsvField(r[0])] + Quoted(r[1..])
  }

  lemma {:induction false} QuotedJoin(r: seq<string>)
    ensures Join(Quoted(r), ",") == PrintRecord(r)
  {
    if |r| > 1 {
      assert Quoted(r)[1..] == Quoted(r[1..]);
      QuotedJoin(r[1..]);
    }
  }

  lemma LinePushed(f: Formats, e: LexiconEntryDraft, v: Option<LexiconVariantDraft>, rows: seq<seq<string>>)
    requires Faithful(f) && e.priority <= 255
    ensures PrintRecords(rows) + (RowLine(f, e, v) + "\n") == PrintRecords(rows + [RowFields(f, e, v)])
  {
    RowLineIsRecord(f, e, v);
    PrintOneMore(rows, RowFields(f, e, v));
    var line := PrintRecord(RowFields(f, e, v));
    assert PrintRecords(rows) + (line + "\n") == PrintRecords(rows) + line + "\n";
  }

  /** Pushes the row of one entry for each of its variants, or a single row when it has none. */
  method PushEntryRows(f: Formats, e: LexiconEntryDraft, csv: string,
                       ghost rows: seq<seq<string>>) returns (longer: string)
    requires Faithful(f) && e.priority <= 255 && csv == PrintRecords(rows)
    ensures longer == PrintRecords(rows + EntryRows(f, e))
  {
    longer := csv;
    if e.variants == [] {
      LinePushed(f, e, None, rows);
      longer := longer + (RowLine(f, e, None) + "\n");
    } else {
      ghost var done := rows;
      assert rows + [] == rows;
      for k := 0 to |e.variants|
        invariant longer == PrintRecords(done) && done == rows + VariantRows(f, e, e.variants[..k])
      {
        var v := Some(e.variants[k]);
        LinePushed(f, e, v, done);
        longer := longer + (RowLine(f, e, v) + "\n");
        done := done + [RowFields(f, e, v)];
        OneMoreVariant(f, e, k);
      }
      assert e.variants[..|e.variants|] == e.variants;
    }
  }

  lemma OneMoreVariant(f: Formats, e: LexiconEntryDraft, k: nat)
    requires k < |e.variants|
    ensures VariantRows(f, e, e.variants[..k + 1])
      == VariantRows(f, e, e.variants[..k]) + [RowFields(f, e, Some(e.variants[k]))]
  {
    VariantRowsConcat(f, e, e.variants[..k], [e.variants[k]]);
    assert [e.variants[k]][1..] == [];
    assert e.variants[..k] + [e.variants[k]] == e.variants[..k + 1];
  }

  lemma OneMoreEntry(f: Formats, entries: seq<LexiconEntryDraft>, i: nat)
    requires i < |entries|
    ensures AllRows(f, entries[..i + 1]) == AllRows(f, entries[..i]) + EntryRows(f, entries[i])
  {
    AllRowsConcat(f, entries[..i], [entries[i]]);
    assert [entries[i]][1..] == [] && EntryRows(f, entries[i]) + [] == EntryRows(f, entries[i]);
    assert entries[..i] + [entries[i]] == entries[..i + 1];
  }

  function Sheet(f: Formats, entries: seq<LexiconEntryDraft>): seq<seq<string>> {
    [HEADERS] + AllRows(f, entries)
  }

  lemma EmptySheet(f: Formats)
    ensures PrintRecords(Sheet(f, [])) == Join(HEADERS, ",") + "\n"
  {
    HeaderLine();
    PrintOneMore([], HEADERS);
    assert [] + [HEADERS] == Sheet(f, []);
  }

  lemma GrowSheet(f: Formats, entries: seq<LexiconEntryDraft>, i: nat)
    requires i < |entries|
    ensures Sheet(f, entries[..i + 1]) == Sheet(f, entries[..i]) + EntryRows(f, entries[i])
  {
    OneMoreEntry(f, entries, i);
  }

  /** The header line and one line per variant, each ended by a line feed. */
  method LexiconToCsv(f: Formats, entries: seq<LexiconEntryDraft>) returns (csv: string)
    requires Faithful(f) && forall e :: e in entries ==> e.priority <= 255
    ensures csv == PrintRecords(Sheet(f, entries))
  {
    EmptySheet(f);
    csv := Join(HEADERS, ",") + "\n";
    for i := 0 to |entries|
      invariant csv == PrintRecords(Sheet(f, entries[..i]))
    {
      GrowSheet(f, entries, i);
      csv := PushEntryRows(f, entries[i], csv, Sheet(f, entries[..i]));
    }
    assert entries[..|entries|] == entries;
  }

  lemma {:induction false} QuotedBare(r: seq<string>)
    requires forall k :: 0 <= k < |r| ==> !NeedsQuotes(r[k])
    ensures Quoted(r) == r
  {
  }

  lemma HeaderLine()
    ensures Join(HEADERS, ",") == PrintRecord(HEADERS)
  {
    QuotedJoin(HEADERS);
    HeadersAreWords();
    forall k | 0 <= k < |HEADERS| ensures !NeedsQuotes(HEADERS[k]) {
      assert HEADERS[k] in HEADERS;
      WordBare(HEADERS[k]);
    }
    QuotedBare(HEADERS);
  }

  lemma {:induction false} PrintOneMore(rows: seq<seq<string>>, row: seq<string>)
    ensures PrintRecords(rows + [row]) == PrintRecords(rows) + PrintRecord(row) + "\n"
  {
    if rows == [] {
      assert rows + [row] == [row] && [row][1..] == [];
    } else {
      assert (rows + [row])[1..] == rows[1..] + [row];
      PrintOneMore(rows[1..], row);
    }
  }

  // ----- trimming -----

  function TrimAll(record: seq<string>): (r: seq<string>)
    ensures |r| == |record| && forall k :: 0 <= k < |r| ==> r[k] == Trim(record[k])
  {
    if record == [] then [] else [Trim(record[0])] + TrimAll(record[1..])
  }

  lemma TrimAllTrimmed(record: seq<string>)
    requires forall s :: s in record ==> Trimmed(s)
    ensures TrimAll(record) == record
  {
    forall k | 0 <= k < |record| ensures TrimAll(record)[k] == record[k] {
      assert record[k] in record;
    }
  }
}
