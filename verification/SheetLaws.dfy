/** Which sheets an import accepts, and what it makes of their rows. */
module SheetLaws {
  import opened Results
  import opened Sorting
  import opened Lexicon
  import opened Csv
  import opened LexiconCsv
  import opened LexiconCsvImport

  /** What one readable row says: which entry it belongs to, the values that must agree, and its variant if any. */
  datatype Facts = Facts(key: string, priority: nat, enabled: bool, variants: seq<LexiconVariantDraft>)

  /** Nothing when the row cannot be read, or its scope or its variant are not complete and known. */
  function FactsOf(f: Formats, headers: seq<string>, record: seq<string>): Option<Facts> {
    match ReadRow(f, headers, TrimAll(record))
    case None => None
    case Some(row) =>
      match CsvScope(f, row.scope, row.profileId)
      case None => None
      case Some(scope) =>
        match RowVariants(row)
        case None => None
        case Some(variants) =>
          Some(Facts(GroupingKey(f, row.canonicalText, row.language, row.category, scope), row.priority, row.enabled,
                     variants))
  }

  predicate Agree(x: Facts, y: Facts) {
    x.key == y.key ==> x.priority == y.priority && x.enabled == y.enabled
  }

  ghost predicate Consistent(facts: seq<Facts>) {
    forall i, j :: 0 <= i < j < |facts| ==> Agree(facts[i], facts[j])
  }

  /** The variants of one entry, row by row. */
  function VariantsOf(facts: seq<Facts>, key: string): seq<LexiconVariantDraft> {
    if facts == [] then []
    else
      var last := facts[|facts| - 1];
      VariantsOf(facts[..|facts| - 1], key) + if last.key == key then last.variants else []
  }

  ghost predicate Mentions(facts: seq<Facts>, key: string) {
    exists i :: 0 <= i < |facts| && facts[i].key == key
  }

  /** A group says what the rows of its key say. */
  ghost predicate GroupReflects(g: Group, facts: seq<Facts>) {
    && Mentions(facts, g.key)
    && g.draft.variants == VariantsOf(facts, g.key)
    && forall i :: 0 <= i < |facts| && facts[i].key == g.key ==>
         facts[i].priority == g.draft.priority && facts[i].enabled == g.draft.enabled
  }

  /** The groups are one for each key of the rows so far, and say what these say. */
  ghost predicate Reflects(groups: seq<Group>, facts: seq<Facts>) {
    && (forall k :: 0 <= k < |groups| ==> GroupReflects(groups[k], facts))
    && (forall i :: 0 <= i < |facts| ==> FindGroup(groups, facts[i].key) < |groups|)
  }

  lemma VariantsNext(facts: seq<Facts>, x: Facts, key: string)
    ensures VariantsOf(facts + [x], key) == VariantsOf(facts, key) + if x.key == key then x.variants else []
  {
    assert (facts + [x])[..|facts|] == facts;
  }

  lemma {:induction false} NoVariants(facts: seq<Facts>, key: string)
    requires !Mentions(facts, key)
    ensures VariantsOf(facts, key) == []
    decreases |facts|
  {
    if facts != [] {
      var before := facts[..|facts| - 1];
      assert facts[|facts| - 1].key != key;
      forall i | 0 <= i < |before| ensures before[i].key != key { assert facts[i].key != key; }
      NoVariants(before, key);
    }
  }

  /** A group keeps saying what the rows say when a row of another key comes. */
  lemma OtherGroup(g: Group, facts: seq<Facts>, x: Facts)
    requires GroupReflects(g, facts) && x.key != g.key
    ensures GroupReflects(g, facts + [x])
  {
    VariantsNext(facts, x, g.key);
    var i :| 0 <= i < |facts| && facts[i].key == g.key;
    assert (facts + [x])[i].key == g.key;
  }

  lemma OwnGroup(g: Group, facts: seq<Facts>, x: Facts)
    requires GroupReflects(g, facts) && x.key == g.key
    requires x.priority == g.draft.priority && x.enabled == g.draft.enabled
    ensures GroupReflects(Group(g.key, g.draft.(variants := g.draft.variants + x.variants)), facts + [x])
  {
    VariantsNext(facts, x, g.key);
    assert (facts + [x])[|facts|].key == g.key;
  }

  lemma NewGroup(draft: LexiconEntryDraft, facts: seq<Facts>, x: Facts)
    requires !Mentions(facts, x.key) && draft.variants == []
    requires draft.priority == x.priority && draft.enabled == x.enabled
    ensures GroupReflects(Group(x.key, draft.(variants := [] + x.variants)), facts + [x])
  {
    NoVariants(facts, x.key);
    VariantsNext(facts, x, x.key);
    assert (facts + [x])[|facts|].key == x.key;
  }

  lemma {:induction false} FindGroupLonger(groups: seq<Group>, g: Group, key: string)
    ensures FindGroup(groups + [g], key) < |groups| + 1 <==> FindGroup(groups, key) < |groups| || g.key == key
  {
    var k, n := FindGroup(groups + [g], key), FindGroup(groups, key);
    if k < |groups| { assert (groups + [g])[k] == groups[k]; }
    if n < |groups| { assert (groups + [g])[n] == groups[n]; }
    assert (groups + [g])[|groups|] == g;
  }

  lemma FindGroupSameKeys(groups: seq<Group>, k: nat, g: Group, key: string)
    requires k < |groups| && g.key == groups[k].key
    ensures FindGroup(groups[k := g], key) < |groups| <==> FindGroup(groups, key) < |groups|
  {
    var m, n := FindGroup(groups[k := g], key), FindGroup(groups, key);
    if m < |groups| { assert groups[m].key == groups[k := g][m].key; }
    if n < |groups| { assert groups[n].key == groups[k := g][n].key; }
  }

  ghost predicate KeysOnce(groups: seq<Group>) {
    forall k, l :: 0 <= k < l < |groups| ==> groups[k].key != groups[l].key
  }

  predicate Matches(x: Facts, draft: LexiconEntryDraft) {
    x.priority == draft.priority && x.enabled == draft.enabled
  }

  /** Where the row's entry is already there, matching it is agreeing with the rows so far. */
  lemma KnownRow(g: Group, facts: seq<Facts>, x: Facts)
    requires GroupReflects(g, facts) && g.key == x.key
    ensures Matches(x, g.draft) <==> forall i :: 0 <= i < |facts| ==> Agree(facts[i], x)
  {
    var i :| 0 <= i < |facts| && facts[i].key == x.key;
    assert Agree(facts[i], x) ==> Matches(x, g.draft);
  }

  lemma KnownRowReflects(groups: seq<Group>, facts: seq<Facts>, x: Facts, k: nat, g: Group)
    requires Reflects(groups, facts) && KeysOnce(groups) && k < |groups| && groups[k].key == x.key
    requires GroupReflects(g, facts + [x]) && g.key == x.key
    ensures Reflects(groups[k := g], facts + [x]) && KeysOnce(groups[k := g])
  {
    var next, longer := groups[k := g], facts + [x];
    forall m | 0 <= m < |next| ensures GroupReflects(next[m], longer) {
      if m != k { OtherGroup(groups[m], facts, x); }
    }
    forall n | 0 <= n < |longer| ensures FindGroup(next, longer[n].key) < |next| {
      FindGroupSameKeys(groups, k, g, longer[n].key);
      if n < |facts| { assert longer[n] == facts[n]; }
    }
  }

  /** A row of an entry that is not there yet is always accepted. */
  lemma NewRow(groups: seq<Group>, facts: seq<Facts>, x: Facts, draft: LexiconEntryDraft)
    requires Reflects(groups, facts) && KeysOnce(groups) && FindGroup(groups, x.key) == |groups|
    requires draft.variants == [] && draft.priority == x.priority && draft.enabled == x.enabled
    ensures forall i :: 0 <= i < |facts| ==> Agree(facts[i], x)
    ensures var next := groups + [Group(x.key, draft.(variants := [] + x.variants))];
      Reflects(next, facts + [x]) && KeysOnce(next)
  {
    forall i | 0 <= i < |facts| ensures facts[i].key != x.key { assert FindGroup(groups, facts[i].key) < |groups|; }
    var g := Group(x.key, draft.(variants := [] + x.variants));
    NewGroup(draft, facts, x);
    NewRowReflects(groups, facts, x, g);
  }

  lemma NewRowReflects(groups: seq<Group>, facts: seq<Facts>, x: Facts, g: Group)
    requires Reflects(groups, facts) && KeysOnce(groups) && FindGroup(groups, x.key) == |groups|
    requires GroupReflects(g, facts + [x]) && g.key == x.key
    ensures Reflects(groups + [g], facts + [x]) && KeysOnce(groups + [g])
  {
    var next, longer := groups + [g], facts + [x];
    forall m | 0 <= m < |next| ensures GroupReflects(next[m], longer) {
      if m < |groups| { OtherGroup(groups[m], facts, x); }
    }
    forall n | 0 <= n < |longer| ensures FindGroup(next, longer[n].key) < |next| {
      FindGroupLonger(groups, g, longer[n].key);
      if n < |facts| { assert longer[n] == facts[n]; }
    }
  }

  ghost predicate Tracks(groups: seq<Group>, facts: seq<Facts>) {
    Reflects(groups, facts) && KeysOnce(groups)
  }

  ghost predicate AgreesWithAll(facts: seq<Facts>, x: Facts) {
    forall i :: 0 <= i < |facts| ==> Agree(facts[i], x)
  }

  /** A row is accepted exactly when it can be used and agrees with those before, and then it is tracked as well. */
  ghost predicate Handled(x: Option<Facts>, more: Option<seq<Group>>, facts: seq<Facts>) {
    && (more.Some? <==> x.Some? && AgreesWithAll(facts, x.value))
    && (more.Some? ==> Tracks(more.value, facts + [x.value]))
  }

  lemma OneRow(f: Formats, headers: seq<string>, record: seq<string>, groups: seq<Group>, facts: seq<Facts>)
    requires Tracks(groups, facts)
    ensures Handled(FactsOf(f, headers, record), Step(f, headers)(record, groups), facts)
  {
    var x := FactsOf(f, headers, record);
    if x.Some? {
      var row := ReadRow(f, headers, TrimAll(record)).value;
      var scope := CsvScope(f, row.scope, row.profileId).value;
      var k := FindGroup(groups, x.value.key);
      if k < |groups| {
        KnownRow(groups[k], facts, x.value);
        if Matches(x.value, groups[k].draft) {
          OwnGroup(groups[k], facts, x.value);
          KnownRowReflects(groups, facts, x.value, k, Group(groups[k].key, groups[k].draft.(variants :=
            groups[k].draft.variants + x.value.variants)));
        }
      } else {
        NewRow(groups, facts, x.value, FreshDraft(row, scope));
      }
    }
  }

  // ----- whole sheets -----

  /** What a record says, as `FactsOf` does for given headers. */
  type Reader = seq<string> -> Option<Facts>

  /** What the rows say, in order; nothing when one of them cannot be used. */
  function AllFacts(read: Reader, records: seq<seq<string>>): Option<seq<Facts>> {
    if records == [] then Some([])
    else
      match read(records[0])
      case None => None
      case Some(x) =>
        match AllFacts(read, records[1..])
        case None => None
        case Some(rest) => Some([x] + rest)
  }

  lemma ConsistentSplit(past: seq<Facts>, x: Facts, rest: seq<Facts>)
    ensures past + ([x] + rest) == (past + [x]) + rest
    ensures Consistent(past + ([x] + rest)) ==> AgreesWithAll(past, x)
    ensures Consistent(past) && AgreesWithAll(past, x) ==> Consistent(past + [x])
  {
    var all := past + ([x] + rest);
    if Consistent(all) {
      forall i | 0 <= i < |past| ensures Agree(past[i], x) { assert Agree(all[i], all[|past|]); }
    }
  }

  ghost predicate StepExact(step: Stepper, read: Reader, record: seq<string>) {
    forall groups, facts :: Tracks(groups, facts) ==> Handled(read(record), step(record, groups), facts)
  }

  ghost predicate Outcome(all: Result<seq<Group>, nat>, past: seq<Facts>, facts: Option<seq<Facts>>) {
    && (all.Success? <==> facts.Some? && Consistent(past + facts.value))
    && (all.Success? ==> Tracks(all.value, past + facts.value))
  }

  lemma {:induction false} RowsExact(step: Stepper, read: Reader, records: seq<seq<string>>, line: nat,
                                     groups: seq<Group>, past: seq<Facts>)
    requires forall r :: r in records ==> StepExact(step, read, r)
    requires Tracks(groups, past) && Consistent(past)
    ensures Outcome(AbsorbAll(step, records, line, groups), past, AllFacts(read, records))
    decreases |records|
  {
    if records == [] {
      assert past + [] == past;
    } else {
      var x, more, rest := read(records[0]), step(records[0], groups), AllFacts(read, records[1..]);
      assert StepExact(step, read, records[0]) && Handled(x, more, past);
      if x.Some? { ConsistentSplit(past, x.value, if rest.Some? then rest.value else []); }
      if more.Some? { RowsExact(step, read, records[1..], line + 1, more.value, past + [x.value]); }
    }
  }

  /** What the rows of a sheet say under its headers. */
  function SheetFacts(f: Formats, records: seq<seq<string>>): Option<seq<Facts>>
    requires records != []
  {
    AllFacts(record => FactsOf(f, TrimAll(records[0]), record), records[1..])
  }

  lemma SheetExact(f: Formats, records: seq<seq<string>>)
    requires records != []
    ensures var facts, all := SheetFacts(f, records), AbsorbAll(Step(f, TrimAll(records[0])), records[1..], 2, []);
      (all.Success? <==> facts.Some? && Consistent(facts.value)) && (all.Success? ==> Tracks(all.value, facts.value))
  {
    var headers := TrimAll(records[0]);
    var step, read := Step(f, headers), (record: seq<string>) => FactsOf(f, headers, record);
    forall r | r in records[1..] ensures StepExact(step, read, r) {
      forall groups, facts | Tracks(groups, facts) ensures Handled(read(r), step(r, groups), facts) {
        OneRow(f, headers, r, groups, facts);
      }
    }
    RowsExact(step, read, records[1..], 2, [], []);
    var facts := AllFacts(read, records[1..]);
    SameFacts(f, records, read);
    if facts.Some? { assert [] + facts.value == facts.value; }
  }

  lemma {:induction false} FactsAlike(a: Reader, b: Reader, records: seq<seq<string>>)
    requires forall r :: r in records ==> a(r) == b(r)
    ensures AllFacts(a, records) == AllFacts(b, records)
  {
    if records != [] { FactsAlike(a, b, records[1..]); }
  }

  lemma SameFacts(f: Formats, records: seq<seq<string>>, read: Reader)
    requires records != [] && forall r :: r in records[1..] ==> read(r) == FactsOf(f, TrimAll(records[0]), r)
    ensures SheetFacts(f, records) == AllFacts(read, records[1..])
  {
    FactsAlike(record => FactsOf(f, TrimAll(records[0]), record), read, records[1..]);
  }

  /** A sheet is accepted exactly when every row is readable, with a known scope and a variant that is complete or
      missing, and any two rows of one entry agree on priority and on being enabled. */
  lemma SheetAcceptedExactly(f: Formats, csv: string)
    requires ReadRecords(csv) != []
    ensures var facts := SheetFacts(f, ReadRecords(csv));
      ParseLexiconCsv(f, csv).Success? <==> facts.Some? && Consistent(facts.value)
  {
    SheetExact(f, ReadRecords(csv));
  }

  lemma {:induction false} DraftsAre(groups: seq<Group>)
    ensures |Drafts(groups)| == |groups| && forall k :: 0 <= k < |groups| ==> Drafts(groups)[k] == groups[k].draft
  {
    if groups != [] { DraftsAre(groups[1..]); }
  }

  /** What an entry of a sheet takes from the rows of its key. */
  ghost predicate Gathers(draft: LexiconEntryDraft, facts: seq<Facts>, key: string) {
    && Mentions(facts, key) && draft.variants == VariantsOf(facts, key)
    && forall i :: 0 <= i < |facts| && facts[i].key == key ==>
         facts[i].priority == draft.priority && facts[i].enabled == draft.enabled
  }

  /** Every entry of an accepted sheet has, in order, exactly the variants of the rows of one key, and the priority and
      enabled value that these rows state. */
  lemma SheetContents(f: Formats, csv: string, k: nat) returns (key: string)
    requires ReadRecords(csv) != [] && ParseLexiconCsv(f, csv).Success? && k < |ParseLexiconCsv(f, csv).value|
    ensures var facts := SheetFacts(f, ReadRecords(csv));
      facts.Some? && Gathers(ParseLexiconCsv(f, csv).value[k], facts.value, key)
  {
    var records := ReadRecords(csv);
    SheetExact(f, records);
    var groups := AbsorbAll(Step(f, TrimAll(records[0])), records[1..], 2, []).value;
    var sorted := Sort(groups, KeyLe);
    DraftsAre(sorted);
    SortElements(groups, KeyLe);
    assert sorted[k] in sorted && sorted[k] in groups;
    var m :| 0 <= m < |groups| && groups[m] == sorted[k];
    assert GroupReflects(groups[m], SheetFacts(f, records).value);
    key := groups[m].key;
  }

  /** No row of an accepted sheet is lost: an entry has gathered what the rows of its key say. */
  lemma SheetKeepsRows(f: Formats, csv: string, i: nat) returns (k: nat)
    requires ReadRecords(csv) != [] && ParseLexiconCsv(f, csv).Success?
    requires SheetFacts(f, ReadRecords(csv)).Some? && i < |SheetFacts(f, ReadRecords(csv)).value|
    ensures var facts := SheetFacts(f, ReadRecords(csv)).value;
      k < |ParseLexiconCsv(f, csv).value| && Gathers(ParseLexiconCsv(f, csv).value[k], facts, facts[i].key)
  {
    var records := ReadRecords(csv);
    SheetExact(f, records);
    var groups := AbsorbAll(Step(f, TrimAll(records[0])), records[1..], 2, []).value;
    var facts, sorted := SheetFacts(f, records).value, Sort(groups, KeyLe);
    var m := FindGroup(groups, facts[i].key);
    DraftsAre(sorted);
    SortElements(groups, KeyLe);
    assert groups[m] in groups && groups[m] in sorted && GroupReflects(groups[m], facts);
    k :| 0 <= k < |sorted| && sorted[k] == groups[m];
  }
}
