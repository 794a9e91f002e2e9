/** Choosing the prompt terms of a transcription request, and the worker's check of what arrives. */
module Prompts {
  import opened Results
  import opened Sorting
  import opened Text
  import opened Lexicon
  import opened LexiconValidation

  const MAX_PROMPT_TERMS: nat := 32
  const MAX_PROMPT_TOKENS: nat := 128
  const MAX_BEAM_SIZE: nat := 10
  const MAX_TEMPERATURE_MILLI: nat := 1_000

  datatype PromptSelection = PromptSelection(terms: seq<string>, estimatedTokens: nat)

  datatype TranscriptionOptions = TranscriptionOptions(promptTerms: seq<string>, beamSize: nat, temperatureMilli: nat)

  /** Two characters to a token, rounded up, and never nothing. */
  function EstimateTokens(term: string): (n: nat)
    ensures n >= 1 && 2 * n >= |term| && (n > 1 ==> 2 * (n - 1) < |term|)
  {
    if |term| == 0 then 1 else (|term| + 1) / 2
  }

  predicate AppliesTo(scope: LexiconScope, active: Option<nat>) {
    match scope
    case Global => true
    case Profile(id) => active == Some(id)
  }

  predicate Eligible(e: LexiconEntry, active: Option<nat>) {
    e.enabled && AppliesTo(e.scope, active)
  }

  function Candidates(entries: seq<LexiconEntry>, active: Option<nat>): seq<LexiconEntry> {
    if entries == [] then []
    else if Eligible(entries[0], active) then [entries[0]] + Candidates(entries[1..], active)
    else Candidates(entries[1..], active)
  }

  function TotalTokens(entries: seq<LexiconEntry>): nat {
    if entries == [] then 0
    else TotalTokens(entries[..|entries| - 1]) + EstimateTokens(entries[|entries| - 1].canonicalText)
  }

  function Terms(entries: seq<LexiconEntry>): (r: seq<string>)
    ensures |r| == |entries| && forall k :: 0 <= k < |r| ==> r[k] == entries[k].canonicalText
  {
    if entries == [] then [] else Terms(entries[..|entries| - 1]) + [entries[|entries| - 1].canonicalText]
  }

  predicate Fits(chosen: seq<LexiconEntry>, e: LexiconEntry) {
    |chosen| < MAX_PROMPT_TERMS && TotalTokens(chosen) + EstimateTokens(e.canonicalText) <= MAX_PROMPT_TOKENS
  }

  /** The entries taken from a sorted list: each one that still fits beside those taken before it. */
  function Chosen(sorted: seq<LexiconEntry>): (r: seq<LexiconEntry>)
    ensures |r| <= MAX_PROMPT_TERMS && TotalTokens(r) <= MAX_PROMPT_TOKENS
    decreases |sorted|
  {
    if sorted == [] then []
    else
      var before, e := Chosen(sorted[..|sorted| - 1]), sorted[|sorted| - 1];
      if Fits(before, e) then Grow(before, e) else before
  }

  function Grow(before: seq<LexiconEntry>, e: LexiconEntry): (r: seq<LexiconEntry>)
    ensures r == before + [e]
    ensures TotalTokens(r) == TotalTokens(before) + EstimateTokens(e.canonicalText)
    ensures Terms(r) == Terms(before) + [e.canonicalText]
  {
    assert (before + [e])[..|before|] == before;
    before + [e]
  }

  function Selected(entries: seq<LexiconEntry>, active: Option<nat>): seq<LexiconEntry> {
    Chosen(Sort(Candidates(entries, active), EntryLe))
  }

  method SelectPromptTerms(entries: seq<LexiconEntry>, active: Option<nat>) returns (selection: PromptSelection)
    ensures selection == PromptSelection(Terms(Selected(entries, active)), TotalTokens(Selected(entries, active)))
  {
    var candidates := Sort(Candidates(entries, active), EntryLe);
    var terms: seq<string> := [];
    var estimatedTokens: nat := 0;
    for k := 0 to |candidates|
      invariant terms == Terms(Chosen(candidates[..k])) && estimatedTokens == TotalTokens(Chosen(candidates[..k]))
    {
      var e := candidates[k];
      assert candidates[..k + 1][..k] == candidates[..k];
      var termTokens := EstimateTokens(e.canonicalText);
      if |terms| == MAX_PROMPT_TERMS || estimatedTokens + termTokens > MAX_PROMPT_TOKENS { continue; }
      estimatedTokens := estimatedTokens + termTokens;
      terms := terms + [e.canonicalText];
    }
    assert candidates[..|candidates|] == candidates;
    return PromptSelection(terms, estimatedTokens);
  }

  // ----- the selection depends only on the set of entries -----

  lemma {:induction false} CandidatesCount(entries: seq<LexiconEntry>, active: Option<nat>, e: LexiconEntry)
    ensures multiset(Candidates(entries, active))[e] == if Eligible(e, active) then multiset(entries)[e] else 0
  {
    if entries == [] {
    } else {
      assert entries == [entries[0]] + entries[1..];
      CandidatesCount(entries[1..], active, e);
    }
  }

  lemma CandidatesIgnoreOrder(a: seq<LexiconEntry>, b: seq<LexiconEntry>, active: Option<nat>)
    requires multiset(a) == multiset(b)
    ensures multiset(Candidates(a, active)) == multiset(Candidates(b, active))
  {
    forall e ensures multiset(Candidates(a, active))[e] == multiset(Candidates(b, active))[e] {
      CandidatesCount(a, active, e);
      CandidatesCount(b, active, e);
    }
  }

  lemma CandidateMember(entries: seq<LexiconEntry>, active: Option<nat>, e: LexiconEntry)
    ensures e in Candidates(entries, active) <==> e in entries && Eligible(e, active)
  {
    CandidatesCount(entries, active, e);
    assert e in Candidates(entries, active) <==> e in multiset(Candidates(entries, active));
    assert e in entries <==> e in multiset(entries);
  }

  /** Any order of the same entries with distinct ids gives the same selection. */
  lemma SelectionIgnoresOrder(a: seq<LexiconEntry>, b: seq<LexiconEntry>, active: Option<nat>)
    requires multiset(a) == multiset(b) && DistinctIds(a)
    ensures Selected(a, active) == Selected(b, active)
  {
    var ca, cb := Candidates(a, active), Candidates(b, active);
    CandidatesIgnoreOrder(a, b, active);
    EntryLeTotal();
    EntryLeStrict(a);
    forall x, y | x in ca && y in ca && EntryLe(x, y) && EntryLe(y, x) ensures x == y {
      CandidateMember(a, active, x);
      CandidateMember(a, active, y);
    }
    SortIgnoresOrder(ca, cb, EntryLe);
  }

  // ----- nothing that still fits is skipped -----

  lemma {:induction false} ChosenMaximal(sorted: seq<LexiconEntry>)
    ensures forall e :: e in Chosen(sorted) ==> e in sorted
    ensures forall e :: e in sorted && e !in Chosen(sorted) ==> !Fits(Chosen(sorted), e)
    decreases |sorted|
  {
    if sorted == [] {
    } else {
      var before := sorted[..|sorted| - 1];
      assert sorted == before + [sorted[|sorted| - 1]];
      ChosenMaximal(before);
    }
  }

  /** Every eligible entry is chosen or no longer fits beside the final choice; every choice is eligible. */
  lemma SelectionMaximal(entries: seq<LexiconEntry>, active: Option<nat>, e: LexiconEntry)
    ensures var wanted := e.enabled && (e.scope == Global || (active.Some? && e.scope == Profile(active.value)));
      (e in Selected(entries, active) ==> e in entries && wanted)
      && (e in entries && wanted && e !in Selected(entries, active) ==>
            |Selected(entries, active)| == 32
            || TotalTokens(Selected(entries, active)) + EstimateTokens(e.canonicalText) > 128)
  {
    var candidates := Candidates(entries, active);
    SortElements(candidates, EntryLe);
    ChosenMaximal(Sort(candidates, EntryLe));
    CandidateMember(entries, active, e);
  }

  lemma {:induction false} ChosenSorted(sorted: seq<LexiconEntry>)
    requires SortedBy(sorted, EntryLe)
    ensures SortedBy(Chosen(sorted), EntryLe)
    decreases |sorted|
  {
    if sorted == [] {
    } else {
      var before, last := sorted[..|sorted| - 1], sorted[|sorted| - 1];
      ChosenSorted(before);
      ChosenMaximal(before);
      var chosen := Chosen(before);
      forall k | 0 <= k < |chosen| ensures EntryLe(chosen[k], last) {
        assert chosen[k] in before;
      }
    }
  }

  /** The terms come by descending priority, at one priority by the spelling of their keys, and then by id. */
  lemma SelectionSorted(entries: seq<LexiconEntry>, active: Option<nat>, k: nat, l: nat)
    requires k < l < |Selected(entries, active)|
    ensures var a, b := Selected(entries, active)[k], Selected(entries, active)[l];
      && a.priority >= b.priority
      && (a.priority == b.priority ==> SpelledFirst(a.canonicalKey, b.canonicalKey))
      && (a.priority == b.priority && a.canonicalKey == b.canonicalKey ==> a.id <= b.id)
  {
    EntryLeTotal();
    SortSorts(Candidates(entries, active), EntryLe);
    ChosenSorted(Sort(Candidates(entries, active), EntryLe));
    SpelledFirstExact(Selected(entries, active)[k].canonicalKey, Selected(entries, active)[l].canonicalKey);
  }

  // ----- the worker's own check -----

  function TokenSum(terms: seq<string>): nat {
    if terms == [] then 0 else EstimateTokens(terms[0]) + TokenSum(terms[1..])
  }

  predicate OptionsValid(options: TranscriptionOptions) {
    && |options.promptTerms| <= 32
    && (forall k :: 0 <= k < |options.promptTerms| ==> Trim(options.promptTerms[k]) != "")
    && TokenSum(options.promptTerms) <= 128
    && 1 <= options.beamSize <= MAX_BEAM_SIZE
    && options.temperatureMilli <= MAX_TEMPERATURE_MILLI
  }

  lemma {:induction false} TokenSumConcat(a: seq<string>, b: seq<string>)
    ensures TokenSum(a + b) == TokenSum(a) + TokenSum(b)
  {
    if a == [] {
      assert a + b == b;
    } else {
      assert (a + b)[1..] == a[1..] + b;
      TokenSumConcat(a[1..], b);
    }
  }

  lemma {:induction false} SumOfTerms(entries: seq<LexiconEntry>)
    ensures TokenSum(Terms(entries)) == TotalTokens(entries)
    decreases |entries|
  {
    if entries != [] {
      var before, text := entries[..|entries| - 1], entries[|entries| - 1].canonicalText;
      SumOfTerms(before);
      TokenSumConcat(Terms(before), [text]);
      assert [text][1..] == [];
    }
  }

  /** With usable decoding settings the worker accepts a selection exactly when no chosen term is blank. */
  lemma WorkerAcceptsSelection(entries: seq<LexiconEntry>, active: Option<nat>, beamSize: nat, temperatureMilli: nat)
    requires 1 <= beamSize <= MAX_BEAM_SIZE && temperatureMilli <= MAX_TEMPERATURE_MILLI
    ensures OptionsValid(TranscriptionOptions(Terms(Selected(entries, active)), beamSize, temperatureMilli)) <==>
      forall e :: e in Selected(entries, active) ==> Trim(e.canonicalText) != ""
  {
    var chosen := Selected(entries, active);
    SumOfTerms(chosen);
    if forall k :: 0 <= k < |chosen| ==> Trim(Terms(chosen)[k]) != "" {
      forall e | e in chosen ensures Trim(e.canonicalText) != "" {
        var k :| 0 <= k < |chosen| && chosen[k] == e;
        assert Trim(Terms(chosen)[k]) != "";
      }
    }
    forall k | 0 <= k < |chosen| ensures chosen[k] in chosen && Terms(chosen)[k] == chosen[k].canonicalText {
    }
  }

  /** Validated entries never produce a prompt the worker refuses. */
  lemma ValidatedPromptsPass(entries: seq<LexiconEntry>, active: Option<nat>, beamSize: nat, temperatureMilli: nat)
    requires 1 <= beamSize <= MAX_BEAM_SIZE && temperatureMilli <= MAX_TEMPERATURE_MILLI
    requires forall e :: e in entries ==> WellFormed(e)
    ensures OptionsValid(TranscriptionOptions(Terms(Selected(entries, active)), beamSize, temperatureMilli))
  {
    WorkerAcceptsSelection(entries, active, beamSize, temperatureMilli);
    forall e | e in Selected(entries, active) ensures Trim(e.canonicalText) != "" {
      SelectionMaximal(entries, active, e);
      TrimOfTrimmed(e.canonicalText);
    }
  }
}
