/** What an entry or variant looks like once it has been validated: normalised text, bounds, comparison keys. */
module LexiconValidation {
  import opened Results
  import opened Text
  import opened Lexicon

  const MAX_TERM_CHARS: nat := 256
  const MAX_CATEGORY_CHARS: nat := 64
  const MAX_LANGUAGE_BYTES: nat := 35
  const MAX_PRIORITY: nat := 100

  /** Canonical composition and default case folding. */
  datatype Unicode = Unicode(nfc: string -> string, fold: string -> string)

  datatype Field = CanonicalText | VariantText | Category | Language

  datatype LexiconValidationError =
    | Empty(field: Field)
    | TooLong(field: Field, max: nat)
    | InvalidLanguage
    | InvalidPriority(priority: nat)

  datatype ValidatedEntryDraft = ValidatedEntryDraft(entry: LexiconEntry, variants: seq<LexiconVariant>)

  /** The identifiers drawn for one entry and its variants. */
  datatype NewIds = NewIds(entryId: nat, variantId: nat -> nat)

  // ----- text -----

  /** The maximal runs of visible characters; `word` is the run being read. */
  function SplitWhitespace(s: string, word: string): seq<string>
    decreases |s|
  {
    if s == "" then (if word == "" then [] else [word])
    else if !IsWhitespace(s[0]) then SplitWhitespace(s[1..], word + [s[0]])
    else if word == "" then SplitWhitespace(s[1..], "")
    else [word] + SplitWhitespace(s[1..], "")
  }

  function Collapse(s: string): string {
    Join(SplitWhitespace(s, ""), " ")
  }

  function DisplayText(u: Unicode, s: string, field: Field): Result<string, LexiconValidationError> {
    var text := Collapse(u.nfc(s));
    if text == "" then Failure(Empty(field)) else Success(text)
  }

  function BoundedText(u: Unicode, s: string, field: Field, max: nat): Result<string, LexiconValidationError> {
    match DisplayText(u, s, field)
    case Failure(e) => Failure(e)
    case Success(text) => if |text| > max then Failure(TooLong(field, max)) else Success(text)
  }

  function OptionalCategory(u: Unicode, category: Option<string>): Result<Option<string>, LexiconValidationError> {
    match category
    case None => Success(None)
    case Some(c) =>
      match BoundedText(u, c, Category, MAX_CATEGORY_CHARS)
      case Failure(e) => Failure(e)
      case Success(text) => Success(Some(text))
  }

  function ToAsciiLower(s: string): string {
    if s == "" then "" else [AsciiLower(s[0])] + ToAsciiLower(s[1..])
  }

  predicate IsLanguageChar(c: char) {
    'a' <= c <= 'z' || 'A' <= c <= 'Z' || c == '-'
  }

  function OptionalLanguage(u: Unicode, language: Option<string>): Result<Option<string>, LexiconValidationError> {
    match language
    case None => Success(None)
    case Some(l) =>
      match DisplayText(u, l, Language)
      case Failure(e) => Failure(e)
      case Success(text) =>
        var lower := ToAsciiLower(text);
        if ByteLen(lower) > MAX_LANGUAGE_BYTES then Failure(InvalidLanguage)
        else if exists c :: c in lower && !IsLanguageChar(c) then Failure(InvalidLanguage)
        else Success(Some(lower))
  }

  function CasefoldKey(u: Unicode, s: string): string {
    u.nfc(u.fold(s))
  }

  // ----- entries and variants -----

  function NewEntry(u: Unicode, id: nat, draft: LexiconEntryDraft): Result<LexiconEntry, LexiconValidationError> {
    if draft.priority > MAX_PRIORITY then Failure(InvalidPriority(draft.priority))
    else match BoundedText(u, draft.canonicalText, CanonicalText, MAX_TERM_CHARS)
      case Failure(e) => Failure(e)
      case Success(text) =>
        match OptionalLanguage(u, draft.language)
        case Failure(e) => Failure(e)
        case Success(language) =>
          match OptionalCategory(u, draft.category)
          case Failure(e) => Failure(e)
          case Success(category) =>
            Success(LexiconEntry(id, text, CasefoldKey(u, text), language, category, draft.priority, draft.enabled,
                                 draft.scope))
  }

  function NewVariant(u: Unicode, id: nat, entryId: nat, draft: LexiconVariantDraft): Result<LexiconVariant,
                      LexiconValidationError> {
    match BoundedText(u, draft.variantText, VariantText, MAX_TERM_CHARS)
    case Failure(e) => Failure(e)
    case Success(text) =>
      var key := if draft.matchMode.ExactCasefold? then CasefoldKey(u, text) else text;
      Success(LexiconVariant(id, entryId, text, key, draft.matchMode))
  }

  /** The variants from the `k`-th draft on, or the first error. */
  function NewVariants(u: Unicode, ids: NewIds, drafts: seq<LexiconVariantDraft>, k: nat): Result<seq<LexiconVariant>,
                       LexiconValidationError>
    requires k <= |drafts|
    decreases |drafts| - k
  {
    if k == |drafts| then Success([])
    else match NewVariant(u, ids.variantId(k), ids.entryId, drafts[k])
      case Failure(e) => Failure(e)
      case Success(v) => Prepend([v], NewVariants(u, ids, drafts, k + 1))
  }

  function Validate(u: Unicode, ids: NewIds, draft: LexiconEntryDraft): Result<ValidatedEntryDraft,
                    LexiconValidationError> {
    match NewEntry(u, ids.entryId, draft)
    case Failure(e) => Failure(e)
    case Success(entry) =>
      match NewVariants(u, ids, draft.variants, 0)
      case Failure(e) => Failure(e)
      case Success(variants) => Success(ValidatedEntryDraft(entry, variants))
  }

  // ----- what validated text looks like -----

  predicate IsWord(s: string) {
    s != "" && forall k :: 0 <= k < |s| ==> !IsWhitespace(s[k])
  }

  lemma {:induction false} SplitIntoWords(s: string, word: string)
    requires word == "" || IsWord(word)
    ensures forall w :: w in SplitWhitespace(s, word) ==> IsWord(w)
    decreases |s|
  {
    if s != "" {
      if !IsWhitespace(s[0]) {
        SplitIntoWords(s[1..], word + [s[0]]);
      } else {
        SplitIntoWords(s[1..], "");
      }
    }
  }

  lemma {:induction false} JoinedWordsTrimmed(words: seq<string>)
    requires forall w :: w in words ==> IsWord(w)
    ensures Trimmed(Join(words, " ")) && (Join(words, " ") == "" <==> words == [])
  {
    if |words| > 1 {
      var joined, rest := Join(words, " "), Join(words[1..], " ");
      assert words[0] in words;
      JoinedWordsTrimmed(words[1..]);
      assert joined[0] == words[0][0] && joined[|joined| - 1] == rest[|rest| - 1];
    } else if |words| == 1 {
      assert words[0] in words;
    }
  }

  // ----- collapsing whitespace -----

  /** The words with a gap before each of them and one after the last. */
  function Interleave(gaps: seq<string>, words: seq<string>): string
    requires |gaps| == |words| + 1
    decreases |words|
  {
    if words == [] then gaps[0] else gaps[0] + words[0] + Interleave(gaps[1..], words[1..])
  }

  /** Words separated by whitespace; it may be missing at the two ends only. */
  ghost predicate Separates(gaps: seq<string>, words: seq<string>) {
    && |gaps| == |words| + 1
    && (forall w :: w in words ==> IsWord(w)) && (forall g :: g in gaps ==> Blank(g))
    && forall k :: 0 < k < |words| ==> gaps[k] != ""
  }

  lemma {:induction false} SplitSkipsGap(gap: string, rest: string)
    requires Blank(gap)
    ensures SplitWhitespace(gap + rest, "") == SplitWhitespace(rest, "")
    decreases |gap|
  {
    if gap == "" {
      assert gap + rest == rest;
    } else {
      assert (gap + rest)[0] == gap[0] && (gap + rest)[1..] == gap[1..] + rest;
      SplitSkipsGap(gap[1..], rest);
    }
  }

  lemma {:induction false} SplitReadsWord(part: string, rest: string, word: string)
    requires forall k :: 0 <= k < |part| ==> !IsWhitespace(part[k])
    ensures SplitWhitespace(part + rest, word) == SplitWhitespace(rest, word + part)
    decreases |part|
  {
    if part == "" {
      assert part + rest == rest && word + part == word;
    } else {
      assert (part + rest)[0] == part[0] && (part + rest)[1..] == part[1..] + rest;
      SplitReadsWord(part[1..], rest, word + [part[0]]);
      assert (word + [part[0]]) + part[1..] == word + part;
    }
  }

  lemma SplitEndsWord(gap: string, rest: string, word: string)
    requires Blank(gap) && gap != "" && word != ""
    ensures SplitWhitespace(gap + rest, word) == [word] + SplitWhitespace(rest, "")
  {
    assert (gap + rest)[0] == gap[0] && (gap + rest)[1..] == gap[1..] + rest;
    SplitSkipsGap(gap[1..], rest);
  }

  /** A word ends at the gap before the next one. */
  lemma SplitNext(word: string, gap: string, rest: string)
    requires IsWord(word) && Blank(gap) && gap != ""
    ensures SplitWhitespace(word + (gap + rest), "") == [word] + SplitWhitespace(gap + rest, "")
  {
    SplitReadsWord(word, gap + rest, "");
    assert "" + word == word;
    SplitEndsWord(gap, rest, word);
    SplitSkipsGap(gap, rest);
  }

  lemma SplitLast(word: string, gap: string)
    requires IsWord(word) && Blank(gap)
    ensures SplitWhitespace(word + gap, "") == [word]
  {
    SplitReadsWord(word, gap, "");
    assert "" + word == word;
    SplitTail(gap, word);
  }

  lemma SeparatesRest(gaps: seq<string>, words: seq<string>)
    requires Separates(gaps, words) && words != []
    ensures Separates(gaps[1..], words[1..]) && Blank(gaps[0]) && Blank(gaps[1]) && IsWord(words[0])
    ensures |words| > 1 ==> gaps[1] != ""
  {
    forall g | g in gaps[1..] ensures Blank(g) { assert g in gaps; }
    assert gaps[0] in gaps && gaps[1] in gaps && words[0] in words;
  }

  lemma {:induction false} SplitFinds(gaps: seq<string>, words: seq<string>)
    requires Separates(gaps, words)
    ensures SplitWhitespace(Interleave(gaps, words), "") == words
    decreases |words|
  {
    if words == [] {
      SplitSkipsGap(gaps[0], "");
      assert gaps[0] in gaps && gaps[0] + "" == gaps[0];
    } else {
      var word, rest := words[0], Interleave(gaps[1..], words[1..]);
      SeparatesRest(gaps, words);
      SplitSkipsGap(gaps[0], word + rest);
      assert gaps[0] + (word + rest) == gaps[0] + word + rest;
      SplitFinds(gaps[1..], words[1..]);
      if |words| == 1 {
        SplitLast(word, gaps[1]);
      } else {
        var after := words[1] + Interleave(gaps[2..], words[2..]);
        assert gaps[1..][1..] == gaps[2..] && words[1..][1..] == words[2..];
        assert rest == gaps[1] + after;
        SplitNext(word, gaps[1], after);
      }
    }
  }

  lemma SplitTail(gap: string, word: string)
    requires Blank(gap) && word != ""
    ensures SplitWhitespace(gap, word) == [word]
  {
    if gap != "" {
      SplitEndsWord(gap, "", word);
      assert gap + "" == gap;
    }
  }

  /** Collapsing keeps the words of a text, whatever whitespace lies around them, and puts one blank between them. */
  lemma CollapseExact(gaps: seq<string>, words: seq<string>)
    requires Separates(gaps, words)
    ensures Collapse(Interleave(gaps, words)) == Join(words, " ")
  {
    SplitFinds(gaps, words);
  }

  /** Every text consists of such words, after `word` has been read. */
  lemma {:induction false} WordsExist(s: string) returns (gaps: seq<string>, words: seq<string>)
    ensures Separates(gaps, words) && Interleave(gaps, words) == s
    ensures s != "" && !IsWhitespace(s[0]) ==> words != [] && gaps[0] == ""
  {
    if s == "" {
      gaps, words := [""], [];
    } else {
      gaps, words := WordsExist(s[1..]);
      if IsWhitespace(s[0]) {
        gaps := AddToGap(s[0], gaps, words);
      } else if s[1..] != "" && !IsWhitespace(s[1]) {
        words := AddToWord(s[0], gaps, words);
      } else {
        gaps, words := NewWord(s[0], s[1..], gaps, words);
      }
      assert s == [s[0]] + s[1..];
    }
  }

  lemma AddToGap(c: char, gaps: seq<string>, words: seq<string>) returns (longer: seq<string>)
    requires Separates(gaps, words) && IsWhitespace(c)
    ensures Separates(longer, words) && Interleave(longer, words) == [c] + Interleave(gaps, words)
  {
    longer := [[c] + gaps[0]] + gaps[1..];
    assert longer[1..] == gaps[1..];
    assert gaps[0] in gaps && Blank([c] + gaps[0]);
    forall g | g in longer ensures Blank(g) { assert g == [c] + gaps[0] || g in gaps; }
    if words != [] { assert ([c] + gaps[0]) + words[0] == [c] + (gaps[0] + words[0]); }
  }

  lemma AddToWord(c: char, gaps: seq<string>, words: seq<string>) returns (longer: seq<string>)
    requires Separates(gaps, words) && words != [] && gaps[0] == "" && !IsWhitespace(c)
    ensures Separates(gaps, longer) && longer != [] && Interleave(gaps, longer) == [c] + Interleave(gaps, words)
  {
    longer := [[c] + words[0]] + words[1..];
    assert longer[1..] == words[1..];
    assert IsWord(words[0]);
    forall w | w in longer ensures IsWord(w) { assert w == [c] + words[0] || w in words; }
  }

  lemma NewWord(c: char, rest: string, gaps: seq<string>, words: seq<string>)
    returns (moreGaps: seq<string>, moreWords: seq<string>)
    requires Separates(gaps, words) && !IsWhitespace(c) && Interleave(gaps, words) == rest
    requires rest == "" || IsWhitespace(rest[0])
    ensures Separates(moreGaps, moreWords) && Interleave(moreGaps, moreWords) == [c] + rest
    ensures moreWords != [] && moreGaps[0] == ""
  {
    moreGaps, moreWords := [""] + gaps, [[c]] + words;
    assert moreGaps[1..] == gaps && moreWords[1..] == words;
    forall w | w in moreWords ensures IsWord(w) { assert w == [c] || w in words; }
    if words != [] && gaps[0] == "" {
      assert words[0] in words && rest[0] == words[0][0];
    }
  }

  /** Display text is never empty and never starts or ends in whitespace. */
  lemma DisplayTextTrimmed(u: Unicode, s: string, field: Field)
    ensures var r := DisplayText(u, s, field); r.Success? ==> r.value != "" && Trimmed(r.value)
  {
    SplitIntoWords(u.nfc(s), "");
    JoinedWordsTrimmed(SplitWhitespace(u.nfc(s), ""));
  }

  predicate LanguageTag(s: string) {
    s != "" && forall c :: c in s ==> IsLanguageChar(c)
  }

  /** The shape every stored entry has. */
  predicate WellFormed(e: LexiconEntry) {
    && e.canonicalText != "" && Trimmed(e.canonicalText) && |e.canonicalText| <= MAX_TERM_CHARS
    && (e.language.Some? ==> LanguageTag(e.language.value) && ByteLen(e.language.value) <= MAX_LANGUAGE_BYTES)
    && Present(e.category) && |GetOr(e.category)| <= MAX_CATEGORY_CHARS
    && e.priority <= MAX_PRIORITY
  }

  predicate WellFormedVariant(v: LexiconVariant) {
    v.variantText != "" && Trimmed(v.variantText) && |v.variantText| <= MAX_TERM_CHARS
  }

  lemma {:induction false} LowerLength(s: string)
    ensures |ToAsciiLower(s)| == |s|
  {
    if s != "" { LowerLength(s[1..]); }
  }

  /** Only capital ASCII letters change, each to the small letter at its place in the alphabet. */
  lemma {:induction false} LowerExact(s: string, k: nat)
    requires k < |s|
    ensures |ToAsciiLower(s)| == |s|
    ensures var lower := ToAsciiLower(s)[k];
      if 'A' <= s[k] <= 'Z' then 'a' <= lower <= 'z' && lower as int - 'a' as int == s[k] as int - 'A' as int
      else lower == s[k]
  {
    LowerLength(s);
    if k > 0 { LowerExact(s[1..], k - 1); }
  }

  lemma NewEntryWellFormed(u: Unicode, id: nat, draft: LexiconEntryDraft)
    ensures var r := NewEntry(u, id, draft); r.Success? ==> WellFormed(r.value) && r.value.id == id
  {
    DisplayTextTrimmed(u, draft.canonicalText, CanonicalText);
    if draft.language.Some? {
      DisplayTextTrimmed(u, draft.language.value, Language);
      LowerLength(Collapse(u.nfc(draft.language.value)));
    }
    if draft.category.Some? { DisplayTextTrimmed(u, draft.category.value, Category); }
  }

  /** Which drafts are accepted: the priority and the lengths of the collapsed texts are within their limits, no text is
      blank, and a language consists of letters and hyphens. */
  lemma EntryAcceptedExactly(u: Unicode, id: nat, draft: LexiconEntryDraft)
    ensures NewEntry(u, id, draft).Success? <==>
      && draft.priority <= 100
      && 1 <= |Collapse(u.nfc(draft.canonicalText))| <= 256
      && (draft.category.Some? ==> 1 <= |Collapse(u.nfc(draft.category.value))| <= 64)
      && (draft.language.Some? ==>
            var tag := ToAsciiLower(Collapse(u.nfc(draft.language.value)));
            LanguageTag(tag) && ByteLen(tag) <= 35)
  {
    if draft.language.Some? { LowerLength(Collapse(u.nfc(draft.language.value))); }
  }

  lemma {:induction false} NewVariantsWellFormed(u: Unicode, ids: NewIds, drafts: seq<LexiconVariantDraft>, k: nat)
    requires k <= |drafts|
    ensures var r := NewVariants(u, ids, drafts, k); r.Success? ==>
      |r.value| == |drafts| - k
      && forall j :: 0 <= j < |r.value| ==>
        WellFormedVariant(r.value[j]) && r.value[j].entryId == ids.entryId && r.value[j].id == ids.variantId(k + j)
    decreases |drafts| - k
  {
    if k < |drafts| {
      DisplayTextTrimmed(u, drafts[k].variantText, VariantText);
      NewVariantsWellFormed(u, ids, drafts, k + 1);
    }
  }

  /** Composition and folding never make a whole text disappear. */
  ghost predicate KeepsText(u: Unicode) {
    forall s :: s != "" ==> u.nfc(s) != "" && u.fold(s) != ""
  }

  /** A validated variant has text and a key to look for. */
  lemma NewVariantNonEmpty(u: Unicode, id: nat, entryId: nat, draft: LexiconVariantDraft)
    requires KeepsText(u)
    ensures var r := NewVariant(u, id, entryId, draft);
      r.Success? ==> r.value.variantText != "" && r.value.variantKey != ""
  {
    DisplayTextTrimmed(u, draft.variantText, VariantText);
  }
}
