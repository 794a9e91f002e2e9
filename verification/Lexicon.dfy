/** Lexicon entries, variants and the corrections recorded on a transcript. */
module Lexicon {
  import opened Results
  import opened Sorting
  import opened Text

  datatype LexiconScope = Global | Profile(profileId: nat)

  datatype MatchMode = ExactCasefold | ExactCaseSensitive

  datatype LexiconEntry = LexiconEntry(
    id: nat,
    canonicalText: string,
    canonicalKey: string,
    language: Option<string>,
    category: Option<string>,
    priority: nat,
    enabled: bool,
    scope: LexiconScope)

  datatype LexiconVariant = LexiconVariant(
    id: nat,
    entryId: nat,
    variantText: string,
    variantKey: string,
    matchMode: MatchMode)

  datatype LexiconVariantDraft = LexiconVariantDraft(variantText: string, matchMode: MatchMode)

  datatype LexiconEntryDraft = LexiconEntryDraft(
    canonicalText: string,
    language: Option<string>,
    category: Option<string>,
    priority: nat,
    enabled: bool,
    scope: LexiconScope,
    variants: seq<LexiconVariantDraft>)

  datatype AppliedCorrection = AppliedCorrection(
    id: nat,
    variantId: nat,
    original: string,
    replacement: string,
    startChar: nat,
    endChar: nat,
    appliedAt: int)

  function GetOr(o: Option<string>): string {
    if o.Some? then o.value else ""
  }

  predicate Present(o: Option<string>) {
    o.Some? ==> o.value != "" && Trimmed(o.value)
  }

  /** Lexicographic order on scalar values, which is also the byte order of the UTF-8 forms. */
  predicate StringLe(a: string, b: string) {
    a == [] || (b != [] && (a[0] < b[0] || (a[0] == b[0] && StringLe(a[1..], b[1..]))))
  }

  lemma {:induction false} StringLeTotal(a: string, b: string)
    ensures StringLe(a, b) || StringLe(b, a)
    ensures StringLe(a, b) && StringLe(b, a) ==> a == b
  {
    if a != [] && b != [] && a[0] == b[0] {
      StringLeTotal(a[1..], b[1..]);
      assert a == [a[0]] + a[1..] && b == [b[0]] + b[1..];
    }
  }

  /** The texts differ first where `a` has the smaller character, or `a` is a beginning of `b`. */
  ghost predicate SpelledFirst(a: string, b: string) {
    a <= b || exists k :: 0 <= k < |a| && k < |b| && a[..k] == b[..k] && a[k] < b[k]
  }

  /** The recursive order is the usual one. */
  lemma {:induction false} SpelledFirstExact(a: string, b: string)
    ensures StringLe(a, b) <==> SpelledFirst(a, b)
  {
    if a != [] && b != [] && a[0] == b[0] {
      SpelledFirstExact(a[1..], b[1..]);
      assert a == [a[0]] + a[1..] && b == [b[0]] + b[1..];
      if k :| 0 <= k < |a[1..]| && k < |b[1..]| && a[1..][..k] == b[1..][..k] && a[1..][k] < b[1..][k] {
        assert a[..k + 1] == [a[0]] + a[1..][..k] && b[..k + 1] == [b[0]] + b[1..][..k] && a[k + 1] < b[k + 1];
      }
      if k :| 0 <= k < |a| && k < |b| && a[..k] == b[..k] && a[k] < b[k] {
        assert a[1..][..k - 1] == a[..k][1..] && b[1..][..k - 1] == b[..k][1..] && a[1..][k - 1] < b[1..][k - 1];
      }
    } else if a != [] && b != [] && a[0] < b[0] {
      assert a[..0] == b[..0];
    }
  }

  lemma {:induction false} StringLeTransitive(a: string, b: string, c: string)
    requires StringLe(a, b) && StringLe(b, c)
    ensures StringLe(a, c)
  {
    if a != [] && a[0] == b[0] && b[0] == c[0] {
      StringLeTransitive(a[1..], b[1..], c[1..]);
    }
  }

  /** Highest priority first, then by comparison key, then by id. */
  predicate EntryLe(a: LexiconEntry, b: LexiconEntry) {
    a.priority > b.priority
    || (a.priority == b.priority && StringLe(a.canonicalKey, b.canonicalKey)
        && (a.canonicalKey == b.canonicalKey ==> a.id <= b.id))
  }

  lemma EntryLeTotal()
    ensures TotalPreorder(EntryLe)
  {
    forall a, b ensures EntryLe(a, b) || EntryLe(b, a) {
      StringLeTotal(a.canonicalKey, b.canonicalKey);
    }
    forall a, b, c | EntryLe(a, b) && EntryLe(b, c) ensures EntryLe(a, c) {
      if a.priority == b.priority == c.priority {
        StringLeTransitive(a.canonicalKey, b.canonicalKey, c.canonicalKey);
        StringLeTotal(a.canonicalKey, b.canonicalKey);
      }
    }
  }

  ghost predicate DistinctIds(entries: seq<LexiconEntry>) {
    forall i, j :: 0 <= i < j < |entries| ==> entries[i].id != entries[j].id
  }

  /** With distinct ids the order leaves no choice. */
  lemma EntryLeStrict(entries: seq<LexiconEntry>)
    requires DistinctIds(entries)
    ensures AntisymmetricOn(entries, EntryLe)
  {
    forall x, y | x in entries && y in entries && EntryLe(x, y) && EntryLe(y, x) ensures x == y {
      StringLeTotal(x.canonicalKey, y.canonicalKey);
      var i :| 0 <= i < |entries| && entries[i] == x;
      var j :| 0 <= j < |entries| && entries[j] == y;
    }
  }

  /** The first bar of a joined key ends its first part. */
  lemma {:induction false} SplitAtBar(a: string, x: string, b: string, y: string)
    requires '|' !in a && '|' !in b && a + "|" + x == b + "|" + y
    ensures a == b && x == y
  {
    var s, t := a + "|" + x, b + "|" + y;
    assert s[0] == t[0];
    if a != "" && b != "" {
      assert s[1..] == a[1..] + "|" + x && t[1..] == b[1..] + "|" + y;
      SplitAtBar(a[1..], x, b[1..], y);
      assert a == [a[0]] + a[1..] && b == [b[0]] + b[1..];
    } else {
      assert a == b == "";
      assert s[1..] == x && t[1..] == y;
    }
  }
}
