/** Which candidates there are, that the order of the rules does not matter, and that the selection is the right one. */
module CorrectionLaws {
  import opened Results
  import opened Sorting
  import opened Text
  import opened Search
  import opened Lexicon
  import opened Corrections

  /** A validated variant is never empty. */
  predicate NonEmptyVariants(rules: seq<CorrectionRule>) {
    forall r :: r in rules ==> r.variant.variantText != [] && r.variant.variantKey != []
  }

  ghost predicate AllNonEmpty(candidates: seq<Candidate>) {
    forall c :: c in candidates ==> c.startByte < c.endByte
  }

  // ----- candidates of non-empty variants are non-empty -----

  lemma {:induction false} ToCandidatesNonEmpty(boundaries: set<nat>, rule: CorrectionRule, ranges: seq<(nat, nat)>)
    requires forall r :: r in ranges ==> r.0 < r.1
    ensures AllNonEmpty(ToCandidates(boundaries, rule, ranges))
  {
    if ranges != [] { ToCandidatesNonEmpty(boundaries, rule, ranges[1..]); }
  }

  lemma LocationsNonEmpty(raw: string, fold: FoldTable, variant: LexiconVariant)
    requires NonEmptyFold(fold) && variant.variantText != [] && variant.variantKey != []
    ensures forall r :: r in Locations(raw, Folded(fold, raw), variant) ==> r.0 < r.1
  {
    match variant.matchMode
    case ExactCaseSensitive =>
      ExactSearchSound(raw, variant.variantText);
      forall r | r in MatchRanges(raw, variant.variantText) ensures r.0 < r.1 {
        assert SlicesTo(raw, variant.variantText, r);
      }
    case ExactCasefold => FoldedSearchSound(fold, raw, variant.variantKey);
  }

  lemma {:induction false} ContributionsNonEmpty(raw: string, rules: seq<CorrectionRule>, boundaries: set<nat>,
                                                 fold: FoldTable)
    requires NonEmptyFold(fold) && NonEmptyVariants(rules)
    ensures AllNonEmpty(Contributions(raw, boundaries, Folded(fold, raw), rules))
  {
    if rules != [] {
      LocationsNonEmpty(raw, fold, rules[0].variant);
      ToCandidatesNonEmpty(boundaries, rules[0], Locations(raw, Folded(fold, raw), rules[0].variant));
      ContributionsNonEmpty(raw, rules[1..], boundaries, fold);
    }
  }

  lemma {:induction false} SelectIsSubset(candidates: seq<Candidate>, nextFreeByte: nat)
    ensures forall c :: c in Select(candidates, nextFreeByte) ==> c in candidates
    decreases |candidates|
  {
    if candidates != [] {
      SelectIsSubset(candidates[1..], candidates[0].endByte);
      SelectIsSubset(candidates[1..], nextFreeByte);
    }
  }

  // ----- which candidates there are -----

  /** A found range of an enabled rule whose ends are word boundaries, in a text that has a word. */
  predicate Proposes(raw: string, boundaries: set<nat>, folded: FoldedText, rule: CorrectionRule, c: Candidate) {
    && rule.entry.enabled && |boundaries| > 1
    && c.startByte in boundaries && c.endByte in boundaries
    && (c.startByte, c.endByte) in Locations(raw, folded, rule.variant)
    && c.priority == rule.entry.priority && c.variantId == rule.variant.id && c.replacement == rule.entry.canonicalText
  }

  lemma {:induction false} ToCandidatesExact(boundaries: set<nat>, rule: CorrectionRule, ranges: seq<(nat, nat)>,
                                             c: Candidate)
    ensures c in ToCandidates(boundaries, rule, ranges) <==>
      (c.startByte, c.endByte) in ranges && c.startByte in boundaries && c.endByte in boundaries
      && c.priority == rule.entry.priority && c.variantId == rule.variant.id
      && c.replacement == rule.entry.canonicalText
  {
    if ranges != [] {
      ToCandidatesExact(boundaries, rule, ranges[1..], c);
      assert (c.startByte, c.endByte) in ranges
        <==> (c.startByte, c.endByte) == ranges[0] || (c.startByte, c.endByte) in ranges[1..];
    }
  }

  /** The candidates are exactly what some rule proposes. */
  lemma {:induction false} CandidatesExact(raw: string, boundaries: set<nat>, folded: FoldedText,
                                           rules: seq<CorrectionRule>, c: Candidate)
    ensures c in Contributions(raw, boundaries, folded, rules) <==>
      exists k :: 0 <= k < |rules| && Proposes(raw, boundaries, folded, rules[k], c)
  {
    if rules != [] {
      var rest := rules[1..];
      ToCandidatesExact(boundaries, rules[0], Locations(raw, folded, rules[0].variant), c);
      CandidatesExact(raw, boundaries, folded, rest, c);
      if k :| 0 <= k < |rest| && Proposes(raw, boundaries, folded, rest[k], c) {
        assert Proposes(raw, boundaries, folded, rules[k + 1], c);
      }
      if k :| 0 < k < |rules| && Proposes(raw, boundaries, folded, rules[k], c) {
        assert Proposes(raw, boundaries, folded, rest[k - 1], c);
      }
    }
  }

  // ----- the order of the rules does not matter -----

  predicate OwnVariants(rules: seq<CorrectionRule>) {
    forall r :: r in rules ==> r.variant.entryId == r.entry.id
  }

  lemma {:induction false} ForeignFound(rules: seq<CorrectionRule>)
    ensures FirstForeign(rules).None? <==> OwnVariants(rules)
  {
    if rules == [] {
    } else {
      ForeignFound(rules[1..]);
      assert forall r :: r in rules <==> r == rules[0] || r in rules[1..];
    }
  }

  lemma {:induction false} ContributionsConcat(raw: string, boundaries: set<nat>, folded: FoldedText,
                                               a: seq<CorrectionRule>, b: seq<CorrectionRule>)
    ensures Contributions(raw, boundaries, folded, a + b)
         == Contributions(raw, boundaries, folded, a) + Contributions(raw, boundaries, folded, b)
  {
    if a == [] {
      assert a + b == b;
    } else {
      assert (a + b)[1..] == a[1..] + b;
      ContributionsConcat(raw, boundaries, folded, a[1..], b);
    }
  }

  lemma ContributionsMiddle(raw: string, boundaries: set<nat>, folded: FoldedText,
                            p: seq<CorrectionRule>, rule: CorrectionRule, q: seq<CorrectionRule>)
    ensures multiset(Contributions(raw, boundaries, folded, p + ([rule] + q)))
         == multiset(Contribution(raw, boundaries, folded, rule))
           + multiset(Contributions(raw, boundaries, folded, p + q))
  {
    ContributionsConcat(raw, boundaries, folded, p, q);
    ContributionsConcat(raw, boundaries, folded, p, [rule] + q);
    assert ([rule] + q)[1..] == q;
  }

  lemma {:induction false} ContributionsPermute(raw: string, boundaries: set<nat>, folded: FoldedText,
                                                a: seq<CorrectionRule>, b: seq<CorrectionRule>)
    requires multiset(a) == multiset(b)
    ensures multiset(Contributions(raw, boundaries, folded, a)) == multiset(Contributions(raw, boundaries, folded, b))
    decreases |a|
  {
    SameLength(a, b);
    if a != [] {
      var p, q := LocateFirst(a, b);
      ContributionsPermute(raw, boundaries, folded, a[1..], p + q);
      ContributionsMiddle(raw, boundaries, folded, p, a[0], q);
    }
  }

  /** Any permutation of the rules gives the same outcome; ids are handed out by position. */
  lemma RuleOrderIrrelevant(raw: string, rules: seq<CorrectionRule>, permuted: seq<CorrectionRule>,
                            boundaries: set<nat>,
                            fold: FoldTable, freshId: IdSource, appliedAt: int)
    requires WordBoundaries(raw, boundaries) && NonEmptyFold(fold)
    requires multiset(rules) == multiset(permuted)
    ensures OwnVariants(rules) ==>
      Applied(raw, rules, boundaries, fold, freshId, appliedAt)
        == Applied(raw, permuted, boundaries, fold, freshId, appliedAt)
    ensures !OwnVariants(rules) ==>
      Applied(raw, rules, boundaries, fold, freshId, appliedAt).Failure?
      && Applied(raw, permuted, boundaries, fold, freshId, appliedAt).Failure?
  {
    forall r ensures r in rules <==> r in permuted {
      assert r in multiset(rules) <==> r in multiset(permuted);
    }
    ForeignFound(rules);
    ForeignFound(permuted);
    if OwnVariants(rules) {
      var folded := Folded(fold, raw);
      ContributionsPermute(raw, boundaries, folded, rules, permuted);
      SelectedIgnoresOrder(Contributions(raw, boundaries, folded, rules),
                           Contributions(raw, boundaries, folded, permuted));
    }
  }

  lemma SelectedIgnoresOrder(a: seq<Candidate>, b: seq<Candidate>)
    requires multiset(a) == multiset(b)
    ensures Selected(a) == Selected(b)
  {
    CandidateOrder();
    forall x, y | x in a && y in a && CandidateLe(x, y) && CandidateLe(y, x) ensures x == y {
      CandidateAntisymmetric(x, y);
    }
    SortIgnoresOrder(a, b, CandidateLe);
  }

  // ----- the selection is the only justified one -----

  /** No candidate ends before it starts. */
  ghost predicate AllRanges(candidates: seq<Candidate>) {
    forall k :: 0 <= k < |candidates| ==> candidates[k].startByte <= candidates[k].endByte
  }

  predicate Overlaps(winner: Candidate, c: Candidate) {
    winner.startByte <= c.startByte < winner.endByte
  }

  /** `c` loses to a selected candidate that precedes it and covers its start. */
  ghost predicate Beaten(c: Candidate, selected: seq<Candidate>) {
    exists k :: 0 <= k < |selected| && CandidateLe(selected[k], c) && Overlaps(selected[k], c)
  }

  /** In comparator order and without overlaps. */
  ghost predicate InOrderDisjoint(selected: seq<Candidate>) {
    forall k, l :: 0 <= k < l < |selected| ==>
      CandidateLe(selected[k], selected[l]) && selected[k].endByte <= selected[l].startByte
  }

  /** Every copy of a candidate that is left out has a reason to lose. */
  ghost predicate LosersBeaten(candidates: seq<Candidate>, selected: seq<Candidate>) {
    forall c :: multiset(selected)[c] < multiset(candidates)[c] ==> Beaten(c, selected)
  }

  /** An ordered, disjoint choice among the candidates in which every loser has a reason to lose. */
  ghost predicate Justified(candidates: seq<Candidate>, selected: seq<Candidate>) {
    InOrderDisjoint(selected) && multiset(selected) <= multiset(candidates) && LosersBeaten(candidates, selected)
  }

  lemma {:induction false} SelectTakesCopies(candidates: seq<Candidate>, nextFreeByte: nat)
    ensures multiset(Select(candidates, nextFreeByte)) <= multiset(candidates)
    decreases |candidates|
  {
    if candidates != [] {
      assert candidates == [candidates[0]] + candidates[1..];
      SelectTakesCopies(candidates[1..], candidates[0].endByte);
      SelectTakesCopies(candidates[1..], nextFreeByte);
    }
  }

  ghost predicate StartFrom(s: seq<Candidate>, from: nat) {
    forall k :: 0 <= k < |s| ==> from <= s[k].startByte
  }

  lemma StartsLater(head: Candidate, rest: seq<Candidate>, from: nat)
    requires from <= head.startByte <= head.endByte && StartFrom(rest, head.endByte)
    ensures StartFrom([head] + rest, from)
  {
  }

  lemma {:induction false} SelectStarts(candidates: seq<Candidate>, nextFreeByte: nat)
    requires AllRanges(candidates)
    ensures StartFrom(Select(candidates, nextFreeByte), nextFreeByte)
    decreases |candidates|
  {
    if candidates != [] {
      var head, tail := candidates[0], candidates[1..];
      assert head.startByte <= head.endByte;
      if head.startByte >= nextFreeByte {
        SelectStarts(tail, head.endByte);
        StartsLater(head, Select(tail, head.endByte), nextFreeByte);
      } else {
        SelectStarts(tail, nextFreeByte);
      }
    }
  }

  lemma InOrderFirst(head: Candidate, tail: seq<Candidate>, rest: seq<Candidate>)
    requires InOrderDisjoint(rest) && multiset(rest) <= multiset(tail)
    requires forall k :: 0 <= k < |tail| ==> CandidateLe(head, tail[k])
    requires forall k :: 0 <= k < |rest| ==> head.endByte <= rest[k].startByte
    ensures InOrderDisjoint([head] + rest)
  {
    forall k | 0 <= k < |rest| ensures CandidateLe(head, rest[k]) {
      assert rest[k] in multiset(rest) && rest[k] in multiset(tail);
      var i :| 0 <= i < |tail| && tail[i] == rest[k];
    }
  }

  lemma {:induction false} SelectDisjoint(candidates: seq<Candidate>, nextFreeByte: nat)
    requires AllRanges(candidates) && SortedBy(candidates, CandidateLe)
    ensures InOrderDisjoint(Select(candidates, nextFreeByte))
    decreases |candidates|
  {
    if candidates != [] {
      var head, tail := candidates[0], candidates[1..];
      if head.startByte >= nextFreeByte {
        SelectDisjoint(tail, head.endByte);
        SelectStarts(tail, head.endByte);
        SelectTakesCopies(tail, head.endByte);
        InOrderFirst(head, tail, Select(tail, head.endByte));
      } else {
        SelectDisjoint(tail, nextFreeByte);
      }
    }
  }

  lemma BeatenLater(c: Candidate, head: Candidate, rest: seq<Candidate>)
    requires Beaten(c, rest) || (CandidateLe(head, c) && Overlaps(head, c))
    ensures Beaten(c, [head] + rest)
  {
    var s := [head] + rest;
    assert s[0] == head;
    if Beaten(c, rest) {
      var k :| 0 <= k < |rest| && CandidateLe(rest[k], c) && Overlaps(rest[k], c);
      assert s[k + 1] == rest[k];
    }
  }

  lemma {:induction false} SelectExplains(candidates: seq<Candidate>, nextFreeByte: nat, c: Candidate)
    requires SortedBy(candidates, CandidateLe)
    requires multiset(Select(candidates, nextFreeByte))[c] < multiset(candidates)[c]
    ensures c.startByte < nextFreeByte || Beaten(c, Select(candidates, nextFreeByte))
    decreases |candidates|
  {
    var head, tail := candidates[0], candidates[1..];
    assert candidates == [head] + tail;
    if head.startByte >= nextFreeByte {
      var rest := Select(tail, head.endByte);
      SelectExplains(tail, head.endByte, c);
      assert c in multiset(tail) && c in tail;
      var i :| 0 <= i < |tail| && tail[i] == c;
      assert candidates[i + 1] == c && CandidateLe(head, c);
      BeatenLater(c, head, rest);
    } else if c != head {
      SelectExplains(tail, nextFreeByte, c);
    }
  }

  lemma GreedyJustified(candidates: seq<Candidate>)
    requires AllRanges(candidates)
    ensures Justified(candidates, Selected(candidates))
  {
    var sorted := Sort(candidates, CandidateLe);
    CandidateOrder();
    SortSorts(candidates, CandidateLe);
    SortPermutes(candidates, CandidateLe);
    SortElements(candidates, CandidateLe);
    forall k | 0 <= k < |sorted| ensures sorted[k].startByte <= sorted[k].endByte {
      assert sorted[k] in sorted && sorted[k] in candidates;
    }
    SelectDisjoint(sorted, 0);
    SelectTakesCopies(sorted, 0);
    forall c | multiset(Selected(candidates))[c] < multiset(candidates)[c] ensures Beaten(c, Selected(candidates)) {
      SelectExplains(sorted, 0, c);
    }
  }

  predicate AgreeUpTo(a: seq<Candidate>, b: seq<Candidate>, k: nat) {
    k <= |a| && k <= |b| && a[..k] == b[..k]
  }

  /** Copies of `a[k]` that a choice agreeing so far lacks were beaten by something from position `k` on. */
  lemma BeatenFrom(a: seq<Candidate>, b: seq<Candidate>, k: nat)
    requires k < |a| && AgreeUpTo(a, b, k) && InOrderDisjoint(a) && InOrderDisjoint(b) && Beaten(a[k], b)
    ensures k < |b| && CandidateLe(b[k], a[k])
  {
    var m :| 0 <= m < |b| && CandidateLe(b[m], a[k]) && Overlaps(b[m], a[k]);
    if m < k {
      PrefixEndsBefore(a, b, k, m);
    } else if m > k {
      assert CandidateLe(b[k], b[m]);
      CandidateTransitive(b[k], b[m], a[k]);
    }
  }

  lemma PrefixEndsBefore(a: seq<Candidate>, b: seq<Candidate>, k: nat, m: nat)
    requires m < k < |a| && AgreeUpTo(a, b, k) && InOrderDisjoint(a)
    ensures b[m].endByte <= a[k].startByte
  {
    assert a[..k][m] == b[..k][m];
  }

  lemma CandidateTransitive(x: Candidate, y: Candidate, z: Candidate)
    requires CandidateLe(x, y) && CandidateLe(y, z)
    ensures CandidateLe(x, z)
  {
    CandidateOrder();
  }

  /** A choice with as many copies of `a[k]` as `a` has so far holds one of them from position `k` on. */
  lemma CopyFrom(a: seq<Candidate>, b: seq<Candidate>, k: nat)
    requires k < |a| && AgreeUpTo(a, b, k) && InOrderDisjoint(b)
    requires multiset(b)[a[k]] >= multiset(a[..k + 1])[a[k]]
    ensures k < |b| && CandidateLe(b[k], a[k])
  {
    assert a[..k + 1] == a[..k] + [a[k]] && b == b[..k] + b[k..];
    assert multiset(b) == multiset(b[..k]) + multiset(b[k..]);
    assert a[k] in multiset(b[k..]) && a[k] in b[k..];
    var m :| 0 <= m < |b[k..]| && b[k..][m] == a[k];
    CandidateAntisymmetric(a[k], a[k]);
    if m > 0 { assert CandidateLe(b[k], b[k + m]); }
  }

  /** After a common prefix the other choice goes on, with a candidate that precedes ours. */
  lemma Precedes(candidates: seq<Candidate>, a: seq<Candidate>, b: seq<Candidate>, k: nat)
    requires Justified(candidates, a) && Justified(candidates, b) && k < |a| && AgreeUpTo(a, b, k)
    ensures k < |b| && CandidateLe(b[k], a[k])
  {
    if multiset(b)[a[k]] >= multiset(a[..k + 1])[a[k]] {
      CopyFrom(a, b, k);
    } else {
      MissingCopyBeaten(candidates, a, b, k);
      BeatenFrom(a, b, k);
    }
  }

  lemma MissingCopyBeaten(candidates: seq<Candidate>, a: seq<Candidate>, b: seq<Candidate>, k: nat)
    requires multiset(a) <= multiset(candidates) && LosersBeaten(candidates, b)
    requires k < |a| && multiset(b)[a[k]] < multiset(a[..k + 1])[a[k]]
    ensures Beaten(a[k], b)
  {
    assert a == a[..k + 1] + a[k + 1..];
    assert multiset(a)[a[k]] <= multiset(candidates)[a[k]];
  }

  lemma {:induction false} JustifiedPrefix(candidates: seq<Candidate>, a: seq<Candidate>, b: seq<Candidate>, k: nat)
    requires Justified(candidates, a) && Justified(candidates, b) && k <= |a|
    ensures AgreeUpTo(a, b, k)
  {
    if k > 0 {
      JustifiedPrefix(candidates, a, b, k - 1);
      Precedes(candidates, a, b, k - 1);
      Precedes(candidates, b, a, k - 1);
      CandidateAntisymmetric(a[k - 1], b[k - 1]);
      assert a[..k] == a[..k - 1] + [a[k - 1]] && b[..k] == b[..k - 1] + [b[k - 1]];
    }
  }

  /** At most one justified choice: two of them agree position by position. */
  lemma JustifiedAgree(candidates: seq<Candidate>, a: seq<Candidate>, b: seq<Candidate>)
    requires Justified(candidates, a) && Justified(candidates, b)
    ensures a == b
  {
    JustifiedPrefix(candidates, a, b, |a|);
    JustifiedPrefix(candidates, b, a, |b|);
  }

  /** The greedy choice is justified, and every justified choice is the greedy one. */
  lemma SelectionExact(candidates: seq<Candidate>, selected: seq<Candidate>)
    requires AllRanges(candidates)
    ensures Justified(candidates, selected) <==> selected == Selected(candidates)
  {
    GreedyJustified(candidates);
    if Justified(candidates, selected) {
      JustifiedAgree(candidates, selected, Selected(candidates));
    }
  }

  /** Whatever the rules, the ranges that are found satisfy this. */
  lemma ContributionsAreRanges(raw: string, rules: seq<CorrectionRule>, boundaries: set<nat>, fold: FoldTable)
    requires WordBoundaries(raw, boundaries) && NonEmptyFold(fold)
    ensures AllRanges(Contributions(raw, boundaries, Folded(fold, raw), rules))
  {
    ContributionsValid(raw, rules, boundaries, fold);
    var candidates := Contributions(raw, boundaries, Folded(fold, raw), rules);
    forall k | 0 <= k < |candidates| ensures candidates[k].startByte <= candidates[k].endByte {
      assert candidates[k] in candidates;
    }
  }
}
