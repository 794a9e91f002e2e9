/** Rendering the recorded corrections rebuilds the corrected text, except for empty corrections at one place. */
module RenderLaws {
  import opened Results
  import opened Sorting
  import opened Text
  import opened Search
  import opened Lexicon
  import opened Corrections
  import opened CorrectionLaws

  // ----- what is recorded -----

  /** Rendering by character offsets does what rewriting by byte offsets did. */
  lemma {:induction false} RenderMirrorsRewrite(raw: string, selected: seq<Candidate>, cursor: nat,
                                                freshId: IdSource, k: nat, appliedAt: int)
    requires Fits(raw, selected, cursor)
    requires MakeCorrections(raw, selected, cursor, freshId, k, appliedAt).Success?
    ensures RenderFrom(raw, MakeCorrections(raw, selected, cursor, freshId, k, appliedAt).value, cursor)
         == Success(Rewrite(raw, selected, cursor))
    decreases |selected|
  {
    if selected == [] {
    } else {
      var c := selected[0];
      RenderMirrorsRewrite(raw, selected[1..], c.endByte, freshId, k + 1, appliedAt);
      OffsetsInverse(raw, c.startByte, 0);
      OffsetsInverse(raw, c.endByte, 0);
      var corrections := MakeCorrections(raw, selected, cursor, freshId, k, appliedAt).value;
      assert corrections[1..] == MakeCorrections(raw, selected[1..], c.endByte, freshId, k + 1, appliedAt).value;
    }
  }

  /** The record of one candidate. */
  predicate RecordOf(raw: string, c: Candidate, id: nat, a: AppliedCorrection) {
    && a.id == id && a.variantId == c.variantId && a.replacement == c.replacement
    && a.startChar == CharIndex(raw, c.startByte) && a.endChar == CharIndex(raw, c.endByte)
    && a.startChar <= a.endChar
  }

  lemma {:induction false} Recorded(raw: string, selected: seq<Candidate>, cursor: nat, freshId: IdSource, k: nat,
                                    appliedAt: int)
    requires Fits(raw, selected, cursor)
    requires MakeCorrections(raw, selected, cursor, freshId, k, appliedAt).Success?
    ensures var cs := MakeCorrections(raw, selected, cursor, freshId, k, appliedAt).value;
      |cs| == |selected| && forall m :: 0 <= m < |cs| ==> RecordOf(raw, selected[m], freshId(k + m), cs[m])
    decreases |selected|
  {
    if selected != [] {
      var c := selected[0];
      Recorded(raw, selected[1..], c.endByte, freshId, k + 1, appliedAt);
      BoundaryOrder(raw, c.startByte, c.endByte);
      var cs := MakeCorrections(raw, selected, cursor, freshId, k, appliedAt).value;
      var tail := MakeCorrections(raw, selected[1..], c.endByte, freshId, k + 1, appliedAt).value;
      assert cs[1..] == tail;
      forall m | 0 <= m < |cs| ensures RecordOf(raw, selected[m], freshId(k + m), cs[m]) {
        if m > 0 {
          assert cs[m] == tail[m - 1] && RecordOf(raw, selected[1..][m - 1], freshId(k + 1 + (m - 1)), tail[m - 1]);
        }
      }
    }
  }

  /** Whether recording succeeds does not depend on the ids. */
  lemma {:induction false} IdsDoNotMatter(raw: string, selected: seq<Candidate>, cursor: nat, a: IdSource, b: IdSource,
                                          k: nat, appliedAt: int)
    requires Fits(raw, selected, cursor)
    ensures MakeCorrections(raw, selected, cursor, a, k, appliedAt).Success?
       <==> MakeCorrections(raw, selected, cursor, b, k, appliedAt).Success?
    decreases |selected|
  {
    if selected != [] { IdsDoNotMatter(raw, selected[1..], selected[0].endByte, a, b, k + 1, appliedAt); }
  }

  /** Each recorded range ends before the next one starts. */
  ghost predicate Stacked(cs: seq<AppliedCorrection>) {
    && (forall k :: 0 <= k < |cs| ==> cs[k].startChar <= cs[k].endChar)
    && (forall k, l :: 0 <= k < l < |cs| ==> cs[k].endChar <= cs[l].startChar)
  }

  lemma {:induction false} FitsInOrder(raw: string, selected: seq<Candidate>, cursor: nat)
    requires Fits(raw, selected, cursor)
    ensures forall k :: 0 <= k < |selected| ==> ValidCandidate(raw, selected[k]) && cursor <= selected[k].startByte
    ensures forall k, l :: 0 <= k < l < |selected| ==> selected[k].endByte <= selected[l].startByte
    decreases |selected|
  {
    if selected != [] { FitsInOrder(raw, selected[1..], selected[0].endByte); }
  }

  lemma RecordsStacked(raw: string, selected: seq<Candidate>, freshId: IdSource, appliedAt: int)
    requires Fits(raw, selected, 0) && MakeCorrections(raw, selected, 0, freshId, 0, appliedAt).Success?
    ensures Stacked(MakeCorrections(raw, selected, 0, freshId, 0, appliedAt).value)
  {
    var cs := MakeCorrections(raw, selected, 0, freshId, 0, appliedAt).value;
    Recorded(raw, selected, 0, freshId, 0, appliedAt);
    FitsInOrder(raw, selected, 0);
    forall k | 0 <= k < |cs| ensures cs[k].startChar <= cs[k].endChar {
      assert RecordOf(raw, selected[k], freshId(0 + k), cs[k]);
    }
    forall k, l | 0 <= k < l < |cs| ensures cs[k].endChar <= cs[l].startChar {
      assert RecordOf(raw, selected[k], freshId(0 + k), cs[k]) && RecordOf(raw, selected[l], freshId(0 + l), cs[l]);
      BoundaryOrder(raw, selected[k].endByte, selected[l].startByte);
    }
  }

  // ----- empty corrections at one place -----

  predicate Commute(a: string, b: string) {
    a + b == b + a
  }

  /** Two empty candidates at one place. */
  predicate Twins(c: Candidate, d: Candidate) {
    c.startByte == c.endByte == d.startByte == d.endByte
  }

  /** Empty candidates at one place can be written in either order. */
  ghost predicate TwinsCommute(selected: seq<Candidate>) {
    forall k, l :: 0 <= k < l < |selected| && Twins(selected[k], selected[l]) ==>
      Commute(selected[k].replacement, selected[l].replacement)
  }

  predicate TwinRecords(a: AppliedCorrection, b: AppliedCorrection) {
    a.startChar == a.endChar == b.startChar == b.endChar
  }

  lemma TwinsRecorded(raw: string, c: Candidate, d: Candidate, i: nat, j: nat, a: AppliedCorrection,
                      b: AppliedCorrection)
    requires ValidCandidate(raw, c) && ValidCandidate(raw, d) && RecordOf(raw, c, i, a) && RecordOf(raw, d, j, b)
    ensures TwinRecords(a, b) <==> Twins(c, d)
  {
    BoundaryOrder(raw, c.startByte, c.endByte);
    BoundaryOrder(raw, d.startByte, d.endByte);
    BoundaryOrder(raw, c.startByte, d.startByte);
  }

  /** In a stack only twins can stand in the wrong order. */
  lemma OutOfOrderAreTwins(a: AppliedCorrection, b: AppliedCorrection)
    requires a.startChar <= a.endChar <= b.startChar <= b.endChar && !CorrectionLe(a, b)
    ensures TwinRecords(a, b) && b.id < a.id
  {
  }

  // ----- commuting twins: any order of ids renders alike -----

  /** `c` may stand before or after every element of `s` that does not come after it. */
  ghost predicate MayPass(c: AppliedCorrection, s: seq<AppliedCorrection>) {
    forall k :: 0 <= k < |s| ==>
      CorrectionLe(c, s[k]) || (TwinRecords(c, s[k]) && Commute(c.replacement, s[k].replacement))
  }

  /** An empty correction that renders at the cursor or later puts its replacement there. */
  lemma RenderEmpty(raw: string, c: AppliedCorrection, rest: seq<AppliedCorrection>, cursor: nat)
    requires IsBoundary(raw, cursor) && c.startChar == c.endChar && RenderFrom(raw, [c] + rest, cursor).Success?
    ensures c.startChar <= |raw| && cursor <= ByteOffset(raw, c.startChar) && c.original == ""
    ensures IsBoundary(raw, ByteOffset(raw, c.startChar))
    ensures RenderFrom(raw, [c] + rest, cursor)
         == Prepend(ByteSlice(raw, cursor, ByteOffset(raw, c.startChar)) + c.replacement,
                    RenderFrom(raw, rest, ByteOffset(raw, c.startChar)))
  {
    OffsetAtCharIsBoundary(raw, c.startChar);
    assert ([c] + rest)[1..] == rest;
  }

  lemma EmptyRenders(raw: string, c: AppliedCorrection, rest: seq<AppliedCorrection>, cursor: nat)
    requires IsBoundary(raw, cursor) && c.startChar == c.endChar <= |raw| && c.original == ""
    requires cursor <= ByteOffset(raw, c.startChar) && IsBoundary(raw, ByteOffset(raw, c.startChar))
    requires RenderFrom(raw, rest, ByteOffset(raw, c.startChar)).Success?
    ensures RenderFrom(raw, [c] + rest, cursor).Success?
  {
    OffsetAtCharIsBoundary(raw, c.startChar);
    assert ([c] + rest)[1..] == rest;
  }

  lemma EmptySlice(raw: string, b: nat)
    requires IsBoundary(raw, b)
    ensures ByteSlice(raw, b, b) == ""
  {
  }

  /** Two empty corrections at one place write their replacements one after the other. */
  lemma RenderTwins(raw: string, c: AppliedCorrection, d: AppliedCorrection, rest: seq<AppliedCorrection>, cursor: nat)
    requires IsBoundary(raw, cursor) && TwinRecords(c, d) && RenderFrom(raw, [c] + ([d] + rest), cursor).Success?
    ensures c.startChar <= |raw| && cursor <= ByteOffset(raw, c.startChar)
      && IsBoundary(raw, ByteOffset(raw, c.startChar))
    ensures c.original == "" && d.original == ""
    ensures RenderFrom(raw, rest, ByteOffset(raw, c.startChar)).Success?
    ensures RenderFrom(raw, [c] + ([d] + rest), cursor)
         == Prepend(ByteSlice(raw, cursor, ByteOffset(raw, c.startChar)) + c.replacement + d.replacement,
                    RenderFrom(raw, rest, ByteOffset(raw, c.startChar)))
  {
    RenderEmpty(raw, c, [d] + rest, cursor);
    var b := ByteOffset(raw, c.startChar);
    RenderEmpty(raw, d, rest, b);
    EmptySlice(raw, b);
    assert "" + d.replacement == d.replacement;
    PrependTwice(ByteSlice(raw, cursor, b) + c.replacement, d.replacement, RenderFrom(raw, rest, b));
  }

  lemma SwapTwins(raw: string, c: AppliedCorrection, d: AppliedCorrection, rest: seq<AppliedCorrection>, cursor: nat)
    requires IsBoundary(raw, cursor) && TwinRecords(c, d) && Commute(c.replacement, d.replacement)
    requires RenderFrom(raw, [c] + ([d] + rest), cursor).Success?
    ensures RenderFrom(raw, [d] + ([c] + rest), cursor) == RenderFrom(raw, [c] + ([d] + rest), cursor)
  {
    RenderTwins(raw, c, d, rest, cursor);
    var b := ByteOffset(raw, c.startChar);
    EmptyRenders(raw, c, rest, b);
    EmptyRenders(raw, d, [c] + rest, cursor);
    RenderTwins(raw, d, c, rest, cursor);
    var gap := ByteSlice(raw, cursor, b);
    assert gap + c.replacement + d.replacement == gap + (c.replacement + d.replacement);
    assert gap + d.replacement + c.replacement == gap + (d.replacement + c.replacement);
  }

  /** Replacing what follows the first correction by something that renders alike changes nothing. */
  lemma SameTail(raw: string, c: AppliedCorrection, s: seq<AppliedCorrection>, t: seq<AppliedCorrection>, cursor: nat)
    requires IsBoundary(raw, cursor) && RenderFrom(raw, [c] + s, cursor).Success?
    requires c.endChar <= |raw| ==> IsBoundary(raw, ByteOffset(raw, c.endChar))
    requires c.endChar <= |raw| ==>
      RenderFrom(raw, t, ByteOffset(raw, c.endChar)) == RenderFrom(raw, s, ByteOffset(raw, c.endChar))
    ensures RenderFrom(raw, [c] + t, cursor) == RenderFrom(raw, [c] + s, cursor)
  {
    OffsetAtCharIsBoundary(raw, c.endChar);
    assert ([c] + s)[1..] == s && ([c] + t)[1..] == t;
  }

  /** Sorting one correction in past twins it commutes with does not change what is rendered. */
  lemma {:induction false} InsertRenders(raw: string, c: AppliedCorrection, s: seq<AppliedCorrection>, cursor: nat)
    requires IsBoundary(raw, cursor) && MayPass(c, s) && RenderFrom(raw, [c] + s, cursor).Success?
    ensures RenderFrom(raw, Insert(c, s, CorrectionLe), cursor) == RenderFrom(raw, [c] + s, cursor)
    decreases |s|
  {
    if s == [] {
      assert [c] + s == [c];
    } else if !CorrectionLe(c, s[0]) {
      var d, rest := s[0], s[1..];
      assert s == [d] + rest && TwinRecords(c, d) && Commute(c.replacement, d.replacement);
      SwapTwins(raw, c, d, rest, cursor);
      RenderEmpty(raw, d, [c] + rest, cursor);
      assert MayPass(c, rest);
      InsertRenders(raw, c, rest, ByteOffset(raw, d.startChar));
      SameTail(raw, d, [c] + rest, Insert(c, rest, CorrectionLe), cursor);
    }
  }

  ghost predicate TwinRecordsCommute(cs: seq<AppliedCorrection>) {
    forall k, l :: 0 <= k < l < |cs| && TwinRecords(cs[k], cs[l]) ==> Commute(cs[k].replacement, cs[l].replacement)
  }

  lemma FirstMayPass(cs: seq<AppliedCorrection>)
    requires cs != [] && Stacked(cs) && TwinRecordsCommute(cs)
    ensures MayPass(cs[0], Sort(cs[1..], CorrectionLe))
  {
    var c, sorted := cs[0], Sort(cs[1..], CorrectionLe);
    SortElements(cs[1..], CorrectionLe);
    forall k | 0 <= k < |sorted|
      ensures CorrectionLe(c, sorted[k]) || (TwinRecords(c, sorted[k]) && Commute(c.replacement, sorted[k].replacement))
    {
      assert sorted[k] in sorted && sorted[k] in cs[1..];
      var i :| 0 <= i < |cs[1..]| && cs[1..][i] == sorted[k];
      assert cs[i + 1] == sorted[k] && cs[0].endChar <= cs[i + 1].startChar;
      if !CorrectionLe(c, sorted[k]) { OutOfOrderAreTwins(c, sorted[k]); }
    }
  }

  /** Recorded corrections whose twins commute render alike in recorded and in sorted order. */
  lemma {:induction false} SortRenders(raw: string, cs: seq<AppliedCorrection>, cursor: nat)
    requires IsBoundary(raw, cursor) && Stacked(cs) && TwinRecordsCommute(cs) && RenderFrom(raw, cs, cursor).Success?
    ensures RenderFrom(raw, Sort(cs, CorrectionLe), cursor) == RenderFrom(raw, cs, cursor)
    decreases |cs|
  {
    if cs != [] {
      var c, tail, sorted := cs[0], cs[1..], Sort(cs[1..], CorrectionLe);
      assert cs == [c] + tail;
      OffsetAtCharIsBoundary(raw, c.endChar);
      SortRenders(raw, tail, ByteOffset(raw, c.endChar));
      SameTail(raw, c, tail, sorted, cursor);
      FirstMayPass(cs);
      InsertRenders(raw, c, sorted, cursor);
    }
  }

  // ----- ids that move one correction forward -----

  /** Ids in recorded order, except that number `l` comes just before number `j`. */
  function MovingIds(j: nat, l: nat): IdSource {
    (i: nat) => if i == l then 2 * j else 2 * i + 1
  }

  function Moved(s: seq<AppliedCorrection>, j: nat, l: nat): (r: seq<AppliedCorrection>)
    requires j <= l < |s|
    ensures |r| == |s|
    ensures forall m :: 0 <= m < |r| ==> r[m] == s[if m < j || m > l then m else if m == j then l else m - 1]
  {
    s[..j] + ([s[l]] + (s[j..l] + s[l + 1..]))
  }

  lemma MovedPermutes(s: seq<AppliedCorrection>, j: nat, l: nat)
    requires j <= l < |s|
    ensures multiset(Moved(s, j, l)) == multiset(s)
  {
    assert s == s[..j] + (s[j..l] + ([s[l]] + s[l + 1..]));
  }

  lemma TwinsBetween(cs: seq<AppliedCorrection>, j: nat, m: nat, l: nat)
    requires Stacked(cs) && j <= m <= l < |cs| && TwinRecords(cs[j], cs[l])
    ensures TwinRecords(cs[m], cs[l])
  {
  }

  ghost predicate HasIds(cs: seq<AppliedCorrection>, freshId: IdSource) {
    forall m :: 0 <= m < |cs| ==> cs[m].id == freshId(m)
  }

  lemma StackedLe(cs: seq<AppliedCorrection>, p: nat, q: nat)
    requires Stacked(cs) && p < q < |cs| && cs[p].id <= cs[q].id
    ensures CorrectionLe(cs[p], cs[q])
  {
    if !CorrectionLe(cs[p], cs[q]) { OutOfOrderAreTwins(cs[p], cs[q]); }
  }

  lemma MovedPair(cs: seq<AppliedCorrection>, j: nat, l: nat, x: nat, y: nat)
    requires Stacked(cs) && j <= l < |cs| && TwinRecords(cs[j], cs[l]) && HasIds(cs, MovingIds(j, l)) && x < y < |cs|
    ensures CorrectionLe(Moved(cs, j, l)[x], Moved(cs, j, l)[y])
  {
    var t := Moved(cs, j, l);
    var p := if x < j || x > l then x else if x == j then l else x - 1;
    var q := if y < j || y > l then y else if y == j then l else y - 1;
    assert t[x] == cs[p] && t[y] == cs[q];
    assert cs[p].id == MovingIds(j, l)(p) && cs[q].id == MovingIds(j, l)(q);
    if p < q {
      StackedLe(cs, p, q);
    } else {
      TwinsBetween(cs, j, q, l);
    }
  }

  lemma IdsAntisymmetric(cs: seq<AppliedCorrection>, j: nat, l: nat)
    requires HasIds(cs, MovingIds(j, l))
    ensures AntisymmetricOn(cs, CorrectionLe)
  {
    forall x, y | x in cs && y in cs && CorrectionLe(x, y) && CorrectionLe(y, x) ensures x == y {
      var p :| 0 <= p < |cs| && cs[p] == x;
      var q :| 0 <= q < |cs| && cs[q] == y;
      assert cs[p].id == MovingIds(j, l)(p) && cs[q].id == MovingIds(j, l)(q);
    }
  }

  lemma MovedSorted(cs: seq<AppliedCorrection>, j: nat, l: nat)
    requires Stacked(cs) && j <= l < |cs| && TwinRecords(cs[j], cs[l]) && HasIds(cs, MovingIds(j, l))
    ensures Sort(cs, CorrectionLe) == Moved(cs, j, l)
  {
    var t := Moved(cs, j, l);
    forall x, y | 0 <= x < y < |t| ensures CorrectionLe(t[x], t[y]) {
      MovedPair(cs, j, l, x, y);
    }
    MovedPermutes(cs, j, l);
    CorrectionOrder();
    IdsAntisymmetric(cs, j, l);
    SortIgnoresOrder(cs, t, CorrectionLe);
    SortOfSorted(t, CorrectionLe);
  }

  // ----- what a moved correction renders to -----

  function Cat(cs: seq<AppliedCorrection>): string {
    if cs == [] then "" else cs[0].replacement + Cat(cs[1..])
  }

  /** Two continuations of one prefix that render alike render alike from its end. */
  lemma {:induction false} CancelPrefix(raw: string, prefix: seq<AppliedCorrection>, a: seq<AppliedCorrection>,
                                        b: seq<AppliedCorrection>, cursor: nat) returns (e: nat)
    requires IsBoundary(raw, cursor) && RenderFrom(raw, prefix + a, cursor).Success?
    requires RenderFrom(raw, prefix + b, cursor) == RenderFrom(raw, prefix + a, cursor)
    ensures IsBoundary(raw, e) && RenderFrom(raw, a, e).Success? && RenderFrom(raw, b, e) == RenderFrom(raw, a, e)
    decreases |prefix|
  {
    if prefix == [] {
      e := cursor;
      assert prefix + a == a && prefix + b == b;
    } else {
      var c := prefix[0];
      OffsetAtCharIsBoundary(raw, c.endChar);
      var next := ByteOffset(raw, c.endChar);
      assert (prefix + a)[1..] == prefix[1..] + a && (prefix + b)[1..] == prefix[1..] + b;
      CancelFirst(raw, prefix + a, prefix + b, cursor);
      e := CancelPrefix(raw, prefix[1..], a, b, next);
    }
  }

  lemma CancelFirst(raw: string, s: seq<AppliedCorrection>, t: seq<AppliedCorrection>, cursor: nat)
    requires IsBoundary(raw, cursor) && s != [] && t != [] && s[0] == t[0]
    requires RenderFrom(raw, s, cursor).Success? && RenderFrom(raw, t, cursor) == RenderFrom(raw, s, cursor)
    ensures s[0].endChar <= |raw| && IsBoundary(raw, ByteOffset(raw, s[0].endChar))
    ensures var e := ByteOffset(raw, s[0].endChar);
      RenderFrom(raw, s[1..], e).Success? && RenderFrom(raw, t[1..], e) == RenderFrom(raw, s[1..], e)
  {
    var c := s[0];
    OffsetAtCharIsBoundary(raw, c.startChar);
    OffsetAtCharIsBoundary(raw, c.endChar);
    var head := ByteSlice(raw, cursor, ByteOffset(raw, c.startChar)) + c.replacement;
    var e := ByteOffset(raw, c.endChar);
    assert RenderFrom(raw, s, cursor) == Prepend(head, RenderFrom(raw, s[1..], e));
    assert RenderFrom(raw, t, cursor) == Prepend(head, RenderFrom(raw, t[1..], e));
    CancelHead(head, RenderFrom(raw, s[1..], e).value, RenderFrom(raw, t[1..], e).value);
  }

  lemma CancelHead(head: string, a: string, b: string)
    requires head + a == head + b
    ensures a == b
  {
    assert a == (head + a)[|head|..] && b == (head + b)[|head|..];
  }

  ghost predicate AllTwinsOf(run: seq<AppliedCorrection>, x: AppliedCorrection) {
    forall m :: 0 <= m < |run| ==> TwinRecords(run[m], x)
  }

  /** A run of empty corrections at one place writes its replacements one after the other. */
  lemma {:induction false} RenderRun(raw: string, run: seq<AppliedCorrection>, x: AppliedCorrection,
                                     rest: seq<AppliedCorrection>, cursor: nat)
    requires IsBoundary(raw, cursor) && run != [] && AllTwinsOf(run, x) && RenderFrom(raw, run + rest, cursor).Success?
    ensures x.startChar <= |raw| && IsBoundary(raw, ByteOffset(raw, x.startChar))
      && cursor <= ByteOffset(raw, x.startChar)
    ensures RenderFrom(raw, run + rest, cursor)
         == Prepend(ByteSlice(raw, cursor, ByteOffset(raw, x.startChar)) + Cat(run),
                    RenderFrom(raw, rest, ByteOffset(raw, x.startChar)))
    decreases |run|
  {
    var c, tail := run[0], run[1..];
    assert TwinRecords(run[0], x);
    assert run + rest == [c] + (tail + rest);
    RenderEmpty(raw, c, tail + rest, cursor);
    var b := ByteOffset(raw, x.startChar);
    var head := ByteSlice(raw, cursor, b) + c.replacement;
    if tail == [] {
      assert tail + rest == rest && c.replacement + "" == c.replacement;
    } else {
      RenderRun(raw, tail, x, rest, b);
      EmptySlice(raw, b);
      assert "" + Cat(tail) == Cat(tail);
      PrependTwice(head, Cat(tail), RenderFrom(raw, rest, b));
      assert head + Cat(tail) == ByteSlice(raw, cursor, b) + Cat(run);
    }
  }

  lemma CommuteInContext(gap: string, a: string, b: string, rest: string)
    requires gap + (a + b) + rest == gap + (b + a) + rest
    ensures Commute(a, b)
  {
    var s, t := gap + (a + b) + rest, gap + (b + a) + rest;
    assert a + b == s[|gap|..|gap| + |a| + |b|] && b + a == t[|gap|..|gap| + |a| + |b|];
  }

  /** If moving a correction before a run of its twins renders alike, it commutes with what the run writes. */
  lemma MovedCommutes(raw: string, run: seq<AppliedCorrection>, x: AppliedCorrection, rest: seq<AppliedCorrection>,
                      cursor: nat)
    requires IsBoundary(raw, cursor) && AllTwinsOf(run, x) && x.startChar == x.endChar
    requires RenderFrom(raw, run + ([x] + rest), cursor).Success?
    requires RenderFrom(raw, [x] + (run + rest), cursor) == RenderFrom(raw, run + ([x] + rest), cursor)
    ensures Commute(Cat(run), x.replacement)
  {
    if run == [] {
      assert "" + x.replacement == x.replacement + "";
    } else {
      RenderRun(raw, run, x, [x] + rest, cursor);
      var b := ByteOffset(raw, x.startChar);
      var gap, tail := ByteSlice(raw, cursor, b), RenderFrom(raw, rest, b);
      EmptySlice(raw, b);
      RenderEmpty(raw, x, rest, b);
      assert "" + x.replacement == x.replacement;
      PrependTwice(gap + Cat(run), x.replacement, tail);
      RenderEmpty(raw, x, run + rest, cursor);
      RenderRun(raw, run, x, rest, b);
      assert "" + Cat(run) == Cat(run);
      PrependTwice(gap + x.replacement, Cat(run), tail);
      assert gap + Cat(run) + x.replacement == gap + (Cat(run) + x.replacement);
      assert gap + x.replacement + Cat(run) == gap + (x.replacement + Cat(run));
      CommuteInContext(gap, Cat(run), x.replacement, tail.value);
    }
  }

  /** If the ids that move number `l` before number `j` render alike, number `l` commutes with what stands between. */
  lemma MoveConsequence(raw: string, cs: seq<AppliedCorrection>, j: nat, l: nat)
    requires Stacked(cs) && j <= l < |cs| && TwinRecords(cs[j], cs[l]) && HasIds(cs, MovingIds(j, l))
      && IsBoundary(raw, 0)
    requires RenderFrom(raw, cs, 0).Success? && Render(raw, cs) == RenderFrom(raw, cs, 0)
    ensures Commute(Cat(cs[j..l]), cs[l].replacement)
  {
    MovedSorted(cs, j, l);
    SplitAround(cs, j, l);
    TwinsRun(cs, j, l);
    var run, x, rest := cs[j..l], cs[l], cs[l + 1..];
    var e := CancelPrefix(raw, cs[..j], run + ([x] + rest), [x] + (run + rest), 0);
    MovedCommutes(raw, run, x, rest, e);
  }

  lemma SplitAround(cs: seq<AppliedCorrection>, j: nat, l: nat)
    requires j <= l < |cs|
    ensures cs == cs[..j] + (cs[j..l] + ([cs[l]] + cs[l + 1..]))
    ensures Moved(cs, j, l) == cs[..j] + ([cs[l]] + (cs[j..l] + cs[l + 1..]))
  {
  }

  lemma TwinsRun(cs: seq<AppliedCorrection>, j: nat, l: nat)
    requires Stacked(cs) && j <= l < |cs| && TwinRecords(cs[j], cs[l])
    ensures AllTwinsOf(cs[j..l], cs[l]) && cs[l].startChar == cs[l].endChar
  {
    forall m | 0 <= m < |cs[j..l]| ensures TwinRecords(cs[j..l][m], cs[l]) {
      TwinsBetween(cs, j, j + m, l);
    }
  }

  /** From two moves of `x`, before and after `r`, both commuting with what stands between, `r` and `x` commute. */
  lemma CommuteFirst(r: string, between: string, x: string)
    requires Commute(r + between, x) && Commute(between, x)
    ensures Commute(r, x)
  {
    assert r + x + between == (r + between) + x by {
      assert r + (x + between) == r + (between + x);
      assert r + x + between == r + (x + between) && (r + between) + x == r + (between + x);
    }
    assert x + r + between == x + (r + between);
    assert |r + x| == |x + r|;
    assert r + x == (r + x + between)[..|r + x|] && x + r == (x + r + between)[..|x + r|];
  }

  // ----- the exact statement -----

  ghost predicate Unrepeated(freshId: IdSource) {
    forall i: nat, j: nat :: freshId(i) == freshId(j) ==> i == j
  }

  /** The pass succeeds and rendering its corrections gives its final text. */
  predicate Rebuilt(raw: string, selected: seq<Candidate>, freshId: IdSource, appliedAt: int)
    requires Fits(raw, selected, 0)
  {
    match MakeCorrections(raw, selected, 0, freshId, 0, appliedAt)
    case Failure(_) => false
    case Success(corrections) => Render(raw, corrections) == Success(Rewrite(raw, selected, 0))
  }

  lemma TwinsRecordsCommute(raw: string, selected: seq<Candidate>, freshId: IdSource, appliedAt: int)
    requires Fits(raw, selected, 0) && MakeCorrections(raw, selected, 0, freshId, 0, appliedAt).Success?
      && TwinsCommute(selected)
    ensures TwinRecordsCommute(MakeCorrections(raw, selected, 0, freshId, 0, appliedAt).value)
  {
    var cs := MakeCorrections(raw, selected, 0, freshId, 0, appliedAt).value;
    Recorded(raw, selected, 0, freshId, 0, appliedAt);
    FitsInOrder(raw, selected, 0);
    forall k, l | 0 <= k < l < |cs| && TwinRecords(cs[k], cs[l]) ensures Commute(cs[k].replacement, cs[l].replacement) {
      assert RecordOf(raw, selected[k], freshId(0 + k), cs[k]) && RecordOf(raw, selected[l], freshId(0 + l), cs[l]);
      TwinsRecorded(raw, selected[k], selected[l], freshId(k), freshId(l), cs[k], cs[l]);
    }
  }

  /** Commuting twins: any ids will do. */
  lemma RebuiltWhenTwinsCommute(raw: string, selected: seq<Candidate>, freshId: IdSource, appliedAt: int)
    requires Fits(raw, selected, 0) && MakeCorrections(raw, selected, 0, freshId, 0, appliedAt).Success?
      && TwinsCommute(selected)
    ensures Rebuilt(raw, selected, freshId, appliedAt)
  {
    var cs := MakeCorrections(raw, selected, 0, freshId, 0, appliedAt).value;
    EndsAreBoundaries(raw);
    RenderMirrorsRewrite(raw, selected, 0, freshId, 0, appliedAt);
    RecordsStacked(raw, selected, freshId, appliedAt);
    TwinsRecordsCommute(raw, selected, freshId, appliedAt);
    SortRenders(raw, cs, 0);
  }

  /** What a run of candidates writes. */
  function Written(selected: seq<Candidate>): string {
    if selected == [] then "" else selected[0].replacement + Written(selected[1..])
  }

  lemma {:induction false} CatIsWritten(cs: seq<AppliedCorrection>, selected: seq<Candidate>)
    requires |cs| == |selected| && forall m :: 0 <= m < |cs| ==> cs[m].replacement == selected[m].replacement
    ensures Cat(cs) == Written(selected)
    decreases |cs|
  {
    if cs != [] { CatIsWritten(cs[1..], selected[1..]); }
  }

  ghost predicate WritesLike(cs: seq<AppliedCorrection>, selected: seq<Candidate>) {
    |cs| == |selected| && forall m :: 0 <= m < |cs| ==> cs[m].replacement == selected[m].replacement
  }

  lemma RecordsFields(raw: string, selected: seq<Candidate>, ids: IdSource, appliedAt: int)
    requires Fits(raw, selected, 0) && MakeCorrections(raw, selected, 0, ids, 0, appliedAt).Success?
    ensures var cs := MakeCorrections(raw, selected, 0, ids, 0, appliedAt).value;
      WritesLike(cs, selected) && HasIds(cs, ids)
  {
    var cs := MakeCorrections(raw, selected, 0, ids, 0, appliedAt).value;
    Recorded(raw, selected, 0, ids, 0, appliedAt);
    forall m | 0 <= m < |cs| ensures cs[m].id == ids(m) && cs[m].replacement == selected[m].replacement {
      assert RecordOf(raw, selected[m], ids(0 + m), cs[m]);
    }
  }

  lemma RecordsTwins(raw: string, selected: seq<Candidate>, ids: IdSource, appliedAt: int, j: nat, l: nat)
    requires Fits(raw, selected, 0) && MakeCorrections(raw, selected, 0, ids, 0, appliedAt).Success?
    requires j <= l < |selected| && Twins(selected[j], selected[l])
    ensures var cs := MakeCorrections(raw, selected, 0, ids, 0, appliedAt).value;
      |cs| == |selected| && TwinRecords(cs[j], cs[l])
  {
    var cs := MakeCorrections(raw, selected, 0, ids, 0, appliedAt).value;
    Recorded(raw, selected, 0, ids, 0, appliedAt);
    FitsInOrder(raw, selected, 0);
    assert RecordOf(raw, selected[j], ids(0 + j), cs[j]) && RecordOf(raw, selected[l], ids(0 + l), cs[l]);
    TwinsRecorded(raw, selected[j], selected[l], ids(j), ids(l), cs[j], cs[l]);
  }

  /** One move: a twin commutes with what stands between it and an earlier twin. */
  lemma RebuiltMove(raw: string, selected: seq<Candidate>, appliedAt: int, j: nat, l: nat)
    requires Fits(raw, selected, 0) && j <= l < |selected| && Twins(selected[j], selected[l])
    requires Rebuilt(raw, selected, MovingIds(j, l), appliedAt)
    ensures Commute(Written(selected[j..l]), selected[l].replacement)
  {
    var ids := MovingIds(j, l);
    var cs := MakeCorrections(raw, selected, 0, ids, 0, appliedAt).value;
    EndsAreBoundaries(raw);
    RenderMirrorsRewrite(raw, selected, 0, ids, 0, appliedAt);
    RecordsStacked(raw, selected, ids, appliedAt);
    RecordsFields(raw, selected, ids, appliedAt);
    RecordsTwins(raw, selected, ids, appliedAt, j, l);
    MoveConsequence(raw, cs, j, l);
    CatIsWritten(cs[j..l], selected[j..l]);
  }

  lemma NextTwin(raw: string, selected: seq<Candidate>, k: nat, l: nat)
    requires Fits(raw, selected, 0) && k < l < |selected| && Twins(selected[k], selected[l])
    ensures Twins(selected[k + 1], selected[l])
  {
    FitsInOrder(raw, selected, 0);
    assert ValidCandidate(raw, selected[k + 1]);
    if k + 1 < l { assert selected[k + 1].endByte <= selected[l].startByte; }
  }

  /** If every source of ids rebuilds the text, twins commute. */
  lemma TwinsCommuteWhenRebuilt(raw: string, selected: seq<Candidate>, appliedAt: int)
    requires Fits(raw, selected, 0)
    requires forall freshId: IdSource :: Unrepeated(freshId) ==> Rebuilt(raw, selected, freshId, appliedAt)
    ensures TwinsCommute(selected)
  {
    forall k, l | 0 <= k < l < |selected| && Twins(selected[k], selected[l])
      ensures Commute(selected[k].replacement, selected[l].replacement)
    {
      NextTwin(raw, selected, k, l);
      assert Unrepeated(MovingIds(k, l)) && Unrepeated(MovingIds(k + 1, l));
      RebuiltMove(raw, selected, appliedAt, k, l);
      RebuiltMove(raw, selected, appliedAt, k + 1, l);
      assert selected[k..l][1..] == selected[k + 1..l];
      CommuteFirst(selected[k].replacement, Written(selected[k + 1..l]), selected[l].replacement);
    }
  }

  function SelectedFor(raw: string, rules: seq<CorrectionRule>, boundaries: set<nat>, fold: FoldTable): seq<Candidate> {
    Selected(Contributions(raw, boundaries, Folded(fold, raw), rules))
  }

  ghost predicate RendersBack(raw: string, rules: seq<CorrectionRule>, boundaries: set<nat>, fold: FoldTable,
                              freshId: IdSource, appliedAt: int)
    requires WordBoundaries(raw, boundaries) && NonEmptyFold(fold)
  {
    match Applied(raw, rules, boundaries, fold, freshId, appliedAt)
    case Failure(_) => false
    case Success(result) => Render(raw, result.corrections) == Success(result.finalText)
  }

  lemma RendersBackIsRebuilt(raw: string, rules: seq<CorrectionRule>, boundaries: set<nat>, fold: FoldTable,
                             freshId: IdSource, appliedAt: int)
    requires WordBoundaries(raw, boundaries) && NonEmptyFold(fold) && FirstForeign(rules).None?
    requires Fits(raw, SelectedFor(raw, rules, boundaries, fold), 0)
    ensures RendersBack(raw, rules, boundaries, fold, freshId, appliedAt)
       <==> Rebuilt(raw, SelectedFor(raw, rules, boundaries, fold), freshId, appliedAt)
  {
  }

  /** Rendering what `apply_corrections` recorded gives back exactly its final text, for whatever fresh ids, when and
      only when empty candidates selected at one place can be written in either order. */
  lemma RenderRebuildsExactly(raw: string, rules: seq<CorrectionRule>, boundaries: set<nat>, fold: FoldTable,
                              someId: IdSource, appliedAt: int)
    requires WordBoundaries(raw, boundaries) && NonEmptyFold(fold)
    requires Applied(raw, rules, boundaries, fold, someId, appliedAt).Success?
    ensures (forall freshId: IdSource :: Unrepeated(freshId) ==>
      RendersBack(raw, rules, boundaries, fold, freshId, appliedAt))
       <==> TwinsCommute(SelectedFor(raw, rules, boundaries, fold))
  {
    var selected := SelectedFor(raw, rules, boundaries, fold);
    SelectionFits(raw, rules, boundaries, fold);
    forall freshId: IdSource
      ensures RendersBack(raw, rules, boundaries, fold, freshId, appliedAt)
        <==> Rebuilt(raw, selected, freshId, appliedAt)
    {
      RendersBackIsRebuilt(raw, rules, boundaries, fold, freshId, appliedAt);
    }
    if TwinsCommute(selected) {
      forall freshId: IdSource ensures Rebuilt(raw, selected, freshId, appliedAt) {
        IdsDoNotMatter(raw, selected, 0, someId, freshId, 0, appliedAt);
        RebuiltWhenTwinsCommute(raw, selected, freshId, appliedAt);
      }
    }
    if forall freshId: IdSource :: Unrepeated(freshId) ==>
      RendersBack(raw, rules, boundaries, fold, freshId, appliedAt) {
      TwinsCommuteWhenRebuilt(raw, selected, appliedAt);
    }
  }

  /** The forward direction for one run of the pass. */
  lemma RenderRebuildsApplied(raw: string, rules: seq<CorrectionRule>, boundaries: set<nat>, fold: FoldTable,
                              freshId: IdSource, appliedAt: int)
    requires WordBoundaries(raw, boundaries) && NonEmptyFold(fold)
      && TwinsCommute(SelectedFor(raw, rules, boundaries, fold))
    requires Applied(raw, rules, boundaries, fold, freshId, appliedAt).Success?
    ensures var result := Applied(raw, rules, boundaries, fold, freshId, appliedAt).value;
      Render(raw, result.corrections) == Success(result.finalText)
  {
    SelectionFits(raw, rules, boundaries, fold);
    RebuiltWhenTwinsCommute(raw, SelectedFor(raw, rules, boundaries, fold), freshId, appliedAt);
  }

  /** Rules with non-empty variants never select an empty candidate, so there are no twins at all. */
  lemma NoEmptyNoTwins(raw: string, rules: seq<CorrectionRule>, boundaries: set<nat>, fold: FoldTable)
    requires NonEmptyFold(fold) && NonEmptyVariants(rules)
    ensures TwinsCommute(SelectedFor(raw, rules, boundaries, fold))
  {
    var candidates := Contributions(raw, boundaries, Folded(fold, raw), rules);
    var selected := Selected(candidates);
    ContributionsNonEmpty(raw, rules, boundaries, fold);
    SortElements(candidates, CandidateLe);
    SelectIsSubset(Sort(candidates, CandidateLe), 0);
    forall k | 0 <= k < |selected| ensures selected[k].startByte < selected[k].endByte {
      assert selected[k] in selected && selected[k] in candidates;
    }
  }

  /** The pass over its own rules fails only for positions beyond 32 bits. */
  lemma {:induction false} OnlyTooLarge(raw: string, selected: seq<Candidate>, cursor: nat, freshId: IdSource, k: nat,
                                        appliedAt: int)
    requires Fits(raw, selected, cursor)
    ensures match MakeCorrections(raw, selected, cursor, freshId, k, appliedAt)
      case Failure(e) => e == PositionTooLarge && |raw| > U32_MAX
      case Success(_) => true
    decreases |selected|
  {
    if selected != [] { OnlyTooLarge(raw, selected[1..], selected[0].endByte, freshId, k + 1, appliedAt); }
  }

  // ----- a text on which it fails -----

  const BLANK_ENTRY := LexiconEntry(0, "x", "x", None, None, 0, true, Global)

  /** Two rules of one priority whose variants are empty, replaced by `x` and by `y`. */
  const BLANK_RULES: seq<CorrectionRule> :=
    [CorrectionRule(BLANK_ENTRY, LexiconVariant(0, 0, "", "", ExactCaseSensitive)),
     CorrectionRule(BLANK_ENTRY.(canonicalText := "y"), LexiconVariant(1, 0, "", "", ExactCaseSensitive))]

  lemma BlankMatches(raw: string, r: (nat, nat))
    requires r in MatchRanges(raw, "")
    ensures r.0 == r.1
  {
    ExactSearchSound(raw, "");
    assert SlicesTo(raw, "", r);
    BoundaryOrder(raw, r.0, r.1);
  }

  lemma BlankMatchesAtStart(raw: string)
    ensures (0, 0) in MatchRanges(raw, "")
  {
    MatchesOccur(raw, "", 0);
    assert raw[0..0] == "" && raw[..0] == "";
    assert MatchIndices(raw, "", 0)[0] == 0;
    assert MatchRanges(raw, "")[0] == RangeAt(raw, "", 0);
  }

  lemma BlankCandidates(raw: string, boundaries: set<nat>, fold: FoldTable, c: Candidate)
    requires c in Contributions(raw, boundaries, Folded(fold, raw), BLANK_RULES)
    ensures c.startByte == c.endByte
  {
    var folded := Folded(fold, raw);
    CandidatesExact(raw, boundaries, folded, BLANK_RULES, c);
    var k :| 0 <= k < |BLANK_RULES| && Proposes(raw, boundaries, folded, BLANK_RULES[k], c);
    assert BLANK_RULES[k].variant.variantText == "" && BLANK_RULES[k].variant.matchMode == ExactCaseSensitive;
    BlankMatches(raw, (c.startByte, c.endByte));
  }

  lemma BlankSelected(raw: string, boundaries: set<nat>, fold: FoldTable, k: nat) returns (c: Candidate)
    requires WordBoundaries(raw, boundaries) && NonEmptyFold(fold) && |boundaries| > 1 && k < 2
    ensures c == Candidate(0, 0, 0, k, BLANK_RULES[k].entry.canonicalText)
    ensures c in SelectedFor(raw, BLANK_RULES, boundaries, fold)
  {
    var folded := Folded(fold, raw);
    c := Candidate(0, 0, 0, k, BLANK_RULES[k].entry.canonicalText);
    var candidates := Contributions(raw, boundaries, folded, BLANK_RULES);
    var selected := Selected(candidates);
    BlankMatchesAtStart(raw);
    assert Proposes(raw, boundaries, folded, BLANK_RULES[k], c);
    CandidatesExact(raw, boundaries, folded, BLANK_RULES, c);
    ContributionsAreRanges(raw, BLANK_RULES, boundaries, fold);
    GreedyJustified(candidates);
    if c !in selected {
      assert c in multiset(candidates);
      var m :| 0 <= m < |selected| && CandidateLe(selected[m], c) && Overlaps(selected[m], c);
      assert selected[m] in multiset(selected) && selected[m] in multiset(candidates);
      BlankCandidates(raw, boundaries, fold, selected[m]);
    }
  }

  lemma BlanksDoNotCommute(raw: string, boundaries: set<nat>, fold: FoldTable)
    requires WordBoundaries(raw, boundaries) && NonEmptyFold(fold) && |boundaries| > 1
    ensures !TwinsCommute(SelectedFor(raw, BLANK_RULES, boundaries, fold))
  {
    var c := BlankSelected(raw, boundaries, fold, 0);
    var d := BlankSelected(raw, boundaries, fold, 1);
    var selected := SelectedFor(raw, BLANK_RULES, boundaries, fold);
    var k :| 0 <= k < |selected| && selected[k] == c;
    var l :| 0 <= l < |selected| && selected[l] == d;
    assert "x" + "y" == "xy" && "y" + "x" == "yx" && "xy"[0] != "yx"[0];
    assert !Commute("x", "y") && !Commute("y", "x");
  }

  lemma BlanksApply(raw: string, boundaries: set<nat>, fold: FoldTable, freshId: IdSource, appliedAt: int)
    requires WordBoundaries(raw, boundaries) && NonEmptyFold(fold) && |raw| <= U32_MAX
    ensures Applied(raw, BLANK_RULES, boundaries, fold, freshId, appliedAt).Success?
  {
    ForeignFound(BLANK_RULES);
    SelectionFits(raw, BLANK_RULES, boundaries, fold);
    OnlyTooLarge(raw, SelectedFor(raw, BLANK_RULES, boundaries, fold), 0, freshId, 0, appliedAt);
  }

  /** Two empty variants with different replacements: on any text with a word some unrepeated ids make the rendering
      of a successful pass another text. */
  lemma EmptyVariantsDisagree(raw: string, boundaries: set<nat>, fold: FoldTable, appliedAt: int)
    returns (freshId: IdSource)
    requires WordBoundaries(raw, boundaries) && NonEmptyFold(fold) && |boundaries| > 1 && |raw| <= U32_MAX
    ensures Unrepeated(freshId)
    ensures var r := Applied(raw, BLANK_RULES, boundaries, fold, freshId, appliedAt);
      r.Success? && Render(raw, r.value.corrections) != Success(r.value.finalText)
  {
    BlanksDoNotCommute(raw, boundaries, fold);
    BlanksApply(raw, boundaries, fold, k => k, appliedAt);
    RenderRebuildsExactly(raw, BLANK_RULES, boundaries, fold, k => k, appliedAt);
    freshId :| Unrepeated(freshId) && !RendersBack(raw, BLANK_RULES, boundaries, fold, freshId, appliedAt);
    BlanksApply(raw, boundaries, fold, freshId, appliedAt);
  }
}
