/** Literal history search through the LIKE operator of SQLite. */
module LikeSearch {
  import opened Results
  import opened Sorting
  import opened Text
  import opened Lexicon
  import opened StoredTime

  const MAX_QUERY_BYTES: nat := 512

  // ----- escaping -----

  /** Every `c` replaced by `with`. */
  function Replace(s: string, c: char, with: string): string {
    if s == "" then "" else (if s[0] == c then with else [s[0]]) + Replace(s[1..], c, with)
  }

  function EscapeLike(value: string): string {
    Replace(Replace(Replace(value, '\\', "\\\\"), '%', "\\%"), '_', "\\_")
  }

  predicate IsSpecial(c: char) {
    c == '\\' || c == '%' || c == '_'
  }

  /** A backslash before every character with a meaning of its own. */
  function EscapeEach(value: string): string {
    if value == "" then "" else (if IsSpecial(value[0]) then ['\\', value[0]] else [value[0]]) + EscapeEach(value[1..])
  }

  lemma {:induction false} ReplaceConcat(a: string, b: string, c: char, with: string)
    ensures Replace(a + b, c, with) == Replace(a, c, with) + Replace(b, c, with)
  {
    if a == "" {
      assert a + b == b;
    } else {
      assert (a + b)[1..] == a[1..] + b;
      ReplaceConcat(a[1..], b, c, with);
    }
  }

  lemma ReplaceChar(x: char, c: char, with: string)
    ensures Replace([x], c, with) == if x == c then with else [x]
  {
    assert [x][1..] == "";
    assert with + "" == with;
  }

  lemma EscapeChar(x: char)
    ensures EscapeLike([x]) == if IsSpecial(x) then ['\\', x] else [x]
  {
    ReplaceChar(x, '\\', "\\\\");
    ReplaceChar(x, '%', "\\%");
    ReplaceChar(x, '_', "\\_");
    if x == '\\' {
      assert "\\\\" == ['\\'] + ['\\'];
      ReplaceConcat(['\\'], ['\\'], '%', "\\%");
      ReplaceChar('\\', '%', "\\%");
      ReplaceConcat(['\\'], ['\\'], '_', "\\_");
      ReplaceChar('\\', '_', "\\_");
    } else if x == '%' {
      assert "\\%" == ['\\'] + ['%'];
      ReplaceConcat(['\\'], ['%'], '_', "\\_");
      ReplaceChar('\\', '_', "\\_");
      ReplaceChar('%', '_', "\\_");
    }
  }

  /** Three successive replacements do what one pass over the characters does: no replacement disturbs another. */
  lemma {:induction false} EscapeLikeIsEscapeEach(value: string)
    ensures EscapeLike(value) == EscapeEach(value)
  {
    if value == "" {
    } else {
      var x, rest := [value[0]], value[1..];
      assert value == x + rest;
      ReplaceConcat(x, rest, '\\', "\\\\");
      var a, b := Replace(x, '\\', "\\\\"), Replace(rest, '\\', "\\\\");
      ReplaceConcat(a, b, '%', "\\%");
      ReplaceConcat(Replace(a, '%', "\\%"), Replace(b, '%', "\\%"), '_', "\\_");
      EscapeChar(value[0]);
      EscapeLikeIsEscapeEach(rest);
    }
  }

  // ----- the operator -----

  predicate SameLetter(a: char, b: char) {
    AsciiLower(a) == AsciiLower(b)
  }

  /** `t LIKE p ESCAPE '\'`: percent matches any text, underscore one character, letters ignore ASCII case. */
  predicate Like(p: string, t: string)
    decreases |p|
  {
    if p == "" then t == ""
    else if p[0] == '%' then exists k :: 0 <= k <= |t| && Like(p[1..], t[k..])
    else if p[0] == '\\' then |p| >= 2 && t != "" && SameLetter(p[1], t[0]) && Like(p[2..], t[1..])
    else t != "" && (p[0] == '_' || SameLetter(p[0], t[0])) && Like(p[1..], t[1..])
  }

  /** The same text up to ASCII case. */
  predicate SameText(a: string, b: string) {
    |a| == |b| && forall k :: 0 <= k < |a| ==> SameLetter(a[k], b[k])
  }

  /** `q` occurs in `t` at character `k`. */
  predicate OccursAt(q: string, t: string, k: nat) {
    k + |q| <= |t| && SameText(q, t[k..k + |q|])
  }

  predicate Contains(t: string, q: string) {
    exists k: nat :: k <= |t| && OccursAt(q, t, k)
  }

  lemma SameTextFirst(q: string, t: string)
    requires q != ""
    ensures OccursAt(q, t, 0) <==> t != "" && SameLetter(q[0], t[0]) && OccursAt(q[1..], t[1..], 0)
  {
    if OccursAt(q, t, 0) {
      assert t[0..|q|][0] == t[0];
      forall k | 0 <= k < |q[1..]| ensures SameLetter(q[1..][k], t[1..][0..|q| - 1][k]) {
        assert SameLetter(q[k + 1], t[0..|q|][k + 1]);
      }
    }
    if t != "" && SameLetter(q[0], t[0]) && OccursAt(q[1..], t[1..], 0) {
      forall k | 0 <= k < |q| ensures SameLetter(q[k], t[0..|q|][k]) {
        if k > 0 { assert SameLetter(q[1..][k - 1], t[1..][0..|q| - 1][k - 1]); }
      }
    }
  }

  /** Escaped text in a pattern matches exactly itself, up to ASCII case. */
  lemma {:induction false} LikeEscaped(q: string, rest: string, t: string)
    ensures Like(EscapeEach(q) + rest, t) <==> OccursAt(q, t, 0) && Like(rest, t[|q|..])
    decreases |q|
  {
    var p := EscapeEach(q) + rest;
    if q == "" {
      assert p == rest && t[0..] == t;
    } else {
      SameTextFirst(q, t);
      var more := EscapeEach(q[1..]) + rest;
      if t != "" {
        LikeEscaped(q[1..], rest, t[1..]);
        if OccursAt(q[1..], t[1..], 0) { assert t[1..][|q| - 1..] == t[|q|..]; }
      }
      if IsSpecial(q[0]) {
        assert p[0] == '\\' && p[1] == q[0] && p[2..] == more;
      } else {
        assert p[0] == q[0] && p[1..] == more;
      }
    }
  }

  lemma LikeAnything(t: string)
    ensures Like("%", t)
  {
    assert t[|t|..] == "" && Like("%"[1..], t[|t|..]);
  }

  function SearchPattern(query: string): string {
    "%" + EscapeLike(query) + "%"
  }

  /** The search pattern matches a text exactly when the text contains the query literally, up to ASCII case. */
  lemma PatternIsContains(query: string, t: string)
    ensures Like(SearchPattern(query), t) <==> Contains(t, query)
  {
    var p, inner := SearchPattern(query), EscapeEach(query) + "%";
    EscapeLikeIsEscapeEach(query);
    assert p[0] == '%' && p[1..] == inner;
    forall k | 0 <= k <= |t| ensures Like(inner, t[k..]) <==> OccursAt(query, t, k) {
      LikeEscaped(query, "%", t[k..]);
      if OccursAt(query, t[k..], 0) {
        LikeAnything(t[k..][|query|..]);
        assert t[k..][0..|query|] == t[k..k + |query|];
      }
      if OccursAt(query, t, k) { assert t[k..][0..|query|] == t[k..k + |query|]; }
    }
    if Like(p, t) {
      var k :| 0 <= k <= |t| && Like(p[1..], t[k..]);
      assert OccursAt(query, t, k);
    }
    if Contains(t, query) {
      var k: nat :| k <= |t| && OccursAt(query, t, k);
      assert Like(p[1..], t[k..]);
    }
  }

  // ----- the query -----

  /** A stored transcript; `createdAt` is the stored text of its creation time. */
  datatype Row = Row(id: nat, createdAt: string, rawText: string, finalText: string)

  datatype SearchError = InvalidSearch

  predicate IsControl(c: char) {
    c as int < 0x20 || 0x7F <= c as int <= 0x9F
  }

  predicate ValidQuery(q: string) {
    q != "" && ByteLen(q) <= MAX_QUERY_BYTES && forall c :: c in q ==> !IsControl(c)
  }

  function Matching(rows: seq<Row>, pattern: string): seq<Row> {
    if rows == [] then []
    else
      var rest := Matching(rows[1..], pattern);
      if Like(pattern, rows[0].rawText) || Like(pattern, rows[0].finalText) then [rows[0]] + rest else rest
  }

  /** Descending by the stored text, then the higher id first. */
  predicate NewestLe(a: Row, b: Row) {
    StringLe(b.createdAt, a.createdAt) && (a.createdAt == b.createdAt ==> a.id >= b.id)
  }

  function Take(rows: seq<Row>, limit: nat): seq<Row> {
    if |rows| <= limit then rows else rows[..limit]
  }

  function Search(rows: seq<Row>, query: string, limit: nat): Result<seq<Row>, SearchError> {
    var q := Trim(query);
    if !ValidQuery(q) then Failure(InvalidSearch)
    else Success(Take(Sort(Matching(rows, SearchPattern(q)), NewestLe), limit))
  }

  predicate Mentions(row: Row, q: string) {
    Contains(row.rawText, q) || Contains(row.finalText, q)
  }

  lemma {:induction false} MatchingExact(rows: seq<Row>, q: string, row: Row)
    ensures multiset(Matching(rows, SearchPattern(q)))[row] == if Mentions(row, q) then multiset(rows)[row] else 0
  {
    if rows == [] {
    } else {
      assert rows == [rows[0]] + rows[1..];
      MatchingExact(rows[1..], q, row);
      PatternIsContains(q, rows[0].rawText);
      PatternIsContains(q, rows[0].finalText);
    }
  }

  lemma NewestTotal()
    ensures TotalPreorder(NewestLe)
  {
    forall a: Row, b: Row ensures NewestLe(a, b) || NewestLe(b, a) {
      StringLeTotal(a.createdAt, b.createdAt);
    }
    forall a: Row, b: Row, c: Row | NewestLe(a, b) && NewestLe(b, c) ensures NewestLe(a, c) {
      StringLeTransitive(c.createdAt, b.createdAt, a.createdAt);
      StringLeTotal(b.createdAt, a.createdAt);
    }
  }

  lemma LeftOut(sorted: seq<Row>, n: nat, r: Row)
    requires SortedBy(sorted, NewestLe) && n <= |sorted| && multiset(sorted[..n])[r] < multiset(sorted)[r]
    ensures n < |sorted| && forall k :: 0 <= k < n ==> NewestLe(sorted[k], r)
  {
    assert sorted == sorted[..n] + sorted[n..];
    assert multiset(sorted) == multiset(sorted[..n]) + multiset(sorted[n..]);
    assert r in sorted[n..];
    var j :| n <= j < |sorted| && sorted[j] == r;
  }

  function Sorted(rows: seq<Row>, q: string): seq<Row> {
    Sort(Matching(rows, SearchPattern(q)), NewestLe)
  }

  lemma SortedExact(rows: seq<Row>, q: string, r: Row)
    ensures multiset(Sorted(rows, q))[r] == if Mentions(r, q) then multiset(rows)[r] else 0
  {
    SortPermutes(Matching(rows, SearchPattern(q)), NewestLe);
    MatchingExact(rows, q, r);
  }

  lemma SortedNewest(rows: seq<Row>, q: string)
    ensures SortedBy(Sorted(rows, q), NewestLe)
  {
    NewestTotal();
    SortSorts(Matching(rows, SearchPattern(q)), NewestLe);
  }

  lemma TakePart(sorted: seq<Row>, limit: nat, r: Row)
    ensures var found := Take(sorted, limit); found == sorted[..|found|] && multiset(found)[r] <= multiset(sorted)[r]
  {
    var n := |Take(sorted, limit)|;
    assert sorted == sorted[..n] + sorted[n..];
  }

  /** What a search returns contains the trimmed query literally, newest first and within the limit. */
  lemma FoundMention(rows: seq<Row>, q: string, limit: nat, r: Row)
    ensures var found := Take(Sorted(rows, q), limit);
      |found| <= limit && SortedBy(found, NewestLe) && multiset(found)[r] <= multiset(rows)[r]
      && (r in found ==> Mentions(r, q))
  {
    SortedExact(rows, q, r);
    SortedNewest(rows, q);
    TakePart(Sorted(rows, q), limit, r);
    assert r in Take(Sorted(rows, q), limit) ==> r in multiset(Take(Sorted(rows, q), limit));
  }

  /** A row containing the query is left out only when the limit is used up by rows that are not older. */
  lemma LeftOutOlder(rows: seq<Row>, q: string, limit: nat, r: Row)
    requires Mentions(r, q) && multiset(Take(Sorted(rows, q), limit))[r] < multiset(rows)[r]
    ensures var found := Take(Sorted(rows, q), limit);
      |found| == limit && forall k :: 0 <= k < |found| ==> NewestLe(found[k], r)
  {
    var sorted := Sorted(rows, q);
    SortedExact(rows, q, r);
    SortedNewest(rows, q);
    TakePart(sorted, limit, r);
    LeftOut(sorted, |Take(sorted, limit)|, r);
  }

  /** The whole search: refused exactly for an unusable query, otherwise exactly the newest rows that contain the
      trimmed query literally, up to ASCII case. */
  lemma SearchExact(rows: seq<Row>, query: string, limit: nat, r: Row)
    ensures var q := Trim(query);
      match Search(rows, query, limit)
      case Failure(_) => !ValidQuery(q)
      case Success(found) =>
        && ValidQuery(q) && |found| <= limit && SortedBy(found, NewestLe)
        && multiset(found)[r] <= multiset(rows)[r]
        && (r in found ==> Mentions(r, q))
        && (Mentions(r, q) && multiset(found)[r] < multiset(rows)[r] ==>
            |found| == limit && forall k :: 0 <= k < |found| ==> NewestLe(found[k], r))
  {
    var q := Trim(query);
    FoundMention(rows, q, limit, r);
    if Mentions(r, q) && multiset(Take(Sorted(rows, q), limit))[r] < multiset(rows)[r] {
      LeftOutOlder(rows, q, limit, r);
    }
  }

  /** The later moment first, then the higher id first. */
  predicate LatestFirst(a: Row, m: Moment, b: Row, n: Moment) {
    NotAfter(n, m) && (m == n ==> a.id >= b.id)
  }

  /** Of two rows the search order puts the later one first, if and only if their stored times are not misordered. */
  lemma NewestIsLatest(a: Row, m: Moment, b: Row, n: Moment)
    requires InRange(m) && InRange(n) && a.createdAt == TimeText(m) && b.createdAt == TimeText(n)
    ensures (NewestLe(a, b) <==> LatestFirst(a, m, b, n)) <==> !Misordered(m, n)
  {
    TextOrderExact(n, m);
    TextOrderExact(m, n);
    StringLeTotal(TimeText(m), TimeText(n));
  }
}
