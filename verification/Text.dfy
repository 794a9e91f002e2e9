/** Text as a sequence of Unicode scalar values with UTF-8 byte offsets (section 3 of RFC 3629). */
module Text {
  import opened Results

  const U32_MAX: nat := 0xFFFF_FFFF

  /** The number of bytes UTF-8 uses for a scalar value. */
  function Width(c: char): (w: nat)
    ensures 1 <= w <= 4
  {
    var n := c as int;
    if n < 0x80 then 1 else if n < 0x800 then 2 else if n < 0x1_0000 then 3 else 4
  }

  function ByteLen(t: string): nat {
    if t == [] then 0 else Width(t[0]) + ByteLen(t[1..])
  }

  /** The byte offset at which character `k` starts, or the end of the text. */
  function ByteOffset(t: string, k: nat): nat
    requires k <= |t|
  {
    ByteLen(t[..k])
  }

  /** The number of characters that lie completely before byte offset `b`. */
  function CharIndex(t: string, b: nat): (k: nat)
    ensures k <= |t|
  {
    if t == [] || b < Width(t[0]) then 0 else 1 + CharIndex(t[1..], b - Width(t[0]))
  }

  /** Whether the text may be sliced at byte offset `b`. */
  predicate IsBoundary(t: string, b: nat) {
    ByteOffset(t, CharIndex(t, b)) == b
  }

  /** The slice `t[a..b]` in byte offsets; slicing off a character boundary panics in the original. */
  function ByteSlice(t: string, a: nat, b: nat): string
    requires IsBoundary(t, a) && IsBoundary(t, b) && a <= b
  {
    BoundaryOrder(t, a, b);
    t[CharIndex(t, a)..CharIndex(t, b)]
  }

  /** The character position of a byte offset; none when it does not fit 32 bits. */
  function CharCountToU32(t: string, b: nat): Option<nat>
    requires IsBoundary(t, b)
  {
    if CharIndex(t, b) > U32_MAX then None else Some(CharIndex(t, b))
  }

  /** The byte offset of a character position; none past the end of the text. */
  function ByteOffsetAtChar(t: string, k: nat): Option<nat> {
    if k == |t| then Some(ByteLen(t))
    else if k < |t| then Some(ByteOffset(t, k))
    else None
  }

  lemma {:induction false} ByteLenConcat(a: string, b: string)
    ensures ByteLen(a + b) == ByteLen(a) + ByteLen(b)
  {
    if a == [] {
      assert a + b == b;
    } else {
      assert (a + b)[1..] == a[1..] + b;
      ByteLenConcat(a[1..], b);
    }
  }

  lemma ByteOffsetSum(t: string, i: nat, j: nat)
    requires i <= j <= |t|
    ensures ByteOffset(t, j) == ByteOffset(t, i) + ByteLen(t[i..j])
    ensures i < j ==> ByteOffset(t, i) < ByteOffset(t, j)
  {
    assert t[..j] == t[..i] + t[i..j];
    ByteLenConcat(t[..i], t[i..j]);
  }

  lemma {:induction false} CharIndexOfOffset(t: string, k: nat)
    requires k <= |t|
    ensures CharIndex(t, ByteOffset(t, k)) == k
    ensures IsBoundary(t, ByteOffset(t, k))
  {
    if k == 0 {
    } else {
      assert t[..k][1..] == t[1..][..k - 1];
      CharIndexOfOffset(t[1..], k - 1);
    }
  }

  lemma BoundaryOrder(t: string, a: nat, b: nat)
    requires IsBoundary(t, a) && IsBoundary(t, b)
    ensures a <= b <==> CharIndex(t, a) <= CharIndex(t, b)
    ensures a == b <==> CharIndex(t, a) == CharIndex(t, b)
  {
    var i, j := CharIndex(t, a), CharIndex(t, b);
    if i <= j { ByteOffsetSum(t, i, j); } else { ByteOffsetSum(t, j, i); }
  }

  /** Both ends of a text are boundaries. */
  lemma EndsAreBoundaries(t: string)
    ensures IsBoundary(t, 0) && CharIndex(t, 0) == 0
    ensures IsBoundary(t, ByteLen(t)) && CharIndex(t, ByteLen(t)) == |t|
  {
    CharIndexOfOffset(t, 0);
    assert t[..|t|] == t;
    CharIndexOfOffset(t, |t|);
  }

  /** The two stored conversions are inverse on every boundary and on every character position. */
  lemma OffsetsInverse(t: string, b: nat, k: nat)
    requires IsBoundary(t, b) && CharCountToU32(t, b).Some?
    requires k <= |t| && k <= U32_MAX
    ensures ByteOffsetAtChar(t, CharCountToU32(t, b).value) == Some(b)
    ensures ByteOffsetAtChar(t, k).Some? && IsBoundary(t, ByteOffsetAtChar(t, k).value)
    ensures CharCountToU32(t, ByteOffsetAtChar(t, k).value) == Some(k)
  {
    assert t[..|t|] == t;
    CharIndexOfOffset(t, k);
  }

  lemma OffsetAtCharIsBoundary(t: string, k: nat)
    ensures ByteOffsetAtChar(t, k).Some? <==> k <= |t|
    ensures k <= |t| ==>
      ByteOffsetAtChar(t, k).value == ByteOffset(t, k) && IsBoundary(t, ByteOffset(t, k))
        && CharIndex(t, ByteOffset(t, k)) == k
  {
    assert t[..|t|] == t;
    if k <= |t| { CharIndexOfOffset(t, k); }
  }

  // ----- trimming -----

  predicate IsWhitespace(c: char) {
    var n := c as int;
    0x09 <= n <= 0x0D || n == 0x20 || n == 0x85 || n == 0xA0 || n == 0x1680 || 0x2000 <= n <= 0x200A
    || n == 0x2028 || n == 0x2029 || n == 0x202F || n == 0x205F || n == 0x3000
  }

  predicate Trimmed(s: string) {
    s != "" ==> !IsWhitespace(s[0]) && !IsWhitespace(s[|s| - 1])
  }

  function TrimStart(s: string): string {
    if s != "" && IsWhitespace(s[0]) then TrimStart(s[1..]) else s
  }

  function TrimEnd(s: string): string {
    if s != "" && IsWhitespace(s[|s| - 1]) then TrimEnd(s[..|s| - 1]) else s
  }

  function Trim(s: string): string {
    TrimEnd(TrimStart(s))
  }

  function Join(parts: seq<string>, separator: string): string {
    if parts == [] then ""
    else if |parts| == 1 then parts[0]
    else parts[0] + separator + Join(parts[1..], separator)
  }

  function AsciiLower(c: char): char {
    if 'A' <= c <= 'Z' then (c as int + 32) as char else c
  }

  predicate CapitalOf(x: char, y: char) {
    'A' <= x <= 'Z' && 'a' <= y <= 'z' && y as int - 'a' as int == x as int - 'A' as int
  }

  /** Two characters are the same up to ASCII case exactly when they are equal or one is the capital of the other. */
  lemma SameUpToCase(x: char, y: char)
    ensures AsciiLower(x) == AsciiLower(y) <==> x == y || CapitalOf(x, y) || CapitalOf(y, x)
  {
  }

  predicate Blank(s: string) {
    forall k :: 0 <= k < |s| ==> IsWhitespace(s[k])
  }

  /** `t` is what is left of `s` between whitespace at its two ends. */
  ghost predicate TrimsTo(s: string, t: string) {
    Trimmed(t) && exists before, after :: s == before + t + after && Blank(before) && Blank(after)
  }

  lemma {:induction false} TrimStartCuts(s: string) returns (before: string)
    ensures s == before + TrimStart(s) && Blank(before)
    ensures TrimStart(s) != "" ==> !IsWhitespace(TrimStart(s)[0])
  {
    before := "";
    if s != "" && IsWhitespace(s[0]) {
      before := TrimStartCuts(s[1..]);
      before := [s[0]] + before;
    }
  }

  lemma {:induction false} TrimEndCuts(s: string) returns (after: string)
    ensures s == TrimEnd(s) + after && Blank(after)
    ensures TrimEnd(s) != "" ==> !IsWhitespace(TrimEnd(s)[|TrimEnd(s)| - 1])
    decreases |s|
  {
    after := "";
    if s != "" && IsWhitespace(s[|s| - 1]) {
      after := TrimEndCuts(s[..|s| - 1]);
      after := after + [s[|s| - 1]];
    }
  }

  /** Visible characters lie in the part that is left. */
  lemma VisibleInside(s: string, before: string, t: string, after: string, i: nat)
    requires s == before + t + after && Blank(before) && Blank(after) && i < |s| && !IsWhitespace(s[i])
    ensures |before| <= i < |before| + |t|
  {
  }

  /** A part with visible ends lies within every other part that is left. */
  lemma EndsInside(s: string, a: string, t: string, b: string, c: string, u: string, d: string)
    requires s == a + t + b == c + u + d && Blank(c) && Blank(d) && Trimmed(t) && t != ""
    ensures |c| <= |a| && |a| + |t| <= |c| + |u|
  {
    assert s[|a|] == t[0] && s[|a| + |t| - 1] == t[|t| - 1];
    VisibleInside(s, c, u, d, |a|);
    VisibleInside(s, c, u, d, |a| + |t| - 1);
  }

  /** What is left is determined by the text: its first and last visible characters stay where they are. */
  lemma TrimsToOnce(s: string, t: string, u: string)
    requires TrimsTo(s, t) && TrimsTo(s, u)
    ensures t == u
  {
    var a, b :| s == a + t + b && Blank(a) && Blank(b);
    var c, d :| s == c + u + d && Blank(c) && Blank(d);
    if t != "" { EndsInside(s, a, t, b, c, u, d); }
    if u != "" { EndsInside(s, c, u, d, a, t, b); }
    assert t == s[|a|..|a| + |t|] && u == s[|c|..|c| + |u|];
  }

  /** Trimming cuts off exactly the whitespace at both ends. */
  lemma TrimExact(s: string, t: string)
    ensures t == Trim(s) <==> TrimsTo(s, t)
  {
    var before := TrimStartCuts(s);
    var middle := TrimStart(s);
    var after := TrimEndCuts(middle);
    assert s == before + Trim(s) + after;
    if Trim(s) != "" { assert Trim(s)[0] == middle[0]; }
    if TrimsTo(s, t) { TrimsToOnce(s, t, Trim(s)); }
  }

  lemma TrimOfTrimmed(s: string)
    requires Trimmed(s)
    ensures Trim(s) == s
  {
  }
}
