/** The text under which a point in time is stored (section 5.6 of RFC 3339), and how its order relates to time. */
module StoredTime {
  import opened Results
  import opened Lexicon

  /** A point in time in UTC. */
  datatype Moment = Moment(year: nat, month: nat, day: nat, hour: nat, minute: nat, second: nat, nanos: nat)

  const SUBSECOND_DIGITS: nat := 9

  predicate InRange(m: Moment) {
    m.year < 10_000 && m.month < 100 && m.day < 100 && m.hour < 100 && m.minute < 100 && m.second < 100
    && m.nanos < 1_000_000_000
  }

  function Pow10(n: nat): (r: nat)
    ensures r > 0
  {
    if n == 0 then 1 else 10 * Pow10(n - 1)
  }

  function Digit(d: nat): char
    requires d < 10
  {
    ('0' as int + d) as char
  }

  /** The last `width` decimal digits, with leading zeros. */
  function Pad(n: nat, width: nat): (r: string)
    ensures |r| == width && forall c :: c in r ==> '0' <= c <= '9'
    decreases width
  {
    if width == 0 then "" else Pad(n / 10, width - 1) + [Digit(n % 10)]
  }

  /** Subsecond digits are written without trailing zeros. */
  function TrimZeros(s: string): (r: string)
    ensures r <= s && (r == "" || r[|r| - 1] != '0')
    ensures forall k :: |r| <= k < |s| ==> s[k] == '0'
    decreases |s|
  {
    if s == "" || s[|s| - 1] != '0' then s else TrimZeros(s[..|s| - 1])
  }

  function Digits(nanos: nat): string {
    TrimZeros(Pad(nanos, SUBSECOND_DIGITS))
  }

  /** The end of a text in UTC. */
  function Ending(digits: string): string {
    (if digits == "" then "" else "." + digits) + "Z"
  }

  function Subsecond(nanos: nat): string {
    Ending(Digits(nanos))
  }

  function Field(n: nat, width: nat, separator: string, rest: string): string {
    Pad(n, width) + (separator + rest)
  }

  function TimeText(m: Moment): string {
    Field(m.year, 4, "-", Field(m.month, 2, "-", Field(m.day, 2, "T",
      Field(m.hour, 2, ":", Field(m.minute, 2, ":", Field(m.second, 2, "", Subsecond(m.nanos)))))))
  }

  /** `a` before `b`, or the same and then `rest`. */
  predicate Lex(a: nat, b: nat, rest: bool) {
    a < b || (a == b && rest)
  }

  predicate NotAfter(a: Moment, b: Moment) {
    Lex(a.year, b.year, Lex(a.month, b.month, Lex(a.day, b.day,
      Lex(a.hour, b.hour, Lex(a.minute, b.minute, Lex(a.second, b.second, a.nanos <= b.nanos))))))
  }

  predicate SameSecond(a: Moment, b: Moment) {
    a.(nanos := b.nanos) == b
  }

  // ----- comparing texts -----

  /** A common beginning does not matter. */
  lemma {:induction false} LeAfter(p: string, a: string, b: string)
    ensures StringLe(p + a, p + b) <==> StringLe(a, b)
  {
    if p == "" {
      assert p + a == a && p + b == b;
    } else {
      assert (p + a)[1..] == p[1..] + a && (p + b)[1..] == p[1..] + b;
      LeAfter(p[1..], a, b);
    }
  }

  /** Numbers of one width are compared first. */
  lemma {:induction false} PadLe(x: nat, y: nat, width: nat, s: string, t: string)
    requires x < Pow10(width) && y < Pow10(width)
    ensures StringLe(Pad(x, width) + s, Pad(y, width) + t) <==> Lex(x, y, StringLe(s, t))
    decreases width
  {
    if width == 0 {
      assert Pad(x, width) + s == s && Pad(y, width) + t == t;
    } else {
      var dx, dy := [Digit(x % 10)], [Digit(y % 10)];
      assert Pad(x, width) + s == Pad(x / 10, width - 1) + (dx + s);
      assert Pad(y, width) + t == Pad(y / 10, width - 1) + (dy + t);
      PadLe(x / 10, y / 10, width - 1, dx + s, dy + t);
      assert (dx + s)[1..] == s && (dy + t)[1..] == t;
    }
  }

  lemma FieldLe(x: nat, y: nat, width: nat, separator: string, s: string, t: string)
    requires x < Pow10(width) && y < Pow10(width)
    ensures StringLe(Field(x, width, separator, s), Field(y, width, separator, t)) <==> Lex(x, y, StringLe(s, t))
  {
    PadLe(x, y, width, separator + s, separator + t);
    LeAfter(separator, s, t);
  }

  /** The first difference decides. */
  lemma LeAt(a: string, b: string, k: nat)
    requires k < |a| && k < |b| && a[..k] == b[..k] && a[k] != b[k]
    ensures StringLe(a, b) <==> a[k] < b[k]
  {
    LeAfter(a[..k], a[k..], b[k..]);
    assert a == a[..k] + a[k..] && b == a[..k] + b[k..];
  }

  lemma {:induction false} FirstDifference(a: string, b: string) returns (k: nat)
    requires !(a <= b) && !(b <= a)
    ensures k < |a| && k < |b| && a[..k] == b[..k] && a[k] != b[k]
  {
    k := 0;
    if a[0] == b[0] {
      assert a == [a[0]] + a[1..] && b == [b[0]] + b[1..];
      k := FirstDifference(a[1..], b[1..]);
      assert a[..k + 1] == [a[0]] + a[1..][..k] && b[..k + 1] == [b[0]] + b[1..][..k];
      k := k + 1;
    }
  }

  // ----- subseconds -----

  lemma PowersOfTen()
    ensures Pow10(2) == 100 && Pow10(4) == 10_000 && Pow10(SUBSECOND_DIGITS) == 1_000_000_000
  {
    assert Pow10(3) == 1_000 && Pow10(6) == 1_000 * Pow10(3) && Pow10(SUBSECOND_DIGITS) == 1_000 * Pow10(6);
  }

  lemma NanosLe(a: nat, b: nat)
    requires a < 1_000_000_000 && b < 1_000_000_000
    ensures StringLe(Pad(a, SUBSECOND_DIGITS), Pad(b, SUBSECOND_DIGITS)) <==> a <= b
  {
    PowersOfTen();
    PadLe(a, b, SUBSECOND_DIGITS, "", "");
    assert Pad(a, SUBSECOND_DIGITS) + "" == Pad(a, SUBSECOND_DIGITS);
    assert Pad(b, SUBSECOND_DIGITS) + "" == Pad(b, SUBSECOND_DIGITS);
  }

  lemma {:induction false} ZerosLeast(zeros: string, s: string)
    requires |zeros| == |s| && forall k :: 0 <= k < |s| ==> zeros[k] == '0' && '0' <= s[k]
    ensures StringLe(zeros, s)
  {
    if s != "" { ZerosLeast(zeros[1..], s[1..]); }
  }

  /** A string that is `d` and then only zeros, and one that begins with `d` as well. */
  lemma ZerosFirst(p: string, q: string, d: string)
    requires d <= p && d <= q && |p| == |q| && forall k :: |d| <= k < |p| ==> p[k] == '0'
    requires forall c :: c in q ==> '0' <= c
    ensures StringLe(p, q)
  {
    var zeros, rest := p[|d|..], q[|d|..];
    forall k | 0 <= k < |rest| ensures zeros[k] == '0' && '0' <= rest[k] {
      assert rest[k] == q[|d| + k] && q[|d| + k] in q;
    }
    ZerosLeast(zeros, rest);
    LeAfter(d, zeros, rest);
    assert p == d + zeros && q == d + rest;
  }

  /** A digit sorts before the final `Z`, and so does a point. */
  lemma LongerSortsFirst(d: string, e: string)
    requires d < e && '0' <= e[|d|] <= '9'
    ensures StringLe(Ending(e), Ending(d)) && !StringLe(Ending(d), Ending(e))
  {
    var k := if d == "" then 0 else |d| + 1;
    assert d != "" ==> Ending(d)[..k] == "." + d == Ending(e)[..k];
    LeAt(Ending(d), Ending(e), k);
    LeAt(Ending(e), Ending(d), k);
  }

  /** Digits that go on stand for a later time, but for an earlier text. */
  lemma LongerIsLater(a: nat, b: nat)
    requires a < 1_000_000_000 && b < 1_000_000_000 && Digits(a) < Digits(b)
    ensures a < b && StringLe(Subsecond(b), Subsecond(a)) && !StringLe(Subsecond(a), Subsecond(b))
  {
    var p, q, d, e := Pad(a, SUBSECOND_DIGITS), Pad(b, SUBSECOND_DIGITS), Digits(a), Digits(b);
    ZerosFirst(p, q, d);
    NanosLe(a, b);
    assert e[|d|] == q[|d|] && q[|d|] in q;
    LongerSortsFirst(d, e);
  }

  lemma DivergingEndings(d: string, e: string, k: nat)
    requires k < |d| && k < |e| && d[..k] == e[..k] && d[k] != e[k]
    ensures StringLe(Ending(d), Ending(e)) <==> d[k] < e[k]
  {
    assert Ending(d)[..k + 1] == "." + d[..k] == "." + e[..k] == Ending(e)[..k + 1];
    LeAt(Ending(d), Ending(e), k + 1);
  }

  /** Digits that differ somewhere are compared like the numbers. */
  lemma DivergingAgree(a: nat, b: nat)
    requires a < 1_000_000_000 && b < 1_000_000_000 && !(Digits(a) <= Digits(b)) && !(Digits(b) <= Digits(a))
    ensures StringLe(Subsecond(a), Subsecond(b)) <==> a <= b
  {
    var p, q, d, e := Pad(a, SUBSECOND_DIGITS), Pad(b, SUBSECOND_DIGITS), Digits(a), Digits(b);
    var k := FirstDifference(d, e);
    DivergingEndings(d, e, k);
    assert p[..k] == d[..k] && q[..k] == e[..k] && p[k] == d[k] && q[k] == e[k];
    LeAt(p, q, k);
    NanosLe(a, b);
  }

  /** One of two subseconds of the same second is written with the digits of the other and more. */
  predicate Extends(a: nat, b: nat) {
    Digits(a) < Digits(b) || Digits(b) < Digits(a)
  }

  lemma SubsecondOrder(a: nat, b: nat)
    requires a < 1_000_000_000 && b < 1_000_000_000
    ensures !Extends(a, b) ==> (StringLe(Subsecond(a), Subsecond(b)) <==> a <= b)
    ensures Extends(a, b) ==> (StringLe(Subsecond(a), Subsecond(b)) <==> a > b)
  {
    if Digits(a) < Digits(b) {
      LongerIsLater(a, b);
    } else if Digits(b) < Digits(a) {
      LongerIsLater(b, a);
    } else if Digits(a) == Digits(b) {
      SameDigits(a, b);
      StringLeTotal(Subsecond(a), Subsecond(b));
    } else {
      DivergingAgree(a, b);
    }
  }

  lemma SameDigits(a: nat, b: nat)
    requires a < 1_000_000_000 && b < 1_000_000_000 && Digits(a) == Digits(b)
    ensures a == b
  {
    var p, q, n := Pad(a, SUBSECOND_DIGITS), Pad(b, SUBSECOND_DIGITS), |Digits(a)|;
    assert p[..n] == q[..n];
    forall k | 0 <= k < |p| ensures p[k] == q[k] {
      if k < n { assert p[..n][k] == q[..n][k]; }
    }
    assert p == q;
    NanosLe(a, b);
    NanosLe(b, a);
    StringLeTotal(p, q);
  }

  // ----- whole texts -----

  /** Two moments whose stored texts sort against their order in time. */
  predicate Misordered(a: Moment, b: Moment) {
    SameSecond(a, b) && Extends(a.nanos, b.nanos)
  }

  lemma TextLe(a: Moment, b: Moment)
    requires InRange(a) && InRange(b)
    ensures StringLe(TimeText(a), TimeText(b)) <==>
      NotAfter(a.(nanos := 0), b.(nanos := 0))
      && (SameSecond(a, b) ==> StringLe(Subsecond(a.nanos), Subsecond(b.nanos)))
  {
    PowersOfTen();
    var s, t := Subsecond(a.nanos), Subsecond(b.nanos);
    FieldLe(a.second, b.second, 2, "", s, t);
    s, t := Field(a.second, 2, "", s), Field(b.second, 2, "", t);
    FieldLe(a.minute, b.minute, 2, ":", s, t);
    s, t := Field(a.minute, 2, ":", s), Field(b.minute, 2, ":", t);
    FieldLe(a.hour, b.hour, 2, ":", s, t);
    s, t := Field(a.hour, 2, ":", s), Field(b.hour, 2, ":", t);
    FieldLe(a.day, b.day, 2, "T", s, t);
    s, t := Field(a.day, 2, "T", s), Field(b.day, 2, "T", t);
    FieldLe(a.month, b.month, 2, "-", s, t);
    s, t := Field(a.month, 2, "-", s), Field(b.month, 2, "-", t);
    FieldLe(a.year, b.year, 4, "-", s, t);
  }

  /** Stored texts sort like the moments they stand for, if and only if they do not fall into one second with the
      digits of one subsecond continuing those of the other. */
  lemma TextOrderExact(a: Moment, b: Moment)
    requires InRange(a) && InRange(b)
    ensures (StringLe(TimeText(a), TimeText(b)) <==> NotAfter(a, b)) <==> !Misordered(a, b)
  {
    TextLe(a, b);
    SubsecondOrder(a.nanos, b.nanos);
  }

  lemma {:induction false} PadZero(width: nat)
    ensures forall k :: 0 <= k < width ==> Pad(0, width)[k] == '0'
  {
    if width > 0 { PadZero(width - 1); }
  }

  lemma {:induction false} TrimOnlyZeros(s: string)
    requires forall k :: 0 <= k < |s| ==> s[k] == '0'
    ensures TrimZeros(s) == ""
    decreases |s|
  {
    if s != "" { TrimOnlyZeros(s[..|s| - 1]); }
  }

  /** A whole second sorts after everything that happens within it. */
  lemma WholeSecondSortsLast(m: Moment, nanos: nat)
    requires InRange(m) && m.nanos == 0 < nanos < 1_000_000_000
    ensures var later := m.(nanos := nanos);
      !NotAfter(later, m) && StringLe(TimeText(later), TimeText(m)) && !StringLe(TimeText(m), TimeText(later))
  {
    var later := m.(nanos := nanos);
    PadZero(SUBSECOND_DIGITS);
    TrimOnlyZeros(Pad(0, SUBSECOND_DIGITS));
    if Digits(nanos) == "" { SameDigits(0, nanos); }
    LongerIsLater(0, nanos);
    TextLe(m, later);
    TextLe(later, m);
  }
}
