/** The worker's sliding-window limiter: at most 20 accepted requests in any 60 seconds. */
module RateLimiter {

  const REQUESTS_PER_MINUTE: nat := 20
  /** 60 seconds in nanoseconds. */
  const WINDOW: int := 60_000_000_000

  /** Forgets the accepted requests at the front that are at least a window old. */
  function Expire(timestamps: seq<int>, now: int): seq<int> {
    if timestamps != [] && now - timestamps[0] >= WINDOW then Expire(timestamps[1..], now) else timestamps
  }

  function Check(timestamps: seq<int>, now: int): (seq<int>, bool) {
    var kept := Expire(timestamps, now);
    if |kept| >= REQUESTS_PER_MINUTE then (kept, false) else (kept + [now], true)
  }

  class RequestLimiter {
    var timestamps: seq<int>

    constructor ()
      ensures timestamps == []
    {
      timestamps := [];
    }

    method CheckRateLimit(now: int) returns (accepted: bool)
      modifies this
      ensures (timestamps, accepted) == Check(old(timestamps), now)
    {
      while timestamps != [] && now - timestamps[0] >= WINDOW
        invariant Expire(timestamps, now) == Expire(old(timestamps), now)
        decreases |timestamps|
      {
        timestamps := timestamps[1..];
      }
      accepted := |timestamps| < REQUESTS_PER_MINUTE;
      if accepted {
        timestamps := timestamps + [now];
      }
    }
  }

  // ----- runs of atomic calls at non-decreasing times -----

  predicate NonDecreasing(times: seq<int>) {
    forall i, j :: 0 <= i < j < |times| ==> times[i] <= times[j]
  }

  /** The limiter's queue after calls at the given times. */
  function Queue(times: seq<int>): seq<int> {
    if times == [] then [] else Check(Queue(times[..|times| - 1]), times[|times| - 1]).0
  }

  /** The times of the accepted calls. */
  function Accepted(times: seq<int>): seq<int> {
    if times == [] then []
    else
      var earlier, now := times[..|times| - 1], times[|times| - 1];
      Accepted(earlier) + if Check(Queue(earlier), now).1 then [now] else []
  }

  /** The elements less than a window old at `now`, in order. */
  function Recent(accepted: seq<int>, now: int): seq<int> {
    if accepted == [] then []
    else if now - accepted[0] < WINDOW then [accepted[0]] + Recent(accepted[1..], now)
    else Recent(accepted[1..], now)
  }

  lemma {:induction false} RecentConcat(a: seq<int>, b: seq<int>, now: int)
    ensures Recent(a + b, now) == Recent(a, now) + Recent(b, now)
  {
    if a == [] {
      assert a + b == b;
    } else {
      assert (a + b)[1..] == a[1..] + b;
      RecentConcat(a[1..], b, now);
    }
  }

  /** On ordered times, dropping from the front is the same as filtering. */
  lemma {:induction false} ExpireIsRecent(times: seq<int>, now: int)
    requires NonDecreasing(times)
    ensures Expire(times, now) == Recent(times, now)
  {
    if times == [] {
    } else if now - times[0] >= WINDOW {
      ExpireIsRecent(times[1..], now);
    } else {
      AllRecent(times, now);
    }
  }

  lemma {:induction false} AllRecent(times: seq<int>, now: int)
    requires forall k :: 0 <= k < |times| ==> now - times[k] < WINDOW
    ensures Recent(times, now) == times
  {
    if times != [] { AllRecent(times[1..], now); }
  }

  /** What is recent later was recent earlier. */
  lemma {:induction false} RecentShrinks(times: seq<int>, earlier: int, now: int)
    requires earlier <= now
    ensures Recent(Recent(times, earlier), now) == Recent(times, now)
  {
    if times != [] { RecentShrinks(times[1..], earlier, now); }
  }

  lemma {:induction false} RecentOrdered(times: seq<int>, now: int)
    requires NonDecreasing(times)
    ensures NonDecreasing(Recent(times, now))
    ensures forall t :: t in Recent(times, now) ==> t in times && now - t < WINDOW
    decreases |times|
  {
    if times != [] {
      RecentOrdered(times[1..], now);
      assert forall t :: t in times[1..] ==> times[0] <= t;
    }
  }

  lemma {:induction false} AcceptedOrdered(times: seq<int>)
    requires NonDecreasing(times)
    ensures NonDecreasing(Accepted(times))
    ensures forall t :: t in Accepted(times) ==> t in times
  {
    if times != [] {
      var earlier, now := times[..|times| - 1], times[|times| - 1];
      AcceptedOrdered(earlier);
      var a := Accepted(earlier);
      assert forall t :: t in earlier ==> t <= now && t in times;
      assert forall k :: 0 <= k < |a| ==> a[k] in a;
    }
  }

  lemma OrderedPrefix(times: seq<int>, now: int)
    requires NonDecreasing(times + [now])
    ensures NonDecreasing(times)
    ensures forall t :: t in times ==> t <= now
  {
    var longer := times + [now];
    assert forall i :: 0 <= i < |times| ==> longer[i] == times[i] && longer[i] <= longer[|times|];
  }

  /** After expiry the queue is exactly the accepted times of the window before `now`. */
  lemma ExpiredQueue(times: seq<int>, now: int)
    requires NonDecreasing(times) && forall t :: t in times ==> t <= now
    ensures Expire(Queue(times), now) == Recent(Accepted(times), now)
    decreases |times|, 1
  {
    if times != [] {
      var before := times[|times| - 1];
      assert before in times;
      QueueIsRecentAccepted(times);
      AcceptedOrdered(times);
      RecentOrdered(Accepted(times), before);
      ExpireIsRecent(Queue(times), now);
      RecentShrinks(Accepted(times), before, now);
    }
  }

  /** The queue is exactly the accepted times of the last window. */
  lemma {:induction false} QueueIsRecentAccepted(times: seq<int>)
    requires NonDecreasing(times) && times != []
    ensures Queue(times) == Recent(Accepted(times), times[|times| - 1])
    decreases |times|, 0
  {
    var earlier, now := times[..|times| - 1], times[|times| - 1];
    assert earlier + [now] == times;
    OrderedPrefix(earlier, now);
    ExpiredQueue(earlier, now);
    var taken := if Check(Queue(earlier), now).1 then [now] else [];
    RecentConcat(Accepted(earlier), taken, now);
    assert Recent(taken, now) == taken;
    assert Recent(Accepted(earlier), now) + [] == Recent(Accepted(earlier), now);
  }

  /** A call is accepted exactly when fewer than 20 were accepted within the window before it. */
  lemma AcceptedIffFewRecent(times: seq<int>, now: int)
    requires NonDecreasing(times + [now])
    ensures Check(Queue(times), now).1 <==> |Recent(Accepted(times), now)| < REQUESTS_PER_MINUTE
  {
    OrderedPrefix(times, now);
    ExpiredQueue(times, now);
  }

  /** The accepted requests inside one half-open interval. */
  function Within(accepted: seq<int>, from: int, until: int): seq<int> {
    if accepted == [] then []
    else if from <= accepted[0] < until then [accepted[0]] + Within(accepted[1..], from, until)
    else Within(accepted[1..], from, until)
  }

  lemma {:induction false} WithinConcat(a: seq<int>, b: seq<int>, from: int, until: int)
    ensures Within(a + b, from, until) == Within(a, from, until) + Within(b, from, until)
  {
    if a == [] {
      assert a + b == b;
    } else {
      assert (a + b)[1..] == a[1..] + b;
      WithinConcat(a[1..], b, from, until);
    }
  }

  // ----- readings that reach the queue late -----

  /** The clock is read before the lock is taken: no reading is more than `d` below an earlier one in lock order. */
  predicate LateBy(times: seq<int>, d: nat) {
    forall i, j :: 0 <= i < j < |times| ==> times[i] - d <= times[j]
  }

  /** Times at which the callers entered the lock, at most `d` after they read the clock. */
  ghost predicate EnteredWithin(times: seq<int>, entered: seq<int>, d: nat) {
    |entered| == |times| && NonDecreasing(entered)
    && forall k :: 0 <= k < |times| ==> times[k] <= entered[k] <= times[k] + d
  }

  function Highest(times: seq<int>, k: nat): (r: int)
    requires k < |times|
    ensures forall i :: 0 <= i <= k ==> times[i] <= r
    ensures exists i :: 0 <= i <= k && times[i] == r
  {
    if k == 0 || times[k] >= Highest(times, k - 1) then times[k] else Highest(times, k - 1)
  }

  /** Lateness is exactly what waiting for the lock for at most `d` can cause. */
  lemma LateExact(times: seq<int>, d: nat)
    ensures LateBy(times, d) <==> exists entered :: EnteredWithin(times, entered, d)
  {
    if LateBy(times, d) {
      var entered := seq(|times|, k requires 0 <= k < |times| => Highest(times, k));
      forall k | 0 <= k < |times| ensures times[k] <= entered[k] <= times[k] + d {
        var i :| 0 <= i <= k && times[i] == Highest(times, k);
      }
      forall i, j | 0 <= i < j < |times| ensures entered[i] <= entered[j] {
        var m :| 0 <= m <= i && times[m] == Highest(times, i);
      }
      assert EnteredWithin(times, entered, d);
    }
  }

  /** `Expire` drops a front part, all of it at least a window older than `now`. */
  lemma {:induction false} ExpireDropsOld(queue: seq<int>, now: int) returns (n: nat)
    ensures n <= |queue| && Expire(queue, now) == queue[n..]
    ensures forall k :: 0 <= k < n ==> now - queue[k] >= WINDOW
  {
    n := 0;
    if queue != [] && now - queue[0] >= WINDOW {
      n := ExpireDropsOld(queue[1..], now);
      assert queue[1..][n..] == queue[n + 1..];
      forall k | 0 <= k < n + 1 ensures now - queue[k] >= WINDOW {
        if k > 0 { assert queue[k] == queue[1..][k - 1]; }
      }
      n := n + 1;
    }
  }

  /** Some reading was at least a window after the accepted one. */
  predicate Outlived(times: seq<int>, accepted: int) {
    exists t :: t in times && t - accepted >= WINDOW
  }

  /** The queue holds the last accepted times; every other one has been outlived. */
  ghost predicate DropsOutlived(times: seq<int>, accepted: seq<int>, queue: seq<int>, n: nat) {
    n <= |accepted| && queue == accepted[n..] && forall k :: 0 <= k < n ==> Outlived(times, accepted[k])
  }

  lemma ExpireKeepsRest(times: seq<int>, now: int, n: nat) returns (m: nat)
    requires DropsOutlived(times, Accepted(times), Queue(times), n)
    ensures DropsOutlived(times + [now], Accepted(times), Expire(Queue(times), now), m)
  {
    var accepted := Accepted(times);
    var more := ExpireDropsOld(Queue(times), now);
    m := n + more;
    assert accepted[n..][more..] == accepted[m..];
    forall k | 0 <= k < m ensures Outlived(times + [now], accepted[k]) {
      if k < n {
        var t :| t in times && t - accepted[k] >= WINDOW;
        assert t in times + [now];
      } else {
        assert accepted[k] == Queue(times)[k - n] && now in times + [now];
      }
    }
  }

  lemma {:induction false} QueueIsSuffix(times: seq<int>) returns (n: nat)
    ensures DropsOutlived(times, Accepted(times), Queue(times), n)
    decreases |times|
  {
    n := 0;
    if times != [] {
      var earlier, now := times[..|times| - 1], times[|times| - 1];
      assert earlier + [now] == times;
      n := QueueIsSuffix(earlier);
      n := ExpireKeepsRest(earlier, now, n);
      var accepted := Accepted(earlier);
      if Check(Queue(earlier), now).1 {
        assert Accepted(times) == accepted + [now] && (accepted + [now])[n..] == accepted[n..] + [now];
      } else {
        assert Accepted(times) == accepted + [] == accepted;
      }
    }
  }

  lemma {:induction false} WithinNone(accepted: seq<int>, from: int, until: int)
    requires forall k :: 0 <= k < |accepted| ==> !(from <= accepted[k] < until)
    ensures Within(accepted, from, until) == []
  {
    if accepted != [] { WithinNone(accepted[1..], from, until); }
  }

  lemma {:induction false} WithinLength(accepted: seq<int>, from: int, until: int)
    ensures |Within(accepted, from, until)| <= |accepted|
  {
    if accepted != [] { WithinLength(accepted[1..], from, until); }
  }

  /** A call with a reading inside the window is accepted only when fewer than 20 of the window's are before it. */
  lemma AcceptedFindsRoom(times: seq<int>, now: int, d: nat, from: int, length: int)
    requires LateBy(times + [now], d) && length <= WINDOW - d
    requires from <= now < from + length && Check(Queue(times), now).1
    ensures |Within(Accepted(times), from, from + length)| < REQUESTS_PER_MINUTE
  {
    var accepted, longer := Accepted(times), times + [now];
    var n := QueueIsSuffix(times);
    n := ExpireKeepsRest(times, now, n);
    forall k | 0 <= k < n ensures !(from <= accepted[k] < from + length) {
      var t :| t in longer && t - accepted[k] >= WINDOW;
      var i :| 0 <= i < |longer| && longer[i] == t;
      assert longer[|times|] == now;
    }
    assert accepted == accepted[..n] + accepted[n..];
    WithinConcat(accepted[..n], accepted[n..], from, from + length);
    WithinNone(accepted[..n], from, from + length);
    WithinLength(accepted[n..], from, from + length);
  }

  function CountFrom(accepted: seq<int>, from: int, length: int): nat {
    |Within(accepted, from, from + length)|
  }

  /** No half-open interval of `length` ever holds more than 20 accepted requests. */
  ghost predicate AtMostTwenty(times: seq<int>, length: int) {
    forall from :: CountFrom(Accepted(times), from, length) <= REQUESTS_PER_MINUTE
  }

  /** Readings late by at most `d` cost that much of the window. */
  lemma {:induction false} AtMostTwentyWhenLate(times: seq<int>, d: nat, length: int, from: int)
    requires LateBy(times, d) && length <= WINDOW - d
    ensures |Within(Accepted(times), from, from + length)| <= REQUESTS_PER_MINUTE
    decreases |times|
  {
    if times != [] {
      var earlier, now := times[..|times| - 1], times[|times| - 1];
      assert earlier + [now] == times;
      AtMostTwentyWhenLate(earlier, d, length, from);
      var taken := if Check(Queue(earlier), now).1 then [now] else [];
      WithinConcat(Accepted(earlier), taken, from, from + length);
      if taken != [] && from <= now < from + length {
        AcceptedFindsRoom(earlier, now, d, from, length);
      }
    }
  }

  /** No half-open 60-second interval ever holds more than 20 accepted requests when readings arrive in order. */
  lemma AtMostTwentyPerWindow(times: seq<int>, from: int)
    requires NonDecreasing(times)
    ensures |Within(Accepted(times), from, from + WINDOW)| <= REQUESTS_PER_MINUTE
  {
    AtMostTwentyWhenLate(times, 0, WINDOW, from);
  }

  // ----- late readings do cost it -----

  function Zeros(n: nat): (r: seq<int>)
    ensures |r| == n && forall k :: 0 <= k < n ==> r[k] == 0
  {
    seq(n, _ => 0)
  }

  lemma NextOfBurst(queue: seq<int>)
    requires |queue| < REQUESTS_PER_MINUTE && forall k :: 0 <= k < |queue| ==> queue[k] == 0
    ensures Check(queue, 0) == (queue + [0], true)
  {
    assert Expire(queue, 0) == queue;
  }

  lemma {:induction false} BurstAccepted(n: nat)
    requires n <= REQUESTS_PER_MINUTE
    ensures Queue(Zeros(n)) == Accepted(Zeros(n)) == Zeros(n)
  {
    if n > 0 {
      var earlier := Zeros(n - 1);
      BurstAccepted(n - 1);
      NextOfBurst(earlier);
      assert Zeros(n)[..n - 1] == earlier && Zeros(n)[n - 1] == 0 && Zeros(n) == earlier + [0];
    }
  }

  lemma {:induction false} ExpireAll(queue: seq<int>, now: int)
    requires forall k :: 0 <= k < |queue| ==> now - queue[k] >= WINDOW
    ensures Expire(queue, now) == []
  {
    if queue != [] { ExpireAll(queue[1..], now); }
  }

  lemma {:induction false} WithinAll(accepted: seq<int>, from: int, until: int)
    requires forall k :: 0 <= k < |accepted| ==> from <= accepted[k] < until
    ensures Within(accepted, from, until) == accepted
  {
    if accepted != [] { WithinAll(accepted[1..], from, until); }
  }

  /** 20 calls at once, a call a window later, and then a call whose reading is `d` older than that one. */
  function Overtaken(d: nat): seq<int> {
    Zeros(REQUESTS_PER_MINUTE) + [WINDOW, WINDOW - d]
  }

  lemma OvertakenAccepted(d: nat)
    ensures LateBy(Overtaken(d), d) || d > WINDOW
    ensures Accepted(Overtaken(d)) == Overtaken(d)
  {
    var burst := Zeros(REQUESTS_PER_MINUTE);
    BurstAccepted(REQUESTS_PER_MINUTE);
    ExpireAll(burst, WINDOW);
    var all, before := Overtaken(d), burst + [WINDOW];
    assert before[..|before| - 1] == burst;
    assert Accepted(before) == before && Queue(before) == [] + [WINDOW];
    assert all[..|all| - 1] == before && all == before + [WINDOW - d];
  }

  lemma TwentyOne(d: nat, length: int)
    requires d <= WINDOW && length > WINDOW - d
    ensures LateBy(Overtaken(d), d) && !AtMostTwenty(Overtaken(d), length)
  {
    OvertakenAccepted(d);
    var burst := Zeros(REQUESTS_PER_MINUTE);
    assert Overtaken(d) == (burst + [WINDOW]) + [WINDOW - d];
    WithinConcat(burst + [WINDOW], [WINDOW - d], 0, length);
    WithinConcat(burst, [WINDOW], 0, length);
    WithinAll(burst, 0, length);
    WithinAll([WINDOW - d], 0, length);
    assert CountFrom(Accepted(Overtaken(d)), 0, length) > REQUESTS_PER_MINUTE;
  }

  lemma {:induction false} WithinEmpty(accepted: seq<int>, from: int, until: int)
    requires until <= from
    ensures Within(accepted, from, until) == []
  {
    if accepted != [] { WithinEmpty(accepted[1..], from, until); }
  }

  lemma TwentyInShorter(times: seq<int>, d: nat, length: int)
    requires LateBy(times, d) && (length <= 0 || length <= WINDOW - d)
    ensures AtMostTwenty(times, length)
  {
    forall from ensures CountFrom(Accepted(times), from, length) <= REQUESTS_PER_MINUTE {
      if length <= 0 {
        WithinEmpty(Accepted(times), from, from + length);
      } else {
        AtMostTwentyWhenLate(times, d, length, from);
      }
    }
  }

  /** What lateness of at most `d` leaves of the promise: at most 20 in every interval of `length`, in every run, if
      and only if the length is at most a window less `d`. */
  lemma LatenessExact(d: nat, length: nat)
    ensures (forall times :: LateBy(times, d) ==> AtMostTwenty(times, length)) <==> length == 0 || length <= WINDOW - d
  {
    if length == 0 || length <= WINDOW - d {
      forall times | LateBy(times, d) ensures AtMostTwenty(times, length) { TwentyInShorter(times, d, length); }
    } else {
      var late := if d <= WINDOW then d else WINDOW;
      TwentyOne(late, length);
      assert LateBy(Overtaken(late), d);
    }
  }
}
