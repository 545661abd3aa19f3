/**
 The token bucket as a value, over real arithmetic: what a refill and a poll do to it, and what a
 whole run of polls allows. Times are clock readings in seconds.
 */
module TokenBucket {
  datatype Bucket = Bucket(tokens: real, last: real)

  datatype Limit = Limit(rate: real, burst: int)

  ghost predicate Sensible(l: Limit) {
    l.rate >= 0.0 && l.burst >= 0
  }

  ghost predicate Filled(l: Limit, b: Bucket) {
    0.0 <= b.tokens <= l.burst as real
  }

  /** What an interval of time is worth. */
  ghost function Inflow(l: Limit, from: real, to: real): real {
    (to - from) * l.rate
  }

  /** Tokens flow in at the rate, up to the burst. */
  ghost function Refilled(l: Limit, b: Bucket, now: real): Bucket {
    var tokens := b.tokens + Inflow(l, b.last, now);
    Bucket(if tokens > l.burst as real then l.burst as real else tokens, now)
  }

  ghost predicate Allows(l: Limit, b: Bucket, now: real) {
    Refilled(l, b, now).tokens >= 1.0
  }

  ghost function Polled(l: Limit, b: Bucket, now: real): Bucket {
    var r := Refilled(l, b, now);
    if Allows(l, b, now) then r.(tokens := r.tokens - 1.0) else r
  }

  ghost function After(l: Limit, b: Bucket, times: seq<real>): Bucket
    decreases |times|
  {
    if times == [] then b else After(l, Polled(l, b, times[0]), times[1..])
  }

  ghost function Outcomes(l: Limit, b: Bucket, times: seq<real>): (r: seq<bool>)
    ensures |r| == |times|
    decreases |times|
  {
    if times == [] then [] else [Allows(l, b, times[0])] + Outcomes(l, Polled(l, b, times[0]), times[1..])
  }

  /** Clock readings that never go back, the first not before `last`. */
  ghost predicate Ordered(last: real, times: seq<real>)
    decreases |times|
  {
    times == [] || (last <= times[0] && Ordered(times[0], times[1..]))
  }

  /** How many polls with a reading in [from, to] succeed. */
  ghost function Allowed(l: Limit, b: Bucket, times: seq<real>, from: real, to: real): nat
    decreases |times|
  {
    if times == [] then 0
    else
      (if from <= times[0] <= to && Allows(l, b, times[0]) then 1 else 0)
      + Allowed(l, Polled(l, b, times[0]), times[1..], from, to)
  }

  // ---- the bound

  lemma Flow(l: Limit, a: real, b: real, c: real)
    requires l.rate >= 0.0 && a <= b <= c
    ensures 0.0 <= Inflow(l, a, b) <= Inflow(l, a, c)
    ensures Inflow(l, a, b) + Inflow(l, b, c) == Inflow(l, a, c)
    ensures Inflow(l, c, c) == 0.0
  {
    var x, y := b - a, c - b;
    assert x * l.rate >= 0.0 && y * l.rate >= 0.0;
    assert (x + y) * l.rate == x * l.rate + y * l.rate;
  }

  lemma PollKeepsFilled(l: Limit, b: Bucket, now: real)
    requires Sensible(l) && Filled(l, b) && b.last <= now
    ensures Filled(l, Polled(l, b, now)) && Filled(l, Refilled(l, b, now))
  {
    Flow(l, b.last, now, now);
  }

  /** In every state of every run the bucket is between empty and full. */
  lemma {:induction false} AlwaysFilled(l: Limit, b: Bucket, times: seq<real>)
    requires Sensible(l) && Filled(l, b) && Ordered(b.last, times)
    ensures Filled(l, After(l, b, times))
    decreases |times|
  {
    if times != [] {
      PollKeepsFilled(l, b, times[0]);
      AlwaysFilled(l, Polled(l, b, times[0]), times[1..]);
    }
  }

  lemma {:induction false} NoneAllowedLate(l: Limit, b: Bucket, times: seq<real>, from: real, to: real)
    requires Ordered(b.last, times) && to < b.last
    ensures Allowed(l, b, times, from, to) == 0
    decreases |times|
  {
    if times != [] {
      NoneAllowedLate(l, Polled(l, b, times[0]), times[1..], from, to);
    }
  }

  lemma {:induction false} SpentAtMost(l: Limit, b: Bucket, times: seq<real>, from: real, to: real)
    requires Sensible(l) && Filled(l, b) && b.last <= to && Ordered(b.last, times)
    ensures Allowed(l, b, times, from, to) as real <= b.tokens + Inflow(l, b.last, to)
    decreases |times|
  {
    if times == [] {
      Flow(l, b.last, to, to);
    } else {
      var now := times[0];
      PollKeepsFilled(l, b, now);
      if to < now {
        Flow(l, b.last, to, to);
        NoneAllowedLate(l, Polled(l, b, now), times[1..], from, to);
      } else {
        Flow(l, b.last, now, to);
        SpentAtMost(l, Polled(l, b, now), times[1..], from, to);
      }
    }
  }

  lemma {:induction false} InWindowAtMost(l: Limit, b: Bucket, times: seq<real>, from: real, to: real)
    requires Sensible(l) && Filled(l, b) && Ordered(b.last, times) && from <= to
    ensures Allowed(l, b, times, from, to) as real <= l.burst as real + Inflow(l, from, to)
    decreases |times|
  {
    Flow(l, from, to, to);
    if times != [] {
      var now := times[0];
      PollKeepsFilled(l, b, now);
      if now < from {
        InWindowAtMost(l, Polled(l, b, now), times[1..], from, to);
      } else if to < now {
        NoneAllowedLate(l, Polled(l, b, now), times[1..], from, to);
      } else {
        Flow(l, from, now, to);
        SpentAtMost(l, Polled(l, b, now), times[1..], from, to);
      }
    }
  }

  /** What is in the bucket plus what flows in is all that can be spent. */
  lemma SpendsWhatFlowsIn(l: Limit, b: Bucket, times: seq<real>, from: real, to: real)
    requires Sensible(l) && Filled(l, b) && b.last <= to && Ordered(b.last, times)
    ensures Allowed(l, b, times, from, to) as real <= b.tokens + (to - b.last) * l.rate
  {
    SpentAtMost(l, b, times, from, to);
  }

  /** In any run, polls that succeed between `from` and `to` number at most burst + rate * (to - from). */
  lemma WindowBound(l: Limit, b: Bucket, times: seq<real>, from: real, to: real)
    requires Sensible(l) && Filled(l, b) && Ordered(b.last, times) && from <= to
    ensures Allowed(l, b, times, from, to) as real <= l.burst as real + (to - from) * l.rate
  {
    InWindowAtMost(l, b, times, from, to);
  }

  // ---- what is granted at least

  lemma PollGrants(l: Limit, b: Bucket, now: real, k: nat)
    requires Sensible(l) && Filled(l, b) && b.last <= now && 0 < k <= l.burst
    requires b.tokens + (now - b.last) * l.rate >= k as real
    ensures Allows(l, b, now) && Polled(l, b, now).tokens >= (k - 1) as real && Polled(l, b, now).last == now
  {
  }

  /** As many polls in a row succeed as tokens are there when the first of them comes, up to the burst. */
  lemma {:induction false} GrantsInARow(l: Limit, b: Bucket, times: seq<real>, k: nat)
    requires Sensible(l) && Filled(l, b) && Ordered(b.last, times) && k <= |times| && k <= l.burst
    requires k > 0 ==> b.tokens + (times[0] - b.last) * l.rate >= k as real
    ensures forall i :: 0 <= i < k ==> Outcomes(l, b, times)[i]
    decreases |times|
  {
    if k > 0 {
      var now, rest := times[0], times[1..];
      PollGrants(l, b, now, k);
      PollKeepsFilled(l, b, now);
      if k > 1 {
        Flow(l, now, rest[0], rest[0]);
      }
      GrantsInARow(l, Polled(l, b, now), rest, k - 1);
      assert Outcomes(l, b, times) == [true] + Outcomes(l, Polled(l, b, now), rest);
    }
  }

  lemma {:induction false} OutcomesAppend(l: Limit, b: Bucket, earlier: seq<real>, times: seq<real>)
    ensures Outcomes(l, b, earlier + times) == Outcomes(l, b, earlier) + Outcomes(l, After(l, b, earlier), times)
    decreases |earlier|
  {
    if earlier == [] {
      assert earlier + times == times;
    } else {
      OutcomesAppend(l, Polled(l, b, earlier[0]), earlier[1..], times);
      assert (earlier + times)[1..] == earlier[1..] + times;
    }
  }

  lemma {:induction false} OrderedSplit(l: Limit, b: Bucket, earlier: seq<real>, times: seq<real>)
    requires Ordered(b.last, earlier + times)
    ensures Ordered(b.last, earlier) && Ordered(After(l, b, earlier).last, times)
    decreases |earlier|
  {
    if earlier == [] {
      assert earlier + times == times;
    } else {
      assert (earlier + times)[1..] == earlier[1..] + times;
      OrderedSplit(l, Polled(l, b, earlier[0]), earlier[1..], times);
    }
  }

  ghost predicate AllTrue(s: seq<bool>) {
    forall i :: 0 <= i < |s| ==> s[i]
  }

  /** A pause that is worth k tokens or more. */
  ghost predicate Worth(l: Limit, from: real, to: real, k: nat) {
    (to - from) * l.rate >= k as real
  }

  lemma GrantsAfterPause(l: Limit, b: Bucket, times: seq<real>, k: nat)
    requires Sensible(l) && Filled(l, b) && Ordered(b.last, times) && 0 < k <= |times| && k <= l.burst
    requires Worth(l, b.last, times[0], k)
    ensures forall i :: 0 <= i < k ==> Outcomes(l, b, times)[i]
  {
    GrantsInARow(l, b, times, k);
  }

  lemma GrantsAfter(l: Limit, b: Bucket, earlier: seq<real>, times: seq<real>, k: nat)
    requires |times| >= k && forall i :: 0 <= i < k ==> Outcomes(l, After(l, b, earlier), times)[i]
    ensures AllTrue(Outcomes(l, b, earlier + times)[|earlier|..|earlier| + k])
  {
    OutcomesAppend(l, b, earlier, times);
  }

  /**
   Whatever came before, after a pause of d with d * rate >= k the next k polls succeed, up to the
   burst.
   */
  lemma PauseGrants(l: Limit, b: Bucket, earlier: seq<real>, times: seq<real>, k: nat)
    requires Sensible(l) && Filled(l, b) && Ordered(b.last, earlier + times) && k <= |times| && k <= l.burst
    requires k > 0 && Worth(l, After(l, b, earlier).last, times[0], k)
    ensures AllTrue(Outcomes(l, b, earlier + times)[|earlier|..|earlier| + k])
  {
    OrderedSplit(l, b, earlier, times);
    AlwaysFilled(l, b, earlier);
    GrantsAfterPause(l, After(l, b, earlier), times, k);
    GrantsAfter(l, b, earlier, times, k);
  }

  ghost predicate AllAt(times: seq<real>, now: real) {
    forall i :: 0 <= i < |times| ==> times[i] == now
  }

  /** One poll takes one token or, without a whole one, nothing. */
  lemma OnePoll(l: Limit, b: Bucket, now: real, there: real)
    requires Sensible(l) && Filled(l, b) && there == b.tokens + (now - b.last) * l.rate
    ensures Allows(l, b, now) <==> 1.0 <= there && 1 <= l.burst
    ensures Polled(l, b, now).tokens ==
      (if there > l.burst as real then l.burst as real else there) - (if Allows(l, b, now) then 1.0 else 0.0)
    ensures Polled(l, b, now).last == now
  {
    assert Inflow(l, b.last, now) == (now - b.last) * l.rate;
    assert Refilled(l, b, now).tokens == if there > l.burst as real then l.burst as real else there;
    assert 1 <= l.burst <==> 1.0 <= l.burst as real;
  }

  lemma NoTime(l: Limit, now: real)
    ensures (now - now) * l.rate == 0.0
  {
  }

  /** Poll i succeeds exactly if there are more than i whole tokens and the burst allows for it. */
  ghost predicate OneEach(r: seq<bool>, there: real, burst: int) {
    forall i :: 0 <= i < |r| ==> (r[i] <==> (i + 1) as real <= there && i + 1 <= burst)
  }

  /** Of polls at one moment exactly the first succeed, one for each whole token, up to the burst. */
  lemma {:induction false} GrantsAtOnce(l: Limit, b: Bucket, times: seq<real>, now: real, there: real)
    requires Sensible(l) && Filled(l, b) && b.last <= now && AllAt(times, now)
    requires there == b.tokens + (now - b.last) * l.rate
    ensures OneEach(Outcomes(l, b, times), there, l.burst)
    decreases |times|
  {
    if times != [] {
      var b', rest := Polled(l, b, now), times[1..];
      OnePoll(l, b, now, there);
      PollKeepsFilled(l, b, now);
      NoTime(l, now);
      GrantsAtOnce(l, b', rest, now, b'.tokens);
      OnceMore(l, there, b'.tokens, Allows(l, b, now), Outcomes(l, b', rest));
    }
  }

  lemma OnceMore(l: Limit, there: real, left: real, first: bool, later: seq<bool>)
    requires first <==> 1.0 <= there && 1 <= l.burst
    requires l.burst >= 0
    requires left == (if there > l.burst as real then l.burst as real else there) - (if first then 1.0 else 0.0)
    requires OneEach(later, left, l.burst)
    ensures OneEach([first] + later, there, l.burst)
  {
  }

  /** A fresh limiter grants its burst at once, and no more. */
  lemma FreshGrantsBurst(l: Limit, times: seq<real>, now: real)
    requires Sensible(l) && AllAt(times, now)
    ensures var r := Outcomes(l, Bucket(l.burst as real, now), times);
      forall i :: 0 <= i < |r| ==> (r[i] <==> i < l.burst)
  {
    NoTime(l, now);
    GrantsAtOnce(l, Bucket(l.burst as real, now), times, now, l.burst as real);
    assert OneEach(Outcomes(l, Bucket(l.burst as real, now), times), l.burst as real, l.burst);
  }

  // ---- the bounds are all there is

  ghost function Grants(r: seq<bool>): nat {
    if r == [] then 0 else (if r[0] then 1 else 0) + Grants(r[1..])
  }

  /** One more poll at `to` stays within `base` and what flows in since `from`, after these outcomes. */
  ghost predicate Fits(l: Limit, r: seq<bool>, base: real, from: real, to: real) {
    (1 + Grants(r)) as real <= base + (to - from) * l.rate
  }

  /** Poll i stays within the tokens at the start, and within the burst from every poll on. */
  ghost predicate FitsAll(l: Limit, b: Bucket, times: seq<real>, r: seq<bool>, i: nat)
    requires i < |times| == |r|
  {
    && Fits(l, r[..i], b.tokens, b.last, times[i])
    && forall j :: 0 <= j <= i ==> Fits(l, r[j..i], l.burst as real, times[j], times[i])
  }

  lemma FitsAfterPoll(l: Limit, b: Bucket, now: real, to: real, r: seq<bool>)
    ensures Fits(l, r, Polled(l, b, now).tokens, now, to) <==>
      Fits(l, [Allows(l, b, now)] + r, b.tokens, b.last, to) && Fits(l, [Allows(l, b, now)] + r, l.burst as real, now, to)
  {
  }

  lemma FirstFits(l: Limit, b: Bucket, now: real)
    ensures Allows(l, b, now) <==> Fits(l, [], b.tokens, b.last, now) && Fits(l, [], l.burst as real, now, now)
  {
    NoTime(l, now);
    assert Grants([]) == 0 && (1 + 0) as real == 1.0;
    assert Inflow(l, b.last, now) == (now - b.last) * l.rate;
    assert Fits(l, [], b.tokens, b.last, now) <==> 1.0 <= b.tokens + Inflow(l, b.last, now);
    assert Fits(l, [], l.burst as real, now, now) <==> 1.0 <= l.burst as real;
  }

  /**
   The limiter grants whatever its bounds permit: a poll succeeds exactly if with it no window that
   ends there would exceed the tokens at the start, or the burst, and what flows in.
   */
  lemma {:induction false} GrantsWhateverFits(l: Limit, b: Bucket, times: seq<real>, i: nat)
    requires i < |times|
    ensures Outcomes(l, b, times)[i] <==> FitsAll(l, b, times, Outcomes(l, b, times), i)
    decreases i
  {
    var now, rest, r := times[0], times[1..], Outcomes(l, b, times);
    var b' := Polled(l, b, now);
    var later := Outcomes(l, b', rest);
    assert r == [Allows(l, b, now)] + later;
    if i == 0 {
      FirstFits(l, b, now);
      assert r[..0] == [] && r[0..0] == [];
    } else {
      GrantsWhateverFits(l, b', rest, i - 1);
      FitsAfterPoll(l, b, now, times[i], later[..i - 1]);
      assert [Allows(l, b, now)] + later[..i - 1] == r[..i] == r[0..i];
      assert forall j :: 0 < j <= i ==> times[j] == rest[j - 1] && r[j..i] == later[j - 1..i - 1];
      WindowsShift(l, rest, later, times, r, i);
    }
  }

  lemma WindowsShift(l: Limit, rest: seq<real>, later: seq<bool>, times: seq<real>, r: seq<bool>, i: nat)
    requires 0 < i < |times| == |r| && |rest| == |later| == |r| - 1
    requires times[i] == rest[i - 1]
    requires forall j :: 0 < j <= i ==> times[j] == rest[j - 1] && r[j..i] == later[j - 1..i - 1]
    ensures (forall j :: 0 <= j <= i - 1 ==> Fits(l, later[j..i - 1], l.burst as real, rest[j], rest[i - 1])) <==>
      forall j :: 0 < j <= i ==> Fits(l, r[j..i], l.burst as real, times[j], times[i])
  {
    if forall j :: 0 < j <= i ==> Fits(l, r[j..i], l.burst as real, times[j], times[i]) {
      forall j | 0 <= j <= i - 1 ensures Fits(l, later[j..i - 1], l.burst as real, rest[j], rest[i - 1]) {
        assert Fits(l, r[j + 1..i], l.burst as real, times[j + 1], times[i]);
      }
    }
  }

  // ---- denied polls leave no trace

  /** Refills compose under the cap: an intermediate refill makes no difference. */
  lemma RefillsCompose(l: Limit, b: Bucket, x: real, y: real)
    requires l.rate >= 0.0 && b.last <= x <= y
    ensures Refilled(l, Refilled(l, b, x), y) == Refilled(l, b, y)
  {
  }

  ghost function Kept<A>(s: seq<A>, keep: seq<bool>): seq<A>
    requires |s| == |keep|
  {
    if s == [] then [] else (if keep[0] then [s[0]] else []) + Kept(s[1..], keep[1..])
  }

  /** `b` differs from `c` at most by refills. */
  ghost predicate OnlyRefilled(l: Limit, b: Bucket, c: Bucket) {
    c.last <= b.last && b == Refilled(l, c, b.last)
  }

  lemma {:induction false} DeniedInvisible(l: Limit, b: Bucket, c: Bucket, times: seq<real>, keep: seq<bool>)
    requires l.rate >= 0.0 && Ordered(b.last, times) && OnlyRefilled(l, b, c)
    requires |keep| == |times|
    requires forall i :: 0 <= i < |keep| && !keep[i] ==> !Outcomes(l, b, times)[i]
    ensures Outcomes(l, c, Kept(times, keep)) == Kept(Outcomes(l, b, times), keep)
    ensures OnlyRefilled(l, After(l, b, times), After(l, c, Kept(times, keep)))
    decreases |times|
  {
    if times != [] {
      var now, rest := times[0], times[1..];
      var b', outcomes := Polled(l, b, now), Outcomes(l, b, times);
      RefillsCompose(l, c, b.last, now);
      assert outcomes[1..] == Outcomes(l, b', rest);
      if keep[0] {
        CappedAfterPoll(l, c, now);
        DeniedInvisible(l, b', Polled(l, c, now), rest, keep[1..]);
        assert Kept(times, keep)[1..] == Kept(rest, keep[1..]);
      } else {
        DeniedInvisible(l, b', c, rest, keep[1..]);
        assert Kept(times, keep) == Kept(rest, keep[1..]);
      }
    }
  }

  lemma CappedAfterPoll(l: Limit, b: Bucket, now: real)
    ensures OnlyRefilled(l, Polled(l, b, now), Polled(l, b, now))
  {
  }

  /** Deleting any denied polls from a run leaves the outcome of every other poll as it was. */
  lemma DeniedPollsUnobservable(l: Limit, b: Bucket, times: seq<real>, keep: seq<bool>)
    requires Sensible(l) && Filled(l, b) && Ordered(b.last, times)
    requires |keep| == |times|
    requires forall i :: 0 <= i < |keep| && !keep[i] ==> !Outcomes(l, b, times)[i]
    ensures Outcomes(l, b, Kept(times, keep)) == Kept(Outcomes(l, b, times), keep)
  {
    DeniedInvisible(l, b, b, times, keep);
  }

  // ---- waiting

  ghost predicate Step5ms(clock: nat -> real, i: nat) {
    clock(i) + 0.005 <= clock(i + 1)
  }

  /** Readings at least 5 ms apart, from `last` on. */
  ghost predicate Spaced(last: real, clock: nat -> real) {
    last <= clock(0) && forall i: nat :: Step5ms(clock, i)
  }

  lemma {:induction false} SpacedGrows(last: real, clock: nat -> real, n: nat)
    requires Spaced(last, clock)
    ensures last + 0.005 * (n as real) <= clock(n)
  {
    if n > 0 {
      SpacedGrows(last, clock, n - 1);
      assert Step5ms(clock, n - 1);
    }
  }

  /** The bucket after polls at the first n readings. */
  ghost function PollState(l: Limit, b: Bucket, clock: nat -> real, n: nat): Bucket {
    if n == 0 then b else Polled(l, PollState(l, b, clock, n - 1), clock(n - 1))
  }

  ghost predicate Denied(l: Limit, b: Bucket, clock: nat -> real, i: nat) {
    !Allows(l, PollState(l, b, clock, i), clock(i))
  }

  ghost predicate AllDenied(l: Limit, b: Bucket, clock: nat -> real, n: nat) {
    forall i :: 0 <= i < n ==> Denied(l, b, clock, i)
  }

  /** n denied polls in a row amount to one refill, at the time of the last of them. */
  lemma {:induction false} DeniedRow(l: Limit, b: Bucket, clock: nat -> real, n: nat)
    requires Sensible(l) && Filled(l, b) && Spaced(b.last, clock)
    requires AllDenied(l, b, clock, n + 1)
    ensures PollState(l, b, clock, n + 1) == Refilled(l, b, clock(n))
  {
    assert Denied(l, b, clock, n);
    if n > 0 {
      DeniedRow(l, b, clock, n - 1);
      SpacedGrows(b.last, clock, n - 1);
      assert Step5ms(clock, n - 1);
      RefillsCompose(l, b, clock(n - 1), clock(n));
    }
  }

  /** n polls have brought n * rate / 200 tokens. */
  ghost function PollsWorth(l: Limit, n: nat): real {
    (n as real) * l.rate
  }

  /** n denied polls are no more than the refill they add up to. */
  lemma NextAllowsAsOneRefill(l: Limit, b: Bucket, clock: nat -> real, n: nat)
    requires Sensible(l) && Filled(l, b) && Spaced(b.last, clock)
    requires AllDenied(l, b, clock, n)
    ensures Allows(l, PollState(l, b, clock, n), clock(n)) == Allows(l, b, clock(n))
  {
    if n > 0 {
      DeniedRow(l, b, clock, n - 1);
      SpacedGrows(b.last, clock, n - 1);
      assert Step5ms(clock, n - 1);
      RefillsCompose(l, b, clock(n - 1), clock(n));
    }
  }

  lemma InflowOfPolls(from: real, x: real, l: Limit)
    ensures Inflow(l, from, from + 0.005 * x) == 0.005 * (x * l.rate)
  {
  }

  lemma EnoughTime(l: Limit, b: Bucket, now: real, n: nat)
    requires l.rate > 0.0 && l.burst >= 1 && Filled(l, b) && b.last + 0.005 * (n as real) <= now
    requires !Allows(l, b, now)
    ensures PollsWorth(l, n) < 200.0
  {
    Flow(l, b.last, b.last + 0.005 * (n as real), now);
    InflowOfPolls(b.last, n as real, l);
  }

  /** With rate > 0 and burst >= 1 at most ceil(200 / rate) polls, 5 ms apart, fail in a row. */
  lemma FailedPollsBound(l: Limit, b: Bucket, clock: nat -> real, failed: nat)
    requires l.rate > 0.0 && l.burst >= 1 && Filled(l, b) && Spaced(b.last, clock)
    requires AllDenied(l, b, clock, failed)
    ensures failed > 0 ==> PollsWorth(l, failed - 1) < 200.0
  {
    if failed > 0 {
      assert Denied(l, b, clock, failed - 1);
      NextAllowsAsOneRefill(l, b, clock, failed - 1);
      SpacedGrows(b.last, clock, failed - 1);
      EnoughTime(l, b, clock(failed - 1), failed - 1);
    }
  }

  // ---- when waiting ends

  lemma {:induction false} PollsKeepFilled(l: Limit, b: Bucket, clock: nat -> real, n: nat)
    requires Sensible(l) && Filled(l, b) && Spaced(b.last, clock)
    ensures var p := PollState(l, b, clock, n);
      Filled(l, p) && p.last <= clock(n) && (l.rate == 0.0 ==> p.tokens <= b.tokens)
  {
    if n > 0 {
      PollsKeepFilled(l, b, clock, n - 1);
      var p := PollState(l, b, clock, n - 1);
      PollKeepsFilled(l, p, clock(n - 1));
      assert Step5ms(clock, n - 1);
      if l.rate == 0.0 {
        NoFlow(l, p.last, clock(n - 1));
      }
    }
  }

  lemma NoFlow(l: Limit, from: real, to: real)
    requires l.rate == 0.0
    ensures Inflow(l, from, to) == 0.0
  {
  }

  /** With a burst of 0, or an empty bucket that is not filled, every poll fails. */
  lemma NeverAllows(l: Limit, b: Bucket, clock: nat -> real, n: nat)
    requires Sensible(l) && Filled(l, b) && Spaced(b.last, clock)
    requires l.burst < 1 || (l.rate == 0.0 && b.tokens < 1.0)
    ensures Denied(l, b, clock, n)
  {
    PollsKeepFilled(l, b, clock, n);
    if l.rate == 0.0 {
      NoFlow(l, PollState(l, b, clock, n).last, clock(n));
    }
  }

  /** A number of polls that brings more than a token. */
  lemma EnoughPolls(l: Limit) returns (n: nat)
    requires l.rate > 0.0
    ensures PollsWorth(l, n) >= 200.0
  {
    var polls := 200.0 / l.rate;
    assert polls * l.rate == 200.0;
    assert polls >= 0.0;
    n := polls.Floor + 1;
    assert n as real >= polls;
    assert (n as real - polls) * l.rate >= 0.0;
    assert (n as real) * l.rate == (n as real - polls) * l.rate + polls * l.rate;
  }

  /**
   Without cancellation a Wait ends exactly if a token fits into the bucket, and one is there or
   some come in.
   */
  lemma WaitEndsExactly(l: Limit, b: Bucket, clock: nat -> real)
    requires Sensible(l) && Filled(l, b) && Spaced(b.last, clock)
    ensures (exists n: nat :: !Denied(l, b, clock, n)) <==> l.burst >= 1 && (l.rate > 0.0 || b.tokens >= 1.0)
  {
    if l.burst < 1 || (l.rate == 0.0 && b.tokens < 1.0) {
      forall n: nat ensures Denied(l, b, clock, n) {
        NeverAllows(l, b, clock, n);
      }
    } else if b.tokens >= 1.0 {
      Flow(l, b.last, clock(0), clock(0));
      assert PollState(l, b, clock, 0) == b;
      assert !Denied(l, b, clock, 0);
    } else {
      var n := EnoughPolls(l);
      if AllDenied(l, b, clock, n + 1) {
        FailedPollsBound(l, b, clock, n + 1);
        assert false;
      }
    }
  }
}

/** The limiter itself. The clock is read through a parameter. */
module RateLimiter {
  import opened TokenBucket

  class RateLimiter {
    const rate: real
    const burst: int
    var tokens: real
    var last: real

    ghost function Limits(): Limit {
      Limit(rate, burst)
    }

    ghost function State(): Bucket
      reads this
    {
      Bucket(tokens, last)
    }

    constructor (rate: real, burst: int, now: real)
      ensures this.rate == rate && this.burst == burst
      ensures State() == Bucket(burst as real, now)
      ensures burst >= 0 ==> Filled(Limits(), State())
    {
      this.rate := rate;
      this.burst := burst;
      tokens := burst as real;
      last := now;
    }

    method Refill(now: real)
      modifies this
      ensures State() == Refilled(Limits(), old(State()), now)
    {
      var elapsed := now - last;
      tokens := tokens + elapsed * rate;
      if tokens > burst as real {
        tokens := burst as real;
      }
      last := now;
    }

    method Allow(now: real) returns (ok: bool)
      modifies this
      ensures ok == Allows(Limits(), old(State()), now)
      ensures State() == Polled(Limits(), old(State()), now)
    {
      Refill(now);
      if tokens >= 1.0 {
        tokens := tokens - 1.0;
        return true;
      }
      return false;
    }

    /** Tokens do come in, one fits, and polls are 5 ms apart. */
    ghost predicate Fills(b: Bucket, clock: nat -> real) {
      rate > 0.0 && burst >= 1 && Filled(Limits(), b) && Spaced(b.last, clock)
    }

    /**
     Polls until one succeeds or the context is done. `clock(i)` is the reading of poll i, and
     `cancelled(i)` says that the select after a failed poll i took the ctx.Done case. The wait
     must end, by cancellation after poll `limit` or by a success no later than that; otherwise
     the source polls forever, and WaitEndsExactly says when that is.
     */
    method Wait(clock: nat -> real, cancelled: nat -> bool, ghost limit: nat) returns (ok: bool, failed: nat)
      requires cancelled(limit) || !AllDenied(Limits(), State(), clock, limit + 1)
      modifies this
      ensures AllDenied(Limits(), old(State()), clock, failed)
      ensures ok ==> !Denied(Limits(), old(State()), clock, failed)
      ensures State() == PollState(Limits(), old(State()), clock, if ok then failed + 1 else failed)
      ensures !ok ==> failed > 0 && cancelled(failed - 1)
      ensures forall i :: 0 <= i < (if ok then failed else failed - 1) ==> !cancelled(i)
      ensures old(Fills(State(), clock)) && failed > 0 ==> PollsWorth(Limits(), failed - 1) < 200.0
    {
      failed := 0;
      ghost var start := State();
      while true
        invariant State() == PollState(Limits(), start, clock, failed)
        invariant failed <= limit
        invariant AllDenied(Limits(), start, clock, failed)
        invariant forall i :: 0 <= i < failed ==> !cancelled(i)
        decreases limit - failed
      {
        ok := Allow(clock(failed));
        if ok {
          break;
        }
        failed := failed + 1;
        if cancelled(failed - 1) {
          break;
        }
      }
      if Fills(start, clock) {
        FailedPollsBound(Limits(), start, clock, failed);
      }
    }
  }
}
