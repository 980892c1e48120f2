/**
 The sending limiter as a reader of its documentation would define it: the only
 state is the list of times at which messages were let through. From that list
 alone the hourly count and the level of an ideal token bucket are recomputed at
 every attempt.

 Times are microseconds. Bucket levels are in units of one 3 600 000 000th of a
 token, so that a refill of `rate` tokens an hour is exactly `elapsed * rate`.
 */
module LimiterSpec {
  import opened Prelude

  const HOUR: int := 3_600_000_000

  datatype Limits = Limits(perHour: nat, burst: Option<nat>)

  /** The top of the clock hour that `now` lies in. */
  function WindowStart(now: int): (w: int)
    ensures w <= now < w + HOUR
    ensures w % HOUR == 0
  {
    now - now % HOUR
  }

  lemma WindowStartIsUnique(now: int, w: int)
    requires w <= now < w + HOUR && w % HOUR == 0
    ensures WindowStart(now) == w
  {
  }

  /** How many of the given times lie in the half-open interval from `lo` to `hi`. */
  function CountIn(times: seq<int>, lo: int, hi: int): nat {
    if times == [] then 0
    else CountIn(Init(times), lo, hi) + (if lo <= Last(times) < hi then 1 else 0)
  }

  lemma {:induction false} CountInIsCardinality(times: seq<int>, lo: int, hi: int)
    ensures CountIn(times, lo, hi) == |set i | 0 <= i < |times| && lo <= times[i] < hi|
  {
    if times != [] {
      var init := Init(times);
      CountInIsCardinality(init, lo, hi);
      var earlier := set i | 0 <= i < |init| && lo <= init[i] < hi;
      var all := set i | 0 <= i < |times| && lo <= times[i] < hi;
      assert forall i :: 0 <= i < |init| ==> init[i] == times[i];
      if lo <= Last(times) < hi {
        assert all == earlier + {|times| - 1};
      } else {
        assert all == earlier;
      }
    }
  }

  /** The level of a bucket that starts full, loses one token at each permit and
      refills continuously at `perHour`, never above `burst`. */
  function Level(perHour: nat, burst: nat, permits: seq<int>, t: int): int {
    if permits == [] then burst * HOUR
    else
      var last := Last(permits);
      Min(burst * HOUR, Level(perHour, burst, Init(permits), last) - HOUR + (t - last) * perHour)
  }

  predicate HourlyOk(limits: Limits, permits: seq<int>, t: int) {
    CountIn(permits, WindowStart(t), WindowStart(t) + HOUR) < limits.perHour
  }

  predicate BurstOk(limits: Limits, permits: seq<int>, t: int) {
    limits.burst.Some? ==> Level(limits.perHour, limits.burst.value, permits, t) >= HOUR
  }

  /** Whether a message arriving at `t` is let through, given the earlier permits. */
  predicate Allows(limits: Limits, permits: seq<int>, t: int) {
    HourlyOk(limits, permits, t) && BurstOk(limits, permits, t)
  }

  /** The permits after a sequence of attempts, continuing from earlier permits. */
  function PermitsFrom(limits: Limits, start: seq<int>, attempts: seq<int>): seq<int> {
    if attempts == [] then start
    else
      var before := PermitsFrom(limits, start, Init(attempts));
      if Allows(limits, before, Last(attempts)) then before + [Last(attempts)] else before
  }

  /** The decision for each attempt of a sequence. */
  function Decisions(limits: Limits, start: seq<int>, attempts: seq<int>): (ds: seq<bool>)
    ensures |ds| == |attempts|
  {
    if attempts == [] then []
    else Decisions(limits, start, Init(attempts))
         + [Allows(limits, PermitsFrom(limits, start, Init(attempts)), Last(attempts))]
  }

  /** A list of permits each of which the limits allowed when it was given. */
  ghost predicate Legal(limits: Limits, permits: seq<int>) {
    Ordered(permits) && forall i :: 0 <= i < |permits| ==> Allows(limits, permits[..i], permits[i])
  }

  lemma LegalPrefix(limits: Limits, permits: seq<int>)
    requires permits != [] && Legal(limits, permits)
    ensures Legal(limits, Init(permits)) && Allows(limits, Init(permits), Last(permits))
    ensures Init(permits) != [] ==> Last(Init(permits)) <= Last(permits)
  {
    var init := Init(permits);
    forall i | 0 <= i < |init| ensures Allows(limits, init[..i], init[i]) {
      assert init[..i] == permits[..i];
    }
    assert permits[..|permits| - 1] == init;
  }

  lemma LegalExtend(limits: Limits, permits: seq<int>, t: int)
    requires Legal(limits, permits) && Allows(limits, permits, t)
    requires permits != [] ==> Last(permits) <= t
    ensures Legal(limits, permits + [t])
  {
    var longer := permits + [t];
    forall i | 0 <= i < |longer| ensures Allows(limits, longer[..i], longer[i]) {
      assert longer[..i] == permits[..i];
      assert i == |permits| ==> longer[..i] == permits;
    }
  }

  /** Every run over a non-decreasing clock turns a legal list of permits into a legal one. */
  lemma {:induction false} RunsAreLegal(limits: Limits, start: seq<int>, attempts: seq<int>)
    requires Legal(limits, start) && Ordered(start + attempts)
    ensures Legal(limits, PermitsFrom(limits, start, attempts))
    ensures forall p :: p in PermitsFrom(limits, start, attempts) ==> p in start + attempts
  {
    hide Allows;
    if attempts != [] {
      var init := Init(attempts);
      assert forall i :: 0 <= i < |start + init| ==> (start + init)[i] == (start + attempts)[i];
      RunsAreLegal(limits, start, init);
      var before := PermitsFrom(limits, start, init);
      if Allows(limits, before, Last(attempts)) {
        if before != [] {
          assert Last(before) in start + init;
          var i :| 0 <= i < |start + init| && (start + init)[i] == Last(before);
          assert (start + attempts)[i] <= (start + attempts)[|start + attempts| - 1];
        }
        LegalExtend(limits, before, Last(attempts));
      }
    }
  }

  // ---------------------------------------------------------------- bounds

  /** No clock hour ever holds more than the hourly limit. */
  lemma {:induction false} HourlyBound(limits: Limits, permits: seq<int>, w: int)
    requires Legal(limits, permits) && w % HOUR == 0
    ensures CountIn(permits, w, w + HOUR) <= limits.perHour
  {
    if permits != [] {
      LegalPrefix(limits, permits);
      if w <= Last(permits) < w + HOUR {
        WindowStartIsUnique(Last(permits), w);
      } else {
        HourlyBound(limits, Init(permits), w);
      }
    }
  }

  /** The potential argument behind the burst bound: permits since `s` have been paid
      for by the capacity and the refill since `s`. */
  lemma {:induction false} Paid(limits: Limits, permits: seq<int>, s: int)
    requires limits.burst.Some? && Legal(limits, permits)
    requires permits != [] && s <= Last(permits)
    ensures CountIn(permits, s, Last(permits) + 1) * HOUR
         + Level(limits.perHour, limits.burst.value, Init(permits), Last(permits)) - HOUR
         <= limits.burst.value * HOUR + limits.perHour * (Last(permits) - s)
  {
    LegalPrefix(limits, permits);
    var earlier, t := Init(permits), Last(permits);
    var rate, capacity := limits.perHour, limits.burst.value * HOUR;
    assert CountIn(permits, s, t + 1) == CountIn(earlier, s, t + 1) + 1;
    if earlier == [] || Last(earlier) < s {
      NoneBefore(earlier, s, t + 1);
      LevelAdvances(rate, limits.burst.value, earlier, t, t);
      RefillIsMonotone(rate, 0, t - s);
    } else {
      Paid(limits, earlier, s);
      SameCount(earlier, s, Last(earlier) + 1, t + 1);
      RefillAdds(rate, Last(earlier) - s, t - Last(earlier));
      var count := CountIn(earlier, s, t + 1);
      assert (count + 1) * HOUR == count * HOUR + HOUR;
    }
  }

  lemma RefillAdds(rate: nat, d: int, e: int)
    ensures rate * d + rate * e == rate * (d + e) && e * rate == rate * e
  {
  }

  lemma RefillIsMonotone(rate: nat, d: int, e: int)
    requires d <= e
    ensures rate * d <= rate * e && rate * 0 == 0
  {
  }

  lemma {:induction false} NoneBefore(times: seq<int>, lo: int, hi: int)
    requires Ordered(times) && (times == [] || Last(times) < lo)
    ensures CountIn(times, lo, hi) == 0
  {
    if times != [] {
      NoneBefore(Init(times), lo, hi);
    }
  }

  lemma {:induction false} SameCount(times: seq<int>, lo: int, hi: int, hi': int)
    requires Ordered(times) && hi <= hi' && (times == [] || Last(times) < hi)
    ensures CountIn(times, lo, hi) == CountIn(times, lo, hi')
  {
    if times != [] {
      SameCount(Init(times), lo, hi, hi');
    }
  }

  /** In any closed interval from `s` to `t`, at most the burst plus the refill of that
      interval is let through. */
  lemma {:induction false} BurstBound(limits: Limits, permits: seq<int>, s: int, t: int)
    requires limits.burst.Some? && Legal(limits, permits) && s <= t
    ensures CountIn(permits, s, t + 1) * HOUR <= limits.burst.value * HOUR + limits.perHour * (t - s)
  {
    RefillIsMonotone(limits.perHour, 0, t - s);
    if permits == [] {
    } else if t < Last(permits) {
      LegalPrefix(limits, permits);
      BurstBound(limits, Init(permits), s, t);
      assert CountIn(permits, s, t + 1) == CountIn(Init(permits), s, t + 1);
    } else if Last(permits) < s {
      NoneBefore(permits, s, t + 1);
    } else {
      LegalPrefix(limits, permits);
      Paid(limits, permits, s);
      SameCount(permits, s, Last(permits) + 1, t + 1);
      RefillIsMonotone(limits.perHour, Last(permits) - s, t - s);
    }
  }

  lemma {:induction false} CountSplits(times: seq<int>, lo: int, mid: int, hi: int)
    requires lo <= mid <= hi
    ensures CountIn(times, lo, hi) == CountIn(times, lo, mid) + CountIn(times, mid, hi)
  {
    if times != [] {
      CountSplits(Init(times), lo, mid, hi);
    }
  }

  lemma {:induction false} CountMonotone(times: seq<int>, lo: int, hi: int, lo': int, hi': int)
    requires lo' <= lo && hi <= hi'
    ensures CountIn(times, lo, hi) <= CountIn(times, lo', hi')
  {
    if times != [] {
      CountMonotone(Init(times), lo, hi, lo', hi');
    }
  }

  lemma StrictlyFewer(count: int, burst: nat, perHour: nat)
    requires 0 < perHour && count * HOUR <= burst * HOUR + perHour * (HOUR - 1)
    ensures count < perHour + burst
  {
  }

  /** Any hour-long half-open interval, aligned or not: twice the hourly limit at most,
      and with burst protection strictly less than the hourly limit plus the burst. */
  lemma SlidingHourBound(limits: Limits, permits: seq<int>, s: int)
    requires Legal(limits, permits)
    ensures CountIn(permits, s, s + HOUR) <= 2 * limits.perHour
    ensures limits.burst.Some? && 0 < limits.perHour ==>
              CountIn(permits, s, s + HOUR) < limits.perHour + limits.burst.value
  {
    var w := WindowStart(s);
    CountSplits(permits, s, w + HOUR, s + HOUR);
    CountMonotone(permits, s, w + HOUR, w, w + HOUR);
    CountMonotone(permits, w + HOUR, s + HOUR, w + HOUR, w + HOUR + HOUR);
    HourlyBound(limits, permits, w);
    HourlyBound(limits, permits, w + HOUR);
    if limits.burst.Some? && 0 < limits.perHour {
      BurstBound(limits, permits, s, s + HOUR - 1);
      StrictlyFewer(CountIn(permits, s, s + HOUR), limits.burst.value, limits.perHour);
    }
  }

  function Repeat(t: int, n: nat): (r: seq<int>)
    ensures |r| == n
  {
    if n == 0 then [] else Repeat(t, n - 1) + [t]
  }

  lemma {:induction false} CountAppends(times: seq<int>, t: int, n: nat, lo: int, hi: int)
    ensures CountIn(times + Repeat(t, n), lo, hi) == CountIn(times, lo, hi) + (if lo <= t < hi then n else 0)
  {
    if n == 0 {
      assert times + Repeat(t, 0) == times;
    } else {
      CountAppends(times, t, n - 1, lo, hi);
      assert Init(times + Repeat(t, n)) == times + Repeat(t, n - 1);
    }
  }

  lemma {:induction false} BudgetIsSpent(limits: Limits, start: seq<int>, t: int, n: nat)
    requires limits.burst.None? && n <= limits.perHour
    requires CountIn(start, WindowStart(t), WindowStart(t) + HOUR) == 0
    ensures PermitsFrom(limits, start, Repeat(t, n)) == start + Repeat(t, n)
  {
    hide CountIn, WindowStart;
    if n == 0 {
      assert start + Repeat(t, 0) == start;
    } else {
      var earlier := Repeat(t, n - 1);
      BudgetIsSpent(limits, start, t, n - 1);
      assert Repeat(t, n) == earlier + [t] && Init(earlier + [t]) == earlier && Last(earlier + [t]) == t;
      CountAppends(start, t, n - 1, WindowStart(t), WindowStart(t) + HOUR);
      InOwnHour(t);
      assert start + (earlier + [t]) == (start + earlier) + [t];
    }
  }

  lemma InOwnHour(t: int)
    ensures WindowStart(t) <= t < WindowStart(t) + HOUR
  {
  }

  /** Why burst protection exists: with the hourly ceiling alone the factor two is
      reached, by spending one hour's budget in its last instant and the next in its first. */
  lemma HourlyCeilingAloneReachesTwice(perHour: nat)
    ensures var limits := Limits(perHour, None);
            var attempts := Repeat(HOUR - 1, perHour) + Repeat(HOUR, perHour);
            CountIn(PermitsFrom(limits, [], attempts), HOUR - 1, HOUR - 1 + HOUR) == 2 * perHour
  {
    var limits := Limits(perHour, None);
    var first, second := Repeat(HOUR - 1, perHour), Repeat(HOUR, perHour);
    BudgetIsSpent(limits, [], HOUR - 1, perHour);
    assert [] + first == first;
    CountAppends([], HOUR - 1, perHour, HOUR, HOUR + HOUR);
    BudgetIsSpent(limits, first, HOUR, perHour);
    PermitsContinue(limits, [], first, second);
    CountAppends([], HOUR - 1, perHour, HOUR - 1, HOUR - 1 + HOUR);
    CountAppends(first, HOUR, perHour, HOUR - 1, HOUR - 1 + HOUR);
  }

  /** A run can be cut anywhere. */
  lemma {:induction false} PermitsContinue(limits: Limits, start: seq<int>, first: seq<int>, second: seq<int>)
    ensures PermitsFrom(limits, start, first + second) == PermitsFrom(limits, PermitsFrom(limits, start, first), second)
  {
    if second == [] {
      assert first + second == first;
    } else {
      PermitsContinue(limits, start, first, Init(second));
      assert Init(first + second) == first + Init(second);
    }
  }

  /** Everything the limits promise about a list of permits: per clock hour, per hour-long
      interval, per closed interval, and per hour-long interval with burst protection. */
  ghost predicate WithinBounds(limits: Limits, permits: seq<int>, s: int, t: int) {
    && CountIn(permits, WindowStart(s), WindowStart(s) + HOUR) <= limits.perHour
    && CountIn(permits, s, s + HOUR) <= 2 * limits.perHour
    && (limits.burst.Some? ==>
          CountIn(permits, s, t + 1) * HOUR <= limits.burst.value * HOUR + limits.perHour * (t - s))
    && (limits.burst.Some? && 0 < limits.perHour ==>
          CountIn(permits, s, s + HOUR) < limits.perHour + limits.burst.value)
  }

  lemma LegalBounds(limits: Limits, permits: seq<int>, s: int, t: int)
    requires Legal(limits, permits) && s <= t
    ensures WithinBounds(limits, permits, s, t)
  {
    HourlyBound(limits, permits, WindowStart(s));
    SlidingHourBound(limits, permits, s);
    if limits.burst.Some? {
      BurstBound(limits, permits, s, t);
    }
  }

  /** The bounds, for every run of attempts over a non-decreasing clock, continuing any other. */
  lemma RunBounds(limits: Limits, start: seq<int>, attempts: seq<int>, s: int, t: int)
    requires Legal(limits, start) && Ordered(start + attempts) && s <= t
    ensures WithinBounds(limits, PermitsFrom(limits, start, attempts), s, t)
  {
    RunsAreLegal(limits, start, attempts);
    LegalBounds(limits, PermitsFrom(limits, start, attempts), s, t);
  }

  // ------------------------------------------------ what the bucket decides

  /** The bucket level, without a bucket: it is at least `x` exactly when the capacity is
      and every earlier permit leaves at least `x` of the allowance since that permit. */
  lemma {:induction false} LevelIsAllowance(perHour: nat, burst: nat, permits: seq<int>, t: int, x: int)
    ensures Level(perHour, burst, permits, t) >= x <==>
            burst * HOUR >= x &&
            forall i :: 0 <= i < |permits| ==>
              burst * HOUR + perHour * (t - permits[i]) - (|permits| - i) * HOUR >= x
  {
    if permits != [] {
      var earlier, last := Init(permits), Last(permits);
      var x' := x + HOUR - (t - last) * perHour;
      LevelIsAllowance(perHour, burst, earlier, last, x');
      forall i | 0 <= i < |earlier|
        ensures burst * HOUR + perHour * (last - earlier[i]) - (|earlier| - i) * HOUR >= x' <==>
                burst * HOUR + perHour * (t - permits[i]) - (|permits| - i) * HOUR >= x
      {
        assert perHour * (last - permits[i]) + perHour * (t - last) == perHour * (t - permits[i]);
        assert (|earlier| - i) * HOUR + HOUR == (|permits| - i) * HOUR;
      }
      assert permits[|earlier|] == last;
      if forall i :: 0 <= i < |permits| ==>
           burst * HOUR + perHour * (t - permits[i]) - (|permits| - i) * HOUR >= x {
        forall i | 0 <= i < |earlier|
          ensures burst * HOUR + perHour * (last - earlier[i]) - (|earlier| - i) * HOUR >= x'
        {
          assert burst * HOUR + perHour * (t - permits[i]) - (|permits| - i) * HOUR >= x;
        }
        assert burst * HOUR + perHour * (t - permits[|earlier|]) - (|permits| - |earlier|) * HOUR >= x;
      }
    }
  }

  /** Burst protection lets a message through exactly when, counting this message, no
      interval that starts at an earlier permit and ends now exceeds its bound: the
      bucket is neither laxer nor stricter than the bound it enforces. */
  lemma BurstDecisionIsExact(limits: Limits, permits: seq<int>, t: int)
    requires limits.burst.Some?
    ensures BurstOk(limits, permits, t) <==>
            limits.burst.value >= 1 &&
            forall i :: 0 <= i < |permits| ==>
              (|permits| - i + 1) * HOUR <= limits.burst.value * HOUR + limits.perHour * (t - permits[i])
  {
    var burst, perHour := limits.burst.value, limits.perHour;
    LevelIsAllowance(perHour, burst, permits, t, HOUR);
    forall i | 0 <= i < |permits|
      ensures (|permits| - i + 1) * HOUR <= burst * HOUR + perHour * (t - permits[i]) <==>
              burst * HOUR + perHour * (t - permits[i]) - (|permits| - i) * HOUR >= HOUR
    {
    }
    assert burst >= 1 <==> burst * HOUR >= HOUR;
    if BurstOk(limits, permits, t) {
      forall i | 0 <= i < |permits|
        ensures (|permits| - i + 1) * HOUR <= burst * HOUR + perHour * (t - permits[i])
      {
        assert burst * HOUR + perHour * (t - permits[i]) - (|permits| - i) * HOUR >= HOUR;
      }
    }
  }

  /** Refilling in one go or in two steps gives the same level: a bucket row written at
      `t0` and refilled lazily at `t` equals the ideal bucket at `t`. */
  lemma LevelAdvances(perHour: nat, burst: nat, permits: seq<int>, t0: int, t: int)
    requires t0 <= t
    ensures Level(perHour, burst, permits, t) ==
            Min(burst * HOUR, Level(perHour, burst, permits, t0) + (t - t0) * perHour)
    ensures Level(perHour, burst, permits, t) <= burst * HOUR
  {
    RefillIsMonotone(perHour, 0, t - t0);
    if permits == [] {
      TwoRefills(burst * HOUR, perHour, burst * HOUR, t0, t0, t);
    } else {
      TwoRefills(burst * HOUR, perHour, Level(perHour, burst, Init(permits), Last(permits)) - HOUR, Last(permits), t0, t);
    }
  }

  lemma TwoRefills(top: int, rate: nat, level: int, from: int, t0: int, t: int)
    requires t0 <= t
    ensures Min(top, Min(top, level + (t0 - from) * rate) + (t - t0) * rate) == Min(top, level + (t - from) * rate)
    ensures 0 <= (t - t0) * rate && (t0 - t0) * rate == 0
  {
    RefillAdds(rate, t0 - from, t - t0);
    RefillIsMonotone(rate, 0, t - t0);
    assert (t0 - from) + (t - t0) == t - from;
    assert (t0 - from) * rate == rate * (t0 - from) && (t - from) * rate == rate * (t - from);
  }

  // ------------------------------------------- deferred attempts cost nothing

  /** The entries of `s` at the positions marked in `keep`. */
  function Select<T>(s: seq<T>, keep: seq<bool>): seq<T>
    requires |s| == |keep|
  {
    if s == [] then []
    else Select(Init(s), Init(keep)) + (if Last(keep) then [Last(s)] else [])
  }

  /** Leaving any set of deferred attempts out of a run changes no other decision. */
  lemma {:induction false} DeferredAttemptsAreFree(limits: Limits, start: seq<int>, attempts: seq<int>, keep: seq<bool>)
    requires |keep| == |attempts|
    requires forall i :: 0 <= i < |keep| && Decisions(limits, start, attempts)[i] ==> keep[i]
    ensures PermitsFrom(limits, start, Select(attempts, keep)) == PermitsFrom(limits, start, attempts)
    ensures Decisions(limits, start, Select(attempts, keep)) == Select(Decisions(limits, start, attempts), keep)
  {
    if attempts != [] {
      var all, ds := Init(attempts), Decisions(limits, start, attempts);
      assert Init(ds) == Decisions(limits, start, all);
      forall i | 0 <= i < |all| && Decisions(limits, start, all)[i] ensures Init(keep)[i] {
        assert ds[i];
      }
      DeferredAttemptsAreFree(limits, start, all, Init(keep));
      var kept := Select(all, Init(keep));
      if Last(keep) {
        assert Init(Select(attempts, keep)) == kept;
      } else {
        assert !ds[|keep| - 1];
        assert Select(attempts, keep) == kept;
      }
    }
  }
}
