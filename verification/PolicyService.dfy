/**
 The policy service Postfix asks once per message, with the rows it keeps in the
 database, the cleanup and auto-disable ticks that run beside it, and the read-outs
 shown to administrators. A ghost history says what was decided when; `Valid` ties
 every row to it, so each contract can speak of the history instead of the rows.
 */
module PolicyService {
  import opened Prelude
  import opened LimiterSpec
  import opened DeferStreak

  /** Rows of counters are kept three hours past the start of their window. */
  const RETAIN: int := 3 * HOUR
  const CLEANUP_INTERVAL: int := 24 * HOUR
  const MINUTE: int := 60_000_000

  datatype LocalUser = LocalUser(
    id: nat,
    enabled: bool,
    perHour: Option<nat>,
    burst: Option<nat>,
    streakSince: Option<int>,
    streakLatest: Option<int>)

  datatype Bucket = Bucket(tokens: int, lastRefillAt: int)

  datatype Verdict = Dunno | HourlyDefer(limit: nat) | BurstDefer

  /** A request as read off a connection; `fails` if evaluating it raises. */
  datatype Request = Request(attrs: map<string, string>, at: int, fails: bool)

  const SASL_USERNAME: string := "sasl_username"

  /** What Postfix should be told, going by the earlier permits alone. */
  function VerdictAt(limits: Limits, permits: seq<int>, t: int): Verdict {
    if !HourlyOk(limits, permits, t) then HourlyDefer(limits.perHour)
    else if !BurstOk(limits, permits, t) then BurstDefer
    else Dunno
  }

  /** One more message at `t` would exceed the bound of the interval from the `i`-th permit to it. */
  predicate TooMany(limits: Limits, permits: seq<int>, t: int, i: nat)
    requires limits.burst.Some? && i < |permits|
  {
    (|permits| - i + 1) * HOUR > limits.burst.value * HOUR + limits.perHour * (t - permits[i])
  }

  /** Which limit a defer names: the hour's if the messages of this clock hour are used up,
      whatever the bucket says; else the burst protection's, if some interval ending now
      would exceed its bound. */
  lemma VerdictSaysWhy(limits: Limits, permits: seq<int>, t: int)
    ensures var (verdict, thisHour) := (VerdictAt(limits, permits, t), CountIn(permits, WindowStart(t), WindowStart(t) + HOUR));
            && (verdict.HourlyDefer? <==> thisHour >= limits.perHour)
            && (verdict.HourlyDefer? ==> verdict.limit == limits.perHour)
            && (verdict.BurstDefer? <==>
                  && thisHour < limits.perHour && limits.burst.Some?
                  && (limits.burst.value == 0 || exists i :: 0 <= i < |permits| && TooMany(limits, permits, t, i)))
  {
    hide CountIn, Level;
    if limits.burst.Some? {
      BurstDecisionIsExact(limits, permits, t);
      if i :| 0 <= i < |permits| && !((|permits| - i + 1) * HOUR <= limits.burst.value * HOUR + limits.perHour * (t - permits[i])) {
        assert TooMany(limits, permits, t, i);
      }
    }
  }

  function Refilled(bucket: Bucket, capacity: nat, perHour: nat, now: int): int {
    Min(capacity * HOUR, bucket.tokens + (now - bucket.lastRefillAt) * perHour)
  }

  /** The times of the requests made for one user that were really evaluated. */
  function AttemptsOf(name: string, requests: seq<Request>): seq<int> {
    if requests == [] then []
    else
      var last := Last(requests);
      AttemptsOf(name, Init(requests)) +
      (if !last.fails && SASL_USERNAME in last.attrs && last.attrs[SASL_USERNAME] == name then [last.at] else [])
  }

  // ------------------------------------------------ rows against history

  type Counters = map<(nat, int), nat>
  type Buckets = map<nat, Bucket>

  function CounterOf(counters: Counters, id: nat, w: int): nat {
    if (id, w) in counters then counters[(id, w)] else 0
  }

  /** The bucket row is the ideal bucket as it stood at the row's refill time. */
  ghost predicate BucketFits(buckets: Buckets, id: nat, perHour: nat, burst: nat, permits: seq<int>, clock: int) {
    if id in buckets then
      && (permits != [] ==> Last(permits) <= buckets[id].lastRefillAt)
      && buckets[id].lastRefillAt <= clock
      && buckets[id].tokens == Level(perHour, burst, permits, buckets[id].lastRefillAt)
      && 0 <= buckets[id].tokens <= burst * HOUR
    else
      permits == []
  }

  /** The counter rows of the current hour and of all later ones count the permits. */
  ghost predicate CountersFit(counters: Counters, id: nat, permits: seq<int>, clock: int) {
    forall w :: WindowStart(clock) <= w && w % HOUR == 0 ==>
      CounterOf(counters, id, w) == CountIn(permits, w, w + HOUR)
  }

  ghost predicate StreakFits(user: LocalUser, log: seq<Entry>) {
    match StreakOf(log)
    case None => user.streakSince.None? && user.streakLatest.None?
    case Some(streak) => user.streakSince == Some(streak.since) && user.streakLatest == Some(streak.latest)
  }

  ghost predicate Fits(user: LocalUser, counters: Counters, buckets: Buckets, log: seq<Entry>, clock: int) {
    && InOrder(log)
    && (forall e :: e in log ==> e.at <= clock)
    && (user.burst.Some? ==> user.perHour.Some?)
    && StreakFits(user, log)
    && CountersFit(counters, user.id, PermitTimes(log), clock)
    && (user.burst.Some? ==>
          BucketFits(buckets, user.id, user.perHour.value, user.burst.value, PermitTimes(log), clock))
  }

  /** Rows of other users, rows of past hours and the passing of time do not matter. */
  lemma StillFits(user: LocalUser, log: seq<Entry>, counters: Counters, buckets: Buckets, clock: int,
                  counters': Counters, buckets': Buckets, clock': int)
    requires Fits(user, counters, buckets, log, clock) && clock <= clock'
    requires forall w: int :: WindowStart(clock') <= w ==> CounterOf(counters', user.id, w) == CounterOf(counters, user.id, w)
    requires user.id in buckets <==> user.id in buckets'
    requires user.id in buckets ==> buckets'[user.id] == buckets[user.id]
    ensures Fits(user, counters', buckets', log, clock')
  {
    assert WindowStart(clock) <= WindowStart(clock');
  }

  lemma {:induction false} PermitTimesBounded(log: seq<Entry>, clock: int)
    requires forall e :: e in log ==> e.at <= clock
    ensures forall t :: t in PermitTimes(log) ==> t <= clock
  {
    if log != [] {
      assert log[|log| - 1] in log;
      PermitTimesBounded(Init(log), clock);
    }
  }

  /** Letting a message through: one more is counted in the current hour. */
  lemma CountersAfterPermit(counters: Counters, id: nat, permits: seq<int>, now: int, counters': Counters)
    requires CountersFit(counters, id, permits, now)
    requires counters' == counters[(id, WindowStart(now)) := CounterOf(counters, id, WindowStart(now)) + 1]
    ensures CountersFit(counters', id, permits + [now], now)
  {
    assert Init(permits + [now]) == permits;
    forall w | WindowStart(now) <= w && w % HOUR == 0
      ensures CounterOf(counters', id, w) == CountIn(permits + [now], w, w + HOUR)
    {
      assert CounterOf(counters, id, w) == CountIn(permits, w, w + HOUR);
      if w <= now {
        WindowStartIsUnique(now, w);
      }
    }
  }

  lemma LevelAfterPermit(perHour: nat, burst: nat, permits: seq<int>, now: int)
    requires Level(perHour, burst, permits, now) >= HOUR
    ensures Level(perHour, burst, permits + [now], now) == Level(perHour, burst, permits, now) - HOUR
    ensures Level(perHour, burst, permits, now) <= burst * HOUR
  {
    assert Init(permits + [now]) == permits;
    LevelAdvances(perHour, burst, permits, now, now);
    RefillIsMonotone(perHour, 0, 0);
  }

  lemma LogGrows(log: seq<Entry>, entry: Entry)
    requires InOrder(log) && forall e :: e in log ==> e.at <= entry.at
    ensures InOrder(log + [entry]) && forall e :: e in log + [entry] ==> e.at <= entry.at
    ensures !entry.Defer? ==> StreakOf(log + [entry]) == None
    ensures PermitTimes(log + [entry]) == PermitTimes(log) + (if entry.Permit? then [entry.at] else [])
  {
    assert Init(log + [entry]) == log;
    forall i | 0 <= i < |log| ensures log[i].at <= entry.at {
      assert log[i] in log;
    }
  }

  lemma BucketAfterPermit(id: nat, perHour: nat, burst: nat, permits: seq<int>, now: int, buckets': Buckets)
    requires Level(perHour, burst, permits, now) >= HOUR
    requires id in buckets' && buckets'[id] == Bucket(Level(perHour, burst, permits, now) - HOUR, now)
    ensures BucketFits(buckets', id, perHour, burst, permits + [now], now)
  {
    LevelAfterPermit(perHour, burst, permits, now);
  }

  lemma PermitFits(user: LocalUser, log: seq<Entry>, now: int, counters: Counters, buckets: Buckets, level: int,
                   counters': Counters, buckets': Buckets)
    requires Fits(user, counters, buckets, log, now) && user.perHour.Some?
    requires counters' == counters[(user.id, WindowStart(now)) := CounterOf(counters, user.id, WindowStart(now)) + 1]
    requires user.burst.Some? ==>
               && level == Level(user.perHour.value, user.burst.value, PermitTimes(log), now) >= HOUR
               && buckets' == buckets[user.id := Bucket(level - HOUR, now)]
    ensures Fits(user.(streakSince := None, streakLatest := None), counters', buckets', log + [Permit(now)], now)
  {
    hide Level, CountIn, StreakOf, PermitTimes, DeferStreak.InOrder;
    LogGrows(log, Permit(now));
    CountersAfterPermit(counters, user.id, PermitTimes(log), now, counters');
    if user.burst.Some? {
      BucketAfterPermit(user.id, user.perHour.value, user.burst.value, PermitTimes(log), now, buckets');
    }
  }

  /** Deferring: nothing is counted or spent, and the streak starts or goes on. */
  lemma DeferFits(user: LocalUser, log: seq<Entry>, now: int, counters: Counters, buckets: Buckets, level: int,
                  buckets': Buckets, since: Option<int>)
    requires Fits(user, counters, buckets, log, now) && user.perHour.Some?
    requires user.burst.Some? ==>
               && level == Level(user.perHour.value, user.burst.value, PermitTimes(log), now)
               && 0 <= level <= user.burst.value * HOUR
               && buckets' == buckets[user.id := Bucket(level, now)]
    requires since == if user.streakSince.None? || user.streakLatest.None? || now - user.streakLatest.value > GAP
                      then Some(now) else user.streakSince
    ensures Fits(user.(streakSince := since, streakLatest := Some(now)), counters, buckets', log + [Defer(now)], now)
  {
    hide Level, CountIn;
    LogGrows(log, Defer(now));
    PermitTimesBounded(log, now);
    assert PermitTimes(log) + [] == PermitTimes(log);
  }

  /** Creating a missing counter row at zero or a missing bucket row full changes nothing. */
  lemma DefaultRowsFit(user: LocalUser, log: seq<Entry>, now: int, counters: Counters, buckets: Buckets,
                       counters': Counters, buckets': Buckets)
    requires Fits(user, counters, buckets, log, now)
    requires forall w: int :: CounterOf(counters', user.id, w) == CounterOf(counters, user.id, w)
    requires buckets' == buckets ||
             (user.id !in buckets && user.burst.Some? && buckets' == buckets[user.id := Bucket(user.burst.value * HOUR, now)])
    ensures Fits(user, counters', buckets', log, now)
  {
    hide CountIn;
  }

  /** The bucket row of a user, or the full one that stands for a missing row. */
  function RowOrFull(buckets: Buckets, id: nat, burst: nat, now: int): Bucket {
    if id in buckets then buckets[id] else Bucket(burst * HOUR, now)
  }

  /** The lazy refill of a row is the level of the ideal bucket, and the hour's counter
      row is the number of permits in that hour. */
  lemma RowsAreIdeal(user: LocalUser, log: seq<Entry>, counters: Counters, buckets: Buckets, clock: int, now: int)
    requires Fits(user, counters, buckets, log, clock) && clock <= now
    ensures CounterOf(counters, user.id, WindowStart(now))
         == CountIn(PermitTimes(log), WindowStart(now), WindowStart(now) + HOUR)
    ensures user.burst.Some? ==>
              var tokens := Refilled(RowOrFull(buckets, user.id, user.burst.value, now), user.burst.value, user.perHour.value, now);
              && tokens == Level(user.perHour.value, user.burst.value, PermitTimes(log), now)
              && 0 <= tokens <= user.burst.value * HOUR
  {
    hide Level, CountIn;
    assert WindowStart(clock) <= WindowStart(now);
    if user.burst.Some? {
      var bucket := RowOrFull(buckets, user.id, user.burst.value, now);
      LevelOfFull(user.perHour.value, user.burst.value, now);
      RefillIsIdeal(bucket, user.perHour.value, user.burst.value, PermitTimes(log), now);
    }
  }

  lemma LevelOfFull(perHour: nat, burst: nat, now: int)
    ensures Level(perHour, burst, [], now) == burst * HOUR >= 0
  {
  }

  lemma RefillIsIdeal(bucket: Bucket, perHour: nat, burst: nat, permits: seq<int>, now: int)
    requires bucket.lastRefillAt <= now
    requires bucket.tokens == Level(perHour, burst, permits, bucket.lastRefillAt) >= 0
    ensures Refilled(bucket, burst, perHour, now) == Level(perHour, burst, permits, now)
    ensures 0 <= Refilled(bucket, burst, perHour, now) <= burst * HOUR
  {
    LevelAdvances(perHour, burst, permits, bucket.lastRefillAt, now);
    RefillIsMonotone(perHour, 0, now - bucket.lastRefillAt);
  }

  type Users = map<string, LocalUser>
  type Logs = map<nat, seq<Entry>>

  ghost predicate DistinctIds(users: Users) {
    forall a, b :: a in users && b in users && a != b ==> users[a].id != users[b].id
  }

  ghost predicate AllFit(users: Users, counters: Counters, buckets: Buckets, log: Logs, clock: int) {
    forall name :: name in users ==>
      users[name].id in log && Fits(users[name], counters, buckets, log[users[name].id], clock)
  }

  lemma TimePasses(users: Users, counters: Counters, buckets: Buckets, log: Logs, clock: int, now: int)
    requires AllFit(users, counters, buckets, log, clock) && clock <= now
    ensures AllFit(users, counters, buckets, log, now)
  {
    forall name | name in users ensures Fits(users[name], counters, buckets, log[users[name].id], now) {
      StillFits(users[name], log[users[name].id], counters, buckets, clock, counters, buckets, now);
    }
  }

  /** A step that writes only one user's rows keeps every user's rows in step. */
  lemma OneUserStep(users: Users, counters: Counters, buckets: Buckets, log: Logs, now: int, name: string,
                    user': LocalUser, counters': Counters, buckets': Buckets, log': Logs)
    requires DistinctIds(users) && AllFit(users, counters, buckets, log, now)
    requires name in users && user'.id == users[name].id
    requires forall i: nat, w: int :: i != user'.id ==> CounterOf(counters', i, w) == CounterOf(counters, i, w)
    requires buckets' - {user'.id} == buckets - {user'.id} && log' - {user'.id} == log - {user'.id}
    requires user'.id in log' && Fits(user', counters', buckets', log'[user'.id], now)
    ensures DistinctIds(users[name := user']) && AllFit(users[name := user'], counters', buckets', log', now)
  {
    forall other | other in users && other != name
      ensures users[other].id in log' && Fits(users[other], counters', buckets', log'[users[other].id], now)
    {
      var id := users[other].id;
      assert id in log - {user'.id} && log'[id] == (log' - {user'.id})[id];
      assert id in buckets <==> id in buckets - {user'.id};
      assert id in buckets' <==> id in buckets' - {user'.id};
      StillFits(users[other], log[id], counters, buckets, now, counters', buckets', now);
    }
  }

  /** Two user tables that differ at most in the columns the limiter itself writes. */
  ghost predicate SameConfiguration(users: Users, users': Users) {
    && users.Keys == users'.Keys
    && forall name :: name in users ==>
         users'[name] == users[name].(streakSince := users'[name].streakSince, streakLatest := users'[name].streakLatest)
  }

  ghost predicate SameLimits(users: Users, users': Users) {
    && users.Keys == users'.Keys
    && forall name :: name in users ==>
         users'[name].id == users[name].id && users'[name].perHour == users[name].perHour && users'[name].burst == users[name].burst
  }

  /** Every user's permits so far are ones the limits allowed. */
  ghost predicate AllLegal(users: Users, log: Logs) {
    forall name :: name in users && users[name].perHour.Some? ==>
      users[name].id in log && Legal(LimitsFor(users[name]), PermitTimes(log[users[name].id]))
  }

  function LimitsFor(user: LocalUser): Limits
    requires user.perHour.Some?
  {
    Limits(user.perHour.value, user.burst)
  }

  lemma FitsInOrder(users: Users, counters: Counters, buckets: Buckets, log: Logs, clock: int, name: string)
    requires AllFit(users, counters, buckets, log, clock) && name in users
    ensures users[name].id in log && InOrder(log[users[name].id]) && forall e :: e in log[users[name].id] ==> e.at <= clock
  {
    hide CountersFit, BucketFits, StreakFits, DeferStreak.InOrder;
    assert Fits(users[name], counters, buckets, log[users[name].id], clock);
  }

  lemma StaysLegal(users: Users, log: Logs, users': Users, name: string, entry: Entry)
    requires DistinctIds(users) && AllLegal(users, log) && SameLimits(users, users') && name in users && users[name].id in log
    requires InOrder(log[users[name].id]) && forall e :: e in log[users[name].id] ==> e.at <= entry.at
    requires entry.Permit? ==>
               users[name].perHour.Some? && Allows(LimitsFor(users[name]), PermitTimes(log[users[name].id]), entry.at)
    ensures AllLegal(users', log[users[name].id := log[users[name].id] + [entry]])
  {
    hide Allows, Legal, DeferStreak.InOrder, PermitTimes;
    var id := users[name].id;
    var earlier := PermitTimes(log[id]);
    LogGrows(log[id], entry);
    PermitTimesBounded(log[id], entry.at);
    if entry.Permit? {
      assert earlier != [] ==> Last(earlier) in earlier;
      LegalExtend(LimitsFor(users[name]), earlier, entry.at);
    }
    assert earlier + [] == earlier;
  }

  lemma DeferStep(users: Users, counters: Counters, buckets: Buckets, log: Logs, name: string, now: int,
                  tokensAfter: int, since: Option<int>, buckets': Buckets)
    requires DistinctIds(users) && AllFit(users, counters, buckets, log, now)
    requires name in users && users[name].perHour.Some?
    requires users[name].burst.None? ==> buckets' == buckets
    requires users[name].burst.Some? ==>
               && tokensAfter == Level(users[name].perHour.value, users[name].burst.value, PermitTimes(log[users[name].id]), now)
               && 0 <= tokensAfter <= users[name].burst.value * HOUR
               && buckets' == buckets[users[name].id := Bucket(tokensAfter, now)]
    requires since == if users[name].streakSince.None? || users[name].streakLatest.None? ||
                         now - users[name].streakLatest.value > GAP
                      then Some(now) else users[name].streakSince
    ensures var user := users[name];
            var users' := users[name := user.(streakSince := since, streakLatest := Some(now))];
            && DistinctIds(users') && SameConfiguration(users, users')
            && AllFit(users', counters, buckets', log[user.id := log[user.id] + [Defer(now)]], now)
  {
    hide Level, CountIn, Fits;
    var user := users[name];
    var user' := user.(streakSince := since, streakLatest := Some(now));
    DeferFits(user, log[user.id], now, counters, buckets, tokensAfter, buckets', since);
    var log' := log[user.id := log[user.id] + [Defer(now)]];
    OneUserStep(users, counters, buckets, log, now, name, user', counters, buckets', log');
  }

  lemma PermitStep(users: Users, counters: Counters, buckets: Buckets, log: Logs, name: string, now: int,
                   counters': Counters, buckets': Buckets)
    requires DistinctIds(users) && AllFit(users, counters, buckets, log, now)
    requires name in users && users[name].perHour.Some?
    requires users[name].burst.None? ==> buckets' == buckets
    requires users[name].burst.Some? ==>
               var level := Level(users[name].perHour.value, users[name].burst.value, PermitTimes(log[users[name].id]), now);
               level >= HOUR && buckets' == buckets[users[name].id := Bucket(level - HOUR, now)]
    requires var window := (users[name].id, WindowStart(now));
             counters' == counters[window := CounterOf(counters, window.0, window.1) + 1]
    ensures var user := users[name];
            var users' := users[name := user.(streakSince := None, streakLatest := None)];
            && DistinctIds(users') && SameConfiguration(users, users')
            && AllFit(users', counters', buckets', log[user.id := log[user.id] + [Permit(now)]], now)
  {
    hide Level, CountIn, Fits;
    var user := users[name];
    var user' := user.(streakSince := None, streakLatest := None);
    var level := if user.burst.Some? then Level(user.perHour.value, user.burst.value, PermitTimes(log[user.id]), now) else 0;
    PermitFits(user, log[user.id], now, counters, buckets, level, counters', buckets');
    var log' := log[user.id := log[user.id] + [Permit(now)]];
    OneUserStep(users, counters, buckets, log, now, name, user', counters', buckets', log');
  }

  /** The requests so far have been answered as the spec predicts. */
  ghost predicate Answered(users: Users, log: Logs, requests: seq<Request>, verdicts: seq<Verdict>) {
    && |verdicts| == |requests|
    && (forall i :: 0 <= i < |requests| && ConcernsNobody(users, requests[i]) ==> verdicts[i].Dunno?)
    && (forall i, name :: 0 <= i < |requests| && Concerns(users, requests[i], name) ==>
          && users[name].id in log
          && verdicts[i] == VerdictAt(Limits(users[name].perHour.value, users[name].burst),
                                      Predicted(users, log, name, requests[..i]), requests[i].at))
  }

  lemma AnsweredNext(users: Users, log: Logs, earlier: seq<Request>, verdicts: seq<Verdict>, request: Request, verdict: Verdict)
    requires Answered(users, log, earlier, verdicts)
    requires ConcernsNobody(users, request) ==> verdict.Dunno?
    requires forall name :: Concerns(users, request, name) ==>
               && users[name].id in log
               && verdict == VerdictAt(Limits(users[name].perHour.value, users[name].burst),
                                       Predicted(users, log, name, earlier), request.at)
    ensures Answered(users, log, earlier + [request], verdicts + [verdict])
  {
    hide Predicted, VerdictAt;
    var all := earlier + [request];
    assert all[..|earlier|] == earlier;
    forall i | 0 <= i < |earlier| ensures all[i] == earlier[i] && all[..i] == earlier[..i] {
    }
  }

  /** What the spec predicts for one user after some requests, starting from the given tables. */
  ghost function Predicted(users: Users, log: Logs, name: string, requests: seq<Request>): seq<int>
    requires name in users && users[name].perHour.Some? && users[name].id in log
  {
    PermitsFrom(Limits(users[name].perHour.value, users[name].burst), PermitTimes(log[users[name].id]), AttemptsOf(name, requests))
  }

  /** The user a request is about, if evaluating it gets as far as a limit. */
  ghost predicate Concerns(users: Users, request: Request, name: string) {
    && !request.fails && SASL_USERNAME in request.attrs && request.attrs[SASL_USERNAME] == name
    && name != "" && name in users && users[name].perHour.Some?
  }

  /** Requests that raise, name no user, or name one without a limit. */
  ghost predicate ConcernsNobody(users: Users, request: Request) {
    forall name :: !Concerns(users, request, name)
  }

  ghost predicate Predicts(users: Users, log: Logs, requests: seq<Request>, users': Users, log': Logs) {
    forall name :: name in users && users[name].perHour.Some? && name != "" ==>
      && name in users' && users'[name].id == users[name].id
      && users[name].id in log && users[name].id in log'
      && PermitTimes(log'[users[name].id]) == Predicted(users, log, name, requests)
  }

  lemma AnsweredNone(users: Users, log: Logs)
    requires forall name :: name in users ==> users[name].id in log
    ensures Predicts(users, log, [], users, log) && Answered(users, log, [], [])
  {
  }

  /** The spec's prediction advances with the history, one request at a time. */
  lemma PredictionAdvances(users: Users, log: Logs, earlier: seq<Request>, request: Request,
                           users1: Users, log1: Logs, users2: Users, log2: Logs, verdict: Verdict)
    requires DistinctIds(users) && SameConfiguration(users, users1) && SameConfiguration(users1, users2)
    requires Predicts(users, log, earlier, users1, log1)
    requires ConcernsNobody(users, request) ==> log2 == log1
    requires forall name :: Concerns(users, request, name) ==>
               var user := users1[name];
               && user.id in log1
               && verdict == VerdictAt(Limits(user.perHour.value, user.burst), PermitTimes(log1[user.id]), request.at)
               && log2 == log1[user.id := log1[user.id] + [if verdict.Dunno? then Permit(request.at) else Defer(request.at)]]
    ensures Predicts(users, log, earlier + [request], users2, log2)
    ensures forall name :: Concerns(users, request, name) ==>
              && users[name].id in log
              && verdict == VerdictAt(Limits(users[name].perHour.value, users[name].burst),
                                      Predicted(users, log, name, earlier), request.at)
  {
    hide Level, CountIn, HourlyOk, BurstOk, PermitsFrom, AttemptsOf, PermitTimes;
    forall name | name in users && users[name].perHour.Some? && name != ""
      ensures users[name].id in log2 && PermitTimes(log2[users[name].id]) == Predicted(users, log, name, earlier + [request])
    {
      assert users1[name].id == users[name].id;
      AttemptsGrow(name, earlier, request);
      if Concerns(users, request, name) {
        var limits := LimitsFor(users[name]);
        PredictedGrows(limits, PermitTimes(log[users[name].id]), AttemptsOf(name, earlier), request.at);
        EntryDecided(log1[users[name].id], request.at, verdict.Dunno?);
      } else if other :| Concerns(users, request, other) {
        assert users1[other].id == users[other].id;
      }
    }
  }

  lemma AttemptsGrow(name: string, earlier: seq<Request>, request: Request)
    ensures AttemptsOf(name, earlier + [request]) ==
              if !request.fails && SASL_USERNAME in request.attrs && request.attrs[SASL_USERNAME] == name
              then AttemptsOf(name, earlier) + [request.at] else AttemptsOf(name, earlier)
  {
    assert Init(earlier + [request]) == earlier && Last(earlier + [request]) == request;
  }

  lemma PredictedGrows(limits: Limits, start: seq<int>, attempts: seq<int>, t: int)
    ensures PermitsFrom(limits, start, attempts + [t]) ==
              var before := PermitsFrom(limits, start, attempts);
              if Allows(limits, before, t) then before + [t] else before
  {
    hide Allows;
    assert Init(attempts + [t]) == attempts && Last(attempts + [t]) == t;
  }

  lemma EntryDecided(log: seq<Entry>, t: int, permitted: bool)
    ensures PermitTimes(log + [if permitted then Permit(t) else Defer(t)]) ==
              if permitted then PermitTimes(log) + [t] else PermitTimes(log)
  {
    assert Init(log + [if permitted then Permit(t) else Defer(t)]) == log;
  }

  lemma {:induction false} AttemptsInOrder(name: string, requests: seq<Request>)
    requires forall i, j :: 0 <= i < j < |requests| ==> requests[i].at <= requests[j].at
    ensures Ordered(AttemptsOf(name, requests))
    ensures forall t :: t in AttemptsOf(name, requests) ==> requests != [] && t <= Last(requests).at
  {
    if requests != [] {
      AttemptsInOrder(name, Init(requests));
      var earlier := AttemptsOf(name, Init(requests));
      forall i | 0 <= i < |earlier| ensures earlier[i] <= Last(requests).at {
        assert earlier[i] in earlier;
      }
    }
  }

  lemma PredictedInOrder(start: seq<int>, attempts: seq<int>, clock: int)
    requires Ordered(start) && Ordered(attempts)
    requires (forall t :: t in start ==> t <= clock) && (forall t :: t in attempts ==> clock <= t)
    ensures Ordered(start + attempts)
  {
    forall i, j | 0 <= i < j < |start + attempts| ensures (start + attempts)[i] <= (start + attempts)[j] {
      assert i < |start| ==> start[i] in start;
      assert j >= |start| ==> attempts[j - |start|] in attempts;
    }
  }

  lemma {:induction false} AttemptsAfter(name: string, requests: seq<Request>, clock: int)
    requires forall i :: 0 <= i < |requests| ==> clock <= requests[i].at
    ensures forall t :: t in AttemptsOf(name, requests) ==> clock <= t
  {
    if requests != [] {
      AttemptsAfter(name, Init(requests), clock);
      assert Last(requests) == requests[|requests| - 1];
    }
  }

  /** What a connection lets through keeps every bound for every user, whatever else arrives
      on it and whatever came before it. */
  lemma ServedWithinBounds(users: Users, log: Logs, clock: int, requests: seq<Request>, users': Users, log': Logs,
                           name: string, s: int, t: int)
    requires Predicts(users, log, requests, users', log') && AllLegal(users, log)
    requires forall i :: 0 <= i < |requests| ==> clock <= requests[i].at
    requires forall i, j :: 0 <= i < j < |requests| ==> requests[i].at <= requests[j].at
    requires name in users && name != "" && users[name].perHour.Some? && s <= t
    requires forall e :: e in log[users[name].id] ==> e.at <= clock
    ensures WithinBounds(LimitsFor(users[name]), PermitTimes(log'[users[name].id]), s, t)
  {
    hide WithinBounds, Allows;
    var start := PermitTimes(log[users[name].id]);
    AttemptsInOrder(name, requests);
    AttemptsAfter(name, requests, clock);
    PermitTimesBounded(log[users[name].id], clock);
    PredictedInOrder(start, AttemptsOf(name, requests), clock);
    RunBounds(LimitsFor(users[name]), start, AttemptsOf(name, requests), s, t);
  }

  /** Whether a user is enabled does not matter to the limiter. */
  lemma SetEnabledFits(users: Users, counters: Counters, buckets: Buckets, log: Logs, clock: int, name: string, enabled: bool)
    requires DistinctIds(users) && AllFit(users, counters, buckets, log, clock) && name in users
    ensures var users' := users[name := users[name].(enabled := enabled)];
            DistinctIds(users') && AllFit(users', counters, buckets, log, clock) && (AllLegal(users, log) ==> AllLegal(users', log))
  {
    var user, user' := users[name], users[name].(enabled := enabled);
    assert Fits(user', counters, buckets, log[user.id], clock) by {
      hide Level, CountIn, StreakOf, PermitTimes, DeferStreak.InOrder;
    }
    hide Fits;
    OneUserStep(users, counters, buckets, log, clock, name, user', counters, buckets, log);
  }

  lemma ClearStep(users: Users, counters: Counters, buckets: Buckets, log: Logs, name: string, now: int)
    requires DistinctIds(users) && AllFit(users, counters, buckets, log, now) && name in users
    ensures var user := users[name];
            var users' := users[name := user.(enabled := true, streakSince := None, streakLatest := None)];
            && DistinctIds(users')
            && AllFit(users', counters, buckets, log[user.id := log[user.id] + [Cleared(now)]], now)
  {
    var user := users[name];
    var user' := user.(enabled := true, streakSince := None, streakLatest := None);
    assert Fits(user', counters, buckets, log[user.id] + [Cleared(now)], now) by {
      hide Level, CountIn, StreakOf, PermitTimes, DeferStreak.InOrder;
      LogGrows(log[user.id], Cleared(now));
      assert PermitTimes(log[user.id]) + [] == PermitTimes(log[user.id]);
    }
    hide Fits;
    OneUserStep(users, counters, buckets, log, now, name, user', counters, buckets, log[user.id := log[user.id] + [Cleared(now)]]);
  }

  /** The auto-disable query over the rows. */
  function CandidateRows(users: Users, cutoff: int, activeSince: int): set<string> {
    set name | name in users && users[name].enabled
               && users[name].streakSince.Some? && users[name].streakSince.value <= cutoff
               && users[name].streakLatest.Some? && users[name].streakLatest.value >= activeSince
  }

  /** The query selects by the history: throttled without a break across the whole threshold. */
  lemma CandidateRowsAreThrottled(users: Users, counters: Counters, buckets: Buckets, log: Logs, clock: int, cutoff: int, activeSince: int)
    requires AllFit(users, counters, buckets, log, clock)
    ensures forall name :: name in CandidateRows(users, cutoff, activeSince) <==>
              name in users && users[name].enabled && Throttled(StreakOf(log[users[name].id]), cutoff, activeSince)
    ensures forall name, e :: name in CandidateRows(users, cutoff, activeSince) && e in log[users[name].id] && !e.Defer? ==>
              e.at <= cutoff
  {
    hide Level, CountIn, StreakOf, PermitTimes, CountersFit, BucketFits;
    forall name | name in users
      ensures name in CandidateRows(users, cutoff, activeSince) <==>
              users[name].enabled && Throttled(StreakOf(log[users[name].id]), cutoff, activeSince)
      ensures name in CandidateRows(users, cutoff, activeSince) ==>
                forall e :: e in log[users[name].id] && !e.Defer? ==> e.at <= cutoff
    {
      var entries := log[users[name].id];
      assert Fits(users[name], counters, buckets, entries, clock);
      if name in CandidateRows(users, cutoff, activeSince) {
        var i := ThrottledMeansContinuously(entries, cutoff, activeSince);
        forall e | e in entries && !e.Defer? ensures e.at <= cutoff {
          var k :| 0 <= k < |entries| && entries[k] == e;
        }
      }
    }
  }

  // ---------------------------------------------------------- the service

  ghost predicate CleanupsSpaced(cleanups: seq<int>, lastRunAt: Option<int>) {
    && (cleanups != [] ==> lastRunAt.Some? && Last(cleanups) <= lastRunAt.value)
    && (forall i :: 0 < i < |cleanups| ==> cleanups[i] >= cleanups[i - 1] + CLEANUP_INTERVAL)
  }

  /** The counter rows of windows that started at the cutoff or later. */
  function Retained(counters: Counters, cutoff: int): Counters {
    map key | key in counters && key.1 >= cutoff :: counters[key]
  }

  lemma ExpiredAreTheRest(counters: Counters, cutoff: int)
    ensures var expired := set key | key in counters && key.1 < cutoff;
            && Retained(counters, cutoff) == (map key | key in counters && key !in expired :: counters[key])
            && |expired| == |counters| - |Retained(counters, cutoff)|
  {
    var expired := set key | key in counters && key.1 < cutoff;
    assert counters.Keys == Retained(counters, cutoff).Keys + expired;
  }

  /** No row that can still matter is removed by the cleanup. */
  lemma CleanupFits(users: Users, counters: Counters, counters': Counters, buckets: Buckets, log: Logs, clock: int, now: int)
    requires AllFit(users, counters, buckets, log, clock) && clock <= now
    requires counters' == Retained(counters, now - RETAIN)
    ensures AllFit(users, counters', buckets, log, now)
  {
    hide Fits;
    forall name | name in users ensures Fits(users[name], counters', buckets, log[users[name].id], now) {
      StillFits(users[name], log[users[name].id], counters, buckets, clock, counters', buckets, now);
    }
  }

  class LimiterStore {
    var users: map<string, LocalUser>
    var counters: map<(nat, int), nat>
    var buckets: map<nat, Bucket>
    var cleanupLastRunAt: Option<int>
    /** Per user id, everything that was decided and every clearing of the streak. */
    ghost var log: map<nat, seq<Entry>>
    ghost var clock: int
    /** When the cleanup ran, a day or more apart. */
    ghost var cleanups: seq<int>

    ghost predicate Valid()
      reads this
    {
      && DistinctIds(users) && AllFit(users, counters, buckets, log, clock) && AllLegal(users, log)
      && CleanupsSpaced(cleanups, cleanupLastRunAt)
    }

    ghost predicate Limited(name: string)
      reads this
    {
      name in users && users[name].perHour.Some?
    }

    ghost function LimitsOf(name: string): Limits
      requires Limited(name)
      reads this
    {
      LimitsFor(users[name])
    }

    ghost function LogOf(name: string): seq<Entry>
      requires Valid() && name in users
      reads this
    {
      log[users[name].id]
    }

    ghost function PermitsOf(name: string): seq<int>
      requires Valid() && name in users
      reads this
    {
      PermitTimes(LogOf(name))
    }

    /** A database in which nothing has been limited yet. */
    constructor (users: map<string, LocalUser>, now: int)
      requires DistinctIds(users)
      requires forall name :: name in users ==>
                 users[name].streakSince.None? && users[name].streakLatest.None? &&
                 (users[name].burst.Some? ==> users[name].perHour.Some?)
      ensures Valid() && this.users == users && clock == now
      ensures forall name :: name in users ==> LogOf(name) == []
    {
      this.users := users;
      counters, buckets, cleanupLastRunAt := map[], map[], None;
      ghost var ids := set name | name in users :: users[name].id;
      log := map id | id in ids :: [];
      clock, cleanups := now, [];
    }

    /** One end-of-data check. The verdict depends on nothing but this user's permits so
        far, and the history grows by exactly this decision. */
    method Evaluate(attrs: map<string, string>, now: int) returns (verdict: Verdict)
      requires Valid() && clock <= now
      modifies this`users, this`counters, this`buckets, this`log, this`clock
      ensures Valid() && clock == now
      ensures SameConfiguration(old(users), users)
      ensures var name := if SASL_USERNAME in attrs then attrs[SASL_USERNAME] else "";
              if name == "" || !old(Limited(name)) then
                verdict == Dunno && log == old(log)
              else
                && verdict == VerdictAt(old(LimitsOf(name)), old(PermitsOf(name)), now)
                && (verdict == HourlyDefer(old(LimitsOf(name)).perHour) <==> !HourlyOk(old(LimitsOf(name)), old(PermitsOf(name)), now))
                && (verdict.Dunno? <==> Allows(old(LimitsOf(name)), old(PermitsOf(name)), now))
                && log == old(log)[old(users)[name].id := old(LogOf(name)) + [if verdict.Dunno? then Permit(now) else Defer(now)]]
    {
      hide Level, CountIn, Fits, CleanupsSpaced;
      TimePasses(users, counters, buckets, log, clock, now);
      clock := now;
      if SASL_USERNAME !in attrs || attrs[SASL_USERNAME] == "" {
        return Dunno;
      }
      var name := attrs[SASL_USERNAME];
      if name !in users || users[name].perHour.None? {
        return Dunno;
      }
      var hourlyOk, burstOk, tokensAfter := CheckLimits(name, now);
      if !hourlyOk || !burstOk {
        RecordDefer(name, now, tokensAfter);
        if !hourlyOk {
          return HourlyDefer(users[name].perHour.value);
        }
        return BurstDefer;
      }
      RecordPermit(name, now, tokensAfter);
      return Dunno;
    }

    /** Reads this hour's counter and the refilled bucket, creating either row if missing. */
    method CheckLimits(name: string, now: int) returns (hourlyOk: bool, burstOk: bool, tokensAfter: int)
      requires Valid() && clock == now && Limited(name)
      modifies this`counters, this`buckets
      ensures Valid()
      ensures hourlyOk == HourlyOk(LimitsOf(name), PermitsOf(name), now)
      ensures burstOk == BurstOk(LimitsOf(name), PermitsOf(name), now)
      ensures (users[name].id, WindowStart(now)) in counters
      ensures users[name].burst.Some? ==>
                && tokensAfter == Level(users[name].perHour.value, users[name].burst.value, PermitsOf(name), now)
                && 0 <= tokensAfter <= users[name].burst.value * HOUR
    {
      hide Level, CountIn, Fits, CleanupsSpaced;
      ghost var counters0, buckets0 := counters, buckets;
      var user := users[name];
      var perHour := user.perHour.value;
      RowsAreIdeal(user, log[user.id], counters, buckets, now, now);

      var windowStart := WindowStart(now);
      if (user.id, windowStart) !in counters {
        counters := counters[(user.id, windowStart) := 0];
      }
      hourlyOk := counters[(user.id, windowStart)] < perHour;

      tokensAfter := 0;
      burstOk := true;
      if user.burst.Some? {
        if user.id !in buckets {
          buckets := buckets[user.id := Bucket(user.burst.value * HOUR, now)];
        }
        tokensAfter := Refilled(buckets[user.id], user.burst.value, perHour, now);
        burstOk := tokensAfter >= HOUR;
      }
      DefaultRowsFit(user, log[user.id], now, counters0, buckets0, counters, buckets);
      assert users[name := user] == users;
      OneUserStep(users, counters0, buckets0, log, now, name, user, counters, buckets, log);
    }

    /** Deferring: the refill is kept, nothing is spent, the streak starts or goes on. */
    method RecordDefer(name: string, now: int, tokensAfter: int)
      requires Valid() && clock == now && Limited(name)
      requires users[name].burst.Some? ==>
                 && tokensAfter == Level(users[name].perHour.value, users[name].burst.value, PermitsOf(name), now)
                 && 0 <= tokensAfter <= users[name].burst.value * HOUR
      modifies this`users, this`buckets, this`log
      ensures Valid() && SameConfiguration(old(users), users)
      ensures log == old(log)[old(users)[name].id := old(LogOf(name)) + [Defer(now)]]
    {
      hide Level, CountIn, Fits, CleanupsSpaced;
      ghost var users0, buckets0 := users, buckets;
      var user := users[name];
      if user.burst.Some? {
        buckets := buckets[user.id := Bucket(tokensAfter, now)];
      }
      var since := if user.streakSince.None? || user.streakLatest.None? || now - user.streakLatest.value > GAP
                   then Some(now) else user.streakSince;
      DeferStep(users0, counters, buckets0, log, name, now, tokensAfter, since, buckets);
      FitsInOrder(users, counters, buckets0, log, now, name);
      StaysLegal(users, log, users[name := user.(streakSince := since, streakLatest := Some(now))], name, Defer(now));
      users := users[name := user.(streakSince := since, streakLatest := Some(now))];
      log := log[user.id := log[user.id] + [Defer(now)]];
    }

    /** Letting through: one more counted this hour, one token spent, the streak over. */
    method RecordPermit(name: string, now: int, tokensAfter: int)
      requires Valid() && clock == now && Limited(name)
      requires (users[name].id, WindowStart(now)) in counters
      requires Allows(LimitsOf(name), PermitsOf(name), now)
      requires users[name].burst.Some? ==>
                 tokensAfter == Level(users[name].perHour.value, users[name].burst.value, PermitsOf(name), now) >= HOUR
      modifies this`users, this`counters, this`buckets, this`log
      ensures Valid() && SameConfiguration(old(users), users)
      ensures log == old(log)[old(users)[name].id := old(LogOf(name)) + [Permit(now)]]
    {
      hide Level, CountIn, Fits, CleanupsSpaced;
      ghost var counters0, buckets0 := counters, buckets;
      var user := users[name];
      var window := (user.id, WindowStart(now));
      counters := counters[window := counters[window] + 1];
      if user.burst.Some? {
        buckets := buckets[user.id := Bucket(tokensAfter - HOUR, now)];
      }
      PermitStep(users, counters0, buckets0, log, name, now, counters, buckets);
      FitsInOrder(users, counters0, buckets0, log, now, name);
      StaysLegal(users, log, users[name := user.(streakSince := None, streakLatest := None)], name, Permit(now));
      users := users[name := user.(streakSince := None, streakLatest := None)];
      log := log[user.id := log[user.id] + [Permit(now)]];
    }

    /** A connection's request loop. Each answer is what the permits of that user alone
        call for; a request whose evaluation raises is let through and leaves no trace. */
    method HandleConnection(requests: seq<Request>) returns (verdicts: seq<Verdict>)
      requires Valid()
      requires forall i :: 0 <= i < |requests| ==> clock <= requests[i].at
      requires forall i, j :: 0 <= i < j < |requests| ==> requests[i].at <= requests[j].at
      modifies this`users, this`counters, this`buckets, this`log, this`clock
      ensures Valid() && SameConfiguration(old(users), users)
      ensures Predicts(old(users), old(log), requests, users, log)
      ensures Answered(old(users), old(log), requests, verdicts)
    {
      hide Level, CountIn, Fits, HourlyOk, BurstOk, Predicts, Answered;
      ghost var users0, log0 := users, log;
      verdicts := [];
      AnsweredNone(users0, log0);
      for i := 0 to |requests|
        invariant Valid() && SameConfiguration(users0, users)
        invariant forall j :: i <= j < |requests| ==> clock <= requests[j].at
        invariant Predicts(users0, log0, requests[..i], users, log)
        invariant Answered(users0, log0, requests[..i], verdicts)
      {
        ghost var users1, log1 := users, log;
        var verdict := Dunno;
        if !requests[i].fails {
          verdict := Evaluate(requests[i].attrs, requests[i].at);
          if SASL_USERNAME in requests[i].attrs {
            ghost var name := requests[i].attrs[SASL_USERNAME];
            assert Concerns(users0, requests[i], name) <==> name != "" && name in users1 && users1[name].perHour.Some?;
          }
        }
        PredictionAdvances(users0, log0, requests[..i], requests[i], users1, log1, users, log, verdict);
        AnsweredNext(users0, log0, requests[..i], verdicts, requests[i], verdict);
        assert requests[..i + 1] == requests[..i] + [requests[i]];
        verdicts := verdicts + [verdict];
      }
      assert requests[..|requests|] == requests;
    }

    /** Deletes the counter rows of windows that started more than three hours ago. No
        decision and no read-out can depend on them. */
    method RunCleanup(now: int) returns (deleted: nat)
      requires Valid() && clock <= now
      modifies this`counters, this`clock
      ensures Valid() && clock == now
      ensures counters == Retained(old(counters), now - RETAIN)
      ensures deleted == |old(counters)| - |counters|
    {
      hide AllFit, AllLegal, DistinctIds, CleanupsSpaced, Retained;
      ghost var counters0 := counters;
      ExpiredAreTheRest(counters, now - RETAIN);
      var expired := set key | key in counters && key.1 < now - RETAIN;
      counters := map key | key in counters && key !in expired :: counters[key];
      deleted := |expired|;
      CleanupFits(users, counters0, counters, buckets, log, clock, now);
      clock := now;
    }

    /** The daily gate in front of the cleanup; the clock is read for the gate, for the
        cleanup and for the record of it. */
    method CleanupTick(now: int, cleanedAt: int, ranAt: int)
      requires Valid() && clock <= now <= cleanedAt <= ranAt
      modifies this`counters, this`clock, this`cleanupLastRunAt, this`cleanups
      ensures Valid()
      ensures if old(cleanupLastRunAt).Some? && now - old(cleanupLastRunAt).value < CLEANUP_INTERVAL
              then counters == old(counters) && cleanupLastRunAt == old(cleanupLastRunAt) && cleanups == old(cleanups)
              else
                && counters == Retained(old(counters), cleanedAt - RETAIN)
                && cleanupLastRunAt == Some(ranAt) && cleanups == old(cleanups) + [cleanedAt]
    {
      hide AllFit, AllLegal, DistinctIds, Retained;
      if cleanupLastRunAt.Some? && now - cleanupLastRunAt.value < CLEANUP_INTERVAL {
        TimePasses(users, counters, buckets, log, clock, now);
        clock := now;
        return;
      }
      var _ := RunCleanup(cleanedAt);
      cleanupLastRunAt := Some(ranAt);
      cleanups := cleanups + [cleanedAt];
    }

    /** The "sent this hour" read-out: the number of messages let through since the top
        of the hour, whichever rows the cleanup has removed. */
    method CurrentUsage(name: string, now: int) returns (used: nat)
      requires Valid() && clock <= now && name in users
      ensures used == CountIn(PermitsOf(name), WindowStart(now), WindowStart(now) + HOUR)
      ensures Limited(name) ==> (used < LimitsOf(name).perHour <==> HourlyOk(LimitsOf(name), PermitsOf(name), now))
    {
      RowsAreIdeal(users[name], LogOf(name), counters, buckets, clock, now);
      var key := (users[name].id, WindowStart(now));
      used := if key in counters then counters[key] else 0;
    }

    /** The "burst tokens available" read-out: the level of the ideal bucket. */
    method CurrentBurstTokens(name: string, now: int) returns (tokens: int)
      requires Valid() && clock <= now && Limited(name) && users[name].burst.Some?
      ensures tokens == Level(LimitsOf(name).perHour, LimitsOf(name).burst.value, PermitsOf(name), now)
      ensures 0 <= tokens <= LimitsOf(name).burst.value * HOUR
      ensures tokens >= HOUR <==> BurstOk(LimitsOf(name), PermitsOf(name), now)
    {
      RowsAreIdeal(users[name], LogOf(name), counters, buckets, clock, now);
      var user := users[name];
      if user.id !in buckets {
        return user.burst.value * HOUR;
      }
      tokens := Refilled(buckets[user.id], user.burst.value, user.perHour.value, now);
    }

    /** An administrator re-enabling a user starts with a clean slate. */
    method ClearStreakOnReEnable(name: string, now: int)
      requires Valid() && clock <= now && name in users
      modifies this`users, this`log, this`clock
      ensures Valid() && clock == now
      ensures users == old(users)[name := old(users)[name].(enabled := true, streakSince := None, streakLatest := None)]
      ensures log == old(log)[old(users)[name].id := old(LogOf(name)) + [Cleared(now)]]
    {
      hide Fits;
      TimePasses(users, counters, buckets, log, clock, now);
      clock := now;
      ClearStep(users, counters, buckets, log, name, now);
      FitsInOrder(users, counters, buckets, log, now, name);
      StaysLegal(users, log, users[name := users[name].(enabled := true, streakSince := None, streakLatest := None)], name, Cleared(now));
      var user := users[name];
      users := users[name := user.(enabled := true, streakSince := None, streakLatest := None)];
      log := log[user.id := log[user.id] + [Cleared(now)]];
    }

    /** The rows of a user that the auto-disable query selects, in terms of the history. */
    ghost predicate Candidate(name: string, cutoff: int, activeSince: int)
      requires Valid()
      reads this
    {
      name in users && users[name].enabled && Throttled(StreakOf(LogOf(name)), cutoff, activeSince)
    }

    /** The auto-disable tick; the clock is read once for each of the two limits of its
        query. Exactly the throttled users whose credential could be removed are disabled,
        and none of them had a message through, or was re-enabled, after the cutoff. */
    method RunAbuseDetection(autoDisable: bool, thresholdMinutes: nat, now: int, later: int, unreachable: set<string>)
      returns (disabled: seq<string>)
      requires Valid() && clock <= now <= later
      modifies this`users, this`clock
      ensures Valid() && clock == later
      ensures forall name :: name in disabled <==>
                autoDisable && name !in unreachable && old(Candidate(name, now - thresholdMinutes * MINUTE, later - GAP))
      ensures forall i, j :: 0 <= i < j < |disabled| ==> disabled[i] != disabled[j]
      ensures users == map name | name in old(users) :: old(users)[name].(enabled := old(users)[name].enabled && name !in disabled)
      ensures forall name, e :: name in disabled && name in old(users) && e in old(LogOf(name)) && !e.Defer? ==> e.at <= now - thresholdMinutes * MINUTE
    {
      hide AllFit, AllLegal, DistinctIds, StreakOf, CleanupsSpaced, Throttled;
      TimePasses(users, counters, buckets, log, clock, later);
      clock := later;
      disabled := [];
      if !autoDisable {
        return;
      }
      var cutoff := now - thresholdMinutes * MINUTE;
      var candidates := CandidateRows(users, cutoff, later - GAP);
      CandidateRowsAreThrottled(users, counters, buckets, log, clock, cutoff, later - GAP);
      hide CandidateRows;
      disabled := DisableReachable(candidates, unreachable);
    }

    /** The loop over the candidates: whose credential cannot be removed is left alone. */
    method DisableReachable(candidates: set<string>, unreachable: set<string>) returns (disabled: seq<string>)
      requires Valid() && candidates <= users.Keys
      modifies this`users
      ensures Valid()
      ensures forall name :: name in disabled <==> name in candidates && name !in unreachable
      ensures forall i, j :: 0 <= i < j < |disabled| ==> disabled[i] != disabled[j]
      ensures users == map name | name in old(users) :: old(users)[name].(enabled := old(users)[name].enabled && name !in disabled)
    {
      hide AllFit, AllLegal, DistinctIds, CleanupsSpaced;
      disabled := [];
      var rest := candidates;
      while rest != {}
        invariant Valid() && users.Keys == old(users).Keys && rest <= candidates
        invariant forall name :: name in disabled <==> name in candidates && name !in rest && name !in unreachable
        invariant forall i, j :: 0 <= i < j < |disabled| ==> disabled[i] != disabled[j]
        invariant forall name :: name in users ==>
                    users[name] == old(users)[name].(enabled := old(users)[name].enabled && name !in disabled)
        decreases rest
      {
        var name :| name in rest;
        rest := rest - {name};
        if name in unreachable {
          continue;
        }
        SetEnabledFits(users, counters, buckets, log, clock, name, false);
        users := users[name := users[name].(enabled := false)];
        disabled := disabled + [name];
      }
    }

    /** The users the alerts bell shows as throttled. For an enabled user that is exactly
        the auto-disable condition; a disabled user stays listed on the cutoff alone. */
    method ThrottledAlerts(thresholdMinutes: nat, now: int, later: int) returns (alerts: seq<string>)
      requires Valid() && clock <= now <= later
      ensures var cutoff := now - thresholdMinutes * MINUTE;
              && (forall name :: name in alerts && name in users && users[name].enabled <==> Candidate(name, cutoff, later - GAP))
              && (forall name :: name in alerts && !(name in users && users[name].enabled) <==>
                    name in users && !users[name].enabled && StreakOf(LogOf(name)).Some? && StreakOf(LogOf(name)).value.since <= cutoff)
    {
      hide Level, CountIn, StreakOf, PermitTimes, DeferStreak.InOrder;
      var cutoff := now - thresholdMinutes * MINUTE;
      var activeCutoff := later - GAP;
      var throttled := set name | name in users
                                  && users[name].streakSince.Some? && users[name].streakSince.value <= cutoff;
      assert forall name :: name in throttled <==>
               name in users && StreakOf(LogOf(name)).Some? && StreakOf(LogOf(name)).value.since <= cutoff;
      alerts := [];
      var rest := throttled;
      while rest != {}
        invariant rest <= throttled
        invariant forall name :: name in alerts <==>
                    && name in throttled && name !in rest
                    && (users[name].enabled ==> StreakOf(LogOf(name)).value.latest >= activeCutoff)
        decreases rest
      {
        var name :| name in rest;
        rest := rest - {name};
        assert Fits(users[name], counters, buckets, LogOf(name), clock);
        var latest := users[name].streakLatest;
        if users[name].enabled && (latest.None? || latest.value < activeCutoff) {
          continue;
        }
        alerts := alerts + [name];
      }
    }
  }

  /** The bounds of the limiter, for every user in every reachable state of the service,
      after any sequence of requests on any number of connections, cleanups, re-enables and
      auto-disables. */
  lemma EveryStateWithinBounds(store: LimiterStore, name: string, s: int, t: int)
    requires store.Valid() && store.Limited(name) && s <= t
    ensures WithinBounds(store.LimitsOf(name), store.PermitsOf(name), s, t)
  {
    hide WithinBounds, Fits;
    LegalBounds(store.LimitsOf(name), store.PermitsOf(name), s, t);
  }
}
