/**
 Login lockout: the threshold ladder evaluated over the recorded attempts, the login
 itself, and what the two together allow in any hour.
 */
module LoginLockout {
  import opened Prelude

  const SECOND: nat := 1_000_000
  const WINDOW: nat := 3600 * SECOND
  const ACCOUNT_WIDE_FACTOR: nat := 4
  const THRESHOLDS: seq<(nat, nat)> := [(5, 60), (10, 300), (15, 900)]

  /** A row of the audit log that records a login attempt; times are in microseconds. */
  datatype Audit = Audit(success: bool, admin: Option<nat>, ip: Option<string>, time: int)

  /** Whose failures a counter counts. */
  datatype Scope = AccountWide(id: nat) | AccountFrom(id: nat, ip: string) | UnknownFrom(ip: string)
  {
    function Factor(): nat {
      if AccountWide? then ACCOUNT_WIDE_FACTOR else 1
    }

    predicate Covers(row: Audit) {
      match this
      case AccountWide(id) => row.admin == Some(id)
      case AccountFrom(id, ip) => row.admin == Some(id) && row.ip == Some(ip)
      case UnknownFrom(ip) => row.admin == None && row.ip == Some(ip)
    }

    /** An attempt without an address is checked by no counter that has one. */
    predicate HasAddress() {
      AccountWide? || ip != ""
    }

    predicate Fails(row: Audit) {
      !row.success && Covers(row)
    }

    /** The successes that clear this counter. */
    predicate Clears(row: Audit) {
      row.success && !UnknownFrom? && row.admin == Some(id)
    }
  }

  // --------------------------------------------------------------- counters

  function CountSince(rows: seq<Audit>, scope: Scope, since: int): nat {
    if rows == [] then 0
    else
      CountSince(Init(rows), scope, since) + if scope.Fails(Last(rows)) && Last(rows).time >= since then 1 else 0
  }

  function LatestSince(rows: seq<Audit>, scope: Scope, since: int): (t: int)
    requires CountSince(rows, scope, since) > 0
    ensures t >= since
  {
    if scope.Fails(Last(rows)) && Last(rows).time >= since then
      if CountSince(Init(rows), scope, since) == 0 then Last(rows).time
      else Max(LatestSince(Init(rows), scope, since), Last(rows).time)
    else LatestSince(Init(rows), scope, since)
  }

  /** `max(last_success, start)`, or the start if there was no success. */
  function Since(rows: seq<Audit>, scope: Scope, start: int): int {
    if rows == [] then start
    else if scope.Clears(Last(rows)) then Max(Last(rows).time, Since(Init(rows), scope, start))
    else Since(Init(rows), scope, start)
  }

  function Lockout(failures: nat, factor: nat): Option<nat> {
    if failures >= 15 * factor then Some(900)
    else if failures >= 10 * factor then Some(300)
    else if failures >= 5 * factor then Some(60)
    else None
  }

  method LockoutSecondsFor(failures: nat, factor: nat) returns (lockout: Option<nat>)
    ensures lockout == Lockout(failures, factor)
  {
    lockout := None;
    for i := 0 to |THRESHOLDS|
      invariant i == 0 ==> lockout == None
      invariant i == 1 ==> lockout == if failures >= 5 * factor then Some(60) else None
      invariant i == 2 ==> lockout == if failures >= 10 * factor then Some(300) else if failures >= 5 * factor then Some(60) else None
      invariant i == 3 ==> lockout == Lockout(failures, factor)
    {
      var (threshold, seconds) := THRESHOLDS[i];
      if failures >= threshold * factor {
        lockout := Some(seconds);
      }
    }
  }

  /** Whole seconds still to wait, truncated, for one counter. */
  function RetryAfter(rows: seq<Audit>, scope: Scope, now: int): nat {
    var since := Since(rows, scope, now - WINDOW);
    var failures := CountSince(rows, scope, since);
    match Lockout(failures, scope.Factor())
    case None => 0
    case Some(seconds) =>
      var left := LatestSince(rows, scope, since) + seconds * SECOND - now;
      if left > 0 then left / SECOND else 0
  }

  /** `check_rate_limit`: seconds to wait, and locked out if there are any. */
  function Check(rows: seq<Audit>, admin: Option<nat>, ip: Option<string>, now: int): nat {
    match admin
    case None => if ip.GetOr("") == "" then 0 else RetryAfter(rows, UnknownFrom(ip.value), now)
    case Some(id) =>
      var wide := RetryAfter(rows, AccountWide(id), now);
      if ip.GetOr("") == "" then wide else Max(wide, RetryAfter(rows, AccountFrom(id, ip.value), now))
  }

  // ----------------------------------------------------- every run of attempts

  datatype Verdict = Wrong | Right | NotRecorded

  /** One attempt, checked at `at` and recorded, if at all, at `recordedAt`. */
  datatype Attempt = Attempt(admin: Option<nat>, ip: Option<string>, at: int, verdict: Verdict, recordedAt: int)

  function Step(rows: seq<Audit>, a: Attempt): seq<Audit> {
    if Check(rows, a.admin, a.ip, a.at) > 0 || a.verdict.NotRecorded? then rows
    else rows + [Audit(a.verdict.Right?, a.admin, a.ip, a.recordedAt)]
  }

  function RunFrom(rows: seq<Audit>, attempts: seq<Attempt>): seq<Audit> {
    if attempts == [] then rows else Step(RunFrom(rows, Init(attempts)), Last(attempts))
  }

  function Run(attempts: seq<Attempt>): seq<Audit> {
    RunFrom([], attempts)
  }

  /** One attempt at a time on a clock that does not run backwards. */
  ghost predicate OneAtATime(attempts: seq<Attempt>) {
    && (forall i :: 0 <= i < |attempts| ==> attempts[i].at <= attempts[i].recordedAt)
    && (forall i, j :: 0 <= i < j < |attempts| ==> attempts[i].recordedAt <= attempts[j].at)
  }

  /** `row` was let through by a check made at `at` against the rows before it. */
  ghost predicate LetThrough(before: seq<Audit>, row: Audit, at: int) {
    && at <= row.time && (forall j :: 0 <= j < |before| ==> before[j].time <= at)
    && Check(before, row.admin, row.ip, at) == 0
  }

  ghost predicate AdmittedAt(rows: seq<Audit>, i: nat)
    requires i < |rows|
  {
    exists at :: LetThrough(rows[..i], rows[i], at)
  }

  ghost predicate Admitted(rows: seq<Audit>) {
    forall i :: 0 <= i < |rows| ==> AdmittedAt(rows, i)
  }

  lemma SameAdmission(rows: seq<Audit>, rows': seq<Audit>, i: nat)
    requires i < |rows| && i < |rows'| && rows[..i] == rows'[..i] && rows[i] == rows'[i] && AdmittedAt(rows, i)
    ensures AdmittedAt(rows', i)
  {
    hide LetThrough;
    var at :| LetThrough(rows[..i], rows[i], at);
    assert LetThrough(rows'[..i], rows'[i], at);
  }

  lemma {:induction false} RunsAreAdmitted(attempts: seq<Attempt>)
    requires OneAtATime(attempts)
    ensures Admitted(Run(attempts))
    ensures attempts != [] ==> forall j :: 0 <= j < |Run(attempts)| ==> Run(attempts)[j].time <= Last(attempts).recordedAt
  {
    hide Check;
    if attempts != [] {
      var before, a := Run(Init(attempts)), Last(attempts);
      RunsAreAdmitted(Init(attempts));
      var rows := Run(attempts);
      forall i | 0 <= i < |rows| ensures AdmittedAt(rows, i) {
        if i < |before| {
          assert rows[..i] == before[..i];
          SameAdmission(before, rows, i);
        } else {
          assert rows[..i] == before;
          assert LetThrough(rows[..i], rows[i], a.at);
        }
      }
    }
  }

  // --------------------------------------------------------- how many failures

  function Clamp(n: int, top: nat): nat {
    if n < 0 then 0 else Min(n, top)
  }

  /** Seconds that at least pass from one failure to the `k`-th after it. */
  function LeastSeconds(k: nat, factor: nat): nat {
    59 * Clamp(k + 1 - 5 * factor, 5 * factor) + 299 * Clamp(k + 1 - 10 * factor, 5 * factor)
      + if k + 1 > 15 * factor then 899 * (k + 1 - 15 * factor) else 0
  }

  lemma {:induction false} EarlierStartCountsMore(rows: seq<Audit>, scope: Scope, a: int, b: int)
    requires a <= b
    ensures CountSince(rows, scope, a) >= CountSince(rows, scope, b)
    ensures CountSince(rows, scope, b) > 0 ==> LatestSince(rows, scope, a) >= LatestSince(rows, scope, b)
  {
    if rows != [] {
      EarlierStartCountsMore(Init(rows), scope, a, b);
    }
  }

  lemma {:induction false} SinceIsBounded(rows: seq<Audit>, scope: Scope, start: int, bound: int)
    requires start <= bound && forall i :: 0 <= i < |rows| && scope.Clears(rows[i]) ==> rows[i].time <= bound
    ensures Since(rows, scope, start) <= bound
  {
    if rows != [] {
      assert Last(rows) == rows[|rows| - 1];
      forall i | 0 <= i < |Init(rows)| && scope.Clears(Init(rows)[i]) ensures Init(rows)[i].time <= bound {
        assert Init(rows)[i] == rows[i];
      }
      SinceIsBounded(Init(rows), scope, start, bound);
    }
  }

  lemma NotLockedMeansWaited(rows: seq<Audit>, scope: Scope, now: int)
    requires RetryAfter(rows, scope, now) == 0
    ensures var since := Since(rows, scope, now - WINDOW);
            var lockout := Lockout(CountSince(rows, scope, since), scope.Factor());
            lockout.Some? ==> now > LatestSince(rows, scope, since) + (lockout.value - 1) * SECOND
  {
  }

  /** A check that lets a failure through was not locked on any counter covering it. */
  lemma CheckCoversScope(rows: seq<Audit>, row: Audit, scope: Scope, at: int)
    requires Check(rows, row.admin, row.ip, at) == 0 && scope.Covers(row) && scope.HasAddress()
    ensures RetryAfter(rows, scope, at) == 0
  {
    hide RetryAfter;
  }

  lemma LadderGrows(n: nat, m: nat, factor: nat)
    requires n <= m
    ensures Lockout(n, factor).Some? ==> Lockout(m, factor).Some? && Lockout(m, factor).value >= Lockout(n, factor).value
  {
  }

  lemma LeastSecondsGrow(k: nat, factor: nat)
    requires factor == 1 || factor == 4
    ensures k > 0 ==> LeastSeconds(k, factor) == LeastSeconds(k - 1, factor) + match Lockout(k, factor) case None => 0 case Some(s) => s - 1
    ensures LeastSeconds(0, factor) == 0
  {
  }

  ghost predicate NoClearing(rows: seq<Audit>, scope: Scope, from: int) {
    forall i :: 0 <= i < |rows| && scope.Clears(rows[i]) ==> rows[i].time < from
  }

  /** One more failure comes late enough after the ones before it. */
  lemma NextFailureIsLate(before: seq<Audit>, row: Audit, scope: Scope, from: int, at: int)
    requires LetThrough(before, row, at) && scope.Fails(row) && scope.HasAddress() && NoClearing(before, scope, from)
    requires row.time <= from + WINDOW
    requires CountSince(before, scope, from) > 0
    ensures var lockout := Lockout(CountSince(before, scope, from), scope.Factor());
            lockout.Some? ==> row.time > LatestSince(before, scope, from) + (lockout.value - 1) * SECOND
    ensures row.time >= LatestSince(before, scope, from)
  {
    hide RetryAfter, Check;
    CheckCoversScope(before, row, scope, at);
    NotLockedMeansWaited(before, scope, at);
    SinceIsBounded(before, scope, at - WINDOW, from);
    var since := Since(before, scope, at - WINDOW);
    EarlierStartCountsMore(before, scope, since, from);
    LadderGrows(CountSince(before, scope, from), CountSince(before, scope, since), scope.Factor());
    LatestIsBefore(before, scope, from, at);
  }

  lemma {:induction false} LatestIsBefore(rows: seq<Audit>, scope: Scope, from: int, at: int)
    requires CountSince(rows, scope, from) > 0 && forall j :: 0 <= j < |rows| ==> rows[j].time <= at
    ensures LatestSince(rows, scope, from) <= at
  {
    if CountSince(Init(rows), scope, from) > 0 {
      LatestIsBefore(Init(rows), scope, from, at);
    }
  }

  /** The rate of recorded failures: within one hour and without a success in between,
      the `n`-th failure comes no sooner than the ladder allows. */
  lemma {:induction false} FailuresAreSpaced(rows: seq<Audit>, scope: Scope, from: int)
    requires Admitted(rows) && scope.HasAddress() && NoClearing(rows, scope, from)
    requires forall i :: 0 <= i < |rows| ==> rows[i].time <= from + WINDOW
    ensures var n := CountSince(rows, scope, from);
            n > 0 ==> LatestSince(rows, scope, from) - from >= LeastSeconds(n - 1, scope.Factor()) * SECOND
  {
    hide Check, LeastSeconds, Lockout;
    if rows != [] {
      var before, row := Init(rows), Last(rows);
      AdmittedBefore(rows);
      FailuresAreSpaced(before, scope, from);
      var n := CountSince(before, scope, from);
      LeastSecondsGrow(n, scope.Factor());
      if scope.Fails(row) && row.time >= from && n > 0 {
        assert AdmittedAt(rows, |rows| - 1);
        var at :| LetThrough(before, row, at);
        NextFailureIsLate(before, row, scope, from, at);
      }
    }
  }

  lemma AdmittedBefore(rows: seq<Audit>)
    requires Admitted(rows) && rows != []
    ensures Admitted(Init(rows))
  {
    forall i | 0 <= i < |Init(rows)| ensures AdmittedAt(Init(rows), i) {
      assert Init(rows)[..i] == rows[..i];
      SameAdmission(rows, Init(rows), i);
    }
  }

  /** Recorded failures on a counter in a closed stretch of time. */
  function CountBetween(rows: seq<Audit>, scope: Scope, from: int, to: int): nat {
    if rows == [] then 0
    else CountBetween(Init(rows), scope, from, to) + if scope.Fails(Last(rows)) && from <= Last(rows).time <= to then 1 else 0
  }

  lemma {:induction false} AllBeforeEnd(rows: seq<Audit>, scope: Scope, from: int, to: int)
    requires forall i :: 0 <= i < |rows| ==> rows[i].time <= to
    ensures CountBetween(rows, scope, from, to) == CountSince(rows, scope, from)
  {
    if rows != [] {
      AllBeforeEnd(Init(rows), scope, from, to);
    }
  }

  function MostFailures(scope: Scope): nat {
    if scope.AccountWide? then 48 else 17
  }

  lemma TooManyTakeTooLong(n: nat, scope: Scope)
    requires n > MostFailures(scope)
    ensures LeastSeconds(n - 1, scope.Factor()) > 3600
  {
  }

  lemma {:induction false} HourBound(rows: seq<Audit>, scope: Scope, from: int)
    requires Admitted(rows) && scope.HasAddress()
    requires forall i :: 0 <= i < |rows| && scope.Clears(rows[i]) ==> !(from <= rows[i].time <= from + WINDOW)
    ensures CountBetween(rows, scope, from, from + WINDOW) <= MostFailures(scope)
  {
    hide LeastSeconds, Check, MostFailures;
    if rows != [] {
      var row := Last(rows);
      assert AdmittedAt(rows, |rows| - 1);
      assert forall i :: 0 <= i < |Init(rows)| ==> rows[i] == Init(rows)[i];
      if row.time > from + WINDOW {
        AdmittedBefore(rows);
        HourBound(Init(rows), scope, from);
      } else {
        AllBeforeEnd(rows, scope, from, from + WINDOW);
        FailuresAreSpaced(rows, scope, from);
        var n := CountSince(rows, scope, from);
        if n > 0 {
          LatestIsBefore(rows, scope, from, from + WINDOW);
          assert LeastSeconds(n - 1, scope.Factor()) <= 3600;
          if n > MostFailures(scope) {
            TooManyTakeTooLong(n, scope);
            assert false;
          }
        }
      }
    }
  }

  /** The bound: in any run, any closed hour without a login to the account holds at most
      17 recorded failures from one address and at most 48 from all addresses together;
      and any closed hour at most 17 from one address against unknown emails. */
  lemma HourlyFailureBound(attempts: seq<Attempt>, scope: Scope, from: int)
    requires OneAtATime(attempts) && scope.HasAddress()
    requires forall row :: row in Run(attempts) && scope.Clears(row) ==> !(from <= row.time <= from + WINDOW)
    ensures CountBetween(Run(attempts), scope, from, from + WINDOW) <= if scope.AccountWide? then 48 else 17
  {
    RunsAreAdmitted(attempts);
    HourBound(Run(attempts), scope, from);
  }

  // ------------------------------------------------------ the bound is reached

  /** Guesses at one account as early as the ladder permits, all from one address or each
      from another. */
  function GuessFrom(spread: bool, k: nat): (ip: string)
    ensures ip != ""
  {
    if spread then seq(k + 1, _ => 'x') else "x"
  }

  function GuessScope(spread: bool): Scope {
    if spread then AccountWide(0) else AccountFrom(0, "x")
  }

  function GuessTime(spread: bool, k: nat): int {
    LeastSeconds(k, GuessScope(spread).Factor()) * SECOND + k
  }

  function Guess(spread: bool, k: nat): Attempt {
    Attempt(Some(0), Some(GuessFrom(spread, k)), GuessTime(spread, k), Wrong, GuessTime(spread, k))
  }

  function Guessed(spread: bool, k: nat): Audit {
    Audit(false, Some(0), Some(GuessFrom(spread, k)), GuessTime(spread, k))
  }

  function Guesses(spread: bool, n: nat): seq<Attempt> {
    seq(n, k requires 0 <= k < n => Guess(spread, k))
  }

  function AllGuessed(spread: bool, n: nat): seq<Audit> {
    seq(n, k requires 0 <= k < n => Guessed(spread, k))
  }

  lemma GuessTimesGrow(spread: bool, j: nat, k: nat)
    requires j <= k
    ensures GuessTime(spread, j) <= GuessTime(spread, k)
  {
  }

  lemma {:induction false} AllCount(rows: seq<Audit>, scope: Scope, since: int)
    requires forall i :: 0 <= i < |rows| ==> scope.Fails(rows[i]) && rows[i].time >= since
    requires forall i, j :: 0 <= i < j < |rows| ==> rows[i].time <= rows[j].time
    ensures CountSince(rows, scope, since) == |rows|
    ensures rows != [] ==> LatestSince(rows, scope, since) == Last(rows).time
    ensures Since(rows, scope, since) == since
  {
    if rows != [] {
      AllCount(Init(rows), scope, since);
    }
  }

  lemma {:induction false} NoneCount(rows: seq<Audit>, scope: Scope, since: int, start: int)
    requires forall i :: 0 <= i < |rows| ==> !scope.Fails(rows[i])
    ensures CountSince(rows, scope, since) == 0
  {
    if rows != [] {
      NoneCount(Init(rows), scope, since, start);
    }
  }

  lemma GuessIsLetThrough(spread: bool, k: nat)
    requires k < if spread then 48 else 17
    ensures Check(AllGuessed(spread, k), Some(0), Some(GuessFrom(spread, k)), GuessTime(spread, k)) == 0
  {
    hide LeastSeconds, Check, GuessTime, CountSince, LatestSince, Since;
    var rows, now, ip := AllGuessed(spread, k), GuessTime(spread, k), GuessFrom(spread, k);
    GuessesStartEarly(spread, k);
    forall i, j | 0 <= i < j < |rows| ensures rows[i].time <= rows[j].time {
      GuessTimesGrow(spread, i, j);
    }
    forall i | 0 <= i < |rows| ensures rows[i].time >= now - WINDOW {
      GuessTimesGrow(spread, 0, i);
    }
    AllCount(rows, AccountWide(0), now - WINDOW);
    if spread {
      NoneCount(rows, AccountFrom(0, ip), Since(rows, AccountFrom(0, ip), now - WINDOW), now);
    } else {
      AllCount(rows, AccountFrom(0, ip), now - WINDOW);
    }
    assert RetryAfter(rows, AccountWide(0), now) == 0;
    assert RetryAfter(rows, AccountFrom(0, ip), now) == 0;
    CheckIsWorse(rows, 0, ip, now);
  }

  lemma CheckIsWorse(rows: seq<Audit>, id: nat, ip: string, now: int)
    requires ip != ""
    ensures Check(rows, Some(id), Some(ip), now) == Max(RetryAfter(rows, AccountWide(id), now), RetryAfter(rows, AccountFrom(id, ip), now))
  {
  }

  lemma GuessesStartEarly(spread: bool, k: nat)
    requires k < if spread then 48 else 17
    ensures GuessTime(spread, 0) == 0 && GuessTime(spread, k) <= WINDOW
    ensures k > 0 ==> match Lockout(k, GuessScope(spread).Factor())
                      case None => true
                      case Some(s) => GuessTime(spread, k) > GuessTime(spread, k - 1) + (s - 1) * SECOND
  {
  }

  lemma {:induction false} GuessesAreRecorded(spread: bool, n: nat)
    requires n <= if spread then 48 else 17
    ensures Run(Guesses(spread, n)) == AllGuessed(spread, n)
  {
    hide Check, GuessTime;
    if n > 0 {
      GuessesAreRecorded(spread, n - 1);
      GuessIsLetThrough(spread, n - 1);
      assert Init(Guesses(spread, n)) == Guesses(spread, n - 1);
    }
  }

  /** Neither bound can be lowered: there is a run with that many failures in an hour. */
  lemma BoundIsReached(spread: bool)
    ensures var n := if spread then 48 else 17;
            OneAtATime(Guesses(spread, n)) && CountBetween(Run(Guesses(spread, n)), GuessScope(spread), 0, WINDOW) == n
  {
    hide LeastSeconds, GuessTime, Run, CountBetween, CountSince;
    var n := if spread then 48 else 17;
    var rows := AllGuessed(spread, n);
    GuessesAreRecorded(spread, n);
    GuessesStartEarly(spread, n - 1);
    forall i, j | 0 <= i < j < n ensures GuessTime(spread, i) <= GuessTime(spread, j) {
      GuessTimesGrow(spread, i, j);
    }
    forall i | 0 <= i < n ensures 0 <= GuessTime(spread, i) <= WINDOW {
      GuessTimesGrow(spread, i, n - 1);
      GuessTimesGrow(spread, 0, i);
    }
    AllBeforeEnd(rows, GuessScope(spread), 0, WINDOW);
    AllCount(rows, GuessScope(spread), 0);
  }

  // -------------------------------------------------- how long a lockout lasts

  lemma {:induction false} SinceGrows(rows: seq<Audit>, scope: Scope, a: int, b: int)
    requires a <= b
    ensures Since(rows, scope, a) <= Since(rows, scope, b)
  {
    if rows != [] {
      SinceGrows(Init(rows), scope, a, b);
    }
  }

  lemma WaitingPays(rows: seq<Audit>, scope: Scope, now: int, seconds: nat)
    requires RetryAfter(rows, scope, now) <= seconds
    ensures RetryAfter(rows, scope, now + seconds * SECOND) == 0
  {
    var later := now + seconds * SECOND;
    var since, since' := Since(rows, scope, now - WINDOW), Since(rows, scope, later - WINDOW);
    SinceGrows(rows, scope, now - WINDOW, later - WINDOW);
    EarlierStartCountsMore(rows, scope, since, since');
    LadderGrows(CountSince(rows, scope, since'), CountSince(rows, scope, since), scope.Factor());
  }

  /** The announced wait is honest: after it, the same check lets the client through. */
  lemma RetryAfterIsHonest(rows: seq<Audit>, admin: Option<nat>, ip: Option<string>, now: int)
    ensures Check(rows, admin, ip, now + Check(rows, admin, ip, now) * SECOND) == 0
  {
    hide RetryAfter;
    var wait := Check(rows, admin, ip, now);
    if admin.Some? {
      WaitingPays(rows, AccountWide(admin.value), now, wait);
    }
    if ip.GetOr("") != "" {
      WaitingPays(rows, if admin.Some? then AccountFrom(admin.value, ip.value) else UnknownFrom(ip.value), now, wait);
    }
  }

  lemma {:induction false} LatestIsAtMost(rows: seq<Audit>, scope: Scope, since: int, last: int)
    requires CountSince(rows, scope, since) > 0
    requires forall i :: 0 <= i < |rows| && scope.Fails(rows[i]) ==> rows[i].time <= last
    ensures LatestSince(rows, scope, since) <= last
  {
    assert Last(rows) == rows[|rows| - 1];
    if CountSince(Init(rows), scope, since) > 0 {
      forall i | 0 <= i < |Init(rows)| && scope.Fails(Init(rows)[i]) ensures Init(rows)[i].time <= last {
        assert Init(rows)[i] == rows[i];
      }
      LatestIsAtMost(Init(rows), scope, since, last);
    }
  }

  lemma CounterExpires(rows: seq<Audit>, scope: Scope, last: int, now: int)
    requires forall i :: 0 <= i < |rows| && scope.Fails(rows[i]) ==> rows[i].time <= last
    requires now > last + 899 * SECOND
    ensures RetryAfter(rows, scope, now) == 0
  {
    var since := Since(rows, scope, now - WINDOW);
    if CountSince(rows, scope, since) > 0 {
      LatestIsAtMost(rows, scope, since, last);
    }
  }

  /** A lockout ends 900 seconds after the last recorded failure at the latest, whatever
      is attempted meanwhile: refused attempts are not recorded and so never extend it. */
  lemma LockoutEnds(rows: seq<Audit>, admin: Option<nat>, ip: Option<string>, last: int, now: int)
    requires forall i :: 0 <= i < |rows| && !rows[i].success && rows[i].admin == admin ==> rows[i].time <= last
    requires now >= last + 900 * SECOND
    ensures Check(rows, admin, ip, now) == 0
  {
    hide RetryAfter;
    if admin.Some? {
      CounterExpires(rows, AccountWide(admin.value), last, now);
    }
    if ip.GetOr("") != "" {
      CounterExpires(rows, if admin.Some? then AccountFrom(admin.value, ip.value) else UnknownFrom(ip.value), last, now);
    }
  }

  /** The attempts of a run that were not refused by a lockout. */
  function LetIn(attempts: seq<Attempt>): seq<Attempt> {
    if attempts == [] then []
    else
      var a := Last(attempts);
      LetIn(Init(attempts)) + if Check(Run(Init(attempts)), a.admin, a.ip, a.at) > 0 then [] else [a]
  }

  /** Attempts made while locked out are free: without them every record, and so every
      later decision, is the same. */
  lemma {:induction false} RefusedAttemptsAreFree(attempts: seq<Attempt>)
    ensures Run(LetIn(attempts)) == Run(attempts)
  {
    hide Check;
    if attempts != [] {
      RefusedAttemptsAreFree(Init(attempts));
      var a := Last(attempts);
      var before := LetIn(Init(attempts));
      assert Init(before + [a]) == before && Last(before + [a]) == a;
      assert before + [] == before;
    }
  }

  // ---------------------------------- an unknown email looks like a known one

  function AsUnknown(rows: seq<Audit>): seq<Audit> {
    seq(|rows|, i requires 0 <= i < |rows| => rows[i].(admin := None))
  }

  ghost predicate OnlyFailuresOf(rows: seq<Audit>, id: nat, ip: string) {
    forall i :: 0 <= i < |rows| ==> !rows[i].success && rows[i].admin == Some(id) && rows[i].ip == Some(ip)
  }

  lemma {:induction false} SameCounts(rows: seq<Audit>, id: nat, ip: string, since: int)
    requires OnlyFailuresOf(rows, id, ip)
    ensures CountSince(rows, AccountFrom(id, ip), since) == CountSince(rows, AccountWide(id), since)
              == CountSince(AsUnknown(rows), UnknownFrom(ip), since)
    ensures CountSince(rows, AccountWide(id), since) > 0 ==>
              LatestSince(rows, AccountFrom(id, ip), since) == LatestSince(rows, AccountWide(id), since)
              == LatestSince(AsUnknown(rows), UnknownFrom(ip), since)
    ensures Since(rows, AccountFrom(id, ip), since) == Since(rows, AccountWide(id), since) == since
              == Since(AsUnknown(rows), UnknownFrom(ip), since)
  {
    if rows != [] {
      assert Last(rows) == rows[|rows| - 1];
      assert Init(AsUnknown(rows)) == AsUnknown(Init(rows));
      SameCounts(Init(rows), id, ip, since);
    }
  }

  lemma SameCheck(rows: seq<Audit>, id: nat, ip: string, now: int)
    requires OnlyFailuresOf(rows, id, ip) && ip != ""
    ensures Check(rows, Some(id), Some(ip), now) == Check(AsUnknown(rows), None, Some(ip), now)
  {
    hide CountSince, LatestSince, Since;
    SameCounts(rows, id, ip, now - WINDOW);
  }

  /** Wrong guesses from one address, each checked and then recorded. */
  function Guessing(admin: Option<nat>, ip: string, times: seq<(int, int)>): seq<Attempt> {
    seq(|times|, i requires 0 <= i < |times| => Attempt(admin, Some(ip), times[i].0, Wrong, times[i].1))
  }

  function FailuresAt(admin: Option<nat>, ip: string, times: seq<(int, int)>): seq<Audit> {
    seq(|times|, i requires 0 <= i < |times| => Audit(false, admin, Some(ip), times[i].1))
  }

  /** Guesses one at a time from an instant on, and a last look at the counters. */
  ghost predicate Timely(from: int, times: seq<(int, int)>, now: int) {
    && from <= now
    && (forall i :: 0 <= i < |times| ==> from <= times[i].0 <= times[i].1 <= now)
    && (forall i, j :: 0 <= i < j < |times| ==> times[i].1 <= times[j].0)
  }

  /** What a client that made some guesses is told does not depend on whether the email has
      an account. */
  ghost predicate Alike(rows: seq<Audit>, id: nat, ip: string, times: seq<(int, int)>, now: int) {
    Check(RunFrom(rows, Guessing(Some(id), ip, times)), Some(id), Some(ip), now)
      == Check(RunFrom(rows, Guessing(None, ip, times)), None, Some(ip), now)
  }

  /** Nobody has failed to log in to the account for an hour. */
  ghost predicate Quiet(rows: seq<Audit>, id: nat, from: int) {
    forall i :: 0 <= i < |rows| ==>
      rows[i].time <= from && (!rows[i].success && rows[i].admin == Some(id) ==> rows[i].time < from - WINDOW)
  }

  lemma {:induction false} LaterRowsCount(rows: seq<Audit>, more: seq<Audit>, scope: Scope, since: int)
    requires CountSince(rows, scope, since) == 0
    ensures CountSince(rows + more, scope, since) == CountSince(more, scope, since)
    ensures CountSince(more, scope, since) > 0 ==> LatestSince(rows + more, scope, since) == LatestSince(more, scope, since)
  {
    if more == [] {
      assert rows + more == rows;
    } else {
      assert Init(rows + more) == rows + Init(more) && Last(rows + more) == Last(more);
      LaterRowsCount(rows, Init(more), scope, since);
    }
  }

  lemma {:induction false} FailuresClearNothing(rows: seq<Audit>, more: seq<Audit>, scope: Scope, start: int)
    requires forall i :: 0 <= i < |more| ==> !more[i].success
    ensures Since(rows + more, scope, start) == Since(rows, scope, start)
  {
    if more == [] {
      assert rows + more == rows;
    } else {
      assert Init(rows + more) == rows + Init(more) && Last(rows + more) == more[|more| - 1];
      FailuresClearNothing(rows, Init(more), scope, start);
    }
  }

  lemma {:induction false} OldRowsDoNotCount(rows: seq<Audit>, scope: Scope, since: int)
    ensures CountSince(rows, scope, since) == 0 <==> forall i :: 0 <= i < |rows| && scope.Fails(rows[i]) ==> rows[i].time < since
  {
    if rows != [] {
      assert Last(rows) == rows[|rows| - 1];
      assert forall i :: 0 <= i < |Init(rows)| ==> Init(rows)[i] == rows[i];
      OldRowsDoNotCount(Init(rows), scope, since);
    }
  }

  lemma {:induction false} SameRowsCount(rows: seq<Audit>, scope: Scope, a: int, b: int)
    requires forall i :: 0 <= i < |rows| ==> rows[i].time >= a && rows[i].time >= b
    ensures CountSince(rows, scope, a) == CountSince(rows, scope, b)
    ensures CountSince(rows, scope, a) > 0 ==> LatestSince(rows, scope, a) == LatestSince(rows, scope, b)
  {
    if rows != [] {
      assert Last(rows) == rows[|rows| - 1];
      SameRowsCount(Init(rows), scope, a, b);
    }
  }

  lemma {:induction false} SinceIsAtLeast(rows: seq<Audit>, scope: Scope, start: int)
    ensures Since(rows, scope, start) >= start && (rows == [] || scope.UnknownFrom? ==> Since(rows, scope, start) == start)
  {
    if rows != [] {
      SinceIsAtLeast(Init(rows), scope, start);
    }
  }

  /** A counter that was at rest counts what came since, and nothing else. */
  lemma OnlyNewFailuresCount(rows: seq<Audit>, more: seq<Audit>, scope: Scope, from: int, now: int)
    requires from <= now && forall i :: 0 <= i < |rows| ==> rows[i].time <= from
    requires forall i :: 0 <= i < |rows| && scope.Fails(rows[i]) ==> rows[i].time < from - WINDOW
    requires forall i :: 0 <= i < |more| ==> !more[i].success && more[i].time >= from
    ensures RetryAfter(rows + more, scope, now) == RetryAfter(more, scope, now)
  {
    hide CountSince, LatestSince, Since;
    var start := now - WINDOW;
    var since := Since(rows, scope, start);
    FailuresClearNothing(rows, more, scope, start);
    FailuresClearNothing([], more, scope, start);
    assert [] + more == more;
    SinceIsAtLeast([], scope, start);
    SinceIsAtLeast(rows, scope, start);
    OldRowsDoNotCount(rows, scope, since);
    LaterRowsCount(rows, more, scope, since);
    if since != start {
      SinceIsBounded(rows, scope, start, Max(start, from));
      SameRowsCount(more, scope, since, start);
    }
  }

  lemma KnownCountsNew(rows: seq<Audit>, more: seq<Audit>, id: nat, ip: string, from: int, now: int)
    requires ip != "" && from <= now && Quiet(rows, id, from)
    requires OnlyFailuresOf(more, id, ip) && forall i :: 0 <= i < |more| ==> more[i].time >= from
    ensures Check(rows + more, Some(id), Some(ip), now) == Check(more, Some(id), Some(ip), now)
  {
    hide RetryAfter;
    OnlyNewFailuresCount(rows, more, AccountWide(id), from, now);
    OnlyNewFailuresCount(rows, more, AccountFrom(id, ip), from, now);
  }

  /** Guesses at an account that was at rest are let in and counted as if nothing had come before. */
  lemma {:induction false} KnownGuesses(rows: seq<Audit>, id: nat, ip: string, from: int, times: seq<(int, int)>, now: int)
    requires ip != "" && Timely(from, times, now) && Quiet(rows, id, from)
    ensures var more := Run(Guessing(Some(id), ip, times));
            && OnlyFailuresOf(more, id, ip) && (forall i :: 0 <= i < |more| ==> more[i].time >= from) && |more| <= |times|
            && RunFrom(rows, Guessing(Some(id), ip, times)) == rows + more
  {
    hide Check;
    if times == [] {
      assert rows + [] == rows;
    } else {
      assert Last(times) == times[|times| - 1];
      var (at, recordedAt) := Last(times);
      KnownGuesses(rows, id, ip, from, Init(times), at);
      var more := Run(Guessing(Some(id), ip, Init(times)));
      assert Init(Guessing(Some(id), ip, times)) == Guessing(Some(id), ip, Init(times));
      KnownCountsNew(rows, more, id, ip, from, at);
      var last := Audit(false, Some(id), Some(ip), recordedAt);
      assert rows + (more + [last]) == (rows + more) + [last];
    }
  }

  lemma SameWaits(rows: seq<Audit>, more: seq<Audit>, id: nat, ip: string, from: int, now: int)
    requires ip != "" && from <= now && Quiet(rows, id, from) && CountSince(rows, UnknownFrom(ip), from - WINDOW) == 0
    requires OnlyFailuresOf(more, id, ip) && forall i :: 0 <= i < |more| ==> more[i].time >= from
    ensures Check(rows + more, Some(id), Some(ip), now) == Check(rows + AsUnknown(more), None, Some(ip), now)
  {
    hide CountSince, RetryAfter;
    KnownCountsNew(rows, more, id, ip, from, now);
    OldRowsDoNotCount(rows, UnknownFrom(ip), from - WINDOW);
    OnlyNewFailuresCount(rows, AsUnknown(more), UnknownFrom(ip), from, now);
    SameCheck(more, id, ip, now);
  }

  lemma {:induction false} UnknownGuesses(rows: seq<Audit>, id: nat, ip: string, from: int, times: seq<(int, int)>, now: int)
    requires ip != "" && Timely(from, times, now) && Quiet(rows, id, from)
    requires CountSince(rows, UnknownFrom(ip), from - WINDOW) == 0
    ensures RunFrom(rows, Guessing(None, ip, times)) == rows + AsUnknown(Run(Guessing(Some(id), ip, times)))
  {
    hide Check, CountSince;
    if times == [] {
      assert rows + AsUnknown([]) == rows;
    } else {
      assert Last(times) == times[|times| - 1];
      var (at, recordedAt) := Last(times);
      UnknownGuesses(rows, id, ip, from, Init(times), at);
      KnownGuesses(rows, id, ip, from, Init(times), at);
      var more := Run(Guessing(Some(id), ip, Init(times)));
      assert Init(Guessing(Some(id), ip, times)) == Guessing(Some(id), ip, Init(times));
      assert Init(Guessing(None, ip, times)) == Guessing(None, ip, Init(times));
      KnownCountsNew(rows, more, id, ip, from, at);
      SameWaits(rows, more, id, ip, from, at);
      var last := Audit(false, Some(id), Some(ip), recordedAt);
      assert AsUnknown(more + [last]) == AsUnknown(more) + [last.(admin := None)];
      assert rows + (AsUnknown(more) + [last.(admin := None)]) == (rows + AsUnknown(more)) + [last.(admin := None)];
    }
  }

  /** Guesses at an account at rest and at an unknown email, from an address that has guessed
      at no unknown email for an hour, meet the same refusals with the same waits. */
  lemma UnknownEmailLooksTheSame(rows: seq<Audit>, id: nat, ip: string, from: int, times: seq<(int, int)>, now: int)
    requires ip != "" && Timely(from, times, now) && Quiet(rows, id, from)
    requires CountSince(rows, UnknownFrom(ip), from - WINDOW) == 0
    ensures Alike(rows, id, ip, times, now)
  {
    hide Check, CountSince;
    KnownGuesses(rows, id, ip, from, times, now);
    UnknownGuesses(rows, id, ip, from, times, now);
    SameWaits(rows, Run(Guessing(Some(id), ip, times)), id, ip, from, now);
  }

  // --- but one counter serves all unknown emails

  lemma {:induction false} CountIsAtMost(rows: seq<Audit>, scope: Scope, since: int)
    ensures CountSince(rows, scope, since) <= |rows|
  {
    if rows != [] {
      CountIsAtMost(Init(rows), scope, since);
    }
  }

  lemma {:induction false} CountsAdd(rows: seq<Audit>, more: seq<Audit>, scope: Scope, since: int)
    ensures CountSince(rows + more, scope, since) == CountSince(rows, scope, since) + CountSince(more, scope, since)
  {
    if more == [] {
      assert rows + more == rows;
    } else {
      assert Init(rows + more) == rows + Init(more) && Last(rows + more) == Last(more);
      CountsAdd(rows, Init(more), scope, since);
    }
  }

  /** While fewer than five are counted, guesses at an unknown email are let in. */
  lemma {:induction false} FewGuessesAreLetIn(rows: seq<Audit>, ip: string, from: int, times: seq<(int, int)>, now: int)
    requires ip != "" && Timely(from, times, now) && CountSince(rows, UnknownFrom(ip), from - WINDOW) + |times| <= 5
    ensures RunFrom(rows, Guessing(None, ip, times)) == rows + FailuresAt(None, ip, times)
  {
    hide CountSince, LatestSince, Since;
    if times == [] {
      assert rows + FailuresAt(None, ip, []) == rows;
    } else {
      assert Last(times) == times[|times| - 1];
      var (at, recordedAt) := Last(times);
      FewGuessesAreLetIn(rows, ip, from, Init(times), at);
      assert Init(Guessing(None, ip, times)) == Guessing(None, ip, Init(times));
      var scope, more := UnknownFrom(ip), FailuresAt(None, ip, Init(times));
      hide Check;
      CountsAdd(rows, more, scope, at - WINDOW);
      CountIsAtMost(more, scope, at - WINDOW);
      EarlierStartCountsMore(rows, scope, from - WINDOW, at - WINDOW);
      FewerThanFiveAreLetIn(rows + more, ip, at, rows + more);
      assert rows + FailuresAt(None, ip, times) == (rows + more) + [Audit(false, None, Some(ip), recordedAt)];
    }
  }

  /** With five counted, the last of them just now, the address is locked out. */
  lemma FiveLockOut(rows: seq<Audit>, last: Audit, ip: string, now: int)
    requires ip != "" && UnknownFrom(ip).Fails(last) && CountSince(rows, UnknownFrom(ip), now - WINDOW) >= 4
    requires last.time == now && forall i :: 0 <= i < |rows| ==> rows[i].time <= now
    ensures Check(rows + [last], None, Some(ip), now) >= 60
  {
    hide LatestSince;
    var scope := UnknownFrom(ip);
    assert Init(rows + [last]) == rows && Last(rows + [last]) == last;
    SinceIsAtLeast(rows + [last], scope, now - WINDOW);
    LatestIsNow(rows, last, scope, now);
  }

  lemma LatestIsNow(rows: seq<Audit>, last: Audit, scope: Scope, now: int)
    requires scope.Fails(last) && last.time == now && forall i :: 0 <= i < |rows| ==> rows[i].time <= now
    ensures CountSince(rows + [last], scope, now - WINDOW) > 0 && LatestSince(rows + [last], scope, now - WINDOW) == now
  {
    assert Init(rows + [last]) == rows && Last(rows + [last]) == last;
    if CountSince(rows, scope, now - WINDOW) > 0 {
      LatestIsBefore(rows, scope, now - WINDOW, now);
    }
  }

  /** One guess a second. */
  function EachSecond(n: nat): seq<(int, int)> {
    seq(n, i requires 0 <= i < n => (i * SECOND, i * SECOND))
  }

  /** An input: after five wrong guesses at emails without an account, another such email is
      refused for a minute while one with an account is not. */
  lemma UnknownEmailIsToldApart(id: nat)
    ensures OneAtATime(Guessing(None, "x", EachSecond(5)))
    ensures var rows := Run(Guessing(None, "x", EachSecond(5)));
            Check(rows, None, Some("x"), 4 * SECOND) == 60 && Check(rows, Some(id), Some("x"), 4 * SECOND) == 0
  {
    hide CountSince, Check;
    OldRowsDoNotCount([], UnknownFrom("x"), 0 - WINDOW);
    FewGuessesAreLetIn([], "x", 0, EachSecond(5), 4 * SECOND);
    assert [] + FailuresAt(None, "x", EachSecond(5)) == FailuresAt(None, "x", EachSecond(5));
    FiveFailuresLock("x");
    QuietIsNotLocked(FailuresAt(None, "x", EachSecond(5)), id, "x", 4 * SECOND);
  }

  lemma FiveFailuresLock(ip: string)
    requires ip != ""
    ensures Check(FailuresAt(None, ip, EachSecond(5)), None, Some(ip), 4 * SECOND) == 60
  {
    hide CountSince, LatestSince, Since;
    var rows := FailuresAt(None, ip, EachSecond(5));
    AllCount(rows, UnknownFrom(ip), 4 * SECOND - WINDOW);
  }

  /** For a single look: an account at rest and an unknown email look alike exactly if fewer
      than five guesses at unknown emails are counted for the address, or the lockout after
      the last of them has run out. */
  lemma AlikeNowIff(rows: seq<Audit>, id: nat, ip: string, now: int)
    requires ip != "" && Quiet(rows, id, now)
    ensures Check(rows, Some(id), Some(ip), now) == Check(rows, None, Some(ip), now) <==>
              var start, scope := now - WINDOW, UnknownFrom(ip);
              var lockout := Lockout(CountSince(rows, scope, start), 1);
              lockout.None? || now > LatestSince(rows, scope, start) + (lockout.value - 1) * SECOND
  {
    hide CountSince, LatestSince, Since;
    SinceIsAtLeast(rows, UnknownFrom(ip), now - WINDOW);
    QuietIsNotLocked(rows, id, ip, now);
  }

  lemma QuietIsNotLocked(rows: seq<Audit>, id: nat, ip: string, now: int)
    requires ip != "" && Quiet(rows, id, now)
    ensures Check(rows, Some(id), Some(ip), now) == 0
  {
    hide CountSince, LatestSince, Since;
    forall scope | scope == AccountWide(id) || scope == AccountFrom(id, ip) ensures RetryAfter(rows, scope, now) == 0 {
      SinceIsAtLeast(rows, scope, now - WINDOW);
      OldRowsDoNotCount(rows, scope, Since(rows, scope, now - WINDOW));
    }
    CheckIsWorse(rows, id, ip, now);
  }

  lemma FewFailuresDoNotLock(rows: seq<Audit>, id: nat, ip: string, now: int)
    requires ip != "" && |rows| < 5
    ensures Check(rows, Some(id), Some(ip), now) == 0
  {
    hide CountSince, LatestSince, Since;
    forall scope | scope == AccountWide(id) || scope == AccountFrom(id, ip) ensures RetryAfter(rows, scope, now) == 0 {
      CountIsAtMost(rows, scope, Since(rows, scope, now - WINDOW));
    }
    CheckIsWorse(rows, id, ip, now);
  }

  /** Guesses all made at one instant. */
  function Burst(from: int, n: nat): seq<(int, int)> {
    seq(n, _ => (from, from))
  }

  /** Any unexpired guess at an unknown email from the address makes some guesses tell. */
  lemma SomeGuessesTell(rows: seq<Audit>, id: nat, ip: string, from: int)
    requires ip != "" && Quiet(rows, id, from) && CountSince(rows, UnknownFrom(ip), from - WINDOW) > 0
    ensures exists times :: Timely(from, times, from) && !Alike(rows, id, ip, times, from)
  {
    hide Check, CountSince;
    var k := CountSince(rows, UnknownFrom(ip), from - WINDOW);
    var none := Burst(from, 0);
    if Check(rows, None, Some(ip), from) > 0 {
      QuietIsNotLocked(rows, id, ip, from);
      assert Timely(from, none, from) && !Alike(rows, id, ip, none, from);
    } else {
      var n := if k < 5 then 5 - k else 1;
      var times := Burst(from, n);
      KnownGuesses(rows, id, ip, from, times, from);
      var more := Run(Guessing(Some(id), ip, times));
      KnownCountsNew(rows, more, id, ip, from, from);
      FewFailuresDoNotLock(more, id, ip, from);
      BurstLocksOut(rows, ip, from, n);
      assert Timely(from, times, from) && !Alike(rows, id, ip, times, from);
    }
  }

  lemma BurstLocksOut(rows: seq<Audit>, ip: string, from: int, n: nat)
    requires ip != "" && n > 0 && Check(rows, None, Some(ip), from) == 0
    requires forall i :: 0 <= i < |rows| ==> rows[i].time <= from
    requires var k := CountSince(rows, UnknownFrom(ip), from - WINDOW); k + n == 5 || (k >= 5 && n == 1)
    ensures Check(RunFrom(rows, Guessing(None, ip, Burst(from, n))), None, Some(ip), from) > 0
  {
    hide Check, CountSince, RunFrom;
    var scope := UnknownFrom(ip);
    var last := Audit(false, None, Some(ip), from);
    var earlier := FailuresAt(None, ip, Burst(from, n - 1));
    if n == 1 {
      assert rows + earlier == rows;
      NoGuess(rows, ip);
    } else {
      FewGuessesAreLetIn(rows, ip, from, Burst(from, n - 1), from);
    }
    BurstCounts(ip, from, n - 1);
    CountsAdd(rows, earlier, scope, from - WINDOW);
    FewerThanFiveAreLetIn(rows + earlier, ip, from, rows);
    OneMoreGuess(rows, ip, from, n, rows + earlier);
    FiveLockOut(rows + earlier, last, ip, from);
  }

  lemma NoGuess(rows: seq<Audit>, ip: string)
    ensures forall from :: RunFrom(rows, Guessing(None, ip, Burst(from, 0))) == rows
  {
  }

  lemma OneMoreGuess(rows: seq<Audit>, ip: string, from: int, n: nat, before: seq<Audit>)
    requires n > 0 && RunFrom(rows, Guessing(None, ip, Burst(from, n - 1))) == before && Check(before, None, Some(ip), from) == 0
    ensures RunFrom(rows, Guessing(None, ip, Burst(from, n))) == before + [Audit(false, None, Some(ip), from)]
  {
    hide Check;
    assert Init(Guessing(None, ip, Burst(from, n))) == Guessing(None, ip, Burst(from, n - 1));
  }

  lemma BurstCounts(ip: string, from: int, n: nat)
    ensures CountSince(FailuresAt(None, ip, Burst(from, n)), UnknownFrom(ip), from - WINDOW) == n
  {
    AllCount(FailuresAt(None, ip, Burst(from, n)), UnknownFrom(ip), from - WINDOW);
  }

  lemma FewerThanFiveAreLetIn(rows: seq<Audit>, ip: string, now: int, start: seq<Audit>)
    requires ip != "" && (CountSince(rows, UnknownFrom(ip), now - WINDOW) < 5 || (rows == start && Check(start, None, Some(ip), now) == 0))
    ensures Check(rows, None, Some(ip), now) == 0
  {
    hide CountSince, LatestSince, Since;
    SinceIsAtLeast(rows, UnknownFrom(ip), now - WINDOW);
  }

  /** For a client that guesses on: an account at rest looks like an unknown email through
      every sequence of guesses exactly if the address has guessed at no unknown email for
      an hour. */
  lemma AlikeForeverIff(rows: seq<Audit>, id: nat, ip: string, from: int)
    requires ip != "" && Quiet(rows, id, from)
    ensures (forall times, now :: Timely(from, times, now) ==> Alike(rows, id, ip, times, now)) <==>
              CountSince(rows, UnknownFrom(ip), from - WINDOW) == 0
  {
    hide Alike, CountSince, Quiet;
    if CountSince(rows, UnknownFrom(ip), from - WINDOW) == 0 {
      forall times, now | Timely(from, times, now) ensures Alike(rows, id, ip, times, now) {
        UnknownEmailLooksTheSame(rows, id, ip, from, times, now);
      }
    } else {
      SomeGuessesTell(rows, id, ip, from);
    }
  }

  // ------------------------------------------- what clears a counter, what does not

  /** A login clears the account's counters: with no failure since, nobody is refused. */
  lemma SuccessClears(rows: seq<Audit>, id: nat, from: Option<string>, at: int, ip: Option<string>, now: int)
    requires forall i :: 0 <= i < |rows| && rows[i].admin == Some(id) && !rows[i].success ==> rows[i].time < at
    ensures Check(rows + [Audit(true, Some(id), from, at)], Some(id), ip, now) == 0
  {
    hide CountSince, LatestSince, Since, RetryAfter;
    ClearedCounter(rows, AccountWide(id), id, from, at, now);
    if ip.GetOr("") != "" {
      ClearedCounter(rows, AccountFrom(id, ip.value), id, from, at, now);
    }
  }

  lemma ClearedCounter(rows: seq<Audit>, scope: Scope, id: nat, from: Option<string>, at: int, now: int)
    requires !scope.UnknownFrom? && scope.id == id
    requires forall i :: 0 <= i < |rows| && rows[i].admin == Some(id) && !rows[i].success ==> rows[i].time < at
    ensures RetryAfter(rows + [Audit(true, Some(id), from, at)], scope, now) == 0
  {
    hide LatestSince;
    var after := rows + [Audit(true, Some(id), from, at)];
    assert Init(after) == rows;
    OldRowsDoNotCount(rows, scope, Since(after, scope, now - WINDOW));
  }

  /** What others do changes nothing for an account, nor for an unknown email tried from
      another address. */
  lemma OthersDoNotMatter(rows: seq<Audit>, row: Audit, admin: Option<nat>, ip: Option<string>, now: int)
    requires row.admin != admin || (admin.None? && row.ip != ip)
    ensures Check(rows + [row], admin, ip, now) == Check(rows, admin, ip, now)
  {
    hide CountSince, LatestSince, Since, RetryAfter;
    if admin.Some? {
      OtherCounter(rows, row, AccountWide(admin.value), now);
    }
    if ip.GetOr("") != "" {
      OtherCounter(rows, row, if admin.Some? then AccountFrom(admin.value, ip.value) else UnknownFrom(ip.value), now);
    }
  }

  lemma OtherCounter(rows: seq<Audit>, row: Audit, scope: Scope, now: int)
    requires !scope.Covers(row) && !scope.Clears(row)
    ensures RetryAfter(rows + [row], scope, now) == RetryAfter(rows, scope, now)
  {
    assert Init(rows + [row]) == rows;
  }

  /** Guessing from elsewhere does not lock an administrator out: an address with fewer than
      five failures of its own within the hour is let through as long as the account has
      fewer than twenty from all addresses together. */
  lemma FewFailuresAreFree(rows: seq<Audit>, id: nat, ip: Option<string>, now: int)
    requires CountSince(rows, AccountWide(id), now - WINDOW) < 20
    requires ip.GetOr("") != "" ==> CountSince(rows, AccountFrom(id, ip.value), now - WINDOW) < 5
    ensures Check(rows, Some(id), ip, now) == 0
  {
    hide CountSince, LatestSince, Since;
    FewDoNotLock(rows, AccountWide(id), now);
    if ip.GetOr("") != "" {
      FewDoNotLock(rows, AccountFrom(id, ip.value), now);
    }
  }

  lemma FewDoNotLock(rows: seq<Audit>, scope: Scope, now: int)
    requires CountSince(rows, scope, now - WINDOW) < 5 * scope.Factor()
    ensures RetryAfter(rows, scope, now) == 0
  {
    hide CountSince, LatestSince, Since;
    SinceIsAtLeast(rows, scope, now - WINDOW);
    EarlierStartCountsMore(rows, scope, now - WINDOW, Since(rows, scope, now - WINDOW));
  }

  // ------------------------------------------------------------- the login

  const DRIFT_STEPS: nat := 1

  /** An administrator's account; `totp` says that a second factor is set up. */
  datatype Admin = Admin(id: nat, active: bool, totp: bool, lastUsedStep: Option<int>, lastLoginAt: Option<int>)

  datatype Reply = LockedOut(retryAfter: nat) | Unauthorized | TotpRequired | Unavailable | LoggedIn

  /** What the client sends, and what checking it finds: whether the password is right, for
      which time steps the code, if there is one, is right, and whether the stored secret
      can be decrypted. */
  datatype Credentials = Credentials(passwordOk: bool, code: Option<int -> bool>, decrypts: bool)

  predicate IsFresh(step: int, lastUsed: Option<int>) {
    lastUsed.Some? ==> step > lastUsed.value
  }

  /** A step of the drift window, newer than the last one used, that the code is right for. */
  predicate Verifies(matches: int -> bool, lastUsed: Option<int>, current: int, step: int) {
    current - DRIFT_STEPS <= step <= current + DRIFT_STEPS && IsFresh(step, lastUsed) && matches(step)
  }

  predicate SomeStepVerifies(matches: int -> bool, lastUsed: Option<int>, current: int) {
    exists step :: current - DRIFT_STEPS <= step <= current + DRIFT_STEPS && Verifies(matches, lastUsed, current, step)
  }

  method VerifyTotp(matches: int -> bool, lastUsed: Option<int>, current: int) returns (step: Option<int>)
    ensures step.Some? <==> SomeStepVerifies(matches, lastUsed, current)
    ensures step.Some? ==> Verifies(matches, lastUsed, current, step.value)
    ensures step.Some? ==> forall s :: Verifies(matches, lastUsed, current, s) ==> step.value <= s
  {
    for s := current - DRIFT_STEPS to current + DRIFT_STEPS + 1
      invariant forall s' :: s' < s ==> !Verifies(matches, lastUsed, current, s')
    {
      if IsFresh(s, lastUsed) && matches(s) {
        assert Verifies(matches, lastUsed, current, s);
        return Some(s);
      }
    }
    return None;
  }

  method WorstCase(rows: seq<Audit>, scope: Scope, now: int) returns (retryAfter: nat)
    ensures retryAfter == RetryAfter(rows, scope, now)
  {
    var since := Since(rows, scope, now - WINDOW);
    var failures := CountSince(rows, scope, since);
    if failures == 0 {
      return 0;
    }
    var lockout := LockoutSecondsFor(failures, scope.Factor());
    if lockout.None? {
      return 0;
    }
    var left := LatestSince(rows, scope, since) + lockout.value * SECOND - now;
    return if left > 0 then left / SECOND else 0;
  }

  method CheckRateLimit(rows: seq<Audit>, admin: Option<nat>, ip: Option<string>, now: int) returns (retryAfter: nat)
    ensures retryAfter == Check(rows, admin, ip, now)
  {
    hide RetryAfter;
    if admin.None? {
      if ip.GetOr("") == "" {
        return 0;
      }
      retryAfter := WorstCase(rows, UnknownFrom(ip.value), now);
      return;
    }
    retryAfter := WorstCase(rows, AccountWide(admin.value), now);
    if ip.GetOr("") != "" {
      var here := WorstCase(rows, AccountFrom(admin.value, ip.value), now);
      retryAfter := Max(retryAfter, here);
    }
  }

  /** Whom a login is for, and everything that decides it apart from the lockout. */
  predicate Authentic(admin: Option<Admin>, c: Credentials, step: int) {
    && admin.Some? && admin.value.active && c.passwordOk
    && (admin.value.totp ==> c.code.Some? && c.decrypts && SomeStepVerifies(c.code.value, admin.value.lastUsedStep, step))
  }

  /** A right password with the code still to come, or a secret that cannot be read. */
  predicate Undecided(admin: Option<Admin>, c: Credentials) {
    admin.Some? && admin.value.active && c.passwordOk && admin.value.totp && (c.code.None? || !c.decrypts)
  }

  function VerdictOf(admin: Option<Admin>, c: Credentials, step: int): Verdict {
    if Authentic(admin, c, step) then Right else if Undecided(admin, c) then NotRecorded else Wrong
  }

  function IdOf(admin: Option<Admin>): Option<nat> {
    if admin.Some? then Some(admin.value.id) else None
  }

  /** A time step whose code an account's login accepted. */
  datatype Accepted = Accepted(id: nat, step: int)

  ghost predicate DistinctIds(admins: map<string, Admin>) {
    forall email, email' :: email in admins && email' in admins && admins[email].id == admins[email'].id ==> email == email'
  }

  /** No account's login has accepted a code twice, or one older than one before. */
  ghost predicate CodesUsedOnce(admins: map<string, Admin>, accepted: seq<Accepted>) {
    && (forall i, j :: 0 <= i < j < |accepted| && accepted[i].id == accepted[j].id ==> accepted[i].step < accepted[j].step)
    && (forall i, email :: 0 <= i < |accepted| && email in admins && admins[email].id == accepted[i].id ==>
          admins[email].lastUsedStep.Some? && accepted[i].step <= admins[email].lastUsedStep.value)
  }

  lemma OneMoreCode(admins: map<string, Admin>, accepted: seq<Accepted>, email: string, updated: Admin)
    requires DistinctIds(admins) && CodesUsedOnce(admins, accepted) && email in admins && updated.id == admins[email].id
    requires updated.lastUsedStep.Some? && IsFresh(updated.lastUsedStep.value, admins[email].lastUsedStep)
    ensures DistinctIds(admins[email := updated])
    ensures CodesUsedOnce(admins[email := updated], accepted + [Accepted(updated.id, updated.lastUsedStep.value)])
  {
  }

  lemma NoCodeUsed(admins: map<string, Admin>, accepted: seq<Accepted>, email: string, updated: Admin)
    requires DistinctIds(admins) && CodesUsedOnce(admins, accepted) && email in admins
    requires updated.id == admins[email].id && updated.lastUsedStep == admins[email].lastUsedStep
    ensures DistinctIds(admins[email := updated]) && CodesUsedOnce(admins[email := updated], accepted)
  {
  }

  /** The account table and the login rows of the audit log. */
  class LoginService {
    var admins: map<string, Admin>
    var rows: seq<Audit>
    ghost var accepted: seq<Accepted>

    ghost predicate Valid()
      reads this
    {
      DistinctIds(admins) && CodesUsedOnce(admins, accepted)
    }

    function AdminOf(email: string): Option<Admin>
      reads this
    {
      if email in admins then Some(admins[email]) else None
    }

    constructor (admins: map<string, Admin>)
      requires DistinctIds(admins)
      ensures Valid() && rows == [] && this.admins == admins
    {
      this.admins := admins;
      rows := [];
      accepted := [];
    }

    method RecordLoginAttempt(admin: Option<nat>, ip: Option<string>, success: bool, time: int)
      modifies this`rows
      ensures rows == old(rows) + [Audit(success, admin, ip, time)]
    {
      rows := rows + [Audit(success, admin, ip, time)];
    }

    /** One login, checked at `now` and recorded at `recordedAt`, all under the lock. */
    method Login(email: string, ip: Option<string>, now: int, c: Credentials, step: int, recordedAt: int) returns (reply: Reply)
      requires Valid()
      modifies this
      ensures Valid()
      ensures var admin := old(AdminOf(email));
              var wait := Check(old(rows), IdOf(admin), ip, now);
              && rows == Step(old(rows), Attempt(IdOf(admin), ip, now, VerdictOf(admin, c, step), recordedAt))
              && (reply.LockedOut? <==> wait > 0) && (reply.LockedOut? ==> reply.retryAfter == wait)
              && (reply.LoggedIn? <==> wait == 0 && Authentic(admin, c, step))
              && (reply.TotpRequired? <==>
                    wait == 0 && admin.Some? && admin.value.active && c.passwordOk && admin.value.totp && c.code.None?)
              && (reply.Unavailable? <==>
                    && wait == 0 && admin.Some? && admin.value.active && c.passwordOk && admin.value.totp
                    && c.code.Some? && !c.decrypts)
      ensures rows == old(rows) + match reply
                        case LoggedIn => [Audit(true, old(IdOf(AdminOf(email))), ip, recordedAt)]
                        case Unauthorized => [Audit(false, old(IdOf(AdminOf(email))), ip, recordedAt)]
                        case _ => []
      ensures !reply.LoggedIn? ==> admins == old(admins) && accepted == old(accepted)
      ensures reply.LoggedIn? ==> email in old(admins) && email in admins
      ensures reply.LoggedIn? ==>
                && admins == old(admins)[email := old(admins[email]).(lastLoginAt := Some(recordedAt), lastUsedStep := admins[email].lastUsedStep)]
                && (if old(admins[email].totp) then
                      && admins[email].lastUsedStep.Some?
                      && Verifies(c.code.value, old(admins[email].lastUsedStep), step, admins[email].lastUsedStep.value)
                      && (forall s :: Verifies(c.code.value, old(admins[email].lastUsedStep), step, s) ==> admins[email].lastUsedStep.value <= s)
                      && accepted == old(accepted) + [Accepted(admins[email].id, admins[email].lastUsedStep.value)]
                    else accepted == old(accepted) && admins[email].lastUsedStep == old(admins[email].lastUsedStep))
    {
      hide Check, SomeStepVerifies, DistinctIds, CodesUsedOnce;
      var admin := AdminOf(email);
      var wait := CheckRateLimit(rows, IdOf(admin), ip, now);
      if wait > 0 {
        return LockedOut(wait);
      }
      if admin.None? || !admin.value.active || !c.passwordOk {
        RecordLoginAttempt(IdOf(admin), ip, false, recordedAt);
        return Unauthorized;
      }
      var updated := admin.value;
      if updated.totp {
        if c.code.None? {
          return TotpRequired;
        }
        if !c.decrypts {
          return Unavailable;
        }
        var used := VerifyTotp(c.code.value, updated.lastUsedStep, step);
        if used.None? {
          RecordLoginAttempt(IdOf(admin), ip, false, recordedAt);
          return Unauthorized;
        }
        updated := updated.(lastUsedStep := used, lastLoginAt := Some(recordedAt));
        OneMoreCode(admins, accepted, email, updated);
        accepted := accepted + [Accepted(updated.id, used.value)];
      } else {
        updated := updated.(lastLoginAt := Some(recordedAt));
        NoCodeUsed(admins, accepted, email, updated);
      }
      admins := admins[email := updated];
      RecordLoginAttempt(IdOf(admin), ip, true, recordedAt);
      return LoggedIn;
    }

    /** Asking for the current password goes through the same counters. */
    method RequireCurrentPassword(admin: Admin, ip: Option<string>, now: int, passwordOk: bool, recordedAt: int) returns (reply: Reply)
      modifies this`rows
      ensures var wait := Check(old(rows), Some(admin.id), ip, now);
              && rows == Step(old(rows), Attempt(Some(admin.id), ip, now, if passwordOk then NotRecorded else Wrong, recordedAt))
              && (reply == if wait > 0 then LockedOut(wait) else if passwordOk then LoggedIn else Unauthorized)
      ensures rows == old(rows) + if reply.Unauthorized? then [Audit(false, Some(admin.id), ip, recordedAt)] else []
    {
      hide Check;
      var wait := CheckRateLimit(rows, Some(admin.id), ip, now);
      if wait > 0 {
        return LockedOut(wait);
      }
      if !passwordOk {
        RecordLoginAttempt(Some(admin.id), ip, false, recordedAt);
        return Unauthorized;
      }
      return LoggedIn;
    }
  }
}
