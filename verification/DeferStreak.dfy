/**
 The defer streak of a local user, defined on the history of what the limiter told
 Postfix about that user and of the times an administrator cleared the streak.
 */
module DeferStreak {
  import opened Prelude

  /** Ten minutes: a longer silence between two defers starts a new streak. */
  const GAP: int := 600_000_000

  datatype Entry = Permit(at: int) | Defer(at: int) | Cleared(at: int)

  datatype Streak = Streak(since: int, latest: int)

  ghost predicate InOrder(log: seq<Entry>) {
    forall i, j :: 0 <= i < j < |log| ==> log[i].at <= log[j].at
  }

  /** The times at which messages were let through. */
  function PermitTimes(log: seq<Entry>): seq<int> {
    if log == [] then []
    else PermitTimes(Init(log)) + (if Last(log).Permit? then [Last(log).at] else [])
  }

  function StreakOf(log: seq<Entry>): Option<Streak> {
    if log == [] || !Last(log).Defer? then None
    else
      var now := Last(log).at;
      match StreakOf(Init(log))
      case Some(streak) => Some(Streak(if now - streak.latest > GAP then now else streak.since, now))
      case None => Some(Streak(now, now))
  }

  /** From position `i` on, nothing but defers, each at most ten minutes after the one before. */
  ghost predicate UnbrokenFrom(log: seq<Entry>, i: int) {
    && 0 <= i < |log|
    && (forall k :: i <= k < |log| ==> log[k].Defer?)
    && (forall k :: i < k < |log| ==> log[k].at - log[k - 1].at <= GAP)
  }

  /** ... and the entry before `i` does not belong to the same chain. */
  ghost predicate MaximalFrom(log: seq<Entry>, i: int) {
    && UnbrokenFrom(log, i)
    && (i == 0 || !log[i - 1].Defer? || log[i].at - log[i - 1].at > GAP)
  }

  /** A recorded streak is the longest unbroken chain of defers that ends the history:
      it starts and ends at real defers, with no permit and no long silence in between. */
  lemma {:induction false} StreakIsMaximalChain(log: seq<Entry>) returns (i: int)
    ensures StreakOf(log).Some? <==> log != [] && Last(log).Defer?
    ensures StreakOf(log).Some? ==>
              MaximalFrom(log, i) && StreakOf(log).value == Streak(log[i].at, Last(log).at)
  {
    i := 0;
    if log != [] && Last(log).Defer? {
      var before := Init(log);
      var j := StreakIsMaximalChain(before);
      if StreakOf(before).Some? && Last(log).at - Last(before).at <= GAP {
        i := j;
        assert forall k :: 0 <= k < |before| ==> log[k] == before[k];
      } else {
        i := |log| - 1;
        assert i > 0 ==> log[i - 1] == Last(before);
      }
    }
  }

  /** The converse: any maximal chain at the end of the history is the recorded streak. */
  lemma MaximalChainIsStreak(log: seq<Entry>, i: int)
    requires MaximalFrom(log, i)
    ensures StreakOf(log) == Some(Streak(log[i].at, Last(log).at))
  {
    assert log[|log| - 1].Defer?;
    var j := StreakIsMaximalChain(log);
    assert i == j;
  }

  /** The query shared by the auto-disable tick and the alerts bell. */
  predicate Throttled(streak: Option<Streak>, cutoff: int, activeSince: int) {
    streak.Some? && streak.value.since <= cutoff && streak.value.latest >= activeSince
  }

  /** A throttled user has had no message through and no clearing by an administrator
      after the cutoff, and was deferred without a break from then to the recent past. */
  lemma ThrottledMeansContinuously(log: seq<Entry>, cutoff: int, activeSince: int) returns (i: int)
    requires InOrder(log)
    requires Throttled(StreakOf(log), cutoff, activeSince)
    ensures UnbrokenFrom(log, i) && log[i].at <= cutoff && Last(log).at >= activeSince
    ensures forall k :: 0 <= k < |log| && !log[k].Defer? ==> k < i && log[k].at <= cutoff
  {
    i := StreakIsMaximalChain(log);
    forall k | 0 <= k < |log| && !log[k].Defer? ensures k < i && log[k].at <= cutoff {
      assert k < i;
    }
  }

  /** The converse too: a user is throttled if and only if some chain of defers, none more than
      ten minutes after the one before, reaches from the cutoff or earlier to the recent past. */
  lemma ThrottledIff(log: seq<Entry>, cutoff: int, activeSince: int)
    requires InOrder(log)
    ensures Throttled(StreakOf(log), cutoff, activeSince) <==>
            exists i :: UnbrokenFrom(log, i) && log[i].at <= cutoff && Last(log).at >= activeSince
  {
    var j := StreakIsMaximalChain(log);
    if i :| UnbrokenFrom(log, i) && log[i].at <= cutoff && Last(log).at >= activeSince {
      assert log[|log| - 1].Defer?;
      assert j <= i;
    }
  }

  /** A single rejection followed by silence is never throttling (the bug in #183). */
  lemma SilenceEndsThrottling(log: seq<Entry>, cutoff: int, now: int)
    requires forall e :: e in log ==> e.at < now - GAP
    ensures !Throttled(StreakOf(log), cutoff, now - GAP)
  {
    var i := StreakIsMaximalChain(log);
  }
}
