/**
 A whole policy connection: from the bytes Postfix sends to the verdicts it gets back.
 */
module PolicyConnection {
  import opened Prelude
  import opened LimiterSpec
  import DeferStreak
  import PolicyService
  import PolicyWire

  /** `sasl_username` in ASCII. No other byte string decodes to that name, and no other
      attribute is looked at. */
  const SASL_USERNAME_BYTES: PolicyWire.Bytes := [115, 97, 115, 108, 95, 117, 115, 101, 114, 110, 97, 109, 101]

  /** When each request is evaluated, whether that raises, and how bytes decode. */
  datatype Circumstances = Circumstances(at: nat -> int, fails: nat -> bool, decode: PolicyWire.Bytes -> string)

  function NamedUser(attrs: PolicyWire.Attributes, decode: PolicyWire.Bytes -> string): map<string, string> {
    if SASL_USERNAME_BYTES in attrs then map[PolicyService.SASL_USERNAME := decode(attrs[SASL_USERNAME_BYTES])] else map[]
  }

  /** The requests that a list of attribute maps amounts to. */
  function Asked(evaluated: seq<PolicyWire.Attributes>, c: Circumstances): (requests: seq<PolicyService.Request>)
    ensures |requests| == |evaluated|
  {
    seq(|evaluated|, i requires 0 <= i < |evaluated| => PolicyService.Request(NamedUser(evaluated[i], c.decode), c.at(i), c.fails(i)))
  }

  ghost predicate InTime(c: Circumstances, clock: int) {
    forall i: nat, j: nat :: i <= j ==> clock <= c.at(i) <= c.at(j)
  }

  /** Serves a connection until it closes: one verdict for each request that could be read. */
  method Serve(store: PolicyService.LimiterStore, stream: PolicyWire.Bytes, c: Circumstances) returns (verdicts: seq<PolicyService.Verdict>)
    requires store.Valid() && InTime(c, store.clock)
    modifies store`users, store`counters, store`buckets, store`log, store`clock
    ensures store.Valid() && PolicyService.SameConfiguration(old(store.users), store.users)
    ensures PolicyService.Answered(old(store.users), old(store.log), Asked(PolicyWire.Evaluated(stream), c), verdicts)
    ensures PolicyService.Predicts(old(store.users), old(store.log), Asked(PolicyWire.Evaluated(stream), c), store.users, store.log)
  {
    hide PolicyService.Answered, PolicyService.Predicts, PolicyService.AllFit, PolicyService.AllLegal, PolicyWire.Evaluated;
    var evaluated := PolicyWire.HandleConnection(stream);
    verdicts := store.HandleConnection(Asked(evaluated, c));
  }

  /** End to end: requests within the limits of the protocol, encoded one after another and
      cut off anywhere in a last one, get one verdict each, in order; each is the one that
      the permits of the user it names call for, and the connection adds to each user's
      permits exactly what the specification predicts. */
  method ServeRequests(store: PolicyService.LimiterStore, requests: seq<seq<PolicyWire.Attribute>>, last: seq<PolicyWire.Attribute>,
                       n: nat, stream: PolicyWire.Bytes, c: Circumstances)
    returns (verdicts: seq<PolicyService.Verdict>)
    requires store.Valid() && InTime(c, store.clock)
    requires PolicyWire.Sendable(last) && n < |PolicyWire.Encode(last)| && forall r :: r in requests ==> PolicyWire.Sendable(r)
    requires stream == PolicyWire.EncodeAll(requests) + PolicyWire.Encode(last)[..n]
    modifies store`users, store`counters, store`buckets, store`log, store`clock
    ensures store.Valid() && |verdicts| == |requests|
    ensures PolicyService.Answered(old(store.users), old(store.log), Asked(PolicyWire.Meanings(requests), c), verdicts)
    ensures PolicyService.Predicts(old(store.users), old(store.log), Asked(PolicyWire.Meanings(requests), c), store.users, store.log)
  {
    hide PolicyService.Predicts, PolicyService.AllFit, PolicyService.AllLegal, PolicyWire.Evaluated, PolicyWire.Encode;
    PolicyWire.OnlyWholeRequestsCount(requests, last, n);
    MeaningsAreOneEach(requests);
    verdicts := Serve(store, stream, c);
  }

  lemma {:induction false} MeaningsAreOneEach(requests: seq<seq<PolicyWire.Attribute>>)
    ensures |PolicyWire.Meanings(requests)| == |requests|
  {
    if requests != [] {
      MeaningsAreOneEach(requests[1..]);
    }
  }

  /** Whatever bytes arrive, each user's permits stay within every bound. */
  lemma ServedStreamWithinBounds(users: PolicyService.Users, log: PolicyService.Logs, clock: int, stream: PolicyWire.Bytes, c: Circumstances,
                                 users': PolicyService.Users, log': PolicyService.Logs, name: string, s: int, t: int)
    requires PolicyService.Predicts(users, log, Asked(PolicyWire.Evaluated(stream), c), users', log')
    requires PolicyService.AllLegal(users, log) && InTime(c, clock)
    requires name in users && name != "" && users[name].perHour.Some? && s <= t
    requires forall e :: e in log[users[name].id] ==> e.at <= clock
    ensures WithinBounds(PolicyService.LimitsFor(users[name]), DeferStreak.PermitTimes(log'[users[name].id]), s, t)
  {
    hide PolicyService.Predicts, WithinBounds;
    PolicyService.ServedWithinBounds(users, log, clock, Asked(PolicyWire.Evaluated(stream), c), users', log', name, s, t);
  }
}
