/**
 TLS certificates: installing a pair on Postfix, recording an issued one, manual DNS-01
 orders that survive between requests, and the daily renewal tick.
 */
module Certificates {
  import opened Prelude

  const HOUR: nat := 3600 * 1_000_000
  const DAY: nat := 24 * HOUR
  const MANUAL_CHALLENGE_TTL: nat := 24 * HOUR
  const RENEWAL_THRESHOLD: nat := 30 * DAY

  // ------------------------------------------------- the files Postfix serves

  /** What Postfix and openssl do when asked to install a pair. */
  datatype Checks = Checks(expired: bool, keysMatch: bool, starts: bool, restarts: bool)

  /** Whether the control surface is reached at all, and whether its reply arrives. */
  datatype Contact = Contact(reached: bool, replies: bool, checks: Checks)

  datatype Outcome = Installed | Refused | Unreachable

  datatype Files = Files(crt: Option<string>, key: Option<string>)

  /** What the backend learns from trying to install a pair. */
  function OutcomeOf(files: Files, cert: string, key: string, contact: Contact): Outcome {
    if !contact.reached || !contact.replies then Unreachable
    else if contact.checks.expired || !contact.checks.keysMatch then Refused
    else if files == Files(Some(cert), Some(key)) || contact.checks.starts then Installed
    else Refused
  }

  class PostfixTls {
    var files: Files
    var running: bool

    constructor (files: Files, running: bool)
      ensures this.files == files && this.running == running
    {
      this.files := files;
      this.running := running;
    }

    method RestoreTlsFiles(previous: Files)
      modifies this`files
      ensures files.crt == if previous.crt.Some? then previous.crt else old(files).crt
      ensures files.key == if previous.key.Some? then previous.key else old(files).key
    {
      if previous.crt.Some? {
        files := files.(crt := previous.crt);
      }
      if previous.key.Some? {
        files := files.(key := previous.key);
      }
    }

    /** Installs a pair, or reports that it would not do. On success the pair is live; a
        pair that fails a check changes nothing; and if Postfix does not start with it, the
        previous files are back exactly if both existed. */
    method InstallTlsCertificate(cert: string, key: string, checks: Checks) returns (success: bool)
      modifies this
      ensures success <==> !checks.expired && checks.keysMatch && (old(files) == Files(Some(cert), Some(key)) || checks.starts)
      ensures success ==> files == Files(Some(cert), Some(key))
      ensures success && old(files) == files ==> running == old(running)
      ensures success && old(files) != files ==> running
      ensures checks.expired || !checks.keysMatch ==> files == old(files) && running == old(running)
      ensures !success && !checks.expired && checks.keysMatch ==>
                && files == Files(Some(old(files).crt.GetOr(cert)), Some(old(files).key.GetOr(key)))
                && (files == old(files) <==> old(files).crt.Some? && old(files).key.Some?)
                && (running <==> checks.restarts && old(files) != Files(None, None))
    {
      if checks.expired || !checks.keysMatch {
        return false;
      }
      var previous := files;
      if previous.crt == Some(cert) && previous.key == Some(key) {
        return true;
      }
      files := files.(crt := Some(cert));
      files := files.(key := Some(key));
      running := checks.starts;
      if !running {
        if previous.crt.Some? || previous.key.Some? {
          RestoreTlsFiles(previous);
          running := checks.restarts;
        }
        return false;
      }
      return true;
    }
  }

  // ---------------------------------------------------------------- the records

  datatype Issued = Issued(cert: string, key: string, notBefore: int, notAfter: int)

  datatype Account = Account(key: string, uri: string)

  /** The recorded certificate; nothing yet while the self-signed placeholder is in use. */
  datatype CertState = Placeholder | LetsEncrypt(domain: string, issued: Issued, issuedAt: int, account: Account)

  /** The empty string stands for an unset domain. */
  datatype Settings = Settings(acmeEnabled: bool, domain: string, provider: string, hasToken: bool)

  datatype Order = Order(id: nat, domain: string, certKey: string, account: Account, recordName: string, recordValue: string)

  datatype Pending = Pending(order: Order, expiresAt: int)

  datatype Jobs = Jobs(lastCheckedAt: Option<int>, lastAttemptAt: Option<int>, lastError: Option<string>)

  // ------------------------------------------------------------ what has happened

  /** A certificate the authority issued, and what came of installing it. */
  datatype Issuance = Issuance(domain: string, issued: Issued, outcome: Outcome)

  /** A manual order handed to the authority to be finalized, some time after its expiry
      was checked: in between lies the wait for its record. */
  datatype Finalization = Finalization(order: Order, checkedAt: int, handedInAt: int, expiresAt: int, configured: string)

  /** A renewal attempt by the tick, which started at `start`, closed the gate at `gate` and
      placed its order, if it came to that, at `order`. */
  datatype Renewal = Renewal(start: int, gate: int, order: int)

  /** The recorded certificate, key and domain come from one issuance, not refused. */
  ghost predicate FromOneIssuance(cert: CertState, issuances: seq<Issuance>) {
    cert.LetsEncrypt? ==>
      exists i :: 0 <= i < |issuances| && issuances[i].domain == cert.domain && issuances[i].issued == cert.issued
                  && !issuances[i].outcome.Refused?
  }

  lemma MoreIssuances(cert: CertState, issuances: seq<Issuance>, last: Issuance)
    requires FromOneIssuance(cert, issuances)
    ensures FromOneIssuance(cert, issuances + [last])
  {
    if cert.LetsEncrypt? {
      var i :| 0 <= i < |issuances| && issuances[i].domain == cert.domain && issuances[i].issued == cert.issued
               && !issuances[i].outcome.Refused?;
      assert (issuances + [last])[i] == issuances[i];
    }
  }

  lemma LastIssuance(cert: CertState, issuances: seq<Issuance>, last: Issuance)
    requires cert.LetsEncrypt? && last.domain == cert.domain && last.issued == cert.issued && !last.outcome.Refused?
    ensures FromOneIssuance(cert, issuances + [last])
  {
    assert (issuances + [last])[|issuances|] == last;
  }

  /** Each manual order was handed in at most once, after it was found unexpired and for the
      configured domain; and a pending order has not been handed in. */
  ghost predicate OrdersSpentOnce(finalizations: seq<Finalization>, pending: Option<Pending>) {
    && (forall i, j :: 0 <= i < j < |finalizations| ==> finalizations[i].order.id != finalizations[j].order.id)
    && (forall f :: f in finalizations ==> f.checkedAt < f.expiresAt && f.checkedAt <= f.handedInAt && f.order.domain == f.configured)
    && (pending.Some? ==> IsUnspent(pending.value.order.id, finalizations) && pending.value.order.domain != "")
  }

  ghost predicate IsUnspent(id: nat, finalizations: seq<Finalization>) {
    forall f :: f in finalizations ==> f.order.id != id
  }

  /** What may follow a renewal attempt: one tick at a time, and a day after the gate closed. */
  predicate MayFollow(last: Renewal, next: Renewal) {
    last.order <= next.start <= next.gate <= next.order && next.start >= last.gate + DAY
  }

  /** Each renewal attempt starts a day or more after the previous one closed the gate. */
  ghost predicate ADayApart(renewals: seq<Renewal>) {
    && (forall i :: 0 <= i < |renewals| ==> renewals[i].start <= renewals[i].gate <= renewals[i].order)
    && (forall i :: 0 < i < |renewals| ==> MayFollow(renewals[i - 1], renewals[i]))
  }

  ghost predicate Gated(renewals: seq<Renewal>, lastCheckedAt: Option<int>) {
    ADayApart(renewals) && (renewals != [] ==> lastCheckedAt.Some? && Last(renewals).gate <= lastCheckedAt.value)
  }

  lemma OneMoreRenewal(renewals: seq<Renewal>, lastCheckedAt: Option<int>, next: Renewal)
    requires Gated(renewals, lastCheckedAt) && next.start <= next.gate <= next.order
    requires renewals != [] ==> Last(renewals).order <= next.start
    requires lastCheckedAt.Some? ==> next.start - lastCheckedAt.value >= DAY
    ensures Gated(renewals + [next], Some(next.gate)) && Gated(renewals, Some(next.gate))
  {
  }

  function GatesBetween(renewals: seq<Renewal>, from: int, to: int): nat {
    if renewals == [] then 0
    else GatesBetween(Init(renewals), from, to) + if from <= Last(renewals).gate <= to then 1 else 0
  }

  function OrdersBetween(renewals: seq<Renewal>, from: int, to: int): nat {
    if renewals == [] then 0
    else OrdersBetween(Init(renewals), from, to) + if from <= Last(renewals).order <= to then 1 else 0
  }

  lemma ADayApartBefore(renewals: seq<Renewal>)
    requires ADayApart(renewals) && renewals != []
    ensures ADayApart(Init(renewals))
    ensures Init(renewals) != [] ==> MayFollow(Last(Init(renewals)), Last(renewals))
  {
    if |renewals| > 1 {
      assert MayFollow(renewals[|renewals| - 2], renewals[|renewals| - 1]);
    }
  }

  lemma {:induction false} FirstCounted(renewals: seq<Renewal>, from: int, to: int)
    requires ADayApart(renewals) && GatesBetween(renewals, from, to) > 0
    ensures Last(renewals).gate >= from + (GatesBetween(renewals, from, to) - 1) * DAY
  {
    hide ADayApart;
    ADayApartBefore(renewals);
    if GatesBetween(Init(renewals), from, to) > 0 {
      FirstCounted(Init(renewals), from, to);
    }
  }

  /** Over any stretch of time the tick closes the gate at most once a day, plus once,
      whatever became of the attempts. */
  lemma {:induction false} RenewalsPerDay(renewals: seq<Renewal>, from: int, to: int)
    requires ADayApart(renewals) && from <= to
    ensures GatesBetween(renewals, from, to) <= 1 + (to - from) / DAY
  {
    if renewals != [] {
      ADayApartBefore(renewals);
      if from <= Last(renewals).gate <= to {
        FirstCounted(renewals, from, to);
        DaysFit(GatesBetween(renewals, from, to) - 1, to - from);
      } else {
        RenewalsPerDay(Init(renewals), from, to);
      }
    }
  }

  /** From the second order in a stretch on, the gates are a day apart within it. */
  lemma {:induction false} SecondCounted(renewals: seq<Renewal>, from: int, to: int)
    requires ADayApart(renewals) && OrdersBetween(renewals, from, to) > 0
    ensures Last(renewals).order >= from
    ensures OrdersBetween(renewals, from, to) > 1 ==>
              Last(renewals).gate >= from + (OrdersBetween(renewals, from, to) - 2) * DAY
  {
    hide ADayApart;
    assert ADayApart(renewals) ==> Last(renewals).start <= Last(renewals).gate <= Last(renewals).order by {
      LastInOrder(renewals);
    }
    ADayApartBefore(renewals);
    if OrdersBetween(Init(renewals), from, to) > 0 {
      SecondCounted(Init(renewals), from, to);
    }
  }

  lemma LastInOrder(renewals: seq<Renewal>)
    requires renewals != [] && ADayApart(renewals)
    ensures Last(renewals).start <= Last(renewals).gate <= Last(renewals).order
  {
  }

  /** Orders themselves: over any stretch of time at most one a day, plus two. */
  lemma {:induction false} OrdersPerDay(renewals: seq<Renewal>, from: int, to: int)
    requires ADayApart(renewals) && from <= to
    ensures OrdersBetween(renewals, from, to) <= 2 + (to - from) / DAY
  {
    if renewals != [] {
      LastInOrder(renewals);
      ADayApartBefore(renewals);
      if from <= Last(renewals).order <= to {
        SecondCounted(renewals, from, to);
        if OrdersBetween(renewals, from, to) > 1 {
          DaysFit(OrdersBetween(renewals, from, to) - 2, to - from);
        }
      } else {
        OrdersPerDay(Init(renewals), from, to);
      }
    }
  }

  /** How far two orders are apart: a day for each attempt between them, less the time the
      first one spent between closing the gate and placing its order. */
  lemma {:induction false} OrdersAreSpaced(renewals: seq<Renewal>, i: nat, j: nat)
    requires ADayApart(renewals) && i < j < |renewals|
    ensures renewals[j].order - renewals[i].order >= (j - i) * DAY - (renewals[i].order - renewals[i].gate)
    ensures renewals[j].gate >= renewals[i].gate + (j - i) * DAY
    decreases j
  {
    assert MayFollow(renewals[j - 1], renewals[j]);
    if i < j - 1 {
      OrdersAreSpaced(renewals, i, j - 1);
    }
  }

  /** An input: the first order is placed half a minute after its gate was closed, the second
      at once a day after that gate; they are less than a day apart, so the bound above is met. */
  lemma OrdersLessThanADayApart()
    ensures var first, second := Renewal(0, 0, 30_000_000), Renewal(DAY, DAY, DAY);
            && ADayApart([first, second]) && second.order - first.order == DAY - 30_000_000
            && OrdersBetween([first, second], first.order, second.order) == 2
  {
    var first, second := Renewal(0, 0, 30_000_000), Renewal(DAY, DAY, DAY);
    assert Init([first, second]) == [first] && Init([first]) == [];
    assert OrdersBetween([first], first.order, second.order) == 1;
  }

  /** Exactly when orders are a day apart: whatever tick comes next, its order follows a day
      or more later, if and only if this order was placed the moment the gate was closed. */
  lemma ADayApartIffAtOnce(last: Renewal)
    requires last.gate <= last.order
    ensures (forall next :: MayFollow(last, next) ==> next.order - last.order >= DAY) <==> last.order == last.gate
  {
    if last.order > last.gate {
      var start := Max(last.order, last.gate + DAY);
      assert MayFollow(last, Renewal(start, start, start));
    }
  }

  lemma DaysFit(days: nat, time: int)
    requires days * DAY <= time
    ensures days <= time / DAY
  {
  }

  // ---------------------------------------------------------------- the service

  /** Whether the stored token can be decrypted, and the certificate the authority issues
      with the account it was issued to, if it does. */
  datatype Automatic = Automatic(tokenDecrypts: bool, result: Option<(Issued, Account)>, at: int, contact: Contact)

  /** A new order, up to the domain, which is the configured one. */
  datatype NewOrder = NewOrder(id: nat, certKey: string, account: Account, recordName: string, recordValue: string)

  datatype Manual = Manual(propagated: bool, keysDecrypt: bool, handedInAt: int, result: Option<Issued>, at: int, contact: Contact)

  predicate IsLive(pending: Option<Pending>, domain: string, now: int) {
    pending.Some? && pending.value.order.domain == domain && pending.value.expiresAt > now
  }

  /** The order that a request to finalize hands in, if it does. */
  function HandIn(pending: Option<Pending>, domain: string, now: int, m: Manual): Option<Finalization> {
    if IsLive(pending, domain, now) && m.propagated && m.keysDecrypt then
      Some(Finalization(pending.value.order, now, m.handedInAt, pending.value.expiresAt, domain))
    else None
  }

  /** An input: an order with five seconds to live, whose record becomes visible after ten,
      is handed in when it has expired. */
  lemma ExpiredOrderIsHandedIn(order: Order, result: Option<Issued>, contact: Contact)
    ensures var second := 1_000_000;
            var m := Manual(true, true, 10 * second, result, 10 * second, contact);
            var handedIn := HandIn(Some(Pending(order, 5 * second)), order.domain, 0, m);
            handedIn.Some? && handedIn.value.handedInAt > handedIn.value.expiresAt
  {
  }

  /** Exactly when no order is handed in expired: for every wait of up to `wait`, if and only
      if the order outlives that wait, counted from the check. */
  lemma UnexpiredAtHandInIff(pending: Pending, now: int, wait: nat)
    requires pending.expiresAt > now
    ensures (forall m: Manual :: m.propagated && m.keysDecrypt && now <= m.handedInAt <= now + wait ==>
               HandIn(Some(pending), pending.order.domain, now, m).value.handedInAt < pending.expiresAt) <==>
            now + wait < pending.expiresAt
  {
    var last := Manual(true, true, now + wait, None, now + wait, Contact(false, false, Checks(false, false, false, false)));
    assert HandIn(Some(pending), pending.order.domain, now, last).value.handedInAt == now + wait;
  }

  class CertificateService {
    const postfix: PostfixTls
    var settings: Settings
    var cert: CertState
    var pending: Option<Pending>
    var jobs: Jobs
    ghost var issuances: seq<Issuance>
    ghost var finalizations: seq<Finalization>
    ghost var renewals: seq<Renewal>

    ghost predicate Valid()
      reads this
    {
      FromOneIssuance(cert, issuances) && OrdersSpentOnce(finalizations, pending) && Gated(renewals, jobs.lastCheckedAt)
    }

    /** Postfix serves the recorded certificate. */
    predicate Serves()
      reads this`cert, postfix`files
    {
      cert.LetsEncrypt? && postfix.files == Files(Some(cert.issued.cert), Some(cert.issued.key))
    }

    constructor (postfix: PostfixTls, settings: Settings)
      ensures Valid() && this.postfix == postfix && this.settings == settings
      ensures cert == Placeholder && pending.None? && finalizations == [] && renewals == []
    {
      this.postfix := postfix;
      this.settings := settings;
      cert, pending, jobs := Placeholder, None, Jobs(None, None, None);
      issuances, finalizations, renewals := [], [], [];
    }

    method UpdateTlsSettings(settings: Settings)
      requires Valid()
      modifies this`settings
      ensures Valid() && this.settings == settings
    {
      this.settings := settings;
    }

    /** The backend's call: an unreachable control surface, or a reply that never arrives. */
    method Install(cert: string, key: string, contact: Contact) returns (outcome: Outcome)
      modifies postfix
      ensures outcome == OutcomeOf(old(postfix.files), cert, key, contact)
      ensures outcome.Unreachable? <==> !(contact.reached && contact.replies)
      ensures outcome.Installed? <==>
                && contact.reached && contact.replies && !contact.checks.expired && contact.checks.keysMatch
                && (old(postfix.files) == Files(Some(cert), Some(key)) || contact.checks.starts)
      ensures outcome.Installed? ==> postfix.files == Files(Some(cert), Some(key))
      ensures !contact.reached ==> postfix.files == old(postfix.files) && postfix.running == old(postfix.running)
    {
      if !contact.reached {
        return Unreachable;
      }
      var success := postfix.InstallTlsCertificate(cert, key, contact.checks);
      return if !contact.replies then Unreachable else if success then Installed else Refused;
    }

    /** Installs a new certificate and records it unless Postfix refused it. */
    method FinishIssuance(domain: string, issued: Issued, account: Account, at: int, contact: Contact) returns (success: bool)
      requires Valid() && postfix as object != this
      modifies this`cert, this`jobs, this`issuances, postfix
      ensures Valid()
      ensures var last := Issuance(domain, issued, OutcomeOf(old(postfix.files), issued.cert, issued.key, contact));
              && issuances == old(issuances) + [last]
              && (success <==> last.outcome.Installed?)
              && cert == (if last.outcome.Refused? then old(cert) else LetsEncrypt(domain, issued, at, account))
              && jobs == (if success then old(jobs).(lastError := None) else old(jobs))
      // an answer that never came does not lose the certificate; one that was refused is not kept
      ensures !(contact.reached && contact.replies) ==> !success && cert == LetsEncrypt(domain, issued, at, account)
      ensures contact.reached && contact.replies ==>
                && (success <==> !contact.checks.expired && contact.checks.keysMatch
                                 && (old(postfix.files) == Files(Some(issued.cert), Some(issued.key)) || contact.checks.starts))
                && cert == if success then LetsEncrypt(domain, issued, at, account) else old(cert)
      ensures success ==> Serves()
    {
      var outcome := Install(issued.cert, issued.key, contact);
      ghost var last := Issuance(domain, issued, outcome);
      if outcome.Refused? {
        MoreIssuances(cert, issuances, last);
      } else {
        cert := LetsEncrypt(domain, issued, at, account);
        LastIssuance(cert, issuances, last);
      }
      if outcome.Installed? {
        jobs := jobs.(lastError := None);
      }
      issuances := issuances + [last];
      return outcome.Installed?;
    }

    /** The preconditions of an automatic issuance, all checked before the authority is asked. */
    predicate CanIssue(a: Automatic)
      reads this`settings
    {
      settings.acmeEnabled && settings.domain != "" && settings.provider == "cloudflare" && settings.hasToken && a.tokenDecrypts
    }

    method IssueOrRenew(a: Automatic) returns (success: bool)
      requires Valid() && postfix as object != this
      modifies this`cert, this`jobs, this`issuances, postfix
      ensures Valid() && jobs.lastCheckedAt == old(jobs).lastCheckedAt && jobs.lastAttemptAt == old(jobs).lastAttemptAt
      ensures if CanIssue(a) && a.result.Some? then
                var issued := a.result.value.0;
                var last := Issuance(settings.domain, issued, OutcomeOf(old(postfix.files), issued.cert, issued.key, a.contact));
                && issuances == old(issuances) + [last] && (success <==> last.outcome.Installed?)
                && cert == (if last.outcome.Refused? then old(cert) else LetsEncrypt(settings.domain, issued, a.at, a.result.value.1))
                && jobs == (if success then old(jobs).(lastError := None) else old(jobs))
              else !success && cert == old(cert) && issuances == old(issuances) && jobs == old(jobs)
      // one certificate is issued if the authority grants one and every precondition holds
      ensures |issuances| == |old(issuances)| + 1 <==>
                && settings.acmeEnabled && settings.domain != "" && settings.provider == "cloudflare" && settings.hasToken
                && a.tokenDecrypts && a.result.Some?
      ensures success ==> Serves() && cert.domain == settings.domain && jobs.lastError == None
    {
      if !CanIssue(a) {
        return false;
      }
      if a.result.None? {
        return false;
      }
      success := FinishIssuance(settings.domain, a.result.value.0, a.result.value.1, a.at, a.contact);
    }

    /** Whether a manual challenge for the configured domain is under way. */
    predicate InProgress(now: int)
      reads this
    {
      IsLive(pending, settings.domain, now)
    }

    /** Starts a manual challenge, or shows the one under way; returns the TXT record to add.
        The authority hands out no order that was finalized before. */
    method BeginManualDnsChallenge(now: int, created: Option<NewOrder>) returns (record: Option<(string, string)>)
      requires Valid()
      requires created.Some? ==> IsUnspent(created.value.id, finalizations)
      modifies this`pending
      ensures Valid()
      ensures var allowed := settings.acmeEnabled && settings.domain != "" && settings.provider == "manual";
              && (old(pending).Some? && old(pending).value.order.domain == settings.domain && old(pending).value.expiresAt > now ==>
                    pending == old(pending))
              && (record.Some? <==> allowed && (old(InProgress(now)) || created.Some?))
              && (record.Some? ==>
                    InProgress(now) && record.value == (pending.value.order.recordName, pending.value.order.recordValue))
              && (record.None? ==> pending == old(pending))
              && (record.Some? && !old(InProgress(now)) ==>
                    var c := created.value;
                    pending == Some(Pending(Order(c.id, settings.domain, c.certKey, c.account, c.recordName, c.recordValue),
                                            now + MANUAL_CHALLENGE_TTL)))
    {
      if !settings.acmeEnabled || settings.domain == "" || settings.provider != "manual" {
        return None;
      }
      if pending.Some? && pending.value.order.domain == settings.domain && pending.value.expiresAt > now {
        return Some((pending.value.order.recordName, pending.value.order.recordValue));
      }
      if created.None? {
        return None;
      }
      var c := created.value;
      pending := Some(Pending(Order(c.id, settings.domain, c.certKey, c.account, c.recordName, c.recordValue),
                              now + MANUAL_CHALLENGE_TTL));
      return Some((c.recordName, c.recordValue));
    }

    /** Checks the pending challenge and, if its record is visible, has its order finalized. */
    method FinalizeManualDnsChallenge(now: int, m: Manual) returns (success: bool)
      requires Valid() && postfix as object != this && now <= m.handedInAt
      modifies this`cert, this`pending, this`jobs, this`issuances, this`finalizations, postfix
      ensures Valid() && jobs.lastCheckedAt == old(jobs).lastCheckedAt
      // the challenge survives exactly while it can still be completed later
      ensures pending == if old(InProgress(now)) && !(m.propagated && m.keysDecrypt) then old(pending) else None
      // the order is handed in exactly if it was live when checked and its record became visible
      ensures var handedIn := HandIn(old(pending), settings.domain, now, m);
              finalizations == if handedIn.Some? then old(finalizations) + [handedIn.value] else old(finalizations)
      ensures |finalizations| > |old(finalizations)| <==>
                && old(pending).Some? && old(pending).value.expiresAt > now && old(pending).value.order.domain == settings.domain
                && m.propagated && m.keysDecrypt
      ensures |finalizations| > |old(finalizations)| ==>
                Last(finalizations) == Finalization(old(pending).value.order, now, m.handedInAt, old(pending).value.expiresAt, settings.domain)
      ensures if |finalizations| > |old(finalizations)| && m.result.Some? then
                var order := old(pending).value.order;
                var issued := m.result.value.(key := order.certKey);
                var last := Issuance(settings.domain, issued, OutcomeOf(old(postfix.files), issued.cert, issued.key, m.contact));
                && issuances == old(issuances) + [last] && (success <==> last.outcome.Installed?)
                && cert == (if last.outcome.Refused? then old(cert) else LetsEncrypt(settings.domain, issued, m.at, order.account))
                && jobs == (if success then old(jobs).(lastError := None) else old(jobs))
              else !success && cert == old(cert) && issuances == old(issuances) && jobs == old(jobs)
      ensures success ==> Serves() && cert.domain == settings.domain
    {
      if pending.None? {
        return false;
      }
      var row := pending.value;
      if row.expiresAt <= now {
        pending := None;
        return false;
      }
      if row.order.domain != settings.domain {
        pending := None;
        return false;
      }
      if !m.propagated || !m.keysDecrypt {
        return false;
      }
      finalizations := finalizations + [Finalization(row.order, now, m.handedInAt, row.expiresAt, settings.domain)];
      pending := None;
      if m.result.None? {
        return false;
      }
      success := FinishIssuance(row.order.domain, m.result.value.(key := row.order.certKey), row.order.account, m.at, m.contact);
    }

    /** Pushes the recorded certificate to Postfix, so that lost files heal. */
    method SyncCertificateToPostfix(keyDecrypts: bool, contact: Contact)
      requires postfix as object != this
      modifies postfix
      ensures cert.Placeholder? || !keyDecrypts || !contact.reached ==>
                postfix.files == old(postfix.files) && postfix.running == old(postfix.running)
      ensures old(Serves()) ==> Serves() && postfix.running == old(postfix.running)
      ensures cert.LetsEncrypt? && keyDecrypts && contact.reached ==>
                !contact.checks.expired && contact.checks.keysMatch && contact.checks.starts ==> Serves()
    {
      if cert.Placeholder? || !keyDecrypts || !contact.reached {
        return;
      }
      var _ := postfix.InstallTlsCertificate(cert.issued.cert, cert.issued.key, contact.checks);
    }

    predicate GateIsOpen(now: int)
      reads this
    {
      jobs.lastCheckedAt.Some? ==> now - jobs.lastCheckedAt.value >= DAY
    }

    predicate IsDue(at: int)
      reads this
    {
      cert.Placeholder? || cert.issued.notAfter - at < RENEWAL_THRESHOLD
    }

    /** What an attempt that was not cut short leaves behind: it issued and recorded as far as
        it could, and says whether Postfix has it. */
    ghost predicate ShowsAttempt(a: Automatic, certBefore: CertState, issuancesBefore: seq<Issuance>)
      reads this`settings, this`cert, this`jobs, this`issuances
    {
      if CanIssue(a) && a.result.Some? then
        && |issuances| == |issuancesBefore| + 1 && Last(issuances).domain == settings.domain
        && Last(issuances).issued == a.result.value.0
        && (jobs.lastError.None? <==> Last(issuances).outcome.Installed?)
        && cert == (if Last(issuances).outcome.Refused? then certBefore
                    else LetsEncrypt(settings.domain, a.result.value.0, a.at, a.result.value.1))
      else jobs.lastError.Some? && cert == certBefore && issuances == issuancesBefore
    }

    /** The attempt itself, after the gate was closed and that was committed: an exception
        out of it discards everything since. */
    method AttemptRenewal(a: Automatic, raises: bool)
      requires Valid() && postfix as object != this
      modifies this`cert, this`jobs, this`issuances, postfix
      ensures Valid() && jobs.lastCheckedAt == old(jobs).lastCheckedAt && jobs.lastAttemptAt == old(jobs).lastAttemptAt
      ensures raises ==> cert == old(cert) && jobs == old(jobs)
      ensures !raises ==> ShowsAttempt(a, old(cert), old(issuances))
      ensures !raises && jobs.lastError.None? ==> Serves() && cert.domain == settings.domain
    {
      hide Gated, OrdersSpentOnce, FromOneIssuance;
      var committedCert, committedJobs := cert, jobs;
      ghost var before := issuances;
      var success := IssueOrRenew(a);
      if raises {
        if |issuances| > |before| {
          assert issuances == before + [Last(issuances)];
          MoreIssuances(committedCert, before, Last(issuances));
        }
        cert, jobs := committedCert, committedJobs;
        return;
      }
      jobs := jobs.(lastError := if success then None else Some("renewal failed"));
    }

    /** One tick, which reads the clock four times and then places its order, if it comes to
        that. The gate is closed, and that committed, before a renewal is attempted. */
    method CertRenewalTick(now: int, dueAt: int, checkedAt: int, attemptAt: int, orderAt: int, syncContact: Contact,
                           keyDecrypts: bool, a: Automatic, raises: bool)
      returns (attempted: bool)
      requires Valid() && postfix as object != this && now <= dueAt <= checkedAt <= attemptAt <= orderAt
      requires renewals != [] ==> Last(renewals).order <= now
      modifies this`cert, this`jobs, this`issuances, this`renewals, postfix
      ensures Valid()
      ensures attempted <==>
                && settings.acmeEnabled
                && (old(jobs).lastCheckedAt.Some? ==> now >= old(jobs).lastCheckedAt.value + DAY)
                && (old(cert).LetsEncrypt? ==> old(cert).issued.notAfter < dueAt + RENEWAL_THRESHOLD)
      ensures renewals == if attempted then old(renewals) + [Renewal(now, checkedAt, orderAt)] else old(renewals)
      ensures jobs.lastCheckedAt ==
                if settings.acmeEnabled && old(GateIsOpen(now)) then Some(checkedAt) else old(jobs).lastCheckedAt
      ensures attempted ==> jobs.lastAttemptAt == Some(attemptAt)
      ensures !attempted || raises ==> cert == old(cert)
      ensures !attempted ==> issuances == old(issuances) && jobs.lastAttemptAt == old(jobs).lastAttemptAt
      ensures !attempted || raises ==> jobs.lastError == old(jobs).lastError
      ensures attempted && !raises ==> ShowsAttempt(a, old(cert), old(issuances))
      ensures attempted && !raises && jobs.lastError.None? ==> Serves() && cert.domain == settings.domain
      // Postfix is left alone while the gate is closed, and healed when it opens
      ensures !settings.acmeEnabled || !old(GateIsOpen(now)) ==>
                postfix.files == old(postfix.files) && postfix.running == old(postfix.running)
      ensures settings.acmeEnabled && old(GateIsOpen(now)) && !attempted && keyDecrypts && syncContact.reached ==>
                !syncContact.checks.expired && syncContact.checks.keysMatch && syncContact.checks.starts ==> Serves()
    {
      if !settings.acmeEnabled {
        return false;
      }
      if jobs.lastCheckedAt.Some? && now - jobs.lastCheckedAt.value < DAY {
        return false;
      }
      hide Gated, OrdersSpentOnce, FromOneIssuance, Serves, CanIssue, OutcomeOf, ShowsAttempt;
      OneMoreRenewal(renewals, jobs.lastCheckedAt, Renewal(now, checkedAt, orderAt));
      SyncCertificateToPostfix(keyDecrypts, syncContact);
      var due := IsDue(dueAt);
      jobs := jobs.(lastCheckedAt := Some(checkedAt));
      if !due {
        return false;
      }
      jobs := jobs.(lastAttemptAt := Some(attemptAt));
      renewals := renewals + [Renewal(now, checkedAt, orderAt)];
      AttemptRenewal(a, raises);
      return true;
    }
  }
}
