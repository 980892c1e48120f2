/**
 From the text of the log to the row shown for a message: what Postfix logs about one
 message, and the row that parsing and correlating those lines gives.
 */
module MailTable {
  import opened Prelude
  import opened MailParser
  import opened MailLines
  import opened MailIngest

  /** A message that a client submitted: who it was, what it said, and every attempt to
      deliver it, each line with its own header. */
  datatype Submission = Submission(
    queueId: string,
    login: Header, client: string, username: string,
    enqueued: Header, sender: string, more: string,
    attempts: seq<(Header, DeliveryLine)>)
  {
    ghost predicate Valid() {
      && IsQueueId(queueId)
      && login.Valid() && Message(client) && !Mentions(client, SASL_USERNAME) && username != "" && AllIn(username, NotSpace)
      && enqueued.Valid() && '>' !in sender && '\n' !in sender && '\n' !in more
      && !Mentions("from=<" + sender + ">" + more, SASL_USERNAME)
      && forall i :: 0 <= i < |attempts| ==> attempts[i].0.Valid() && attempts[i].1.Valid()
    }

    function Lines(): seq<string> {
      [login.Line(queueId + ": " + (client + SASL_USERNAME + username)),
       enqueued.Line(queueId + ": " + ("from=<" + sender + ">" + more))] + AttemptLines(queueId, attempts)
    }

    predicate Reaches(recipient: string) {
      exists i :: 0 <= i < |attempts| && attempts[i].1.recipient == recipient
    }

    /** The detail reported by the last attempt that was not a success and had one. */
    ghost predicate LastProblem(detail: string) {
      exists i :: 0 <= i < |attempts| && ProblemAt(i) == Some(detail) && forall j :: i < j < |attempts| ==> ProblemAt(j).None?
    }

    function ProblemAt(i: nat): Option<string>
      requires i < |attempts|
    {
      if attempts[i].1.outcome.Delivered? then None else attempts[i].1.detail
    }
  }

  function AttemptLines(queueId: string, attempts: seq<(Header, DeliveryLine)>): seq<string> {
    if attempts == [] then []
    else AttemptLines(queueId, Init(attempts)) + [Last(attempts).0.Line(queueId + ": " + Last(attempts).1.Body())]
  }

  function AttemptEvents(queueId: string, attempts: seq<(Header, DeliveryLine)>): (events: seq<LogEvent>)
    ensures |events| == |attempts|
  {
    if attempts == [] then []
    else AttemptEvents(queueId, Init(attempts)) + [Last(attempts).1.Event(Last(attempts).0.stamp, queueId)]
  }

  lemma {:induction false} AttemptsAreRead(queueId: string, attempts: seq<(Header, DeliveryLine)>)
    requires IsQueueId(queueId)
    requires forall i :: 0 <= i < |attempts| ==> attempts[i].0.Valid() && attempts[i].1.Valid()
    ensures Parsed(AttemptLines(queueId, attempts)) == AttemptEvents(queueId, attempts)
  {
    hide ParseLine, Header.Line, Header.Valid, DeliveryLine.Valid, DeliveryLine.Event, DeliveryLine.Body, IsQueueId;
    if attempts != [] {
      var last := attempts[|attempts| - 1];
      AttemptsAreRead(queueId, Init(attempts));
      DeliveryRoundTrip(last.0, queueId, last.1);
      var line := last.0.Line(queueId + ": " + last.1.Body());
      var lines := AttemptLines(queueId, Init(attempts));
      assert Init(lines + [line]) == lines && Last(lines + [line]) == line;
    }
  }

  function EventsOf(m: Submission): seq<LogEvent> {
    [LogEvent(Auth, m.login.stamp, Some(m.queueId), Some(m.username), None, None, None, None, None),
     LogEvent(Enqueued, m.enqueued.stamp, Some(m.queueId), None, Some(m.sender), None, None, None, None)]
      + AttemptEvents(m.queueId, m.attempts)
  }

  lemma LinesAreRead(m: Submission)
    requires m.Valid()
    ensures Parsed(m.Lines()) == EventsOf(m)
  {
    hide ParseLine, Header.Line, Header.Valid, DeliveryLine.Valid, IsQueueId, Message, Mentions, AttemptLines, AttemptEvents;
    AuthRoundTrip(m.login, m.queueId, m.client, m.username);
    EnqueuedRoundTrip(m.enqueued, m.queueId, m.sender, m.more);
    AttemptsAreRead(m.queueId, m.attempts);
    var first := m.login.Line(m.queueId + ": " + (m.client + SASL_USERNAME + m.username));
    var second := m.enqueued.Line(m.queueId + ": " + ("from=<" + m.sender + ">" + m.more));
    ParsedInParts([first, second], AttemptLines(m.queueId, m.attempts));
    ParsedInParts([first], [second]);
    assert [first] + [second] == [first, second];
    assert Parsed([]) == [] && Init([first]) == [] && Init([second]) == [];
  }

  // ------------------------------------------------------- the row of a message

  /** What the table should say about a message. */
  ghost predicate Shows(row: Row, m: Submission, directory: Directory) {
    && row.timestamp == m.login.stamp && row.envelopeSender == m.sender
    && row.localUser == Lookup(directory.users, m.username)
    && row.upstreamAccount == (if m.attempts == [] then None else Lookup(directory.accounts, m.sender))
    && (forall r :: r in row.recipients <==> r != "" && m.Reaches(r))
    && (forall a, b :: 0 <= a < b < |row.recipients| ==> row.recipients[a] != row.recipients[b])
    && ShowsStatus(row, m) && ShowsError(row, m)
  }

  /** The status of the last attempt with a known outcome, queued until there is one. */
  ghost predicate ShowsStatus(row: Row, m: Submission) {
    && (row.status == Queued <==> forall i :: 0 <= i < |m.attempts| ==> m.attempts[i].1.outcome.Other?)
    && forall i :: 0 <= i < |m.attempts| && !m.attempts[i].1.outcome.Other?
                   && (forall j :: i < j < |m.attempts| ==> m.attempts[j].1.outcome.Other?) ==>
         Some(row.status) == m.attempts[i].1.outcome.Status()
  }

  /** The last problem, which a later success does not erase. */
  ghost predicate ShowsError(row: Row, m: Submission) {
    && (row.error.None? <==> forall i :: 0 <= i < |m.attempts| ==> m.ProblemAt(i).None?)
    && (row.error.Some? ==> m.LastProblem(row.error.value))
  }

  lemma {:induction false} AttemptEvent(queueId: string, attempts: seq<(Header, DeliveryLine)>, i: nat)
    requires i < |attempts|
    ensures AttemptEvents(queueId, attempts)[i] == attempts[i].1.Event(attempts[i].0.stamp, queueId)
  {
    hide DeliveryLine.Event;
    if i < |attempts| - 1 {
      AttemptEvent(queueId, Init(attempts), i);
    } else if i > 0 {
      AttemptEvent(queueId, Init(attempts), i - 1);
    }
  }

  /** The events of a message: the login, the envelope sender, then the attempts. */
  ghost predicate IsHistoryOf(own: seq<Entry>, m: Submission) {
    && |own| == 2 + |m.attempts|
    && own[0].event == LogEvent(Auth, m.login.stamp, Some(m.queueId), Some(m.username), None, None, None, None, None)
    && own[1].event == LogEvent(Enqueued, m.enqueued.stamp, Some(m.queueId), None, Some(m.sender), None, None, None, None)
    && forall i :: 2 <= i < |own| ==> own[i].event == m.attempts[i - 2].1.Event(m.attempts[i - 2].0.stamp, m.queueId)
  }

  lemma HistoryOf(own: seq<Entry>, m: Submission)
    requires Events(own) == EventsOf(m)
    ensures IsHistoryOf(own, m)
  {
    hide AttemptEvents, DeliveryLine.Event;
    assert |own| == |Events(own)| == 2 + |m.attempts|;
    forall i | 2 <= i < |own| ensures own[i].event == m.attempts[i - 2].1.Event(m.attempts[i - 2].0.stamp, m.queueId) {
      AttemptEvent(m.queueId, m.attempts, i - 2);
      assert Events(own)[i] == own[i].event;
    }
    assert Events(own)[0] == own[0].event && Events(own)[1] == own[1].event;
  }

  lemma {:induction false} WhoAndWhere(own: seq<Entry>, m: Submission, directory: Directory)
    requires IsHistoryOf(own, m) && m.username != ""
    ensures LastKnown(SenderIn, own) == Some(m.sender) && LastKnown(UsernameIn, own) == Some(m.username)
    ensures AccountOf(own, directory) == if m.attempts == [] then None else Lookup(directory.accounts, m.sender)
    decreases |m.attempts|
  {
    hide LastKnown, AccountOf, Lookup;
    var e := Last(own);
    assert own == Init(own) + [e];
    LastKnownOfMore(SenderIn, Init(own), e);
    LastKnownOfMore(UsernameIn, Init(own), e);
    AccountOfMore(Init(own), e, directory);
    if m.attempts == [] {
      assert Init(own) == [own[0]];
      LastKnownOfOne(SenderIn, own[0]);
      LastKnownOfOne(UsernameIn, own[0]);
      AccountOfMore([], own[0], directory);
      assert [] + [own[0]] == [own[0]];
      NoAccountYet(directory);
    } else {
      WhoAndWhere(Init(own), m.(attempts := Init(m.attempts)), directory);
    }
  }

  lemma NoAccountYet(directory: Directory)
    ensures AccountOf([], directory) == None
  {
  }

  lemma StatusIsShown(own: seq<Entry>, m: Submission, row: Row)
    requires IsHistoryOf(own, m) && row.status == LastKnown(StatusIn, own).GetOr(Queued)
    ensures ShowsStatus(row, m)
  {
    hide LastKnown;
    LastKnownIsLast(StatusIn, own);
    assert forall i :: 0 <= i < |m.attempts| ==> StatusIn(own[i + 2]) == m.attempts[i].1.outcome.Status();
  }

  lemma ErrorIsShown(own: seq<Entry>, m: Submission, row: Row)
    requires IsHistoryOf(own, m) && row.error == LastKnown(ErrorIn, own)
    ensures ShowsError(row, m)
  {
    hide LastKnown;
    LastKnownIsLast(ErrorIn, own);
    forall i | 0 <= i < |m.attempts| ensures ErrorIn(own[i + 2]) == m.ProblemAt(i) {
    }
    if row.error.Some? {
      var i :| 0 <= i < |own| && ErrorIn(own[i]) == row.error && forall j :: i < j < |own| ==> ErrorIn(own[j]).None?;
      assert m.ProblemAt(i - 2) == row.error;
    }
  }

  lemma RecipientsAreShown(own: seq<Entry>, m: Submission, r: string)
    requires IsHistoryOf(own, m)
    ensures r in RecipientsOf(own) <==> r != "" && m.Reaches(r)
  {
    hide RecipientsOf;
    RecipientsInFirstSeenOrder(own);
    forall i | 0 <= i < |m.attempts| ensures RecipientIn(own[i + 2]) == Some(r) <==> r != "" && m.attempts[i].1.recipient == r {
    }
    if r in RecipientsOf(own) {
      var i :| 0 <= i < |own| && RecipientIn(own[i]) == Some(r);
      assert m.attempts[i - 2].1.recipient == r;
    }
    if r != "" && m.Reaches(r) {
      var i :| 0 <= i < |m.attempts| && m.attempts[i].1.recipient == r;
      assert RecipientIn(own[i + 2]) == Some(r);
    }
  }

  /** The events of one message among those of a log. */
  function OfMessage(events: seq<LogEvent>, queueId: string): seq<LogEvent> {
    if events == [] then []
    else OfMessage(Init(events), queueId) + if Last(events).queueId == Some(queueId) then [Last(events)] else []
  }

  lemma {:induction false} OwnAreOfMessage(history: seq<Entry>, queueId: string)
    requires AllWellFormed(history) && IsQueueId(queueId)
    ensures Events(Own(history, queueId)) == OfMessage(Events(history), queueId)
  {
    hide IsQueueId;
    if history != [] {
      var e := Last(history);
      OwnAreOfMessage(Init(history), queueId);
      assert WellFormed(history[|history| - 1].event);
      assert Events(history) == Events(Init(history)) + [e.event];
      assert Init(Events(history)) == Events(Init(history));
      QueueIdsAreNotSynthetic(queueId, e.draw);
    }
  }

  /** Whatever else is logged before, after and in between: a message of which all lines
      have been read is shown as it was. */
  lemma MessageIsShown(m: Submission, history: seq<Entry>, directory: Directory)
    requires m.Valid() && AllWellFormed(history)
    requires OfMessage(Events(history), m.queueId) == EventsOf(m)
    ensures m.queueId in Table(history, directory)
    ensures Shows(Table(history, directory)[m.queueId], m, directory)
  {
    hide LastKnown, RecipientsOf, AccountOf, Own, Ids, OfMessage, Header.Valid, DeliveryLine.Valid, IsQueueId, Message, Mentions, ShowsStatus, ShowsError;
    var own := Own(history, m.queueId);
    OwnAreOfMessage(history, m.queueId);
    HistoryOf(own, m);
    OwnIsAll(history, m.queueId);
    var row := Summary(own, directory);
    WhoAndWhere(own, m, directory);
    StatusIsShown(own, m, row);
    ErrorIsShown(own, m, row);
    RecipientsInFirstSeenOrder(own);
    forall r ensures r in row.recipients <==> r != "" && m.Reaches(r) {
      RecipientsAreShown(own, m, r);
    }
  }

  lemma {:induction false} AttemptsAreOfMessage(before: seq<LogEvent>, queueId: string, attempts: seq<(Header, DeliveryLine)>)
    requires OfMessage(before, queueId) == before
    ensures OfMessage(before + AttemptEvents(queueId, attempts), queueId) == before + AttemptEvents(queueId, attempts)
  {
    hide DeliveryLine.Event;
    if attempts == [] {
      assert before + [] == before;
    } else {
      EventIsOfMessage(Last(attempts).1, Last(attempts).0.stamp, queueId);
      AttemptsAreOfMessage(before, queueId, Init(attempts));
      var e := Last(attempts).1.Event(Last(attempts).0.stamp, queueId);
      var earlier := before + AttemptEvents(queueId, Init(attempts));
      assert before + AttemptEvents(queueId, attempts) == earlier + [e];
      assert Init(earlier + [e]) == earlier && Last(earlier + [e]) == e;
    }
  }

  lemma EventIsOfMessage(d: DeliveryLine, timestamp: string, queueId: string)
    ensures d.Event(timestamp, queueId).queueId == Some(queueId)
  {
  }

  /** So are the lines of the message by themselves. */
  lemma LinesAreShown(m: Submission, draw: nat -> string, directory: Directory)
    requires m.Valid()
    ensures var table := Table(Entries(m.Lines(), draw), directory);
            m.queueId in table && Shows(table[m.queueId], m, directory)
  {
    hide Header.Valid, DeliveryLine.Valid, IsQueueId, Message, Mentions, Shows, Table, AttemptEvents, Entries, WellFormed, Submission.Valid, Submission.Lines;
    var history := Entries(m.Lines(), draw);
    LinesAreRead(m);
    EntriesAreParsed(m.Lines(), draw);
    EntriesAreWellFormed(m.Lines(), draw);
    var first, second := EventsOf(m)[0], EventsOf(m)[1];
    assert Init([first, second]) == [first] && Init([first]) == [] && OfMessage([], m.queueId) == [];
    AttemptsAreOfMessage([first, second], m.queueId, m.attempts);
    MessageIsShown(m, history, directory);
  }

  lemma {:induction false} EntriesAreWellFormed(lines: seq<string>, draw: nat -> string)
    ensures AllWellFormed(Entries(lines, draw))
  {
    hide ParseLine, WellFormed;
    if lines != [] {
      EntriesAreWellFormed(Init(lines), draw);
      if ParseLine(Last(lines)).Some? {
        ParsedIsWellFormed(Last(lines));
      }
    }
  }

  // ------------------------------------------------- the row of a refused message

  /** A message refused before it got a queue id is shown in a row of its own, and no
      other row changes. */
  lemma RefusalIsShown(header: Header, r: RejectLine, history: seq<Entry>, draw: string, directory: Directory)
    requires header.Valid() && r.Valid() && AllWellFormed(history) && REJECT + draw !in Table(history, directory)
    ensures ParseLine(header.Line(r.Text())).Some?
    ensures Table(history + [Entry(ParseLine(header.Line(r.Text())).value, draw)], directory) ==
              Table(history, directory)[REJECT + draw :=
                Row(header.stamp, if r.username.Some? then Lookup(directory.users, r.username.value) else None,
                    r.sender, if r.recipient == "" then [] else [r.recipient], Rejected, Some(r.code), None)]
  {
    hide Header.Valid, Header.Line, ParseLine, Table, Own, Ids, IsQueueId, RejectLine.Text, Mentions, AllWellFormed, AllIn;
    RejectRoundTrip(header, r);
    ParsedIsWellFormed(header.Line(r.Text()));
    IdsAreKeys(history, directory);
    TableGrows(history, Entry(ParseLine(header.Line(r.Text())).value, draw), directory);
  }
}
