/**
 Correlating mail log events into one row per message, updated in place line by line,
 and proved equal to grouping all events by queue id and summarising each group.
 */
module MailIngest {
  import opened Prelude
  import opened MailParser
  import opened LogTail
  import Text

  const MAX_CHUNKS_PER_TICK: nat := 50

  /** The two lookup tables, user name to user id and sender address to account id. */
  datatype Directory = Directory(users: map<string, nat>, accounts: map<string, nat>)

  datatype Row = Row(
    timestamp: string,
    localUser: Option<nat>,
    envelopeSender: string,
    recipients: seq<string>,
    status: MailStatus,
    error: Option<string>,
    upstreamAccount: Option<nat>)

  /** An event together with the random identifier it gets if it has no queue id. */
  datatype Entry = Entry(event: LogEvent, draw: string)

  const REJECT: string := "REJECT-"

  function RowId(e: Entry): string {
    e.event.queueId.GetOr(REJECT + e.draw)
  }

  function Lookup(m: map<string, nat>, key: string): Option<nat> {
    if key in m then Some(m[key]) else None
  }

  /** What `EventsAreWellFormed` establishes for every parsed line. */
  ghost predicate WellFormed(e: LogEvent) {
    && (e.kind.Reject? <==> e.queueId.None?)
    && (e.queueId.Some? ==> IsQueueId(e.queueId.value))
    && (!e.kind.Enqueued? && !e.kind.Reject? ==> e.envelopeSender.None?)
  }

  ghost predicate AllWellFormed(history: seq<Entry>) {
    forall i :: 0 <= i < |history| ==> WellFormed(history[i].event)
  }

  /** No queue id looks like the identifier of a rejected message. */
  lemma QueueIdsAreNotSynthetic(queueId: string, draw: string)
    requires IsQueueId(queueId)
    ensures queueId != REJECT + draw
  {
    var synthetic := REJECT + draw;
    assert synthetic[6] == '-' && synthetic[6] in synthetic;
  }

  // --------------------------------------------------- the declarative summary

  /** The last value that the events of one message report. */
  function LastKnown<T>(reported: Entry -> Option<T>, own: seq<Entry>): Option<T> {
    if own == [] then None
    else if reported(Last(own)).Some? then reported(Last(own))
    else LastKnown(reported, Init(own))
  }

  lemma {:induction false} LastKnownIsLast<T>(reported: Entry -> Option<T>, own: seq<Entry>)
    ensures LastKnown(reported, own).None? <==> forall i :: 0 <= i < |own| ==> reported(own[i]).None?
    ensures LastKnown(reported, own).Some? ==>
              exists i :: 0 <= i < |own| && reported(own[i]) == LastKnown(reported, own)
                          && forall j :: i < j < |own| ==> reported(own[j]).None?
  {
    if own != [] {
      LastKnownIsLast(reported, Init(own));
      if reported(Last(own)).Some? {
        assert reported(own[|own| - 1]) == LastKnown(reported, own);
      } else if LastKnown(reported, Init(own)).Some? {
        var i :| 0 <= i < |own| - 1 && reported(Init(own)[i]) == LastKnown(reported, Init(own))
                 && forall j :: i < j < |own| - 1 ==> reported(Init(own)[j]).None?;
        assert reported(own[i]) == LastKnown(reported, own);
        assert forall j :: i < j < |own| - 1 ==> own[j] == Init(own)[j];
      }
    }
  }

  function SenderIn(e: Entry): Option<string> {
    if e.event.kind.Enqueued? then e.event.envelopeSender else None
  }

  function UsernameIn(e: Entry): Option<string> {
    if e.event.kind.Auth? && e.event.saslUsername.GetOr("") != "" then e.event.saslUsername else None
  }

  function StatusIn(e: Entry): Option<MailStatus> {
    if e.event.kind.Delivery? then e.event.status else None
  }

  function ErrorIn(e: Entry): Option<string> {
    if e.event.kind.Delivery? then e.event.error else None
  }

  function RecipientIn(e: Entry): Option<string> {
    if e.event.kind.Delivery? && e.event.recipient.GetOr("") != "" then e.event.recipient else None
  }

  function SenderOf(own: seq<Entry>): string {
    LastKnown(SenderIn, own).GetOr("")
  }

  function UserOf(own: seq<Entry>, directory: Directory): Option<nat> {
    match LastKnown(UsernameIn, own)
    case None => None
    case Some(username) => Lookup(directory.users, username)
  }

  function RecipientsOf(own: seq<Entry>): seq<string> {
    if own == [] then []
    else
      var earlier := RecipientsOf(Init(own));
      match RecipientIn(Last(own))
      case None => earlier
      case Some(recipient) => if recipient in earlier then earlier else earlier + [recipient]
  }

  /** The account, at the latest delivery at which there was one, of the sender then known. */
  function AccountOf(own: seq<Entry>, directory: Directory): Option<nat> {
    if own == [] then None
    else if Last(own).event.kind.Delivery? && Lookup(directory.accounts, SenderOf(own)).Some? then
      Lookup(directory.accounts, SenderOf(own))
    else AccountOf(Init(own), directory)
  }

  function RejectRow(e: LogEvent, directory: Directory): Row {
    Row(e.timestamp,
        if e.saslUsername.GetOr("") != "" then Lookup(directory.users, e.saslUsername.value) else None,
        e.envelopeSender.GetOr(""),
        if e.recipient.GetOr("") != "" then [e.recipient.value] else [],
        Rejected, e.error, None)
  }

  /** The row of a message, from the events of that message alone. */
  function Summary(own: seq<Entry>, directory: Directory): Row
    requires own != []
  {
    if own[0].event.kind.Reject? then RejectRow(own[0].event, directory)
    else
      Row(own[0].event.timestamp, UserOf(own, directory), SenderOf(own), RecipientsOf(own),
          LastKnown(StatusIn, own).GetOr(Queued), LastKnown(ErrorIn, own), AccountOf(own, directory))
  }

  function Own(history: seq<Entry>, id: string): (own: seq<Entry>)
    ensures forall i :: 0 <= i < |own| ==> own[i] in history && RowId(own[i]) == id
    ensures forall i :: 0 <= i < |history| && RowId(history[i]) == id ==> own != []
  {
    if history == [] then []
    else Own(Init(history), id) + if RowId(Last(history)) == id then [Last(history)] else []
  }

  function Ids(history: seq<Entry>): set<string> {
    set i | 0 <= i < |history| :: RowId(history[i])
  }

  /** The whole `mail_log` table, declaratively. */
  function Table(history: seq<Entry>, directory: Directory): map<string, Row> {
    map id | id in Ids(history) :: Summary(Own(history, id), directory)
  }

  ghost predicate FirstMentionedAt(own: seq<Entry>, recipient: string, k: nat) {
    && k < |own| && RecipientIn(own[k]) == Some(recipient)
    && forall i :: 0 <= i < k ==> RecipientIn(own[i]) != Some(recipient)
  }

  ghost predicate MentionedBefore(own: seq<Entry>, first: string, second: string) {
    forall i: nat, j: nat :: FirstMentionedAt(own, first, i) && FirstMentionedAt(own, second, j) ==> i < j
  }

  /** Recipients are exactly those of the message's deliveries, without repeats and in the
      order in which they were first mentioned. */
  lemma {:induction false} RecipientsInFirstSeenOrder(own: seq<Entry>)
    ensures forall r :: r in RecipientsOf(own) <==> exists i :: 0 <= i < |own| && RecipientIn(own[i]) == Some(r)
    ensures forall a, b :: 0 <= a < b < |RecipientsOf(own)| ==>
              RecipientsOf(own)[a] != RecipientsOf(own)[b] && MentionedBefore(own, RecipientsOf(own)[a], RecipientsOf(own)[b])
  {
    if own != [] {
      var init, recipients := Init(own), RecipientsOf(own);
      var earlier := RecipientsOf(init);
      RecipientsInFirstSeenOrder(init);
      assert forall i :: 0 <= i < |init| ==> own[i] == init[i];
      assert RecipientIn(own[|own| - 1]) == RecipientIn(Last(own));
      forall r ensures r in recipients <==> exists i :: 0 <= i < |own| && RecipientIn(own[i]) == Some(r) {
        if r in earlier {
          var i :| 0 <= i < |init| && RecipientIn(init[i]) == Some(r);
          assert RecipientIn(own[i]) == Some(r);
        }
      }
      forall a, b, i: nat, j: nat | 0 <= a < b < |recipients| && FirstMentionedAt(own, recipients[a], i) && FirstMentionedAt(own, recipients[b], j)
        ensures i < j
      {
        assert recipients[a] == earlier[a] && recipients[a] in earlier;
        var k :| 0 <= k < |init| && RecipientIn(init[k]) == Some(recipients[a]);
        assert RecipientIn(own[k]) == Some(recipients[a]);
        assert FirstMentionedAt(init, recipients[a], i);
        if j < |init| {
          assert RecipientIn(init[j]) == Some(recipients[b]);
          assert recipients[b] in earlier && FirstMentionedAt(init, recipients[b], j);
          assert MentionedBefore(init, earlier[a], earlier[b]);
        }
      }
    }
  }

  // ------------------------------------------------------- one step of the fold

  function NewRow(e: LogEvent): Row {
    Row(e.timestamp, None, e.envelopeSender.GetOr(""), [], Queued, None, None)
  }

  /** What one event does to its row. */
  function Updated(row: Row, e: LogEvent, directory: Directory): Row {
    match e.kind
    case Auth =>
      if e.saslUsername.GetOr("") != "" then row.(localUser := Lookup(directory.users, e.saslUsername.value)) else row
    case Enqueued => if e.envelopeSender.Some? then row.(envelopeSender := e.envelopeSender.value) else row
    case Delivery =>
      var account := Lookup(directory.accounts, row.envelopeSender);
      row.(recipients := if e.recipient.GetOr("") != "" && e.recipient.value !in row.recipients
                         then row.recipients + [e.recipient.value] else row.recipients,
           status := e.status.GetOr(row.status),
           error := if e.error.Some? then e.error else row.error,
           upstreamAccount := if account.Some? then account else row.upstreamAccount)
    case Reject => row
  }

  lemma LastKnownOfOne<T>(reported: Entry -> Option<T>, e: Entry)
    ensures LastKnown(reported, [e]) == reported(e)
  {
    assert Last([e]) == e && Init([e]) == [];
    assert LastKnown(reported, Init([e])) == None;
  }

  lemma LastKnownOfMore<T>(reported: Entry -> Option<T>, own: seq<Entry>, e: Entry)
    ensures LastKnown(reported, own + [e]) == if reported(e).Some? then reported(e) else LastKnown(reported, own)
  {
    assert Last(own + [e]) == e && Init(own + [e]) == own;
  }

  lemma RecipientsOfMore(own: seq<Entry>, e: Entry)
    ensures RecipientsOf(own + [e]) ==
              if RecipientIn(e).Some? && RecipientIn(e).value !in RecipientsOf(own) then RecipientsOf(own) + [RecipientIn(e).value]
              else RecipientsOf(own)
  {
    assert Last(own + [e]) == e && Init(own + [e]) == own;
  }

  lemma AccountOfMore(own: seq<Entry>, e: Entry, directory: Directory)
    ensures AccountOf(own + [e], directory) ==
              if e.event.kind.Delivery? && Lookup(directory.accounts, SenderOf(own + [e])).Some?
              then Lookup(directory.accounts, SenderOf(own + [e])) else AccountOf(own, directory)
  {
    hide SenderOf, Lookup;
    assert Last(own + [e]) == e && Init(own + [e]) == own;
  }

  lemma SummaryOfOne(e: Entry, directory: Directory)
    requires WellFormed(e.event) && !e.event.kind.Reject?
    ensures Summary([e], directory) == Updated(NewRow(e.event), e.event, directory)
  {
    LastKnownOfOne(SenderIn, e);
    LastKnownOfOne(UsernameIn, e);
    LastKnownOfOne(StatusIn, e);
    LastKnownOfOne(ErrorIn, e);
    RecipientsOfMore([], e);
    AccountOfMore([], e, directory);
    assert [] + [e] == [e] && RecipientsOf([]) == [] && AccountOf([], directory).None?;
    hide LastKnown, RecipientsOf, AccountOf, IsQueueId;
  }

  lemma SummaryOfMore(own: seq<Entry>, e: Entry, directory: Directory)
    requires own != [] && !own[0].event.kind.Reject? && !e.event.kind.Reject?
    ensures Summary(own + [e], directory) == Updated(Summary(own, directory), e.event, directory)
  {
    hide LastKnown, RecipientsOf, AccountOf;
    assert (own + [e])[0] == own[0];
    LastKnownOfMore(SenderIn, own, e);
    LastKnownOfMore(UsernameIn, own, e);
    LastKnownOfMore(StatusIn, own, e);
    LastKnownOfMore(ErrorIn, own, e);
    RecipientsOfMore(own, e);
    AccountOfMore(own, e, directory);
  }

  lemma OwnGrows(history: seq<Entry>, e: Entry, id: string)
    ensures Own(history + [e], id) == if RowId(e) == id then Own(history, id) + [e] else Own(history, id)
  {
    assert Init(history + [e]) == history && Last(history + [e]) == e;
  }

  lemma IdsGrow(history: seq<Entry>, e: Entry)
    ensures Ids(history + [e]) == Ids(history) + {RowId(e)}
  {
    var more := history + [e];
    assert more[|history|] == e;
    forall id | id in Ids(history) ensures id in Ids(more) {
      var i :| 0 <= i < |history| && RowId(history[i]) == id;
      assert more[i] == history[i];
    }
  }

  ghost predicate NewIdIfReject(history: seq<Entry>, e: Entry) {
    e.event.kind.Reject? ==> RowId(e) !in Ids(history)
  }

  /** The in-place update of one row turns the summary of a history into the summary of
      the history with one more event. */
  lemma TableGrows(history: seq<Entry>, e: Entry, directory: Directory)
    requires AllWellFormed(history) && WellFormed(e.event) && NewIdIfReject(history, e)
    ensures var table := Table(history, directory);
            var id := RowId(e);
            Table(history + [e], directory) ==
              table[id := if e.event.kind.Reject? then RejectRow(e.event, directory)
                          else Updated(if id in table then table[id] else NewRow(e.event), e.event, directory)]
  {
    hide Summary, Updated, NewRow, RejectRow, Own, Ids, RowId, WellFormed, AllWellFormed, NewIdIfReject;
    IdsGrow(history, e);
    var id := RowId(e);
    OwnGrows(history, e, id);
    OwnedRow(history, e, directory);
    forall id' | id' in Ids(history) && id' != id
      ensures Own(history, id') != [] && Own(history + [e], id') == Own(history, id')
    {
      OwnIsAll(history, id');
      OwnGrows(history, e, id');
    }
  }

  lemma OwnedRow(history: seq<Entry>, e: Entry, directory: Directory)
    requires AllWellFormed(history) && WellFormed(e.event) && NewIdIfReject(history, e)
    ensures var own := Own(history, RowId(e));
            Summary(own + [e], directory) ==
              if e.event.kind.Reject? then RejectRow(e.event, directory)
              else Updated(if RowId(e) in Ids(history) then Summary(own, directory) else NewRow(e.event), e.event, directory)
  {
    hide IsQueueId, Updated, NewRow;
    var own := Own(history, RowId(e));
    if own == [] {
      assert own + [e] == [e];
      if !e.event.kind.Reject? {
        SummaryOfOne(e, directory);
      }
    } else {
      assert own[0] in history && RowId(own[0]) == RowId(e);
      if !e.event.kind.Reject? {
        QueueIdsAreNotSynthetic(RowId(e), own[0].draw);
        SummaryOfMore(own, e, directory);
      }
    }
  }

  // ------------------------------------------------- what the summary depends on

  lemma OwnIsAll(history: seq<Entry>, id: string)
    ensures id in Ids(history) <==> Own(history, id) != []
  {
    if id in Ids(history) {
      var i :| 0 <= i < |history| && RowId(history[i]) == id;
    }
    if Own(history, id) != [] {
      var e := Own(history, id)[0];
      var i :| 0 <= i < |history| && history[i] == e;
    }
  }

  /** Each row is a function of the events of its own message: two histories in which
      every message has the same events, in the same order, give the same table. */
  lemma OnlyOwnEventsCount(history: seq<Entry>, history': seq<Entry>, directory: Directory)
    requires forall id :: Own(history, id) == Own(history', id)
    ensures Table(history, directory) == Table(history', directory)
  {
    hide Own, Summary;
    forall id ensures id in Ids(history) <==> id in Ids(history') {
      OwnIsAll(history, id);
      OwnIsAll(history', id);
    }
    assert Ids(history) == Ids(history');
  }

  lemma {:induction false} OwnOfParts(a: seq<Entry>, b: seq<Entry>, id: string)
    ensures Own(a + b, id) == Own(a, id) + Own(b, id)
  {
    if b == [] {
      assert a + b == a;
    } else {
      OwnOfParts(a, Init(b), id);
      assert Init(a + b) == a + Init(b) && Last(a + b) == Last(b);
    }
  }

  lemma OwnOfPair(e: Entry, e': Entry, id: string)
    ensures Own([e, e'], id) == (if RowId(e) == id then [e] else []) + (if RowId(e') == id then [e'] else [])
  {
    hide RowId;
    assert Init([e, e']) == [e] && Last([e, e']) == e' && Init([e]) == [] && Last([e]) == e;
    assert Own(Init([e]), id) == [];
    assert Own([e], id) == if RowId(e) == id then [e] else [];
  }

  lemma SwapKeepsOwn(e: Entry, e': Entry, id: string)
    requires RowId(e) != RowId(e')
    ensures Own([e, e'], id) == Own([e', e], id)
  {
    hide RowId, Own;
    OwnOfPair(e, e', id);
    OwnOfPair(e', e, id);
  }

  /** Events of different messages commute. */
  lemma DifferentMessagesCommute(before: seq<Entry>, e: Entry, e': Entry, after: seq<Entry>, directory: Directory)
    requires RowId(e) != RowId(e')
    ensures Table(before + [e, e'] + after, directory) == Table(before + [e', e] + after, directory)
  {
    hide Own, RowId, Table;
    forall id ensures Own(before + [e, e'] + after, id) == Own(before + [e', e] + after, id) {
      OwnOfParts(before + [e, e'], after, id);
      OwnOfParts(before + [e', e], after, id);
      OwnOfParts(before, [e, e'], id);
      OwnOfParts(before, [e', e], id);
      SwapKeepsOwn(e, e', id);
    }
    OnlyOwnEventsCount(before + [e, e'] + after, before + [e', e] + after, directory);
  }

  // ----------------------------------------------------------- from lines to events

  function Parsed(lines: seq<string>): seq<LogEvent> {
    if lines == [] then []
    else Parsed(Init(lines)) + if ParseLine(Last(lines)).Some? then [ParseLine(Last(lines)).value] else []
  }

  /** The events of a batch of lines; line `i` gets identifier `draw(i)` should it need one. */
  function Entries(lines: seq<string>, draw: nat -> string): seq<Entry> {
    if lines == [] then []
    else
      Entries(Init(lines), draw)
        + if ParseLine(Last(lines)).Some? then [Entry(ParseLine(Last(lines)).value, draw(|lines| - 1))] else []
  }

  function Events(history: seq<Entry>): seq<LogEvent> {
    seq(|history|, i requires 0 <= i < |history| => history[i].event)
  }

  lemma {:induction false} EntriesAreParsed(lines: seq<string>, draw: nat -> string)
    ensures Events(Entries(lines, draw)) == Parsed(lines)
  {
    hide ParseLine;
    if lines != [] {
      EntriesAreParsed(Init(lines), draw);
    }
  }

  lemma {:induction false} ParsedInParts(a: seq<string>, b: seq<string>)
    ensures Parsed(a + b) == Parsed(a) + Parsed(b)
  {
    hide ParseLine;
    if b == [] {
      assert a + b == a;
    } else {
      ParsedInParts(a, Init(b));
      assert Init(a + b) == a + Init(b) && Last(a + b) == Last(b);
    }
  }

  lemma ParsedIsWellFormed(line: string)
    requires ParseLine(line).Some?
    ensures WellFormed(ParseLine(line).value)
  {
    EventsAreWellFormed(line);
  }

  predicate SameEvents(own: seq<Entry>, own': seq<Entry>) {
    |own| == |own'| && forall i :: 0 <= i < |own| ==> own[i].event == own'[i].event
  }

  lemma {:induction false} SameEventsSameFacts(own: seq<Entry>, own': seq<Entry>, directory: Directory)
    requires SameEvents(own, own')
    ensures LastKnown(SenderIn, own) == LastKnown(SenderIn, own') && LastKnown(UsernameIn, own) == LastKnown(UsernameIn, own')
    ensures LastKnown(StatusIn, own) == LastKnown(StatusIn, own') && LastKnown(ErrorIn, own) == LastKnown(ErrorIn, own')
    ensures RecipientsOf(own) == RecipientsOf(own') && AccountOf(own, directory) == AccountOf(own', directory)
  {
    if own != [] {
      SameEventsSameFacts(Init(own), Init(own'), directory);
      assert Last(own).event == Last(own').event;
    }
  }

  lemma {:induction false} SameEventsOwned(history: seq<Entry>, history': seq<Entry>, id: string)
    requires SameEvents(history, history') && AllWellFormed(history) && IsQueueId(id)
    ensures SameEvents(Own(history, id), Own(history', id))
  {
    hide IsQueueId;
    if history != [] {
      SameEventsOwned(Init(history), Init(history'), id);
      var e, e' := Last(history), Last(history');
      assert WellFormed(e.event) && e.event == e'.event;
      QueueIdsAreNotSynthetic(id, e.draw);
      QueueIdsAreNotSynthetic(id, e'.draw);
    }
  }

  /** The row of a queued message is a function of the events read, that is of the text
      consumed: neither the division into batches nor the random identifiers matter. */
  lemma RowsOfMessagesAreDetermined(history: seq<Entry>, history': seq<Entry>, id: string, directory: Directory)
    requires AllWellFormed(history) && SameEvents(history, history') && IsQueueId(id)
    ensures id in Table(history, directory) <==> id in Table(history', directory)
    ensures id in Table(history, directory) ==> Table(history, directory)[id] == Table(history', directory)[id]
  {
    hide IsQueueId, Own, LastKnown, RecipientsOf, AccountOf;
    SameEventsOwned(history, history', id);
    SameEventsSameFacts(Own(history, id), Own(history', id), directory);
    OwnIsAll(history, id);
    OwnIsAll(history', id);
  }

  ghost predicate DrawsAreNew(history: seq<Entry>, entries: seq<Entry>) {
    forall i :: 0 <= i < |entries| ==> NewIdIfReject(history + entries[..i], entries[i])
  }

  /** Some line that could be read now would get an identifier that is taken. */
  ghost predicate Collides(history: seq<Entry>, draw: nat -> string) {
    exists lines :: !DrawsAreNew(history, Entries(lines, draw))
  }

  lemma DrawsStayNew(history: seq<Entry>, entries: seq<Entry>, e: Entry)
    ensures DrawsAreNew(history, entries + [e]) <==> DrawsAreNew(history, entries) && NewIdIfReject(history + entries, e)
  {
    hide NewIdIfReject;
    var more := entries + [e];
    assert more[..|entries|] == entries && more[|entries|] == e;
    assert forall i :: 0 <= i < |entries| ==> more[..i] == entries[..i] && more[i] == entries[i];
    if DrawsAreNew(history, more) {
      assert NewIdIfReject(history + more[..|entries|], more[|entries|]);
      forall i | 0 <= i < |entries| ensures NewIdIfReject(history + entries[..i], entries[i]) {
        assert NewIdIfReject(history + more[..i], more[i]);
      }
    }
  }

  lemma {:induction false} DrawsOfMoreLines(history: seq<Entry>, lines: seq<string>, draw: nat -> string, n: nat)
    requires n <= |lines| && !DrawsAreNew(history, Entries(lines[..n], draw))
    ensures !DrawsAreNew(history, Entries(lines, draw))
    decreases |lines| - n
  {
    hide ParseLine, DrawsAreNew;
    if n == |lines| {
      assert lines[..n] == lines;
    } else {
      NextEntry(lines, draw, n);
      if ParseLine(lines[n]).Some? {
        DrawsStayNew(history, Entries(lines[..n], draw), Entry(ParseLine(lines[n]).value, draw(n)));
      }
      DrawsOfMoreLines(history, lines, draw, n + 1);
    }
  }

  lemma NextEntry(lines: seq<string>, draw: nat -> string, n: nat)
    requires n < |lines|
    ensures Entries(lines[..n + 1], draw) ==
              if ParseLine(lines[n]).Some? then Entries(lines[..n], draw) + [Entry(ParseLine(lines[n]).value, draw(n))]
              else Entries(lines[..n], draw)
  {
    hide ParseLine;
    assert Init(lines[..n + 1]) == lines[..n] && Last(lines[..n + 1]) == lines[n];
  }

  lemma NoEntries(history: seq<Entry>, draw: nat -> string)
    ensures Entries([], draw) == [] && DrawsAreNew(history, [])
  {
  }

  /** Consuming more text appends the events of its lines. */
  lemma ConsumedMore(history: seq<Entry>, consumed: string, text: string, draw: nat -> string)
    requires EndsLine(consumed) && EndsLine(text) && Events(history) == Parsed(SplitLines(consumed))
    ensures EndsLine(consumed + text)
    ensures Events(history + Entries(SplitLines(text), draw)) == Parsed(SplitLines(consumed + text))
    ensures |SplitLines(consumed + text)| == |SplitLines(consumed)| + |SplitLines(text)|
  {
    hide ParseLine, Entries, Parsed, SplitLines;
    LinesOfPieces(consumed, text);
    ParsedInParts(SplitLines(consumed), SplitLines(text));
    EntriesAreParsed(SplitLines(text), draw);
    var added := Entries(SplitLines(text), draw);
    assert Events(history + added) == Events(history) + Events(added);
    assert text == "" ==> consumed + text == consumed;
  }

  // ------------------------------------------------------------- catching up

  /** A line, or the end of one, from `a` up to its line feed at `b`. */
  ghost predicate IsLine(file: string, a: nat, b: nat) {
    a <= b < |file| && file[b] == '\n' && '\n' !in file[a..b]
  }

  /** Every line of a file, with its line feed, fits in one read. */
  ghost predicate LinesFit(file: string) {
    forall a: nat, b: nat :: IsLine(file, a, b) ==> b - a < MAX_READ
  }

  /** No line is complete beyond what has been consumed, in any log file. */
  ghost predicate NothingUnread(log: Log) {
    forall i :: |log.consumed| <= i < |Concat(log.files)| ==> Concat(log.files)[i] != '\n'
  }

  lemma NoLineAhead(file: string, inode: nat, cursor: Cursor)
    requires SplitLines(TailMaillog(file, inode, cursor).text) == [] && LinesFit(file)
    ensures forall i :: StartFor(file, inode, cursor) <= i < |file| ==> file[i] != '\n'
  {
    hide TailMaillog, SplitLines;
    TailMakesProgressIff(file, inode, cursor);
    TailStarts(file, inode, cursor);
    var start := StartFor(file, inode, cursor);
    if start < |file| {
      var k := Text.IndexOf(file[start..], '\n');
      assert file[start..start + k] == file[start..][..k];
      assert start + k < |file| ==> IsLine(file, start, start + k);
      assert start + k == |file|;
      assert file[start..] == file[start..][..k];
    }
  }

  lemma TailStarts(file: string, inode: nat, cursor: Cursor)
    ensures TailMaillog(file, inode, cursor).start == StartFor(file, inode, cursor)
  {
  }

  /** A committed call that found no line leaves no complete line unread. */
  lemma NothingFoundNothingUnread(log: Log, e: Event)
    requires log.Valid() && Exact(log) && e.Ingest? && e.commits && Orderly(log, e)
    requires SplitLines(TailMaillog(log.File(), Last(log.inodes), log.cursor).text) == []
    requires LinesFit(Step(log, e).File())
    ensures NothingUnread(Step(log, e))
  {
    hide SplitLines, CompleteLength, LinesFit, Chunk;
    var file, log' := log.File(), Step(log, e);
    var tail := TailMaillog(file, Last(log.inodes), log.cursor);
    TailIsASlice(file, Last(log.inodes), log.cursor);
    StepKeepsExact(log, e);
    var earlier := Concat(Init(log.files));
    assert Concat(log.files) == earlier + file;
    if tail.rotates && e.rotationWorks {
      assert Init(log'.files) == log.files;
      assert Concat(log'.files) == Concat(log.files) + "";
      assert |log'.consumed| == |Concat(log'.files)|;
    } else {
      NoLineAhead(file, Last(log.inodes), log.cursor);
      assert tail.text == "" && log'.consumed == log.consumed;
      assert |log.consumed| == |earlier| + tail.start;
      forall i | |log.consumed| <= i < |Concat(log.files)| ensures Concat(log.files)[i] != '\n' {
        assert Concat(log.files)[i] == file[i - |earlier|];
      }
    }
  }

  /** What happens outside during one round of catching up. */
  datatype Turn = Turn(appended: string, rotationWorks: bool, newInode: nat, draw: nat -> string, commits: bool)

  /** No new log file has an inode seen before. */
  ghost predicate NewInodes(log: Log, turn: nat -> Turn) {
    forall k: nat :: turn(k).newInode !in log.inodes && forall j: nat :: j < k ==> turn(j).newInode != turn(k).newInode
  }

  ghost predicate InodeIsOld(log: Log, log0: Log, turn: nat -> Turn, n: nat)
    requires log.Valid()
  {
    Last(log.inodes) in log0.inodes || exists j: nat :: j < n && turn(j).newInode == Last(log.inodes)
  }

  lemma StartsOld(log: Log, turn: nat -> Turn)
    requires log.Valid()
    ensures InodeIsOld(log, log, turn, 0)
  {
  }

  lemma RoundKeepsExact(log: Log, log0: Log, turn: nat -> Turn, n: nat)
    requires log.Valid() && Exact(log) && NewInodes(log0, turn) && InodeIsOld(log, log0, turn, n)
    ensures var e := Ingest(turn(n).rotationWorks, turn(n).newInode, true);
            var log' := Step(log, e);
            && Exact(log') && InodeIsOld(log', log0, turn, n + 1)
            && (SplitLines(TailMaillog(log.File(), Last(log.inodes), log.cursor).text) == [] && LinesFit(log'.File()) ==>
                  NothingUnread(log'))
  {
    hide Exact, SplitLines, LinesFit, NothingUnread, TailMaillog;
    var e := Ingest(turn(n).rotationWorks, turn(n).newInode, true);
    StepKeepsExact(log, e);
    if SplitLines(TailMaillog(log.File(), Last(log.inodes), log.cursor).text) == [] && LinesFit(Step(log, e).File()) {
      NothingFoundNothingUnread(log, e);
    }
    if Last(Step(log, e).inodes) == Last(log.inodes) && Last(log.inodes) !in log0.inodes {
      var j: nat :| j < n && turn(j).newInode == Last(log.inodes);
      assert j < n + 1;
    }
  }

  lemma AppendKeepsRound(log: Log, log0: Log, turn: nat -> Turn, n: nat, text: string)
    requires log.Valid() && Exact(log) && InodeIsOld(log, log0, turn, n)
    ensures var log' := Step(log, LogTail.Append(text));
            Exact(log') && InodeIsOld(log', log0, turn, n)
  {
    StepKeepsExact(log, LogTail.Append(text));
  }

  // ------------------------------------------------------------ the ingestion

  /** The `mail_log` table, the ingestion cursor and the log files they are read from. */
  class MailLogStore {
    const directory: Directory
    var rows: map<string, Row>
    var log: Log
    ghost var history: seq<Entry>

    /** The table is the summary of the events in exactly the lines consumed so far. */
    ghost predicate Valid()
      reads this
    {
      && log.Valid() && AllWellFormed(history)
      && rows == Table(history, directory)
      && EndsLine(log.consumed) && Events(history) == Parsed(SplitLines(log.consumed))
    }

    constructor (directory: Directory, file: string, inode: nat)
      ensures Valid() && log == Fresh(file, inode) && rows == map[] && this.directory == directory
    {
      this.directory := directory;
      rows := map[];
      log := Fresh(file, inode);
      history := [];
    }

    method GetOrCreate(queueId: string, event: LogEvent)
      modifies this`rows
      ensures rows == if queueId in old(rows) then old(rows) else old(rows)[queueId := NewRow(event)]
    {
      if queueId !in rows {
        rows := rows[queueId := NewRow(event)];
      }
    }

    method UpdateRow(id: string, event: LogEvent)
      requires id in rows
      modifies this`rows
      ensures rows == old(rows)[id := Updated(old(rows)[id], event, directory)]
    {
      var row := rows[id];
      if event.kind.Auth? && event.saslUsername.GetOr("") != "" {
        row := row.(localUser := Lookup(directory.users, event.saslUsername.value));
      } else if event.kind.Enqueued? {
        if event.envelopeSender.Some? {
          row := row.(envelopeSender := event.envelopeSender.value);
        }
      } else if event.kind.Delivery? {
        if event.recipient.GetOr("") != "" && event.recipient.value !in row.recipients {
          row := row.(recipients := row.recipients + [event.recipient.value]);
        }
        if event.status.Some? {
          row := row.(status := event.status.value);
        }
        if event.error.Some? {
          row := row.(error := event.error);
        }
        var account := Lookup(directory.accounts, row.envelopeSender);
        if account.Some? {
          row := row.(upstreamAccount := account);
        }
      }
      rows := rows[id := row];
    }

    /** Applies one event to the table; fails on a rejection whose random identifier is taken. */
    method ApplyEvent(event: LogEvent, draw: string) returns (ok: bool)
      requires AllWellFormed(history) && rows == Table(history, directory) && WellFormed(event)
      modifies this`rows, this`history
      ensures ok == NewIdIfReject(old(history), Entry(event, draw))
      ensures history == if ok then old(history) + [Entry(event, draw)] else old(history)
      ensures AllWellFormed(history) && rows == Table(history, directory)
    {
      hide Table, Own, Ids, WellFormed, Updated, RowId, RejectRow, NewRow;
      ghost var e := Entry(event, draw);
      IdsAreKeys(history, directory);
      if event.kind.Reject? {
        var id := REJECT + draw;
        RejectsAreDrawn(event, draw);
        if id in rows {
          return false;
        }
        TableGrows(history, e, directory);
        rows := rows[id := RejectRow(event, directory)];
      } else {
        QueuedHaveIds(event, draw);
        var id := event.queueId.value;
        TableGrows(history, e, directory);
        GetOrCreate(id, event);
        UpdateRow(id, event);
      }
      ok := true;
      history := history + [e];
    }

    /** Postfix writes to its log. */
    method Append(text: string)
      requires Valid()
      modifies this`log
      ensures Valid() && log == Step(old(log), LogTail.Append(text)) && log.consumed == old(log).consumed
    {
      log := log.(files := Init(log.files) + [log.File() + text]);
    }

    /** Applies a batch of lines; stops at a rejection whose random identifier is taken. */
    method ApplyLines(lines: seq<string>, draw: nat -> string) returns (ok: bool)
      requires AllWellFormed(history) && rows == Table(history, directory)
      modifies this`rows, this`history
      ensures ok == DrawsAreNew(old(history), Entries(lines, draw))
      ensures ok ==> history == old(history) + Entries(lines, draw)
      ensures AllWellFormed(history) && rows == Table(history, directory)
    {
      hide ParseLine, Table, Entries, DrawsAreNew, NewIdIfReject, AllWellFormed, WellFormed;
      assert lines[..0] == [] && old(history) + [] == old(history);
      NoEntries(old(history), draw);
      for n := 0 to |lines|
        invariant AllWellFormed(history) && rows == Table(history, directory)
        invariant history == old(history) + Entries(lines[..n], draw)
        invariant DrawsAreNew(old(history), Entries(lines[..n], draw))
      {
        NextEntry(lines, draw, n);
        var parsed := ParseLine(lines[n]);
        if parsed.Some? {
          ParsedIsWellFormed(lines[n]);
          ghost var e := Entry(parsed.value, draw(n));
          assert history == old(history) + Entries(lines[..n], draw);
          DrawsStayNew(old(history), Entries(lines[..n], draw), e);
          assert old(history) + (Entries(lines[..n], draw) + [e]) == history + [e];
          ok := ApplyEvent(parsed.value, draw(n));
          if !ok {
            DrawsOfMoreLines(old(history), lines, draw, n + 1);
            return;
          }
        }
      }
      assert lines[..|lines|] == lines;
      ok := true;
    }

    /** One ingestion: nothing if the database transaction fails, else the number of lines. */
    method IngestNewLogLines(rotationWorks: bool, newInode: nat, draw: nat -> string, commits: bool)
      returns (processed: Option<nat>)
      requires Valid()
      modifies this
      ensures Valid()
      ensures log == Step(old(log), Ingest(rotationWorks, newInode, processed.Some?))
      ensures var text := TailMaillog(old(log).File(), Last(old(log).inodes), old(log).cursor).text;
              var entries := Entries(SplitLines(text), draw);
              && (processed.Some? <==> commits && DrawsAreNew(old(history), entries))
              && (processed.Some? ==> processed.value == |SplitLines(text)| && history == old(history) + entries)
              && (processed.None? ==> rows == old(rows) && history == old(history))
      ensures processed.Some? ==>
                processed.value == |SplitLines(log.consumed)| - |SplitLines(old(log).consumed)|
    {
      hide Table, SplitLines, Entries, DrawsAreNew, Parsed, TailMaillog, EndsLine, Events, AllWellFormed;
      var before, committed := log, rows;
      var tail := TailMaillog(log.File(), Last(log.inodes), log.cursor);
      TailIsASlice(log.File(), Last(log.inodes), log.cursor);
      if tail.rotates && rotationWorks {
        log := log.(files := log.files + [""], inodes := log.inodes + [newInode]);
      }
      var lines := SplitLines(tail.text);
      var ok := ApplyLines(lines, draw);
      if !ok || !commits {
        rows, history := committed, old(history);
        return None;
      }
      ConsumedMore(old(history), before.consumed, tail.text, draw);
      log := log.(cursor := Cursor(tail.newOffset, Some(tail.inode)),
                  taken := log.taken + [Segment(|before.files| - 1, tail.start, tail.newOffset)],
                  consumed := log.consumed + tail.text);
      return Some(|lines|);
    }

    /** Rounds of ingestion until one finds nothing, at most fifty. */
    method IngestUntilCaughtUp(turn: nat -> Turn) returns (total: Option<nat>, rounds: nat)
      requires Valid()
      modifies this
      ensures Valid() && rounds <= MAX_CHUNKS_PER_TICK
      ensures total.Some? ==> total.value == |SplitLines(log.consumed)| - |SplitLines(old(log).consumed)|
      // it gives up only when a transaction fails or a random identifier is taken
      ensures total.None? ==> rounds > 0 && (!turn(rounds - 1).commits || Collides(history, turn(rounds - 1).draw))
      ensures total.Some? && Exact(old(log)) && NewInodes(old(log), turn) ==>
                Exact(log) && (rounds < MAX_CHUNKS_PER_TICK && LinesFit(log.File()) ==> NothingUnread(log))
    {
      hide Exact, SplitLines, TailMaillog, NewInodes, DrawsAreNew, Entries, LinesFit, NothingUnread, Step, Table, Parsed,
        Events, AllWellFormed, EndsLine, InodeIsOld;
      rounds := 0;
      ghost var log0 := log;
      StartsOld(log, turn);
      var lines := 0;
      while rounds < MAX_CHUNKS_PER_TICK
        invariant Valid() && rounds <= MAX_CHUNKS_PER_TICK
        invariant lines == |SplitLines(log.consumed)| - |SplitLines(log0.consumed)|
        invariant Exact(log0) && NewInodes(log0, turn) ==> Exact(log) && InodeIsOld(log, log0, turn, rounds)
      {
        var t := turn(rounds);
        ghost var before := log;
        Append(t.appended);
        ghost var read := log;
        var processed := IngestNewLogLines(t.rotationWorks, t.newInode, t.draw, t.commits);
        rounds := rounds + 1;
        if processed.None? {
          return None, rounds;
        }
        lines := lines + processed.value;
        if Exact(log0) && NewInodes(log0, turn) {
          AppendKeepsRound(before, log0, turn, rounds - 1, t.appended);
          RoundKeepsExact(read, log0, turn, rounds - 1);
        }
        if processed.value == 0 {
          break;
        }
      }
      total := Some(lines);
    }
  }

  lemma IdsAreKeys(history: seq<Entry>, directory: Directory)
    ensures Table(history, directory).Keys == Ids(history)
  {
  }

  lemma RejectsAreDrawn(event: LogEvent, draw: string)
    requires WellFormed(event) && event.kind.Reject?
    ensures RowId(Entry(event, draw)) == REJECT + draw
  {
  }

  lemma QueuedHaveIds(event: LogEvent, draw: string)
    requires WellFormed(event) && !event.kind.Reject?
    ensures event.queueId.Some? && RowId(Entry(event, draw)) == event.queueId.value
  {
  }

  /** The whole pipeline: after any orderly run the table is the summary, message by
      message, of the events in a prefix of everything ever logged, cut at a line's end. */
  lemma TableSummarisesAPrefix(store: MailLogStore, file: string, inode: nat, events: seq<Event>)
    requires store.Valid() && OrderlyRun(Fresh(file, inode), events) && store.log == Run(Fresh(file, inode), events)
    ensures exists n :: 0 <= n <= |Concat(store.log.files)| && EndsLine(Concat(store.log.files)[..n])
                        && Events(store.history) == Parsed(SplitLines(Concat(store.log.files)[..n]))
                        && store.rows == Table(store.history, store.directory)
  {
    hide SplitLines, Parsed, Table, Events, Concat, Exact, AllWellFormed;
    ConsumedIsPrefix(file, inode, events);
    var n := |store.log.consumed|;
    assert Concat(store.log.files)[..n] == store.log.consumed;
  }
}
