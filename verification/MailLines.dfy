/**
 Lines as Postfix writes them, and the round trip: rendering an event and parsing the
 line gives the event back, although the parser's patterns overlap.
 */
module MailLines {
  import opened Prelude
  import opened Text
  import opened MailParser

  // ------------------------------------------------------------ scanning facts

  ghost predicate AllIn(s: string, class_: char -> bool) {
    forall i :: 0 <= i < |s| ==> class_(s[i])
  }

  predicate NotDigit(c: char) {
    !IsDigit(c)
  }

  lemma {:induction false} SpanStops(a: string, b: string, class_: char -> bool)
    requires AllIn(a, class_) && (b != "" ==> !class_(b[0]))
    ensures Span(a + b, class_) == |a|
    ensures (a + b)[..|a|] == a && (a + b)[|a|..] == b
  {
    if a == "" {
      assert a + b == b;
    } else {
      assert (a + b)[1..] == a[1..] + b;
      SpanStops(a[1..], b, class_);
    }
  }

  lemma StartsWithPrefix(prefix: string, rest: string)
    ensures StartsWith(prefix + rest, prefix) && (prefix + rest)[|prefix|..] == rest
  {
  }

  lemma NoSpaceToSkip(s: string)
    requires s == "" || !IsSpace(s[0])
    ensures SkipSpaces(s) == s && SkipSpaces(" " + s) == s && " " + s != s
  {
    SpanStops("", s, IsSpace);
    assert "" + s == s;
    SpanStops(" ", s, IsSpace);
  }

  ghost predicate Mentions(s: string, pattern: string) {
    exists i :: 0 <= i <= |s| && StartsWith(s[i..], pattern)
  }

  /** The patterns searched for end in a character that occurs nowhere else in them. */
  ghost predicate EndsUniquely(pattern: string) {
    pattern != "" && forall i :: 0 <= i < |pattern| - 1 ==> pattern[i] != Last(pattern)
  }

  /** So the first occurrence of a pattern put after a text without it is where it was put. */
  lemma NoEarlierMention(pre: string, pattern: string, after: string, i: nat)
    requires EndsUniquely(pattern) && !Mentions(pre, pattern) && i < |pre|
    ensures !StartsWith((pre + pattern + after)[i..], pattern)
  {
    var s := pre + pattern + after;
    var last := i + |pattern| - 1;
    if last < |pre| {
      assert s[i..][..|pattern|] == pre[i..][..|pattern|];
      assert !StartsWith(pre[i..], pattern);
    } else {
      assert s[i..][..|pattern|][|pattern| - 1] == s[last] == pattern[last - |pre|];
    }
  }

  lemma {:induction false} SearchSkips<T>(m: string -> Option<T>, pre: string, rest: string)
    requires forall i :: 0 <= i < |pre| ==> m((pre + rest)[i..]).None?
    ensures Search(m, pre + rest) == Search(m, rest)
  {
    if pre == "" {
      assert pre + rest == rest;
    } else {
      assert (pre + rest)[0..] == pre + rest;
      assert (pre + rest)[1..] == pre[1..] + rest;
      forall i | 0 <= i < |pre| - 1 ensures m((pre[1..] + rest)[i..]).None? {
        assert (pre[1..] + rest)[i..] == (pre + rest)[i + 1..];
      }
      SearchSkips(m, pre[1..], rest);
    }
  }

  lemma {:induction false} SearchFails<T>(m: string -> Option<T>, s: string)
    requires forall i :: 0 <= i <= |s| ==> m(s[i..]).None?
    ensures Search(m, s).None?
  {
    assert s[0..] == s;
    if s != "" {
      forall i | 0 <= i <= |s| - 1 ensures m(s[1..][i..]).None? {
        assert s[1..][i..] == s[i + 1..];
      }
      SearchFails(m, s[1..]);
    }
  }

  /** Searching for something that starts with a pattern, in a text that has it first here. */
  lemma SearchFinds<T>(m: string -> Option<T>, pre: string, pattern: string, after: string)
    requires EndsUniquely(pattern) && !Mentions(pre, pattern)
    requires forall s :: !StartsWith(s, pattern) ==> m(s).None?
    requires m(pattern + after).Some?
    ensures Search(m, pre + pattern + after) == m(pattern + after)
  {
    assert pre + pattern + after == pre + (pattern + after);
    forall i | 0 <= i < |pre| ensures m((pre + (pattern + after))[i..]).None? {
      NoEarlierMention(pre, pattern, after, i);
    }
    SearchSkips(m, pre, pattern + after);
  }

  lemma SearchMisses<T>(m: string -> Option<T>, s: string, pattern: string)
    requires !Mentions(s, pattern)
    requires forall t :: !StartsWith(t, pattern) ==> m(t).None?
    ensures Search(m, s).None?
  {
    SearchFails(m, s);
  }

  lemma BracketedStops(value: string, after: string)
    requires '>' !in value
    ensures Bracketed(value + ">" + after) == Some(value)
  {
    FirstIndex(value, '>', after);
    assert value + ">" + after == value + ['>'] + after;
  }

  // ------------------------------------------------------------- the header

  /** `Jun 10 12:34:56` or `Jun  5 12:34:56`. */
  ghost predicate Stamp(s: string) {
    && |s| == 15 && IsWord(s[0]) && IsWord(s[1]) && IsWord(s[2]) && s[3] == ' '
    && (s[4] == ' ' || IsDigit(s[4])) && IsDigit(s[5]) && s[6] == ' ' && IsClock(s[7..])
  }

  datatype Header = Header(stamp: string, host: string, service: string, pid: string) {
    ghost predicate Valid() {
      && Stamp(stamp) && host != "" && AllIn(host, NotSpace)
      && service != "" && AllIn(service, IsServiceChar) && pid != "" && AllIn(pid, IsDigit)
    }

    function Line(message: string): string {
      stamp + " " + host + " " + SERVICE_PREFIX + service + "[" + pid + "]: " + message
    }
  }

  lemma SpacesSkipped(gap: string, text: string)
    requires gap != "" && AllIn(gap, IsSpace) && text != "" && !IsSpace(text[0])
    ensures SkipSpaces(gap + text) == text && gap + text != text
  {
    SpanStops(gap, text, IsSpace);
    assert |gap + text| > |text|;
  }

  lemma ClockIsRead(clock: string)
    requires |clock| >= 8 && IsClock(clock[..8])
    ensures AfterClock(" " + clock) == Some(clock[8..])
  {
    assert IsDigit(clock[..8][0]) && !IsSpace(clock[0]);
    hide SkipSpaces, IsClock;
    SpacesSkipped(" ", clock);
  }

  lemma DayIsRead(number: string, clock: string)
    requires 1 <= |number| <= 2 && AllIn(number, IsDigit)
    requires |clock| >= 8 && IsClock(clock[..8])
    ensures AfterDay(number + (" " + clock)) == Some(clock[8..])
  {
    hide Span, SkipSpaces, IsClock, AfterClock;
    SpanStops(number, " " + clock, IsDigit);
    ClockIsRead(clock);
  }

  lemma MonthIsRead(month: string, gap: string, day: string)
    requires |month| == 3 && AllIn(month, IsWord) && gap != "" && AllIn(gap, IsSpace) && day != "" && !IsSpace(day[0])
    ensures AfterStamp(month + (gap + day)) == AfterDay(day)
  {
    hide SkipSpaces, AfterDay;
    assert (month + (gap + day))[3..] == gap + day;
    SpacesSkipped(gap, day);
  }

  lemma StampIsRead(stamp: string, rest: string)
    requires Stamp(stamp)
    ensures AfterStamp(stamp + rest) == Some(rest)
  {
    hide IsClock, AfterStamp, AfterDay;
    var gap, number := if stamp[4] == ' ' then "  " else " ", if stamp[4] == ' ' then stamp[5..6] else stamp[4..6];
    var clock := stamp[7..] + rest;
    assert clock[..8] == stamp[7..] && clock[8..] == rest;
    DayIsRead(number, clock);
    MonthIsRead(stamp[..3], gap, number + (" " + clock));
    assert stamp + rest == stamp[..3] + (gap + (number + (" " + clock)));
  }

  /** A message that is not empty, is one line, and does not start with white space. */
  ghost predicate Message(s: string) {
    s != "" && !IsSpace(s[0]) && '\n' !in s
  }

  lemma ToEndOfLine(s: string)
    requires '\n' !in s
    ensures ToEnd(s) == Some(s)
  {
  }

  lemma HostIsRead(host: string, tag: string)
    requires host != "" && AllIn(host, NotSpace) && tag != "" && !IsSpace(tag[0])
    ensures AfterHost(" " + (host + (" " + tag))) == Some(tag)
  {
    hide Span;
    SpanStops(" ", host + (" " + tag), IsSpace);
    SpanStops(host, " " + tag, NotSpace);
    SpanStops(" ", tag, IsSpace);
  }

  lemma PidIsRead(pid: string, message: string)
    requires pid != "" && AllIn(pid, IsDigit) && Message(message)
    ensures AfterPid(pid + ("]:" + (" " + message))) == Some(message)
  {
    hide Span, ToEnd, SkipSpaces;
    var s := pid + ("]:" + (" " + message));
    SpanStops(pid, "]:" + (" " + message), IsDigit);
    StartsWithPrefix("]:", " " + message);
    assert s[|pid| + 2..] == s[|pid|..][2..] == " " + message;
    NoSpaceToSkip(message);
    ToEndOfLine(message);
  }

  lemma TagIsRead(service: string, pid: string, message: string)
    requires service != "" && AllIn(service, IsServiceChar) && pid != "" && AllIn(pid, IsDigit) && Message(message)
    ensures AfterTag(SERVICE_PREFIX + (service + ("[" + (pid + ("]:" + (" " + message)))))) == Some(message)
  {
    hide Span, AfterPid;
    var afterBracket := pid + ("]:" + (" " + message));
    StartsWithPrefix(SERVICE_PREFIX, service + ("[" + afterBracket));
    SpanStops(service, "[" + afterBracket, IsServiceChar);
    assert (service + ("[" + afterBracket))[|service| + 1..] == afterBracket;
    PidIsRead(pid, message);
  }

  lemma HeaderIsRead(header: Header, message: string)
    requires header.Valid() && Message(message)
    ensures MessageOf(header.Line(message)) == Some(message)
    ensures header.Line(message)[..Min(15, |header.Line(message)|)] == header.stamp
  {
    hide AfterStamp, AfterHost, AfterTag, Stamp, Message;
    var tag := SERVICE_PREFIX + (header.service + ("[" + (header.pid + ("]:" + (" " + message)))));
    var rest := " " + (header.host + (" " + tag));
    assert header.Line(message) == header.stamp + rest;
    assert |header.stamp| == 15 by {
      StampIsFifteen(header.stamp);
    }
    StampIsRead(header.stamp, rest);
    HostIsRead(header.host, tag);
    TagIsRead(header.service, header.pid, message);
  }

  lemma StampIsFifteen(stamp: string)
    requires Stamp(stamp)
    ensures |stamp| == 15
  {
  }

  // ------------------------------------------------------ messages with a queue id

  lemma QueueIdIsRead(queueId: string, body: string)
    requires IsQueueId(queueId) && body != "" && !IsSpace(body[0])
    ensures QueueIdAndBody(queueId + ": " + body) == Some((queueId, body))
  {
    hide Span, SkipSpaces, IsQueueId;
    var rest := queueId + ": " + body;
    assert AllIn(queueId, IsAlnum) by {
      QueueIdsAreAlnum(queueId);
    }
    assert rest == queueId + (": " + body);
    SpanStops(queueId, ": " + body, IsAlnum);
    assert rest[|queueId|] == ':' && rest[..|queueId|] == queueId;
    assert rest[|queueId| + 1..] == " " + body;
    NoSpaceToSkip(body);
  }

  lemma QueueIdsAreAlnum(queueId: string)
    requires IsQueueId(queueId)
    ensures AllIn(queueId, IsAlnum)
  {
    forall i | 0 <= i < |queueId| ensures IsAlnum(queueId[i]) {
      assert queueId[i] in queueId;
    }
  }

  /** No message that starts with a queue id can be taken for one of the reject shapes:
      the words those start with contain no digit. */
  lemma QueueIdIsNoReject(timestamp: string, queueId: string, body: string)
    requires IsQueueId(queueId)
    ensures var rest := queueId + ": " + body;
            && NoqueueReject(timestamp, rest).None? && AuthFailed(timestamp, rest).None?
            && TlsFailed(timestamp, rest).None? && LostConnection(timestamp, rest).None?
  {
    hide Span, Search, IsQueueId, CodeAt, WithoutUsernames, StripCommas, Strip;
    RejectsStartWithWords();
    WordIsNoQueueId(queueId, body, "NOQUEUE", ": reject: ");
    WordIsNoQueueId(queueId, body, "warning", ": ");
    WordIsNoQueueId(queueId, body, "lost", " connection after ");
  }

  lemma RejectsStartWithWords()
    ensures NOQUEUE == "NOQUEUE" + ": reject: " && "warning: " == "warning" + ": " && LOST == "lost" + " connection after "
    ensures AllIn("NOQUEUE", IsAlnum) && AllIn("NOQUEUE", NotDigit)
    ensures AllIn("warning", IsAlnum) && AllIn("warning", NotDigit)
    ensures AllIn("lost", IsAlnum) && AllIn("lost", NotDigit)
  {
  }

  lemma WordIsNoQueueId(queueId: string, body: string, word: string, more: string)
    requires IsQueueId(queueId) && AllIn(word, IsAlnum) && more != "" && !IsAlnum(more[0])
    requires AllIn(word, NotDigit)
    ensures !StartsWith(queueId + ": " + body, word + more)
  {
    var rest := queueId + ": " + body;
    assert rest == queueId + (": " + body);
    SpanStops(queueId, ": " + body, IsAlnum);
    var n := |word + more|;
    if n <= |rest| && rest[..n] == word + more {
      assert rest == word + (more + rest[n..]);
      SpanStops(word, more + rest[n..], IsAlnum);
    }
  }

  lemma QueuedMessage(timestamp: string, queueId: string, body: string)
    requires IsQueueId(queueId) && body != "" && !IsSpace(body[0])
    ensures ParseMessage(timestamp, queueId + ": " + body) == QueuedEvent(timestamp, queueId, body)
  {
    hide NoqueueReject, AuthFailed, TlsFailed, LostConnection, QueueIdAndBody, QueuedEvent;
    QueueIdIsRead(queueId, body);
    QueueIdIsNoReject(timestamp, queueId, body);
  }

  lemma QueuedLine(header: Header, queueId: string, body: string)
    requires header.Valid() && IsQueueId(queueId) && Message(body)
    ensures ParseLine(header.Line(queueId + ": " + body)) == QueuedEvent(header.stamp, queueId, body)
  {
    hide ParseMessage, QueuedEvent, MessageOf, Header.Line, Header.Valid;
    assert IsAlnum(queueId[0]) && forall c :: c in queueId ==> IsAlnum(c);
    assert Message(queueId + ": " + body);
    HeaderIsRead(header, queueId + ": " + body);
    QueuedMessage(header.stamp, queueId, body);
  }

  lemma UsernameIsFound(pre: string, username: string, after: string)
    requires !Mentions(pre, SASL_USERNAME) && username != "" && AllIn(username, NotSpace)
    requires after != "" ==> IsSpace(after[0])
    ensures Search(UsernameAt, pre + SASL_USERNAME + (username + after)) == Some(username)
  {
    SpanStops(username, after, NotSpace);
    StartsWithPrefix(SASL_USERNAME, username + after);
    SearchFinds(UsernameAt, pre, SASL_USERNAME, username + after);
  }

  /** An authenticated client: anything, then the username to the end of the line. */
  lemma AuthRoundTrip(header: Header, queueId: string, client: string, username: string)
    requires header.Valid() && IsQueueId(queueId) && Message(client) && !Mentions(client, SASL_USERNAME)
    requires username != "" && AllIn(username, NotSpace)
    ensures ParseLine(header.Line(queueId + ": " + (client + SASL_USERNAME + username)))
         == Some(LogEvent(Auth, header.stamp, Some(queueId), Some(username), None, None, None, None, None))
  {
    hide Search, Header.Valid, Header.Line, ParseLine, Mentions;
    var body := client + SASL_USERNAME + username;
    assert username + "" == username;
    UsernameIsFound(client, username, "");
    assert forall c :: c in username ==> c != '\n';
    assert Message(body);
    QueuedLine(header, queueId, body);
  }

  lemma FromIsFound(sender: string, after: string)
    requires '>' !in sender
    ensures Search(FromAt, "from=<" + sender + ">" + after) == Some(sender)
  {
    assert "from=<" + sender + ">" + after == "from=<" + (sender + ">" + after);
    StartsWithPrefix("from=<", sender + ">" + after);
    BracketedStops(sender, after);
  }

  /** A message entering the queue. */
  lemma EnqueuedRoundTrip(header: Header, queueId: string, sender: string, more: string)
    requires header.Valid() && IsQueueId(queueId) && '>' !in sender && '\n' !in sender && '\n' !in more
    requires !Mentions("from=<" + sender + ">" + more, SASL_USERNAME)
    ensures ParseLine(header.Line(queueId + ": " + ("from=<" + sender + ">" + more)))
         == Some(LogEvent(Enqueued, header.stamp, Some(queueId), None, Some(sender), None, None, None, None))
  {
    hide Search, Header.Valid, Header.Line, ParseLine, Mentions;
    var body := "from=<" + sender + ">" + more;
    QueuedLine(header, queueId, body);
    SearchMisses(UsernameAt, body, SASL_USERNAME);
    FromIsFound(sender, more);
    StartsWithPrefix("from=", "<" + sender + ">" + more);
    assert body == "from=" + ("<" + sender + ">" + more);
  }

  // ------------------------------------------------------------- deliveries

  /** What Postfix reports about a delivery attempt; words it has beyond these four, such as
      `filtered`, leave the status of the message as it is. */
  datatype Outcome = Delivered | Delayed | Returned | Expired | Other(word: string) {
    function Word(): string {
      match this
      case Delivered => "sent"
      case Delayed => "deferred"
      case Returned => "bounced"
      case Expired => "expired"
      case Other(word) => word
    }

    function Status(): Option<MailStatus> {
      match this
      case Delivered => Some(Sent)
      case Delayed => Some(Deferred)
      case Returned => Some(Bounced)
      case Expired => Some(Bounced)
      case Other(_) => None
    }

    ghost predicate Valid() {
      Other? ==> word != "" && AllIn(word, IsWord) && word !in {"sent", "deferred", "bounced", "expired"}
    }
  }

  lemma OutcomeIsRead(outcome: Outcome)
    requires outcome.Valid()
    ensures MailStatusOf(outcome.Word()) == outcome.Status()
    ensures outcome.Word() != "" && AllIn(outcome.Word(), IsWord)
    ensures outcome.Status() == Some(Sent) <==> outcome.Delivered?
  {
    assert |"sent"| == 4 && |"deferred"| == 8 && |"bounced"| == 7 && |"expired"| == 7;
    assert "bounced"[0] == 'b' && "expired"[0] == 'e';
  }

  /** The end of a delivery line: the word, and the detail in parentheses if there is one. */
  function Report(word: string, detail: Option<string>): string {
    word + if detail.Some? then " (" + detail.value + ")" else ""
  }

  lemma NothingToStrip(s: string)
    requires s != "" && !IsSpace(Last(s))
    ensures StripRight(s) == s
  {
  }

  lemma ReportIsRead(word: string, detail: Option<string>)
    requires word != "" && AllIn(word, IsWord)
    ensures StatusTail(Report(word, detail)) == Some((word, detail))
  {
    hide Span, SkipSpaces, StripRight;
    if detail.None? {
      SpanStops(word, "", IsWord);
      assert word + "" == word && word[|word|..] == "";
      NoSpaceToSkip("");
    } else {
      var parens := "(" + detail.value + ")";
      assert Report(word, detail) == word + (" " + parens);
      SpanStops(word, " " + parens, IsWord);
      NoSpaceToSkip(parens);
      NothingToStrip(parens);
      assert parens[1..|parens| - 1] == detail.value;
    }
  }

  lemma StatusIsFound(pre: string, word: string, detail: Option<string>)
    requires !Mentions(pre, "status=") && word != "" && AllIn(word, IsWord)
    ensures Search(StatusAt, pre + "status=" + Report(word, detail)) == Some((word, detail))
  {
    hide StatusTail, Search, Mentions, Report;
    ReportIsRead(word, detail);
    StartsWithPrefix("status=", Report(word, detail));
    SearchFinds(StatusAt, pre, "status=", Report(word, detail));
  }

  /** Where a message went: the named host with its address in brackets, or nowhere. */
  datatype Hop = Nowhere | Via(host: string, address: string, port: nat) {
    function Relay(): Option<(string, nat)> {
      if Nowhere? then None else Some((host, port))
    }

    function Text(): string {
      if Nowhere? then "none" else host + "[" + address + "]:" + Decimal(port)
    }

    ghost predicate Valid() {
      Via? ==> host != "" && AllIn(host, IsRelayHostChar) && '\n' !in host && ']' !in address && '\n' !in address
    }
  }

  lemma HopIsRead(hop: Hop, after: string)
    requires hop.Valid() && after != "" && after[0] == ','
    ensures RelayAt("relay=" + (hop.Text() + after)) == hop.Relay()
  {
    hide RelayAt, Hop.Valid, Hop.Text;
    if hop.Nowhere? {
      NowhereIsRead(after);
    } else {
      RelayIsRead(hop, after);
    }
  }

  lemma NowhereIsRead(after: string)
    requires after != "" && after[0] == ','
    ensures Nowhere.Text() == "none" && RelayAt("relay=" + ("none" + after)).None?
  {
    hide Span, PortAfterAddress;
    StartsWithPrefix("relay=", "none" + after);
    SpanStops("none", after, IsRelayHostChar);
    assert ("none" + after)[4] == ',';
  }

  lemma RelayIsRead(hop: Hop, after: string)
    requires hop.Via? && hop.Valid() && after != "" && after[0] == ','
    ensures RelayAt("relay=" + (hop.Text() + after)) == Some((hop.host, hop.port))
  {
    hide RelayAt, Decimal, PortAfterAddress, IndexOf;
    var tail := hop.address + ("]:" + (Decimal(hop.port) + after));
    PortIsRead(hop.address, hop.port, after);
    HostAndPortAreRead(hop.host, tail, hop.port);
    assert hop.Text() + after == hop.host + ("[" + tail);
  }

  lemma HostAndPortAreRead(host: string, tail: string, port: nat)
    requires host != "" && AllIn(host, IsRelayHostChar) && PortAfterAddress(tail) == Some(port)
    ensures RelayAt("relay=" + (host + ("[" + tail))) == Some((host, port))
  {
    hide Span, PortAfterAddress, StartsWith;
    var text := host + ("[" + tail);
    StartsWithPrefix("relay=", text);
    assert |"relay="| == 6;
    SpanStops(host, "[" + tail, IsRelayHostChar);
    BracketAfter(host, tail);
  }

  lemma BracketAfter(host: string, tail: string)
    ensures var text := host + ("[" + tail);
            |text| > |host| && text[|host|] == '[' && text[|host| + 1..] == tail && text[..|host|] == host
  {
  }

  lemma PortIsRead(address: string, port: nat, after: string)
    requires ']' !in address && after != "" && after[0] == ','
    ensures PortAfterAddress(address + ("]:" + (Decimal(port) + after))) == Some(port)
  {
    hide Span, Decimal, FromDecimal, IndexOf;
    var digits := Decimal(port);
    assert address + ("]:" + (digits + after)) == address + [']'] + (":" + (digits + after));
    FirstIndex(address, ']', ":" + (digits + after));
    assert (address + ("]:" + (digits + after)))[|address|..] == "]:" + (digits + after);
    StartsWithPrefix("]:", digits + after);
    forall i | 0 <= i < |digits| ensures IsDigit(digits[i]) {
      assert digits[i] in digits;
    }
    SpanStops(digits, after, IsDigit);
    DecimalRoundTrip(port);
  }

  lemma RelayIsFound(pre: string, hop: Hop, after: string)
    requires !Mentions(pre, "relay=") && hop.Valid() && after != "" && after[0] == ','
    requires hop.Nowhere? ==> !Mentions(after, "relay=")
    ensures Search(RelayAt, pre + "relay=" + (hop.Text() + after)) == hop.Relay()
  {
    hide RelayAt, Mentions, Search, Hop.Text;
    HopIsRead(hop, after);
    OnlyRelays();
    var rest := hop.Text() + after;
    if hop.Via? {
      SearchFinds(RelayAt, pre, "relay=", rest);
    } else {
      NowhereIsMissed(pre, hop, after);
    }
  }

  lemma OnlyRelays()
    ensures EndsUniquely("relay=") && forall s :: !StartsWith(s, "relay=") ==> RelayAt(s).None?
  {
  }

  lemma NowhereIsMissed(pre: string, hop: Hop, after: string)
    requires hop.Nowhere? && !Mentions(pre, "relay=") && !Mentions(after, "relay=")
    requires after != "" && after[0] == ','
    requires RelayAt("relay=" + (hop.Text() + after)).None?
    ensures Search(RelayAt, pre + "relay=" + (hop.Text() + after)).None?
  {
    hide RelayAt, Search;
    OnlyRelays();
    var rest := "none" + after;
    var s := pre + "relay=" + rest;
    forall i | 0 <= i <= |s| ensures RelayAt(s[i..]).None? {
      if i < |pre| {
        NoEarlierMention(pre, "relay=", rest, i);
      } else if i == |pre| {
        assert s[i..] == "relay=" + rest;
      } else {
        NoneIsNoRelay(pre, after, i);
      }
    }
    SearchFails(RelayAt, s);
  }

  lemma NoneIsNoRelay(pre: string, after: string, i: nat)
    requires !Mentions(after, "relay=") && |pre| < i <= |pre| + 10 + |after|
    ensures !StartsWith((pre + "relay=" + ("none" + after))[i..], "relay=")
  {
    var s := pre + "relay=" + ("none" + after);
    var head := "relay=none";
    assert s == pre + (head + after);
    var j := i - |pre|;
    if j >= |head| {
      assert s[i..] == after[j - |head|..];
    } else {
      assert s[i..][0] == s[i] == head[j] != 'r';
    }
  }

  /** One delivery attempt. */
  datatype DeliveryLine = DeliveryLine(recipient: string, hop: Hop, timing: string, outcome: Outcome, detail: Option<string>) {
    function BeforeStatus(): string {
      "to=<" + recipient + ">, relay=" + hop.Text() + ", " + timing
    }

    function Body(): string {
      BeforeStatus() + "status=" + Report(outcome.Word(), detail)
    }

    /** Free of further relays and statuses; only a user name may still be mentioned. */
    ghost predicate WellFormed() {
      && outcome.Valid() && hop.Valid()
      && '>' !in recipient && '\n' !in recipient && '\n' !in timing && '\n' !in detail.GetOr("")
      && !Mentions(BeforeStatus(), "status=")
      && !Mentions("to=<" + recipient + ">, ", "relay=")
      && (hop.Nowhere? ==> !Mentions(", " + timing + "status=" + Report(outcome.Word(), detail), "relay="))
    }

    ghost predicate Valid() {
      WellFormed() && !Mentions(Body(), SASL_USERNAME)
    }

    function Event(timestamp: string, queueId: string): LogEvent {
      LogEvent(Delivery, timestamp, Some(queueId), None, None, Some(recipient), outcome.Status(), hop.Relay(),
               if outcome.Delivered? then None else detail)
    }
  }

  lemma DeliveryIsOneLine(d: DeliveryLine)
    requires d.WellFormed()
    ensures Message(d.Body())
  {
    OutcomeIsRead(d.outcome);
    assert '\n' !in d.outcome.Word();
    assert '\n' !in Report(d.outcome.Word(), d.detail);
    assert '\n' !in d.hop.Text();
    assert '\n' !in d.BeforeStatus();
  }

  lemma RecipientIsFound(recipient: string, after: string)
    requires '>' !in recipient
    ensures FindTo("to=<" + recipient + ">" + after) == Some(recipient)
    ensures StartsWith("to=<" + recipient + ">" + after, "to=") && !StartsWith("to=<" + recipient + ">" + after, "from=")
  {
    hide Search, Bracketed, StartsWith;
    var body := "to=<" + recipient + ">" + after;
    assert body == "to=<" + (recipient + ">" + after);
    BracketedStops(recipient, after);
    StartsWithPrefix("to=<", recipient + ">" + after);
    assert body == "to=" + ("<" + (recipient + ">" + after));
    StartsWithPrefix("to=", "<" + (recipient + ">" + after));
    assert body[0] == 't' && body[..1] == "t";
    OtherStart(body, "from=");
  }

  lemma OtherStart(s: string, prefix: string)
    requires s != "" && prefix != "" && s[0] != prefix[0]
    ensures !StartsWith(s, prefix)
  {
    if |prefix| <= |s| {
      assert s[..|prefix|][0] == s[0];
    }
  }

  lemma DeliveryRelayIsFound(d: DeliveryLine)
    requires d.WellFormed()
    ensures Search(RelayAt, d.Body()) == d.hop.Relay()
  {
    hide Search, Mentions, Hop.Valid, Hop.Text, Hop.Relay, RelayAt, Report, Outcome.Word;
    var after := ", " + d.timing + "status=" + Report(d.outcome.Word(), d.detail);
    assert d.Body() == "to=<" + d.recipient + ">, " + "relay=" + (d.hop.Text() + after);
    RelayIsFound("to=<" + d.recipient + ">, ", d.hop, after);
  }

  lemma DeliveryEvent(timestamp: string, queueId: string, d: DeliveryLine)
    requires d.WellFormed() && Search(UsernameAt, d.Body()).None?
    ensures QueuedEvent(timestamp, queueId, d.Body()) == Some(d.Event(timestamp, queueId))
  {
    hide Search, Mentions, Hop.Valid, Hop.Text, Hop.Relay, RelayAt, FindTo, StartsWith, Outcome.Word, Outcome.Status, Outcome.Valid, Report, StatusAt, UsernameAt, MailStatusOf;
    var body := d.Body();
    OutcomeIsRead(d.outcome);
    StatusIsFound(d.BeforeStatus(), d.outcome.Word(), d.detail);
    DeliveryRelayIsFound(d);
    var after := ", relay=" + d.hop.Text() + ", " + d.timing + "status=" + Report(d.outcome.Word(), d.detail);
    assert body == "to=<" + d.recipient + ">" + after;
    RecipientIsFound(d.recipient, after);
  }

  lemma NoUsername(body: string)
    requires !Mentions(body, SASL_USERNAME)
    ensures Search(UsernameAt, body).None?
  {
    hide Search;
    SearchMisses(UsernameAt, body, SASL_USERNAME);
  }

  /** The detail may contain anything a line can contain, further parentheses and further
      `status=` included; what must not occur is listed in `DeliveryLine.Valid`. */
  lemma DeliveryRoundTrip(header: Header, queueId: string, d: DeliveryLine)
    requires header.Valid() && IsQueueId(queueId) && d.Valid()
    ensures ParseLine(header.Line(queueId + ": " + d.Body())) == Some(d.Event(header.stamp, queueId))
  {
    hide Search, Header.Valid, Header.Line, ParseLine, Mentions, DeliveryLine.WellFormed, DeliveryLine.Body, DeliveryLine.Event, QueuedEvent;
    NoUsername(d.Body());
    DeliveryIsOneLine(d);
    QueuedLine(header, queueId, d.Body());
    DeliveryEvent(header.stamp, queueId, d);
  }

  // --------------------------------------------- the patterns do overlap

  /** Any message with a queue id is read as an authentication if and only if a user name
      is found anywhere in it, whatever else it says. */
  lemma AuthIffUsername(header: Header, queueId: string, body: string)
    requires header.Valid() && IsQueueId(queueId) && Message(body)
    ensures var parsed := ParseLine(header.Line(queueId + ": " + body));
            parsed.Some? && parsed.value.kind.Auth? <==> Search(UsernameAt, body).Some?
  {
    hide Search, Header.Valid, Header.Line, ParseLine, FindTo, MailStatusOf, StartsWith;
    QueuedLine(header, queueId, body);
  }

  /** What any message with a queue id is read as: an authentication if a user name is found
      in it, else an enqueued or a delivery event by how it starts, else nothing. */
  lemma KindOfMessage(header: Header, queueId: string, body: string)
    requires header.Valid() && IsQueueId(queueId) && Message(body)
    ensures var parsed := ParseLine(header.Line(queueId + ": " + body));
            var username := Search(UsernameAt, body);
            && (parsed.None? <==> username.None? && !StartsWith(body, "from=") && !StartsWith(body, "to="))
            && (parsed.Some? ==> parsed.value.queueId == Some(queueId) && parsed.value.timestamp == header.stamp)
            && (parsed.Some? && parsed.value.kind.Auth? <==> username.Some?)
            && (parsed.Some? && parsed.value.kind.Enqueued? <==> username.None? && StartsWith(body, "from="))
            && (parsed.Some? && parsed.value.kind.Delivery? <==> username.None? && StartsWith(body, "to="))
  {
    hide Search, Header.Valid, Header.Line, ParseLine, FindTo, MailStatusOf, StartsWith;
    StartsOnce(body);
    QueuedLine(header, queueId, body);
  }

  lemma StartsOnce(body: string)
    ensures !(StartsWith(body, "from=") && StartsWith(body, "to="))
  {
    if StartsWith(body, "from=") {
      assert body[..5][0] == 'f';
      OtherStart(body, "to=");
    }
  }

  /** An input: that the queue manager is done with a message changes nothing in the table. */
  lemma RemovedIsNoEvent(header: Header, queueId: string)
    requires header.Valid() && IsQueueId(queueId)
    ensures ParseLine(header.Line(queueId + ": " + "removed")).None?
  {
    hide Header.Valid, Header.Line, ParseLine, Search, StartsWith;
    NotMentionedInShort("removed");
    NoUsername("removed");
    OtherStart("removed", "from=");
    OtherStart("removed", "to=");
    KindOfMessage(header, queueId, "removed");
  }

  /** How the lines start that are worth a row without having a queue id. */
  ghost predicate LooksRejected(message: string) {
    || StartsWith(message, "NOQUEUE: reject: ")
    || (StartsWith(message, "warning: ") && Mentions(message, " authentication failed: "))
    || (StartsWith(message, "warning: ") && Mentions(message, " SSL_accept error from "))
    || (StartsWith(message, "lost connection after ") && Mentions(message, " from "))
  }

  ghost predicate StartsWithQueueId(message: string) {
    exists n: nat :: n < |message| && message[n] == ':' && IsQueueId(message[..n])
  }

  /** Everything else Postfix logs, such as connects, disconnects and other warnings, is no
      event: a rejection looks like one, and any other event starts with a queue id. */
  lemma NothingElseIsAnEvent(header: Header, message: string)
    requires header.Valid() && Message(message)
    ensures var parsed := ParseLine(header.Line(message));
            && (parsed.Some? && parsed.value.kind.Reject? ==> LooksRejected(message))
            && (parsed.Some? && !parsed.value.kind.Reject? ==> StartsWithQueueId(message))
  {
    hide Header.Valid, Header.Line, NoqueueReject, AuthFailed, TlsFailed, LostConnection, QueuedEvent, LooksRejected, MessageOf, Message, IsQueueId;
    HeaderIsRead(header, message);
    RejectsLookIt(header.stamp, message);
    QueuedIsNoReject(header.stamp, message);
    var n := Span(message, IsAlnum);
    assert QueueIdAndBody(message).Some? ==> message[n] == ':' && IsQueueId(message[..n]);
  }

  lemma QueuedIsNoReject(timestamp: string, message: string)
    ensures var id := QueueIdAndBody(message);
            id.Some? ==> var e := QueuedEvent(timestamp, id.value.0, id.value.1); e.Some? ==> !e.value.kind.Reject?
    ensures var (a, b, c, d) := (NoqueueReject(timestamp, message), AuthFailed(timestamp, message),
                                 TlsFailed(timestamp, message), LostConnection(timestamp, message));
            && (a.Some? ==> a.value.kind.Reject?) && (b.Some? ==> b.value.kind.Reject?)
            && (c.Some? ==> c.value.kind.Reject?) && (d.Some? ==> d.value.kind.Reject?)
  {
    hide Search, IsQueueId, SkipSpaces, FindTo, MailStatusOf, Span, AfterWarning, StartsWith, WithoutUsernames, StripCommas, Strip;
  }

  lemma RejectsLookIt(timestamp: string, message: string)
    ensures NoqueueReject(timestamp, message).Some? || AuthFailed(timestamp, message).Some?
              || TlsFailed(timestamp, message).Some? || LostConnection(timestamp, message).Some? ==>
              LooksRejected(message)
  {
    hide NoqueueReject, AuthFailed, TlsFailed, LostConnection, Mentions, StartsWith;
    if NoqueueReject(timestamp, message).Some? {
      NoqueueLooksIt(timestamp, message);
    }
    if AuthFailed(timestamp, message).Some? {
      AuthMentionsFailure(timestamp, message);
    }
    if TlsFailed(timestamp, message).Some? {
      TlsMentionsError(timestamp, message);
    }
    if LostConnection(timestamp, message).Some? {
      LostMentionsFrom(timestamp, message);
    }
  }

  lemma NoqueueLooksIt(timestamp: string, message: string)
    requires NoqueueReject(timestamp, message).Some?
    ensures StartsWith(message, NOQUEUE)
  {
    hide Search, FindTo, Strip, StartsWith;
  }

  lemma AuthMentionsFailure(timestamp: string, message: string)
    requires AuthFailed(timestamp, message).Some?
    ensures StartsWith(message, "warning: ") && Mentions(message, AUTH_FAILED)
  {
    hide Search, Strip, StripCommas, WithoutUsernames, AfterWarning, Mentions, StartsWith, Span;
    var (client, s) := AfterWarning(message, "SASL ").value;
    AfterWarningIsATail(message, "SASL ");
    TailMentions(message, s, Span(s, NotSpace), AUTH_FAILED);
  }

  lemma TlsMentionsError(timestamp: string, message: string)
    requires TlsFailed(timestamp, message).Some?
    ensures StartsWith(message, "warning: ") && Mentions(message, " SSL_accept error from ")
  {
    hide AfterWarning, Mentions, StartsWith, Span;
    AfterWarningIsATail(message, "SSL_accept error from ");
    assert " " + "SSL_accept error from " == " SSL_accept error from ";
  }

  lemma LostMentionsFrom(timestamp: string, message: string)
    requires LostConnection(timestamp, message).Some?
    ensures StartsWith(message, LOST) && Mentions(message, " from ")
  {
    hide Span, Mentions;
    var s := message[|LOST|..];
    TailMentions(message, s, Span(s, NotSpace), " from ");
  }

  lemma AfterWarningIsATail(message: string, text: string)
    requires AfterWarning(message, text).Some?
    ensures StartsWith(message, "warning: ") && Mentions(message, " " + text)
    ensures var s := AfterWarning(message, text).value.1; |s| <= |message| && s == message[|message| - |s|..]
  {
    hide Span;
    var n := Span(message[9..], NotSpace);
    assert message[9..][n..] == message[9 + n..];
    assert StartsWith(message[9 + n..], " " + text);
  }

  lemma TailMentions(message: string, s: string, n: nat, pattern: string)
    requires |s| <= |message| && s == message[|message| - |s|..] && n <= |s| && StartsWith(s[n..], pattern)
    ensures Mentions(message, pattern)
  {
    var i := |message| - |s| + n;
    assert message[i..] == s[n..];
  }

  /** An input: a client that connects is no event. */
  lemma ConnectIsNoEvent(header: Header, client: string)
    requires header.Valid() && '\n' !in client
    ensures ParseLine(header.Line("connect from " + client)).None?
  {
    hide Header.Valid, Header.Line, ParseLine, StartsWith, IsQueueId;
    var message := "connect from " + client;
    assert message[7] == ' ' && message[0] == 'c' && forall i :: 0 <= i <= 7 ==> message[i] == "connect "[i];
    OtherStart(message, "NOQUEUE: reject: ");
    OtherStart(message, "warning: ");
    OtherStart(message, "lost connection after ");
    NothingElseIsAnEvent(header, message);
    SpaceBeforeColon(message, 7);
  }

  lemma SpaceBeforeColon(message: string, k: nat)
    requires k < |message| && message[k] == ' ' && forall i :: 0 <= i < k ==> message[i] != ':'
    ensures !StartsWithQueueId(message)
  {
    forall n: nat | n < |message| && message[n] == ':' ensures !IsQueueId(message[..n]) {
      assert message[..n][k] == ' ' && !IsAlnum(' ');
    }
  }

  /** An address line is read as such exactly when there is no user name in it. */
  lemma EnqueuedIffNoUsername(header: Header, queueId: string, sender: string, more: string)
    requires header.Valid() && IsQueueId(queueId) && '>' !in sender && '\n' !in sender && '\n' !in more
    ensures var body := "from=<" + sender + ">" + more;
            var parsed := ParseLine(header.Line(queueId + ": " + body));
            parsed.Some? && (parsed.value.kind.Enqueued? <==> Search(UsernameAt, body).None?)
  {
    hide Search, Header.Valid, Header.Line, ParseLine;
    var body := "from=<" + sender + ">" + more;
    QueuedLine(header, queueId, body);
    assert body == "from=" + ("<" + sender + ">" + more);
    StartsWithPrefix("from=", "<" + sender + ">" + more);
  }

  /** A delivery line is read as the delivery it reports exactly when there is none in it;
      otherwise its recipient, status and detail are lost. */
  lemma DeliveryIffNoUsername(header: Header, queueId: string, d: DeliveryLine)
    requires header.Valid() && IsQueueId(queueId) && d.WellFormed()
    ensures ParseLine(header.Line(queueId + ": " + d.Body())) == Some(d.Event(header.stamp, queueId)) <==>
              Search(UsernameAt, d.Body()).None?
  {
    hide Search, Header.Valid, Header.Line, ParseLine, Mentions, DeliveryLine.WellFormed, DeliveryLine.Body, QueuedEvent;
    DeliveryIsOneLine(d);
    QueuedLine(header, queueId, d.Body());
    AuthIffUsername(header, queueId, d.Body());
    if Search(UsernameAt, d.Body()).None? {
      DeliveryEvent(header.stamp, queueId, d);
    }
  }

  /** Inputs: a recipient, or a sender, that any client may choose. */
  lemma AddressesTakenForUsers(header: Header, queueId: string)
    requires header.Valid() && IsQueueId(queueId)
    ensures ParseLine(header.Line(queueId + ": " + ("to=<" + SASL_USERNAME + ("x@d>," + " relay=none, delay=1, status=sent (ok)"))))
         == Some(LogEvent(Auth, header.stamp, Some(queueId), Some("x@d>,"), None, None, None, None, None))
    ensures ParseLine(header.Line(queueId + ": " + ("from=<" + SASL_USERNAME + ("x@d>," + " size=1"))))
         == Some(LogEvent(Auth, header.stamp, Some(queueId), Some("x@d>,"), None, None, None, None, None))
  {
    hide *;
    AddressIsOneToken();
    assert '\n' !in "to=<" && '\n' !in "from=<";
    AddressTakenForUser(header, queueId, "to=<", "x@d>,", " relay=none, delay=1, status=sent (ok)");
    AddressTakenForUser(header, queueId, "from=<", "x@d>,", " size=1");
  }

  lemma AddressIsOneToken()
    ensures AllIn("x@d>,", NotSpace) && IsSpace(' ') && !IsSpace('t') && !IsSpace('f') && |SASL_USERNAME| == 14
  {
  }

  lemma AddressTakenForUser(header: Header, queueId: string, start: string, username: string, after: string)
    requires header.Valid() && IsQueueId(queueId) && 0 < |start| < |SASL_USERNAME| && !IsSpace(start[0]) && '\n' !in start
    requires username != "" && AllIn(username, NotSpace) && after != "" && IsSpace(after[0]) && '\n' !in after
    ensures ParseLine(header.Line(queueId + ": " + (start + SASL_USERNAME + (username + after))))
         == Some(LogEvent(Auth, header.stamp, Some(queueId), Some(username), None, None, None, None, None))
  {
    var body := start + SASL_USERNAME + (username + after);
    assert Message(body) by {
      assert '\n' !in username && '\n' !in SASL_USERNAME;
    }
    hide Search, Header.Valid, Header.Line, ParseLine, UsernameAt, Message, FindTo, StartsWith;
    NotMentionedInShort(start);
    UsernameIsFound(start, username, after);
    QueuedLine(header, queueId, body);
  }

  lemma NotMentionedInShort(s: string)
    requires |s| < |SASL_USERNAME|
    ensures !Mentions(s, SASL_USERNAME)
  {
  }

  // ---------------------------------------------------------------- rejects

  /** A rejection before queueing: where it happened, the reply code with its text, the
      envelope, anything else, and the authenticated user if there was one. */
  datatype RejectLine = RejectLine(place: string, code: string, sender: string, recipient: string, more: string, username: Option<string>) {
    function Envelope(): string {
      "from=<" + sender + ">" + (" to=<" + recipient + ">" + more)
    }

    function Tail(): string {
      if username.None? then Envelope() else Envelope() + SASL_USERNAME + username.value
    }

    function Text(): string {
      NOQUEUE + (place + ": " + (code + "; " + Tail()))
    }

    ghost predicate Valid() {
      && !Mentions(place, ": ") && '\n' !in place
      && |code| >= 3 && IsDigit(code[0]) && IsDigit(code[1]) && IsDigit(code[2])
      && AllIn(code, NotSemicolon) && !IsSpace(Last(code)) && '\n' !in code
      && '<' !in sender && '>' !in sender && '\n' !in sender && '>' !in recipient && '\n' !in recipient && '\n' !in more
      && !Mentions(Envelope(), SASL_USERNAME)
      && (username.Some? ==> username.value != "" && AllIn(username.value, NotSpace))
    }
  }

  lemma CodeIsRead(code: string, tail: string)
    requires |code| >= 3 && IsDigit(code[0]) && IsDigit(code[1]) && IsDigit(code[2]) && AllIn(code, NotSemicolon)
    requires tail != "" && !IsSpace(tail[0])
    ensures CodeAt(": " + (code + "; " + tail)) == Some((code, tail))
  {
    hide Span, SkipSpaces;
    var s := ": " + (code + "; " + tail);
    var rest := code[3..];
    CodeShape(code, tail, rest);
    SpanStops(rest, "; " + tail, NotSemicolon);
    NoSpaceToSkip(tail);
  }

  lemma CodeShape(code: string, tail: string, rest: string)
    requires |code| >= 3 && rest == code[3..]
    ensures var s := ": " + (code + "; " + tail);
            && StartsWith(s, ": ") && s[2] == code[0] && s[3] == code[1] && s[4] == code[2]
            && s[5..] == rest + ("; " + tail) && |s| > 5 + |rest|
            && s[2..5 + |rest|] == code && s[5 + |rest| + 1..] == " " + tail
  {
  }

  lemma CodeIsFound(place: string, code: string, tail: string)
    requires !Mentions(place, ": ")
    requires |code| >= 3 && IsDigit(code[0]) && IsDigit(code[1]) && IsDigit(code[2]) && AllIn(code, NotSemicolon)
    requires tail != "" && !IsSpace(tail[0])
    ensures Search(CodeAt, place + ": " + (code + "; " + tail)) == Some((code, tail))
  {
    hide Search, Mentions, CodeAt;
    CodeIsRead(code, tail);
    OnlyCodes();
    SearchFinds(CodeAt, place, ": ", code + "; " + tail);
  }

  lemma OnlyCodes()
    ensures EndsUniquely(": ") && forall s :: !StartsWith(s, ": ") ==> CodeAt(s).None?
  {
  }

  lemma FromHasNoTo(sender: string, i: nat)
    requires '<' !in sender && i < |"from=<" + sender + ">"|
    ensures !StartsWith(("from=<" + sender + ">")[i..], "to=<")
  {
    var s := "from=<" + sender + ">";
    if i + 4 <= |s| {
      assert s[i..][..4][3] == s[i + 3] && s[i..][..4][0] == s[i];
    }
  }

  lemma RecipientAfterSender(sender: string, recipient: string, more: string)
    requires '<' !in sender && '>' !in recipient
    ensures FindTo("from=<" + sender + ">" + (" to=<" + recipient + ">" + more)) == Some(recipient)
  {
    hide Search, Bracketed, StartsWith, ToAfterBoundaryAt;
    var pre := "from=<" + sender + ">";
    var rest := " to=<" + recipient + ">" + more;
    var tail := pre + rest;
    RecipientAtBoundary(recipient, more);
    forall i | 0 <= i < |pre| ensures ToAfterBoundaryAt(tail[i..]).None? {
      NoToInside(sender, recipient, more, i);
    }
    SearchSkips(ToAfterBoundaryAt, pre, rest);
    SearchHere(ToAfterBoundaryAt, rest);
    assert tail[0] == 'f';
    OtherStart(tail, "to=<");
  }

  lemma RecipientAtBoundary(recipient: string, more: string)
    requires '>' !in recipient
    ensures ToAfterBoundaryAt(" to=<" + recipient + ">" + more) == Some(recipient)
  {
    hide Bracketed, StartsWith;
    var rest := " to=<" + recipient + ">" + more;
    assert rest[1..] == "to=<" + (recipient + ">" + more);
    StartsWithPrefix("to=<", recipient + ">" + more);
    BracketedStops(recipient, more);
  }

  lemma SearchHere<T>(m: string -> Option<T>, s: string)
    requires m(s).Some?
    ensures Search(m, s) == m(s)
  {
  }

  lemma NoToInside(sender: string, recipient: string, more: string, i: nat)
    requires '<' !in sender && i < |"from=<" + sender + ">"|
    ensures ToAfterBoundaryAt(("from=<" + sender + ">" + (" to=<" + recipient + ">" + more))[i..]).None?
  {
    var pre := "from=<" + sender + ">";
    var tail := pre + (" to=<" + recipient + ">" + more);
    var s := tail[i..];
    assert s[1..] == tail[i + 1..];
    if i + 1 < |pre| {
      FromHasNoTo(sender, i + 1);
      if i + 5 <= |pre| {
        assert tail[i + 1..][..4] == pre[i + 1..][..4];
      } else {
        assert tail[i + 1..][..4][|pre| - i - 1] == tail[|pre|] == ' ';
      }
    } else {
      assert tail[i + 1..][..4][0] == tail[|pre|] == ' ';
    }
  }

  lemma NothingToStripAround(s: string)
    requires s != "" && !IsSpace(s[0]) && !IsSpace(Last(s))
    ensures Strip(s) == s
  {
    NoSpaceToSkip(s);
    NothingToStrip(s);
  }

  /** The parts of a reject line's tail. */
  lemma TailIsRead(r: RejectLine)
    requires r.Valid()
    ensures r.Tail() != "" && !IsSpace(r.Tail()[0])
    ensures Search(FromAt, r.Tail()) == Some(r.sender) && FindTo(r.Tail()) == Some(r.recipient)
    ensures Search(UsernameAt, r.Tail()) == r.username
  {
    hide Search, Mentions, FindTo, FromAt, UsernameAt;
    var after := if r.username.None? then "" else SASL_USERNAME + r.username.value;
    var rest := " to=<" + r.recipient + ">" + (r.more + after);
    TailShape(r, after, rest);
    FromIsFound(r.sender, rest);
    RecipientAfterSender(r.sender, r.recipient, r.more + after);
    if r.username.None? {
      NoUsername(r.Tail());
    } else {
      assert r.username.value + "" == r.username.value;
      UsernameIsFound(r.Envelope(), r.username.value, "");
    }
  }

  lemma TailShape(r: RejectLine, after: string, rest: string)
    requires after == (if r.username.None? then "" else SASL_USERNAME + r.username.value)
    requires rest == " to=<" + r.recipient + ">" + (r.more + after)
    ensures r.Tail() == "from=<" + r.sender + ">" + rest && r.Tail()[0] == 'f'
  {
  }

  lemma RejectEvent(timestamp: string, r: RejectLine)
    requires r.Valid()
    ensures NoqueueReject(timestamp, r.Text())
         == Some(LogEvent(Reject, timestamp, None, r.username, Some(r.sender), Some(r.recipient), None, None, Some(r.code)))
  {
    hide Search, Mentions, FindTo, Strip, CodeAt, FromAt, UsernameAt, StartsWith, RejectLine.Tail;
    TailIsRead(r);
    StartsWithPrefix(NOQUEUE, r.place + ": " + (r.code + "; " + r.Tail()));
    CodeIsFound(r.place, r.code, r.Tail());
    NothingToStripAround(r.code);
  }

  lemma RejectIsOneLine(r: RejectLine)
    requires r.Valid()
    ensures Message(r.Text())
  {
    hide Mentions;
    assert '\n' !in r.Envelope();
    assert '\n' !in r.Tail();
    assert r.Text()[0] == 'N';
  }

  /** A message refused before it got a queue id. */
  lemma RejectRoundTrip(header: Header, r: RejectLine)
    requires header.Valid() && r.Valid()
    ensures ParseLine(header.Line(r.Text()))
         == Some(LogEvent(Reject, header.stamp, None, r.username, Some(r.sender), Some(r.recipient), None, None, Some(r.code)))
  {
    hide Header.Valid, Header.Line, MessageOf, NoqueueReject, AuthFailed, TlsFailed, LostConnection, RejectLine.Valid, RejectLine.Text, Message;
    RejectIsOneLine(r);
    HeaderIsRead(header, r.Text());
    RejectEvent(header.stamp, r);
  }

  // ------------------------------------------- sessions that never got to a message

  lemma WarningIsRead(client: string, text: string, after: string)
    requires client != "" && AllIn(client, NotSpace)
    ensures AfterWarning("warning: " + (client + ":" + (" " + text + after)), text) == Some((client, after))
  {
    hide Span;
    var s := client + ":" + (" " + text + after);
    StartsWithPrefix("warning: ", s);
    SpanStops(client + ":", " " + text + after, NotSpace);
    StartsWithPrefix(" " + text, after);
    assert s[|client + ":"| + 1 + |text|..] == after;
    assert s[..|client + ":"| - 1] == client;
  }

  /** The text after the client decides between the two kinds of warning. */
  lemma OtherWarning(client: string, text: string, after: string, other: string)
    requires client != "" && AllIn(client, NotSpace)
    requires |other| >= 2 && |text| >= 2 && other[1] != text[1]
    ensures AfterWarning("warning: " + (client + ":" + (" " + text + after)), other).None?
  {
    hide Span;
    var s := client + ":" + (" " + text + after);
    StartsWithPrefix("warning: ", s);
    SpanStops(client + ":", " " + text + after, NotSpace);
    var n := |client + ":"|;
    assert s[n..] == " " + text + after;
    assert (" " + text + after)[2] == text[1] && (" " + other)[2] == other[1];
    if |s[n..]| >= |" " + other| {
      assert s[n..][..|" " + other|][2] == text[1];
    }
  }

  lemma {:induction false} RemovalSkips(pre: string, rest: string)
    requires forall i :: 0 <= i < |pre| ==> UsernameAt((pre + rest)[i..]).None?
    ensures WithoutUsernames(pre + rest) == pre + WithoutUsernames(rest)
  {
    hide UsernameAt;
    if pre == "" {
      assert pre + rest == rest;
    } else {
      hide WithoutUsernames;
      assert (pre + rest)[0..] == pre + rest && (pre + rest)[1..] == pre[1..] + rest;
      OneCharacterStays(pre + rest);
      assert pre + WithoutUsernames(rest) == [pre[0]] + (pre[1..] + WithoutUsernames(rest));
      forall i | 0 <= i < |pre| - 1 ensures UsernameAt((pre[1..] + rest)[i..]).None? {
        assert (pre[1..] + rest)[i..] == (pre + rest)[i + 1..];
      }
      RemovalSkips(pre[1..], rest);
    }
  }

  lemma OneCharacterStays(s: string)
    requires s != "" && UsernameAt(s).None?
    ensures WithoutUsernames(s) == [s[0]] + WithoutUsernames(s[1..])
  {
    hide UsernameAt;
  }

  lemma UsernameIsRemoved(reason: string, username: string)
    requires !Mentions(reason + ", ", SASL_USERNAME) && username != "" && AllIn(username, NotSpace)
    ensures WithoutUsernames(reason + ", " + SASL_USERNAME + username) == reason + ", "
  {
    hide Span;
    var pre := reason + ", ";
    assert pre + SASL_USERNAME + username == pre + (SASL_USERNAME + username);
    forall i | 0 <= i < |pre| ensures UsernameAt((pre + (SASL_USERNAME + username))[i..]).None? {
      NoEarlierMention(pre, SASL_USERNAME, username, i);
    }
    RemovalSkips(pre, SASL_USERNAME + username);
    StartsWithPrefix(SASL_USERNAME, username);
    assert username + "" == username;
    SpanStops(username, "", NotSpace);
    var all := SASL_USERNAME + username;
    assert UsernameAt(all) == Some(username);
    assert all[|SASL_USERNAME| + |username|..] == "";
    assert WithoutUsernames(all) == WithoutUsernames("") == "";
    assert pre + "" == pre;
  }

  lemma CommasAreStripped(reason: string)
    requires reason != "" && !IsSpace(Last(reason)) && Last(reason) != ','
    ensures StripCommas(reason + ", ") == reason
  {
    assert Init(reason + ", ") == reason + ",";
    assert Init(reason + ",") == reason;
    assert StripCommas(reason + ", ") == StripCommas(reason + ",") == StripCommas(reason) == reason;
  }

  function AuthFailedText(client: string, mechanism: string, reason: string, username: string): string {
    "warning: " + (client + ":" + (" " + "SASL " + (mechanism + (AUTH_FAILED + (reason + ", " + SASL_USERNAME + username)))))
  }

  ghost predicate AuthFailedValid(client: string, mechanism: string, reason: string, username: string) {
    && client != "" && AllIn(client, NotSpace) && mechanism != "" && AllIn(mechanism, NotSpace)
    && reason != "" && !IsSpace(reason[0]) && !IsSpace(Last(reason)) && Last(reason) != ',' && '\n' !in reason
    && !Mentions(reason + ", ", SASL_USERNAME) && username != "" && AllIn(username, NotSpace)
  }

  lemma AuthFailedIsOneLine(client: string, mechanism: string, reason: string, username: string)
    requires AuthFailedValid(client, mechanism, reason, username)
    ensures Message(AuthFailedText(client, mechanism, reason, username))
    ensures AuthFailedText(client, mechanism, reason, username)[0] == 'w'
  {
    hide Mentions;
    assert '\n' !in client && '\n' !in mechanism && '\n' !in username;
    assert '\n' !in reason + ", " + SASL_USERNAME + username;
    assert '\n' !in mechanism + (AUTH_FAILED + (reason + ", " + SASL_USERNAME + username));
  }

  lemma ReasonIsRead(reason: string, username: string)
    requires reason != "" && !IsSpace(reason[0]) && !IsSpace(Last(reason)) && Last(reason) != ','
    requires !Mentions(reason + ", ", SASL_USERNAME) && username != "" && AllIn(username, NotSpace)
    ensures var detail := reason + ", " + SASL_USERNAME + username;
      Search(UsernameAt, detail) == Some(username) && Strip(StripCommas(WithoutUsernames(detail))) == reason
  {
    hide Mentions, WithoutUsernames, Search, StripCommas, Strip;
    assert username + "" == username;
    UsernameIsFound(reason + ", ", username, "");
    UsernameIsRemoved(reason, username);
    CommasAreStripped(reason);
    NothingToStripAround(reason);
  }

  lemma AuthFailedEvent(timestamp: string, client: string, mechanism: string, reason: string, username: string)
    requires AuthFailedValid(client, mechanism, reason, username)
    ensures AuthFailed(timestamp, AuthFailedText(client, mechanism, reason, username))
         == Some(LogEvent(Reject, timestamp, None, Some(username), None, None, None, None,
                          Some("SASL " + mechanism + AUTH_FAILED + reason)))
  {
    hide Span, Mentions, WithoutUsernames, Search, StripCommas, Strip, AfterWarning, UsernameAt;
    var detail := reason + ", " + SASL_USERNAME + username;
    var after := mechanism + (AUTH_FAILED + detail);
    WarningIsRead(client, "SASL ", after);
    SpanStops(mechanism, AUTH_FAILED + detail, NotSpace);
    StartsWithPrefix(AUTH_FAILED, detail);
    assert after[|mechanism| + |AUTH_FAILED|..] == detail;
    ReasonIsRead(reason, username);
  }

  lemma NoNoqueue(timestamp: string, message: string)
    requires message != "" && message[0] != 'N'
    ensures NoqueueReject(timestamp, message).None?
  {
    hide Search, FindTo, Strip;
  }

  /** A failed authentication: rejected, and attributed to the name that was tried. */
  lemma AuthFailedRoundTrip(header: Header, client: string, mechanism: string, reason: string, username: string)
    requires header.Valid() && AuthFailedValid(client, mechanism, reason, username)
    ensures ParseLine(header.Line(AuthFailedText(client, mechanism, reason, username)))
         == Some(LogEvent(Reject, header.stamp, None, Some(username), None, None, None, None,
                          Some("SASL " + mechanism + AUTH_FAILED + reason)))
  {
    hide Header.Valid, Header.Line, MessageOf, NoqueueReject, AuthFailed, TlsFailed, LostConnection, AuthFailedText, AuthFailedValid, Message;
    var message := AuthFailedText(client, mechanism, reason, username);
    AuthFailedIsOneLine(client, mechanism, reason, username);
    HeaderIsRead(header, message);
    MessageIsNotEmpty(message);
    NoNoqueue(header.stamp, message);
    AuthFailedEvent(header.stamp, client, mechanism, reason, username);
  }

  lemma MessageIsNotEmpty(message: string)
    requires Message(message)
    ensures message != ""
  {
  }

  lemma TlsFailedRoundTrip(header: Header, client: string, peer: string, detail: string)
    requires header.Valid() && client != "" && AllIn(client, NotSpace) && peer != "" && AllIn(peer, NotSpace)
    requires detail != "" && '\n' !in detail
    ensures ParseLine(header.Line("warning: " + (client + ":" + (" " + "SSL_accept error from " + (peer + ":" + (" " + detail))))))
         == Some(LogEvent(Reject, header.stamp, None, None, None, None, None, None,
                          Some("TLS handshake failed (" + client + "): " + detail)))
  {
    hide Header.Valid, Header.Line, MessageOf, LostConnection, TlsFailed, AfterWarning, NoqueueReject;
    var after := peer + ":" + (" " + detail);
    var message := "warning: " + (client + ":" + (" " + "SSL_accept error from " + after));
    assert Message(message) by {
      assert '\n' !in client && '\n' !in peer;
    }
    HeaderIsRead(header, message);
    OtherWarning(client, "SSL_accept error from ", after, "SASL ");
    TlsFailedEvent(header.stamp, client, peer, detail);
    assert message[0] == 'w';
    NoNoqueue(header.stamp, message);
  }

  lemma TlsFailedEvent(timestamp: string, client: string, peer: string, detail: string)
    requires client != "" && AllIn(client, NotSpace) && peer != "" && AllIn(peer, NotSpace) && detail != ""
    ensures TlsFailed(timestamp, "warning: " + (client + ":" + (" " + "SSL_accept error from " + (peer + ":" + (" " + detail)))))
         == Some(LogEvent(Reject, timestamp, None, None, None, None, None, None,
                          Some("TLS handshake failed (" + client + "): " + detail)))
  {
    hide AfterWarning, Span;
    var after := peer + ":" + (" " + detail);
    WarningIsRead(client, "SSL_accept error from ", after);
    SpanStops(peer + ":", " " + detail, NotSpace);
    assert after[|peer + ":"| + 1..] == detail;
  }

  lemma LostConnectionEvent(timestamp: string, phase: string, client: string)
    requires phase != "" && AllIn(phase, NotSpace) && client != "" && AllIn(client, NotSpace)
    ensures LostConnection(timestamp, LOST + (phase + (" from " + client)))
         == Some(LogEvent(Reject, timestamp, None, None, None, None, None, None,
                          Some("Lost connection after " + phase + " (" + client + ")")))
  {
    hide Span;
    StartsWithPrefix(LOST, phase + (" from " + client));
    SpanStops(phase, " from " + client, NotSpace);
    StartsWithPrefix(" from ", client);
    assert (phase + (" from " + client))[|phase| + 6..] == client;
    assert client + "" == client;
    SpanStops(client, "", NotSpace);
  }

  lemma NoWarning(timestamp: string, message: string)
    requires message != "" && message[0] != 'w'
    ensures AuthFailed(timestamp, message).None? && TlsFailed(timestamp, message).None?
  {
    hide Span, Search, Strip, StripCommas, WithoutUsernames;
  }

  lemma LostConnectionRoundTrip(header: Header, phase: string, client: string)
    requires header.Valid() && phase != "" && AllIn(phase, NotSpace) && client != "" && AllIn(client, NotSpace)
    ensures ParseLine(header.Line(LOST + (phase + (" from " + client))))
         == Some(LogEvent(Reject, header.stamp, None, None, None, None, None, None,
                          Some("Lost connection after " + phase + " (" + client + ")")))
  {
    hide Header.Valid, Header.Line, MessageOf, NoqueueReject, AuthFailed, TlsFailed, LostConnection;
    var message := LOST + (phase + (" from " + client));
    assert message[0] == 'l';
    assert Message(message) by {
      assert '\n' !in phase && '\n' !in client;
    }
    HeaderIsRead(header, message);
    NoNoqueue(header.stamp, message);
    NoWarning(header.stamp, message);
    LostConnectionEvent(header.stamp, phase, client);
  }
}
