/**
 The mail log parser: each regular expression as a deterministic scanner
 over the text it is matched against. Character classes are those of ASCII text.
 */
module MailParser {
  import opened Prelude
  import opened Text

  datatype MailStatus = Queued | Sent | Deferred | Bounced | Rejected

  datatype Kind = Auth | Enqueued | Delivery | Reject

  /** A parsed line. The time stamp is kept as the first fifteen characters of the line. */
  datatype LogEvent = LogEvent(
    kind: Kind,
    timestamp: string,
    queueId: Option<string>,
    saslUsername: Option<string>,
    envelopeSender: Option<string>,
    recipient: Option<string>,
    status: Option<MailStatus>,
    relay: Option<(string, nat)>,
    error: Option<string>)

  // ------------------------------------------------------ character classes

  predicate IsDigit(c: char) {
    '0' <= c <= '9'
  }

  predicate IsAlnum(c: char) {
    IsDigit(c) || 'a' <= c <= 'z' || 'A' <= c <= 'Z'
  }

  predicate IsWord(c: char) {
    IsAlnum(c) || c == '_'
  }

  predicate IsSpace(c: char) {
    c == ' ' || '\t' <= c <= '\r' || '\U{1C}' <= c <= '\U{1F}' || c == '\U{85}' || c == '\U{A0}'
  }

  predicate NotSpace(c: char) {
    !IsSpace(c)
  }

  predicate IsServiceChar(c: char) {
    IsWord(c) || c == '.' || c == '/' || c == '-'
  }

  predicate IsRelayHostChar(c: char) {
    c != '[' && c != ',' && !IsSpace(c)
  }

  predicate NotSemicolon(c: char) {
    c != ';'
  }

  // ---------------------------------------------------------------- scanning

  /** The length of the longest prefix whose characters are all in the class. */
  function Span(s: string, class_: char -> bool): (n: nat)
    ensures n <= |s| && (forall i :: 0 <= i < n ==> class_(s[i])) && (n < |s| ==> !class_(s[n]))
  {
    if s == "" || !class_(s[0]) then 0 else 1 + Span(s[1..], class_)
  }

  predicate StartsWith(s: string, prefix: string) {
    |prefix| <= |s| && s[..|prefix|] == prefix
  }

  /** The match of `m` at the leftmost position at which it matches: `re.search`. */
  function Search<T>(m: string -> Option<T>, s: string): Option<T> {
    if m(s).Some? then m(s)
    else if s == "" then None
    else Search(m, s[1..])
  }

  function SkipSpaces(s: string): string {
    s[Span(s, IsSpace)..]
  }

  function StripRight(s: string): string {
    if s != "" && IsSpace(Last(s)) then StripRight(Init(s)) else s
  }

  function Strip(s: string): string {
    StripRight(SkipSpaces(s))
  }

  /** `(.*)$`: the rest of a line, without a line feed at its very end. */
  function ToEnd(s: string): Option<string> {
    var k := IndexOf(s, '\n');
    if k == |s| then Some(s) else if k == |s| - 1 then Some(s[..k]) else None
  }

  // -------------------------------------------------------- the line header

  /** Two digits, twice with colons: `\d{2}:\d{2}:\d{2}`. */
  predicate IsClock(s: string) {
    && |s| == 8 && IsDigit(s[0]) && IsDigit(s[1]) && s[2] == ':' && IsDigit(s[3]) && IsDigit(s[4]) && s[5] == ':'
    && IsDigit(s[6]) && IsDigit(s[7])
  }

  const SERVICE_PREFIX: string := "postfix/"

  /** `\s+\d{2}:\d{2}:\d{2}`; returns what follows it. */
  function AfterClock(s: string): Option<string> {
    var clock := SkipSpaces(s);
    if clock == s || |clock| < 8 || !IsClock(clock[..8]) then None else Some(clock[8..])
  }

  /** `\d{1,2}` and the clock; returns what follows them. */
  function AfterDay(s: string): Option<string> {
    var n := Span(s, IsDigit);
    if n == 0 || n > 2 then None else AfterClock(s[n..])
  }

  /** From the month up to and including the clock; returns what follows it. */
  function AfterStamp(line: string): Option<string> {
    if |line| < 3 || !IsWord(line[0]) || !IsWord(line[1]) || !IsWord(line[2]) then None
    else
      var day := SkipSpaces(line[3..]);
      if day == line[3..] then None else AfterDay(day)
  }

  /** `\s+\S+\s+`, the host name; returns the tag that follows. */
  function AfterHost(s: string): Option<string> {
    var host := SkipSpaces(s);
    var afterHost := host[Span(host, NotSpace)..];
    var tag := SkipSpaces(afterHost);
    if host == s || afterHost == host || tag == afterHost then None else Some(tag)
  }

  /** `[pid]:\s*`, without the opening bracket; returns the message. */
  function AfterPid(s: string): Option<string> {
    var d := Span(s, IsDigit);
    if d == 0 || !StartsWith(s[d..], "]:") then None else ToEnd(SkipSpaces(s[d + 2..]))
  }

  /** `postfix/service[pid]:\s*`; returns the message. */
  function AfterTag(tag: string): Option<string> {
    if !StartsWith(tag, SERVICE_PREFIX) then None
    else
      var service := tag[|SERVICE_PREFIX|..];
      var n := Span(service, IsServiceChar);
      if n == 0 || n >= |service| || service[n] != '[' then None else AfterPid(service[n + 1..])
  }

  function MessageOf(line: string): Option<string> {
    match AfterStamp(line)
    case None => None
    case Some(afterStamp) =>
      match AfterHost(afterStamp)
      case None => None
      case Some(tag) => AfterTag(tag)
  }

  // ------------------------------------------------------- attributes

  const SASL_USERNAME: string := "sasl_username="

  function UsernameAt(s: string): Option<string> {
    if !StartsWith(s, SASL_USERNAME) then None
    else
      var value := s[|SASL_USERNAME|..];
      var n := Span(value, NotSpace);
      if n == 0 then None else Some(value[..n])
  }

  /** The text up to the first `>`. */
  function Bracketed(s: string): Option<string> {
    var k := IndexOf(s, '>');
    if k == |s| then None else Some(s[..k])
  }

  function FromAt(s: string): Option<string> {
    if StartsWith(s, "from=<") then Bracketed(s[6..]) else None
  }

  function ToAt(s: string): Option<string> {
    if StartsWith(s, "to=<") then Bracketed(s[4..]) else None
  }

  /** `to=<` after a character that is not part of a word. */
  function ToAfterBoundaryAt(s: string): Option<string> {
    if s != "" && !IsWord(s[0]) then ToAt(s[1..]) else None
  }

  function FindTo(s: string): Option<string> {
    if ToAt(s).Some? then ToAt(s) else Search(ToAfterBoundaryAt, s)
  }

  /** What follows `status=`: a word, then nothing or a parenthesised detail, to the end. */
  function StatusTail(s: string): Option<(string, Option<string>)> {
    var n := Span(s, IsWord);
    var after := s[n..];
    var detail := SkipSpaces(after);
    var trimmed := StripRight(detail);
    if n == 0 then None
    else if detail == "" then Some((s[..n], None))
    else if detail == after || detail[0] != '(' || |trimmed| < 2 || Last(trimmed) != ')' then None
    else Some((s[..n], Some(trimmed[1..|trimmed| - 1])))
  }

  function StatusAt(s: string): Option<(string, Option<string>)> {
    if StartsWith(s, "status=") then StatusTail(s[7..]) else None
  }

  /** `[^\]]*\]:(\d+)`: the port after a bracketed address. */
  function PortAfterAddress(s: string): Option<nat> {
    var after := s[IndexOf(s, ']')..];
    if !StartsWith(after, "]:") then None
    else
      var d := Span(after[2..], IsDigit);
      if d == 0 then None else Some(FromDecimal(after[2..][..d]))
  }

  function RelayAt(s: string): Option<(string, nat)> {
    if !StartsWith(s, "relay=") then None
    else
      var text := s[6..];
      var n := Span(text, IsRelayHostChar);
      if n == 0 || n >= |text| || text[n] != '[' then None
      else
        match PortAfterAddress(text[n + 1..])
        case None => None
        case Some(port) => Some((text[..n], port))
  }

  function MailStatusOf(word: string): Option<MailStatus> {
    if word == "sent" then Some(Sent)
    else if word == "deferred" then Some(Deferred)
    else if word == "bounced" || word == "expired" then Some(Bounced)
    else None
  }

  // --------------------------------------------------- lines without a queue id

  const NOQUEUE: string := "NOQUEUE: reject: "

  /** `: ddd[^;]*;\s*(.*)` at this position: the code with its text, and the rest. */
  function CodeAt(s: string): Option<(string, string)> {
    if |s| < 5 || !StartsWith(s, ": ") || !IsDigit(s[2]) || !IsDigit(s[3]) || !IsDigit(s[4]) then None
    else
      var n := Span(s[5..], NotSemicolon);
      if 5 + n == |s| then None else Some((s[2..5 + n], SkipSpaces(s[5 + n + 1..])))
  }

  function NoqueueReject(timestamp: string, rest: string): Option<LogEvent> {
    if !StartsWith(rest, NOQUEUE) then None
    else
      var found: Option<(string, string)> := Search(CodeAt, rest[|NOQUEUE|..]);
      if found.None? then None
      else
        var (codeAndText, tail) := found.value;
        Some(LogEvent(Reject, timestamp, None, Search(UsernameAt, tail), Search(FromAt, tail), FindTo(tail), None, None,
                      Some(Strip(codeAndText))))
  }

  /** `warning: (\S+): ` followed by the given text; returns the client and what comes after. */
  function AfterWarning(rest: string, text: string): Option<(string, string)> {
    if !StartsWith(rest, "warning: ") then None
    else
      var s := rest[9..];
      var n := Span(s, NotSpace);
      if n < 2 || s[n - 1] != ':' || !StartsWith(s[n..], " " + text) then None
      else Some((s[..n - 1], s[n + 1 + |text|..]))
  }

  /** `_SASL_USERNAME_RE.sub("", s)` */
  function WithoutUsernames(s: string): string
    decreases |s|
  {
    if s == "" then ""
    else
      match UsernameAt(s)
      case Some(value) => WithoutUsernames(s[Min(|SASL_USERNAME| + |value|, |s|)..])
      case None => [s[0]] + WithoutUsernames(s[1..])
  }

  /** `rstrip(", ")` */
  function StripCommas(s: string): string {
    if s != "" && (Last(s) == ',' || Last(s) == ' ') then StripCommas(Init(s)) else s
  }

  const AUTH_FAILED: string := " authentication failed: "

  function AuthFailed(timestamp: string, rest: string): Option<LogEvent> {
    match AfterWarning(rest, "SASL ")
    case None => None
    case Some((client, s)) =>
      var n := Span(s, NotSpace);
      if n == 0 || !StartsWith(s[n..], AUTH_FAILED) then None
      else
        var detail := s[n + |AUTH_FAILED|..];
        var reason := Strip(StripCommas(WithoutUsernames(detail)));
        Some(LogEvent(Reject, timestamp, None, Search(UsernameAt, detail), None, None, None, None,
                      Some("SASL " + s[..n] + AUTH_FAILED + reason)))
  }

  function TlsFailed(timestamp: string, rest: string): Option<LogEvent> {
    match AfterWarning(rest, "SSL_accept error from ")
    case None => None
    case Some((client, s)) =>
      var n := Span(s, NotSpace);
      if n < 2 || s[n - 1] != ':' || n + 1 >= |s| || s[n] != ' ' then None
      else
        Some(LogEvent(Reject, timestamp, None, None, None, None, None, None,
                      Some("TLS handshake failed (" + client + "): " + s[n + 1..])))
  }

  const LOST: string := "lost connection after "

  function LostConnection(timestamp: string, rest: string): Option<LogEvent> {
    if !StartsWith(rest, LOST) then None
    else
      var s := rest[|LOST|..];
      var n := Span(s, NotSpace);
      if n == 0 || !StartsWith(s[n..], " from ") then None
      else
        var client := s[n + 6..];
        if client == "" || Span(client, NotSpace) != |client| then None
        else
          Some(LogEvent(Reject, timestamp, None, None, None, None, None, None,
                        Some("Lost connection after " + s[..n] + " (" + client + ")")))
  }

  // ------------------------------------------------------ lines with a queue id

  predicate IsQueueId(s: string) {
    6 <= |s| <= 16 && (forall c :: c in s ==> IsAlnum(c)) && exists c :: c in s && IsDigit(c)
  }

  /** The queue id and the body of a message that starts with one. */
  function QueueIdAndBody(rest: string): Option<(string, string)> {
    var n := Span(rest, IsAlnum);
    if n < |rest| && rest[n] == ':' && IsQueueId(rest[..n]) then Some((rest[..n], SkipSpaces(rest[n + 1..]))) else None
  }

  function QueuedEvent(timestamp: string, queueId: string, body: string): Option<LogEvent> {
    var username := Search(UsernameAt, body);
    if username.Some? then
      Some(LogEvent(Auth, timestamp, Some(queueId), username, None, None, None, None, None))
    else if StartsWith(body, "from=") then
      Some(LogEvent(Enqueued, timestamp, Some(queueId), None, Search(FromAt, body), None, None, None, None))
    else if StartsWith(body, "to=") then
      var found := Search(StatusAt, body);
      var status := if found.Some? then MailStatusOf(found.value.0) else None;
      Some(LogEvent(Delivery, timestamp, Some(queueId), None, None, FindTo(body), status, Search(RelayAt, body),
                    if found.Some? && status != Some(Sent) then found.value.1 else None))
    else None
  }

  function ParseMessage(timestamp: string, rest: string): Option<LogEvent> {
    var noqueue := NoqueueReject(timestamp, rest);
    var authFailed := AuthFailed(timestamp, rest);
    var tlsFailed := TlsFailed(timestamp, rest);
    var lost := LostConnection(timestamp, rest);
    if noqueue.Some? then noqueue
    else if authFailed.Some? then authFailed
    else if tlsFailed.Some? then tlsFailed
    else if lost.Some? then lost
    else
      match QueueIdAndBody(rest)
      case None => None
      case Some((queueId, body)) => QueuedEvent(timestamp, queueId, body)
  }

  function ParseLine(line: string): Option<LogEvent> {
    match MessageOf(line)
    case None => None
    case Some(rest) => ParseMessage(line[..Min(15, |line|)], rest)
  }

  lemma {:induction false} UsernamesAreTokens(s: string)
    ensures Search(UsernameAt, s).Some? ==>
              Search(UsernameAt, s).value != "" && forall c :: c in Search(UsernameAt, s).value ==> NotSpace(c)
  {
    if UsernameAt(s).None? && s != "" {
      UsernamesAreTokens(s[1..]);
    }
  }

  /** What kind of event a line can become: rejects never have a queue id, all others have
      one of the right shape, and each kind carries only its own fields. */
  lemma EventsAreWellFormed(line: string)
    requires ParseLine(line).Some?
    ensures var e := ParseLine(line).value;
            && (e.kind.Reject? <==> e.queueId.None?)
            && (e.queueId.Some? ==> IsQueueId(e.queueId.value))
            && (e.kind.Reject? ==> e.status.None? && e.relay.None? && e.error.Some?)
            && (e.kind.Auth? ==> e.saslUsername.Some? && e.saslUsername.value != "")
            && (!e.kind.Auth? && !e.kind.Reject? ==> e.saslUsername.None?)
            && (!e.kind.Enqueued? && !e.kind.Reject? ==> e.envelopeSender.None?)
            && (!e.kind.Delivery? && !e.kind.Reject? ==> e.recipient.None? && e.error.None?)
            && (!e.kind.Delivery? ==> e.status.None? && e.relay.None?)
            && (e.status == Some(Sent) ==> e.error.None?)
  {
    hide Span, IsQueueId, StatusTail, StartsWith, RelayAt, FindTo, FromAt, CodeAt, AfterWarning, Strip, StripCommas, WithoutUsernames, MessageOf, SkipSpaces, MailStatusOf;
    var rest := MessageOf(line).value;
    if QueueIdAndBody(rest).Some? {
      UsernamesAreTokens(QueueIdAndBody(rest).value.1);
    }
  }
}
