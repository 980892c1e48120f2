/**
 The byte protocol Postfix speaks to the policy service (SMTPD_POLICY_README): a
 request is a run of `name=value` lines ended by an empty line, and one connection
 carries many requests.
 */
module PolicyWire {
  import opened Prelude

  newtype Byte = b: int | 0 <= b < 256

  type Bytes = seq<Byte>
  type Attributes = map<Bytes, Bytes>

  const LF: Byte := 10
  const CR: Byte := 13
  const EQUALS: Byte := 61

  const MAX_ATTRIBUTE_LINES: int := 100
  const MAX_LINE_BYTES: int := 2048
  /** The limit given to the stream reader, which refuses a longer line by itself. */
  const STREAM_LIMIT: int := 2 * MAX_LINE_BYTES

  datatype Request = Request(lines: seq<Bytes>, rest: Bytes)

  /** The position of the first `b`, or the length if there is none. */
  function IndexOf(s: Bytes, b: Byte): (k: nat)
    ensures k <= |s| && b !in s[..k] && (k < |s| ==> s[k] == b)
  {
    if s == [] || s[0] == b then 0 else 1 + IndexOf(s[1..], b)
  }

  /** `rstrip(b"\r\n")` */
  function StripLineEnd(line: Bytes): Bytes {
    if line != [] && (Last(line) == LF || Last(line) == CR) then StripLineEnd(Init(line)) else line
  }

  /** What is read as one request when `lines` have been read already; `None` when the
      connection is given up. */
  function ReadFrom(lines: seq<Bytes>, stream: Bytes): (r: Option<Request>)
    ensures r.Some? ==> |r.value.rest| < |stream|
    decreases |stream|
  {
    var k := IndexOf(stream, LF);
    if k == |stream| || k > STREAM_LIMIT then None
    else
      var line, rest := StripLineEnd(stream[..k + 1]), stream[k + 1..];
      if line == [] then Some(Request(lines, rest))
      else if |line| > MAX_LINE_BYTES || |lines| >= MAX_ATTRIBUTE_LINES then None
      else ReadFrom(lines + [line], rest)
  }

  method ReadRequest(stream: Bytes) returns (request: Option<Request>)
    ensures request == ReadFrom([], stream)
  {
    var lines: seq<Bytes> := [];
    var unread := stream;
    while true
      invariant ReadFrom([], stream) == ReadFrom(lines, unread)
      decreases |unread|
    {
      var k := IndexOf(unread, LF);
      if k == |unread| || k > STREAM_LIMIT {
        return None;
      }
      var line := StripLineEnd(unread[..k + 1]);
      unread := unread[k + 1..];
      if line == [] {
        return Some(Request(lines, unread));
      }
      if |line| > MAX_LINE_BYTES || |lines| >= MAX_ATTRIBUTE_LINES {
        return None;
      }
      lines := lines + [line];
    }
  }

  /** A later line wins over an earlier one with the same name; a line without `=` is skipped. */
  function AttributesOf(lines: seq<Bytes>): Attributes {
    if lines == [] then map[]
    else
      var line := Last(lines);
      var k := IndexOf(line, EQUALS);
      if k == |line| then AttributesOf(Init(lines))
      else AttributesOf(Init(lines))[line[..k] := line[k + 1..]]
  }

  method ParseAttributes(lines: seq<Bytes>) returns (attrs: Attributes)
    ensures attrs == AttributesOf(lines)
  {
    attrs := map[];
    for i := 0 to |lines|
      invariant attrs == AttributesOf(lines[..i])
    {
      assert Init(lines[..i + 1]) == lines[..i];
      var k := IndexOf(lines[i], EQUALS);
      if k == |lines[i]| {
        continue;
      }
      attrs := attrs[lines[i][..k] := lines[i][k + 1..]];
    }
    assert lines[..|lines|] == lines;
  }

  /** The attribute maps that get evaluated, in order, before the connection is closed. */
  function Evaluated(stream: Bytes): seq<Attributes>
    decreases |stream|
  {
    match ReadFrom([], stream)
    case None => []
    case Some(request) => [AttributesOf(request.lines)] + Evaluated(request.rest)
  }

  /** The connection loop ends on every byte stream. */
  method HandleConnection(stream: Bytes) returns (evaluated: seq<Attributes>)
    ensures evaluated == Evaluated(stream)
  {
    evaluated := [];
    var unread := stream;
    while true
      invariant Evaluated(stream) == evaluated + Evaluated(unread)
      decreases |unread|
    {
      var request := ReadRequest(unread);
      if request.None? {
        return;
      }
      var attrs := ParseAttributes(request.value.lines);
      evaluated := evaluated + [attrs];
      unread := request.value.rest;
    }
  }

  // -------------------------------------------------- what Postfix sends

  datatype Attribute = Attribute(name: Bytes, value: Bytes) {
    function Line(): Bytes {
      name + [EQUALS] + value
    }

    ghost predicate Sendable() {
      && EQUALS !in name && LF !in name
      && LF !in value && (value == [] || Last(value) != CR)
      && |Line()| <= MAX_LINE_BYTES
    }
  }

  ghost predicate Sendable(attrs: seq<Attribute>) {
    |attrs| <= MAX_ATTRIBUTE_LINES && forall a :: a in attrs ==> a.Sendable()
  }

  function Encode(attrs: seq<Attribute>): Bytes {
    if attrs == [] then [LF] else attrs[0].Line() + [LF] + Encode(attrs[1..])
  }

  function EncodeAll(requests: seq<seq<Attribute>>): Bytes {
    if requests == [] then [] else Encode(requests[0]) + EncodeAll(requests[1..])
  }

  /** The meaning of an attribute list, with the last value of a repeated name. */
  function Meaning(attrs: seq<Attribute>): Attributes {
    if attrs == [] then map[] else Meaning(Init(attrs))[Last(attrs).name := Last(attrs).value]
  }

  function Meanings(requests: seq<seq<Attribute>>): seq<Attributes> {
    if requests == [] then [] else [Meaning(requests[0])] + Meanings(requests[1..])
  }

  function Lines(attrs: seq<Attribute>): (lines: seq<Bytes>)
    ensures |lines| == |attrs|
  {
    seq(|attrs|, i requires 0 <= i < |attrs| => attrs[i].Line())
  }

  lemma {:induction false} FirstIndex(before: Bytes, b: Byte, after: Bytes)
    requires b !in before
    ensures IndexOf(before + [b] + after, b) == |before|
  {
    if before != [] {
      assert (before + [b] + after)[1..] == before[1..] + [b] + after;
      FirstIndex(before[1..], b, after);
    }
  }

  lemma LineSurvives(a: Attribute, rest: Bytes)
    requires a.Sendable()
    ensures var stream := a.Line() + [LF] + rest;
            && IndexOf(stream, LF) == |a.Line()| < |stream|
            && stream[..|a.Line()| + 1] == a.Line() + [LF]
            && stream[|a.Line()| + 1..] == rest
    ensures StripLineEnd(a.Line() + [LF]) == a.Line() != []
  {
    FirstIndex(a.Line(), LF, rest);
    assert Init(a.Line() + [LF]) == a.Line();
    assert Last(a.Line()) == if a.value == [] then EQUALS else Last(a.value);
  }

  lemma ReadsBlankLine(lines: seq<Bytes>, rest: Bytes)
    ensures ReadFrom(lines, [LF] + rest) == Some(Request(lines, rest))
  {
    assert [LF] + rest == [] + [LF] + rest;
    FirstIndex([], LF, rest);
    assert ([LF] + rest)[..1] == [LF] && ([LF] + rest)[1..] == rest;
    assert Init([LF]) == [] && StripLineEnd([LF]) == StripLineEnd([]) == [];
  }

  lemma ReadsLine(lines: seq<Bytes>, a: Attribute, after: Bytes)
    requires a.Sendable() && |lines| < MAX_ATTRIBUTE_LINES
    ensures ReadFrom(lines, a.Line() + [LF] + after) == ReadFrom(lines + [a.Line()], after)
  {
    LineSurvives(a, after);
  }

  lemma {:induction false} ReadsWhole(lines: seq<Bytes>, attrs: seq<Attribute>, rest: Bytes)
    requires |lines| + |attrs| <= MAX_ATTRIBUTE_LINES && forall a :: a in attrs ==> a.Sendable()
    ensures ReadFrom(lines, Encode(attrs) + rest) == Some(Request(lines + Lines(attrs), rest))
    decreases |attrs|
  {
    hide ReadFrom;
    if attrs == [] {
      ReadsBlankLine(lines, rest);
      assert lines + Lines(attrs) == lines;
    } else {
      var first := attrs[0];
      var after := Encode(attrs[1..]) + rest;
      assert Encode(attrs) + rest == first.Line() + [LF] + after;
      ReadsLine(lines, first, after);
      ReadsWhole(lines + [first.Line()], attrs[1..], rest);
      assert lines + [first.Line()] + Lines(attrs[1..]) == lines + Lines(attrs);
    }
  }

  lemma {:induction false} AttributesSurvive(attrs: seq<Attribute>)
    requires forall a :: a in attrs ==> a.Sendable()
    ensures AttributesOf(Lines(attrs)) == Meaning(attrs)
  {
    if attrs != [] {
      AttributesSurvive(Init(attrs));
      assert Init(Lines(attrs)) == Lines(Init(attrs));
      var last := Last(attrs);
      assert last in attrs;
      FirstIndex(last.name, EQUALS, last.value);
      assert last.Line()[..|last.name|] == last.name;
      assert last.Line()[|last.name| + 1..] == last.value;
    }
  }

  /** A line without `=` has no effect, wherever it stands. */
  lemma {:induction false} LineWithoutEqualsIsSkipped(before: seq<Bytes>, line: Bytes, after: seq<Bytes>)
    requires EQUALS !in line
    ensures AttributesOf(before + [line] + after) == AttributesOf(before + after)
  {
    if after == [] {
      assert before + [line] + [] == before + [line] && before + [] == before;
      assert Init(before + [line]) == before && Last(before + [line]) == line;
      assert IndexOf(line, EQUALS) == |line|;
    } else {
      assert Init(before + [line] + after) == before + [line] + Init(after) && Last(before + [line] + after) == Last(after);
      assert Init(before + after) == before + Init(after) && Last(before + after) == Last(after);
      LineWithoutEqualsIsSkipped(before, line, Init(after));
    }
  }

  /** A carriage return before the line feed makes no difference. */
  lemma CarriageReturnIsIgnored(lines: seq<Bytes>, line: Bytes, rest: Bytes)
    requires LF !in line && |line| < STREAM_LIMIT
    ensures ReadFrom(lines, line + [CR, LF] + rest) == ReadFrom(lines, line + [LF] + rest)
  {
    FirstIndex(line, LF, rest);
    FirstIndex(line + [CR], LF, rest);
    var with, without := line + [CR, LF] + rest, line + [LF] + rest;
    assert with == (line + [CR]) + [LF] + rest;
    assert with[..|line| + 2] == line + [CR, LF] && with[|line| + 2..] == rest;
    assert without[..|line| + 1] == line + [LF] && without[|line| + 1..] == rest;
    LineEndIsStripped(line);
  }

  lemma LineEndIsStripped(line: Bytes)
    ensures StripLineEnd(line + [CR, LF]) == StripLineEnd(line + [LF])
  {
    assert Init(line + [CR, LF]) == line + [CR] && Init(line + [CR]) == line && Init(line + [LF]) == line;
  }

  /** Round trip: requests within the limits, sent one after another on one connection,
      are evaluated in order with exactly the attributes they were sent with, whatever
      comes after them. */
  lemma {:induction false} RequestsSurvive(requests: seq<seq<Attribute>>, rest: Bytes)
    requires forall r :: r in requests ==> Sendable(r)
    ensures Evaluated(EncodeAll(requests) + rest) == Meanings(requests) + Evaluated(rest)
  {
    hide ReadFrom, AttributesOf, Encode, Meaning;
    if requests == [] {
      assert [] + rest == rest;
    } else {
      var after := EncodeAll(requests[1..]) + rest;
      assert EncodeAll(requests) + rest == Encode(requests[0]) + after;
      assert requests[0] in requests;
      ReadsWhole([], requests[0], after);
      assert [] + Lines(requests[0]) == Lines(requests[0]);
      AttributesSurvive(requests[0]);
      RequestsSurvive(requests[1..], rest);
    }
  }

  /** A request that is cut off anywhere before its end is not read as a request. */
  lemma {:induction false} CutOffIsNotRead(lines: seq<Bytes>, attrs: seq<Attribute>, n: nat)
    requires |lines| + |attrs| <= MAX_ATTRIBUTE_LINES && forall a :: a in attrs ==> a.Sendable()
    requires n < |Encode(attrs)|
    ensures ReadFrom(lines, Encode(attrs)[..n]) == None
    decreases |attrs|
  {
    hide ReadFrom, Encode, Attribute.Sendable;
    var cut := Encode(attrs)[..n];
    EncodeOfFirst(attrs);
    if attrs == [] {
      IncompleteIsNotRead(lines, cut);
    } else {
      var line := attrs[0].Line();
      assert attrs[0].Sendable();
      LineHasNoLineFeed(attrs[0]);
      if n <= |line| {
        assert cut == line[..n];
        IncompleteIsNotRead(lines, cut);
      } else {
        var after := Encode(attrs[1..])[..n - |line| - 1];
        assert cut == line + [LF] + after;
        ReadsLine(lines, attrs[0], after);
        CutOffIsNotRead(lines + [line], attrs[1..], n - |line| - 1);
      }
    }
  }

  lemma IncompleteIsNotRead(lines: seq<Bytes>, stream: Bytes)
    requires LF !in stream
    ensures ReadFrom(lines, stream) == None
  {
  }

  lemma EncodeOfFirst(attrs: seq<Attribute>)
    ensures Encode(attrs) == if attrs == [] then [LF] else attrs[0].Line() + [LF] + Encode(attrs[1..])
  {
  }

  lemma LineHasNoLineFeed(a: Attribute)
    requires a.Sendable()
    ensures LF !in a.Line()
  {
  }

  /** So a connection that dies in the middle of a request has had exactly the complete
      requests before it evaluated. */
  lemma OnlyWholeRequestsCount(requests: seq<seq<Attribute>>, last: seq<Attribute>, n: nat)
    requires Sendable(last) && forall r :: r in requests ==> Sendable(r)
    requires n < |Encode(last)|
    ensures Evaluated(EncodeAll(requests) + Encode(last)[..n]) == Meanings(requests)
  {
    RequestsSurvive(requests, Encode(last)[..n]);
    CutOffIsNotRead([], last, n);
    assert Meanings(requests) + [] == Meanings(requests);
  }

  /** Neither limit can be exceeded: no request that is evaluated has more than 100 lines
      or a line of more than 2048 bytes. */
  lemma {:induction false} LimitsHold(lines: seq<Bytes>, stream: Bytes)
    requires |lines| <= MAX_ATTRIBUTE_LINES && forall l :: l in lines ==> 0 < |l| <= MAX_LINE_BYTES
    ensures ReadFrom(lines, stream).Some? ==>
              var read := ReadFrom(lines, stream).value.lines;
              |read| <= MAX_ATTRIBUTE_LINES && forall l :: l in read ==> 0 < |l| <= MAX_LINE_BYTES
    decreases |stream|
  {
    var k := IndexOf(stream, LF);
    if k < |stream| && k <= STREAM_LIMIT {
      var line := StripLineEnd(stream[..k + 1]);
      if line != [] && |line| <= MAX_LINE_BYTES && |lines| < MAX_ATTRIBUTE_LINES {
        LimitsHold(lines + [line], stream[k + 1..]);
      }
    }
  }
}
