/**
 Reading the mail log: bounded reads from a cursor the caller persists, only complete
 lines consumed, and rotation by renaming once everything has been handed out.
 */
module LogTail {
  import opened Prelude
  import Text

  const MAX_READ: nat := 4 * 1024 * 1024
  const ROTATE_SIZE: nat := 32 * 1024 * 1024

  // ---------------------------------------------------------------- lines

  /** The line boundaries of `str.splitlines`. */
  predicate IsBreak(c: char) {
    c in {'\n', '\r', '\U{0B}', '\U{0C}', '\U{1C}', '\U{1D}', '\U{1E}', '\U{85}', '\U{2028}', '\U{2029}'}
  }

  function FirstBreak(s: string): (k: nat)
    ensures k <= |s| && (forall i :: 0 <= i < k ==> !IsBreak(s[i])) && (k < |s| ==> IsBreak(s[k]))
  {
    if s == "" || IsBreak(s[0]) then 0 else 1 + FirstBreak(s[1..])
  }

  /** Where the text after the line break at `k` starts; a carriage return takes a line feed with it. */
  function AfterBreak(s: string, k: nat): (n: nat)
    requires k < |s|
    ensures k < n <= |s|
  {
    if s[k] == '\r' && k + 1 < |s| && s[k + 1] == '\n' then k + 2 else k + 1
  }

  function SplitLines(s: string): (lines: seq<string>)
    ensures s == "" <==> lines == []
    decreases |s|
  {
    if s == "" then []
    else
      var k := FirstBreak(s);
      if k == |s| then [s] else [s[..k]] + SplitLines(s[AfterBreak(s, k)..])
  }

  ghost predicate EndsLine(s: string) {
    s == "" || Last(s) == '\n'
  }

  lemma {:induction false} SameFirstBreak(a: string, b: string)
    requires exists i :: 0 <= i < |a| && IsBreak(a[i])
    ensures FirstBreak(a + b) == FirstBreak(a) < |a|
  {
    if !IsBreak(a[0]) {
      var i :| 0 <= i < |a| && IsBreak(a[i]);
      assert a[1..][i - 1] == a[i];
      SameFirstBreak(a[1..], b);
      assert (a + b)[1..] == a[1..] + b;
    }
  }

  /** The first line of a text that ends in a line feed does not change if more follows. */
  lemma SameFirstLine(a: string, b: string)
    requires a != "" && EndsLine(a)
    ensures var k := FirstBreak(a);
            && k < |a| && FirstBreak(a + b) == k && AfterBreak(a + b, k) == AfterBreak(a, k)
            && (a + b)[..k] == a[..k] && (a + b)[AfterBreak(a, k)..] == a[AfterBreak(a, k)..] + b
            && EndsLine(a[AfterBreak(a, k)..])
  {
    hide FirstBreak;
    assert IsBreak(a[|a| - 1]);
    SameFirstBreak(a, b);
    var k := FirstBreak(a);
    assert a[|a| - 1] == '\n';
  }

  /** Cutting a text after a line feed cuts its list of lines, so reading in pieces that
      end at line feeds yields the same lines as reading at once. */
  lemma {:induction false} LinesOfPieces(a: string, b: string)
    requires EndsLine(a)
    ensures SplitLines(a + b) == SplitLines(a) + SplitLines(b)
    decreases |a|
  {
    hide FirstBreak, AfterBreak, EndsLine;
    if a == "" {
      assert a + b == b;
    } else {
      SameFirstLine(a, b);
      var k := FirstBreak(a);
      var rest := a[AfterBreak(a, k)..];
      LinesOfPieces(rest, b);
      assert [a[..k]] + (SplitLines(rest) + SplitLines(b)) == ([a[..k]] + SplitLines(rest)) + SplitLines(b);
    }
  }

  lemma EndsLineJoins(a: string, b: string)
    requires EndsLine(a) && EndsLine(b)
    ensures EndsLine(a + b)
  {
    assert b == "" ==> a + b == a;
  }

  // ----------------------------------------------------------------- tail

  /** `chunk.rfind("\n") + 1`: how much of a chunk consists of complete lines. */
  function CompleteLength(chunk: string): (n: nat)
    ensures n <= |chunk| && EndsLine(chunk[..n]) && forall i :: n <= i < |chunk| ==> chunk[i] != '\n'
  {
    if chunk == "" then 0 else if Last(chunk) == '\n' then |chunk| else CompleteLength(Init(chunk))
  }

  /** The position, persisted by the caller, up to which a file has been consumed. */
  datatype Cursor = Cursor(offset: nat, inode: Option<nat>)

  datatype Tail = Tail(text: string, start: nat, newOffset: nat, truncated: bool, inode: nat, rotates: bool)

  function StartFor(file: string, inode: nat, cursor: Cursor): nat {
    if IsTruncated(file, inode, cursor) then 0 else cursor.offset
  }

  predicate IsTruncated(file: string, inode: nat, cursor: Cursor) {
    if cursor.inode.Some? then inode != cursor.inode.value else cursor.offset > |file|
  }

  /** What one bounded read from `start` gets. */
  function Chunk(file: string, start: nat): string {
    if start >= |file| then "" else file[start..Min(start + MAX_READ, |file|)]
  }

  /** One `tail_maillog` call on the current file; `rotates` if it then asks for a rotation. */
  function TailMaillog(file: string, inode: nat, cursor: Cursor): Tail {
    var start := StartFor(file, inode, cursor);
    var chunk := Chunk(file, start);
    var complete := chunk[..CompleteLength(chunk)];
    var newOffset := start + |complete|;
    Tail(complete, start, newOffset, IsTruncated(file, inode, cursor), inode, newOffset >= |file| && |file| >= ROTATE_SIZE)
  }

  lemma TailIsASlice(file: string, inode: nat, cursor: Cursor)
    ensures var tail := TailMaillog(file, inode, cursor);
            && EndsLine(tail.text) && tail.newOffset == tail.start + |tail.text|
            && (tail.start <= |file| ==> tail.newOffset <= |file| && tail.text == file[tail.start..tail.newOffset])
            && (tail.start > |file| ==> tail.text == "")
  {
    hide IsTruncated, StartFor, Chunk;
    var start := StartFor(file, inode, cursor);
    var chunk := Chunk(file, start);
    ChunkIsASlice(file, start);
    var n := CompleteLength(chunk);
    if start <= |file| {
      StartOfSlice(file, start, start + |chunk|, n);
    }
  }

  lemma ChunkIsASlice(file: string, start: nat)
    ensures var chunk := Chunk(file, start);
            if start <= |file| then start + |chunk| <= |file| && chunk == file[start..start + |chunk|] else chunk == ""
  {
  }

  lemma StartOfSlice(s: string, lo: nat, hi: nat, n: nat)
    requires lo <= hi <= |s| && lo + n <= hi
    ensures s[lo..hi][..n] == s[lo..lo + n]
  {
  }

  /** Progress: a call hands out at least one line exactly when a complete line starts at
      the cursor and fits in one read; what a longer line does is stated at `StuckForeverIff`. */
  lemma TailMakesProgressIff(file: string, inode: nat, cursor: Cursor)
    ensures var tail := TailMaillog(file, inode, cursor);
            SplitLines(tail.text) != [] <==> exists i :: tail.start <= i < |file| && i < tail.start + MAX_READ && file[i] == '\n'
  {
    hide TailMaillog, IsTruncated, StartFor, EndsLine, SplitLines;
    var tail := TailMaillog(file, inode, cursor);
    TailIsComplete(file, inode, cursor);
    var chunk := Chunk(file, tail.start);
    assert forall i :: 0 <= i < |chunk| ==> chunk[i] == file[tail.start + i];
    if i :| tail.start <= i < |file| && i < tail.start + MAX_READ && file[i] == '\n' {
      assert chunk[i - tail.start] == '\n';
    }
    if tail.text != "" {
      var n := |tail.text|;
      assert chunk[n - 1] == '\n' && file[tail.start + n - 1] == '\n';
    }
  }

  /** The text handed out is what the chunk has up to its last line feed. */
  lemma TailIsComplete(file: string, inode: nat, cursor: Cursor)
    ensures var tail := TailMaillog(file, inode, cursor);
            var chunk := Chunk(file, tail.start);
            && tail.text <= chunk && (tail.text != "" ==> Last(tail.text) == '\n')
            && forall i :: |tail.text| <= i < |chunk| ==> chunk[i] != '\n'
  {
    hide Chunk, IsTruncated, StartFor;
  }

  /** Lines written one after another are read back as they were, unless they contain another
      line boundary than the line feed that ends them. */
  lemma {:induction false} LinesSurvive(lines: seq<string>)
    requires forall line, c :: line in lines && c in line ==> !IsBreak(c)
    ensures SplitLines(Text.Unlines(lines)) == lines
  {
    hide FirstBreak;
    if lines != [] {
      var text := Text.Unlines(lines);
      assert lines[0] in lines;
      assert text == lines[0] + "\n" + Text.Unlines(lines[1..]);
      assert forall i :: 0 <= i < |lines[0]| ==> text[i] == lines[0][i];
      assert text[|lines[0]|] == '\n';
      assert FirstBreak(text) == |lines[0]|;
      assert text[..|lines[0]|] == lines[0] && text[|lines[0]| + 1..] == Text.Unlines(lines[1..]);
      LinesSurvive(lines[1..]);
    }
  }

  /** When a call asks for a rotation: the file is big enough, and what was not handed out
      before fits in this read and ends in a line feed, so that nothing is left behind. */
  lemma RotatesIff(file: string, inode: nat, cursor: Cursor)
    ensures var tail := TailMaillog(file, inode, cursor);
            tail.rotates <==>
              && |file| >= 32 * 1024 * 1024
              && (tail.start >= |file| || (|file| - tail.start <= 4 * 1024 * 1024 && Last(file) == '\n'))
  {
    hide IsTruncated, StartFor, CompleteLength;
    TailIsComplete(file, inode, cursor);
    var tail := TailMaillog(file, inode, cursor);
    var chunk := Chunk(file, tail.start);
    assert chunk != [] && Last(chunk) == '\n' ==> |tail.text| == |chunk|;
  }

  // ------------------------------------------------- every run of the tailer

  /** A stretch of one log file that a committed ingestion consumed. */
  datatype Segment = Segment(file: nat, lo: nat, hi: nat)

  /** All log files so far, the last one current, with their inodes; the persisted cursor;
      and what committed ingestions have consumed. */
  datatype Log = Log(files: seq<string>, inodes: seq<nat>, cursor: Cursor, taken: seq<Segment>, consumed: string)
  {
    ghost predicate Valid() {
      files != [] && |inodes| == |files|
    }

    function File(): string
      requires files != []
    {
      Last(files)
    }
  }

  /** An ingestion may fail after the tail call (`commits` false), and its rotation may fail. */
  datatype Event = Append(text: string) | Ingest(rotationWorks: bool, newInode: nat, commits: bool)

  function Step(log: Log, e: Event): Log
    requires log.Valid()
    ensures Step(log, e).Valid()
  {
    match e
    case Append(text) => log.(files := Init(log.files) + [log.File() + text])
    case Ingest(rotationWorks, newInode, commits) =>
      var tail := TailMaillog(log.File(), Last(log.inodes), log.cursor);
      var log' := if !commits then log else
        log.(cursor := Cursor(tail.newOffset, Some(tail.inode)),
             taken := log.taken + [Segment(|log.files| - 1, tail.start, tail.newOffset)],
             consumed := log.consumed + tail.text);
      if tail.rotates && rotationWorks then log'.(files := log.files + [""], inodes := log.inodes + [newInode]) else log'
  }

  function Run(log: Log, events: seq<Event>): Log
    requires log.Valid()
    ensures Run(log, events).Valid()
  {
    if events == [] then log else Step(Run(log, Init(events)), Last(events))
  }

  function Concat(files: seq<string>): string {
    if files == [] then "" else Concat(Init(files)) + Last(files)
  }

  /** Before anything was ingested. */
  function Fresh(file: string, inode: nat): Log {
    Log([file], [inode], Cursor(0, None), [], "")
  }

  // --- exactly once

  /** A new file gets another inode than the one before, and a call that rotates is committed. */
  ghost predicate Orderly(log: Log, e: Event)
    requires log.Valid()
  {
    e.Ingest? && e.rotationWorks && TailMaillog(log.File(), Last(log.inodes), log.cursor).rotates ==>
      e.commits && e.newInode != Last(log.inodes)
  }

  ghost predicate OrderlyRun(log: Log, events: seq<Event>)
    requires log.Valid()
  {
    forall i :: 0 <= i < |events| ==> Orderly(Run(log, events[..i]), events[i])
  }

  ghost predicate InCurrentFile(log: Log)
    requires log.Valid()
  {
    && log.cursor.offset <= |log.File()|
    && (log.cursor.inode == Some(Last(log.inodes)) || log.cursor == Cursor(0, None))
    && log.consumed == Concat(Init(log.files)) + log.File()[..log.cursor.offset]
  }

  ghost predicate AtEndOfPrevious(log: Log)
    requires log.Valid()
  {
    && log.cursor.inode.Some? && log.cursor.inode.value != Last(log.inodes)
    && log.consumed == Concat(Init(log.files))
  }

  ghost predicate Exact(log: Log)
    requires log.Valid()
  {
    EndsLine(log.consumed) && (InCurrentFile(log) || AtEndOfPrevious(log))
  }

  lemma AppendKeepsExact(log: Log, text: string)
    requires log.Valid() && Exact(log)
    ensures Exact(Step(log, Append(text)))
  {
    hide TailMaillog, Concat, EndsLine;
    var log' := Step(log, Append(text));
    assert Init(log'.files) == Init(log.files);
    assert InCurrentFile(log) ==> log'.File()[..log.cursor.offset] == log.File()[..log.cursor.offset];
  }

  /** What a committed call has consumed in all: the current file up to the new offset. */
  lemma CommitKeepsExact(log: Log)
    requires log.Valid() && Exact(log)
    ensures var tail := TailMaillog(log.File(), Last(log.inodes), log.cursor);
            && tail.newOffset <= |log.File()| && EndsLine(log.consumed + tail.text)
            && log.consumed + tail.text == Concat(Init(log.files)) + log.File()[..tail.newOffset]
  {
    hide Concat, TailMaillog, EndsLine;
    var file := log.File();
    var tail := TailMaillog(file, Last(log.inodes), log.cursor);
    TailIsASlice(file, Last(log.inodes), log.cursor);
    StartIsCursor(log);
    EndsLineJoins(log.consumed, tail.text);
    assert tail.start <= |file|;
    assert file[..tail.start] + tail.text == file[..tail.newOffset];
    if !InCurrentFile(log) {
      assert file[..tail.start] == "" && tail.text == file[..tail.newOffset];
    }
  }

  lemma StartIsCursor(log: Log)
    requires log.Valid() && Exact(log)
    ensures TailMaillog(log.File(), Last(log.inodes), log.cursor).start == if InCurrentFile(log) then log.cursor.offset else 0
  {
    hide Chunk, CompleteLength, Concat, EndsLine;
  }

  lemma StepKeepsExact(log: Log, e: Event)
    requires log.Valid() && Exact(log) && Orderly(log, e)
    ensures Exact(Step(log, e))
  {
    hide EndsLine, TailMaillog, Concat;
    if e.Append? {
      AppendKeepsExact(log, e.text);
    } else {
      var log', file := Step(log, e), log.File();
      var tail := TailMaillog(file, Last(log.inodes), log.cursor);
      TailReports(log);
      if e.commits {
        CommitKeepsExact(log);
        if tail.rotates && e.rotationWorks {
          assert file[..tail.newOffset] == file && Init(log'.files) == log.files;
          ConcatIsInitAndLast(log.files);
        }
      }
    }
  }

  lemma TailReports(log: Log)
    requires log.Valid()
    ensures var tail := TailMaillog(log.File(), Last(log.inodes), log.cursor);
            tail.inode == Last(log.inodes) && (tail.rotates ==> tail.newOffset >= |log.File()|)
  {
    hide CompleteLength, Chunk;
  }

  lemma ConcatIsInitAndLast(files: seq<string>)
    requires files != []
    ensures Concat(files) == Concat(Init(files)) + Last(files)
  {
  }

  lemma ExactIsPrefix(log: Log)
    requires log.Valid() && Exact(log)
    ensures log.consumed <= Concat(log.files) && EndsLine(log.consumed)
  {
    assert Concat(log.files) == Concat(Init(log.files)) + log.File();
    if InCurrentFile(log) {
      assert log.File() == log.File()[..log.cursor.offset] + log.File()[log.cursor.offset..];
      assert Concat(log.files) == log.consumed + log.File()[log.cursor.offset..];
    }
  }

  lemma FreshIsExact(file: string, inode: nat)
    ensures Exact(Fresh(file, inode))
  {
    var log := Fresh(file, inode);
    assert Init(log.files) == [] && log.File()[..0] == "";
  }

  /** Exactly once: over every run of appends, bounded reads, failed ingestions and
      rotations, what has been consumed is a prefix of everything ever written to the log
      files, in order, and ends at the end of a line. */
  lemma {:induction false} ConsumedIsPrefix(file: string, inode: nat, events: seq<Event>)
    requires OrderlyRun(Fresh(file, inode), events)
    ensures var log := Run(Fresh(file, inode), events);
            Exact(log) && log.consumed <= Concat(log.files) && EndsLine(log.consumed)
  {
    hide Exact, Step, Orderly, Concat;
    var log0 := Fresh(file, inode);
    if events == [] {
      FreshIsExact(file, inode);
    } else {
      var init := Init(events);
      forall i | 0 <= i < |init| ensures Orderly(Run(log0, init[..i]), init[i]) {
        assert init[..i] == events[..i];
      }
      ConsumedIsPrefix(file, inode, init);
      assert events[..|events| - 1] == init;
      StepKeepsExact(Run(log0, init), Last(events));
    }
    ExactIsPrefix(Run(log0, events));
  }

  /** The assumption on rotations is needed: a call that rotates but is not committed keeps
      the log exact if and only if the cursor was at the end of the file already. */
  lemma UncommittedRotationLosesText(log: Log, e: Event)
    requires log.Valid() && Exact(log) && e.Ingest? && e.rotationWorks && !e.commits && e.newInode != Last(log.inodes)
    requires TailMaillog(log.File(), Last(log.inodes), log.cursor).rotates
    ensures Exact(Step(log, e)) <==> log.cursor == Cursor(|log.File()|, Some(Last(log.inodes)))
  {
    hide TailMaillog, Concat, EndsLine;
    var file, log' := log.File(), Step(log, e);
    var tail := TailMaillog(file, Last(log.inodes), log.cursor);
    TailIsASlice(file, Last(log.inodes), log.cursor);
    TailReports(log);
    StartIsCursor(log);
    CommitKeepsExact(log);
    ConcatIsInitAndLast(log.files);
    RotatedIsLong(log);
    assert file[..tail.newOffset] == file && log.consumed + tail.text == Concat(log.files);
    assert Init(log'.files) == log.files && log'.File() == "";
    assert tail.text == "" <==> log.consumed == Concat(log.files);
  }

  lemma RotatedIsLong(log: Log)
    requires log.Valid() && TailMaillog(log.File(), Last(log.inodes), log.cursor).rotates
    ensures |log.File()| >= ROTATE_SIZE
  {
    hide CompleteLength, Chunk;
  }

  /** Inputs: a file as long as calls for a rotation, consumed up to its last line; the call
      that rotates it fails to commit, and that line is gone. */
  lemma LastLineLost()
    ensures var file := seq(ROTATE_SIZE, _ => '\n');
            var log := Log([file], [1], Cursor(ROTATE_SIZE - 1, Some(1)), [], file[..ROTATE_SIZE - 1]);
            var e := Ingest(true, 2, false);
            && log.Valid() && Exact(log) && TailMaillog(file, 1, log.cursor).rotates && !Exact(Step(log, e))
  {
    var file := seq(ROTATE_SIZE, _ => '\n');
    var log := Log([file], [1], Cursor(ROTATE_SIZE - 1, Some(1)), [], file[..ROTATE_SIZE - 1]);
    assert Init(log.files) == [] && Concat([]) == "";
    assert "" + file[..ROTATE_SIZE - 1] == log.consumed;
    LastLineIsTaken(file);
    UncommittedRotationLosesText(log, Ingest(true, 2, false));
  }

  lemma LastLineIsTaken(file: string)
    requires |file| == ROTATE_SIZE && file[ROTATE_SIZE - 1] == '\n'
    ensures TailMaillog(file, 1, Cursor(ROTATE_SIZE - 1, Some(1))).rotates
  {
    var chunk := Chunk(file, ROTATE_SIZE - 1);
    assert |chunk| == 1 && Last(chunk) == '\n';
  }

  // --- a line longer than one read

  /** Where the next call will start. */
  function Position(log: Log): nat
    requires log.Valid()
  {
    StartFor(log.File(), Last(log.inodes), log.cursor)
  }

  /** Ahead of the cursor, which is not past the end, lie as many characters as one read
      takes, and no line feed. */
  ghost predicate Blocked(log: Log)
    requires log.Valid()
  {
    && (log.cursor.inode.None? ==> log.cursor.offset <= |log.File()|)
    && Position(log) + MAX_READ <= |log.File()| && '\n' !in log.File()[Position(log)..Position(log) + MAX_READ]
  }

  lemma StepStaysBlocked(log: Log, e: Event)
    requires log.Valid() && Blocked(log)
    ensures Blocked(Step(log, e)) && Step(log, e).consumed == log.consumed
  {
    hide CompleteLength, Chunk, EndsLine, SplitLines;
    var file, start, log' := log.File(), Position(log), Step(log, e);
    if e.Append? {
      assert (file + e.text)[start..start + MAX_READ] == file[start..start + MAX_READ];
    } else {
      var tail := TailMaillog(file, Last(log.inodes), log.cursor);
      TailMakesProgressIff(file, Last(log.inodes), log.cursor);
      TailIsASlice(file, Last(log.inodes), log.cursor);
      forall i | start <= i < start + MAX_READ ensures file[i] != '\n' {
        assert file[i] == file[start..start + MAX_READ][i - start];
      }
      assert tail.text == "" && log.consumed + "" == log.consumed;
    }
  }

  lemma {:induction false} RunStaysBlocked(log: Log, events: seq<Event>)
    requires log.Valid() && Blocked(log)
    ensures Blocked(Run(log, events)) && Run(log, events).consumed == log.consumed
  {
    hide Blocked, Step;
    if events != [] {
      RunStaysBlocked(log, Init(events));
      StepStaysBlocked(Run(log, Init(events)), Last(events));
    }
  }

  /** Exactly when nothing is ever consumed again, whatever is appended, committed or
      rotated: when a line longer than one read lies ahead. It is never consumed itself. */
  lemma StuckForeverIff(log: Log)
    requires log.Valid() && Exact(log)
    ensures (forall events :: Run(log, events).consumed == log.consumed) <==> Blocked(log)
  {
    hide Blocked, Exact, Step;
    if Blocked(log) {
      forall events ensures Run(log, events).consumed == log.consumed {
        RunStaysBlocked(log, events);
      }
    } else {
      NotBlockedGoesOn(log);
      var go := [Append("\n"), Ingest(false, 0, true)];
      assert Run(log, go).consumed != log.consumed;
    }
  }

  lemma NotBlockedGoesOn(log: Log)
    requires log.Valid() && Exact(log) && !Blocked(log)
    ensures Run(log, [Append("\n"), Ingest(false, 0, true)]).consumed != log.consumed
  {
    hide CompleteLength, Chunk, EndsLine, SplitLines, Concat;
    var file, start := log.File(), Position(log);
    var longer := Step(log, Append("\n"));
    var go := [Append("\n"), Ingest(false, 0, true)];
    assert Init(go) == [Append("\n")] && Init([Append("\n")]) == [];
    assert Run(log, [Append("\n")]) == Step(Run(log, []), Append("\n"));
    assert start <= |file| && longer.File() == file + "\n" && Position(longer) == start;
    TailMakesProgressIff(longer.File(), Last(longer.inodes), longer.cursor);
    if start + MAX_READ <= |file| {
      var i :| 0 <= i < MAX_READ && file[start..start + MAX_READ][i] == '\n';
      assert longer.File()[start + i] == '\n';
    } else {
      assert longer.File()[|file|] == '\n';
    }
    var tail := TailMaillog(longer.File(), Last(longer.inodes), longer.cursor);
    assert tail.text != "" && |log.consumed + tail.text| > |log.consumed|;
  }

  /** An input: one character more than a read takes, line feed included. */
  lemma LongLineBlocks(inode: nat, more: string)
    ensures Blocked(Fresh(seq(MAX_READ, _ => 'x') + "\n" + more, inode))
  {
    var file := seq(MAX_READ, _ => 'x') + "\n" + more;
    assert file[0..MAX_READ] == seq(MAX_READ, _ => 'x');
  }

  // --- at most once, under no assumption on inodes or commits

  ghost predicate Before(a: Segment, b: Segment) {
    a.file < b.file || (a.file == b.file && a.hi <= b.lo)
  }

  ghost predicate AtMostOnce(log: Log)
    requires log.Valid()
  {
    && (forall i, j :: 0 <= i < j < |log.taken| ==> Before(log.taken[i], log.taken[j]))
    && (forall i :: 0 <= i < |log.taken| ==> log.taken[i].lo <= log.taken[i].hi && log.taken[i].file < |log.files|)
    && (forall i :: 0 <= i < |log.taken| && log.taken[i].file == |log.files| - 1 ==>
          log.cursor.inode == Some(Last(log.inodes)) && log.taken[i].hi <= log.cursor.offset)
    && (log.cursor.inode.None? ==> log.taken == [])
  }

  lemma StepKeepsAtMostOnce(log: Log, e: Event)
    requires log.Valid() && AtMostOnce(log)
    ensures AtMostOnce(Step(log, e))
  {
    hide TailMaillog;
    if e.Ingest? {
      var tail := TailMaillog(log.File(), Last(log.inodes), log.cursor);
      TailIsASlice(log.File(), Last(log.inodes), log.cursor);
      TailStartsAtCursor(log);
      TailReports(log);
    }
  }

  lemma TailStartsAtCursor(log: Log)
    requires log.Valid()
    ensures log.cursor.inode == Some(Last(log.inodes)) ==>
              TailMaillog(log.File(), Last(log.inodes), log.cursor).start == log.cursor.offset
  {
  }

  /** At most once: whatever fails and however inodes are reused, no byte of any log file
      is consumed twice, and never an earlier one after a later one. */
  lemma {:induction false} NothingIsConsumedTwice(file: string, inode: nat, events: seq<Event>)
    ensures AtMostOnce(Run(Fresh(file, inode), events))
  {
    if events != [] {
      NothingIsConsumedTwice(file, inode, Init(events));
      StepKeepsAtMostOnce(Run(Fresh(file, inode), Init(events)), Last(events));
    }
  }
}
