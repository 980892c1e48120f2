/** Joining, splitting, ordering and decimal numbers, as the config generator uses them. */
module Text {
  import opened Prelude

  // ------------------------------------------------------ join and split

  /** `sep.join(parts)` */
  function Join(parts: seq<string>, sep: char): string {
    if parts == [] then ""
    else if |parts| == 1 then parts[0]
    else parts[0] + [sep] + Join(parts[1..], sep)
  }

  /** `text.split(sep)` */
  function Split(text: string, sep: char): (parts: seq<string>)
    ensures parts != []
  {
    if text == "" then [""]
    else
      var rest := Split(text[1..], sep);
      if text[0] == sep then [""] + rest else [[text[0]] + rest[0]] + rest[1..]
  }

  ghost predicate Without(parts: seq<string>, c: char) {
    forall p :: p in parts ==> c !in p
  }

  lemma {:induction false} SplitAtFirst(before: string, sep: char, after: string)
    requires sep !in before
    ensures Split(before + [sep] + after, sep) == [before] + Split(after, sep)
    ensures Split(before, sep) == [before]
  {
    if before == "" {
      assert ("" + [sep] + after)[1..] == after;
    } else {
      SplitAtFirst(before[1..], sep, after);
      assert (before + [sep] + after)[1..] == before[1..] + [sep] + after;
      assert [before[0]] + before[1..] == before;
    }
  }

  lemma {:induction false} SplitUndoesJoin(parts: seq<string>, sep: char)
    requires parts != [] && Without(parts, sep)
    ensures Split(Join(parts, sep), sep) == parts
  {
    assert parts[0] in parts;
    SplitAtFirst(parts[0], sep, Join(parts[1..], sep));
    if |parts| > 1 {
      SplitUndoesJoin(parts[1..], sep);
      assert [parts[0]] + parts[1..] == parts;
    } else {
      assert parts == [parts[0]];
    }
  }

  lemma {:induction false} JoinWithout(parts: seq<string>, sep: char, c: char)
    requires Without(parts, c) && c != sep
    ensures c !in Join(parts, sep)
  {
    if |parts| > 1 {
      assert parts[0] in parts;
      JoinWithout(parts[1..], sep, c);
    }
  }

  /** The text of a file with these lines, each ended by a line feed. */
  function Unlines(lines: seq<string>): string {
    if lines == [] then "" else lines[0] + "\n" + Unlines(lines[1..])
  }

  /** `"\n".join(lines) + ("\n" if lines else "")` is that same text. */
  lemma {:induction false} JoinedLines(lines: seq<string>)
    ensures Join(lines, '\n') + (if lines != [] then "\n" else "") == Unlines(lines)
  {
    if |lines| > 1 {
      JoinedLines(lines[1..]);
      assert Join(lines, '\n') + "\n" == lines[0] + "\n" + (Join(lines[1..], '\n') + "\n");
    }
  }

  lemma {:induction false} UnlinesWithout(lines: seq<string>, c: char)
    requires Without(lines, c) && c != '\n'
    ensures c !in Unlines(lines)
  {
    if lines != [] {
      assert lines[0] in lines;
      UnlinesWithout(lines[1..], c);
    }
  }

  lemma {:induction false} UnlinesAppends(lines: seq<string>, last: string)
    ensures Unlines(lines + [last]) == Unlines(lines) + last + "\n"
  {
    if lines == [] {
      assert last + "\n" + "" == "" + last + "\n";
    } else {
      UnlinesAppends(lines[1..], last);
      assert (lines + [last])[1..] == lines[1..] + [last];
    }
  }

  /** The position of the first `c`, or the length if there is none. */
  function IndexOf(s: string, c: char): (k: nat)
    ensures k <= |s| && c !in s[..k] && (k < |s| ==> s[k] == c)
  {
    if s == "" || s[0] == c then 0 else 1 + IndexOf(s[1..], c)
  }

  lemma {:induction false} FirstIndex(before: string, c: char, after: string)
    requires c !in before
    ensures IndexOf(before + [c] + after, c) == |before|
    ensures (before + [c] + after)[..|before|] == before
    ensures (before + [c] + after)[|before| + 1..] == after
  {
    if before != "" {
      assert (before + [c] + after)[1..] == before[1..] + [c] + after;
      FirstIndex(before[1..], c, after);
    }
  }

  // ------------------------------------------------------------- order

  /** Strictly before, in the order of `sorted()` on strings. */
  predicate Before(a: string, b: string) {
    b != "" && (a == "" || a[0] < b[0] || (a[0] == b[0] && Before(a[1..], b[1..])))
  }

  lemma {:induction false} BeforeIsTransitive(a: string, b: string, c: string)
    requires Before(a, b) && Before(b, c)
    ensures Before(a, c)
  {
    if a != "" && a[0] == b[0] == c[0] {
      BeforeIsTransitive(a[1..], b[1..], c[1..]);
    }
  }

  lemma {:induction false} BeforeIsTotal(a: string, b: string)
    ensures a == b || Before(a, b) || Before(b, a)
    ensures !(Before(a, b) && Before(b, a)) && !Before(a, a)
  {
    if a != "" {
      BeforeIsTotal(a[1..], a[1..]);
      if b != "" {
        BeforeIsTotal(a[1..], b[1..]);
        assert a == [a[0]] + a[1..] && b == [b[0]] + b[1..];
      }
    }
  }

  predicate IsFirst(m: string, s: set<string>) {
    m in s && forall x :: x in s ==> x == m || Before(m, x)
  }

  lemma {:induction false} FirstExists(s: set<string>)
    requires s != {}
    ensures exists m :: IsFirst(m, s)
    decreases |s|
  {
    var x :| x in s;
    var rest := s - {x};
    assert s == rest + {x};
    if rest == {} {
      assert IsFirst(x, s);
    } else {
      FirstExists(rest);
      var m :| IsFirst(m, rest);
      BeforeIsTotal(x, m);
      if Before(m, x) {
        assert IsFirst(m, s);
      } else {
        forall y | y in rest && y != m ensures Before(x, y) {
          BeforeIsTransitive(x, m, y);
        }
        assert IsFirst(x, s);
      }
    }
  }

  lemma FirstIsUnique(s: set<string>)
    ensures forall m, m' :: IsFirst(m, s) && IsFirst(m', s) ==> m == m'
  {
    forall m, m' | IsFirst(m, s) && IsFirst(m', s) ensures m == m' {
      BeforeIsTotal(m, m');
    }
  }

  ghost predicate Ascending(s: seq<string>) {
    forall i, j :: 0 <= i < j < |s| ==> Before(s[i], s[j])
  }

  /** `ORDER BY` and `sorted()`: the members of a set in ascending order. */
  function Sorted(s: set<string>): (r: seq<string>)
    ensures Ascending(r) && |r| == |s|
    ensures forall x :: x in r <==> x in s
    decreases |s|
  {
    if s == {} then []
    else
      FirstExists(s);
      FirstIsUnique(s);
      var m :| IsFirst(m, s);
      var rest := Sorted(s - {m});
      assert forall i :: 0 <= i < |rest| ==> rest[i] in s - {m};
      [m] + rest
  }

  // --------------------------------------------------- decimal numbers

  function Digit(d: nat): char
    requires d < 10
  {
    ['0', '1', '2', '3', '4', '5', '6', '7', '8', '9'][d]
  }

  function Decimal(n: nat): (s: string)
    ensures s != "" && forall c :: c in s ==> '0' <= c <= '9'
  {
    if n < 10 then [Digit(n)] else Decimal(n / 10) + [Digit(n % 10)]
  }

  function DigitValue(c: char): nat {
    if '0' <= c <= '9' then (c - '0') as nat else 0
  }

  function FromDecimal(s: string): nat {
    if s == "" then 0 else 10 * FromDecimal(Init(s)) + DigitValue(Last(s))
  }

  lemma {:induction false} DecimalRoundTrip(n: nat)
    ensures FromDecimal(Decimal(n)) == n
  {
    if n >= 10 {
      DecimalRoundTrip(n / 10);
      assert Init(Decimal(n)) == Decimal(n / 10);
    } else {
      assert Init([Digit(n)]) == "";
    }
  }
}
