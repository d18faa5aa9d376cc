/** `TimestampFinder`: an immutable record of a strftime-style format and the
    regex derived from it, with the search for a timestamp in one line and
    the scan of a whole input.

    The regex engine and the date parser are library code. They enter the
    model as the function-valued fields of `Collaborators`: whether a regex
    text compiles, the leftmost match of a regex in a text, and the parse of
    a text against the format to seconds since the Unix epoch. The finder
    keeps the regex as its text; the library compiles it. */
module Finder {
  import opened Text
  import opened StrftimeRegex

  datatype Option<T> = None | Some(value: T)

  /** Why a finder could not be built: the derived regex does not compile. */
  datatype Error = InvalidRegex(pattern: string)

  datatype Result<T> = Ok(value: T) | Err(error: Error)

  /** The library code the finder relies on. */
  datatype Collaborators = Collaborators(
    compiles: string -> bool,
    leftmostMatch: (string, string) -> Option<string>,
    parseTimestamp: (string, string) -> Option<int>)

  /** The finder: its fields are set when it is built and never change. */
  datatype TimestampFinder = TimestampFinder(datetimeFormat: string, regex: string)

  /** One item of the line iterator of the input: a line of text, or a read
      error (an I/O failure or bytes that are not UTF-8). */
  datatype LineRead = Line(text: string) | ReadFailure

  // ---------------------------------------------------------------------
  // Construction

  /** `new_with_format`: derive the regex and keep the format as given. */
  function NewWithFormat(env: Collaborators, datetimeFormat: string): (r: Result<TimestampFinder>)
    ensures r.Ok? <==> env.compiles(StrftimeToRegex(datetimeFormat))
    ensures r.Ok? ==> r.value.datetimeFormat == datetimeFormat
    ensures r.Ok? ==> r.value.regex == StrftimeToRegex(datetimeFormat)
    ensures r.Err? ==> r.error == InvalidRegex(StrftimeToRegex(datetimeFormat))
  {
    var pattern := StrftimeToRegex(datetimeFormat);
    if env.compiles(pattern) then Ok(TimestampFinder(datetimeFormat, pattern))
    else Err(InvalidRegex(pattern))
  }

  /** `new`: the finder for the Common Log Format timestamp. */
  function New(env: Collaborators): (r: Result<TimestampFinder>)
    ensures r.Ok? <==> env.compiles(@"\d{1,2}/[A-Za-z]{3}/\d{1,4}:\d{1,2}:\d{1,2}:\d{1,2}\d{1,}")
    ensures r.Ok? ==> r.value == TimestampFinder("%d/%b/%Y:%H:%M:%S%.f",
      @"\d{1,2}/[A-Za-z]{3}/\d{1,4}:\d{1,2}:\d{1,2}:\d{1,2}\d{1,}")
  {
    DefaultTemplateRegex();
    NewWithFormat(env, "%d/%b/%Y:%H:%M:%S%.f")
  }

  /** A built finder's regex holds none of the thirteen specifier tokens. */
  lemma FinderRegexHasNoToken(env: Collaborators, datetimeFormat: string, i: nat)
    requires i < |Specifiers|
    ensures NewWithFormat(env, datetimeFormat).Ok? ==>
      !Contains(NewWithFormat(env, datetimeFormat).value.regex, Specifiers[i].token)
  {
    NoTokenSurvives(datetimeFormat, i);
  }

  // ---------------------------------------------------------------------
  // Finding a timestamp in one line

  /** `find_timestamp`: the leftmost match of the regex, parsed against the
      format. No match, or a match that does not parse, gives None. */
  function FindTimestamp(env: Collaborators, finder: TimestampFinder, s: string): (r: Option<int>)
    ensures env.leftmostMatch(finder.regex, s).None? ==> r.None?
    ensures env.leftmostMatch(finder.regex, s).Some? ==>
      r == env.parseTimestamp(env.leftmostMatch(finder.regex, s).value, finder.datetimeFormat)
  {
    match env.leftmostMatch(finder.regex, s)
    case None => None
    case Some(m) => env.parseTimestamp(m, finder.datetimeFormat)
  }

  /** The matcher only ever reports text that occurs in the searched text. */
  ghost predicate MatchesAreSubstrings(env: Collaborators) {
    forall re: string, s: string ::
      env.leftmostMatch(re, s).Some? ==> Contains(s, env.leftmostMatch(re, s).value)
  }

  /** A remark on the library assumption above: when the matcher reports
      only text of the searched line, a timestamp found in a line is the
      parse of some text of that line, against the finder's format. It
      follows from the two definitions alone. */
  lemma FoundTimestampComesFromLine(env: Collaborators, finder: TimestampFinder, s: string)
    requires MatchesAreSubstrings(env) && FindTimestamp(env, finder, s).Some?
    ensures exists m :: Contains(s, m) && env.parseTimestamp(m, finder.datetimeFormat) == FindTimestamp(env, finder, s)
  {
  }

  // ---------------------------------------------------------------------
  // Scanning an input

  /** `map_while(Result::ok)`: the lines up to, not including, the first
      read error. */
  function LinesUntilError(lines: seq<LineRead>): (r: seq<string>)
    ensures |r| <= |lines|
    ensures forall i :: 0 <= i < |r| ==> lines[i] == Line(r[i])
    ensures |r| < |lines| ==> lines[|r|] == ReadFailure
  {
    if lines == [] then []
    else
      match lines[0]
      case ReadFailure => []
      case Line(text) => [text] + LinesUntilError(lines[1..])
  }

  /** `filter_map(find_timestamp)`: the timestamps found, in line order. */
  function FilterTimestamps(env: Collaborators, finder: TimestampFinder, texts: seq<string>): (r: seq<int>)
    ensures |r| <= |texts|
  {
    if texts == [] then []
    else
      match FindTimestamp(env, finder, texts[0])
      case None => FilterTimestamps(env, finder, texts[1..])
      case Some(t) => [t] + FilterTimestamps(env, finder, texts[1..])
  }

  /** `scan`: always succeeds, with at most one timestamp per line read
      before the first read error. */
  function Scan(env: Collaborators, finder: TimestampFinder, lines: seq<LineRead>): (r: Result<seq<int>>)
    ensures r.Ok?
    ensures |r.value| <= |LinesUntilError(lines)| <= |lines|
  {
    Ok(FilterTimestamps(env, finder, LinesUntilError(lines)))
  }

  /** Filtering distributes over concatenation, so the timestamps come out
      in the order of the lines. */
  lemma {:induction false} FilterTimestampsAppend(env: Collaborators, finder: TimestampFinder, a: seq<string>, b: seq<string>)
    ensures FilterTimestamps(env, finder, a + b)
      == FilterTimestamps(env, finder, a) + FilterTimestamps(env, finder, b)
    decreases |a|
  {
    if a == [] {
      assert a + b == b;
    } else {
      assert (a + b)[0] == a[0];
      assert (a + b)[1..] == a[1..] + b;
      FilterTimestampsAppend(env, finder, a[1..], b);
    }
  }

  /** A value is among the filtered timestamps exactly when it is the
      timestamp found in one of the texts. */
  lemma {:induction false} FilterTimestampsMembers(env: Collaborators, finder: TimestampFinder, texts: seq<string>, v: int)
    ensures v in FilterTimestamps(env, finder, texts)
      <==> exists i :: 0 <= i < |texts| && FindTimestamp(env, finder, texts[i]) == Some(v)
    decreases |texts|
  {
    if texts != [] {
      FilterTimestampsMembers(env, finder, texts[1..], v);
      var tail := texts[1..];
      if exists i :: 0 <= i < |texts| && FindTimestamp(env, finder, texts[i]) == Some(v) {
        var i :| 0 <= i < |texts| && FindTimestamp(env, finder, texts[i]) == Some(v);
        if i > 0 {
          assert tail[i - 1] == texts[i];
        }
      }
      if exists i :: 0 <= i < |tail| && FindTimestamp(env, finder, tail[i]) == Some(v) {
        var i :| 0 <= i < |tail| && FindTimestamp(env, finder, tail[i]) == Some(v);
        assert texts[i + 1] == tail[i];
      }
    }
  }

  /** Nothing after a read error is scanned. */
  lemma {:induction false} LinesUntilErrorStops(lines: seq<LineRead>, i: nat)
    requires i < |lines| && lines[i] == ReadFailure
    ensures LinesUntilError(lines) == LinesUntilError(lines[..i])
    decreases i
  {
    if i > 0 {
      assert lines[..i][1..] == lines[1..][..i - 1];
      LinesUntilErrorStops(lines[1..], i - 1);
    }
  }

  /** Lines read without error in front of more input are all scanned. */
  lemma {:induction false} LinesUntilErrorAppend(a: seq<LineRead>, b: seq<LineRead>)
    requires forall k :: 0 <= k < |a| ==> a[k].Line?
    ensures LinesUntilError(a + b) == LinesUntilError(a) + LinesUntilError(b)
    decreases |a|
  {
    if a == [] {
      assert a + b == b;
    } else {
      assert (a + b)[0] == a[0];
      assert (a + b)[1..] == a[1..] + b;
      LinesUntilErrorAppend(a[1..], b);
    }
  }

  /** A read error ends the scan: the timestamps are those of the lines
      before it. */
  lemma ScanStopsAtError(env: Collaborators, finder: TimestampFinder, lines: seq<LineRead>, i: nat)
    requires i < |lines| && lines[i] == ReadFailure
    ensures Scan(env, finder, lines) == Scan(env, finder, lines[..i])
  {
    LinesUntilErrorStops(lines, i);
  }

  /** Scanning input whose first part reads without error yields the
      timestamps of that part followed by those of the rest. */
  lemma ScanAppend(env: Collaborators, finder: TimestampFinder, a: seq<LineRead>, b: seq<LineRead>)
    requires forall k :: 0 <= k < |a| ==> a[k].Line?
    ensures Scan(env, finder, a + b).value == Scan(env, finder, a).value + Scan(env, finder, b).value
  {
    LinesUntilErrorAppend(a, b);
    FilterTimestampsAppend(env, finder, LinesUntilError(a), LinesUntilError(b));
  }

  /** The lines before the first error of a prefix of the input are a prefix
      of the lines before the first error of the whole input. */
  lemma {:induction false} LinesUntilErrorPrefix(lines: seq<LineRead>, k: nat)
    requires k <= |lines|
    ensures LinesUntilError(lines[..k]) <= LinesUntilError(lines)
    decreases k
  {
    if k > 0 && lines[0].Line? {
      assert lines[..k][1..] == lines[1..][..k - 1];
      LinesUntilErrorPrefix(lines[1..], k - 1);
    }
  }

  lemma {:induction false} FilterTimestampsPrefix(env: Collaborators, finder: TimestampFinder, a: seq<string>, b: seq<string>)
    requires a <= b
    ensures FilterTimestamps(env, finder, a) <= FilterTimestamps(env, finder, b)
  {
    assert b == a + b[|a|..];
    FilterTimestampsAppend(env, finder, a, b[|a|..]);
  }

  /** Scanning more of the input only adds timestamps at the end. */
  lemma ScanPrefix(env: Collaborators, finder: TimestampFinder, lines: seq<LineRead>, k: nat)
    requires k <= |lines|
    ensures Scan(env, finder, lines[..k]).value <= Scan(env, finder, lines).value
  {
    LinesUntilErrorPrefix(lines, k);
    FilterTimestampsPrefix(env, finder, LinesUntilError(lines[..k]), LinesUntilError(lines));
  }

  /** A value is scanned exactly when it is the timestamp of a line that is
      read before any read error. */
  lemma ScanMembers(env: Collaborators, finder: TimestampFinder, lines: seq<LineRead>, v: int)
    ensures v in Scan(env, finder, lines).value
      <==> exists i :: 0 <= i < |lines| && lines[i].Line?
             && (forall j :: 0 <= j < i ==> lines[j].Line?)
             && FindTimestamp(env, finder, lines[i].text) == Some(v)
  {
    var texts := LinesUntilError(lines);
    FilterTimestampsMembers(env, finder, texts, v);
    if exists i :: 0 <= i < |lines| && lines[i].Line?
             && (forall j :: 0 <= j < i ==> lines[j].Line?)
             && FindTimestamp(env, finder, lines[i].text) == Some(v) {
      var i :| 0 <= i < |lines| && lines[i].Line?
             && (forall j :: 0 <= j < i ==> lines[j].Line?)
             && FindTimestamp(env, finder, lines[i].text) == Some(v);
      assert texts[i] == lines[i].text;
    }
  }
}
