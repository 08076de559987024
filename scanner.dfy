/**
 * One line of a video description, as the callback inside `parseTimestamps`
 * (app/api/youtube/route.js) reads it: a leading time code, and the title
 * that follows it.
 */
module ChapterLine {
  import opened Wrappers
  import opened JsStrings
  import opened TimeCode

  /** A chapter found in the description: where it starts and its title. */
  datatype Candidate = Candidate(start_seconds: int, title: string)

  /** `[\s-–—]`: white space, hyphen-minus, en dash and em dash. */
  predicate IsSeparator(c: char) {
    IsWhiteSpace(c) || c == '-' || c == '\U{2013}' || c == '\U{2014}'
  }

  // The title clean-up replacing the pattern ^[\s-–—]* by nothing: it drops
  // the leading run of separators.
  function StripSeparators(s: string): (r: string)
    ensures |r| <= |s| && r == s[|s| - |r|..]
    ensures r != [] ==> !IsSeparator(r[0])
    ensures forall i | 0 <= i < |s| - |r| :: IsSeparator(s[i])
  {
    if s != [] && IsSeparator(s[0]) then StripSeparators(s[1..]) else s
  }

  /** The length of the leading white space, which the greedy `(\s*)` takes. */
  function LeadingSpace(line: string): (w: nat)
    ensures w <= |line|
    ensures forall i | 0 <= i < w :: IsWhiteSpace(line[i])
    ensures w < |line| ==> !IsWhiteSpace(line[w])
  {
    |line| - |TrimStart(line)|
  }

  /** `line.match(/^(\s*)(\d{1,2}:)?\d{1,2}:\d{2}/)`: the end of `match[0]`, or
      `None` for null. The match begins at the start of the line; `(\s*)`
      takes all the leading white space (giving some back cannot help, since
      a time code starts with a digit) and a time code must follow. */
  function MatchLeadingTimeCode(line: string): (r: Option<nat>)
    ensures r.Some? ==> LeadingSpace(line) <= r.value <= |line|
    ensures r.Some? ==> IsTimeCode(line[LeadingSpace(line)..r.value])
    ensures r.Some? ==> forall k | r.value < k <= |line| :: !IsTimeCode(line[LeadingSpace(line)..k])
    ensures r.None? <==> forall k | LeadingSpace(line) <= k <= |line| :: !IsTimeCode(line[LeadingSpace(line)..k])
  {
    TimeCodeAt(line, LeadingSpace(line))
  }

  /** What every kept title looks like: non-empty, not starting with a
      separator (white space or a dash) and not ending in white space. */
  predicate IsTitle(t: string) {
    t != [] && !IsSeparator(t[0]) && !IsWhiteSpace(t[|t| - 1])
  }

  /** The callback `parseTimestamps` runs on each line: the trimmed match is
      the timestamp; its first occurrence is removed from the line, leading
      separators and surrounding white space are stripped to give the title,
      and the line contributes only when that title is not empty. */
  function LineCandidate(line: string): (r: Option<Candidate>)
    ensures r.Some? ==> IsTitle(r.value.title)
    ensures r.Some? ==> MatchLeadingTimeCode(line).Some?
  {
    match MatchLeadingTimeCode(line)
    case None => None
    case Some(end) =>
      var timestamp := Trim(line[..end]);
      TrimmedMatchIsTimeCode(line, end);
      var title := Trim(StripSeparators(ReplaceFirst(line, timestamp, "")));
      TrimOfStripped(ReplaceFirst(line, timestamp, ""));
      if title == [] then None
      else Some(Candidate(ConvertTimestampToSeconds(timestamp), title))
  }

  /** Trimming `match[0]` removes exactly the leading white space. */
  lemma TrimmedMatchIsTimeCode(line: string, end: nat)
    requires MatchLeadingTimeCode(line) == Some(end)
    ensures Trim(line[..end]) == line[LeadingSpace(line)..end]
    ensures IsClockText(Trim(line[..end]))
  {
    var w := LeadingSpace(line);
    var t := line[..end];
    MatchedCode(line, end);
    TrimAroundWord(t, w);
    assert t[w..] == line[w..end];
  }

  /** The matched time code begins and ends with a digit. */
  lemma MatchedCode(line: string, end: nat)
    requires MatchLeadingTimeCode(line) == Some(end)
    ensures LeadingSpace(line) < end <= |line|
    ensures IsDigit(line[LeadingSpace(line)]) && IsDigit(line[end - 1])
    ensures IsClockText(line[LeadingSpace(line)..end])
  {
    TimeCodeSlice(line, LeadingSpace(line), end);
  }

  /** A text whose first non-white character is at `w` and whose last
      character is not white trims to its part from `w`. */
  lemma TrimAroundWord(t: string, w: nat)
    requires w < |t| && !IsWhiteSpace(t[w]) && !IsWhiteSpace(t[|t| - 1])
    requires forall i | 0 <= i < w :: IsWhiteSpace(t[i])
    ensures Trim(t) == t[w..]
  {
    TrimStartUpTo(t, w);
    assert t[w..][|t[w..]| - 1] == t[|t| - 1];
  }

  /** The stripped text needs no further trimming at its start. */
  lemma TrimOfStripped(s: string)
    ensures Trim(StripSeparators(s)) == TrimEnd(StripSeparators(s))
  {
  }

  /** Removing a leading run of separators skips any separators put in front. */
  lemma {:induction false} StripSkipsSeparators(a: string, b: string)
    requires forall i | 0 <= i < |a| :: IsSeparator(a[i])
    ensures StripSeparators(a + b) == StripSeparators(b)
  {
    if a != [] {
      assert (a + b)[1..] == a[1..] + b;
      StripSkipsSeparators(a[1..], b);
    } else {
      assert a + b == b;
    }
  }

  /** The first occurrence of the matched time code is where the match put it:
      every character before it is white space, and the code starts with a digit. */
  lemma FirstOccurrenceOfCode(line: string, end: nat)
    requires MatchLeadingTimeCode(line) == Some(end)
    ensures IndexOf(line, line[LeadingSpace(line)..end]) == Some(LeadingSpace(line))
  {
    MatchedCode(line, end);
    DigitAfterSpaceFirst(line, LeadingSpace(line), end);
  }

  /** A slice that starts with a digit right after a run of white space is
      first found where it was taken from. */
  lemma DigitAfterSpaceFirst(line: string, w: nat, end: nat)
    requires w < end <= |line| && IsDigit(line[w])
    requires forall i | 0 <= i < w :: IsWhiteSpace(line[i])
    ensures IndexOf(line, line[w..end]) == Some(w)
  {
    var code := line[w..end];
    assert code[0] == line[w];
    forall j | 0 <= j < w ensures line[j] != code[0] {
      assert IsWhiteSpace(line[j]);
    }
    assert OccursAt(line, code, w);
    IndexOfAt(line, code, w);
  }

  /** A reference reading of one line, free of the replace and trim steps:
      the title is the rest of the line after the time code, with its leading
      separators and trailing white space removed, and the start is the time
      code's value. */
  lemma LineCandidateReference(line: string)
    ensures MatchLeadingTimeCode(line).None? ==> LineCandidate(line).None?
    ensures MatchLeadingTimeCode(line).Some? ==>
      var end := MatchLeadingTimeCode(line).value;
      var code := line[LeadingSpace(line)..end];
      var title := TrimEnd(StripSeparators(line[end..]));
      IsClockText(code) &&
      LineCandidate(line) == if title == [] then None else Some(Candidate(ConvertTimestampToSeconds(code), title))
  {
    if MatchLeadingTimeCode(line).Some? {
      MatchedLine(line, MatchLeadingTimeCode(line).value);
    }
  }

  /** The title of a matched line is its rest with the separators and the
      trailing white space removed. */
  lemma MatchedLine(line: string, end: nat)
    requires MatchLeadingTimeCode(line) == Some(end)
    ensures IsClockText(line[LeadingSpace(line)..end])
    ensures var title := TrimEnd(StripSeparators(line[end..]));
      LineCandidate(line)
        == if title == [] then None else Some(Candidate(ConvertTimestampToSeconds(line[LeadingSpace(line)..end]), title))
  {
    TrimmedMatchIsTimeCode(line, end);
    var replaced := ReplaceFirst(line, Trim(line[..end]), "");
    RemovedCode(line, end);
    StripSkipsSeparators(line[..LeadingSpace(line)], line[end..]);
    TrimOfStripped(replaced);
  }

  /** Removing the first occurrence of the time code leaves the leading
      white space followed by the rest of the line. */
  lemma RemovedCode(line: string, end: nat)
    requires MatchLeadingTimeCode(line) == Some(end)
    ensures ReplaceFirst(line, Trim(line[..end]), "") == line[..LeadingSpace(line)] + line[end..]
  {
    var w := LeadingSpace(line);
    TrimmedMatchIsTimeCode(line, end);
    FirstOccurrenceOfCode(line, end);
    RemoveFirstFound(line, w, end);
  }

  /** Removing a slice that is first found where it was taken from leaves
      what was around it. */
  lemma RemoveFirstFound(line: string, w: nat, end: nat)
    requires w <= end <= |line| && IndexOf(line, line[w..end]) == Some(w)
    ensures ReplaceFirst(line, line[w..end], "") == line[..w] + line[end..]
  {
    ReplaceAtIndexOf(line, line[w..end], "", w);
    assert line[..w] + "" + line[w + (end - w)..] == line[..w] + line[end..];
  }

  /** The rest of a line yields no title exactly when it consists of
      separators only. */
  lemma EmptyTitleIffOnlySeparators(rest: string)
    ensures TrimEnd(StripSeparators(rest)) == [] <==> OnlySeparators(rest)
  {

  }

  predicate OnlySeparators(s: string) {
    forall i | 0 <= i < |s| :: IsSeparator(s[i])
  }

  /** A line contributes a candidate exactly when it starts with a time code
      and something other than separators follows it; in particular a line
      holding only a time code contributes nothing. */
  lemma LineContributesIff(line: string)
    ensures LineCandidate(line).Some? <==>
      MatchLeadingTimeCode(line).Some? && !OnlySeparators(line[MatchLeadingTimeCode(line).value..])
  {
    LineCandidateReference(line);
    if MatchLeadingTimeCode(line).Some? {
      EmptyTitleIffOnlySeparators(line[MatchLeadingTimeCode(line).value..]);
    }
  }

  /** "1:23 - Introduction" is the chapter "Introduction" at 83 seconds. */
  lemma ExampleChapter()
    ensures LineCandidate("1:23 - Introduction") == Some(Candidate(83, "Introduction"))
  {
    var line := "1:23 - Introduction";
    ExampleSplitLine(line);
    ExampleMatch();
    TitleAfterSeparators(" - ", "Introduction");
    ExampleValue();
    ChapterAt(line, 4, "Introduction", 83);
  }

  /** A matched line whose rest strips to a non-empty title is that chapter. */
  lemma ChapterAt(line: string, end: nat, title: string, start: int)
    requires MatchLeadingTimeCode(line) == Some(end)
    requires title != [] && TrimEnd(StripSeparators(line[end..])) == title
    requires IsClockText(line[LeadingSpace(line)..end])
    requires ConvertTimestampToSeconds(line[LeadingSpace(line)..end]) == start
    ensures LineCandidate(line) == Some(Candidate(start, title))
  {
    MatchedLine(line, end);
  }

  lemma ExampleMatch()
    ensures LeadingSpace("1:23 - Introduction") == 0
    ensures MatchLeadingTimeCode("1:23 - Introduction") == Some(4)
  {
    ExampleLeadingSpace();
    ExampleTimeCodeEnd();
  }

  lemma ExampleSplitLine(line: string)
    requires line == "1:23 - Introduction"
    ensures line[0..4] == "1:23" && line[4..] == " - " + "Introduction"
  {
    assert line[4..] == " - Introduction";
  }

  lemma ExampleLeadingSpace()
    ensures LeadingSpace("1:23 - Introduction") == 0
  {
    var line := "1:23 - Introduction";
    assert !IsWhiteSpace(line[0]);
  }

  lemma ExampleTimeCodeEnd()
    ensures TimeCodeAt("1:23 - Introduction", 0) == Some(4)
  {
    assert MinSecAt("1:23 - Introduction", 2) == None;
  }

  /** Separators before a title are stripped, and a title that starts with
      no separator and ends with no white space is kept whole. */
  lemma TitleAfterSeparators(a: string, b: string)
    requires forall i | 0 <= i < |a| :: IsSeparator(a[i])
    requires b != [] && !IsSeparator(b[0]) && !IsWhiteSpace(b[|b| - 1])
    ensures TrimEnd(StripSeparators(a + b)) == b
  {
    StripSkipsSeparators(a, b);
    KeptTitle(b);
  }

  lemma KeptTitle(b: string)
    requires b != [] && !IsSeparator(b[0]) && !IsWhiteSpace(b[|b| - 1])
    ensures TrimEnd(StripSeparators(b)) == b
  {
  }

  lemma ExampleValue()
    ensures IsClockText("1:23") && ConvertTimestampToSeconds("1:23") == 83
  {
    TwoFieldsDecode("1", "23");
    assert "1" + ":" + "23" == "1:23";
    assert DigitsValue("23") == DigitsValue("2") * 10 + 3;
  }

  /** An hours chapter: the greedy match takes the whole `H:MM:SS`, so the
      start is 1*3600 + 2*60 + 3. */
  lemma ExampleHoursChapter()
    ensures LineCandidate("1:02:03 Intro") == Some(Candidate(3723, "Intro"))
  {
    var line := "1:02:03 Intro";
    ExampleHoursSplitLine(line);
    ExampleHoursMatch();
    TitleAfterSeparators(" ", "Intro");
    ExampleHoursValue();
    ChapterAt(line, 7, "Intro", 3723);
  }

  lemma ExampleHoursMatch()
    ensures LeadingSpace("1:02:03 Intro") == 0
    ensures MatchLeadingTimeCode("1:02:03 Intro") == Some(7)
  {
    ExampleHoursLeadingSpace();
    ExampleHoursTimeCodeEnd();
  }

  lemma ExampleHoursSplitLine(line: string)
    requires line == "1:02:03 Intro"
    ensures line[0..7] == "1:02:03" && line[7..] == " " + "Intro"
  {
  }

  lemma ExampleHoursLeadingSpace()
    ensures LeadingSpace("1:02:03 Intro") == 0
  {
    var line := "1:02:03 Intro";
    assert !IsWhiteSpace(line[0]);
  }

  lemma ExampleHoursTimeCodeEnd()
    ensures TimeCodeAt("1:02:03 Intro", 0) == Some(7)
  {
    assert MinSecAt("1:02:03 Intro", 2) == Some(7);
  }

  lemma ExampleHoursValue()
    ensures IsClockText("1:02:03") && ConvertTimestampToSeconds("1:02:03") == 3723
  {
    assert DigitsValue("02") == DigitsValue("0") * 10 + 2;
    assert DigitsValue("03") == DigitsValue("0") * 10 + 3;
    HoursValue("1:02:03", "1", "02", "03", 3723);
  }

  /** The three lines of a short course description. */
  lemma ExampleIntroLine()
    ensures LineCandidate("0:00 Intro") == Some(Candidate(0, "Intro"))
  {
    var line := "0:00 Intro";
    ExampleIntroText(line);
    MatchFromStart(line, 4);
    MinSecValue("0:00", "0", "00", 0);
    SpacedChapter(line, 4, "0:00", "Intro", 0);
  }

  lemma ExampleIntroText(line: string)
    requires line == "0:00 Intro"
    ensures line[0..4] == "0:00" && line[4..] == " " + "Intro"
    ensures !IsWhiteSpace(line[0]) && TimeCodeAt(line, 0) == Some(4)
  {
    assert MinSecAt(line, 2) == None;
  }

  lemma ExampleDeepDiveLine()
    ensures LineCandidate("2:30 Deep Dive") == Some(Candidate(150, "Deep Dive"))
  {
    var line := "2:30 Deep Dive";
    ExampleDeepDiveText(line);
    MatchFromStart(line, 4);
    MinSecValue("2:30", "2", "30", 150);
    SpacedChapter(line, 4, "2:30", "Deep Dive", 150);
  }

  lemma ExampleDeepDiveText(line: string)
    requires line == "2:30 Deep Dive"
    ensures line[0..4] == "2:30" && line[4..] == " " + "Deep Dive"
    ensures !IsWhiteSpace(line[0]) && TimeCodeAt(line, 0) == Some(4)
  {
    assert MinSecAt(line, 2) == None;
  }

  lemma ExampleOutroLine()
    ensures LineCandidate("10:00 Outro") == Some(Candidate(600, "Outro"))
  {
    var line := "10:00 Outro";
    ExampleOutroText(line);
    MatchFromStart(line, 5);
    MinSecValue("10:00", "10", "00", 600);
    SpacedChapter(line, 5, "10:00", "Outro", 600);
  }

  lemma ExampleOutroText(line: string)
    requires line == "10:00 Outro"
    ensures line[0..5] == "10:00" && line[5..] == " " + "Outro"
    ensures !IsWhiteSpace(line[0]) && TimeCodeAt(line, 0) == Some(5)
  {
    assert MinSecAt(line, 3) == None;
  }

  /** A line that starts with its time code is matched from index 0. */
  lemma MatchFromStart(line: string, n: nat)
    requires line != [] && !IsWhiteSpace(line[0]) && TimeCodeAt(line, 0) == Some(n)
    ensures LeadingSpace(line) == 0 && MatchLeadingTimeCode(line) == Some(n)
  {
  }

  /** A time code, one space and a title make that chapter. */
  lemma SpacedChapter(line: string, n: nat, code: string, title: string, start: int)
    requires LeadingSpace(line) == 0 && MatchLeadingTimeCode(line) == Some(n)
    requires line[0..n] == code && line[n..] == " " + title
    requires title != [] && !IsSeparator(title[0]) && !IsWhiteSpace(title[|title| - 1])
    requires IsClockText(code) && ConvertTimestampToSeconds(code) == start
    ensures LineCandidate(line) == Some(Candidate(start, title))
  {
    SpacedTitle(line[n..], title);
    ChapterAt(line, n, title, start);
  }

  lemma SpacedTitle(rest: string, title: string)
    requires rest == " " + title
    requires title != [] && !IsSeparator(title[0]) && !IsWhiteSpace(title[|title| - 1])
    ensures TrimEnd(StripSeparators(rest)) == title
  {
    assert IsSeparator(" "[0]);
    TitleAfterSeparators(" ", title);
  }

  /** A line holding only a time code is not a chapter. */
  lemma ExampleBareTimeCode()
    ensures LineCandidate("5:00") == None
  {
    ExampleBareMatch();
    LineCandidateReference("5:00");
    assert "5:00"[4..] == [];
  }

  lemma ExampleBareMatch()
    ensures MatchLeadingTimeCode("5:00") == Some(4)
  {
    var line := "5:00";
    assert !IsWhiteSpace(line[0]);
    assert LeadingSpace(line) == 0;
    assert MinSecAt(line, 0) == Some(4);
  }

  /** A line without a leading time code is not a chapter. */
  lemma ExampleNoTimeCode()
    ensures LineCandidate("Introduction") == None
  {
    var line := "Introduction";
    assert TrimStart(line) == line;
    assert !IsDigit(line[0]);
    assert TimeCodeAt(line, 0) == None;
  }
}

/**
 * `parseTimestamps` in app/api/youtube/route.js: the description is split
 * into lines, and every line that starts (after white space) with a time
 * code and a title contributes one chapter candidate, in line order.
 */
module Scanner {
  import opened Wrappers
  import opened JsStrings
  import opened ChapterLine

  /** Applies `f` to every entry of `xs` and keeps the present results, in
      order: the shape of a `forEach` that pushes at most once per entry. */
  function FilterMap<A, B>(f: A -> Option<B>, xs: seq<A>): (r: seq<B>)
    ensures |r| <= |xs|
  {
    if xs == [] then []
    else
      var rest := FilterMap(f, xs[..|xs| - 1]);
      match f(xs[|xs| - 1])
      case None => rest
      case Some(b) => rest + [b]
  }

  /** One more entry adds its result, if any, at the end. */
  lemma FilterMapSnoc<A, B>(f: A -> Option<B>, xs: seq<A>, x: A)
    ensures FilterMap(f, xs + [x]) == FilterMap(f, xs) + (if f(x).Some? then [f(x).value] else [])
  {
    assert (xs + [x])[..|xs|] == xs;
  }

  /** The indices of the entries for which `f` gives a result, in order. */
  function Contributors<A, B>(f: A -> Option<B>, xs: seq<A>): seq<nat> {
    if xs == [] then []
    else
      var rest := Contributors(f, xs[..|xs| - 1]);
      if f(xs[|xs| - 1]).Some? then rest + [|xs| - 1] else rest
  }

  /** Result `k` of `FilterMap(f, xs)` is `f` of entry `Contributors(f, xs)[k]`;
      those indices strictly increase, and an index is among them exactly
      when `f` gives a result for its entry. */
  lemma {:induction false} FilterMapOrigin<A, B>(f: A -> Option<B>, xs: seq<A>)
    ensures |Contributors(f, xs)| == |FilterMap(f, xs)|
    ensures forall k | 0 <= k < |Contributors(f, xs)| ::
      Contributors(f, xs)[k] < |xs| && f(xs[Contributors(f, xs)[k]]) == Some(FilterMap(f, xs)[k])
    ensures forall k, l | 0 <= k < l < |Contributors(f, xs)| :: Contributors(f, xs)[k] < Contributors(f, xs)[l]
    ensures forall j | 0 <= j < |xs| :: f(xs[j]).Some? <==> j in Contributors(f, xs)
  {
    if xs != [] {
      var init := xs[..|xs| - 1];
      FilterMapOrigin(f, init);
      assert forall j | 0 <= j < |init| :: xs[j] == init[j];
    }
  }

  /** Nothing is kept exactly when `f` gives no result for any entry. */
  lemma FilterMapEmptyIff<A, B>(f: A -> Option<B>, xs: seq<A>)
    ensures FilterMap(f, xs) == [] <==> forall j | 0 <= j < |xs| :: f(xs[j]).None?
  {
    FilterMapOrigin(f, xs);
    if FilterMap(f, xs) != [] {
      assert f(xs[Contributors(f, xs)[0]]).Some?;
    }
  }

  /** `parseTimestamps` over the lines: each line contributes at most one
      candidate, appended in line order; nothing is sorted. */
  function ScanLines(lines: seq<string>): (r: seq<Candidate>)
    ensures |r| <= |lines|
  {
    FilterMap(LineCandidate, lines)
  }

  /** The indices of the lines that contribute. */
  function SourceLines(lines: seq<string>): seq<nat> {
    Contributors(LineCandidate, lines)
  }

  /** Candidate `k` comes from line `SourceLines(lines)[k]`; those line indices
      strictly increase (so no line gives two candidates and the order of the
      lines is kept); a line is among them exactly when it contributes; and
      every title has the shape `IsTitle` describes. */
  lemma ScanLinesOrigin(lines: seq<string>)
    ensures |SourceLines(lines)| == |ScanLines(lines)| <= |lines|
    ensures forall k | 0 <= k < |SourceLines(lines)| ::
      SourceLines(lines)[k] < |lines| && LineCandidate(lines[SourceLines(lines)[k]]) == Some(ScanLines(lines)[k])
    ensures forall k, l | 0 <= k < l < |SourceLines(lines)| :: SourceLines(lines)[k] < SourceLines(lines)[l]
    ensures forall j | 0 <= j < |lines| :: LineCandidate(lines[j]).Some? <==> j in SourceLines(lines)
    ensures forall k | 0 <= k < |ScanLines(lines)| :: IsTitle(ScanLines(lines)[k].title)
  {
    FilterMapOrigin(LineCandidate, lines);
    forall k | 0 <= k < |ScanLines(lines)| ensures IsTitle(ScanLines(lines)[k].title) {
      assert LineCandidate(lines[SourceLines(lines)[k]]) == Some(ScanLines(lines)[k]);
    }
  }

  /** The candidates of a whole description, split at "\n". */
  function Candidates(desc: string): (r: seq<Candidate>)
    ensures |r| <= CountChar(desc, '\n') + 1
  {
    SplitLength(desc, '\n');
    ScanLines(Split(desc, '\n'))
  }

  /** `parseTimestamps`: the `forEach` over the lines pushing onto a local
      array. */
  method ParseTimestamps(desc: string) returns (segments: seq<Candidate>)
    ensures segments == Candidates(desc)
  {
    var lines := Split(desc, '\n');
    segments := [];
    var i := 0;
    while i < |lines|
      invariant 0 <= i <= |lines|
      invariant segments == ScanLines(lines[..i])
    {
      ScanStep(lines, i);
      var c := LineCandidate(lines[i]);
      if c.Some? {
        segments := segments + [c.value];
      }
      i := i + 1;
    }
    assert lines[..|lines|] == lines;
  }

  /** Scanning one more line appends that line's candidate, if any. */
  lemma ScanStep(lines: seq<string>, i: nat)
    requires i < |lines|
    ensures ScanLines(lines[..i + 1])
         == ScanLines(lines[..i]) + (if LineCandidate(lines[i]).Some? then [LineCandidate(lines[i]).value] else [])
  {
    assert lines[..i + 1] == lines[..i] + [lines[i]];
    FilterMapSnoc(LineCandidate, lines[..i], lines[i]);
  }

  /** The lines yield no candidate exactly when none of them contributes one;
      this is what the route's "no valid timestamps" answer reports. */
  lemma NoCandidatesIff(lines: seq<string>)
    ensures ScanLines(lines) == [] <==> forall j | 0 <= j < |lines| :: LineCandidate(lines[j]).None?
  {
    FilterMapEmptyIff(LineCandidate, lines);
  }

  /** The description "0:00 Intro", "2:30 Deep Dive", "10:00 Outro", one
      chapter per line. */
  function ExampleDescription(): string {
    "0:00 Intro" + "\n" + "2:30 Deep Dive" + "\n" + "10:00 Outro"
  }

  /** Its three chapters, in line order. */
  lemma ExampleCandidates()
    ensures Candidates(ExampleDescription())
         == [Candidate(0, "Intro"), Candidate(150, "Deep Dive"), Candidate(600, "Outro")]
  {
    var l1, l2, l3 := "0:00 Intro", "2:30 Deep Dive", "10:00 Outro";
    ExampleDescriptionLines(l1, l2, l3);
    ExampleIntroLine();
    ExampleDeepDiveLine();
    ExampleOutroLine();
    FilterMapThree(LineCandidate, l1, l2, l3,
      Candidate(0, "Intro"), Candidate(150, "Deep Dive"), Candidate(600, "Outro"));
  }

  /** Three entries that each give a result give those three, in order. */
  lemma FilterMapThree<A, B>(f: A -> Option<B>, x1: A, x2: A, x3: A, b1: B, b2: B, b3: B)
    requires f(x1) == Some(b1) && f(x2) == Some(b2) && f(x3) == Some(b3)
    ensures FilterMap(f, [x1, x2, x3]) == [b1, b2, b3]
  {
    FilterMapSnoc(f, [], x1);
    assert [x1] == [] + [x1];
    FilterMapSnoc(f, [x1], x2);
    assert [x1, x2] == [x1] + [x2];
    FilterMapSnoc(f, [x1, x2], x3);
    assert [x1, x2, x3] == [x1, x2] + [x3];
  }

  lemma ExampleDescriptionLines(l1: string, l2: string, l3: string)
    requires l1 == "0:00 Intro" && l2 == "2:30 Deep Dive" && l3 == "10:00 Outro"
    ensures Split(ExampleDescription(), '\n') == [l1, l2, l3]
  {
    assert '\n' !in l1 && '\n' !in l2 && '\n' !in l3;
    assert ExampleDescription() == l1 + ['\n'] + (l2 + ['\n'] + l3);
    SplitAtFirstSeparator(l1, '\n', l2 + ['\n'] + l3);
    SplitAtFirstSeparator(l2, '\n', l3);
    SplitWithoutSeparator(l3, '\n');
  }
}
