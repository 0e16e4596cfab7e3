/** The human-readable report: one line per result, `<glyph> <name>:
    <details>`, joined by newlines. */
module Report {
  import Text
  import opened Checks

  const OkGlyph := "\U{2705}"
  const WarnGlyph := "\U{26A0}\U{FE0F}"
  const ErrorGlyph := "\U{274C}"
  const UnknownGlyph := "\U{2753}"

  /** The glyph table lookup with its fallback, keyed by status string. */
  function StatusGlyph(t: string): (g: string)
    ensures g == UnknownGlyph <==> t !in SupportedStatuses
    ensures |g| > 0 && '\n' !in g
  {
    if t == "ok" then OkGlyph
    else if t == "warn" then WarnGlyph
    else if t == "error" then ErrorGlyph
    else UnknownGlyph
  }

  /** The glyph a result is shown with. The fallback glyph never appears:
      a result's status is always one of the three. */
  function Glyph(s: Status): (g: string)
    ensures g != UnknownGlyph
    ensures s == Ok ==> g == OkGlyph
    ensures s == Warn ==> g == WarnGlyph
    ensures s == Error ==> g == ErrorGlyph
  {
    StatusGlyph(StatusText(s))
  }

  /** `f"{emoji} {result.name}: {result.details}"`: the line starts with the
      status glyph and a space, and holds a line break only if the name or
      the details do. */
  function FormatLine(r: CheckResult): (line: string)
    ensures Text.IsPrefix(Glyph(r.status) + " ", line)
    ensures '\n' in line <==> '\n' in r.name || '\n' in r.details
  {
    var g := Glyph(r.status);
    assert '\n' !in g;
    var line := g + " " + r.name + ": " + r.details;
    assert line[..|g| + 1] == g + " ";
    line
  }

  /** Which status a line reports, read off its leading glyph. */
  function LineStatus(line: string): Option<Status> {
    if Text.IsPrefix(OkGlyph, line) then Some(Ok)
    else if Text.IsPrefix(WarnGlyph, line) then Some(Warn)
    else if Text.IsPrefix(ErrorGlyph, line) then Some(Error)
    else None
  }

  /** The glyph at the head of a line identifies the status it renders:
      distinct statuses are shown with distinguishable glyphs. */
  lemma LineStatusOfFormatLine(r: CheckResult)
    ensures LineStatus(FormatLine(r)) == Some(r.status)
  {
    var line := FormatLine(r);
    var g := Glyph(r.status);
    assert line[..|g|] == g;
    assert OkGlyph[0] == '\U{2705}' && WarnGlyph[0] == '\U{26A0}' && ErrorGlyph[0] == '\U{274C}';
    assert line[0] == g[0];
  }

  /** The `lines` list the source builds: one line appended per result. */
  function ReportLines(results: seq<CheckResult>): (lines: seq<string>)
    ensures |lines| == |results|
    ensures forall i :: 0 <= i < |results| ==> lines[i] == FormatLine(results[i])
    decreases |results|
  {
    seq(|results|, i requires 0 <= i < |results| => FormatLine(results[i]))
  }

  /** The report text: empty exactly when there are no results; otherwise it
      begins with the first result's line and ends with the last one's, so
      no newline follows the last line. */
  function ReportText(results: seq<CheckResult>): (s: string)
    ensures s == "" <==> results == []
    ensures results != [] ==> Text.IsPrefix(FormatLine(results[0]), s)
    ensures results != [] ==> Text.IsSuffix(FormatLine(results[|results| - 1]), s)
  {
    var lines := ReportLines(results);
    assert results != [] ==> |lines[0]| > 0;
    Text.Join("\n", lines)
  }

  /** Builds the report line by line, as the source does, and joins it. */
  method FormatReport(results: seq<CheckResult>) returns (report: string)
    ensures report == ReportText(results)
  {
    var lines: seq<string> := [];
    for i := 0 to |results|
      invariant lines == ReportLines(results[..i])
    {
      assert results[..i + 1][..i] == results[..i];
      lines := lines + [FormatLine(results[i])];
    }
    assert results[..|results|] == results;
    report := Text.Join("\n", lines);
  }

  /** No line of the report breaks when no name or details does. */
  lemma LinesWithoutBreak(results: seq<CheckResult>)
    requires forall i :: 0 <= i < |results| ==> '\n' !in results[i].name && '\n' !in results[i].details
    ensures forall k :: 0 <= k < |ReportLines(results)| ==> '\n' !in ReportLines(results)[k]
  {
    var lines := ReportLines(results);
    forall k | 0 <= k < |lines| ensures '\n' !in lines[k] {
      assert lines[k] == FormatLine(results[k]);
    }
  }

  /** A line break inside the report only ever separates two results'
      lines: when no name or details contains a newline, splitting the
      report on newlines gives back exactly one line per result. */
  lemma ReportSplitsIntoLines(results: seq<CheckResult>)
    requires results != []
    requires forall i :: 0 <= i < |results| ==> '\n' !in results[i].name && '\n' !in results[i].details
    ensures Text.Split(ReportText(results), '\n') == ReportLines(results)
  {
    var lines := ReportLines(results);
    assert "\n" == ['\n'];
    assert Text.Split(Text.Join(['\n'], lines), '\n') == lines by {
      LinesWithoutBreak(results);
      Text.SplitJoin(lines, '\n');
    }
  }

  /** A three-result report, such as the runner's, written out. */
  lemma ReportOfThree(a: CheckResult, b: CheckResult, c: CheckResult)
    ensures ReportText([a, b, c]) == FormatLine(a) + "\n" + FormatLine(b) + "\n" + FormatLine(c)
  {
    assert ReportLines([a, b, c]) == [FormatLine(a), FormatLine(b), FormatLine(c)];
    Text.JoinThree("\n", FormatLine(a), FormatLine(b), FormatLine(c));
  }

  /** Each result's line occurs in a three-result report. */
  lemma ReportOfThreeContains(a: CheckResult, b: CheckResult, c: CheckResult)
    ensures Text.IsInfix(FormatLine(a), ReportText([a, b, c]))
    ensures Text.IsInfix(FormatLine(b), ReportText([a, b, c]))
    ensures Text.IsInfix(FormatLine(c), ReportText([a, b, c]))
  {
    assert ReportLines([a, b, c]) == [FormatLine(a), FormatLine(b), FormatLine(c)];
    Text.JoinThreeContains("\n", FormatLine(a), FormatLine(b), FormatLine(c));
  }

  /** The lines of the three sample results of the source's tests. */
  lemma SampleLineOk()
    ensures FormatLine(CheckResult("alpha", Ok, "all good")) == "\U{2705} alpha: all good"
  {
    assert Glyph(Ok) == "\U{2705}";
  }

  lemma SampleLineWarn()
    ensures FormatLine(CheckResult("beta", Warn, "something to note"))
      == "\U{26A0}\U{FE0F} beta: something to note"
  {
    assert Glyph(Warn) == "\U{26A0}\U{FE0F}";
  }

  lemma SampleLineError()
    ensures FormatLine(CheckResult("gamma", Error, "needs attention")) == "\U{274C} gamma: needs attention"
  {
    assert Glyph(Error) == "\U{274C}";
  }

  /** The report of the three sample results contains each one's line, with
      its glyph, name and details. */
  lemma SampleReportLines()
    ensures Text.IsInfix("\U{2705} alpha: all good", SampleReport())
    ensures Text.IsInfix("\U{26A0}\U{FE0F} beta: something to note", SampleReport())
    ensures Text.IsInfix("\U{274C} gamma: needs attention", SampleReport())
  {
    SampleLineOk();
    SampleLineWarn();
    SampleLineError();
    ReportOfThreeContains(
      CheckResult("alpha", Ok, "all good"),
      CheckResult("beta", Warn, "something to note"),
      CheckResult("gamma", Error, "needs attention"));
  }

  function SampleReport(): string {
    ReportText([
      CheckResult("alpha", Ok, "all good"),
      CheckResult("beta", Warn, "something to note"),
      CheckResult("gamma", Error, "needs attention")])
  }
}
