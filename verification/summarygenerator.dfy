/**
 * The Markdown job summary of an engine run: a title, a table with one row per processed
 * dependency (its story and pull-request links or "N/A", and its status), and a totals line that
 * counts the statuses marked created, skipped and failed.
 */
module SummaryGenerator {
  import opened Common
  import opened JsText

  /** A created issue or pull request: its number and address. */
  datatype Link = Link(number: nat, url: string)

  /** What the run did for one dependency; the links are `null` when nothing was created. */
  datatype ExecutionResult = ExecutionResult(
    packageName: string,
    storyUrl: Option<Link>,
    prUrl: Option<Link>,
    status: string)

  const Title: string := "## ARM Execution Summary"
  const HeaderRow: string := "| Package | Story | PR | Status |"
  const RuleRow: string := "|---------|-------|----|---------|"
  const NothingProcessed: string := Title + "\n\nNo dependencies processed.\n"

  /** The status marks that are counted. */
  const CreatedMark: string := "\U{2705}"
  const SkippedMark: string := "\U{23ED}\U{FE0F}"
  const FailedMark: string := "\U{274C}"

  /** `[#number](url)`, or "N/A" when there is no link. */
  function LinkCell(l: Option<Link>): string {
    if l.Some? then "[#" + NatToString(l.value.number) + "](" + l.value.url + ")" else "N/A"
  }

  /** A cell reads "N/A" exactly when there is no link; a link's cell ends with its address. */
  lemma LinkCellIffPresent(l: Option<Link>)
    ensures LinkCell(l) == "N/A" <==> l.None?
    ensures l.Some? ==> EndsWith(LinkCell(l), "](" + l.value.url + ")")
  {
    if l.Some? {
      var head, tail := "[#" + NatToString(l.value.number), "](" + l.value.url + ")";
      assert LinkCell(l) == head + tail;
      assert LinkCell(l)[0] == '[';
      assert (head + tail)[|head + tail| - |tail|..] == tail;
    }
  }

  /** The table row of one result. */
  function Row(r: ExecutionResult): string {
    "| " + r.packageName + " | " + LinkCell(r.storyUrl) + " | " + LinkCell(r.prUrl) + " | " + r.status + " |"
  }

  function Rows(rs: seq<ExecutionResult>): (rows: seq<string>)
    ensures |rows| == |rs| && forall i :: 0 <= i < |rs| ==> rows[i] == Row(rs[i])
  {
    seq(|rs|, i requires 0 <= i < |rs| => Row(rs[i]))
  }

  /** How many results have a status containing `mark`. */
  function Count(rs: seq<ExecutionResult>, mark: string): (n: nat)
    ensures n <= |rs|
  {
    if rs == [] then 0 else (if Contains(rs[0].status, mark) then 1 else 0) + Count(rs[1..], mark)
  }

  function TotalsLine(rs: seq<ExecutionResult>): string {
    "**Total:** " + NatToString(|rs|)
    + " | **Created:** " + NatToString(Count(rs, CreatedMark))
    + " | **Skipped:** " + NatToString(Count(rs, SkippedMark))
    + " | **Failed:** " + NatToString(Count(rs, FailedMark))
  }

  /** `generateMarkdownSummary(results)`; `None` is `null` or `undefined`. */
  function GenerateMarkdownSummary(results: Option<seq<ExecutionResult>>): (md: string)
    ensures StartsWith(md, Title + "\n\n")
  {
    if results.None? || |results.value| == 0 then NothingProcessed
    else
      var rs := results.value;
      Title + "\n\n" + HeaderRow + "\n" + RuleRow + "\n" + Join(Rows(rs), '\n') + "\n" + "\n" + TotalsLine(rs) + "\n"
  }

  /** The short form is produced exactly when there is nothing to report. */
  lemma NothingProcessedIffNoResults(results: Option<seq<ExecutionResult>>)
    ensures GenerateMarkdownSummary(results) == NothingProcessed <==> results.None? || |results.value| == 0
  {
    var md := GenerateMarkdownSummary(results);
    if results.Some? && |results.value| > 0 {
      var k := |Title + "\n\n"|;
      var opening := Title + "\n\n" + HeaderRow;
      assert StartsWith(md, opening);
      assert opening[k] == HeaderRow[0] == '|';
      assert md[k] == opening[k];
      assert NothingProcessed[k] == 'N';
    }
  }

  /** No field of a result holds a line break. */
  predicate SingleLine(r: ExecutionResult) {
    && '\n' !in r.packageName && '\n' !in r.status
    && (r.storyUrl.Some? ==> '\n' !in r.storyUrl.value.url)
    && (r.prUrl.Some? ==> '\n' !in r.prUrl.value.url)
  }

  lemma RowIsSingleLine(r: ExecutionResult)
    requires SingleLine(r)
    ensures '\n' !in Row(r)
  {
    if r.storyUrl.Some? {
      assert '\n' !in NatToString(r.storyUrl.value.number);
    }
    if r.prUrl.Some? {
      assert '\n' !in NatToString(r.prUrl.value.number);
    }
  }

  /** The report as a list of lines. */
  function ReportLines(rs: seq<ExecutionResult>): seq<string> {
    [Title, "", HeaderRow, RuleRow] + Rows(rs) + ["", TotalsLine(rs), ""]
  }

  lemma TwoNewlines(t: string)
    ensures t + "\n" + "" + "\n" == t + "\n\n"
  {
    assert t + "\n" + "" == t + "\n";
  }

  lemma HeadLines(title: string, header: string, rule: string)
    ensures Join([title, "", header, rule], '\n') == title + "\n\n" + header + "\n" + rule
  {
    JoinFour(title, "", header, rule, '\n');
    TwoNewlines(title);
  }

  lemma TailLines(totals: string)
    ensures Join(["", totals, ""], '\n') == "\n" + totals + "\n"
  {
    JoinThree("", totals, "", '\n');
    assert "" + "\n" == "\n";
  }

  lemma GlueTail(x: string, totals: string)
    ensures x + "\n" + ("\n" + totals + "\n") == x + "\n" + "\n" + totals + "\n"
  {
  }

  /** The report text is the join of the title, header and totals lines around the rows. */
  lemma ReportShape(title: string, header: string, rule: string, rows: seq<string>, totals: string)
    requires |rows| > 0
    ensures title + "\n\n" + header + "\n" + rule + "\n" + Join(rows, '\n') + "\n" + "\n" + totals + "\n"
      == Join([title, "", header, rule] + rows + ["", totals, ""], '\n')
  {
    var head, tail := [title, "", header, rule], ["", totals, ""];
    JoinAppend(head, rows, '\n');
    JoinAppend(head + rows, tail, '\n');
    HeadLines(title, header, rule);
    TailLines(totals);
    GlueTail(title + "\n\n" + header + "\n" + rule + "\n" + Join(rows, '\n'), totals);
  }

  lemma SummaryJoinsLines(rs: seq<ExecutionResult>)
    requires |rs| > 0
    ensures GenerateMarkdownSummary(Some(rs)) == Join(ReportLines(rs), '\n')
  {
    ReportShape(Title, HeaderRow, RuleRow, Rows(rs), TotalsLine(rs));
  }

  lemma FixedLinesSingle()
    ensures '\n' !in Title && '\n' !in HeaderRow && '\n' !in RuleRow
  {
  }

  lemma DigitsSingle(n: nat)
    ensures '\n' !in NatToString(n)
  {
  }

  lemma TotalsSingle(rs: seq<ExecutionResult>)
    ensures '\n' !in TotalsLine(rs)
  {
    DigitsSingle(|rs|);
    DigitsSingle(Count(rs, CreatedMark));
    DigitsSingle(Count(rs, SkippedMark));
    DigitsSingle(Count(rs, FailedMark));
  }

  /**
   * When no field holds a line break, the report's lines are the title, a blank line, the two
   * header lines, one row per result in order, a blank line, the totals line and a final empty line.
   */
  lemma SummaryLayout(rs: seq<ExecutionResult>)
    requires |rs| > 0
    requires forall i :: 0 <= i < |rs| ==> SingleLine(rs[i])
    ensures Split(GenerateMarkdownSummary(Some(rs)), '\n') == ReportLines(rs)
  {
    SummaryJoinsLines(rs);
    var head, rows, tail := [Title, "", HeaderRow, RuleRow], Rows(rs), ["", TotalsLine(rs), ""];
    FixedLinesSingle();
    TotalsSingle(rs);
    forall i | 0 <= i < |rows|
      ensures '\n' !in rows[i]
    {
      RowIsSingleLine(rs[i]);
    }
    NoSeparatorAppend(head, rows, '\n');
    NoSeparatorAppend(head + rows, tail, '\n');
    assert head + rows + tail == ReportLines(rs);
    SplitJoin(ReportLines(rs), '\n');
  }

  /** Every result's row appears in the report. */
  lemma EveryRowReported(rs: seq<ExecutionResult>, i: nat)
    requires i < |rs|
    ensures Contains(GenerateMarkdownSummary(Some(rs)), Row(rs[i]))
  {
    SummaryJoinsLines(rs);
    JoinContainsElement(ReportLines(rs), '\n', 4 + i);
  }

  /** Counting is additive over concatenation. */
  lemma {:induction false} CountAppend(a: seq<ExecutionResult>, b: seq<ExecutionResult>, mark: string)
    ensures Count(a + b, mark) == Count(a, mark) + Count(b, mark)
    decreases |a|
  {
    if a != [] {
      assert (a + b)[1..] == a[1..] + b;
      CountAppend(a[1..], b, mark);
    } else {
      assert a + b == b;
    }
  }

  /** A single result is counted exactly when its status contains the mark. */
  lemma CountOne(r: ExecutionResult, mark: string)
    ensures Count([r], mark) == if Contains(r.status, mark) then 1 else 0
  {
    assert [r][1..] == [];
  }

  /** A status carrying none of the three marks is counted nowhere, so the counts fall short of the total. */
  lemma UnmarkedStatusCountedNowhere(r: ExecutionResult)
    requires forall k :: 0 <= k < |r.status| ==> r.status[k] != CreatedMark[0] && r.status[k] != SkippedMark[0] && r.status[k] != FailedMark[0]
    ensures Count([r], CreatedMark) + Count([r], SkippedMark) + Count([r], FailedMark) == 0
  {
    AbsentCharRulesOut(r.status, CreatedMark, CreatedMark[0]);
    AbsentCharRulesOut(r.status, SkippedMark, SkippedMark[0]);
    AbsentCharRulesOut(r.status, FailedMark, FailedMark[0]);
    CountOne(r, CreatedMark);
    CountOne(r, SkippedMark);
    CountOne(r, FailedMark);
  }

  /** A status carrying two marks is counted twice, so the counts can exceed the total. */
  lemma DoublyMarkedStatusCountedTwice(r: ExecutionResult)
    requires r.status == CreatedMark + FailedMark
    ensures Count([r], CreatedMark) + Count([r], FailedMark) == 2
  {
    assert StartsWith(r.status, CreatedMark);
    assert StartsWith(FailedMark, FailedMark);
    ContainsAfterPrefix(CreatedMark, FailedMark, FailedMark);
    CountOne(r, CreatedMark);
    CountOne(r, FailedMark);
  }
}
