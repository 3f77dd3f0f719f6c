/**
 * The end of a run, src/handlers/handleFinish.ts: given the processed audit
 * result, what is printed or handed on, in which order, and the exit status.
 * The audit processing itself happens outside this model; its result is the
 * input here.
 */
module Finish {
  import opened Base
  import opened Text
  import opened Types
  import opened Runtime
  import opened Print

  const ProcessingFailedMessage: string := "Unable to process the JSON buffer string."

  /** What the failure message says between the count and the IDs. */
  const VulnerabilitiesFoundText: string := " vulnerabilities found. Node security advisories: "

  const AllGoodMessage: string := "\U{1F91D}  All good!"

  /** The `failed` flag as an `if` reads it: only an explicit `true` counts. */
  predicate Failed(result: ProcessedResult)
  {
    result.failed == Some(true)
  }

  /** The exit status: 1 on a failed result or any unhandled vulnerability, 0 otherwise. */
  function FinishExitCode(result: ProcessedResult): (r: int)
    ensures r == 0 || r == 1
    ensures r == 1 <==> Failed(result) || |result.unhandledIds| > 0
  {
    if Failed(result) then 1
    else if |result.unhandledIds| > 0 then 1
    else 0
  }

  /** The count of unhandled vulnerabilities, then their IDs separated by `, `. */
  function VulnerabilitiesFoundMessage(ids: seq<string>): string
  {
    NatToString(|ids|) + VulnerabilitiesFoundText + Join(ids, ", ")
  }

  /** The report part of a run that did not fail: the document, or the table (when there are rows) and the unused exceptions. */
  function ReportOutputs(result: ProcessedResult, columnsToInclude: seq<string>, outputJson: bool, exceptionsReport: Report): seq<Output>
  {
    if outputJson then [JsonDocument(JsonOutputOf(result, exceptionsReport))]
    else
      (if |result.report| > 0
       then [SecurityTable(ReportHeaders(columnsToInclude), result.report, ColumnWidth(result.report, 2), ColumnWidth(result.report, 3))]
       else [])
      + [UnusedExceptionsHandled(result.unusedExceptionIds, result.unusedExceptionModules)]
  }

  /** The verdict line of a run that did not fail; none in JSON mode. */
  function VerdictOutputs(result: ProcessedResult, outputJson: bool): seq<Output>
  {
    if outputJson then []
    else if |result.unhandledIds| > 0 then [ErrorLine(VulnerabilitiesFoundMessage(result.unhandledIds))]
    else [InfoLine(AllGoodMessage)]
  }

  /** Everything `handleFinish` emits, in order. */
  function FinishOutputs(result: ProcessedResult, columnsToInclude: seq<string>, outputJson: bool, exceptionsReport: Report): seq<Output>
  {
    if Failed(result) then [ErrorLine(ProcessingFailedMessage)]
    else ReportOutputs(result, columnsToInclude, outputJson, exceptionsReport) + VerdictOutputs(result, outputJson)
  }

  /**
   * `handleFinish`: on a failed result, the error line and exit 1 and
   * nothing else; otherwise the report in the chosen mode, then the verdict
   * and the exit status.
   */
  method HandleFinish(p: Process, result: ProcessedResult, columnsToInclude: seq<string>, outputJson: bool, exceptionsReport: Report)
    requires p.exitCode == None
    modifies p
    ensures p.outputs == old(p.outputs) + FinishOutputs(result, columnsToInclude, outputJson, exceptionsReport)
    ensures p.exitCode == Some(FinishExitCode(result))
  {
    if result.failed == Some(true) {
      p.Emit(ErrorLine(ProcessingFailedMessage));
      p.Exit(1);
      return;
    }
    PrintReport(p, result, columnsToInclude, outputJson, exceptionsReport);
    PrintVerdict(p, result, outputJson);
  }

  /** The report part of `handleFinish`, lines 36-45. */
  method PrintReport(p: Process, result: ProcessedResult, columnsToInclude: seq<string>, outputJson: bool, exceptionsReport: Report)
    requires p.exitCode == None
    modifies p
    ensures p.outputs == old(p.outputs) + ReportOutputs(result, columnsToInclude, outputJson, exceptionsReport)
    ensures p.exitCode == None
  {
    if outputJson {
      PrintJsonOutput(p, result, exceptionsReport);
    } else {
      if |result.report| > 0 {
        PrintSecurityReport(p, result.report, columnsToInclude);
      }
      p.Emit(UnusedExceptionsHandled(result.unusedExceptionIds, result.unusedExceptionModules));
    }
  }

  /** The verdict part of `handleFinish`, lines 48-62, for a result that did not fail. */
  method PrintVerdict(p: Process, result: ProcessedResult, outputJson: bool)
    requires p.exitCode == None && !Failed(result)
    modifies p
    ensures p.outputs == old(p.outputs) + VerdictOutputs(result, outputJson)
    ensures p.exitCode == Some(FinishExitCode(result))
  {
    if |result.unhandledIds| > 0 {
      if !outputJson {
        p.Emit(ErrorLine(VulnerabilitiesFoundMessage(result.unhandledIds)));
      }
      p.Exit(1);
    } else {
      if !outputJson {
        p.Emit(InfoLine(AllGoodMessage));
      }
      p.Exit(0);
    }
  }

  /** A failed result prints one error line and nothing else, and exits 1. */
  lemma FailureStopsEverything(result: ProcessedResult, columnsToInclude: seq<string>, outputJson: bool, exceptionsReport: Report)
    requires Failed(result)
    ensures FinishOutputs(result, columnsToInclude, outputJson, exceptionsReport) == [ErrorLine(ProcessingFailedMessage)]
    ensures FinishExitCode(result) == 1
  {
  }

  /**
   * In JSON mode the document is the only output, and since failed results
   * stop earlier, the document never says it failed.
   */
  lemma JsonModeOnlyDocument(result: ProcessedResult, columnsToInclude: seq<string>, exceptionsReport: Report)
    requires !Failed(result)
    ensures |FinishOutputs(result, columnsToInclude, true, exceptionsReport)| == 1
    ensures FinishOutputs(result, columnsToInclude, true, exceptionsReport)[0].JsonDocument?
    ensures !FinishOutputs(result, columnsToInclude, true, exceptionsReport)[0].doc.failed
  {
    JsonOutputFields(result, exceptionsReport);
  }

  /** In table mode the table appears exactly when there are report rows, with the requested headers and the rows as given. */
  lemma TableOnlyWithRows(result: ProcessedResult, columnsToInclude: seq<string>, exceptionsReport: Report)
    requires !Failed(result)
    ensures var outs := FinishOutputs(result, columnsToInclude, false, exceptionsReport);
      && ((exists o :: o in outs && o.SecurityTable?) <==> |result.report| > 0)
      && (forall o :: o in outs && o.SecurityTable? ==> o.headers == ReportHeaders(columnsToInclude) && o.rows == result.report)
  {
    var outs := FinishOutputs(result, columnsToInclude, false, exceptionsReport);
    var unused := [UnusedExceptionsHandled(result.unusedExceptionIds, result.unusedExceptionModules)];
    var verdict := VerdictOutputs(result, false);
    assert forall o: Output :: o in unused + verdict ==> !o.SecurityTable?;
    if |result.report| > 0 {
      var table := SecurityTable(ReportHeaders(columnsToInclude), result.report, ColumnWidth(result.report, 2), ColumnWidth(result.report, 3));
      assert outs == ([table] + unused) + verdict;
      AppendAssoc([table], unused, verdict);
      SoleTable(outs, table, unused + verdict);
    } else {
      assert outs == ([] + unused) + verdict;
      assert [] + unused == unused;
    }
  }

  /** A list made of a table followed by other outputs holds that table and no other. */
  lemma SoleTable(outs: seq<Output>, table: Output, rest: seq<Output>)
    requires table.SecurityTable? && outs == [table] + rest
    requires forall o :: o in rest ==> !o.SecurityTable?
    ensures exists o :: o in outs && o.SecurityTable?
    ensures forall o :: o in outs && o.SecurityTable? ==> o == table
  {
    assert table in outs;
  }

  /** In table mode the unused exceptions are handed on just before the verdict line, and no document is printed. */
  lemma TableModeHandsOn(result: ProcessedResult, columnsToInclude: seq<string>, exceptionsReport: Report)
    requires !Failed(result)
    ensures var outs := FinishOutputs(result, columnsToInclude, false, exceptionsReport);
      && |outs| >= 2
      && outs[|outs| - 2] == UnusedExceptionsHandled(result.unusedExceptionIds, result.unusedExceptionModules)
      && (forall o :: o in outs ==> !o.JsonDocument?)
  {
    var report := ReportOutputs(result, columnsToInclude, false, exceptionsReport);
    var verdict := VerdictOutputs(result, false);
    TableModeReport(result, columnsToInclude, exceptionsReport);
    assert |verdict| == 1 && !verdict[0].JsonDocument?;
    LastTwo(report, verdict);
    assert FinishOutputs(result, columnsToInclude, false, exceptionsReport) == report + verdict;
  }

  /** The report part in table mode ends with the unused exceptions and holds no document. */
  lemma TableModeReport(result: ProcessedResult, columnsToInclude: seq<string>, exceptionsReport: Report)
    ensures var report := ReportOutputs(result, columnsToInclude, false, exceptionsReport);
      && |report| >= 1
      && report[|report| - 1] == UnusedExceptionsHandled(result.unusedExceptionIds, result.unusedExceptionModules)
      && (forall o :: o in report ==> !o.JsonDocument?)
  {
  }

  /** Gluing a list of length one to a non-empty list puts the latter's last element second to last. */
  lemma LastTwo(report: seq<Output>, verdict: seq<Output>)
    requires |report| >= 1 && |verdict| == 1
    ensures |report + verdict| >= 2 && (report + verdict)[|report + verdict| - 2] == report[|report| - 1]
    ensures forall o :: o in report + verdict ==> o in report || o == verdict[0]
  {
  }

  /** In table mode the run ends with one verdict line, an error line exactly when the exit status is 1. */
  lemma TableModeVerdict(result: ProcessedResult, columnsToInclude: seq<string>, exceptionsReport: Report)
    requires !Failed(result)
    ensures var outs := FinishOutputs(result, columnsToInclude, false, exceptionsReport);
      && |outs| >= 1
      && outs[|outs| - 1] == (if |result.unhandledIds| > 0 then ErrorLine(VulnerabilitiesFoundMessage(result.unhandledIds))
                              else InfoLine(AllGoodMessage))
      && (outs[|outs| - 1].ErrorLine? <==> FinishExitCode(result) == 1)
  {
    var report := ReportOutputs(result, columnsToInclude, false, exceptionsReport);
    var verdict := VerdictOutputs(result, false);
    assert FinishOutputs(result, columnsToInclude, false, exceptionsReport) == report + verdict;
    assert |verdict| == 1 && (verdict[0].ErrorLine? <==> |result.unhandledIds| > 0);
    assert (report + verdict)[|report + verdict| - 1] == verdict[0];
  }

  /** The failure message counts the unhandled IDs in decimal and lists them in order. */
  lemma VulnerabilityMessageParts(ids: seq<string>)
    requires |ids| > 0
    ensures exists count: string, list: string ::
      && VulnerabilitiesFoundMessage(ids) == count + VulnerabilitiesFoundText + list
      && (forall i :: 0 <= i < |count| ==> IsDigit(count[i])) && DecimalValue(count) == |ids|
      && list == Join(ids, ", ")
  {
    var count := NatToString(|ids|);
    var list := Join(ids, ", ");
    assert VulnerabilitiesFoundMessage(ids) == count + VulnerabilitiesFoundText + list;
    assert DecimalValue(count) == |ids|;
  }
}
