/**
 * The mouse report's repeat filter. Before sending a mouse report the
 * peripheral compares it, and the last report it sent, with all-zero bytes:
 * when both are zero the new report is dropped and the cache kept. The
 * comparison includes the report-ID byte, which is 1 in every mouse report, so
 * as written nothing is ever dropped. The filter evidently meant to compare
 * the payload (buttons, X, Y, Wheel) only, so that a run of idle reports sends
 * one idle report after motion stops and nothing after that. Both filters are
 * stated here as a step from the cached report and the new report to what is
 * sent and what is cached next.
 */
module MouseDedup {
  import opened HidReports

  /** All bytes of `r` are zero. */
  predicate IsZeroReport(r: seq<JByte>) {
    forall i :: 0 <= i < |r| ==> r[i] == 0
  }

  /** The payload (buttons, X, Y, Wheel) of a five-byte mouse report is zero. */
  predicate IsIdlePayload(r: seq<JByte>)
    requires |r| == MouseReportLength
  {
    forall i :: ButtonIndex <= i <= WheelIndex ==> r[i] == 0
  }

  /**
   * The filter as written: drop when the cached and the new report are both
   * all-zero, report ID included. On five-byte reports that is the ten byte
   * comparisons, the report-ID bytes among them.
   */
  predicate SuppressedAsWritten(last: seq<JByte>, report: seq<JByte>): (drop: bool)
    ensures |last| == MouseReportLength && |report| == MouseReportLength ==>
              (drop <==> last[0] == 0 && last[1] == 0 && last[2] == 0 && last[3] == 0 && last[4] == 0
                         && report[0] == 0 && report[1] == 0 && report[2] == 0 && report[3] == 0 && report[4] == 0)
    ensures drop && |report| == MouseReportLength ==> report[ReportIdIndex] != MouseReportId
  {
    IsZeroReport(last) && IsZeroReport(report)
  }

  /** The filter as intended: drop when the cached and the new payload are both idle. */
  predicate SuppressedIntended(last: seq<JByte>, report: seq<JByte>)
    requires |last| == MouseReportLength && |report| == MouseReportLength
  {
    IsIdlePayload(last) && IsIdlePayload(report)
  }

  /** What one movement sends and what it leaves in the cache. */
  datatype MouseStep = MouseStep(sent: seq<seq<JByte>>, last: seq<JByte>)

  /** The report a movement with no motion and no buttons builds. */
  const IdleReport: seq<JByte> := MouseReport(0, 0, 0, false, false, false)

  /** The cache's value before the first movement: five zero bytes. */
  const InitialCache: seq<JByte> := [0, 0, 0, 0, 0]

  /** One movement under the filter as written. */
  function AsWrittenStep(last: seq<JByte>, report: seq<JByte>): (r: MouseStep)
    ensures r.sent == [] || (r.sent == [report] && r.last == report)
    ensures r.sent == [] ==> r.last == last
  {
    if SuppressedAsWritten(last, report) then MouseStep([], last) else MouseStep([report], report)
  }

  /**
   * One movement under the intended filter: a report whose payload is idle is
   * dropped exactly when the cached payload is idle too; any other report is
   * sent and cached.
   */
  function IntendedStep(last: seq<JByte>, report: seq<JByte>): (r: MouseStep)
    requires |last| == MouseReportLength && |report| == MouseReportLength
    ensures r.sent == [] || (r.sent == [report] && r.last == report)
    ensures r.sent == [] ==> r.last == last
  {
    if SuppressedIntended(last, report) then MouseStep([], last) else MouseStep([report], report)
  }

  /** As written the filter never drops a mouse report: every movement sends its report and caches it. */
  lemma AsWrittenAlwaysSends(last: seq<JByte>, dx: int, dy: int, wheel: int, left: bool, right: bool, middle: bool)
    ensures var report := MouseReport(dx, dy, wheel, left, right, middle);
            !SuppressedAsWritten(last, report) && AsWrittenStep(last, report) == MouseStep([report], report)
  {
    var report := MouseReport(dx, dy, wheel, left, right, middle);
    assert report[ReportIdIndex] != 0;
  }

  /**
   * The input that shows it: two idle movements in a row, starting from the
   * fresh cache. As written both are sent; the intended filter sends neither.
   */
  lemma IdleRepeatCounterexample()
    ensures AsWrittenStep(InitialCache, IdleReport).sent == [IdleReport]
    ensures AsWrittenStep(IdleReport, IdleReport).sent == [IdleReport]
    ensures IntendedStep(InitialCache, IdleReport).sent == []
    ensures IntendedStep(IdleReport, IdleReport).sent == []
  {
    assert IdleReport == [1, 0, 0, 0, 0];
    assert IdleReport[ReportIdIndex] != 0;
  }

  /** Under the intended filter a report with motion or a pressed button is always sent and cached. */
  lemma IntendedSendsActivity(last: seq<JByte>, report: seq<JByte>)
    requires |last| == MouseReportLength && |report| == MouseReportLength
    requires !IsIdlePayload(report)
    ensures IntendedStep(last, report) == MouseStep([report], report)
  {
  }

  /**
   * Under the intended filter, when motion stops after a report with activity,
   * exactly one idle report is sent, and none for the next idle movement.
   */
  lemma IntendedIdleAfterActivity(last: seq<JByte>, idle: seq<JByte>, again: seq<JByte>)
    requires |last| == MouseReportLength && |idle| == MouseReportLength && |again| == MouseReportLength
    requires !IsIdlePayload(last) && IsIdlePayload(idle) && IsIdlePayload(again)
    ensures IntendedStep(last, idle) == MouseStep([idle], idle)
    ensures IntendedStep(idle, again) == MouseStep([], idle)
  {
  }

  /** Under the intended filter the first idle movement after start sends nothing: the fresh cache is idle. */
  lemma IntendedIdleAtStart(report: seq<JByte>)
    requires |report| == MouseReportLength && IsIdlePayload(report)
    ensures IntendedStep(InitialCache, report) == MouseStep([], InitialCache)
  {
  }

  /**
   * The intended filter never hides a change: after any step the cache holds
   * a payload equal to the new report's, so what the host last received
   * describes the current buttons and motion.
   */
  lemma IntendedCacheTracksPayload(last: seq<JByte>, report: seq<JByte>)
    requires |last| == MouseReportLength && |report| == MouseReportLength
    ensures var s := IntendedStep(last, report);
            |s.last| == MouseReportLength
            && forall i :: ButtonIndex <= i <= WheelIndex ==> s.last[i] == report[i]
  {
  }
}
