/**
 * The session-wide `TEST_RESULTS` counters that `pytest_runtest_makereport`
 * updates for every report pytest produces (setup, call and teardown).
 */
module TestResults {
  datatype Phase = Setup | Call | Teardown
  /** `report.outcome`; `report.passed` and `report.failed` test it. */
  datatype Outcome = Passed | Failed | Skipped
  datatype Report = Report(when: Phase, outcome: Outcome)

  datatype Counts = Counts(passed: nat, failed: nat, total: nat)

  /** What one report does to the counters. */
  function Step(c: Counts, r: Report): Counts {
    if r.when == Call then
      Counts(c.passed + (if r.outcome == Passed then 1 else 0),
             c.failed + (if r.outcome == Failed then 1 else 0),
             c.total + 1)
    else
      c
  }

  /** The counters after the reports `reports`, starting from zero. */
  function Tally(reports: seq<Report>): Counts {
    if reports == [] then Counts(0, 0, 0)
    else Step(Tally(reports[..|reports| - 1]), reports[|reports| - 1])
  }

  /** How many reports satisfy `p`. */
  function Count(reports: seq<Report>, p: Report -> bool): (n: nat)
    ensures n <= |reports|
  {
    if reports == [] then 0
    else Count(reports[..|reports| - 1], p) + (if p(reports[|reports| - 1]) then 1 else 0)
  }

  predicate IsCall(r: Report) { r.when == Call }
  predicate IsCallPassed(r: Report) { r.when == Call && r.outcome == Passed }
  predicate IsCallFailed(r: Report) { r.when == Call && r.outcome == Failed }

  /** `total` counts the call-phase reports, `passed` and `failed` those
      that passed or failed; so `passed + failed <= total` always. */
  lemma {:induction false} TallyCounts(reports: seq<Report>)
    ensures Tally(reports).total == Count(reports, IsCall)
    ensures Tally(reports).passed == Count(reports, IsCallPassed)
    ensures Tally(reports).failed == Count(reports, IsCallFailed)
    ensures Tally(reports).passed + Tally(reports).failed <= Tally(reports).total
  {
    if reports != [] {
      TallyCounts(reports[..|reports| - 1]);
    }
  }

  /** Setup and teardown reports leave the counters alone. */
  lemma OnlyCallPhaseCounts(reports: seq<Report>, r: Report)
    requires r.when != Call
    ensures Tally(reports + [r]) == Tally(reports)
  {
    assert (reports + [r])[..|reports|] == reports;
  }

  class Counters {
    var passed: nat
    var failed: nat
    var total: nat

    ghost predicate Valid()
      reads this
    {
      passed + failed <= total
    }

    function Snapshot(): Counts
      reads this
    {
      Counts(passed, failed, total)
    }

    /** `TEST_RESULTS = {"passed": 0, "failed": 0, "total": 0}`. */
    constructor()
      ensures Snapshot() == Tally([]) && Valid()
    {
      passed, failed, total := 0, 0, 0;
    }

    /** The counter update of `pytest_runtest_makereport`. */
    method RecordReport(report: Report)
      requires Valid()
      modifies this
      ensures Valid()
      ensures Snapshot() == Step(old(Snapshot()), report)
    {
      if report.when == Call {
        total := total + 1;
        if report.outcome == Passed {
          passed := passed + 1;
        } else if report.outcome == Failed {
          failed := failed + 1;
        }
      }
    }
  }
}
