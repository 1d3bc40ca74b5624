/** One run of the publisher (`perform`): locate the reports, build one bug
    per report, mark each bug against the previous build's summary, collect
    the bugs into a summary for this build, and decide whether the build is
    unstable. */
module Publisher {
  import opened Wrappers
  import opened BugRecords

  /** The bug summary of one build: its build number and its bugs in the
      order they were added. */
  datatype Summary = Summary(buildNumber: int, bugs: seq<Bug>) {
    function BugCount(): nat {
      |bugs|
    }
  }

  /** The scan-build action attached to a build; `loadedSummary` is what its
      `loadBugSummary` answers, `None` standing for null. */
  datatype ScanBuildAction = ScanBuildAction(loadedSummary: Option<Summary>)

  /** A previous build as the publisher sees it: it may or may not carry a
      scan-build action. */
  datatype PreviousBuild = PreviousBuild(scanBuildAction: Option<ScanBuildAction>)

  /** The publisher's configuration. */
  datatype Config = Config(
    scanBuildOutputFolder: string,
    markBuildUnstableWhenThresholdIsExceeded: bool,
    bugThreshold: int)

  /** What a completed run leaves behind: the new summary, and whether the
      build result is set to UNSTABLE. */
  datatype Publication = Publication(summary: Summary, unstable: bool)

  /** How a run ends: published, or aborted by an escaping exception. */
  type RunOutcome = Result<Publication, Fault>

  /** `getBugSummaryForLastBuild`: the previous build's loaded summary, or
      `None` when there is no previous build or it has no scan-build action. */
  function BugSummaryForLastBuild(previous: Option<PreviousBuild>): (r: Option<Summary>)
    ensures previous.None? ==> r.None?
    ensures previous.Some? && previous.value.scanBuildAction.None? ==> r.None?
    ensures r.Some? ==> exists a :: previous == Some(PreviousBuild(Some(a))) && a.loadedSummary == r
    ensures previous.Some? && previous.value.scanBuildAction.Some? ==>
      r == previous.value.scanBuildAction.value.loadedSummary
  {
    match previous
    case None => None
    case Some(build) =>
      match build.scanBuildAction
      case None => None
      case Some(action) => action.loadedSummary
  }

  /** The file name the report locator selects, `report-*.html`: the
      prefix and the suffix may not overlap. */
  predicate IsReportName(name: string) {
    && |name| >= |"report-"| + |".html"|
    && name[..|"report-"|] == "report-"
    && name[|name| - |".html"|..] == ".html"
  }

  /** `locateClangBugReports`: keep the files named like scan-build
      reports, in the order the traversal produced them. */
  function LocateReports(files: seq<Report>): (r: seq<Report>)
    ensures forall f :: f in r <==> f in files && IsReportName(f.name)
    ensures |r| <= |files|
  {
    if files == [] then []
    else if IsReportName(files[0].name) then [files[0]] + LocateReports(files[1..])
    else LocateReports(files[1..])
  }

  /** `createBugFromClangScanBuildHtml`'s novelty marking: with a previous
      summary, a bug is new exactly when that summary does not contain it;
      without one, the flag is left as it was. Nothing else changes. */
  function MarkNovelty(bug: Bug, previous: Option<Summary>, contains: (Summary, Bug) -> bool): (r: Bug)
    ensures SameFindings(r, bug)
    ensures previous.Some? ==> (r.newBug <==> !contains(previous.value, bug))
    ensures previous.None? ==> r == bug
  {
    match previous
    case None => bug
    case Some(summary) => bug.(newBug := !contains(summary, bug))
  }

  /** The summary's membership test does not look at the novelty flag. */
  ghost predicate IgnoresNovelty(contains: (Summary, Bug) -> bool) {
    forall s, a, b :: SameFindings(a, b) ==> contains(s, a) == contains(s, b)
  }

  /** Marking twice against the same summary is marking once, provided
      membership does not depend on the flag being set. */
  lemma MarkNoveltyIdempotent(bug: Bug, previous: Option<Summary>, contains: (Summary, Bug) -> bool)
    requires IgnoresNovelty(contains)
    ensures MarkNovelty(MarkNovelty(bug, previous, contains), previous, contains)
         == MarkNovelty(bug, previous, contains)
  {
  }

  /** `createBugFromClangScanBuildHtml`: build the record, then mark it
      against the previous summary. */
  function CreateBugFromHtml(report: Report, previous: Option<Summary>, workspace: string,
                             contains: (Summary, Bug) -> bool): (r: Result<Bug, Fault>)
    ensures r.Failure? <==> CreateBugInstance(report, workspace).Failure?
    ensures r.Success? ==> r.value == MarkNovelty(CreateBugInstance(report, workspace).value, previous, contains)
  {
    match CreateBugInstance(report, workspace)
    case Failure(e) => Failure(e)
    case Success(bug) => Success(MarkNovelty(bug, previous, contains))
  }

  /** The loop of `perform`: apply `build` to every report in order and
      append each bug it gives; the first report for which it fails aborts
      the loop. The bugs already built are never consulted. */
  method BuildBugs(reports: seq<Report>, build: Report -> Result<Bug, Fault>)
    returns (r: Result<seq<Bug>, Fault>)
    ensures r.Failure? <==> exists k :: 0 <= k < |reports| && build(reports[k]).Failure?
    ensures r.Success? ==> |r.value| == |reports|
    ensures r.Success? ==> forall k :: 0 <= k < |reports| ==>
              build(reports[k]).Success? && r.value[k] == build(reports[k]).value
  {
    var bugs: seq<Bug> := [];
    var i := 0;
    while i < |reports|
      invariant 0 <= i <= |reports|
      invariant |bugs| == i
      invariant forall k :: 0 <= k < i ==> build(reports[k]).Success? && bugs[k] == build(reports[k]).value
    {
      var bug := build(reports[i]);
      if bug.Failure? {
        return Failure(bug.error);
      }
      bugs := bugs + [bug.value];
      i := i + 1;
    }
    r := Success(bugs);
  }

  /** `perform`, from locating the reports to the UNSTABLE decision. The
      new summary carries the build number and one bug per located report,
      in locator order, each marked against the previous build's summary
      and never against the bugs of this run. A readable report without a
      BUGFILE marker aborts the run. `exceeded` stands for the action's
      threshold check, given the bug count, the enable flag and the
      threshold. */
  method Perform(buildNumber: int, files: seq<Report>, previousBuild: Option<PreviousBuild>,
                 workspace: string, config: Config,
                 contains: (Summary, Bug) -> bool, exceeded: (int, bool, int) -> bool)
    returns (r: RunOutcome)
    ensures r.Failure? <==> exists k :: 0 <= k < |LocateReports(files)| &&
                                          CreateBugInstance(LocateReports(files)[k], workspace).Failure?
    ensures r.Success? ==>
      var reports := LocateReports(files);
      var bugs := r.value.summary.bugs;
      && r.value.summary.buildNumber == buildNumber
      && |bugs| == |reports|
      && (forall k :: 0 <= k < |bugs| ==> bugs[k].reportFile == reports[k].name)
      && (forall k :: 0 <= k < |bugs| ==>
            bugs[k] == MarkNovelty(CreateBugInstance(reports[k], workspace).value,
                                   BugSummaryForLastBuild(previousBuild), contains))
    ensures r.Success? && BugSummaryForLastBuild(previousBuild).None? ==>
      forall k :: 0 <= k < |r.value.summary.bugs| ==> r.value.summary.bugs[k].newBug == FreshNewBug
    ensures r.Success? ==>
      r.value.unstable == exceeded(|r.value.summary.bugs|,
                                   config.markBuildUnstableWhenThresholdIsExceeded, config.bugThreshold)
  {
    var reports := LocateReports(files);
    var previous := BugSummaryForLastBuild(previousBuild);
    var build := (report: Report) => CreateBugFromHtml(report, previous, workspace, contains);
    var built := BuildBugs(reports, build);
    if built.Failure? {
      var k :| 0 <= k < |reports| && build(reports[k]).Failure?;
      assert CreateBugInstance(LocateReports(files)[k], workspace).Failure?;
      return Failure(built.error);
    }
    var bugs := built.value;
    forall k | 0 <= k < |reports|
      ensures bugs[k] == MarkNovelty(CreateBugInstance(reports[k], workspace).value, previous, contains)
    {
      assert build(reports[k]) == CreateBugFromHtml(reports[k], previous, workspace, contains);
    }
    var summary := Summary(buildNumber, bugs);
    var unstable := exceeded(summary.BugCount(), config.markBuildUnstableWhenThresholdIsExceeded, config.bugThreshold);
    r := Success(Publication(summary, unstable));
  }
}
