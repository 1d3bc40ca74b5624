/** Building one bug record from one scan-build HTML report
    (`createBugInstance`), including the shortening of the reported source
    path to a path relative to the workspace. */
module BugRecords {
  import opened Wrappers
  import opened Text
  import opened Markers

  /** The novelty flag of a freshly constructed bug: the bug class is not
      part of this model, and a Java `boolean` field starts out false. */
  const FreshNewBug: bool := false

  /** A bug record; every optional field is `None` where the Java field
      stays null. */
  datatype Bug = Bug(
    reportFile: string,
    bugDescription: Option<string>,
    bugType: Option<string>,
    bugCategory: Option<string>,
    sourceFile: Option<string>,
    newBug: bool)

  /** A located report file: its name, and its text, or `None` when reading
      it throws an `IOException`. */
  datatype Report = Report(name: string, contents: Option<string>)

  /** The exception that escapes bug construction: a `NullPointerException`
      from calling `lastIndexOf` on the missing BUGFILE value. */
  datatype Fault = NullPointer

  /** Two records that agree on everything except the novelty flag. */
  predicate SameFindings(a: Bug, b: Bug) {
    && a.reportFile == b.reportFile
    && a.bugDescription == b.bugDescription
    && a.bugType == b.bugType
    && a.bugCategory == b.bugCategory
    && a.sourceFile == b.sourceFile
  }

  /** Strip everything up to and including the last occurrence of the
      workspace path; leave the path alone if the workspace does not occur. */
  function RelativeToWorkspace(path: string, workspace: string): (r: string)
    ensures IsSuffix(r, path)
    ensures (forall k :: !OccursAt(path, workspace, k)) ==> r == path
    ensures forall k ::
              OccursAt(path, workspace, k) && (forall j :: k < j ==> !OccursAt(path, workspace, j))
              ==> r == path[k + |workspace|..]
  {
    match LastIndexOf(path, workspace)
    case Some(k) => path[k + |workspace|..]
    case None => path
  }

  /** An empty workspace path occurs at the very end of every path, so the
      whole path is stripped. */
  lemma EmptyWorkspaceStripsEverything(path: string)
    ensures RelativeToWorkspace(path, "") == []
  {
    assert OccursAt(path, "", |path|);
  }

  /** Once shortened, the path holds no further occurrence of a non-empty
      workspace path: any such occurrence would lie past the last one. */
  lemma {:induction false} RelativePathIsFreeOfWorkspace(path: string, workspace: string, k: nat)
    requires |workspace| > 0
    requires OccursAt(path, workspace, k)
    ensures forall j :: !OccursAt(RelativeToWorkspace(path, workspace), workspace, j)
  {
    assert LastIndexOf(path, workspace).Some?;
    var last := LastIndexOf(path, workspace).value;
    var tail := path[last + |workspace|..];
    assert RelativeToWorkspace(path, workspace) == tail;
    forall j | OccursAt(tail, workspace, j)
      ensures false
    {
      OccursInSuffix(path, workspace, last + |workspace|, j);
    }
  }

  /** A path that starts with the workspace path, and mentions it nowhere
      else, loses exactly that prefix. */
  lemma WorkspacePrefixStripped(workspace: string, relative: string)
    requires forall j :: 0 < j ==> !OccursAt(workspace + relative, workspace, j)
    ensures RelativeToWorkspace(workspace + relative, workspace) == relative
  {
    assert (workspace + relative)[..|workspace|] == workspace;
    assert OccursAt(workspace + relative, workspace, 0);
  }

  /** `createBugInstance`: the report name is always recorded; an unreadable
      report yields a record with nothing else set; a readable report gets
      the four marker values, the BUGFILE one made workspace-relative; and a
      readable report without a BUGFILE marker makes construction fail. */
  function CreateBugInstance(report: Report, workspace: string): (r: Result<Bug, Fault>)
    ensures r.Success? ==> r.value.reportFile == report.name && r.value.newBug == FreshNewBug
    ensures report.contents.None? ==> r == Success(Bug(report.name, None, None, None, None, FreshNewBug))
    ensures r.Failure? <==> report.contents.Some? && GetMatch(BugFile, report.contents.value).None?
    ensures report.contents.Some? && r.Success? ==>
      var text := report.contents.value;
      && r.value.bugDescription == GetMatch(BugDesc, text)
      && r.value.bugType == GetMatch(BugType, text)
      && r.value.bugCategory == GetMatch(BugCategory, text)
      && r.value.sourceFile.Some?
      && IsSuffix(r.value.sourceFile.value, GetMatch(BugFile, text).value)
      && r.value.sourceFile == Some(RelativeToWorkspace(GetMatch(BugFile, text).value, workspace))
  {
    match report.contents
    case None => Success(Bug(report.name, None, None, None, None, FreshNewBug))
    case Some(text) =>
      match GetMatch(BugFile, text)
      case None => Failure(NullPointer)
      case Some(sourceFile) =>
        Success(Bug(
          report.name,
          GetMatch(BugDesc, text),
          GetMatch(BugType, text),
          GetMatch(BugCategory, text),
          Some(RelativeToWorkspace(sourceFile, workspace)),
          FreshNewBug))
  }

  /** A readable report whose BUGFILE marker line is the first mention of
      BUGFILE yields a record whose source file is the written path, made
      relative to the workspace. */
  lemma BugFileRoundTrip(name: string, pre: string, path: string, rest: string, workspace: string)
    requires forall k :: !OccursAt(pre, BugFile.Keyword(), k)
    requires forall k :: 0 <= k < |path| ==> !IsLineTerminator(path[k])
    requires |rest| == 0 || (IsLineTerminator(rest[0]) && !(IsSpace(rest[0]) && OccursAt(rest, Close, 1)))
    ensures CreateBugInstance(Report(name, Some(pre + MarkerLine(BugFile, path) + rest)), workspace).Success?
    ensures CreateBugInstance(Report(name, Some(pre + MarkerLine(BugFile, path) + rest)), workspace).value.sourceFile
         == Some(RelativeToWorkspace(path, workspace))
  {
    MarkerLineRoundTrip(BugFile, pre, path, rest);
  }
}
