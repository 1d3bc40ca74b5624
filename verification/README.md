# Clang scan-build publisher: bug extraction and novelty marking

This project models the core of the Jenkins clang-scanbuild plugin's
publisher (`ClangScanBuildPublisher`). After a build, the publisher reads
each scan-build HTML report. From four comment markers (`BUGTYPE`,
`BUGDESC`, `BUGFILE`, `BUGCATEGORY`) it builds one bug record per report,
and it shortens the reported source path so that it is relative to the
workspace. It then marks each bug as new or not against the previous
build's bug summary. It collects the bugs into a summary tagged with the
build number, and it lets a threshold check decide whether the build
becomes UNSTABLE.

The model is written in Dafny. Its modules:

- `Wrappers`: `Option` (a Java reference that may be null) and `Result` (a
  call that may end in an exception that escapes).
- `Text`: Java's `String.lastIndexOf`, stated over `seq<char>`. The empty
  needle is found at the end of the string.
- `Markers`: the patterns `<!--\sKEYWORD\s(.*)\s-->` and `getMatch`.
  - A match is defined declaratively (`MatchAt`, `IsLeftmostGreedy`).
  - The search is computed: scan start positions upward, then backtrack the
    greedy `.*` downward from the end of the line.
  - The contracts prove that the search returns the group of the leftmost
    match, with the longest group at that start, and `None` exactly when no
    match exists.
  - `\s` is Java's default class: space, tab, newline, vertical tab, form
    feed, carriage return. `.` rejects `\n`, `\r`, U+0085, U+2028 and U+2029.
- `BugRecords`: the bug record, `createBugInstance` and the workspace path
  shortening.
- `Publisher`: the previous-summary lookup, novelty marking, the report
  file-name filter and the `perform` loop.

Three behaviours of the code that are easy to miss:

- A readable report with no `BUGFILE` marker does not give a record with
  empty fields. `lastIndexOf` is called on the null value, and the
  resulting `NullPointerException` is not caught by the `IOException`
  handler. So bug construction fails and the run is aborted
  (`Fault.NullPointer`).
- Extracted values are not trimmed. Exactly one whitespace character is
  consumed on each side of the group. Because the group is greedy, it runs
  to the last `\s-->` reachable on its line. That closing whitespace may be
  the line break itself, so a next line that starts with `-->` closes the
  match.
- Without a previous summary, the novelty flag keeps the value it had when
  the bug was constructed.

## Model

| member | source | states |
|---|---|---|
| `Markers.GetMatch` | src/main/java/jenkins/plugins/clangscanbuild/publisher/ClangScanBuildPublisher.java:203-209 | the result is `None` exactly when the marker pattern matches nowhere in the text; otherwise it is group 1 of the leftmost match, made as long as the greedy `.*` allows at that start |
| `Markers.FindFrom` | src/main/java/jenkins/plugins/clangscanbuild/publisher/ClangScanBuildPublisher.java:204-208 | scanning from start index `i` finds a span iff a match starts at or after `i`; the span reported is a match with no match starting between `i` and it, and no longer group at its own start |
| `Markers.LongestMatchAt` | src/main/java/jenkins/plugins/clangscanbuild/publisher/ClangScanBuildPublisher.java:37-40 | at one start position the pattern yields a group end iff some match starts there, and the end yielded is the greatest any match at that start allows |
| `Markers.LastTail` | src/main/java/jenkins/plugins/clangscanbuild/publisher/ClangScanBuildPublisher.java:37-40 | backtracking `(.*)\s-->` from a candidate end returns the greatest end at or below it where the tail matches, or `None` when none does |
| `Markers.LineEnd` | src/main/java/jenkins/plugins/clangscanbuild/publisher/ClangScanBuildPublisher.java:37-40 | the first line terminator at or after a position bounds how far `.` can reach |
| `Markers.LeftmostGreedyIsUnique` | src/main/java/jenkins/plugins/clangscanbuild/publisher/ClangScanBuildPublisher.java:203-209 | two matches that are each leftmost and greedy are the same match, so the value `getMatch` reports is determined by the text |
| `Markers.GetMatchIsBracketed` | src/main/java/jenkins/plugins/clangscanbuild/publisher/ClangScanBuildPublisher.java:37-40 | an extracted value contains no line terminator, and it appears in the text as `<!--`, whitespace, keyword, whitespace, the value, whitespace, `-->`, untrimmed |
| `Markers.MarkerLineRoundTrip` | src/main/java/jenkins/plugins/clangscanbuild/publisher/ClangScanBuildPublisher.java:37-40 | writing the marker line `<!-- KEYWORD v -->` as the keyword's first mention, followed by a line break, and then extracting gives back `v` |
| `Text.LastIndexOf` | src/main/java/jenkins/plugins/clangscanbuild/publisher/ClangScanBuildPublisher.java:190 | `lastIndexOf` answers the greatest index where the needle occurs, and -1 (`None`) exactly when it occurs nowhere |
| `Text.LastIndexOfEmpty` | src/main/java/jenkins/plugins/clangscanbuild/publisher/ClangScanBuildPublisher.java:190 | an empty workspace path is found at the end of the source path |
| `BugRecords.RelativeToWorkspace` | src/main/java/jenkins/plugins/clangscanbuild/publisher/ClangScanBuildPublisher.java:188-193 | the shortened path is always a suffix of the original: exactly what follows the last occurrence of the workspace path, or the unchanged path when that does not occur |
| `BugRecords.RelativePathIsFreeOfWorkspace` | src/main/java/jenkins/plugins/clangscanbuild/publisher/ClangScanBuildPublisher.java:190-193 | after shortening, a non-empty workspace path no longer occurs in the result |
| `BugRecords.EmptyWorkspaceStripsEverything` | src/main/java/jenkins/plugins/clangscanbuild/publisher/ClangScanBuildPublisher.java:190-193 | an empty workspace path turns every source path into the empty string |
| `BugRecords.WorkspacePrefixStripped` | src/main/java/jenkins/plugins/clangscanbuild/publisher/ClangScanBuildPublisher.java:190-193 | a path that starts with the workspace path and mentions it nowhere else loses exactly that prefix |
| `BugRecords.CreateBugInstance` | src/main/java/jenkins/plugins/clangscanbuild/publisher/ClangScanBuildPublisher.java:176-201 | the report name is always recorded; an unreadable report yields a record with no other field set; a readable one carries the description, type and category markers and, as source path, the BUGFILE value made relative to the workspace (hence a suffix of it); construction fails exactly when a readable report has no BUGFILE match |
| `BugRecords.BugFileRoundTrip` | src/main/java/jenkins/plugins/clangscanbuild/publisher/ClangScanBuildPublisher.java:183-195 | a report whose BUGFILE marker line carries path `p` yields a record whose source file is `p` made relative to the workspace |
| `Publisher.BugSummaryForLastBuild` | src/main/java/jenkins/plugins/clangscanbuild/publisher/ClangScanBuildPublisher.java:146-154 | no previous build, or a previous build without a scan-build action, gives no previous summary; a previous build with a scan-build action gives exactly what that action loads, possibly nothing |
| `Publisher.LocateReports` | src/main/java/jenkins/plugins/clangscanbuild/publisher/ClangScanBuildPublisher.java:211-215 | a file is located iff it is among the files found and its name has the form `report-*.html` |
| `Publisher.MarkNovelty` | src/main/java/jenkins/plugins/clangscanbuild/publisher/ClangScanBuildPublisher.java:131-138 | with a previous summary, the bug is new iff that summary does not contain it; without one, the bug is returned unchanged; no field other than the flag changes |
| `Publisher.MarkNoveltyIdempotent` | src/main/java/jenkins/plugins/clangscanbuild/publisher/ClangScanBuildPublisher.java:133-136 | if membership ignores the flag, marking twice against the same summary equals marking once |
| `Publisher.CreateBugFromHtml` | src/main/java/jenkins/plugins/clangscanbuild/publisher/ClangScanBuildPublisher.java:131-138 | fails exactly when bug construction fails; otherwise it gives the constructed bug marked against the previous summary |
| `Publisher.BuildBugs` | src/main/java/jenkins/plugins/clangscanbuild/publisher/ClangScanBuildPublisher.java:107-110 | building bugs report by report fails iff some report fails to build; otherwise it yields one bug per report, in report order, each the one built from that report |
| `Publisher.Perform` | src/main/java/jenkins/plugins/clangscanbuild/publisher/ClangScanBuildPublisher.java:103-126 | the run fails iff some located report makes bug construction fail; otherwise the summary carries the build number and one bug per located report, in locator order, each named after its report and marked against the previous build's summary only; with no previous summary no bug is new; UNSTABLE is the threshold check's verdict on the bug count |

## Left out

- The Jenkins plumbing is not modelled: creating the workspace output folder (lines 140-144), resolving the artifacts folder, registering the action (120-121), the listener and logger output, the descriptor, the project action, and the getters and setters.
- `copyClangReportsToBuildArtifacts` (lines 161-174) is not modelled because it is a filesystem copy. It copies the first subfolder of the output folder and does nothing when there is none. Any exception during the copy is logged and swallowed.
- The traversal behind `locateClangBugReports` is not modelled. The files found are an input sequence in traversal order, and only the `report-*.html` name filter is modelled. Ant's default excludes are left out.
- Publisher.LocateReports: states which files are kept and that there are no more of them than were found. It does not state that their relative order is kept.
- Writing the summary as XML through XStream (lines 114-117) is left out because it is a foreign library. Its I/O failures are left out too.
- I/O failures of `perform` itself are left out: an `IOException` or `InterruptedException` while listing reports or writing the summary. The only failure modelled is the one bug construction raises.
- `ClangScanBuildBug`, `ClangScanBuildBugSummary` and `ClangScanBuildAction` are not part of this model, so their behaviour comes in as assumptions and parameters:
  - A fresh bug's novelty flag is Java's `boolean` default, false (`FreshNewBug`).
  - `add` appends.
  - `getBugCount` is the number of bugs.
  - `contains` is a parameter predicate.
  - What `loadBugSummary` returns is a field of the action, possibly null.
  - `buildFailedDueToExceededThreshold` is a parameter predicate of the bug count, the enable flag and the threshold.
- Publisher.Perform: the UNSTABLE verdict is stated as the threshold predicate's answer, not as `enabled && count > threshold`, because that predicate's body is not part of this model. Jenkins' rule that a build result can only get worse is not modelled.
- BugRecords.CreateBugInstance: when construction fails, the description, type and category already set on the discarded Java object are not represented, because the escaping exception discards that object.
- Java strings are UTF-16, while the model works on Unicode scalar values. The regex engine matches by code point, so the matches found, and the substrings extracted and stripped, correspond to those of the model, even though UTF-16 indices differ from code-point indices once a supplementary character appears. Unpaired surrogates are not modelled.
