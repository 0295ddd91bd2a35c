# Update checker: segment-wise version comparison and memoised answer

This project models the core of `UpdateChecker`, a Bukkit plugin helper. It reads the `version`
tag of a remote `pom.xml` in a background task and compares that version with the plugin's own
version, segment by segment, so that 2.0, 1.2 and 1.1.1 are all newer than 1.1. It memoises the
answer for `isUpdateNeeded`, which the server can call at any time after the task is launched
and which never blocks.

The model has five modules:

- `JavaText` gives two Java library calls as functions. `Split` is `String.split("\\.")`: trailing
  empty pieces are removed, and a string with no dot is its own single piece. `ParseInt` is
  `Integer.parseInt`: an optional sign, at least one ASCII digit, and a value in the 32-bit range.
  The partners are `Join` and `IntToString`, with round-trip lemmas.
- `VersionOrder` gives the order on parsed versions (`Newer`). It is proved equal to the
  "first differing segment, or proper prefix" statement, and proved to be a strict total order.
- `VersionCheck` gives the verdict of `checkForUpdate` on two strings (`Decide`). It keeps the
  textual-equality fast path. It also keeps the Java loop's lazy parsing: a segment is parsed only
  when the walk reaches it, so `1.x` against `2.y` returns true and never raises.
- `UpdateCheckers` gives the `UpdateChecker` class. Its fields are the remote `version`, the
  memoised `updateNeeded`, the task status and the console log. `CheckForUpdate` keeps the source's
  `for` loop with its early returns, proved equal to `Decide`. `IsUpdateNeeded` keeps the
  null/true/false memoisation. The background thread is one atomic step, `RunTask`. Its input is
  what the network fetch and the XML parsing produced: `None` when they failed.
- `Wrappers` holds `Option`.

The model follows the code in these details, which a reader of the comments might not expect:

- A non-numeric segment raises only when the loop reaches it, not whenever it is present.
- The error line is logged by the first `isUpdateNeeded` call after the task is done, not by the
  task itself. If nobody asks, nothing is logged.
- `getVersion` returns, after a failed comparison, the remote version that the task had already
  stored (line 157 runs before the comparison).
- Calling `launchUpdateCheckerTask` again keeps the memoised answer once an answer is memoised,
  so a second task's result is then never read. If no answer was memoised yet, the next query
  reads the second task's result.

## Model

| member | source | states |
|---|---|---|
| `JavaText.Split` | src/main/java/com/hm/mcshared/update/UpdateChecker.java:163-166 | no piece of the split contains a dot |
| `JavaText.SplitJoin` | src/main/java/com/hm/mcshared/update/UpdateChecker.java:163-166 | splitting a version that does not end in a dot loses nothing: joining the pieces with dots gives it back |
| `JavaText.JoinSplit` | src/main/java/com/hm/mcshared/update/UpdateChecker.java:163-166 | joining dot-free segments and splitting again gives the same segments, empty middle ones included, when the last one is nonempty or the only one |
| `JavaText.ParseInt` | src/main/java/com/hm/mcshared/update/UpdateChecker.java:170-172 | a parsed segment is a 32-bit integer, and it comes from a nonempty string with no dot |
| `JavaText.ParseIntToString` | src/main/java/com/hm/mcshared/update/UpdateChecker.java:170-172 | every 32-bit integer is read back from its decimal text |
| `VersionOrder.NewerCharacterization` | src/main/java/com/hm/mcshared/update/UpdateChecker.java:169-184 | remote is newer exactly when the first differing overlapping segment is larger remotely, or when the local segments are a proper prefix of the remote ones (both directions) |
| `VersionOrder.NewerIrreflexive` | src/main/java/com/hm/mcshared/update/UpdateChecker.java:169-184 | a version is never an update over itself |
| `VersionOrder.NewerAsymmetric` | src/main/java/com/hm/mcshared/update/UpdateChecker.java:169-184 | if b is an update over a, then a is not an update over b |
| `VersionOrder.NewerTransitive` | src/main/java/com/hm/mcshared/update/UpdateChecker.java:169-184 | the update relation is transitive |
| `VersionOrder.NewerTotal` | src/main/java/com/hm/mcshared/update/UpdateChecker.java:169-184 | of two different versions, one is always an update over the other |
| `VersionCheck.CompareSegments` | src/main/java/com/hm/mcshared/update/UpdateChecker.java:169-184 | the segment walk never raises when every overlapping pair of segments is an integer |
| `VersionCheck.Decide` | src/main/java/com/hm/mcshared/update/UpdateChecker.java:159-184 | textually equal versions mean no update, whatever the text; an exception means some overlapping segment is not an integer |
| `VersionCheck.ParseAll` | src/main/java/com/hm/mcshared/update/UpdateChecker.java:170 | all segments parse exactly when each one does, and the values are the segments' parsed values in order |
| `VersionCheck.CompareSegmentsMatchesOrder` | src/main/java/com/hm/mcshared/update/UpdateChecker.java:169-184 | on segments that all parse, the walk returns exactly the version order `Newer` |
| `VersionCheck.DecideMatchesOrder` | src/main/java/com/hm/mcshared/update/UpdateChecker.java:159-184 | for well-formed version strings, the verdict is "update needed" exactly when the remote version is newer |
| `VersionCheck.FirstDifferenceDecides` | src/main/java/com/hm/mcshared/update/UpdateChecker.java:169-176 | when the pairs up to index j parse, those before j are equal and the pair at j differs, the pair at j decides whatever follows: update exactly when the remote segment is larger |
| `VersionCheck.EqualOverlapDecidesByLength` | src/main/java/com/hm/mcshared/update/UpdateChecker.java:178-184 | when every overlapping pair parses to equal values, update exactly when the remote version has more segments |
| `VersionCheck.CompareSegmentsSwap` | src/main/java/com/hm/mcshared/update/UpdateChecker.java:169-184 | swapping the two versions keeps whether the walk raises, and turns an update into no update |
| `VersionCheck.DecideAntisymmetric` | src/main/java/com/hm/mcshared/update/UpdateChecker.java:159-184 | for all strings: an update one way is no update the other way, and an exception one way is an exception the other way |
| `VersionCheck.DecideIrreflexive` | src/main/java/com/hm/mcshared/update/UpdateChecker.java:159-161 | a named corollary of `Decide`'s first ensures: a version string, numeric or not, is never an update over itself |
| `VersionCheck.DocumentedExamples` | src/main/java/com/hm/mcshared/update/UpdateChecker.java:22-23 | 2.0, 1.2 and 1.1.1 are all updates over 1.1 |
| `VersionCheck.LengthAndOrderExamples` | src/main/java/com/hm/mcshared/update/UpdateChecker.java:169-184 | 1.1.1 is no update over 1.2, 1.2 none over 2.0, 1.2 none over 1.2.0, and 2.2.1 is an update over 2.2 |
| `VersionCheck.LazyParsingExamples` | src/main/java/com/hm/mcshared/update/UpdateChecker.java:169-176 | 2.y is an update over 1.x without raising; 1.0 against 1.0-SNAPSHOT raises at the second segment |
| `UpdateCheckers.UpdateChecker.constructor` | src/main/java/com/hm/mcshared/update/UpdateChecker.java:44-67 | a new checker has no task, no remote version, no memoised answer and an empty log |
| `UpdateCheckers.UpdateChecker.LaunchUpdateCheckerTask` | src/main/java/com/hm/mcshared/update/UpdateChecker.java:86-97 | a new task is running; the memoised answer and the remote version are kept |
| `UpdateCheckers.UpdateChecker.RunTask` | src/main/java/com/hm/mcshared/update/UpdateChecker.java:86-97 | the task becomes done with the verdict of the comparison, or with an exception when the fetch failed; it stores the remote version and logs as `CheckForUpdate` does |
| `UpdateCheckers.UpdateChecker.CheckForUpdate` | src/main/java/com/hm/mcshared/update/UpdateChecker.java:146-185 | the loop returns exactly `Decide`; the starting line is logged first; the update warning is logged exactly on the paths that return true; the remote version is stored once the fetch succeeded |
| `UpdateCheckers.UpdateChecker.LogUpdate` | src/main/java/com/hm/mcshared/update/UpdateChecker.java:190-192 | one warning naming the remote version is appended to the log |
| `UpdateCheckers.UpdateChecker.IsUpdateNeeded` | src/main/java/com/hm/mcshared/update/UpdateChecker.java:105-125 | a memoised answer is returned again and never changed; a running task gives false and memoises nothing; a finished task's result is memoised; an exception is memoised as false and logged once; with no task and nothing memoised the call raises NullPointerException |
| `UpdateCheckers.UpdateChecker.IsUpdateNeededAsDocumented` | src/main/java/com/hm/mcshared/update/UpdateChecker.java:99-125 | as `IsUpdateNeeded`, except that with no task launched it returns false |
| `UpdateCheckers.UpdateChecker.GetVersion` | src/main/java/com/hm/mcshared/update/UpdateChecker.java:127-135 | nothing is returned before a task is launched |
| `UpdateCheckers.PendingLifecycle` | src/main/java/com/hm/mcshared/update/UpdateChecker.java:118-121 | while the task runs, repeated queries return false and memoise nothing |
| `UpdateCheckers.FetchedLifecycle` | src/main/java/com/hm/mcshared/update/UpdateChecker.java:105-125 | after a successful fetch, both queries give the comparison's verdict and the remote version is visible; a true verdict logs one warning, and a comparison that raised logs one error |
| `UpdateCheckers.FailedFetchLifecycle` | src/main/java/com/hm/mcshared/update/UpdateChecker.java:111-117 | after a failed fetch, every query returns false, no remote version is visible and exactly one error is logged |
| `UpdateCheckers.QueryBeforeLaunch` | src/main/java/com/hm/mcshared/update/UpdateChecker.java:99-108 | on a checker whose task was never launched, the code raises and the documented behaviour returns false |

## Left out

- The network fetch and the XML parsing (lines 149-157) are not modelled: `RunTask` takes the
  text of the first version tag as a parameter, or `None` when the URL, the connection, the
  parser or a missing tag raised.
- Threads, `FutureTask`, `Callable` and `volatile` (lines 42-47, 86-97) are not modelled:
  the background task is one atomic step. So the model leaves out the short window in which
  `getVersion` already returns the remote version while `isUpdateNeeded` still sees the task
  running. It also leaves out a task started by an earlier launch that completes after a later
  launch.
- `InterruptedException` from `get()` is not modelled: `get()` is called only after `isDone()`,
  so it does not wait.
- The `onPlayerJoin` listener, the permission check and the chat message (lines 74-81) are host
  API and display, and are not modelled.
- Log text and the logger calls are not modelled: the log is a sequence of `CheckingInfo`,
  `UpdateWarning(version)` and `CheckError` entries.
- JavaText.ParseInt: treats only the ASCII digits `0`-`9` as digits, whereas
  `Integer.parseInt` also accepts other Unicode decimal digits.
- UpdateCheckers.UpdateChecker.GetVersion: promises `None` only before the first launch. The
  comment's "null until the call has completed" does not hold for the code either: the version is
  stored before the comparison runs, and a relaunch keeps the earlier task's version.

## Findings

| source | as written | input that shows it | evidently intended | confidence | as-written member | corrected member |
|---|---|---|---|---|---|---|
| src/main/java/com/hm/mcshared/update/UpdateChecker.java:100-108 | `isUpdateNeeded` calls `updateCheckerFutureTask.isDone()` without a null check | a new checker whose `launchUpdateCheckerTask` was never called, queried once | return false, as the comment at lines 100-101 promises | high, not executed | `UpdateCheckers.UpdateChecker.IsUpdateNeeded` (and `UpdateCheckers.QueryBeforeLaunch`) | `UpdateCheckers.UpdateChecker.IsUpdateNeededAsDocumented` |
