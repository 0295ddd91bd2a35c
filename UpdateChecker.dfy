/**
 * The update checker object: a one-shot background task that fetches the remote version and
 * compares it with the local one, a memoised answer read by `isUpdateNeeded`, the remote version
 * read by `getVersion`, and the console lines it logs. The background task is one atomic step,
 * `RunTask`, whose input is what the fetch and the XML parsing produced.
 */
module UpdateCheckers {
  import opened Wrappers
  import opened VersionCheck

  /** A line logged to the server console, without its text. */
  datatype LogEntry = CheckingInfo | UpdateWarning(version: string) | CheckError

  /** What `updateCheckerFutureTask` holds: no task, a task still running, or a task done with its outcome. */
  datatype TaskStatus = NotLaunched | Running | Done(outcome: CheckOutcome)

  /** How a call to `isUpdateNeeded` ends: a boolean, or a NullPointerException. */
  datatype Answer = Answered(value: bool) | NullPointer

  ghost predicate HasWarning(log: seq<LogEntry>)
  {
    exists k :: 0 <= k < |log| && log[k].UpdateWarning?
  }

  class UpdateChecker {
    /** The local plugin version, as the plugin description gives it. */
    const localVersion: string
    /** The remote version parsed from the descriptor; None until the task has read it. */
    var version: Option<string>
    /** The memoised answer: None until a query sees the task done. */
    var updateNeeded: Option<bool>
    var task: TaskStatus
    var log: seq<LogEntry>

    /**
     * Nothing happens before a task is launched; an update is memoised only after the warning was
     * logged; the error line is logged at most once, and only together with a memoised false.
     */
    ghost predicate Valid()
      reads this
    {
      && (task.NotLaunched? ==> version.None? && updateNeeded.None? && log == [])
      && (updateNeeded == Some(true) || task == Done(Returned(true)) ==> HasWarning(log))
      && (CheckError in log ==> updateNeeded == Some(false))
      && multiset(log)[CheckError] <= 1
    }

    constructor (localVersion: string)
      ensures Valid()
      ensures this.localVersion == localVersion
      ensures version.None? && updateNeeded.None? && task.NotLaunched? && log == []
    {
      this.localVersion := localVersion;
      version := None;
      updateNeeded := None;
      task := NotLaunched;
      log := [];
    }

    /** Starts a new background task; a memoised answer and an earlier remote version are kept. */
    method LaunchUpdateCheckerTask()
      requires Valid()
      modifies this`task
      ensures Valid()
      ensures task == Running
    {
      task := Running;
    }

    /**
     * The background task runs to completion: `fetched` is the text of the first version tag of
     * the descriptor, or None when the URL, the connection or the XML parsing failed.
     */
    method RunTask(fetched: Option<string>)
      requires Valid() && task.Running?
      modifies this`task, this`version, this`log
      ensures Valid()
      ensures version == (if fetched.Some? then fetched else old(version))
      ensures updateNeeded == old(updateNeeded)
      ensures var outcome := if fetched.None? then Raised else Decide(localVersion, fetched.value);
        && task == Done(outcome)
        && log == old(log) + [CheckingInfo] + (if outcome == Returned(true) then [UpdateWarning(fetched.value)] else [])
    {
      ghost var before := log;
      var outcome := CheckForUpdate(fetched);
      task := Done(outcome);
      assert outcome == Returned(true) ==> log[|log| - 1].UpdateWarning?;
      if HasWarning(before) {
        var k :| 0 <= k < |before| && before[k].UpdateWarning?;
        assert log[k] == before[k];
      }
    }

    /**
     * Logs the starting line, records the remote version and compares it with the local one,
     * logging the warning on exactly the paths that return true.
     */
    method CheckForUpdate(fetched: Option<string>) returns (r: CheckOutcome)
      modifies this`version, this`log
      ensures version == (if fetched.Some? then fetched else old(version))
      ensures r == (if fetched.None? then Raised else Decide(localVersion, fetched.value))
      ensures log == old(log) + [CheckingInfo] + (if r == Returned(true) then [UpdateWarning(fetched.value)] else [])
    {
      log := log + [CheckingInfo];
      if fetched.None? {
        return Raised;
      }
      version := fetched;
      var remote := fetched.value;
      if remote == localVersion {
        return Returned(false);
      }
      var pluginVersion := JavaText.Split(localVersion);
      var onlineVersion := JavaText.Split(remote);
      var n := if |pluginVersion| < |onlineVersion| then |pluginVersion| else |onlineVersion|;
      for i := 0 to n
        invariant CompareSegments(pluginVersion[i..], onlineVersion[i..]) == Decide(localVersion, remote)
        invariant log == old(log) + [CheckingInfo] && version == fetched
      {
        assert pluginVersion[i..][0] == pluginVersion[i] && onlineVersion[i..][0] == onlineVersion[i];
        assert pluginVersion[i..][1..] == pluginVersion[i + 1..] && onlineVersion[i..][1..] == onlineVersion[i + 1..];
        var a, b := JavaText.ParseInt(pluginVersion[i]), JavaText.ParseInt(onlineVersion[i]);
        if a.None? || b.None? {
          return Raised;
        }
        if a.value > b.value {
          return Returned(false);
        } else if a.value < b.value {
          LogUpdate();
          return Returned(true);
        }
      }
      assert pluginVersion[n..] == [] || onlineVersion[n..] == [];
      if |pluginVersion| < |onlineVersion| {
        LogUpdate();
        return Returned(true);
      }
      return Returned(false);
    }

    method LogUpdate()
      requires version.Some?
      modifies this`log
      ensures log == old(log) + [UpdateWarning(version.value)]
    {
      log := log + [UpdateWarning(version.value)];
    }

    /**
     * `isUpdateNeeded` as written: false while the task runs, the memoised answer once the task
     * is done, an error collapsed to false and logged once; with no task launched and nothing
     * memoised it dereferences the missing task.
     */
    method IsUpdateNeeded() returns (a: Answer)
      requires Valid()
      modifies this`updateNeeded, this`log
      ensures Valid()
      ensures old(updateNeeded).Some? ==>
        a == Answered(old(updateNeeded).value) && updateNeeded == old(updateNeeded) && log == old(log)
      ensures old(updateNeeded).None? && task.NotLaunched? ==>
        a == NullPointer && updateNeeded.None? && log == old(log)
      ensures old(updateNeeded).None? && task.Running? ==>
        a == Answered(false) && updateNeeded.None? && log == old(log)
      ensures old(updateNeeded).None? && task.Done? && task.outcome.Returned? ==>
        a == Answered(task.outcome.updateNeeded) && updateNeeded == Some(task.outcome.updateNeeded) && log == old(log)
      ensures old(updateNeeded).None? && task == Done(Raised) ==>
        a == Answered(false) && updateNeeded == Some(false) && log == old(log) + [CheckError]
    {
      if updateNeeded.None? {
        match task
        case NotLaunched =>
          return NullPointer;
        case Running =>
          return Answered(false);
        case Done(Returned(b)) =>
          updateNeeded := Some(b);
        case Done(Raised) =>
          updateNeeded := Some(false);
          log := log + [CheckError];
      }
      return Answered(updateNeeded.value);
    }

    /** `isUpdateNeeded` as its comment documents it: false when no task was ever launched. */
    method IsUpdateNeededAsDocumented() returns (b: bool)
      requires Valid()
      modifies this`updateNeeded, this`log
      ensures Valid()
      ensures old(updateNeeded).Some? ==>
        b == old(updateNeeded).value && updateNeeded == old(updateNeeded) && log == old(log)
      ensures old(updateNeeded).None? && (task.NotLaunched? || task.Running?) ==>
        !b && updateNeeded.None? && log == old(log)
      ensures old(updateNeeded).None? && task.Done? && task.outcome.Returned? ==>
        b == task.outcome.updateNeeded && updateNeeded == Some(task.outcome.updateNeeded) && log == old(log)
      ensures old(updateNeeded).None? && task == Done(Raised) ==>
        !b && updateNeeded == Some(false) && log == old(log) + [CheckError]
    {
      if updateNeeded.None? && task.NotLaunched? {
        return false;
      }
      var a := IsUpdateNeeded();
      b := a.value;
    }

    /** `getVersion`: nothing before a task is launched, then the last remote version a task read. */
    function GetVersion(): (v: Option<string>)
      requires Valid()
      reads this
      ensures task.NotLaunched? ==> v.None?
    {
      version
    }
  }

  // ---------------------------------------------------------------- lifecycles

  /** Before the task completes, every query answers false and nothing is memoised. */
  method PendingLifecycle(local: string) returns (first: bool, second: bool, memo: Option<bool>)
    ensures !first && !second && memo.None?
  {
    var c := new UpdateChecker(local);
    c.LaunchUpdateCheckerTask();
    first := c.IsUpdateNeededAsDocumented();
    second := c.IsUpdateNeededAsDocumented();
    memo := c.updateNeeded;
  }

  /**
   * After a fetch that produced `remote`, every query gives the verdict of the comparison, the
   * remote version is visible, the warning is logged once on an update and the error once on a
   * comparison that raised.
   */
  method FetchedLifecycle(local: string, remote: string)
    returns (first: bool, second: bool, seen: Option<string>, warnings: nat, errors: nat)
    ensures first == (Decide(local, remote) == Returned(true)) && second == first
    ensures seen == Some(remote)
    ensures warnings == (if Decide(local, remote) == Returned(true) then 1 else 0)
    ensures errors == (if Decide(local, remote).Raised? then 1 else 0)
  {
    var c := new UpdateChecker(local);
    c.LaunchUpdateCheckerTask();
    c.RunTask(Some(remote));
    first := c.IsUpdateNeededAsDocumented();
    second := c.IsUpdateNeededAsDocumented();
    seen := c.GetVersion();
    warnings := multiset(c.log)[UpdateWarning(remote)];
    errors := multiset(c.log)[CheckError];
  }

  /** A failed fetch answers false on every query, leaves no remote version and logs one error. */
  method FailedFetchLifecycle(local: string)
    returns (first: bool, second: bool, seen: Option<string>, errors: nat)
    ensures !first && !second
    ensures seen.None? && errors == 1
  {
    var c := new UpdateChecker(local);
    c.LaunchUpdateCheckerTask();
    c.RunTask(None);
    first := c.IsUpdateNeededAsDocumented();
    second := c.IsUpdateNeededAsDocumented();
    seen := c.GetVersion();
    errors := multiset(c.log)[CheckError];
  }

  /** With no task launched the code raises where its comment promises false. */
  method QueryBeforeLaunch(local: string) returns (asWritten: Answer, documented: bool)
    ensures asWritten == NullPointer && !documented
  {
    var c := new UpdateChecker(local);
    asWritten := c.IsUpdateNeeded();
    var d := new UpdateChecker(local);
    documented := d.IsUpdateNeededAsDocumented();
  }
}
