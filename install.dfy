/**
 * `GoInstall` as a plan: which commands it issues, which errors it records
 * on the task, and what it returns. The commands are opaque actions that may
 * change the filesystem, so the template check sees the filesystem `before`
 * them and `GoShouldBuild` sees it `after` the template step (which may be as
 * it was before). How each command would exit is an input as well.
 */
module Install {
  import opened Wrappers
  import opened Text
  import opened Qtc
  import opened Build

  /** A command line and the directory it runs in (`None`: the current directory). */
  datatype Command = Command(args: seq<string>, dir: Option<string>)

  /**
   * An error reported on the task: the template check's error passed to `a.Error`,
   * or a command that `Run` saw fail, reported with `a.Errorf` together with its arguments.
   */
  datatype TaskError = CheckFailed(cause: Error) | CommandFailed(args: seq<string>, cause: Error)

  /** The commands issued in order, the errors reported on the task, and the returned bool. */
  datatype Outcome = Outcome(commands: seq<Command>, errors: seq<TaskError>, installed: bool)

  /** `qtc` without arguments, run inside the package directory. */
  function QtcCommand(name: string): (c: Command)
    ensures c.args == ["qtc"] && c.dir == Some(name)
  {
    Command(["qtc"], Some(name))
  }

  /** `go install` of `./name` (the last argument), stripped, with the build tags taken from BRUNO_CUS. */
  function InstallCommand(brunoCus: string, name: string): (c: Command)
    ensures |c.args| == 5 && c.args[..2] == ["go", "install"] && c.args[4] == "./" + name
    ensures c.dir == None && c != QtcCommand(name)
  {
    Command(["go", "install", "-ldflags=-s -w", "-tags=" + brunoCus, "./" + name], None)
  }

  /** What `Run` reports on the task when `c` exits with `exit`. */
  function RunErrors(c: Command, exit: Option<Error>): (r: seq<TaskError>)
    ensures |r| <= 1 && (r != [] <==> exit.Some?)
    ensures forall e :: e in r ==> e.CommandFailed? && e.args == c.args && Some(e.cause) == exit
  {
    if exit.Some? then [CommandFailed(c.args, exit.value)] else []
  }

  /**
   * yb.go's `GoInstall`; `force` is accepted and never read. `qtcExit` and `installExit`
   * are the errors `qtc` and `go install` would exit with (`None`: success); each is
   * used only when its command is issued.
   */
  function GoInstall(goBin: string, brunoCus: string, name: string, force: bool,
                     before: Observed, after: Observed,
                     qtcExit: Option<Error>, installExit: Option<Error>): (o: Outcome)
    ensures o.installed == GoShouldBuild(goBin, name, after)
    ensures InstallCommand(brunoCus, name) in o.commands <==> o.installed
    ensures QtcCommand(name) in o.commands <==> QtcVerdict(before.fs, before.walk) == QtcResult(true, None)
    ensures o.commands ==
            (if QtcVerdict(before.fs, before.walk) == QtcResult(true, None) then [QtcCommand(name)] else []) +
            (if o.installed then [InstallCommand(brunoCus, name)] else [])
    ensures o.errors ==
            (var q := QtcVerdict(before.fs, before.walk);
             if q.err.Some? then [CheckFailed(q.err.value)]
             else if q.isOld then RunErrors(QtcCommand(name), qtcExit)
             else []) +
            (if o.installed then RunErrors(InstallCommand(brunoCus, name), installExit) else [])
  {
    var q := QtcVerdict(before.fs, before.walk);
    var first :=
      if q.err.Some? then Outcome([], [CheckFailed(q.err.value)], false)
      else if q.isOld then Outcome([QtcCommand(name)], RunErrors(QtcCommand(name), qtcExit), false)
      else Outcome([], [], false);
    if GoShouldBuild(goBin, name, after) then
      var c := InstallCommand(brunoCus, name);
      Outcome(first.commands + [c], first.errors + RunErrors(c, installExit), true)
    else
      first
  }

  /** The `force` flag changes nothing. */
  lemma ForceIgnored(goBin: string, brunoCus: string, name: string, before: Observed, after: Observed,
                     qtcExit: Option<Error>, installExit: Option<Error>)
    ensures GoInstall(goBin, brunoCus, name, true, before, after, qtcExit, installExit) ==
            GoInstall(goBin, brunoCus, name, false, before, after, qtcExit, installExit)
  {
  }

  /** A failing `go install` is reported on the task, and `GoInstall` still returns true. */
  lemma FailedInstallStillTrue(goBin: string, brunoCus: string, name: string, force: bool,
                               before: Observed, after: Observed,
                               qtcExit: Option<Error>, cause: Error)
    requires GoShouldBuild(goBin, name, after)
    ensures var o := GoInstall(goBin, brunoCus, name, force, before, after, qtcExit, Some(cause));
            o.installed && o.errors[|o.errors| - 1] == CommandFailed(InstallCommand(brunoCus, name).args, cause)
  {
  }

  /**
   * A template whose `Info` fails is reported as an error, `qtc` is not run, and since
   * nothing changed the filesystem, `GoShouldBuild` meets the same failure and installs.
   */
  lemma InfoErrorReportedAndInstalls(goBin: string, brunoCus: string, name: string, force: bool,
                                     obs: Observed, k: nat, qtcExit: Option<Error>)
    requires k < |obs.walk| && IsTemplate(obs.walk[k]) && obs.walk[k].info.InfoError?
    requires forall j :: 0 <= j < k ==> !Stops(obs.fs, obs.walk[j])
    ensures GoInstall(goBin, brunoCus, name, force, obs, obs, qtcExit, None) ==
            Outcome([InstallCommand(brunoCus, name)], [CheckFailed(obs.walk[k].info.cause)], true)
  {
    InfoErrorAborts(obs.fs, obs.walk, k);
  }

  /** With no template anywhere and no "go.mod", nothing is run, nothing is reported and nothing is installed. */
  lemma NothingToDo(goBin: string, brunoCus: string, name: string, force: bool, obs: Observed,
                    qtcExit: Option<Error>, installExit: Option<Error>)
    requires forall i :: 0 <= i < |obs.walk| ==> !IsTemplate(obs.walk[i])
    requires GoMod !in obs.fs
    ensures GoInstall(goBin, brunoCus, name, force, obs, obs, qtcExit, installExit) == Outcome([], [], false)
  {
    NoTemplatesIsFresh(obs.fs, obs.walk);
    NoGoModNoBuild(goBin, name, obs);
  }

  /** A stale template is regenerated first; when `qtc` leaves it stale, the package is installed too. */
  lemma StaleTemplateRegeneratesFirst(goBin: string, brunoCus: string, name: string, force: bool,
                                      before: Observed, after: Observed, k: nat)
    requires k < |before.walk| && Stops(before.fs, before.walk[k]) && before.walk[k].info.Info?
    requires forall j :: 0 <= j < k ==> !Stops(before.fs, before.walk[j])
    requires after == before
    ensures GoInstall(goBin, brunoCus, name, force, before, after, None, None) ==
            Outcome([QtcCommand(name), InstallCommand(brunoCus, name)], [], true)
  {
    FirstOffenderWins(before.fs, before.walk, k);
  }

  /**
   * The usual outcome of regenerating: when `qtc` leaves the templates fresh, no binary is
   * installed and some ".go" file is at least as new as "go.mod", only `qtc` runs and
   * `GoInstall` returns false. Regenerating does not by itself lead to an install.
   */
  lemma RegeneratedWithoutBinaryNotInstalled(goBin: string, brunoCus: string, name: string, force: bool,
                                             before: Observed, after: Observed, k: nat)
    requires k < |before.walk| && Stops(before.fs, before.walk[k]) && before.walk[k].info.Info?
    requires forall j :: 0 <= j < k ==> !Stops(before.fs, before.walk[j])
    requires !TemplatesStale(after)
    requires PathJoin(goBin, name) !in after.fs
    requires SourcesTime(after) >= GoModTime(after)
    ensures GoInstall(goBin, brunoCus, name, force, before, after, None, None) ==
            Outcome([QtcCommand(name)], [], false)
  {
    FirstOffenderWins(before.fs, before.walk, k);
    MissingBinaryRule(goBin, name, after);
  }
}
