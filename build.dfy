/**
 * `GoShouldBuild`: must `go install` run for the package directory `name`?
 * The rule combines the template check, the time of "go.mod", the time of
 * the installed binary `GoBin/name` and the newest time among the ".go" files directly inside `name`.
 */
module Build {
  import opened Wrappers
  import opened Text
  import opened Timestamps
  import opened Qtc

  /**
   * What the engine observes of the filesystem at one moment: the times that
   * `os.Stat` reports, the walk of the package directory, and the paths that
   * `filepath.Glob` returns for the pattern "*.go" inside the package directory.
   */
  datatype Observed = Observed(fs: FileTimes, walk: seq<Entry>, goFiles: seq<string>)

  const GoMod := "go.mod"

  function GoModTime(obs: Observed): Millis {
    NewestMTime(obs.fs, [GoMod])
  }

  /** Time of the installed binary at `filepath.Join(goBin, name)`; 0 when it is missing. */
  function DestTime(goBin: string, name: string, obs: Observed): Millis {
    NewestMTime(obs.fs, [PathJoin(goBin, name)])
  }

  /** Newest time among the package's own ".go" files. */
  function SourcesTime(obs: Observed): Millis {
    NewestMTime(obs.fs, obs.goFiles)
  }

  /** True when the template check reports old or fails. */
  predicate TemplatesStale(obs: Observed) {
    var q := QtcVerdict(obs.fs, obs.walk);
    q.err.Some? || q.isOld
  }

  /**
   * yb.go's `GoShouldBuild`, with its final comparison exactly as the source writes it.
   * Apart from the templates, every reason to build needs a "go.mod" with a positive time.
   */
  predicate GoShouldBuild(goBin: string, name: string, obs: Observed)
    ensures GoShouldBuild(goBin, name, obs) ==> TemplatesStale(obs) || GoModTime(obs) > 0
  {
    var q := QtcVerdict(obs.fs, obs.walk);
    if q.err.Some? then true
    else if q.isOld then true
    else
      var goModTime := GoModTime(obs);
      var destTime := DestTime(goBin, name, obs);
      if destTime != 0 && destTime < goModTime then true
      else
        var maxTime := SourcesTime(obs);
        maxTime < goModTime || (destTime != 0 && destTime < goModTime)
  }

  /** Stale or unreadable templates force a build whatever the other times are. */
  lemma StaleTemplatesForceBuild(goBin: string, name: string, obs: Observed)
    requires TemplatesStale(obs)
    ensures GoShouldBuild(goBin, name, obs)
  {
  }

  /**
   * The whole rule in one formula. Past the template check it builds exactly when the
   * installed binary exists and is older than "go.mod", or when every ".go" file of the
   * package is older than "go.mod". The second disjunct of the final comparison does not
   * appear: the earlier test on the same condition already returned true.
   */
  lemma ShouldBuildRule(goBin: string, name: string, obs: Observed)
    ensures GoShouldBuild(goBin, name, obs) <==>
            TemplatesStale(obs) ||
            (DestTime(goBin, name, obs) != 0 && DestTime(goBin, name, obs) < GoModTime(obs)) ||
            SourcesTime(obs) < GoModTime(obs)
  {
  }

  /** Without "go.mod" (time 0) nothing but the templates can trigger a build. */
  lemma NoGoModNoBuild(goBin: string, name: string, obs: Observed)
    requires !TemplatesStale(obs)
    requires GoMod !in obs.fs
    ensures !GoShouldBuild(goBin, name, obs)
  {
    NewestOfMissing(obs.fs, [GoMod]);
  }

  /**
   * An installed binary that is at least as new as "go.mod", in a package with one
   * ".go" file at least as new as "go.mod", is never rebuilt, however much newer that
   * file is than the binary. The source files are compared with "go.mod", not with
   * the binary.
   */
  lemma NewerSourceDoesNotRebuild(goBin: string, name: string, obs: Observed, src: string)
    requires !TemplatesStale(obs)
    requires DestTime(goBin, name, obs) >= GoModTime(obs)
    requires src in obs.goFiles && src in obs.fs && obs.fs[src] >= GoModTime(obs)
    ensures !GoShouldBuild(goBin, name, obs)
  {
    NewestIsMaximum(obs.fs, obs.goFiles);
  }

  /**
   * A missing installed binary alone does not trigger a build: when the binary is
   * absent, the rule builds only if the ".go" files are all older than "go.mod".
   */
  lemma MissingBinaryRule(goBin: string, name: string, obs: Observed)
    requires !TemplatesStale(obs)
    requires PathJoin(goBin, name) !in obs.fs
    ensures GoShouldBuild(goBin, name, obs) <==> SourcesTime(obs) < GoModTime(obs)
  {
    NewestOfMissing(obs.fs, [PathJoin(goBin, name)]);
  }
}
