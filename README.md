# yb incremental-build decisions, modelled in Dafny

`yb.go` decides per Go package directory `name` whether the quicktemplate
sources (`*.qtpl`) must be regenerated by `qtc` and whether `go install` must
run. It decides by comparing modification times. This project models these
decisions over an abstract filesystem: a map from each path that `os.Stat` can
see to its modification time in Unix milliseconds (the `int64` range). A path
that is not in the map is one whose `Stat` fails.

- `Timestamps` — `MTime`, a loop proved to return the maximum of 0 and the
  times of the existing paths. Order independence and monotonicity follow as
  lemmas.
- `Qtc` — `QtcIsOld`, the directory walk with its callback inlined and its
  early exits. The walk is given as a sequence of entries
  `(path, isRegular, Info() result)` in walk order. The method is proved
  against a reference definition, `QtcVerdict`: the first template that fails
  `Info()` or is newer than its `.go` companion decides the result.
- `Build` — `GoShouldBuild`, exactly as the source writes it, including the
  second disjunct of its last line, which an earlier test already covers. As
  written, the package's `.go` files are compared with `go.mod` and not with
  the installed binary. So a source file edited after the last install does
  not, by itself, cause a rebuild (`NewerSourceDoesNotRebuild`).
- `Deps` — the line filter of `GoDeps`: a loop over the `\n`-separated lines
  of the `go list` output, proved to keep, in order, exactly the suffixes of
  the lines that start with `unosoft.hu/sysutils/`.
- `Install` — `GoInstall` as a plan: the commands it issues, the errors it
  reports on the task (the template check's error through `a.Error`, and a
  failing command through `Run`'s `a.Errorf`), and its result. The template
  check sees the filesystem before `qtc`. `GoShouldBuild` sees it after
  `qtc`. How `qtc` and `go install` exit is an input.
- `Text` — the library operations used: `strings.HasSuffix`,
  `bytes.CutPrefix`, `bytes.Split` on `"\n"` (with its inverse, proved a
  round trip both ways) and the joining part of `filepath.Join`.

Inputs that the source reads from the environment are parameters:
- `GoBin` (the output of `go env GOBIN`);
- `BRUNO_CUS` (the build tags);
- the walk of the package directory;
- the result of `filepath.Glob` for the package's `.go` files;
- the output and error of `go list`;
- the exit status of `qtc` and of `go install`.

## Model

| member | source | states |
|---|---|---|
| `Timestamps.NewestMTime` | yb.go:69-81 | the newest time found is never negative: the fold starts from 0 |
| `Timestamps.MTime` | yb.go:69-81 | the loop returns a value that is at least 0, at least the time of every listed path that exists, and equal to 0 or to the time of one of them |
| `Timestamps.NewestIsMaximum` | yb.go:70-80 | the fold bounds every existing listed path's time and is 0 or one of those times |
| `Timestamps.NewestOfMissing` | yb.go:71-75 | when no listed path exists the result is the sentinel 0 |
| `Timestamps.NewestOfOne` | yb.go:71-79 | one existing path with time t >= 0 among any number of missing paths gives t |
| `Timestamps.NewestMonotonic` | yb.go:69-81 | listing more paths never lowers the result |
| `Timestamps.NewestOrderIndependent` | yb.go:69-81 | the result depends only on which paths are listed, not on order or repetition |
| `Timestamps.NewestIgnoresNegative` | yb.go:76-78 | a path with a negative time does not change the result |
| `Text.HasPrefix` | yb.go:41-41 | the line begins with the prefix, character by character |
| `Text.CutPrefixInverse` | yb.go:41-42 | CutPrefix finds the prefix on prefix+rest and returns exactly rest; a line with the prefix is the prefix followed by what CutPrefix returns |
| `Text.HasSuffix` | yb.go:105-105 | the path ends with the suffix, character by character |
| `Text.PathJoin` | yb.go:90-90 | filepath.Join drops an empty element and otherwise puts one "/" between directory and name |
| `Text.SplitLines` | yb.go:38-38 | bytes.Split on "\n" yields one more piece than there are newlines, none of them containing a newline |
| `Text.JoinSplitLines` | yb.go:38-38 | joining the pieces with "\n" gives back the output |
| `Text.SplitJoinLines` | yb.go:38-38 | splitting newline-free pieces joined with "\n" gives back the pieces |
| `Qtc.IsTemplate` | yb.go:105-105 | a regular file whose path ends in ".qtpl"; its ".go" companion never is one |
| `Qtc.StopResult` | yb.go:105-113 | a walk stopped by a template reports old, with the Info error when Info failed and nil otherwise |
| `Qtc.QtcIsOld` | yb.go:99-118 | the walk loop returns the reference verdict (first offending template decides, else (false, nil)), and an error only together with old |
| `Qtc.ErrorImpliesOld` | yb.go:106-110 | whenever an error is returned, old is true as well |
| `Qtc.SkipsNonTemplate` | yb.go:105-105 | an entry that is not a regular ".qtpl" file does not affect the result |
| `Qtc.NoTemplatesIsFresh` | yb.go:101-117 | a walk without regular ".qtpl" files gives (false, nil) |
| `Qtc.FirstOffenderWins` | yb.go:102-113 | the first template in walk order that fails Info or is newer than its ".go" companion decides the result |
| `Qtc.LaterEntriesIgnored` | yb.go:111-113 | entries after the first offending template cannot change the result |
| `Qtc.NoOffenderIsFresh` | yb.go:101-117 | with no offending template the result is (false, nil) |
| `Qtc.OldIffSomeOffender` | yb.go:99-118 | old is reported if and only if some entry is an offending template |
| `Qtc.MissingCompanionIsOld` | yb.go:111-111 | a template with positive time and no ".go" companion counts as old |
| `Qtc.InfoErrorAborts` | yb.go:106-110 | a failing Info on the first offending template gives (true, that error) |
| `Build.GoShouldBuild` | yb.go:83-97 | the rule exactly as written, line 96 included (see ShouldBuildRule); apart from the templates, a build always needs a go.mod with a positive time |
| `Build.StaleTemplatesForceBuild` | yb.go:84-88 | an old template or a template-check error forces a build whatever the other times |
| `Build.ShouldBuildRule` | yb.go:83-97 | the rule is: templates stale, or the binary exists and is older than go.mod, or all ".go" files are older than go.mod; line 96's second disjunct is redundant |
| `Build.NoGoModNoBuild` | yb.go:89-96 | without go.mod only the templates can trigger a build |
| `Build.NewerSourceDoesNotRebuild` | yb.go:94-96 | a binary at least as new as go.mod is kept even when a ".go" file is newer than the binary, because sources are compared with go.mod |
| `Build.MissingBinaryRule` | yb.go:90-96 | with no installed binary the rule builds exactly when all ".go" files are older than go.mod |
| `Deps.GoDeps` | yb.go:34-45 | the parsing loop returns, in order, the suffixes of the prefixed lines: at most one per line, and a name exactly when prefix+name is a line; the command's error does not stop the parsing |
| `Deps.DepsLength` | yb.go:39-44 | there are no more dependencies than lines |
| `Deps.DepsAppend` | yb.go:40-44 | parsing distributes over concatenation of lines, so input order is kept |
| `Deps.DepsMembership` | yb.go:41-43 | d is reported if and only if "unosoft.hu/sysutils/" + d is one of the lines |
| `Deps.NoPrefixedLineNoDeps` | yb.go:40-44 | output without a prefixed line gives no dependencies |
| `Install.QtcCommand` | yb.go:60-60 | qtc with no arguments, run in the package directory |
| `Install.InstallCommand` | yb.go:63-63 | go install with the stripped ldflags and the BRUNO_CUS tags, the package as last argument, in the current directory; distinct from the qtc command |
| `Install.RunErrors` | yb.go:127-128 | a failing command is reported once, with its arguments and its error; a successful one reports nothing |
| `Install.GoInstall` | yb.go:55-67 | the commands are exactly qtc in `name` when the check says (true, nil), then go install when GoShouldBuild holds on the filesystem after qtc; the errors are the check's error via a.Error, else qtc's failure, then go install's failure; true is returned exactly when GoShouldBuild holds |
| `Install.FailedInstallStillTrue` | yb.go:62-64 | a failing go install is reported on the task and GoInstall still returns true |
| `Install.ForceIgnored` | yb.go:55-55 | the force argument has no effect on the outcome |
| `Install.InfoErrorReportedAndInstalls` | yb.go:57-64 | a template whose Info fails is reported as an error, qtc is not run, and the package is installed |
| `Install.NothingToDo` | yb.go:55-66 | no templates and no go.mod: no command, no error, false |
| `Install.RegeneratedWithoutBinaryNotInstalled` | yb.go:57-66 | a stale template regenerated by qtc into fresh output, with no binary installed and a ".go" file at least as new as go.mod: only qtc runs and false is returned |
| `Install.StaleTemplateRegeneratesFirst` | yb.go:57-64 | a stale template runs qtc first; if the filesystem looks the same afterwards, go install follows and true is returned |

## Left out

- Running subprocesses (`Run`, `AtDir`, the `go list` call in `GoDeps`, `go env GOBIN`) is not modelled. Commands are values. The output and error of `go list` and the exit errors of `qtc` and `go install` are inputs. What `qtc` and `go install` print to stdout and stderr is not modelled.
- Reading `BRUNO_CUS` and `GOBIN` at start-up is environment I/O; both are parameters.
- `ReadDirLinks` is a thin wrapper over `os.ReadDir` and is not part of this model.
- The goyek/boot aliases, logging through `slog` and `a.Logf`, and context cancellation are task-runner plumbing.
- `filepath.WalkDir` and `filepath.Glob` are inputs: the order of the walk, the entries' types and `Info()` results, and the glob result. So the model has no `nil` entry for a missing root, which the callback would dereference. It also has no error passed to the callback, which the callback ignores, and no `Glob` error, which is discarded.
- `Text.PathJoin`: does not model the `Clean` step of `filepath.Join`, because paths are not normalised anywhere else in the model. A `GoBin` with a trailing "/" therefore joins differently from Go.
- In the template walk, each entry's `Info()` time and the map used for the companion `.go` file are independent inputs; the model does not require them to agree.
