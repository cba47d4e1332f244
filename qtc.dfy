/**
 * `QtcIsOld`: does any quicktemplate source (`*.qtpl`) under a directory need
 * regenerating by `qtc`? The directory walk is given as its sequence of
 * visited entries, in the lexical order `filepath.WalkDir` visits them.
 */
module Qtc {
  import opened Wrappers
  import opened Text
  import opened Timestamps

  type Error = string

  /** The outcome of `di.Info()`: the modification time, or the error it reported. */
  datatype Info = Info(mtime: Millis) | InfoError(cause: Error)

  /** One entry handed to the walk callback. */
  datatype Entry = Entry(path: string, isRegular: bool, info: Info)

  /** The pair `(old, err)` that `QtcIsOld` returns. */
  datatype QtcResult = QtcResult(isOld: bool, err: Option<Error>)

  const TemplateSuffix := ".qtpl"
  const GeneratedSuffix := ".go"

  /** A regular file whose path ends in ".qtpl". Its companion, ending in ".go", is never one itself. */
  predicate IsTemplate(e: Entry)
    ensures IsTemplate(e) ==> e.isRegular && !HasSuffix(e.path + GeneratedSuffix, TemplateSuffix)
  {
    var companion := e.path + GeneratedSuffix;
    assert companion[|companion| - 1] == 'o' != TemplateSuffix[|TemplateSuffix| - 1];
    e.isRegular && HasSuffix(e.path, TemplateSuffix)
  }

  /** The time of the generated companion `path + ".go"`; 0 when it does not exist. */
  function CompanionTime(fs: FileTimes, e: Entry): Millis {
    NewestMTime(fs, [e.path + GeneratedSuffix])
  }

  /** An entry at which the walk stops: a template whose `Info` fails or that is newer than its companion. */
  predicate Stops(fs: FileTimes, e: Entry) {
    IsTemplate(e) && (e.info.InfoError? || e.info.mtime > CompanionTime(fs, e))
  }

  /** What `QtcIsOld` returns when the walk stops at `e`. */
  function StopResult(fs: FileTimes, e: Entry): (r: QtcResult)
    requires Stops(fs, e)
    ensures r.isOld
    ensures r.err == (if e.info.InfoError? then Some(e.info.cause) else None)
  {
    match e.info
    case InfoError(cause) => QtcResult(true, Some(cause))
    case Info(_) => QtcResult(true, None)
  }

  /** Reference definition of `QtcIsOld`: the result at the first stopping entry, else `(false, nil)`. */
  function QtcVerdict(fs: FileTimes, walk: seq<Entry>): QtcResult {
    if walk == [] then QtcResult(false, None)
    else if Stops(fs, walk[0]) then StopResult(fs, walk[0])
    else QtcVerdict(fs, walk[1..])
  }

  /**
   * The walk of yb.go's `QtcIsOld`, with the callback inlined. A callback that returns
   * `fs.SkipAll` ends the walk with a nil error; one that returns an error ends it with
   * that error.
   */
  method QtcIsOld(fs: FileTimes, walk: seq<Entry>) returns (isOld: bool, err: Option<Error>)
    ensures QtcResult(isOld, err) == QtcVerdict(fs, walk)
    ensures err.Some? ==> isOld
  {
    isOld := false;
    err := None;
    var i := 0;
    while i < |walk|
      invariant 0 <= i <= |walk|
      invariant !isOld && err == None
      invariant QtcVerdict(fs, walk) == QtcVerdict(fs, walk[i..])
    {
      var e := walk[i];
      if isOld {
        break;
      }
      if e.isRegular && HasSuffix(e.path, TemplateSuffix) {
        match e.info
        case InfoError(cause) => {
          isOld := true;
          err := Some(cause);
          break;
        }
        case Info(t) => {
          var companion := MTime(fs, [e.path + GeneratedSuffix]);
          isOld := t > companion;
          if isOld {
            break;
          }
        }
      }
      assert walk[i..][1..] == walk[i + 1..];
      i := i + 1;
    }
  }

  /** A reported error always comes with `isOld == true`. */
  lemma {:induction false} ErrorImpliesOld(fs: FileTimes, walk: seq<Entry>)
    ensures QtcVerdict(fs, walk).err.Some? ==> QtcVerdict(fs, walk).isOld
  {
    if walk != [] && !Stops(fs, walk[0]) {
      ErrorImpliesOld(fs, walk[1..]);
    }
  }

  /** Non-template entries (non-regular files, other suffixes) are passed over. */
  lemma SkipsNonTemplate(fs: FileTimes, e: Entry, walk: seq<Entry>)
    requires !IsTemplate(e)
    ensures QtcVerdict(fs, [e] + walk) == QtcVerdict(fs, walk)
  {
    assert ([e] + walk)[1..] == walk;
  }

  /** A walk with no regular ".qtpl" file reports `(false, nil)`. */
  lemma {:induction false} NoTemplatesIsFresh(fs: FileTimes, walk: seq<Entry>)
    requires forall i :: 0 <= i < |walk| ==> !IsTemplate(walk[i])
    ensures QtcVerdict(fs, walk) == QtcResult(false, None)
  {
    if walk != [] {
      NoTemplatesIsFresh(fs, walk[1..]);
    }
  }

  /** The first stopping entry in walk order decides the result. */
  lemma {:induction false} FirstOffenderWins(fs: FileTimes, walk: seq<Entry>, k: nat)
    requires k < |walk| && Stops(fs, walk[k])
    requires forall j :: 0 <= j < k ==> !Stops(fs, walk[j])
    ensures QtcVerdict(fs, walk) == StopResult(fs, walk[k])
  {
    if k > 0 {
      FirstOffenderWins(fs, walk[1..], k - 1);
    }
  }

  /** Entries after the first stopping one do not affect the result. */
  lemma LaterEntriesIgnored(fs: FileTimes, walk: seq<Entry>, k: nat, rest: seq<Entry>)
    requires k < |walk| && Stops(fs, walk[k])
    requires forall j :: 0 <= j < k ==> !Stops(fs, walk[j])
    ensures QtcVerdict(fs, walk[..k + 1] + rest) == QtcVerdict(fs, walk)
  {
    var longer := walk[..k + 1] + rest;
    assert forall j :: 0 <= j <= k ==> longer[j] == walk[j];
    FirstOffenderWins(fs, longer, k);
    FirstOffenderWins(fs, walk, k);
  }

  /** With no stopping entry the result is `(false, nil)`. */
  lemma {:induction false} NoOffenderIsFresh(fs: FileTimes, walk: seq<Entry>)
    requires forall i :: 0 <= i < |walk| ==> !Stops(fs, walk[i])
    ensures QtcVerdict(fs, walk) == QtcResult(false, None)
  {
    if walk != [] {
      NoOffenderIsFresh(fs, walk[1..]);
    }
  }

  /** `isOld` is reported exactly when some entry stops the walk. */
  lemma {:induction false} OldIffSomeOffender(fs: FileTimes, walk: seq<Entry>)
    ensures QtcVerdict(fs, walk).isOld <==> exists i :: 0 <= i < |walk| && Stops(fs, walk[i])
  {
    if walk != [] {
      OldIffSomeOffender(fs, walk[1..]);
      if !Stops(fs, walk[0]) {
        assert forall i :: 1 <= i < |walk| ==> walk[i] == walk[1..][i - 1];
        if exists i :: 0 <= i < |walk| && Stops(fs, walk[i]) {
          var i :| 0 <= i < |walk| && Stops(fs, walk[i]);
          assert Stops(fs, walk[1..][i - 1]);
        }
      }
    }
  }

  /** A template whose companion ".go" file is missing counts as old as soon as its time is positive. */
  lemma MissingCompanionIsOld(fs: FileTimes, e: Entry)
    requires IsTemplate(e) && e.info.Info? && e.info.mtime > 0
    requires e.path + GeneratedSuffix !in fs
    ensures Stops(fs, e)
  {
    NewestOfMissing(fs, [e.path + GeneratedSuffix]);
  }

  /** A failing `Info` on the first template reached aborts the walk with that error. */
  lemma InfoErrorAborts(fs: FileTimes, walk: seq<Entry>, k: nat)
    requires k < |walk| && IsTemplate(walk[k]) && walk[k].info.InfoError?
    requires forall j :: 0 <= j < k ==> !Stops(fs, walk[j])
    ensures QtcVerdict(fs, walk) == QtcResult(true, Some(walk[k].info.cause))
  {
    FirstOffenderWins(fs, walk, k);
  }
}
