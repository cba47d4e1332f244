/**
 * `MTime`: the newest modification time, in Unix milliseconds, among a list
 * of paths. The filesystem is what `os.Stat` can observe: a map from each
 * path that can be stat'ed to its modification time. A path outside the map
 * is one whose `Stat` fails; it is skipped.
 */
module Timestamps {

  /** The range of Go's `int64`, which `UnixMilli` returns. Only comparisons are made on it. */
  type Millis = t: int | -0x8000_0000_0000_0000 <= t < 0x8000_0000_0000_0000

  /** What `os.Stat` observes: the modification time of every path that exists. */
  type FileTimes = map<string, Millis>

  /** One step of the loop: keep `maxTime` unless `path` exists and is newer. */
  function Later(fs: FileTimes, maxTime: Millis, path: string): Millis {
    if path in fs && fs[path] > maxTime then fs[path] else maxTime
  }

  /** The value the loop of `MTime` reaches: a left fold of `Later` starting from 0. */
  function NewestMTime(fs: FileTimes, paths: seq<string>): (r: Millis)
    ensures r >= 0
  {
    if paths == [] then 0
    else Later(fs, NewestMTime(fs, paths[..|paths| - 1]), paths[|paths| - 1])
  }

  /** The loop of yb.go's `MTime`, proved to compute `NewestMTime`, which is the maximum of 0
      and the times of the paths that exist. */
  method MTime(fs: FileTimes, paths: seq<string>) returns (maxTime: Millis)
    ensures maxTime == NewestMTime(fs, paths)
    ensures maxTime >= 0
    ensures forall p :: p in paths && p in fs ==> fs[p] <= maxTime
    ensures maxTime == 0 || exists p :: p in paths && p in fs && fs[p] == maxTime
  {
    maxTime := 0;
    var i := 0;
    while i < |paths|
      invariant 0 <= i <= |paths|
      invariant maxTime == NewestMTime(fs, paths[..i])
    {
      var fn := paths[i];
      if fn in fs {
        var t := fs[fn];
        if t > maxTime {
          maxTime := t;
        }
      }
      assert paths[..i + 1][..i] == paths[..i];
      i := i + 1;
    }
    assert paths[..i] == paths;
    NewestIsMaximum(fs, paths);
  }

  /** `NewestMTime` is the maximum of 0 and the times of the existing paths: it bounds
      every one of them, and it is 0 or the time of one of them. */
  lemma {:induction false} NewestIsMaximum(fs: FileTimes, paths: seq<string>)
    ensures forall p :: p in paths && p in fs ==> fs[p] <= NewestMTime(fs, paths)
    ensures NewestMTime(fs, paths) == 0 ||
            exists p :: p in paths && p in fs && fs[p] == NewestMTime(fs, paths)
  {
    if paths != [] {
      var init := paths[..|paths| - 1];
      var last := paths[|paths| - 1];
      NewestIsMaximum(fs, init);
      assert paths == init + [last];
      forall p | p in paths && p in fs
        ensures fs[p] <= NewestMTime(fs, paths)
      {
        if p != last {
          assert p in init;
        }
      }
      if NewestMTime(fs, paths) != 0 && NewestMTime(fs, paths) != NewestMTime(fs, init) {
        assert fs[last] == NewestMTime(fs, paths);
      }
    }
  }

  /** With no existing path the result is the "nothing found" sentinel 0. */
  lemma {:induction false} NewestOfMissing(fs: FileTimes, paths: seq<string>)
    requires forall p :: p in paths ==> p !in fs
    ensures NewestMTime(fs, paths) == 0
  {
    NewestIsMaximum(fs, paths);
  }

  /** One existing path with time `t >= 0` gives `t`, however many missing paths are passed with it. */
  lemma NewestOfOne(fs: FileTimes, paths: seq<string>, q: string)
    requires q in paths && q in fs && fs[q] >= 0
    requires forall p :: p in paths && p != q ==> p !in fs
    ensures NewestMTime(fs, paths) == fs[q]
  {
    NewestIsMaximum(fs, paths);
  }

  /** Adding paths never makes the result older. */
  lemma NewestMonotonic(fs: FileTimes, paths: seq<string>, more: seq<string>)
    requires forall p :: p in paths ==> p in more
    ensures NewestMTime(fs, paths) <= NewestMTime(fs, more)
  {
    NewestIsMaximum(fs, paths);
    NewestIsMaximum(fs, more);
  }

  /** The result depends only on which paths are listed, not on their order or repetitions. */
  lemma NewestOrderIndependent(fs: FileTimes, paths: seq<string>, other: seq<string>)
    requires forall p :: p in paths <==> p in other
    ensures NewestMTime(fs, paths) == NewestMTime(fs, other)
  {
    NewestMonotonic(fs, paths, other);
    NewestMonotonic(fs, other, paths);
  }

  /** Negative times are ignored: a path whose time is below 0 never changes the result. */
  lemma NewestIgnoresNegative(fs: FileTimes, paths: seq<string>, q: string)
    requires q in fs && fs[q] < 0
    ensures NewestMTime(fs, paths + [q]) == NewestMTime(fs, paths)
  {
    assert (paths + [q])[..|paths + [q]| - 1] == paths;
  }
}
