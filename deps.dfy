/**
 * The parsing half of `GoDeps`: the output of `go list` is split into lines,
 * and every line that starts with "unosoft.hu/sysutils/" contributes the
 * rest of the line, in order. The command itself is not part of this model;
 * its output and its error are inputs.
 */
module Deps {
  import opened Wrappers
  import opened Text

  const SysutilsPrefix := "unosoft.hu/sysutils/"

  /** What one line contributes: its suffix after the prefix, or nothing. */
  function DepOfLine(line: string): seq<string> {
    if HasPrefix(line, SysutilsPrefix) then [line[|SysutilsPrefix|..]] else []
  }

  /** Reference definition: the suffixes of the prefixed lines, in input order. */
  function SysutilsDeps(lines: seq<string>): seq<string> {
    if lines == [] then [] else SysutilsDeps(lines[..|lines| - 1]) + DepOfLine(lines[|lines| - 1])
  }

  /**
   * yb.go's `GoDeps` after the `go list` call: `out` is what the command printed,
   * `cmdErr` its error, which is only logged, so the output is parsed all the same.
   */
  method GoDeps(out: string, cmdErr: Option<string>) returns (deps: seq<string>)
    ensures deps == SysutilsDeps(SplitLines(out))
    ensures |deps| <= |SplitLines(out)|
    ensures forall d :: d in deps <==> SysutilsPrefix + d in SplitLines(out)
  {
    var lines := SplitLines(out);
    deps := [];
    var i := 0;
    while i < |lines|
      invariant 0 <= i <= |lines|
      invariant deps == SysutilsDeps(lines[..i])
    {
      var b := lines[i];
      if HasPrefix(b, SysutilsPrefix) {
        deps := deps + [b[|SysutilsPrefix|..]];
      }
      assert lines[..i + 1][..i] == lines[..i];
      i := i + 1;
    }
    assert lines[..i] == lines;
    DepsLength(lines);
    DepsMembership(lines);
  }

  /** At most one dependency per line. */
  lemma {:induction false} DepsLength(lines: seq<string>)
    ensures |SysutilsDeps(lines)| <= |lines|
  {
    if lines != [] {
      DepsLength(lines[..|lines| - 1]);
    }
  }

  /** Parsing distributes over concatenation of line lists, so the input order is kept. */
  lemma {:induction false} DepsAppend(lines: seq<string>, more: seq<string>)
    ensures SysutilsDeps(lines + more) == SysutilsDeps(lines) + SysutilsDeps(more)
  {
    if more == [] {
      assert lines + more == lines;
    } else {
      var init := more[..|more| - 1];
      assert (lines + more)[..|lines + more| - 1] == lines + init;
      DepsAppend(lines, init);
    }
  }

  /** A name is reported exactly when the prefix followed by that name is one of the lines. */
  lemma {:induction false} DepsMembership(lines: seq<string>)
    ensures forall d :: d in SysutilsDeps(lines) <==> SysutilsPrefix + d in lines
  {
    if lines != [] {
      var init := lines[..|lines| - 1];
      var last := lines[|lines| - 1];
      DepsMembership(init);
      assert lines == init + [last];
      forall d
        ensures d in SysutilsDeps(lines) <==> SysutilsPrefix + d in lines
      {
        var full := SysutilsPrefix + d;
        assert full[..|SysutilsPrefix|] == SysutilsPrefix;
        assert full[|SysutilsPrefix|..] == d;
        if HasPrefix(last, SysutilsPrefix) {
          assert last == SysutilsPrefix + last[|SysutilsPrefix|..];
        }
      }
    }
  }

  /** Output with no prefixed line gives no dependencies. */
  lemma {:induction false} NoPrefixedLineNoDeps(lines: seq<string>)
    requires forall i :: 0 <= i < |lines| ==> !HasPrefix(lines[i], SysutilsPrefix)
    ensures SysutilsDeps(lines) == []
  {
    if lines != [] {
      NoPrefixedLineNoDeps(lines[..|lines| - 1]);
    }
  }
}
