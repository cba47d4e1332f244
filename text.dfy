/**
 * The string operations of Go's standard library that yb.go relies on:
 * `strings.HasSuffix`, `bytes.CutPrefix`, `bytes.Split` on "\n" and the
 * joining half of `filepath.Join`. Strings are sequences of characters;
 * Go's byte slices are modelled the same way.
 */
module Text {

  /** `bytes.CutPrefix`'s test: `s` begins with `prefix`, character by character. */
  predicate HasPrefix(s: string, prefix: string)
    ensures HasPrefix(s, prefix) <==> |prefix| <= |s| && forall i :: 0 <= i < |prefix| ==> s[i] == prefix[i]
  {
    |prefix| <= |s| && s[..|prefix|] == prefix
  }

  /** `strings.HasSuffix`: `s` ends with `suffix`, character by character. */
  predicate HasSuffix(s: string, suffix: string)
    ensures HasSuffix(s, suffix) <==>
            |suffix| <= |s| && forall i :: 0 <= i < |suffix| ==> s[|s| - |suffix| + i] == suffix[i]
  {
    |suffix| <= |s| && s[|s| - |suffix|..] == suffix
  }

  /** Cutting a prefix off and putting it back are inverse: `bytes.CutPrefix` returns exactly what follows the prefix. */
  lemma CutPrefixInverse(s: string, prefix: string, rest: string)
    ensures HasPrefix(prefix + rest, prefix) && (prefix + rest)[|prefix|..] == rest
    ensures HasPrefix(s, prefix) ==> s == prefix + s[|prefix|..]
  {
    assert (prefix + rest)[..|prefix|] == prefix;
    if HasPrefix(s, prefix) {
      assert s == s[..|prefix|] + s[|prefix|..];
    }
  }

  /** `filepath.Join(dir, elem)`: empty elements are dropped, the rest are joined by "/". */
  function PathJoin(dir: string, elem: string): (r: string)
    ensures dir == "" ==> r == elem
    ensures elem == "" ==> r == dir
    ensures dir != "" && elem != "" ==> HasPrefix(r, dir) && HasSuffix(r, elem) && |r| == |dir| + 1 + |elem| && r[|dir|] == '/'
  {
    if dir == "" then elem
    else if elem == "" then dir
    else dir + "/" + elem
  }

  /** Number of occurrences of `c` in `s`. */
  function Count(c: char, s: string): nat {
    if s == [] then 0 else (if s[0] == c then 1 else 0) + Count(c, s[1..])
  }

  /**
   * `bytes.Split(s, "\n")`: the pieces of `s` between newlines. There is
   * always one more piece than there are newlines, so the empty input
   * gives one empty piece.
   */
  function SplitLines(s: string): (lines: seq<string>)
    ensures |lines| == Count('\n', s) + 1
    ensures forall i :: 0 <= i < |lines| ==> '\n' !in lines[i]
  {
    if s == [] then [""]
    else
      var rest := SplitLines(s[1..]);
      if s[0] == '\n' then [""] + rest
      else [[s[0]] + rest[0]] + rest[1..]
  }

  /** `bytes.Join(lines, "\n")`, the inverse of `SplitLines`. */
  function JoinLines(lines: seq<string>): string
    requires lines != []
  {
    if |lines| == 1 then lines[0] else lines[0] + "\n" + JoinLines(lines[1..])
  }

  lemma {:induction false} JoinLinesConsFirst(c: char, lines: seq<string>)
    requires lines != []
    ensures JoinLines([[c] + lines[0]] + lines[1..]) == [c] + JoinLines(lines)
  {
    var l := [[c] + lines[0]] + lines[1..];
    assert l[1..] == lines[1..];
  }

  /** Splitting and joining again gives back the original text. */
  lemma {:induction false} JoinSplitLines(s: string)
    ensures JoinLines(SplitLines(s)) == s
  {
    if s != [] {
      var rest := SplitLines(s[1..]);
      JoinSplitLines(s[1..]);
      if s[0] == '\n' {
        assert ([""] + rest)[1..] == rest;
        assert s == "\n" + s[1..];
      } else {
        JoinLinesConsFirst(s[0], rest);
        assert s == [s[0]] + s[1..];
      }
    }
  }

  /** Joining pieces free of newlines and splitting again gives back the pieces. */
  lemma {:induction false} SplitJoinLines(lines: seq<string>)
    requires lines != []
    requires forall i :: 0 <= i < |lines| ==> '\n' !in lines[i]
    ensures SplitLines(JoinLines(lines)) == lines
  {
    if |lines| == 1 {
      SplitNoNewline(lines[0]);
    } else {
      SplitJoinLines(lines[1..]);
      SplitAfterLine(lines[0], JoinLines(lines[1..]));
    }
  }

  lemma {:induction false} SplitNoNewline(s: string)
    requires '\n' !in s
    ensures SplitLines(s) == [s]
  {
    if s != [] {
      SplitNoNewline(s[1..]);
      assert s == [s[0]] + s[1..];
    }
  }

  lemma {:induction false} SplitAfterLine(line: string, tail: string)
    requires '\n' !in line
    ensures SplitLines(line + "\n" + tail) == [line] + SplitLines(tail)
  {
    if line == [] {
      assert line + "\n" + tail == "\n" + tail;
      assert ("\n" + tail)[1..] == tail;
    } else {
      var s := line + "\n" + tail;
      assert s[1..] == line[1..] + "\n" + tail;
      SplitAfterLine(line[1..], tail);
      assert [line[0]] + line[1..] == line;
    }
  }
}
