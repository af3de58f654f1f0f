/**
  The per-line cleanup inside `loadGitignore` of cmd/dirtext/main.go: the
  lines of the ignore file become the ordered list of patterns. Opening the
  file and scanning it into lines are not part of this model; the lines are
  the input.
 */
module Loader {
  import opened GoStrings

  /** A line is skipped when, once trimmed, it is empty or a `#` comment. */
  predicate Skipped(line: string) {
    var t := TrimSpace(line);
    t == "" || HasPrefix(t, "#")
  }

  /**
    The pattern a kept line yields: its trimmed text with one leading and
    one trailing '/' removed where present.
   */
  function PatternOf(line: string): string {
    TrimSuffix(TrimPrefix(TrimSpace(line), [SEP]), [SEP])
  }

  /**
    A '/' at either end of the trimmed line is removed, one at each end at
    most, and nothing else changes.
   */
  lemma PatternOfStripsOneSlash(line: string)
    ensures var t, p := TrimSpace(line), PatternOf(line);
            && (t == p || t == [SEP] + p || t == p + [SEP] || t == [SEP] + p + [SEP])
            && |t| - 2 <= |p| <= |t|
            && (HasPrefix(t, [SEP]) ==> t == [SEP] + p || t == [SEP] + p + [SEP])
            && (HasSuffix(t, [SEP]) ==> t == p + [SEP] || t == [SEP] + p + [SEP])
            && (!HasPrefix(t, [SEP]) && !HasSuffix(t, [SEP]) ==> p == t)
            && (HasPrefix(t, [SEP]) && HasSuffix(t, [SEP]) && |t| >= 2 ==> t == [SEP] + p + [SEP])
  {
    var t := TrimSpace(line);
    var u := TrimPrefix(t, [SEP]);
    var p := TrimSuffix(u, [SEP]);
    assert p == PatternOf(line);
    if HasPrefix(t, [SEP]) {
      assert t == [SEP] + u;
    }
    if HasSuffix(u, [SEP]) {
      assert u == p + [SEP];
    }
    if HasPrefix(t, [SEP]) && HasSuffix(t, [SEP]) && |t| >= 2 {
      assert u[|u| - 1] == t[|t| - 1];
    }
  }

  /** What one line contributes: nothing when skipped, else its pattern. */
  function LinePatterns(line: string): (r: seq<string>)
    ensures |r| <= 1
  {
    if Skipped(line) then [] else [PatternOf(line)]
  }

  /** The lists `f` gives for each element, concatenated in order (built from the last element back). */
  function FlatMap<T, U>(f: T -> seq<U>, xs: seq<T>): seq<U> {
    if xs == [] then [] else FlatMap(f, xs[..|xs| - 1]) + f(xs[|xs| - 1])
  }

  lemma {:induction false} FlatMapAppend<T, U>(f: T -> seq<U>, a: seq<T>, b: seq<T>)
    ensures FlatMap(f, a + b) == FlatMap(f, a) + FlatMap(f, b)
    decreases |b|
  {
    if b == [] {
      assert a + b == a;
    } else {
      FlatMapAppend(f, a, b[..|b| - 1]);
      assert (a + b)[..|a + b| - 1] == a + b[..|b| - 1];
    }
  }

  /** The patterns the lines yield, in line order. */
  function Cleaned(lines: seq<string>): seq<string> {
    FlatMap(LinePatterns, lines)
  }

  /** The scanner loop of `loadGitignore`, fed the file's lines. */
  method CleanPatterns(lines: seq<string>) returns (patterns: seq<string>)
    ensures patterns == Cleaned(lines)
  {
    patterns := [];
    for i := 0 to |lines|
      invariant patterns == Cleaned(lines[..i])
    {
      assert lines[..i + 1][..i] == lines[..i];
      var line := TrimSpace(lines[i]);

      if line == "" || HasPrefix(line, "#") {
        continue;
      }

      var pattern := line;
      pattern := TrimPrefix(pattern, [SEP]);
      pattern := TrimSuffix(pattern, [SEP]);
      patterns := patterns + [pattern];
    }
    assert lines[..|lines|] == lines;
  }

  /** Cleaning works line by line: the patterns of two blocks of lines are concatenated. */
  lemma CleanedAppend(a: seq<string>, b: seq<string>)
    ensures Cleaned(a + b) == Cleaned(a) + Cleaned(b)
  {
    FlatMapAppend(LinePatterns, a, b);
  }

  /** A single line yields no pattern when skipped and its cleaned pattern otherwise. */
  lemma CleanedLine(line: string)
    ensures Cleaned([line]) == if Skipped(line) then [] else [PatternOf(line)]
  {
    assert [line][..0] == [];
    assert Cleaned([line]) == Cleaned([]) + LinePatterns(line);
  }

  /** At most one pattern per line. */
  lemma {:induction false} CleanedLength(lines: seq<string>)
    ensures |Cleaned(lines)| <= |lines|
  {
    if lines != [] {
      CleanedLength(lines[..|lines| - 1]);
    }
  }

  /** An element comes out of `FlatMap` exactly when `f` gives it for some input element. */
  lemma {:induction false} FlatMapMembers<T, U>(f: T -> seq<U>, xs: seq<T>, y: U)
    ensures y in FlatMap(f, xs) <==> exists i | 0 <= i < |xs| :: y in f(xs[i])
  {
    if xs != [] {
      var init := xs[..|xs| - 1];
      FlatMapMembers(f, init, y);
      if exists i | 0 <= i < |xs| :: y in f(xs[i]) {
        var i :| 0 <= i < |xs| && y in f(xs[i]);
        if i < |xs| - 1 {
          assert init[i] == xs[i];
        }
      }
      if y in FlatMap(f, init) {
        var i :| 0 <= i < |init| && y in f(init[i]);
        assert xs[i] == init[i];
      }
    }
  }

  /** A pattern comes out exactly when some kept line yields it. */
  lemma CleanedMembers(lines: seq<string>, p: string)
    ensures p in Cleaned(lines) <==> exists i | 0 <= i < |lines| :: !Skipped(lines[i]) && PatternOf(lines[i]) == p
  {
    FlatMapMembers(LinePatterns, lines, p);
    assert forall i | 0 <= i < |lines| :: p in LinePatterns(lines[i]) <==> !Skipped(lines[i]) && PatternOf(lines[i]) == p;
  }

  /** Blank lines and comments contribute nothing, wherever they stand. */
  lemma SkippedLinesVanish(before: seq<string>, line: string, after: seq<string>)
    requires Skipped(line)
    ensures Cleaned(before + [line] + after) == Cleaned(before + after)
  {
    CleanedAppend(before + [line], after);
    CleanedAppend(before, [line]);
    CleanedAppend(before, after);
    CleanedLine(line);
  }

  /** Only one slash is removed at each end: `/` gives the empty pattern, `/#x` gives `#x`. */
  lemma SlashExamples()
    ensures !Skipped("/") && PatternOf("/") == ""
    ensures !Skipped("/#x") && PatternOf("/#x") == "#x"
    ensures !Skipped("//a//") && PatternOf("//a//") == "/a/"
  {
    TrimSpaceUnchanged("/");
    TrimSpaceUnchanged("/#x");
    TrimSpaceUnchanged("//a//");
  }

  /** Comment lines and all-blank lines are skipped. */
  lemma SkippedExamples()
    ensures Skipped("  # note")
    ensures Skipped(" \t ")
  {
    assert TrimLeft("  # note") == "# note";
    TrimSpaceUnchanged("# note");
    TrimSpaceSlice(" \t ");
    assert forall k :: 0 <= k < |" \t "| ==> IsSpace(" \t "[k]);
  }
}
