/**
  `shouldIgnore` of cmd/dirtext/main.go: the patterns are tried in order
  and the first one that matches decides. A matching `!` pattern keeps the
  path, a matching plain pattern ignores it, and a path no pattern matches
  is kept.
 */
module Filter {
  import opened GoStrings
  import opened Matcher

  predicate IsNegation(pattern: string) {
    HasPrefix(pattern, "!")
  }

  /** The pattern actually matched: a negation without its `!`. */
  function Effective(pattern: string): string {
    TrimPrefix(pattern, "!")
  }

  /** The decision the scan reaches, pattern by pattern. */
  predicate Verdict(path: string, patterns: seq<string>) {
    if patterns == [] then false
    else if Matches(path, Effective(patterns[0])) then !IsNegation(patterns[0])
    else Verdict(path, patterns[1..])
  }

  /** Pattern `i` is the first one whose effective form matches `path`. */
  predicate FirstMatchAt(path: string, patterns: seq<string>, i: int) {
    && 0 <= i < |patterns|
    && Matches(path, Effective(patterns[i]))
    && forall j :: 0 <= j < i ==> !Matches(path, Effective(patterns[j]))
  }

  /** `shouldIgnore(path, isDir, patterns)`. */
  method ShouldIgnore(path: string, isDir: bool, patterns: seq<string>) returns (ignore: bool)
    ensures ignore == Verdict(path, patterns)
  {
    for i := 0 to |patterns|
      invariant Verdict(path, patterns) == Verdict(path, patterns[i..])
    {
      assert patterns[i..][1..] == patterns[i + 1..];
      var pattern := patterns[i];
      if HasPrefix(pattern, "!") {
        var negatedPattern := TrimPrefix(pattern, "!");
        var m := Match(path, negatedPattern, isDir);
        if m {
          return false;
        }
        continue;
      }

      var m := Match(path, pattern, isDir);
      if m {
        return true;
      }
    }
    return false;
  }

  /**
    The scan's answer is "ignore" exactly when the first matching pattern
    is a plain one; in particular it is "keep" when nothing matches.
   */
  lemma {:induction false} VerdictIsFirstMatch(path: string, patterns: seq<string>)
    ensures Verdict(path, patterns)
        <==> exists i | 0 <= i < |patterns| :: FirstMatchAt(path, patterns, i) && !IsNegation(patterns[i])
  {
    if patterns != [] {
      var rest := patterns[1..];
      VerdictIsFirstMatch(path, rest);
      if Matches(path, Effective(patterns[0])) {
        assert FirstMatchAt(path, patterns, 0);
        forall i | 0 < i < |patterns| ensures !FirstMatchAt(path, patterns, i) {
        }
      } else {
        if Verdict(path, patterns) {
          var i :| 0 <= i < |rest| && FirstMatchAt(path, rest, i) && !IsNegation(rest[i]);
          assert FirstMatchAt(path, patterns, i + 1) by {
            forall j | 0 <= j < i + 1 ensures !Matches(path, Effective(patterns[j])) {
              if j > 0 {
                assert patterns[j] == rest[j - 1];
              }
            }
          }
        }
        if exists i | 0 <= i < |patterns| :: FirstMatchAt(path, patterns, i) && !IsNegation(patterns[i]) {
          var i :| 0 <= i < |patterns| && FirstMatchAt(path, patterns, i) && !IsNegation(patterns[i]);
          assert i > 0;
          assert FirstMatchAt(path, rest, i - 1) by {
            forall j | 0 <= j < i - 1 ensures !Matches(path, Effective(rest[j])) {
              assert rest[j] == patterns[j + 1];
            }
          }
        }
      }
    }
  }

  /** A negation that matches first keeps the path. */
  lemma NegationFirstKeeps(path: string, patterns: seq<string>, i: int)
    requires FirstMatchAt(path, patterns, i) && IsNegation(patterns[i])
    ensures !Verdict(path, patterns)
  {
    VerdictIsFirstMatch(path, patterns);
    forall j | 0 <= j < |patterns| && FirstMatchAt(path, patterns, j)
      ensures j == i
    {
    }
  }

  /** When no pattern matches, the path is kept; the empty pattern list keeps everything. */
  lemma {:induction false} NoMatchKeeps(path: string, patterns: seq<string>)
    requires forall i :: 0 <= i < |patterns| ==> !Matches(path, Effective(patterns[i]))
    ensures !Verdict(path, patterns)
  {
    if patterns != [] {
      NoMatchKeeps(path, patterns[1..]);
    }
  }

  /** Patterns after a matching one are never consulted. */
  lemma {:induction false} LaterPatternsIrrelevant(path: string, patterns: seq<string>, more: seq<string>, i: int)
    requires 0 <= i < |patterns| && Matches(path, Effective(patterns[i]))
    ensures Verdict(path, patterns + more) == Verdict(path, patterns)
  {
    if !Matches(path, Effective(patterns[0])) {
      assert (patterns + more)[1..] == patterns[1..] + more;
      LaterPatternsIrrelevant(path, patterns[1..], more, i - 1);
    }
  }

  /** A pattern is plain, and matched as written, exactly when it does not start with `!`. */
  lemma PlainPattern(pattern: string)
    ensures !IsNegation(pattern) <==> pattern == [] || pattern[0] != '!'
    ensures !IsNegation(pattern) ==> Effective(pattern) == pattern
  {
    if pattern != [] && pattern[0] == '!' {
      assert pattern[..1] == "!";
    }
    if pattern != [] && pattern[0] != '!' {
      assert pattern[..1][0] != "!"[0];
    }
  }

  /** The three matches the scan-order example relies on. */
  lemma BuildMatches()
    ensures Matches("build/keep.txt", "build")
    ensures Matches("build/other.txt", "build")
    ensures Matches("build/keep.txt", "build/keep.txt")
  {
    NoStarNoDoubleStar("build");
    DirectoryPatternMatchesContents("", "build", "keep.txt");
    assert "" + "build" + [SEP] + "keep.txt" == "build/keep.txt";
    DirectoryPatternMatchesContents("", "build", "other.txt");
    assert "" + "build" + [SEP] + "other.txt" == "build/other.txt";
    NoStarNoDoubleStar("build/keep.txt");
    MatchesLiteralCases("build/keep.txt", "build/keep.txt");
  }

  /** When the first pattern matches, it alone decides. */
  lemma DecidedByFirst(path: string, patterns: seq<string>)
    requires patterns != [] && Matches(path, Effective(patterns[0]))
    ensures Verdict(path, patterns) == !IsNegation(patterns[0])
  {
  }

  /**
    The scan order decides: `build` listed before `!build/keep.txt` still
    ignores `build/keep.txt`, because `build` is found first; listed the
    other way round the negation wins.
   */
  lemma FirstMatchWinsExample()
    ensures Verdict("build/keep.txt", ["build", "!build/keep.txt"])
    ensures Verdict("build/other.txt", ["build", "!build/keep.txt"])
    ensures !Verdict("build/keep.txt", ["!build/keep.txt", "build"])
  {
    BuildMatches();
    PlainPattern("build");
    PlainPattern("!build/keep.txt");
    assert Effective("!build/keep.txt") == "build/keep.txt";
  }

  /** An empty pattern (from a line "/") ignores every path that no earlier pattern matches. */
  lemma EmptyPatternIgnoresRest(path: string, before: seq<string>, after: seq<string>)
    requires forall j :: 0 <= j < |before| ==> !Matches(path, Effective(before[j]))
    ensures Verdict(path, before + [""] + after)
  {
    var patterns := before + [""] + after;
    var i := |before|;
    EmptyPatternMatchesAll(path);
    assert Effective(patterns[i]) == "";
    assert FirstMatchAt(path, patterns, i) by {
      assert forall j :: 0 <= j < i ==> patterns[j] == before[j];
    }
    VerdictIsFirstMatch(path, patterns);
  }
}
