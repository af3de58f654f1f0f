/**
  `match` and `recursiveMatch` of cmd/dirtext/main.go: whether one ignore
  pattern matches a slash-separated relative path.

  A pattern containing `**` is matched segment by segment, each `**` having
  first been rewritten to the marker `[[RECURSIVE]]`; a segment that is
  exactly the marker stands for any number (zero or more) of path segments.
  Any other pattern matches when it glob-matches the whole path, when the
  path ends with it, or when the path contains it followed by '/'.
 */
module Matcher {
  import opened GoStrings
  import opened Glob

  /** The text every `**` is rewritten to before the pattern is split. */
  const MARKER: string := "[[RECURSIVE]]"

  /**
    `strings.Replace(pattern, "**", MARKER, -1)`: every `**`, taken left to
    right without overlap, becomes the marker.
   */
  function ReplaceDoubleStar(s: string): string {
    if |s| >= 2 && s[0] == '*' && s[1] == '*' then MARKER + ReplaceDoubleStar(s[2..])
    else if s == [] then []
    else [s[0]] + ReplaceDoubleStar(s[1..])
  }

  /**
    Reference meaning of segment matching: a marker segment absorbs any
    number of path segments, and every other pattern segment glob-matches
    exactly one path segment, in order, with nothing left over.
   */
  predicate SegmentsMatch(path: seq<string>, pattern: seq<string>)
    decreases |pattern|
  {
    if pattern == [] then
      path == []
    else if pattern[0] == MARKER then
      exists k | 0 <= k <= |path| :: SegmentsMatch(path[k..], pattern[1..])
    else
      path != [] && GlobMatch(pattern[0], path[0]) && SegmentsMatch(path[1..], pattern[1..])
  }

  /** What `match(path, pattern, isDir)` computes; `isDir` plays no part in it. */
  predicate Matches(path: string, pattern: string) {
    if Contains(pattern, "**") then
      SegmentsMatch(Split(path), Split(ReplaceDoubleStar(pattern)))
    else
      GlobMatch(pattern, path) || HasSuffix(path, pattern) || Contains(path, pattern + [SEP])
  }

  // ---------------------------------------------------------------------
  // The operations

  /**
    `recursiveMatch(path, pattern, pathIdx, patternIdx)`: backtracking over
    the two cursors. Every recursive call moves at least one cursor forward,
    so `(|path| - pathIdx) + (|pattern| - patternIdx)` decreases.
   */
  method RecursiveMatch(path: seq<string>, pattern: seq<string>, pathIdx: nat, patternIdx: nat)
    returns (m: bool)
    requires pathIdx <= |path| && patternIdx <= |pattern|
    ensures m == SegmentsMatch(path[pathIdx..], pattern[patternIdx..])
    decreases (|path| - pathIdx) + (|pattern| - patternIdx)
  {
    if patternIdx >= |pattern| {
      return pathIdx >= |path|;
    }

    if pathIdx >= |path| {
      // the path is used up: only markers may remain in the pattern
      EmptyPathMatch(pattern[patternIdx..]);
      var i := patternIdx;
      while i < |pattern|
        invariant patternIdx <= i <= |pattern|
        invariant forall k :: patternIdx <= k < i ==> pattern[k] == MARKER
      {
        if pattern[i] != MARKER {
          assert pattern[patternIdx..][i - patternIdx] == pattern[i];
          return false;
        }
        i := i + 1;
      }
      assert forall k :: 0 <= k < |pattern| - patternIdx ==> pattern[patternIdx..][k] == pattern[patternIdx + k];
      assert path[pathIdx..] == [];
      return true;
    }

    assert path[pathIdx..][1..] == path[pathIdx + 1..];
    assert pattern[patternIdx..][1..] == pattern[patternIdx + 1..];
    if pattern[patternIdx] == MARKER {
      MarkerStep(path[pathIdx..], pattern[patternIdx..]);
      var skipOne := RecursiveMatch(path, pattern, pathIdx + 1, patternIdx);
      if skipOne {
        return true;
      }
      var skipNone := RecursiveMatch(path, pattern, pathIdx, patternIdx + 1);
      if skipNone {
        return true;
      }
      m := RecursiveMatch(path, pattern, pathIdx + 1, patternIdx + 1);
      return;
    }

    var matched := GlobMatch(pattern[patternIdx], path[pathIdx]);
    if matched {
      m := RecursiveMatch(path, pattern, pathIdx + 1, patternIdx + 1);
      return;
    }
    return false;
  }

  /** `match(path, pattern, isDir)`. */
  method Match(path: string, pattern: string, isDir: bool) returns (m: bool)
    ensures m == Matches(path, pattern)
  {
    if Contains(pattern, "**") {
      var marked := ReplaceDoubleStar(pattern);
      var patternParts := Split(marked);
      var pathParts := Split(path);
      m := RecursiveMatch(pathParts, patternParts, 0, 0);
      assert pathParts[0..] == pathParts && patternParts[0..] == patternParts;
      return;
    }

    var matched := GlobMatch(pattern, path);
    if matched {
      return true;
    }
    return HasSuffix(path, pattern) || Contains(path, pattern + [SEP]);
  }

  // ---------------------------------------------------------------------
  // Segment matching

  /** Pattern exhausted: a match exactly when the path is exhausted too. */
  lemma EmptyPatternMatch(path: seq<string>)
    ensures SegmentsMatch(path, []) <==> path == []
  {
  }

  /** Path exhausted: a match exactly when every remaining pattern segment is the marker. */
  lemma {:induction false} EmptyPathMatch(pattern: seq<string>)
    ensures SegmentsMatch([], pattern) <==> forall k :: 0 <= k < |pattern| ==> pattern[k] == MARKER
  {
    if pattern != [] {
      EmptyPathMatch(pattern[1..]);
      if pattern[0] == MARKER {
        var none: seq<string> := [];
        assert none[0..] == none;
        assert forall k :: 1 <= k < |pattern| ==> pattern[k] == pattern[1..][k - 1];
      }
    }
  }

  /**
    At a marker, the two moves "the marker absorbs this path segment" and
    "the marker is done" are together equivalent to the match, and the
    third move of `recursiveMatch` (advance both) is subsumed by them.
   */
  lemma MarkerStep(path: seq<string>, pattern: seq<string>)
    requires path != [] && pattern != [] && pattern[0] == MARKER
    ensures SegmentsMatch(path, pattern)
        <==> SegmentsMatch(path[1..], pattern) || SegmentsMatch(path, pattern[1..])
    ensures SegmentsMatch(path[1..], pattern[1..]) ==> SegmentsMatch(path, pattern)
  {
    if SegmentsMatch(path, pattern) {
      var k :| 0 <= k <= |path| && SegmentsMatch(path[k..], pattern[1..]);
      if k == 0 {
        assert path[0..] == path;
      } else {
        assert path[1..][k - 1..] == path[k..];
      }
    }
    if SegmentsMatch(path[1..], pattern) {
      var k :| 0 <= k <= |path[1..]| && SegmentsMatch(path[1..][k..], pattern[1..]);
      assert path[1..][k..] == path[k + 1..];
    }
    if SegmentsMatch(path, pattern[1..]) {
      assert path[0..] == path;
    }
  }

  /**
    Without markers, segment matching is plain pairwise glob matching of
    equally long segment lists.
   */
  lemma {:induction false} SegmentsMatchWithoutMarker(path: seq<string>, pattern: seq<string>)
    requires MARKER !in pattern
    ensures SegmentsMatch(path, pattern)
        <==> |path| == |pattern| && forall k :: 0 <= k < |pattern| ==> GlobMatch(pattern[k], path[k])
  {
    if pattern != [] && path != [] {
      SegmentsMatchWithoutMarker(path[1..], pattern[1..]);
      assert forall k :: 1 <= k < |pattern| && k < |path| ==>
        pattern[k] == pattern[1..][k - 1] && path[k] == path[1..][k - 1];
    }
  }

  /** A lone marker matches every path. */
  lemma MarkerMatchesAll(path: seq<string>)
    ensures SegmentsMatch(path, [MARKER])
  {
    assert path[|path|..] == [];
  }

  // ---------------------------------------------------------------------
  // Rewriting `**`

  /** `OccursAt(s, "**", i)` spelled out on characters. */
  lemma DoubleStarAt(s: string, i: int)
    ensures OccursAt(s, "**", i) <==> 0 <= i && i + 1 < |s| && s[i] == '*' && s[i + 1] == '*'
  {
    if 0 <= i && i + 1 < |s| && s[i] == '*' && s[i + 1] == '*' {
      assert s[i..i + 2] == "**";
    }
  }

  /** A string without `*` contains no `**`. */
  lemma NoStarNoDoubleStar(s: string)
    requires '*' !in s
    ensures !Contains(s, "**")
  {
    forall i | 0 <= i <= |s| - 2
      ensures !OccursAt(s, "**", i)
    {
      DoubleStarAt(s, i);
    }
  }

  /** The rewrite leaves a string alone when it contains no `**`. */
  lemma {:induction false} ReplaceWithoutDoubleStar(s: string)
    requires !Contains(s, "**")
    ensures ReplaceDoubleStar(s) == s
  {
    if s != [] {
      DoubleStarAt(s, 0);
      assert !Contains(s[1..], "**") by {
        forall i | 0 <= i <= |s[1..]| - 2
          ensures !OccursAt(s[1..], "**", i)
        {
          DoubleStarAt(s, i + 1);
          DoubleStarAt(s[1..], i);
        }
      }
      ReplaceWithoutDoubleStar(s[1..]);
    }
  }

  /** The first character of the rewrite: '[' where a `**` starts, else the original one. */
  lemma ReplaceHead(s: string)
    requires s != []
    ensures ReplaceDoubleStar(s) != []
    ensures ReplaceDoubleStar(s)[0] == if |s| >= 2 && s[0] == '*' && s[1] == '*' then '[' else s[0]
  {
  }

  /** After the rewrite no `**` is left: every remaining `*` stands alone. */
  lemma {:induction false} ReplaceLeavesNoDoubleStar(s: string)
    ensures !Contains(ReplaceDoubleStar(s), "**")
  {
    var r := ReplaceDoubleStar(s);
    if |s| >= 2 && s[0] == '*' && s[1] == '*' {
      ReplaceLeavesNoDoubleStar(s[2..]);
      var t := ReplaceDoubleStar(s[2..]);
      forall i | 0 <= i <= |r| - 2
        ensures !OccursAt(r, "**", i)
      {
        DoubleStarAt(r, i);
        if i >= |MARKER| {
          DoubleStarAt(t, i - |MARKER|);
        } else if i == |MARKER| - 1 {
          assert r[i] == ']';
        } else {
          assert r[i + 1] == MARKER[i + 1];
        }
      }
    } else if s != [] {
      ReplaceLeavesNoDoubleStar(s[1..]);
      var t := ReplaceDoubleStar(s[1..]);
      forall i | 0 <= i <= |r| - 2
        ensures !OccursAt(r, "**", i)
      {
        DoubleStarAt(r, i);
        if i >= 1 {
          DoubleStarAt(t, i - 1);
        } else if s[0] == '*' {
          ReplaceHead(s[1..]);
        }
      }
    }
  }

  /** The rewrite never shortens its input, and lengthens it when there is a `**` to rewrite. */
  lemma {:induction false} ReplaceLength(s: string)
    ensures |ReplaceDoubleStar(s)| >= |s|
    ensures Contains(s, "**") ==> |ReplaceDoubleStar(s)| >= |s| + |MARKER| - 2
  {
    if |s| >= 2 && s[0] == '*' && s[1] == '*' {
      ReplaceLength(s[2..]);
    } else if s != [] {
      ReplaceLength(s[1..]);
      if Contains(s, "**") {
        var i :| 0 <= i <= |s| - 2 && OccursAt(s, "**", i);
        DoubleStarAt(s, i);
        DoubleStarAt(s[1..], i - 1);
        DoubleStarAt(s, 0);
      }
    }
  }

  /** `**` is rewritten to the marker, and the marker is left as it is. */
  lemma ReplaceFixesMarker()
    ensures ReplaceDoubleStar("**") == MARKER
    ensures ReplaceDoubleStar(MARKER) == MARKER
  {
    assert "**"[2..] == [];
    NoStarNoDoubleStar(MARKER);
    ReplaceWithoutDoubleStar(MARKER);
  }

  /**
    Only a segment that is exactly `**` (or already spells the marker)
    turns into a bare marker segment; `a**` becomes `a[[RECURSIVE]]`.
   */
  lemma ReplaceIsMarker(seg: string)
    ensures ReplaceDoubleStar(seg) == MARKER <==> seg == "**" || seg == MARKER
  {
    ReplaceFixesMarker();
    if ReplaceDoubleStar(seg) == MARKER {
      ReplaceLength(seg);
      if Contains(seg, "**") {
        var i :| 0 <= i <= |seg| - 2 && OccursAt(seg, "**", i);
        DoubleStarAt(seg, i);
        assert |seg| == 2 && seg[0] == '*' && seg[1] == '*';
      } else {
        ReplaceWithoutDoubleStar(seg);
      }
    }
  }

  /** The rewrite applied to every segment of a list. */
  function ReplaceEach(parts: seq<string>): (r: seq<string>)
    ensures |r| == |parts|
    ensures forall k :: 0 <= k < |parts| ==> r[k] == ReplaceDoubleStar(parts[k])
  {
    if parts == [] then [] else [ReplaceDoubleStar(parts[0])] + ReplaceEach(parts[1..])
  }

  /** The marker contains no separator. */
  lemma MarkerHasNoSeparator()
    ensures SEP !in MARKER
  {
  }

  /** Splitting after a separator-free prefix only extends the first piece. */
  lemma {:induction false} SplitSeparatorFreePrefix(a: string, x: string)
    requires SEP !in a
    ensures Split(a + x) == [a + Split(x)[0]] + Split(x)[1..]
  {
    if a != [] {
      assert a[0] in a && (a + x)[0] == a[0];
      assert (a + x)[1..] == a[1..] + x;
      SplitSeparatorFreePrefix(a[1..], x);
      var rest := Split(a[1..] + x);
      assert Split(a + x) == [[a[0]] + rest[0]] + rest[1..];
      assert rest[0] == a[1..] + Split(x)[0] && rest[1..] == Split(x)[1..];
      assert [a[0]] + (a[1..] + Split(x)[0]) == a + Split(x)[0];
    } else {
      assert a + x == x && a + Split(x)[0] == Split(x)[0];
      assert Split(x) == [Split(x)[0]] + Split(x)[1..];
    }
  }

  /** The commutation step for a string starting with `**`. */
  lemma CommuteAtDoubleStar(s: string)
    requires |s| >= 2 && s[0] == '*' && s[1] == '*'
    requires Split(ReplaceDoubleStar(s[2..])) == ReplaceEach(Split(s[2..]))
    ensures Split(ReplaceDoubleStar(s)) == ReplaceEach(Split(s))
  {
    var rest := s[2..];
    var first := Split(rest)[0];
    MarkerHasNoSeparator();
    SplitSeparatorFreePrefix(MARKER, ReplaceDoubleStar(rest));
    SplitSeparatorFreePrefix("**", rest);
    assert s == "**" + rest;
    assert ("**" + first)[2..] == first;
    assert ReplaceDoubleStar("**" + first) == MARKER + ReplaceDoubleStar(first);
    assert ReplaceEach(Split(s)) == [ReplaceDoubleStar("**" + first)] + ReplaceEach(Split(rest)[1..]);
  }

  /** The commutation step for a string starting with the separator. */
  lemma CommuteAtSeparator(s: string)
    requires s != [] && s[0] == SEP
    requires Split(ReplaceDoubleStar(s[1..])) == ReplaceEach(Split(s[1..]))
    ensures Split(ReplaceDoubleStar(s)) == ReplaceEach(Split(s))
  {
    assert ReplaceDoubleStar(s) == [SEP] + ReplaceDoubleStar(s[1..]);
    assert ([SEP] + ReplaceDoubleStar(s[1..]))[1..] == ReplaceDoubleStar(s[1..]);
    assert ReplaceEach(Split(s)) == [ReplaceDoubleStar("")] + ReplaceEach(Split(s[1..]));
  }

  /** A character that does not open a `**` is copied by the rewrite. */
  lemma ReplaceCons(c: char, t: string)
    requires !(c == '*' && t != [] && t[0] == '*')
    ensures ReplaceDoubleStar([c] + t) == [c] + ReplaceDoubleStar(t)
  {
    assert ([c] + t)[1..] == t;
  }

  /** The rewrite of a list of segments, one segment at a time. */
  lemma ReplaceEachCons(x: string, xs: seq<string>)
    ensures ReplaceEach([x] + xs) == [ReplaceDoubleStar(x)] + ReplaceEach(xs)
  {
    assert ([x] + xs)[1..] == xs;
  }

  /** The commutation step for a string `[c] + rest` starting with any other character. */
  lemma CommuteAtOther(c: char, rest: string)
    requires c != SEP && !(c == '*' && rest != [] && rest[0] == '*')
    requires Split(ReplaceDoubleStar(rest)) == ReplaceEach(Split(rest))
    ensures Split(ReplaceDoubleStar([c] + rest)) == ReplaceEach(Split([c] + rest))
  {
    var parts := Split(rest);
    var first := parts[0];
    var replaced := ReplaceDoubleStar(rest);
    assert parts == [first] + parts[1..];
    // `c` cannot open a `**` with the first piece either
    SplitFirst(rest);
    if c == '*' && first != [] {
      assert first[0] == rest[0];
    }
    calc {
      Split(ReplaceDoubleStar([c] + rest));
    == { ReplaceCons(c, rest); }
      Split([c] + replaced);
    == { SplitSeparatorFreePrefix([c], replaced); }
      [[c] + Split(replaced)[0]] + Split(replaced)[1..];
    == { ReplaceEachCons(first, parts[1..]); }
      [[c] + ReplaceDoubleStar(first)] + ReplaceEach(parts[1..]);
    == { ReplaceCons(c, first); }
      [ReplaceDoubleStar([c] + first)] + ReplaceEach(parts[1..]);
    == { ReplaceEachCons([c] + first, parts[1..]); }
      ReplaceEach([[c] + first] + parts[1..]);
    == { SplitSeparatorFreePrefix([c], rest); }
      ReplaceEach(Split([c] + rest));
    }
  }

  /**
    `**` never spans a separator, so rewriting and splitting commute: the
    segments of the rewritten pattern are the rewritten segments.
   */
  lemma {:induction false} SplitReplaceCommute(s: string)
    ensures Split(ReplaceDoubleStar(s)) == ReplaceEach(Split(s))
  {
    if |s| >= 2 && s[0] == '*' && s[1] == '*' {
      SplitReplaceCommute(s[2..]);
      CommuteAtDoubleStar(s);
    } else if s != [] && s[0] == SEP {
      SplitReplaceCommute(s[1..]);
      CommuteAtSeparator(s);
    } else if s != [] {
      SplitReplaceCommute(s[1..]);
      CommuteAtOther(s[0], s[1..]);
      assert s == [s[0]] + s[1..];
    }
  }

  /**
    The segments `match` hands to `recursiveMatch`: a segment of the
    rewritten pattern is the bare marker exactly when the original segment
    is `**` (or spells the marker).
   */
  lemma MarkerSegments(pattern: string, k: int)
    requires 0 <= k < |Split(pattern)|
    ensures |Split(ReplaceDoubleStar(pattern))| == |Split(pattern)|
    ensures Split(ReplaceDoubleStar(pattern))[k] == MARKER <==> Split(pattern)[k] == "**" || Split(pattern)[k] == MARKER
  {
    SplitReplaceCommute(pattern);
    ReplaceIsMarker(Split(pattern)[k]);
  }

  // ---------------------------------------------------------------------
  // Properties of `match`

  /** The empty pattern (left by a line "/") matches every path, via the suffix test. */
  lemma EmptyPatternMatchesAll(path: string)
    ensures Matches(path, "")
  {
    NoStarNoDoubleStar("");
  }

  /**
    Without `**`, a pattern matches every path equal to it, ending with it,
    or containing it followed by '/'.
   */
  lemma {:induction false} MatchesLiteralCases(path: string, pattern: string)
    requires !Contains(pattern, "**")
    requires path == pattern || HasSuffix(path, pattern) || Contains(path, pattern + [SEP])
    ensures Matches(path, pattern)
  {
    if path == pattern {
      GlobMatchSelf(pattern);
    }
  }

  /**
    For a pattern with no wildcard at all, a match means exactly that the
    path ends with the pattern or contains it followed by '/'.
   */
  lemma MatchesLiteralPattern(path: string, pattern: string)
    requires forall k :: 0 <= k < |pattern| ==> !IsWildcard(pattern[k])
    ensures Matches(path, pattern) <==> HasSuffix(path, pattern) || Contains(path, pattern + [SEP])
  {
    NoStarNoDoubleStar(pattern);
    GlobMatchLiteral(pattern, path);
  }

  /**
    A `**`-free pattern matches its own text and every path whose last
    segment is that text, through the suffix test.
   */
  lemma MatchesLastSegment(dir: string, pattern: string)
    requires !Contains(pattern, "**")
    ensures Matches(pattern, pattern)
    ensures Matches(dir + [SEP] + pattern, pattern)
  {
    MatchesLiteralCases(pattern, pattern);
    var path := dir + [SEP] + pattern;
    assert path[|path| - |pattern|..] == pattern;
    MatchesLiteralCases(path, pattern);
  }

  /** A string without the character `c` contains nothing that has `c` in it. */
  lemma MissingCharacter(s: string, sub: string, w: int)
    requires 0 <= w < |sub| && sub[w] !in s
    ensures !HasSuffix(s, sub)
    ensures !Contains(s, sub)
  {
    if |sub| <= |s| {
      assert s[|s| - |sub|..][w] == s[|s| - |sub| + w] != sub[w];
    }
    forall i | 0 <= i <= |s| - |sub|
      ensures !OccursAt(s, sub, i)
    {
      assert s[i..i + |sub|][w] == s[i + w] != sub[w];
    }
  }

  /**
    A wildcard only works through the glob test, and the glob test never
    crosses a '/': a one-segment pattern with a `*` or `?` that the path
    does not spell out literally misses every path with more than one
    segment. So `*.log` does not match `logs/app.log`.
   */
  lemma WildcardMissesNestedPaths(path: string, pattern: string, w: int)
    requires !Contains(pattern, "**") && SEP !in pattern
    requires 0 <= w < |pattern| && IsWildcard(pattern[w]) && pattern[w] !in path
    requires SEP in path
    ensures !Matches(path, pattern)
  {
    if GlobMatch(pattern, path) {
      GlobMatchNoSeparator(pattern, path);
    }
    MissingCharacter(path, pattern, w);
    MissingCharacter(path, pattern + [SEP], w);
  }

  /** `*.log` matches `app.log` but not `logs/app.log`. */
  lemma StarLogExample()
    ensures Matches("app.log", "*.log")
    ensures !Matches("logs/app.log", "*.log")
  {
    var pattern := "*.log";
    forall i | 0 <= i <= |pattern| - 2
      ensures !OccursAt(pattern, "**", i)
    {
      DoubleStarAt(pattern, i);
    }
    assert GlobMatch(".log", ".log") by {
      GlobMatchSelf(".log");
    }
    assert GlobMatch(pattern, "app.log") by {
      assert "app.log"[3..] == ".log";
      assert GlobMatch(pattern, "app.log"[1..][1..][1..]);
    }
    assert "logs/app.log"[4] == SEP;
    WildcardMissesNestedPaths("logs/app.log", pattern, 0);
  }

  /**
    Neither fallback test is bounded by a separator on the left: `build`
    matches `rebuild` and `rebuild/x`.
   */
  lemma SuffixIsNotSegmentBounded()
    ensures Matches("rebuild", "build")
    ensures Matches("rebuild/x", "build")
  {
    NoStarNoDoubleStar("build");
    assert OccursAt("rebuild/x", "build" + [SEP], 2);
  }

  /**
    A `**`-free pattern matches every path below a directory it names, at
    any depth: `build` matches `build/keep.txt` and `src/build/out.bin`.
   */
  lemma DirectoryPatternMatchesContents(dir: string, name: string, rest: string)
    requires !Contains(name, "**")
    ensures Matches(dir + name + [SEP] + rest, name)
  {
    var path := dir + name + [SEP] + rest;
    assert OccursAt(path, name + [SEP], |dir|) by {
      assert path[|dir|..|dir| + |name| + 1] == name + [SEP];
    }
    MatchesLiteralCases(path, name);
  }

  /** The pattern `a/**/b`, once rewritten and split. */
  lemma RecursivePatternParts()
    ensures Contains("a/**/b", "**")
    ensures Split(ReplaceDoubleStar("a/**/b")) == ["a", MARKER, "b"]
  {
    var s := "a/**/b";
    assert OccursAt(s, "**", 2);
    assert s[1..][1..][2..] == "/b";
    assert ReplaceDoubleStar(s) == "a/" + MARKER + "/b";
    var parts := ["a", MARKER, "b"];
    assert parts[1..] == [MARKER, "b"] && parts[1..][1..] == ["b"];
    assert Join(parts[1..]) == MARKER + [SEP] + "b";
    assert Join(parts) == "a" + [SEP] + (MARKER + [SEP] + "b");
    assert "a" + [SEP] + (MARKER + [SEP] + "b") == "a/" + MARKER + "/b";
    SplitJoin(parts);
  }

  /** The segments of `a/b`, `a/x/y/b` and `a/x/c`. */
  lemma ExamplePathParts()
    ensures Split("a/b") == ["a", "b"]
    ensures Split("a/x/y/b") == ["a", "x", "y", "b"]
    ensures Split("a/x/c") == ["a", "x", "c"]
  {
    var p1, p2, p3 := ["a", "b"], ["a", "x", "y", "b"], ["a", "x", "c"];
    assert p2[1..][1..] == ["y", "b"] && p2[1..][1..][1..] == ["b"];
    assert p3[1..][1..] == ["c"];
    assert Join(p1) == "a/b";
    assert Join(p2) == "a/x/y/b";
    assert Join(p3) == "a/x/c";
    SplitJoin(p1);
    SplitJoin(p2);
    SplitJoin(p3);
  }

  /** Segment-level behaviour of `a/**/b`. */
  lemma RecursiveSegmentsExamples()
    ensures SegmentsMatch(["a", "b"], ["a", MARKER, "b"])
    ensures SegmentsMatch(["a", "x", "y", "b"], ["a", MARKER, "b"])
    ensures !SegmentsMatch(["a", "x", "c"], ["a", MARKER, "b"])
  {
    GlobMatchSelf("a");
    GlobMatchSelf("b");
    var tail := [MARKER, "b"];
    assert tail[1..] == ["b"];
    assert SegmentsMatch(["b"], ["b"]);
    var p1 := ["a", "b"];
    assert SegmentsMatch(p1[1..], tail) by {
      assert p1[1..][0..] == ["b"];
    }
    var p2 := ["a", "x", "y", "b"];
    assert SegmentsMatch(p2[1..], tail) by {
      assert p2[1..][2..] == ["b"];
    }
    var p3 := ["a", "x", "c"];
    forall k | 0 <= k <= |p3[1..]|
      ensures !SegmentsMatch(p3[1..][k..], ["b"])
    {
      if k == 1 {
        assert p3[1..][k..] == ["c"];
        GlobMatchLiteral("b", "c");
      }
    }
  }

  /** `a/**/b` matches `a/b` (the marker takes no segment) and `a/x/y/b` (it takes two), but not `a/x/c`. */
  lemma RecursiveExamples()
    ensures Matches("a/b", "a/**/b")
    ensures Matches("a/x/y/b", "a/**/b")
    ensures !Matches("a/x/c", "a/**/b")
  {
    RecursivePatternParts();
    ExamplePathParts();
    RecursiveSegmentsExamples();
  }
}
