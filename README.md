# dirtext ignore filter, in Dafny

`dirtext` prints a directory tree. It leaves out hidden entries and the
paths that the patterns of a `.gitignore` file at the tree's root exclude.
This project models the filtering core of `cmd/dirtext/main.go` and proves
properties of it:

- `isHidden` is the `Hidden` module. A path is hidden when one of its
  '/'-separated segments starts with '.'.
- The per-line cleanup of `loadGitignore` is the `Loader` module. Each line
  is trimmed of white space. Blank lines and `#` comments are dropped. One
  leading and one trailing '/' are removed. The result is the ordered
  pattern list.
- `shouldIgnore` is the `Filter` module. The patterns are tried in order and
  the first one that matches decides. A `!` pattern that matches keeps the
  path. A plain pattern that matches ignores it. A path that no pattern
  matches is kept.
- `match` and `recursiveMatch` are the `Matcher` module.
  - A pattern without `**` matches when one of three tests holds: it
    glob-matches the whole path, the path ends with it, or the path
    contains it followed by '/'.
  - A pattern with `**` has every `**` rewritten to the marker
    `[[RECURSIVE]]`. Pattern and path are then split on '/'. A backtracking
    matcher lets a segment that is exactly the marker absorb any number of
    path segments.
- The Go library pieces these rely on:
  - `GoStrings` has `strings.TrimSpace`, `HasPrefix`, `HasSuffix`,
    `Contains`, `TrimPrefix`, `TrimSuffix` and `Split`;
  - `Glob` has `filepath.Match` on literals, `?` and `*`;
  - `Matcher.ReplaceDoubleStar` is the `strings.Replace` call that rewrites
    `**`.

The operations that loop or update variables in the source are methods,
each proved against a specification function:

| method | specification |
|---|---|
| `IsHidden` | `SomeSegmentHidden` |
| `CleanPatterns` | `Cleaned` |
| `ShouldIgnore` | `Verdict` |
| `Match` | `Matches` |
| `RecursiveMatch` | `SegmentsMatch` |

`SegmentsMatch` is a declarative reading of `**`: a marker segment stands
for some number k ≥ 0 of path segments. The lemmas are about these
specification functions.

Where the code departs from gitignore's usual semantics, the model follows
the code:

- `shouldIgnore` is first-match-wins, whereas in gitignore the last
  matching pattern decides. Nor does a matching negation override the other
  patterns wherever it stands. For the patterns `["build", "!build/keep.txt"]`, the path `build/keep.txt` is **ignored**,
  because `build` is tried first and matches through its `build/` test
  (`Filter.FirstMatchWinsExample`). The negation wins only when it is listed
  first.
- The `pattern + "/"` fallback of `match` is not bounded by a separator on
  its left. So `build` also matches `rebuild/x`, and through the suffix test
  it matches `rebuild` (`Matcher.SuffixIsNotSegmentBounded`).
- A wildcard works only through the glob test, in which `*` and `?` never
  match a '/'. So `*.log` matches `app.log` but not `logs/app.log`
  (`Matcher.StarLogExample`), while `logs/*.log` does match `logs/app.log`
  through its literal '/'. `Matcher.WildcardMissesNestedPaths` covers only
  patterns without '/'.
- The cleanup removes only one '/' at each end. The line `/` therefore gives
  the empty pattern, which matches every path (`Loader.SlashExamples`,
  `Matcher.EmptyPatternMatchesAll`, `Filter.EmptyPatternIgnoresRest`).

Files:
- `strings.dfy` holds `GoStrings`;
- `glob.dfy` holds `Glob`;
- `matcher.dfy` holds `Matcher`;
- `filter.dfy` holds `Filter`;
- `hidden.dfy` holds `Hidden`;
- `loader.dfy` holds `Loader`.

## Model

| member | source | states |
|---|---|---|
| `GoStrings.HasPrefix` | cmd/dirtext/main.go:87 | `strings.HasPrefix`: the string starts with the prefix |
| `GoStrings.HasSuffix` | cmd/dirtext/main.go:181 | `strings.HasSuffix`: the string ends with the suffix |
| `GoStrings.Contains` | cmd/dirtext/main.go:162 | `strings.Contains`: the substring occurs at some index |
| `GoStrings.TrimPrefix` | cmd/dirtext/main.go:120 | `strings.TrimPrefix`: removes one leading copy of the prefix when present |
| `GoStrings.TrimSuffix` | cmd/dirtext/main.go:123 | `strings.TrimSuffix`: removes one trailing copy of the suffix when present |
| `GoStrings.TrimSpace` | cmd/dirtext/main.go:109 | `strings.TrimSpace`: drops leading, then trailing, white space |
| `GoStrings.TrimLeftRemovesLeadingSpace` | cmd/dirtext/main.go:109 | the left trim leaves a suffix of the line; everything it drops is white space, and what it keeps does not start with white space |
| `GoStrings.TrimRightRemovesTrailingSpace` | cmd/dirtext/main.go:109 | the right trim leaves a prefix of the line; everything it drops is white space, and what it keeps does not end with white space |
| `GoStrings.TrimSpaceSlice` | cmd/dirtext/main.go:109 | the trimmed line is the slice of the line between a white-space prefix and a white-space suffix; it has no white space at either end, and it is empty exactly when the line is all white space |
| `GoStrings.TrimSpaceUnchanged` | cmd/dirtext/main.go:109 | a line with no white space at either end is left unchanged by trimming |
| `GoStrings.Split` | cmd/dirtext/main.go:83 | splitting on '/' gives at least one piece, and no piece contains '/' |
| `GoStrings.JoinSplit` | cmd/dirtext/main.go:167-168 | joining the pieces of a split with '/' gives back the original string |
| `GoStrings.SplitSingle` | cmd/dirtext/main.go:167-168 | a string without '/' splits into exactly itself |
| `GoStrings.SplitAppend` | cmd/dirtext/main.go:167-168 | the pieces of `a + "/" + b` are the pieces of `a` followed by those of `b` |
| `GoStrings.SplitJoin` | cmd/dirtext/main.go:167-168 | splitting undoes joining for any non-empty list of '/'-free pieces |
| `GoStrings.SplitFirst` | cmd/dirtext/main.go:83 | the first piece of a split is a prefix of the string |
| `Glob.GlobMatch` | cmd/dirtext/main.go:174 | `filepath.Match` on literals, `?` and `*`: the whole name is matched, and `?` and `*` never match '/' |
| `Glob.GlobMatchSelf` | cmd/dirtext/main.go:174 | every pattern glob-matches its own text |
| `Glob.GlobMatchLiteral` | cmd/dirtext/main.go:174 | a pattern without `*` or `?` matches a name exactly when the name equals the pattern |
| `Glob.GlobMatchNoSeparator` | cmd/dirtext/main.go:211 | a pattern without '/' only matches names without '/', so a pattern segment only matches a single path segment |
| `Glob.GlobMatchLength` | cmd/dirtext/main.go:174 | without `*`, a matched name is exactly as long as the pattern |
| `Matcher.ReplaceDoubleStar` | cmd/dirtext/main.go:164 | `strings.Replace(pattern, "**", "[[RECURSIVE]]", -1)`: every `**`, left to right without overlap, becomes the marker |
| `Matcher.SegmentsMatch` | cmd/dirtext/main.go:186-217 | the reference meaning of `recursiveMatch`: a marker segment absorbs some k ≥ 0 path segments, and every other segment glob-matches exactly one path segment, in order, with nothing left over |
| `Matcher.Matches` | cmd/dirtext/main.go:157-183 | the reference meaning of `match`: for a pattern with `**`, segment matching of the split path against the rewritten and split pattern; otherwise whole-path glob, suffix, or "contains pattern + '/'" |
| `Matcher.RecursiveMatch` | cmd/dirtext/main.go:186-217 | the backtracking search over the two cursors answers whether the remaining path segments match the remaining pattern segments, with each marker absorbing some k ≥ 0 path segments |
| `Matcher.Match` | cmd/dirtext/main.go:157-183 | `match` answers `Matches`: the segment match of the rewritten and split pattern when it contains `**`; otherwise whole-path glob, suffix, or "contains pattern + '/'" |
| `Matcher.EmptyPatternMatch` | cmd/dirtext/main.go:188-190 | once the pattern is used up, there is a match exactly when the path is used up too |
| `Matcher.EmptyPathMatch` | cmd/dirtext/main.go:192-200 | once the path is used up, there is a match exactly when every remaining pattern segment is the marker |
| `Matcher.MarkerStep` | cmd/dirtext/main.go:203-208 | at a marker, the match holds exactly when "the marker absorbs this segment" or "the marker is done" holds; the third branch, which advances both cursors, can only succeed where these do |
| `Matcher.SegmentsMatchWithoutMarker` | cmd/dirtext/main.go:210-216 | without markers, segment matching means equally many segments, glob-matched pairwise in order |
| `Matcher.MarkerMatchesAll` | cmd/dirtext/main.go:203-208 | a lone marker segment matches every path |
| `Matcher.DoubleStarAt` | cmd/dirtext/main.go:162 | an occurrence of `**` at index i means two consecutive `*` characters there |
| `Matcher.NoStarNoDoubleStar` | cmd/dirtext/main.go:162 | a pattern without `*` takes the non-recursive branch |
| `Matcher.ReplaceWithoutDoubleStar` | cmd/dirtext/main.go:164 | the rewrite leaves a pattern without `**` unchanged |
| `Matcher.ReplaceHead` | cmd/dirtext/main.go:164 | the rewrite starts with '[' where a `**` starts the pattern, and with the pattern's first character otherwise |
| `Matcher.ReplaceLeavesNoDoubleStar` | cmd/dirtext/main.go:164 | after the rewrite no `**` remains |
| `Matcher.ReplaceLength` | cmd/dirtext/main.go:164 | the rewrite never shortens the pattern, and lengthens it by at least 11 characters when it contains `**` |
| `Matcher.ReplaceFixesMarker` | cmd/dirtext/main.go:164 | `**` is rewritten to the marker, and the marker is left unchanged |
| `Matcher.ReplaceIsMarker` | cmd/dirtext/main.go:164 | a segment is rewritten to the bare marker exactly when it is `**` or already spells the marker |
| `Matcher.ReplaceEach` | cmd/dirtext/main.go:164-167 | the segment-wise rewrite keeps the number of segments and rewrites each one |
| `Matcher.MarkerHasNoSeparator` | cmd/dirtext/main.go:164-167 | the marker contains no '/', so the rewrite cannot create new segments |
| `Matcher.SplitSeparatorFreePrefix` | cmd/dirtext/main.go:167 | a '/'-free prefix only lengthens the first piece of a split |
| `Matcher.ReplaceCons` | cmd/dirtext/main.go:164 | a character that does not open a `**` is copied unchanged by the rewrite |
| `Matcher.ReplaceEachCons` | cmd/dirtext/main.go:164-167 | the segment-wise rewrite works one segment at a time |
| `Matcher.CommuteAtDoubleStar` | cmd/dirtext/main.go:164-167 | the step of `SplitReplaceCommute` for a pattern that starts with `**` |
| `Matcher.CommuteAtSeparator` | cmd/dirtext/main.go:164-167 | the step of `SplitReplaceCommute` for a pattern that starts with '/' |
| `Matcher.CommuteAtOther` | cmd/dirtext/main.go:164-167 | the step of `SplitReplaceCommute` for a pattern that starts with any other character |
| `Matcher.SplitReplaceCommute` | cmd/dirtext/main.go:164-167 | rewriting `**` and then splitting gives the same segments as splitting and then rewriting each segment |
| `Matcher.MarkerSegments` | cmd/dirtext/main.go:164-170 | the rewritten pattern has as many segments as the original, and a segment is the bare marker exactly when the original segment is `**` (or the marker itself) |
| `Matcher.EmptyPatternMatchesAll` | cmd/dirtext/main.go:181 | the empty pattern matches every path, through the suffix test |
| `Matcher.MatchesLiteralCases` | cmd/dirtext/main.go:173-182 | a pattern without `**` matches every path that equals it, ends with it, or contains it followed by '/' |
| `Matcher.MatchesLiteralPattern` | cmd/dirtext/main.go:173-182 | a pattern without wildcards matches exactly when the path ends with it or contains it followed by '/' |
| `Matcher.MatchesLastSegment` | cmd/dirtext/main.go:173-181 | a `**`-free pattern matches its own text and every path ending in '/' followed by it |
| `Matcher.MissingCharacter` | cmd/dirtext/main.go:181-182 | a string lacking a character of `sub` neither ends with `sub` nor contains it, so wildcard characters defeat both fallback tests |
| `Matcher.WildcardMissesNestedPaths` | cmd/dirtext/main.go:173-182 | a one-segment `**`-free pattern with a `*` or `?` the path does not contain literally never matches a path with a '/' |
| `Matcher.StarLogExample` | cmd/dirtext/main.go:173-182 | `*.log` matches `app.log` but not `logs/app.log` |
| `Matcher.SuffixIsNotSegmentBounded` | cmd/dirtext/main.go:179-182 | the fallbacks are not segment-bounded on the left: `build` matches `rebuild` and `rebuild/x` |
| `Matcher.DirectoryPatternMatchesContents` | cmd/dirtext/main.go:179-182 | a `**`-free pattern matches every path `dir + name + "/" + rest` below a directory it names, at any depth |
| `Matcher.RecursivePatternParts` | cmd/dirtext/main.go:162-167 | `a/**/b` takes the recursive branch and splits into `a`, the marker, and `b` |
| `Matcher.ExamplePathParts` | cmd/dirtext/main.go:168 | the segments of the example paths `a/b`, `a/x/y/b` and `a/x/c` |
| `Matcher.RecursiveSegmentsExamples` | cmd/dirtext/main.go:186-217 | the marker absorbs zero segments (`a/b`) or two (`a/x/y/b`), and `a/x/c` does not match |
| `Matcher.RecursiveExamples` | cmd/dirtext/main.go:157-217 | `a/**/b` matches `a/b` and `a/x/y/b`, but not `a/x/c` |
| `Hidden.SomeSegmentHidden` | cmd/dirtext/main.go:83-92 | the answer of `isHidden`: some segment of the '/'-split path starts with '.' |
| `Hidden.IsHidden` | cmd/dirtext/main.go:81-93 | a path is hidden exactly when one of its segments starts with '.', which holds exactly when some '.' is at index 0 or right after a '/' |
| `Hidden.SomeSegmentHiddenCons` | cmd/dirtext/main.go:86-90 | a segment list is hidden when its first segment or its remaining segments are |
| `Hidden.DotStartsSegmentShift` | cmd/dirtext/main.go:83 | dropping the path's first character shifts the segment-opening dots by one |
| `Hidden.TailSegmentsHidden` | cmd/dirtext/main.go:83-90 | the segments after the first are hidden exactly when a '.' opens a segment past index 0 |
| `Hidden.FirstSegmentHidden` | cmd/dirtext/main.go:83-88 | the first segment is hidden exactly when the path starts with '.' |
| `Hidden.HiddenIffDotStartsSegment` | cmd/dirtext/main.go:81-93 | the segment test agrees with the character-level test in both directions |
| `Hidden.HiddenExtends` | cmd/dirtext/main.go:81-93 | appending segments to a hidden path leaves it hidden |
| `Hidden.HiddenBelow` | cmd/dirtext/main.go:81-93 | every path below a hidden directory is hidden, whatever its ancestors |
| `Loader.Skipped` | cmd/dirtext/main.go:109-114 | a line is skipped when, once trimmed, it is empty or starts with `#` |
| `Loader.PatternOf` | cmd/dirtext/main.go:117-123 | the pattern of a kept line: the trimmed line with one leading and one trailing '/' removed where present |
| `Loader.PatternOfStripsOneSlash` | cmd/dirtext/main.go:117-123 | the pattern is the trimmed line minus at most one '/' at each end and nothing else: a leading '/' is removed, a trailing '/' is removed, both when the line has both and is at least 2 long, and a line with neither is kept as it is |
| `Loader.LinePatterns` | cmd/dirtext/main.go:109-125 | each line contributes at most one pattern |
| `Loader.FlatMapAppend` | cmd/dirtext/main.go:108-126 | the per-line contributions of two blocks of lines are concatenated |
| `Loader.Cleaned` | cmd/dirtext/main.go:105-126 | the pattern list the cleanup loop produces: for each line in order, nothing when it is skipped, else its pattern |
| `Loader.CleanPatterns` | cmd/dirtext/main.go:105-126 | the loop yields the patterns of the kept lines, in line order |
| `Loader.CleanedAppend` | cmd/dirtext/main.go:108-126 | cleaning works line by line: the patterns of two blocks of lines are concatenated |
| `Loader.CleanedLine` | cmd/dirtext/main.go:109-125 | one line yields nothing when it is skipped, and its cleaned pattern otherwise |
| `Loader.CleanedLength` | cmd/dirtext/main.go:105-126 | there are never more patterns than lines |
| `Loader.FlatMapMembers` | cmd/dirtext/main.go:108-126 | an element appears in the concatenation exactly when some input element contributes it |
| `Loader.CleanedMembers` | cmd/dirtext/main.go:105-126 | a pattern is in the list exactly when some kept line yields it |
| `Loader.SkippedLinesVanish` | cmd/dirtext/main.go:111-114 | a blank or comment line contributes nothing, wherever it stands |
| `Loader.SlashExamples` | cmd/dirtext/main.go:119-123 | `/` gives the empty pattern, `/#x` gives the pattern `#x`, and `//a//` gives `/a/` |
| `Loader.SkippedExamples` | cmd/dirtext/main.go:109-114 | an indented comment and a line of blanks and tabs are skipped |
| `Filter.IsNegation` | cmd/dirtext/main.go:139 | `strings.HasPrefix(pattern, "!")`: the pattern is a negation |
| `Filter.Effective` | cmd/dirtext/main.go:140 | `strings.TrimPrefix(pattern, "!")`: the pattern that is matched, without its leading '!' |
| `Filter.Verdict` | cmd/dirtext/main.go:136-154 | the reference meaning of `shouldIgnore`: the first pattern whose effective form (without a leading '!') matches decides; a negation keeps, a plain pattern ignores, and no match keeps |
| `Filter.ShouldIgnore` | cmd/dirtext/main.go:136-154 | the scan answers `Verdict`: the first pattern whose effective form matches decides |
| `Filter.VerdictIsFirstMatch` | cmd/dirtext/main.go:136-154 | the path is ignored exactly when the first matching pattern exists and is not a negation |
| `Filter.NegationFirstKeeps` | cmd/dirtext/main.go:139-143 | a negation that is the first pattern to match keeps the path |
| `Filter.NoMatchKeeps` | cmd/dirtext/main.go:153 | a path that no pattern matches is kept, and an empty pattern list keeps every path |
| `Filter.LaterPatternsIrrelevant` | cmd/dirtext/main.go:137-151 | patterns listed after a matching one never change the answer |
| `Filter.PlainPattern` | cmd/dirtext/main.go:139-140 | a pattern is plain exactly when it does not start with '!', and a plain pattern is matched as written |
| `Filter.DecidedByFirst` | cmd/dirtext/main.go:137-150 | when the first pattern matches, it alone decides |
| `Filter.BuildMatches` | cmd/dirtext/main.go:173-182 | `build` matches `build/keep.txt` and `build/other.txt`, and `build/keep.txt` matches itself |
| `Filter.FirstMatchWinsExample` | cmd/dirtext/main.go:136-154 | with `build` listed before `!build/keep.txt`, both `build/keep.txt` and `build/other.txt` are ignored; listed the other way round, `build/keep.txt` is kept |
| `Filter.EmptyPatternIgnoresRest` | cmd/dirtext/main.go:147-150 | the empty pattern ignores every path that no earlier pattern matches |

## Left out

- `main`, the directory walk and the tree printing (cmd/dirtext/main.go:12-78) are outside the filter core.
- Opening the ignore file, the scanner and its error (cmd/dirtext/main.go:96-103, 128-133) are I/O. `CleanPatterns` takes the file's lines as input.
- `GoStrings.TrimSpace` removes only ASCII white space. Go's `strings.TrimSpace` also removes Unicode spaces such as U+0085 and U+00A0.
- `Glob.GlobMatch` models `filepath.Match` with literals, `?` and `*` only:
  - Character classes `[...]` and `\` escapes are matched literally.
  - `ErrBadPattern` is not modelled. Go reports no match for a malformed pattern such as `[` or `a[b`, and the source takes that as "no glob match". The model instead matches such a pattern literally, so `[` matches the path `[` through the glob test. The suffix and "contains pattern + '/'" tests treat the text literally in the source too, so only the glob test differs.
  - As a result, a segment such as `a**`, rewritten to `a[[RECURSIVE]]`, is matched here as literal text. Go would read `[[RECURSIVE]` in it as a character class.
- The path separator is fixed to '/'. `os.PathSeparator` on Windows is not modelled.
- `isDir` is accepted by `Match` and `ShouldIgnore` but is unused, as in the source.
- The running time of the backtracking in `recursiveMatch` is not modelled. Only its answer is.
