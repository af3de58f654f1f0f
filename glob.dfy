/**
  A simplified model of Go's `filepath.Match(pattern, name)` with the
  separator fixed to '/': a literal character matches itself, `?` matches
  one character other than '/', and `*` matches a (possibly empty) run of
  characters other than '/'. The pattern must cover the whole name.
 */
module Glob {
  import opened GoStrings

  predicate IsWildcard(c: char) {
    c == '*' || c == '?'
  }

  function GlobMatch(pattern: string, name: string): bool
    decreases |pattern| + |name|
  {
    if pattern == [] then
      name == []
    else if pattern[0] == '*' then
      GlobMatch(pattern[1..], name) || (name != [] && name[0] != SEP && GlobMatch(pattern, name[1..]))
    else if pattern[0] == '?' then
      name != [] && name[0] != SEP && GlobMatch(pattern[1..], name[1..])
    else
      name != [] && name[0] == pattern[0] && GlobMatch(pattern[1..], name[1..])
  }

  /** Every pattern matches its own text (`*` and `?` match themselves). */
  lemma {:induction false} GlobMatchSelf(p: string)
    ensures GlobMatch(p, p)
  {
    if p != [] {
      GlobMatchSelf(p[1..]);
      if p[0] == '*' {
        assert GlobMatch(p, p[1..]);
      }
    }
  }

  /** A pattern without wildcards matches exactly the name equal to it. */
  lemma {:induction false} GlobMatchLiteral(p: string, name: string)
    requires forall k :: 0 <= k < |p| ==> !IsWildcard(p[k])
    ensures GlobMatch(p, name) <==> name == p
  {
    if p != [] && name != [] {
      GlobMatchLiteral(p[1..], name[1..]);
      if name[0] == p[0] && name[1..] == p[1..] {
        assert name == [name[0]] + name[1..];
        assert p == [p[0]] + p[1..];
      }
    }
  }

  /** Wildcards never match the separator: a separator-free pattern only matches separator-free names. */
  lemma {:induction false} GlobMatchNoSeparator(p: string, name: string)
    requires SEP !in p
    requires GlobMatch(p, name)
    ensures SEP !in name
    decreases |p| + |name|
  {
    if p != [] && name != [] {
      if p[0] == '*' {
        if GlobMatch(p[1..], name) {
          GlobMatchNoSeparator(p[1..], name);
        } else {
          GlobMatchNoSeparator(p, name[1..]);
          assert name == [name[0]] + name[1..];
        }
      } else {
        GlobMatchNoSeparator(p[1..], name[1..]);
        assert name == [name[0]] + name[1..];
      }
    }
  }

  /** Without `*`, a match consumes exactly one name character per pattern character. */
  lemma {:induction false} GlobMatchLength(p: string, name: string)
    requires '*' !in p
    requires GlobMatch(p, name)
    ensures |name| == |p|
  {
    if p != [] {
      GlobMatchLength(p[1..], name[1..]);
    }
  }
}
