/**
  `isHidden` of cmd/dirtext/main.go: a relative path is hidden when one of
  its segments starts with '.'.
 */
module Hidden {
  import opened GoStrings

  /** Some segment of the list starts with '.'. */
  predicate SomeSegmentHidden(parts: seq<string>) {
    exists k | 0 <= k < |parts| :: HasPrefix(parts[k], ".")
  }

  /** Character-level reference: a '.' at index `k` opens a segment. */
  predicate DotStartsSegment(path: string, k: int) {
    0 <= k < |path| && path[k] == '.' && (k == 0 || path[k - 1] == SEP)
  }

  /** `isHidden(path)`: scans the segments and stops at the first one starting with '.'. */
  method IsHidden(path: string) returns (hidden: bool)
    ensures hidden <==> SomeSegmentHidden(Split(path))
    ensures hidden <==> exists k | 0 <= k < |path| :: DotStartsSegment(path, k)
  {
    HiddenIffDotStartsSegment(path);
    var parts := Split(path);
    for i := 0 to |parts|
      invariant forall k :: 0 <= k < i ==> !HasPrefix(parts[k], ".")
    {
      if HasPrefix(parts[i], ".") {
        return true;
      }
    }
    return false;
  }

  /** A list of segments is hidden when its head or its tail is. */
  lemma SomeSegmentHiddenCons(parts: seq<string>)
    requires parts != []
    ensures SomeSegmentHidden(parts) <==> HasPrefix(parts[0], ".") || SomeSegmentHidden(parts[1..])
  {
    if SomeSegmentHidden(parts) && !HasPrefix(parts[0], ".") {
      var k :| 0 <= k < |parts| && HasPrefix(parts[k], ".");
      assert parts[1..][k - 1] == parts[k];
    }
    if SomeSegmentHidden(parts[1..]) {
      var k :| 0 <= k < |parts[1..]| && HasPrefix(parts[1..][k], ".");
      assert parts[k + 1] == parts[1..][k];
    }
  }

  /** Dropping the first character shifts the segment starts by one. */
  lemma DotStartsSegmentShift(s: string, k: nat)
    requires s != []
    ensures DotStartsSegment(s, k + 1) <==> DotStartsSegment(s[1..], k) && (k > 0 || s[0] == SEP)
  {
  }

  /** The segments after the first are hidden exactly when a '.' opens a segment past index 0. */
  lemma {:induction false} TailSegmentsHidden(s: string)
    ensures SomeSegmentHidden(Split(s)[1..]) <==> exists k | 1 <= k < |s| :: DotStartsSegment(s, k)
  {
    if s == [] {
      return;
    }
    var t := s[1..];
    TailSegmentsHidden(t);
    var tParts := Split(t);
    if s[0] == SEP {
      assert Split(s)[1..] == tParts;
      SomeSegmentHiddenCons(tParts);
      // the first piece of `t` is hidden exactly when `t` starts with '.'
      assert HasPrefix(tParts[0], ".") <==> DotStartsSegment(t, 0) by {
        SplitFirst(t);
        if t != [] && t[0] != SEP {
          assert tParts[0] != [];
        }
      }
      if exists k | 1 <= k < |s| :: DotStartsSegment(s, k) {
        var k :| 1 <= k < |s| && DotStartsSegment(s, k);
        DotStartsSegmentShift(s, k - 1);
      }
      if SomeSegmentHidden(tParts) {
        var k: nat :| k < |t| && DotStartsSegment(t, k);
        DotStartsSegmentShift(s, k);
      }
    } else {
      assert Split(s)[1..] == tParts[1..];
      if exists k | 1 <= k < |s| :: DotStartsSegment(s, k) {
        var k :| 1 <= k < |s| && DotStartsSegment(s, k);
        DotStartsSegmentShift(s, k - 1);
      }
      if exists k | 1 <= k < |t| :: DotStartsSegment(t, k) {
        var k :| 1 <= k < |t| && DotStartsSegment(t, k);
        DotStartsSegmentShift(s, k);
      }
    }
  }

  /** The first segment is hidden exactly when the path starts with '.'. */
  lemma FirstSegmentHidden(s: string)
    ensures HasPrefix(Split(s)[0], ".") <==> DotStartsSegment(s, 0)
  {
    SplitFirst(s);
    if s != [] && s[0] != SEP {
      assert Split(s)[0] != [];
    }
  }

  /** `isHidden`'s segment test agrees with the character-level reference. */
  lemma HiddenIffDotStartsSegment(path: string)
    ensures SomeSegmentHidden(Split(path)) <==> exists k | 0 <= k < |path| :: DotStartsSegment(path, k)
  {
    SomeSegmentHiddenCons(Split(path));
    TailSegmentsHidden(path);
    FirstSegmentHidden(path);
    if exists k | 0 <= k < |path| :: DotStartsSegment(path, k) {
      var k :| 0 <= k < |path| && DotStartsSegment(path, k);
      if k > 0 {
        assert exists j | 1 <= j < |path| :: DotStartsSegment(path, j);
      }
    }
  }

  /** Appending further segments to a hidden path keeps it hidden. */
  lemma HiddenExtends(p: string, q: string)
    requires SomeSegmentHidden(Split(p))
    ensures SomeSegmentHidden(Split(p + [SEP] + q))
  {
    SplitAppend(p, q);
    var k :| 0 <= k < |Split(p)| && HasPrefix(Split(p)[k], ".");
    assert Split(p + [SEP] + q)[k] == Split(p)[k];
  }

  /** A path below a hidden directory is hidden, whatever the directory's ancestors. */
  lemma HiddenBelow(p: string, q: string)
    requires SomeSegmentHidden(Split(q))
    ensures SomeSegmentHidden(Split(p + [SEP] + q))
  {
    SplitAppend(p, q);
    var k :| 0 <= k < |Split(q)| && HasPrefix(Split(q)[k], ".");
    assert Split(p + [SEP] + q)[|Split(p)| + k] == Split(q)[k];
  }
}
