/**
 * Dotted key paths: `path.split(".")` as used by `_delve`, its inverse, and the prefix
 * relation on segment lists that decides whether two keys can disturb each other.
 */
module Paths {

  /** `path.split(".")`: never empty; `"a..b"` gives `["a", "", "b"]`. */
  function Segments(path: string): (segs: seq<string>)
    ensures |segs| >= 1
    ensures forall i :: 0 <= i < |segs| ==> '.' !in segs[i]
    decreases |path|
  {
    if |path| == 0 then [""]
    else if path[0] == '.' then [""] + Segments(path[1..])
    else
      var r := Segments(path[1..]);
      [[path[0]] + r[0]] + r[1..]
  }

  /** `segs.join(".")`. */
  function JoinDots(segs: seq<string>): string
    requires |segs| >= 1
    decreases |segs|
  {
    if |segs| == 1 then segs[0] else segs[0] + "." + JoinDots(segs[1..])
  }

  /** No segment contains a dot, so joining and splitting again gives the same list. */
  predicate DotFree(segs: seq<string>) {
    forall i :: 0 <= i < |segs| ==> '.' !in segs[i]
  }

  /** `a` is a proper prefix of `b`. */
  predicate ProperPrefix<T(==)>(a: seq<T>, b: seq<T>) {
    |a| < |b| && b[..|a|] == a
  }

  /** Joining the segments of a path gives the path back. */
  lemma {:induction false} JoinSegments(path: string)
    ensures JoinDots(Segments(path)) == path
    decreases |path|
  {
    if |path| > 0 {
      var r := Segments(path[1..]);
      JoinSegments(path[1..]);
      if path[0] == '.' {
        assert Segments(path)[1..] == r;
      } else {
        var segs := [[path[0]] + r[0]] + r[1..];
        assert segs[1..] == r[1..];
        if |r| == 1 {
          assert JoinDots(segs) == [path[0]] + r[0];
        } else {
          assert JoinDots(r) == r[0] + "." + JoinDots(r[1..]);
          assert JoinDots(segs) == [path[0]] + r[0] + "." + JoinDots(r[1..]);
        }
      }
      assert path == [path[0]] + path[1..];
    }
  }

  /** A path without dots is its own single segment: `_delve`'s shortcut agrees with the loop. */
  lemma {:induction false} SegmentsWithoutDot(path: string)
    requires '.' !in path
    ensures Segments(path) == [path]
    decreases |path|
  {
    if |path| > 0 {
      SegmentsWithoutDot(path[1..]);
      assert [path[0]] + path[1..] == path;
    }
  }

  /** Splitting a join of dot-free segments gives the segments back. */
  lemma {:induction false} SegmentsJoin(segs: seq<string>)
    requires |segs| >= 1 && DotFree(segs)
    ensures Segments(JoinDots(segs)) == segs
    decreases |segs|
  {
    SegmentsWithoutDot(segs[0]);
    if |segs| > 1 {
      SegmentsJoin(segs[1..]);
      SegmentsAtDot(segs[0], JoinDots(segs[1..]));
      assert segs == [segs[0]] + segs[1..];
    }
  }

  /** Two paths with the same segments are the same path. */
  lemma SegmentsInjective(a: string, b: string)
    requires Segments(a) == Segments(b)
    ensures a == b
  {
    JoinSegments(a);
    JoinSegments(b);
  }

  /** Splitting at a dot splits the segment list there. */
  lemma {:induction false} SegmentsAtDot(x: string, y: string)
    ensures Segments(x + "." + y) == Segments(x) + Segments(y)
    decreases |x|
  {
    var p := x + "." + y;
    if |x| == 0 {
      assert p[1..] == y;
    } else {
      assert p[1..] == x[1..] + "." + y;
      SegmentsAtDot(x[1..], y);
      var r := Segments(x[1..]);
      assert Segments(x[1..] + "." + y) == r + Segments(y);
      if x[0] == '.' {
        assert Segments(p) == [""] + (r + Segments(y));
      } else {
        assert (r + Segments(y))[0] == r[0];
        assert (r + Segments(y))[1..] == r[1..] + Segments(y);
      }
    }
  }

  /** Joining a concatenation of segment lists puts a dot between the two joins. */
  lemma {:induction false} JoinDotsAppend(a: seq<string>, b: seq<string>)
    requires |a| >= 1 && |b| >= 1
    ensures JoinDots(a + b) == JoinDots(a) + "." + JoinDots(b)
    decreases |a|
  {
    if |a| == 1 {
      assert (a + b)[1..] == b;
    } else {
      JoinDotsAppend(a[1..], b);
      assert (a + b)[1..] == a[1..] + b;
    }
  }

  /** The segments of `a` are a proper prefix of those of `b` exactly when `b` extends `a`
      by a dot and more text: `a` and `a.b` are the keys that clash in the data object. */
  lemma ProperPrefixIsDottedExtension(a: string, b: string)
    ensures ProperPrefix(Segments(a), Segments(b)) <==> exists c :: b == a + "." + c
  {
    var sa, sb := Segments(a), Segments(b);
    if ProperPrefix(sa, sb) {
      var rest := sb[|sa|..];
      assert sb == sa + rest;
      JoinDotsAppend(sa, rest);
      JoinSegments(a);
      JoinSegments(b);
      assert b == a + "." + JoinDots(rest);
    }
    if c :| b == a + "." + c {
      SegmentsAtDot(a, c);
      assert sb[..|sa|] == sa;
    }
  }
}
