/**
 * The text operations of lochfolk::path_view and lochfolk::path
 * (include/lochfolk/path.hpp): every one of them works on a '/'-separated
 * string and never fails.
 */
module Paths {

  const Separator: char := '/'

  /** std::string_view::find(c, from): the first index at or after `from` holding `c`, or |s| for npos. */
  function IndexOf(s: string, c: char, from: nat): (r: nat)
    requires from <= |s|
    ensures from <= r <= |s|
    ensures r < |s| ==> s[r] == c
    ensures forall k :: from <= k < r ==> s[k] != c
    decreases |s| - from
  {
    if from == |s| then |s| else if s[from] == c then from else IndexOf(s, c, from + 1)
  }

  /** std::string_view::rfind(c): the last index holding `c`, or -1 for npos. */
  function LastIndexOf(s: string, c: char): (r: int)
    ensures -1 <= r < |s|
    ensures r >= 0 ==> s[r] == c
    ensures forall k :: r < k < |s| ==> s[k] != c
  {
    LastIndexBelow(s, c, |s|)
  }

  /** The last index below n holding `c`, or -1. */
  function LastIndexBelow(s: string, c: char, n: nat): (r: int)
    requires n <= |s|
    ensures -1 <= r < n
    ensures r >= 0 ==> s[r] == c
    ensures forall k :: r < k < n ==> s[k] != c
  {
    if n == 0 then -1 else if s[n - 1] == c then n - 1 else LastIndexBelow(s, c, n - 1)
  }

  // ---------------------------------------------------------------- is_absolute

  /** A '/'-delimited component equal to "." or ".." begins at index i. */
  predicate DotComponentAt(s: string, i: nat)
    requires i < |s|
  {
    && (i == 0 || s[i - 1] == Separator)
    && s[i] == '.'
    && (|| i + 1 == |s|
        || s[i + 1] == Separator
        || (s[i + 1] == '.' && (i + 2 == |s| || s[i + 2] == Separator)))
  }

  /**
   * path_view::is_absolute, stated declaratively: the text starts with the
   * separator and none of its components, the last one included, is "." or "..".
   */
  predicate IsAbsolute(s: string)
  {
    |s| > 0 && s[0] == Separator && forall i :: 0 <= i < |s| ==> !DotComponentAt(s, i)
  }

  /** Decides whether a "." or ".." component begins at or after index i. */
  function DotFreeFrom(s: string, i: nat): (r: bool)
    requires i <= |s|
    ensures r <==> forall j :: i <= j < |s| ==> !DotComponentAt(s, j)
    decreases |s| - i
  {
    if i == |s| then true else !DotComponentAt(s, i) && DotFreeFrom(s, i + 1)
  }

  /** The piece s[start..end] between two separators is not "." or "..", so no dot component starts inside it. */
  lemma NoDotComponentIn(s: string, start: nat, end: nat)
    requires start <= end <= |s|
    requires start == 0 || s[start - 1] == Separator
    requires forall k :: start <= k < end ==> s[k] != Separator
    requires end < |s| ==> s[end] == Separator
    requires s[start..end] != "." && s[start..end] != ".."
    ensures forall i :: start <= i < |s| && i <= end ==> !DotComponentAt(s, i)
  {
  }

  /** The loop of path_view::is_absolute: walks the components between separators. */
  method IsAbsoluteScan(s: string) returns (b: bool)
    ensures b == IsAbsolute(s)
  {
    if |s| == 0 {
      return false;
    }
    if s[0] != Separator {
      return false;
    }
    var start := 0;
    var end := IndexOf(s, Separator, 0);
    while end < |s|
      invariant start <= end <= |s|
      invariant end == IndexOf(s, Separator, start)
      invariant start == 0 || s[start - 1] == Separator
      invariant forall i :: 0 <= i < start ==> !DotComponentAt(s, i)
      decreases |s| - start
    {
      var component := s[start..end];
      if component == "." || component == ".." {
        assert DotComponentAt(s, start);
        return false;
      }
      NoDotComponentIn(s, start, end);
      start := end + 1;
      end := IndexOf(s, Separator, start);
    }
    var last := s[start..];
    if last == "." || last == ".." {
      assert DotComponentAt(s, start);
      return false;
    }
    NoDotComponentIn(s, start, end);
    return true;
  }

  // ---------------------------------------------------------------- parent_path, filename, extension

  /** s without one trailing separator (the `remove_suffix(1)` of parent_path). */
  function TrimTrailingSeparator(s: string): (r: string)
    ensures r <= s && |s| - 1 <= |r|
  {
    if |s| > 0 && s[|s| - 1] == Separator then s[..|s| - 1] else s
  }

  /** path_view::parent_path. */
  function ParentPath(s: string): (r: string)
    ensures r <= s
  {
    if |s| == 0 then ""
    else if |s| == 1 && s[0] == Separator then "/"
    else
      var sv := TrimTrailingSeparator(s);
      var pos := LastIndexOf(sv, Separator);
      if pos < 0 then s
      else if pos == 0 then "/"
      else sv[..pos]
  }

  /** path_view::filename: the longest suffix without a separator. */
  function Filename(s: string): (r: string)
    ensures |s| == 0 || s[|s| - 1] == Separator ==> r == []
    ensures |r| <= |s| && r == s[|s| - |r|..]
    ensures Separator !in r
    ensures |r| < |s| ==> s[|s| - |r| - 1] == Separator
  {
    if |s| == 0 then ""
    else if s[|s| - 1] == Separator then ""
    else
      var pos := LastIndexOf(s, Separator);
      if pos < 0 then s else s[pos + 1..]
  }

  /**
   * The extension of a filename f: the suffix from its last '.', unless that
   * '.' is its first character (".bar" has none, "..bar" has ".bar").
   */
  function ExtensionOf(f: string): (r: string)
    ensures |r| <= |f| && r == f[|f| - |r|..]
    ensures r != [] ==> r[0] == '.' && '.' !in r[1..] && |r| < |f|
    ensures r == [] <==> forall k :: 0 < k < |f| ==> f[k] != '.'
  {
    var pos := LastIndexOf(f, '.');
    if pos <= 0 then "" else f[pos..]
  }

  /** path_view::extension. */
  function Extension(s: string): string
  {
    ExtensionOf(Filename(s))
  }

  // ---------------------------------------------------------------- split_view

  /**
   * path_view::split_view: the non-empty pieces between separators, left to
   * right (std::views::split followed by a filter dropping empty pieces).
   */
  function Segments(s: string): seq<string>
    decreases |s|
  {
    if s == [] then []
    else
      var e := IndexOf(s, Separator, 0);
      (if e == 0 then [] else [s[..e]]) + (if e == |s| then [] else Segments(s[e + 1..]))
  }

  /** Every segment is non-empty and free of separators. */
  lemma {:induction false} SegmentsAreWords(s: string)
    ensures forall k :: 0 <= k < |Segments(s)| ==> Segments(s)[k] != [] && Separator !in Segments(s)[k]
    decreases |s|
  {
    if s != [] {
      var e := IndexOf(s, Separator, 0);
      if e < |s| {
        SegmentsAreWords(s[e + 1..]);
      }
    }
  }

  /** A text with no "." or ".." component has no segment "." or "..". */
  lemma {:induction false} DotFreeSegments(s: string)
    requires forall i :: 0 <= i < |s| ==> !DotComponentAt(s, i)
    ensures forall k :: 0 <= k < |Segments(s)| ==> Segments(s)[k] != "." && Segments(s)[k] != ".."
    decreases |s|
  {
    if s != [] {
      var e := IndexOf(s, Separator, 0);
      var first := if e == 0 then [] else [s[..e]];
      assert !DotComponentAt(s, 0);
      assert first != ["."] && first != [".."] by {
        if e == 1 || e == 2 {
          assert s[..e][0] == s[0];
          assert s[..e][e - 1] == s[e - 1];
        }
      }
      if e < |s| {
        var t := s[e + 1..];
        forall j | 0 <= j < |t|
          ensures !DotComponentAt(t, j)
        {
          assert !DotComponentAt(s, e + 1 + j);
        }
        DotFreeSegments(t);
        SegmentsStep(s, e);
      }
    }
  }

  /** The segments of an absolute path are names: none of them is "." or "..". */
  lemma AbsoluteSegmentsAreNames(s: string)
    requires IsAbsolute(s)
    ensures forall k :: 0 <= k < |Segments(s)| ==> Segments(s)[k] != "." && Segments(s)[k] != ".."
  {
    DotFreeSegments(s);
  }

  /** A text without separators is one segment. */
  lemma SegmentsOfWord(w: string)
    requires w != [] && Separator !in w
    ensures Segments(w) == [w]
  {
    assert IndexOf(w, Separator, 0) == |w|;
    assert w[..|w|] == w;
  }

  /** One step of Segments: the piece before the first separator, then the segments after it. */
  lemma SegmentsStep(s: string, e: nat)
    requires e < |s| && e == IndexOf(s, Separator, 0)
    ensures Segments(s) == (if e == 0 then [] else [s[..e]]) + Segments(s[e + 1..])
  {
  }

  /** The segments of a word (no separator) as a sequence of at most one element. */
  function Word(w: string): seq<string>
  {
    if w == [] then [] else [w]
  }

  /** Searching a + [c] + b for c finds the first c of a, or the inserted one. */
  lemma {:induction false} IndexOfBeforeSeparator(a: string, c: char, b: string, from: nat)
    requires from <= |a|
    ensures IndexOf(a + [c] + b, c, from) == if IndexOf(a, c, from) < |a| then IndexOf(a, c, from) else |a|
    decreases |a| - from
  {
    var j := a + [c] + b;
    assert j[from] == if from < |a| then a[from] else c;
    if from < |a| && a[from] != c {
      IndexOfBeforeSeparator(a, c, b, from + 1);
    }
  }

  lemma AroundInsert<T>(a: seq<T>, c: T, b: seq<T>, e: nat)
    requires e < |a|
    ensures (a + [c] + b)[..e] == a[..e] && (a + [c] + b)[e + 1..] == a[e + 1..] + [c] + b
  {
  }

  lemma AtInsert<T>(a: seq<T>, c: T, b: seq<T>)
    ensures (a + [c] + b)[..|a|] == a && (a + [c] + b)[|a| + 1..] == b
  {
  }

  lemma SplitAround<T>(s: seq<T>, i: nat)
    requires i < |s|
    ensures s[..i] + [s[i]] + s[i + 1..] == s
  {
  }

  lemma RebuildLast<T>(a: seq<T>, b: seq<T>)
    requires |a| > 0
    ensures a[..|a| - 1] + [a[|a| - 1]] + b == a + b
  {
    assert a[..|a| - 1] + [a[|a| - 1]] == a;
  }

  lemma ConcatAssoc<T>(a: seq<T>, b: seq<T>, c: seq<T>)
    ensures a + (b + c) == (a + b) + c
  {
  }

  /** Joining two texts with a separator in between concatenates their segments. */
  lemma {:induction false} SegmentsConcat(a: string, b: string)
    ensures Segments(a + [Separator] + b) == Segments(a) + Segments(b)
    decreases |a|
  {
    var j := a + [Separator] + b;
    var e := IndexOf(a, Separator, 0);
    IndexOfBeforeSeparator(a, Separator, b, 0);
    if e == |a| {
      SegmentsStep(j, |a|);
      AtInsert(a, Separator, b);
      if a != [] {
        SegmentsOfWord(a);
      }
    } else {
      var rest := a[e + 1..];
      SegmentsStep(j, e);
      SegmentsStep(a, e);
      AroundInsert(a, Separator, b, e);
      SegmentsConcat(rest, b);
      ConcatAssoc(Word(a[..e]), Segments(rest), Segments(b));
    }
  }

  /** Cutting at any separator splits the segments into those left and right of it. */
  lemma SegmentsSplit(s: string, i: nat)
    requires i < |s| && s[i] == Separator
    ensures Segments(s) == Segments(s[..i]) + Segments(s[i + 1..])
  {
    SegmentsConcat(s[..i], s[i + 1..]);
    SplitAround(s, i);
  }

  /** Segments of a path ending in a separator: that separator adds nothing. */
  lemma SegmentsDropTrailingSeparator(s: string)
    requires |s| > 0 && s[|s| - 1] == Separator
    ensures Segments(s) == Segments(s[..|s| - 1])
  {
    SegmentsConcat(s[..|s| - 1], []);
    SplitAround(s, |s| - 1);
    assert s[|s|..] == [];
  }

  /** For a text not ending in a separator, the parent is cut at the last separator. */
  lemma ParentPathAtLastSeparator(p: string)
    requires |p| > 0 && p[|p| - 1] != Separator
    requires LastIndexOf(p, Separator) >= 0
    ensures var pos := LastIndexOf(p, Separator);
      ParentPath(p) == if pos == 0 then "/" else p[..pos]
  {
    assert TrimTrailingSeparator(p) == p;
  }

  /** Cutting at the last separator: the segments before it, then the word after it. */
  lemma SegmentsAtLastSeparator(p: string, pos: nat)
    requires pos < |p| - 1 && p[pos] == Separator
    requires forall k :: pos < k < |p| ==> p[k] != Separator
    ensures Segments(p) == Segments(p[..pos]) + [p[pos + 1..]]
  {
    var w := p[pos + 1..];
    assert Separator !in w by {
      forall j | 0 <= j < |w|
        ensures w[j] != Separator
      {
        assert w[j] == p[pos + 1 + j];
      }
    }
    SegmentsSplit(p, pos);
    SegmentsOfWord(w);
  }

  /** A path with a non-empty filename: its segments are the parent's followed by the filename. */
  lemma ParentFilenameSegments(p: string)
    requires |p| > 0 && p[0] == Separator
    requires Filename(p) != []
    ensures Segments(p) == Segments(ParentPath(p)) + [Filename(p)]
  {
    var pos := LastIndexOf(p, Separator);
    ParentPathAtLastSeparator(p);
    assert Filename(p) == p[pos + 1..];
    SegmentsAtLastSeparator(p, pos);
    if pos == 0 {
      SegmentsOfRoot();
      assert p[..0] == [];
    }
  }

  /** The segments of "/a" for a word a. */
  lemma SegmentsOfOne(a: string)
    requires a != [] && Separator !in a
    ensures Segments([Separator] + a) == [a]
  {
    assert [Separator] + a == [] + [Separator] + a;
    SegmentsConcat([], a);
    SegmentsOfRoot();
    SegmentsOfWord(a);
  }

  /** The segments of "/a/b" for two words a and b. */
  lemma SegmentsOfTwo(a: string, b: string)
    requires a != [] && Separator !in a && b != [] && Separator !in b
    ensures Segments([Separator] + a + [Separator] + b) == [a, b]
  {
    assert [Separator] + a + [Separator] + b == [] + [Separator] + (a + [Separator] + b);
    SegmentsConcat([], a + [Separator] + b);
    SegmentsConcat(a, b);
    SegmentsOfRoot();
    SegmentsOfWord(a);
    SegmentsOfWord(b);
  }

  /** The segments of "/a/b/c" for three words. */
  lemma SegmentsOfThree(a: string, b: string, c: string)
    requires a != [] && Separator !in a && b != [] && Separator !in b && c != [] && Separator !in c
    ensures Segments([Separator] + a + [Separator] + b + [Separator] + c) == [a, b, c]
  {
    SegmentsOfTwo(a, b);
    SegmentsConcat([Separator] + a + [Separator] + b, c);
    SegmentsOfWord(c);
  }

  /** The root and the empty text have no segments. */
  lemma SegmentsOfRoot()
    ensures Segments("/") == [] && Segments("") == []
  {
    assert IndexOf("/", Separator, 0) == 0;
    assert "/"[1..] == [];
  }

  /** parent_path returns its input exactly when it is "/" or has no separator before its last character. */
  lemma ParentPathFixedPoint(s: string)
    ensures ParentPath(s) == s <==> (s == "/" || forall k :: 0 <= k < |s| - 1 ==> s[k] != Separator)
  {
    if |s| > 0 && s != "/" {
      var sv := TrimTrailingSeparator(s);
      var pos := LastIndexOf(sv, Separator);
      if pos >= 0 {
        assert s[pos] == Separator && pos < |s| - 1;
        if pos == 0 {
          assert |s| >= 2;
          assert ParentPath(s) != s by { assert |ParentPath(s)| == 1; }
        } else {
          assert |ParentPath(s)| == pos;
        }
      } else {
        forall k | 0 <= k < |s| - 1
          ensures s[k] != Separator
        {
          assert sv[k] == s[k];
        }
      }
    }
  }

  // ---------------------------------------------------------------- append, concat

  /** path::append (operator/=, and operator/ on a copy). */
  function Join(lhs: string, rhs: string): string
  {
    if rhs == [] then lhs
    else if IsAbsolute(rhs) then rhs
    else if lhs == [] then rhs
    else if lhs[|lhs| - 1] == Separator then lhs + rhs
    else lhs + [Separator] + rhs
  }

  /** An absolute right-hand side replaces the path. */
  lemma JoinAbsolute(lhs: string, rhs: string)
    requires IsAbsolute(rhs)
    ensures Join(lhs, rhs) == rhs
  {
  }

  /** Appending to a text that already ends in a separator concatenates the segments. */
  lemma SegmentsAfterSeparator(a: string, b: string)
    requires |a| > 0 && a[|a| - 1] == Separator
    ensures Segments(a + b) == Segments(a) + Segments(b)
  {
    var n := |a| - 1;
    SegmentsConcat(a[..n], b);
    SegmentsDropTrailingSeparator(a);
    RebuildLast(a, b);
  }

  /** A relative right-hand side adds its segments after the left-hand side's. */
  lemma JoinSegments(lhs: string, rhs: string)
    requires !IsAbsolute(rhs)
    ensures Segments(Join(lhs, rhs)) == Segments(lhs) + Segments(rhs)
  {
    if rhs != [] && lhs != [] {
      if lhs[|lhs| - 1] == Separator {
        SegmentsAfterSeparator(lhs, rhs);
      } else {
        SegmentsConcat(lhs, rhs);
      }
    }
  }

  /** lochfolk::path: owns its text; append, concat and /= change it in place. */
  class Path {
    var text: string

    constructor (s: string)
      ensures text == s
    {
      text := s;
    }

    /** path::append(path_view), also operator/=. */
    method Append(p: string)
      modifies this
      ensures text == Join(old(text), p)
    {
      if |p| == 0 {
        return;
      }
      var abs := IsAbsoluteScan(p);
      if abs {
        text := p;
      } else if |text| == 0 {
        text := p;
      } else if text[|text| - 1] == Separator {
        text := text + p;
      } else {
        text := text + [Separator] + p;
      }
    }

    /** path::concat, also operator+=: plain concatenation, no separator added. */
    method Concat(p: string)
      modifies this
      ensures text == old(text) + p
    {
      text := text + p;
    }

    /** operator== on paths and path views: the texts are equal. */
    predicate SameAs(other: Path)
      reads this, other
    {
      text == other.text
    }
  }

  /** operator/(const path&, path_view): a copy of lhs with rhs appended; lhs is unchanged. */
  method Slash(lhs: Path, rhs: string) returns (r: Path)
    ensures fresh(r) && r.text == Join(lhs.text, rhs)
  {
    r := new Path(lhs.text);
    r.Append(rhs);
  }
}
