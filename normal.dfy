/**
 * path::lexically_normal (src/path.cpp): a single left-to-right pass that
 * squeezes runs of separators, drops "." and "./", and makes ".." remove the
 * last component of what has been produced so far.
 */
module PathNormal {
  import opened Paths

  /** The first index at or after j that is not a separator, or |s| (the std::find_if of the loop). */
  function SkipSeparators(s: string, j: nat): (r: nat)
    requires j <= |s|
    ensures j <= r <= |s| && (r < |s| ==> s[r] != Separator)
    ensures forall k :: j <= k < r ==> s[k] == Separator
    decreases |s| - j
  {
    if j == |s| || s[j] != Separator then j else SkipSeparators(s, j + 1)
  }

  /**
   * What a ".." does to the result so far: the root stays the root, an empty
   * result becomes "..", otherwise one trailing separator is dropped and the
   * text is cut just after its last separator (or emptied if it has none).
   */
  function DotDot(acc: string): (r: string)
    ensures acc == [] ==> r == ".."
    ensures acc != [] ==> r <= acc
    ensures |acc| == 1 && acc[0] == Separator ==> r == acc
    ensures |acc| > 0 && acc[0] == Separator ==> |r| > 0 && r[0] == Separator
    ensures acc != [] && !(|acc| == 1 && acc[0] == Separator) ==>
      && (r == [] || r[|r| - 1] == Separator)
      && |r| < |acc|
      && forall k :: |r| <= k < |acc| - 1 ==> acc[k] != Separator
  {
    if |acc| == 1 && acc[0] == Separator then acc
    else if acc == [] then ".."
    else
      var trimmed := if acc[|acc| - 1] == Separator then acc[..|acc| - 1] else acc;
      var pos := LastIndexOf(trimmed, Separator);
      assert acc[0] == Separator ==> trimmed[0] == Separator && pos >= 0;
      if pos < 0 then [] else trimmed[..pos + 1]
  }

  /**
   * The loop of lexically_normal from index i with the result `acc` built so
   * far, as written. A result started from a rooted prefix stays rooted.
   */
  function Scan(s: string, i: nat, acc: string): (r: string)
    requires i <= |s|
    ensures |acc| > 0 && acc[0] == Separator ==> |r| > 0 && r[0] == Separator
    decreases |s| - i
  {
    if i == |s| then acc
    else if s[i] == Separator then Scan(s, SkipSeparators(s, i + 1), acc + [Separator])
    else if s[i] == '.' then
      if i + 1 == |s| then acc
      else if s[i + 1] == '.' then Scan(s, i + 1, DotDot(acc))
      else if s[i + 1] == Separator then Scan(s, i + 2, acc)
      else Scan(s, i + 1, acc)
    else Scan(s, i + 1, acc + [s[i]])
  }

  /** lexically_normal as written: the empty path stays empty, an empty result becomes ".". */
  function Normalize(s: string): string
  {
    if s == [] then []
    else
      var r := Scan(s, 0, []);
      if r == [] then "." else r
  }

  /** path::lexically_normal, following the source's loop step by step. */
  method LexicallyNormal(s: string) returns (r: string)
    ensures r == Normalize(s)
  {
    if |s| == 0 {
      return [];
    }
    var result: string := [];
    var it := 0;
    while it < |s|
      invariant it <= |s|
      invariant Scan(s, it, result) == Scan(s, 0, [])
      decreases |s| - it
    {
      var ch := s[it];
      if ch == Separator {
        result := result + [Separator];
        ghost var from := it + 1;
        it := it + 1;
        while it < |s| && s[it] == Separator
          invariant from <= it <= |s|
          invariant SkipSeparators(s, it) == SkipSeparators(s, from)
          decreases |s| - it
        {
          it := it + 1;
        }
        continue;
      }
      if ch == '.' {
        it := it + 1;
        if it == |s| {
          break;
        }
        var next := s[it];
        if next == '.' {
          if |result| == 1 && result[0] == Separator {
            continue;
          }
          if result == [] {
            result := "..";
            continue;
          }
          if result[|result| - 1] == Separator {
            result := result[..|result| - 1];
          }
          var pos := LastIndexOf(result, Separator);
          if pos < 0 {
            result := [];
          } else {
            result := result[..pos + 1];
          }
          continue;
        }
        if next == Separator {
          it := it + 1;
        }
        continue;
      }
      result := result + [ch];
      it := it + 1;
    }
    if result == [] {
      return ".";
    }
    return result;
  }

  // ---------------------------------------------------------------- what the pass keeps

  /** lexically_normal never turns an absolute path, or any path starting with a separator, into a relative one. */
  lemma NormalizeKeepsRoot(s: string)
    requires |s| > 0 && s[0] == Separator
    ensures |Normalize(s)| > 0 && Normalize(s)[0] == Separator
  {
    var acc: string := [] + [Separator];
    assert Scan(s, 0, []) == Scan(s, SkipSeparators(s, 1), acc);
  }

  /** Every '.' of t sits in a leading "..". */
  predicate DotsOnlyLeading(t: string)
  {
    forall k :: 0 <= k < |t| && t[k] == '.' ==> k < 2 && |t| >= 2 && t[0] == '.' && t[1] == '.'
  }

  /** Cutting the result back keeps the leading-dots shape. */
  lemma DotDotKeepsDots(acc: string)
    requires DotsOnlyLeading(acc)
    ensures DotsOnlyLeading(DotDot(acc))
  {
    var r := DotDot(acc);
    if acc != [] {
      forall k | 0 <= k < |r| && r[k] == '.'
        ensures k < 2 && |r| >= 2 && r[0] == '.' && r[1] == '.'
      {
        assert acc[k] == '.';
        assert r[0] == acc[0] && r[1] == acc[1];
      }
    }
  }

  /** The pass only ever writes separators, non-dot characters, and a ".." into an empty result. */
  lemma {:induction false} ScanKeepsDots(s: string, i: nat, acc: string)
    requires i <= |s| && DotsOnlyLeading(acc)
    ensures DotsOnlyLeading(Scan(s, i, acc))
    decreases |s| - i
  {
    if i < |s| {
      if s[i] == Separator {
        ScanKeepsDots(s, SkipSeparators(s, i + 1), acc + [Separator]);
      } else if s[i] == '.' {
        if i + 1 < |s| {
          if s[i + 1] == '.' {
            DotDotKeepsDots(acc);
            ScanKeepsDots(s, i + 1, DotDot(acc));
          } else if s[i + 1] == Separator {
            ScanKeepsDots(s, i + 2, acc);
          } else {
            ScanKeepsDots(s, i + 1, acc);
          }
        }
      } else {
        ScanKeepsDots(s, i + 1, acc + [s[i]]);
      }
    }
  }

  /** The result of lexically_normal is "." or has no '.' outside a leading "..": no "." or ".." component survives inside it. */
  lemma NormalizeDots(s: string)
    ensures Normalize(s) == "." || DotsOnlyLeading(Normalize(s))
  {
    if s != [] {
      ScanKeepsDots(s, 0, []);
      if Scan(s, 0, []) != [] {
        assert Normalize(s) == Scan(s, 0, []);
        assert DotsOnlyLeading(Normalize(s));
      } else {
        assert Normalize(s) == ".";
      }
    } else {
      assert Normalize(s) == [];
      assert DotsOnlyLeading([]);
    }
  }

  // ---------------------------------------------------------------- separator runs

  /** An independent statement of squeezing: every separator directly after another is dropped. */
  function Collapse(s: string): string
    decreases |s|
  {
    if |s| == 0 then []
    else
      var p := s[..|s| - 1];
      if s[|s| - 1] == Separator && |p| > 0 && p[|p| - 1] == Separator then Collapse(p)
      else Collapse(p) + [s[|s| - 1]]
  }

  lemma PrefixOfPrefix<T>(s: seq<T>, i: nat)
    requires i < |s|
    ensures s[..i + 1][..i] == s[..i] && s[..i + 1][i] == s[i]
  {
  }

  /** Collapse of one more character. */
  lemma CollapseStep(s: string, i: nat)
    requires i < |s|
    ensures Collapse(s[..i + 1]) ==
      if s[i] == Separator && i > 0 && s[i - 1] == Separator then Collapse(s[..i])
      else Collapse(s[..i]) + [s[i]]
  {
    PrefixOfPrefix(s, i);
  }

  /** The rest of a run of separators adds nothing. */
  lemma {:induction false} CollapseRun(s: string, i: nat, j: nat)
    requires i < j <= |s| && s[i] == Separator
    requires forall k :: i < k < j ==> s[k] == Separator
    ensures Collapse(s[..j]) == Collapse(s[..i + 1])
    decreases j - i
  {
    if j > i + 1 {
      CollapseRun(s, i, j - 1);
      CollapseStep(s, j - 1);
    }
  }

  /** The scanner is never left in the middle of a run of separators. */
  predicate NotMidRun(s: string, i: nat)
    requires i <= |s|
  {
    i == 0 || i == |s| || !(s[i - 1] == Separator && s[i] == Separator)
  }

  /** Without any '.', the pass as written only squeezes separator runs. */
  lemma {:induction false} ScanWithoutDots(s: string, i: nat)
    requires i <= |s| && NotMidRun(s, i)
    requires forall k :: 0 <= k < |s| ==> s[k] != '.'
    ensures Scan(s, i, Collapse(s[..i])) == Collapse(s)
    decreases |s| - i
  {
    if i == |s| {
      assert s[..i] == s;
    } else if s[i] == Separator {
      var j := SkipSeparators(s, i + 1);
      CollapseStep(s, i);
      CollapseRun(s, i, j);
      ScanWithoutDots(s, j);
    } else {
      CollapseStep(s, i);
      ScanWithoutDots(s, i + 1);
    }
  }

  /** A text without separator runs to squeeze. */
  lemma {:induction false} CollapseNonEmpty(s: string)
    ensures |Collapse(s)| > 0 <==> |s| > 0
    decreases |s|
  {
    if |s| > 1 {
      CollapseNonEmpty(s[..|s| - 1]);
    }
  }

  /** On input without any '.', lexically_normal as written squeezes runs of separators and changes nothing else. */
  lemma NormalizeWithoutDots(s: string)
    requires forall k :: 0 <= k < |s| ==> s[k] != '.'
    ensures Normalize(s) == Collapse(s)
  {
    if s != [] {
      assert s[..0] == [];
      ScanWithoutDots(s, 0);
      CollapseNonEmpty(s);
    }
  }

  // ---------------------------------------------------------------- dots inside names

  /**
   * The pass with its '.' handling restricted to components that are "." or
   * "..": a '.' inside a name such as "a.txt" is kept.
   */
  function ScanCorrected(s: string, i: nat, acc: string): string
    requires i <= |s|
    decreases |s| - i
  {
    if i == |s| then acc
    else if s[i] == Separator then ScanCorrected(s, SkipSeparators(s, i + 1), acc + [Separator])
    else if DotComponentAt(s, i) then
      if i + 1 == |s| then acc
      else if s[i + 1] == Separator then ScanCorrected(s, i + 2, acc)
      else ScanCorrected(s, if i + 2 < |s| then i + 3 else i + 2, DotDot(acc))
    else ScanCorrected(s, i + 1, acc + [s[i]])
  }

  /** lexically_normal with the correction above. */
  function NormalizeCorrected(s: string): string
  {
    if s == [] then []
    else
      var r := ScanCorrected(s, 0, []);
      if r == [] then "." else r
  }

  lemma {:induction false} ScanCorrectedWithoutDotComponents(s: string, i: nat)
    requires i <= |s| && NotMidRun(s, i)
    requires forall k :: 0 <= k < |s| ==> !DotComponentAt(s, k)
    ensures ScanCorrected(s, i, Collapse(s[..i])) == Collapse(s)
    decreases |s| - i
  {
    if i == |s| {
      assert s[..i] == s;
    } else if s[i] == Separator {
      var j := SkipSeparators(s, i + 1);
      CollapseStep(s, i);
      CollapseRun(s, i, j);
      ScanCorrectedWithoutDotComponents(s, j);
    } else {
      CollapseStep(s, i);
      ScanCorrectedWithoutDotComponents(s, i + 1);
    }
  }

  /** With the correction, a path without "." or ".." components only has its separator runs squeezed. */
  lemma NormalizeCorrectedWithoutDotComponents(s: string)
    requires forall k :: 0 <= k < |s| ==> !DotComponentAt(s, k)
    ensures NormalizeCorrected(s) == Collapse(s)
  {
    if s != [] {
      assert s[..0] == [];
      ScanCorrectedWithoutDotComponents(s, 0);
      CollapseNonEmpty(s);
    }
  }

  /** A text without separators is not changed by squeezing. */
  lemma {:induction false} CollapseWithoutSeparators(s: string)
    requires forall k :: 0 <= k < |s| ==> s[k] != Separator
    ensures Collapse(s) == s
    decreases |s|
  {
    if |s| > 0 {
      CollapseWithoutSeparators(s[..|s| - 1]);
      RebuildLastOnly(s);
    }
  }

  lemma RebuildLastOnly<T>(s: seq<T>)
    requires |s| > 0
    ensures s[..|s| - 1] + [s[|s| - 1]] == s
  {
  }

  /** As written, the pass drops the '.' of "a.txt", which has no "." or ".." component. */
  lemma NormalizeDropsDotInName()
    ensures forall k :: 0 <= k < |"a.txt"| ==> !DotComponentAt("a.txt", k)
    ensures Normalize("a.txt") == "atxt"
    ensures Collapse("a.txt") == "a.txt" && NormalizeCorrected("a.txt") == "a.txt"
  {
    assert DotFreeFrom("a.txt", 0);
    CollapseWithoutSeparators("a.txt");
    NormalizeCorrectedWithoutDotComponents("a.txt");
    var s := "a.txt";
    assert Scan(s, 5, "atxt") == "atxt";
    assert Scan(s, 1, "a") == Scan(s, 2, "a");
    assert Scan(s, 0, []) == Scan(s, 1, "a");
  }
}
