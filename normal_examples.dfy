/** Worked cases of lexically_normal as written. */
module PathNormalExamples {
  import opened Paths
  import opened PathNormal

  /** ".." at the root stays at the root. */
  lemma ParentOfRootIsRoot()
    ensures Normalize("/..") == "/"
  {
    var s := "/..";
    assert SkipSeparators(s, 1) == 1;
    assert Scan(s, 2, "/") == "/";
  }

  /** A leading ".." is kept, but the separator after it is consumed. */
  lemma LeadingParentLosesSeparator()
    ensures Normalize("../x") == "..x"
  {
    var s := "../x";
    assert Scan(s, 4, "..x") == "..x";
    assert Scan(s, 3, "..") == Scan(s, 4, "..x");
    assert Scan(s, 1, "..") == Scan(s, 3, "..");
    assert DotDot([]) == "..";
  }

  lemma DotDotOfOneComponent()
    ensures DotDot("/a/") == "/"
  {
    assert "/a/"[..2] == "/a";
    assert LastIndexBelow("/a", '/', 2) == 0;
    assert "/a"[..1] == "/";
  }

  lemma ScanAfterParent()
    ensures Scan("/a/../b/", 4, "/") == "/b/"
  {
    var s := "/a/../b/";
    assert SkipSeparators(s, 8) == 8;
    assert Scan(s, 7, "/b") == "/b/";
    assert Scan(s, 6, "/") == Scan(s, 7, "/b");
  }

  lemma ScanRootStep()
    ensures Scan("/a/../b/", 0, []) == Scan("/a/../b/", 1, "/")
  {
    var s := "/a/../b/";
    assert SkipSeparators(s, 1) == 1;
    assert [] + [Separator] == "/";
  }

  lemma ScanFirstComponent()
    ensures Scan("/a/../b/", 1, "/") == Scan("/a/../b/", 3, "/a/")
  {
    var s := "/a/../b/";
    assert SkipSeparators(s, 3) == 3;
    assert "/" + ['a'] == "/a";
    assert "/a" + [Separator] == "/a/";
  }

  /** ".." removes the component before it. */
  lemma ParentRemovesComponent()
    ensures Normalize("/a/../b/") == "/b/"
  {
    var s := "/a/../b/";
    DotDotOfOneComponent();
    ScanAfterParent();
    ScanRootStep();
    ScanFirstComponent();
    assert Scan(s, 3, "/a/") == Scan(s, 4, "/");
  }

  /** ".." against the root is absorbed, and the second '.' is then skipped before the name. */
  lemma RootParentBeforeName()
    ensures Normalize("/..a") == "/a"
  {
    var s := "/..a";
    assert SkipSeparators(s, 1) == 1;
    assert Scan(s, 4, "/a") == "/a";
    assert Scan(s, 3, "/") == Scan(s, 4, "/a");
    assert Scan(s, 2, "/") == Scan(s, 3, "/");
    assert Scan(s, 1, "/") == Scan(s, 2, "/");
  }

  /** "./" is dropped, but the separator before it has already been written, so two separators meet. */
  lemma CurrentBeforeSeparator()
    ensures Normalize("a/.//b") == "a//b"
  {
    var s := "a/.//b";
    assert SkipSeparators(s, 5) == 5;
    assert SkipSeparators(s, 2) == 2;
    assert Scan(s, 6, "a//b") == "a//b";
    assert Scan(s, 5, "a//") == Scan(s, 6, "a//b");
    assert Scan(s, 4, "a/") == Scan(s, 5, "a//");
    assert Scan(s, 2, "a/") == Scan(s, 4, "a/");
    assert Scan(s, 1, "a") == Scan(s, 2, "a/");
    assert Scan(s, 0, []) == Scan(s, 1, "a");
  }

  lemma DotDotOfTwoComponents()
    ensures DotDot("a/b/") == "a/"
  {
    assert "a/b/"[..3] == "a/b";
    assert LastIndexBelow("a/b", '/', 3) == 1;
    assert "a/b"[..2] == "a/";
  }

  lemma ScanTrailingParent()
    ensures Scan("a/./b/..", 4, "a/") == "a/"
  {
    var s := "a/./b/..";
    DotDotOfTwoComponents();
    assert SkipSeparators(s, 6) == 6;
    assert Scan(s, 7, "a/") == "a/";
    assert Scan(s, 6, "a/b/") == Scan(s, 7, "a/");
    assert Scan(s, 5, "a/b") == Scan(s, 6, "a/b/");
    assert "a/" + ['b'] == "a/b";
    assert Scan(s, 4, "a/") == Scan(s, 5, "a/b");
  }

  /** A trailing ".." removes the last component and leaves its separator. */
  lemma TrailingParent()
    ensures Normalize("a/./b/..") == "a/"
  {
    var s := "a/./b/..";
    ScanTrailingParent();
    assert SkipSeparators(s, 2) == 2;
    assert [] + ['a'] == "a" && "a" + [Separator] == "a/";
    assert Scan(s, 2, "a/") == Scan(s, 4, "a/");
    assert Scan(s, 1, "a") == Scan(s, 2, "a/");
    assert Scan(s, 0, []) == Scan(s, 1, "a");
  }

  /** "..a" is not kept as a name: the first ".." of it cuts the result back, and its second '.' is skipped. */
  lemma ParentsBeforeDottedName()
    ensures Normalize("../..a////") == "a/"
  {
    var s := "../..a////";
    assert SkipSeparators(s, 7) == 10 by {
      assert SkipSeparators(s, 10) == 10;
    }
    assert DotDot("..") == [];
    assert Scan(s, 6, "a") == "a/";
    assert Scan(s, 5, []) == Scan(s, 6, "a");
    assert Scan(s, 4, []) == Scan(s, 5, []);
    assert Scan(s, 3, "..") == Scan(s, 4, []);
    assert Scan(s, 1, "..") == Scan(s, 3, "..");
    assert Scan(s, 0, []) == Scan(s, 1, "..");
  }

  /** The pass is not idempotent: a second pass squeezes the separators the first one left side by side. */
  lemma NormalizeNotIdempotent()
    ensures Normalize("a/.//b") == "a//b"
    ensures Normalize("a//b") == "a/b"
  {
    CurrentBeforeSeparator();
    var s := "a//b";
    assert SkipSeparators(s, 2) == 3;
    assert Scan(s, 4, "a/b") == "a/b";
    assert Scan(s, 3, "a/") == Scan(s, 4, "a/b");
    assert Scan(s, 1, "a") == Scan(s, 3, "a/");
    assert Scan(s, 0, []) == Scan(s, 1, "a");
  }
}
