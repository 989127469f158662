/** The cases of test/test_path.cpp, stated over the model of path.hpp. */
module PathExamples {
  import opened Paths

  lemma IsAbsoluteExamples()
    ensures IsAbsolute("/data/a.txt")
    ensures !IsAbsolute("audio/a.wav") && !IsAbsolute("data") && !IsAbsolute("")
    ensures !IsAbsolute("/data/../a.txt") && !IsAbsolute("/data/.") && IsAbsolute("/data/.hidden")
  {
    assert DotFreeFrom("/data/a.txt", 0);
    assert DotComponentAt("/data/../a.txt", 6);
    assert DotComponentAt("/data/.", 6);
    assert DotFreeFrom("/data/.hidden", 0);
  }

  lemma ParentPathOfFile()
    ensures ParentPath("/data/text/example.txt") == "/data/text"
  {
    assert LastIndexBelow("/data/text/example.txt", '/', 16) == 10;
    assert LastIndexBelow("/data/text/example.txt", '/', 22) == 10;
    assert "/data/text/example.txt"[..10] == "/data/text";
  }

  lemma ParentPathOfDirectory()
    ensures ParentPath("/data/text/") == "/data"
    ensures ParentPath("/data/") == "/"
  {
    assert "/data/text/"[..10] == "/data/text";
    assert LastIndexBelow("/data/text", '/', 10) == 5;
    assert "/data/text"[..5] == "/data";
    assert "/data/"[..5] == "/data";
    assert LastIndexBelow("/data", '/', 5) == 0;
  }

  lemma ParentPathOfTopLevel()
    ensures ParentPath("/data") == "/"
    ensures ParentPath("/") == "/"
  {
    assert LastIndexBelow("/data", '/', 5) == 0;
  }

  lemma ParentPathOfRelative()
    ensures ParentPath("data") == "data"
    ensures ParentPath("data/example.txt") == "data"
  {
    assert LastIndexBelow("data", '/', 4) == -1;
    assert LastIndexBelow("data/example.txt", '/', 10) == 4;
    assert LastIndexBelow("data/example.txt", '/', 16) == 4;
    assert "data/example.txt"[..4] == "data";
  }

  lemma FilenameExamples()
    ensures Filename("/foo/bar.txt") == "bar.txt"
    ensures Filename("/foo/.bar") == ".bar"
    ensures Filename("/foo/bar/") == ""
    ensures Filename("/") == ""
  {
    assert LastIndexBelow("/foo/bar.txt", '/', 12) == 4;
    assert "/foo/bar.txt"[5..] == "bar.txt";
    assert LastIndexBelow("/foo/.bar", '/', 9) == 4;
    assert "/foo/.bar"[5..] == ".bar";
  }

  lemma ExtensionExamples()
    ensures ExtensionOf("bar.txt") == ".txt"
    ensures ExtensionOf(".bar") == ""
    ensures ExtensionOf("..bar") == ".bar"
    ensures ExtensionOf("archive.tar.gz") == ".gz"
    ensures ExtensionOf("") == ""
  {
    assert LastIndexBelow("bar.txt", '.', 7) == 3;
    assert "bar.txt"[3..] == ".txt";
    assert LastIndexBelow(".bar", '.', 4) == 0;
    assert LastIndexBelow("..bar", '.', 5) == 1;
    assert "..bar"[1..] == ".bar";
    assert LastIndexBelow("archive.tar.gz", '.', 14) == 11;
    assert "archive.tar.gz"[11..] == ".gz";
  }

  lemma SegmentsExample()
    ensures Segments("/data/text/example.txt") == ["data", "text", "example.txt"]
  {
    assert "/data/text/example.txt" == [Separator] + "data" + [Separator] + "text" + [Separator] + "example.txt";
    SegmentsOfThree("data", "text", "example.txt");
  }

  lemma JoinExamples()
    ensures Join("/data", "audio/a.wav") == "/data/audio/a.wav"
    ensures Join("/data/", "audio/a.wav") == "/data/audio/a.wav"
    ensures Join("/data", "/other") == "/other"
    ensures Join("", "x") == "x" && Join("/data", "") == "/data"
  {
    assert DotFreeFrom("/other", 0);
  }

  lemma SlashExample()
    ensures Join("/data/audio/a.wav", "b.txt") == "/data/audio/a.wav/b.txt"
  {
    assert !IsAbsolute("b.txt");
  }

  /** The append test: a path "/data" with "audio/a.wav" appended in place. */
  method AppendExample()
  {
    JoinExamples();
    var p := new Path("/data");
    p.Append("audio/a.wav");
    assert p.text == "/data/audio/a.wav";
    var b := IsAbsoluteScan(p.text);
    assert DotFreeFrom(p.text, 0);
    assert b;
    SlashExample();
    var q := Slash(p, "b.txt");
    assert q.text == "/data/audio/a.wav/b.txt" && p.text == "/data/audio/a.wav";
  }
}
