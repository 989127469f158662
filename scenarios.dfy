/**
 * The mount_string_constant case of test/test_vfs.cpp, replayed on the
 * model: mount a borrowed text below two missing directories, query the
 * tree, mount an owned text over it, and look up a path that is not there.
 */
module VfsScenario {
  import opened Wrappers
  import opened IosBase
  import opened Paths
  import opened PathExamples
  import opened FileNodes
  import opened NamespaceTree
  import ErrMsg
  import SpanBuffer
  import Vfs

  const Example: string := "/data/text/example.txt"
  const Missing: string := "/data/not/found"

  /** The tree after the first mount: root, /data, /data/text and the leaf, in creation order. */
  const Mounted1: seq<Node> := [
    Node(None, Directory(map["data" := 1])),
    Node(Some(0), Directory(map["text" := 2])),
    Node(Some(1), Directory(map["example.txt" := 3])),
    Node(Some(2), StringConstant("123 456", true))]

  lemma AbsoluteFacts()
    ensures IsAbsolute("/data") && IsAbsolute("/data/text") && IsAbsolute(Example) && IsAbsolute(Missing)
  {
    DataIsAbsolute();
    DataTextIsAbsolute();
    ExampleIsAbsolute();
    MissingIsAbsolute();
  }

  lemma DataIsAbsolute()
    ensures IsAbsolute("/data")
  {
    assert DotFreeFrom("/data", 0);
  }

  lemma DataTextIsAbsolute()
    ensures IsAbsolute("/data/text")
  {
    assert DotFreeFrom("/data/text", 0);
  }

  lemma ExampleIsAbsolute()
    ensures IsAbsolute(Example)
  {
    assert DotFreeFrom(Example, 0);
  }

  lemma MissingIsAbsolute()
    ensures IsAbsolute(Missing)
  {
    assert DotFreeFrom(Missing, 0);
  }

  lemma ExampleParts()
    ensures ParentPath(Example) == "/data/text" && Filename(Example) == "example.txt"
  {
    ParentPathOfFile();
    assert LastIndexBelow(Example, '/', 22) == 10;
    assert Example[11..] == "example.txt";
  }

  lemma DataSegments()
    ensures Segments("/data") == ["data"]
  {
    assert "/data" == [Separator] + "data";
    SegmentsOfOne("data");
  }

  lemma DataTextSegments()
    ensures Segments("/data/text") == ["data", "text"]
  {
    assert "/data/text" == [Separator] + "data" + [Separator] + "text";
    SegmentsOfTwo("data", "text");
  }

  lemma MissingSegments()
    ensures Segments(Missing) == ["data", "not", "found"]
  {
    assert Missing == [Separator] + "data" + [Separator] + "not" + [Separator] + "found";
    SegmentsOfThree("data", "not", "found");
  }

  lemma Mounted1WellFormed()
    ensures WellFormed(Mounted1)
  {
    forall i | 0 <= i < |Mounted1|
      ensures ChildrenLinked(Mounted1, i) && Holds(Mounted1[i])
    {
    }
  }

  /** The two directories of the first mount, made below an empty root. */
  lemma MkdirDataText()
    ensures Mkdir(Root, 0, ["data", "text"]) == Success(Made(Mounted1[..2] + [Node(Some(1), Directory(map[]))], 2))
  {
    var n1 := AddChild(Root, 0, "data", Directory(map[]));
    assert n1 == [Node(None, Directory(map["data" := 1])), Node(Some(0), Directory(map[]))];
    AddChildWellFormed(Root, 0, "data", Directory(map[]));
    var n2 := AddChild(n1, 1, "text", Directory(map[]));
    assert n2 == Mounted1[..2] + [Node(Some(1), Directory(map[]))];
    AddChildWellFormed(n1, 1, "text", Directory(map[]));
    assert ["data", "text"][1..] == ["text"] && ["text"][1..] == [];
    assert Mkdir(n1, 1, ["text"]) == Mkdir(n2, 2, []);
  }

  lemma FirstMountAt(p: string)
    requires IsAbsolute(p) && Segments(ParentPath(p)) == ["data", "text"] && Filename(p) == "example.txt"
    ensures Mount(Root, p, false, StringConstant("123 456", true)) == Success(Mounted(Mounted1, 3, true))
  {
    MkdirDataText();
    var n2 := Mounted1[..2] + [Node(Some(1), Directory(map[]))];
    assert AddChild(n2, 2, "example.txt", StringConstant("123 456", true)) == Mounted1;
  }

  /**
   * mount_string_constant("/data/text/example.txt", "123 456") on a fresh
   * file system creates /data and /data/text and the leaf below them.
   */
  lemma FirstMount()
    ensures Mount(Root, Example, false, StringConstant("123 456", true)) == Success(Mounted(Mounted1, 3, true))
  {
    AbsoluteFacts();
    ExampleParts();
    DataTextSegments();
    FirstMountAt(Example);
  }

  /** The walks the test's queries make in the tree after the first mount. */
  lemma WalksAfterFirstMount()
    ensures Resolve(Mounted1, 0, []) == Some(0)
    ensures Resolve(Mounted1, 0, ["data"]) == Some(1)
    ensures Resolve(Mounted1, 0, ["data", "text"]) == Some(2)
    ensures Resolve(Mounted1, 0, ["data", "text", "example.txt"]) == Some(3)
    ensures Resolve(Mounted1, 0, ["data", "not", "found"]).None?
  {
    assert ["data", "text", "example.txt"][1..] == ["text", "example.txt"];
    assert ["text", "example.txt"][1..] == ["example.txt"];
    assert ["data", "text"][1..] == ["text"];
    assert ["data", "not", "found"][1..] == ["not", "found"];
  }

  /** The checks after the first mount: "/", "/data" and "/data/text" are directories, the leaf is a file. */
  lemma QueriesAfterFirstMount(host: Host)
    ensures DirAt(Mounted1, Find(Mounted1, "/"))
    ensures Find(Mounted1, "/data") == Some(1) && DirAt(Mounted1, Some(1))
    ensures Find(Mounted1, "/data/text") == Some(2) && DirAt(Mounted1, Some(2))
    ensures Find(Mounted1, Example) == Some(3) && FileAt(Mounted1, Some(3))
    ensures ReadString(host, Mounted1[3], true) == Success("123 456") && FileSize(host, Mounted1[3]) == 7
    ensures Find(Mounted1, Missing).None?
  {
    AbsoluteFacts();
    DataSegments();
    DataTextSegments();
    SegmentsExample();
    MissingSegments();
    WalksAfterFirstMount();
  }

  /** Opening the borrowed text reads it through a span over its seven characters. */
  lemma OpenAfterFirstMount(host: Host)
    ensures var b := GetBuf(host, Mounted1[3], Union(BinaryMode, InMode));
      && b.Success? && b.value.SpanStream?
      && b.value.span.buf.size == 7
      && b.value.span.get == SpanBuffer.Area(0, 0, 7)
      && b.value.span.mode.input && !b.value.span.mode.output
  {
  }

  /** The tree after "1013" is mounted over the leaf with overwrite. */
  const Mounted2: seq<Node> := Mounted1[3 := Node(Some(2), StringConstant("1013", false))]

  /**
   * Mounting the owned text "1013" at the same path with overwrite replaces
   * the leaf in place; the parent link and the directories stay.
   */
  lemma RemountOverwrites()
    ensures WellFormed(Mounted1)
    ensures Mount(Mounted1, Example, true, StringConstant("1013", false)) == Success(Mounted(Mounted2, 3, true))
  {
    AbsoluteFacts();
    ExampleParts();
    SegmentsExample();
    DataTextSegments();
    RemountOverwritesAt(Example);
  }

  /** Under the header's mount_impl, which never overwrites, the same remount changes nothing. */
  lemma RemountWithoutOverwriteKeepsText()
    ensures WellFormed(Mounted1)
    ensures Mount(Mounted1, Example, false, StringConstant("1013", false)) == Success(Mounted(Mounted1, 3, false))
  {
    Mounted1WellFormed();
    AbsoluteFacts();
    ExampleParts();
    SegmentsExample();
    WalksAfterFirstMount();
    MountExisting(Mounted1, Example, false, StringConstant("1013", false));
  }

  /** After the overwrite the walk to the leaf is unchanged. */
  lemma WalkAfterRemount()
    ensures Resolve(Mounted2, 0, ["data", "text", "example.txt"]) == Some(3)
    ensures Resolve(Mounted2, 0, ["data", "not", "found"]).None?
  {
    assert ["data", "not", "found"][1..] == ["not", "found"];
    assert ["data", "text", "example.txt"][1..] == ["text", "example.txt"];
    assert ["text", "example.txt"][1..] == ["example.txt"];
  }

  /** After the overwrite the leaf still is a file, and reads back "1013" from a string buffer. */
  lemma QueriesAfterRemount(host: Host)
    ensures Find(Mounted2, Example) == Some(3) && FileAt(Mounted2, Some(3))
    ensures ReadString(host, Mounted2[3], true) == Success("1013")
    ensures GetBuf(host, Mounted2[3], Union(BinaryMode, InMode)) == Success(StringStream("1013", Union(BinaryMode, InMode)))
  {
    AbsoluteFacts();
    SegmentsExample();
    WalkAfterRemount();
  }

  /** p is a strictly absolute path with these segments. */
  predicate Spelled(p: string, segs: seq<string>)
  {
    IsAbsolute(p) && Segments(p) == segs
  }

  /** The first half of the test on the class: mount, then the existence and kind checks. */
  method ReplayFirstMount(data: string, text: string, leaf: string) returns (fs: Vfs.FileSystem, checks: seq<bool>)
    requires Spelled(data, ["data"]) && Spelled(text, ["data", "text"]) && Spelled(leaf, ["data", "text", "example.txt"])
    requires ParentPath(leaf) == text && Filename(leaf) == "example.txt"
    ensures fresh(fs) && fs.Valid() && fs.nodes == Mounted1
    ensures checks == [true, true, true, true, true, true, true, false]
  {
    fs := new Vfs.FileSystem();
    FirstMountAt(leaf);
    var mounted := fs.MountStringConstant(leaf, "123 456", true, false);
    WalksAfterFirstMount();
    var e0 := fs.Exists("/");
    var d0 := fs.IsDirectoryAt("/");
    var e1 := fs.Exists(data);
    var d1 := fs.IsDirectoryAt(data);
    var e2 := fs.Exists(text);
    var d2 := fs.IsDirectoryAt(text);
    var e3 := fs.Exists(leaf);
    var d3 := fs.IsDirectoryAt(leaf);
    checks := [e0, d0, e1, d1, e2, d2, e3, d3];
  }

  /** Mounting "1013" over the leaf, on a path spelled like the test's. */
  lemma RemountOverwritesAt(leaf: string)
    requires Spelled(leaf, ["data", "text", "example.txt"]) && Spelled(ParentPath(leaf), ["data", "text"])
    requires Filename(leaf) == "example.txt"
    ensures WellFormed(Mounted1)
    ensures Mount(Mounted1, leaf, true, StringConstant("1013", false)) == Success(Mounted(Mounted2, 3, true))
  {
    Mounted1WellFormed();
    WalksAfterFirstMount();
    MountExisting(Mounted1, leaf, true, StringConstant("1013", false));
  }

  /** The second part: read the text, remount with overwrite, read again. */
  method ReplayRemount(host: Host, fs: Vfs.FileSystem, leaf: string)
    returns (first: Result<StreamBuf, string>, second: Result<StreamBuf, string>)
    requires fs.Valid() && fs.nodes == Mounted1
    requires Spelled(leaf, ["data", "text", "example.txt"]) && Spelled(ParentPath(leaf), ["data", "text"])
    requires Filename(leaf) == "example.txt"
    modifies fs
    ensures fs.Valid() && fs.nodes == Mounted2
    ensures first.Success? && first.value.SpanStream? && first.value.span.buf.size == 7
    ensures second == Success(StringStream("1013", Union(BinaryMode, InMode)))
  {
    WalksAfterFirstMount();
    OpenAfterFirstMount(host);
    first := fs.Open(host, leaf, BinaryMode);
    RemountOverwritesAt(leaf);
    var mounted := fs.MountStringConstant(leaf, "1013", false, true);
    WalkAfterRemount();
    second := fs.Open(host, leaf, BinaryMode);
  }

  /** The last part: opening a path nothing is mounted at throws `"p" is not found`. */
  method ReplayMissing(host: Host, fs: Vfs.FileSystem, missingPath: string) returns (missing: Result<StreamBuf, string>)
    requires fs.Valid() && fs.nodes == Mounted2
    requires Spelled(missingPath, ["data", "not", "found"])
    ensures missing == Failure(ErrMsg.VfsErrMsgNoPrefix(missingPath, " is not found"))
  {
    WalkAfterRemount();
    missing := fs.Open(host, missingPath, BinaryMode);
  }

  /** The whole test on the class, with its own paths: every check answers what the test expects. */
  method ReplayMountStringConstant(host: Host)
    returns (checks: seq<bool>, first: Result<StreamBuf, string>, second: Result<StreamBuf, string>, missing: Result<StreamBuf, string>)
    ensures checks == [true, true, true, true, true, true, true, false]
    ensures first.Success? && first.value.SpanStream? && first.value.span.buf.size == 7
    ensures second == Success(StringStream("1013", Union(BinaryMode, InMode)))
    ensures missing == Failure("\"/data/not/found\" is not found")
  {
    AbsoluteFacts();
    DataSegments();
    DataTextSegments();
    SegmentsExample();
    ExampleParts();
    MissingSegments();
    var fs;
    fs, checks := ReplayFirstMount("/data", "/data/text", Example);
    first, second := ReplayRemount(host, fs, Example);
    missing := ReplayMissing(host, fs, Missing);
    ErrMsg.NotFoundMessage();
  }

  // ---------------------------------------------------------------- a mount at a directory-style path

  /** The directory-style path of the parent_path case in test/test_path.cpp, with its trailing separator. */
  const DataTextDir: string := "/data/text/"

  /** The tree after mounting at "/data/text/": the leaf is named "" and sits in /data. */
  const MountedAtDir: seq<Node> := [
    Node(None, Directory(map["data" := 1])),
    Node(Some(0), Directory(map["" := 2])),
    Node(Some(1), StringConstant("123 456", true))]

  lemma DataTextDirParts()
    ensures IsAbsolute(DataTextDir) && ParentPath(DataTextDir) == "/data" && Filename(DataTextDir) == []
    ensures Segments(DataTextDir) == ["data", "text"]
  {
    assert DotFreeFrom(DataTextDir, 0);
    ParentPathOfDirectory();
    SegmentsDropTrailingSeparator(DataTextDir);
    assert DataTextDir[..|DataTextDir| - 1] == "/data/text";
    DataTextSegments();
  }

  lemma MountAtDirAt(p: string)
    requires IsAbsolute(p) && Segments(ParentPath(p)) == ["data"] && Filename(p) == []
    ensures Mount(Root, p, false, StringConstant("123 456", true)) == Success(Mounted(MountedAtDir, 2, true))
  {
    var n1 := AddChild(Root, 0, "data", Directory(map[]));
    assert n1 == [Node(None, Directory(map["data" := 1])), Node(Some(0), Directory(map[]))];
    AddChildWellFormed(Root, 0, "data", Directory(map[]));
    assert ["data"][1..] == [];
    assert Mkdir(Root, 0, ["data"]) == Success(Made(n1, 1));
    assert AddChild(n1, 1, [], StringConstant("123 456", true)) == MountedAtDir;
  }

  /** The walks through the tree after that mount. */
  lemma WalksAfterDirMount()
    ensures Resolve(MountedAtDir, 0, ["data", "text"]).None?
    ensures Resolve(MountedAtDir, 0, ["data", ""]) == Some(2)
  {
    assert ["data", "text"][1..] == ["text"];
    assert ["data", ""][1..] == [""] && [""][1..] == [];
  }

  /**
   * Mounting at "/data/text/" on a fresh file system: parent_path drops the
   * trailing separator and then "text", so the leaf is a child named "" of
   * /data, and the path mounted at does not resolve afterwards.
   */
  lemma MountAtDirectoryPath()
    ensures Mount(Root, DataTextDir, false, StringConstant("123 456", true)) == Success(Mounted(MountedAtDir, 2, true))
    ensures Find(MountedAtDir, DataTextDir).None?
    ensures Resolve(MountedAtDir, 0, ["data", ""]) == Some(2)
  {
    DataTextDirParts();
    DataSegments();
    MountAtDirAt(DataTextDir);
    WalksAfterDirMount();
  }
}
