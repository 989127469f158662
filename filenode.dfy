/**
 * The nodes of the namespace tree: a closed variant of four payload kinds,
 * the name order of a directory's children, and the per-kind dispatch of
 * is_directory, file_size, getbuf and read_string.
 */
module FileNodes {
  import opened Wrappers
  import opened IosBase
  import ErrMsg
  import SpanBuffer

  /** Nodes live in an arena; a node is named by its index. */
  type NodeId = nat

  /** The archives an archive entry can refer to, named by the host. */
  type ArchiveId = nat

  /** string_compare: std::string_view's operator<, lexicographic on characters. */
  function StringLess(a: string, b: string): (r: bool)
    ensures |a| == 0 ==> (r <==> |b| > 0)
    decreases |a|
  {
    if |a| == 0 then |b| > 0
    else if |b| == 0 then false
    else if a[0] != b[0] then a[0] < b[0]
    else StringLess(a[1..], b[1..])
  }

  lemma {:induction false} StringLessIrreflexive(a: string)
    ensures !StringLess(a, a)
    decreases |a|
  {
    if |a| > 0 {
      StringLessIrreflexive(a[1..]);
    }
  }

  lemma {:induction false} StringLessTransitive(a: string, b: string, c: string)
    requires StringLess(a, b) && StringLess(b, c)
    ensures StringLess(a, c)
    decreases |a|
  {
    if |a| > 0 && a[0] == b[0] && b[0] == c[0] {
      StringLessTransitive(a[1..], b[1..], c[1..]);
    }
  }

  lemma {:induction false} StringLessTotal(a: string, b: string)
    requires a != b
    ensures StringLess(a, b) || StringLess(b, a)
    decreases |a|
  {
    if |a| > 0 && |b| > 0 && a[0] == b[0] {
      assert a == [a[0]] + a[1..] && b == [b[0]] + b[1..];
      StringLessTotal(a[1..], b[1..]);
    }
  }

  /**
   * Two names are equivalent under string_compare exactly when they are the
   * same text, so a map ordered by it holds at most one child per name.
   */
  lemma NamesEquivalentIffEqual(a: string, b: string)
    ensures !StringLess(a, b) && !StringLess(b, a) <==> a == b
  {
    if a == b {
      StringLessIrreflexive(a);
    } else {
      StringLessTotal(a, b);
    }
  }

  /** file_data: the payload of a node. */
  datatype Data =
    | Directory(children: map<string, NodeId>)
      /** std::string (owned) or std::string_view (borrowed) text. */
    | StringConstant(text: string, borrowed: bool)
    | SysFile(sysPath: string)
      /** A shared reference to an archive (null once moved from) and the entry's offset in it. */
    | ArchiveEntry(archive: Option<ArchiveId>, offset: int)

  /** detail::file_node: a parent link (null for the root) and a payload. */
  datatype Node = Node(parent: Option<NodeId>, data: Data)

  /**
   * What the host and the archive reader answer; the model does not look
   * inside either.
   */
  datatype Host = Host(
    sysFileSize: string -> nat,
    sysOpens: (string, OpenMode) -> bool,
    sysRead: (string, OpenMode) -> Option<string>,
    archiveSize: (ArchiveId, int) -> nat,
    archiveRead: (ArchiveId, int) -> string)

  /** The stream buffer that getbuf hands out. */
  datatype StreamBuf =
    | SpanStream(span: SpanBuffer.State)
    | StringStream(text: string, mode: OpenMode)
    | FileStream(sysPath: string, mode: OpenMode)
    | ArchiveStream(archive: ArchiveId, offset: int, mode: OpenMode)

  /** The mode a buffer reads under. */
  function BufMode(b: StreamBuf): OpenMode
  {
    match b
    case SpanStream(s) => s.mode
    case StringStream(_, m) => m
    case FileStream(_, m) => m
    case ArchiveStream(_, _, m) => m
  }

  /** An archive entry that still holds its archive; only moved-from entries do not. */
  predicate Holds(n: Node)
  {
    n.data.ArchiveEntry? ==> n.data.archive.Some?
  }

  /** file_node::is_directory: holds_alternative<directory>. */
  predicate IsDirectory(n: Node)
  {
    n.data.Directory?
  }

  /** file_node::file_size, dispatched to the payload's own file_size. */
  function FileSize(host: Host, n: Node): (r: nat)
    requires Holds(n)
    ensures IsDirectory(n) ==> r == 0
    ensures n.data.StringConstant? ==> r == |n.data.text|
  {
    match n.data
    case Directory(_) => 0
    case StringConstant(text, _) => |text|
    case SysFile(p) => host.sysFileSize(p)
    case ArchiveEntry(ar, off) => host.archiveSize(ar.value, off)
  }

  /**
   * string_constant::open: `out` is cleared; a borrowed view is read
   * through a span_buf over it, an owned string through a std::stringbuf.
   */
  function StringConstantOpen(text: string, borrowed: bool, mode: OpenMode): (b: StreamBuf)
    ensures !BufMode(b).output
    ensures BufMode(b) == mode.(output := false)
    ensures b.SpanStream? <==> borrowed
    ensures b.SpanStream? ==> b.span.buf.size == |text| && SpanBuffer.Consistent(b.span)
    ensures b.SpanStream? && mode.input ==> b.span.get == SpanBuffer.Area(0, 0, |text|)
  {
    var m := mode.(output := false);
    if borrowed then
      SpanStream(SpanBuffer.SetSpanAsWritten(SpanBuffer.Fresh(m), SpanBuffer.Span(false, |text|)))
    else StringStream(text, m)
  }

  /** file_node::getbuf: a directory has no open and throws "bad file". */
  function GetBuf(host: Host, n: Node, mode: OpenMode): (r: Result<StreamBuf, string>)
    requires Holds(n)
    ensures r.Failure? <==> IsDirectory(n) || (n.data.SysFile? && !host.sysOpens(n.data.sysPath, mode))
    ensures IsDirectory(n) ==> r == Failure("bad file")
    ensures r.Success? && n.data.SysFile? ==> BufMode(r.value) == mode
    ensures r.Success? && !n.data.SysFile? ==> BufMode(r.value) == mode.(output := false)
  {
    match n.data
    case Directory(_) => Failure("bad file")
    case StringConstant(text, borrowed) => Success(StringConstantOpen(text, borrowed, mode))
    case SysFile(p) =>
      if host.sysOpens(p, mode) then Success(FileStream(p, mode))
      else Failure(ErrMsg.StdfsErrMsg("failed to open ", p, []))
    case ArchiveEntry(ar, off) => Success(ArchiveStream(ar.value, off, mode.(output := false)))
  }

  /**
   * file_node::read_string: a directory throws "bad file"; a string constant
   * returns its text and an archive entry its decoded content, both whatever
   * convert_crlf says; a system file is read in binary mode unless CRLF is converted.
   */
  function ReadString(host: Host, n: Node, convertCrlf: bool): (r: Result<string, string>)
    requires Holds(n)
    ensures IsDirectory(n) ==> r == Failure("bad file")
    ensures n.data.StringConstant? ==> r == Success(n.data.text)
  {
    match n.data
    case Directory(_) => Failure("bad file")
    case StringConstant(text, _) => Success(text)
    case SysFile(p) =>
      var mode := if convertCrlf then InMode else Union(InMode, BinaryMode);
      (match host.sysRead(p, mode)
       case None => Failure(ErrMsg.StdfsErrMsg("failed to open ", p, []))
       case Some(content) => Success(content))
    case ArchiveEntry(ar, off) => Success(host.archiveRead(ar.value, off))
  }

  /** Only a system file's read depends on convert_crlf. */
  lemma ReadStringIgnoresCrlf(host: Host, n: Node)
    requires Holds(n) && !n.data.SysFile?
    ensures ReadString(host, n, true) == ReadString(host, n, false)
  {
  }

  /** What a string constant reads back is what file_size counts. */
  lemma StringConstantSizeIsLength(host: Host, n: Node)
    requires n.data.StringConstant?
    ensures ReadString(host, n, true).Success?
    ensures FileSize(host, n) == |ReadString(host, n, true).value|
  {
  }

  /**
   * file_node's move assignment: unless it is self-assignment, the target
   * takes the source's parent link and payload.
   */
  function NodeMoveAssign(lhs: Node, rhs: Node, isSelf: bool): (r: Node)
    requires isSelf ==> lhs == rhs
    ensures r.parent == rhs.parent && r.data == rhs.data
    ensures isSelf ==> r == lhs
  {
    if isSelf then lhs else Node(rhs.parent, rhs.data)
  }

  /**
   * archive_entry's move assignment on (target, source): the target takes the
   * source's archive reference and offset; the source is left with a null
   * reference and offset 0. Self-assignment changes nothing.
   */
  function EntryMoveAssign(lhs: Data, rhs: Data, isSelf: bool): (r: (Data, Data))
    requires lhs.ArchiveEntry? && rhs.ArchiveEntry?
    requires isSelf ==> lhs == rhs
    ensures isSelf ==> r == (lhs, lhs)
    ensures !isSelf ==> r.0 == rhs && r.1.ArchiveEntry? && r.1.archive.None? && r.1.offset == 0
  {
    if isSelf then (lhs, rhs)
    else (ArchiveEntry(rhs.archive, rhs.offset), ArchiveEntry(None, 0))
  }

  /**
   * The body of archive_entry's move assignment run with both sides the same
   * entry, step by step: the shared_ptr move-assignment moves the reference
   * into a temporary (leaving the entry null) and swaps it back; std::exchange
   * zeroes the offset and returns the old one, which is then stored. The entry
   * comes out as it went in, so the self-assignment check saves work only.
   */
  function EntrySelfMoveUnchecked(e: Data): (r: Data)
    requires e.ArchiveEntry?
    ensures r == e
  {
    var tmp := e.archive;
    var moved := e.(archive := None);
    var swapped := moved.(archive := tmp);
    var oldOffset := swapped.offset;
    var zeroed := swapped.(offset := 0);
    zeroed.(offset := oldOffset)
  }
}
