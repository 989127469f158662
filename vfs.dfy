/**
 * virtual_file_system: owns the namespace tree and answers queries on it;
 * the mount_* entry points validate their source and then mount_impl each
 * file into the tree.
 */
module Vfs {
  import opened Wrappers
  import opened IosBase
  import opened Paths
  import opened FileNodes
  import opened NamespaceTree
  import ErrMsg

  // ---------------------------------------------------------------- what the host provides

  /** One entry of a recursive walk over a host directory. */
  datatype DirEntry = DirEntry(isDir: bool, absolutePath: string, relativePath: string)

  /** One entry of a zip archive, in the archive's enumeration order. */
  datatype ZipEntry = ZipEntry(isDir: bool, filename: string, offset: int)

  /** An opened zip archive: its host-given identity and its entries. */
  datatype Archive = Archive(id: ArchiveId, entries: seq<ZipEntry>)

  /**
   * std::filesystem queries on the host and the archive reader, as oracles:
   * existence, regular file, directory, absolute path, recursive walk, and
   * opening a zip archive (which may throw).
   */
  datatype HostFs = HostFs(
    present: string -> bool,
    isRegularFile: string -> bool,
    isDirectory: string -> bool,
    absolute: string -> string,
    walk: string -> seq<DirEntry>,
    openArchive: string -> Result<Archive, string>)

  // ---------------------------------------------------------------- several mounts in a row

  /** A file to mount: its name relative to the mount point, and its payload. */
  datatype Item = Item(name: string, payload: Data)

  /** The tree after a run of mounts, and the message of the one that threw, if any. */
  datatype Batch = Batch(nodes: seq<Node>, failure: Option<string>)

  /** The files of a host directory walk, in walk order; directories are skipped. */
  function DirItems(es: seq<DirEntry>): seq<Item>
    decreases |es|
  {
    if |es| == 0 then []
    else (if es[0].isDir then [] else [Item(es[0].relativePath, SysFile(es[0].absolutePath))]) + DirItems(es[1..])
  }

  /** The files of an archive, in enumeration order; directory entries are skipped. */
  function ZipItems(ar: ArchiveId, es: seq<ZipEntry>): seq<Item>
    decreases |es|
  {
    if |es| == 0 then []
    else (if es[0].isDir then [] else [Item(es[0].filename, ArchiveEntry(Some(ar), es[0].offset))]) + ZipItems(ar, es[1..])
  }

  /**
   * Every file of the walk is mounted, as a system file under its absolute
   * host path, and nothing else is: the walk mounts nothing exactly when it
   * holds only directories.
   */
  lemma {:induction false} DirItemsAreTheFiles(es: seq<DirEntry>)
    ensures forall j :: 0 <= j < |es| && !es[j].isDir ==> Item(es[j].relativePath, SysFile(es[j].absolutePath)) in DirItems(es)
    ensures forall it :: it in DirItems(es) ==> it.payload.SysFile?
    ensures DirItems(es) == [] <==> forall j :: 0 <= j < |es| ==> es[j].isDir
    decreases |es|
  {
    if |es| > 0 {
      DirItemsAreTheFiles(es[1..]);
      forall j | 0 < j < |es|
        ensures es[j] == es[1..][j - 1]
      {
      }
    }
  }

  /**
   * Every file entry of the archive is mounted as an entry of that archive at
   * its offset, and nothing else is: an archive of directories mounts nothing.
   */
  lemma {:induction false} ZipItemsAreTheFiles(ar: ArchiveId, es: seq<ZipEntry>)
    ensures forall j :: 0 <= j < |es| && !es[j].isDir ==> Item(es[j].filename, ArchiveEntry(Some(ar), es[j].offset)) in ZipItems(ar, es)
    ensures forall it :: it in ZipItems(ar, es) ==> it.payload.ArchiveEntry? && it.payload.archive == Some(ar)
    ensures ZipItems(ar, es) == [] <==> forall j :: 0 <= j < |es| ==> es[j].isDir
    decreases |es|
  {
    if |es| > 0 {
      ZipItemsAreTheFiles(ar, es[1..]);
      forall j | 0 < j < |es|
        ensures es[j] == es[1..][j - 1]
      {
      }
    }
  }

  lemma DirItemsStep(es: seq<DirEntry>, k: nat)
    requires k < |es|
    ensures es[k].isDir ==> DirItems(es[k..]) == DirItems(es[k + 1..])
    ensures !es[k].isDir ==>
      DirItems(es[k..]) == [Item(es[k].relativePath, SysFile(es[k].absolutePath))] + DirItems(es[k + 1..])
  {
    assert es[k..][0] == es[k] && es[k..][1..] == es[k + 1..];
  }

  lemma ZipItemsStep(ar: ArchiveId, es: seq<ZipEntry>, k: nat)
    requires k < |es|
    ensures es[k].isDir ==> ZipItems(ar, es[k..]) == ZipItems(ar, es[k + 1..])
    ensures !es[k].isDir ==>
      ZipItems(ar, es[k..]) == [Item(es[k].filename, ArchiveEntry(Some(ar), es[k].offset))] + ZipItems(ar, es[k + 1..])
  {
    assert es[k..][0] == es[k] && es[k..][1..] == es[k + 1..];
  }

  /** Every item lands at a strictly absolute path (mount_impl asserts it) and is a mountable file. */
  predicate Placeable(base: string, items: seq<Item>)
  {
    forall i :: 0 <= i < |items| ==> IsAbsolute(Join(base, items[i].name)) && Mountable(items[i].payload)
  }

  /**
   * mount_impl at base / name for each item in turn; the first mount that
   * throws ends the run, and the mounts before it stay.
   */
  function MountAll(nodes: seq<Node>, base: string, items: seq<Item>, overwrite: bool): (r: Batch)
    requires WellFormed(nodes) && Placeable(base, items)
    ensures WellFormed(r.nodes)
    ensures items == [] ==> r == Batch(nodes, None)
    decreases |items|
  {
    if |items| == 0 then Batch(nodes, None)
    else
      match Mount(nodes, Join(base, items[0].name), overwrite, items[0].payload)
      case Failure(e) => Batch(nodes, Some(e))
      case Success(m) => MountAll(m.nodes, base, items[1..], overwrite)
  }

  lemma PlaceableSplit(base: string, a: seq<Item>, b: seq<Item>)
    requires Placeable(base, a + b)
    ensures Placeable(base, a) && Placeable(base, b)
  {
    forall i | 0 <= i < |a|
      ensures IsAbsolute(Join(base, a[i].name)) && Mountable(a[i].payload)
    {
      assert a[i] == (a + b)[i];
    }
    forall i | 0 <= i < |b|
      ensures IsAbsolute(Join(base, b[i].name)) && Mountable(b[i].payload)
    {
      assert b[i] == (a + b)[|a| + i];
    }
  }

  /**
   * A run over a + b is the run over a, then, unless that one stopped at a
   * failure, the run over b from the tree it left.
   */
  lemma {:induction false} MountAllAppend(nodes: seq<Node>, base: string, a: seq<Item>, b: seq<Item>, overwrite: bool)
    requires WellFormed(nodes) && Placeable(base, a + b)
    ensures Placeable(base, a) && Placeable(base, b)
    ensures var r := MountAll(nodes, base, a, overwrite);
      MountAll(nodes, base, a + b, overwrite) == if r.failure.Some? then r else MountAll(r.nodes, base, b, overwrite)
    decreases |a|
  {
    PlaceableSplit(base, a, b);
    if |a| == 0 {
      assert a + b == b;
    } else {
      assert a + b == [a[0]] + (a[1..] + b);
      assert a == [a[0]] + a[1..];
      MountAllCons(nodes, base, a[0], a[1..] + b, overwrite);
      MountAllCons(nodes, base, a[0], a[1..], overwrite);
      var first := Mount(nodes, Join(base, a[0].name), overwrite, a[0].payload);
      if first.Success? {
        MountAllAppend(first.value.nodes, base, a[1..], b, overwrite);
      }
    }
  }

  /** One step of a run of mounts: the first item's mount, then the rest from the tree it leaves. */
  lemma MountAllCons(nodes: seq<Node>, base: string, item: Item, rest: seq<Item>, overwrite: bool)
    requires WellFormed(nodes) && Placeable(base, [item] + rest)
    ensures Placeable(base, rest)
    ensures IsAbsolute(Join(base, item.name)) && Mountable(item.payload)
    ensures var first := Mount(nodes, Join(base, item.name), overwrite, item.payload);
      && (first.Failure? ==> MountAll(nodes, base, [item] + rest, overwrite) == Batch(nodes, Some(first.error)))
      && (first.Success? ==> MountAll(nodes, base, [item] + rest, overwrite) == MountAll(first.value.nodes, base, rest, overwrite))
  {
    var items := [item] + rest;
    assert items[0] == item && items[1..] == rest;
    forall i | 0 <= i < |rest|
      ensures IsAbsolute(Join(base, rest[i].name)) && Mountable(rest[i].payload)
    {
      assert rest[i] == items[i + 1];
    }
  }

  /** One step of mkdir_impl's walk, at the k-th name. */
  lemma MkdirStep(nodes: seq<Node>, cur: NodeId, segs: seq<string>, k: nat)
    requires WellFormed(nodes) && cur < |nodes| && nodes[cur].data.Directory? && k < |segs|
    ensures var kids := nodes[cur].data.children;
      && (segs[k] in kids ==> kids[segs[k]] < |nodes|)
      && (segs[k] in kids && !nodes[kids[segs[k]]].data.Directory? ==>
            Mkdir(nodes, cur, segs[k..]) == Failure(ErrMsg.VfsErrMsgNoPrefix(segs[k], " already exists")))
      && (segs[k] in kids && nodes[kids[segs[k]]].data.Directory? ==>
            Mkdir(nodes, cur, segs[k..]) == Mkdir(nodes, kids[segs[k]], segs[k + 1..]))
      && (segs[k] !in kids ==>
            WellFormed(AddChild(nodes, cur, segs[k], Directory(map[])))
            && Mkdir(nodes, cur, segs[k..]) == Mkdir(AddChild(nodes, cur, segs[k], Directory(map[])), |nodes|, segs[k + 1..]))
  {
    assert segs[k..][0] == segs[k] && segs[k..][1..] == segs[k + 1..];
    assert ChildrenLinked(nodes, cur);
    AddChildWellFormed(nodes, cur, segs[k], Directory(map[]));
  }

  /** The error that open and file_size throw for a path nothing is mounted at. */
  function NotFound(p: string): (r: string)
    ensures r == ErrMsg.VfsErrMsgNoPrefix(p, " is not found")
  {
    ErrMsg.VfsErrMsg([], p, " is not found")
  }

  /** lochfolk::virtual_file_system. */
  class FileSystem {
    var nodes: seq<Node>

    predicate Valid()
      reads this
    {
      WellFormed(nodes)
    }

    /** The constructor: a root directory with a null parent and nothing else. */
    constructor ()
      ensures Valid() && nodes == Root
      ensures DirAt(nodes, Find(nodes, "/"))
    {
      nodes := Root;
    }

    /** find_impl: walk split_view's segments from the root. */
    method FindImpl(p: string) returns (r: Option<NodeId>)
      requires Valid()
      ensures r == Find(nodes, p)
    {
      if |p| == 0 {
        return None;
      }
      var absolute := IsAbsoluteScan(p);
      if !absolute {
        return None;
      }
      if |p| == 1 && p[0] == Separator {
        return Some(0);
      }
      var segs := Segments(p);
      var current: NodeId := 0;
      var k := 0;
      while k < |segs|
        invariant 0 <= k <= |segs| && current < |nodes|
        invariant Resolve(nodes, current, segs[k..]) == Resolve(nodes, 0, segs)
      {
        assert ChildrenLinked(nodes, current);
        match nodes[current].data {
          case Directory(kids) =>
            if segs[k] !in kids {
              return None;
            }
            current := kids[segs[k]];
          case _ =>
            return None;
        }
        k := k + 1;
      }
      assert segs[k..] == [];
      return Some(current);
    }

    /**
     * The body of mkdir_impl's loop at the k-th name: step into the child
     * directory of that name, creating it when missing, or throw when the
     * name holds a file. Reports whether it created the directory.
     */
    method MkdirDescend(current: NodeId, segs: seq<string>, k: nat) returns (next: Result<NodeId, string>, created: bool)
      requires Valid() && current < |nodes| && nodes[current].data.Directory? && k < |segs|
      modifies this
      ensures Valid()
      ensures next.Failure? ==> nodes == old(nodes) && !created && Mkdir(nodes, current, segs[k..]) == Failure(next.error)
      ensures next.Success? ==> next.value < |nodes| && nodes[next.value].data.Directory?
      ensures next.Success? ==> Mkdir(nodes, next.value, segs[k + 1..]) == old(Mkdir(nodes, current, segs[k..]))
      ensures !created ==> nodes == old(nodes)
      ensures created ==> next.Success? && nodes[next.value].data == Directory(map[])
      ensures old(nodes[current].data) == Directory(map[]) ==> created
      ensures created ==> next == Success(old(|nodes|)) && nodes == old(AddChild(nodes, current, segs[k], Directory(map[])))
      ensures next.Success? && !created ==>
        segs[k] in old(nodes[current].data.children) && next == Success(old(nodes[current].data.children[segs[k]]))
    {
      var name := segs[k];
      var kids := nodes[current].data.children;
      MkdirStep(nodes, current, segs, k);
      if name in kids {
        var c := kids[name];
        if !nodes[c].data.Directory? {
          return Failure(ErrMsg.VfsErrMsgNoPrefix(name, " already exists")), false;
        }
        return Success(c), false;
      }
      var c := |nodes|;
      nodes := AddChild(nodes, current, name, Directory(map[]));
      return Success(c), true;
    }

    /**
     * mkdir_impl: walk the segments, creating each missing directory; a
     * segment naming a file throws, and then nothing has been created.
     */
    method MkdirImpl(p: string) returns (r: Result<NodeId, string>)
      requires Valid()
      modifies this
      ensures Valid()
      ensures match Mkdir(old(nodes), 0, Segments(p))
        case Success(m) => r == Success(m.id) && nodes == m.nodes
        case Failure(e) => r == Failure(e) && nodes == old(nodes)
    {
      var segs := Segments(p);
      var current: NodeId := 0;
      var k := 0;
      ghost var created := false;
      ghost var start := nodes;
      ghost var spec := Mkdir(nodes, 0, segs);
      while k < |segs|
        invariant 0 <= k <= |segs|
        invariant Valid() && current < |nodes| && nodes[current].data.Directory?
        invariant Mkdir(nodes, current, segs[k..]) == spec
        invariant !created ==> nodes == start
        invariant created ==> nodes[current].data == Directory(map[])
      {
        var next, grew := MkdirDescend(current, segs, k);
        if next.Failure? {
          assert !created && nodes == old(nodes);
          return next;
        }
        current := next.value;
        created := created || grew;
        k := k + 1;
      }
      assert segs[k..] == [];
      return Success(current);
    }

    /**
     * mount_impl(p, overwrite, payload): returns the leaf and whether it
     * was inserted or replaced.
     */
    method MountImpl(p: string, overwrite: bool, payload: Data) returns (r: Result<(NodeId, bool), string>)
      requires Valid() && IsAbsolute(p) && Mountable(payload)
      modifies this
      ensures Valid()
      ensures match Mount(old(nodes), p, overwrite, payload)
        case Success(m) => r == Success((m.id, m.inserted)) && nodes == m.nodes
        case Failure(e) => r == Failure(e) && nodes == old(nodes)
    {
      var parent := ParentPath(p);
      var made := MkdirImpl(parent);
      if made.Failure? {
        return Failure(made.error);
      }
      var current := made.value;
      var filename := Filename(p);
      var kids := nodes[current].data.children;
      if filename in kids {
        var c := kids[filename];
        if overwrite {
          ReplaceWellFormed(nodes, current, filename, payload);
          nodes := nodes[c := NodeMoveAssign(nodes[c], Node(Some(current), payload), false)];
          return Success((c, true));
        }
        return Success((c, false));
      }
      AddChildWellFormed(nodes, current, filename, payload);
      var c := |nodes|;
      nodes := AddChild(nodes, current, filename, payload);
      return Success((c, true));
    }

    /**
     * The older mount_impl, which has no overwrite flag: a name that is
     * already there is never replaced.
     */
    method MountImplNoOverwrite(p: string, payload: Data) returns (r: Result<(NodeId, bool), string>)
      requires Valid() && IsAbsolute(p) && Mountable(payload)
      modifies this
      ensures Valid()
      ensures match Mount(old(nodes), p, false, payload)
        case Success(m) => r == Success((m.id, m.inserted)) && nodes == m.nodes
        case Failure(e) => r == Failure(e) && nodes == old(nodes)
      ensures Filename(p) != [] && old(Find(nodes, p)).Some? ==>
        nodes == old(nodes) && r == Success((old(Find(nodes, p)).value, false))
    {
      if Filename(p) != [] && Find(nodes, p).Some? {
        MountExisting(nodes, p, false, payload);
      }
      r := MountImpl(p, false, payload);
    }

    /** exists: the path resolves. */
    method Exists(p: string) returns (b: bool)
      requires Valid()
      ensures b <==> Find(nodes, p).Some?
    {
      var f := FindImpl(p);
      b := f.Some?;
    }

    /** is_directory: false for a path that does not resolve, else the node's kind. */
    method IsDirectoryAt(p: string) returns (b: bool)
      requires Valid()
      ensures b <==> DirAt(nodes, Find(nodes, p))
    {
      var f := FindImpl(p);
      if f.None? {
        return false;
      }
      b := IsDirectory(nodes[f.value]);
    }

    /** file_size: the node's size, or `"p" is not found`. */
    method FileSizeAt(host: Host, p: string) returns (r: Result<nat, string>)
      requires Valid()
      ensures Find(nodes, p).None? ==> r == Failure(ErrMsg.VfsErrMsgNoPrefix(p, " is not found"))
      ensures Find(nodes, p).Some? ==> r == Success(FileSize(host, nodes[Find(nodes, p).value]))
    {
      var f := FindImpl(p);
      if f.None? {
        return Failure(NotFound(p));
      }
      return Success(FileSize(host, nodes[f.value]));
    }

    /**
     * open: `"p" is not found` for a path that does not resolve; otherwise
     * the node's buffer, opened with `in` added to the mode.
     */
    method Open(host: Host, p: string, mode: OpenMode) returns (r: Result<StreamBuf, string>)
      requires Valid()
      ensures Find(nodes, p).None? ==> r == Failure(ErrMsg.VfsErrMsgNoPrefix(p, " is not found"))
      ensures Find(nodes, p).Some? ==> r == GetBuf(host, nodes[Find(nodes, p).value], Union(mode, InMode))
      ensures r.Success? ==> BufMode(r.value).input
      ensures r.Success? && !nodes[Find(nodes, p).value].data.SysFile? ==> !BufMode(r.value).output
    {
      var f := FindImpl(p);
      if f.None? {
        return Failure(NotFound(p));
      }
      var m := Union(mode, InMode);
      return GetBuf(host, nodes[f.value], m);
    }

    /** mount_string_constant: an owned string, or a borrowed view (also for a C string). */
    method MountStringConstant(p: string, text: string, borrowed: bool, overwrite: bool) returns (r: Outcome<string>)
      requires Valid() && IsAbsolute(p)
      modifies this
      ensures Valid()
      ensures match Mount(old(nodes), p, overwrite, StringConstant(text, borrowed))
        case Success(m) => r == Pass && nodes == m.nodes
        case Failure(e) => r == Fail(e) && nodes == old(nodes)
    {
      var res := MountImpl(p, overwrite, StringConstant(text, borrowed));
      r := if res.Failure? then Fail(res.error) else Pass;
    }

    /**
     * mount_sys_file: the host file must exist and be a regular file; it is
     * mounted under its absolute host path.
     */
    method MountSysFile(host: HostFs, p: string, sysPath: string, overwrite: bool) returns (r: Outcome<string>)
      requires Valid() && IsAbsolute(p)
      modifies this
      ensures Valid()
      ensures !host.present(sysPath) ==>
        r == Fail(ErrMsg.StdfsErrMsgNoPrefix(sysPath, " does not exist")) && nodes == old(nodes)
      ensures host.present(sysPath) && !host.isRegularFile(sysPath) ==>
        r == Fail(ErrMsg.StdfsErrMsg([], sysPath, " is not a regular file")) && nodes == old(nodes)
      ensures host.present(sysPath) && host.isRegularFile(sysPath) ==>
        match Mount(old(nodes), p, overwrite, SysFile(host.absolute(sysPath)))
        case Success(m) => r == Pass && nodes == m.nodes
        case Failure(e) => r == Fail(e) && nodes == old(nodes)
    {
      if !host.present(sysPath) {
        return Fail(ErrMsg.StdfsErrMsgNoPrefix(sysPath, " does not exist"));
      } else if host.isRegularFile(sysPath) {
        var res := MountImpl(p, overwrite, SysFile(host.absolute(sysPath)));
        r := if res.Failure? then Fail(res.error) else Pass;
      } else {
        return Fail(ErrMsg.StdfsErrMsg([], sysPath, " is not a regular file"));
      }
    }

    /**
     * One mount_impl of a run, at the target p / name that the caller built;
     * on success the rest of the run is what remains to do.
     */
    method MountItem(target: string, base: string, item: Item, rest: seq<Item>, overwrite: bool) returns (failed: Option<string>)
      requires Valid() && Placeable(base, [item] + rest) && target == Join(base, item.name)
      modifies this
      ensures Valid() && Placeable(base, rest)
      ensures failed.Some? ==> MountAll(old(nodes), base, [item] + rest, overwrite) == Batch(nodes, failed)
      ensures failed.None? ==> MountAll(nodes, base, rest, overwrite) == MountAll(old(nodes), base, [item] + rest, overwrite)
      ensures failed.None? ==>
        Mount(old(nodes), target, overwrite, item.payload).Success?
        && nodes == Mount(old(nodes), target, overwrite, item.payload).value.nodes
    {
      MountAllCons(nodes, base, item, rest, overwrite);
      var res := MountImpl(target, overwrite, item.payload);
      failed := if res.Failure? then Some(res.error) else None;
    }

    /**
     * mount_sys_dir: throws before touching the tree unless the source is a
     * directory; then mounts every file of the recursive walk at
     * p / its relative path, skipping directories.
     */
    method MountSysDir(host: HostFs, p: string, dir: string, overwrite: bool) returns (r: Outcome<string>)
      requires Valid()
      requires host.isDirectory(dir) ==> Placeable(p, DirItems(host.walk(dir)))
      modifies this
      ensures Valid()
      ensures !host.isDirectory(dir) ==>
        r == Fail(ErrMsg.StdfsErrMsgNoPrefix(dir, " is not a directory")) && nodes == old(nodes)
      ensures host.isDirectory(dir) ==>
        var b := MountAll(old(nodes), p, DirItems(host.walk(dir)), overwrite);
        nodes == b.nodes && r == (if b.failure.Some? then Fail(b.failure.value) else Pass)
    {
      if !host.isDirectory(dir) {
        return Fail(ErrMsg.StdfsErrMsgNoPrefix(dir, " is not a directory"));
      }
      var base := new Path(p);
      var entries := host.walk(dir);
      var k := 0;
      ghost var spec := MountAll(nodes, p, DirItems(entries), overwrite);
      while k < |entries|
        invariant 0 <= k <= |entries| && Valid() && base.text == p
        invariant Placeable(p, DirItems(entries[k..]))
        invariant MountAll(nodes, p, DirItems(entries[k..]), overwrite) == spec
      {
        var e := entries[k];
        DirItemsStep(entries, k);
        if e.isDir {
          k := k + 1;
          continue;
        }
        var target := Slash(base, e.relativePath);
        var item := Item(e.relativePath, SysFile(e.absolutePath));
        var failed := MountItem(target.text, p, item, DirItems(entries[k + 1..]), overwrite);
        if failed.Some? {
          return Fail(failed.value);
        }
        k := k + 1;
      }
      assert entries[k..] == [];
      return Pass;
    }

    /**
     * mount_zip_archive: open the archive (which may throw), then mount each
     * file entry at p / its name, skipping directory entries; an empty
     * archive mounts nothing.
     */
    method MountZipArchive(host: HostFs, p: string, sysPath: string, overwrite: bool) returns (r: Outcome<string>)
      requires Valid()
      requires host.openArchive(sysPath).Success? ==>
        Placeable(p, ZipItems(host.openArchive(sysPath).value.id, host.openArchive(sysPath).value.entries))
      modifies this
      ensures Valid()
      ensures host.openArchive(sysPath).Failure? ==>
        r == Fail(host.openArchive(sysPath).error) && nodes == old(nodes)
      ensures host.openArchive(sysPath).Success? ==>
        var ar := host.openArchive(sysPath).value;
        var b := MountAll(old(nodes), p, ZipItems(ar.id, ar.entries), overwrite);
        nodes == b.nodes && r == (if b.failure.Some? then Fail(b.failure.value) else Pass)
    {
      var archived := host.openArchive(sysPath);
      if archived.Failure? {
        return Fail(archived.error);
      }
      var ar := archived.value;
      var base := new Path(p);
      if |ar.entries| == 0 {
        // goto_first fails: an empty archive is not an error
        return Pass;
      }
      var entries := ar.entries;
      var k := 0;
      ghost var spec := MountAll(nodes, p, ZipItems(ar.id, entries), overwrite);
      while k < |entries|
        invariant 0 <= k <= |entries| && Valid() && base.text == p
        invariant Placeable(p, ZipItems(ar.id, entries[k..]))
        invariant MountAll(nodes, p, ZipItems(ar.id, entries[k..]), overwrite) == spec
      {
        var e := entries[k];
        ZipItemsStep(ar.id, entries, k);
        if e.isDir {
          k := k + 1;
          continue;
        }
        var target := Slash(base, e.filename);
        var item := Item(e.filename, ArchiveEntry(Some(ar.id), e.offset));
        var failed := MountItem(target.text, p, item, ZipItems(ar.id, entries[k + 1..]), overwrite);
        if failed.Some? {
          return Fail(failed.value);
        }
        k := k + 1;
      }
      assert entries[k..] == [];
      return Pass;
    }
  }
}
