/**
 * The namespace tree as an arena of nodes: node 0 is the root directory,
 * and a directory maps each child's name to the child's index. find_impl,
 * mkdir_impl and mount_impl are functions on the arena here; the file
 * system class runs them in place.
 */
module NamespaceTree {
  import opened Wrappers
  import opened Paths
  import opened FileNodes
  import ErrMsg

  // ---------------------------------------------------------------- shape

  /** A directory's children come after it in the arena and link back to it. */
  predicate ChildrenLinked(nodes: seq<Node>, i: nat)
    requires i < |nodes|
  {
    nodes[i].data.Directory? ==>
      forall name :: name in nodes[i].data.children ==>
        var c := nodes[i].data.children[name];
        i < c < |nodes| && nodes[c].parent == Some(i)
  }

  /**
   * The invariant of the tree: the root is a directory without a parent,
   * every child link points forward and back, and archive entries hold
   * their archive.
   */
  predicate WellFormed(nodes: seq<Node>)
  {
    && |nodes| > 0
    && nodes[0].parent.None? && nodes[0].data.Directory?
    && (forall i :: 0 <= i < |nodes| ==> ChildrenLinked(nodes, i) && Holds(nodes[i]))
  }

  /** The tree the file system starts with: one empty root directory. */
  const Root: seq<Node> := [Node(None, Directory(map[]))]

  /** A payload mount_impl accepts: anything but a directory, holding its archive if it is an entry. */
  predicate Mountable(data: Data)
  {
    !data.Directory? && Holds(Node(None, data))
  }

  /** The node that r names exists and is a directory. */
  predicate DirAt(nodes: seq<Node>, r: Option<NodeId>)
  {
    r.Some? && r.value < |nodes| && nodes[r.value].data.Directory?
  }

  /** The node that r names exists and is not a directory. */
  predicate FileAt(nodes: seq<Node>, r: Option<NodeId>)
  {
    r.Some? && r.value < |nodes| && !nodes[r.value].data.Directory?
  }

  // ---------------------------------------------------------------- find_impl

  /** Walks the names in segs from node cur; None as soon as a node is not a directory or a name is missing. */
  function Resolve(nodes: seq<Node>, cur: NodeId, segs: seq<string>): (r: Option<NodeId>)
    ensures r.Some? ==> r.value < |nodes|
    decreases |segs|
  {
    if cur >= |nodes| then None
    else if |segs| == 0 then Some(cur)
    else match nodes[cur].data
      case Directory(kids) => if segs[0] in kids then Resolve(nodes, kids[segs[0]], segs[1..]) else None
      case _ => None
  }

  /**
   * find_impl: nothing for an empty or not strictly absolute path, the root
   * for "/", otherwise the walk over split_view's segments from the root.
   */
  function Find(nodes: seq<Node>, p: string): (r: Option<NodeId>)
    requires |nodes| > 0
    ensures !IsAbsolute(p) ==> r.None?
    ensures IsAbsolute(p) ==> r == Resolve(nodes, 0, Segments(p))
    ensures |p| == 1 && p[0] == Separator ==> r == Some(0)
  {
    if |p| == 0 || !IsAbsolute(p) then None
    else if |p| == 1 && p[0] == Separator then
      SegmentsOfRoot();
      assert p == "/";
      Some(0)
    else Resolve(nodes, 0, Segments(p))
  }

  lemma TakeTail<T>(s: seq<T>, k: nat)
    requires 1 <= k <= |s|
    ensures s[..k][0] == s[0] && s[..k][1..] == s[1..][..k - 1]
  {
  }

  lemma ConcatTail<T>(a: seq<T>, b: seq<T>)
    requires |a| > 0
    ensures (a + b)[0] == a[0] && (a + b)[1..] == a[1..] + b
  {
  }

  /** One step of a walk over the first k names. */
  lemma ResolveStep(nodes: seq<Node>, cur: NodeId, segs: seq<string>, k: nat)
    requires cur < |nodes| && nodes[cur].data.Directory? && 1 <= k <= |segs|
    requires segs[0] in nodes[cur].data.children
    ensures Resolve(nodes, cur, segs[..k]) == Resolve(nodes, nodes[cur].data.children[segs[0]], segs[1..][..k - 1])
  {
    TakeTail(segs, k);
  }

  /** A walk over two lists of names is the walk over the second from where the first ends. */
  lemma {:induction false} ResolveConcat(nodes: seq<Node>, cur: NodeId, s1: seq<string>, s2: seq<string>)
    ensures Resolve(nodes, cur, s1 + s2) ==
      match Resolve(nodes, cur, s1)
      case None => None
      case Some(x) => Resolve(nodes, x, s2)
    decreases |s1|
  {
    if |s1| == 0 {
      assert s1 + s2 == s2;
    } else if cur < |nodes| {
      ConcatTail(s1, s2);
      match nodes[cur].data {
        case Directory(kids) =>
          if s1[0] in kids {
            ResolveConcat(nodes, kids[s1[0]], s1[1..], s2);
          }
        case _ =>
      }
    }
  }

  /** In a well-formed tree a walk only moves to later nodes. */
  lemma {:induction false} ResolveGrows(nodes: seq<Node>, cur: NodeId, segs: seq<string>)
    requires WellFormed(nodes)
    requires Resolve(nodes, cur, segs).Some?
    ensures cur <= Resolve(nodes, cur, segs).value
    decreases |segs|
  {
    if |segs| > 0 {
      var kids := nodes[cur].data.children;
      assert ChildrenLinked(nodes, cur);
      ResolveGrows(nodes, kids[segs[0]], segs[1..]);
    }
  }

  /** A walk that ends at x reads only nodes before x: a tree that agrees on them walks the same way. */
  lemma {:induction false} ResolveAgrees(a: seq<Node>, b: seq<Node>, cur: NodeId, segs: seq<string>)
    requires WellFormed(a)
    requires Resolve(a, cur, segs).Some?
    requires Resolve(a, cur, segs).value < |b|
    requires forall i :: 0 <= i < Resolve(a, cur, segs).value ==> i < |b| && b[i] == a[i]
    ensures Resolve(b, cur, segs) == Resolve(a, cur, segs)
    decreases |segs|
  {
    if |segs| > 0 {
      var kids := a[cur].data.children;
      var c := kids[segs[0]];
      assert ChildrenLinked(a, cur);
      ResolveGrows(a, c, segs[1..]);
      assert b[cur] == a[cur];
      ResolveAgrees(a, b, c, segs[1..]);
    }
  }

  // ---------------------------------------------------------------- growing the tree

  /** emplace(name, node) into directory d: the new node goes at the end of the arena. */
  function AddChild(nodes: seq<Node>, d: NodeId, name: string, data: Data): (r: seq<Node>)
    requires d < |nodes| && nodes[d].data.Directory?
    ensures |r| == |nodes| + 1 && r[|nodes|] == Node(Some(d), data)
    ensures r[d] == Node(nodes[d].parent, Directory(nodes[d].data.children[name := |nodes|]))
    ensures forall i :: 0 <= i < |nodes| && i != d ==> r[i] == nodes[i]
  {
    nodes[d := Node(nodes[d].parent, Directory(nodes[d].data.children[name := |nodes|]))] + [Node(Some(d), data)]
  }

  lemma AddChildWellFormed(nodes: seq<Node>, d: NodeId, name: string, data: Data)
    requires WellFormed(nodes) && d < |nodes| && nodes[d].data.Directory?
    requires data.Directory? ==> data.children == map[]
    requires Holds(Node(Some(d), data))
    ensures WellFormed(AddChild(nodes, d, name, data))
  {
    var r := AddChild(nodes, d, name, data);
    forall i | 0 <= i < |r|
      ensures ChildrenLinked(r, i) && Holds(r[i])
    {
      if i < |nodes| {
        assert ChildrenLinked(nodes, i);
        if i == d {
          assert ChildrenLinked(r, i);
        } else {
          assert r[i] == nodes[i];
          if r[i].data.Directory? {
            forall nm | nm in r[i].data.children
              ensures var c := r[i].data.children[nm]; i < c < |r| && r[c].parent == Some(i)
            {
              var c := nodes[i].data.children[nm];
              if c == d {
                assert r[d].parent == nodes[d].parent;
              } else {
                assert r[c] == nodes[c];
              }
            }
          }
        }
      }
    }
  }

  /** Adding a child under a name the directory does not have keeps every old link. */
  lemma AddChildExtends(nodes: seq<Node>, d: NodeId, name: string, data: Data)
    requires d < |nodes| && nodes[d].data.Directory? && name !in nodes[d].data.children
    ensures Extends(nodes, AddChild(nodes, d, name, data))
  {
    var r := AddChild(nodes, d, name, data);
    assert NodeExtends(nodes[d], r[d]);
  }

  /** b keeps a's nodes: same parent links, same files, and directories keep their children. */
  predicate NodeExtends(a: Node, b: Node)
  {
    && a.parent == b.parent
    && (if a.data.Directory? then
          && b.data.Directory?
          && forall name :: name in a.data.children ==>
               name in b.data.children && b.data.children[name] == a.data.children[name]
        else b.data == a.data)
  }

  /** b grows a: it has at least a's nodes, each extended. */
  predicate Extends(a: seq<Node>, b: seq<Node>)
  {
    |a| <= |b| && forall i :: 0 <= i < |a| ==> NodeExtends(a[i], b[i])
  }

  lemma ExtendsTransitive(a: seq<Node>, b: seq<Node>, c: seq<Node>)
    requires Extends(a, b) && Extends(b, c)
    ensures Extends(a, c)
  {
    forall i | 0 <= i < |a|
      ensures NodeExtends(a[i], c[i])
    {
      assert NodeExtends(a[i], b[i]) && NodeExtends(b[i], c[i]);
    }
  }

  /** A walk that succeeds in a tree succeeds the same way in every tree that grows it. */
  lemma {:induction false} ResolveExtends(a: seq<Node>, b: seq<Node>, cur: NodeId, segs: seq<string>)
    requires Extends(a, b)
    requires Resolve(a, cur, segs).Some?
    ensures Resolve(b, cur, segs) == Resolve(a, cur, segs)
    decreases |segs|
  {
    if |segs| > 0 {
      assert NodeExtends(a[cur], b[cur]);
      ResolveExtends(a, b, a[cur].data.children[segs[0]], segs[1..]);
    }
  }

  // ---------------------------------------------------------------- mkdir_impl

  /** The arena after mkdir_impl, and the directory it ends at. */
  datatype Made = Made(nodes: seq<Node>, id: NodeId)

  /**
   * mkdir_impl from directory cur: follow each name, creating an empty
   * directory where it is missing; a name that holds anything else fails
   * with `"<name>" already exists`.
   */
  function Mkdir(nodes: seq<Node>, cur: NodeId, segs: seq<string>): (r: Result<Made, string>)
    requires WellFormed(nodes) && cur < |nodes| && nodes[cur].data.Directory?
    ensures r.Success? ==> WellFormed(r.value.nodes) && DirAt(r.value.nodes, Some(r.value.id))
    ensures r.Success? ==> |nodes| <= |r.value.nodes|
    decreases |segs|
  {
    if |segs| == 0 then Success(Made(nodes, cur))
    else
      var kids := nodes[cur].data.children;
      if segs[0] in kids then
        var c := kids[segs[0]];
        assert ChildrenLinked(nodes, cur);
        if !nodes[c].data.Directory? then Failure(ErrMsg.VfsErrMsgNoPrefix(segs[0], " already exists"))
        else Mkdir(nodes, c, segs[1..])
      else
        AddChildWellFormed(nodes, cur, segs[0], Directory(map[]));
        Mkdir(AddChild(nodes, cur, segs[0], Directory(map[])), |nodes|, segs[1..])
  }

  /** Below a directory with no children every name is missing, so mkdir_impl cannot fail there. */
  lemma {:induction false} MkdirBelowEmptySucceeds(nodes: seq<Node>, cur: NodeId, segs: seq<string>)
    requires WellFormed(nodes) && cur < |nodes| && nodes[cur].data == Directory(map[])
    ensures Mkdir(nodes, cur, segs).Success?
    decreases |segs|
  {
    if |segs| > 0 {
      AddChildWellFormed(nodes, cur, segs[0], Directory(map[]));
      MkdirBelowEmptySucceeds(AddChild(nodes, cur, segs[0], Directory(map[])), |nodes|, segs[1..]);
    }
  }

  /** mkdir_impl only adds: every old node and link is still there. */
  lemma {:induction false} MkdirExtends(nodes: seq<Node>, cur: NodeId, segs: seq<string>)
    requires WellFormed(nodes) && cur < |nodes| && nodes[cur].data.Directory?
    requires Mkdir(nodes, cur, segs).Success?
    ensures Extends(nodes, Mkdir(nodes, cur, segs).value.nodes)
    decreases |segs|
  {
    if |segs| > 0 {
      var kids := nodes[cur].data.children;
      if segs[0] in kids {
        assert ChildrenLinked(nodes, cur);
        MkdirExtends(nodes, kids[segs[0]], segs[1..]);
      } else {
        var n1 := AddChild(nodes, cur, segs[0], Directory(map[]));
        AddChildWellFormed(nodes, cur, segs[0], Directory(map[]));
        AddChildExtends(nodes, cur, segs[0], Directory(map[]));
        MkdirExtends(n1, |nodes|, segs[1..]);
        ExtendsTransitive(nodes, n1, Mkdir(n1, |nodes|, segs[1..]).value.nodes);
      }
    } else {
      assert forall i :: 0 <= i < |nodes| ==> NodeExtends(nodes[i], nodes[i]);
    }
  }

  /**
   * After mkdir_impl every prefix of the names leads to a directory, and
   * the whole list leads to the directory it returns.
   */
  lemma {:induction false} MkdirResolves(nodes: seq<Node>, cur: NodeId, segs: seq<string>)
    requires WellFormed(nodes) && cur < |nodes| && nodes[cur].data.Directory?
    requires Mkdir(nodes, cur, segs).Success?
    ensures var m := Mkdir(nodes, cur, segs).value;
      forall k :: 0 <= k <= |segs| ==> DirAt(m.nodes, Resolve(m.nodes, cur, segs[..k]))
    ensures Resolve(Mkdir(nodes, cur, segs).value.nodes, cur, segs) == Some(Mkdir(nodes, cur, segs).value.id)
    decreases |segs|
  {
    var m := Mkdir(nodes, cur, segs).value;
    MkdirExtends(nodes, cur, segs);
    assert NodeExtends(nodes[cur], m.nodes[cur]);
    if |segs| > 0 {
      var kids := nodes[cur].data.children;
      var c: NodeId;
      if segs[0] in kids {
        c := kids[segs[0]];
        assert ChildrenLinked(nodes, cur);
        MkdirResolves(nodes, c, segs[1..]);
      } else {
        var n1 := AddChild(nodes, cur, segs[0], Directory(map[]));
        AddChildWellFormed(nodes, cur, segs[0], Directory(map[]));
        c := |nodes|;
        MkdirExtends(n1, c, segs[1..]);
        assert NodeExtends(n1[cur], m.nodes[cur]);
        MkdirResolves(n1, c, segs[1..]);
      }
      assert m.nodes[cur].data.children[segs[0]] == c;
      forall k | 0 <= k <= |segs|
        ensures DirAt(m.nodes, Resolve(m.nodes, cur, segs[..k]))
      {
        if k > 0 {
          ResolveStep(m.nodes, cur, segs, k);
        }
      }
      ResolveStep(m.nodes, cur, segs, |segs|);
      assert segs[..|segs|] == segs && segs[1..][..|segs| - 1] == segs[1..];
    }
  }

  /** When the names already lead to a directory, mkdir_impl creates nothing and returns it. */
  lemma {:induction false} MkdirOfResolved(nodes: seq<Node>, cur: NodeId, segs: seq<string>)
    requires WellFormed(nodes) && cur < |nodes| && nodes[cur].data.Directory?
    requires DirAt(nodes, Resolve(nodes, cur, segs))
    ensures Mkdir(nodes, cur, segs) == Success(Made(nodes, Resolve(nodes, cur, segs).value))
    decreases |segs|
  {
    if |segs| > 0 {
      var c := nodes[cur].data.children[segs[0]];
      assert ChildrenLinked(nodes, cur);
      assert Resolve(nodes, cur, segs) == Resolve(nodes, c, segs[1..]);
      if |segs| == 1 {
        assert Resolve(nodes, c, segs[1..]) == Some(c);
      }
      assert nodes[c].data.Directory?;
      MkdirOfResolved(nodes, c, segs[1..]);
    }
  }

  /**
   * mkdir_impl either finds every name already there, changing nothing, or
   * ends in a directory it has just created, which is empty.
   */
  lemma {:induction false} MkdirFoundOrCreated(nodes: seq<Node>, cur: NodeId, segs: seq<string>)
    requires WellFormed(nodes) && cur < |nodes| && nodes[cur].data.Directory?
    requires Mkdir(nodes, cur, segs).Success?
    ensures var made := Mkdir(nodes, cur, segs).value;
      || (made.nodes == nodes && Resolve(nodes, cur, segs) == Some(made.id))
      || made.nodes[made.id].data == Directory(map[])
    decreases |segs|
  {
    if |segs| > 0 {
      var kids := nodes[cur].data.children;
      if segs[0] in kids {
        assert ChildrenLinked(nodes, cur);
        MkdirFoundOrCreated(nodes, kids[segs[0]], segs[1..]);
      } else {
        var n1 := AddChild(nodes, cur, segs[0], Directory(map[]));
        AddChildWellFormed(nodes, cur, segs[0], Directory(map[]));
        MkdirFoundOrCreated(n1, |nodes|, segs[1..]);
        if |segs| > 1 {
          assert Resolve(n1, |nodes|, segs[1..]) == None;
        }
      }
    }
  }

  /** Calling mkdir_impl twice on the same names creates nothing the second time. */
  lemma MkdirTwice(nodes: seq<Node>, cur: NodeId, segs: seq<string>)
    requires WellFormed(nodes) && cur < |nodes| && nodes[cur].data.Directory?
    requires Mkdir(nodes, cur, segs).Success?
    ensures var m := Mkdir(nodes, cur, segs).value;
      m.nodes[cur].data.Directory? && Mkdir(m.nodes, cur, segs) == Success(m)
  {
    var m := Mkdir(nodes, cur, segs).value;
    MkdirExtends(nodes, cur, segs);
    assert NodeExtends(nodes[cur], m.nodes[cur]);
    MkdirResolves(nodes, cur, segs);
    MkdirOfResolved(m.nodes, cur, segs);
  }

  /** The first k + 1 names lead to a node that is not a directory. */
  predicate BlockedAt(nodes: seq<Node>, cur: NodeId, segs: seq<string>, k: nat)
    requires k < |segs|
  {
    FileAt(nodes, Resolve(nodes, cur, segs[..k + 1]))
  }

  /** Some prefix of the names leads to a node that is not a directory. */
  predicate Blocked(nodes: seq<Node>, cur: NodeId, segs: seq<string>)
  {
    exists k :: 0 <= k < |segs| && BlockedAt(nodes, cur, segs, k)
  }

  /** mkdir_impl fails only at a name that leads to a file, and its message quotes that name. */
  lemma {:induction false} MkdirFailure(nodes: seq<Node>, cur: NodeId, segs: seq<string>)
    requires WellFormed(nodes) && cur < |nodes| && nodes[cur].data.Directory?
    requires Mkdir(nodes, cur, segs).Failure?
    ensures exists k :: (0 <= k < |segs| && BlockedAt(nodes, cur, segs, k) &&
      Mkdir(nodes, cur, segs).error == ErrMsg.VfsErrMsgNoPrefix(segs[k], " already exists"))
    decreases |segs|
  {
    var kids := nodes[cur].data.children;
    assert ChildrenLinked(nodes, cur);
    if segs[0] !in kids {
      AddChildWellFormed(nodes, cur, segs[0], Directory(map[]));
      MkdirBelowEmptySucceeds(AddChild(nodes, cur, segs[0], Directory(map[])), |nodes|, segs[1..]);
      assert false;
    }
    var c := kids[segs[0]];
    ResolveStep(nodes, cur, segs, 1);
    if nodes[c].data.Directory? {
      MkdirFailure(nodes, c, segs[1..]);
      var j :| 0 <= j < |segs[1..]| && BlockedAt(nodes, c, segs[1..], j) &&
        Mkdir(nodes, c, segs[1..]).error == ErrMsg.VfsErrMsgNoPrefix(segs[1..][j], " already exists");
      ResolveStep(nodes, cur, segs, j + 2);
      assert BlockedAt(nodes, cur, segs, j + 1);
    } else {
      assert BlockedAt(nodes, cur, segs, 0);
    }
  }

  /** A name along the way that leads to a file makes mkdir_impl fail. */
  lemma {:induction false} MkdirBlockedFails(nodes: seq<Node>, cur: NodeId, segs: seq<string>)
    requires WellFormed(nodes) && cur < |nodes| && nodes[cur].data.Directory?
    requires Blocked(nodes, cur, segs)
    ensures Mkdir(nodes, cur, segs).Failure?
    decreases |segs|
  {
    var k :| 0 <= k < |segs| && BlockedAt(nodes, cur, segs, k);
    var kids := nodes[cur].data.children;
    TakeTail(segs, k + 1);
    assert segs[0] in kids;
    var c := kids[segs[0]];
    assert ChildrenLinked(nodes, cur);
    if nodes[c].data.Directory? {
      ResolveStep(nodes, cur, segs, k + 1);
      assert k > 0;
      assert BlockedAt(nodes, c, segs[1..], k - 1);
      MkdirBlockedFails(nodes, c, segs[1..]);
    }
  }

  // ---------------------------------------------------------------- mount_impl

  /** The arena after mount_impl, the leaf node, and whether it was inserted or replaced. */
  datatype Mounted = Mounted(nodes: seq<Node>, id: NodeId, inserted: bool)

  /**
   * mount_impl: make the parent directories, then at the filename insert a
   * new node, replace the existing one when overwriting (whatever its kind)
   * or leave it and report false.
   */
  function Mount(nodes: seq<Node>, p: string, overwrite: bool, payload: Data): (r: Result<Mounted, string>)
    requires WellFormed(nodes) && IsAbsolute(p) && Mountable(payload)
    ensures r.Success? ==> WellFormed(r.value.nodes) && r.value.id < |r.value.nodes|
  {
    match Mkdir(nodes, 0, Segments(ParentPath(p)))
    case Failure(e) => Failure(e)
    case Success(m) =>
      var d := m.id;
      var f := Filename(p);
      var kids := m.nodes[d].data.children;
      assert ChildrenLinked(m.nodes, d);
      if f in kids then
        var c := kids[f];
        if overwrite then
          ReplaceWellFormed(m.nodes, d, f, payload);
          Success(Mounted(m.nodes[c := NodeMoveAssign(m.nodes[c], Node(Some(d), payload), false)], c, true))
        else Success(Mounted(m.nodes, c, false))
      else
        AddChildWellFormed(m.nodes, d, f, payload);
        Success(Mounted(AddChild(m.nodes, d, f, payload), |m.nodes|, true))
  }

  /** Replacing a directory's child by a file keeps the tree well formed. */
  lemma ReplaceWellFormed(nodes: seq<Node>, d: NodeId, name: string, data: Data)
    requires WellFormed(nodes) && d < |nodes| && nodes[d].data.Directory? && name in nodes[d].data.children
    requires Mountable(data)
    ensures WellFormed(nodes[nodes[d].data.children[name] := Node(Some(d), data)])
  {
    var c := nodes[d].data.children[name];
    assert ChildrenLinked(nodes, d);
    var r := nodes[c := Node(Some(d), data)];
    forall i | 0 <= i < |r|
      ensures ChildrenLinked(r, i) && Holds(r[i])
    {
      if i != c {
        assert ChildrenLinked(nodes, i);
      }
    }
  }

  /** mount_impl fails exactly when a name on the way to the parent leads to a file. */
  lemma MountFailsIffBlocked(nodes: seq<Node>, p: string, overwrite: bool, payload: Data)
    requires WellFormed(nodes) && IsAbsolute(p) && Mountable(payload)
    ensures Mount(nodes, p, overwrite, payload).Failure? <==> Blocked(nodes, 0, Segments(ParentPath(p)))
  {
    var segs := Segments(ParentPath(p));
    if Mount(nodes, p, overwrite, payload).Failure? {
      MkdirFailure(nodes, 0, segs);
    }
    if Blocked(nodes, 0, segs) {
      MkdirBlockedFails(nodes, 0, segs);
    }
  }

  /**
   * Where mount_impl puts the leaf: under the filename in the directory that
   * mkdir_impl returned, touching no node before that directory.
   */
  lemma MountLeaf(nodes: seq<Node>, p: string, overwrite: bool, payload: Data)
    requires WellFormed(nodes) && IsAbsolute(p) && Mountable(payload)
    requires Mount(nodes, p, overwrite, payload).Success?
    ensures Mkdir(nodes, 0, Segments(ParentPath(p))).Success?
    ensures var made := Mkdir(nodes, 0, Segments(ParentPath(p))).value;
      var m := Mount(nodes, p, overwrite, payload).value;
      && made.id < |m.nodes| && m.nodes[made.id].data.Directory?
      && Filename(p) in m.nodes[made.id].data.children
      && m.nodes[made.id].data.children[Filename(p)] == m.id
      && (forall i :: 0 <= i < made.id ==> m.nodes[i] == made.nodes[i])
      && (m.inserted ==> m.nodes[m.id].data == payload)
      && (!m.inserted ==> !overwrite)
  {
    var made := Mkdir(nodes, 0, Segments(ParentPath(p))).value;
    assert ChildrenLinked(made.nodes, made.id);
  }

  /** After a successful mount every directory above the leaf exists. */
  lemma MountMakesParents(nodes: seq<Node>, p: string, overwrite: bool, payload: Data)
    requires WellFormed(nodes) && IsAbsolute(p) && Mountable(payload)
    requires Mount(nodes, p, overwrite, payload).Success?
    ensures var m := Mount(nodes, p, overwrite, payload).value;
      var above := Segments(ParentPath(p));
      forall k :: 0 <= k <= |above| ==> DirAt(m.nodes, Resolve(m.nodes, 0, above[..k]))
  {
    var m := Mount(nodes, p, overwrite, payload).value;
    var above := Segments(ParentPath(p));
    MountLeaf(nodes, p, overwrite, payload);
    var made := Mkdir(nodes, 0, above).value;
    MkdirResolves(nodes, 0, above);
    forall k | 0 <= k <= |above|
      ensures DirAt(m.nodes, Resolve(m.nodes, 0, above[..k]))
    {
      MountKeepsPrefix(made, m, above, k);
    }
  }

  /** A prefix of a walk ends at or before the node the whole walk ends at. */
  lemma PrefixEndsBefore(nodes: seq<Node>, segs: seq<string>, k: nat)
    requires WellFormed(nodes) && k <= |segs|
    requires Resolve(nodes, 0, segs).Some?
    ensures Resolve(nodes, 0, segs[..k]).Some?
    ensures Resolve(nodes, 0, segs[..k]).value <= Resolve(nodes, 0, segs).value
  {
    assert segs == segs[..k] + segs[k..];
    ResolveConcat(nodes, 0, segs[..k], segs[k..]);
    ResolveGrows(nodes, Resolve(nodes, 0, segs[..k]).value, segs[k..]);
  }

  /** A tree that agrees with made before made.id, and keeps a directory there, keeps every directory on the way. */
  lemma MountKeepsPrefix(made: Made, m: Mounted, above: seq<string>, k: nat)
    requires WellFormed(made.nodes) && k <= |above|
    requires Resolve(made.nodes, 0, above) == Some(made.id)
    requires DirAt(made.nodes, Resolve(made.nodes, 0, above[..k]))
    requires made.id < |m.nodes| && m.nodes[made.id].data.Directory?
    requires forall i :: 0 <= i < made.id ==> m.nodes[i] == made.nodes[i]
    ensures DirAt(m.nodes, Resolve(m.nodes, 0, above[..k]))
  {
    var x := Resolve(made.nodes, 0, above[..k]).value;
    PrefixEndsBefore(made.nodes, above, k);
    ResolveAgrees(made.nodes, m.nodes, 0, above[..k]);
    if x < made.id {
      assert m.nodes[x] == made.nodes[x];
    }
  }

  /**
   * After a successful mount at a path with a filename, the path resolves
   * to the returned node, and an inserted or replaced node holds the payload.
   */
  lemma MountResolves(nodes: seq<Node>, p: string, overwrite: bool, payload: Data)
    requires WellFormed(nodes) && IsAbsolute(p) && Mountable(payload)
    requires Mount(nodes, p, overwrite, payload).Success? && Filename(p) != []
    ensures var m := Mount(nodes, p, overwrite, payload).value;
      && Find(m.nodes, p) == Some(m.id)
      && (m.inserted ==> m.nodes[m.id].data == payload)
      && (!m.inserted ==> !overwrite)
  {
    var m := Mount(nodes, p, overwrite, payload).value;
    var above := Segments(ParentPath(p));
    MountLeaf(nodes, p, overwrite, payload);
    var made := Mkdir(nodes, 0, above).value;
    MkdirResolves(nodes, 0, above);
    ResolveAgrees(made.nodes, m.nodes, 0, above);
    ParentFilenameSegments(p);
    ResolveConcat(m.nodes, 0, above, [Filename(p)]);
    assert Resolve(m.nodes, made.id, [Filename(p)]) == Some(m.id);
  }

  /**
   * Mounting where a node already exists: with overwrite the node is
   * replaced in place, whatever it was; without, nothing changes and the
   * result says so.
   */
  lemma MountExisting(nodes: seq<Node>, p: string, overwrite: bool, payload: Data)
    requires WellFormed(nodes) && IsAbsolute(p) && Mountable(payload) && Filename(p) != []
    requires Find(nodes, p).Some?
    ensures var x := Find(nodes, p).value;
      Mount(nodes, p, overwrite, payload) ==
        Success(if overwrite then Mounted(nodes[x := Node(nodes[x].parent, payload)], x, true)
                else Mounted(nodes, x, false))
  {
    var x := Find(nodes, p).value;
    var above := Segments(ParentPath(p));
    var f := Filename(p);
    ParentFilenameSegments(p);
    ResolveConcat(nodes, 0, above, [f]);
    var d := Resolve(nodes, 0, above).value;
    assert nodes[d].data.Directory?;
    MkdirOfResolved(nodes, 0, above);
    assert ChildrenLinked(nodes, d);
  }

  /** Where names `above + [f]` do not resolve, f is missing from the directory mkdir_impl returns for `above`. */
  lemma MissingAfterMkdir(nodes: seq<Node>, above: seq<string>, f: string)
    requires WellFormed(nodes) && Mkdir(nodes, 0, above).Success?
    requires Resolve(nodes, 0, above + [f]).None?
    ensures var made := Mkdir(nodes, 0, above).value;
      f !in made.nodes[made.id].data.children
  {
    var made := Mkdir(nodes, 0, above).value;
    MkdirFoundOrCreated(nodes, 0, above);
    if made.nodes == nodes && Resolve(nodes, 0, above) == Some(made.id) {
      ResolveConcat(nodes, 0, above, [f]);
      assert ChildrenLinked(nodes, made.id);
    }
  }

  /** Where a path does not resolve, its filename is missing from the directory mkdir_impl returns for its parent. */
  lemma FilenameMissingAfterMkdir(nodes: seq<Node>, p: string)
    requires WellFormed(nodes) && IsAbsolute(p) && Filename(p) != [] && Find(nodes, p).None?
    requires Mkdir(nodes, 0, Segments(ParentPath(p))).Success?
    ensures var made := Mkdir(nodes, 0, Segments(ParentPath(p))).value;
      Filename(p) !in made.nodes[made.id].data.children
  {
    ParentFilenameSegments(p);
    MissingAfterMkdir(nodes, Segments(ParentPath(p)), Filename(p));
  }

  /**
   * Mounting where nothing exists yet: the leaf is always a new node, put
   * at the end of the arena under the directory mkdir_impl returned, and
   * reported as inserted whatever overwrite says.
   */
  lemma MountAbsent(nodes: seq<Node>, p: string, overwrite: bool, payload: Data)
    requires WellFormed(nodes) && IsAbsolute(p) && Mountable(payload) && Filename(p) != []
    requires Find(nodes, p).None? && Mount(nodes, p, overwrite, payload).Success?
    ensures Mkdir(nodes, 0, Segments(ParentPath(p))).Success?
    ensures var made := Mkdir(nodes, 0, Segments(ParentPath(p))).value;
      var m := Mount(nodes, p, overwrite, payload).value;
      && Filename(p) !in made.nodes[made.id].data.children
      && m == Mounted(AddChild(made.nodes, made.id, Filename(p), payload), |made.nodes|, true)
  {
    FilenameMissingAfterMkdir(nodes, p);
  }
}
