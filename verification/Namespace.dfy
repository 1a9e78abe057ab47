/** The namespace a source file system really has, and the projector's map as a faithful picture of it. */
module Namespace {
  import opened Bytes
  import opened Projector

  /** Every path names an inode; a directory is also known by its one path. The root has the empty path and no name. */
  datatype Space = Space(names: map<Path, nat>, dirs: map<nat, Path>, root: nat)

  ghost predicate WellFormed(n: Space) {
    && n.root in n.dirs && n.dirs[n.root] == [] && 0 !in n.dirs
    && (forall d :: d in n.dirs && d != n.root ==> n.dirs[d] in n.names && n.names[n.dirs[d]] == d)
    && (forall p :: p in n.names ==> p != [] && n.names[p] != n.root)
    && (forall p :: p in n.names && n.names[p] in n.dirs ==> n.dirs[n.names[p]] == p)
  }

  ghost predicate Named(n: Space, inode: nat) { exists p :: p in n.names && n.names[p] == inode }

  // ---------------------------------------------------------------- operations on names

  datatype Op =
    | MakeFile(kind: Kind, parent: nat, name: string, inode: nat)
    | MakeDir(parent: nat, name: string, inode: nat)
    | AddLink(parent: nat, name: string, inode: nat)
    | RemoveLink(parent: nat, name: string, inode: nat)
    | RemoveDir(inode: nat)
    | MoveFile(parent: nat, name: string, newParent: nat, newName: string, inode: nat)
    | SwapFiles(parent: nat, name: string, newParent: nat, newName: string, inode: nat)

  function At(n: Space, parent: nat, name: string): Path
    requires parent in n.dirs
  {
    n.dirs[parent] + [name]
  }

  predicate IsFileAt(n: Space, p: Path, inode: nat) { p in n.names && n.names[p] == inode && inode !in n.dirs }

  /** When the operation can happen, without overwriting anything. */
  ghost predicate CanHappen(n: Space, op: Op) {
    match op
    case MakeFile(kind, parent, name, inode) =>
      parent in n.dirs && At(n, parent, name) !in n.names && !Named(n, inode) && inode !in n.dirs
      && (kind == Create || kind == Mknod || kind == Symlink)
    case MakeDir(parent, name, inode) =>
      parent in n.dirs && At(n, parent, name) !in n.names && !Named(n, inode) && inode !in n.dirs && inode != 0
    case AddLink(parent, name, inode) =>
      parent in n.dirs && At(n, parent, name) !in n.names && Named(n, inode) && inode !in n.dirs
    case RemoveLink(parent, name, inode) => parent in n.dirs && IsFileAt(n, At(n, parent, name), inode)
    case RemoveDir(inode) =>
      inode in n.dirs && inode != n.root && forall p :: p in n.names ==> !(n.dirs[inode] < p)
    case MoveFile(parent, name, newParent, newName, inode) =>
      parent in n.dirs && newParent in n.dirs && IsFileAt(n, At(n, parent, name), inode)
      && At(n, newParent, newName) !in n.names
    case SwapFiles(parent, name, newParent, newName, inode) =>
      parent in n.dirs && newParent in n.dirs && IsFileAt(n, At(n, parent, name), inode)
      && At(n, newParent, newName) in n.names
      && n.names[At(n, newParent, newName)] != inode && n.names[At(n, newParent, newName)] !in n.dirs
  }

  ghost function Happened(n: Space, op: Op): Space
    requires CanHappen(n, op)
  {
    match op
    case MakeFile(_, parent, name, inode) => n.(names := n.names[At(n, parent, name) := inode])
    case MakeDir(parent, name, inode) =>
      n.(names := n.names[At(n, parent, name) := inode], dirs := n.dirs[inode := At(n, parent, name)])
    case AddLink(parent, name, inode) => n.(names := n.names[At(n, parent, name) := inode])
    case RemoveLink(parent, name, _) => n.(names := n.names - {At(n, parent, name)})
    case RemoveDir(inode) => n.(names := n.names - {n.dirs[inode]}, dirs := n.dirs - {inode})
    case MoveFile(parent, name, newParent, newName, inode) =>
      n.(names := (n.names - {At(n, parent, name)})[At(n, newParent, newName) := inode])
    case SwapFiles(parent, name, newParent, newName, inode) =>
      var a, b := At(n, parent, name), At(n, newParent, newName);
      n.(names := n.names[a := n.names[b]][b := inode])
  }

  /** The event that the kernel reports for the operation. */
  function Reported(op: Op, stamp: Stamp): Event {
    match op
    case MakeFile(kind, parent, name, inode) => Event(kind, inode, parent, name, 0, None, false, false, stamp)
    case MakeDir(parent, name, inode) => Event(Mkdir, inode, parent, name, 0, None, true, false, stamp)
    case AddLink(parent, name, inode) => Event(Link, inode, parent, name, 0, None, false, false, stamp)
    case RemoveLink(parent, name, inode) => Event(Unlink, inode, parent, name, 0, None, false, false, stamp)
    case RemoveDir(inode) => Event(Rmdir, inode, 0, "", 0, None, true, false, stamp)
    case MoveFile(parent, name, newParent, newName, inode) =>
      Event(Rename, inode, parent, name, newParent, Some(newName), false, false, stamp)
    case SwapFiles(parent, name, newParent, newName, inode) =>
      Event(Rename, inode, parent, name, newParent, Some(newName), false, true, stamp)
  }

  // ---------------------------------------------------------------- the picture

  /** The list holds exactly the paths that name the inode, each once. */
  ghost predicate Exactly(paths: seq<Path>, names: map<Path, nat>, inode: nat) {
    NoDup(paths) && forall p: Path :: p in paths <==> p in names && names[p] == inode
  }

  /** Every inode has such a list, and only inodes with a name are in the map. */
  ghost predicate Pictures(m: InodeMap, names: map<Path, nat>) {
    && (forall i :: i in m ==> m[i].paths != [])
    && (forall i: nat :: Exactly(Names(m, i), names, i))
  }

  ghost predicate Faithful(n: Space, s: State) {
    WellFormed(n) && s.dirs == n.dirs && s.pending == map[] && Pictures(s.inodes, n.names)
  }

  // ---------------------------------------------------------------- one update of the map each

  lemma ExactlyAdded(paths: seq<Path>, names: map<Path, nat>, inode: nat, p: Path)
    requires Exactly(paths, names, inode)
    ensures Exactly(Drop(paths, p) + [p], names[p := inode], inode)
  {
    forall q: Path ensures q in Drop(paths, p) + [p] <==> q in paths || q == p {}
  }

  lemma ExactlyOthers(paths: seq<Path>, names: map<Path, nat>, inode: nat, p: Path, other: nat)
    requires Exactly(paths, names, inode) && inode != other && (p !in names || names[p] != inode)
    ensures Exactly(paths, names[p := other], inode) && Exactly(paths, names - {p}, inode)
  {
  }

  lemma ExactlyDropped(paths: seq<Path>, names: map<Path, nat>, inode: nat, p: Path)
    requires Exactly(paths, names, inode)
    ensures Exactly(Drop(paths, p), names - {p}, inode)
  {
  }

  /** A path that is free, or the inode's own, is added to its list. */
  lemma AddPath(m: InodeMap, names: map<Path, nat>, inode: nat, p: Path, entry: Entry)
    requires Pictures(m, names) && (p !in names || names[p] == inode)
    requires entry.paths == Drop(Names(m, inode), p) + [p]
    ensures Pictures(m[inode := entry], names[p := inode])
  {
    var m1, names1 := m[inode := entry], names[p := inode];
    forall i: nat ensures Exactly(Names(m1, i), names1, i) {
      assert Exactly(Names(m, i), names, i);
      if i == inode { ExactlyAdded(Names(m, i), names, i, p); } else { ExactlyOthers(Names(m, i), names, i, p, inode); }
    }
  }

  lemma RemovePath(m: InodeMap, names: map<Path, nat>, inode: nat, p: Path)
    requires Pictures(m, names) && p in names && names[p] == inode
    ensures Pictures(Without(m, inode, p), names - {p})
  {
    assert Exactly(Names(m, inode), names, inode);
    assert p in Names(m, inode);
    forall i: nat ensures Exactly(Names(Without(m, inode, p), i), names - {p}, i) {
      assert Exactly(Names(m, i), names, i);
      if i == inode {
        ExactlyDropped(Names(m, i), names, i, p);
      } else {
        ExactlyOthers(Names(m, i), names, i, p, inode);
      }
    }
  }

  /** Each of two inodes gives up its path for the other's. */
  lemma SwapPaths(m: InodeMap, names: map<Path, nat>, inode: nat, other: nat, a: Path, b: Path)
    requires Pictures(m, names) && a in names && names[a] == inode && b in names && names[b] == other && inode != other
    ensures Pictures(Swapped(Swapped(m, other, b, a), inode, a, b), names[a := other][b := inode])
  {
    var m2, names2 := Swapped(Swapped(m, other, b, a), inode, a, b), names[a := other][b := inode];
    assert Exactly(Names(m, inode), names, inode) && Exactly(Names(m, other), names, other);
    assert a in Names(m, inode) && b in Names(m, other);
    forall i: nat ensures Exactly(Names(m2, i), names2, i) {
      assert Exactly(Names(m, i), names, i);
      if i == inode {
        ExactlySwapped(Names(m, i), names, i, a, b, other);
      } else if i == other {
        ExactlySwapped(Names(m, i), names, i, b, a, inode);
        assert names2 == names[b := inode][a := other];
      } else {
        ExactlyOthers(Names(m, i), names, i, a, other);
        ExactlyOthers(Names(m, i), names[a := other], i, b, inode);
      }
    }
  }

  lemma ExactlySwapped(paths: seq<Path>, names: map<Path, nat>, inode: nat, a: Path, b: Path, other: nat)
    requires Exactly(paths, names, inode) && a != b && inode != other
    ensures Exactly(Drop(Drop(paths, a), b) + [b], names[a := other][b := inode], inode)
  {
    ExactlyDropped(paths, names, inode, a);
    ExactlyAdded(Drop(paths, a), names - {a}, inode, b);
    var list := Drop(Drop(paths, a), b) + [b];
    var names1, names2 := (names - {a})[b := inode], names[a := other][b := inode];
    forall p: Path ensures p in list <==> p in names2 && names2[p] == inode {
      assert p in list <==> p in names1 && names1[p] == inode;
    }
  }

  // ---------------------------------------------------------------- refinement

  lemma OwnerIsUnique(order: Listing, m: InodeMap, names: map<Path, nat>, p: Path)
    requires Lists(order) && Pictures(m, names) && p in names
    ensures Owner(m, order(m.Keys), p) == Some(names[p])
  {
    var i := names[p];
    assert Exactly(Names(m, i), names, i);
    assert p in Names(m, i);
    assert i in m.Keys;
    assert i in order(m.Keys);
    var r := Owner(m, order(m.Keys), p);
    if r.Some? { assert Exactly(Names(m, r.value), names, r.value); }
  }

  lemma UnnamedIsAbsent(m: InodeMap, n: Space, inode: nat)
    requires Pictures(m, n.names)
    ensures inode in m <==> Named(n, inode)
  {
    assert Exactly(Names(m, inode), n.names, inode);
    if inode in m { assert m[inode].paths[0] in Names(m, inode); }
  }

  lemma HappenedIsWellFormed(n: Space, op: Op)
    requires WellFormed(n) && CanHappen(n, op)
    ensures WellFormed(Happened(n, op))
  {
    match op
    case MakeFile(_, parent, name, inode) => {}
    case MakeDir(parent, name, inode) => {}
    case AddLink(parent, name, inode) => {}
    case RemoveLink(parent, name, _) => {}
    case RemoveDir(inode) => {}
    case MoveFile(parent, name, newParent, newName, inode) => {}
    case SwapFiles(parent, name, newParent, newName, inode) => {}
  }

  lemma CreationIsFaithful(order: Listing, n: Space, s: State, op: Op, stamp: Stamp)
    requires Faithful(n, s) && CanHappen(n, op) && (op.MakeFile? || op.MakeDir?)
    ensures Faithful(Happened(n, op), Projected(order, s, Reported(op, stamp)))
  {
    HappenedIsWellFormed(n, op);
    var e := Reported(op, stamp);
    var p := At(n, op.parent, op.name);
    AddPath(s.inodes, n.names, op.inode, p, Entry(Drop(Names(s.inodes, op.inode), p) + [p], stamp));
    var t := Entered(s, e);
    assert t.(pending := t.pending - {e.inode}) == t;
  }

  lemma LinkIsFaithful(order: Listing, n: Space, s: State, op: Op, stamp: Stamp)
    requires Faithful(n, s) && CanHappen(n, op) && (op.AddLink? || op.RemoveLink?)
    ensures Faithful(Happened(n, op), Projected(order, s, Reported(op, stamp)))
  {
    HappenedIsWellFormed(n, op);
    var p := At(n, op.parent, op.name);
    if op.AddLink? {
      AddPath(s.inodes, n.names, op.inode, p, Added(s.inodes, op.inode, p, stamp)[op.inode]);
    } else {
      RemovePath(s.inodes, n.names, op.inode, p);
    }
  }

  lemma RemoveDirIsFaithful(order: Listing, n: Space, s: State, op: Op, stamp: Stamp)
    requires Faithful(n, s) && CanHappen(n, op) && op.RemoveDir?
    ensures Faithful(Happened(n, op), Projected(order, s, Reported(op, stamp)))
  {
    HappenedIsWellFormed(n, op);
    var d, p := op.inode, n.dirs[op.inode];
    forall i: nat ensures Exactly(Names(s.inodes - {d}, i), n.names - {p}, i) {
      assert Exactly(Names(s.inodes, i), n.names, i);
      if i != d { ExactlyOthers(Names(s.inodes, i), n.names, i, p, d); }
    }
  }

  /** The inode of a rename is known, and both paths are what the namespace says. */
  lemma RenameFinds(n: Space, s: State, op: Op, stamp: Stamp)
    requires Faithful(n, s) && CanHappen(n, op) && (op.MoveFile? || op.SwapFiles?)
    ensures var e := Reported(op, stamp);
            && op.inode in s.inodes && e.newName.Some?
            && OldPath(s, e) == At(n, op.parent, op.name) && NewPath(s, e) == At(n, op.newParent, op.newName)
  {
    UnnamedIsAbsent(s.inodes, n, op.inode);
  }

  lemma MoveIsFaithful(order: Listing, n: Space, s: State, op: Op, stamp: Stamp)
    requires Faithful(n, s) && CanHappen(n, op) && op.MoveFile?
    ensures Faithful(Happened(n, op), Projected(order, s, Reported(op, stamp)))
  {
    HappenedIsWellFormed(n, op);
    RenameFinds(n, s, op, stamp);
    var a, b := At(n, op.parent, op.name), At(n, op.newParent, op.newName);
    assert Projected(order, s, Reported(op, stamp)) == Moved(s, Reported(op, stamp), a, b);
    RemovePath(s.inodes, n.names, op.inode, a);
    var m := Without(s.inodes, op.inode, a);
    AddPath(m, n.names - {a}, op.inode, b, Entry(Drop(Names(m, op.inode), b) + [b], stamp));
  }

  lemma SwapIsFaithful(order: Listing, n: Space, s: State, op: Op, stamp: Stamp)
    requires Lists(order) && Faithful(n, s) && CanHappen(n, op) && op.SwapFiles?
    ensures Faithful(Happened(n, op), Projected(order, s, Reported(op, stamp)))
  {
    HappenedIsWellFormed(n, op);
    SwapIsProjected(order, n, s, op, stamp);
    SwapPaths(s.inodes, n.names, op.inode, n.names[At(n, op.newParent, op.newName)],
              At(n, op.parent, op.name), At(n, op.newParent, op.newName));
  }

  lemma ExchangeIsSwap(order: Listing, s: State, e: Event, a: Path, b: Path, other: nat)
    requires e.kind == Rename && e.inode in s.inodes && e.newName.Some? && e.exchange && !e.isDir
    requires OldPath(s, e) == a && NewPath(s, e) == b && other !in s.dirs
    requires Owner(s.inodes, order(s.inodes.Keys), b) == Some(other)
    ensures Projected(order, s, e) == s.(inodes := Swapped(Swapped(s.inodes, other, b, a), e.inode, a, b))
  {
  }

  lemma SwapIsProjected(order: Listing, n: Space, s: State, op: Op, stamp: Stamp)
    requires Lists(order) && Faithful(n, s) && CanHappen(n, op) && op.SwapFiles?
    ensures var a, b := At(n, op.parent, op.name), At(n, op.newParent, op.newName);
            Projected(order, s, Reported(op, stamp))
            == s.(inodes := Swapped(Swapped(s.inodes, n.names[b], b, a), op.inode, a, b))
  {
    var a, b, e := At(n, op.parent, op.name), At(n, op.newParent, op.newName), Reported(op, stamp);
    RenameFinds(n, s, op, stamp);
    OwnerIsUnique(order, s.inodes, n.names, b);
    ExchangeIsSwap(order, s, e, a, b, n.names[b]);
  }

  /** One operation, reported and projected, keeps the picture faithful. */
  lemma OpIsFaithful(order: Listing, n: Space, s: State, op: Op, stamp: Stamp)
    requires Lists(order) && Faithful(n, s) && CanHappen(n, op)
    ensures Faithful(Happened(n, op), Projected(order, s, Reported(op, stamp)))
  {
    if op.MakeFile? || op.MakeDir? { CreationIsFaithful(order, n, s, op, stamp); }
    else if op.AddLink? || op.RemoveLink? { LinkIsFaithful(order, n, s, op, stamp); }
    else if op.RemoveDir? { RemoveDirIsFaithful(order, n, s, op, stamp); }
    else if op.MoveFile? { MoveIsFaithful(order, n, s, op, stamp); }
    else { SwapIsFaithful(order, n, s, op, stamp); }
  }

  // ---------------------------------------------------------------- histories

  datatype Stamped = Stamped(op: Op, stamp: Stamp)

  function Events(h: seq<Stamped>): (r: seq<Event>)
    ensures |r| == |h|
  {
    seq(|h|, i requires 0 <= i < |h| => Reported(h[i].op, h[i].stamp))
  }

  /** The history leads from an empty root to the namespace n. */
  ghost predicate Leads(h: seq<Stamped>, root: nat, n: Space) {
    if h == [] then n == Space(map[], map[root := []], root)
    else
      var init, last := h[..|h| - 1], h[|h| - 1];
      exists prev :: Leads(init, root, prev) && CanHappen(prev, last.op) && n == Happened(prev, last.op)
  }

  /**
   * The projector refines the namespace: after every history each inode's path list is non-empty, free of
   * duplicates and exactly the set of paths that name it.
   */
  lemma {:induction false} HistoryIsFaithful(order: Listing, h: seq<Stamped>, root: nat, n: Space)
    requires Lists(order) && root != 0 && Leads(h, root, n)
    ensures Faithful(n, ProjectedAll(order, State(map[], map[root := []], map[]), Events(h)))
  {
    if h != [] {
      var init, last := h[..|h| - 1], h[|h| - 1];
      var prev :| Leads(init, root, prev) && CanHappen(prev, last.op) && n == Happened(prev, last.op);
      HistoryIsFaithful(order, init, root, prev);
      assert Events(h)[..|h| - 1] == Events(init);
      var s := ProjectedAll(order, State(map[], map[root := []], map[]), Events(init));
      OpIsFaithful(order, prev, s, last.op, last.stamp);
    }
  }
}
