/** The identity map, inode to paths, as events about names are projected onto it. */
module Projector {
  import opened Bytes

  datatype Kind = Create | Mkdir | Mknod | Symlink | Link | Unlink | Rmdir | Rename | Unrelated

  /** Generation, timestamp and sequence number travel together. */
  datatype Stamp = Stamp(generation: nat, timestamp: nat, num: nat)

  datatype Event = Event(kind: Kind, inode: nat, parent: nat, name: string, newParent: nat, newName: Option<string>,
                         isDir: bool, exchange: bool, stamp: Stamp)

  datatype Entry = Entry(paths: seq<Path>, stamp: Stamp)

  type InodeMap = map<nat, Entry>

  datatype State = State(inodes: InodeMap, dirs: map<nat, Path>, pending: map<nat, seq<Event>>)

  /** In which order the concurrent map lists its keys. */
  type Listing = set<nat> -> seq<nat>

  ghost predicate Lists(order: Listing) {
    forall keys: set<nat>, k: nat :: k in order(keys) <==> k in keys
  }

  // ---------------------------------------------------------------- path lists

  /** The list without p. */
  function Drop(paths: seq<Path>, p: Path): (r: seq<Path>)
    ensures p !in r && forall q :: q in r <==> q in paths && q != p
    ensures NoDup(paths) ==> NoDup(r)
  {
    if paths == [] then []
    else if paths[0] == p then Drop(paths[1..], p)
    else
      var r := Drop(paths[1..], p);
      assert NoDup(paths) ==> NoDup(paths[1..]) && paths[0] !in paths[1..];
      [paths[0]] + r
  }

  function Names(m: InodeMap, inode: nat): seq<Path> { if inode in m then m[inode].paths else [] }

  // ---------------------------------------------------------------- updates of the map

  function Updated(m: InodeMap, inode: nat, p: Path, stamp: Stamp): InodeMap {
    m[inode := Entry(Drop(Names(m, inode), p) + [p], stamp)]
  }

  function Added(m: InodeMap, inode: nat, p: Path, stamp: Stamp): InodeMap {
    m[inode := Entry(Drop(Names(m, inode), p) + [p], if inode in m then m[inode].stamp else stamp)]
  }

  /** An inode that loses its last path leaves the map. */
  function Without(m: InodeMap, inode: nat, p: Path): InodeMap {
    if inode !in m then m
    else if Drop(m[inode].paths, p) == [] then m - {inode}
    else m[inode := m[inode].(paths := Drop(m[inode].paths, p))]
  }

  function Swapped(m: InodeMap, inode: nat, from: Path, to: Path): InodeMap {
    if inode !in m then m else m[inode := m[inode].(paths := Drop(Drop(m[inode].paths, from), to) + [to])]
  }

  /** The first listed inode that has the path. */
  function Owner(m: InodeMap, keys: seq<nat>, p: Path): (r: Option<nat>)
    ensures r.Some? ==> r.value in keys && p in Names(m, r.value)
    ensures r.None? ==> forall k :: k in keys ==> p !in Names(m, k)
  {
    if keys == [] then None
    else if p in Names(m, keys[0]) then Some(keys[0])
    else Owner(m, keys[1..], p)
  }

  // ---------------------------------------------------------------- projection

  function PathIn(dirs: map<nat, Path>, parent: nat, name: string): Path {
    if parent in dirs then dirs[parent] + [name] else [name]
  }

  function OldPath(s: State, e: Event): Path { PathIn(s.dirs, e.parent, e.name) }

  function NewPath(s: State, e: Event): Path
    requires e.newName.Some?
  {
    if e.newParent != 0 then PathIn(s.dirs, e.newParent, e.newName.value) else [e.newName.value]
  }

  function Deferred(s: State, e: Event): State {
    s.(pending := s.pending[e.inode := (if e.inode in s.pending then s.pending[e.inode] else []) + [e]])
  }

  function Moved(s: State, e: Event, a: Path, b: Path): State {
    s.(inodes := Updated(Without(s.inodes, e.inode, a), e.inode, b, e.stamp),
       dirs := if e.isDir then s.dirs[e.inode := b] else s.dirs)
  }

  function Exchanged(s: State, e: Event, a: Path, b: Path, other: Option<nat>): State {
    match other
    case Some(inodeB) =>
      var dirB := inodeB in s.dirs;
      var dirs1 := if e.isDir then s.dirs[e.inode := b] else s.dirs;
      s.(inodes := Swapped(Swapped(s.inodes, inodeB, b, a), e.inode, a, b),
         dirs := if dirB then dirs1[inodeB := a] else dirs1)
    case None =>
      s.(inodes := Updated(s.inodes, e.inode, b, e.stamp), dirs := if e.isDir then s.dirs[e.inode := b] else s.dirs)
  }

  /** A rename of an inode not yet known waits for its creation. */
  function Renamed(order: Listing, s: State, e: Event): State {
    if e.inode !in s.inodes then Deferred(s, e)
    else if e.newName.None? then s
    else
      var a, b := OldPath(s, e), NewPath(s, e);
      if e.exchange then Exchanged(s, e, a, b, Owner(s.inodes, order(s.inodes.Keys), b))
      else Moved(s, e, a, b)
  }

  function Replayed(order: Listing, s: State, es: seq<Event>): State
    decreases |es|
  {
    if es == [] then s else Replayed(order, Renamed(order, s, es[0]), es[1..])
  }

  function Entered(s: State, e: Event): State {
    if e.parent == 0 || e.parent !in s.dirs then s
    else
      var p := s.dirs[e.parent] + [e.name];
      s.(inodes := Updated(s.inodes, e.inode, p, e.stamp),
         dirs := if e.kind == Mkdir then s.dirs[e.inode := p] else s.dirs)
  }

  predicate Creates(e: Event) { e.kind == Create || e.kind == Mkdir || e.kind == Mknod || e.kind == Symlink }

  function Projected(order: Listing, s: State, e: Event): State {
    if Creates(e) then
      var t := Entered(s, e);
      var waiting := if e.inode in t.pending then t.pending[e.inode] else [];
      Replayed(order, t.(pending := t.pending - {e.inode}), waiting)
    else match e.kind
      case Rename => Renamed(order, s, e)
      case Link =>
        if e.parent == 0 || e.parent !in s.dirs then s
        else s.(inodes := Added(s.inodes, e.inode, s.dirs[e.parent] + [e.name], e.stamp))
      case Unlink =>
        if e.parent == 0 || e.parent !in s.dirs then s
        else s.(inodes := Without(s.inodes, e.inode, s.dirs[e.parent] + [e.name]))
      case Rmdir => s.(inodes := s.inodes - {e.inode}, dirs := s.dirs - {e.inode})
      case _ => s
  }

  function ProjectedAll(order: Listing, s: State, es: seq<Event>): State {
    if es == [] then s else Projected(order, ProjectedAll(order, s, es[..|es| - 1]), es[|es| - 1])
  }

  /** The event puts its own stamp on the inode: a creation in a known directory, or a rename that exchanges nothing. */
  ghost predicate Stamps(s: State, e: Event) {
    if Creates(e) then e.parent != 0 && e.parent in s.dirs
    else e.kind == Rename && e.newName.Some? && (e.exchange ==> NobodyAt(s, NewPath(s, e)))
  }

  ghost predicate NobodyAt(s: State, p: Path) { forall i :: i in s.inodes ==> p !in s.inodes[i].paths }

  lemma OwnerNone(order: Listing, s: State, p: Path)
    requires Lists(order)
    ensures Owner(s.inodes, order(s.inodes.Keys), p).None? <==> NobodyAt(s, p)
  {
    forall i | i in s.inodes ensures Names(s.inodes, i) == s.inodes[i].paths {}
  }

  lemma RenamedStamp(order: Listing, s: State, e: Event, i: nat)
    requires Lists(order) && i in Renamed(order, s, e).inodes && e.kind == Rename
    ensures i in s.inodes
    ensures Renamed(order, s, e).inodes[i].stamp == if i == e.inode && Stamps(s, e) then e.stamp else s.inodes[i].stamp
  {
    if e.newName.Some? { OwnerNone(order, s, NewPath(s, e)); }
  }

  /** Unless renames were waiting for it, an inode has the stamp of the last event that stamps it; no other gets it. */
  lemma StampIs(order: Listing, s: State, e: Event, i: nat)
    requires Lists(order) && e.inode !in s.pending && i in Projected(order, s, e).inodes
    ensures i !in s.inodes ==> i == e.inode && Projected(order, s, e).inodes[i].stamp == e.stamp
    ensures i in s.inodes ==>
              Projected(order, s, e).inodes[i].stamp
              == if i == e.inode && Stamps(s, e) then e.stamp else s.inodes[i].stamp
  {
    if e.kind == Rename { RenamedStamp(order, s, e, i); }
  }

  // ---------------------------------------------------------------- the object

  class IdentityProjector {
    const order: Listing
    var inodeMap: InodeMap
    var dirMap: map<nat, Path>
    var pendingRenames: map<nat, seq<Event>>

    function View(): State
      reads this
    {
      State(inodeMap, dirMap, pendingRenames)
    }

    constructor (order: Listing, dirs: map<nat, Path>)
      ensures View() == State(map[], dirs, map[]) && this.order == order
    {
      this.order := order;
      inodeMap, dirMap, pendingRenames := map[], dirs, map[];
    }

    method FindInodeByRelPath(p: Path) returns (r: Option<nat>)
      ensures r == Owner(inodeMap, order(inodeMap.Keys), p)
    {
      var keys := order(inodeMap.Keys);
      var i := 0;
      assert keys[0..] == keys;
      while i < |keys|
        invariant i <= |keys| && Owner(inodeMap, keys, p) == Owner(inodeMap, keys[i..], p)
      {
        if p in Names(inodeMap, keys[i]) { return Some(keys[i]); }
        assert keys[i..][1..] == keys[i + 1..];
        i := i + 1;
      }
      return None;
    }

    method UpdateIdentity(inode: nat, p: Path, stamp: Stamp)
      modifies this`inodeMap
      ensures inodeMap == Updated(old(inodeMap), inode, p, stamp) && p in Names(inodeMap, inode)
      ensures inodeMap == old(inodeMap)[inode := inodeMap[inode]] && inodeMap[inode].stamp == stamp
    {
      if inode in inodeMap {
        var paths := Drop(inodeMap[inode].paths, p);
        if paths == [] || paths[|paths| - 1] != p { paths := paths + [p]; }
        inodeMap := inodeMap[inode := Entry(paths, stamp)];
      } else {
        assert Drop([], p) + [p] == [p];
        inodeMap := inodeMap[inode := Entry([p], stamp)];
      }
    }

    method SwapIdentityPath(inode: nat, oldPath: Path, newPath: Path)
      modifies this`inodeMap
      ensures inodeMap == Swapped(old(inodeMap), inode, oldPath, newPath)
      ensures forall i :: i != inode ==> Names(inodeMap, i) == Names(old(inodeMap), i)
      ensures inode !in old(inodeMap) ==> inodeMap == old(inodeMap)
      ensures inode in old(inodeMap) ==> inode in inodeMap && inodeMap[inode].stamp == old(inodeMap)[inode].stamp
      ensures inode in old(inodeMap) ==>
        && Names(inodeMap, inode) != [] && Names(inodeMap, inode)[|Names(inodeMap, inode)| - 1] == newPath
        && (forall q: Path :: q in Names(inodeMap, inode)
              <==> q == newPath || (q in Names(old(inodeMap), inode) && q != oldPath))
        && (NoDup(Names(old(inodeMap), inode)) ==> NoDup(Names(inodeMap, inode)))
    {
      if inode in inodeMap {
        var entry := inodeMap[inode];
        inodeMap := inodeMap[inode := entry.(paths := Drop(Drop(entry.paths, oldPath), newPath) + [newPath])];
      }
    }

    method AddIdentityPath(inode: nat, p: Path, stamp: Stamp)
      modifies this`inodeMap
      ensures inodeMap == Added(old(inodeMap), inode, p, stamp)
      ensures inode in inodeMap && inodeMap == old(inodeMap)[inode := inodeMap[inode]]
      ensures inodeMap[inode].stamp == if inode in old(inodeMap) then old(inodeMap)[inode].stamp else stamp
    {
      if inode in inodeMap {
        var paths := Drop(inodeMap[inode].paths, p);
        if paths == [] || paths[|paths| - 1] != p { paths := paths + [p]; }
        inodeMap := inodeMap[inode := inodeMap[inode].(paths := paths)];
      } else {
        assert Drop([], p) + [p] == [p];
        inodeMap := inodeMap[inode := Entry([p], stamp)];
      }
    }

    method RemoveIdentityPath(inode: nat, p: Path)
      modifies this`inodeMap
      ensures inodeMap == Without(old(inodeMap), inode, p)
      ensures forall i :: i != inode ==> Names(inodeMap, i) == Names(old(inodeMap), i)
      ensures forall q: Path :: q in Names(inodeMap, inode) <==> q in Names(old(inodeMap), inode) && q != p
      ensures NoDup(Names(old(inodeMap), inode)) ==> NoDup(Names(inodeMap, inode))
      ensures inode in inodeMap <==> exists q: Path :: q in Names(old(inodeMap), inode) && q != p
    {
      if inode in inodeMap {
        var paths := Drop(inodeMap[inode].paths, p);
        if paths == [] {
          inodeMap := inodeMap - {inode};
        } else {
          assert paths[0] in paths && paths[0] in Names(inodeMap, inode);
          inodeMap := inodeMap[inode := inodeMap[inode].(paths := paths)];
        }
      }
    }

    method ProjectRename(e: Event)
      modifies this
      ensures View() == Renamed(order, old(View()), e)
    {
      if e.inode !in inodeMap {
        var waiting := if e.inode in pendingRenames then pendingRenames[e.inode] else [];
        pendingRenames := pendingRenames[e.inode := waiting + [e]];
        return;
      }
      if e.newName.None? { return; }
      var a, b := OldPath(View(), e), NewPath(View(), e);
      if e.exchange {
        var found := FindInodeByRelPath(b);
        if found.Some? {
          var isDirB := found.value in dirMap;
          SwapIdentityPath(found.value, b, a);
          SwapIdentityPath(e.inode, a, b);
          if e.isDir { dirMap := dirMap[e.inode := b]; }
          if isDirB { dirMap := dirMap[found.value := a]; }
        } else {
          UpdateIdentity(e.inode, b, e.stamp);
          if e.isDir { dirMap := dirMap[e.inode := b]; }
        }
      } else {
        RemoveIdentityPath(e.inode, a);
        UpdateIdentity(e.inode, b, e.stamp);
        if e.isDir { dirMap := dirMap[e.inode := b]; }
      }
    }

    method Project(e: Event)
      modifies this
      ensures View() == Projected(order, old(View()), e)
    {
      if Creates(e) {
        if e.parent != 0 && e.parent in dirMap {
          var p := dirMap[e.parent] + [e.name];
          UpdateIdentity(e.inode, p, e.stamp);
          if e.kind == Mkdir { dirMap := dirMap[e.inode := p]; }
        }
        var waiting := if e.inode in pendingRenames then pendingRenames[e.inode] else [];
        pendingRenames := pendingRenames - {e.inode};
        Replay(waiting);
      } else if e.kind == Rename {
        ProjectRename(e);
      } else if e.kind == Link {
        if e.parent != 0 && e.parent in dirMap {
          AddIdentityPath(e.inode, dirMap[e.parent] + [e.name], e.stamp);
        }
      } else if e.kind == Unlink {
        if e.parent != 0 && e.parent in dirMap {
          RemoveIdentityPath(e.inode, dirMap[e.parent] + [e.name]);
        }
      } else if e.kind == Rmdir {
        dirMap := dirMap - {e.inode};
        inodeMap := inodeMap - {e.inode};
      }
    }

    method Replay(waiting: seq<Event>)
      modifies this
      ensures View() == Replayed(order, old(View()), waiting)
    {
      var i := 0;
      assert waiting[0..] == waiting;
      while i < |waiting|
        invariant i <= |waiting|
        invariant Replayed(order, View(), waiting[i..]) == Replayed(order, old(View()), waiting)
      {
        assert waiting[i..][1..] == waiting[i + 1..];
        ProjectRename(waiting[i]);
        i := i + 1;
      }
    }
  }
}
