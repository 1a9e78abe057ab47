/** Renames onto existing names and renames of directories: exactly when the picture stays faithful. */
module RenameLimits {
  import opened Bytes
  import opened Projector
  import opened Namespace

  function RenameEvent(parent: nat, name: string, newParent: nat, newName: string, inode: nat, isDir: bool,
      stamp: Stamp): Event {
    Event(Rename, inode, parent, name, newParent, Some(newName), isDir, false, stamp)
  }

  /** Renaming a file: a second name of the same inode is left alone, any other file is replaced. */
  function FileRenamed(n: Space, a: Path, b: Path, inode: nat): Space {
    if b in n.names && n.names[b] == inode then n else n.(names := (n.names - {a})[b := inode])
  }

  lemma ProjectedMove(order: Listing, n: Space, s: State, e: Event)
    requires Faithful(n, s) && e.kind == Rename && e.newName.Some? && !e.exchange && Named(n, e.inode)
    requires e.parent in n.dirs && e.newParent in n.dirs
    ensures Projected(order, s, e) == Moved(s, e, At(n, e.parent, e.name), At(n, e.newParent, e.newName.value))
  {
    assert e.inode in s.inodes by { UnnamedIsAbsent(s.inodes, n, e.inode); }
    assert Projected(order, s, e) == Renamed(order, s, e);
    assert OldPath(s, e) == At(n, e.parent, e.name);
    assert NewPath(s, e) == At(n, e.newParent, e.newName.value);
  }

  lemma MovedNames(s: State, e: Event, a: Path, b: Path, i: nat)
    requires a != b
    ensures a !in Names(Moved(s, e, a, b).inodes, e.inode)
    ensures i != e.inode ==> Names(Moved(s, e, a, b).inodes, i) == Names(s.inodes, i)
  {
  }

  lemma MovedPictures(n: Space, s: State, e: Event, a: Path, b: Path)
    requires Pictures(s.inodes, n.names) && a in n.names && n.names[a] == e.inode && (b !in n.names || a == b)
    ensures Pictures(Moved(s, e, a, b).inodes, (n.names - {a})[b := e.inode])
  {
    RemovePath(s.inodes, n.names, e.inode, a);
    var m := Without(s.inodes, e.inode, a);
    AddPath(m, n.names - {a}, e.inode, b, Entry(Drop(Names(m, e.inode), b) + [b], e.stamp));
  }

  /**
   * A file rename keeps the picture faithful exactly when the new name is free, or is the old one: otherwise the
   * replaced inode keeps its path, or a second link of the inode loses one it still has.
   */
  lemma FileRenameIff(order: Listing, n: Space, s: State, parent: nat, name: string, newParent: nat, newName: string,
                      inode: nat, stamp: Stamp)
    requires Faithful(n, s) && parent in n.dirs && newParent in n.dirs
    requires IsFileAt(n, At(n, parent, name), inode)
    requires At(n, newParent, newName) in n.names ==> n.names[At(n, newParent, newName)] !in n.dirs
    ensures var a, b := At(n, parent, name), At(n, newParent, newName);
            var e := RenameEvent(parent, name, newParent, newName, inode, false, stamp);
            Faithful(FileRenamed(n, a, b, inode), Projected(order, s, e)) <==> b !in n.names || a == b
  {
    var a, b := At(n, parent, name), At(n, newParent, newName);
    var e := RenameEvent(parent, name, newParent, newName, inode, false, stamp);
    var after, t := FileRenamed(n, a, b, inode), Moved(s, e, a, b);
    ProjectedMove(order, n, s, e);
    if b !in n.names || a == b {
      MovedPictures(n, s, e, a, b);
      assert a == b ==> (n.names - {a})[b := inode] == n.names;
      assert WellFormed(after);
    } else {
      MovedNames(s, e, a, b, n.names[b]);
      assert !Pictures(t.inodes, after.names) by {
        if n.names[b] == inode {
          assert !Exactly(Names(t.inodes, inode), after.names, inode);
        } else {
          var i := n.names[b];
          assert Exactly(Names(s.inodes, i), n.names, i);
          assert b in Names(t.inodes, i);
          assert !Exactly(Names(t.inodes, i), after.names, i);
        }
      }
    }
  }

  // ---------------------------------------------------------------- directories

  function Relocated(p: Path, a: Path, b: Path): Path { if a <= p then b + p[|a|..] else p }

  /** Where a path of the new namespace was in the old one. */
  function Origin(p: Path, a: Path, b: Path): Path { if b <= p then a + p[|b|..] else p }

  lemma OriginOfRelocated(p: Path, a: Path, b: Path)
    requires !(b <= p)
    ensures Origin(Relocated(p, a, b), a, b) == p
  {
    if a <= p {
      var q := b + p[|a|..];
      assert q[|b|..] == p[|a|..];
      assert a + p[|a|..] == p;
    }
  }

  /** Renaming a directory moves everything below it along. */
  function DirRenamed(n: Space, a: Path, b: Path): Space
    requires forall p :: p in n.names ==> !(b <= p)
  {
    var keys := set p | p in n.names :: Relocated(p, a, b);
    assert forall q :: q in keys ==> Origin(q, a, b) in n.names by {
      forall q | q in keys ensures Origin(q, a, b) in n.names {
        var p :| p in n.names && q == Relocated(p, a, b);
        OriginOfRelocated(p, a, b);
      }
    }
    n.(names := map q | q in keys :: n.names[Origin(q, a, b)],
       dirs := map d | d in n.dirs :: Relocated(n.dirs[d], a, b))
  }

  lemma LoneDirRenamed(n: Space, a: Path, b: Path, d: nat)
    requires WellFormed(n) && d in n.dirs && d != n.root && n.dirs[d] == a
    requires (forall p :: p in n.names ==> !(b <= p)) && forall p :: p in n.names ==> !(a < p)
    ensures DirRenamed(n, a, b).names == (n.names - {a})[b := d] && DirRenamed(n, a, b).dirs == n.dirs[d := b]
  {
    LoneDirNames(n, a, b, d);
    forall i | i in n.dirs ensures Relocated(n.dirs[i], a, b) == n.dirs[d := b][i] {
      if i == d {
        assert a[|a|..] == [];
      } else if i == n.root {
        assert a != [];
      } else {
        assert n.dirs[i] in n.names;
        assert !(a < n.dirs[i]) && a != n.dirs[i];
      }
    }
  }

  lemma LoneDirNames(n: Space, a: Path, b: Path, d: nat)
    requires a in n.names && n.names[a] == d
    requires (forall p :: p in n.names ==> !(b <= p)) && forall p :: p in n.names ==> !(a < p)
    ensures DirRenamed(n, a, b).names == (n.names - {a})[b := d]
  {
    var names1, names2 := DirRenamed(n, a, b).names, (n.names - {a})[b := d];
    assert a[|a|..] == [] && b[|b|..] == [] && b + [] == b && a + [] == a;
    assert Relocated(a, a, b) == b;
    forall p | p in n.names && p != a ensures Relocated(p, a, b) == p { assert a <= p ==> a < p; }
    forall q ensures q in names1 <==> q in names2 {
      if q in names2 && q != b { assert Relocated(q, a, b) == q; }
    }
    forall q | q in names2 ensures names1[q] == names2[q] {
      if q != b { assert Origin(q, a, b) == q; } else { assert Origin(b, a, b) == a; }
    }
  }

  lemma LoneDirIsWellFormed(n: Space, a: Path, b: Path, d: nat)
    requires WellFormed(n) && d in n.dirs && d != n.root && n.dirs[d] == a && b != [] && b !in n.names
    ensures WellFormed(n.(names := (n.names - {a})[b := d], dirs := n.dirs[d := b]))
  {
  }

  lemma StrandedDescendant(n: Space, s: State, e: Event, a: Path, b: Path, p: Path)
    requires Faithful(n, s) && e.inode in n.dirs && n.dirs[e.inode] == a && a != b
    requires (forall q :: q in n.names ==> !(b <= q)) && p in n.names && a < p
    ensures !Pictures(Moved(s, e, a, b).inodes, DirRenamed(n, a, b).names)
  {
    var i, names1 := n.names[p], DirRenamed(n, a, b).names;
    assert i != e.inode;
    assert Exactly(Names(s.inodes, i), n.names, i);
    MovedNames(s, e, a, b, i);
    assert p in Names(Moved(s, e, a, b).inodes, i);
    assert p !in names1 by {
      forall q | q in n.names ensures Relocated(q, a, b) != p {
        assert a <= q ==> b <= Relocated(q, a, b);
      }
    }
    assert !Exactly(Names(Moved(s, e, a, b).inodes, i), names1, i);
  }

  /** What is at the new name, an empty directory, goes first. */
  function Vacated(n: Space, b: Path): Space {
    if b in n.names then n.(names := n.names - {b}, dirs := n.dirs - {n.names[b]}) else n
  }

  lemma VacatedIsFree(n: Space, b: Path)
    requires forall p :: p in n.names ==> !(b < p)
    ensures forall p :: p in Vacated(n, b).names ==> !(b <= p)
  {
    forall p | p in Vacated(n, b).names ensures !(b <= p) {
      assert p in n.names && p != b;
      assert b <= p && |b| == |p| ==> b == p;
      assert b <= p && |b| < |p| ==> b < p;
    }
  }

  function DirMoved(n: Space, a: Path, b: Path): Space
    requires a == b || forall p :: p in n.names ==> !(b < p)
  {
    if a == b then n else
    VacatedIsFree(n, b);
    DirRenamed(Vacated(n, b), a, b)
  }

  /** An empty directory that is replaced keeps its path. */
  lemma StrandedReplaced(n: Space, s: State, e: Event, a: Path, b: Path)
    requires Faithful(n, s) && e.inode in n.dirs && e.inode != n.root && n.dirs[e.inode] == a && a != b
    requires b in n.names && forall q :: q in n.names ==> !(b < q)
    ensures !Pictures(Moved(s, e, a, b).inodes, DirMoved(n, a, b).names)
  {
    var i, n1 := n.names[b], Vacated(n, b);
    var names1 := DirMoved(n, a, b).names;
    assert Exactly(Names(s.inodes, i), n.names, i);
    assert i != e.inode;
    MovedNames(s, e, a, b, i);
    assert b in Names(Moved(s, e, a, b).inodes, i);
    assert b in names1 ==> names1[b] != i by {
      assert b[|b|..] == [] && a + [] == a;
      assert Origin(b, a, b) == a;
    }
    assert !Exactly(Names(Moved(s, e, a, b).inodes, i), names1, i);
  }

  /**
   * A directory rename keeps the picture faithful exactly when the new name is free and nothing is below the
   * directory, or the new name is the old one.
   */
  lemma DirRenameIff(order: Listing, n: Space, s: State, parent: nat, name: string, newParent: nat, newName: string,
                     d: nat, stamp: Stamp)
    requires Faithful(n, s) && parent in n.dirs && newParent in n.dirs && d in n.dirs && d != n.root
    requires n.dirs[d] == At(n, parent, name) && !(At(n, parent, name) < At(n, newParent, newName))
    requires At(n, newParent, newName) in n.names ==> n.names[At(n, newParent, newName)] in n.dirs
    requires At(n, parent, name) == At(n, newParent, newName)
             || forall p :: p in n.names ==> !(At(n, newParent, newName) < p)
    ensures var a, b := At(n, parent, name), At(n, newParent, newName);
            var e := RenameEvent(parent, name, newParent, newName, d, true, stamp);
            Faithful(DirMoved(n, a, b), Projected(order, s, e))
            <==> a == b || (b !in n.names && forall p :: p in n.names ==> !(a < p))
  {
    var a, b := At(n, parent, name), At(n, newParent, newName);
    var e := RenameEvent(parent, name, newParent, newName, d, true, stamp);
    assert a in n.names && n.names[a] == d;
    ProjectedMove(order, n, s, e);
    if a == b {
      MovedPictures(n, s, e, a, b);
      assert (n.names - {a})[b := d] == n.names;
    } else if b in n.names {
      StrandedReplaced(n, s, e, a, b);
    } else if p :| p in n.names && a < p {
      VacatedIsFree(n, b);
      StrandedDescendant(n, s, e, a, b, p);
    } else {
      VacatedIsFree(n, b);
      LoneDirRenamed(n, a, b, d);
      LoneDirIsWellFormed(n, a, b, d);
      MovedPictures(n, s, e, a, b);
    }
  }
}
