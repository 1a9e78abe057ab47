/** A creation that is delivered after what happened to its inode: exactly when the maps end as in order. */
module LateCreate {
  import opened Bytes
  import opened Projector
  import opened DeferredRename

  /** The same state with an entry for the inode. */
  function With(s: State, x: nat, entry: Entry): State { s.(inodes := s.inodes[x := entry]) }

  // ---------------------------------------------------------------- events about other inodes

  /** The exchange finds the same owner whether or not x is in the map. */
  ghost predicate SameOwner(order: Listing, s: State, x: nat, entry: Entry, e: Event) {
    e.exchange && e.newName.Some? && e.inode in s.inodes ==>
      var m := s.inodes[x := entry];
      Owner(m, order(m.Keys), NewPath(s, e)) == Owner(s.inodes, order(s.inodes.Keys), NewPath(s, e))
  }

  ghost predicate ReplaySame(order: Listing, s: State, x: nat, entry: Entry, es: seq<Event>)
    decreases |es|
  {
    es == [] || (SameOwner(order, s, x, entry, es[0]) && ReplaySame(order, Renamed(order, s, es[0]), x, entry, es[1..]))
  }

  /** No exchange in or behind the event touches x. */
  ghost predicate Ignores(order: Listing, s: State, x: nat, entry: Entry, e: Event) {
    if Creates(e) then
      var t := Entered(s, e);
      ReplaySame(order, t.(pending := t.pending - {e.inode}), x, entry,
          if e.inode in t.pending then t.pending[e.inode] else [])
    else e.kind == Rename ==> SameOwner(order, s, x, entry, e)
  }

  lemma UpdatesApart(m: InodeMap, x: nat, entry: Entry, i: nat, p: Path, q: Path, stamp: Stamp)
    requires x != i
    ensures Updated(m[x := entry], i, p, stamp) == Updated(m, i, p, stamp)[x := entry]
    ensures Added(m[x := entry], i, p, stamp) == Added(m, i, p, stamp)[x := entry]
    ensures Without(m[x := entry], i, p) == Without(m, i, p)[x := entry]
    ensures Swapped(m[x := entry], i, p, q) == Swapped(m, i, p, q)[x := entry]
  {
  }

  lemma RenameIgnoring(order: Listing, s: State, x: nat, entry: Entry, e: Event)
    requires Unknown(s, x) && e.inode != x && SameOwner(order, s, x, entry, e)
    ensures Renamed(order, With(s, x, entry), e) == With(Renamed(order, s, e), x, entry)
  {
    if e.inode in s.inodes && e.newName.Some? {
      var a, b := OldPath(s, e), NewPath(s, e);
      if e.exchange {
        var owner := Owner(s.inodes, order(s.inodes.Keys), b);
        if owner.Some? {
          assert owner.value in s.inodes;
          UpdatesApart(s.inodes, x, entry, owner.value, b, a, e.stamp);
          UpdatesApart(Swapped(s.inodes, owner.value, b, a), x, entry, e.inode, a, b, e.stamp);
        } else {
          UpdatesApart(s.inodes, x, entry, e.inode, b, b, e.stamp);
        }
      } else {
        UpdatesApart(s.inodes, x, entry, e.inode, a, a, e.stamp);
        UpdatesApart(Without(s.inodes, e.inode, a), x, entry, e.inode, b, b, e.stamp);
      }
    }
  }

  lemma {:induction false} ReplayIgnoring(order: Listing, s: State, x: nat, entry: Entry, es: seq<Event>)
    requires Unknown(s, x) && OwnPending(s) && (forall i :: 0 <= i < |es| ==> es[i].inode != x)
    requires ReplaySame(order, s, x, entry, es)
    ensures Replayed(order, With(s, x, entry), es) == With(Replayed(order, s, es), x, entry)
    decreases |es|
  {
    if es != [] {
      RenameIgnoring(order, s, x, entry, es[0]);
      RenameApart(order, s, es[0], x, []);
      ReplayIgnoring(order, Renamed(order, s, es[0]), x, entry, es[1..]);
    }
  }

  lemma CreateIgnoring(order: Listing, s: State, x: nat, entry: Entry, e: Event)
    requires Unknown(s, x) && OwnPending(s) && e.inode != x && Creates(e) && Ignores(order, s, x, entry, e)
    ensures Projected(order, With(s, x, entry), e) == With(Projected(order, s, e), x, entry)
  {
    var t := Entered(s, e);
    var t1 := t.(pending := t.pending - {e.inode});
    var waiting := if e.inode in s.pending then s.pending[e.inode] else [];
    if e.parent != 0 && e.parent in s.dirs {
      UpdatesApart(s.inodes, x, entry, e.inode, s.dirs[e.parent] + [e.name], [], e.stamp);
    }
    assert Entered(With(s, x, entry), e) == With(t, x, entry);
    ReplayIgnoring(order, t1, x, entry, waiting);
  }

  /** An event about another inode does the same with and without x in the map. */
  lemma EventIgnoring(order: Listing, s: State, x: nat, entry: Entry, e: Event)
    requires Unknown(s, x) && OwnPending(s) && e.inode != x && Ignores(order, s, x, entry, e)
    ensures Projected(order, With(s, x, entry), e) == With(Projected(order, s, e), x, entry)
  {
    if Creates(e) {
      CreateIgnoring(order, s, x, entry, e);
    } else if e.kind == Rename {
      RenameIgnoring(order, s, x, entry, e);
    } else if e.kind == Rmdir {
      assert s.inodes[x := entry] - {e.inode} == (s.inodes - {e.inode})[x := entry];
    } else if (e.kind == Link || e.kind == Unlink) && e.parent != 0 && e.parent in s.dirs {
      UpdatesApart(s.inodes, x, entry, e.inode, s.dirs[e.parent] + [e.name], [], e.stamp);
    }
  }

  // ---------------------------------------------------------------- renames of x itself

  /** A plain file rename to a named place. */
  predicate IsMove(e: Event) {
    e.kind == Rename && e.newName.Some? && !e.exchange && !e.isDir && e.newParent != 0
  }

  /** Where x is, by directory and name. */
  datatype Seat = Seat(parent: nat, name: string, stamp: Stamp)

  function Moves(seat: Seat, r: Event): Seat
    requires IsMove(r)
  {
    Seat(r.newParent, r.newName.value, r.stamp)
  }

  function PathOf(dirs: map<nat, Path>, seat: Seat): Path { PathIn(dirs, seat.parent, seat.name) }

  /** A rename from x's only path leaves it with the new path only. */
  lemma MoveReseats(order: Listing, s: State, x: nat, seat: Seat, path: Path, r: Event)
    requires Unknown(s, x) && IsMove(r) && r.inode == x && OldPath(s, r) == path
    ensures Renamed(order, With(s, x, Entry([path], seat.stamp)), r)
            == With(s, x, Entry([PathOf(s.dirs, Moves(seat, r))], r.stamp))
  {
    var m, b := s.inodes[x := Entry([path], seat.stamp)], NewPath(s, r);
    assert Drop([path], path) == [] by { assert [path][1..] == []; }
    assert Without(m, x, path) == s.inodes;
    assert Drop([], b) + [b] == [b];
    assert Updated(s.inodes, x, b, r.stamp) == s.inodes[x := Entry([b], r.stamp)];
  }

  // ---------------------------------------------------------------- the two deliveries

  /**
   * The in-order run, seen without x: each rename of x is a plain one from where x is, which is still the path it
   * has, and no exchange touches x.
   */
  ghost predicate Tidy(order: Listing, s: State, x: nat, seat: Seat, path: Path, es: seq<Event>)
    decreases |es|
  {
    if es == [] then true
    else if es[0].inode == x then
      && IsMove(es[0]) && es[0].parent == seat.parent && es[0].name == seat.name && OldPath(s, es[0]) == path
      && Tidy(order, s, x, Moves(seat, es[0]), PathOf(s.dirs, Moves(seat, es[0])), es[1..])
    else
      && Ignores(order, s, x, Entry([path], seat.stamp), es[0])
      && Tidy(order, Projected(order, s, es[0]), x, seat, path, es[1..])
  }

  /** Where x is in the end. */
  function LastSeat(seat: Seat, es: seq<Event>, x: nat): Seat
    decreases |es|
  {
    if es == [] then seat
    else LastSeat(if es[0].inode == x && IsMove(es[0]) then Moves(seat, es[0]) else seat, es[1..], x)
  }

  /** The path that x has in the end of the in-order run: that of its last place when it got there. */
  function LastPath(order: Listing, s: State, x: nat, seat: Seat, path: Path, es: seq<Event>): Path
    decreases |es|
  {
    if es == [] then path
    else if es[0].inode == x && IsMove(es[0]) then
      LastPath(order, s, x, Moves(seat, es[0]), PathOf(s.dirs, Moves(seat, es[0])), es[1..])
    else LastPath(order, Projected(order, s, es[0]), x, seat, path, es[1..])
  }

  lemma {:induction false} SplitCons(e: Event, rest: seq<Event>, x: nat)
    ensures Others([e] + rest, x) == (if e.inode == x then [] else [e]) + Others(rest, x)
    ensures About([e] + rest, x) == (if e.inode == x then [e] else []) + About(rest, x)
    decreases |rest|
  {
    var all := [e] + rest;
    if rest == [] {
      assert all[..0] == [] && all[0] == e;
    } else {
      assert all[..|all| - 1] == [e] + rest[..|rest| - 1] && all[|all| - 1] == rest[|rest| - 1];
      SplitCons(e, rest[..|rest| - 1], x);
    }
  }

  lemma ProjectedCons(order: Listing, s: State, e: Event, rest: seq<Event>)
    ensures ProjectedAll(order, s, [e] + rest) == ProjectedAll(order, Projected(order, s, e), rest)
  {
    ProjectedAppend(order, s, [e], rest);
    assert [e][..0] == [];
  }

  /** In order, x ends with its last path, beside what the other events do. */
  lemma {:induction false} InOrderEnds(order: Listing, s: State, x: nat, seat: Seat, path: Path, es: seq<Event>)
    requires Unknown(s, x) && OwnPending(s) && Tidy(order, s, x, seat, path, es)
    ensures ProjectedAll(order, With(s, x, Entry([path], seat.stamp)), es)
            == With(ProjectedAll(order, s, Others(es, x)), x,
                    Entry([LastPath(order, s, x, seat, path, es)], LastSeat(seat, es, x).stamp))
    decreases |es|
  {
    if es != [] {
      var e, rest, now := es[0], es[1..], With(s, x, Entry([path], seat.stamp));
      assert es == [e] + rest;
      SplitCons(e, rest, x);
      ProjectedCons(order, now, e, rest);
      if e.inode == x {
        MoveStep(order, s, x, seat, path, e);
        InOrderEnds(order, s, x, Moves(seat, e), PathOf(s.dirs, Moves(seat, e)), rest);
        assert [] + Others(rest, x) == Others(rest, x);
      } else {
        OtherStep(order, s, x, Entry([path], seat.stamp), e);
        InOrderEnds(order, Projected(order, s, e), x, seat, path, rest);
        ProjectedCons(order, s, e, Others(rest, x));
      }
    }
  }

  lemma MoveStep(order: Listing, s: State, x: nat, seat: Seat, path: Path, e: Event)
    requires Unknown(s, x) && IsMove(e) && e.inode == x && OldPath(s, e) == path
    ensures Projected(order, With(s, x, Entry([path], seat.stamp)), e)
            == With(s, x, Entry([PathOf(s.dirs, Moves(seat, e))], Moves(seat, e).stamp))
  {
    MoveReseats(order, s, x, seat, path, e);
  }

  lemma OtherStep(order: Listing, s: State, x: nat, entry: Entry, e: Event)
    requires Unknown(s, x) && OwnPending(s) && e.inode != x && Ignores(order, s, x, entry, e)
    ensures Projected(order, With(s, x, entry), e) == With(Projected(order, s, e), x, entry)
    ensures Unknown(Projected(order, s, e), x) && OwnPending(Projected(order, s, e))
  {
    EventIgnoring(order, s, x, entry, e);
    EventApart(order, s, e, x, []);
  }

  /** Each rename starts where the one before ended. */
  ghost predicate Chained(seat: Seat, rs: seq<Event>, x: nat)
    decreases |rs|
  {
    rs == [] || (IsMove(rs[0]) && rs[0].inode == x && rs[0].parent == seat.parent && rs[0].name == seat.name
                 && Chained(Moves(seat, rs[0]), rs[1..], x))
  }

  lemma {:induction false} TidyIsChained(order: Listing, s: State, x: nat, seat: Seat, path: Path, es: seq<Event>)
    requires Tidy(order, s, x, seat, path, es)
    ensures Chained(seat, About(es, x), x) && LastSeat(seat, About(es, x), x) == LastSeat(seat, es, x)
    decreases |es|
  {
    if es != [] {
      var e, rest := es[0], es[1..];
      assert es == [e] + rest;
      SplitCons(e, rest, x);
      if e.inode == x {
        TidyIsChained(order, s, x, Moves(seat, e), PathOf(s.dirs, Moves(seat, e)), rest);
        assert ([e] + About(rest, x))[1..] == About(rest, x);
      } else {
        TidyIsChained(order, Projected(order, s, e), x, seat, path, rest);
        assert [] + About(rest, x) == About(rest, x);
      }
    }
  }

  /** Played late, the renames end at the last place as it is called by then. */
  lemma {:induction false} LateEnds(order: Listing, t: State, x: nat, seat: Seat, rs: seq<Event>)
    requires Unknown(t, x) && Chained(seat, rs, x)
    ensures var last := LastSeat(seat, rs, x);
            Replayed(order, With(t, x, Entry([PathOf(t.dirs, seat)], seat.stamp)), rs)
            == With(t, x, Entry([PathOf(t.dirs, last)], last.stamp))
    decreases |rs|
  {
    if rs != [] {
      MoveReseats(order, t, x, seat, PathOf(t.dirs, seat), rs[0]);
      LateEnds(order, t, x, Moves(seat, rs[0]), rs[1..]);
    }
  }

  /** If the creation finds no directory, the renames wait on. */
  lemma {:induction false} StillWaiting(order: Listing, t: State, x: nat, before: seq<Event>, rs: seq<Event>)
    requires Unknown(t, x) && forall i :: 0 <= i < |rs| ==> rs[i].inode == x && rs[i].kind == Rename
    ensures Replayed(order, Waiting(t, x, before), rs) == Waiting(t, x, before + rs)
    decreases |rs|
  {
    if rs == [] {
      assert before + rs == before;
    } else {
      OneMoreWaits(order, t, rs[0], before);
      StillWaiting(order, t, x, before + [rs[0]], rs[1..]);
      assert before + [rs[0]] + rs[1..] == before + rs;
    }
  }

  /** A file is created in a known directory. */
  predicate CreatesFile(s: State, create: Event) {
    Creates(create) && create.kind != Mkdir && create.parent != 0 && create.parent in s.dirs
  }

  function SeatOf(create: Event): Seat { Seat(create.parent, create.name, create.stamp) }

  /** In order: the state once the file has been created. */
  lemma Created(order: Listing, s: State, create: Event)
    requires Unknown(s, create.inode) && CreatesFile(s, create)
    ensures Projected(order, s, create)
            == With(s, create.inode, Entry([PathOf(s.dirs, SeatOf(create))], create.stamp))
  {
    var p := s.dirs[create.parent] + [create.name];
    CreateReplays(order, s, create, []);
    assert Drop([], p) + [p] == [p];
  }

  lemma {:induction false} AboutIs(es: seq<Event>, x: nat)
    ensures forall i :: 0 <= i < |About(es, x)| ==> About(es, x)[i].inode == x
  {
    if es != [] { AboutIs(es[..|es| - 1], x); }
  }

  lemma {:induction false} ChainedAreRenames(seat: Seat, rs: seq<Event>, x: nat)
    requires Chained(seat, rs, x)
    ensures forall i :: 0 <= i < |rs| ==> rs[i].kind == Rename
    decreases |rs|
  {
    if rs != [] { ChainedAreRenames(Moves(seat, rs[0]), rs[1..], x); }
  }

  lemma {:induction false} TidyRenames(order: Listing, s: State, x: nat, seat: Seat, path: Path, es: seq<Event>)
    requires Tidy(order, s, x, seat, path, es)
    ensures forall i :: 0 <= i < |es| && es[i].inode == x ==> es[i].kind == Rename
    decreases |es|
  {
    if es != [] {
      assert forall i :: 0 < i < |es| ==> es[i] == es[1..][i - 1];
      if es[0].inode == x {
        TidyRenames(order, s, x, Moves(seat, es[0]), PathOf(s.dirs, Moves(seat, es[0])), es[1..]);
      } else {
        TidyRenames(order, Projected(order, s, es[0]), x, seat, path, es[1..]);
      }
    }
  }

  /** The state that a late creation leads to, in both cases. */
  lemma LateState(order: Listing, s: State, create: Event, es: seq<Event>)
    requires Unknown(s, create.inode) && OwnPending(s) && CreatesFile(s, create)
    requires Tidy(order, s, create.inode, SeatOf(create), PathOf(s.dirs, SeatOf(create)), es)
    ensures var x, t := create.inode, ProjectedAll(order, s, Others(es, create.inode));
            var last := LastSeat(SeatOf(create), es, x);
            && Unknown(t, x)
            && ProjectedAll(order, s, es + [create])
               == if create.parent in t.dirs then With(t, x, Entry([PathOf(t.dirs, last)], last.stamp))
                  else Waiting(t, x, About(es, x))
  {
    var x, rs, seat := create.inode, About(es, create.inode), SeatOf(create);
    var t := ProjectedAll(order, s, Others(es, x));
    TidyRenames(order, s, x, seat, PathOf(s.dirs, seat), es);
    TidyIsChained(order, s, x, seat, PathOf(s.dirs, seat), es);
    RenamesPileUp(order, s, es, x);
    assert (es + [create])[..|es|] == es;
    CreateReplays(order, t, create, rs);
    if create.parent in t.dirs {
      Created(order, t, create);
      CreateReplays(order, t, create, []);
      LateEnds(order, t, x, seat, rs);
    } else {
      AboutIs(es, x);
      ChainedAreRenames(seat, rs, x);
      StillWaiting(order, t, x, [], rs);
      assert [] + rs == rs;
    }
  }

  /**
   * Creation first, or last: after any number of renames of the file, interleaved with any other events, the maps
   * are the same exactly when the creation's directory is still known as it arrives, and the directory of the
   * file's last place is still known under the same path.
   */
  lemma LateCreateIff(order: Listing, s: State, create: Event, es: seq<Event>)
    requires Unknown(s, create.inode) && OwnPending(s) && CreatesFile(s, create)
    requires Tidy(order, s, create.inode, SeatOf(create), PathOf(s.dirs, SeatOf(create)), es)
    ensures var x, seat := create.inode, SeatOf(create);
            var dirs := ProjectedAll(order, s, Others(es, x)).dirs;
            ProjectedAll(order, s, [create] + es) == ProjectedAll(order, s, es + [create])
            <==> create.parent in dirs
                 && PathOf(dirs, LastSeat(seat, es, x)) == LastPath(order, s, x, seat, PathOf(s.dirs, seat), es)
  {
    var x, seat := create.inode, SeatOf(create);
    var t, last := ProjectedAll(order, s, Others(es, x)), LastSeat(seat, es, x);
    InOrderState(order, s, create, es);
    LateState(order, s, create, es);
    SameIff(t, x, LastPath(order, s, x, seat, PathOf(s.dirs, seat), es), PathOf(t.dirs, last), last.stamp,
        About(es, x));
  }

  lemma InOrderState(order: Listing, s: State, create: Event, es: seq<Event>)
    requires Unknown(s, create.inode) && OwnPending(s) && CreatesFile(s, create)
    requires Tidy(order, s, create.inode, SeatOf(create), PathOf(s.dirs, SeatOf(create)), es)
    ensures var x, seat := create.inode, SeatOf(create);
            ProjectedAll(order, s, [create] + es)
            == With(ProjectedAll(order, s, Others(es, x)), x,
                    Entry([LastPath(order, s, x, seat, PathOf(s.dirs, seat), es)], LastSeat(seat, es, x).stamp))
  {
    ProjectedCons(order, s, create, es);
    Created(order, s, create);
    InOrderEnds(order, s, create.inode, SeatOf(create), PathOf(s.dirs, SeatOf(create)), es);
  }

  lemma SameIff(t: State, x: nat, p: Path, q: Path, stamp: Stamp, rs: seq<Event>)
    requires Unknown(t, x)
    ensures With(t, x, Entry([p], stamp)) == With(t, x, Entry([q], stamp)) <==> p == q
    ensures With(t, x, Entry([p], stamp)) != Waiting(t, x, rs)
  {
    assert With(t, x, Entry([p], stamp)).inodes[x].paths[0] == p;
    assert With(t, x, Entry([q], stamp)).inodes[x].paths[0] == q;
    assert x in With(t, x, Entry([p], stamp)).inodes && x !in Waiting(t, x, rs).inodes;
  }
}
