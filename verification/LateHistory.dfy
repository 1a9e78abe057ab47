/** Histories of a namespace in which the creation of a file is reported last. */
module LateHistory {
  import opened Bytes
  import opened Projector
  import opened Namespace
  import opened DeferredRename
  import opened LateCreate

  /** The operations lead from one namespace to another. */
  ghost predicate Plays(n: Space, ops: seq<Stamped>, last: Space)
    decreases |ops|
  {
    if ops == [] then last == n
    else CanHappen(n, ops[0].op) && Plays(Happened(n, ops[0].op), ops[1..], last)
  }

  lemma EventsCons(first: Stamped, rest: seq<Stamped>)
    ensures Events([first] + rest) == [Reported(first.op, first.stamp)] + Events(rest)
  {
    assert forall i :: 0 < i < |[first] + rest| ==> ([first] + rest)[i] == rest[i - 1];
  }

  lemma {:induction false} PlayedIsFaithful(order: Listing, n: Space, s: State, ops: seq<Stamped>, last: Space)
    requires Lists(order) && Faithful(n, s) && Plays(n, ops, last)
    ensures Faithful(last, ProjectedAll(order, s, Events(ops)))
    decreases |ops|
  {
    if ops != [] {
      var first, rest := ops[0], ops[1..];
      assert ops == [first] + rest;
      EventsCons(first, rest);
      OpIsFaithful(order, n, s, first.op, first.stamp);
      var e := Reported(first.op, first.stamp);
      ProjectedCons(order, s, e, Events(rest));
      PlayedIsFaithful(order, Happened(n, first.op), Projected(order, s, e), rest, last);
    }
  }

  // ---------------------------------------------------------------- where the file sits

  /** The file x has one name, in a known directory. */
  ghost predicate Seated(n: Space, x: nat, seat: Seat) {
    && seat.parent in n.dirs && x !in n.dirs
    && forall p: Path :: p in n.names && n.names[p] == x <==> p == PathOf(n.dirs, seat)
  }

  /** All that happens to x itself are renames, and no exchange takes its name. */
  ghost predicate LeavesAlone(n: Space, x: nat, op: Op)
    requires CanHappen(n, op)
  {
    && (op.inode == x ==> op.MoveFile?)
    && (op.SwapFiles? ==> n.names[At(n, op.newParent, op.newName)] != x)
  }

  ghost predicate AllLeave(n: Space, x: nat, ops: seq<Stamped>)
    decreases |ops|
  {
    ops == [] || (CanHappen(n, ops[0].op) && LeavesAlone(n, x, ops[0].op)
                  && AllLeave(Happened(n, ops[0].op), x, ops[1..]))
  }

  /** While the file is in a directory, the directory stays where it is. */
  lemma SeatStays(n: Space, x: nat, seat: Seat, op: Op)
    requires WellFormed(n) && Seated(n, x, seat) && CanHappen(n, op) && LeavesAlone(n, x, op) && op.inode != x
    ensures Seated(Happened(n, op), x, seat) && PathOf(Happened(n, op).dirs, seat) == PathOf(n.dirs, seat)
  {
    var path := PathOf(n.dirs, seat);
    assert path in n.names && n.names[path] == x;
    match op
    case MakeFile(_, parent, name, inode) => {}
    case MakeDir(parent, name, inode) => {}
    case AddLink(parent, name, inode) => {}
    case RemoveLink(parent, name, _) => {}
    case RemoveDir(inode) => assert n.dirs[seat.parent] < path;
    case MoveFile(parent, name, newParent, newName, inode) => {}
    case SwapFiles(parent, name, newParent, newName, inode) => {}
  }

  lemma DirsAreDifferent(n: Space, d: nat, e: nat, a: string, b: string)
    requires WellFormed(n) && d in n.dirs && e in n.dirs && n.dirs[d] + [a] == n.dirs[e] + [b]
    ensures d == e && a == b
  {
    assert (n.dirs[d] + [a])[|n.dirs[d]|] == a && (n.dirs[e] + [b])[|n.dirs[e]|] == b;
    assert n.dirs[d] == (n.dirs[d] + [a])[..|n.dirs[d]|] == n.dirs[e];
  }

  /** A rename of x starts at its seat and ends at the new one. */
  lemma MoveSeats(n: Space, x: nat, seat: Seat, op: Op, stamp: Stamp)
    requires WellFormed(n) && Seated(n, x, seat) && CanHappen(n, op) && op.MoveFile? && op.inode == x
    ensures var e := Reported(op, stamp);
            && IsMove(e) && e.parent == seat.parent && e.name == seat.name
            && Seated(Happened(n, op), x, Moves(seat, e))
  {
    var e := Reported(op, stamp);
    assert At(n, op.parent, op.name) == PathOf(n.dirs, seat);
    DirsAreDifferent(n, op.parent, seat.parent, op.name, seat.name);
    assert 0 !in n.dirs;
  }

  // ---------------------------------------------------------------- exchanges that pass x by

  lemma OwnerWithout(order: Listing, n: Space, s: State, x: nat, entry: Entry, b: Path)
    requires Lists(order) && Pictures(s.inodes[x := entry], n.names) && x !in s.inodes
    requires b in n.names && n.names[b] != x
    ensures Owner(s.inodes[x := entry], order(s.inodes[x := entry].Keys), b)
            == Owner(s.inodes, order(s.inodes.Keys), b)
  {
    var m, owner := s.inodes[x := entry], n.names[b];
    OwnerIsUnique(order, m, n.names, b);
    assert Exactly(Names(m, owner), n.names, owner);
    assert b in Names(m, owner) && owner in s.inodes.Keys;
    assert owner in order(s.inodes.Keys);
    var r := Owner(s.inodes, order(s.inodes.Keys), b);
    assert b in Names(s.inodes, owner);
    if r.Some? { assert Exactly(Names(m, r.value), n.names, r.value); }
  }

  lemma OpIgnores(order: Listing, n: Space, s: State, x: nat, entry: Entry, op: Op, stamp: Stamp)
    requires Lists(order) && Faithful(n, With(s, x, entry)) && x !in s.inodes
    requires CanHappen(n, op) && LeavesAlone(n, x, op) && op.inode != x
    ensures Ignores(order, s, x, entry, Reported(op, stamp))
  {
    var e := Reported(op, stamp);
    if op.SwapFiles? {
      assert NewPath(s, e) == At(n, op.newParent, op.newName);
      OwnerWithout(order, n, s, x, entry, At(n, op.newParent, op.newName));
    }
  }

  /** A history in which x is only renamed, and its seat in the end. */
  lemma {:induction false} HistoryIsTidy(order: Listing, n: Space, s: State, x: nat, seat: Seat, ops: seq<Stamped>,
      last: Space)
    requires Lists(order) && SeatedIn(n, s, x, seat) && Plays(n, ops, last) && AllLeave(n, x, ops)
    ensures Tidy(order, s, x, seat, PathOf(n.dirs, seat), Events(ops))
    ensures Seated(last, x, LastSeat(seat, Events(ops), x))
    ensures LastPath(order, s, x, seat, PathOf(n.dirs, seat), Events(ops))
            == PathOf(last.dirs, LastSeat(seat, Events(ops), x))
    decreases |ops|
  {
    if ops != [] {
      var first, rest := ops[0], ops[1..];
      var e, entry := Reported(first.op, first.stamp), Entry([PathOf(n.dirs, seat)], seat.stamp);
      assert ops == [first] + rest;
      EventsCons(first, rest);
      assert ([e] + Events(rest))[1..] == Events(rest);
      if e.inode == x {
        OwnOp(order, n, s, x, seat, first.op, first.stamp);
        HistoryIsTidy(order, Happened(n, first.op), s, x, Moves(seat, e), rest, last);
      } else {
        OtherOp(order, n, s, x, seat, first.op, first.stamp);
        HistoryIsTidy(order, Happened(n, first.op), Projected(order, s, e), x, seat, rest, last);
      }
    }
  }

  /** The picture beside x, and x at its seat. */
  ghost predicate SeatedIn(n: Space, s: State, x: nat, seat: Seat) {
    Unknown(s, x) && Seated(n, x, seat) && Faithful(n, With(s, x, Entry([PathOf(n.dirs, seat)], seat.stamp)))
  }

  lemma OwnOp(order: Listing, n: Space, s: State, x: nat, seat: Seat, op: Op, stamp: Stamp)
    requires Lists(order) && SeatedIn(n, s, x, seat) && CanHappen(n, op) && LeavesAlone(n, x, op) && op.inode == x
    ensures var e := Reported(op, stamp);
            && IsMove(e) && e.parent == seat.parent && e.name == seat.name && OldPath(s, e) == PathOf(n.dirs, seat)
            && SeatedIn(Happened(n, op), s, x, Moves(seat, e))
            && PathOf(s.dirs, Moves(seat, e)) == PathOf(Happened(n, op).dirs, Moves(seat, e))
  {
    var entry := Entry([PathOf(n.dirs, seat)], seat.stamp);
    OpIsFaithful(order, n, With(s, x, entry), op, stamp);
    MoveSeats(n, x, seat, op, stamp);
    MoveStep(order, s, x, seat, PathOf(n.dirs, seat), Reported(op, stamp));
  }

  lemma OtherOp(order: Listing, n: Space, s: State, x: nat, seat: Seat, op: Op, stamp: Stamp)
    requires Lists(order) && SeatedIn(n, s, x, seat) && CanHappen(n, op) && LeavesAlone(n, x, op) && op.inode != x
    ensures var e := Reported(op, stamp);
            && Ignores(order, s, x, Entry([PathOf(n.dirs, seat)], seat.stamp), e)
            && SeatedIn(Happened(n, op), Projected(order, s, e), x, seat)
            && PathOf(Happened(n, op).dirs, seat) == PathOf(n.dirs, seat)
  {
    var entry := Entry([PathOf(n.dirs, seat)], seat.stamp);
    OpIsFaithful(order, n, With(s, x, entry), op, stamp);
    SeatStays(n, x, seat, op);
    OpIgnores(order, n, s, x, entry, op, stamp);
    OtherStep(order, s, x, entry, Reported(op, stamp));
  }

  // ---------------------------------------------------------------- the creation last

  lemma SeatedByCreation(n: Space, op: Op, stamp: Stamp)
    requires WellFormed(n) && CanHappen(n, op) && op.MakeFile?
    ensures Seated(Happened(n, op), op.inode, SeatOf(Reported(op, stamp)))
  {
  }

  /** The histories at hand: a file is created, and after that only renamed, among operations on other inodes. */
  ghost predicate FileHistory(n: Space, create: Stamped, mid: seq<Stamped>, last: Space) {
    && create.op.MakeFile? && CanHappen(n, create.op)
    && Plays(Happened(n, create.op), mid, last) && AllLeave(Happened(n, create.op), create.op.inode, mid)
  }

  /** Such a history is tidy, and the file's last place is still what it was. */
  lemma FileHistoryIsTidy(order: Listing, n: Space, s: State, create: Stamped, mid: seq<Stamped>, last: Space)
    requires Lists(order) && Faithful(n, s) && FileHistory(n, create, mid, last)
    ensures var e := Reported(create.op, create.stamp);
            var x, seat, path := e.inode, SeatOf(e), PathOf(s.dirs, SeatOf(e));
            && Unknown(s, x) && OwnPending(s) && CreatesFile(s, e)
            && Tidy(order, s, x, seat, path, Events(mid))
            && Seated(last, x, LastSeat(seat, Events(mid), x))
            && LastPath(order, s, x, seat, path, Events(mid)) == PathOf(last.dirs, LastSeat(seat, Events(mid), x))
  {
    var e, next := Reported(create.op, create.stamp), Happened(n, create.op);
    UnnamedIsAbsent(s.inodes, n, e.inode);
    assert 0 !in n.dirs;
    Created(order, s, e);
    OpIsFaithful(order, n, s, create.op, create.stamp);
    SeatedByCreation(n, create.op, create.stamp);
    HistoryIsTidy(order, next, s, e.inode, SeatOf(e), mid, last);
  }

  /**
   * A creation reported after everything that followed it: the picture is faithful, and the same as in order, exactly
   * when the directory the file was created in still exists. Where the file went does not matter.
   */
  lemma LateCreationIff(order: Listing, n: Space, s: State, create: Stamped, mid: seq<Stamped>, last: Space)
    requires Lists(order) && Faithful(n, s) && FileHistory(n, create, mid, last)
    ensures var e := Reported(create.op, create.stamp);
            var late := ProjectedAll(order, s, Events(mid) + [e]);
            && (Faithful(last, late) <==> create.op.parent in last.dirs)
            && (late == ProjectedAll(order, s, [e] + Events(mid)) <==> create.op.parent in last.dirs)
  {
    var e := Reported(create.op, create.stamp);
    var x, es := e.inode, Events(mid);
    var inOrder, late := ProjectedAll(order, s, [e] + es), ProjectedAll(order, s, es + [e]);
    FileHistoryIsTidy(order, n, s, create, mid, last);
    InOrderIsFaithful(order, n, s, create, mid, last);
    InOrderState(order, s, e, es);
    LateCreateIff(order, s, e, es);
    LateState(order, s, e, es);
    if create.op.parent !in last.dirs {
      assert x !in late.inodes;
      var path := PathOf(last.dirs, LastSeat(SeatOf(e), es, x));
      assert path in last.names && last.names[path] == x;
      assert !Exactly(Names(late.inodes, x), last.names, x);
    }
  }

  /** Without its directory the file is absent from the map, and its renames wait for ever. */
  lemma LostForGood(order: Listing, n: Space, s: State, create: Stamped, mid: seq<Stamped>, last: Space)
    requires Lists(order) && Faithful(n, s) && FileHistory(n, create, mid, last) && create.op.parent !in last.dirs
    ensures var e := Reported(create.op, create.stamp);
            var late, rs := ProjectedAll(order, s, Events(mid) + [e]), About(Events(mid), e.inode);
            && !Faithful(last, late) && e.inode !in late.inodes
            && (rs != [] ==> late.pending == map[e.inode := rs])
  {
    var e := Reported(create.op, create.stamp);
    LateCreationIff(order, n, s, create, mid, last);
    FileHistoryIsTidy(order, n, s, create, mid, last);
    InOrderIsFaithful(order, n, s, create, mid, last);
    InOrderState(order, s, e, Events(mid));
    LateState(order, s, e, Events(mid));
  }

  lemma InOrderIsFaithful(order: Listing, n: Space, s: State, create: Stamped, mid: seq<Stamped>, last: Space)
    requires Lists(order) && Faithful(n, s) && FileHistory(n, create, mid, last)
    ensures Faithful(last, ProjectedAll(order, s, [Reported(create.op, create.stamp)] + Events(mid)))
  {
    var all := [create] + mid;
    assert all[0] == create && all[1..] == mid;
    PlayedIsFaithful(order, n, s, all, last);
    EventsCons(create, mid);
  }

  // ---------------------------------------------------------------- a directory removed in between

  const Root := Space(map[], map[1 := []], 1)
  const WithDir := Space(map[["p"] := 2], map[1 := [], 2 := ["p"]], 1)
  const WithFile := Space(map[["p"] := 2, ["p", "a"] := 3], map[1 := [], 2 := ["p"]], 1)
  const Outside := Space(map[["p"] := 2, ["b"] := 3], map[1 := [], 2 := ["p"]], 1)
  const Alone := Space(map[["b"] := 3], map[1 := []], 1)
  const MakeP := MakeDir(1, "p", 2)
  const MakeA := MakeFile(Create, 2, "a", 3)
  const MoveA := MoveFile(2, "a", 1, "b", 3)
  const RemoveP := RemoveDir(2)

  lemma DirStep()
    ensures CanHappen(Root, MakeP) && Happened(Root, MakeP) == WithDir && WellFormed(Root)
  {
    assert At(Root, 1, "p") == ["p"];
    assert Root.names[["p"] := 2] == WithDir.names && Root.dirs[2 := ["p"]] == WithDir.dirs;
  }

  lemma FileStep()
    ensures CanHappen(WithDir, MakeA) && Happened(WithDir, MakeA) == WithFile
  {
    assert At(WithDir, 2, "a") == ["p", "a"];
    assert WithDir.names[["p", "a"] := 3] == WithFile.names;
  }

  lemma MoveStepHere()
    ensures CanHappen(WithFile, MoveA) && Happened(WithFile, MoveA) == Outside && LeavesAlone(WithFile, 3, MoveA)
  {
    assert At(WithFile, 2, "a") == ["p", "a"] && At(WithFile, 1, "b") == ["b"];
    assert (WithFile.names - {["p", "a"]})[["b"] := 3] == Outside.names;
  }

  lemma RemoveStep()
    ensures CanHappen(Outside, RemoveP) && Happened(Outside, RemoveP) == Alone && LeavesAlone(Outside, 3, RemoveP)
  {
    assert Outside.dirs[2] == ["p"] && !(["p"] < ["b"]) && !(["p"] < ["p"]);
    assert Outside.names - {["p"]} == Alone.names && Outside.dirs - {2} == Alone.dirs;
  }

  /** What happens between the creation and its report. */
  function Between(stamp: Stamp): seq<Stamped> { [Stamped(MoveA, stamp), Stamped(RemoveP, stamp)] }

  /**
   * A file is created in p, renamed to the root, and p is removed. Reported as rename, rmdir, create, the file is
   * absent from the map and its rename waits for ever.
   */
  lemma RemovedDirectoryLosesFile(order: Listing, s: State, stamp: Stamp)
    requires Lists(order) && Faithful(WithDir, s)
    ensures var late := ProjectedAll(order, s, Events(Between(stamp)) + [Reported(MakeA, stamp)]);
            3 !in late.inodes && late.pending == map[3 := [Reported(MoveA, stamp)]] && !Faithful(Alone, late)
  {
    HistoryHere(stamp);
    LostForGood(order, WithDir, s, Stamped(MakeA, stamp), Between(stamp), Alone);
    AboutBetween(stamp);
  }

  lemma AboutBetween(stamp: Stamp)
    ensures About(Events(Between(stamp)), 3) == [Reported(MoveA, stamp)]
  {
    assert Events(Between(stamp)) == [Reported(MoveA, stamp), Reported(RemoveP, stamp)];
    SplitTwo(Reported(MoveA, stamp), Reported(RemoveP, stamp));
  }

  /** The directory p by itself: a state as `RemovedDirectoryLosesFile` requires it, reached from an empty root. */
  lemma DirectoryIsFaithful(order: Listing, stamp: Stamp)
    requires Lists(order)
    ensures Faithful(WithDir, Projected(order, State(map[], map[1 := []], map[]), Reported(MakeP, stamp)))
  {
    DirStep();
    OpIsFaithful(order, Root, State(map[], map[1 := []], map[]), MakeP, stamp);
  }

  lemma HistoryHere(stamp: Stamp)
    ensures FileHistory(WithDir, Stamped(MakeA, stamp), Between(stamp), Alone)
  {
    FileStep();
    MoveStepHere();
    RemoveStep();
    var mid := Between(stamp);
    assert mid[1..] == [Stamped(RemoveP, stamp)] && mid[1..][1..] == [];
    assert Plays(Outside, mid[1..], Alone) && AllLeave(Outside, 3, mid[1..]);
  }

  lemma SplitTwo(b: Event, r: Event)
    requires b.inode == 3 && r.inode == 2
    ensures About([b, r], 3) == [b]
  {
    SplitCons(b, [r], 3);
    SplitCons(r, [], 3);
    assert [b] + [r] == [b, r] && [r] + [] == [r] && [b] + [] == [b];
  }
}
