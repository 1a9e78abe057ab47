/** Renames that overtake the creation of their inode wait for it, and are played when it comes. */
module DeferredRename {
  import opened Bytes
  import opened Projector

  function About(es: seq<Event>, inode: nat): seq<Event> {
    if es == [] then []
    else
      var init, last := es[..|es| - 1], es[|es| - 1];
      if last.inode == inode then About(init, inode) + [last] else About(init, inode)
  }

  function Others(es: seq<Event>, inode: nat): seq<Event> {
    if es == [] then []
    else
      var init, last := es[..|es| - 1], es[|es| - 1];
      if last.inode == inode then Others(init, inode) else Others(init, inode) + [last]
  }

  /** The same state with these renames waiting for the inode. */
  function Waiting(s: State, inode: nat, rs: seq<Event>): State {
    if rs == [] then s else s.(pending := s.pending[inode := rs])
  }

  /** Nothing is known about the inode, and what waits, waits for its own inode. */
  ghost predicate Unknown(s: State, inode: nat) {
    inode !in s.inodes && inode !in s.pending
  }

  ghost predicate OwnPending(s: State) {
    forall k, i :: k in s.pending && 0 <= i < |s.pending[k]| ==> s.pending[k][i].inode == k
  }

  /** A rename about another inode neither sees nor touches what waits for this one. */
  lemma RenameApart(order: Listing, s: State, e: Event, inode: nat, rs: seq<Event>)
    requires Unknown(s, inode) && OwnPending(s) && e.inode != inode
    ensures Renamed(order, Waiting(s, inode, rs), e) == Waiting(Renamed(order, s, e), inode, rs)
    ensures Unknown(Renamed(order, s, e), inode) && OwnPending(Renamed(order, s, e))
  {
    if e.inode !in s.inodes {
      DeferApart(s, e, inode, rs);
    } else if e.newName.Some? {
      MoveApart(s, e, OldPath(s, e), NewPath(s, e), Owner(s.inodes, order(s.inodes.Keys), NewPath(s, e)), inode, rs);
    }
  }

  /** Moving and exchanging leave alone what waits, and make no other inode known. */
  lemma MoveApart(s: State, e: Event, a: Path, b: Path, other: Option<nat>, inode: nat, rs: seq<Event>)
    requires inode !in s.inodes && e.inode != inode
    ensures Moved(Waiting(s, inode, rs), e, a, b) == Waiting(Moved(s, e, a, b), inode, rs)
    ensures Exchanged(Waiting(s, inode, rs), e, a, b, other) == Waiting(Exchanged(s, e, a, b, other), inode, rs)
    ensures inode !in Moved(s, e, a, b).inodes && inode !in Exchanged(s, e, a, b, other).inodes
    ensures Moved(s, e, a, b).pending == Exchanged(s, e, a, b, other).pending == s.pending
  {
  }

  lemma DeferApart(s: State, e: Event, inode: nat, rs: seq<Event>)
    requires Unknown(s, inode) && OwnPending(s) && e.inode != inode
    ensures Deferred(Waiting(s, inode, rs), e) == Waiting(Deferred(s, e), inode, rs)
    ensures Unknown(Deferred(s, e), inode) && OwnPending(Deferred(s, e))
  {
    var waiting := (if e.inode in s.pending then s.pending[e.inode] else []) + [e];
    if rs != [] {
      assert s.pending[inode := rs][e.inode := waiting] == s.pending[e.inode := waiting][inode := rs];
    }
  }

  lemma {:induction false} ReplayApart(order: Listing, s: State, es: seq<Event>, inode: nat, rs: seq<Event>)
    requires Unknown(s, inode) && OwnPending(s) && forall i :: 0 <= i < |es| ==> es[i].inode != inode
    ensures Replayed(order, Waiting(s, inode, rs), es) == Waiting(Replayed(order, s, es), inode, rs)
    ensures Unknown(Replayed(order, s, es), inode) && OwnPending(Replayed(order, s, es))
    decreases |es|
  {
    if es != [] {
      RenameApart(order, s, es[0], inode, rs);
      ReplayApart(order, Renamed(order, s, es[0]), es[1..], inode, rs);
    }
  }

  lemma CreateApart(order: Listing, s: State, e: Event, inode: nat, rs: seq<Event>)
    requires Unknown(s, inode) && OwnPending(s) && e.inode != inode && Creates(e)
    ensures Projected(order, Waiting(s, inode, rs), e) == Waiting(Projected(order, s, e), inode, rs)
    ensures Unknown(Projected(order, s, e), inode) && OwnPending(Projected(order, s, e))
  {
    var t := Entered(s, e);
    var t1 := t.(pending := t.pending - {e.inode});
    var waiting := if e.inode in s.pending then s.pending[e.inode] else [];
    assert Entered(Waiting(s, inode, rs), e) == Waiting(t, inode, rs);
    assert rs != [] ==> t.pending[inode := rs] - {e.inode} == (t.pending - {e.inode})[inode := rs];
    ReplayApart(order, t1, waiting, inode, rs);
  }

  lemma EventApart(order: Listing, s: State, e: Event, inode: nat, rs: seq<Event>)
    requires Unknown(s, inode) && OwnPending(s) && e.inode != inode
    ensures Projected(order, Waiting(s, inode, rs), e) == Waiting(Projected(order, s, e), inode, rs)
    ensures Unknown(Projected(order, s, e), inode) && OwnPending(Projected(order, s, e))
  {
    if Creates(e) {
      CreateApart(order, s, e, inode, rs);
    } else if e.kind == Rename {
      RenameApart(order, s, e, inode, rs);
    }
  }

  lemma OneMoreWaits(order: Listing, t: State, e: Event, rs: seq<Event>)
    requires Unknown(t, e.inode) && e.kind == Rename
    ensures Projected(order, Waiting(t, e.inode, rs), e) == Waiting(t, e.inode, rs + [e])
  {
    assert t.pending[e.inode := rs][e.inode := rs + [e]] == t.pending[e.inode := rs + [e]];
    assert [] + [e] == [e];
  }

  /** Until its creation an inode's renames just pile up. */
  lemma {:induction false} RenamesPileUp(order: Listing, s: State, es: seq<Event>, inode: nat)
    requires Unknown(s, inode) && OwnPending(s)
    requires forall i :: 0 <= i < |es| && es[i].inode == inode ==> es[i].kind == Rename
    ensures var t := ProjectedAll(order, s, Others(es, inode));
            && Unknown(t, inode) && OwnPending(t)
            && ProjectedAll(order, s, es) == Waiting(t, inode, About(es, inode))
  {
    if es != [] {
      var init, last := es[..|es| - 1], es[|es| - 1];
      RenamesPileUp(order, s, init, inode);
      var t := ProjectedAll(order, s, Others(init, inode));
      if last.inode == inode {
        OneMoreWaits(order, t, last, About(init, inode));
      } else {
        var others := Others(init, inode);
        assert ProjectedAll(order, s, others + [last]) == Projected(order, t, last) by {
          assert (others + [last])[..|others|] == others;
        }
        EventApart(order, t, last, inode, About(init, inode));
      }
    }
  }

  lemma {:induction false} ReplayIsProjection(order: Listing, s: State, es: seq<Event>)
    requires forall i :: 0 <= i < |es| ==> es[i].kind == Rename
    ensures Replayed(order, s, es) == ProjectedAll(order, s, es)
    decreases |es|
  {
    if es != [] {
      var init, last := es[..|es| - 1], es[|es| - 1];
      ReplayIsProjection(order, s, init);
      ReplayAppend(order, s, init, [last]);
      assert init + [last] == es;
      var t := Replayed(order, s, init);
      assert Replayed(order, t, [last]) == Replayed(order, Renamed(order, t, last), [last][1..]);
    }
  }

  lemma {:induction false} ReplayAppend(order: Listing, s: State, a: seq<Event>, b: seq<Event>)
    ensures Replayed(order, s, a + b) == Replayed(order, Replayed(order, s, a), b)
    decreases |a|
  {
    if a == [] {
      assert a + b == b;
    } else {
      assert (a + b)[1..] == a[1..] + b;
      ReplayAppend(order, Renamed(order, s, a[0]), a[1..], b);
    }
  }

  lemma {:induction false} ProjectedAppend(order: Listing, s: State, a: seq<Event>, b: seq<Event>)
    ensures ProjectedAll(order, s, a + b) == ProjectedAll(order, ProjectedAll(order, s, a), b)
    decreases |b|
  {
    if b == [] {
      assert a + b == a;
    } else {
      assert (a + b)[..|a + b| - 1] == a + b[..|b| - 1];
      ProjectedAppend(order, s, a, b[..|b| - 1]);
    }
  }

  lemma {:induction false} AboutAreRenames(es: seq<Event>, inode: nat)
    requires forall i :: 0 <= i < |es| && es[i].inode == inode ==> es[i].kind == Rename
    ensures forall i :: 0 <= i < |About(es, inode)| ==> About(es, inode)[i].kind == Rename
  {
    if es != [] { AboutAreRenames(es[..|es| - 1], inode); }
  }

  /**
   * However many renames of an inode arrive before its creation, and whatever else happens in between, the maps
   * end as if the other events had come first, then the creation, and the renames after it in their own order.
   */
  lemma EarlyRenames(order: Listing, s: State, es: seq<Event>, create: Event)
    requires Unknown(s, create.inode) && OwnPending(s) && Creates(create)
    requires forall i :: 0 <= i < |es| && es[i].inode == create.inode ==> es[i].kind == Rename
    ensures ProjectedAll(order, s, es + [create])
            == ProjectedAll(order, s, Others(es, create.inode) + [create] + About(es, create.inode))
  {
    var inode := create.inode;
    var others, rs := Others(es, inode), About(es, inode);
    RenamesPileUp(order, s, es, inode);
    AboutAreRenames(es, inode);
    var t := ProjectedAll(order, s, others);
    assert (es + [create])[..|es|] == es;
    assert ProjectedAll(order, s, es + [create]) == Projected(order, Waiting(t, inode, rs), create);
    assert (others + [create])[..|others|] == others;
    ProjectedAppend(order, s, others + [create], rs);
    EarlyCreate(order, t, create, rs);
  }

  lemma EarlyCreate(order: Listing, t: State, create: Event, rs: seq<Event>)
    requires Unknown(t, create.inode) && Creates(create)
    requires forall i :: 0 <= i < |rs| ==> rs[i].kind == Rename
    ensures Projected(order, Waiting(t, create.inode, rs), create)
            == ProjectedAll(order, Projected(order, t, create), rs)
  {
    CreateReplays(order, t, create, []);
    CreateReplays(order, t, create, rs);
    ReplayIsProjection(order, Entered(t, create), rs);
    assert Replayed(order, Entered(t, create), []) == Entered(t, create);
  }

  /** Creation enters the inode, then plays what waited for it. */
  lemma CreateReplays(order: Listing, t: State, create: Event, rs: seq<Event>)
    requires Unknown(t, create.inode) && Creates(create)
    ensures Projected(order, Waiting(t, create.inode, rs), create) == Replayed(order, Entered(t, create), rs)
  {
    var w := Waiting(t, create.inode, rs);
    var late := Entered(w, create);
    assert late.pending == w.pending;
    assert late.(pending := late.pending - {create.inode}) == Entered(t, create) by {
      assert w.pending - {create.inode} == t.pending;
      assert Entered(t, create).pending == t.pending;
    }
    assert (if create.inode in late.pending then late.pending[create.inode] else []) == rs;
  }
}
