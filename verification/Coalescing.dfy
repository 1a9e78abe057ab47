/** What coalescing does to the bytes of a file whose writes copy from the source: exactly which bytes it can change. */
module Coalescing {
  import opened Bytes
  import opened Columnar

  /** Some write among the events, about this file, covers byte p. */
  ghost predicate Rewritten(es: seq<Event>, inode: nat, p: nat) {
    exists i :: 0 <= i < |es| && Covers(es[i], inode, p)
  }

  predicate Covers(e: Event, inode: nat, p: nat) {
    e.inode == inode && IsWrite(e) && e.offset <= p < e.offset + e.length
  }

  /**
   * Some event of the head's inode other than a write is passed by a merged write that covers p, and no write left
   * behind it rewrites p.
   */
  ghost predicate Spoiled(scan: Scan, es: seq<Event>, i: nat, len: nat, p: nat)
    requires i <= |es|
    decreases |es| - i
  {
    if i == |es| then false
    else if scan.Takes(es, i, len) then Spoiled(scan, es, i + 1, len + es[i].length, p)
    else PassedAt(scan, es, i, len, p) || Spoiled(scan, es, i + 1, len, p)
  }

  ghost predicate PassedAt(scan: Scan, es: seq<Event>, i: nat, len: nat, p: nat)
    requires i < |es|
  {
    && es[i].inode == scan.head.inode && !IsWrite(es[i])
    && Rewritten(scan.Merged(es, i + 1, len), scan.head.inode, p)
    && !Rewritten(scan.Rest(es, i + 1, len), scan.head.inode, p)
  }

  lemma RewrittenCons(e: Event, es: seq<Event>, inode: nat, p: nat)
    ensures Rewritten([e] + es, inode, p) <==> Covers(e, inode, p) || Rewritten(es, inode, p)
  {
    var all := [e] + es;
    assert all[0] == e && forall i :: 0 <= i < |es| ==> all[i + 1] == es[i];
    if Rewritten(es, inode, p) {
      var i :| 0 <= i < |es| && Covers(es[i], inode, p);
      assert Covers(all[i + 1], inode, p);
    }
  }

  // ---------------------------------------------------------------- bytes that keep their value

  /** Writes alone give the source's byte, or leave it. */
  lemma {:induction false} WritesCopy(src: nat -> byte, other: (Event, byte) -> byte, p: nat, es: seq<Event>,
      inode: nat, b: byte)
    requires AllWrites(es, inode)
    ensures After(Copying(src, other, p), es, inode, b) == if Rewritten(es, inode, p) then src(p) else b
    decreases |es|
  {
    if es != [] {
      assert es == [es[0]] + es[1..];
      RewrittenCons(es[0], es[1..], inode, p);
      WritesCopy(src, other, p, es[1..], inode, Copying(src, other, p)(es[0], b));
    }
  }

  /** After a write over p, what was there before does not matter. */
  lemma {:induction false} Forgets(src: nat -> byte, other: (Event, byte) -> byte, p: nat, es: seq<Event>, inode: nat,
                                   a: byte, b: byte)
    requires Rewritten(es, inode, p)
    ensures After(Copying(src, other, p), es, inode, a) == After(Copying(src, other, p), es, inode, b)
    decreases |es|
  {
    var act := Copying(src, other, p);
    assert es == [es[0]] + es[1..];
    RewrittenCons(es[0], es[1..], inode, p);
    if !Covers(es[0], inode, p) {
      Forgets(src, other, p, es[1..], inode, if es[0].inode == inode then act(es[0], a) else a,
              if es[0].inode == inode then act(es[0], b) else b);
    }
  }

  /** Pulling the merged writes to the front keeps every byte that is not spoiled. */
  lemma {:induction false} PullKeeps(src: nat -> byte, other: (Event, byte) -> byte, p: nat, scan: Scan, es: seq<Event>,
                                     i: nat, len: nat, b: byte)
    requires i <= |es| && !Spoiled(scan, es, i, len, p)
    ensures var act, inode := Copying(src, other, p), scan.head.inode;
            After(act, scan.Rest(es, i, len), inode, After(act, scan.Merged(es, i, len), inode, b))
            == After(act, es[i..], inode, b)
    decreases |es| - i
  {
    if i < |es| {
      var act, inode, e := Copying(src, other, p), scan.head.inode, es[i];
      var g: byte := if e.inode == inode then act(e, b) else b;
      assert es[i..][0] == e && es[i..][1..] == es[i + 1..];
      if scan.Takes(es, i, len) {
        PullKeeps(src, other, p, scan, es, i + 1, len + e.length, g);
        var merged := scan.Merged(es, i + 1, len + e.length);
        assert ([e] + merged)[1..] == merged;
      } else {
        PullKeeps(src, other, p, scan, es, i + 1, len, g);
        var merged, rest := scan.Merged(es, i + 1, len), scan.Rest(es, i + 1, len);
        assert ([e] + rest)[1..] == rest;
        MergedAreWrites(scan, es, i + 1, len);
        WritesCopy(src, other, p, merged, inode, b);
        WritesCopy(src, other, p, merged, inode, g);
        var before: byte, after: byte := After(act, merged, inode, b), After(act, merged, inode, g);
        var now: byte := if e.inode == inode then act(e, before) else before;
        if e.inode == inode && !IsWrite(e) && Rewritten(merged, inode, p) {
          Forgets(src, other, p, rest, inode, now, after);
        } else {
          assert now == after;
        }
      }
    }
  }

  /** The outcome for one byte, coalesced and not. */
  ghost predicate Same(es: seq<Event>, depth: nat, limit: nat, p: nat, src: nat -> byte, other: (Event, byte) -> byte,
      b: byte)
    requires es != []
  {
    var act, inode, r := Copying(src, other, p), es[0].inode, Coalesced(es, depth, limit);
    After(act, [r.0] + r.1, inode, b) == After(act, es, inode, b)
  }

  lemma UnspoiledIsSame(es: seq<Event>, depth: nat, limit: nat, p: nat, src: nat -> byte,
      other: (Event, byte) -> byte, b: byte)
    requires es != [] && IsWrite(es[0]) && !Spoiled(Scan(es[0], depth, limit), es, 1, es[0].length, p)
    ensures Same(es, depth, limit, p, src, other, b)
  {
    var act, head, scan := Copying(src, other, p), es[0], Scan(es[0], depth, limit);
    var merged, r := scan.Merged(es, 1, head.length), Coalesced(es, depth, limit);
    assert ([r.0] + r.1)[1..] == r.1;
    CopyingIsLawful(src, other, p);
    MergedIsContiguous(scan, es, 1, head.length);
    RunIsOneWrite(act, head, merged, b);
    PullKeeps(src, other, p, scan, es, 1, head.length, act(head, b));
  }

  // ---------------------------------------------------------------- bytes that do not

  /** The source is full of ones; the event x, a truncation say, clears the byte, and no other event does. */
  function Clearing(x: Event): (Event, byte) -> byte { (e: Event, b: byte) => if e == x then 0 else b }

  const Ones: nat -> byte := (p: nat) => 1

  lemma {:induction false} EndsAtOne(x: Event, p: nat, es: seq<Event>, inode: nat, b: byte)
    requires x !in es && (b == 1 || Rewritten(es, inode, p))
    ensures After(Copying(Ones, Clearing(x), p), es, inode, b) == 1
    decreases |es|
  {
    if es != [] {
      var act := Copying(Ones, Clearing(x), p);
      assert es == [es[0]] + es[1..];
      RewrittenCons(es[0], es[1..], inode, p);
      EndsAtOne(x, p, es[1..], inode, if es[0].inode == inode then act(es[0], b) else b);
    }
  }

  lemma {:induction false} StaysZero(x: Event, p: nat, es: seq<Event>, inode: nat)
    requires !Rewritten(es, inode, p)
    ensures After(Copying(Ones, Clearing(x), p), es, inode, 0) == 0
    decreases |es|
  {
    if es != [] {
      assert es == [es[0]] + es[1..];
      RewrittenCons(es[0], es[1..], inode, p);
      StaysZero(x, p, es[1..], inode);
    }
  }

  lemma {:induction false} MergedWereThere(scan: Scan, es: seq<Event>, i: nat, len: nat, p: nat)
    requires i <= |es| && Rewritten(scan.Merged(es, i, len), scan.head.inode, p)
    ensures Rewritten(es[i..], scan.head.inode, p)
    decreases |es| - i
  {
    if i < |es| {
      assert es[i..] == [es[i]] + es[i + 1..];
      RewrittenCons(es[i], es[i + 1..], scan.head.inode, p);
      if scan.Takes(es, i, len) {
        var merged := scan.Merged(es, i + 1, len + es[i].length);
        RewrittenCons(es[i], merged, scan.head.inode, p);
        if Rewritten(merged, scan.head.inode, p) { MergedWereThere(scan, es, i + 1, len + es[i].length, p); }
      } else {
        MergedWereThere(scan, es, i + 1, len, p);
      }
    }
  }

  /** The event that tells the two orders apart. */
  lemma {:induction false} Witness(scan: Scan, es: seq<Event>, i: nat, len: nat, p: nat) returns (x: Event)
    requires i <= |es| && NoDup(es) && Spoiled(scan, es, i, len, p)
    ensures !IsWrite(x)
    ensures forall b :: After(Copying(Ones, Clearing(x), p), scan.Rest(es, i, len), scan.head.inode, b) == 0
    ensures forall b :: After(Copying(Ones, Clearing(x), p), es[i..], scan.head.inode, b) == 1
    decreases |es| - i
  {
    var inode, e := scan.head.inode, es[i];
    assert es[i..][0] == e && es[i..][1..] == es[i + 1..];
    if scan.Takes(es, i, len) {
      x := Witness(scan, es, i + 1, len + e.length, p);
    } else {
      var rest := scan.Rest(es, i + 1, len);
      assert ([e] + rest)[0] == e && ([e] + rest)[1..] == rest;
      if PassedAt(scan, es, i, len, p) {
        x := e;
        assert x !in es[i + 1..] by { assert forall j :: i < j < |es| ==> es[j] != es[i]; }
        MergedWereThere(scan, es, i + 1, len, p);
        StaysZero(x, p, rest, inode);
        EndsAtOne(x, p, es[i + 1..], inode, 0);
      } else {
        x := Witness(scan, es, i + 1, len, p);
      }
    }
  }

  lemma SpoiledIsNotSame(es: seq<Event>, depth: nat, limit: nat, p: nat, b: byte) returns (x: Event)
    requires es != [] && NoDup(es) && IsWrite(es[0]) && Spoiled(Scan(es[0], depth, limit), es, 1, es[0].length, p)
    ensures !Same(es, depth, limit, p, Ones, Clearing(x), b)
  {
    var scan, r := Scan(es[0], depth, limit), Coalesced(es, depth, limit);
    x := Witness(scan, es, 1, es[0].length, p);
    var act, inode := Copying(Ones, Clearing(x), p), es[0].inode;
    var merged: byte, head: byte := act(r.0, b), act(es[0], b);
    assert ([r.0] + r.1)[0] == r.0 && ([r.0] + r.1)[1..] == r.1;
    assert After(act, r.1, inode, merged) == 0;
    assert After(act, es[1..], inode, head) == 1;
  }

  /**
   * For writes that copy from the source, coalescing leaves byte p as separate application would, for every source and
   * whatever the other events do to it, exactly when p is not spoiled.
   */
  lemma CopyingIff(es: seq<Event>, depth: nat, limit: nat, p: nat)
    requires es != [] && NoDup(es) && IsWrite(es[0])
    ensures (forall src, other, b :: Same(es, depth, limit, p, src, other, b))
            <==> !Spoiled(Scan(es[0], depth, limit), es, 1, es[0].length, p)
  {
    if Spoiled(Scan(es[0], depth, limit), es, 1, es[0].length, p) {
      var x := SpoiledIsNotSame(es, depth, limit, p, 0);
    } else {
      forall src, other, b ensures Same(es, depth, limit, p, src, other, b) {
        UnspoiledIsSame(es, depth, limit, p, src, other, b);
      }
    }
  }
}
