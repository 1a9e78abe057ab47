/** When the coalescer holds a write back, what pruning takes out, and what an overflow of the frontier costs. */
module CoalescerRules {
  import opened Bytes
  import opened Columnar
  import opened EventBatch
  import opened Coalescer

  // ---------------------------------------------------------------- the flush rule

  /**
   * Over every run: a pop from a batch with something in it hands nothing out exactly when the head is a write, the
   * target is busy, the latency has not expired, and the pending bytes with those lost are below the limit.
   */
  lemma HeldBackIff(depth: nat, ops: seq<Op>, limit: nat, expired: bool, busy: bool)
    requires RunOps(depth, ops).events != []
    ensures var s := RunOps(depth, ops);
            var t := Done(depth, s, Op.Pop(limit, expired, busy));
            if busy && !expired && (s.events[0].kind == Write || s.events[0].kind == WriteRange)
               && WriteBytes(s.events) + s.lost < limit
            then t == s
            else |t.events| < |s.events| && t.events == Coalesced(s.events, depth, limit).1
  {
    RunKeepsCount(depth, ops);
    CoalescedConserves(RunOps(depth, ops).events, depth, limit);
  }

  // ---------------------------------------------------------------- pruning

  /** The inode of row i is unlinked by one of the first n rows. */
  ghost predicate GoesBy(es: seq<Event>, n: nat, i: nat)
    requires n <= |es| && i < |es|
  {
    exists j :: 0 <= j < n && es[j].kind == Unlink && es[j].inode == es[i].inode
  }

  lemma StaysIff(es: seq<Event>, n: nat, i: nat)
    requires n <= |es| && i < |es|
    ensures Stays(es, n)(i) <==> n <= i || !GoesBy(es, n, i)
  {
    if GoesBy(es, n, i) {
      var j :| 0 <= j < n && es[j].kind == Unlink && es[j].inode == es[i].inode;
      assert es[j].inode in Unlinked(es, n);
    }
  }

  /** The indices kept among the first n, in order. */
  function Indices(keep: nat -> bool, n: nat): (from: seq<nat>)
    ensures forall k :: 0 <= k < |from| ==> from[k] < n && keep(from[k])
  {
    if n == 0 then [] else if keep(n - 1) then Indices(keep, n - 1) + [n - 1] else Indices(keep, n - 1)
  }

  lemma {:induction false} IndicesIncrease(keep: nat -> bool, n: nat)
    ensures forall k, m :: 0 <= k < m < |Indices(keep, n)| ==> Indices(keep, n)[k] < Indices(keep, n)[m]
  {
    if n > 0 { IndicesIncrease(keep, n - 1); }
  }

  lemma {:induction false} AllIndices(keep: nat -> bool, n: nat, i: nat)
    requires i < n && keep(i)
    ensures i in Indices(keep, n)
  {
    if i < n - 1 { AllIndices(keep, n - 1, i); }
  }

  lemma {:induction false} KeptByIndex(es: seq<Event>, keep: nat -> bool, n: nat)
    requires n <= |es|
    ensures |Kept(es, keep, n)| == |Indices(keep, n)|
    ensures forall k :: 0 <= k < |Indices(keep, n)| ==> Kept(es, keep, n)[k] == es[Indices(keep, n)[k]]
  {
    if n > 0 { KeptByIndex(es, keep, n - 1); }
  }

  /**
   * Pruning with a window keeps, in order, exactly the rows beyond the window and those whose inode no row of the
   * window unlinks.
   */
  lemma PrunedIff(es: seq<Event>, depth: nat) returns (from: seq<nat>)
    ensures |from| == |Pruned(es, depth)|
    ensures forall k :: 0 <= k < |from| ==> from[k] < |es| && Pruned(es, depth)[k] == es[from[k]]
    ensures forall k, m :: 0 <= k < m < |from| ==> from[k] < from[m]
    ensures forall i: nat :: i < |es| ==> (i in from <==> depth <= i || !GoesBy(es, Min(|es|, depth), i))
  {
    var n := Min(|es|, depth);
    var stays := Stays(es, n);
    from := Indices(stays, |es|);
    KeptByIndex(es, stays, |es|);
    IndicesIncrease(stays, |es|);
    forall i: nat | i < |es| ensures i in from <==> depth <= i || !GoesBy(es, n, i) {
      StaysIff(es, n, i);
      if stays(i) { AllIndices(stays, |es|, i); }
    }
  }

  // ---------------------------------------------------------------- overflow

  /** Nothing is unlinked in the batch. */
  ghost predicate NoUnlink(es: seq<Event>) { forall i :: 0 <= i < |es| ==> es[i].kind != Unlink }

  lemma {:induction false} KeptIsShort(es: seq<Event>, keep: nat -> bool, n: nat)
    requires n <= |es|
    ensures |Kept(es, keep, n)| <= n && ((exists i :: 0 <= i < n && !keep(i)) ==> |Kept(es, keep, n)| < n)
  {
    if n > 0 { KeptIsShort(es, keep, n - 1); }
  }

  /**
   * One event over the frontier: if anything is unlinked in the batch, the events of unlinked inodes go; otherwise
   * the head goes, with what merges with it, and nothing else.
   */
  lemma OverflowCosts(es: seq<Event>)
    requires |es| == FRONTIER + 1
    ensures Bounded(es) == if NoUnlink(es) then Coalesced(es, |es|, WORD - 1).1 else Pruned(es, |es|)
  {
    var stays := Stays(es, |es|);
    assert es[..|es|] == es;
    if NoUnlink(es) {
      forall i | 0 <= i < |es| ensures stays(i) { StaysIff(es, |es|, i); }
      KeptAll(es, stays, |es|);
      CoalescedConserves(es, |es|, WORD - 1);
    } else {
      var i :| 0 <= i < |es| && es[i].kind == Unlink;
      StaysIff(es, |es|, i);
      KeptIsShort(es, stays, |es|);
    }
  }

  /** Over every run a push costs no more than that, and nothing below the frontier. */
  lemma PushCosts(depth: nat, ops: seq<Op>, e: Event)
    ensures var all := RunOps(depth, ops).events + [e];
            Done(depth, RunOps(depth, ops), Op.Push(e)).events
            == if |all| <= 10_000 then all
               else if NoUnlink(all) then Coalesced(all, |all|, WORD - 1).1 else Pruned(all, |all|)
  {
    RunKeepsCount(depth, ops);
    var all := RunOps(depth, ops).events + [e];
    if |all| > FRONTIER { OverflowCosts(all); }
  }
}
