/** The coalescer around a batch: its byte counter, its flush rule and its bounded frontier. */
module Coalescer {
  import opened Bytes
  import opened Columnar
  import opened EventBatch

  const FRONTIER := 10_000

  /** The bytes that the writes among the events cover. */
  function WriteBytes(es: seq<Event>): nat {
    if es == [] then 0 else WriteLength(es[0]) + WriteBytes(es[1..])
  }

  function WriteLength(e: Event): nat { if IsWrite(e) then e.length else 0 }

  lemma {:induction false} WriteBytesAppend(a: seq<Event>, b: seq<Event>)
    ensures WriteBytes(a + b) == WriteBytes(a) + WriteBytes(b)
    decreases |a|
  {
    if a == [] {
      assert a + b == b;
    } else {
      assert (a + b)[1..] == a[1..] + b;
      WriteBytesAppend(a[1..], b);
    }
  }

  lemma {:induction false} ScanConserves(scan: Scan, es: seq<Event>, i: nat, len: nat)
    requires i <= |es|
    ensures Lengths(scan.Merged(es, i, len)) + WriteBytes(scan.Rest(es, i, len)) == WriteBytes(es[i..])
    decreases |es| - i
  {
    if i < |es| {
      assert es[i..][0] == es[i] && es[i..][1..] == es[i + 1..];
      if scan.Takes(es, i, len) {
        ScanConserves(scan, es, i + 1, len + es[i].length);
        var merged := scan.Merged(es, i + 1, len + es[i].length);
        assert ([es[i]] + merged)[1..] == merged;
      } else {
        ScanConserves(scan, es, i + 1, len);
        var rest := scan.Rest(es, i + 1, len);
        assert ([es[i]] + rest)[1..] == rest;
      }
    }
  }

  /** Merging conserves bytes: what is handed out and what is left add up to what there was. */
  lemma CoalescedConserves(es: seq<Event>, depth: nat, limit: nat)
    requires es != []
    ensures WriteLength(Coalesced(es, depth, limit).0) + WriteBytes(Coalesced(es, depth, limit).1) == WriteBytes(es)
    ensures |Coalesced(es, depth, limit).1| < |es|
  {
    if IsWrite(es[0]) {
      var scan := Scan(es[0], depth, limit);
      ScanConserves(scan, es, 1, es[0].length);
      RestIsShort(scan, es, 1, es[0].length);
    }
  }

  lemma {:induction false} RestIsShort(scan: Scan, es: seq<Event>, i: nat, len: nat)
    requires i <= |es|
    ensures |scan.Rest(es, i, len)| <= |es| - i
    decreases |es| - i
  {
    if i < |es| { RestIsShort(scan, es, i + 1, if scan.Takes(es, i, len) then len + es[i].length else len); }
  }

  // ---------------------------------------------------------------- the frontier

  function Unlinked(es: seq<Event>, n: nat): set<nat>
    requires n <= |es|
  {
    set i | 0 <= i < n && es[i].kind.Unlink? :: es[i].inode
  }

  /** Every event of an inode unlinked within the window goes, if it is within the window itself. */
  function Stays(es: seq<Event>, n: nat): nat -> bool
    requires n <= |es|
  {
    (i: nat) => i >= n || es[i].inode !in Unlinked(es, n)
  }

  function Pruned(es: seq<Event>, depth: nat): seq<Event> {
    Kept(es, Stays(es, Min(|es|, depth)), |es|)
  }

  lemma {:induction false} KeptAll(es: seq<Event>, keep: nat -> bool, n: nat)
    requires n <= |es| && forall i :: 0 <= i < n ==> keep(i)
    ensures Kept(es, keep, n) == es[..n]
  {
    if n > 0 {
      KeptAll(es, keep, n - 1);
      assert es[..n] == es[..n - 1] + [es[n - 1]];
    }
  }

  lemma {:induction false} KeptBytes(es: seq<Event>, keep: nat -> bool, n: nat)
    requires n <= |es|
    ensures WriteBytes(Kept(es, keep, n)) <= WriteBytes(es[..n])
  {
    if n > 0 {
      KeptBytes(es, keep, n - 1);
      assert es[..n] == es[..n - 1] + [es[n - 1]];
      WriteBytesAppend(es[..n - 1], [es[n - 1]]);
      WriteBytesAppend(Kept(es, keep, n - 1), [es[n - 1]]);
    }
  }

  /** Above the frontier, heads are merged and thrown away until the batch is within it. */
  function Forced(es: seq<Event>): seq<Event>
    decreases |es|
  {
    if es == [] then es
    else
      CoalescedConserves(es, |es|, WORD - 1);
      var rest := Coalesced(es, |es|, WORD - 1).1;
      if |rest| <= FRONTIER then rest else Forced(rest)
  }

  lemma {:induction false} ForcedShrinks(es: seq<Event>)
    ensures WriteBytes(Forced(es)) <= WriteBytes(es) && |Forced(es)| <= FRONTIER
    decreases |es|
  {
    if es != [] {
      CoalescedConserves(es, |es|, WORD - 1);
      var rest := Coalesced(es, |es|, WORD - 1).1;
      if |rest| > FRONTIER { ForcedShrinks(rest); }
    }
  }

  function Bounded(es: seq<Event>): seq<Event> {
    if |es| <= FRONTIER then es
    else if |Pruned(es, |es|)| <= FRONTIER then Pruned(es, |es|)
    else Forced(Pruned(es, |es|))
  }

  /** The frontier holds after every push, and only an overflow loses bytes. */
  lemma BoundedShrinks(es: seq<Event>)
    ensures |Bounded(es)| <= FRONTIER && WriteBytes(Bounded(es)) <= WriteBytes(es)
    ensures |es| <= FRONTIER ==> Bounded(es) == es
  {
    KeptBytes(es, Stays(es, |es|), |es|);
    assert es[..|es|] == es;
    ForcedShrinks(Pruned(es, |es|));
  }

  // ---------------------------------------------------------------- the counter

  /** `lost` counts the bytes that overflows threw away; it is no field of the coalescer. */
  datatype State = State(events: seq<Event>, accumulated: nat, lost: nat)

  /** A push, or a pop with its limits: a latency that has expired or not, and a target that is busy or not. */
  datatype Op = Push(e: Event) | Pop(limit: nat, expired: bool, busy: bool)

  predicate Flushes(s: State, op: Op)
    requires op.Pop?
  {
    s.events != [] && (!IsWrite(s.events[0]) || !op.busy || s.accumulated >= op.limit || op.expired)
  }

  function Monus(a: nat, b: nat): nat { if b <= a then a - b else 0 }

  function Done(depth: nat, s: State, op: Op): State {
    match op
    case Push(e) =>
      var all := s.events + [e];
      State(Bounded(all), s.accumulated + WriteLength(e), s.lost + Monus(WriteBytes(all), WriteBytes(Bounded(all))))
    case Pop(limit, _, _) =>
      if !Flushes(s, op) then s
      else
        var out := Coalesced(s.events, depth, limit);
        s.(events := out.1, accumulated := Monus(s.accumulated, WriteLength(out.0)))
  }

  function RunOps(depth: nat, ops: seq<Op>): State {
    if ops == [] then State([], 0, 0) else Done(depth, RunOps(depth, ops[..|ops| - 1]), ops[|ops| - 1])
  }

  ghost predicate Counts(s: State) {
    s.accumulated == WriteBytes(s.events) + s.lost && |s.events| <= FRONTIER
  }

  lemma OpKeepsCount(depth: nat, s: State, op: Op)
    requires Counts(s)
    ensures Counts(Done(depth, s, op))
    ensures op.Push? && |s.events| < FRONTIER ==> Done(depth, s, op).lost == s.lost
    ensures op.Pop? && Flushes(s, op) ==> WriteLength(Coalesced(s.events, depth, op.limit).0) <= s.accumulated
  {
    match op
    case Push(e) =>
      var all := s.events + [e];
      WriteBytesAppend(s.events, [e]);
      assert WriteBytes([e]) == WriteLength(e) + WriteBytes([e][1..]);
      BoundedShrinks(all);
    case Pop(limit, _, _) =>
      if Flushes(s, op) { CoalescedConserves(s.events, depth, limit); }
  }

  /**
   * Over every run the counter is the pending write bytes plus what overflows threw away, its saturating
   * subtraction never saturates, and the batch stays within the frontier.
   */
  lemma {:induction false} RunKeepsCount(depth: nat, ops: seq<Op>)
    ensures Counts(RunOps(depth, ops))
  {
    if ops != [] {
      RunKeepsCount(depth, ops[..|ops| - 1]);
      OpKeepsCount(depth, RunOps(depth, ops[..|ops| - 1]), ops[|ops| - 1]);
    }
  }

  // ---------------------------------------------------------------- the object

  class Writer {
    const batch: Batch
    const scanDepth: nat
    var accumulated: nat
    ghost var lost: nat

    ghost predicate Valid()
      reads this, batch
    {
      batch.Valid()
    }

    ghost function View(): State
      reads this, batch
    {
      State(batch.events, accumulated, lost)
    }

    constructor (scanDepth: nat)
      ensures Valid() && fresh(batch) && View() == State([], 0, 0) && this.scanDepth == scanDepth
    {
      batch := new Batch();
      this.scanDepth := scanDepth;
      accumulated, lost := 0, 0;
    }

    method Push(e: Event)
      requires Valid()
      modifies this, batch
      ensures Valid() && View() == Done(scanDepth, old(View()), Op.Push(e))
    {
      if IsWrite(e) { accumulated := accumulated + e.length; }
      batch.Push(e);
      ghost var all := batch.events;
      if batch.nextIndex > FRONTIER {
        Prune(batch.nextIndex);
        if batch.nextIndex > FRONTIER { Force(); }
      }
      lost := lost + Monus(WriteBytes(all), WriteBytes(batch.events));
      assert WriteLength(e) == if IsWrite(e) then e.length else 0;
    }

    method Prune(depth: nat)
      requires Valid()
      modifies batch
      ensures Valid() && batch.events == Pruned(old(batch.events), depth)
    {
      var scanLen := Min(batch.nextIndex, depth);
      var unlinked: set<nat> := {};
      for i := 0 to scanLen
        invariant unlinked == Unlinked(batch.events, i)
      {
        assert Unlinked(batch.events, i + 1)
            == Unlinked(batch.events, i) + (if batch.events[i].kind.Unlink? then {batch.events[i].inode} else {});
        if batch.types[i].Unlink? { unlinked := unlinked + {batch.inodes[i]}; }
      }
      if unlinked == {} {
        KeptAll(batch.events, Stays(batch.events, scanLen), |batch.events|);
        assert batch.events[..|batch.events|] == batch.events;
        return;
      }
      batch.Retain(Stays(batch.events, scanLen));
    }

    method Force()
      requires Valid()
      modifies batch
      ensures Valid() && batch.events == Forced(old(batch.events))
    {
      while true
        invariant Valid() && Forced(batch.events) == Forced(old(batch.events))
        decreases |batch.events|
      {
        ghost var es := batch.events;
        if es != [] { CoalescedConserves(es, |es|, WORD - 1); }
        var head := batch.TryCoalesceHead(batch.nextIndex, WORD - 1);
        if head.None? { break; }
        if batch.nextIndex <= FRONTIER {
          assert batch.events == Forced(old(batch.events));
          return;
        }
      }
    }

    method PopBatch(limit: nat, expired: bool, busy: bool) returns (event: Option<Event>)
      requires Valid()
      modifies this, batch
      ensures Valid() && View() == Done(scanDepth, old(View()), Op.Pop(limit, expired, busy))
      ensures event == if !Flushes(old(View()), Op.Pop(limit, expired, busy)) then None
                       else Some(Coalesced(old(batch.events), scanDepth, limit).0)
    {
      if batch.nextIndex == 0 { return None; }
      if !(batch.types[0].Write? || batch.types[0].WriteRange?) {
        event := batch.PopFront();
        return;
      }
      if busy && !(accumulated >= limit) && !expired { return None; }
      event := batch.TryCoalesceHead(scanDepth, limit);
      accumulated := Monus(accumulated, event.value.length);
    }
  }
}
