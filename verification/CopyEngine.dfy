/**
 * The io_uring copy engine: one data segment is copied through a pool of buffers by reads and writes that the
 * kernel completes in any order, with linked pairs, hole punching for zero blocks and retried atomic writes.
 */
module CopyEngine {
  import opened Bytes
  import opened BufferPool

  const PUNCH_MIN := 16 * 1024

  /**
   * One call: the source bytes, the range, the pool (a stack, or a queue when shared) and the modes. `atomicMin`
   * and `atomicMax` are the target's limits for atomic writes.
   */
  datatype Config = Config(src: seq<byte>, start: nat, total: nat, capacity: nat, limit: nat, chunkSize: nat,
                           zeroBlocks: bool, shared: bool, atomic: bool, atomicMin: nat, atomicMax: nat)
  {
    ghost predicate Valid() {
      && start + total <= |src| && 0 < chunkSize && 0 < limit <= capacity
    }
    /** Reads and writes are linked unless zero blocks are looked for or writes are atomic. */
    predicate Linked() { !zeroBlocks && !atomic }
  }

  /** Where the operations on one buffer are: submitted to the kernel, or posted as completions not yet reaped. */
  datatype Phase =
    | ReadSubmitted
    | ReadPosted(n: nat)
    | ReadInterrupted
    | WriteSubmitted(n: nat)
    | WritePosted(n: nat, w: nat)
    | WriteInterrupted(n: nat)
    | WriteRefused(n: nat)
    | PunchSubmitted(n: nat)
    | PunchPosted(n: nat)
    | PunchInterrupted(n: nat)
    | PairSubmitted                    // linked read and write
    | PairReadPosted                   // the read is done, the write is running
    | PairBothPosted(w: nat)
    | PairWriteInterrupted
    | PairBroken                       // a short or interrupted read: the write was cancelled
    | CancelPosted                     // ... and only the cancelled write is left to reap

  /** A buffer in use: its range, its contents, its length field and whether an atomic write is intended. */
  datatype Slot = Slot(off: nat, len: nat, data: seq<byte>, bufLen: nat, atomic: bool, phase: Phase)

  /**
   * `dst` is the destination's image: its bytes, with zeros beyond its end up to the end of the range. The file
   * itself is dst[..size]; a write past the end extends it, a hole punch never does.
   */
  datatype State = State(dst: seq<byte>, size: nat, free: seq<nat>, slots: seq<Option<Slot>>, offset: nat, length: nat,
                         inflight: int, processed: nat, missed: nat, leaked: set<nat>)

  // ---------------------------------------------------------------- the kernel

  /** How the kernel completes an operation: n bytes transferred, interrupted, or an atomic write refused. */
  datatype Outcome = Transferred(n: nat) | Interrupted | Refused

  predicate CanComplete(s: Slot, o: Outcome) {
    match s.phase
    case ReadSubmitted => (o.Transferred? && o.n <= s.len) || o.Interrupted?
    case PairSubmitted => (o.Transferred? && o.n <= s.len) || o.Interrupted?
    case PairReadPosted => (o.Transferred? && o.n <= s.len) || o.Interrupted?
    case WriteSubmitted(n) => (o.Transferred? && o.n <= n) || o.Interrupted? || (o.Refused? && s.atomic)
    case PunchSubmitted(n) => (o.Transferred? && o.n == n) || o.Interrupted?
    case _ => false
  }

  function Complete(c: Config, s: Slot, o: Outcome): Slot
    requires CanComplete(s, o) && s.off + s.len <= |c.src|
  {
    match s.phase
    case ReadSubmitted =>
      if o.Transferred? then s.(data := c.src[s.off..s.off + o.n], phase := ReadPosted(o.n))
      else s.(phase := ReadInterrupted)
    case PairSubmitted =>
      if o.Transferred? && o.n == s.len then s.(data := c.src[s.off..s.off + s.len], phase := PairReadPosted)
      else s.(phase := PairBroken)
    case PairReadPosted => s.(phase := if o.Transferred? then PairBothPosted(o.n) else PairWriteInterrupted)
    case WriteSubmitted(n) =>
      s.(phase := if o.Transferred? then WritePosted(n, o.n) else if o.Refused? then WriteRefused(n)
                  else WriteInterrupted(n))
    case PunchSubmitted(n) => s.(phase := if o.Transferred? then PunchPosted(n) else PunchInterrupted(n))
  }

  /** The bytes a completion puts into the destination, at the slot's offset. */
  function Effect(s: Slot, o: Outcome): seq<byte>
    requires CanComplete(s, o)
  {
    if !o.Transferred? then [] else
    match s.phase
    case PairReadPosted => if o.n <= |s.data| then s.data[..o.n] else []
    case WriteSubmitted(n) => if o.n <= |s.data| then s.data[..o.n] else []
    case PunchSubmitted(n) => Zeros(n)
    case _ => []
  }

  function Zeros(n: nat): (z: seq<byte>)
    ensures |z| == n && forall i :: 0 <= i < n ==> z[i] == 0
  {
    seq(n, _ => 0)
  }

  /** A destination with some of its bytes replaced; the file keeps its size. */
  function Patch(dst: seq<byte>, off: nat, data: seq<byte>): (r: seq<byte>)
    requires off + |data| <= |dst|
    ensures |r| == |dst|
    ensures forall p :: 0 <= p < |r| ==> r[p] == if off <= p < off + |data| then data[p - off] else dst[p]
  {
    dst[..off] + data + dst[off + |data|..]
  }

  /** The size of the destination after a completion. */
  function Grown(size: nat, s: Slot, o: Outcome): nat
    requires CanComplete(s, o)
  {
    var end := s.off + |Effect(s, o)|;
    if s.phase.PunchSubmitted? || Effect(s, o) == [] || end <= size then size else end
  }

  /** The destination padded with zeros to the end of the range. */
  function Image(c: Config, dst: seq<byte>): (r: seq<byte>)
    ensures |r| >= |dst| && |r| >= c.start + c.total
    ensures |dst| >= c.start + c.total ==> r == dst
    ensures forall p :: 0 <= p < |r| ==> r[p] == if p < |dst| then dst[p] else 0
  {
    if |dst| >= c.start + c.total then dst else dst + Zeros(c.start + c.total - |dst|)
  }

  // ---------------------------------------------------------------- the engine

  /** What reaping one completion does: the slot that remains, and the changes of the counters. */
  datatype Reaped = Reaped(slot: Option<Slot>, ops: nat, processed: nat, missed: nat, leaked: bool)

  predicate CanReap(s: Slot) {
    s.phase.ReadPosted? || s.phase.ReadInterrupted? || s.phase.WritePosted? || s.phase.WriteInterrupted?
    || s.phase.WriteRefused? || s.phase.PunchPosted? || s.phase.PunchInterrupted? || s.phase.PairReadPosted?
    || s.phase.PairBothPosted? || s.phase.PairWriteInterrupted? || s.phase.PairBroken? || s.phase.CancelPosted?
  }

  predicate AllZero(s: seq<byte>) { forall i :: 0 <= i < |s| ==> s[i] == 0 }

  /** Minus for natural numbers; the invariant shows that it never cuts off. */
  function Rest(a: nat, b: nat): nat { if b <= a then a - b else 0 }

  /**
   * The completion handler. A read is followed by a write or, for a zero block of 16 KiB or more, by a hole
   * punch that already counts as processed; a finished write or punch releases the buffer; a refused atomic
   * write is submitted again with the length stored in the buffer; an interrupted operation is dropped without
   * an error, and after an interrupted punch the buffer is not released.
   */
  function Reap(c: Config, s: Slot): Reaped
    requires CanReap(s)
  {
    match s.phase
    case ReadPosted(n) =>
      var t := s.(bufLen := n);
      if c.zeroBlocks && n > 0 && AllZero(s.data) && n >= PUNCH_MIN
      then Reaped(Some(t.(phase := PunchSubmitted(n))), 0, n, Rest(s.len, n), false)
      else Reaped(Some(t.(phase := WriteSubmitted(n))), 0, 0, Rest(s.len, n), false)
    case ReadInterrupted => Reaped(None, 1, 0, s.len, false)
    case WritePosted(n, w) => Reaped(None, 1, w, Rest(n, w), false)
    case WriteInterrupted(n) => Reaped(None, 1, 0, n, false)
    case WriteRefused(n) => Reaped(Some(s.(atomic := false, phase := WriteSubmitted(s.bufLen))), 0, 0, 0, false)
    case PunchPosted(n) => Reaped(None, 1, 0, 0, false)
    case PunchInterrupted(n) => Reaped(None, 1, 0, 0, true)
    case PairReadPosted => Reaped(Some(s.(bufLen := s.len, phase := WriteSubmitted(s.len))), 1, 0, 0, false)
    case PairBothPosted(w) => Reaped(Some(s.(bufLen := s.len, phase := WritePosted(s.len, w))), 1, 0, 0, false)
    case PairWriteInterrupted => Reaped(Some(s.(bufLen := s.len, phase := WriteInterrupted(s.len))), 1, 0, 0, false)
    case PairBroken => Reaped(Some(s.(phase := CancelPosted)), 1, 0, 0, false)
    case CancelPosted => Reaped(None, 1, 0, s.len, false)
  }

  predicate PowerOfTwo(n: nat) { if n <= 1 then n == 1 else n % 2 == 0 && PowerOfTwo(n / 2) }

  /** What an atomic write must satisfy; the buffer address is not modelled. */
  predicate AtomicOk(c: Config, offset: nat, len: nat) {
    && c.atomicMin != 0 && c.atomicMax != 0
    && PowerOfTwo(len) && c.atomicMin <= len <= c.atomicMax && offset % len == 0
  }

  function NextLen(c: Config, s: State): nat {
    var len := Min(s.length, c.chunkSize);
    if c.atomic && c.atomicMax > 0 then Min(len, c.atomicMax) else len
  }

  datatype Step = Submit | Kernel(i: nat, o: Outcome) | ReapOne(i: nat)

  predicate Enabled(c: Config, s: State, step: Step) {
    match step
    case Submit =>
      && s.inflight < c.limit && s.length > 0 && s.free != [] && Picked(c.shared, s.free) < |s.slots|
      && 0 < NextLen(c, s) && (c.atomic ==> AtomicOk(c, s.offset, NextLen(c, s)))
    case Kernel(i, o) =>
      && i < |s.slots| && s.slots[i].Some? && CanComplete(s.slots[i].value, o)
      && s.slots[i].value.off + s.slots[i].value.len <= |c.src|
      && s.slots[i].value.off + |Effect(s.slots[i].value, o)| <= |s.dst|
    case ReapOne(i) => i < |s.slots| && s.slots[i].Some? && CanReap(s.slots[i].value)
  }

  function NewSlot(c: Config, s: State): Slot {
    Slot(s.offset, NextLen(c, s), [], 0, c.atomic, if c.Linked() then PairSubmitted else ReadSubmitted)
  }

  function Apply(c: Config, s: State, step: Step): State
    requires Enabled(c, s, step)
  {
    match step
    case Submit =>
      var i, len := Picked(c.shared, s.free), NextLen(c, s);
      s.(free := Remaining(c.shared, s.free), slots := s.slots[i := Some(NewSlot(c, s))],
         inflight := s.inflight + (if c.Linked() then 2 else 1),
         offset := s.offset + len, length := Rest(s.length, len))
    case Kernel(i, o) =>
      var t := s.slots[i].value;
      s.(dst := Patch(s.dst, t.off, Effect(t, o)), size := Grown(s.size, t, o),
         slots := s.slots[i := Some(Complete(c, t, o))])
    case ReapOne(i) =>
      var r := Reap(c, s.slots[i].value);
      s.(slots := s.slots[i := r.slot], inflight := s.inflight - r.ops,
         processed := s.processed + r.processed, missed := s.missed + r.missed,
         free := if r.slot.None? && !r.leaked then Returned(c.shared, c.capacity, s.free, i) else s.free,
         leaked := if r.leaked then s.leaked + {i} else s.leaked)
  }

  function Init(c: Config, dst: seq<byte>): State {
    State(Image(c, dst), |dst|, seq(c.capacity, i => i), seq(c.capacity, _ => None), c.start, c.total, 0, 0, 0, {})
  }

  /** The loop ends, without an error, when everything is submitted and nothing is in flight. */
  predicate Finished(s: State) { s.length == 0 && s.inflight == 0 }

  /** The states that some order of completions leads to. */
  ghost predicate Runs(c: Config, dst: seq<byte>, steps: seq<Step>, s: State) {
    if steps == [] then s == Init(c, dst) else
    var init, last := steps[..|steps| - 1], steps[|steps| - 1];
    exists prev :: Runs(c, dst, init, prev) && Enabled(c, prev, last) && Apply(c, prev, last) == s
  }

  // ---------------------------------------------------------------- one slot

  /** Bytes of the slot that are in neither `processed` nor `missed` yet. */
  function Due(s: Slot): nat {
    match s.phase
    case WriteSubmitted(n) => n
    case WritePosted(n, w) => n
    case WriteInterrupted(n) => n
    case WriteRefused(n) => n
    case PunchSubmitted(n) => 0
    case PunchPosted(n) => 0
    case PunchInterrupted(n) => 0
    case _ => s.len
  }

  /** Completions the engine still has to reap for the slot. */
  function Outstanding(s: Slot): nat {
    match s.phase
    case PairSubmitted => 2
    case PairReadPosted => 2
    case PairBothPosted(w) => 2
    case PairWriteInterrupted => 2
    case PairBroken => 2
    case _ => 1
  }

  ghost predicate Matches(c: Config, dst: seq<byte>, off: nat, n: nat) {
    off + n <= |c.src| && off + n <= |dst| && forall p :: off <= p < off + n ==> dst[p] == c.src[p]
  }

  /** The buffer holds the first n source bytes of its range, and fewer than all only if bytes were missed. */
  ghost predicate Holds(c: Config, s: Slot, n: nat, missed: bool)
    requires s.off + s.len <= |c.src|
  {
    n <= s.len && s.bufLen == n && s.data == c.src[s.off..s.off + n] && (n < s.len ==> missed)
  }

  ghost predicate SlotOk(c: Config, dst: seq<byte>, s: Slot, missed: bool) {
    && 0 < s.len && s.off + s.len <= |c.src| && s.off + s.len <= |dst|
    && match s.phase
       case ReadPosted(n) => n <= s.len && s.data == c.src[s.off..s.off + n]
       case WriteSubmitted(n) => Holds(c, s, n, missed)
       case WritePosted(n, w) => Holds(c, s, n, missed) && w <= n && Matches(c, dst, s.off, w)
       case WriteInterrupted(n) => n <= s.len && (n < s.len ==> missed)
       case WriteRefused(n) => Holds(c, s, n, missed)
       case PunchSubmitted(n) => Holds(c, s, n, missed) && AllZero(s.data)
       case PunchPosted(n) => Holds(c, s, n, missed) && Matches(c, dst, s.off, n)
       case PairReadPosted => s.data == c.src[s.off..s.off + s.len]
       case PairBothPosted(w) => s.data == c.src[s.off..s.off + s.len] && w <= s.len && Matches(c, dst, s.off, w)
       case _ => true
  }

  lemma EffectIsSource(c: Config, dst: seq<byte>, s: Slot, o: Outcome, missed: bool)
    requires SlotOk(c, dst, s, missed) && CanComplete(s, o)
    ensures var e := Effect(s, o);
            |e| <= s.len && forall p :: 0 <= p < |e| ==> e[p] == c.src[s.off + p]
  {
    var e := Effect(s, o);
    forall p | 0 <= p < |e|
      ensures e[p] == c.src[s.off + p]
    {
      assert e[p] == s.data[p] == c.src[s.off + p];
    }
  }

  lemma CompletedOk(c: Config, dst: seq<byte>, dst': seq<byte>, s: Slot, o: Outcome, missed: bool)
    requires SlotOk(c, dst, s, missed) && CanComplete(s, o) && |dst'| == |dst|
    requires Matches(c, dst', s.off, |Effect(s, o)|)
    ensures SlotOk(c, dst', Complete(c, s, o), missed)
  {
    if s.phase.WriteSubmitted? {
      WriteCompletedOk(c, dst, dst', s, o, missed);
    } else if s.phase.PunchSubmitted? {
      PunchCompletedOk(c, dst, dst', s, o, missed);
    } else if s.phase.PairReadPosted? {
      PairCompletedOk(c, dst, dst', s, o, missed);
    }
  }

  lemma WriteCompletedOk(c: Config, dst: seq<byte>, dst': seq<byte>, s: Slot, o: Outcome, missed: bool)
    requires SlotOk(c, dst, s, missed) && CanComplete(s, o) && |dst'| == |dst| && s.phase.WriteSubmitted?
    requires Matches(c, dst', s.off, |Effect(s, o)|)
    ensures SlotOk(c, dst', Complete(c, s, o), missed)
  {
    assert o.Transferred? ==> |Effect(s, o)| == o.n;
  }

  lemma PunchCompletedOk(c: Config, dst: seq<byte>, dst': seq<byte>, s: Slot, o: Outcome, missed: bool)
    requires SlotOk(c, dst, s, missed) && CanComplete(s, o) && |dst'| == |dst| && s.phase.PunchSubmitted?
    requires Matches(c, dst', s.off, |Effect(s, o)|)
    ensures SlotOk(c, dst', Complete(c, s, o), missed)
  {
    assert o.Transferred? ==> |Effect(s, o)| == o.n;
  }

  lemma PairCompletedOk(c: Config, dst: seq<byte>, dst': seq<byte>, s: Slot, o: Outcome, missed: bool)
    requires SlotOk(c, dst, s, missed) && CanComplete(s, o) && |dst'| == |dst| && s.phase.PairReadPosted?
    requires Matches(c, dst', s.off, |Effect(s, o)|)
    ensures SlotOk(c, dst', Complete(c, s, o), missed)
  {
    assert o.Transferred? ==> |Effect(s, o)| == o.n;
  }

  lemma CompleteKeepsSlot(c: Config, dst: seq<byte>, s: Slot, o: Outcome, missed: bool)
    requires SlotOk(c, dst, s, missed) && CanComplete(s, o)
    ensures s.off + |Effect(s, o)| <= |dst|
    ensures SlotOk(c, Patch(dst, s.off, Effect(s, o)), Complete(c, s, o), missed)
  {
    EffectIsSource(c, dst, s, o, missed);
    PatchMatches(c, dst, s.off, Effect(s, o));
    CompletedOk(c, dst, Patch(dst, s.off, Effect(s, o)), s, o, missed);
  }

  lemma CompleteBalances(c: Config, s: Slot, o: Outcome)
    requires CanComplete(s, o) && s.off + s.len <= |c.src|
    ensures Due(Complete(c, s, o)) == Due(s) && Outstanding(Complete(c, s, o)) == Outstanding(s)
    ensures Complete(c, s, o).off == s.off && Complete(c, s, o).len == s.len
  {
  }

  lemma PatchMatches(c: Config, dst: seq<byte>, off: nat, e: seq<byte>)
    requires off + |e| <= |dst| && off + |e| <= |c.src| && forall p :: 0 <= p < |e| ==> e[p] == c.src[off + p]
    ensures Matches(c, Patch(dst, off, e), off, |e|)
  {
    var r := Patch(dst, off, e);
    forall p | off <= p < off + |e|
      ensures r[p] == c.src[p]
    {
      assert r[p] == e[p - off];
    }
  }

  /** Reaping balances the books: nothing is counted twice or lost. */
  lemma ReapBalances(c: Config, dst: seq<byte>, s: Slot, missed: bool)
    requires SlotOk(c, dst, s, missed) && CanReap(s)
    ensures var r := Reap(c, s);
            && Due(s) == r.processed + r.missed + (if r.slot.Some? then Due(r.slot.value) else 0)
            && Outstanding(s) == r.ops + (if r.slot.Some? then Outstanding(r.slot.value) else 0)
  {
  }

  lemma ReapKeepsSlot(c: Config, dst: seq<byte>, s: Slot, missed: bool)
    requires SlotOk(c, dst, s, missed) && CanReap(s)
    ensures var r := Reap(c, s);
            var m := missed || r.missed > 0;
            && (r.slot.Some? ==> SlotOk(c, dst, r.slot.value, m))
            && (r.slot.Some? ==> r.slot.value.off == s.off && r.slot.value.len == s.len)
            && (r.slot.None? && !m && !r.leaked ==> Matches(c, dst, s.off, s.len))
  {
  }

  // ---------------------------------------------------------------- the whole state

  /** The sum of a measure over the buffers in use. */
  function Sum(f: Slot -> nat, slots: seq<Option<Slot>>): nat {
    if slots == [] then 0 else At(f, slots[0]) + Sum(f, slots[1..])
  }

  function At(f: Slot -> nat, x: Option<Slot>): nat { if x.Some? then f(x.value) else 0 }

  lemma {:induction false} SumUpdate(f: Slot -> nat, slots: seq<Option<Slot>>, i: nat, x: Option<Slot>)
    requires i < |slots|
    ensures Sum(f, slots[i := x]) == Sum(f, slots) - At(f, slots[i]) + At(f, x)
  {
    if i == 0 {
      assert slots[0 := x][1..] == slots[1..];
    } else {
      assert slots[i := x][1..] == slots[1..][i - 1 := x];
      SumUpdate(f, slots[1..], i - 1, x);
    }
  }

  /** Every buffer is free exactly once, or in use, or leaked. */
  ghost predicate PoolOk(c: Config, s: State) {
    && |s.slots| == c.capacity
    && (forall k :: 0 <= k < |s.free| ==> s.free[k] < c.capacity)
    && (forall k, m :: 0 <= k < m < |s.free| ==> s.free[k] != s.free[m])
    && (forall i :: 0 <= i < c.capacity ==>
          (i in s.free <==> s.slots[i].None? && i !in s.leaked) && (i in s.leaked ==> s.slots[i].None?))
  }

  /** The buffers handed out by the pool: in use, or leaked. */
  ghost function Handed(c: Config, s: State): set<nat>
    requires |s.slots| == c.capacity
  {
    set i | 0 <= i < c.capacity && (s.slots[i].Some? || i in s.leaked)
  }

  /** The engine's free list is that of a sound pool which has handed out exactly those buffers. */
  lemma PoolIsSound(c: Config, s: State)
    requires PoolOk(c, s)
    ensures Splits(s.free, Handed(c, s), c.capacity)
  {
    forall i: nat ensures i in Elements(s.free) + Handed(c, s) <==> i < c.capacity {
      if i < c.capacity { assert i in s.free <==> s.slots[i].None? && i !in s.leaked; }
    }
    assert Elements(s.free) + Handed(c, s) == Below(c.capacity);
  }

  ghost predicate Within(s: State, i: nat, p: nat)
    requires i < |s.slots|
  {
    s.slots[i].Some? && s.slots[i].value.off <= p < s.slots[i].value.off + s.slots[i].value.len
  }

  /** Slots lie in the submitted part of the range and do not overlap. */
  ghost predicate SlotsOk(c: Config, s: State) {
    && (forall i :: 0 <= i < |s.slots| && s.slots[i].Some? ==>
          && SlotOk(c, s.dst, s.slots[i].value, s.missed > 0)
          && c.start <= s.slots[i].value.off && s.slots[i].value.off + s.slots[i].value.len <= s.offset)
    && (forall i, j, p :: 0 <= i < j < |s.slots| && Within(s, i, p) ==> !Within(s, j, p))
  }

  /** Unless something was missed or leaked, every submitted byte outside the slots has arrived. */
  ghost predicate Arrived(c: Config, s: State)
    requires s.offset <= |s.dst| && s.offset <= |c.src|
  {
    s.missed == 0 && s.leaked == {} ==>
      forall p {:trigger s.dst[p]} :: c.start <= p < s.offset && !InSlots(s, p) ==> s.dst[p] == c.src[p]
  }

  ghost predicate InSlots(s: State, p: nat) { exists i :: 0 <= i < |s.slots| && Within(s, i, p) }

  ghost predicate Books(c: Config, dst0: seq<byte>, s: State) {
    && s.offset + s.length == c.start + c.total && c.start <= s.offset
    && |s.dst| == |dst0| && c.start + c.total <= |dst0|
    && s.processed + s.missed + Sum(Due, s.slots) == s.offset - c.start
    && s.inflight == Sum(Outstanding, s.slots)
    && (forall p :: 0 <= p < |dst0| && !(c.start <= p < s.offset) ==> s.dst[p] == dst0[p])
  }

  ghost predicate Inv(c: Config, dst0: seq<byte>, s: State) {
    c.Valid() && Books(c, dst0, s) && PoolOk(c, s) && SlotsOk(c, s) && Arrived(c, s)
  }

  /** A slot does not notice changes outside its range, nor further missed bytes. */
  lemma SlotFrame(c: Config, dst: seq<byte>, dst': seq<byte>, t: Slot, m: bool, m': bool)
    requires SlotOk(c, dst, t, m) && |dst'| == |dst| && (m ==> m')
    requires forall p :: t.off <= p < t.off + t.len ==> dst'[p] == dst[p]
    ensures SlotOk(c, dst', t, m')
  {
  }

  /** One slot changes, or goes away, and only bytes of its range change. */
  ghost predicate OneSlot(c: Config, s: State, s': State, i: nat) {
    && i < |s.slots| == |s'.slots| && s.slots[i].Some?
    && s'.slots == s.slots[i := s'.slots[i]]
    && (s'.slots[i].Some? ==>
          && s'.slots[i].value.off == s.slots[i].value.off && s'.slots[i].value.len == s.slots[i].value.len
          && SlotOk(c, s'.dst, s'.slots[i].value, s'.missed > 0))
    && s'.offset == s.offset && s'.missed >= s.missed && |s'.dst| == |s.dst|
    && forall p :: 0 <= p < |s.dst| && !Within(s, i, p) ==> s'.dst[p] == s.dst[p]
  }

  lemma OneSlotKeepsOther(c: Config, s: State, s': State, i: nat, j: nat)
    requires SlotsOk(c, s) && OneSlot(c, s, s', i) && j < |s.slots| && j != i && s.slots[j].Some?
    ensures SlotOk(c, s'.dst, s'.slots[j].value, s'.missed > 0)
  {
    var t := s.slots[j].value;
    forall p | t.off <= p < t.off + t.len
      ensures s'.dst[p] == s.dst[p]
    {
      assert Within(s, j, p);
      assert !Within(s, i, p);
    }
    SlotFrame(c, s.dst, s'.dst, t, s.missed > 0, s'.missed > 0);
  }

  lemma OneSlotKeepsSlots(c: Config, s: State, s': State, i: nat)
    requires SlotsOk(c, s) && OneSlot(c, s, s', i)
    ensures SlotsOk(c, s')
  {
    forall j | 0 <= j < |s'.slots| && s'.slots[j].Some?
      ensures SlotOk(c, s'.dst, s'.slots[j].value, s'.missed > 0)
      ensures c.start <= s'.slots[j].value.off && s'.slots[j].value.off + s'.slots[j].value.len <= s'.offset
    {
      if j != i { OneSlotKeepsOther(c, s, s', i, j); }
    }
    forall j, k, p | 0 <= j < k < |s'.slots| && Within(s', j, p)
      ensures !Within(s', k, p)
    {
      assert Within(s, j, p);
      assert !Within(s, k, p);
    }
  }

  lemma OneSlotKeepsArrived(c: Config, s: State, s': State, i: nat)
    requires OneSlot(c, s, s', i) && s.offset <= |s.dst| && s.offset <= |c.src| && Arrived(c, s)
    requires s.leaked <= s'.leaked
    requires s'.slots[i].None? && s'.missed == 0 && s'.leaked == {} ==>
               Matches(c, s'.dst, s.slots[i].value.off, s.slots[i].value.len)
    ensures Arrived(c, s')
  {
    if s'.missed == 0 && s'.leaked == {} {
      forall p {:trigger s'.dst[p]} | c.start <= p < s'.offset && !InSlots(s', p)
        ensures s'.dst[p] == c.src[p]
      {
        if !Within(s, i, p) {
          forall j | 0 <= j < |s.slots|
            ensures !Within(s, j, p)
          {
            assert !Within(s', j, p);
          }
        } else {
          assert !Within(s', i, p);
        }
      }
    }
  }

  lemma KernelOneSlot(c: Config, s: State, i: nat, o: Outcome)
    requires SlotsOk(c, s) && Enabled(c, s, Kernel(i, o))
    ensures var s', t := Apply(c, s, Kernel(i, o)), s.slots[i].value;
            && OneSlot(c, s, s', i) && s'.slots[i].Some? && |Effect(t, o)| <= t.len
            && Due(s'.slots[i].value) == Due(t) && Outstanding(s'.slots[i].value) == Outstanding(t)
  {
    var t := s.slots[i].value;
    CompleteKeepsSlot(c, s.dst, t, o, s.missed > 0);
    CompleteBalances(c, t, o);
    EffectIsSource(c, s.dst, t, o, s.missed > 0);
  }

  lemma KernelKeepsInv(c: Config, dst0: seq<byte>, s: State, i: nat, o: Outcome)
    requires Inv(c, dst0, s) && Enabled(c, s, Kernel(i, o))
    ensures Inv(c, dst0, Apply(c, s, Kernel(i, o)))
  {
    var s' := Apply(c, s, Kernel(i, o));
    KernelOneSlot(c, s, i, o);
    OneSlotKeepsSlots(c, s, s', i);
    OneSlotKeepsArrived(c, s, s', i);
    SumUpdate(Due, s.slots, i, s'.slots[i]);
    SumUpdate(Outstanding, s.slots, i, s'.slots[i]);
    assert Books(c, dst0, s');
  }

  lemma ReapOneSlot(c: Config, s: State, i: nat)
    requires SlotsOk(c, s) && Enabled(c, s, ReapOne(i))
    ensures var s', t, r := Apply(c, s, ReapOne(i)), s.slots[i].value, Reap(c, s.slots[i].value);
            && OneSlot(c, s, s', i) && s'.slots[i] == r.slot
            && Due(t) == r.processed + r.missed + At(Due, r.slot) && Outstanding(t) == r.ops + At(Outstanding, r.slot)
            && (r.slot.None? && s'.missed == 0 && !r.leaked ==> Matches(c, s.dst, t.off, t.len))
  {
    var t := s.slots[i].value;
    ReapBalances(c, s.dst, t, s.missed > 0);
    ReapKeepsSlot(c, s.dst, t, s.missed > 0);
  }

  lemma ReapKeepsInv(c: Config, dst0: seq<byte>, s: State, i: nat)
    requires Inv(c, dst0, s) && Enabled(c, s, ReapOne(i))
    ensures Inv(c, dst0, Apply(c, s, ReapOne(i)))
  {
    var s' := Apply(c, s, ReapOne(i));
    ReapOneSlot(c, s, i);
    OneSlotKeepsSlots(c, s, s', i);
    OneSlotKeepsArrived(c, s, s', i);
    SumUpdate(Due, s.slots, i, s'.slots[i]);
    SumUpdate(Outstanding, s.slots, i, s'.slots[i]);
    ReapKeepsPool(c, s, i);
  }

  lemma ReapKeepsPool(c: Config, s: State, i: nat)
    requires PoolOk(c, s) && Enabled(c, s, ReapOne(i))
    ensures PoolOk(c, Apply(c, s, ReapOne(i)))
  {
    var s' := Apply(c, s, ReapOne(i));
    assert i !in s.free;
    ReturnedIsLast(c.shared, c.capacity, s.free, i);
    forall j | 0 <= j < c.capacity
      ensures j in s'.free <==> s'.slots[j].None? && j !in s'.leaked
      ensures j in s'.leaked ==> s'.slots[j].None?
    {
    }
  }

  lemma SubmitKeepsPool(c: Config, s: State)
    requires PoolOk(c, s) && Enabled(c, s, Submit)
    ensures PoolOk(c, Apply(c, s, Submit))
  {
    var s', i := Apply(c, s, Submit), Picked(c.shared, s.free);
    PickedOnce(c.shared, s.free);
    forall j | 0 <= j < c.capacity
      ensures j in s'.free <==> s'.slots[j].None? && j !in s'.leaked
    {
      assert j in s'.free <==> j in s.free && j != i;
    }
  }

  lemma SubmitKeepsSlots(c: Config, s: State)
    requires c.Valid() && PoolOk(c, s) && SlotsOk(c, s) && Enabled(c, s, Submit)
    requires s.offset + s.length == c.start + c.total <= |s.dst| && c.start <= s.offset
    ensures SlotsOk(c, Apply(c, s, Submit))
  {
    var s' := Apply(c, s, Submit);
    var i := Picked(c.shared, s.free);
    assert i in s.free;
    forall j, k, p | 0 <= j < k < |s'.slots| && Within(s', j, p)
      ensures !Within(s', k, p)
    {
      if j != i { assert Within(s, j, p); }
      if k != i && Within(s', k, p) { assert Within(s, k, p); }
    }
  }

  lemma SubmitKeepsInv(c: Config, dst0: seq<byte>, s: State)
    requires Inv(c, dst0, s) && Enabled(c, s, Submit)
    ensures Inv(c, dst0, Apply(c, s, Submit))
  {
    var s' := Apply(c, s, Submit);
    var i := Picked(c.shared, s.free);
    assert i in s.free;
    SubmitKeepsPool(c, s);
    SubmitKeepsSlots(c, s);
    SumUpdate(Due, s.slots, i, s'.slots[i]);
    SumUpdate(Outstanding, s.slots, i, s'.slots[i]);
    forall p {:trigger s'.dst[p]} | c.start <= p < s'.offset && !InSlots(s', p)
      ensures p < s.offset && !InSlots(s, p)
    {
      assert !Within(s', i, p);
      forall j | 0 <= j < |s.slots|
        ensures !Within(s, j, p)
      {
        assert !Within(s', j, p);
      }
    }
  }

  lemma StepKeepsInv(c: Config, dst0: seq<byte>, s: State, step: Step)
    requires Inv(c, dst0, s) && Enabled(c, s, step)
    ensures Inv(c, dst0, Apply(c, s, step))
  {
    match step
    case Submit => SubmitKeepsInv(c, dst0, s);
    case Kernel(i, o) => KernelKeepsInv(c, dst0, s, i, o);
    case ReapOne(i) => ReapKeepsInv(c, dst0, s, i);
  }

  lemma InitHasInv(c: Config, dst0: seq<byte>)
    requires c.Valid()
    ensures Inv(c, Image(c, dst0), Init(c, dst0))
  {
    var s := Init(c, dst0);
    EmptySum(Due, s.slots);
    EmptySum(Outstanding, s.slots);
    forall i | 0 <= i < c.capacity
      ensures i in s.free
    {
      assert s.free[i] == i;
    }
  }

  lemma {:induction false} EmptySum(f: Slot -> nat, slots: seq<Option<Slot>>)
    requires forall i :: 0 <= i < |slots| ==> slots[i].None?
    ensures Sum(f, slots) == 0
  {
    if slots != [] { EmptySum(f, slots[1..]); }
  }

  lemma {:induction false} NothingOutstanding(slots: seq<Option<Slot>>)
    requires Sum(Outstanding, slots) == 0
    ensures forall i :: 0 <= i < |slots| ==> slots[i].None?
  {
    if slots != [] {
      NothingOutstanding(slots[1..]);
      assert forall i :: 0 < i < |slots| ==> slots[i] == slots[1..][i - 1];
    }
  }

  lemma {:induction false} RunKeepsInv(c: Config, dst0: seq<byte>, steps: seq<Step>, s: State)
    requires c.Valid() && Runs(c, dst0, steps, s)
    ensures Inv(c, Image(c, dst0), s)
    decreases |steps|
  {
    if steps == [] {
      InitHasInv(c, dst0);
    } else {
      var init, last := steps[..|steps| - 1], steps[|steps| - 1];
      var prev :| Runs(c, dst0, init, prev) && Enabled(c, prev, last) && Apply(c, prev, last) == s;
      RunKeepsInv(c, dst0, init, prev);
      StepKeepsInv(c, Image(c, dst0), prev, last);
    }
  }

  /** In every run at most `limit` operations are in flight, or one more where reads and writes are linked pairs. */
  lemma {:induction false} RunKeepsLimit(c: Config, dst0: seq<byte>, steps: seq<Step>, s: State)
    requires Runs(c, dst0, steps, s)
    ensures s.inflight <= c.limit + if c.Linked() then 1 else 0
    decreases |steps|
  {
    if steps != [] {
      var init, last := steps[..|steps| - 1], steps[|steps| - 1];
      var prev :| Runs(c, dst0, init, prev) && Enabled(c, prev, last) && Apply(c, prev, last) == s;
      RunKeepsLimit(c, dst0, init, prev);
    }
  }
}
