/** What a whole run of the copy engine leaves behind, and exactly when it has copied everything. */
module CopyOutcome {
  import opened Bytes
  import opened BufferPool
  import opened CopyEngine

  // ---------------------------------------------------------------- full and partial completions

  /** Full completion of a submitted operation. */
  function FullOutcome(s: Slot): Outcome {
    match s.phase
    case WriteSubmitted(n) => Transferred(n)
    case PunchSubmitted(n) => Transferred(n)
    case _ => Transferred(s.len)
  }

  /** No completion is short or interrupted; an atomic write may be refused, which only repeats it. */
  predicate FullStep(s: State, step: Step) {
    step.Kernel? && step.i < |s.slots| && s.slots[step.i].Some? ==>
      step.o == FullOutcome(s.slots[step.i].value) || step.o.Refused?
  }

  /** A run all of whose completions are full. */
  ghost predicate FullRuns(c: Config, dst: seq<byte>, steps: seq<Step>, s: State) {
    if steps == [] then s == Init(c, dst) else
    var init, last := steps[..|steps| - 1], steps[|steps| - 1];
    exists prev ::
      FullRuns(c, dst, init, prev) && Enabled(c, prev, last) && FullStep(prev, last) && Apply(c, prev, last) == s
  }

  /** Nothing short or interrupted has happened to this slot. */
  predicate Clean(s: Slot) {
    match s.phase
    case ReadSubmitted => true
    case ReadPosted(n) => n == s.len
    case ReadInterrupted => false
    case WriteSubmitted(n) => n == s.len
    case WritePosted(n, w) => w == n == s.len
    case WriteInterrupted(n) => false
    case WriteRefused(n) => n == s.len
    case PunchSubmitted(n) => n == s.len
    case PunchPosted(n) => n == s.len
    case PunchInterrupted(n) => false
    case PairSubmitted => true
    case PairReadPosted => true
    case PairBothPosted(w) => w == s.len
    case PairWriteInterrupted => false
    case PairBroken => false
    case CancelPosted => false
  }

  ghost predicate AllClean(s: State) {
    s.missed == 0 && s.leaked == {} && forall i :: 0 <= i < |s.slots| && s.slots[i].Some? ==> Clean(s.slots[i].value)
  }

  lemma CompletedClean(c: Config, dst: seq<byte>, t: Slot, o: Outcome)
    requires SlotOk(c, dst, t, false) && CanComplete(t, o)
    ensures Clean(Complete(c, t, o)) <==> Clean(t) && (o == FullOutcome(t) || o.Refused?)
  {
  }

  lemma ReapedClean(c: Config, dst: seq<byte>, t: Slot)
    requires SlotOk(c, dst, t, false) && CanReap(t)
    ensures var r := Reap(c, t);
            Clean(t) <==> r.missed == 0 && !r.leaked && (r.slot.Some? ==> Clean(r.slot.value))
  {
  }

  /** A step leaves everything clean exactly when everything was and the step is a full one. */
  lemma CleanStep(c: Config, image: seq<byte>, s: State, step: Step)
    requires Inv(c, image, s) && Enabled(c, s, step)
    ensures AllClean(Apply(c, s, step)) <==> AllClean(s) && FullStep(s, step)
  {
    var s' := Apply(c, s, step);
    match step
    case Submit =>
      var i := Picked(c.shared, s.free);
      PickedOnce(c.shared, s.free);
      assert s.slots[i].None? && s'.slots[i].Some? && Clean(s'.slots[i].value);
      assert forall j :: 0 <= j < |s.slots| && j != i ==> s'.slots[j] == s.slots[j];
    case Kernel(i, o) =>
      assert s.missed == 0 ==> SlotOk(c, s.dst, s.slots[i].value, false);
      if s.missed == 0 { CompletedClean(c, s.dst, s.slots[i].value, o); }
      OthersStay(s, s', i);
    case ReapOne(i) =>
      assert s.missed == 0 ==> SlotOk(c, s.dst, s.slots[i].value, false);
      if s.missed == 0 { ReapedClean(c, s.dst, s.slots[i].value); }
      OthersStay(s, s', i);
  }

  lemma OthersStay(s: State, s': State, i: nat)
    requires i < |s.slots| && s.slots[i].Some? && |s'.slots| == |s.slots| && s'.slots == s.slots[i := s'.slots[i]]
    ensures (forall j :: 0 <= j < |s.slots| && s.slots[j].Some? ==> Clean(s.slots[j].value))
            <==> Clean(s.slots[i].value)
                 && forall j :: 0 <= j < |s.slots| && j != i && s.slots[j].Some? ==> Clean(s.slots[j].value)
    ensures (forall j :: 0 <= j < |s'.slots| && s'.slots[j].Some? ==> Clean(s'.slots[j].value))
            <==> (s'.slots[i].Some? ==> Clean(s'.slots[i].value))
                 && forall j :: 0 <= j < |s.slots| && j != i && s.slots[j].Some? ==> Clean(s.slots[j].value)
  {
    assert forall j :: 0 <= j < |s.slots| && j != i ==> s'.slots[j] == s.slots[j];
  }

  /** Along a run, "everything clean" means "no completion was short or interrupted". */
  lemma {:induction false} CleanIffFull(c: Config, dst0: seq<byte>, steps: seq<Step>, s: State)
    requires c.Valid() && Runs(c, dst0, steps, s)
    ensures AllClean(s) <==> FullRuns(c, dst0, steps, s)
    decreases |steps|
  {
    if steps != [] {
      var init, last := steps[..|steps| - 1], steps[|steps| - 1];
      var prev :| Runs(c, dst0, init, prev) && Enabled(c, prev, last) && Apply(c, prev, last) == s;
      RunKeepsInv(c, dst0, init, prev);
      CleanIffFull(c, dst0, init, prev);
      CleanStep(c, Image(c, dst0), prev, last);
      if FullRuns(c, dst0, steps, s) {
        var was :| FullRuns(c, dst0, init, was) && Enabled(c, was, last) && FullStep(was, last)
            && Apply(c, was, last) == s;
        FullRunsAreRuns(c, dst0, init, was);
        RunsAgree(c, dst0, init, prev, was);
      }
    }
  }

  lemma {:induction false} FullRunsAreRuns(c: Config, dst0: seq<byte>, steps: seq<Step>, s: State)
    requires FullRuns(c, dst0, steps, s)
    ensures Runs(c, dst0, steps, s)
    decreases |steps|
  {
    if steps != [] {
      var init, last := steps[..|steps| - 1], steps[|steps| - 1];
      var prev :| FullRuns(c, dst0, init, prev) && Enabled(c, prev, last) && FullStep(prev, last)
          && Apply(c, prev, last) == s;
      FullRunsAreRuns(c, dst0, init, prev);
    }
  }

  /** The steps determine the state. */
  lemma {:induction false} RunsAgree(c: Config, dst0: seq<byte>, steps: seq<Step>, s: State, t: State)
    requires Runs(c, dst0, steps, s) && Runs(c, dst0, steps, t)
    ensures s == t
    decreases |steps|
  {
    if steps != [] {
      var init, last := steps[..|steps| - 1], steps[|steps| - 1];
      var p :| Runs(c, dst0, init, p) && Enabled(c, p, last) && Apply(c, p, last) == s;
      var q :| Runs(c, dst0, init, q) && Enabled(c, q, last) && Apply(c, q, last) == t;
      RunsAgree(c, dst0, init, p, q);
    }
  }

  // ---------------------------------------------------------------- which blocks are written

  /** How data is moved: are zero blocks looked for, and in blocks of which size. */
  datatype Mode = Mode(zeroBlocks: bool, block: nat)

  function ModeOf(c: Config): Mode {
    Mode(c.zeroBlocks, if c.atomic && c.atomicMax > 0 then Min(c.chunkSize, c.atomicMax) else c.chunkSize)
  }

  /** Is o where a block begins, counting from `from`? */
  predicate OnGrid(block: nat, from: nat, o: nat)
    decreases o - from
  {
    from == o || (0 < block && from + block <= o && OnGrid(block, from + block, o))
  }

  function BlockEnd(m: Mode, o: nat, end: nat): nat { if o + m.block <= end then o + m.block else end }

  /** The block is a hole of 16 KiB or more in the source's eyes, and will be punched. */
  predicate Punched(src: seq<byte>, m: Mode, o: nat, e: nat) {
    m.zeroBlocks && o + PUNCH_MIN <= e <= |src| && AllZero(src[o..e])
  }

  /** Is p in a block that is written and not punched? */
  ghost predicate WrittenByte(src: seq<byte>, m: Mode, from: nat, end: nat, p: nat) {
    exists o: nat :: IsWritten(src, m, from, end, o) && o <= p < BlockEnd(m, o, end)
  }

  predicate IsWritten(src: seq<byte>, m: Mode, from: nat, end: nat, o: nat) {
    from <= o < end && OnGrid(m.block, from, o) && !Punched(src, m, o, BlockEnd(m, o, end))
  }

  /** Where the last written block ends: how far the copy of a range extends a file. */
  function WrittenEnd(src: seq<byte>, m: Mode, from: nat, end: nat): (r: nat)
    requires 0 < m.block
    ensures r <= end
    decreases end - from
  {
    if from >= end then 0 else
    var e := BlockEnd(m, from, end);
    var rest := WrittenEnd(src, m, e, end);
    if rest > 0 then rest else if Punched(src, m, from, e) then 0 else e
  }

  lemma {:induction false} WrittenEndIsLast(src: seq<byte>, m: Mode, from: nat, end: nat)
    requires 0 < m.block
    ensures var r := WrittenEnd(src, m, from, end);
            && (forall p: nat :: WrittenByte(src, m, from, end, p) ==> p < r)
            && (r > 0 ==> from < r && WrittenByte(src, m, from, end, r - 1))
    decreases end - from
  {
    if from < end {
      var e, r := BlockEnd(m, from, end), WrittenEnd(src, m, from, end);
      WrittenEndIsLast(src, m, e, end);
      forall p: nat ensures WrittenByte(src, m, from, end, p)
          <==> WrittenByte(src, m, e, end, p) || (from <= p < e && !Punched(src, m, from, e)) {
        FirstBlock(src, m, from, end, p);
      }
    }
  }

  lemma FirstBlock(src: seq<byte>, m: Mode, from: nat, end: nat, p: nat)
    requires 0 < m.block && from < end
    ensures var e := BlockEnd(m, from, end);
            WrittenByte(src, m, from, end, p)
            <==> WrittenByte(src, m, e, end, p) || (from <= p < e && !Punched(src, m, from, e))
  {
    var e := BlockEnd(m, from, end);
    if WrittenByte(src, m, from, end, p) {
      var o: nat :| IsWritten(src, m, from, end, o) && o <= p < BlockEnd(m, o, end);
      if o != from { assert IsWritten(src, m, e, end, o); }
    }
    if WrittenByte(src, m, e, end, p) {
      var o: nat :| IsWritten(src, m, e, end, o) && o <= p < BlockEnd(m, o, end);
      assert IsWritten(src, m, from, end, o);
    }
    if from <= p < e && !Punched(src, m, from, e) { assert IsWritten(src, m, from, end, from); }
  }

  lemma {:induction false} GridNext(block: nat, from: nat, o: nat)
    requires 0 < block && from <= o && OnGrid(block, from, o)
    ensures OnGrid(block, from, o + block)
    decreases o - from
  {
    if from != o { GridNext(block, from + block, o); }
  }

  /** A byte is in one block only. */
  lemma {:induction false} GridUnique(block: nat, from: nat, o: nat, q: nat, p: nat)
    requires 0 < block && from <= o <= p < o + block && from <= q <= p < q + block
    requires OnGrid(block, from, o) && OnGrid(block, from, q)
    ensures o == q
    decreases p - from
  {
    if from != o && from != q { GridUnique(block, from + block, o, q, p); }
  }

  // ---------------------------------------------------------------- the size of the destination

  function RangeEnd(c: Config): nat { c.start + c.total }

  /** The slot is a block of the range; a punch was decided for zero blocks only, a write for the others only. */
  ghost predicate BlockSlot(c: Config, t: Slot) {
    var m, e := ModeOf(c), BlockEnd(ModeOf(c), t.off, RangeEnd(c));
    && c.start <= t.off < RangeEnd(c) && OnGrid(m.block, c.start, t.off) && t.off + t.len == e
    && match t.phase
       case ReadSubmitted => true
       case ReadPosted(n) => true
       case PunchSubmitted(n) => Punched(c.src, m, t.off, e)
       case PunchPosted(n) => Punched(c.src, m, t.off, e)
       case _ => !Punched(c.src, m, t.off, e)
  }

  /** A write that has completed has extended the file to its end. */
  predicate Reaches(size: nat, t: Slot) { t.phase.WritePosted? || t.phase.PairBothPosted? ==> t.off + t.len <= size }

  ghost predicate Written(c: Config, p: nat) { WrittenByte(c.src, ModeOf(c), c.start, RangeEnd(c), p) }

  ghost predicate SlotsSized(c: Config, s: State) {
    forall i :: 0 <= i < |s.slots| && s.slots[i].Some? ==>
      BlockSlot(c, s.slots[i].value) && Reaches(s.size, s.slots[i].value)
  }

  /** Every written byte outside the slots is within the size. */
  ghost predicate SizeCovers(c: Config, s: State) {
    forall p: nat :: c.start <= p < s.offset && !InSlots(s, p) && Written(c, p) ==> p < s.size
  }

  /** The size is the old one, or ends with a written byte; what lies beyond it is zero. */
  ghost predicate Sized(c: Config, dst0: seq<byte>, s: State) {
    && |dst0| <= s.size <= |s.dst| && (s.size == |dst0| || Written(c, s.size - 1))
    && (forall p :: s.size <= p < |s.dst| ==> s.dst[p] == 0)
    && (s.offset == RangeEnd(c) || (c.start <= s.offset && OnGrid(ModeOf(c).block, c.start, s.offset)))
  }

  ghost predicate SizeInv(c: Config, dst0: seq<byte>, s: State) {
    SlotsSized(c, s) && SizeCovers(c, s) && Sized(c, dst0, s)
  }

  lemma BlockIsPositive(c: Config, s: State)
    requires c.Valid()
    ensures 0 < ModeOf(c).block && NextLen(c, s) == Min(s.length, ModeOf(c).block)
  {
  }

  lemma NewBlock(c: Config, s: State)
    requires c.Valid() && Enabled(c, s, Submit) && s.offset + s.length == RangeEnd(c) && c.start <= s.offset
    requires s.offset == RangeEnd(c) || OnGrid(ModeOf(c).block, c.start, s.offset)
    ensures BlockSlot(c, NewSlot(c, s))
    ensures var next := s.offset + NextLen(c, s);
            next == RangeEnd(c) || OnGrid(ModeOf(c).block, c.start, next)
  {
    BlockIsPositive(c, s);
    GridNext(ModeOf(c).block, c.start, s.offset);
  }

  lemma SubmitKeepsSize(c: Config, dst0: seq<byte>, s: State)
    requires Inv(c, Image(c, dst0), s) && SizeInv(c, dst0, s) && Enabled(c, s, Submit)
    ensures SizeInv(c, dst0, Apply(c, s, Submit))
  {
    var s', i := Apply(c, s, Submit), Picked(c.shared, s.free);
    NewBlock(c, s);
    PickedOnce(c.shared, s.free);
    assert SlotsSized(c, s') by { ReachesFurther(c, s, s', i); }
    assert SizeCovers(c, s') by { AddedSlot(c, s, s', i); }
  }

  /** A new slot takes the bytes that are new. */
  lemma AddedSlot(c: Config, s: State, s': State, i: nat)
    requires SizeCovers(c, s) && i < |s.slots| == |s'.slots| && s.slots[i].None? && s'.slots[i].Some?
    requires s'.slots == s.slots[i := s'.slots[i]] && s'.size == s.size
    requires s'.slots[i].value.off == s.offset && s.offset + s'.slots[i].value.len == s'.offset
    ensures SizeCovers(c, s')
  {
    forall p: nat | c.start <= p < s'.offset && !InSlots(s', p) && Written(c, p) ensures p < s'.size {
      assert !Within(s', i, p);
      forall j | 0 <= j < |s.slots| ensures !Within(s, j, p) { assert !Within(s', j, p); }
    }
  }

  lemma CompletedBlock(c: Config, t: Slot, o: Outcome, size: nat)
    requires BlockSlot(c, t) && CanComplete(t, o) && 0 < t.len && t.off + t.len <= |c.src| && Clean(t)
    requires o == FullOutcome(t) || o.Refused?
    requires |t.data| == t.len || !(t.phase.WriteSubmitted? || t.phase.PairReadPosted?)
    ensures BlockSlot(c, Complete(c, t, o)) && Reaches(Grown(size, t, o), Complete(c, t, o))
    ensures size <= Grown(size, t, o)
    ensures Grown(size, t, o) == size || Grown(size, t, o) == t.off + |Effect(t, o)| == t.off + t.len
    ensures Grown(size, t, o) != size ==> Written(c, t.off + t.len - 1)
  {
    if Grown(size, t, o) != size {
      assert IsWritten(c.src, ModeOf(c), c.start, RangeEnd(c), t.off);
    }
  }

  lemma ReapedBlock(c: Config, dst: seq<byte>, t: Slot)
    requires BlockSlot(c, t) && CanReap(t) && Clean(t) && SlotOk(c, dst, t, false)
    ensures var r := Reap(c, t).slot;
            r.Some? ==> BlockSlot(c, r.value) && (forall z | Reaches(z, t) :: Reaches(z, r.value))
    ensures Reap(c, t).slot.None? ==> t.phase.WritePosted? || t.phase.PunchPosted?
  {
    if t.phase.ReadPosted? { assert t.data == c.src[t.off..t.off + t.len]; }
  }

  /** Bytes of a punched block are in no written block. */
  lemma PunchedIsNotWritten(c: Config, t: Slot, p: nat)
    requires c.Valid() && BlockSlot(c, t) && t.phase.PunchPosted? && t.off <= p < t.off + t.len
    ensures !Written(c, p)
  {
    var m, end := ModeOf(c), RangeEnd(c);
    forall o: nat | IsWritten(c.src, m, c.start, end, o) ensures !(o <= p < BlockEnd(m, o, end)) {
      if o <= p < BlockEnd(m, o, end) { GridUnique(m.block, c.start, t.off, o, p); }
    }
  }

  lemma KernelKeepsSize(c: Config, dst0: seq<byte>, s: State, i: nat, o: Outcome)
    requires Inv(c, Image(c, dst0), s) && SizeInv(c, dst0, s) && AllClean(s)
    requires Enabled(c, s, Kernel(i, o)) && FullStep(s, Kernel(i, o))
    ensures SizeInv(c, dst0, Apply(c, s, Kernel(i, o)))
  {
    var s', t := Apply(c, s, Kernel(i, o)), s.slots[i].value;
    KernelBlock(c, s, i, o);
    assert SlotsSized(c, s') by { ReachesFurther(c, s, s', i); }
    assert SizeCovers(c, s') by { SameSlots(c, s, s', i); }
    assert Sized(c, dst0, s') by { KernelZeros(c, s, i, o); }
  }

  /** What a full completion does to its block and to the size. */
  lemma KernelBlock(c: Config, s: State, i: nat, o: Outcome)
    requires SlotsOk(c, s) && SlotsSized(c, s) && AllClean(s)
    requires Enabled(c, s, Kernel(i, o)) && FullStep(s, Kernel(i, o))
    ensures var s', t := Apply(c, s, Kernel(i, o)), s.slots[i].value;
            && s'.slots[i].Some? && s'.slots[i].value.off == t.off && s'.slots[i].value.len == t.len
            && BlockSlot(c, s'.slots[i].value) && Reaches(s'.size, s'.slots[i].value)
            && s.size <= s'.size && (s'.size == s.size || Written(c, s'.size - 1))
  {
    var t := s.slots[i].value;
    assert SlotOk(c, s.dst, t, false);
    CompletedBlock(c, t, o, s.size);
    CompleteBalances(c, t, o);
  }

  lemma ReachesFurther(c: Config, s: State, s': State, i: nat)
    requires SlotsSized(c, s) && s.size <= s'.size && i < |s.slots| == |s'.slots|
    requires s'.slots == s.slots[i := s'.slots[i]]
    requires s'.slots[i].Some? ==> BlockSlot(c, s'.slots[i].value) && Reaches(s'.size, s'.slots[i].value)
    ensures SlotsSized(c, s')
  {
    forall j | 0 <= j < |s'.slots| && s'.slots[j].Some?
      ensures BlockSlot(c, s'.slots[j].value) && Reaches(s'.size, s'.slots[j].value)
    {
      if j != i { assert s'.slots[j] == s.slots[j]; }
    }
  }

  lemma SameSlots(c: Config, s: State, s': State, i: nat)
    requires SizeCovers(c, s) && s.size <= s'.size && s'.offset == s.offset && i < |s.slots| == |s'.slots|
    requires s'.slots == s.slots[i := s'.slots[i]] && s.slots[i].Some? && s'.slots[i].Some?
    requires s'.slots[i].value.off == s.slots[i].value.off && s'.slots[i].value.len == s.slots[i].value.len
    ensures SizeCovers(c, s')
  {
    forall p: nat | c.start <= p < s'.offset && !InSlots(s', p) && Written(c, p) ensures p < s'.size {
      forall j | 0 <= j < |s.slots| ensures !Within(s, j, p) { assert !Within(s', j, p); }
    }
  }

  lemma KernelZeros(c: Config, s: State, i: nat, o: Outcome)
    requires Enabled(c, s, Kernel(i, o)) && s.size <= |s.dst| && forall p :: s.size <= p < |s.dst| ==> s.dst[p] == 0
    ensures var s' := Apply(c, s, Kernel(i, o));
            s'.size <= |s'.dst| && forall p :: s'.size <= p < |s'.dst| ==> s'.dst[p] == 0
  {
  }

  lemma ReapKeepsSize(c: Config, dst0: seq<byte>, s: State, i: nat)
    requires Inv(c, Image(c, dst0), s) && SizeInv(c, dst0, s) && AllClean(s) && Enabled(c, s, ReapOne(i))
    ensures SizeInv(c, dst0, Apply(c, s, ReapOne(i)))
  {
    var s', t := Apply(c, s, ReapOne(i)), s.slots[i].value;
    ReapBlock(c, s, i);
    assert SlotsSized(c, s') by { ReachesFurther(c, s, s', i); }
    assert SizeCovers(c, s') by {
      if s'.slots[i].Some? {
        SameSlots(c, s, s', i);
      } else {
        RemovedSlot(c, s, s', i);
      }
    }
  }

  /** What reaping does to its block; a block is done when it was written or punched. */
  lemma ReapBlock(c: Config, s: State, i: nat)
    requires SlotsOk(c, s) && SlotsSized(c, s) && AllClean(s) && Enabled(c, s, ReapOne(i))
    ensures var r, t := Reap(c, s.slots[i].value).slot, s.slots[i].value;
            && BlockSlot(c, t) && Reaches(s.size, t)
            && (r.Some? ==> BlockSlot(c, r.value) && Reaches(s.size, r.value))
            && (r.Some? ==> r.value.off == t.off && r.value.len == t.len)
            && (r.None? ==> t.phase.WritePosted? || t.phase.PunchPosted?)
  {
    var t := s.slots[i].value;
    assert SlotOk(c, s.dst, t, false);
    ReapedBlock(c, s.dst, t);
    ReapKeepsSlot(c, s.dst, t, false);
  }

  /** The bytes of a block that is done are within the size, or are not written. */
  lemma RemovedSlot(c: Config, s: State, s': State, i: nat)
    requires c.Valid() && SizeCovers(c, s) && i < |s.slots| == |s'.slots| && s.slots[i].Some? && s'.slots[i].None?
    requires s'.slots == s.slots[i := None] && s'.size == s.size && s'.offset == s.offset
    requires BlockSlot(c, s.slots[i].value) && Reaches(s.size, s.slots[i].value)
    requires s.slots[i].value.phase.WritePosted? || s.slots[i].value.phase.PunchPosted?
    ensures SizeCovers(c, s')
  {
    var t := s.slots[i].value;
    forall p: nat | c.start <= p < s'.offset && !InSlots(s', p) && Written(c, p) ensures p < s'.size {
      if Within(s, i, p) {
        if t.phase.PunchPosted? { PunchedIsNotWritten(c, t, p); }
      } else {
        forall j | 0 <= j < |s.slots| ensures !Within(s, j, p) { assert !Within(s', j, p); }
      }
    }
  }

  lemma {:induction false} FullRunKeepsSize(c: Config, dst0: seq<byte>, steps: seq<Step>, s: State)
    requires c.Valid() && FullRuns(c, dst0, steps, s)
    ensures SizeInv(c, dst0, s)
    decreases |steps|
  {
    if steps != [] {
      var init, last := steps[..|steps| - 1], steps[|steps| - 1];
      var prev :| FullRuns(c, dst0, init, prev) && Enabled(c, prev, last) && FullStep(prev, last)
          && Apply(c, prev, last) == s;
      FullRunKeepsSize(c, dst0, init, prev);
      FullRunsAreRuns(c, dst0, init, prev);
      RunKeepsInv(c, dst0, init, prev);
      CleanIffFull(c, dst0, init, prev);
      FullStepKeepsSize(c, dst0, prev, last);
    }
  }

  lemma FullStepKeepsSize(c: Config, dst0: seq<byte>, s: State, step: Step)
    requires Inv(c, Image(c, dst0), s) && SizeInv(c, dst0, s) && AllClean(s)
    requires Enabled(c, s, step) && FullStep(s, step)
    ensures SizeInv(c, dst0, Apply(c, s, step))
  {
    match step
    case Submit => SubmitKeepsSize(c, dst0, s);
    case Kernel(i, o) => KernelKeepsSize(c, dst0, s, i, o);
    case ReapOne(i) => ReapKeepsSize(c, dst0, s, i);
  }

  // ---------------------------------------------------------------- the results

  /** A file with `data` put in at `off`, reaching to `end` at least; anything new outside the data is zero. */
  function Landed(dst: seq<byte>, off: nat, data: seq<byte>, end: nat): (r: seq<byte>)
    ensures |r| == if |dst| <= end then end else |dst|
    ensures forall p :: 0 <= p < |r| ==>
      r[p] == if off <= p < off + |data| then data[p - off] else if p < |dst| then dst[p] else 0
  {
    var n := if |dst| <= end then end else |dst|;
    seq(n, p requires 0 <= p < n => if off <= p < off + |data| then data[p - off] else if p < |dst| then dst[p] else 0)
  }

  /** The destination as the engine should leave it: the range copied, and extended as far as blocks are written. */
  function Expected(c: Config, dst0: seq<byte>): seq<byte>
    requires c.Valid()
  {
    BlockIsPositive(c, Init(c, dst0));
    Landed(dst0, c.start, c.src[c.start..RangeEnd(c)], WrittenEnd(c.src, ModeOf(c), c.start, RangeEnd(c)))
  }

  /** At the end nothing is in flight and every buffer is in the free list exactly once, unless it leaked. */
  lemma FinishedIsIdle(c: Config, dst0: seq<byte>, steps: seq<Step>, s: State)
    requires c.Valid() && Runs(c, dst0, steps, s) && Finished(s)
    ensures s.processed + s.missed == c.total && |s.slots| == c.capacity
    ensures forall i :: 0 <= i < c.capacity ==> s.slots[i].None? && (i in s.free <==> i !in s.leaked)
    ensures forall k, m :: 0 <= k < m < |s.free| ==> s.free[k] != s.free[m]
  {
    RunKeepsInv(c, dst0, steps, s);
    NothingOutstanding(s.slots);
    EmptySum(Due, s.slots);
  }

  /**
   * At the end, everything is processed and nothing leaked exactly when no completion of the run was short or
   * interrupted.
   */
  lemma CompleteIffFull(c: Config, dst0: seq<byte>, steps: seq<Step>, s: State)
    requires c.Valid() && Runs(c, dst0, steps, s) && Finished(s)
    ensures s.processed == c.total && s.leaked == {} <==> FullRuns(c, dst0, steps, s)
  {
    FinishedIsIdle(c, dst0, steps, s);
    CleanIffFull(c, dst0, steps, s);
  }

  /**
   * For every order of completions, full as they are, an Ok return means that all bytes are processed, every
   * buffer is free exactly once and the destination, of whatever length, holds the source's range.
   */
  lemma FullRunCopies(c: Config, dst0: seq<byte>, steps: seq<Step>, s: State)
    requires c.Valid() && FullRuns(c, dst0, steps, s) && Finished(s)
    ensures s.processed == c.total && s.leaked == {} && |s.slots| == c.capacity
    ensures forall i :: 0 <= i < c.capacity ==> s.slots[i].None? && i in s.free
    ensures forall k, m :: 0 <= k < m < |s.free| ==> s.free[k] != s.free[m]
    ensures s.size <= |s.dst| && s.dst[..s.size] == Expected(c, dst0)
  {
    FullRunsAreRuns(c, dst0, steps, s);
    CompleteIffFull(c, dst0, steps, s);
    FinishedIsIdle(c, dst0, steps, s);
    FullRunKeepsSize(c, dst0, steps, s);
    RunKeepsInv(c, dst0, steps, s);
    FinalSize(c, dst0, s);
    FinalBytes(c, dst0, s);
  }

  lemma FinalSize(c: Config, dst0: seq<byte>, s: State)
    requires Inv(c, Image(c, dst0), s) && SizeInv(c, dst0, s) && s.length == 0
    requires forall i :: 0 <= i < |s.slots| ==> s.slots[i].None?
    ensures s.size == |Expected(c, dst0)|
  {
    BlockIsPositive(c, s);
    WrittenEndIsLast(c.src, ModeOf(c), c.start, RangeEnd(c));
    var r := WrittenEnd(c.src, ModeOf(c), c.start, RangeEnd(c));
    if r > 0 {
      assert Written(c, r - 1);
      assert !InSlots(s, r - 1);
    }
  }

  lemma FinalBytes(c: Config, dst0: seq<byte>, s: State)
    requires Inv(c, Image(c, dst0), s) && s.length == 0 && s.missed == 0 && s.leaked == {}
    requires s.size == |Expected(c, dst0)| && s.size <= |s.dst|
    requires forall i :: 0 <= i < |s.slots| ==> s.slots[i].None?
    ensures s.dst[..s.size] == Expected(c, dst0)
  {
    var want := Expected(c, dst0);
    forall p | 0 <= p < s.size ensures s.dst[p] == want[p] {
      assert !InSlots(s, p);
      if c.start <= p < RangeEnd(c) {
        assert s.dst[p] == c.src[p] == c.src[c.start..RangeEnd(c)][p - c.start];
      } else {
        assert s.dst[p] == Image(c, dst0)[p];
      }
    }
  }
}
