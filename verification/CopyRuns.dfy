/** Runs of the copy engine: that they end, what a partial completion does to them, and the loop itself. */
module CopyRuns {
  import opened Bytes
  import opened BufferPool
  import opened CopyEngine
  import opened CopyOutcome

  // ---------------------------------------------------------------- what an Ok return does not promise

  lemma ExtendRun(c: Config, dst0: seq<byte>, steps: seq<Step>, s: State, step: Step)
    requires Runs(c, dst0, steps, s) && Enabled(c, s, step)
    ensures Runs(c, dst0, steps + [step], Apply(c, s, step))
  {
    assert (steps + [step])[..|steps + [step]| - 1] == steps;
  }

  /** The first submission of a segment that fits one buffer. */
  lemma SubmitAll(c: Config, dst0: seq<byte>) returns (i: nat, s: State)
    requires c.Valid() && 0 < c.total <= c.chunkSize && !c.atomic
    ensures Runs(c, dst0, [Submit], s) && i < |s.slots| && s.length == 0 && s.dst == Image(c, dst0)
            && s.size == |dst0| && s.processed == 0
    ensures var phase := if c.Linked() then PairSubmitted else ReadSubmitted;
            s.slots[i] == Some(Slot(c.start, c.total, [], 0, false, phase))
    ensures s.inflight == (if c.Linked() then 2 else 1) && s.leaked == {}
  {
    var s0 := Init(c, dst0);
    assert Runs(c, dst0, [], s0);
    ExtendRun(c, dst0, [], s0, Submit);
    assert [] + [Submit] == [Submit];
    i, s := Picked(c.shared, s0.free), Apply(c, s0, Submit);
  }

  lemma BreakPair(c: Config, dst0: seq<byte>, n: nat) returns (i: nat, s: State)
    requires c.Valid() && n < c.total <= c.chunkSize && c.Linked()
    ensures Runs(c, dst0, [Submit] + [Kernel(i, Transferred(n))], s) && i < |s.slots| && s.slots[i].Some?
    ensures s.slots[i].value.phase.PairBroken? && s.length == 0 && s.inflight == 2 && s.processed == 0
    ensures s.dst == Image(c, dst0) && s.size == |dst0| && s.leaked == {}
  {
    var s1;
    i, s1 := SubmitAll(c, dst0);
    var k := Kernel(i, Transferred(n));
    assert Effect(s1.slots[i].value, Transferred(n)) == [];
    ExtendRun(c, dst0, [Submit], s1, k);
    s := Apply(c, s1, k);
    assert s.dst == Image(c, dst0) && s.size == |dst0|;
  }

  /** A short read breaks a linked pair: the engine returns Ok having copied nothing, and says so in `processed`. */
  lemma ShortReadIsOk(c: Config, dst0: seq<byte>, n: nat) returns (steps: seq<Step>, s: State)
    requires c.Valid() && n < c.total <= c.chunkSize && c.Linked()
    ensures Runs(c, dst0, steps, s) && Finished(s) && s.processed == 0 && s.leaked == {} && s.dst == Image(c, dst0)
            && s.size == |dst0|
  {
    var i, s1 := BreakPair(c, dst0, n);
    var before := [Submit] + [Kernel(i, Transferred(n))];
    ExtendRun(c, dst0, before, s1, ReapOne(i));
    var s2 := Apply(c, s1, ReapOne(i));
    ExtendRun(c, dst0, before + [ReapOne(i)], s2, ReapOne(i));
    s := Apply(c, s2, ReapOne(i));
    steps := before + [ReapOne(i)] + [ReapOne(i)];
  }

  /** A zero block read in full: its punch is submitted, and its bytes already count. */
  lemma PunchAll(c: Config, dst0: seq<byte>) returns (steps: seq<Step>, i: nat, s: State)
    requires c.Valid() && PUNCH_MIN <= c.total <= c.chunkSize
    requires c.zeroBlocks && !c.atomic && AllZero(c.src[c.start..c.start + c.total])
    ensures Runs(c, dst0, steps, s) && i < |s.slots| && s.length == 0 && s.inflight == 1 && s.dst == Image(c, dst0)
            && s.size == |dst0|
    ensures s.processed == c.total && s.slots[i].Some? && s.slots[i].value.phase == PunchSubmitted(c.total)
    ensures s.slots[i].value.off == c.start && s.slots[i].value.len == c.total
  {
    var before, s2;
    before, i, s2 := ReadAll(c, dst0);
    ExtendRun(c, dst0, before, s2, ReapOne(i));
    s := Apply(c, s2, ReapOne(i));
    steps := before + [ReapOne(i)];
  }

  lemma ReadAll(c: Config, dst0: seq<byte>) returns (steps: seq<Step>, i: nat, s: State)
    requires c.Valid() && 0 < c.total <= c.chunkSize && !c.atomic && !c.Linked()
    ensures Runs(c, dst0, steps, s) && i < |s.slots| && s.length == 0 && s.inflight == 1 && s.dst == Image(c, dst0)
            && s.size == |dst0|
    ensures s.processed == 0
    ensures s.slots[i]
            == Some(Slot(c.start, c.total, c.src[c.start..c.start + c.total], 0, false, ReadPosted(c.total)))
  {
    var s1;
    i, s1 := SubmitAll(c, dst0);
    var k := Kernel(i, Transferred(c.total));
    assert Effect(s1.slots[i].value, Transferred(c.total)) == [];
    ExtendRun(c, dst0, [Submit], s1, k);
    s := Apply(c, s1, k);
    assert s.dst == Image(c, dst0) && s.size == |dst0|;
    steps := [Submit] + [k];
  }

  /** An interrupted punch leaks its buffer: all bytes count as processed although none was written. */
  lemma InterruptedPunchIsOk(c: Config, dst0: seq<byte>) returns (steps: seq<Step>, s: State)
    requires c.Valid() && PUNCH_MIN <= c.total <= c.chunkSize
    requires c.zeroBlocks && !c.atomic && AllZero(c.src[c.start..c.start + c.total])
    ensures Runs(c, dst0, steps, s) && Finished(s) && s.processed == c.total && s.leaked != {}
            && s.dst == Image(c, dst0) && s.size == |dst0|
  {
    var before, i, s1 := PunchAll(c, dst0);
    var k := Kernel(i, Interrupted);
    assert Effect(s1.slots[i].value, Interrupted) == [];
    ExtendRun(c, dst0, before, s1, k);
    var s2 := Apply(c, s1, k);
    assert s2.dst == s1.dst;
    ExtendRun(c, dst0, before + [k], s2, ReapOne(i));
    s := Apply(c, s2, ReapOne(i));
    steps := before + [k] + [ReapOne(i)];
    assert i in s.leaked;
  }

  // ---------------------------------------------------------------- termination

  /** Steps a slot can still take, counted generously. */
  function Rank(s: Slot): nat {
    match s.phase
    case ReadSubmitted => 7
    case PairSubmitted => 7
    case ReadPosted(n) => 6
    case PairReadPosted => 6
    case WriteSubmitted(n) => if s.atomic then 5 else 3
    case PunchSubmitted(n) => 5
    case PairBothPosted(w) => 5
    case PairWriteInterrupted => 5
    case PairBroken => 5
    case WriteRefused(n) => 4
    case _ => 2
  }

  function Work(s: State): nat { 8 * s.length + Sum(Rank, s.slots) }

  lemma RankFalls(c: Config, s: Slot)
    ensures forall o | CanComplete(s, o) && s.off + s.len <= |c.src| :: Rank(Complete(c, s, o)) < Rank(s)
    ensures CanReap(s) ==> At(Rank, Reap(c, s).slot) < Rank(s)
  {
  }

  /** Every step uses up work, so every run ends. */
  lemma StepUsesWork(c: Config, dst0: seq<byte>, s: State, step: Step)
    requires Inv(c, dst0, s) && Enabled(c, s, step)
    ensures Work(Apply(c, s, step)) < Work(s)
  {
    var s' := Apply(c, s, step);
    match step
    case Submit =>
      var i := Picked(c.shared, s.free);
      assert i in s.free;
      SumUpdate(Rank, s.slots, i, s'.slots[i]);
    case Kernel(i, o) =>
      RankFalls(c, s.slots[i].value);
      SumUpdate(Rank, s.slots, i, s'.slots[i]);
    case ReapOne(i) =>
      RankFalls(c, s.slots[i].value);
      SumUpdate(Rank, s.slots, i, s'.slots[i]);
  }

  /**
   * Until the loop ends some full step is possible, as long as one buffer b has not leaked and the next atomic
   * write, if there is one, is admissible.
   */
  lemma NeverStuck(c: Config, dst0: seq<byte>, s: State, b: nat) returns (step: Step)
    requires Inv(c, dst0, s) && !Finished(s) && b < c.capacity && b !in s.leaked
    requires c.atomic && s.length > 0 ==> AtomicOk(c, s.offset, NextLen(c, s))
    ensures Enabled(c, s, step) && FullStep(s, step)
  {
    if i :| 0 <= i < |s.slots| && s.slots[i].Some? {
      var t := s.slots[i].value;
      if CanReap(t) {
        step := ReapOne(i);
      } else {
        step := Kernel(i, FullOutcome(t));
        EffectIsSource(c, s.dst, t, FullOutcome(t), s.missed > 0);
      }
    } else {
      EmptySum(Outstanding, s.slots);
      assert b in s.free;
      step := Submit;
    }
  }

  /** Buffer b has not leaked and is not about to. */
  ghost predicate Usable(s: State, b: nat) {
    b < |s.slots| && b !in s.leaked && (s.slots[b].Some? ==> !s.slots[b].value.phase.PunchInterrupted?)
  }

  /** Every block of the range is admissible as an atomic write, if writes are atomic. */
  ghost predicate AtomicBlocks(c: Config) {
    c.atomic ==> forall o: nat {:trigger OnGrid(ModeOf(c).block, c.start, o)} ::
      c.start <= o < RangeEnd(c) && OnGrid(ModeOf(c).block, c.start, o)
      ==> AtomicOk(c, o, Min(RangeEnd(c) - o, ModeOf(c).block))
  }

  ghost predicate AtBlock(c: Config, s: State) {
    s.offset == RangeEnd(c) || (c.start <= s.offset && OnGrid(ModeOf(c).block, c.start, s.offset))
  }

  lemma StepKeepsBlocks(c: Config, image: seq<byte>, s: State, step: Step)
    requires Inv(c, image, s) && AtBlock(c, s) && Enabled(c, s, step)
    ensures AtBlock(c, Apply(c, s, step))
  {
    if step.Submit? { NewBlock(c, s); }
  }

  lemma FullStepKeepsUsable(c: Config, image: seq<byte>, s: State, step: Step, b: nat)
    requires Inv(c, image, s) && Usable(s, b) && Enabled(c, s, step) && FullStep(s, step)
    ensures Usable(Apply(c, s, step), b)
  {
  }

  lemma {:induction false} RunsAtBlocks(c: Config, dst0: seq<byte>, steps: seq<Step>, s: State)
    requires c.Valid() && Runs(c, dst0, steps, s)
    ensures AtBlock(c, s)
    decreases |steps|
  {
    if steps != [] {
      var init, last := steps[..|steps| - 1], steps[|steps| - 1];
      var prev :| Runs(c, dst0, init, prev) && Enabled(c, prev, last) && Apply(c, prev, last) == s;
      RunsAtBlocks(c, dst0, init, prev);
      RunKeepsInv(c, dst0, init, prev);
      StepKeepsBlocks(c, Image(c, dst0), prev, last);
    }
  }

  /** Full steps lead from one state to another. */
  ghost predicate Leads(c: Config, s: State, steps: seq<Step>, last: State)
    decreases |steps|
  {
    if steps == [] then last == s
    else Enabled(c, s, steps[0]) && FullStep(s, steps[0]) && Leads(c, Apply(c, s, steps[0]), steps[1..], last)
  }

  lemma {:induction false} LeadsToEnd(c: Config, image: seq<byte>, s: State, b: nat)
      returns (more: seq<Step>, last: State)
    requires Inv(c, image, s) && AtBlock(c, s) && AtomicBlocks(c) && Usable(s, b)
    ensures Leads(c, s, more, last) && Finished(last)
    decreases Work(s)
  {
    if Finished(s) {
      more, last := [], s;
    } else {
      BlockIsPositive(c, s);
      var step := NeverStuck(c, image, s, b);
      StepKeepsInv(c, image, s, step);
      StepUsesWork(c, image, s, step);
      StepKeepsBlocks(c, image, s, step);
      FullStepKeepsUsable(c, image, s, step, b);
      var rest;
      rest, last := LeadsToEnd(c, image, Apply(c, s, step), b);
      more := [step] + rest;
      assert more[1..] == rest;
    }
  }

  /** Whatever grows step by step, as runs do, grows along such steps. */
  lemma {:induction false} RunOn(c: Config, runs: (seq<Step>, State) -> bool, steps: seq<Step>, s: State,
                                 more: seq<Step>, last: State)
    requires runs(steps, s) && Leads(c, s, more, last)
    requires forall before, t, step ::
               runs(before, t) && Enabled(c, t, step) ==> runs(before + [step], Apply(c, t, step))
    ensures runs(steps + more, last)
    decreases |more|
  {
    if more == [] {
      assert steps + [] == steps;
    } else {
      RunOn(c, runs, steps + [more[0]], Apply(c, s, more[0]), more[1..], last);
      assert steps + [more[0]] + more[1..] == steps + more;
    }
  }

  /** Every run can be driven to the end of the loop while one buffer is usable; and none goes on for ever. */
  lemma CanFinish(c: Config, dst0: seq<byte>, steps: seq<Step>, s: State, b: nat) returns (more: seq<Step>, last: State)
    requires c.Valid() && AtomicBlocks(c) && Runs(c, dst0, steps, s) && Usable(s, b)
    ensures Runs(c, dst0, steps + more, last) && Finished(last)
  {
    RunKeepsInv(c, dst0, steps, s);
    RunsAtBlocks(c, dst0, steps, s);
    more, last := LeadsToEnd(c, Image(c, dst0), s, b);
    forall before, t, step | Runs(c, dst0, before, t) && Enabled(c, t, step)
      ensures Runs(c, dst0, before + [step], Apply(c, t, step))
    {
      ExtendRun(c, dst0, before, t, step);
    }
    RunOn(c, (before, t) => Runs(c, dst0, before, t), steps, s, more, last);
  }

  // ---------------------------------------------------------------- the loop itself

  /** A schedule played: what is possible happens, the rest is passed over, until the loop ends. */
  function Played(c: Config, s: State, schedule: seq<Step>): State
    decreases |schedule|
  {
    if schedule == [] || Finished(s) then s
    else Played(c, if Enabled(c, s, schedule[0]) then Apply(c, s, schedule[0]) else s, schedule[1..])
  }

  /** No completion that happens is short or interrupted. */
  ghost predicate PlayedFull(c: Config, s: State, schedule: seq<Step>)
    decreases |schedule|
  {
    if schedule == [] || Finished(s) then true
    else if Enabled(c, s, schedule[0]) then
      FullStep(s, schedule[0]) && PlayedFull(c, Apply(c, s, schedule[0]), schedule[1..])
    else PlayedFull(c, s, schedule[1..])
  }

  lemma {:induction false} PlayedIsRun(c: Config, dst0: seq<byte>, steps: seq<Step>, s: State, schedule: seq<Step>)
      returns (all: seq<Step>)
    requires Runs(c, dst0, steps, s)
    ensures Runs(c, dst0, all, Played(c, s, schedule))
    ensures FullRuns(c, dst0, all, Played(c, s, schedule))
            <==> FullRuns(c, dst0, steps, s) && PlayedFull(c, s, schedule)
    decreases |schedule|
  {
    if schedule == [] || Finished(s) {
      all := steps;
    } else if !Enabled(c, s, schedule[0]) {
      all := PlayedIsRun(c, dst0, steps, s, schedule[1..]);
    } else {
      ExtendRun(c, dst0, steps, s, schedule[0]);
      ExtendFull(c, dst0, steps, s, schedule[0]);
      all := PlayedIsRun(c, dst0, steps + [schedule[0]], Apply(c, s, schedule[0]), schedule[1..]);
    }
  }

  lemma ExtendFull(c: Config, dst0: seq<byte>, steps: seq<Step>, s: State, step: Step)
    requires Runs(c, dst0, steps, s) && Enabled(c, s, step)
    ensures FullRuns(c, dst0, steps + [step], Apply(c, s, step)) <==> FullRuns(c, dst0, steps, s) && FullStep(s, step)
  {
    var all, next := steps + [step], Apply(c, s, step);
    assert all[..|all| - 1] == steps && all[|all| - 1] == step;
    if FullRuns(c, dst0, all, next) {
      var was :| FullRuns(c, dst0, steps, was) && Enabled(c, was, step) && FullStep(was, step)
          && Apply(c, was, step) == next;
      FullRunsAreRuns(c, dst0, steps, was);
      RunsAgree(c, dst0, steps, s, was);
    }
  }

  /** The file the engine leaves. */
  function FileOf(s: State): seq<byte> { if s.size <= |s.dst| then s.dst[..s.size] else s.dst }

  /**
   * The engine driven by any schedule of submissions, kernel completions and reaped completions. An Ok return
   * has everything processed and nothing leaked exactly when no completion was short or interrupted, and then
   * the range is copied.
   */
  method ProcessSegment(c: Config, dst0: seq<byte>, schedule: seq<Step>) returns (s: State, ok: bool)
    requires c.Valid()
    ensures s == Played(c, Init(c, dst0), schedule) && (ok <==> Finished(s))
    ensures ok ==> (s.processed == c.total && s.leaked == {} <==> PlayedFull(c, Init(c, dst0), schedule))
    ensures ok && PlayedFull(c, Init(c, dst0), schedule) ==> FileOf(s) == Expected(c, dst0)
  {
    s := Init(c, dst0);
    var turn := 0;
    assert schedule[0..] == schedule;
    while turn < |schedule| && !Finished(s)
      invariant turn <= |schedule| && Played(c, s, schedule[turn..]) == Played(c, Init(c, dst0), schedule)
    {
      assert schedule[turn..][1..] == schedule[turn + 1..];
      if Enabled(c, s, schedule[turn]) {
        s := Apply(c, s, schedule[turn]);
      }
      turn := turn + 1;
    }
    ok := Finished(s);
    PlayedResult(c, dst0, schedule);
  }

  lemma PlayedResult(c: Config, dst0: seq<byte>, schedule: seq<Step>)
    requires c.Valid()
    ensures var s := Played(c, Init(c, dst0), schedule);
            var full := PlayedFull(c, Init(c, dst0), schedule);
            && (Finished(s) ==> (s.processed == c.total && s.leaked == {} <==> full))
            && (Finished(s) && full ==> FileOf(s) == Expected(c, dst0))
  {
    assert Runs(c, dst0, [], Init(c, dst0)) && FullRuns(c, dst0, [], Init(c, dst0));
    var s := Played(c, Init(c, dst0), schedule);
    var all := PlayedIsRun(c, dst0, [], Init(c, dst0), schedule);
    if Finished(s) {
      CompleteIffFull(c, dst0, all, s);
      if PlayedFull(c, Init(c, dst0), schedule) { FullRunCopies(c, dst0, all, s); }
    }
  }
}
