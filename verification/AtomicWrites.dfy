/** Atomic writes of the copy engine: which lengths and offsets the kernel is asked for. */
module AtomicWrites {
  import opened Bytes
  import opened BufferPool
  import opened CopyEngine
  import Chunker

  ghost predicate IsPow2(n: nat) { exists k: nat :: n == Chunker.Pow2(k) }

  /** What a device accepts as one atomic write: a power of two within its limits, at a multiple of the length. */
  ghost predicate Acceptable(c: Config, off: nat, len: nat) {
    0 < c.atomicMin <= len <= c.atomicMax && IsPow2(len) && off % len == 0
  }

  lemma {:induction false} PowerOfTwoIff(n: nat)
    ensures PowerOfTwo(n) <==> IsPow2(n)
  {
    if PowerOfTwo(n) {
      if n == 1 {
        assert n == Chunker.Pow2(0);
      } else {
        PowerOfTwoIff(n / 2);
        var k: nat :| n / 2 == Chunker.Pow2(k);
        assert n == Chunker.Pow2(k + 1);
      }
    }
    if IsPow2(n) {
      var k: nat :| n == Chunker.Pow2(k);
      Pow2IsPowerOfTwo(k);
    }
  }

  lemma {:induction false} Pow2IsPowerOfTwo(k: nat)
    ensures PowerOfTwo(Chunker.Pow2(k))
  {
    if k > 0 { Pow2IsPowerOfTwo(k - 1); }
  }

  lemma AtomicOkIff(c: Config, off: nat, len: nat)
    ensures AtomicOk(c, off, len) <==> Acceptable(c, off, len)
  {
    PowerOfTwoIff(len);
  }

  /** Every block meant for an atomic write can be one. */
  ghost predicate BlocksAcceptable(c: Config, s: State) {
    forall i :: 0 <= i < |s.slots| && s.slots[i].Some? && s.slots[i].value.atomic ==>
      c.atomic && Acceptable(c, s.slots[i].value.off, s.slots[i].value.len)
  }

  lemma StepKeepsAcceptable(c: Config, s: State, step: Step)
    requires BlocksAcceptable(c, s) && Enabled(c, s, step)
    ensures BlocksAcceptable(c, Apply(c, s, step))
  {
    if step.Submit? && c.atomic { AtomicOkIff(c, s.offset, NextLen(c, s)); }
  }

  lemma {:induction false} RunKeepsAcceptable(c: Config, dst0: seq<byte>, steps: seq<Step>, s: State)
    requires Runs(c, dst0, steps, s)
    ensures BlocksAcceptable(c, s)
    decreases |steps|
  {
    if steps != [] {
      var init, last := steps[..|steps| - 1], steps[|steps| - 1];
      var prev :| Runs(c, dst0, init, prev) && Enabled(c, prev, last) && Apply(c, prev, last) == s;
      RunKeepsAcceptable(c, dst0, init, prev);
      StepKeepsAcceptable(c, prev, last);
    }
  }

  /**
   * In every run an atomic write that is submitted covers its whole block and is acceptable, unless a read came up
   * short: then it covers the bytes read.
   */
  lemma AtomicWriteIs(c: Config, dst0: seq<byte>, steps: seq<Step>, s: State, i: nat)
    requires c.Valid() && Runs(c, dst0, steps, s) && i < |s.slots| && s.slots[i].Some?
    requires s.slots[i].value.atomic && s.slots[i].value.phase.WriteSubmitted?
    ensures var t := s.slots[i].value;
            && c.atomic && t.phase.n <= t.len && Acceptable(c, t.off, t.len)
            && (t.phase.n < t.len ==> s.missed > 0)
            && (s.missed == 0 ==> Acceptable(c, t.off, t.phase.n))
  {
    SlotIsOk(c, dst0, steps, s, i);
    RunKeepsAcceptable(c, dst0, steps, s);
  }

  lemma SlotIsOk(c: Config, dst0: seq<byte>, steps: seq<Step>, s: State, i: nat)
    requires c.Valid() && Runs(c, dst0, steps, s) && i < |s.slots| && s.slots[i].Some?
    ensures SlotOk(c, s.dst, s.slots[i].value, s.missed > 0)
  {
    RunKeepsInv(c, dst0, steps, s);
    assert SlotsOk(c, s);
  }

  lemma RunsOn(c: Config, dst0: seq<byte>, steps: seq<Step>, s: State, step: Step)
    requires Runs(c, dst0, steps, s) && Enabled(c, s, step)
    ensures Runs(c, dst0, steps + [step], Apply(c, s, step))
  {
    assert (steps + [step])[..|steps|] == steps;
  }

  lemma FirstBlock(c: Config, dst0: seq<byte>) returns (i: nat, s: State)
    requires c.Valid() && c.atomic && Enabled(c, Init(c, dst0), Submit)
    ensures Runs(c, dst0, [Submit], s) && i < |s.slots|
    ensures s.slots[i] == Some(Slot(c.start, NextLen(c, Init(c, dst0)), [], 0, true, ReadSubmitted))
    ensures c.start + NextLen(c, Init(c, dst0)) <= |c.src| && c.start <= |s.dst|
  {
    var s0 := Init(c, dst0);
    i := Picked(c.shared, s0.free);
    s := Apply(c, s0, Submit);
    RunsOn(c, dst0, [], s0, Submit);
    assert [] + [Submit] == [Submit];
  }

  lemma ReadThree(c: Config, dst0: seq<byte>) returns (steps: seq<Step>, i: nat, s: State)
    requires c.Valid() && c.atomic && Enabled(c, Init(c, dst0), Submit) && NextLen(c, Init(c, dst0)) > 3
    ensures Runs(c, dst0, steps, s) && i < |s.slots| && s.slots[i].Some?
    ensures var t := s.slots[i].value; t.off == c.start && t.atomic && t.phase == ReadPosted(3)
  {
    var s1;
    i, s1 := FirstBlock(c, dst0);
    var read := Kernel(i, Transferred(3));
    assert Effect(s1.slots[i].value, Transferred(3)) == [];
    RunsOn(c, dst0, [Submit], s1, read);
    steps, s := [Submit] + [read], Apply(c, s1, read);
  }

  /** For every call whose first block has more than three bytes, a read of three leads to an atomic write of three. */
  lemma ShortReadIsWrittenAtomically(c: Config, dst0: seq<byte>) returns (steps: seq<Step>, i: nat, s: State)
    requires c.Valid() && c.atomic && Enabled(c, Init(c, dst0), Submit) && NextLen(c, Init(c, dst0)) > 3
    ensures Runs(c, dst0, steps, s) && i < |s.slots| && s.slots[i].Some?
    ensures var t := s.slots[i].value; t.atomic && t.phase == WriteSubmitted(3) && !Acceptable(c, t.off, 3)
  {
    var before, s2;
    before, i, s2 := ReadThree(c, dst0);
    RunsOn(c, dst0, before, s2, ReapOne(i));
    steps, s := before + [ReapOne(i)], Apply(c, s2, ReapOne(i));
    PowerOfTwoIff(3);
  }
}
