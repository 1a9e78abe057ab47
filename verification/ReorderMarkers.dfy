/** The range that an overflow marker announces as a gap, and the events held within it. */
module ReorderMarkers {
  import opened Bytes
  import opened Reorder
  import opened ReorderRuns
  import opened ReorderLosses

  /** Is an event held under this number? */
  predicate HoldsEvent(s: State, k: word) { k in s.buffer && s.buffer[k].Observed? }

  /** The marker that a rejected event leaves. */
  function MarkerOf(t: State, e: Event): Event { Overflow(t.next, e.num) }

  /** The range that the marker announces holds an event, which the marker then denies. */
  ghost predicate DeniesHeld(s: State, marker: Event)
    requires marker.Overflow?
  {
    exists k: word :: HoldsEvent(s, k) && marker.num <= k < marker.upto
  }

  /**
   * Unlike a jump, an overflow marker can announce a range in which events are held: exactly when an event below the
   * rejected number is. All of them stay held.
   */
  lemma OverflowDeniesIff(c: Config, t: State, e: Event)
    requires Shaped(t) && Shielded(t) && Injects(c, t, e)
    ensures var n := Stored(c, t, e);
            && t.next in n.buffer && n.buffer[t.next] == MarkerOf(t, e)
            && (DeniesHeld(n, MarkerOf(t, e)) <==> exists k: word :: HoldsEvent(t, k) && k < e.num)
            && (forall k: word :: HoldsEvent(t, k) ==> HoldsEvent(n, k) && n.buffer[k] == t.buffer[k])
  {
    var n := Stored(c, t, e);
    forall k: word ensures HoldsEvent(n, k) <==> HoldsEvent(t, k) {
      if k == t.next { assert !HoldsEvent(t, k); }
    }
    if k: word :| HoldsEvent(t, k) && k < e.num {
      assert HoldsEvent(n, k) && t.next <= k < e.num;
    }
    if k: word :| HoldsEvent(n, k) && t.next <= k < e.num {
      assert HoldsEvent(t, k);
    }
  }

  /** Delivered and pending copies of an event never become fewer. */
  lemma {:induction false} KeptForGood(c: Config, steps: seq<Step>, k: nat, x: Event)
    requires Inputs(steps) && !Run(c, steps).wrapped && k <= |steps| && x.Observed?
    ensures Kept(Run(c, steps[..k]), x) <= Kept(Run(c, steps), x)
  {
    ExpectedNumberGrows(c, steps, k);
    RunKeepsCore(c, steps);
    RunKeepsCore(c, steps[..k]);
    assert Balanced(Run(c, steps), x) && Balanced(Run(c, steps[..k]), x);
    RecordGrows(c, steps, k, x);
  }

  function Kept(l: Log, x: Event): nat { multiset(l.delivered)[x] + multiset(l.s.queue)[x] + Held(l.s.buffer, x) }

  /** What was accepted and not dropped. */
  function Net(l: Log, x: Event): int {
    (multiset(l.accepted)[x] as int) - (l.repeats[x] as int) - (l.swallowed[x] as int)
  }

  lemma {:induction false} RecordGrows(c: Config, steps: seq<Step>, k: nat, x: Event)
    requires k <= |steps| && x.Observed?
    ensures Net(Run(c, steps[..k]), x) <= Net(Run(c, steps), x)
  {
    if k == |steps| {
      assert steps[..k] == steps;
    } else {
      var init, last := steps[..|steps| - 1], steps[|steps| - 1];
      assert init[..k] == steps[..k];
      RecordGrows(c, init, k, x);
      StepRecord(c, Run(c, init), last, x);
    }
  }

  /**
   * Over every run without wraparound: an event that a callback finds held, whatever marker it leaves, is pending or
   * delivered ever after.
   */
  lemma HeldIsNeverLost(c: Config, steps: seq<Step>, k: nat, x: Event)
    requires Inputs(steps) && !Run(c, steps).wrapped && k < |steps| && steps[k].Callback? && x.Observed?
    requires Held(Found(c, steps, k), x) == 1
    ensures !Lost(Run(c, steps), x)
  {
    assert Held(Run(c, steps[..k]).s.buffer, x) == 1 by { HeldBefore(c, steps, k, x); }
    KeptForGood(c, steps, k, x);
    KeptIsNotLost(Run(c, steps), x);
  }

  lemma KeptIsNotLost(l: Log, x: Event)
    ensures Kept(l, x) > 0 <==> !Lost(l, x)
  {
  }

  /** What the event of a callback finds held was held before the notice that goes ahead of it. */
  lemma HeldBefore(c: Config, steps: seq<Step>, k: nat, x: Event)
    requires Inputs(steps) && !Run(c, steps).wrapped && k < |steps| && steps[k].Callback? && x.Observed?
    requires Held(Found(c, steps, k), x) == 1
    ensures Held(Run(c, steps[..k]).s.buffer, x) == 1
  {
    var init, upto := steps[..k], steps[..k + 1];
    ExpectedNumberGrows(c, steps, k + 1);
    assert upto[..k] == init && upto[k] == steps[k];
    assert Run(c, upto) == Stepped(c, Run(c, init), steps[k]);
    StepWraps(c, Run(c, init), steps[k]);
    NoticeWraps(c, Run(c, init), steps[k].notice);
    RunKeepsCore(c, init);
    NoticeHoldsNothing(c, Run(c, init), steps[k].notice, x);
  }

  lemma NoticeWraps(c: Config, l: Log, notice: Option<word>)
    ensures l.wrapped ==> Noticed(c, l, notice).wrapped
  {
  }

  // ---------------------------------------------------------------- such a marker under the program's own limits

  /** Structural events 10, 11, 12, ... queue up behind event 8 while 6 is missing and no time passes. */
  function Queued(n: nat): seq<Event>
    requires n < 1_000_000
  {
    seq(n, i requires 0 <= i < n => Observed(10 + i, true, 4, i))
  }

  function Filling(n: nat, clock: nat -> nat): seq<Step>
    requires n < 1_000_000
  {
    seq(n, i requires 0 <= i < n => Callback(None, Observed(10 + i, true, 4, i), clock))
  }

  function Filled(n: nat): State
    requires n < 1_000_000
  {
    State(map[8 := Eight], Queued(n), 6, 324, true)
  }

  lemma FilledStall(n: nat, elapsed: nat)
    requires n < 1_000_000 && elapsed == 0
    ensures PopMove(Actual, Filled(n), elapsed) == Nothing
  {
    OneKey(8, Eight);
  }

  lemma FillStep(n: nat, l: Log, clock: nat -> nat)
    requires n < 100_000 - 1 && l.s == Filled(n) && clock(0) == 0
    ensures Stepped(Actual, l, Callback(None, Observed(10 + n, true, 4, n), clock)).s == Filled(n + 1)
  {
    var e := Observed(10 + n, true, 4, n);
    var p := LogPush(Actual, l, e);
    assert Queued(n) + [e] == Queued(n + 1);
    assert |map[8 := Eight]| == 1;
    assert p.s == Filled(n + 1);
    FilledStall(n + 1, clock(0));
    assert Drained(Actual, p, clock, 0).s == p.s;
  }

  /** Events 5 and 8, then n structural ones. */
  function Beginning(n: nat, clock: nat -> nat): seq<Step>
    requires n < 1_000_000
  {
    [Callback(None, Five, clock), Callback(None, Eight, clock)] + Filling(n, clock)
  }

  lemma RunOfTwo(c: Config, a: Step, b: Step)
    ensures Run(c, [a, b]) == Stepped(c, Stepped(c, Start, a), b)
  {
    assert [] + [a] == [a] && [a] + [b] == [a, b];
    RunSnoc(c, [], a);
    RunSnoc(c, [a], b);
  }

  lemma FillBase(clock: nat -> nat)
    ensures Run(Actual, Beginning(0, clock)).s == Filled(0)
  {
    var a, b := Callback(None, Five, clock), Callback(None, Eight, clock);
    assert Filling(0, clock) == [] && [a, b] + [] == [a, b];
    RunOfTwo(Actual, a, b);
    FirstCallback(clock);
    SecondCallback(clock);
    assert Queued(0) == [];
  }

  lemma BeginningSnoc(n: nat, clock: nat -> nat)
    requires n < 100_000
    ensures Beginning(n + 1, clock) == Beginning(n, clock) + [Callback(None, Observed(10 + n, true, 4, n), clock)]
  {
    assert Filling(n + 1, clock) == Filling(n, clock) + [Callback(None, Observed(10 + n, true, 4, n), clock)];
  }

  lemma {:induction false} FillRun(n: nat, clock: nat -> nat)
    requires n < 100_000 && clock(0) == 0
    ensures Run(Actual, Beginning(n, clock)).s == Filled(n)
  {
    if n == 0 {
      FillBase(clock);
    } else {
      FillRun(n - 1, clock);
      BeginningSnoc(n - 1, clock);
      FillMore(n - 1, Beginning(n - 1, clock), clock);
    }
  }

  lemma FillMore(n: nat, steps: seq<Step>, clock: nat -> nat)
    requires n < 100_000 - 1 && Run(Actual, steps).s == Filled(n) && clock(0) == 0
    ensures Run(Actual, steps + [Callback(None, Observed(10 + n, true, 4, n), clock)]).s == Filled(n + 1)
  {
    FillStep(n, Run(Actual, steps), clock);
    RunSnoc(Actual, steps, Callback(None, Observed(10 + n, true, 4, n), clock));
  }

  /**
   * With 100 000 events pending, event 200 000 is turned away, and the marker announces that everything from 6 up to
   * it is missing, although event 8 is held.
   */
  lemma FullBufferDeniesHeld(clock: nat -> nat)
    requires clock(0) == 0
    ensures var t := Run(Actual, Beginning(99_999, clock)).s;
            var e := Observed(200_000, false, 4, 7);
            Injects(Actual, t, e) && HoldsEvent(t, 8) && DeniesHeld(Stored(Actual, t, e), MarkerOf(t, e))
  {
    var t, e := Filled(99_999), Observed(200_000, false, 4, 7);
    FillRun(99_999, clock);
    assert |map[8 := Eight]| == 1;
    assert Injects(Actual, t, e);
    assert HoldsEvent(t, 8);
    FilledIsShaped(99_999);
    OverflowDeniesIff(Actual, t, e);
  }

  lemma FilledIsShaped(n: nat)
    requires n < 1_000_000
    ensures Shaped(Filled(n)) && Shielded(Filled(n))
  {
  }
}
