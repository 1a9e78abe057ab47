/** When an event is reported as accepted and yet neither delivered nor kept. */
module ReorderLosses {
  import opened Bytes
  import opened Reorder
  import opened ReorderRuns

  predicate IsEvent(step: Step, e: Event) { step.Callback? && step.event == e }

  ghost predicate Came(steps: seq<Step>, e: Event) { exists i :: 0 <= i < |steps| && IsEvent(steps[i], e) }

  /** No two kernel events have the same number. */
  ghost predicate Distinct(steps: seq<Step>) {
    forall i, j :: 0 <= i < j < |steps| && steps[i].Callback? && steps[j].Callback? ==>
      steps[i].event.num != steps[j].event.num
  }

  ghost predicate Inputs(steps: seq<Step>) { forall i :: 0 <= i < |steps| ==> IsInput(steps[i]) }

  /** Draining delivers, but neither accepts nor drops. */
  lemma {:induction false} DrainKeepsRecord(c: Config, l: Log, clock: nat -> nat, turn: nat)
    ensures var n := Drained(c, l, clock, turn);
            n.accepted == l.accepted && n.repeats == l.repeats && n.swallowed == l.swallowed
    decreases Measure(l.s)
  {
    var m := PopMove(c, l.s, clock(turn));
    if Taken(l.s, m).Some? {
      PopMakesProgress(c, l.s, clock(turn));
      DrainKeepsRecord(c, LogMove(l, m), clock, turn + 1);
    }
  }

  /** The log when the event of a callback is about to be pushed. */
  function Before(c: Config, l: Log, step: Step): Log { if step.Callback? then Noticed(c, l, step.notice) else l }

  /** What one step does to the record of one observed event. */
  lemma StepRecord(c: Config, l: Log, step: Step, x: Event)
    requires x.Observed?
    ensures var n, b := Stepped(c, l, step), Before(c, l, step);
            var mine := IsEvent(step, x);
            var t := Readied(b.s, x);
            && multiset(n.accepted)[x] == multiset(l.accepted)[x] + (if mine && Accepts(c, b.s, x) then 1 else 0)
            && n.repeats[x] == l.repeats[x]
                 + (if mine && Shadowed(c, t, x) && t.buffer[x.num].Observed? then 1 else 0)
            && n.swallowed[x] == l.swallowed[x]
                 + (if mine && Shadowed(c, t, x) && !t.buffer[x.num].Observed? then 1 else 0)
  {
    match step
    case Poll(clock) => DrainKeepsRecord(c, l, clock, 0);
    case Callback(notice, e, clock) =>
      var b := Noticed(c, l, notice);
      if notice.Some? { PushRecord(c, l, Panic(notice.value), x); }
      PushRecord(c, b, e, x);
      DrainKeepsRecord(c, LogPush(c, b, e), clock, 0);
  }

  lemma PushRecord(c: Config, l: Log, e: Event, x: Event)
    ensures var n, t := LogPush(c, l, e), Readied(l.s, e);
            && multiset(n.accepted)[x] == multiset(l.accepted)[x] + (if x == e && Accepts(c, l.s, e) then 1 else 0)
            && n.repeats[x] == l.repeats[x]
                 + (if x == e && Shadowed(c, t, e) && t.buffer[e.num].Observed? then 1 else 0)
            && n.swallowed[x] == l.swallowed[x]
                 + (if x == e && Shadowed(c, t, e) && !t.buffer[e.num].Observed? then 1 else 0)
  {
    AppendCount(l.accepted, e, x);
  }

  /** An event that has not come is on no record. */
  lemma {:induction false} NotComeNotRecorded(c: Config, steps: seq<Step>, x: Event)
    requires x.Observed? && !Came(steps, x)
    ensures multiset(Run(c, steps).accepted)[x] == Run(c, steps).repeats[x] == Run(c, steps).swallowed[x] == 0
  {
    if steps != [] {
      var init, last := steps[..|steps| - 1], steps[|steps| - 1];
      assert forall i :: 0 <= i < |init| ==> init[i] == steps[i];
      assert !IsEvent(last, x);
      NotComeNotRecorded(c, init, x);
      StepRecord(c, Run(c, init), last, x);
    }
  }

  /** After its own callback, nothing changes on an event's record. */
  lemma {:induction false} RecordStays(c: Config, steps: seq<Step>, k: nat, x: Event)
    requires x.Observed? && k <= |steps| && forall i :: k <= i < |steps| ==> !IsEvent(steps[i], x)
    ensures var was, now := Run(c, steps[..k]), Run(c, steps);
            && multiset(now.accepted)[x] == multiset(was.accepted)[x]
            && now.repeats[x] == was.repeats[x] && now.swallowed[x] == was.swallowed[x]
  {
    if k == |steps| {
      assert steps[..k] == steps;
    } else {
      var init, last := steps[..|steps| - 1], steps[|steps| - 1];
      assert init[..k] == steps[..k];
      RecordStays(c, init, k, x);
      StepRecord(c, Run(c, init), last, x);
    }
  }

  /** Held events have come before. */
  lemma HeldHasCome(c: Config, steps: seq<Step>, x: Event)
    requires Inputs(steps) && !Run(c, steps).wrapped && x.Observed? && Held(Run(c, steps).s.buffer, x) == 1
    ensures Came(steps, x)
  {
    RunKeepsCore(c, steps);
    assert Balanced(Run(c, steps), x);
    if !Came(steps, x) { NotComeNotRecorded(c, steps, x); }
  }

  /** A notice puts no event into the buffer. */
  lemma NoticeHoldsNothing(c: Config, l: Log, notice: Option<word>, x: Event)
    requires Shaped(l.s) && !Noticed(c, l, notice).wrapped && x.Observed?
             && Held(Noticed(c, l, notice).s.buffer, x) == 1
    ensures Held(l.s.buffer, x) == 1
  {
  }

  /** What the event finds under its number is no event, if numbers do not repeat. */
  lemma FindsNoEvent(c: Config, steps: seq<Step>, k: nat)
    requires Inputs(steps) && Distinct(steps) && k < |steps| && steps[k].Callback?
    requires !Before(c, Run(c, steps[..k]), steps[k]).wrapped
    ensures var e, b := steps[k].event, Before(c, Run(c, steps[..k]), steps[k]);
            e.num in b.s.buffer ==> !b.s.buffer[e.num].Observed?
  {
    var init := steps[..k];
    var l, e := Run(c, init), steps[k].event;
    var b := Before(c, l, steps[k]);
    RunKeepsCore(c, init);
    if steps[k].notice.Some? { PushKeepsShape(c, l.s, Panic(steps[k].notice.value)); }
    if e.num in b.s.buffer && b.s.buffer[e.num].Observed? {
      var h := b.s.buffer[e.num];
      NoticeHoldsNothing(c, l, steps[k].notice, h);
      NumberIsNew(steps, k, h);
      HeldHasCome(c, init, h);
    }
  }

  /** The buffer that an event is pushed into, on its own terms. */
  function Found(c: Config, steps: seq<Step>, k: nat): map<word, Event>
    requires k < |steps|
  {
    Before(c, Run(c, steps[..k]), steps[k]).s.buffer
  }

  ghost predicate Lost(l: Log, e: Event) { e !in l.delivered && e !in l.s.queue && Held(l.s.buffer, e) == 0 }

  /**
   * Over every run without wraparound in which numbers do not repeat: an event reported as accepted is lost, neither
   * delivered nor pending, exactly when it is not structural and a marker held its number when it was pushed.
   */
  lemma LostIffMarker(c: Config, steps: seq<Step>, k: nat)
    requires Inputs(steps) && Distinct(steps) && !Run(c, steps).wrapped
    requires k < |steps| && steps[k].Callback?
    requires Accepts(c, Before(c, Run(c, steps[..k]), steps[k]).s, steps[k].event)
    ensures var e, found := steps[k].event, Found(c, steps, k);
            Lost(Run(c, steps), e) <==> !Ordered(e) && e.num in found && !found[e.num].Observed?
  {
    var e := steps[k].event;
    EventRecord(c, steps, k);
    RunKeepsCore(c, steps);
    assert Balanced(Run(c, steps), e);
  }

  /** The record of an accepted event in the end. */
  lemma EventRecord(c: Config, steps: seq<Step>, k: nat)
    requires Inputs(steps) && Distinct(steps) && !Run(c, steps).wrapped
    requires k < |steps| && steps[k].Callback?
    requires Accepts(c, Before(c, Run(c, steps[..k]), steps[k]).s, steps[k].event)
    ensures var l, e, found := Run(c, steps), steps[k].event, Found(c, steps, k);
            && multiset(l.accepted)[e] == 1 && l.repeats[e] == 0
            && l.swallowed[e] == if !Ordered(e) && e.num in found && !found[e.num].Observed? then 1 else 0
  {
    RunUpTo(c, steps, k);
    ExpectedNumberGrows(c, steps, k + 1);
    OwnRecord(c, steps, k);
    NeverAgain(steps, k);
    RecordStays(c, steps, k + 1, steps[k].event);
  }

  lemma RunUpTo(c: Config, steps: seq<Step>, k: nat)
    requires k < |steps|
    ensures Run(c, steps[..k + 1]) == Stepped(c, Run(c, steps[..k]), steps[k])
  {
    assert steps[..k + 1][..k] == steps[..k] && steps[..k + 1][k] == steps[k];
  }

  /** The record of an accepted event right after its callback. */
  lemma OwnRecord(c: Config, steps: seq<Step>, k: nat)
    requires Inputs(steps) && Distinct(steps) && k < |steps| && steps[k].Callback?
    requires !Stepped(c, Run(c, steps[..k]), steps[k]).wrapped
    requires Accepts(c, Before(c, Run(c, steps[..k]), steps[k]).s, steps[k].event)
    ensures var l, e, found := Stepped(c, Run(c, steps[..k]), steps[k]), steps[k].event, Found(c, steps, k);
            && multiset(l.accepted)[e] == 1 && l.repeats[e] == 0
            && l.swallowed[e] == if !Ordered(e) && e.num in found && !found[e.num].Observed? then 1 else 0
  {
    var e, l := steps[k].event, Run(c, steps[..k]);
    StepWraps(c, l, steps[k]);
    FindsNoEvent(c, steps, k);
    NumberIsNew(steps, k, e);
    NotComeNotRecorded(c, steps[..k], e);
    StepRecord(c, l, steps[k], e);
    ShadowedIff(c, Before(c, l, steps[k]).s, e);
  }

  /** An accepted event is dropped exactly when its number is taken. */
  lemma ShadowedIff(c: Config, s: State, e: Event)
    requires Accepts(c, s, e) && !Wraps(Started(s, e), e)
    ensures Readied(s, e).buffer == s.buffer
    ensures Shadowed(c, Readied(s, e), e) <==> !Ordered(e) && e.num in s.buffer
  {
  }

  lemma NumberIsNew(steps: seq<Step>, k: nat, h: Event)
    requires Distinct(steps) && k < |steps| && steps[k].Callback? && h.num == steps[k].event.num
    ensures !Came(steps[..k], h)
  {
    forall i | 0 <= i < k ensures !IsEvent(steps[..k][i], h) { assert steps[..k][i] == steps[i]; }
  }

  lemma NeverAgain(steps: seq<Step>, k: nat)
    requires Distinct(steps) && k < |steps| && steps[k].Callback?
    ensures forall i :: k + 1 <= i < |steps| ==> !IsEvent(steps[i], steps[k].event)
  {
  }

  lemma {:induction false} DrainWrapped(c: Config, l: Log, clock: nat -> nat, turn: nat)
    requires l.wrapped
    ensures Drained(c, l, clock, turn).wrapped
    decreases Measure(l.s)
  {
    var m := PopMove(c, l.s, clock(turn));
    if Taken(l.s, m).Some? {
      PopMakesProgress(c, l.s, clock(turn));
      DrainWrapped(c, LogMove(l, m), clock, turn + 1);
    }
  }

  lemma StepWraps(c: Config, l: Log, step: Step)
    ensures Before(c, l, step).wrapped ==> Stepped(c, l, step).wrapped
    ensures step.Callback? && LogPush(c, Before(c, l, step), step.event).wrapped ==> Stepped(c, l, step).wrapped
  {
    match step
    case Poll(clock) => if l.wrapped { DrainWrapped(c, l, clock, 0); }
    case Callback(notice, e, clock) =>
      var n := LogPush(c, Noticed(c, l, notice), e);
      if n.wrapped { DrainWrapped(c, n, clock, 0); }
  }

  // ---------------------------------------------------------------- a loss under the program's own limits

  /** The only configuration there is: 64 MiB, 100 000 events, twice the 50 ms of latency. */
  const Actual := Config(64 * 1024 * 1024, 100_000, 100_000_000)

  const Five := Observed(5, false, 4, 0)
  const Eight := Observed(8, false, 4, 1)
  const Late := Observed(2000, false, 4, 2)
  const Nine := Observed(9, false, 4, 3)
  const After5 := Start.(s := State(map[], [], 6, 0, false), first := 5, accepted := [Five], delivered := [Five],
      onTime := {5})
  const After8 := After5.(s := State(map[8 := Eight], [], 6, 324, true), accepted := [Five, Eight])
  const Warned := After8.(s := State(map[8 := Eight, 9 := Panic(9)], [], 6, 653, true),
      accepted := [Five, Eight, Panic(9)])
  const AfterLate := Warned.(s := State(map[8 := Eight, 9 := Panic(9), 2000 := Late], [], 6, 977, true),
                             accepted := [Five, Eight, Panic(9), Late])
  const After9 := AfterLate.(accepted := [Five, Eight, Panic(9), Late, Nine], swallowed := multiset{Nine})

  lemma OneKey(k: word, e: Event)
    ensures var m := map[k := e]; k in m && m != map[] && MinKey(m) == k
  {
  }

  const Pushed5 := Start.(s := State(map[5 := Five], [], 5, 324, false), first := 5, accepted := [Five])

  lemma FirstPush()
    ensures Accepts(Actual, Start.s, Five) && LogPush(Actual, Start, Five) == Pushed5
  {
  }

  lemma FirstPop(elapsed: nat)
    ensures PopMove(Actual, Pushed5.s, elapsed) == TakeKeyed(5) && LogMove(Pushed5, TakeKeyed(5)) == After5
  {
    OneKey(5, Five);
    assert Pushed5.s.buffer - {5} == map[];
  }

  lemma FirstCallback(clock: nat -> nat)
    ensures Stepped(Actual, Start, Callback(None, Five, clock)) == After5
  {
    FirstPush();
    FirstPop(clock(0));
    PopMakesProgress(Actual, Pushed5.s, clock(0));
    assert PopMove(Actual, After5.s, clock(1)) == Nothing;
    assert Drained(Actual, After5, clock, 1) == After5;
  }

  lemma SecondCallback(clock: nat -> nat)
    ensures Stepped(Actual, After5, Callback(None, Eight, clock)) == After8
  {
    var p := LogPush(Actual, After5, Eight);
    assert p.s == State(map[8 := Eight], [], 6, 324, false);
    OneKey(8, Eight);
    assert PopMove(Actual, p.s, clock(0)) == Stall;
  }

  /** While 8 is the least number and the stall is young, nothing comes out. */
  lemma StillStalled(l: Log, clock: nat -> nat)
    requires 8 in l.s.buffer && (forall k :: k in l.s.buffer ==> 8 <= k) && |l.s.buffer| <= 3 && l.s.queue == []
    requires l.s.next == 6 && l.s.stalled && l.s.bytes < 1000 && clock(0) <= 100_000_000
    ensures Drained(Actual, l, clock, 0) == l
  {
    assert l.s.buffer != map[] && MinKey(l.s.buffer) == 8;
    assert PopMove(Actual, l.s, clock(0)) == Nothing;
  }

  lemma Notice()
    ensures LogPush(Actual, After8, Panic(9)) == Warned
  {
    assert map[8 := Eight].Keys == {8};
    assert map[8 := Eight][9 := Panic(9)] == map[8 := Eight, 9 := Panic(9)];
  }

  lemma ThirdCallback(clock: nat -> nat)
    requires clock(0) <= 100_000_000
    ensures Stepped(Actual, After8, Callback(Some(9), Late, clock)) == AfterLate
  {
    Notice();
    LatePush();
    assert AfterLate.s.buffer.Keys == {8, 9, 2000};
    StillStalled(AfterLate, clock);
  }

  lemma LatePush()
    ensures Accepts(Actual, Warned.s, Late) && LogPush(Actual, Warned, Late) == AfterLate
  {
    var m := map[8 := Eight, 9 := Panic(9)];
    assert m.Keys == {8, 9} && m[2000 := Late] == map[8 := Eight, 9 := Panic(9), 2000 := Late];
  }

  lemma FourthCallback(clock: nat -> nat)
    requires clock(0) <= 100_000_000
    ensures Stepped(Actual, AfterLate, Callback(None, Nine, clock)) == After9
  {
    assert AfterLate.s.buffer.Keys == {8, 9, 2000};
    assert LogPush(Actual, AfterLate, Nine) == After9;
    StillStalled(After9, clock);
  }

  lemma RunSnoc(c: Config, steps: seq<Step>, step: Step)
    ensures Run(c, steps + [step]) == Stepped(c, Run(c, steps), step)
  {
    assert (steps + [step])[..|steps|] == steps;
  }

  lemma RunOfFour(c: Config, a: Step, b: Step, d: Step, e: Step)
    ensures Run(c, [a, b, d, e]) == Stepped(c, Stepped(c, Stepped(c, Stepped(c, Start, a), b), d), e)
  {
    assert [] + [a] == [a] && [a] + [b] == [a, b] && [a, b] + [d] == [a, b, d] && [a, b, d] + [e] == [a, b, d, e];
    RunSnoc(c, [], a);
    RunSnoc(c, [a], b);
    RunSnoc(c, [a, b], d);
    RunSnoc(c, [a, b, d], e);
  }

  /**
   * Event 5 is delivered and 8 waits; 2000 arrives with the driver's notice of a large gap, which is kept under 9;
   * then event 9 itself arrives, is reported as accepted and lost.
   */
  lemma NoticeSwallowsEvent(clock: nat -> nat)
    requires clock(0) <= 100_000_000
    ensures var l := Run(Actual, [Callback(None, Five, clock), Callback(None, Eight, clock),
                                  Callback(Some(9), Late, clock), Callback(None, Nine, clock)]);
            !l.wrapped && Nine in l.accepted && Lost(l, Nine)
  {
    FirstCallback(clock);
    SecondCallback(clock);
    ThirdCallback(clock);
    FourthCallback(clock);
    RunOfFour(Actual, Callback(None, Five, clock), Callback(None, Eight, clock), Callback(Some(9), Late, clock),
              Callback(None, Nine, clock));
    NineIsGone();
  }

  lemma NineIsGone()
    ensures !After9.wrapped && Nine in After9.accepted && Lost(After9, Nine)
  {
    assert After9.accepted[4] == Nine;
  }
}
