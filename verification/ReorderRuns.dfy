/** Whole runs of the ring callback and the poll loop over one reorder buffer, and what every run keeps. */
module ReorderRuns {
  import opened Bytes
  import opened Reorder

  /**
   * The buffer and a record of the run so far: what was accepted and delivered; what was dropped as the repeat of a
   * number that an event held, and what because a marker held its number; the numbers whose event, or for which a
   * marker, left exactly when they were expected; the markers injected and how far they put the byte counter off;
   * and whether sequence numbers ever wrapped around.
   */
  datatype Log = Log(s: State, first: nat, accepted: seq<Event>, delivered: seq<Event>, repeats: multiset<Event>,
                     swallowed: multiset<Event>, onTime: set<nat>, marked: set<nat>, injections: nat, debt: int,
                     wrapped: bool)

  const Start := Log(Empty, 0, [], [], multiset{}, multiset{}, {}, {}, 0, 0, false)

  // ---------------------------------------------------------------- the driver

  /** What the marker adds to the pending sizes without being charged. */
  function Uncharged(t: State, e: Event): int {
    Size(Overflow(t.next, e.num)) - (if t.next in t.buffer then Size(t.buffer[t.next]) else 0)
  }

  function LogPush(c: Config, l: Log, e: Event): Log {
    var t := Readied(l.s, e);
    l.(s := Pushed(c, l.s, e),
       first := if Started(l.s, e) != l.s then e.num else l.first,
       accepted := if Rejects(c, t, e) then l.accepted else l.accepted + [e],
       repeats := if Shadowed(c, t, e) && t.buffer[e.num].Observed? then l.repeats + multiset{e} else l.repeats,
       swallowed := if Shadowed(c, t, e) && !t.buffer[e.num].Observed? then l.swallowed + multiset{e} else l.swallowed,
       injections := if Injects(c, t, e) then l.injections + 1 else l.injections,
       debt := if Injects(c, t, e) then l.debt + Uncharged(t, e) else l.debt,
       wrapped := l.wrapped || Wraps(Started(l.s, e), e))
  }

  function LogMove(l: Log, m: Move): Log
    requires CanMove(l.s, m) && Taken(l.s, m).Some?
  {
    var e := Taken(l.s, m).value;
    l.(s := Moved(l.s, m),
       delivered := l.delivered + [e],
       onTime := if e.Observed? && e.num == l.s.next then l.onTime + {l.s.next} else l.onTime,
       marked := if !e.Observed? && !m.GiveUp? && e.num == l.s.next then l.marked + {l.s.next} else l.marked,
       wrapped := l.wrapped || (e.num == l.s.next == WORD - 1))
  }

  /** Pop until nothing comes; `clock` gives the time since the stall began, pop by pop. */
  function Drained(c: Config, l: Log, clock: nat -> nat, turn: nat): Log
    decreases Measure(l.s)
  {
    var m := PopMove(c, l.s, clock(turn));
    if Taken(l.s, m).None? then l.(s := Moved(l.s, m))
    else
      PopMakesProgress(c, l.s, clock(turn));
      Drained(c, LogMove(l, m), clock, turn + 1)
  }

  /** The ring callback, with its notice of a large gap if there was one, and a round of the poll loop. */
  datatype Step = Callback(notice: Option<word>, event: Event, clock: nat -> nat) | Poll(clock: nat -> nat)

  function Noticed(c: Config, l: Log, notice: Option<word>): Log {
    if notice.Some? then LogPush(c, l, Panic(notice.value)) else l
  }

  function Stepped(c: Config, l: Log, step: Step): Log {
    match step
    case Callback(notice, e, clock) =>
      var l1 := Noticed(c, l, notice);
      var l2 := LogPush(c, l1, e);
      if Accepts(c, l1.s, e) then Drained(c, l2, clock, 0) else l2
    case Poll(clock) => Drained(c, l, clock, 0)
  }

  function Run(c: Config, steps: seq<Step>): Log {
    if steps == [] then Start else Stepped(c, Run(c, steps[..|steps| - 1]), steps[|steps| - 1])
  }

  /** The kernel's events are observations. */
  predicate IsInput(step: Step) { step.Callback? ==> step.event.Observed? }

  // ---------------------------------------------------------------- the invariants

  ghost predicate Shaped(s: State) {
    && (forall k :: k in s.buffer ==> s.buffer[k].num == k && !Ordered(s.buffer[k]) && !s.buffer[k].Jump?)
    && (forall i :: 0 <= i < |s.queue| ==> Ordered(s.queue[i]))
  }

  /** Under a number not above the expected one only markers are held. */
  ghost predicate Shielded(s: State) {
    forall k :: k in s.buffer && k <= s.next ==> !s.buffer[k].Observed?
  }

  function Held(m: map<word, Event>, e: Event): nat { if e.num in m && m[e.num] == e then 1 else 0 }

  /** Every observed event accepted was delivered, is pending, repeated a pending number or was swallowed: each once. */
  ghost predicate Conserved(l: Log) { forall e: Event :: e.Observed? ==> Balanced(l, e) }

  predicate Balanced(l: Log, e: Event) {
    multiset(l.delivered)[e] + multiset(l.s.queue)[e] + Held(l.s.buffer, e) + l.repeats[e] + l.swallowed[e]
    == multiset(l.accepted)[e]
  }

  function Structural(es: seq<Event>): seq<Event> {
    if es == [] then []
    else
      var init, last := es[..|es| - 1], es[|es| - 1];
      if Ordered(last) then Structural(init) + [last] else Structural(init)
  }

  /** Structural events leave in arrival order. */
  ghost predicate Fifo(l: Log) { Structural(l.delivered) + l.s.queue == Structural(l.accepted) }

  ghost predicate JumpedOver(es: seq<Event>, n: nat) {
    exists i :: 0 <= i < |es| && es[i].Jump? && es[i].num <= n < es[i].upto
  }

  ghost predicate Delivered(es: seq<Event>, n: nat) {
    exists i :: 0 <= i < |es| && es[i].num == n && es[i].Observed?
  }

  /** An overflow marker or a notice was emitted for the number. */
  ghost predicate MarkerFor(es: seq<Event>, n: nat) {
    exists i :: 0 <= i < |es| && es[i].num == n && (es[i].Overflow? || es[i].Panic?)
  }

  /**
   * Every number between the first and the expected one was delivered on time, had a marker emitted for it on time,
   * or was jumped over: exactly one of the three.
   */
  ghost predicate Timeline(l: Log) { Times(l.first, l.s.next, l.onTime, l.marked, l.delivered) }

  ghost predicate Times(first: nat, next: nat, onTime: set<nat>, marked: set<nat>, delivered: seq<Event>) {
    && first <= next && onTime !! marked
    && (forall n: nat :: n in onTime || n in marked || JumpedOver(delivered, n) <==> first <= n < next)
    && (forall n: nat :: n in onTime ==> !JumpedOver(delivered, n) && Delivered(delivered, n))
    && (forall n: nat :: n in marked ==> !JumpedOver(delivered, n) && MarkerFor(delivered, n))
  }

  // ---------------------------------------------------------------- one event more

  lemma StructuralSnoc(es: seq<Event>, e: Event)
    ensures Structural(es + [e]) == if Ordered(e) then Structural(es) + [e] else Structural(es)
  {
    assert (es + [e])[..|es|] == es;
  }

  lemma JumpedSnoc(es: seq<Event>, e: Event, n: nat)
    ensures JumpedOver(es + [e], n) <==> JumpedOver(es, n) || (e.Jump? && e.num <= n < e.upto)
    ensures Delivered(es + [e], n) <==> Delivered(es, n) || (e.num == n && e.Observed?)
    ensures MarkerFor(es + [e], n) <==> MarkerFor(es, n) || (e.num == n && (e.Overflow? || e.Panic?))
  {
    var all := es + [e];
    assert all[|es|] == e && forall i :: 0 <= i < |es| ==> all[i] == es[i];
    if JumpedOver(es, n) {
      var i :| 0 <= i < |es| && es[i].Jump? && es[i].num <= n < es[i].upto;
      assert all[i].Jump?;
    }
    if Delivered(es, n) {
      var i :| 0 <= i < |es| && es[i].num == n && es[i].Observed?;
      assert all[i].num == n;
    }
    if MarkerFor(es, n) {
      var i :| 0 <= i < |es| && es[i].num == n && (es[i].Overflow? || es[i].Panic?);
      assert all[i].num == n;
    }
  }

  // ---------------------------------------------------------------- pushes

  lemma PushKeepsShape(c: Config, s: State, e: Event)
    requires Shaped(s) && FromDriver(e)
    ensures Shaped(Pushed(c, s, e))
  {
  }

  /** What a push does to the entry for one event. */
  lemma StoredHolds(c: Config, t: State, e: Event, x: Event)
    requires Shaped(t) && Shielded(t) && FromDriver(e) && x.Observed?
    ensures var n := Stored(c, t, e);
            multiset(n.queue)[x] + Held(n.buffer, x)
            == multiset(t.queue)[x] + Held(t.buffer, x)
               + (if x == e && !Rejects(c, t, e) && !Shadowed(c, t, e) then 1 else 0)
  {
    if Injects(c, t, e) {
      var n := Inject(t, e.num);
      assert x.num != t.next ==> (x.num in n.buffer <==> x.num in t.buffer);
      assert x.num == t.next ==> Held(t.buffer, x) == 0 == Held(n.buffer, x);
    } else if Rejects(c, t, e) || Shadowed(c, t, e) {
    } else if Ordered(e) {
      assert multiset(t.queue + [e])[x] == multiset(t.queue)[x] + (if x == e then 1 else 0);
    } else {
      assert e.num !in t.buffer;
    }
  }

  /** A marker only ever replaces another marker. */
  lemma PushKeepsConserved(c: Config, l: Log, e: Event)
    requires Shaped(l.s) && Shielded(l.s) && Conserved(l) && FromDriver(e) && !Wraps(Started(l.s, e), e)
    ensures Conserved(LogPush(c, l, e))
  {
    forall x: Event | x.Observed? ensures Balanced(LogPush(c, l, e), x) { PushKeepsBalance(c, l, e, x); }
  }

  lemma PushKeepsBalance(c: Config, l: Log, e: Event, x: Event)
    requires Shaped(l.s) && Shielded(l.s) && Balanced(l, x) && FromDriver(e) && !Wraps(Started(l.s, e), e)
             && x.Observed?
    ensures Balanced(LogPush(c, l, e), x)
  {
    var t := Readied(l.s, e);
    assert t.queue == l.s.queue && t.buffer == l.s.buffer;
    assert Shaped(t) && Shielded(t);
    StoredHolds(c, t, e, x);
    AppendCount(l.accepted, e, x);
    assert LogPush(c, l, e).s == Stored(c, t, e);
    DroppedCount(c, l, e, x);
  }

  lemma DroppedCount(c: Config, l: Log, e: Event, x: Event)
    ensures var n := LogPush(c, l, e);
            n.repeats[x] + n.swallowed[x]
            == l.repeats[x] + l.swallowed[x] + (if x == e && Shadowed(c, Readied(l.s, e), e) then 1 else 0)
  {
  }

  lemma AppendCount(es: seq<Event>, e: Event, x: Event)
    ensures multiset(es + [e])[x] == multiset(es)[x] + (if x == e then 1 else 0)
  {
  }

  lemma PushKeepsFifo(c: Config, l: Log, e: Event)
    requires Fifo(l) && !Wraps(Started(l.s, e), e)
    ensures Fifo(LogPush(c, l, e))
  {
    StructuralSnoc(l.accepted, e);
  }

  lemma PushKeepsTimeline(c: Config, l: Log, e: Event)
    requires Timeline(l) && !Wraps(Started(l.s, e), e)
    ensures Timeline(LogPush(c, l, e)) && l.s.next <= LogPush(c, l, e).s.next
  {
  }

  /** Unless an observed event was stored, only markers stay under numbers up to the expected one. */
  lemma PushKeepsShield(c: Config, s: State, e: Event)
    requires Shielded(s) && (e.Panic? || !Accepts(c, s, e))
    ensures Shielded(Pushed(c, s, e))
  {
  }

  // ---------------------------------------------------------------- pops

  lemma MoveKeepsShape(s: State, m: Move)
    requires Shaped(s) && CanMove(s, m)
    ensures Shaped(Moved(s, m))
  {
  }

  lemma MoveKeepsConserved(l: Log, m: Move)
    requires Shaped(l.s) && Conserved(l) && CanMove(l.s, m) && Taken(l.s, m).Some?
    ensures Conserved(LogMove(l, m))
  {
    forall x: Event | x.Observed? ensures Balanced(LogMove(l, m), x) { MoveKeepsBalance(l, m, x); }
  }

  lemma MoveKeepsBalance(l: Log, m: Move, x: Event)
    requires Shaped(l.s) && Balanced(l, x) && CanMove(l.s, m) && Taken(l.s, m).Some? && x.Observed?
    ensures Balanced(LogMove(l, m), x)
  {
    AppendCount(l.delivered, Taken(l.s, m).value, x);
    if m.TakeQueue? { assert l.s.queue == [l.s.queue[0]] + l.s.queue[1..]; }
  }

  lemma MoveKeepsFifo(l: Log, m: Move)
    requires Shaped(l.s) && Fifo(l) && CanMove(l.s, m) && Taken(l.s, m).Some?
    ensures Fifo(LogMove(l, m))
  {
    StructuralSnoc(l.delivered, Taken(l.s, m).value);
    if m.TakeQueue? {
      var q := l.s.queue;
      assert Structural(l.delivered) + q == (Structural(l.delivered) + [q[0]]) + q[1..];
    }
  }

  lemma MoveKeepsTimeline(c: Config, l: Log, elapsed: nat)
    requires Shaped(l.s) && Timeline(l) && Popped(c, l.s, elapsed).1.Some?
    requires !LogMove(l, PopMove(c, l.s, elapsed)).wrapped
    ensures Timeline(LogMove(l, PopMove(c, l.s, elapsed)))
    ensures l.s.next <= Moved(l.s, PopMove(c, l.s, elapsed)).next
  {
    var m := PopMove(c, l.s, elapsed);
    NothingToSalvage(c, l.s, elapsed);
    if m.GiveUp? { GiveUpKeepsTimeline(l, m); } else { TakeKeepsTimeline(l, m); }
  }

  lemma GiveUpKeepsTimeline(l: Log, m: Move)
    requires Timeline(l) && m.GiveUp? && l.s.next < m.to
    ensures Timeline(LogMove(l, m)) && l.s.next <= Moved(l.s, m).next
  {
    TimesJump(l.first, l.s.next, l.onTime, l.marked, l.delivered, Jump(l.s.next, m.to));
  }

  lemma TakeKeepsTimeline(l: Log, m: Move)
    requires Shaped(l.s) && Timeline(l) && (m.TakeQueue? || m.TakeKeyed?) && CanMove(l.s, m)
    requires !LogMove(l, m).wrapped
    ensures Timeline(LogMove(l, m)) && l.s.next <= Moved(l.s, m).next
  {
    var e := Taken(l.s, m).value;
    assert !e.Jump? && Moved(l.s, m).next == Next(l.s.next, e);
    TakenTimeline(l, LogMove(l, m), e);
  }

  lemma TakenTimeline(l: Log, n: Log, e: Event)
    requires Timeline(l) && !e.Jump? && (e.num == l.s.next ==> l.s.next < WORD - 1)
    requires n.first == l.first && n.s.next == Next(l.s.next, e) && n.delivered == l.delivered + [e]
    requires n.onTime == if e.Observed? && e.num == l.s.next then l.onTime + {l.s.next} else l.onTime
    requires n.marked == if !e.Observed? && e.num == l.s.next then l.marked + {l.s.next} else l.marked
    ensures Timeline(n) && l.s.next <= n.s.next
  {
    TimesTake(l.first, l.s.next, l.onTime, l.marked, l.delivered, e);
  }

  lemma TimesJump(first: nat, next: nat, onTime: set<nat>, marked: set<nat>, delivered: seq<Event>, e: Event)
    requires Times(first, next, onTime, marked, delivered) && e.Jump? && e.num == next < e.upto
    ensures Times(first, e.upto, onTime, marked, delivered + [e])
  {
    forall k: nat { JumpedSnoc(delivered, e, k); }
  }

  lemma TimesTake(first: nat, next: nat, onTime: set<nat>, marked: set<nat>, delivered: seq<Event>, e: Event)
    requires Times(first, next, onTime, marked, delivered) && !e.Jump?
    ensures if e.num != next then Times(first, next, onTime, marked, delivered + [e])
            else if e.Observed? then Times(first, next + 1, onTime + {next}, marked, delivered + [e])
            else Times(first, next + 1, onTime, marked + {next}, delivered + [e])
  {
    forall k: nat { JumpedSnoc(delivered, e, k); }
  }

  /** Once nothing more comes, every held number is above the expected one. */
  lemma DrainedIsShielded(c: Config, s: State, elapsed: nat)
    requires Popped(c, s, elapsed).1.None?
    ensures Shielded(Popped(c, s, elapsed).0)
  {
  }

  // ---------------------------------------------------------------- runs

  /** What every run keeps until sequence numbers wrap around. */
  ghost predicate Core(l: Log) { !l.wrapped ==> Shaped(l.s) && Conserved(l) && Fifo(l) && Timeline(l) }

  lemma PushKeepsCore(c: Config, l: Log, e: Event)
    requires Core(l) && FromDriver(e) && (!l.wrapped ==> Shielded(l.s))
    ensures Core(LogPush(c, l, e))
    ensures !LogPush(c, l, e).wrapped ==> l.s.next <= LogPush(c, l, e).s.next
    ensures !LogPush(c, l, e).wrapped && (e.Panic? || !Accepts(c, l.s, e)) ==> Shielded(LogPush(c, l, e).s)
  {
    if !LogPush(c, l, e).wrapped {
      PushKeepsShape(c, l.s, e);
      PushKeepsConserved(c, l, e);
      PushKeepsFifo(c, l, e);
      PushKeepsTimeline(c, l, e);
      if e.Panic? || !Accepts(c, l.s, e) { PushKeepsShield(c, l.s, e); }
    }
  }

  lemma MoveKeepsCore(c: Config, l: Log, elapsed: nat)
    requires Core(l) && Popped(c, l.s, elapsed).1.Some?
    ensures var n := LogMove(l, PopMove(c, l.s, elapsed));
            Core(n) && (!n.wrapped ==> l.s.next <= n.s.next)
  {
    var m := PopMove(c, l.s, elapsed);
    if !LogMove(l, m).wrapped {
      MoveKeepsShape(l.s, m);
      MoveKeepsConserved(l, m);
      MoveKeepsFifo(l, m);
      MoveKeepsTimeline(c, l, elapsed);
    }
  }

  lemma {:induction false} DrainKeepsCore(c: Config, l: Log, clock: nat -> nat, turn: nat)
    requires Core(l)
    ensures var n := Drained(c, l, clock, turn);
            Core(n) && (!n.wrapped ==> !l.wrapped && Shielded(n.s) && l.s.next <= n.s.next)
    decreases Measure(l.s)
  {
    var m := PopMove(c, l.s, clock(turn));
    if Taken(l.s, m).None? {
      DrainedIsShielded(c, l.s, clock(turn));
    } else {
      PopMakesProgress(c, l.s, clock(turn));
      MoveKeepsCore(c, l, clock(turn));
      DrainKeepsCore(c, LogMove(l, m), clock, turn + 1);
    }
  }

  lemma StepKeepsCore(c: Config, l: Log, step: Step)
    requires Core(l) && IsInput(step) && (!l.wrapped ==> Shielded(l.s))
    ensures var n := Stepped(c, l, step);
            Core(n) && (!n.wrapped ==> !l.wrapped && Shielded(n.s) && l.s.next <= n.s.next)
  {
    match step
    case Poll(clock) => DrainKeepsCore(c, l, clock, 0);
    case Callback(notice, e, clock) =>
      var l1 := Noticed(c, l, notice);
      if notice.Some? { PushKeepsCore(c, l, Panic(notice.value)); }
      PushKeepsCore(c, l1, e);
      if Accepts(c, l1.s, e) { DrainKeepsCore(c, LogPush(c, l1, e), clock, 0); }
  }

  /**
   * Exactly-once delivery, arrival order of structural events and complete gap coverage, over every run in which
   * sequence numbers do not wrap around.
   */
  lemma {:induction false} RunKeepsCore(c: Config, steps: seq<Step>)
    requires forall i :: 0 <= i < |steps| ==> IsInput(steps[i])
    ensures var l := Run(c, steps);
            !l.wrapped ==> Shaped(l.s) && Shielded(l.s) && Conserved(l) && Fifo(l) && Timeline(l)
  {
    if steps != [] {
      RunKeepsCore(c, steps[..|steps| - 1]);
      StepKeepsCore(c, Run(c, steps[..|steps| - 1]), steps[|steps| - 1]);
    }
  }

  /** The expected number never decreases. */
  lemma {:induction false} ExpectedNumberGrows(c: Config, steps: seq<Step>, k: nat)
    requires k <= |steps| && forall i :: 0 <= i < |steps| ==> IsInput(steps[i])
    ensures !Run(c, steps).wrapped ==> !Run(c, steps[..k]).wrapped && Run(c, steps[..k]).s.next <= Run(c, steps).s.next
  {
    if k == |steps| {
      assert steps[..k] == steps;
    } else {
      var init := steps[..|steps| - 1];
      assert init[..k] == steps[..k];
      ExpectedNumberGrows(c, init, k);
      RunKeepsCore(c, init);
      StepKeepsCore(c, Run(c, init), steps[|steps| - 1]);
    }
  }
}
