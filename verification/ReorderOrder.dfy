/** In which order a reorder buffer lets its events go, when it waits for a missing number, and when it gives it up. */
module ReorderOrder {
  import opened Bytes
  import opened Reorder
  import opened ReorderRuns

  /** No event next in line, in the queue or under a number, has a number below n. */
  ghost predicate FirstInLine(s: State, n: nat) {
    (s.queue != [] ==> n <= s.queue[0].num) && forall k :: k in s.buffer ==> n <= k
  }

  /** Everything next in line is above the expected number. */
  ghost predicate AllAhead(s: State) {
    (s.queue != [] ==> s.next < s.queue[0].num) && forall k :: k in s.buffer ==> s.next < k
  }

  predicate Pending(s: State) { s.queue != [] || s.buffer != map[] }

  lemma PendingIff(s: State)
    ensures s.Len() > 0 <==> Pending(s)
  {
    if s.buffer != map[] {
      var k :| k in s.buffer;
      RemoveKey(s.buffer, k);
    }
  }

  /** More than 1000 events or four fifths of the bytes. */
  predicate Heavy(c: Config, s: State) { |s.buffer| + |s.queue| > 1000 || 5 * s.bytes > 4 * c.maxBytes }

  /** At most 100 events and half of the bytes. */
  predicate Calm(c: Config, s: State) { |s.buffer| + |s.queue| <= 100 && 2 * s.bytes <= c.maxBytes }

  /** Heavy pressure is relieved as soon as any time has passed, some in ten milliseconds, a calm buffer waits. */
  predicate Overdue(c: Config, s: State, elapsed: nat) {
    if Heavy(c, s) then s.stalled ==> elapsed > 0
    else if Calm(c, s) then if s.stalled then elapsed > c.baseTimeout else c.baseTimeout == 0
    else s.stalled && elapsed > 10_000_000
  }

  /**
   * What comes out has a number at most that of the queue's head and every number held. A jump ends at the least of
   * these, which is above the expected number. Nothing comes out of a buffer with something in it only while
   * everything next in line is ahead of the expected number.
   */
  lemma PopTakesLeast(c: Config, s: State, elapsed: nat)
    requires Shaped(s)
    ensures var r := Popped(c, s, elapsed);
            && (r.1.Some? ==> FirstInLine(s, r.1.value.num) && r.1.value.num <= s.next)
            && (r.1.Some? && r.1.value.Jump? ==>
                  && r.1.value.num == s.next < r.1.value.upto == r.0.next && FirstInLine(s, r.1.value.upto)
                  && ((s.queue != [] && r.1.value.upto == s.queue[0].num) || r.1.value.upto in s.buffer))
            && (r.1.None? ==> AllAhead(s))
  {
    NothingToSalvage(c, s, elapsed);
    PendingIff(s);
  }

  /** The head of the queue leaves when it is due and nothing held has a lower number: it wins ties. */
  lemma QueueLeavesIff(c: Config, s: State, elapsed: nat)
    requires Shaped(s) && s.queue != []
    ensures Popped(c, s, elapsed).1 == Some(s.queue[0])
            <==> s.queue[0].num <= s.next && FirstInLine(s, s.queue[0].num)
    ensures Popped(c, s, elapsed).1 == Some(s.queue[0]) ==>
              Popped(c, s, elapsed).0
              == s.(queue := s.queue[1..], stalled := false,
                    next := if s.queue[0].num == s.next then (s.next + 1) % WORD else s.next)
  {
    NothingToSalvage(c, s, elapsed);
    PendingIff(s);
  }

  /** An event held by number leaves when it is due, no held number is lower and the queue's head is higher. */
  lemma HeldLeavesIff(c: Config, s: State, elapsed: nat, k: word)
    requires Shaped(s) && k in s.buffer
    ensures Popped(c, s, elapsed).1 == Some(s.buffer[k])
            <==> k <= s.next && FirstInLine(s, k) && (s.queue != [] ==> k < s.queue[0].num)
    ensures Popped(c, s, elapsed).1 == Some(s.buffer[k]) ==>
              Popped(c, s, elapsed).0
              == s.(buffer := s.buffer - {k}, bytes := (s.bytes - Size(s.buffer[k])) % WORD, stalled := false,
                    next := if k == s.next then (s.next + 1) % WORD else s.next)
  {
    NothingToSalvage(c, s, elapsed);
    PendingIff(s);
  }

  /** A gap is given up exactly when it is overdue; until then the buffer stalls, and nothing else changes. */
  lemma GivesUpIff(c: Config, s: State, elapsed: nat)
    requires Pending(s) && AllAhead(s)
    ensures var r := Popped(c, s, elapsed);
            if Overdue(c, s, elapsed)
            then r.1.Some? && r.1.value == Jump(s.next, r.0.next) && r.0 == s.(next := r.0.next, stalled := false)
            else r == (s.(stalled := true), None)
  {
    NothingToSalvage(c, s, elapsed);
    PendingIff(s);
  }

  // ---------------------------------------------------------------- draining

  ghost predicate Ascending(es: seq<Event>) { forall i, j :: 0 <= i < j < |es| ==> es[i].num <= es[j].num }

  /** All numbers stay clear of the wraparound. */
  ghost predicate Below(s: State, n: nat) {
    (forall i :: 0 <= i < |s.queue| ==> s.queue[i].num < n) && forall k :: k in s.buffer ==> k < n
  }

  /** The queue is in order, and nothing to come has a number below `floor`. */
  ghost predicate InOrderFrom(s: State, floor: nat) {
    Shaped(s) && Ascending(s.queue) && Below(s, WORD - 1) && FirstInLine(s, floor) && floor <= s.next
  }

  /** The move takes what is due and first in line, or jumps to what is. */
  ghost predicate LeastMove(s: State, m: Move) {
    match m
    case TakeQueue => s.queue != [] && s.queue[0].num <= s.next && FirstInLine(s, s.queue[0].num)
    case TakeKeyed(k) => k in s.buffer && k <= s.next && FirstInLine(s, k)
    case GiveUp(to) => s.next < to && FirstInLine(s, to)
    case _ => false
  }

  lemma PopIsLeast(c: Config, s: State, elapsed: nat)
    requires Taken(s, PopMove(c, s, elapsed)).Some?
    ensures LeastMove(s, PopMove(c, s, elapsed))
  {
    NothingToSalvage(c, s, elapsed);
  }

  /** What is left after such a move is not below what came out. */
  lemma MoveKeepsOrder(s: State, m: Move, floor: nat)
    requires InOrderFrom(s, floor) && LeastMove(s, m)
    ensures CanMove(s, m) && Taken(s, m).Some?
    ensures floor <= Taken(s, m).value.num && InOrderFrom(Moved(s, m), Taken(s, m).value.num)
  {
    MoveKeepsShape(s, m);
    match m
    case TakeQueue => if |s.queue| > 1 { assert s.queue[0].num <= s.queue[1].num; }
    case TakeKeyed(k) =>
    case GiveUp(to) =>
  }

  lemma PopKeepsOrder(c: Config, s: State, elapsed: nat, floor: nat)
    requires InOrderFrom(s, floor) && Popped(c, s, elapsed).1.Some?
    ensures var r := Popped(c, s, elapsed); floor <= r.1.value.num && InOrderFrom(r.0, r.1.value.num)
  {
    PopIsLeast(c, s, elapsed);
    MoveKeepsOrder(s, PopMove(c, s, elapsed), floor);
  }

  /** Only events in order of number, none below `floor`, are added. */
  ghost predicate AddsInOrder(before: seq<Event>, after: seq<Event>, floor: nat) {
    && |before| <= |after| && after[..|before|] == before && Ascending(after[|before|..])
    && forall i :: |before| <= i < |after| ==> floor <= after[i].num
  }

  lemma AddsFirst(before: seq<Event>, e: Event, after: seq<Event>, floor: nat)
    requires AddsInOrder(before + [e], after, e.num) && floor <= e.num
    ensures AddsInOrder(before, after, floor)
  {
    var n := |before|;
    assert after[..n] == after[..n + 1][..n] == before;
    assert after[n] == after[..n + 1][n] == e;
    forall i, j | 0 <= i < j < |after| - n ensures after[n..][i].num <= after[n..][j].num {
      if i > 0 { assert after[n..][i] == after[n + 1..][i - 1] && after[n..][j] == after[n + 1..][j - 1]; }
    }
  }

  /** Whatever holds of a state and a number, and passes at every pop to what is left and what came out. */
  ghost predicate Passes(c: Config, holds: (State, nat) -> bool) {
    forall s, elapsed, floor: nat :: holds(s, floor) && Popped(c, s, elapsed).1.Some? ==>
      floor <= Popped(c, s, elapsed).1.value.num && holds(Popped(c, s, elapsed).0, Popped(c, s, elapsed).1.value.num)
  }

  lemma {:induction false} DrainAscends(c: Config, holds: (State, nat) -> bool, l: Log, clock: nat -> nat, turn: nat,
                                        floor: nat)
    requires Passes(c, holds) && holds(l.s, floor)
    ensures AddsInOrder(l.delivered, Drained(c, l, clock, turn).delivered, floor)
    decreases Measure(l.s)
  {
    var r := Popped(c, l.s, clock(turn));
    if r.1.Some? {
      var next := LogMove(l, PopMove(c, l.s, clock(turn)));
      PopMakesProgress(c, l.s, clock(turn));
      DrainAscends(c, holds, next, clock, turn + 1, r.1.value.num);
      AddsFirst(l.delivered, r.1.value, Drained(c, next, clock, turn + 1).delivered, floor);
    }
  }

  /** If structural events are queued in order of number, one drain lets everything go in order of number. */
  lemma DrainInOrder(c: Config, l: Log, clock: nat -> nat, turn: nat, floor: nat)
    requires InOrderFrom(l.s, floor)
    ensures AddsInOrder(l.delivered, Drained(c, l, clock, turn).delivered, floor)
  {
    var holds := (s: State, n: nat) => InOrderFrom(s, n);
    forall s, elapsed, n: nat | holds(s, n) && Popped(c, s, elapsed).1.Some?
      ensures n <= Popped(c, s, elapsed).1.value.num
      ensures holds(Popped(c, s, elapsed).0, Popped(c, s, elapsed).1.value.num)
    {
      PopKeepsOrder(c, s, elapsed, n);
    }
    DrainAscends(c, holds, l, clock, turn, floor);
  }

  /**
   * A drain stops only with everything pending ahead of the expected number; and unless time stands still, only with
   * at most 1000 events pending and at most four fifths of the bytes used.
   */
  lemma {:induction false} DrainRelieves(c: Config, l: Log, clock: nat -> nat, turn: nat)
    ensures var s := Drained(c, l, clock, turn).s;
            && AllAhead(s) && (Pending(s) ==> s.stalled)
            && ((forall t :: clock(t) > 0) && Pending(s) ==> !Heavy(c, s))
    decreases Measure(l.s)
  {
    var m := PopMove(c, l.s, clock(turn));
    PendingIff(l.s);
    if Taken(l.s, m).None? {
      NothingToSalvage(c, l.s, clock(turn));
      if Pending(l.s) { GivesUpIff(c, l.s, clock(turn)); }
    } else {
      PopMakesProgress(c, l.s, clock(turn));
      DrainRelieves(c, LogMove(l, m), clock, turn + 1);
    }
  }

  // ---------------------------------------------------------------- pushing

  /** The number expected when e arrives: the first event ever is expected. */
  function Expected(s: State, e: Event): word { if s.next == 0 && !Pending(s) then e.num else s.next }

  /** The number starts over: everything held is forgotten. */
  predicate StartsOver(s: State, e: Event) { Expected(s, e) >= WORD - 100000 && e.num < 100000 }

  predicate FitsIn(c: Config, s: State, e: Event) {
    && (s.bytes + 320 + NameLength(e)) % WORD <= c.maxBytes
    && (|s.buffer| + |s.queue| < c.maxCount || e.num <= Expected(s, e))
  }

  lemma ReadiedIs(s: State, e: Event)
    requires !StartsOver(s, e)
    ensures Readied(s, e) == s.(next := Expected(s, e))
  {
    PendingIff(s);
  }

  /** An event is accepted exactly when its bytes fit, and there is room for one more or it is not ahead. */
  lemma AcceptedIff(c: Config, s: State, e: Event)
    requires !StartsOver(s, e)
    ensures Accepts(c, s, e) <==> FitsIn(c, s, e)
  {
    ReadiedIs(s, e);
  }

  /**
   * An accepted structural event goes last, any other is kept under its number unless that is taken; one turned away
   * while ahead leaves a marker under the expected number, and otherwise nothing.
   */
  lemma PushedIs(c: Config, s: State, e: Event)
    requires !StartsOver(s, e)
    ensures var t, n := Pushed(c, s, e), Expected(s, e);
            && t.next == n && t.stalled == s.stalled
            && t.queue == (if FitsIn(c, s, e) && Ordered(e) then s.queue + [e] else s.queue)
            && t.buffer == (if !FitsIn(c, s, e) && 0 < n < e.num then s.buffer[n := Overflow(n, e.num)]
                            else if !FitsIn(c, s, e) || Ordered(e) || e.num in s.buffer then s.buffer
                            else s.buffer[e.num := e])
  {
    ReadiedIs(s, e);
    AcceptedIff(c, s, e);
  }

  /** After the last 100 000 numbers come the first 100 000: they are taken as a fresh start. */
  lemma FreshStart(c: Config, s: State, e: Event)
    requires StartsOver(s, e)
    ensures Pushed(c, s, e) == Pushed(c, State(map[], [], e.num, 0, s.stalled), e)
    ensures Accepts(c, s, e) <==> Accepts(c, State(map[], [], e.num, 0, s.stalled), e)
  {
    PendingIff(s);
  }
}
