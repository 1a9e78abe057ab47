/** The reorder buffer as the object it is: fields updated in place, each method doing what the model of it says. */
module ReorderBuffer {
  import opened Bytes
  import opened Reorder
  import opened ReorderRuns

  class Buffer {
    const config: Config
    var buffer: map<word, Event>
    var structuralQueue: seq<Event>
    var nextSeq: word
    var pendingBytes: word
    var stalled: bool

    function View(): State
      reads this
    {
      State(buffer, structuralQueue, nextSeq, pendingBytes, stalled)
    }

    constructor (config: Config)
      ensures View() == Empty && this.config == config
    {
      this.config := config;
      buffer, structuralQueue, nextSeq, pendingBytes, stalled := map[], [], 0, 0, false;
    }

    method Push(e: Event) returns (accepted: bool)
      modifies this
      ensures View() == Pushed(config, old(View()), e)
      ensures accepted <==> Accepts(config, old(View()), e)
    {
      if nextSeq == 0 && buffer == map[] && structuralQueue == [] {
        nextSeq := e.num;
      }
      if nextSeq > WORD - 1 - WRAP_WINDOW && e.num < WRAP_WINDOW {
        buffer, structuralQueue, nextSeq, pendingBytes := map[], [], e.num, 0;
      }
      assert View() == Readied(old(View()), e);
      accepted := Store(e);
    }

    /** The second half of a push: room is checked, and the event goes to its queue or is turned away. */
    method Store(e: Event) returns (accepted: bool)
      modifies this
      ensures View() == Stored(config, old(View()), e)
      ensures accepted <==> !Rejects(config, old(View()), e)
    {
      var rejected := false;
      if (pendingBytes + Size(e)) % WORD > config.maxBytes {
        rejected := true;
      }
      if |buffer| + |structuralQueue| >= config.maxCount {
        if e.num > nextSeq {
          rejected := true;
        }
      }
      assert rejected <==> Rejects(config, View(), e);
      if rejected {
        if nextSeq != 0 && e.num > nextSeq {
          InjectGap(e.num);
        }
        return false;
      }
      if Ordered(e) {
        structuralQueue := structuralQueue + [e];
      } else if e.num !in buffer {
        pendingBytes := (pendingBytes + Size(e)) % WORD;
        buffer := buffer[e.num := e];
      }
      return true;
    }

    /**
     * The marker announces the numbers from the expected one up to the rejected one. If only markers are held up to
     * the expected number, as after every callback, no event is displaced by it.
     */
    method InjectGap(nextValid: word)
      modifies this`buffer
      ensures View() == Inject(old(View()), nextValid)
      ensures nextSeq in buffer && buffer[nextSeq].Overflow?
      ensures buffer[nextSeq].num == nextSeq && buffer[nextSeq].upto == nextValid
      ensures Shielded(old(View())) ==> Shielded(View())
      ensures Shielded(old(View())) && Shaped(old(View())) ==>
        forall e: Event :: e.Observed? ==> Held(buffer, e) == Held(old(buffer), e)
    {
      buffer := buffer[nextSeq := Overflow(nextSeq, nextValid)];
    }

    method Pop(elapsed: nat) returns (event: Option<Event>)
      modifies this
      ensures (View(), event) == Popped(config, old(View()), elapsed)
    {
      if |buffer| + |structuralQueue| == 0 { return None; }
      var isStructural := structuralQueue != [] && (buffer == map[] || structuralQueue[0].num <= MinKey(buffer));
      var candidate := Candidate(View());
      if candidate > nextSeq {
        event := HandleGap(candidate, elapsed);
        return;
      }
      var evt;
      if isStructural {
        evt := structuralQueue[0];
        structuralQueue := structuralQueue[1..];
      } else {
        evt := buffer[candidate];
        buffer := buffer - {candidate};
        pendingBytes := (pendingBytes - Size(evt)) % WORD;
      }
      stalled := false;
      if evt.num == nextSeq {
        nextSeq := (nextSeq + 1) % WORD;
      }
      return Some(evt);
    }

    method HandleGap(gapEnd: word, elapsed: nat) returns (event: Option<Event>)
      modifies this
      ensures var m := GapMove(config, old(View()), gapEnd, elapsed);
              View() == Moved(old(View()), m) && event == Taken(old(View()), m)
    {
      var timeout := Timeout(config, View());
      if stalled {
        if elapsed > timeout {
          var missed := Missed(View(), gapEnd);
          if missed != map[] {
            var first := missed[MinKey(missed)];
            nextSeq := (first.num + 1) % WORD;
            buffer := buffer - {first.num};
            return Some(first);
          }
          event := Some(Jump(nextSeq, gapEnd));
          nextSeq, stalled := gapEnd, false;
          return;
        }
      } else {
        if timeout == 0 {
          event := Some(Jump(nextSeq, gapEnd));
          nextSeq := gapEnd;
          return;
        }
        stalled := true;
      }
      return None;
    }

    /** The driver's loop: pop until nothing comes. It ends whatever the clock does. */
    method Drain(ghost log: Log, clock: nat -> nat) returns (delivered: seq<Event>, ghost after: Log)
      requires log.s == View()
      modifies this
      ensures after == Drained(config, log, clock, 0) && after.s == View()
      ensures after.delivered == log.delivered + delivered
    {
      var turn := 0;
      delivered, after := [], log;
      while true
        invariant Draining(config, log, clock, turn, delivered, after, View())
        decreases Measure(View())
      {
        var event;
        event, after := PopOnce(log, clock, turn, delivered, after);
        if event.None? { break; }
        delivered := delivered + [event.value];
        turn := turn + 1;
      }
    }

    method PopOnce(ghost log: Log, clock: nat -> nat, turn: nat, ghost delivered: seq<Event>, ghost now: Log)
        returns (event: Option<Event>, ghost next: Log)
      requires Draining(config, log, clock, turn, delivered, now, View())
      modifies this
      ensures event.None? ==>
        next == Drained(config, log, clock, 0) && next.s == View() && next.delivered == log.delivered + delivered
      ensures event.Some? ==> Measure(View()) < Measure(old(View()))
      ensures event.Some? ==> Draining(config, log, clock, turn + 1, delivered + [event.value], next, View())
    {
      next := DrainStep(config, log, clock, turn, delivered, now);
      event := Pop(clock(turn));
    }
  }

  /** The log so far is on its way to the drained one. */
  ghost predicate Draining(c: Config, log: Log, clock: nat -> nat, turn: nat, delivered: seq<Event>, now: Log,
      s: State) {
    && now.s == s && now.delivered == log.delivered + delivered
    && Drained(c, now, clock, turn) == Drained(c, log, clock, 0)
  }

  lemma DrainStep(c: Config, log: Log, clock: nat -> nat, turn: nat, delivered: seq<Event>, now: Log)
      returns (next: Log)
    requires Draining(c, log, clock, turn, delivered, now, now.s)
    ensures var r := Popped(c, now.s, clock(turn));
            && (r.1.None? ==> next == Drained(c, log, clock, 0) && next.s == r.0 && next.delivered == now.delivered)
            && (r.1.Some? ==> Measure(r.0) < Measure(now.s))
            && (r.1.Some? ==> Draining(c, log, clock, turn + 1, delivered + [r.1.value], next, r.0))
  {
    var m := PopMove(c, now.s, clock(turn));
    if Taken(now.s, m).None? {
      next := now.(s := Moved(now.s, m));
    } else {
      PopMakesProgress(c, now.s, clock(turn));
      next := LogMove(now, m);
      var e := Taken(now.s, m).value;
      assert (log.delivered + delivered) + [e] == log.delivered + (delivered + [e]);
    }
  }

  /** One ring callback: the large-gap notice, the event, and a drain if the event was accepted. */
  method RingCallback(b: Buffer, ghost log: Log, notice: Option<word>, e: Event, clock: nat -> nat)
      returns (delivered: seq<Event>, ghost after: Log)
    requires log.s == b.View()
    modifies b
    ensures after == Stepped(b.config, log, Callback(notice, e, clock)) && after.s == b.View()
    ensures after.delivered == log.delivered + delivered
  {
    delivered, after := [], log;
    if notice.Some? {
      var _ := b.Push(Panic(notice.value));
      after := LogPush(b.config, after, Panic(notice.value));
    }
    var accepted := b.Push(e);
    after := LogPush(b.config, after, e);
    if accepted {
      delivered, after := b.Drain(after, clock);
    }
  }
}
