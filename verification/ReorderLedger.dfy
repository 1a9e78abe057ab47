/** The byte counter of the reorder buffer against the sizes of the events it holds. */
module ReorderLedger {
  import opened Bytes
  import opened Reorder
  import opened ReorderRuns

  // ---------------------------------------------------------------- the names of markers

  const Figures := "0123456789"

  function Decimal(n: nat): string { if n < 10 then [Figures[n]] else Decimal(n / 10) + [Figures[n % 10]] }

  /** An event is charged for the name it has: markers are named by the numbers they announce. */
  lemma SizeByName(e: Event)
    requires !e.Observed?
    ensures Size(e) == 320 + |if e.Panic? then "PANIC_GAP" else "GAP-" + Decimal(e.num) + "-" + Decimal(e.upto)|
  {
    if !e.Panic? {
      DigitsAre(e.num);
      DigitsAre(e.upto);
    }
  }

  lemma {:induction false} DigitsAre(n: nat)
    ensures Digits(n) == |Decimal(n)|
  {
    if n >= 10 { DigitsAre(n / 10); }
  }

  // ---------------------------------------------------------------- the counter

  /** The sizes of all events held by number. */
  function Sum(m: map<word, Event>): nat {
    if m == map[] then 0 else
      var k := MinKey(m);
      RemoveKey(m, k);
      Size(m[k]) + Sum(m - {k})
  }

  lemma {:induction false} SumRemove(m: map<word, Event>, k: word)
    requires k in m
    ensures Sum(m) == Size(m[k]) + Sum(m - {k})
    decreases |m|
  {
    var least := MinKey(m);
    if k != least {
      var rest, without := m - {least}, m - {k};
      RemoveKey(m, least);
      SumRemove(rest, k);
      assert rest - {k} == without - {least};
      assert least in without && without != map[] && MinKey(without) == least;
    }
  }

  lemma SumInsert(m: map<word, Event>, k: word, e: Event)
    ensures Sum(m[k := e]) == Size(e) + Sum(m - {k})
  {
    var n := m[k := e];
    SumRemove(n, k);
    assert n - {k} == m - {k};
  }

  lemma SumWithout(m: map<word, Event>, k: word)
    ensures Sum(m - {k}) == Sum(m) - (if k in m then Size(m[k]) else 0)
  {
    if k in m { SumRemove(m, k); } else { assert m - {k} == m; }
  }

  /** The limit leaves room for one more event below 2^64. */
  predicate Roomy(c: Config) { c.maxBytes <= WORD - 2 * NAME_LIMIT }

  /**
   * The counter is the sum of the held sizes less what markers put in without paying, modulo 2^64; as long as no
   * marker was injected it is that sum, and within the limit.
   */
  ghost predicate Ledger(c: Config, l: Log) { Books(c, l.s.bytes, Sum(l.s.buffer), l.debt, l.injections) }

  predicate Books(c: Config, bytes: word, sum: nat, debt: int, injections: nat) {
    && (bytes - sum + debt) % WORD == 0
    && (injections == 0 && Roomy(c) ==> debt == 0 && bytes == sum <= c.maxBytes)
  }

  lemma Shift(a: int, b: int)
    ensures (a + b) % WORD == (a % WORD + b) % WORD
  {
  }

  /** The event is not kept by number. */
  predicate Passes(c: Config, t: State, e: Event) { Rejects(c, t, e) || Shadowed(c, t, e) || Ordered(e) }

  /** What a push adds to the held sizes. */
  lemma StoredSum(c: Config, t: State, e: Event)
    ensures Injects(c, t, e) ==> Sum(Stored(c, t, e).buffer) == Sum(t.buffer) + Uncharged(t, e)
    ensures Passes(c, t, e) || Sum(Stored(c, t, e).buffer) == Sum(t.buffer) + Size(e)
  {
    if Injects(c, t, e) {
      SumInsert(t.buffer, t.next, Overflow(t.next, e.num));
      SumWithout(t.buffer, t.next);
    } else if !Passes(c, t, e) {
      SumInsert(t.buffer, e.num, e);
      SumWithout(t.buffer, e.num);
    }
  }

  /** Unless it injects a marker, such a push changes neither the counter nor the map. */
  lemma StoredBytes(c: Config, t: State, e: Event)
    ensures var n := Stored(c, t, e);
            !Injects(c, t, e) && Passes(c, t, e) ==> n.bytes == t.bytes && n.buffer == t.buffer
  {
  }

  lemma InjectedBooks(c: Config, t: State, e: Event, debt: int, injections: nat)
    requires Books(c, t.bytes, Sum(t.buffer), debt, injections) && Injects(c, t, e)
    ensures Books(c, Stored(c, t, e).bytes, Sum(Stored(c, t, e).buffer), debt + Uncharged(t, e), injections + 1)
  {
    StoredSum(c, t, e);
    Unpaid(c, t.bytes, Sum(t.buffer), debt, injections, Uncharged(t, e));
  }

  lemma KeptBooks(c: Config, t: State, e: Event, debt: int, injections: nat)
    requires Books(c, t.bytes, Sum(t.buffer), debt, injections) && FromDriver(e) && !Passes(c, t, e)
    ensures Books(c, Stored(c, t, e).bytes, Sum(Stored(c, t, e).buffer), debt, injections)
  {
    StoredSum(c, t, e);
    EventSize(e);
    Paid(c, t.bytes, Sum(t.buffer), debt, injections, Size(e));
  }

  lemma StoredBooks(c: Config, t: State, e: Event, debt: int, injections: nat)
    requires Books(c, t.bytes, Sum(t.buffer), debt, injections) && FromDriver(e)
    ensures var n := Stored(c, t, e);
            if Injects(c, t, e) then Books(c, n.bytes, Sum(n.buffer), debt + Uncharged(t, e), injections + 1)
            else Books(c, n.bytes, Sum(n.buffer), debt, injections)
  {
    StoredBytes(c, t, e);
    if Injects(c, t, e) {
      InjectedBooks(c, t, e, debt, injections);
    } else if !Passes(c, t, e) {
      KeptBooks(c, t, e, debt, injections);
    }
  }

  lemma PushKeepsLedger(c: Config, l: Log, e: Event)
    requires Ledger(c, l) && !Wraps(Started(l.s, e), e) && FromDriver(e)
    ensures Ledger(c, LogPush(c, l, e))
  {
    var t := Readied(l.s, e);
    assert t.buffer == l.s.buffer && t.bytes == l.s.bytes;
    StoredBooks(c, t, e, l.debt, l.injections);
  }

  lemma EventSize(e: Event)
    requires FromDriver(e)
    ensures Size(e) < 2 * NAME_LIMIT
  {
  }

  lemma Unpaid(c: Config, bytes: word, sum: nat, debt: int, injections: nat, more: int)
    requires Books(c, bytes, sum, debt, injections) && 0 <= sum + more
    ensures Books(c, bytes, sum + more, debt + more, injections + 1)
  {
    assert bytes - (sum + more) + (debt + more) == bytes - sum + debt;
  }

  lemma Paid(c: Config, bytes: word, sum: nat, debt: int, injections: nat, size: nat)
    requires Books(c, bytes, sum, debt, injections) && size < 2 * NAME_LIMIT && (bytes + size) % WORD <= c.maxBytes
    ensures Books(c, (bytes + size) % WORD, sum + size, debt, injections)
  {
    Shift(bytes + size, -(sum + size) + debt);
  }

  lemma Refunded(c: Config, bytes: word, sum: nat, debt: int, injections: nat, size: nat)
    requires Books(c, bytes, sum, debt, injections) && size <= sum
    ensures Books(c, (bytes - size) % WORD, sum - size, debt, injections)
  {
    Shift(bytes - size, -(sum - size) + debt);
  }

  lemma MoveKeepsLedger(c: Config, l: Log, elapsed: nat)
    requires Ledger(c, l) && Popped(c, l.s, elapsed).1.Some?
    ensures Ledger(c, LogMove(l, PopMove(c, l.s, elapsed)))
  {
    NothingToSalvage(c, l.s, elapsed);
    var m := PopMove(c, l.s, elapsed);
    if m.TakeKeyed? {
      var e := l.s.buffer[m.k];
      SumRemove(l.s.buffer, m.k);
      Refunded(c, l.s.bytes, Sum(l.s.buffer), l.debt, l.injections, Size(e));
    }
  }

  lemma {:induction false} DrainKeepsLedger(c: Config, l: Log, clock: nat -> nat, turn: nat)
    requires !Drained(c, l, clock, turn).wrapped ==> Ledger(c, l)
    ensures var n := Drained(c, l, clock, turn); (!n.wrapped ==> Ledger(c, n)) && (l.wrapped ==> n.wrapped)
    decreases Measure(l.s)
  {
    var m := PopMove(c, l.s, clock(turn));
    if Taken(l.s, m).Some? {
      PopMakesProgress(c, l.s, clock(turn));
      if Ledger(c, l) { MoveKeepsLedger(c, l, clock(turn)); }
      DrainKeepsLedger(c, LogMove(l, m), clock, turn + 1);
    }
  }

  lemma StepKeepsLedger(c: Config, l: Log, step: Step)
    requires IsInput(step) && (!l.wrapped ==> Ledger(c, l))
    ensures var n := Stepped(c, l, step); (!n.wrapped ==> Ledger(c, n)) && (l.wrapped ==> n.wrapped)
  {
    match step
    case Poll(clock) => DrainWraps(c, l, clock, 0); DrainKeepsLedger(c, l, clock, 0);
    case Callback(notice, e, clock) =>
      var l1 := Noticed(c, l, notice);
      if notice.Some? && !l1.wrapped { PushKeepsLedger(c, l, Panic(notice.value)); }
      var l2 := LogPush(c, l1, e);
      if !l2.wrapped { PushKeepsLedger(c, l1, e); }
      if Accepts(c, l1.s, e) { DrainWraps(c, l2, clock, 0); DrainKeepsLedger(c, l2, clock, 0); }
  }

  lemma {:induction false} DrainWraps(c: Config, l: Log, clock: nat -> nat, turn: nat)
    ensures l.wrapped ==> Drained(c, l, clock, turn).wrapped
    decreases Measure(l.s)
  {
    var m := PopMove(c, l.s, clock(turn));
    if Taken(l.s, m).Some? {
      PopMakesProgress(c, l.s, clock(turn));
      DrainWraps(c, LogMove(l, m), clock, turn + 1);
    }
  }

  /** The counter's law over every run without wraparound. */
  lemma {:induction false} RunKeepsLedger(c: Config, steps: seq<Step>)
    requires forall i :: 0 <= i < |steps| ==> IsInput(steps[i])
    ensures !Run(c, steps).wrapped ==> Ledger(c, Run(c, steps))
  {
    if steps != [] {
      RunKeepsLedger(c, steps[..|steps| - 1]);
      StepKeepsLedger(c, Run(c, steps[..|steps| - 1]), steps[|steps| - 1]);
    }
  }

  /**
   * The counter is exact exactly when the markers' unpaid sizes cancel out: in particular, once markers have been
   * injected and everything is delivered again, an empty buffer counts 2^64 less their sizes.
   */
  lemma CounterIsExactIff(c: Config, l: Log)
    requires Ledger(c, l) && Sum(l.s.buffer) < WORD && -WORD < l.debt < WORD
    ensures l.s.bytes == Sum(l.s.buffer) <==> l.debt == 0
    ensures l.s.buffer == map[] && 0 < l.debt ==> l.s.bytes == WORD - l.debt
  {
  }

  /** After that an event smaller than the debt is turned away, however empty the buffer is. */
  lemma DebtRejects(c: Config, l: Log, e: Event)
    requires Ledger(c, l) && l.s.buffer == map[] && Size(e) < l.debt < WORD - c.maxBytes
    ensures Rejects(c, l.s, e)
  {
    CounterIsExactIff(c, l);
  }
}
