/**
 * Ingress ordering: structural events in a FIFO queue, the others keyed by sequence number, gaps jumped after a
 * stall and overflow markers for what is turned away.
 */
module Reorder {
  import opened Bytes

  const WRAP_WINDOW := 100000
  const MARK_COUNT_HIGH := 1000
  const MARK_COUNT_LOW := 100
  const SHORT_WAIT := 10_000_000

  /** Names are far shorter than this. */
  const NAME_LIMIT := 0x1_0000_0000
  type Short = n: int | 0 <= n < NAME_LIMIT

  /**
   * Kernel events (`id` stands for everything the buffer does not look at), the driver's notice of a large gap,
   * and the markers made here: an overflow marker for a rejected event, a jump marker for a gap given up on.
   */
  datatype Event =
    | Observed(num: word, ordered: bool, nameLength: Short, id: nat)
    | Panic(num: word)
    | Overflow(num: word, upto: word)
    | Jump(num: word, upto: word)

  predicate FromDriver(e: Event) { e.Observed? || e.Panic? }

  predicate Ordered(e: Event) { e.Observed? && e.ordered }

  function Digits(n: nat): nat { if n < 10 then 1 else 1 + Digits(n / 10) }

  /** The length of the event's name; markers are named GAP-from-to. */
  function NameLength(e: Event): nat {
    match e
    case Observed(_, _, n, _) => n
    case Panic(_) => 9
    case Overflow(a, b) => 5 + Digits(a) + Digits(b)
    case Jump(a, b) => 5 + Digits(a) + Digits(b)
  }

  function Size(e: Event): nat { 256 + NameLength(e) + 64 }

  /** Limits, and the base stall timeout in nanoseconds. */
  datatype Config = Config(maxBytes: word, maxCount: nat, baseTimeout: nat)

  datatype State = State(buffer: map<word, Event>, queue: seq<Event>, next: word, bytes: word, stalled: bool)
  {
    function Len(): nat { |buffer| + |queue| }
  }

  const Empty := State(map[], [], 0, 0, false)

  // ---------------------------------------------------------------- push

  /** The first event ever sets the expected sequence number. */
  function Started(s: State, e: Event): State {
    if s.next == 0 && s.buffer == map[] && s.queue == [] then s.(next := e.num) else s
  }

  predicate Wraps(s: State, e: Event) { s.next > WORD - 1 - WRAP_WINDOW && e.num < WRAP_WINDOW }

  function Readied(s: State, e: Event): State {
    var t := Started(s, e);
    if Wraps(t, e) then State(map[], [], e.num, 0, t.stalled) else t
  }

  predicate Rejects(c: Config, t: State, e: Event) {
    (t.bytes + Size(e)) % WORD > c.maxBytes || (t.Len() >= c.maxCount && e.num > t.next)
  }

  /** The marker replaces whatever is held under the expected number, and is not charged for. */
  function Inject(t: State, upto: word): State {
    t.(buffer := t.buffer[t.next := Overflow(t.next, upto)])
  }

  predicate Injects(c: Config, t: State, e: Event) { Rejects(c, t, e) && t.next != 0 && e.num > t.next }

  /** A keyed event whose number is taken is dropped, and yet reported as accepted. */
  predicate Shadowed(c: Config, t: State, e: Event) { !Rejects(c, t, e) && !Ordered(e) && e.num in t.buffer }

  function Stored(c: Config, t: State, e: Event): State {
    if Injects(c, t, e) then Inject(t, e.num)
    else if Rejects(c, t, e) || Shadowed(c, t, e) then t
    else if Ordered(e) then t.(queue := t.queue + [e])
    else t.(buffer := t.buffer[e.num := e], bytes := (t.bytes + Size(e)) % WORD)
  }

  function Pushed(c: Config, s: State, e: Event): State { Stored(c, Readied(s, e), e) }

  predicate Accepts(c: Config, s: State, e: Event) { !Rejects(c, Readied(s, e), e) }

  // ---------------------------------------------------------------- pop

  lemma {:induction false} Least(keys: set<word>) returns (k: word)
    requires keys != {}
    ensures k in keys && forall j :: j in keys ==> k <= j
  {
    var x :| x in keys;
    var rest := keys - {x};
    if rest == {} {
      k := x;
    } else {
      var y := Least(rest);
      k := if x <= y then x else y;
    }
    assert forall j :: j in keys ==> j == x || j in rest;
  }

  lemma LeastExists(keys: set<word>)
    requires keys != {}
    ensures exists k :: k in keys && forall j :: j in keys ==> k <= j
  {
    var k := Least(keys);
  }

  function MinKey(m: map<word, Event>): (k: word)
    requires m != map[]
    ensures k in m && forall j :: j in m ==> k <= j
  {
    assert m.Keys != {} by { var x :| x in m; }
    LeastExists(m.Keys);
    var k :| k in m.Keys && forall j :: j in m.Keys ==> k <= j;
    k
  }

  /** The head to consider: the queue's wins ties. */
  predicate QueueFirst(s: State) { s.queue != [] && (s.buffer == map[] || s.queue[0].num <= MinKey(s.buffer)) }

  function Candidate(s: State): word
    requires s.Len() > 0
  {
    if QueueFirst(s) then s.queue[0].num else MinKey(s.buffer)
  }

  /** No waiting under heavy pressure, ten milliseconds under some, else the configured time. */
  function Timeout(c: Config, s: State): nat {
    if s.Len() > MARK_COUNT_HIGH || s.bytes * 10 > c.maxBytes * 8 then 0
    else if s.Len() > MARK_COUNT_LOW || s.bytes * 10 > c.maxBytes * 5 then SHORT_WAIT
    else c.baseTimeout
  }

  /** Held events with numbers in the gap before `gapEnd`. */
  function Missed(s: State, gapEnd: word): map<word, Event> {
    map k | k in s.buffer && s.next <= k < gapEnd :: s.buffer[k]
  }

  /** What one pop does. */
  datatype Move = Nothing | Stall | TakeQueue | TakeKeyed(k: word) | GiveUp(to: word) | Salvage(k: word)

  function GapMove(c: Config, s: State, gapEnd: word, elapsed: nat): Move {
    if s.stalled then
      if elapsed > Timeout(c, s) then
        if Missed(s, gapEnd) != map[] then Salvage(MinKey(Missed(s, gapEnd))) else GiveUp(gapEnd)
      else Nothing
    else if Timeout(c, s) == 0 then GiveUp(gapEnd)
    else Stall
  }

  function PopMove(c: Config, s: State, elapsed: nat): Move {
    if s.Len() == 0 then Nothing
    else if Candidate(s) > s.next then GapMove(c, s, Candidate(s), elapsed)
    else if QueueFirst(s) then TakeQueue
    else TakeKeyed(Candidate(s))
  }

  predicate CanMove(s: State, m: Move) {
    match m
    case TakeQueue => s.queue != []
    case TakeKeyed(k) => k in s.buffer
    case Salvage(k) => k in s.buffer
    case _ => true
  }

  function Taken(s: State, m: Move): Option<Event>
    requires CanMove(s, m)
  {
    match m
    case Nothing => None
    case Stall => None
    case TakeQueue => Some(s.queue[0])
    case TakeKeyed(k) => Some(s.buffer[k])
    case GiveUp(to) => Some(Jump(s.next, to))
    case Salvage(k) => Some(s.buffer[k])
  }

  /** The expected number after delivering e. */
  function Next(next: word, e: Event): word { if e.num == next then (next + 1) % WORD else next }

  function Moved(s: State, m: Move): State
    requires CanMove(s, m)
  {
    match m
    case Nothing => s
    case Stall => s.(stalled := true)
    case TakeQueue => s.(queue := s.queue[1..], next := Next(s.next, s.queue[0]), stalled := false)
    case TakeKeyed(k) =>
      var e := s.buffer[k];
      s.(buffer := s.buffer - {k}, bytes := (s.bytes - Size(e)) % WORD, next := Next(s.next, e), stalled := false)
    case GiveUp(to) => s.(next := to, stalled := false)
    case Salvage(k) =>
      var e := s.buffer[k];
      s.(buffer := s.buffer - {e.num}, next := (e.num + 1) % WORD)
  }

  function Popped(c: Config, s: State, elapsed: nat): (r: (State, Option<Event>)) {
    var m := PopMove(c, s, elapsed);
    (Moved(s, m), Taken(s, m))
  }

  /** The candidate never exceeds the least held number, so no held event is in a gap and nothing is salvaged. */
  lemma NothingToSalvage(c: Config, s: State, elapsed: nat)
    ensures !PopMove(c, s, elapsed).Salvage?
    ensures PopMove(c, s, elapsed).GiveUp? ==>
      s.next < PopMove(c, s, elapsed).to && forall k :: k in s.buffer ==> PopMove(c, s, elapsed).to <= k
  {
    if s.Len() > 0 {
      assert forall k :: k in s.buffer ==> Candidate(s) <= k;
      assert Missed(s, Candidate(s)) == map[];
    }
  }

  // ---------------------------------------------------------------- draining

  predicate HeadAhead(s: State) { s.Len() > 0 && Candidate(s) > s.next }

  function Measure(s: State): nat { 2 * s.Len() + (if HeadAhead(s) then 1 else 0) }

  lemma RemoveKey(m: map<word, Event>, k: word)
    requires k in m
    ensures |m - {k}| == |m| - 1
  {
    assert (m - {k}).Keys == m.Keys - {k};
    assert |m.Keys| == |m| && |(m - {k}).Keys| == |m - {k}|;
  }

  /** Every event that pop returns brings the buffer closer to empty, whatever the clock says. */
  lemma PopMakesProgress(c: Config, s: State, elapsed: nat)
    requires Popped(c, s, elapsed).1.Some?
    ensures Measure(Popped(c, s, elapsed).0) < Measure(s)
  {
    NothingToSalvage(c, s, elapsed);
    var m := PopMove(c, s, elapsed);
    if m.TakeKeyed? { RemoveKey(s.buffer, m.k); }
    if m.GiveUp? {
      var t := Moved(s, m);
      assert QueueFirst(t) == QueueFirst(s) && Candidate(t) == Candidate(s) == t.next;
    }
  }
}
