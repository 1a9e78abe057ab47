/** Merging the head write of a batch with the contiguous writes behind it: what is merged, what is left, and why. */
module Columnar {
  import opened Bytes

  datatype Kind = Write | WriteRange | Unlink | Other(code: nat)

  /** `id` stands for the fields that merging copies from the head unchanged. */
  datatype Event = Event(inode: nat, kind: Kind, offset: nat, length: nat, name: string, id: nat)

  predicate IsWrite(e: Event) { e.kind.Write? || e.kind.WriteRange? }

  // ---------------------------------------------------------------- what is merged

  /** Does e continue the head's write, which by now ends at `end`? */
  predicate Continues(head: Event, end: nat, e: Event) {
    e.inode == head.inode && IsWrite(e) && e.offset == end && e.name == head.name
  }

  /** One scan: the head write of length `len` so far looks at es[i..], up to index `depth` and length `limit`. */
  datatype Scan = Scan(head: Event, depth: nat, limit: nat)
  {
    predicate Takes(es: seq<Event>, i: nat, len: nat)
      requires i < |es|
    {
      i < depth && len < limit && Continues(head, head.offset + len, es[i])
    }

    /** The indices merged, in order. */
    function Indices(es: seq<Event>, i: nat, len: nat): seq<nat>
      requires i <= |es|
      decreases |es| - i
    {
      if i == |es| then []
      else if Takes(es, i, len) then [i] + Indices(es, i + 1, len + es[i].length)
      else Indices(es, i + 1, len)
    }

    /** The events merged. */
    function Merged(es: seq<Event>, i: nat, len: nat): seq<Event>
      requires i <= |es|
      decreases |es| - i
    {
      if i == |es| then []
      else if Takes(es, i, len) then [es[i]] + Merged(es, i + 1, len + es[i].length)
      else Merged(es, i + 1, len)
    }

    /** The events left. */
    function Rest(es: seq<Event>, i: nat, len: nat): seq<Event>
      requires i <= |es|
      decreases |es| - i
    {
      if i == |es| then []
      else if Takes(es, i, len) then Rest(es, i + 1, len + es[i].length)
      else [es[i]] + Rest(es, i + 1, len)
    }
  }

  function Lengths(es: seq<Event>): nat {
    if es == [] then 0 else es[0].length + Lengths(es[1..])
  }

  /** The event handed out and the batch left behind. */
  function Coalesced(es: seq<Event>, depth: nat, limit: nat): (r: (Event, seq<Event>))
    requires es != []
  {
    if !IsWrite(es[0]) then (es[0], es[1..])
    else
      var scan := Scan(es[0], depth, limit);
      (es[0].(length := es[0].length + Lengths(scan.Merged(es, 1, es[0].length))), scan.Rest(es, 1, es[0].length))
  }

  // ---------------------------------------------------------------- what a merge is

  /** The pieces follow one another from `at` on, on one inode and under one name. */
  ghost predicate Contiguous(head: Event, at: nat, pieces: seq<Event>)
    decreases |pieces|
  {
    pieces == [] || (Continues(head, at, pieces[0]) && Contiguous(head, at + pieces[0].length, pieces[1..]))
  }

  lemma {:induction false} MergedIsContiguous(scan: Scan, es: seq<Event>, i: nat, len: nat)
    requires i <= |es|
    ensures Contiguous(scan.head, scan.head.offset + len, scan.Merged(es, i, len))
    decreases |es| - i
  {
    if i < |es| {
      if scan.Takes(es, i, len) {
        MergedIsContiguous(scan, es, i + 1, len + es[i].length);
        assert ([es[i]] + scan.Merged(es, i + 1, len + es[i].length))[1..]
            == scan.Merged(es, i + 1, len + es[i].length);
      } else {
        MergedIsContiguous(scan, es, i + 1, len);
      }
    }
  }

  lemma {:induction false} MergedAndRest(scan: Scan, es: seq<Event>, i: nat, len: nat)
    requires i <= |es|
    ensures multiset(scan.Merged(es, i, len)) + multiset(scan.Rest(es, i, len)) == multiset(es[i..])
    decreases |es| - i
  {
    if i < |es| {
      assert es[i..] == [es[i]] + es[i + 1..];
      MergedAndRest(scan, es, i + 1, if scan.Takes(es, i, len) then len + es[i].length else len);
    }
  }

  /** `part` is what is left of `whole` after striking out some elements. */
  ghost predicate Subsequence(part: seq<Event>, whole: seq<Event>) {
    if part == [] then true
    else if whole == [] then false
    else (part[0] == whole[0] && Subsequence(part[1..], whole[1..])) || Subsequence(part, whole[1..])
  }

  lemma {:induction false} RestInOrder(scan: Scan, es: seq<Event>, i: nat, len: nat)
    requires i <= |es|
    ensures Subsequence(scan.Rest(es, i, len), es[i..])
    decreases |es| - i
  {
    if i < |es| {
      assert es[i..][1..] == es[i + 1..];
      if scan.Takes(es, i, len) {
        RestInOrder(scan, es, i + 1, len + es[i].length);
      } else {
        RestInOrder(scan, es, i + 1, len);
        var rest := scan.Rest(es, i + 1, len);
        assert ([es[i]] + rest)[1..] == rest;
      }
    }
  }

  /**
   * The write handed out covers exactly the head and the merged writes end to end; the merged writes and what is
   * left are together what was behind the head, and what is left keeps its order.
   */
  lemma CoalescedCovers(es: seq<Event>, depth: nat, limit: nat)
    requires es != [] && IsWrite(es[0])
    ensures var merged := Scan(es[0], depth, limit).Merged(es, 1, es[0].length);
            var rest := Coalesced(es, depth, limit).1;
            && Coalesced(es, depth, limit).0 == es[0].(length := es[0].length + Lengths(merged))
            && Contiguous(es[0], es[0].offset + es[0].length, merged)
            && multiset(merged) + multiset(rest) == multiset(es[1..])
            && Subsequence(rest, es[1..])
  {
    var scan := Scan(es[0], depth, limit);
    var merged, rest := scan.Merged(es, 1, es[0].length), scan.Rest(es, 1, es[0].length);
    assert Contiguous(es[0], es[0].offset + es[0].length, merged) by { MergedIsContiguous(scan, es, 1, es[0].length); }
    assert multiset(merged) + multiset(rest) == multiset(es[1..]) by { MergedAndRest(scan, es, 1, es[0].length); }
    assert Subsequence(rest, es[1..]) by { RestInOrder(scan, es, 1, es[0].length); }
    assert Coalesced(es, depth, limit).1 == rest;
  }

  // ---------------------------------------------------------------- what a merge means

  /** What an event does to the file it is about. */
  type Effect<!F> = (Event, F) -> F

  /** A file after the events of a batch, in order; events about other files do not touch it. */
  function After<F>(act: Effect<F>, es: seq<Event>, inode: nat, f: F): F {
    if es == [] then f
    else After(act, es[1..], inode, if es[0].inode == inode then act(es[0], f) else f)
  }

  /** Two writes that meet make one. */
  predicate JoinOk<F(==)>(act: Effect<F>, e: Event, m: Event, f: F) {
    IsWrite(e) && Continues(e, e.offset + e.length, m) ==>
        act(e.(length := e.length + m.length), f) == act(m, act(e, f))
  }

  /** Any two writes can be swapped. */
  predicate SwapOk<F(==)>(act: Effect<F>, d: Event, e: Event, f: F) {
    IsWrite(d) && IsWrite(e) ==> act(d, act(e, f)) == act(e, act(d, f))
  }

  /** An empty write does nothing. */
  predicate EmptyOk<F(==)>(act: Effect<F>, e: Event, f: F) { IsWrite(e) && e.length == 0 ==> act(e, f) == f }

  /** What writes must satisfy; one that copies its range from the source does. */
  ghost predicate LawfulWrites<F(!new)>(act: Effect<F>) {
    && (forall e, m, f :: JoinOk(act, e, m, f))
    && (forall d, e, f :: SwapOk(act, d, e, f))
    && (forall e, f :: EmptyOk(act, e, f))
  }

  ghost predicate AllWrites(es: seq<Event>, inode: nat) {
    forall i :: 0 <= i < |es| ==> es[i].inode == inode && IsWrite(es[i])
  }

  lemma {:induction false} MergedAreWrites(scan: Scan, es: seq<Event>, i: nat, len: nat)
    requires i <= |es|
    ensures AllWrites(scan.Merged(es, i, len), scan.head.inode)
    decreases |es| - i
  {
    if i < |es| { MergedAreWrites(scan, es, i + 1, if scan.Takes(es, i, len) then len + es[i].length else len); }
  }

  /** A write can be moved behind other writes. */
  lemma {:induction false} Swap<F(!new)>(act: Effect<F>, w: Event, es: seq<Event>, inode: nat, f: F)
    requires LawfulWrites(act) && IsWrite(w) && AllWrites(es, inode)
    ensures After(act, es, inode, act(w, f)) == act(w, After(act, es, inode, f))
    decreases |es|
  {
    if es != [] {
      assert SwapOk(act, es[0], w, f);
      Swap(act, w, es[1..], inode, act(es[0], f));
    }
  }

  /** Empty writes do nothing. */
  lemma {:induction false} EmptyWrites<F(!new)>(act: Effect<F>, es: seq<Event>, inode: nat, f: F)
    requires LawfulWrites(act) && AllWrites(es, inode) && Lengths(es) == 0
    ensures After(act, es, inode, f) == f
    decreases |es|
  {
    if es != [] {
      assert EmptyOk(act, es[0], f);
      EmptyWrites(act, es[1..], inode, f);
    }
  }

  /** No event of the head's inode other than a write is passed over by a non-empty merged write. */
  ghost predicate NothingPassed(scan: Scan, es: seq<Event>, i: nat, len: nat)
    requires i <= |es|
    decreases |es| - i
  {
    if i == |es| then true
    else if scan.Takes(es, i, len) then NothingPassed(scan, es, i + 1, len + es[i].length)
    else
      && (es[i].inode == scan.head.inode && !IsWrite(es[i]) ==> Lengths(scan.Merged(es, i + 1, len)) == 0)
      && NothingPassed(scan, es, i + 1, len)
  }

  /** Pulling the merged writes to the front changes no file. */
  lemma {:induction false} PullForward<F(!new)>(act: Effect<F>, scan: Scan, es: seq<Event>, i: nat, len: nat,
      inode: nat, f: F)
    requires LawfulWrites(act) && i <= |es| && NothingPassed(scan, es, i, len)
    ensures After(act, scan.Rest(es, i, len), inode, After(act, scan.Merged(es, i, len), inode, f))
            == After(act, es[i..], inode, f)
    decreases |es| - i
  {
    if i < |es| {
      var e := es[i];
      var g := if e.inode == inode then act(e, f) else f;
      assert es[i..][0] == e && es[i..][1..] == es[i + 1..];
      if scan.Takes(es, i, len) {
        PullForward(act, scan, es, i + 1, len + e.length, inode, g);
        var merged := scan.Merged(es, i + 1, len + e.length);
        assert ([e] + merged)[1..] == merged;
      } else {
        PullForward(act, scan, es, i + 1, len, inode, g);
        var merged, rest := scan.Merged(es, i + 1, len), scan.Rest(es, i + 1, len);
        assert ([e] + rest)[1..] == rest;
        var h := After(act, merged, inode, f);
        assert (if e.inode == inode then act(e, h) else h) == After(act, merged, inode, g) by {
          MergedAreWrites(scan, es, i + 1, len);
          PassOver(act, scan.head.inode, e, merged, inode, f);
        }
      }
    }
  }

  lemma {:induction false} OtherInode<F>(act: Effect<F>, es: seq<Event>, inode: nat, f: F)
    requires forall i :: 0 <= i < |es| ==> es[i].inode != inode
    ensures After(act, es, inode, f) == f
    decreases |es|
  {
    if es != [] { OtherInode(act, es[1..], inode, f); }
  }

  lemma PassOver<F(!new)>(act: Effect<F>, own: nat, e: Event, merged: seq<Event>, inode: nat, f: F)
    requires LawfulWrites(act) && AllWrites(merged, own)
    requires e.inode == own && !IsWrite(e) ==> Lengths(merged) == 0
    ensures e.inode == inode ==> act(e, After(act, merged, inode, f)) == After(act, merged, inode, act(e, f))
  {
    if e.inode == inode {
      if own != inode {
        OtherInode(act, merged, inode, f);
        OtherInode(act, merged, inode, act(e, f));
      } else if IsWrite(e) {
        Swap(act, e, merged, inode, f);
      } else {
        EmptyWrites(act, merged, inode, f);
        EmptyWrites(act, merged, inode, act(e, f));
      }
    }
  }

  /** A contiguous run of writes acts as one write. */
  lemma {:induction false} RunIsOneWrite<F(!new)>(act: Effect<F>, e: Event, pieces: seq<Event>, f: F)
    requires LawfulWrites(act) && IsWrite(e) && Contiguous(e, e.offset + e.length, pieces)
    ensures act(e.(length := e.length + Lengths(pieces)), f) == After(act, pieces, e.inode, act(e, f))
    decreases |pieces|
  {
    if pieces == [] {
      assert e.(length := e.length + 0) == e;
    } else {
      var m := pieces[0];
      var longer := e.(length := e.length + m.length);
      assert JoinOk(act, e, m, f);
      SameHead(e, longer, e.offset + e.length + m.length, pieces[1..]);
      RunIsOneWrite(act, longer, pieces[1..], f);
      assert longer.(length := longer.length + Lengths(pieces[1..])) == e.(length := e.length + Lengths(pieces));
    }
  }

  lemma {:induction false} SameHead(a: Event, b: Event, at: nat, pieces: seq<Event>)
    requires a.inode == b.inode && a.name == b.name && Contiguous(a, at, pieces)
    ensures Contiguous(b, at, pieces)
    decreases |pieces|
  {
    if pieces != [] { SameHead(a, b, at + pieces[0].length, pieces[1..]); }
  }

  /** Handing out the merged write first and the rest after it leaves every file as the batch would have. */
  lemma CoalescingPreserves<F(!new)>(act: Effect<F>, es: seq<Event>, depth: nat, limit: nat, inode: nat, f: F)
    requires LawfulWrites(act) && es != []
    requires IsWrite(es[0]) ==> NothingPassed(Scan(es[0], depth, limit), es, 1, es[0].length)
    ensures var (out, rest) := Coalesced(es, depth, limit);
            After(act, [out] + rest, inode, f) == After(act, es, inode, f)
  {
    var (out, rest) := Coalesced(es, depth, limit);
    assert ([out] + rest)[1..] == rest;
    if IsWrite(es[0]) {
      var head, scan := es[0], Scan(es[0], depth, limit);
      var merged := scan.Merged(es, 1, head.length);
      var g := if head.inode == inode then act(head, f) else f;
      PullForward(act, scan, es, 1, head.length, inode, g);
      MergedAreWrites(scan, es, 1, head.length);
      if head.inode == inode {
        MergedIsContiguous(scan, es, 1, head.length);
        RunIsOneWrite(act, head, merged, f);
      } else {
        OtherInode(act, merged, inode, f);
      }
    } else {
      assert [out] + rest == es;
    }
  }

  /** One byte of a file whose writes copy from the source, whatever other events do to it. */
  function Copying(src: nat -> byte, other: (Event, byte) -> byte, p: nat): Effect<byte> {
    (e: Event, b: byte) =>
      if !IsWrite(e) then other(e, b) else if e.offset <= p < e.offset + e.length then src(p) else b
  }

  lemma CopyingIsLawful(src: nat -> byte, other: (Event, byte) -> byte, p: nat)
    ensures LawfulWrites(Copying(src, other, p))
  {
    var act := Copying(src, other, p);
    forall e, m, f ensures JoinOk(act, e, m, f) {
      if IsWrite(e) && Continues(e, e.offset + e.length, m) {
        var joined := e.(length := e.length + m.length);
        assert IsWrite(joined);
        assert act(joined, f) == if e.offset <= p < e.offset + e.length + m.length then src(p) else f;
        assert act(m, act(e, f)) == if e.offset <= p < e.offset + e.length + m.length then src(p) else f;
      }
    }
  }

  // ---------------------------------------------------------------- when it does not preserve

  /** Writes add their length and everything else doubles: lawful, and sensitive to every pass. */
  function Weigh(e: Event, n: nat): nat { if IsWrite(e) then n + e.length else 2 * n }

  lemma WeighIsLawful()
    ensures LawfulWrites<nat>(Weigh)
  {
  }

  lemma {:induction false} WeightGrows(es: seq<Event>, inode: nat, m: nat, n: nat)
    requires m < n
    ensures After(Weigh, es, inode, m) < After(Weigh, es, inode, n)
    decreases |es|
  {
    if es != [] {
      if es[0].inode == inode {
        WeightGrows(es[1..], inode, Weigh(es[0], m), Weigh(es[0], n));
      } else {
        WeightGrows(es[1..], inode, m, n);
      }
    }
  }

  lemma {:induction false} WeightOfWrites(es: seq<Event>, inode: nat, n: nat)
    requires AllWrites(es, inode)
    ensures After(Weigh, es, inode, n) == n + Lengths(es)
    decreases |es|
  {
    if es != [] { WeightOfWrites(es[1..], inode, Weigh(es[0], n)); }
  }

  /** The weight with the merged writes in front, and in the order of the batch. */
  function Pulled(scan: Scan, es: seq<Event>, i: nat, len: nat, n: nat): nat
    requires i <= |es|
  {
    After<nat>(Weigh, scan.Rest(es, i, len), scan.head.inode, n + Lengths(scan.Merged(es, i, len)))
  }

  function Straight(scan: Scan, es: seq<Event>, i: nat, n: nat): nat
    requires i <= |es|
  {
    After<nat>(Weigh, es[i..], scan.head.inode, n)
  }

  lemma StraightStep(scan: Scan, es: seq<Event>, i: nat, n: nat)
    requires i < |es|
    ensures Straight(scan, es, i, n)
            == Straight(scan, es, i + 1, if es[i].inode == scan.head.inode then Weigh(es[i], n) else n)
  {
    assert es[i..][0] == es[i] && es[i..][1..] == es[i + 1..];
  }

  lemma PulledTake(scan: Scan, es: seq<Event>, i: nat, len: nat, n: nat)
    requires i < |es| && scan.Takes(es, i, len)
    ensures Pulled(scan, es, i, len, n) == Pulled(scan, es, i + 1, len + es[i].length, n + es[i].length)
  {
    var merged := scan.Merged(es, i + 1, len + es[i].length);
    assert ([es[i]] + merged)[1..] == merged;
  }

  lemma {:induction false} PullingWeighsMore(scan: Scan, es: seq<Event>, i: nat, len: nat, n: nat)
    requires i <= |es|
    ensures Pulled(scan, es, i, len, n) >= Straight(scan, es, i, n)
    ensures !NothingPassed(scan, es, i, len) ==> Pulled(scan, es, i, len, n) > Straight(scan, es, i, n)
    decreases |es| - i
  {
    if i < |es| {
      var e, inode := es[i], scan.head.inode;
      StraightStep(scan, es, i, n);
      if scan.Takes(es, i, len) {
        PulledTake(scan, es, i, len, n);
        PullingWeighsMore(scan, es, i + 1, len + e.length, n + e.length);
      } else {
        PullingWeighsMore(scan, es, i + 1, len, if e.inode == inode then Weigh(e, n) else n);
        PassWeighs(e, scan.Rest(es, i + 1, len), inode, n, Lengths(scan.Merged(es, i + 1, len)));
      }
    }
  }

  /** A weight put on before an event weighs more behind it than one put on after it, if the event doubles. */
  lemma PassWeighs(e: Event, rest: seq<Event>, inode: nat, n: nat, more: nat)
    ensures var g: nat := if e.inode == inode then Weigh(e, n) else n;
            var early, late := After<nat>(Weigh, [e] + rest, inode, n + more), After<nat>(Weigh, rest, inode, g + more);
            early >= late && (e.inode == inode && !IsWrite(e) && more > 0 ==> early > late)
  {
    var g: nat := if e.inode == inode then Weigh(e, n) else n;
    assert ([e] + rest)[0] == e && ([e] + rest)[1..] == rest;
    if e.inode == inode && !IsWrite(e) && more > 0 { WeightGrows(rest, inode, g + more, 2 * (n + more)); }
  }

  /**
   * For all lawful meanings at once the condition cannot be weakened: whenever a non-empty merged write passes another
   * kind of event of its own inode, there is one under which the outcome changes.
   */
  lemma PassingChanges(es: seq<Event>, depth: nat, limit: nat)
    requires es != [] && IsWrite(es[0])
    requires !NothingPassed(Scan(es[0], depth, limit), es, 1, es[0].length)
    ensures LawfulWrites<nat>(Weigh)
    ensures var (out, rest) := Coalesced(es, depth, limit);
            After<nat>(Weigh, [out] + rest, es[0].inode, 0) != After<nat>(Weigh, es, es[0].inode, 0)
  {
    WeightChanges(es, depth, limit);
    WeighIsLawful();
  }

  lemma WeightChanges(es: seq<Event>, depth: nat, limit: nat)
    requires es != [] && IsWrite(es[0])
    requires !NothingPassed(Scan(es[0], depth, limit), es, 1, es[0].length)
    ensures var (out, rest) := Coalesced(es, depth, limit);
            After<nat>(Weigh, [out] + rest, es[0].inode, 0) != After<nat>(Weigh, es, es[0].inode, 0)
  {
    var (out, rest) := Coalesced(es, depth, limit);
    assert ([out] + rest)[1..] == rest;
    PullingWeighsMore(Scan(es[0], depth, limit), es, 1, es[0].length, es[0].length);
  }
}
