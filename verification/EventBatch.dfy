/** The batch as five parallel columns, the inode scans over one of them, and merging in place. */
module EventBatch {
  import opened Bytes
  import opened Columnar

  // ---------------------------------------------------------------- finding an inode

  /** The first index from `start` on, below `end`, that holds the target. */
  ghost predicate FirstMatch(inodes: seq<nat>, target: nat, start: nat, end: nat, r: Option<nat>)
    requires end <= |inodes|
  {
    match r
    case Some(i) => start <= i < end && inodes[i] == target && target !in inodes[start..i]
    case None => start <= end ==> target !in inodes[start..end]
  }

  lemma FirstMatchIsUnique(inodes: seq<nat>, target: nat, start: nat, end: nat, q: Option<nat>, r: Option<nat>)
    requires end <= |inodes| && FirstMatch(inodes, target, start, end, q) && FirstMatch(inodes, target, start, end, r)
    ensures q == r
  {
    assert forall i :: start <= i < end ==> inodes[i] == inodes[start..end][i - start];
    assert forall i, j :: start <= i < j < end ==> inodes[i] == inodes[start..j][i - start];
  }

  method FindScalar(inodes: seq<nat>, target: nat, start: nat, end: nat) returns (r: Option<nat>)
    requires end <= |inodes|
    ensures FirstMatch(inodes, target, start, end, r)
  {
    var i := start;
    while i < end
      invariant start <= i && (start <= end ==> i <= end && target !in inodes[start..i])
    {
      if inodes[i] == target { return Some(i); }
      assert inodes[start..i + 1] == inodes[start..i] + [inodes[i]];
      i := i + 1;
    }
    return None;
  }

  function TrailingZeros(m: nat): nat
    requires m > 0
  {
    if m % 2 == 1 then 0 else 1 + TrailingZeros(m / 2)
  }

  function Bit(b: bool): nat { if b then 255 else 0 }

  /** The byte mask of a four-lane comparison: eight ones for every lane that matched. */
  function LaneMask(a: bool, b: bool, c: bool, d: bool): nat {
    Bit(a) + 256 * (Bit(b) + 256 * (Bit(c) + 256 * Bit(d)))
  }

  lemma ZerosOfShifted(m: nat)
    requires m > 0
    ensures TrailingZeros(256 * m) == 8 + TrailingZeros(m)
  {
    assert TrailingZeros(2 * m) == 1 + TrailingZeros(m);
    assert TrailingZeros(4 * m) == 1 + TrailingZeros(2 * m);
    assert TrailingZeros(8 * m) == 1 + TrailingZeros(4 * m);
    assert TrailingZeros(16 * m) == 1 + TrailingZeros(8 * m);
    assert TrailingZeros(32 * m) == 1 + TrailingZeros(16 * m);
    assert TrailingZeros(64 * m) == 1 + TrailingZeros(32 * m);
    assert TrailingZeros(128 * m) == 1 + TrailingZeros(64 * m);
  }

  /** Dividing the number of trailing zeros by eight gives the first lane that matched. */
  lemma FirstLane(a: bool, b: bool, c: bool, d: bool)
    ensures LaneMask(a, b, c, d) == 0 <==> !a && !b && !c && !d
    ensures LaneMask(a, b, c, d) > 0 ==>
      TrailingZeros(LaneMask(a, b, c, d)) / 8 == if a then 0 else if b then 1 else if c then 2 else 3
  {
    var m1 := Bit(b) + 256 * (Bit(c) + 256 * Bit(d));
    var m2 := Bit(c) + 256 * Bit(d);
    var m3 := Bit(d);
    if a {
      assert LaneMask(a, b, c, d) % 2 == 1;
    } else if b {
      assert m1 % 2 == 1;
      ZerosOfShifted(m1);
    } else if c {
      assert m2 % 2 == 1;
      ZerosOfShifted(m1);
      ZerosOfShifted(m2);
    } else if d {
      ZerosOfShifted(m1);
      ZerosOfShifted(m2);
      ZerosOfShifted(m3);
    }
  }

  method FindFourLanes(inodes: seq<nat>, target: nat, start: nat, end: nat) returns (r: Option<nat>)
    requires end <= |inodes|
    ensures FirstMatch(inodes, target, start, end, r)
  {
    var i := start;
    while i + 4 <= end
      invariant start <= i && (start <= end ==> i <= end && target !in inodes[start..i])
    {
      var a, b, c, d := inodes[i] == target, inodes[i + 1] == target, inodes[i + 2] == target, inodes[i + 3] == target;
      var mask := LaneMask(a, b, c, d);
      FirstLane(a, b, c, d);
      var four := inodes[i..i + 4];
      assert four == [inodes[i], inodes[i + 1], inodes[i + 2], inodes[i + 3]];
      if mask != 0 {
        var lane := TrailingZeros(mask) / 8;
        NoneBefore(inodes, target, start, i, lane);
        return Some(i + lane);
      }
      assert inodes[start..i + 4] == inodes[start..i] + four;
      i := i + 4;
    }
    while i < end
      invariant start <= i && (start <= end ==> i <= end && target !in inodes[start..i])
    {
      if inodes[i] == target { return Some(i); }
      assert inodes[start..i + 1] == inodes[start..i] + [inodes[i]];
      i := i + 1;
    }
    return None;
  }

  lemma NoneBefore(inodes: seq<nat>, target: nat, start: nat, i: nat, lane: nat)
    requires start <= i && i + lane <= |inodes| && target !in inodes[start..i]
    requires forall j :: i <= j < i + lane ==> inodes[j] != target
    ensures target !in inodes[start..i + lane]
  {
    assert inodes[start..i + lane] == inodes[start..i] + inodes[i..i + lane];
    assert target !in inodes[i..i + lane];
  }

  // ---------------------------------------------------------------- removing by index

  function Removed<T>(s: seq<T>, i: nat): seq<T>
    requires i < |s|
  {
    s[..i] + s[i + 1..]
  }

  ghost predicate Ascending(ix: seq<nat>, n: nat) {
    (forall k :: 0 <= k < |ix| ==> ix[k] < n) && (forall j, k :: 0 <= j < k < |ix| ==> ix[j] < ix[k])
  }

  /** Removing from the back keeps everything in front of the first index in place. */
  ghost function Without(es: seq<Event>, ix: seq<nat>): (r: seq<Event>)
    requires Ascending(ix, |es|)
    ensures |r| == |es| - |ix|
    ensures ix != [] ==> ix[0] <= |r| && r[..ix[0]] == es[..ix[0]]
    decreases |ix|
  {
    if ix == [] then es
    else
      var r := Without(es, ix[1..]);
      assert ix[0] < |r| && r[..ix[0]] == es[..ix[0]] by {
        if |ix| > 1 {
          assert ix[0] < ix[1];
          assert es[..ix[1]][..ix[0]] == es[..ix[0]];
          assert r[..ix[1]][..ix[0]] == r[..ix[0]];
        }
      }
      Removed(r, ix[0])
  }

  lemma {:induction false} IndicesAscend(scan: Scan, es: seq<Event>, i: nat, len: nat)
    requires i <= |es|
    ensures Ascending(scan.Indices(es, i, len), |es|)
    ensures forall k :: 0 <= k < |scan.Indices(es, i, len)| ==> i <= scan.Indices(es, i, len)[k]
    decreases |es| - i
  {
    if i < |es| { IndicesAscend(scan, es, i + 1, if scan.Takes(es, i, len) then len + es[i].length else len); }
  }

  lemma {:induction false} WithoutIndices(scan: Scan, es: seq<Event>, i: nat, len: nat)
    requires i <= |es| && Ascending(scan.Indices(es, i, len), |es|)
    ensures Without(es, scan.Indices(es, i, len)) == es[..i] + scan.Rest(es, i, len)
    decreases |es| - i
  {
    if i < |es| {
      var next := if scan.Takes(es, i, len) then len + es[i].length else len;
      IndicesAscend(scan, es, i + 1, next);
      WithoutIndices(scan, es, i + 1, next);
      var tail := scan.Indices(es, i + 1, next);
      assert es[..i + 1] == es[..i] + [es[i]];
      if scan.Takes(es, i, len) {
        assert ([i] + tail)[1..] == tail;
        RemovedHead(es, i, scan.Rest(es, i + 1, next));
      } else {
        assert es[..i + 1] + scan.Rest(es, i + 1, next) == es[..i] + ([es[i]] + scan.Rest(es, i + 1, next));
      }
    }
  }

  lemma RemovedHead(es: seq<Event>, i: nat, rest: seq<Event>)
    requires i < |es|
    ensures Removed(es[..i + 1] + rest, i) == es[..i] + rest
  {
    assert es[..i + 1] == es[..i] + [es[i]];
  }

  // ---------------------------------------------------------------- progress of the scan

  /** The scan has reached `at` with `len` bytes and the indices `ix`. */
  ghost predicate Reached(scan: Scan, es: seq<Event>, at: nat, len: nat, ix: seq<nat>) {
    && 1 <= at <= |es|
    && scan.Indices(es, 1, scan.head.length) == ix + scan.Indices(es, at, len)
    && scan.head.length + Lengths(scan.Merged(es, 1, scan.head.length)) == len + Lengths(scan.Merged(es, at, len))
  }

  lemma {:induction false} Skip(scan: Scan, es: seq<Event>, i: nat, j: nat, len: nat)
    requires i <= j <= |es| && forall k :: i <= k < j ==> !scan.Takes(es, k, len)
    ensures scan.Indices(es, i, len) == scan.Indices(es, j, len) && scan.Merged(es, i, len) == scan.Merged(es, j, len)
    decreases j - i
  {
    if i < j { Skip(scan, es, i + 1, j, len); }
  }

  lemma ReachedSkip(scan: Scan, es: seq<Event>, i: nat, j: nat, len: nat, ix: seq<nat>)
    requires Reached(scan, es, i, len, ix) && i <= j <= |es| && forall k :: i <= k < j ==> !scan.Takes(es, k, len)
    ensures Reached(scan, es, j, len, ix)
  {
    Skip(scan, es, i, j, len);
  }

  lemma ReachedTake(scan: Scan, es: seq<Event>, i: nat, len: nat, ix: seq<nat>)
    requires Reached(scan, es, i, len, ix) && i < |es| && scan.Takes(es, i, len)
    ensures Reached(scan, es, i + 1, len + es[i].length, ix + [i])
  {
    var merged := scan.Merged(es, i + 1, len + es[i].length);
    assert ([es[i]] + merged)[1..] == merged;
    assert ix + ([i] + scan.Indices(es, i + 1, len + es[i].length))
        == (ix + [i]) + scan.Indices(es, i + 1, len + es[i].length);
  }

  /** At the end of the scan everything that will be merged has been. */
  lemma ReachedEnd(scan: Scan, es: seq<Event>, at: nat, len: nat, ix: seq<nat>)
    requires Reached(scan, es, at, len, ix) && forall k :: at <= k < |es| ==> !scan.Takes(es, k, len)
    ensures ix == scan.Indices(es, 1, scan.head.length)
    ensures len == scan.head.length + Lengths(scan.Merged(es, 1, scan.head.length))
  {
    Skip(scan, es, at, |es|, len);
    assert ix + [] == ix;
  }

  // ---------------------------------------------------------------- the batch

  /** Row by row the columns say what the events say. */
  ghost predicate Aligned(inodes: seq<nat>, types: seq<Kind>, offsets: seq<nat>, lengths: seq<nat>,
      events: seq<Event>) {
    && |inodes| == |types| == |offsets| == |lengths| == |events|
    && forall i :: 0 <= i < |events| ==>
         events[i].inode == inodes[i] && events[i].kind == types[i]
         && events[i].offset == offsets[i] && events[i].length == lengths[i]
  }

  /** The elements before n whose index is kept. */
  function Kept(es: seq<Event>, keep: nat -> bool, n: nat): (r: seq<Event>)
    requires n <= |es|
    ensures |r| <= n
  {
    if n == 0 then [] else if keep(n - 1) then Kept(es, keep, n - 1) + [es[n - 1]] else Kept(es, keep, n - 1)
  }

  /** Rows up to `write` are the kept ones among the first r; rows from r on are untouched. */
  ghost predicate Compacting(was: seq<Event>, keep: nat -> bool, r: nat, write: nat, now: seq<Event>) {
    && |now| == |was| && write <= r <= |was|
    && now[..write] == Kept(was, keep, r) && now[r..] == was[r..]
  }

  lemma CompactStep(was: seq<Event>, keep: nat -> bool, r: nat, write: nat, now: seq<Event>)
    requires Compacting(was, keep, r, write, now) && r < |was|
    ensures !keep(r) ==> Compacting(was, keep, r + 1, write, now)
    ensures keep(r) ==> Compacting(was, keep, r + 1, write + 1, now[write := now[r]])
    ensures now[r := now[r]] == now
  {
    assert now[r] == now[r..][0] == was[r];
    assert now[r + 1..] == now[r..][1..] == was[r..][1..] == was[r + 1..];
    var moved := now[write := now[r]];
    assert moved[..write + 1] == now[..write] + [was[r]];
    assert moved[r + 1..] == now[r + 1..];
  }

  lemma AlignedRemoved(inodes: seq<nat>, types: seq<Kind>, offsets: seq<nat>, lengths: seq<nat>, events: seq<Event>,
      i: nat)
    requires Aligned(inodes, types, offsets, lengths, events) && i < |events|
    ensures Aligned(Removed(inodes, i), Removed(types, i), Removed(offsets, i), Removed(lengths, i), Removed(events, i))
  {
  }

  class Batch {
    var inodes: seq<nat>
    var types: seq<Kind>
    var offsets: seq<nat>
    var lengths: seq<nat>
    var events: seq<Event>
    var nextIndex: nat

    ghost predicate Valid()
      reads this
    {
      nextIndex == |events| && Aligned(inodes, types, offsets, lengths, events)
    }

    constructor ()
      ensures Valid() && events == []
    {
      inodes, types, offsets, lengths, events, nextIndex := [], [], [], [], [], 0;
    }

    method Push(e: Event)
      requires Valid()
      modifies this
      ensures Valid() && events == old(events) + [e]
    {
      inodes := inodes + [e.inode];
      types := types + [e.kind];
      offsets := offsets + [e.offset];
      lengths := lengths + [e.length];
      events := events + [e];
      nextIndex := nextIndex + 1;
    }

    method RemoveAt(i: nat)
      requires Valid() && i < nextIndex
      modifies this
      ensures Valid() && events == Removed(old(events), i)
    {
      AlignedRemoved(inodes, types, offsets, lengths, events, i);
      inodes := Removed(inodes, i);
      types := Removed(types, i);
      offsets := Removed(offsets, i);
      lengths := Removed(lengths, i);
      events := Removed(events, i);
      nextIndex := nextIndex - 1;
    }

    method PopFront() returns (event: Option<Event>)
      requires Valid()
      modifies this
      ensures Valid()
      ensures old(events) == [] ==> event == None && events == []
      ensures old(events) != [] ==> event == Some(old(events)[0]) && events == old(events)[1..]
    {
      if nextIndex == 0 { return None; }
      event := Some(events[0]);
      RemoveAt(0);
    }

    /** Moves the kept rows forward in place, then cuts the columns. */
    method Retain(keep: nat -> bool)
      requires Valid()
      modifies this
      ensures Valid() && events == Kept(old(events), keep, |old(events)|)
    {
      var write := 0;
      ghost var was := events;
      for r := 0 to nextIndex
        invariant Valid() && nextIndex == |was| && Compacting(was, keep, r, write, events)
      {
        CompactStep(was, keep, r, write, events);
        if keep(r) {
          if write != r { CopyRow(write, r); }
          write := write + 1;
        }
      }
      inodes, types, offsets, lengths, events :=
        inodes[..write], types[..write], offsets[..write], lengths[..write], events[..write];
      nextIndex := write;
    }

    method CopyRow(to: nat, from: nat)
      requires Valid() && to < from < nextIndex
      modifies this
      ensures Valid() && nextIndex == old(nextIndex) && events == old(events)[to := old(events)[from]]
    {
      inodes := inodes[to := inodes[from]];
      types := types[to := types[from]];
      offsets := offsets[to := offsets[from]];
      lengths := lengths[to := lengths[from]];
      events := events[to := events[from]];
    }

    /** Which rows the head write merges with, and how long it gets. */
    method ScanForMerge(depth: nat, limit: nat) returns (ix: seq<nat>, len: nat)
      requires Valid() && nextIndex > 0 && IsWrite(events[0])
      ensures var scan := Scan(events[0], depth, limit);
              ix == scan.Indices(events, 1, events[0].length)
              && len == events[0].length + Lengths(scan.Merged(events, 1, events[0].length))
    {
      ghost var scan := Scan(events[0], depth, limit);
      len := lengths[0];
      var end, headName, maxScan := offsets[0] + len, events[0].name, Min(nextIndex, depth);
      ix := [];
      var start := 1;
      assert [] + scan.Indices(events, 1, len) == scan.Indices(events, 1, len);
      while start < maxScan && len < limit
        invariant Reached(scan, events, start, len, ix) && end == events[0].offset + len
        decreases nextIndex - start
      {
        var found := FindFourLanes(inodes, inodes[0], start, maxScan);
        if found.None? {
          NotTakenBetween(scan, events, inodes, start, maxScan, len);
          ReachedSkip(scan, events, start, maxScan, len, ix);
          start := maxScan;
          break;
        }
        var i := found.value;
        ReachedMatch(scan, events, inodes, start, i, len, ix);
        if types[i].Write? || types[i].WriteRange? {
          if offsets[i] == end && events[i].name == headName {
            len := len + lengths[i];
            end := end + lengths[i];
            ix := ix + [i];
          }
        }
        start := i + 1;
      }
      ReachedEnd(scan, events, start, len, ix);
    }

    method TryCoalesceHead(depth: nat, limit: nat) returns (event: Option<Event>)
      requires Valid()
      modifies this
      ensures Valid()
      ensures old(events) == [] ==> event == None && events == []
      ensures old(events) != [] ==>
        event == Some(Coalesced(old(events), depth, limit).0) && events == Coalesced(old(events), depth, limit).1
    {
      if nextIndex == 0 { return None; }
      if !(types[0].Write? || types[0].WriteRange?) {
        event := PopFront();
        return;
      }
      var ix, len := ScanForMerge(depth, limit);
      ghost var scan := Scan(events[0], depth, limit);
      IndicesAscend(scan, events, 1, events[0].length);
      WithoutIndices(scan, events, 1, events[0].length);
      RemoveAll(ix);
      event := PopFront();
      event := Some(event.value.(length := len));
    }

    /** Removes the rows at ascending indices, last first. */
    method RemoveAll(ix: seq<nat>)
      requires Valid() && Ascending(ix, |events|)
      modifies this
      ensures Valid() && events == Without(old(events), ix)
    {
      var k := |ix|;
      ghost var was := events;
      assert ix[k..] == [];
      while k > 0
        invariant Valid() && k <= |ix|
        invariant Ascending(ix[k..], |was|) && events == Without(was, ix[k..])
      {
        assert ix[k - 1..][1..] == ix[k..] && ix[k - 1..][0] == ix[k - 1];
        assert k < |ix| ==> ix[k..][0] == ix[k] && ix[k - 1] < ix[k];
        AscendingSuffix(ix, k - 1, |was|);
        k := k - 1;
        RemoveAt(ix[k]);
      }
      assert ix[0..] == ix;
    }
  }

  lemma AscendingSuffix(ix: seq<nat>, k: nat, n: nat)
    requires Ascending(ix, n) && k <= |ix|
    ensures Ascending(ix[k..], n)
  {
  }

  /** From one row of the head's inode to the row behind it, merging it or not. */
  lemma ReachedMatch(scan: Scan, es: seq<Event>, inodes: seq<nat>, at: nat, i: nat, len: nat, ix: seq<nat>)
    requires Reached(scan, es, at, len, ix) && at <= i < |es| == |inodes|
    requires (forall k :: 0 <= k < |es| ==> es[k].inode == inodes[k]) && scan.head.inode !in inodes[at..i]
    ensures if scan.Takes(es, i, len) then Reached(scan, es, i + 1, len + es[i].length, ix + [i])
            else Reached(scan, es, i + 1, len, ix)
  {
    NotTakenBetween(scan, es, inodes, at, i, len);
    ReachedSkip(scan, es, at, i, len, ix);
    if scan.Takes(es, i, len) {
      ReachedTake(scan, es, i, len, ix);
    } else {
      ReachedSkip(scan, es, i, i + 1, len, ix);
    }
  }

  lemma NotTakenBetween(scan: Scan, es: seq<Event>, inodes: seq<nat>, a: nat, b: nat, len: nat)
    requires a <= b <= |es| == |inodes| && forall i :: 0 <= i < |es| ==> es[i].inode == inodes[i]
    requires scan.head.inode !in inodes[a..b]
    ensures forall k :: a <= k < b ==> !scan.Takes(es, k, len)
  {
    forall k | a <= k < b ensures !scan.Takes(es, k, len) {
      assert inodes[a..b][k - a] == inodes[k];
    }
  }
}
