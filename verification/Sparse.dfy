/** Mapping a file range into data and hole segments with lseek, and copying it segment by segment. */
module Sparse {
  import opened Bytes
  import opened CopyEngine
  import opened CopyOutcome
  import opened CopyRuns

  datatype Segment = Data(off: nat, len: nat) | Hole(off: nat, len: nat)

  /** Which bytes of the file are allocated; its length is the file size. */
  type Layout = seq<bool>

  predicate IsData(layout: Layout, p: nat) { p < |layout| && layout[p] }

  /** lseek SEEK_DATA: the next data byte, or ENXIO. */
  function SeekData(layout: Layout, off: nat): (r: Option<nat>)
    ensures r.Some? ==> off <= r.value < |layout| && layout[r.value]
    ensures forall p :: off <= p < (if r.Some? then r.value else |layout|) ==> !layout[p]
    decreases |layout| - off
  {
    if off >= |layout| then None else if layout[off] then Some(off) else SeekData(layout, off + 1)
  }

  /** lseek SEEK_HOLE: the next hole byte, where the end of the file counts as one, or ENXIO beyond the end. */
  function SeekHole(layout: Layout, off: nat): (r: Option<nat>)
    ensures r.Some? <==> off < |layout|
    ensures r.Some? ==> off <= r.value <= |layout| && (r.value < |layout| ==> !layout[r.value])
    ensures r.Some? ==> forall p :: off <= p < r.value ==> layout[p]
    decreases |layout| - off
  {
    if off >= |layout| then None
    else if !layout[off] then Some(off)
    else if off + 1 == |layout| then Some(off + 1)
    else SeekHole(layout, off + 1)
  }

  // ---------------------------------------------------------------- mapping

  function SegmentEnd(hole: Option<nat>, end: nat): nat {
    if hole.Some? && hole.value <= end then hole.value else end
  }

  /** The data segment that begins at cur, and what follows it. */
  function FromData(layout: Layout, cur: nat, end: nat): seq<Segment>
    requires cur < end && IsData(layout, cur)
    decreases end - cur, 0
  {
    var e := SegmentEnd(SeekHole(layout, cur), end);
    [Data(cur, e - cur)] + SegmentsOf(layout, e, end)
  }

  /** The segments of [cur, end): data as far as it goes, holes as far as they go. */
  function SegmentsOf(layout: Layout, cur: nat, end: nat): seq<Segment>
    decreases end - cur, 1
  {
    if cur >= end then [] else
    var data := SeekData(layout, cur);
    if data.None? || data.value >= end then [Hole(cur, end - cur)]
    else if data.value > cur then [Hole(cur, data.value - cur)] + FromData(layout, data.value, end)
    else FromData(layout, cur, end)
  }

  /** What is found so far, and what is still to be found, are the segments of the range. */
  ghost predicate Mapping(layout: Layout, offset: nat, end: nat, current: nat, segments: seq<Segment>) {
    segments + SegmentsOf(layout, current, end) == SegmentsOf(layout, offset, end)
  }

  /** From `at` on there is data. */
  ghost predicate MappingData(layout: Layout, offset: nat, end: nat, at: nat, segments: seq<Segment>) {
    at < end && IsData(layout, at) && segments + FromData(layout, at, end) == SegmentsOf(layout, offset, end)
  }

  lemma MapHole(layout: Layout, offset: nat, end: nat, current: nat, segments: seq<Segment>)
    requires Mapping(layout, offset, end, current, segments) && current < end
    ensures var data := SeekData(layout, current);
            if data.None? || data.value >= end
            then segments + [Hole(current, end - current)] == SegmentsOf(layout, offset, end)
            else if data.value == current then MappingData(layout, offset, end, current, segments)
            else MappingData(layout, offset, end, data.value, segments + [Hole(current, data.value - current)])
  {
    var data := SeekData(layout, current);
    if data.None? || data.value >= end {
      assert SegmentsOf(layout, current, end) == [Hole(current, end - current)];
    } else if data.value == current {
      assert SegmentsOf(layout, current, end) == FromData(layout, current, end);
    } else {
      var hole, rest := Hole(current, data.value - current), FromData(layout, data.value, end);
      assert SegmentsOf(layout, current, end) == [hole] + rest;
      Regroup(segments, hole, rest);
    }
  }

  lemma MapData(layout: Layout, offset: nat, end: nat, at: nat, segments: seq<Segment>)
    requires MappingData(layout, offset, end, at, segments)
    ensures var e := SegmentEnd(SeekHole(layout, at), end);
            at < e <= end && Mapping(layout, offset, end, e, segments + [Data(at, e - at)])
  {
    var e := SegmentEnd(SeekHole(layout, at), end);
    Regroup(segments, Data(at, e - at), SegmentsOf(layout, e, end));
  }

  lemma Regroup(a: seq<Segment>, s: Segment, b: seq<Segment>)
    ensures a + ([s] + b) == (a + [s]) + b
  {
  }

  /** The mapping loop. */
  method MapSparseSegments(layout: Layout, offset: nat, length: nat) returns (segments: seq<Segment>)
    ensures segments == SegmentsOf(layout, offset, offset + length)
  {
    segments := [];
    var current, end := offset, offset + length;
    MapStart(layout, offset, end);
    while current < end
      invariant Mapping(layout, offset, end, current, segments)
      decreases end - current
    {
      var last;
      segments, current, last := MapRound(layout, offset, end, current, segments);
      if last { return; }
    }
    MapEnd(layout, offset, end, current, segments);
  }

  lemma MapStart(layout: Layout, offset: nat, end: nat)
    ensures Mapping(layout, offset, end, offset, [])
  {
    var all := SegmentsOf(layout, offset, end);
    assert [] + all == all;
  }

  lemma MapEnd(layout: Layout, offset: nat, end: nat, current: nat, segments: seq<Segment>)
    requires Mapping(layout, offset, end, current, segments) && end <= current
    ensures segments == SegmentsOf(layout, offset, end)
  {
    assert segments + [] == segments;
  }

  /** One round: a hole, if there is one, and the data behind it. The guard against empty segments never fires. */
  method MapRound(layout: Layout, offset: nat, end: nat, from: nat, found: seq<Segment>)
      returns (segments: seq<Segment>, current: nat, last: bool)
    requires from < end && Mapping(layout, offset, end, from, found)
    ensures last ==> segments == SegmentsOf(layout, offset, end)
    ensures !last ==> from < current && Mapping(layout, offset, end, current, segments)
  {
    segments, current := found, from;
    MapHole(layout, offset, end, current, segments);
    var data := SeekData(layout, current);
    if data.None? || data.value >= end {
      return segments + [Hole(current, end - current)], end, true;
    }
    if data.value > current {
      segments := segments + [Hole(current, data.value - current)];
      current := data.value;
    }
    MapData(layout, offset, end, current, segments);
    var segmentEnd := SegmentEnd(SeekHole(layout, current), end);
    if segmentEnd == current {
      assert false;
    }
    segments := segments + [Data(current, segmentEnd - current)];
    return segments, segmentEnd, false;
  }

  /** Does the segment consist of data bytes only, or of hole bytes only? */
  ghost predicate Uniform(layout: Layout, s: Segment) {
    0 < s.len && forall p :: s.off <= p < s.off + s.len ==> (s.Data? <==> IsData(layout, p))
  }

  /** The segments lie side by side from a to b, and each is what it says. */
  ghost predicate Maps(layout: Layout, segs: seq<Segment>, a: nat, b: nat) {
    if segs == [] then a == b
    else segs[0].off == a && Uniform(layout, segs[0]) && Maps(layout, segs[1..], a + segs[0].len, b)
  }

  /** The mapping tiles the range in order, without overlap, and marks only holes as holes. */
  lemma {:induction false} SegmentsTile(layout: Layout, cur: nat, end: nat)
    requires cur <= end
    ensures Maps(layout, SegmentsOf(layout, cur, end), cur, end)
    decreases end - cur, 1
  {
    if cur < end {
      var data := SeekData(layout, cur);
      if data.None? || data.value >= end {
        var hole := Hole(cur, end - cur);
        assert Uniform(layout, hole) && [hole][1..] == [];
      } else if data.value > cur {
        DataTiles(layout, data.value, end);
        var hole, rest := Hole(cur, data.value - cur), FromData(layout, data.value, end);
        assert Uniform(layout, hole) && ([hole] + rest)[1..] == rest;
      } else {
        DataTiles(layout, cur, end);
      }
    }
  }

  lemma {:induction false} DataTiles(layout: Layout, cur: nat, end: nat)
    requires cur < end && IsData(layout, cur)
    ensures Maps(layout, FromData(layout, cur, end), cur, end)
    decreases end - cur, 0
  {
    var e := SegmentEnd(SeekHole(layout, cur), end);
    SegmentsTile(layout, e, end);
    var rest := SegmentsOf(layout, e, end);
    assert Uniform(layout, Data(cur, e - cur)) && ([Data(cur, e - cur)] + rest)[1..] == rest;
  }

  lemma {:induction false} MapsEnd(layout: Layout, segs: seq<Segment>, a: nat, b: nat)
    requires Maps(layout, segs, a, b)
    ensures a <= b && forall i :: 0 <= i < |segs| ==> a <= segs[i].off && segs[i].off + segs[i].len <= b
  {
    if segs != [] { MapsEnd(layout, segs[1..], a + segs[0].len, b); }
  }

  // ---------------------------------------------------------------- copying the segments

  /**
   * Data is copied and extends the file as far as blocks are written; holes of 16 KiB or more are punched, which
   * never extends it; smaller holes are left as they are.
   */
  function CopyOne(m: Mode, src: seq<byte>, dst: seq<byte>, s: Segment): seq<byte>
    requires 0 < m.block && s.off + s.len <= |src|
  {
    match s
    case Data(off, len) => Landed(dst, off, src[off..off + len], WrittenEnd(src, m, off, off + len))
    case Hole(off, len) => if len >= PUNCH_MIN then Landed(dst, off, Zeros(len), 0) else dst
  }

  predicate Within(segs: seq<Segment>, n: nat) {
    forall i :: 0 <= i < |segs| ==> segs[i].off + segs[i].len <= n
  }

  function CopyAll(m: Mode, src: seq<byte>, dst: seq<byte>, segs: seq<Segment>): seq<byte>
    requires 0 < m.block && Within(segs, |src|)
    decreases |segs|
  {
    if segs == [] then dst else CopyAll(m, src, CopyOne(m, src, dst, segs[0]), segs[1..])
  }

  /** How far the copy extends the file. */
  function Reach(m: Mode, src: seq<byte>, segs: seq<Segment>): nat
    requires 0 < m.block
  {
    if segs == [] then 0 else
    var first := if segs[0].Data? then WrittenEnd(src, m, segs[0].off, segs[0].off + segs[0].len) else 0;
    var rest := Reach(m, src, segs[1..]);
    if first <= rest then rest else first
  }

  predicate Small(s: Segment) { s.Hole? && s.len < PUNCH_MIN }

  /** Is p in a hole too small to be punched? */
  ghost predicate InSmallHole(segs: seq<Segment>, p: nat) {
    exists i :: 0 <= i < |segs| && Small(segs[i]) && segs[i].off <= p < segs[i].off + segs[i].len
  }

  /** Where the file has no data it reads as zeros. */
  ghost predicate HolesAreZero(src: seq<byte>, layout: Layout) {
    |src| == |layout| && forall p :: 0 <= p < |src| && !layout[p] ==> src[p] == 0
  }

  /** Beyond the last written block there are only zeros. */
  lemma {:induction false} BeyondWritten(src: seq<byte>, m: Mode, from: nat, end: nat, p: nat)
    requires 0 < m.block && from <= p < end <= |src| && WrittenEnd(src, m, from, end) <= p
    ensures src[p] == 0
    decreases end - from
  {
    var e := BlockEnd(m, from, end);
    WrittenEndIsLast(src, m, e, end);
    if e <= p {
      BeyondWritten(src, m, e, end, p);
    } else {
      assert src[p] == src[from..e][p - from];
    }
  }

  /** What became of byte p: the source's, or what was there, or a zero where nothing was. */
  function Byte(src: seq<byte>, dst: seq<byte>, fromSource: bool, p: nat): byte
    requires fromSource ==> p < |src|
  {
    if fromSource then src[p] else if p < |dst| then dst[p] else 0
  }

  lemma CopyOneAt(m: Mode, src: seq<byte>, layout: Layout, dst: seq<byte>, s: Segment, p: nat)
    requires 0 < m.block && HolesAreZero(src, layout) && Uniform(layout, s) && s.off + s.len <= |src|
    ensures var r := CopyOne(m, src, dst, s);
            var mine := s.off <= p < s.off + s.len && !Small(s);
            && |dst| <= |r| && (p < |r| ==> r[p] == Byte(src, dst, mine, p))
            && (|r| <= p && mine ==> src[p] == 0)
  {
    if s.off <= p < s.off + s.len {
      assert s.Data? <==> IsData(layout, p);
      if s.Data? && WrittenEnd(src, m, s.off, s.off + s.len) <= p {
        BeyondWritten(src, m, s.off, s.off + s.len, p);
      }
    }
  }

  lemma SmallHoleHead(segs: seq<Segment>, p: nat)
    requires segs != [] && p < segs[0].off + segs[0].len
    requires forall i :: 0 <= i < |segs[1..]| ==> segs[0].off + segs[0].len <= segs[1..][i].off
    ensures InSmallHole(segs, p) <==> Small(segs[0]) && segs[0].off <= p
  {
    assert forall i :: 0 < i < |segs| ==> segs[i] == segs[1..][i - 1];
  }

  lemma SmallHoleTail(segs: seq<Segment>, p: nat)
    requires segs != [] && segs[0].off + segs[0].len <= p
    ensures InSmallHole(segs, p) <==> InSmallHole(segs[1..], p)
  {
    if InSmallHole(segs, p) {
      var i :| 0 <= i < |segs| && Small(segs[i]) && segs[i].off <= p < segs[i].off + segs[i].len;
      assert segs[1..][i - 1] == segs[i];
    }
    if InSmallHole(segs[1..], p) {
      var i :| 0 <= i < |segs[1..]| && Small(segs[1..][i])
          && segs[1..][i].off <= p < segs[1..][i].off + segs[1..][i].len;
      assert segs[i + 1] == segs[1..][i];
    }
  }

  /** Does the source's byte p arrive? */
  ghost predicate Arrives(segs: seq<Segment>, a: nat, b: nat, p: nat) { a <= p < b && !InSmallHole(segs, p) }

  lemma {:induction false} CopyAllLength(m: Mode, src: seq<byte>, dst: seq<byte>, segs: seq<Segment>)
    requires 0 < m.block && Within(segs, |src|)
    ensures |CopyAll(m, src, dst, segs)| == if |dst| <= Reach(m, src, segs) then Reach(m, src, segs) else |dst|
    decreases |segs|
  {
    if segs != [] { CopyAllLength(m, src, CopyOne(m, src, dst, segs[0]), segs[1..]); }
  }

  /** Byte by byte, for a destination of any length. */
  lemma CopyAllAt(m: Mode, src: seq<byte>, layout: Layout, dst: seq<byte>, segs: seq<Segment>, a: nat, b: nat, p: nat)
    requires 0 < m.block && HolesAreZero(src, layout) && Maps(layout, segs, a, b) && b <= |src| && Within(segs, |src|)
    ensures var r := CopyAll(m, src, dst, segs);
            && |r| == (if |dst| <= Reach(m, src, segs) then Reach(m, src, segs) else |dst|)
            && (p < |r| ==> r[p] == Byte(src, dst, Arrives(segs, a, b, p), p))
  {
    CopyAllLength(m, src, dst, segs);
    if p < |CopyAll(m, src, dst, segs)| { CopyAllByte(m, src, layout, dst, segs, a, b, p); }
  }

  lemma {:induction false} CopyAllByte(m: Mode, src: seq<byte>, layout: Layout, dst: seq<byte>, segs: seq<Segment>,
                                       a: nat, b: nat, p: nat)
    requires 0 < m.block && HolesAreZero(src, layout) && Maps(layout, segs, a, b) && b <= |src| && Within(segs, |src|)
    requires p < |CopyAll(m, src, dst, segs)|
    ensures CopyAll(m, src, dst, segs)[p] == Byte(src, dst, Arrives(segs, a, b, p), p)
    decreases |segs|
  {
    if segs != [] {
      var s := segs[0];
      CopyOneAt(m, src, layout, dst, s, p);
      CopyAllByte(m, src, layout, CopyOne(m, src, dst, s), segs[1..], a + s.len, b, p);
      ArrivesCons(layout, segs, a, b, p);
    }
  }

  /** A byte arrives by the first segment, or by the rest. */
  lemma ArrivesCons(layout: Layout, segs: seq<Segment>, a: nat, b: nat, p: nat)
    requires segs != [] && Maps(layout, segs, a, b)
    ensures var mid := a + segs[0].len;
            if p < mid then (Arrives(segs, a, b, p) <==> a <= p && !Small(segs[0])) && !Arrives(segs[1..], mid, b, p)
            else Arrives(segs, a, b, p) <==> Arrives(segs[1..], mid, b, p)
  {
    MapsEnd(layout, segs[1..], a + segs[0].len, b);
    if p < a + segs[0].len { SmallHoleHead(segs, p); } else { SmallHoleTail(segs, p); }
  }

  lemma {:induction false} ReachCovers(m: Mode, src: seq<byte>, segs: seq<Segment>, i: nat)
    requires 0 < m.block && i < |segs| && segs[i].Data?
    ensures WrittenEnd(src, m, segs[i].off, segs[i].off + segs[i].len) <= Reach(m, src, segs)
    decreases |segs|
  {
    if i > 0 { ReachCovers(m, src, segs[1..], i - 1); }
  }

  /** What the copy does not reach is zero in the source. */
  lemma BeyondReach(m: Mode, src: seq<byte>, layout: Layout, segs: seq<Segment>, a: nat, b: nat, p: nat)
    requires 0 < m.block && HolesAreZero(src, layout) && Maps(layout, segs, a, b) && b <= |src|
    requires a <= p < b && Reach(m, src, segs) <= p
    ensures src[p] == 0
  {
    var i := SegmentOfByte(layout, segs, a, b, p);
    MapsEnd(layout, segs, a, b);
    assert segs[i].Data? <==> IsData(layout, p);
    if segs[i].Data? {
      ReachCovers(m, src, segs, i);
      BeyondWritten(src, m, segs[i].off, segs[i].off + segs[i].len, p);
    }
  }

  // ---------------------------------------------------------------- when the copy is exact

  /** The last byte of the range is data, in a block that is written. */
  ghost predicate EndsWritten(m: Mode, src: seq<byte>, segs: seq<Segment>, b: nat)
    requires 0 < m.block
  {
    segs != [] && segs[|segs| - 1].Data? && WrittenEnd(src, m, segs[|segs| - 1].off, b) == b
  }

  lemma {:induction false} ReachOfMap(m: Mode, src: seq<byte>, layout: Layout, segs: seq<Segment>, a: nat, b: nat)
    requires 0 < m.block && Maps(layout, segs, a, b)
    ensures Reach(m, src, segs) <= b
    ensures a < b ==> (Reach(m, src, segs) == b <==> EndsWritten(m, src, segs, b))
    decreases |segs|
  {
    if segs != [] {
      MapsEnd(layout, segs[1..], a + segs[0].len, b);
      ReachOfMap(m, src, layout, segs[1..], a + segs[0].len, b);
      if |segs| > 1 {
        assert segs[1..][|segs| - 2] == segs[|segs| - 1];
        assert 0 < segs[1..][0].len;
      } else {
        assert segs[1..] == [];
      }
    }
  }

  /** Every byte of a range is copied, or was right already. */
  ghost predicate HasRange(src: seq<byte>, r: seq<byte>, a: nat, b: nat) {
    b <= |r| && b <= |src| && forall p :: a <= p < b ==> r[p] == src[p]
  }

  /** The destination reads as zero wherever the range has a hole too small to be punched. */
  ghost predicate HolesFresh(dst: seq<byte>, segs: seq<Segment>) {
    forall p: nat :: p < |dst| && InSmallHole(segs, p) ==> dst[p] == 0
  }

  lemma SmallHoleIsZero(src: seq<byte>, layout: Layout, segs: seq<Segment>, a: nat, b: nat, p: nat)
    requires HolesAreZero(src, layout) && Maps(layout, segs, a, b) && b <= |src| && InSmallHole(segs, p)
    ensures a <= p < b && src[p] == 0
  {
    MapsEnd(layout, segs, a, b);
    var i :| 0 <= i < |segs| && Small(segs[i]) && segs[i].off <= p < segs[i].off + segs[i].len;
    MapsAt(layout, segs, a, b, i);
    assert segs[i].Data? <==> IsData(layout, p);
  }

  lemma {:induction false} MapsAt(layout: Layout, segs: seq<Segment>, a: nat, b: nat, i: nat)
    requires Maps(layout, segs, a, b) && i < |segs|
    ensures Uniform(layout, segs[i])
    decreases |segs|
  {
    if i > 0 { MapsAt(layout, segs[1..], a + segs[0].len, b, i - 1); }
  }

  /**
   * The copy of a range into a file of any length is exact if and only if the file was zero in every hole of less
   * than 16 KiB, and reached to the end of the range already or is extended that far by a written block.
   */
  lemma SparseCopyExact(m: Mode, src: seq<byte>, layout: Layout, dst: seq<byte>, a: nat, b: nat)
    requires 0 < m.block && HolesAreZero(src, layout) && a < b <= |src|
    ensures var segs := SegmentsOf(layout, a, b);
            && Within(segs, |src|)
            && (HasRange(src, CopyAll(m, src, dst, segs), a, b)
                <==> HolesFresh(dst, segs) && (b <= |dst| || EndsWritten(m, src, segs, b)))
  {
    var segs := SegmentsOf(layout, a, b);
    SegmentsTile(layout, a, b);
    MapsEnd(layout, segs, a, b);
    ReachOfMap(m, src, layout, segs, a, b);
    var r := CopyAll(m, src, dst, segs);
    CopyAllAt(m, src, layout, dst, segs, a, b, a);
    forall p: nat | p < |r| ensures r[p] == Byte(src, dst, Arrives(segs, a, b, p), p) {
      CopyAllAt(m, src, layout, dst, segs, a, b, p);
    }
    forall p: nat | InSmallHole(segs, p) ensures a <= p < b && src[p] == 0 {
      SmallHoleIsZero(src, layout, segs, a, b, p);
    }
  }

  // ---------------------------------------------------------------- whole files

  /** The destination of a full copy: truncated, and extended to the source's size unless that was refused. */
  function Prepared(n: nat, preallocated: bool): seq<byte> { if preallocated then Zeros(n) else [] }

  lemma SegmentsFit(layout: Layout, a: nat, b: nat)
    requires a <= b
    ensures Within(SegmentsOf(layout, a, b), b)
  {
    SegmentsTile(layout, a, b);
    MapsEnd(layout, SegmentsOf(layout, a, b), a, b);
  }

  /** One range copied, as mapped. */
  function RangeCopied(m: Mode, src: seq<byte>, layout: Layout, dst: seq<byte>, offset: nat, length: nat): seq<byte>
    requires 0 < m.block && offset + length <= |src|
  {
    RangeFits(layout, offset, length, |src|);
    CopyAll(m, src, dst, SegmentsOf(layout, offset, offset + length))
  }

  lemma RangeFits(layout: Layout, offset: nat, length: nat, n: nat)
    requires offset + length <= n
    ensures Within(SegmentsOf(layout, offset, offset + length), n)
  {
    SegmentsFit(layout, offset, offset + length);
  }

  function FullCopied(m: Mode, src: seq<byte>, layout: Layout, preallocated: bool): seq<byte>
    requires 0 < m.block
  {
    RangeCopied(m, src, layout, Prepared(|src|, preallocated), 0, |src|)
  }

  /**
   * A full copy into a preallocated file is the source. Without preallocation it is exactly when the source is empty
   * or its last byte is data in a block that is written.
   */
  lemma FullCopyIff(m: Mode, src: seq<byte>, layout: Layout, preallocated: bool)
    requires 0 < m.block && HolesAreZero(src, layout)
    ensures FullCopied(m, src, layout, preallocated) == src
            <==> preallocated || src == [] || EndsWritten(m, src, SegmentsOf(layout, 0, |src|), |src|)
  {
    var segs, dst := SegmentsOf(layout, 0, |src|), Prepared(|src|, preallocated);
    var r := FullCopied(m, src, layout, preallocated);
    SegmentsFit(layout, 0, |src|);
    if src == [] {
      assert segs == [] && r == dst == [];
    } else {
      SparseCopyExact(m, src, layout, dst, 0, |src|);
      FullCopyLength(m, src, layout, dst);
      assert HasRange(src, r, 0, |src|) <==> r == src;
    }
  }

  lemma FullCopyLength(m: Mode, src: seq<byte>, layout: Layout, dst: seq<byte>)
    requires 0 < m.block && |dst| <= |src|
    ensures var segs := SegmentsOf(layout, 0, |src|);
            Within(segs, |src|) && |CopyAll(m, src, dst, segs)| <= |src|
  {
    var segs := SegmentsOf(layout, 0, |src|);
    SegmentsFit(layout, 0, |src|);
    SegmentsTile(layout, 0, |src|);
    CopyAllLength(m, src, dst, segs);
    ReachOfMap(m, src, layout, segs, 0, |src|);
  }

  // ---------------------------------------------------------------- small holes, without the segments

  /** A hole of the range as long as it can be. */
  ghost predicate HoleRun(layout: Layout, a: nat, b: nat, lo: nat, hi: nat) {
    && a <= lo < hi <= b && (forall p: nat :: lo <= p < hi ==> !IsData(layout, p))
    && (lo == a || IsData(layout, lo - 1)) && (hi == b || IsData(layout, hi))
  }

  /** Every hole segment of the mapping is as long as it can be. */
  lemma {:induction false} HolesAreRuns(layout: Layout, a: nat, cur: nat, end: nat, s: Segment)
    requires a <= cur <= end && (cur == a || IsData(layout, cur - 1))
    requires s in SegmentsOf(layout, cur, end) && s.Hole?
    ensures HoleRun(layout, a, end, s.off, s.off + s.len)
    decreases end - cur
  {
    var data := SeekData(layout, cur);
    if data.Some? && data.value < end && (data.value == cur || s != Hole(cur, data.value - cur)) {
      var e := SegmentEnd(SeekHole(layout, data.value), end);
      assert s in SegmentsOf(layout, e, end);
      HolesAreRuns(layout, a, e, end, s);
    }
  }

  lemma {:induction false} SegmentOfByte(layout: Layout, segs: seq<Segment>, a: nat, b: nat, p: nat) returns (i: nat)
    requires Maps(layout, segs, a, b) && a <= p < b
    ensures i < |segs| && segs[i].off <= p < segs[i].off + segs[i].len && Uniform(layout, segs[i])
    decreases |segs|
  {
    if p < a + segs[0].len {
      i := 0;
    } else {
      var j := SegmentOfByte(layout, segs[1..], a + segs[0].len, b, p);
      i := j + 1;
    }
  }

  /** A byte is in a small hole when the hole around it, as far as it goes in the range, is under 16 KiB. */
  lemma SmallHoleIff(layout: Layout, a: nat, b: nat, p: nat)
    requires a <= p < b
    ensures InSmallHole(SegmentsOf(layout, a, b), p)
            <==> exists lo: nat, hi: nat :: HoleRun(layout, a, b, lo, hi) && lo <= p < hi && hi - lo < PUNCH_MIN
  {
    if InSmallHole(SegmentsOf(layout, a, b), p) {
      SmallIsRun(layout, a, b, p);
    }
    if lo: nat, hi: nat :| HoleRun(layout, a, b, lo, hi) && lo <= p < hi && hi - lo < PUNCH_MIN {
      RunIsSmall(layout, a, b, lo, hi, p);
    }
  }

  lemma SmallIsRun(layout: Layout, a: nat, b: nat, p: nat)
    requires a <= p < b && InSmallHole(SegmentsOf(layout, a, b), p)
    ensures exists lo: nat, hi: nat :: HoleRun(layout, a, b, lo, hi) && lo <= p < hi && hi - lo < PUNCH_MIN
  {
    var segs := SegmentsOf(layout, a, b);
    var i :| 0 <= i < |segs| && Small(segs[i]) && segs[i].off <= p < segs[i].off + segs[i].len;
    HolesAreRuns(layout, a, a, b, segs[i]);
    assert HoleRun(layout, a, b, segs[i].off, segs[i].off + segs[i].len);
  }

  lemma RunIsSmall(layout: Layout, a: nat, b: nat, lo: nat, hi: nat, p: nat)
    requires HoleRun(layout, a, b, lo, hi) && lo <= p < hi && hi - lo < PUNCH_MIN
    ensures InSmallHole(SegmentsOf(layout, a, b), p)
  {
    var segs := SegmentsOf(layout, a, b);
    SegmentsTile(layout, a, b);
    var i := SegmentOfByte(layout, segs, a, b, p);
    assert !IsData(layout, p);
    HolesAreRuns(layout, a, a, b, segs[i]);
    RunsAgreeAt(layout, a, b, lo, hi, segs[i].off, segs[i].off + segs[i].len, p);
  }

  lemma RunsAgreeAt(layout: Layout, a: nat, b: nat, lo: nat, hi: nat, x: nat, y: nat, p: nat)
    requires HoleRun(layout, a, b, lo, hi) && HoleRun(layout, a, b, x, y) && lo <= p < hi && x <= p < y
    ensures x == lo && y == hi
  {
  }

  // ---------------------------------------------------------------- mapping, engine and all

  /** The pool and the modes of a copier. */
  datatype Setup = Setup(capacity: nat, limit: nat, chunkSize: nat, zeroBlocks: bool, shared: bool)
  {
    predicate Valid() { 0 < chunkSize && 0 < limit <= capacity }

    function Call(src: seq<byte>, off: nat, len: nat): Config {
      Config(src, off, len, capacity, limit, chunkSize, zeroBlocks, shared, false, 0, 0)
    }

    function Mode(): Mode { CopyOutcome.Mode(zeroBlocks, chunkSize) }
  }

  /** The schedule brings the call to its end, with no completion short or interrupted. */
  ghost predicate Completes(setup: Setup, src: seq<byte>, dst0: seq<byte>, off: nat, len: nat, schedule: seq<Step>)
    requires setup.Valid() && off + len <= |src|
  {
    var call := setup.Call(src, off, len);
    Finished(Played(call, Init(call, dst0), schedule)) && PlayedFull(call, Init(call, dst0), schedule)
  }

  /** So does each of the schedules from number i on, one for each segment, those of holes left aside. */
  ghost predicate AllComplete(setup: Setup, src: seq<byte>, dst: seq<byte>, segs: seq<Segment>,
                              schedules: nat -> seq<Step>, i: nat)
    requires setup.Valid() && Within(segs, |src|)
    decreases |segs|
  {
    segs == [] ||
      (&& (segs[0].Data? ==> Completes(setup, src, dst, segs[0].off, segs[0].len, schedules(i)))
       && AllComplete(setup, src, CopyOne(setup.Mode(), src, dst, segs[0]), segs[1..], schedules, i + 1))
  }

  /** The schedules complete the copy of a range. */
  ghost predicate RangeCompletes(setup: Setup, src: seq<byte>, layout: Layout, dst0: seq<byte>, offset: nat,
                                 length: nat, schedules: nat -> seq<Step>)
    requires setup.Valid() && offset + length <= |src|
  {
    RangeFits(layout, offset, length, |src|);
    AllComplete(setup, src, dst0, SegmentsOf(layout, offset, offset + length), schedules, 0)
  }

  /**
   * The copy of one range: the source is mapped, every data segment goes through the engine under some schedule,
   * and large holes are punched. `whole` says that every engine call returned Ok with all its bytes processed and
   * no buffer leaked, which is exactly when its schedule completes it.
   */
  method SparseCopy(setup: Setup, src: seq<byte>, layout: Layout, dst0: seq<byte>, offset: nat, length: nat,
                    schedules: nat -> seq<Step>)
      returns (dst: seq<byte>, whole: bool)
    requires setup.Valid() && HolesAreZero(src, layout) && offset + length <= |src|
    ensures whole ==> dst == RangeCopied(setup.Mode(), src, layout, dst0, offset, length)
    ensures whole <==> RangeCompletes(setup, src, layout, dst0, offset, length, schedules)
  {
    var segments := MapSparseSegments(layout, offset, length);
    RangeFits(layout, offset, length, |src|);
    dst, whole := dst0, true;
    assert segments[0..] == segments;
    for i := 0 to |segments|
      invariant Copying(setup, src, dst0, segments, schedules, i, dst, whole)
    {
      var was, good := dst, true;
      dst, good := CopySegment(setup, src, dst, segments[i], schedules(i));
      CopyingStep(setup, src, dst0, segments, schedules, i, was, whole, dst, good);
      whole := whole && good;
    }
  }

  /** After i segments: if all went well, the rest of the copy is to come, and the rest of the schedules decides. */
  ghost predicate Copying(setup: Setup, src: seq<byte>, dst0: seq<byte>, segs: seq<Segment>,
                          schedules: nat -> seq<Step>, i: nat, dst: seq<byte>, whole: bool)
    requires setup.Valid() && Within(segs, |src|) && i <= |segs|
  {
    && (whole ==> CopyAll(setup.Mode(), src, dst, segs[i..]) == CopyAll(setup.Mode(), src, dst0, segs))
    && (whole && AllComplete(setup, src, dst, segs[i..], schedules, i)
        <==> AllComplete(setup, src, dst0, segs, schedules, 0))
  }

  lemma CopyingStep(setup: Setup, src: seq<byte>, dst0: seq<byte>, segs: seq<Segment>, schedules: nat -> seq<Step>,
                    i: nat, was: seq<byte>, whole: bool, dst: seq<byte>, good: bool)
    requires setup.Valid() && Within(segs, |src|) && i < |segs|
    requires Copying(setup, src, dst0, segs, schedules, i, was, whole)
    requires good ==> dst == CopyOne(setup.Mode(), src, was, segs[i])
    requires good <==> segs[i].Hole? || Completes(setup, src, was, segs[i].off, segs[i].len, schedules(i))
    ensures Copying(setup, src, dst0, segs, schedules, i + 1, dst, whole && good)
  {
    var rest := segs[i..];
    assert rest[0] == segs[i] && rest[1..] == segs[i + 1..];
  }

  method CopySegment(setup: Setup, src: seq<byte>, dst0: seq<byte>, segment: Segment, schedule: seq<Step>)
      returns (dst: seq<byte>, good: bool)
    requires setup.Valid() && segment.off + segment.len <= |src|
    ensures good ==> dst == CopyOne(setup.Mode(), src, dst0, segment)
    ensures good <==> segment.Hole? || Completes(setup, src, dst0, segment.off, segment.len, schedule)
  {
    match segment {
      case Hole(off, len) =>
        dst, good := if len >= PUNCH_MIN then Landed(dst0, off, Zeros(len), 0) else dst0, true;
      case Data(off, len) =>
        dst, good := CopyData(setup, src, dst0, off, len, schedule);
    }
  }

  /** A data segment through the engine. */
  method CopyData(setup: Setup, src: seq<byte>, dst0: seq<byte>, off: nat, len: nat, schedule: seq<Step>)
      returns (dst: seq<byte>, good: bool)
    requires setup.Valid() && off + len <= |src|
    ensures good ==> dst == CopyOne(setup.Mode(), src, dst0, Data(off, len))
    ensures good <==> Completes(setup, src, dst0, off, len, schedule)
  {
    var call := setup.Call(src, off, len);
    ExpectedOfCall(setup, src, dst0, off, len);
    var s, ok := ProcessSegment(call, dst0, schedule);
    dst, good := FileOf(s), ok && s.processed == len && s.leaked == {};
  }

  /** What a call of the engine should leave is the copy of the segment. */
  lemma ExpectedOfCall(setup: Setup, src: seq<byte>, dst0: seq<byte>, off: nat, len: nat)
    requires setup.Valid() && off + len <= |src|
    ensures var call := setup.Call(src, off, len);
            call.Valid() && Expected(call, dst0) == CopyOne(setup.Mode(), src, dst0, Data(off, len))
  {
    assert ModeOf(setup.Call(src, off, len)) == setup.Mode();
  }

  /** The whole file, into a destination prepared for it. */
  method CopyWhole(setup: Setup, src: seq<byte>, layout: Layout, preallocated: bool, schedules: nat -> seq<Step>)
      returns (dst: seq<byte>, whole: bool)
    requires setup.Valid() && HolesAreZero(src, layout)
    ensures whole ==> dst == FullCopied(setup.Mode(), src, layout, preallocated)
    ensures whole <==> RangeCompletes(setup, src, layout, Prepared(|src|, preallocated), 0, |src|, schedules)
  {
    dst, whole := SparseCopy(setup, src, layout, Prepared(|src|, preallocated), 0, |src|, schedules);
  }

  // ---------------------------------------------------------------- there are such schedules

  lemma {:induction false} LeadingIsPlayed(c: Config, s: State, more: seq<Step>, last: State)
    requires Leads(c, s, more, last) && Finished(last)
    ensures Finished(Played(c, s, more)) && PlayedFull(c, s, more)
    decreases |more|
  {
    if more != [] && !Finished(s) { LeadingIsPlayed(c, Apply(c, s, more[0]), more[1..], last); }
  }

  /** Every call of the engine can complete. */
  lemma SomeScheduleCompletes(setup: Setup, src: seq<byte>, dst0: seq<byte>, off: nat, len: nat)
      returns (schedule: seq<Step>)
    requires setup.Valid() && off + len <= |src|
    ensures Completes(setup, src, dst0, off, len, schedule)
  {
    var call := setup.Call(src, off, len);
    var start, last := Init(call, dst0), Init(call, dst0);
    assert Runs(call, dst0, [], start);
    RunKeepsInv(call, dst0, [], start);
    RunsAtBlocks(call, dst0, [], start);
    schedule, last := LeadsToEnd(call, Image(call, dst0), start, 0);
    LeadingIsPlayed(call, start, schedule, last);
  }

  lemma {:induction false} ShiftedSchedules(setup: Setup, src: seq<byte>, dst: seq<byte>, segs: seq<Segment>,
                                            f: nat -> seq<Step>, g: nat -> seq<Step>, i: nat)
    requires setup.Valid() && Within(segs, |src|) && forall k: nat :: g(k) == f(k + 1)
    ensures AllComplete(setup, src, dst, segs, f, i + 1) <==> AllComplete(setup, src, dst, segs, g, i)
    decreases |segs|
  {
    if segs != [] {
      ShiftedSchedules(setup, src, CopyOne(setup.Mode(), src, dst, segs[0]), segs[1..], f, g, i + 1);
      assert g(i) == f(i + 1);
    }
  }

  function Nth(ss: seq<seq<Step>>): nat -> seq<Step> { (k: nat) => if k < |ss| then ss[k] else [] }

  /** So can the copies of all segments, one behind the other. */
  lemma {:induction false} SomeSchedulesComplete(setup: Setup, src: seq<byte>, dst: seq<byte>, segs: seq<Segment>)
      returns (ss: seq<seq<Step>>)
    requires setup.Valid() && Within(segs, |src|)
    ensures |ss| == |segs| && AllComplete(setup, src, dst, segs, Nth(ss), 0)
    decreases |segs|
  {
    if segs == [] {
      ss := [];
    } else {
      var next := CopyOne(setup.Mode(), src, dst, segs[0]);
      var rest := SomeSchedulesComplete(setup, src, next, segs[1..]);
      var first := SomeScheduleCompletes(setup, src, dst, segs[0].off, segs[0].len);
      CompleteCons(setup, src, dst, segs, first, rest);
      ss := [first] + rest;
    }
  }

  lemma CompleteCons(setup: Setup, src: seq<byte>, dst: seq<byte>, segs: seq<Segment>, first: seq<Step>,
                     rest: seq<seq<Step>>)
    requires setup.Valid() && Within(segs, |src|) && segs != []
    requires Completes(setup, src, dst, segs[0].off, segs[0].len, first)
    requires AllComplete(setup, src, CopyOne(setup.Mode(), src, dst, segs[0]), segs[1..], Nth(rest), 0)
    ensures AllComplete(setup, src, dst, segs, Nth([first] + rest), 0)
  {
    var f, g := Nth([first] + rest), Nth(rest);
    assert f(0) == first;
    assert forall k: nat :: g(k) == f(k + 1);
    ShiftedSchedules(setup, src, CopyOne(setup.Mode(), src, dst, segs[0]), segs[1..], f, g, 0);
  }
}
