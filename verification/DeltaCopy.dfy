/**
 * Copying the dirty ranges of a diff: every range goes through the sparse mapping and the engine, into the target as
 * it stands.
 */
module DeltaCopy {
  import opened Bytes
  import opened CopyOutcome
  import opened CopyEngine
  import opened Sparse
  import opened Merkle
  import opened MerkleDelta

  function RangeSegments(layout: Layout, r: Range): seq<Segment> {
    SegmentsOf(layout, r.offset, r.offset + r.length)
  }

  lemma SegmentsWithin(layout: Layout, r: Range, n: nat)
    requires r.offset + r.length <= n
    ensures Maps(layout, RangeSegments(layout, r), r.offset, r.offset + r.length)
    ensures Sparse.Within(RangeSegments(layout, r), n)
  {
    SegmentsTile(layout, r.offset, r.offset + r.length);
    MapsEnd(layout, RangeSegments(layout, r), r.offset, r.offset + r.length);
  }

  function CopyRange(m: Mode, src: seq<byte>, layout: Layout, dst: seq<byte>, r: Range): seq<byte>
    requires 0 < m.block && r.offset + r.length <= |src|
  {
    SegmentsWithin(layout, r, |src|);
    CopyAll(m, src, dst, RangeSegments(layout, r))
  }

  lemma RangeIsCopied(m: Mode, src: seq<byte>, layout: Layout, dst: seq<byte>, r: Range)
    requires 0 < m.block && r.offset + r.length <= |src|
    ensures RangeCopied(m, src, layout, dst, r.offset, r.length) == CopyRange(m, src, layout, dst, r)
  {
  }

  function Applied(m: Mode, src: seq<byte>, layout: Layout, dst: seq<byte>, ranges: seq<Range>): seq<byte>
    requires 0 < m.block && Fit(ranges, |src|)
  {
    if ranges == [] then dst
    else
      var init, last := ranges[..|ranges| - 1], ranges[|ranges| - 1];
      CopyRange(m, src, layout, Applied(m, src, layout, dst, init), last)
  }

  /** The schedules of range k. */
  function SchedulesOf(schedules: (nat, nat) -> seq<CopyEngine.Step>, k: nat): nat -> seq<CopyEngine.Step> {
    (i: nat) => schedules(k, i)
  }

  /** The schedules complete every range's copy into what the ranges before it have made of the target. */
  ghost predicate RangesComplete(setup: Setup, src: seq<byte>, layout: Layout, dst0: seq<byte>, ranges: seq<Range>,
                                 schedules: (nat, nat) -> seq<CopyEngine.Step>)
    requires setup.Valid() && Fit(ranges, |src|)
  {
    CompleteUpTo(setup, src, layout, dst0, ranges, schedules, |ranges|)
  }

  ghost predicate CompleteUpTo(setup: Setup, src: seq<byte>, layout: Layout, dst0: seq<byte>, ranges: seq<Range>,
                               schedules: (nat, nat) -> seq<CopyEngine.Step>, n: nat)
    requires setup.Valid() && Fit(ranges, |src|) && n <= |ranges|
  {
    n == 0 ||
      (&& CompleteUpTo(setup, src, layout, dst0, ranges, schedules, n - 1)
       && RangeCompletes(setup, src, layout, Applied(setup.Mode(), src, layout, dst0, ranges[..n - 1]),
                         ranges[n - 1].offset, ranges[n - 1].length, SchedulesOf(schedules, n - 1)))
  }

  /**
   * The copy of all ranges, each under schedules of its own. `whole` says that every engine call returned Ok with
   * all its bytes processed and no buffer leaked, which is exactly when its schedule completes it.
   */
  method CopyDelta(setup: Setup, src: seq<byte>, layout: Layout, dst0: seq<byte>, ranges: seq<Range>,
                   schedules: (nat, nat) -> seq<CopyEngine.Step>)
      returns (dst: seq<byte>, whole: bool)
    requires setup.Valid() && HolesAreZero(src, layout) && Fit(ranges, |src|)
    ensures whole ==> dst == Applied(setup.Mode(), src, layout, dst0, ranges)
    ensures whole <==> RangesComplete(setup, src, layout, dst0, ranges, schedules)
  {
    dst, whole := dst0, true;
    assert ranges[..0] == [];
    for k := 0 to |ranges|
      invariant whole ==> dst == Applied(setup.Mode(), src, layout, dst0, ranges[..k])
      invariant whole <==> CompleteUpTo(setup, src, layout, dst0, ranges, schedules, k)
    {
      AppliedNext(setup.Mode(), src, layout, dst0, ranges, k);
      RangeIsCopied(setup.Mode(), src, layout, dst, ranges[k]);
      var good;
      dst, good := SparseCopy(setup, src, layout, dst, ranges[k].offset, ranges[k].length, SchedulesOf(schedules, k));
      whole := whole && good;
    }
    assert ranges[..|ranges|] == ranges;
  }

  lemma AppliedNext(m: Mode, src: seq<byte>, layout: Layout, dst: seq<byte>, ranges: seq<Range>, k: nat)
    requires 0 < m.block && Fit(ranges, |src|) && k < |ranges|
    ensures Applied(m, src, layout, dst, ranges[..k + 1])
            == CopyRange(m, src, layout, Applied(m, src, layout, dst, ranges[..k]), ranges[k])
  {
    assert ranges[..k + 1][..k] == ranges[..k] && ranges[..k + 1][k] == ranges[k];
  }

  // ---------------------------------------------------------------- byte by byte

  /** Does some range bring the source's byte p? */
  ghost predicate Brought(layout: Layout, ranges: seq<Range>, p: nat) {
    exists k :: 0 <= k < |ranges| && Inside(ranges[k], p) && !InSmallHole(RangeSegments(layout, ranges[k]), p)
  }

  /** Is p in a hole of a range that is too small to be punched? */
  ghost predicate Skipped(layout: Layout, ranges: seq<Range>, p: nat) {
    exists k :: 0 <= k < |ranges| && Inside(ranges[k], p) && InSmallHole(RangeSegments(layout, ranges[k]), p)
  }

  function ReachAll(m: Mode, src: seq<byte>, layout: Layout, ranges: seq<Range>): nat
    requires 0 < m.block
  {
    if ranges == [] then 0 else
    var rest := ReachAll(m, src, layout, ranges[..|ranges| - 1]);
    var last := Reach(m, src, RangeSegments(layout, ranges[|ranges| - 1]));
    if rest <= last then last else rest
  }

  /** Bytes that are brought come from the source, the others stay, and new ones are zero. */
  ghost predicate Mixes(m: Mode, src: seq<byte>, layout: Layout, dst: seq<byte>, ranges: seq<Range>, r: seq<byte>)
    requires 0 < m.block && Fit(ranges, |src|)
  {
    && |r| == (if |dst| <= ReachAll(m, src, layout, ranges) then ReachAll(m, src, layout, ranges) else |dst|)
    && (forall p: nat :: p < |r| ==> r[p] == Byte(src, dst, p < |src| && Brought(layout, ranges, p), p))
    && (forall p: nat :: |r| <= p < |src| && Brought(layout, ranges, p) ==> src[p] == 0)
  }

  lemma BroughtSnoc(layout: Layout, init: seq<Range>, last: Range, p: nat)
    ensures Brought(layout, init + [last], p)
            <==> Brought(layout, init, p) || (Inside(last, p) && !InSmallHole(RangeSegments(layout, last), p))
  {
    var all := init + [last];
    assert all[|init|] == last && forall k :: 0 <= k < |init| ==> all[k] == init[k];
    if Brought(layout, init, p) {
      var k :| 0 <= k < |init| && Inside(init[k], p) && !InSmallHole(RangeSegments(layout, init[k]), p);
      assert all[k] == init[k];
    }
  }

  /** One range more, at one byte. */
  lemma CopyRangeAt(m: Mode, src: seq<byte>, layout: Layout, dst: seq<byte>, r: Range, p: nat)
    requires 0 < m.block && HolesAreZero(src, layout) && r.offset + r.length <= |src|
    ensures var out, segs := CopyRange(m, src, layout, dst, r), RangeSegments(layout, r);
            var mine := Inside(r, p) && !InSmallHole(segs, p);
            && |out| == (if |dst| <= Reach(m, src, segs) then Reach(m, src, segs) else |dst|)
            && (p < |out| ==> out[p] == Byte(src, dst, mine, p))
            && (|out| <= p && mine ==> src[p] == 0)
  {
    SegmentsWithin(layout, r, |src|);
    MapAt(m, src, layout, dst, RangeSegments(layout, r), r.offset, r.offset + r.length, p);
  }

  lemma MapAt(m: Mode, src: seq<byte>, layout: Layout, dst: seq<byte>, segs: seq<Segment>, a: nat, b: nat, p: nat)
    requires 0 < m.block && HolesAreZero(src, layout) && b <= |src|
    requires Maps(layout, segs, a, b) && Sparse.Within(segs, |src|)
    ensures var out, mine := CopyAll(m, src, dst, segs), a <= p < b && !InSmallHole(segs, p);
            && |out| == (if |dst| <= Reach(m, src, segs) then Reach(m, src, segs) else |dst|)
            && (p < |out| ==> out[p] == Byte(src, dst, mine, p))
            && (|out| <= p && mine ==> src[p] == 0)
  {
    CopyAllAt(m, src, layout, dst, segs, a, b, p);
    if a <= p < b && Reach(m, src, segs) <= p { BeyondReach(m, src, layout, segs, a, b, p); }
  }

  lemma {:induction false} AppliedMixes(m: Mode, src: seq<byte>, layout: Layout, dst: seq<byte>, ranges: seq<Range>)
    requires 0 < m.block && HolesAreZero(src, layout) && Fit(ranges, |src|)
    ensures Mixes(m, src, layout, dst, ranges, Applied(m, src, layout, dst, ranges))
  {
    if ranges != [] {
      var init, last := ranges[..|ranges| - 1], ranges[|ranges| - 1];
      AppliedMixes(m, src, layout, dst, init);
      assert init + [last] == ranges;
      MixesSnoc(m, src, layout, dst, init, last, Applied(m, src, layout, dst, init));
    }
  }

  lemma MixesSnoc(m: Mode, src: seq<byte>, layout: Layout, dst: seq<byte>, init: seq<Range>, last: Range, r: seq<byte>)
    requires 0 < m.block && HolesAreZero(src, layout) && Fit(init + [last], |src|) && Fit(init, |src|)
    requires last.offset + last.length <= |src| && Mixes(m, src, layout, dst, init, r)
    ensures Mixes(m, src, layout, dst, init + [last], CopyRange(m, src, layout, r, last))
  {
    var all, out := init + [last], CopyRange(m, src, layout, r, last);
    assert all[..|all| - 1] == init && all[|all| - 1] == last;
    CopyRangeAt(m, src, layout, r, last, 0);
    forall p: nat | p < |out| ensures out[p] == Byte(src, dst, p < |src| && Brought(layout, all, p), p) {
      CopyRangeAt(m, src, layout, r, last, p);
      BroughtSnoc(layout, init, last, p);
    }
    forall p: nat | |out| <= p < |src| && Brought(layout, all, p) ensures src[p] == 0 {
      CopyRangeAt(m, src, layout, r, last, p);
      BroughtSnoc(layout, init, last, p);
    }
  }

  // ---------------------------------------------------------------- when a delta copy is a full copy

  /** The target reads as zero in every small hole of the dirty ranges. */
  ghost predicate Fresh(layout: Layout, b: seq<byte>, ranges: seq<Range>) {
    forall p: nat :: p < |b| && Skipped(layout, ranges, p) ==> b[p] == 0
  }

  /** The last dirty range reaches the end of the source, and its last byte is data in a block that is written. */
  ghost predicate TailWritten(m: Mode, a: seq<byte>, layout: Layout, ranges: seq<Range>)
    requires 0 < m.block
  {
    && ranges != []
    && var last := ranges[|ranges| - 1];
       last.offset + last.length == |a| && EndsWritten(m, a, RangeSegments(layout, last), |a|)
  }

  /** What a diff promises about bytes; enough for the delta copy. */
  ghost predicate Complete(a: seq<byte>, b: seq<byte>, ranges: seq<Range>) {
    && Fit(ranges, |a|) && Separated(ranges)
    && forall p: nat :: p < |a| ==> Covered(ranges, p) || (p < |b| && a[p] == b[p])
  }

  lemma DiffIsComplete(hash: Hasher, a: seq<byte>, b: seq<byte>, size: nat)
    requires 0 < size && Narrow(|a|, size)
    requires CollisionFree(hash, Hashed(hash, a, size) + Hashed(hash, b, size))
    ensures Complete(a, b, DiffOf(TreeOf(hash, a, size), TreeOf(hash, b, size)))
  {
    var s, t := TreeOf(hash, a, size), TreeOf(hash, b, size);
    TreeIsContiguous(hash, a, size);
    DiffCovers(s, t);
    DiffFits(hash, a, size, t);
    forall p: nat ensures p < |a| ==> Covered(DiffOf(s, t), p) || (p < |b| && a[p] == b[p]) {
      if p < |a| { DirtyOrSame(hash, a, b, size, p); }
    }
  }

  lemma {:induction false} SeparatedOrder(ranges: seq<Range>, i: nat, j: nat)
    requires Separated(ranges) && i < j < |ranges|
    ensures ranges[i].offset + ranges[i].length < ranges[j].offset
  {
    if i + 1 < j { SeparatedOrder(ranges, i, j - 1); }
  }

  /** A covered byte is in one range only: it is brought or skipped, never both. */
  lemma BroughtOrSkipped(layout: Layout, ranges: seq<Range>, p: nat)
    requires Separated(ranges)
    ensures Covered(ranges, p) <==> Brought(layout, ranges, p) || Skipped(layout, ranges, p)
    ensures !(Brought(layout, ranges, p) && Skipped(layout, ranges, p))
  {
    forall i, j | 0 <= i < |ranges| && 0 <= j < |ranges| && Inside(ranges[i], p) && Inside(ranges[j], p)
      ensures i == j
    {
      if i < j { SeparatedOrder(ranges, i, j); } else if j < i { SeparatedOrder(ranges, j, i); }
    }
  }

  lemma SkippedIsZero(src: seq<byte>, layout: Layout, ranges: seq<Range>, p: nat)
    requires HolesAreZero(src, layout) && Fit(ranges, |src|) && Skipped(layout, ranges, p)
    ensures p < |src| && src[p] == 0
  {
    var k :| 0 <= k < |ranges| && Inside(ranges[k], p) && InSmallHole(RangeSegments(layout, ranges[k]), p);
    SegmentsWithin(layout, ranges[k], |src|);
    SmallHoleIsZero(src, layout, RangeSegments(layout, ranges[k]), ranges[k].offset,
                    ranges[k].offset + ranges[k].length, p);
  }

  lemma {:induction false} ReachAllFits(m: Mode, src: seq<byte>, layout: Layout, ranges: seq<Range>, n: nat)
    requires 0 < m.block && Fit(ranges, n)
    ensures ReachAll(m, src, layout, ranges) <= n
  {
    if ranges != [] {
      var init, last := ranges[..|ranges| - 1], ranges[|ranges| - 1];
      ReachAllFits(m, src, layout, init, n);
      SegmentsWithin(layout, last, n);
      ReachOfMap(m, src, layout, RangeSegments(layout, last), last.offset, last.offset + last.length);
    }
  }

  /** The ranges extend the file to the end of the source exactly when the last byte is written. */
  lemma ReachesEnd(m: Mode, a: seq<byte>, layout: Layout, ranges: seq<Range>)
    requires 0 < m.block && Fit(ranges, |a|) && Separated(ranges) && a != []
    ensures ReachAll(m, a, layout, ranges) == |a| <==> TailWritten(m, a, layout, ranges)
  {
    if ranges != [] {
      InitReach(m, a, layout, ranges);
      LastReach(m, a, layout, ranges[|ranges| - 1]);
    }
  }

  lemma LastReach(m: Mode, a: seq<byte>, layout: Layout, last: Range)
    requires 0 < m.block && 0 < last.length && last.offset + last.length <= |a|
    ensures Reach(m, a, RangeSegments(layout, last)) <= last.offset + last.length
    ensures Reach(m, a, RangeSegments(layout, last)) == |a|
            <==> last.offset + last.length == |a| && EndsWritten(m, a, RangeSegments(layout, last), |a|)
  {
    SegmentsWithin(layout, last, |a|);
    ReachOfMap(m, a, layout, RangeSegments(layout, last), last.offset, last.offset + last.length);
  }

  lemma InitReach(m: Mode, a: seq<byte>, layout: Layout, ranges: seq<Range>)
    requires 0 < m.block && Separated(ranges) && ranges != []
    ensures ReachAll(m, a, layout, ranges[..|ranges| - 1]) <= ranges[|ranges| - 1].offset
  {
    var init, last := ranges[..|ranges| - 1], ranges[|ranges| - 1];
    forall k | 0 <= k < |init| ensures init[k].offset + init[k].length <= last.offset {
      SeparatedOrder(ranges, k, |ranges| - 1);
    }
    ReachAllFits(m, a, layout, init, last.offset);
  }

  /** The result starts with the whole source. */
  ghost predicate StartsWith(r: seq<byte>, a: seq<byte>) { |a| <= |r| && r[..|a|] == a }

  lemma CompleteRestores(m: Mode, a: seq<byte>, layout: Layout, b: seq<byte>, ranges: seq<Range>, r: seq<byte>)
    requires 0 < m.block && HolesAreZero(a, layout) && Complete(a, b, ranges) && Mixes(m, a, layout, b, ranges, r)
    ensures StartsWith(r, a) <==> Fresh(layout, b, ranges) && (|a| <= |b| || TailWritten(m, a, layout, ranges))
    ensures |b| <= |r| && (|r| <= |b| || |r| <= |a|)
  {
    ReachAllFits(m, a, layout, ranges, |a|);
    if a != [] { ReachesEnd(m, a, layout, ranges); }
    assert |a| <= |r| <==> |a| <= |b| || TailWritten(m, a, layout, ranges);
    forall p: nat | p < |a| && p < |r|
      ensures r[p] == a[p] <==> !(p < |b| && Skipped(layout, ranges, p)) || b[p] == 0
    {
      BroughtOrSkipped(layout, ranges, p);
      assert Covered(ranges, p) || (p < |b| && a[p] == b[p]);
      if Skipped(layout, ranges, p) { SkippedIsZero(a, layout, ranges, p); }
    }
    forall p: nat | Skipped(layout, ranges, p) ensures p < |a| { SkippedIsZero(a, layout, ranges, p); }
    StartsIff(a, b, r, (p: nat) => Skipped(layout, ranges, p));
  }

  lemma StartsIff(a: seq<byte>, b: seq<byte>, r: seq<byte>, skipped: nat -> bool)
    requires |b| <= |r| && forall p: nat :: skipped(p) ==> p < |a|
    requires forall p: nat :: p < |a| && p < |r| ==> (r[p] == a[p] <==> !(p < |b| && skipped(p)) || b[p] == 0)
    ensures StartsWith(r, a) <==> |a| <= |r| && forall p: nat :: p < |b| && skipped(p) ==> b[p] == 0
  {
    if StartsWith(r, a) {
      forall p: nat | p < |b| && skipped(p) ensures b[p] == 0 { assert r[..|a|][p] == a[p]; }
    }
  }

  /** Where nothing is brought the target has the source's bytes, or has ended and they are zero. */
  ghost predicate AgreesElsewhere(a: seq<byte>, layout: Layout, b: seq<byte>, ranges: seq<Range>) {
    forall p: nat :: p < |a| && !Brought(layout, ranges, p) ==> a[p] == if p < |b| then b[p] else 0
  }

  /** Whatever ranges are copied, complete or not: the target becomes the source exactly when it agrees elsewhere. */
  lemma AppliedIff(m: Mode, a: seq<byte>, layout: Layout, b: seq<byte>, ranges: seq<Range>)
    requires 0 < m.block && HolesAreZero(a, layout) && Fit(ranges, |a|)
    ensures Applied(m, a, layout, b, ranges) == a
            <==> && AgreesElsewhere(a, layout, b, ranges)
                 && (|b| == |a| || (|b| < |a| && ReachAll(m, a, layout, ranges) == |a|))
  {
    var r := Applied(m, a, layout, b, ranges);
    AppliedMixes(m, a, layout, b, ranges);
    ReachAllFits(m, a, layout, ranges, |a|);
    assert |r| == |a| <==> |b| == |a| || (|b| < |a| && ReachAll(m, a, layout, ranges) == |a|);
    if r == a {
      forall p: nat | p < |a| && !Brought(layout, ranges, p) ensures a[p] == if p < |b| then b[p] else 0 {
        assert r[p] == Byte(a, b, false, p);
      }
    }
  }

  /** The target after copying the dirty ranges between the trees of two files. */
  function DeltaResult(m: Mode, hash: Hasher, a: seq<byte>, layout: Layout, b: seq<byte>, size: nat): seq<byte>
    requires 0 < m.block && 0 < size
  {
    DiffFits(hash, a, size, TreeOf(hash, b, size));
    Applied(m, a, layout, b, DiffOf(TreeOf(hash, a, size), TreeOf(hash, b, size)))
  }

  /** The holes of the dirty ranges are fresh in the target, and its missing end is written. */
  ghost predicate Suits(m: Mode, hash: Hasher, a: seq<byte>, layout: Layout, b: seq<byte>, size: nat)
    requires 0 < m.block && 0 < size
  {
    var ranges := DiffOf(TreeOf(hash, a, size), TreeOf(hash, b, size));
    Fresh(layout, b, ranges) && (|a| <= |b| || TailWritten(m, a, layout, ranges))
  }

  /**
   * Delta copy equals full copy, exactly when: the target was zero in every small hole of a dirty range; and it
   * was not shorter than the source, or the source's last byte is data in a block that is written; and it was
   * not longer. The last is not needed when the result is cut to the source's length.
   */
  lemma DeltaIsFullCopy(m: Mode, hash: Hasher, a: seq<byte>, layout: Layout, b: seq<byte>, size: nat)
    requires 0 < m.block && 0 < size && HolesAreZero(a, layout) && Narrow(|a|, size)
    requires CollisionFree(hash, Hashed(hash, a, size) + Hashed(hash, b, size))
    ensures var r := DeltaResult(m, hash, a, layout, b, size);
            && (StartsWith(r, a) <==> Suits(m, hash, a, layout, b, size))
            && (r == a <==> Suits(m, hash, a, layout, b, size) && |b| <= |a|)
  {
    var ranges := DiffOf(TreeOf(hash, a, size), TreeOf(hash, b, size));
    var r := DeltaResult(m, hash, a, layout, b, size);
    DiffIsComplete(hash, a, b, size);
    AppliedMixes(m, a, layout, b, ranges);
    CompleteRestores(m, a, layout, b, ranges, r);
    assert |r| == |a| ==> r[..|a|] == r;
  }

  /** A source without holes, copied without looking for zero blocks: only the length matters. */
  lemma DenseDelta(m: Mode, hash: Hasher, a: seq<byte>, layout: Layout, b: seq<byte>, size: nat)
    requires 0 < m.block && 0 < size && |layout| == |a| && (forall p :: 0 <= p < |a| ==> layout[p])
    requires !m.zeroBlocks && Narrow(|a|, size)
    requires CollisionFree(hash, Hashed(hash, a, size) + Hashed(hash, b, size))
    ensures DeltaResult(m, hash, a, layout, b, size) == a <==> |b| <= |a|
  {
    DeltaIsFullCopy(m, hash, a, layout, b, size);
    DiffIsComplete(hash, a, b, size);
    var ranges := DiffOf(TreeOf(hash, a, size), TreeOf(hash, b, size));
    forall p: nat ensures !Skipped(layout, ranges, p) { NothingSkipped(layout, ranges, p, |a|); }
    if |b| < |a| { DenseTail(m, a, layout, b, ranges); }
  }

  lemma NothingSkipped(layout: Layout, ranges: seq<Range>, p: nat, n: nat)
    requires n == |layout| && (forall q :: 0 <= q < n ==> layout[q]) && Fit(ranges, n)
    ensures !Skipped(layout, ranges, p)
  {
    forall k | 0 <= k < |ranges| && Inside(ranges[k], p) ensures !InSmallHole(RangeSegments(layout, ranges[k]), p) {
      SmallHoleIff(layout, ranges[k].offset, ranges[k].offset + ranges[k].length, p);
      assert IsData(layout, p);
    }
  }

  lemma DenseTail(m: Mode, a: seq<byte>, layout: Layout, b: seq<byte>, ranges: seq<Range>)
    requires 0 < m.block && !m.zeroBlocks && |layout| == |a| && (forall p :: 0 <= p < |a| ==> layout[p])
    requires Complete(a, b, ranges) && |b| < |a|
    ensures TailWritten(m, a, layout, ranges)
  {
    assert Covered(ranges, |a| - 1);
    var k :| 0 <= k < |ranges| && Inside(ranges[k], |a| - 1);
    if k < |ranges| - 1 { SeparatedOrder(ranges, k, |ranges| - 1); }
    var last := ranges[|ranges| - 1];
    assert last.offset + last.length == |a|;
    DenseSegments(layout, last.offset);
    WrittenAll(a, m, last.offset, |a|);
  }

  lemma DenseSegments(layout: Layout, off: nat)
    requires off < |layout| && forall p :: 0 <= p < |layout| ==> layout[p]
    ensures SegmentsOf(layout, off, |layout|) == [Data(off, |layout| - off)]
  {
    assert SeekData(layout, off) == Some(off) && SeekHole(layout, off) == Some(|layout|);
    assert SegmentsOf(layout, |layout|, |layout|) == [];
  }

  lemma {:induction false} WrittenAll(src: seq<byte>, m: Mode, from: nat, end: nat)
    requires 0 < m.block && !m.zeroBlocks && from < end
    ensures WrittenEnd(src, m, from, end) == end
    decreases end - from
  {
    var e := BlockEnd(m, from, end);
    if e < end { WrittenAll(src, m, e, end); }
  }
}
