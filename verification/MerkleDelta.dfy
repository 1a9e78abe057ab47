/** From two Merkle trees to the dirty ranges between them. */
module MerkleDelta {
  import opened Bytes
  import opened Merkle

  // ---------------------------------------------------------------- the diff

  /** A source chunk is dirty when the target has none at its index or one with another hash. */
  predicate Dirty(source: Tree, target: Tree, i: nat) {
    i < |source.leaves| && (i >= |target.leaves| || source.leaves[i].hash != target.leaves[i].hash)
  }

  /** One round of the diff loop: the ranges already closed and the one being grown. */
  datatype Scan = Scan(ranges: seq<Range>, current: Option<Range>)
  {
    function Closed(): seq<Range> { if current.Some? then ranges + [current.value] else ranges }
  }

  predicate InOrder(t: Tree) {
    forall i, j :: 0 <= i <= j < |t.leaves| ==> t.leaves[i].offset <= t.leaves[j].offset
  }

  function Advance(source: Tree, target: Tree, i: nat, s: Scan): Scan {
    if Dirty(source, target, i) then
      var leaf := source.leaves[i];
      if s.current.Some? then
        var end := leaf.offset + leaf.length;
        var from := s.current.value.offset;
        s.(current := Some(Range(from, if from <= end then end - from else 0)))
      else
        s.(current := Some(Range(leaf.offset, leaf.length)))
    else
      Scan(s.Closed(), None)
  }

  function ScanTo(source: Tree, target: Tree, i: nat): Scan {
    if i == 0 then Scan([], None) else Advance(source, target, i - 1, ScanTo(source, target, i - 1))
  }

  function Rounds(source: Tree, target: Tree): nat {
    if |source.leaves| >= |target.leaves| then |source.leaves| else |target.leaves|
  }

  function DiffOf(source: Tree, target: Tree): seq<Range> {
    ScanTo(source, target, Rounds(source, target)).Closed()
  }

  method Diff(source: Tree, target: Tree) returns (ranges: seq<Range>)
    requires InOrder(source)
    ensures ranges == DiffOf(source, target)
  {
    ranges := [];
    var current: Option<Range> := None;
    for i := 0 to Rounds(source, target)
      invariant Scan(ranges, current) == ScanTo(source, target, i)
      invariant current.Some? ==>
        exists j :: 0 <= j < i && j < |source.leaves| && current.value.offset == source.leaves[j].offset
    {
      var isDirty := i < |source.leaves| && (i >= |target.leaves| || source.leaves[i].hash != target.leaves[i].hash);
      if isDirty {
        var leaf := source.leaves[i];
        match current {
          case Some(range) => current := Some(range.(length := leaf.offset + leaf.length - range.offset));
          case None => current := Some(Range(leaf.offset, leaf.length));
        }
      } else if current.Some? {
        ranges := ranges + [current.value];
        current := None;
      }
    }
    if current.Some? { ranges := ranges + [current.value]; }
  }

  // ---------------------------------------------------------------- what the ranges are

  /** Leaves lie side by side and none is empty. */
  ghost predicate Contiguous(t: Tree) {
    && (forall i :: 0 <= i < |t.leaves| ==> 0 < t.leaves[i].length)
    && (forall i, j :: 0 <= i < j < |t.leaves| ==> t.leaves[i].offset + t.leaves[i].length <= t.leaves[j].offset)
    && (forall i :: 0 < i < |t.leaves| ==> t.leaves[i].offset == t.leaves[i - 1].offset + t.leaves[i - 1].length)
  }

  predicate Inside(r: Range, p: nat) { r.offset <= p < r.offset + r.length }

  ghost predicate Covered(ranges: seq<Range>, p: nat) {
    exists k :: 0 <= k < |ranges| && Inside(ranges[k], p)
  }

  predicate InLeaf(t: Tree, j: nat, p: nat) {
    j < |t.leaves| && t.leaves[j].offset <= p < t.leaves[j].offset + t.leaves[j].length
  }

  /** Is p in a dirty chunk with an index below i? */
  ghost predicate DirtyByte(source: Tree, target: Tree, i: nat, p: nat) {
    exists j: nat :: j < i && Dirty(source, target, j) && InLeaf(source, j, p)
  }

  /** Sorted, disjoint, non-empty and with a gap between any two. */
  ghost predicate Separated(ranges: seq<Range>) {
    && (forall k :: 0 <= k < |ranges| ==> 0 < ranges[k].length)
    && (forall k :: 0 < k < |ranges| ==> ranges[k - 1].offset + ranges[k - 1].length < ranges[k].offset)
  }

  /** The state of the scan before leaf i: everything dirty so far is covered, and the open range ends at leaf i - 1. */
  ghost predicate ScanInv(source: Tree, target: Tree, i: nat, s: Scan) {
    var all := s.Closed();
    && Separated(all)
    && (forall p: nat :: Covered(all, p) <==> DirtyByte(source, target, i, p))
    && (s.current.Some? ==>
          && 0 < i <= |source.leaves|
          && s.current.value.offset + s.current.value.length
             == source.leaves[i - 1].offset + source.leaves[i - 1].length)
    && (s.current.None? && i < |source.leaves| && |all| > 0 ==>
          all[|all| - 1].offset + all[|all| - 1].length < source.leaves[i].offset)
  }

  lemma DirtyByteNext(source: Tree, target: Tree, i: nat, p: nat)
    ensures DirtyByte(source, target, i + 1, p)
            <==> DirtyByte(source, target, i, p) || (Dirty(source, target, i) && InLeaf(source, i, p))
  {
    if DirtyByte(source, target, i, p) {
      var j: nat :| j < i && Dirty(source, target, j) && InLeaf(source, j, p);
      assert j < i + 1;
    }
  }

  lemma CoveredSnoc(ranges: seq<Range>, r: Range, p: nat)
    ensures Covered(ranges + [r], p) <==> Covered(ranges, p) || Inside(r, p)
  {
    var all := ranges + [r];
    if Inside(r, p) { assert Inside(all[|ranges|], p); }
    if Covered(ranges, p) {
      var k :| 0 <= k < |ranges| && Inside(ranges[k], p);
      assert Inside(all[k], p);
    }
  }

  lemma SeparatedSnoc(ranges: seq<Range>, r: Range)
    ensures Separated(ranges + [r])
            <==> Separated(ranges) && 0 < r.length
                 && (|ranges| > 0 ==> ranges[|ranges| - 1].offset + ranges[|ranges| - 1].length < r.offset)
  {
    var all := ranges + [r];
    assert all[..|ranges|] == ranges && all[|ranges|] == r;
    assert forall k :: 0 <= k < |ranges| ==> all[k] == ranges[k];
    if Separated(all) { assert all[|ranges|].length > 0; }
  }

  lemma AdvanceKeepsInv(source: Tree, target: Tree, i: nat, s: Scan)
    requires Contiguous(source) && ScanInv(source, target, i, s)
    ensures ScanInv(source, target, i + 1, Advance(source, target, i, s))
  {
    var n := Advance(source, target, i, s);
    if !Dirty(source, target, i) {
      forall p: nat ensures Covered(n.Closed(), p) <==> DirtyByte(source, target, i + 1, p) {
        DirtyByteNext(source, target, i, p);
      }
    } else {
      var leaf := source.leaves[i];
      var was, now := s.ranges, n.current.value;
      SeparatedSnoc(s.ranges, now);
      if s.current.Some? {
        SeparatedSnoc(s.ranges, s.current.value);
        assert i > 0 && leaf.offset == source.leaves[i - 1].offset + source.leaves[i - 1].length;
      }
      forall p: nat ensures Covered(n.Closed(), p) <==> DirtyByte(source, target, i + 1, p) {
        DirtyByteNext(source, target, i, p);
        CoveredSnoc(s.ranges, now, p);
        if s.current.Some? { CoveredSnoc(s.ranges, s.current.value, p); }
      }
    }
  }

  lemma {:induction false} ScanKeepsInv(source: Tree, target: Tree, i: nat)
    requires Contiguous(source)
    ensures ScanInv(source, target, i, ScanTo(source, target, i))
  {
    if i == 0 {
    } else {
      ScanKeepsInv(source, target, i - 1);
      AdvanceKeepsInv(source, target, i - 1, ScanTo(source, target, i - 1));
    }
  }

  /** The ranges are sorted, disjoint and never touch, and together they are exactly the dirty chunks. */
  lemma DiffCovers(source: Tree, target: Tree)
    requires Contiguous(source)
    ensures Separated(DiffOf(source, target))
    ensures forall p: nat :: Covered(DiffOf(source, target), p)
              <==> exists i: nat :: Dirty(source, target, i) && InLeaf(source, i, p)
  {
    var n := Rounds(source, target);
    ScanKeepsInv(source, target, n);
    forall p: nat
      ensures Covered(DiffOf(source, target), p) <==> exists i: nat :: Dirty(source, target, i) && InLeaf(source, i, p)
    {
      if i: nat :| Dirty(source, target, i) && InLeaf(source, i, p) {
        assert i < n;
        assert DirtyByte(source, target, n, p);
      }
    }
  }

  // ---------------------------------------------------------------- trees of files

  /** Chunk lengths fit the 32-bit length field. */
  predicate Narrow(n: nat, size: nat) { size < LENGTH_WRAP || n < LENGTH_WRAP }

  lemma LeafIs(hash: Hasher, data: seq<byte>, size: nat, i: nat)
    requires 0 < size && Narrow(|data|, size) && i < Count(|data|, size)
    ensures var leaf := Leaves(hash, data, size)[i];
            leaf.offset == Start(size, i) < End(|data|, size, i) == leaf.offset + leaf.length
    ensures i + 1 < Count(|data|, size) ==> End(|data|, size, i) == Start(size, i + 1)
  {
    CountIff(|data|, size, i);
    CountIff(|data|, size, i + 1);
    assert |Chunk(data, size, i)| < LENGTH_WRAP;
  }

  lemma TreeIsContiguous(hash: Hasher, data: seq<byte>, size: nat)
    requires 0 < size && Narrow(|data|, size)
    ensures Contiguous(TreeOf(hash, data, size))
  {
    var leaves := Leaves(hash, data, size);
    forall i | 0 <= i < |leaves| ensures 0 < leaves[i].length { LeafIs(hash, data, size, i); }
    forall i, j | 0 <= i < j < |leaves| ensures leaves[i].offset + leaves[i].length <= leaves[j].offset {
      LeafIs(hash, data, size, i);
      LeafIs(hash, data, size, j);
      StartMonotone(size, i, j);
    }
    forall i | 0 < i < |leaves| ensures leaves[i].offset == leaves[i - 1].offset + leaves[i - 1].length {
      LeafIs(hash, data, size, i - 1);
      LeafIs(hash, data, size, i);
    }
  }

  lemma TreeIsInOrder(hash: Hasher, data: seq<byte>, size: nat)
    ensures InOrder(TreeOf(hash, data, size))
  {
    var leaves := Leaves(hash, data, size);
    forall i, j | 0 <= i <= j < |leaves| ensures leaves[i].offset <= leaves[j].offset {
      if i < j { StartMonotone(size, i, j); }
    }
  }

  predicate Fit(ranges: seq<Range>, n: nat) {
    forall k :: 0 <= k < |ranges| ==> ranges[k].offset + ranges[k].length <= n
  }

  /** Every byte of the source is either in a dirty chunk or already in place. */
  lemma DirtyOrSame(hash: Hasher, a: seq<byte>, b: seq<byte>, size: nat, p: nat)
    requires 0 < size && Narrow(|a|, size) && p < |a|
    requires CollisionFree(hash, Hashed(hash, a, size) + Hashed(hash, b, size))
    ensures || (exists i: nat :: Dirty(TreeOf(hash, a, size), TreeOf(hash, b, size), i)
                                 && InLeaf(TreeOf(hash, a, size), i, p))
            || (p < |b| && a[p] == b[p])
  {
    var i := ChunkOfByte(|a|, size, p);
    LeafIs(hash, a, size, i);
    assert InLeaf(TreeOf(hash, a, size), i, p);
    if !Dirty(TreeOf(hash, a, size), TreeOf(hash, b, size), i) {
      SameChunk(hash, a, b, size, i);
      SharedByte(a, b, size, i, p);
    }
  }

  // ---------------------------------------------------------------- ranges of any tree

  /** The range goes from the start of chunk j to the end of chunk k, and all chunks between them are dirty. */
  ghost predicate RunRange(s: Tree, t: Tree, r: Range, j: nat, k: nat) {
    && j <= k < |s.leaves| && (forall i: nat :: j <= i <= k ==> Dirty(s, t, i))
    && r.offset == s.leaves[j].offset && r.offset + r.length == s.leaves[k].offset + s.leaves[k].length
  }

  ghost predicate IsRun(s: Tree, t: Tree, r: Range) { exists j: nat, k: nat :: RunRange(s, t, r, j, k) }

  ghost predicate EndsRun(s: Tree, t: Tree, r: Range, k: nat) { exists j: nat :: RunRange(s, t, r, j, k) }

  lemma {:induction false} ScanFindsRuns(s: Tree, t: Tree, i: nat)
    requires InOrder(s)
    ensures var scan := ScanTo(s, t, i);
            && (forall x :: 0 <= x < |scan.ranges| ==> IsRun(s, t, scan.ranges[x]))
            && (scan.current.Some? ==> 0 < i && EndsRun(s, t, scan.current.value, i - 1))
  {
    if i > 0 {
      ScanFindsRuns(s, t, i - 1);
      var scan := ScanTo(s, t, i - 1);
      if Dirty(s, t, i - 1) {
        var next := ScanTo(s, t, i).current.value;
        if scan.current.Some? {
          var j: nat :| RunRange(s, t, scan.current.value, j, i - 2);
          assert RunRange(s, t, next, j, i - 1);
        } else {
          assert RunRange(s, t, next, i - 1, i - 1);
        }
      } else if scan.current.Some? {
        var j: nat :| RunRange(s, t, scan.current.value, j, i - 2);
        assert IsRun(s, t, scan.current.value);
      }
    }
  }

  lemma DiffIsRuns(s: Tree, t: Tree, r: Range)
    requires InOrder(s) && r in DiffOf(s, t)
    ensures IsRun(s, t, r)
  {
    ScanFindsRuns(s, t, Rounds(s, t));
    var scan := ScanTo(s, t, Rounds(s, t));
    if r !in scan.ranges {
      var j: nat :| RunRange(s, t, scan.current.value, j, Rounds(s, t) - 1);
    }
  }

  lemma RangeFits(hash: Hasher, a: seq<byte>, size: nat, t: Tree, r: Range)
    requires 0 < size && IsRun(TreeOf(hash, a, size), t, r)
    ensures r.offset + r.length <= |a|
  {
    var j: nat, k: nat :| RunRange(TreeOf(hash, a, size), t, r, j, k);
    LeafEnd(hash, a, size, k);
  }

  lemma LeafEnd(hash: Hasher, a: seq<byte>, size: nat, k: nat)
    requires 0 < size && k < Count(|a|, size)
    ensures var leaf := Leaves(hash, a, size)[k];
            leaf.offset == Start(size, k) && leaf.length <= size && leaf.offset + leaf.length <= |a|
  {
    CountIff(|a|, size, k);
    assert |Chunk(a, size, k)| % LENGTH_WRAP <= |Chunk(a, size, k)|;
  }

  /** Even where the length field is cut off, ranges stay within the source. */
  lemma DiffFits(hash: Hasher, a: seq<byte>, size: nat, t: Tree)
    requires 0 < size
    ensures Fit(DiffOf(TreeOf(hash, a, size), t), |a|)
  {
    var ranges := DiffOf(TreeOf(hash, a, size), t);
    TreeIsInOrder(hash, a, size);
    forall x | 0 <= x < |ranges| ensures ranges[x].offset + ranges[x].length <= |a| {
      DiffIsRuns(TreeOf(hash, a, size), t, ranges[x]);
      RangeFits(hash, a, size, t, ranges[x]);
    }
  }

  lemma RunMisses(hash: Hasher, a: seq<byte>, size: nat, t: Tree, r: Range, i: nat, p: nat)
    requires 0 < size && IsRun(TreeOf(hash, a, size), t, r)
    requires i < Count(|a|, size) && !Dirty(TreeOf(hash, a, size), t, i)
    requires Start(size, i) <= p < Start(size, i) + size
    ensures !Inside(r, p)
  {
    var j: nat, k: nat :| RunRange(TreeOf(hash, a, size), t, r, j, k);
    LeafEnd(hash, a, size, j);
    LeafEnd(hash, a, size, k);
    if i < j { StartMonotone(size, i, j); } else if k < i { StartMonotone(size, k, i); }
  }

  /** A byte of a clean chunk is in no range. */
  lemma CleanIsUncovered(hash: Hasher, a: seq<byte>, size: nat, t: Tree, i: nat, p: nat)
    requires 0 < size && i < Count(|a|, size) && !Dirty(TreeOf(hash, a, size), t, i)
    requires Start(size, i) <= p < Start(size, i) + size
    ensures !Covered(DiffOf(TreeOf(hash, a, size), t), p)
  {
    var ranges := DiffOf(TreeOf(hash, a, size), t);
    TreeIsInOrder(hash, a, size);
    forall x | 0 <= x < |ranges| ensures !Inside(ranges[x], p) {
      DiffIsRuns(TreeOf(hash, a, size), t, ranges[x]);
      RunMisses(hash, a, size, t, ranges[x], i, p);
    }
  }

  lemma TailChunk(a: seq<byte>, b: seq<byte>, size: nat, i: nat)
    requires 0 < size <= |a| == |b| && a[size..] == b[size..] && 0 < i < Count(|a|, size)
    ensures Chunk(a, size, i) == Chunk(b, size, i)
  {
    CountIff(|a|, size, i);
    StartShift(size, i);
    var lo, hi := Start(size, i), End(|a|, size, i);
    SliceOfTail(a, size, lo, hi);
    SliceOfTail(b, size, lo, hi);
  }

  lemma SliceOfTail(a: seq<byte>, n: nat, lo: nat, hi: nat)
    requires n <= lo <= hi <= |a|
    ensures a[lo..hi] == a[n..][lo - n..hi - n]
  {
  }

  lemma {:induction false} OnlyFirstDirty(s: Tree, t: Tree, n: nat)
    requires 0 < n && Dirty(s, t, 0) && forall i: nat :: 0 < i < n ==> !Dirty(s, t, i)
    ensures ScanTo(s, t, n).Closed() == [Range(s.leaves[0].offset, s.leaves[0].length)]
  {
    if n > 1 { OnlyFirstDirty(s, t, n - 1); }
  }
}
