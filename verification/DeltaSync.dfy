/** The whole delta copy with its shortcut for equal roots, and the chunk sizes for which it cannot work. */
module DeltaSync {
  import opened Bytes
  import opened CopyOutcome
  import CopyEngine
  import opened Sparse
  import opened Merkle
  import opened MerkleDelta
  import opened DeltaCopy

  lemma NoDirtyNoRanges(s: Tree, t: Tree)
    requires InOrder(s) && forall i: nat :: !Dirty(s, t, i)
    ensures DiffOf(s, t) == []
  {
    if DiffOf(s, t) != [] {
      DiffIsRuns(s, t, DiffOf(s, t)[0]);
      RunIsDirty(s, t, DiffOf(s, t)[0]);
    }
  }

  lemma RunIsDirty(s: Tree, t: Tree, r: Range)
    requires IsRun(s, t, r)
    ensures exists i: nat :: Dirty(s, t, i)
  {
    var j: nat, k: nat :| RunRange(s, t, r, j, k);
    assert Dirty(s, t, j);
  }

  /** The schedules complete the copy of every dirty range. */
  ghost predicate DeltaCompletes(setup: Setup, hash: Hasher, src: seq<byte>, layout: Layout, dst0: seq<byte>,
                                 size: nat, schedules: (nat, nat) -> seq<CopyEngine.Step>)
    requires 0 < size && setup.Valid()
  {
    var target := TreeOf(hash, dst0, size);
    DiffFits(hash, src, size, target);
    RangesComplete(setup, src, layout, dst0, DiffOf(TreeOf(hash, src, size), target), schedules)
  }

  /**
   * When every engine call went through, and chunk lengths fit 32 bits, the target becomes the source exactly when
   * it was not longer, suits the dirty ranges, and was not the list of the source's leaf hashes.
   */
  method TryDeltaCopy(setup: Setup, hash: Hasher, src: seq<byte>, layout: Layout, dst0: seq<byte>, size: nat,
                      wishes: nat -> nat, schedules: (nat, nat) -> seq<CopyEngine.Step>)
      returns (dst: seq<byte>, whole: bool)
    requires 0 < size && setup.Valid() && HolesAreZero(src, layout)
    ensures whole && Narrow(|src|, size) && CollisionFree(hash, Hashed(hash, src, size) + Hashed(hash, dst0, size))
            ==> (dst == src <==> && |dst0| <= |src| && Suits(setup.Mode(), hash, src, layout, dst0, size)
                                 && !Impersonates(hash, dst0, src, size))
    ensures whole <==>
      TreeOf(hash, src, size).root == TreeOf(hash, dst0, size).root
      || DeltaCompletes(setup, hash, src, layout, dst0, size, schedules)
  {
    var source := FromFile(hash, src, size, wishes);
    var target := FromFile(hash, dst0, size, wishes);
    dst, whole := dst0, true;
    if source.root != target.root {
      TreeIsInOrder(hash, src, size);
      var dirty := Diff(source, target);
      DiffFits(hash, src, size, target);
      if dirty != [] { dst, whole := CopyDelta(setup, src, layout, dst0, dirty, schedules); }
      assert whole ==> dst == DeltaResult(setup.Mode(), hash, src, layout, dst0, size);
    }
    if Narrow(|src|, size) && CollisionFree(hash, Hashed(hash, src, size) + Hashed(hash, dst0, size)) {
      DeltaOutcome(setup.Mode(), hash, src, layout, dst0, size);
    }
  }

  /** Both branches: equal roots leave the target alone, others give the delta result. */
  lemma DeltaOutcome(m: Mode, hash: Hasher, a: seq<byte>, layout: Layout, b: seq<byte>, size: nat)
    requires 0 < m.block && 0 < size && HolesAreZero(a, layout) && Narrow(|a|, size)
    requires CollisionFree(hash, Hashed(hash, a, size) + Hashed(hash, b, size))
    ensures var right := |b| <= |a| && Suits(m, hash, a, layout, b, size) && !Impersonates(hash, b, a, size);
            if TreeOf(hash, a, size).root == TreeOf(hash, b, size).root then b == a <==> right
            else DeltaResult(m, hash, a, layout, b, size) == a <==> right
  {
    RootsEqualIff(hash, a, b, size);
    DeltaIsFullCopy(m, hash, a, layout, b, size);
    if a == b {
      TreeIsInOrder(hash, a, size);
      NoDirtyNoRanges(TreeOf(hash, a, size), TreeOf(hash, b, size));
    }
  }

  // ---------------------------------------------------------------- chunks too long for their length field

  lemma SameTailChunk(a: seq<byte>, b: seq<byte>, size: nat, p: nat, i: nat)
    requires 0 < size && |a| == |b| && p < size && p < |a| && b == a[p := b[p]] && 0 < i < Count(|a|, size)
    ensures Chunk(a, size, i) == Chunk(b, size, i)
  {
    CountIff(|a|, size, i);
    StartMonotone(size, 0, i);
    assert a[size..] == b[size..];
    TailChunk(a, b, size, i);
  }

  /** The only range there can be stops short of the changed byte. */
  lemma WideRange(hash: Hasher, a: seq<byte>, b: seq<byte>, size: nat, p: nat, r: Range)
    requires 0 < size && !Narrow(|a|, size) && p == Min(size, |a|) - 1 && |a| == |b| && b == a[p := b[p]]
    requires IsRun(TreeOf(hash, a, size), TreeOf(hash, b, size), r)
    ensures r.offset + r.length <= p
  {
    var s, t := TreeOf(hash, a, size), TreeOf(hash, b, size);
    var j: nat, k: nat :| RunRange(s, t, r, j, k);
    assert Dirty(s, t, k);
    if k > 0 {
      SameTailChunk(a, b, size, p, k);
    } else {
      assert |Chunk(a, size, 0)| == p + 1;
    }
  }

  /**
   * Where chunks are too long for the 32-bit length, which is exactly outside `Narrow`, a target that differs from
   * the source in the last byte of the first chunk alone stays as it is, under every hash.
   */
  lemma WideIsWrong(m: Mode, hash: Hasher, a: seq<byte>, layout: Layout, size: nat, v: byte)
    requires 0 < m.block && 0 < size && HolesAreZero(a, layout) && !Narrow(|a|, size)
    requires v != a[Min(size, |a|) - 1]
    ensures var b := a[Min(size, |a|) - 1 := v];
            |b| == |a| && DeltaResult(m, hash, a, layout, b, size) == b != a
  {
    var p := Min(size, |a|) - 1;
    var b := a[p := v];
    var s, t := TreeOf(hash, a, size), TreeOf(hash, b, size);
    var ranges, r := DiffOf(s, t), DeltaResult(m, hash, a, layout, b, size);
    TreeIsInOrder(hash, a, size);
    DiffFits(hash, a, size, t);
    forall x | 0 <= x < |ranges| ensures ranges[x].offset + ranges[x].length <= p {
      DiffIsRuns(s, t, ranges[x]);
      WideRange(hash, a, b, size, p, ranges[x]);
    }
    AppliedMixes(m, a, layout, b, ranges);
    ReachAllFits(m, a, layout, ranges, |a|);
    assert forall q: nat :: Brought(layout, ranges, q) ==> q < p;
    assert r == b;
  }

  // ---------------------------------------------------------------- trees of different chunk sizes

  function Fill(v: byte, n: nat): (r: seq<byte>)
    ensures |r| == n && forall i :: 0 <= i < n ==> r[i] == v
  {
    seq(n, _ => v)
  }

  /** The two chunk sizes agree on the contents of chunk 1. */
  lemma SecondChunk(a: seq<byte>, s: nat)
    requires 0 < s < |a|
    ensures 1 < Count(|a|, s) && Chunk(a, s, 1) == a[s..Min(s + s, |a|)]
  {
    CountIff(|a|, s, 1);
    assert Start(s, 1) == s;
  }

  /**
   * For every two different chunk sizes there are a source and a target not longer than it whose delta copy is
   * wrong, under every hash: equal chunk sizes are what a caller has to see to.
   */
  lemma MixedChunkSizes(m: Mode, hash: Hasher, s: nat, t: nat) returns (a: seq<byte>, layout: Layout, b: seq<byte>)
    requires 0 < m.block && 0 < s && 0 < t && s != t
    ensures |b| <= |a| && HolesAreZero(a, layout)
    ensures Fit(DiffOf(TreeOf(hash, a, s), TreeOf(hash, b, t)), |a|)
    ensures Applied(m, a, layout, b, DiffOf(TreeOf(hash, a, s), TreeOf(hash, b, t))) != a
  {
    if t < s {
      a, b := Fill(1, s + 1), Fill(0, t) + [1];
    } else {
      a, b := Fill(1, s + t), Fill(0, t) + Fill(1, s);
    }
    layout := seq(|a|, _ => true);
    SecondChunk(a, s);
    SecondChunk(b, t);
    assert Chunk(a, s, 1) == Chunk(b, t, 1);
    var source, target := TreeOf(hash, a, s), TreeOf(hash, b, t);
    assert !Dirty(source, target, 1);
    DiffFits(hash, a, s, target);
    AppliedMixes(m, a, layout, b, DiffOf(source, target));
    if t < s {
      ShortReach(m, hash, a, layout, s, target);
    } else {
      CleanIsUncovered(hash, a, s, target, 1, s);
      assert !Brought(layout, DiffOf(source, target), s);
    }
  }

  /** If the second of two chunks is clean, nothing extends a file past the first. */
  lemma ShortReach(m: Mode, hash: Hasher, a: seq<byte>, layout: Layout, s: nat, target: Tree)
    requires 0 < m.block && 0 < s && |a| == s + 1 && !Dirty(TreeOf(hash, a, s), target, 1)
    ensures ReachAll(m, a, layout, DiffOf(TreeOf(hash, a, s), target)) <= s
  {
    var source := TreeOf(hash, a, s);
    var ranges := DiffOf(source, target);
    TreeIsInOrder(hash, a, s);
    assert Count(|a|, s) == 2;
    forall x | 0 <= x < |ranges| ensures ranges[x].offset + ranges[x].length <= s {
      DiffIsRuns(source, target, ranges[x]);
      var j: nat, k: nat :| RunRange(source, target, ranges[x], j, k);
      assert Dirty(source, target, k);
      LeafEnd(hash, a, s, k);
    }
    ReachAllFits(m, a, layout, ranges, s);
  }
}
