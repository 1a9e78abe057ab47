/** Hydrating a target by what its stored signature says about it. */
module Hydration {
  import opened Bytes
  import opened CopyOutcome
  import CopyEngine
  import opened Sparse
  import opened Merkle
  import opened MerkleDelta
  import opened MerkleSignature
  import opened DeltaCopy

  const DELTA_THRESHOLD := 1024 * 1024
  const SMALL_FILE := 256 * 1024

  /** What becomes of a target: left to a full copy, left alone, or patched and given a new signature. */
  datatype Outcome = FullCopy | Untouched | Patched(dst: seq<byte>, sig: Signature)

  function Total(ranges: seq<Range>): nat {
    if ranges == [] then 0 else Total(ranges[..|ranges| - 1]) + ranges[|ranges| - 1].length
  }

  /** Which ranges a target with this tree has to be given; none means that a full copy is due. */
  function Patches(source: Tree, target: Tree, n: nat): seq<Range> {
    var dirty := DiffOf(source, target);
    if Total(dirty) < n / 2 then dirty else []
  }

  lemma PatchesFit(hash: Hasher, src: seq<byte>, size: nat, target: Tree)
    requires 0 < size
    ensures Fit(Patches(TreeOf(hash, src, size), target, |src|), |src|)
  {
    DiffFits(hash, src, size, target);
  }

  lemma AdaptiveIsPositive(n: nat)
    ensures 0 < Adaptive(n)
  {
    if n > 0 { NextPowerIsLeast(0, if Desired(n) <= MIN_CHUNK then MIN_CHUNK else Desired(n)); }
  }

  /** Reading the stored signature: one that cannot be turned back into a tree counts as none. */
  function Loaded(stored: Option<Signature>): (sig: Option<Signature>)
    ensures sig.Some? ==> sig == stored && FromSig(sig.value).Rebuilt?
    ensures stored.Some? && FromSig(stored.value).Rebuilt? ==> sig == stored
  {
    if stored.None? || stored.value.chunkSize == 0
       || |stored.value.leafHashes| > stored.value.fileSize / stored.value.chunkSize + 2 then None
    else stored
  }

  function Hydrated(m: Mode, hash: Hasher, src: seq<byte>, layout: Layout, dst: seq<byte>,
      stored: Option<Signature>): Outcome
    requires 0 < m.block
  {
    if |src| <= DELTA_THRESHOLD || Loaded(stored).None? then FullCopy
    else
      AdaptiveIsPositive(|src|);
      var source, target := TreeOf(hash, src, Adaptive(|src|)), FromSig(Loaded(stored).value).tree;
      PatchesFit(hash, src, Adaptive(|src|), target);
      var dirty := Patches(source, target, |src|);
      if source.root == target.root then Untouched
      else if dirty == [] then FullCopy
      else Patched(Applied(m, src, layout, dst, dirty), ToSignature(source))
  }

  /** If there is something to patch the schedules complete it. */
  ghost predicate HydrationCompletes(setup: Setup, hash: Hasher, src: seq<byte>, layout: Layout, dst: seq<byte>,
                                     stored: Option<Signature>, schedules: (nat, nat) -> seq<CopyEngine.Step>)
    requires setup.Valid()
  {
    if !Hydrated(setup.Mode(), hash, src, layout, dst, stored).Patched? then true
    else
      AdaptiveIsPositive(|src|);
      var source, target := TreeOf(hash, src, Adaptive(|src|)), FromSig(stored.value).tree;
      PatchesFit(hash, src, Adaptive(|src|), target);
      RangesComplete(setup, src, layout, dst, Patches(source, target, |src|), schedules)
  }

  /** `whole` says that every engine call returned Ok with all its bytes processed and no buffer leaked. */
  method Hydrate(setup: Setup, hash: Hasher, src: seq<byte>, layout: Layout, dst: seq<byte>, stored: Option<Signature>,
                 wishes: nat -> nat, schedules: (nat, nat) -> seq<CopyEngine.Step>)
      returns (out: Outcome, whole: bool)
    requires setup.Valid() && HolesAreZero(src, layout)
    ensures whole ==> out == Hydrated(setup.Mode(), hash, src, layout, dst, stored)
    ensures whole <==> HydrationCompletes(setup, hash, src, layout, dst, stored, schedules)
  {
    whole := true;
    if |src| <= DELTA_THRESHOLD { return FullCopy, true; }
    var sig := Loaded(stored);
    if sig.None? { return FullCopy, true; }
    AdaptiveIsPositive(|src|);
    var source := FromFile(hash, src, Adaptive(|src|), wishes);
    var r := FromSignature(sig.value);
    var target := r.tree;
    if source.root == target.root { return Untouched, true; }
    TreeIsInOrder(hash, src, Adaptive(|src|));
    var dirty := Diff(source, target);
    var total := SumLengths(dirty);
    if dirty == [] || total >= |src| / 2 { return FullCopy, true; }
    DiffFits(hash, src, Adaptive(|src|), target);
    var patched;
    patched, whole := CopyDelta(setup, src, layout, dst, dirty, schedules);
    out := Patched(patched, ToSignature(source));
  }

  method SumLengths(ranges: seq<Range>) returns (total: nat)
    ensures total == Total(ranges)
  {
    total := 0;
    assert ranges[..0] == [];
    for k := 0 to |ranges|
      invariant total == Total(ranges[..k])
    {
      assert ranges[..k + 1][..k] == ranges[..k];
      total := total + ranges[k].length;
    }
    assert ranges[..|ranges|] == ranges;
  }

  // ---------------------------------------------------------------- what decides

  /** A signature that a tree can be made from is stored, and the file is over 1 MiB. */
  predicate Consulted(src: seq<byte>, stored: Option<Signature>) {
    |src| > 1024 * 1024 && stored.Some? && FromSig(stored.value).Rebuilt?
  }

  /** The ranges in which the source differs from what the signature tells. */
  function DirtyRanges(hash: Hasher, src: seq<byte>, sig: Signature): seq<Range>
    requires FromSig(sig).Rebuilt?
  {
    DiffOf(TreeOf(hash, src, Adaptive(|src|)), FromSig(sig).tree)
  }

  /**
   * For every target and whatever is stored with it, nothing at all included: it is left alone exactly when a
   * signature is consulted that has the root of the source; it is patched exactly when one is consulted, the roots
   * differ, and there are dirty bytes but fewer than half; in every other case it is copied in full.
   */
  lemma OutcomeIff(m: Mode, hash: Hasher, src: seq<byte>, layout: Layout, dst: seq<byte>, stored: Option<Signature>)
    requires 0 < m.block
    ensures var out := Hydrated(m, hash, src, layout, dst, stored);
            var root := TreeOf(hash, src, Adaptive(|src|)).root;
            && (out.Untouched? <==> Consulted(src, stored) && stored.value.root == root)
            && (out.Patched? <==>
                  && Consulted(src, stored) && stored.value.root != root
                  && DirtyRanges(hash, src, stored.value) != []
                  && 2 * (Total(DirtyRanges(hash, src, stored.value)) + 1) <= |src|)
            && (out.FullCopy? <==> !out.Untouched? && !out.Patched?)
            && (out.Patched? ==> out.sig == ToSignature(TreeOf(hash, src, Adaptive(|src|))))
  {
  }

  // ---------------------------------------------------------------- how much a diff covers

  function LeafBytes(s: Tree, t: Tree, i: nat, dirty: bool): nat
    requires i <= |s.leaves|
  {
    if i == 0 then 0
    else LeafBytes(s, t, i - 1, dirty) + if Dirty(s, t, i - 1) == dirty then s.leaves[i - 1].length else 0
  }

  lemma TotalSnoc(init: seq<Range>, last: Range)
    ensures Total(init + [last]) == Total(init) + last.length
  {
    assert (init + [last])[..|init|] == init;
  }

  /** The open range ends where the last chunk looked at ends. */
  ghost predicate OpenEnds(s: Tree, i: nat, scan: Scan) {
    scan.current.Some? ==>
      && 0 < i <= |s.leaves|
      && scan.current.value.offset + scan.current.value.length == s.leaves[i - 1].offset + s.leaves[i - 1].length
  }

  lemma ScanOpenEnds(s: Tree, t: Tree, i: nat)
    requires Contiguous(s)
    ensures OpenEnds(s, i, ScanTo(s, t, i))
  {
    ScanKeepsInv(s, t, i);
  }

  lemma AdvanceTotal(s: Tree, t: Tree, i: nat, scan: Scan)
    requires Contiguous(s) && i < |s.leaves| && OpenEnds(s, i, scan)
    ensures Total(Advance(s, t, i, scan).Closed())
            == Total(scan.Closed()) + (if Dirty(s, t, i) then s.leaves[i].length else 0)
  {
    var next := Advance(s, t, i, scan);
    if scan.current.Some? { TotalSnoc(scan.ranges, scan.current.value); }
    if next.current.Some? { TotalSnoc(next.ranges, next.current.value); }
  }

  /** The ranges are as long as the dirty chunks together. */
  lemma {:induction false} ScanTotal(s: Tree, t: Tree, i: nat)
    requires Contiguous(s) && i <= |s.leaves|
    ensures Total(ScanTo(s, t, i).Closed()) == LeafBytes(s, t, i, true)
  {
    if i == 0 {
      assert ScanTo(s, t, 0).Closed() == [];
    } else {
      ScanTotal(s, t, i - 1);
      ScanOpenEnds(s, t, i - 1);
      AdvanceTotal(s, t, i - 1, ScanTo(s, t, i - 1));
    }
  }

  lemma {:induction false} ScanRests(s: Tree, t: Tree, i: nat)
    requires |s.leaves| <= i
    ensures ScanTo(s, t, i).Closed() == ScanTo(s, t, |s.leaves|).Closed()
  {
    if |s.leaves| < i { ScanRests(s, t, i - 1); }
  }

  lemma {:induction false} LeavesAddUp(s: Tree, t: Tree, i: nat)
    requires Contiguous(s) && 0 < i <= |s.leaves| && s.leaves[0].offset == 0
    ensures LeafBytes(s, t, i, true) + LeafBytes(s, t, i, false) == s.leaves[i - 1].offset + s.leaves[i - 1].length
  {
    if i > 1 { LeavesAddUp(s, t, i - 1); }
  }

  lemma ChunkLength(data: seq<byte>, size: nat, i: nat)
    requires 0 < size && i < Count(|data|, size)
    ensures i + 1 < Count(|data|, size) ==> |Chunk(data, size, i)| == size
  {
    CountIff(|data|, size, i);
    CountIff(|data|, size, i + 1);
  }

  /** With different chunk sizes only the last chunk of either file can be clean. */
  lemma MixedCleanIsLast(hash: Hasher, a: seq<byte>, s: nat, b: seq<byte>, t: nat, i: nat)
    requires 0 < s && 0 < t && s != t && i < Count(|a|, s) && !Dirty(TreeOf(hash, a, s), TreeOf(hash, b, t), i)
    requires CollisionFree(hash, Hashed(hash, a, s) + Hashed(hash, b, t))
    ensures i == Count(|a|, s) - 1 || i == Count(|b|, t) - 1
  {
    SameChunkMixed(hash, a, s, b, t, i);
    ChunkLength(a, s, i);
    ChunkLength(b, t, i);
  }

  lemma SameChunkMixed(hash: Hasher, a: seq<byte>, s: nat, b: seq<byte>, t: nat, i: nat)
    requires 0 < s && 0 < t && i < Count(|a|, s) && !Dirty(TreeOf(hash, a, s), TreeOf(hash, b, t), i)
    requires CollisionFree(hash, Hashed(hash, a, s) + Hashed(hash, b, t))
    ensures i < Count(|b|, t) && Chunk(a, s, i) == Chunk(b, t, i)
  {
    assert Chunk(a, s, i) in Hashed(hash, a, s) && Chunk(b, t, i) in Hashed(hash, b, t);
  }

  lemma {:induction false} MixedCleanBytes(hash: Hasher, a: seq<byte>, s: nat, b: seq<byte>, t: nat, i: nat)
    requires 0 < s && 0 < t && s != t && i <= Count(|a|, s)
    requires CollisionFree(hash, Hashed(hash, a, s) + Hashed(hash, b, t))
    ensures LeafBytes(TreeOf(hash, a, s), TreeOf(hash, b, t), i, false)
            <= (if Count(|a|, s) <= i then s else 0) + (if Count(|b|, t) <= i then s else 0)
  {
    if i > 0 {
      MixedCleanBytes(hash, a, s, b, t, i - 1);
      LeafEnd(hash, a, s, i - 1);
      if !Dirty(TreeOf(hash, a, s), TreeOf(hash, b, t), i - 1) { MixedCleanIsLast(hash, a, s, b, t, i - 1); }
    }
  }

  lemma DiffTotal(s: Tree, t: Tree)
    requires Contiguous(s)
    ensures Total(DiffOf(s, t)) == LeafBytes(s, t, |s.leaves|, true)
  {
    ScanRests(s, t, Rounds(s, t));
    ScanTotal(s, t, |s.leaves|);
  }

  lemma {:induction false} LeafBytesGrow(s: Tree, t: Tree, u: Tree, i: nat)
    requires i <= |s.leaves| && forall j: nat :: Dirty(s, t, j) ==> Dirty(s, u, j)
    ensures LeafBytes(s, t, i, true) <= LeafBytes(s, u, i, true)
  {
    if i > 0 { LeafBytesGrow(s, t, u, i - 1); }
  }

  /** With different chunk sizes almost everything is dirty. */
  lemma MixedIsDirty(hash: Hasher, a: seq<byte>, s: nat, b: seq<byte>, t: nat)
    requires 0 < s && 0 < t && s != t && Narrow(|a|, s)
    requires CollisionFree(hash, Hashed(hash, a, s) + Hashed(hash, b, t))
    ensures Total(DiffOf(TreeOf(hash, a, s), TreeOf(hash, b, t))) >= |a| - 2 * s
  {
    var source, target, n := TreeOf(hash, a, s), TreeOf(hash, b, t), Count(|a|, s);
    TreeIsContiguous(hash, a, s);
    DiffTotal(source, target);
    MixedCleanBytes(hash, a, s, b, t, n);
    if n > 0 {
      LeavesAddUp(source, target, n);
      LeafIs(hash, a, s, n - 1);
      CountIff(|a|, s, n);
    } else {
      CountIff(|a|, s, 0);
    }
  }

  /** A chunk is also dirty to what a signature gives back, however much of the tree that is. */
  lemma RebuiltIsDirtier(hash: Hasher, source: Tree, b: seq<byte>, t: nat, i: nat)
    requires 0 < t && Dirty(source, TreeOf(hash, b, t), i)
    ensures var sig := ToSignature(TreeOf(hash, b, t)); FromSig(sig).Rebuilt? && Dirty(source, FromSig(sig).tree, i)
  {
    CountBound(|b|, t);
    SigHashes(ToSignature(TreeOf(hash, b, t)), 0, 0);
  }

  lemma MixedIsFullCopy(hash: Hasher, a: seq<byte>, s: nat, b: seq<byte>, t: nat)
    requires 0 < s < LENGTH_WRAP && 0 < t && s != t && 4 * s < |a|
    requires CollisionFree(hash, Hashed(hash, a, s) + Hashed(hash, b, t))
    ensures var r := FromSig(ToSignature(TreeOf(hash, b, t)));
            r.Rebuilt? && Patches(TreeOf(hash, a, s), r.tree, |a|) == []
  {
    var source, target, r := TreeOf(hash, a, s), TreeOf(hash, b, t), FromSig(ToSignature(TreeOf(hash, b, t)));
    CountBound(|b|, t);
    MixedIsDirty(hash, a, s, b, t);
    TreeIsContiguous(hash, a, s);
    DiffTotal(source, target);
    DiffTotal(source, r.tree);
    forall i: nat | Dirty(source, target, i) ensures Dirty(source, r.tree, i) {
      RebuiltIsDirtier(hash, source, b, t, i);
    }
    LeafBytesGrow(source, target, r.tree, |source.leaves|);
  }

  // ---------------------------------------------------------------- what hydration achieves

  /** The stored signature tells the truth about the target. */
  ghost predicate Describes(hash: Hasher, sig: Signature, data: seq<byte>) {
    0 < sig.chunkSize && sig == ToSignature(TreeOf(hash, data, sig.chunkSize))
  }

  /** Lengths of 64 bits, a truthful signature, and hashes that tell apart what they are given. */
  ghost predicate Ordinary(hash: Hasher, src: seq<byte>, dst: seq<byte>, sig: Signature) {
    && |src| < WORD && Describes(hash, sig, dst) && 0 < Adaptive(|src|)
    && CollisionFree(hash, Hashed(hash, src, Adaptive(|src|)) + Hashed(hash, dst, sig.chunkSize))
  }

  /** A target that is the list of the source's leaf hashes. */
  predicate IsLeafList(hash: Hasher, dst: seq<byte>, src: seq<byte>, size: nat) {
    dst == Concat(Digests(Leaves(hash, src, size)))
  }

  lemma SizesOf(src: seq<byte>)
    requires DELTA_THRESHOLD < |src| < WORD
    ensures 0 < Adaptive(|src|) && 4 * Adaptive(|src|) < |src|
  {
    AdaptiveIsPositive(|src|);
    AdaptiveBelow(|src|);
  }

  /** Equal roots of trees with any two chunk sizes: the files are equal, or the target is the list of leaf hashes. */
  lemma MixedRoots(hash: Hasher, src: seq<byte>, s: nat, dst: seq<byte>, t: nat)
    requires 0 < s < |src| && 0 < t && CollisionFree(hash, Hashed(hash, src, s) + Hashed(hash, dst, t))
    requires TreeOf(hash, src, s).root == TreeOf(hash, dst, t).root
    ensures dst == src || (|dst| <= t && IsLeafList(hash, dst, src, s))
  {
    RootIsHash(hash, src, s);
    RootIsHash(hash, dst, t);
    assert RootInput(hash, src, s) == RootInput(hash, dst, t);
    if t < |dst| {
      DigestsFromConcat(Digests(Leaves(hash, src, s)), Digests(Leaves(hash, dst, t)));
      SingleChunk(src, s);
      FirstDigests(hash, src, s, dst, t);
      SameChunkMixed(hash, src, s, dst, t, 0);
      SingleChunk(dst, t);
      ChunkLength(src, s, 0);
      ChunkLength(dst, t, 0);
      RootsEqualIff(hash, src, dst, s);
    }
  }

  lemma FirstDigests(hash: Hasher, src: seq<byte>, s: nat, dst: seq<byte>, t: nat)
    requires Digests(Leaves(hash, src, s)) == Digests(Leaves(hash, dst, t)) && 0 < s && 0 < Count(|src|, s)
    ensures !Dirty(TreeOf(hash, src, s), TreeOf(hash, dst, t), 0)
  {
    assert |Digests(Leaves(hash, src, s))| == |Leaves(hash, dst, t)|;
    assert Digests(Leaves(hash, src, s))[0] == Digests(Leaves(hash, dst, t))[0];
  }

  lemma FullCopyIsSource(m: Mode, src: seq<byte>, layout: Layout)
    requires 0 < m.block && HolesAreZero(src, layout)
    ensures FullCopied(m, src, layout, true) == src
    ensures FullCopied(m, src, layout, false) == src
            <==> src == [] || EndsWritten(m, src, SegmentsOf(layout, 0, |src|), |src|)
  {
    FullCopyIff(m, src, layout, true);
    FullCopyIff(m, src, layout, false);
  }

  lemma PatchedIsDelta(m: Mode, hash: Hasher, src: seq<byte>, layout: Layout, dst: seq<byte>, sig: Signature)
    requires 0 < m.block && HolesAreZero(src, layout) && Ordinary(hash, src, dst, sig)
    requires Hydrated(m, hash, src, layout, dst, Some(sig)).Patched? && Adaptive(|src|) < LENGTH_WRAP
    ensures sig.chunkSize == Adaptive(|src|)
    ensures Hydrated(m, hash, src, layout, dst, Some(sig)).dst == DeltaResult(m, hash, src, layout, dst, sig.chunkSize)
  {
    SizesOf(src);
    if sig.chunkSize != Adaptive(|src|) { MixedIsFullCopy(hash, src, Adaptive(|src|), dst, sig.chunkSize); }
    SignatureRoundTrip(hash, dst, sig.chunkSize);
  }

  lemma PatchedIsSource(m: Mode, hash: Hasher, src: seq<byte>, layout: Layout, dst: seq<byte>, sig: Signature)
    requires 0 < m.block && HolesAreZero(src, layout) && Ordinary(hash, src, dst, sig)
    requires Hydrated(m, hash, src, layout, dst, Some(sig)).Patched? && Adaptive(|src|) < LENGTH_WRAP
    ensures sig.chunkSize == Adaptive(|src|)
    ensures var now := Hydrated(m, hash, src, layout, dst, Some(sig)).dst;
            && (StartsWith(now, src) <==> Suits(m, hash, src, layout, dst, sig.chunkSize))
            && (now == src <==> Suits(m, hash, src, layout, dst, sig.chunkSize) && |dst| <= |src|)
  {
    PatchedIsDelta(m, hash, src, layout, dst, sig);
    DeltaIsFullCopy(m, hash, src, layout, dst, sig.chunkSize);
  }

  lemma UntouchedIsSource(m: Mode, hash: Hasher, src: seq<byte>, layout: Layout, dst: seq<byte>, sig: Signature)
    requires 0 < m.block && Ordinary(hash, src, dst, sig)
    requires Hydrated(m, hash, src, layout, dst, Some(sig)).Untouched?
    ensures dst == src || (|dst| <= sig.chunkSize && IsLeafList(hash, dst, src, Adaptive(|src|)))
  {
    SizesOf(src);
    MixedRoots(hash, src, Adaptive(|src|), dst, sig.chunkSize);
  }

  /**
   * With a truthful signature of whatever chunk size: a full copy gives the source, if preallocation was refused
   * exactly when its last byte is written; a target left alone is the source, or the list of its leaf hashes. As long
   * as chunk lengths fit 32 bits, only a target whose chunk size is the source's is patched, and then it starts with
   * the source exactly when it suits the dirty ranges, and is the source exactly when it was not longer besides.
   */
  lemma HydrationIsSync(m: Mode, hash: Hasher, src: seq<byte>, layout: Layout, dst: seq<byte>, sig: Signature)
    requires 0 < m.block && HolesAreZero(src, layout) && Ordinary(hash, src, dst, sig)
    ensures match Hydrated(m, hash, src, layout, dst, Some(sig))
            case FullCopy =>
              && FullCopied(m, src, layout, true) == src
              && (FullCopied(m, src, layout, false) == src
                  <==> src == [] || EndsWritten(m, src, SegmentsOf(layout, 0, |src|), |src|))
            case Untouched => dst == src || (|dst| <= sig.chunkSize && IsLeafList(hash, dst, src, Adaptive(|src|)))
            case Patched(now, newSig) =>
              && newSig == ToSignature(TreeOf(hash, src, Adaptive(|src|)))
              && (Adaptive(|src|) < LENGTH_WRAP ==>
                    && sig.chunkSize == Adaptive(|src|)
                    && (StartsWith(now, src) <==> Suits(m, hash, src, layout, dst, sig.chunkSize))
                    && (now == src <==> Suits(m, hash, src, layout, dst, sig.chunkSize) && |dst| <= |src|))
  {
    match Hydrated(m, hash, src, layout, dst, Some(sig))
    case FullCopy => FullCopyIsSource(m, src, layout);
    case Untouched => UntouchedIsSource(m, hash, src, layout, dst, sig);
    case Patched(_, _) =>
      OutcomeIff(m, hash, src, layout, dst, Some(sig));
      if Adaptive(|src|) < LENGTH_WRAP { PatchedIsSource(m, hash, src, layout, dst, sig); }
  }

  /**
   * What a patch comes to for a source of any length and a signature that may not even be truthful: the target
   * becomes the source exactly when it agrees with it outside what the dirty ranges bring, and is as long or is
   * extended so far.
   */
  lemma PatchIff(m: Mode, hash: Hasher, src: seq<byte>, layout: Layout, dst: seq<byte>, sig: Signature)
    requires 0 < m.block && HolesAreZero(src, layout) && Hydrated(m, hash, src, layout, dst, Some(sig)).Patched?
    ensures var dirty := Patches(TreeOf(hash, src, Adaptive(|src|)), FromSig(sig).tree, |src|);
            Hydrated(m, hash, src, layout, dst, Some(sig)).dst == src
            <==> && AgreesElsewhere(src, layout, dst, dirty)
                 && (|dst| == |src| || (|dst| < |src| && ReachAll(m, src, layout, dirty) == |src|))
  {
    AdaptiveIsPositive(|src|);
    PatchesFit(hash, src, Adaptive(|src|), FromSig(sig).tree);
    AppliedIff(m, src, layout, dst, Patches(TreeOf(hash, src, Adaptive(|src|)), FromSig(sig).tree, |src|));
  }

  /** After a patch the new signature tells the truth about the target exactly when the target is the source. */
  lemma NewSignatureIff(hash: Hasher, src: seq<byte>, now: seq<byte>)
    requires 0 < Adaptive(|src|)
    requires CollisionFree(hash, Hashed(hash, src, Adaptive(|src|)) + Hashed(hash, now, Adaptive(|src|)))
    ensures Describes(hash, ToSignature(TreeOf(hash, src, Adaptive(|src|))), now) <==> now == src
  {
    var size := Adaptive(|src|);
    if Describes(hash, ToSignature(TreeOf(hash, src, size)), now) {
      SameLeavesPrefix(hash, src, now, size);
      assert |src| == |now| && now == now[..|src|];
    }
  }

  /** Whatever a patch left behind, the next run over the same source leaves it alone. */
  lemma PatchIsFinal(m: Mode, hash: Hasher, src: seq<byte>, layout: Layout, dst: seq<byte>, sig: Signature)
    requires 0 < m.block && Hydrated(m, hash, src, layout, dst, Some(sig)).Patched?
    ensures var out := Hydrated(m, hash, src, layout, dst, Some(sig));
            Hydrated(m, hash, src, layout, out.dst, Some(out.sig)) == Untouched
  {
    AdaptiveIsPositive(|src|);
    CountBound(|src|, Adaptive(|src|));
  }
}
