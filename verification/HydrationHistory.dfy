/** A target over many hydrations: its bytes, the signature stored with it, and when the two stay true. */
module HydrationHistory {
  import opened Bytes
  import opened CopyOutcome
  import CopyEngine
  import opened Sparse
  import opened Merkle
  import opened MerkleDelta
  import opened MerkleSignature
  import opened DeltaCopy
  import opened Hydration

  datatype Target = Target(data: seq<byte>, stored: Option<Signature>)

  /** A version of the source, and whether the file system lets a new target be preallocated. */
  datatype Job = Job(src: seq<byte>, layout: Layout, preallocated: bool)
  {
    predicate Valid() { |src| < WORD }
  }

  /** A full copy: small files by the system's own copy, others through the engine. */
  function Copied(m: Mode, job: Job): seq<byte>
    requires 0 < m.block
  {
    if |job.src| <= SMALL_FILE then job.src else FullCopied(m, job.src, job.layout, job.preallocated)
  }

  /** After a full copy of a large file the target's own tree is stored; after one of a small file nothing is. */
  function Signed(hash: Hasher, src: seq<byte>, now: seq<byte>, stored: Option<Signature>): Option<Signature> {
    var sig := ToSignature(TreeOf(hash, now, Adaptive(|src|)));
    if |src| > DELTA_THRESHOLD && FitsInXattr(sig) then Some(sig) else stored
  }

  function Synced(m: Mode, hash: Hasher, job: Job, t: Target): Target
    requires 0 < m.block
  {
    match Hydrated(m, hash, job.src, job.layout, t.data, t.stored)
    case FullCopy => Target(Copied(m, job), Signed(hash, job.src, Copied(m, job), t.stored))
    case Untouched => t
    case Patched(now, sig) => Target(now, Some(sig))
  }

  /** The schedules complete what goes through the engine: the patch, or the full copy of a file that is not small. */
  ghost predicate SyncCompletes(setup: Setup, hash: Hasher, job: Job, t: Target,
                                schedules: (nat, nat) -> seq<CopyEngine.Step>)
    requires setup.Valid()
  {
    var out := Hydrated(setup.Mode(), hash, job.src, job.layout, t.data, t.stored);
    && HydrationCompletes(setup, hash, job.src, job.layout, t.data, t.stored, schedules)
    && (out.FullCopy? && |job.src| > SMALL_FILE ==>
          RangeCompletes(setup, job.src, job.layout, Prepared(|job.src|, job.preallocated), 0, |job.src|,
                         SchedulesOf(schedules, 0)))
  }

  method Sync(setup: Setup, hash: Hasher, job: Job, t: Target, wishes: nat -> nat,
              schedules: (nat, nat) -> seq<CopyEngine.Step>) returns (after: Target, whole: bool)
    requires setup.Valid() && HolesAreZero(job.src, job.layout)
    ensures whole ==> after == Synced(setup.Mode(), hash, job, t)
    ensures whole <==> SyncCompletes(setup, hash, job, t, schedules)
  {
    var out;
    out, whole := Hydrate(setup, hash, job.src, job.layout, t.data, t.stored, wishes, schedules);
    match out {
      case Untouched => after := t;
      case Patched(now, sig) => after := Target(now, Some(sig));
      case FullCopy =>
        var now, all := job.src, true;
        if |job.src| > SMALL_FILE {
          now, all := CopyWhole(setup, job.src, job.layout, job.preallocated, SchedulesOf(schedules, 0));
        }
        whole := whole && all;
        var stored := t.stored;
        if |job.src| > DELTA_THRESHOLD {
          var tree := FromFile(hash, now, Adaptive(|job.src|), wishes);
          if FitsInXattr(ToSignature(tree)) { stored := Some(ToSignature(tree)); }
        }
        after := Target(now, stored);
    }
  }

  // ---------------------------------------------------------------- one hydration

  ghost predicate Truthful(hash: Hasher, t: Target) { t.stored.Some? ==> Describes(hash, t.stored.value, t.data) }

  /** The hash tells apart what this hydration compares. */
  ghost predicate ToldApart(m: Mode, hash: Hasher, job: Job, t: Target)
    requires 0 < m.block
  {
    var after, size := Synced(m, hash, job, t).data, Adaptive(|job.src|);
    AdaptiveIsPositive(|job.src|);
    && CollisionFree(hash, Hashed(hash, job.src, size) + Hashed(hash, after, size))
    && (t.stored.Some? ==>
          var chunk := t.stored.value.chunkSize;
          && 0 < chunk && CollisionFree(hash, Hashed(hash, job.src, size) + Hashed(hash, t.data, chunk))
          && CollisionFree(hash, Hashed(hash, t.data, chunk) + Hashed(hash, after, chunk)))
  }

  lemma {:induction false} DigestBytes(ds: seq<Digest>)
    ensures |Concat(ds)| == 32 * |ds|
  {
    if ds != [] { DigestBytes(ds[1..]); }
  }

  /** A leaf list is far shorter than the file. */
  lemma LeafListIsShort(hash: Hasher, src: seq<byte>, dst: seq<byte>)
    requires DELTA_THRESHOLD < |src| < WORD && IsLeafList(hash, dst, src, Adaptive(|src|))
    ensures |dst| < |src|
  {
    AdaptiveFits(hash, src);
    DigestBytes(Digests(Leaves(hash, src, Adaptive(|src|))));
  }

  /** What has to be true of the target, before the copy, for each way of hydrating it. */
  ghost predicate Suitable(m: Mode, hash: Hasher, job: Job, t: Target)
    requires 0 < m.block
  {
    var src := job.src;
    match Hydrated(m, hash, src, job.layout, t.data, t.stored)
    case FullCopy =>
      |src| <= SMALL_FILE || job.preallocated || EndsWritten(m, src, SegmentsOf(job.layout, 0, |src|), |src|)
    case Untouched => !IsLeafList(hash, t.data, src, Adaptive(|src|))
    case Patched(_, sig) =>
      var dirty := DirtyRanges(hash, src, t.stored.value);
      && AgreesElsewhere(src, job.layout, t.data, dirty)
      && (|t.data| == |src| || (|t.data| < |src| && ReachAll(m, src, job.layout, dirty) == |src|))
  }

  /** From a truthful target, or one without a signature, hydration gives the source exactly when the target suits. */
  lemma SyncedIff(m: Mode, hash: Hasher, job: Job, t: Target)
    requires 0 < m.block && job.Valid() && HolesAreZero(job.src, job.layout) && Truthful(hash, t)
    requires ToldApart(m, hash, job, t)
    ensures Synced(m, hash, job, t).data == job.src <==> Suitable(m, hash, job, t)
  {
    var src := job.src;
    match Hydrated(m, hash, src, job.layout, t.data, t.stored)
    case FullCopy =>
      FullCopyIff(m, src, job.layout, job.preallocated);
    case Untouched =>
      AdaptiveIsPositive(|src|);
      HydrationIsSync(m, hash, src, job.layout, t.data, t.stored.value);
      if IsLeafList(hash, t.data, src, Adaptive(|src|)) { LeafListIsShort(hash, src, t.data); }
    case Patched(_, _) =>
      PatchIff(m, hash, src, job.layout, t.data, t.stored.value);
  }

  lemma SameSignature(hash: Hasher, sig: Signature, a: seq<byte>, b: seq<byte>)
    requires Describes(hash, sig, a)
    requires CollisionFree(hash, Hashed(hash, a, sig.chunkSize) + Hashed(hash, b, sig.chunkSize))
    ensures Describes(hash, sig, b) <==> a == b
  {
    if Describes(hash, sig, b) {
      SameLeavesPrefix(hash, a, b, sig.chunkSize);
      assert |a| == |b| && b == b[..|a|];
    }
  }

  lemma CopiedIsNotLonger(m: Mode, job: Job)
    requires 0 < m.block
    ensures |Copied(m, job)| <= |job.src|
  {
    FullCopyLength(m, job.src, job.layout, Prepared(|job.src|, job.preallocated));
  }

  /** The signature stored after a full copy of a large file fits and is true. */
  lemma SignedIsTrue(m: Mode, hash: Hasher, job: Job, stored: Option<Signature>)
    requires 0 < m.block && DELTA_THRESHOLD < |job.src| < WORD
    ensures var now := Copied(m, job);
            Signed(hash, job.src, now, stored) == Some(ToSignature(TreeOf(hash, now, Adaptive(|job.src|))))
  {
    var now, size := Copied(m, job), Adaptive(|job.src|);
    CopiedIsNotLonger(m, job);
    AdaptiveChunkSize(|job.src|);
    CountIff(|now|, size, MAX_LEAVES);
    StartIsProduct(size, MAX_LEAVES);
  }

  /**
   * Whether what is stored afterwards is true: after a patch exactly when the patch gave the source; after a full copy
   * exactly when the file is over 1 MiB, or nothing was stored, or the target did not change. So a smaller file leaves
   * a stale signature behind.
   */
  lemma TruthfulIff(m: Mode, hash: Hasher, job: Job, t: Target)
    requires 0 < m.block && job.Valid() && Truthful(hash, t) && ToldApart(m, hash, job, t)
    ensures Truthful(hash, Synced(m, hash, job, t)) <==>
            match Hydrated(m, hash, job.src, job.layout, t.data, t.stored)
            case FullCopy => |job.src| > 1024 * 1024 || t.stored.None? || Copied(m, job) == t.data
            case Untouched => true
            case Patched(now, _) => now == job.src
  {
    AdaptiveIsPositive(|job.src|);
    match Hydrated(m, hash, job.src, job.layout, t.data, t.stored)
    case FullCopy =>
      if |job.src| > DELTA_THRESHOLD {
        SignedIsTrue(m, hash, job, t.stored);
      } else if t.stored.Some? {
        SameSignature(hash, t.stored.value, t.data, Copied(m, job));
      }
    case Untouched =>
    case Patched(now, _) => NewSignatureIff(hash, job.src, now);
  }

  // ---------------------------------------------------------------- whole histories

  function After(m: Mode, hash: Hasher, jobs: seq<Job>, t: Target): Target
    requires 0 < m.block
  {
    if jobs == [] then t else Synced(m, hash, jobs[|jobs| - 1], After(m, hash, jobs[..|jobs| - 1], t))
  }

  lemma AfterSnoc(m: Mode, hash: Hasher, init: seq<Job>, last: Job, all: seq<Job>, t: Target)
    requires 0 < m.block && all != [] && all[..|all| - 1] == init && all[|all| - 1] == last
    ensures After(m, hash, all, t) == Synced(m, hash, last, After(m, hash, init, t))
  {
  }

  /** A step that suits, and replaces no signed target by a file of at most 1 MiB, unless it is the same. */
  ghost predicate Sound(m: Mode, hash: Hasher, job: Job, t: Target)
    requires 0 < m.block
  {
    Suitable(m, hash, job, t) && (|job.src| > 1024 * 1024 || t.stored.None? || job.src == t.data)
  }

  ghost predicate InSync(hash: Hasher, t: Target, src: seq<byte>) { t.data == src && Truthful(hash, t) }

  lemma StepIff(m: Mode, hash: Hasher, job: Job, t: Target)
    requires 0 < m.block && job.Valid() && HolesAreZero(job.src, job.layout) && Truthful(hash, t)
    requires ToldApart(m, hash, job, t)
    ensures InSync(hash, Synced(m, hash, job, t), job.src) <==> Sound(m, hash, job, t)
  {
    SyncedIff(m, hash, job, t);
    TruthfulIff(m, hash, job, t);
  }

  /** What hydration number k is given and finds is as the theorems ask for. */
  ghost predicate OrderlyAt(m: Mode, hash: Hasher, jobs: seq<Job>, t: Target, k: nat)
    requires 0 < m.block && k < |jobs|
  {
    && jobs[k].Valid() && HolesAreZero(jobs[k].src, jobs[k].layout)
    && ToldApart(m, hash, jobs[k], After(m, hash, jobs[..k], t))
  }

  ghost predicate SoundAt(m: Mode, hash: Hasher, jobs: seq<Job>, t: Target, k: nat)
    requires 0 < m.block && k < |jobs|
  {
    Sound(m, hash, jobs[k], After(m, hash, jobs[..k], t))
  }

  ghost predicate InSyncAt(m: Mode, hash: Hasher, jobs: seq<Job>, t: Target, k: nat)
    requires 0 < m.block && k < |jobs|
  {
    InSync(hash, After(m, hash, jobs[..k + 1], t), jobs[k].src)
  }

  lemma StepAt(m: Mode, hash: Hasher, jobs: seq<Job>, t: Target, k: nat)
    requires 0 < m.block && k < |jobs| && OrderlyAt(m, hash, jobs, t, k) && Truthful(hash, After(m, hash, jobs[..k], t))
    ensures InSyncAt(m, hash, jobs, t, k) <==> SoundAt(m, hash, jobs, t, k)
  {
    AfterNext(m, hash, jobs, t, k);
    StepFrom(m, hash, jobs[k], After(m, hash, jobs[..k], t), After(m, hash, jobs[..k + 1], t));
  }

  lemma AfterNext(m: Mode, hash: Hasher, jobs: seq<Job>, t: Target, k: nat)
    requires 0 < m.block && k < |jobs|
    ensures After(m, hash, jobs[..k + 1], t) == Synced(m, hash, jobs[k], After(m, hash, jobs[..k], t))
  {
    AfterSnoc(m, hash, jobs[..k], jobs[k], jobs[..k + 1], t);
  }

  lemma StepFrom(m: Mode, hash: Hasher, job: Job, before: Target, after: Target)
    requires 0 < m.block && job.Valid() && HolesAreZero(job.src, job.layout) && Truthful(hash, before)
    requires ToldApart(m, hash, job, before) && after == Synced(m, hash, job, before)
    ensures InSync(hash, after, job.src) <==> Sound(m, hash, job, before)
  {
    StepIff(m, hash, job, before);
  }

  /** If each step goes right, after all before it did, exactly when it is sound, then all do exactly when all are. */
  lemma {:induction false} StepByStep(right: nat -> bool, sound: nat -> bool, n: nat)
    requires forall k: nat :: k < n && (forall j: nat :: j < k ==> right(j)) ==> (right(k) <==> sound(k))
    ensures (forall k: nat :: k < n ==> right(k)) <==> forall k: nat :: k < n ==> sound(k)
  {
    if n > 0 { StepByStep(right, sound, n - 1); }
  }

  lemma TruthfulBefore(m: Mode, hash: Hasher, jobs: seq<Job>, t: Target, k: nat)
    requires 0 < m.block && k < |jobs| && Truthful(hash, t)
    requires k > 0 ==> InSyncAt(m, hash, jobs, t, k - 1)
    ensures Truthful(hash, After(m, hash, jobs[..k], t))
  {
  }

  /** Over every history from a truthful target: it is in sync after each hydration exactly when each was sound. */
  lemma HistoryIff(m: Mode, hash: Hasher, jobs: seq<Job>, t: Target)
    requires 0 < m.block && Truthful(hash, t) && forall k: nat :: k < |jobs| ==> OrderlyAt(m, hash, jobs, t, k)
    ensures (forall k: nat :: k < |jobs| ==> InSyncAt(m, hash, jobs, t, k))
            <==> forall k: nat :: k < |jobs| ==> SoundAt(m, hash, jobs, t, k)
  {
    var right := (k: nat) => k < |jobs| && InSyncAt(m, hash, jobs, t, k);
    var sound := (k: nat) => k < |jobs| && SoundAt(m, hash, jobs, t, k);
    forall k: nat | k < |jobs| && (forall j: nat :: j < k ==> right(j)) ensures right(k) <==> sound(k) {
      assert k > 0 ==> right(k - 1);
      TruthfulBefore(m, hash, jobs, t, k);
      StepAt(m, hash, jobs, t, k);
    }
    StepByStep(right, sound, |jobs|);
    assert forall k: nat :: k < |jobs| ==> (right(k) <==> InSyncAt(m, hash, jobs, t, k));
    assert forall k: nat :: k < |jobs| ==> (sound(k) <==> SoundAt(m, hash, jobs, t, k));
  }

  /** The first hydration of a preallocated target: it becomes the source, whose signature is stored if it is large. */
  lemma FirstHydration(m: Mode, hash: Hasher, job: Job, data: seq<byte>)
    requires 0 < m.block && job.Valid() && HolesAreZero(job.src, job.layout) && job.preallocated
    ensures Synced(m, hash, job, Target(data, None)) == Target(job.src,
              if |job.src| > 1024 * 1024 then Some(ToSignature(TreeOf(hash, job.src, Adaptive(|job.src|)))) else None)
  {
    FullCopyIff(m, job.src, job.layout, true);
    if |job.src| > DELTA_THRESHOLD { SignedIsTrue(m, hash, job, None); }
  }

  /**
   * A large file, any file of at most 1 MiB, and the large file again: the target stays at the second, under every
   * hash, because the signature of the first is still stored.
   */
  lemma StaleSignature(m: Mode, hash: Hasher, large: Job, small: Job, data: seq<byte>)
    requires 0 < m.block && large.Valid() && HolesAreZero(large.src, large.layout) && large.preallocated
    requires small.Valid() && HolesAreZero(small.src, small.layout) && small.preallocated
    requires |small.src| <= 1024 * 1024 < |large.src|
    ensures After(m, hash, [large, small, large], Target(data, None)).data == small.src != large.src
  {
    var jobs, t := [large, small, large], Target(data, None);
    var first := Synced(m, hash, large, t);
    FirstHydration(m, hash, large, data);
    var second := Synced(m, hash, small, first);
    FullCopyIff(m, small.src, small.layout, true);
    assert second == Target(small.src, first.stored);
    AdaptiveIsPositive(|large.src|);
    CountBound(|large.src|, Adaptive(|large.src|));
    OutcomeIff(m, hash, large.src, large.layout, second.data, second.stored);
    ThreeJobs(m, hash, large, small, large, t);
  }

  lemma ThreeJobs(m: Mode, hash: Hasher, a: Job, b: Job, c: Job, t: Target)
    requires 0 < m.block
    ensures After(m, hash, [a, b, c], t) == Synced(m, hash, c, Synced(m, hash, b, Synced(m, hash, a, t)))
  {
    AfterSnoc(m, hash, [], a, [a], t);
    AfterSnoc(m, hash, [a], b, [a, b], t);
    AfterSnoc(m, hash, [a, b], c, [a, b, c], t);
  }
}
