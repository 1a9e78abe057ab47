/** Restoring a whole archive: one producer loads chunks while consumers wait for theirs and assemble files. */
module PipelinedRestore {
  import opened Bytes
  import opened FxarFormat
  import opened FxarWriter
  import opened FxarReader
  import opened FxarRoundTrip

  /**
   * The decoded chunks in index order, for each file the numbers of its chunks, and whether what was put together
   * for a file has the hash that the manifest says.
   */
  datatype Config = Config(chunks: seq<seq<byte>>, files: seq<seq<nat>>, accepts: (nat, seq<byte>) -> bool)

  /** Every chunk number of the manifest is in the index. */
  ghost predicate WellFormed(c: Config) {
    forall f :: 0 <= f < |c.files| ==> InRange(c.files[f], |c.chunks|)
  }

  ghost predicate InRange(numbers: seq<nat>, n: nat) { forall k :: 0 <= k < |numbers| ==> numbers[k] < n }

  /** The highest chunk number, 0 for a file without chunks. */
  function MaxOf(numbers: seq<nat>): (m: nat)
    ensures forall k :: 0 <= k < |numbers| ==> numbers[k] <= m
    ensures m == 0 || m in numbers
  {
    if numbers == [] then 0 else
    var m := MaxOf(numbers[1..]);
    if numbers[0] > m then numbers[0] else m
  }

  /** How many chunks a consumer waits for. */
  function Needed(numbers: seq<nat>): nat { MaxOf(numbers) + 1 }

  datatype Phase =
    | Waiting
    | Assembling(next: nat, data: seq<byte>)
    | Done(data: seq<byte>)
    | Rejected                          // the hash of the whole file does not match: the file is skipped
    | MissingChunk

  predicate Ended(p: Phase) { p.Done? || p.Rejected? }

  /** `stored` tells that the producer has filled slot `loaded` but not yet published it. */
  datatype State = State(store: seq<Option<seq<byte>>>, stored: bool, loaded: nat, phases: seq<Phase>)

  datatype Step = Store | Publish | Pass(f: nat) | Spin(f: nat) | Read(f: nat) | Finish(f: nat)

  function Init(c: Config): State {
    State(seq(|c.chunks|, _ => None), false, 0, seq(|c.files|, _ => Waiting))
  }

  predicate Enabled(c: Config, s: State, step: Step) {
    match step
    case Store => !s.stored && s.loaded < |c.chunks| == |s.store|
    case Publish => s.stored
    case Pass(f) => f < |s.phases| == |c.files| && s.phases[f].Waiting? && s.loaded >= Needed(c.files[f])
    case Spin(f) => f < |s.phases| == |c.files| && s.phases[f].Waiting? && s.loaded < Needed(c.files[f])
    case Read(f) => f < |s.phases| == |c.files| && s.phases[f].Assembling? && s.phases[f].next < |c.files[f]|
                    && c.files[f][s.phases[f].next] < |s.store|
    case Finish(f) => f < |s.phases| == |c.files| && s.phases[f].Assembling? && s.phases[f].next == |c.files[f]|
  }

  function ReadSlot(c: Config, s: State, f: nat): Phase
    requires Enabled(c, s, Read(f))
  {
    var p := s.phases[f];
    match s.store[c.files[f][p.next]]
    case Some(data) => Assembling(p.next + 1, p.data + data)
    case None => MissingChunk
  }

  /** The check of the whole file. */
  function Checked(c: Config, f: nat, data: seq<byte>): Phase { if c.accepts(f, data) then Done(data) else Rejected }

  function Apply(c: Config, s: State, step: Step): State
    requires Enabled(c, s, step)
  {
    match step
    case Store => s.(store := s.store[s.loaded := Some(c.chunks[s.loaded])], stored := true)
    case Publish => s.(loaded := s.loaded + 1, stored := false)
    case Pass(f) => s.(phases := s.phases[f := Assembling(0, [])])
    case Spin(f) => s
    case Read(f) => s.(phases := s.phases[f := ReadSlot(c, s, f)])
    case Finish(f) => s.(phases := s.phases[f := Checked(c, f, s.phases[f].data)])
  }

  /** The states an interleaving can lead to. */
  ghost predicate Runs(c: Config, steps: seq<Step>, s: State) {
    if steps == [] then s == Init(c) else
    var init, last := steps[..|steps| - 1], steps[|steps| - 1];
    exists prev :: Runs(c, init, prev) && Enabled(c, prev, last) && Apply(c, prev, last) == s
  }

  lemma ExtendRun(c: Config, steps: seq<Step>, s: State, step: Step)
    requires Runs(c, steps, s) && Enabled(c, s, step)
    ensures Runs(c, steps + [step], Apply(c, s, step))
  {
    assert (steps + [step])[..|steps + [step]| - 1] == steps;
  }

  // ---------------------------------------------------------------- safety

  /** The bytes of the chunks with these numbers. */
  function Joined(chunks: seq<seq<byte>>, numbers: seq<nat>): (data: seq<byte>)
    requires forall k :: 0 <= k < |numbers| ==> numbers[k] < |chunks|
  {
    if numbers == [] then []
    else Joined(chunks, numbers[..|numbers| - 1]) + chunks[numbers[|numbers| - 1]]
  }

  ghost predicate PhaseOk(c: Config, loaded: nat, f: nat, p: Phase)
    requires f < |c.files| && InRange(c.files[f], |c.chunks|)
  {
    var numbers := c.files[f];
    match p
    case Waiting => true
    case Assembling(next, data) =>
      next <= |numbers| && Needed(numbers) <= loaded && data == Joined(c.chunks, numbers[..next])
    case Done(data) => data == Joined(c.chunks, numbers) && c.accepts(f, data)
    case Rejected => !c.accepts(f, Joined(c.chunks, numbers))
    case MissingChunk => false
  }

  ghost predicate Inv(c: Config, s: State)
    requires WellFormed(c)
  {
    && |s.store| == |c.chunks| && |s.phases| == |c.files|
    && s.loaded + (if s.stored then 1 else 0) <= |c.chunks|
    && (forall i :: 0 <= i < s.loaded + (if s.stored then 1 else 0) ==> s.store[i] == Some(c.chunks[i]))
    && (forall f :: 0 <= f < |s.phases| ==> PhaseOk(c, s.loaded, f, s.phases[f]))
  }

  lemma ReadKeepsPhase(c: Config, s: State, f: nat)
    requires WellFormed(c) && Inv(c, s) && Enabled(c, s, Read(f))
    ensures PhaseOk(c, s.loaded, f, ReadSlot(c, s, f))
  {
    var p, numbers := s.phases[f], c.files[f];
    assert PhaseOk(c, s.loaded, f, p);
    assert numbers[p.next] <= MaxOf(numbers) < s.loaded;
    assert numbers[..p.next + 1][..p.next] == numbers[..p.next];
  }

  lemma StepKeepsInv(c: Config, s: State, step: Step)
    requires WellFormed(c) && Inv(c, s) && Enabled(c, s, step)
    ensures Inv(c, Apply(c, s, step))
  {
    match step
    case Read(f) => ReadKeepsPhase(c, s, f);
    case Finish(f) =>
      var numbers := c.files[f];
      assert numbers[..|numbers|] == numbers;
    case Publish =>
      forall f | 0 <= f < |s.phases|
        ensures PhaseOk(c, s.loaded + 1, f, s.phases[f])
      {
        assert PhaseOk(c, s.loaded, f, s.phases[f]);
      }
    case _ =>
  }

  lemma {:induction false} RunKeepsInv(c: Config, steps: seq<Step>, s: State)
    requires WellFormed(c) && Runs(c, steps, s)
    ensures Inv(c, s)
    decreases |steps|
  {
    if steps != [] {
      var init, last := steps[..|steps| - 1], steps[|steps| - 1];
      var prev :| Runs(c, init, prev) && Enabled(c, prev, last) && Apply(c, prev, last) == s;
      RunKeepsInv(c, init, prev);
      StepKeepsInv(c, prev, last);
    }
  }

  /**
   * In every interleaving a consumer past its wait finds every chunk it refers to: the missing-chunk branch is
   * never taken. A finished file is the concatenation of its chunks and has its hash; one is skipped only if that
   * concatenation has not.
   */
  lemma RestoreIsSafe(c: Config, steps: seq<Step>, s: State, f: nat)
    requires WellFormed(c) && Runs(c, steps, s) && f < |c.files|
    ensures f < |s.phases| && !s.phases[f].MissingChunk?
    ensures InRange(c.files[f], |c.chunks|)
    ensures s.phases[f].Done? ==> s.phases[f].data == Joined(c.chunks, c.files[f])
    ensures Ended(s.phases[f]) ==> (s.phases[f].Done? <==> c.accepts(f, Joined(c.chunks, c.files[f])))
  {
    RunKeepsInv(c, steps, s);
    assert PhaseOk(c, s.loaded, f, s.phases[f]);
  }

  // ---------------------------------------------------------------- termination

  function Rank(numbers: seq<nat>, p: Phase): nat {
    match p
    case Waiting => |numbers| + 2
    case Assembling(next, _) => if next <= |numbers| then |numbers| - next + 1 else 0
    case _ => 0
  }

  function Ranks(files: seq<seq<nat>>, phases: seq<Phase>): nat
    requires |files| == |phases|
  {
    if files == [] then 0 else Rank(files[0], phases[0]) + Ranks(files[1..], phases[1..])
  }

  /** Everything that is still to be done: two actions per chunk, and each consumer's remaining actions. */
  function Work(c: Config, s: State): int
    requires |c.files| == |s.phases|
  {
    2 * (|c.chunks| - s.loaded) - (if s.stored then 1 else 0) + Ranks(c.files, s.phases)
  }

  lemma {:induction false} RanksUpdate(files: seq<seq<nat>>, phases: seq<Phase>, f: nat, p: Phase)
    requires |files| == |phases| && f < |phases|
    ensures Ranks(files, phases[f := p]) == Ranks(files, phases) - Rank(files[f], phases[f]) + Rank(files[f], p)
  {
    if f > 0 {
      assert phases[f := p][1..] == phases[1..][f - 1 := p];
      RanksUpdate(files[1..], phases[1..], f - 1, p);
    } else {
      assert phases[0 := p][1..] == phases[1..];
    }
  }

  /** Every step but spinning uses up work, so no run can go on for ever without spinning. */
  lemma StepUsesWork(c: Config, s: State, step: Step)
    requires WellFormed(c) && Inv(c, s) && Enabled(c, s, step) && !step.Spin?
    ensures 0 <= Work(c, Apply(c, s, step)) < Work(c, s)
  {
    StepKeepsInv(c, s, step);
    match step
    case Store =>
    case Publish =>
    case Pass(f) => RanksUpdate(c.files, s.phases, f, Assembling(0, []));
    case Read(f) => RanksUpdate(c.files, s.phases, f, ReadSlot(c, s, f));
    case Finish(f) => RanksUpdate(c.files, s.phases, f, Checked(c, f, s.phases[f].data));
  }

  ghost predicate AllDone(s: State) { forall f :: 0 <= f < |s.phases| ==> Ended(s.phases[f]) }

  /** While a file is unfinished some step other than spinning is possible, if the archive has a chunk at all. */
  lemma NeverStuck(c: Config, s: State) returns (step: Step)
    requires WellFormed(c) && Inv(c, s) && !AllDone(s) && |c.chunks| > 0
    ensures Enabled(c, s, step) && !step.Spin?
  {
    if s.stored { return Publish; }
    if s.loaded < |c.chunks| { return Store; }
    var f :| 0 <= f < |s.phases| && !Ended(s.phases[f]);
    var numbers := c.files[f];
    assert PhaseOk(c, s.loaded, f, s.phases[f]);
    if s.phases[f].Waiting? {
      assert MaxOf(numbers) < |c.chunks|;
      step := Pass(f);
    } else if s.phases[f].next < |numbers| {
      step := Read(f);
    } else {
      step := Finish(f);
    }
  }

  /** Once every chunk is loaded no consumer waits any longer. */
  lemma WaitsEnd(c: Config, steps: seq<Step>, s: State, f: nat)
    requires WellFormed(c) && Runs(c, steps, s) && s.loaded == |c.chunks| > 0
    ensures !Enabled(c, s, Spin(f))
  {
    RunKeepsInv(c, steps, s);
  }

  /** A run that cannot go on except by spinning is one in which every chunk is loaded and every file has ended. */
  lemma OnlySpinningIffDone(c: Config, steps: seq<Step>, s: State)
    requires WellFormed(c) && Runs(c, steps, s) && |c.chunks| > 0
    ensures (forall step :: Enabled(c, s, step) ==> step.Spin?) <==> AllDone(s) && s.loaded == |c.chunks|
  {
    RunKeepsInv(c, steps, s);
    if forall step :: Enabled(c, s, step) ==> step.Spin? {
      if !AllDone(s) { var step := NeverStuck(c, s); }
      assert !Enabled(c, s, Store) && !Enabled(c, s, Publish);
    }
  }

  /** How many steps of a run are not spinning. */
  function Moves(steps: seq<Step>): nat {
    if steps == [] then 0 else Moves(steps[..|steps| - 1]) + if steps[|steps| - 1].Spin? then 0 else 1
  }

  /** However the threads interleave, they make no more steps than there was work at the start. */
  lemma {:induction false} RunIsBounded(c: Config, steps: seq<Step>, s: State)
    requires WellFormed(c) && Runs(c, steps, s)
    ensures |s.phases| == |c.files| && Moves(steps) + Work(c, s) <= Work(c, Init(c))
    decreases |steps|
  {
    if steps != [] {
      var init, last := steps[..|steps| - 1], steps[|steps| - 1];
      var prev :| Runs(c, init, prev) && Enabled(c, prev, last) && Apply(c, prev, last) == s;
      RunIsBounded(c, init, prev);
      RunKeepsInv(c, init, prev);
      StepKeepsInv(c, prev, last);
      if !last.Spin? { StepUsesWork(c, prev, last); }
    }
  }

  /** The steps lead from one state to another. */
  ghost predicate Leads(c: Config, s: State, steps: seq<Step>, last: State)
    decreases |steps|
  {
    if steps == [] then last == s
    else Enabled(c, s, steps[0]) && Leads(c, Apply(c, s, steps[0]), steps[1..], last)
  }

  /** Whatever grows step by step, as runs do, grows along such steps. */
  lemma {:induction false} RunOn(c: Config, runs: (seq<Step>, State) -> bool, steps: seq<Step>, s: State,
                                 more: seq<Step>, last: State)
    requires runs(steps, s) && Leads(c, s, more, last)
    requires forall before, t, step ::
               runs(before, t) && Enabled(c, t, step) ==> runs(before + [step], Apply(c, t, step))
    ensures runs(steps + more, last)
    decreases |more|
  {
    if more == [] {
      assert steps + [] == steps;
    } else {
      RunOn(c, runs, steps + [more[0]], Apply(c, s, more[0]), more[1..], last);
      assert steps + [more[0]] + more[1..] == steps + more;
    }
  }

  lemma {:induction false} LeadsToEnd(c: Config, s: State) returns (more: seq<Step>, last: State)
    requires WellFormed(c) && |c.chunks| > 0 && Inv(c, s)
    ensures Leads(c, s, more, last) && AllDone(last)
    decreases WorkLeft(c, s)
  {
    if AllDone(s) {
      more, last := [], s;
    } else {
      var step := NeverStuck(c, s);
      StepUsesWork(c, s, step);
      StepKeepsInv(c, s, step);
      var rest;
      rest, last := LeadsToEnd(c, Apply(c, s, step));
      more := [step] + rest;
      assert more[1..] == rest;
    }
  }

  /** From any reachable state the restore can be driven to the end. */
  lemma CanFinish(c: Config, steps: seq<Step>, s: State) returns (more: seq<Step>, last: State)
    requires WellFormed(c) && |c.chunks| > 0 && Runs(c, steps, s)
    ensures Runs(c, steps + more, last) && AllDone(last)
  {
    RunKeepsInv(c, steps, s);
    more, last := LeadsToEnd(c, s);
    forall before, t, step | Runs(c, before, t) && Enabled(c, t, step)
      ensures Runs(c, before + [step], Apply(c, t, step))
    {
      ExtendRun(c, before, t, step);
    }
    RunOn(c, (before, t) => Runs(c, before, t), steps, s, more, last);
  }

  ghost function WorkLeft(c: Config, s: State): nat {
    if |c.files| == |s.phases| && Work(c, s) >= 0 then Work(c, s) else 0
  }

  /** An archive without chunks: a consumer waits for a first chunk that never comes, whatever the interleaving. */
  lemma {:induction false} NoChunksNoEnd(c: Config, steps: seq<Step>, s: State, f: nat)
    requires WellFormed(c) && |c.chunks| == 0 && Runs(c, steps, s) && f < |c.files|
    ensures f < |s.phases| && s.phases[f].Waiting? && s.loaded == 0
    decreases |steps|
  {
    if steps != [] {
      var init, last := steps[..|steps| - 1], steps[|steps| - 1];
      var prev :| Runs(c, init, prev) && Enabled(c, prev, last) && Apply(c, prev, last) == s;
      RunKeepsInv(c, init, prev);
      NoChunksNoEnd(c, init, prev, f);
      match last
      case Read(g) => NoChunksNoEnd(c, init, prev, g);
      case Finish(g) => NoChunksNoEnd(c, init, prev, g);
      case _ =>
    }
  }

  /** A restore can end exactly when the archive has a chunk or no file. */
  lemma EndsIffSomeChunk(c: Config)
    requires WellFormed(c)
    ensures (exists steps, last :: Runs(c, steps, last) && AllDone(last)) <==> |c.chunks| > 0 || c.files == []
  {
    assert Runs(c, [], Init(c));
    if |c.chunks| > 0 {
      var more, last := CanFinish(c, [], Init(c));
      assert Runs(c, [] + more, last);
    } else if c.files == [] {
      assert AllDone(Init(c));
    } else {
      forall steps, last | Runs(c, steps, last)
        ensures !AllDone(last)
      {
        NoChunksNoEnd(c, steps, last, 0);
      }
    }
  }

  // ---------------------------------------------------------------- together with the archive

  function NumbersOf(rows: seq<ManifestEntry>): (r: seq<seq<nat>>)
    ensures |r| == |rows| && forall f :: 0 <= f < |r| ==> r[f] == rows[f].chunks
  {
    if rows == [] then [] else [rows[0].chunks] + NumbersOf(rows[1..])
  }

  /** All compressed chunks, read by their stored offsets. */
  function RawChunks(a: seq<byte>, index: seq<Entry>): Result<seq<seq<byte>>> {
    if index == [] then Ok([]) else
    var first :- ReadExact(a, index[0].offset, index[0].compressedSize);
    var rest :- RawChunks(a, index[1..]);
    Ok([first] + rest)
  }

  /** The producer's decoding: a chunk that cannot be decompressed becomes empty. */
  function DecodedChunk(env: Env, flags: nat, raw: seq<byte>): seq<byte> {
    var r := DecompressChunk(env.codecs, flags, raw);
    if r.Ok? then r.value else []
  }

  function DecodedChunks(env: Env, flags: nat, raws: seq<seq<byte>>): (r: seq<seq<byte>>)
    ensures |r| == |raws| && forall k :: 0 <= k < |r| ==> r[k] == DecodedChunk(env, flags, raws[k])
  {
    if raws == [] then [] else [DecodedChunk(env, flags, raws[0])] + DecodedChunks(env, flags, raws[1..])
  }

  /** What the restore reads from the archive before producer and consumers set off. */
  function Plan(env: Env, a: seq<byte>): Result<Config> {
    var h :- Open(a);
    var m :- ManifestAt(env, a, h.manifestOffset, h.flags);
    var index :- IndexAt(a, h.indexOffset, h.chunkCount);
    var raws :- RawChunks(a, index);
    var rows := m.0.files;
    Ok(Config(DecodedChunks(env, h.flags, raws), NumbersOf(rows),
              (f: nat, data: seq<byte>) => f < |rows| && env.hash(data) == rows[f].hash))
  }

  lemma {:induction false} JoinedIsConcat(store: seq<seq<byte>>, numbers: seq<nat>, chunks: seq<seq<byte>>)
    requires LeadsTo(store, numbers, chunks)
    ensures Joined(store, numbers) == Concat(chunks)
    decreases |numbers|
  {
    if numbers != [] {
      var n := |numbers| - 1;
      JoinedIsConcat(store, numbers[..n], chunks[..n]);
      assert chunks == chunks[..n] + [chunks[n]];
      ConcatAppend(chunks[..n], [chunks[n]]);
      ConcatOne(chunks[n]);
    }
  }

  /** A raw read and the producer's decoding find the chunk. */
  ghost predicate Decodes(env: Env, a: seq<byte>, flags: nat, e: Entry, chunk: seq<byte>) {
    var raw := ReadExact(a, e.offset, e.compressedSize);
    raw.Ok? && DecodedChunk(env, flags, raw.value) == chunk
  }

  lemma FetchDecodes(env: Env, a: seq<byte>, flags: nat, e: Entry, chunk: seq<byte>)
    requires ChunkAt(env, a, flags, e.offset, e) == Ok(chunk)
    ensures Decodes(env, a, flags, e, chunk)
  {
  }

  lemma {:induction false} AllDecode(env: Env, a: seq<byte>, flags: nat, index: seq<Entry>, store: seq<seq<byte>>)
    requires |index| == |store| && forall k :: 0 <= k < |index| ==> Decodes(env, a, flags, index[k], store[k])
    ensures RawChunks(a, index).Ok? && DecodedChunks(env, flags, RawChunks(a, index).value) == store
    decreases |index|
  {
    if index != [] {
      assert Decodes(env, a, flags, index[0], store[0]);
      AllDecode(env, a, flags, index[1..], store[1..]);
      var raw, raws := ReadExact(a, index[0].offset, index[0].compressedSize), RawChunks(a, index[1..]);
      RawCons(a, index, raw.value, raws.value);
      DecodedCons(env, flags, raw.value, raws.value);
      assert store == [store[0]] + store[1..];
    }
  }

  lemma RawCons(a: seq<byte>, index: seq<Entry>, raw: seq<byte>, raws: seq<seq<byte>>)
    requires index != [] && ReadExact(a, index[0].offset, index[0].compressedSize) == Ok(raw)
    requires RawChunks(a, index[1..]) == Ok(raws)
    ensures RawChunks(a, index) == Ok([raw] + raws)
  {
  }

  lemma DecodedCons(env: Env, flags: nat, raw: seq<byte>, raws: seq<seq<byte>>)
    ensures DecodedChunks(env, flags, [raw] + raws) == [DecodedChunk(env, flags, raw)] + DecodedChunks(env, flags, raws)
  {
    assert ([raw] + raws)[1..] == raws;
  }

  /** The plan for an archive that holds an export: the original chunks, decoded, and the manifest's rows. */
  ghost predicate PlanOf(env: Env, t: Tables, store: seq<seq<byte>>, c: Config) {
    && c.chunks == store && c.files == NumbersOf(t.manifest.files)
    && forall f: nat, data ::
         c.accepts(f, data) <==> f < |t.manifest.files| && env.hash(data) == t.manifest.files[f].hash
  }

  lemma ArchivePlan(env: Env, files: seq<File>, t: Tables, store: seq<seq<byte>>)
    requires Exported(env, files, t) && Contents(env, files, t, store)
    ensures var plan := Plan(env, SeekableArchive(env, t));
            if Readable(env.setting, |env.json(t.manifest)|) then plan.Ok? && PlanOf(env, t, store, plan.value)
            else plan == Err(BadCompression)
  {
    var h, a := FinalHeader(env, t), SeekableArchive(env, t);
    NoTail(env, t);
    HeadersFit(env, t);
    HeaderReads(env, t, h, []);
    ArchiveHolds(env, t, h, []);
    ManifestReads(env, t, a);
    if Readable(env.setting, |env.json(t.manifest)|) {
      IndexReads(env, t, a);
      IndexIsDecoded(env, files, t, a, store);
      PlanBy(env, a, h, t, |ManifestBlob(env, t)|, PlacedIndex(env, t), store);
    } else {
      NoPlanBy(env, a, h);
    }
  }

  lemma IndexIsDecoded(env: Env, files: seq<File>, t: Tables, a: seq<byte>, store: seq<seq<byte>>)
    requires Exported(env, files, t) && Contents(env, files, t, store) && Holds(env, t, a)
    requires CompressFlag(env.setting) != FLAG_XZ
    ensures var raws := RawChunks(a, PlacedIndex(env, t));
            raws.Ok? && DecodedChunks(env, CompressFlag(env.setting), raws.value) == store
  {
    ArchiveServes(env, files, t, a, store);
    var index, fetch := PlacedIndex(env, t), FetchFrom(env, a, CompressFlag(env.setting));
    forall k | 0 <= k < |index| ensures Decodes(env, a, CompressFlag(env.setting), index[k], store[k]) {
      assert fetch(index[k].offset, index[k]) == Ok(store[k]);
      FetchDecodes(env, a, CompressFlag(env.setting), index[k], store[k]);
    }
    AllDecode(env, a, CompressFlag(env.setting), index, store);
  }

  lemma PlanBy(env: Env, a: seq<byte>, h: Header, t: Tables, n: nat, index: seq<Entry>, store: seq<seq<byte>>)
    requires Open(a) == Ok(h) && ManifestAt(env, a, h.manifestOffset, h.flags) == Ok((t.manifest, n))
    requires IndexAt(a, h.indexOffset, h.chunkCount) == Ok(index)
    requires RawChunks(a, index).Ok? && DecodedChunks(env, h.flags, RawChunks(a, index).value) == store
    ensures Plan(env, a).Ok? && PlanOf(env, t, store, Plan(env, a).value)
  {
  }

  lemma NoPlanBy(env: Env, a: seq<byte>, h: Header)
    requires Open(a) == Ok(h) && ManifestAt(env, a, h.manifestOffset, h.flags) == Err(BadCompression)
    ensures Plan(env, a) == Err(BadCompression)
  {
  }

  /** A plan made of an export is well formed, and its files put together are the originals, with their hashes. */
  lemma PlanIsOriginal(env: Env, files: seq<File>, t: Tables, store: seq<seq<byte>>, c: Config, f: nat)
    requires Exported(env, files, t) && Contents(env, files, t, store) && PlanOf(env, t, store, c) && f < |files|
    ensures |c.files| == |files| && InRange(c.files[f], |c.chunks|)
    ensures Joined(c.chunks, c.files[f]) == files[f].data && c.accepts(f, files[f].data)
  {
    RowsKeepPaths(env, files, t);
    RowContents(env, files, t, store, f);
    JoinedIsConcat(store, c.files[f], env.chunks(files[f].data));
    assert Splits(env.chunks(files[f].data), files[f].data);
  }

  /**
   * Restoring a seekable archive in parallel, from its bytes: if the manifest is readable there is a plan, and in
   * every interleaving no chunk is missing, no file is skipped, every file that ends has its original bytes, and
   * all can end exactly when there is a chunk or no file. Otherwise the restore fails before it begins.
   */
  lemma ParallelRoundTrip(env: Env, files: seq<File>, t: Tables)
    requires Exported(env, files, t)
    ensures var plan := Plan(env, SeekableArchive(env, t));
            if !Readable(env.setting, |env.json(t.manifest)|) then plan == Err(BadCompression)
            else
              && plan.Ok? && WellFormed(plan.value)
              && (forall steps, s, f: nat :: Runs(plan.value, steps, s) && f < |files| ==>
                    Restores(s, f, files[f].data))
              && ((exists steps, last :: Runs(plan.value, steps, last) && AllDone(last))
                  <==> t.entries != [] || files == [])
  {
    var store := StoreContents(env, files, t);
    ArchivePlan(env, files, t, store);
    if Readable(env.setting, |env.json(t.manifest)|) {
      var c := Plan(env, SeekableArchive(env, t)).value;
      RowsKeepPaths(env, files, t);
      forall f | 0 <= f < |c.files| ensures InRange(c.files[f], |c.chunks|) {
        PlanIsOriginal(env, files, t, store, c, f);
      }
      forall steps, s, f: nat | Runs(c, steps, s) && f < |files| ensures Restores(s, f, files[f].data) {
        PlanIsOriginal(env, files, t, store, c, f);
        RestoreIsSafe(c, steps, s, f);
      }
      EndsIffSomeChunk(c);
    }
  }

  /** The file is still being restored, or is restored to these bytes. */
  ghost predicate Restores(s: State, f: nat, data: seq<byte>) {
    && f < |s.phases| && !s.phases[f].MissingChunk? && !s.phases[f].Rejected?
    && (s.phases[f].Done? ==> s.phases[f].data == data)
  }
}
