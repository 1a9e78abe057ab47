/** The two readers of an FXAR v2 archive: random access by stored offsets, and one pass over a stream. */
module FxarReader {
  import opened Bytes
  import opened FxarFormat
  import opened FxarWriter
  import LE = LittleEndian

  function ReadExact(a: seq<byte>, at: nat, n: nat): Result<seq<byte>> {
    if at + n <= |a| then Ok(a[at..at + n]) else Err(UnexpectedEof)
  }

  function Open(a: seq<byte>): Result<Header> {
    var s :- ReadExact(a, 0, HEADER_SIZE);
    var h :- DecodeHeader(s);
    if h.version != VERSION then Err(BadVersion) else Ok(h)
  }

  /** The manifest record at an offset, with the length of its compressed form. */
  function ManifestAt(env: Env, a: seq<byte>, at: nat, flags: nat): Result<(Manifest, nat)> {
    var size :- ReadExact(a, at, 8);
    var _ :- ReadExact(a, at + 8, 8);
    var compressed :- ReadExact(a, at + 16, LE.Decode(size));
    var json :- DecompressChunk(env.codecs, flags, compressed);
    var m := env.unjson(json);
    if m.None? then Err(BadManifest) else Ok((m.value, LE.Decode(size)))
  }

  function IndexAt(a: seq<byte>, at: nat, n: nat): Result<seq<Entry>> {
    var s :- ReadExact(a, at, ENTRY_SIZE * n);
    Ok(DecodeIndex(s, n))
  }

  /** One chunk, decompressed and checked against its hash. */
  function ChunkAt(env: Env, a: seq<byte>, flags: nat, at: nat, e: Entry): Result<seq<byte>> {
    var compressed :- ReadExact(a, at, e.compressedSize);
    var data :- DecompressChunk(env.codecs, flags, compressed);
    if env.hash(data) != e.hash then Err(HashMismatch) else Ok(data)
  }

  /** How one chunk is fetched: from an offset, for an index entry. */
  type Fetch = (nat, Entry) -> Result<seq<byte>>

  function FetchFrom(env: Env, a: seq<byte>, flags: nat): Fetch {
    (at: nat, e: Entry) => ChunkAt(env, a, flags, at, e)
  }

  // ---------------------------------------------------------------- random access

  function Assembled(fetch: Fetch, index: seq<Entry>, numbers: seq<nat>): Result<seq<byte>> {
    if numbers == [] then Ok([])
    else if numbers[0] >= |index| then Err(IndexPanic)
    else
      var first :- fetch(index[numbers[0]].offset, index[numbers[0]]);
      var rest :- Assembled(fetch, index, numbers[1..]);
      Ok(first + rest)
  }

  function RowOf(rows: seq<ManifestEntry>, path: string): Result<ManifestEntry> {
    if rows == [] then Err(NotFound) else if rows[0].path == path then Ok(rows[0]) else RowOf(rows[1..], path)
  }

  function RestoredFile(env: Env, a: seq<byte>, path: string): Result<seq<byte>> {
    var h :- Open(a);
    var m :- ManifestAt(env, a, h.manifestOffset, h.flags);
    var index :- IndexAt(a, h.indexOffset, h.chunkCount);
    var row :- RowOf(m.0.files, path);
    var data :- Assembled(FetchFrom(env, a, h.flags), index, row.chunks);
    if env.hash(data) != row.hash then Err(HashMismatch) else Ok(data)
  }

  /** What was read so far, followed by what remains to be read. */
  function Joined<T>(done: seq<T>, rest: Result<seq<T>>): Result<seq<T>> {
    if rest.Err? then rest else Ok(done + rest.value)
  }

  lemma JoinedSteps<T>(a: seq<T>, b: seq<T>, rest: Result<seq<T>>)
    ensures Joined([], rest) == rest && Joined(a, Joined(b, rest)) == Joined(a + b, rest)
  {
    if rest.Ok? {
      assert [] + rest.value == rest.value;
      assert a + (b + rest.value) == a + b + rest.value;
    }
  }

  lemma AssembledStep(fetch: Fetch, index: seq<Entry>, numbers: seq<nat>, i: nat)
    requires i < |numbers|
    ensures var r := Assembled(fetch, index, numbers[i..]);
            if numbers[i] >= |index| then r == Err(IndexPanic)
            else var c := fetch(index[numbers[i]].offset, index[numbers[i]]);
                 if c.Err? then r == Err(c.error)
                 else r == Joined(c.value, Assembled(fetch, index, numbers[i + 1..]))
  {
    assert numbers[i..][1..] == numbers[i + 1..];
  }

  /** The chunk loop of `restore_file`: seek, read, verify, append. */
  method Assemble(fetch: Fetch, index: seq<Entry>, numbers: seq<nat>)
      returns (r: Result<seq<byte>>)
    ensures r == Assembled(fetch, index, numbers)
  {
    var data: seq<byte> := [];
    assert numbers[0..] == numbers;
    JoinedSteps([], [], Assembled(fetch, index, numbers));
    for i := 0 to |numbers|
      invariant Joined(data, Assembled(fetch, index, numbers[i..])) == Assembled(fetch, index, numbers)
    {
      AssembledStep(fetch, index, numbers, i);
      if numbers[i] >= |index| { return Err(IndexPanic); }
      var chunk := fetch(index[numbers[i]].offset, index[numbers[i]]);
      if chunk.Err? { return Err(chunk.error); }
      JoinedSteps(data, chunk.value, Assembled(fetch, index, numbers[i + 1..]));
      data := data + chunk.value;
    }
    assert data + [] == data;
    r := Ok(data);
  }

  method RestoreFile(env: Env, a: seq<byte>, path: string) returns (r: Result<seq<byte>>)
    ensures r == RestoredFile(env, a, path)
  {
    var h :- Open(a);
    var m :- ManifestAt(env, a, h.manifestOffset, h.flags);
    var index :- IndexAt(a, h.indexOffset, h.chunkCount);
    var row :- RowOf(m.0.files, path);
    var data :- Assemble(FetchFrom(env, a, h.flags), index, row.chunks);
    if env.hash(data) != row.hash { return Err(HashMismatch); }
    r := Ok(data);
  }

  // ---------------------------------------------------------------- streaming

  /** All chunks in file order: the stored offsets play no part. */
  function Loaded(fetch: Fetch, index: seq<Entry>, at: nat): Result<seq<seq<byte>>> {
    if index == [] then Ok([]) else
    var first :- fetch(at, index[0]);
    var rest :- Loaded(fetch, index[1..], at + index[0].compressedSize);
    Ok([first] + rest)
  }

  function FromStore(store: seq<seq<byte>>, numbers: seq<nat>): Result<seq<byte>> {
    if numbers == [] then Ok([])
    else if numbers[0] >= |store| then Err(IndexPanic)
    else
      var rest :- FromStore(store, numbers[1..]);
      Ok(store[numbers[0]] + rest)
  }

  /** The files written: a file whose hash does not match is skipped. */
  function Rebuilt(env: Env, store: seq<seq<byte>>, rows: seq<ManifestEntry>): Result<Files> {
    if rows == [] then Ok([]) else
    var data :- FromStore(store, rows[0].chunks);
    var rest :- Rebuilt(env, store, rows[1..]);
    Ok([(rows[0].path, if env.hash(data) == rows[0].hash then Some(data) else None)] + rest)
  }

  type Files = seq<(string, Option<seq<byte>>)>

  function Imported(env: Env, a: seq<byte>): Result<Files> {
    var h :- Open(a);
    ImportedBehind(env, a, h)
  }

  /** The manifest is taken to follow the header, whatever offset the header gives. */
  function ImportedBehind(env: Env, a: seq<byte>, h: Header): Result<Files> {
    var m :- ManifestAt(env, a, HEADER_SIZE, h.flags);
    ImportedAt(env, a, HEADER_SIZE + 16 + m.1, h.chunkCount, FetchFrom(env, a, h.flags), m.0.files)
  }

  /** The chunk index at an offset, the chunks right behind it, and the files made of them. */
  function ImportedAt(env: Env, a: seq<byte>, at: nat, count: nat, fetch: Fetch,
      rows: seq<ManifestEntry>): Result<Files> {
    var index :- IndexAt(a, at, count);
    var store :- Loaded(fetch, index, at + ENTRY_SIZE * count);
    Rebuilt(env, store, rows)
  }

  lemma LoadedStep(fetch: Fetch, index: seq<Entry>, i: nat, at: nat)
    requires i < |index|
    ensures var r, c := Loaded(fetch, index[i..], at), fetch(at, index[i]);
            if c.Err? then r == Err(c.error)
            else r == Joined([c.value], Loaded(fetch, index[i + 1..], at + index[i].compressedSize))
  {
    assert index[i..][1..] == index[i + 1..];
  }

  /** Reading all chunk data into memory, one after the other. */
  method LoadChunks(fetch: Fetch, index: seq<Entry>, start: nat)
      returns (r: Result<seq<seq<byte>>>)
    ensures r == Loaded(fetch, index, start)
  {
    var store: seq<seq<byte>> := [];
    var at: nat := start;
    assert index[0..] == index;
    JoinedSteps([], [], Loaded(fetch, index, start));
    for i := 0 to |index|
      invariant Joined(store, Loaded(fetch, index[i..], at)) == Loaded(fetch, index, start)
    {
      LoadedStep(fetch, index, i, at);
      var chunk := fetch(at, index[i]);
      if chunk.Err? { return Err(chunk.error); }
      JoinedSteps(store, [chunk.value], Loaded(fetch, index[i + 1..], at + index[i].compressedSize));
      store := store + [chunk.value];
      at := at + index[i].compressedSize;
    }
    assert store + [] == store;
    r := Ok(store);
  }
}
