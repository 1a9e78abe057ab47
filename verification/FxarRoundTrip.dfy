/** What the two readers make of what the writer wrote. */
module FxarRoundTrip {
  import opened Bytes
  import opened FxarFormat
  import opened FxarWriter
  import opened FxarReader
  import LE = LittleEndian

  // ---------------------------------------------------------------- where the records lie

  lemma Slice(pre: seq<byte>, mid: seq<byte>, post: seq<byte>)
    ensures ReadExact(pre + mid + post, |pre|, |mid|) == Ok(mid)
  {
  }

  /** Reading inside a stretch that is known. */
  lemma Inside(a: seq<byte>, at: nat, s: seq<byte>, off: nat, n: nat)
    requires ReadExact(a, at, |s|) == Ok(s) && off + n <= |s|
    ensures ReadExact(a, at + off, n) == Ok(s[off..off + n])
  {
    var x, y := a[at + off..at + off + n], s[off..off + n];
    assert s == a[at..at + |s|];
    forall i | 0 <= i < n
      ensures x[i] == y[i]
    {
    }
    assert x == y;
  }

  lemma ThreeParts(top: seq<byte>, x: seq<byte>, y: seq<byte>, z: seq<byte>, tail: seq<byte>)
    ensures var a := top + (x + y + z) + tail;
            && ReadExact(a, |top|, |x|) == Ok(x)
            && ReadExact(a, |top| + |x|, |y|) == Ok(y)
            && ReadExact(a, |top| + |x| + |y|, |z|) == Ok(z)
  {
    var body := x + y + z;
    var a := top + body + tail;
    Slice(top, body, tail);
    assert body[0..|x|] == x && body[|x|..|x| + |y|] == y && body[|x| + |y|..|x| + |y| + |z|] == z;
    Inside(a, |top|, body, 0, |x|);
    Inside(a, |top|, body, |x|, |y|);
    Inside(a, |top|, body, |x| + |y|, |z|);
  }

  /** An archive as written, with any header and anything after the blobs. */
  function Archive(env: Env, t: Tables, h: Header, tail: seq<byte>): seq<byte>
    requires |t.entries| == |t.blobs|
  {
    EncodeHeader(h) + Body(env, t) + tail
  }

  /** Manifest record, index and blobs lie where the readers will look for them. */
  ghost predicate LaidOut(a: seq<byte>, record: seq<byte>, index: seq<byte>, data: seq<byte>) {
    && ReadExact(a, HEADER_SIZE, |record|) == Ok(record)
    && ReadExact(a, HEADER_SIZE + |record|, |index|) == Ok(index)
    && ReadExact(a, HEADER_SIZE + |record| + |index|, |data|) == Ok(data)
  }

  ghost predicate Holds(env: Env, t: Tables, a: seq<byte>)
    requires |t.entries| == |t.blobs|
  {
    LaidOut(a, ManifestRecord(env, t), EncodeIndex(PlacedIndex(env, t)), Concat(t.blobs))
  }

  lemma ArchiveHolds(env: Env, t: Tables, h: Header, tail: seq<byte>)
    requires |t.entries| == |t.blobs|
    ensures Holds(env, t, Archive(env, t, h, tail))
  {
    ThreeParts(EncodeHeader(h), ManifestRecord(env, t), EncodeIndex(PlacedIndex(env, t)), Concat(t.blobs), tail);
  }

  lemma HeaderReads(env: Env, t: Tables, h: Header, tail: seq<byte>)
    requires |t.entries| == |t.blobs| && HeaderFits(h) && h.version == VERSION
    ensures Open(Archive(env, t, h, tail)) == Ok(h)
  {
    TopPart(EncodeHeader(h), Body(env, t), tail);
    HeaderRoundTrip(h);
  }

  lemma TopPart(top: seq<byte>, body: seq<byte>, tail: seq<byte>)
    ensures ReadExact(top + body + tail, 0, |top|) == Ok(top)
  {
    var a := top + body + tail;
    assert a[0..|top|] == top;
  }

  // ---------------------------------------------------------------- manifest and index

  /** Offsets fit 64 bits and every chunk and blob length 32. */
  ghost predicate Fits(env: Env, t: Tables) {
    && |t.entries| == |t.blobs|
    && DataStart(env, t) + |Concat(t.blobs)| < WORD
    && forall i :: 0 <= i < |t.blobs| ==>
         t.entries[i].compressedSize == |t.blobs[i]| < U32 && t.entries[i].size < U32
  }

  lemma HeadersFit(env: Env, t: Tables)
    requires Fits(env, t)
    ensures HeaderFits(FinalHeader(env, t)) && HeaderFits(NewHeader(env, t))
  {
  }

  lemma RecordParts(x: seq<byte>, y: seq<byte>, z: seq<byte>)
    requires |x| == |y| == 8
    ensures var s := x + y + z; s[0..8] == x && s[8..16] == y && s[16..16 + |z|] == z
  {
  }

  lemma RecordLies(a: seq<byte>, at: nat, x: seq<byte>, y: seq<byte>, z: seq<byte>)
    requires |x| == |y| == 8 && ReadExact(a, at, |x + y + z|) == Ok(x + y + z)
    ensures ReadExact(a, at, 8) == Ok(x) && ReadExact(a, at + 8, 8) == Ok(y) && ReadExact(a, at + 16, |z|) == Ok(z)
  {
    RecordParts(x, y, z);
    Inside(a, at, x + y + z, 0, 8);
    Inside(a, at, x + y + z, 8, 8);
    Inside(a, at, x + y + z, 16, |z|);
  }

  lemma ManifestBy(env: Env, a: seq<byte>, at: nat, flags: nat, x: seq<byte>, y: seq<byte>, z: seq<byte>)
    requires ReadExact(a, at, 8) == Ok(x) && ReadExact(a, at + 8, 8) == Ok(y)
    requires ReadExact(a, at + 16, |z|) == Ok(z) && LE.Decode(x) == |z|
    ensures var json := DecompressChunk(env.codecs, flags, z);
            ManifestAt(env, a, at, flags)
            == if json.Err? then Err(json.error)
               else if env.unjson(json.value).None? then Err(BadManifest)
               else Ok((env.unjson(json.value).value, |z|))
  {
  }

  /** The manifest comes back exactly when its JSON is readable under the setting. */
  lemma ManifestReads(env: Env, t: Tables, a: seq<byte>)
    requires Lawful(env) && Fits(env, t) && Holds(env, t, a)
    ensures ManifestAt(env, a, HEADER_SIZE, CompressFlag(env.setting))
            == if Readable(env.setting, |env.json(t.manifest)|)
               then Ok((t.manifest, |ManifestBlob(env, t)|)) else Err(BadCompression)
  {
    var json, z := env.json(t.manifest), ManifestBlob(env, t);
    var x, y := LE.Encode(|z|, 8), LE.Encode(|json|, 8);
    RecordLies(a, HEADER_SIZE, x, y, z);
    assert LE.Decode(x) == |z| by {
      LE.WordSizes();
      LE.DecodeEncode(|z|, 8);
    }
    ManifestBy(env, a, HEADER_SIZE, CompressFlag(env.setting), x, y, z);
    CompressRoundTrip(env.codecs, env.setting, json);
    assert env.unjson(json) == Some(t.manifest);
  }

  lemma {:induction false} PlaceAt(es: seq<Entry>, blobs: seq<seq<byte>>, at: nat, k: nat)
    requires |es| == |blobs| && k < |es|
    ensures Place(es, blobs, at)[k] == es[k].(offset := at + |Concat(blobs[..k])|)
  {
    if k > 0 {
      PlaceAt(es[1..], blobs[1..], at + |blobs[0]|, k - 1);
      assert blobs[..k][1..] == blobs[1..][..k - 1];
    }
  }

  lemma PlacedFits(env: Env, t: Tables)
    requires Fits(env, t)
    ensures forall k :: 0 <= k < |t.entries| ==> EntryFits(PlacedIndex(env, t)[k])
  {
    forall k | 0 <= k < |t.entries|
      ensures EntryFits(PlacedIndex(env, t)[k])
    {
      PlaceAt(t.entries, t.blobs, DataStart(env, t), k);
      ConcatPart(t.blobs, k);
    }
  }

  lemma IndexReads(env: Env, t: Tables, a: seq<byte>)
    requires Fits(env, t) && Holds(env, t, a)
    ensures IndexAt(a, IndexStart(env, t), |t.entries|) == Ok(PlacedIndex(env, t))
  {
    PlacedFits(env, t);
    IndexRoundTrip(PlacedIndex(env, t));
  }

  // ---------------------------------------------------------------- chunks

  /** Every chunk of every file. */
  ghost function AllChunks(env: Env, files: seq<File>): set<seq<byte>> {
    set i, j | 0 <= i < |files| && 0 <= j < |env.chunks(files[i].data)| :: env.chunks(files[i].data)[j]
  }

  lemma ChunkIsSmall(env: Env, files: seq<File>, c: seq<byte>)
    requires Lawful(env) && c in AllChunks(env, files)
    ensures |c| <= CHUNK_MAX
  {
    var i, j :| 0 <= i < |files| && 0 <= j < |env.chunks(files[i].data)| && env.chunks(files[i].data)[j] == c;
    assert Splits(env.chunks(files[i].data), files[i].data);
  }

  ghost predicate IsPieceOf(env: Env, files: seq<File>, p: Piece) {
    exists c :: c in AllChunks(env, files) && p == PieceOf(env, c)
  }

  ghost predicate ArePieces(env: Env, files: seq<File>, us: seq<Piece>) {
    forall k :: 0 <= k < |us| ==> IsPieceOf(env, files, us[k])
  }

  lemma {:induction false} PieceHasFile(ps: seq<Processed>, p: Piece)
    requires p in AllPieces(ps)
    ensures exists i :: 0 <= i < |ps| && p in ps[i].pieces
  {
    var n := |ps| - 1;
    if p !in ps[n].pieces {
      PieceHasFile(ps[..n], p);
      var i :| 0 <= i < n && p in ps[..n][i].pieces;
      assert p in ps[i].pieces;
    }
  }

  lemma UniqueArePieces(env: Env, files: seq<File>)
    ensures ArePieces(env, files, Unique(AllPieces(ProcessAll(env, files))))
  {
    var ps := ProcessAll(env, files);
    var us := Unique(AllPieces(ps));
    UniqueRepresents(AllPieces(ps));
    forall k | 0 <= k < |us|
      ensures IsPieceOf(env, files, us[k])
    {
      PieceHasFile(ps, us[k]);
      var i :| 0 <= i < |ps| && us[k] in ps[i].pieces;
      var j :| 0 <= j < |ps[i].pieces| && ps[i].pieces[j] == us[k];
      assert env.chunks(files[i].data)[j] in AllChunks(env, files);
    }
  }

  ghost function OriginOf(env: Env, files: seq<File>, p: Piece): (c: seq<byte>)
    requires IsPieceOf(env, files, p)
    ensures c in AllChunks(env, files) && p == PieceOf(env, c)
  {
    var c :| c in AllChunks(env, files) && p == PieceOf(env, c);
    c
  }

  ghost function OriginsOf(env: Env, files: seq<File>, us: seq<Piece>): (cs: seq<seq<byte>>)
    requires forall k :: 0 <= k < |us| ==> IsPieceOf(env, files, us[k])
    ensures |cs| == |us|
    ensures forall k :: 0 <= k < |us| ==> cs[k] in AllChunks(env, files) && us[k] == PieceOf(env, cs[k])
  {
    if us == [] then [] else [OriginOf(env, files, us[0])] + OriginsOf(env, files, us[1..])
  }

  /** The contents of the chunk table: for each number a chunk of the input, its lengths modulo 2^32. */
  ghost predicate Contents(env: Env, files: seq<File>, t: Tables, store: seq<seq<byte>>) {
    && |store| == |t.entries| == |t.blobs|
    && forall k :: 0 <= k < |store| ==>
         && store[k] in AllChunks(env, files) && t.blobs[k] == CompressChunk(env.codecs, env.setting, store[k])
         && t.entries[k] == Entry(env.hash(store[k]), |store[k]| % 0x1_0000_0000, 0, |t.blobs[k]| % 0x1_0000_0000)
  }

  lemma OriginsAreContents(env: Env, files: seq<File>, t: Tables, us: seq<Piece>, store: seq<seq<byte>>)
    requires Stores(t.entries, t.blobs, us) && |store| == |us|
    requires forall k :: 0 <= k < |us| ==> store[k] in AllChunks(env, files) && us[k] == PieceOf(env, store[k])
    ensures Contents(env, files, t, store)
  {
    forall k | 0 <= k < |store|
      ensures t.entries[k] == Entry(env.hash(store[k]), |store[k]| % 0x1_0000_0000, 0, |t.blobs[k]| % 0x1_0000_0000)
      ensures t.blobs[k] == CompressChunk(env.codecs, env.setting, store[k])
    {
      assert us[k] == PieceOf(env, store[k]) && t.entries[k] == EntryOf(us[k]);
    }
  }

  lemma StoreContents(env: Env, files: seq<File>, t: Tables) returns (store: seq<seq<byte>>)
    requires IsExport(env, files, t)
    ensures Contents(env, files, t, store)
  {
    UniqueArePieces(env, files);
    store := StoreFrom(env, files, t, Unique(AllPieces(ProcessAll(env, files))));
  }

  lemma StoreFrom(env: Env, files: seq<File>, t: Tables, us: seq<Piece>) returns (store: seq<seq<byte>>)
    requires Stores(t.entries, t.blobs, us) && ArePieces(env, files, us)
    ensures Contents(env, files, t, store)
  {
    store := OriginsOf(env, files, us);
    OriginsAreContents(env, files, t, us, store);
  }

  /** What one export promises about its input. */
  ghost predicate Exported(env: Env, files: seq<File>, t: Tables) {
    && Lawful(env) && IsExport(env, files, t) && Fits(env, t)
    && CollisionFree(env.hash, AllChunks(env, files))
  }

  lemma RowsKeepPaths(env: Env, files: seq<File>, t: Tables)
    requires IsExport(env, files, t)
    ensures |t.manifest.files| == |files|
    ensures forall i :: 0 <= i < |files| ==>
              t.manifest.files[i].path == files[i].path && t.manifest.files[i].hash == env.hash(files[i].data)
  {
    var ps := ProcessAll(env, files);
    var us := Unique(AllPieces(ps));
    forall i | 0 <= i < |files|
      ensures t.manifest.files[i].path == files[i].path && t.manifest.files[i].hash == env.hash(files[i].data)
    {
      assert IsRow(us, ps[i], t.manifest.files[i]);
    }
  }

  /** Chunk numbers that lead to these chunks. */
  ghost predicate LeadsTo(store: seq<seq<byte>>, numbers: seq<nat>, chunks: seq<seq<byte>>) {
    && |numbers| == |chunks|
    && forall j :: 0 <= j < |chunks| ==> numbers[j] < |store| && store[numbers[j]] == chunks[j]
  }

  /** The numbers of a file's row lead to exactly its chunks: equal hashes mean equal chunks here. */
  lemma RowContents(env: Env, files: seq<File>, t: Tables, store: seq<seq<byte>>, i: nat)
    requires Exported(env, files, t) && Contents(env, files, t, store) && i < |files| == |t.manifest.files|
    ensures LeadsTo(store, t.manifest.files[i].chunks, env.chunks(files[i].data))
  {
    var ps := ProcessAll(env, files);
    var us := Unique(AllPieces(ps));
    var row, cs := t.manifest.files[i], env.chunks(files[i].data);
    assert IsRow(us, ps[i], row);
    forall j | 0 <= j < |cs|
      ensures row.chunks[j] < |store| && store[row.chunks[j]] == cs[j]
    {
      var n := row.chunks[j];
      assert us[n].hash == ps[i].pieces[j].hash == env.hash(cs[j]);
      assert t.entries[n].hash == us[n].hash;
      assert cs[j] in AllChunks(env, files) && store[n] in AllChunks(env, files);
    }
  }

  // ---------------------------------------------------------------- reading chunks back

  /** Chunk k is read back from entry k's offset, and the blobs follow each other without gaps. */
  ghost predicate Serves(fetch: Fetch, index: seq<Entry>, store: seq<seq<byte>>, end: nat) {
    && |index| == |store|
    && (forall k :: 0 <= k < |index| ==> fetch(index[k].offset, index[k]) == Ok(store[k]))
    && (forall k :: 0 <= k < |index| ==> index[k].offset + index[k].compressedSize == OffsetAt(index, k + 1, end))
  }

  ghost function OffsetAt(index: seq<Entry>, k: nat, end: nat): nat {
    if k < |index| then index[k].offset else end
  }

  lemma DataLies(env: Env, t: Tables, a: seq<byte>)
    requires |t.entries| == |t.blobs| && Holds(env, t, a)
    ensures ReadExact(a, DataStart(env, t), |Concat(t.blobs)|) == Ok(Concat(t.blobs))
  {
  }

  lemma PartLies(a: seq<byte>, at: nat, parts: seq<seq<byte>>, k: nat)
    requires k < |parts| && ReadExact(a, at, |Concat(parts)|) == Ok(Concat(parts))
    ensures ReadExact(a, at + |Concat(parts[..k])|, |parts[k]|) == Ok(parts[k])
  {
    ConcatPart(parts, k);
    Inside(a, at, Concat(parts), |Concat(parts[..k])|, |parts[k]|);
  }

  lemma ChunkBy(env: Env, a: seq<byte>, flags: nat, e: Entry, blob: seq<byte>, c: seq<byte>)
    requires ReadExact(a, e.offset, e.compressedSize) == Ok(blob)
    requires DecompressChunk(env.codecs, flags, blob) == Ok(c) && env.hash(c) == e.hash
    ensures ChunkAt(env, a, flags, e.offset, e) == Ok(c)
  {
  }

  lemma ChunkReads(env: Env, files: seq<File>, t: Tables, a: seq<byte>, store: seq<seq<byte>>, k: nat)
    requires Lawful(env) && Fits(env, t) && Contents(env, files, t, store)
    requires CompressFlag(env.setting) != FLAG_XZ && k < |store|
    requires ReadExact(a, DataStart(env, t) + |Concat(t.blobs[..k])|, |t.blobs[k]|) == Ok(t.blobs[k])
    ensures var e := PlacedIndex(env, t)[k];
            ChunkAt(env, a, CompressFlag(env.setting), e.offset, e) == Ok(store[k])
  {
    var e, at := PlacedIndex(env, t)[k], DataStart(env, t) + |Concat(t.blobs[..k])|;
    assert e == t.entries[k].(offset := at) by { PlaceAt(t.entries, t.blobs, DataStart(env, t), k); }
    assert DecompressChunk(env.codecs, CompressFlag(env.setting), t.blobs[k]) == Ok(store[k]) by {
      ChunkIsSmall(env, files, store[k]);
      CompressRoundTrip(env.codecs, env.setting, store[k]);
    }
    ChunkBy(env, a, CompressFlag(env.setting), e, t.blobs[k], store[k]);
  }

  lemma ChunkServed(env: Env, files: seq<File>, t: Tables, a: seq<byte>, store: seq<seq<byte>>, k: nat)
    requires Lawful(env) && Fits(env, t) && Contents(env, files, t, store)
    requires CompressFlag(env.setting) != FLAG_XZ && k < |store|
    requires ReadExact(a, DataStart(env, t), |Concat(t.blobs)|) == Ok(Concat(t.blobs))
    ensures var e := PlacedIndex(env, t)[k];
            ChunkAt(env, a, CompressFlag(env.setting), e.offset, e) == Ok(store[k])
  {
    PartLies(a, DataStart(env, t), t.blobs, k);
    ChunkReads(env, files, t, a, store, k);
  }

  lemma OffsetsFollow(env: Env, t: Tables, k: nat)
    requires Fits(env, t) && k < |t.entries|
    ensures var index, end := PlacedIndex(env, t), DataStart(env, t) + |Concat(t.blobs)|;
            index[k].offset + index[k].compressedSize == OffsetAt(index, k + 1, end)
  {
    PlaceAt(t.entries, t.blobs, DataStart(env, t), k);
    assert t.blobs[..k + 1] == t.blobs[..k] + [t.blobs[k]];
    ConcatAppend(t.blobs[..k], [t.blobs[k]]);
    ConcatOne(t.blobs[k]);
    if k + 1 < |t.entries| {
      PlaceAt(t.entries, t.blobs, DataStart(env, t), k + 1);
    } else {
      assert t.blobs[..k + 1] == t.blobs;
    }
  }

  lemma ArchiveServes(env: Env, files: seq<File>, t: Tables, a: seq<byte>, store: seq<seq<byte>>)
    requires Lawful(env) && Fits(env, t) && Holds(env, t, a) && Contents(env, files, t, store)
    requires CompressFlag(env.setting) != FLAG_XZ
    ensures Serves(FetchFrom(env, a, CompressFlag(env.setting)), PlacedIndex(env, t), store,
                   DataStart(env, t) + |Concat(t.blobs)|)
  {
    DataLies(env, t, a);
    DataServes(env, files, t, a, store);
  }

  /** Blobs that lie behind one another serve the index that was placed over them. */
  lemma DataServes(env: Env, files: seq<File>, t: Tables, a: seq<byte>, store: seq<seq<byte>>)
    requires Lawful(env) && Fits(env, t) && Contents(env, files, t, store) && CompressFlag(env.setting) != FLAG_XZ
    requires ReadExact(a, DataStart(env, t), |Concat(t.blobs)|) == Ok(Concat(t.blobs))
    ensures Serves(FetchFrom(env, a, CompressFlag(env.setting)), PlacedIndex(env, t), store,
                   DataStart(env, t) + |Concat(t.blobs)|)
  {
    var index, fetch := PlacedIndex(env, t), FetchFrom(env, a, CompressFlag(env.setting));
    forall k | 0 <= k < |store| ensures fetch(index[k].offset, index[k]) == Ok(store[k]) {
      ChunkServed(env, files, t, a, store, k);
    }
    forall k | 0 <= k < |store|
      ensures var index := PlacedIndex(env, t);
              index[k].offset + index[k].compressedSize
              == OffsetAt(index, k + 1, DataStart(env, t) + |Concat(t.blobs)|)
    {
      OffsetsFollow(env, t, k);
    }
  }

  // ---------------------------------------------------------------- the random-access reader

  lemma {:induction false} Assembles(fetch: Fetch, index: seq<Entry>, store: seq<seq<byte>>,
                                     end: nat, numbers: seq<nat>, chunks: seq<seq<byte>>)
    requires Serves(fetch, index, store, end) && LeadsTo(store, numbers, chunks)
    ensures Assembled(fetch, index, numbers) == Ok(Concat(chunks))
  {
    if numbers != [] {
      Assembles(fetch, index, store, end, numbers[1..], chunks[1..]);
    }
  }

  predicate DistinctPaths(files: seq<File>) {
    forall i, j :: 0 <= i < j < |files| ==> files[i].path != files[j].path
  }

  lemma {:induction false} RowFound(rows: seq<ManifestEntry>, i: nat)
    requires i < |rows| && forall j :: 0 <= j < i ==> rows[j].path != rows[i].path
    ensures RowOf(rows, rows[i].path) == Ok(rows[i])
  {
    if i > 0 {
      RowFound(rows[1..], i - 1);
    }
  }

  lemma FileAssembles(env: Env, files: seq<File>, t: Tables, a: seq<byte>, i: nat)
    requires Exported(env, files, t) && Holds(env, t, a) && i < |files| == |t.manifest.files|
    requires CompressFlag(env.setting) != FLAG_XZ
    ensures Assembled(FetchFrom(env, a, CompressFlag(env.setting)), PlacedIndex(env, t), t.manifest.files[i].chunks)
            == Ok(files[i].data)
  {
    var store := StoreContents(env, files, t);
    RowContents(env, files, t, store, i);
    ArchiveServes(env, files, t, a, store);
    AssemblesFile(env, FetchFrom(env, a, CompressFlag(env.setting)), PlacedIndex(env, t), store,
                  DataStart(env, t) + |Concat(t.blobs)|, t.manifest.files[i].chunks, files[i].data);
  }

  lemma AssemblesFile(env: Env, fetch: Fetch, index: seq<Entry>, store: seq<seq<byte>>, end: nat,
                      numbers: seq<nat>, data: seq<byte>)
    requires Lawful(env) && Serves(fetch, index, store, end) && LeadsTo(store, numbers, env.chunks(data))
    ensures Assembled(fetch, index, numbers) == Ok(data)
  {
    Assembles(fetch, index, store, end, numbers, env.chunks(data));
    assert Splits(env.chunks(data), data);
  }

  lemma RestoredBy(env: Env, a: seq<byte>, path: string, h: Header, m: Manifest, n: nat, index: seq<Entry>,
                   row: ManifestEntry, data: seq<byte>)
    requires Open(a) == Ok(h) && ManifestAt(env, a, h.manifestOffset, h.flags) == Ok((m, n))
    requires IndexAt(a, h.indexOffset, h.chunkCount) == Ok(index) && RowOf(m.files, path) == Ok(row)
    requires Assembled(FetchFrom(env, a, h.flags), index, row.chunks) == Ok(data) && env.hash(data) == row.hash
    ensures RestoredFile(env, a, path) == Ok(data)
  {
  }

  lemma NoTail(env: Env, t: Tables)
    requires |t.entries| == |t.blobs|
    ensures SeekableArchive(env, t) == Archive(env, t, FinalHeader(env, t), [])
  {
    var s := SeekableArchive(env, t);
    assert s + [] == s;
  }

  /**
   * The archive round trip. Restoring any file of a seekably written archive gives its bytes back exactly when
   * the manifest is readable: the setting is not an xz one and a zstd manifest is at most 16 MiB of JSON.
   * Otherwise every restore fails.
   */
  lemma SeekableRoundTrip(env: Env, files: seq<File>, t: Tables, i: nat)
    requires Exported(env, files, t) && DistinctPaths(files) && i < |files|
    ensures RestoredFile(env, SeekableArchive(env, t), files[i].path)
            == if Readable(env.setting, |env.json(t.manifest)|) then Ok(files[i].data) else Err(BadCompression)
  {
    var h := FinalHeader(env, t);
    var a := SeekableArchive(env, t);
    NoTail(env, t);
    HeadersFit(env, t);
    HeaderReads(env, t, h, []);
    ArchiveHolds(env, t, h, []);
    ManifestReads(env, t, a);
    if Readable(env.setting, |env.json(t.manifest)|) {
      IndexReads(env, t, a);
      RowsKeepPaths(env, files, t);
      RowFound(t.manifest.files, i);
      FileAssembles(env, files, t, a, i);
      RestoredBy(env, a, files[i].path, h, t.manifest, |ManifestBlob(env, t)|, PlacedIndex(env, t),
                 t.manifest.files[i], files[i].data);
    }
  }

  // ---------------------------------------------------------------- the streaming reader

  lemma ServesTail(fetch: Fetch, index: seq<Entry>, store: seq<seq<byte>>, end: nat)
    requires Serves(fetch, index, store, end) && index != []
    ensures Serves(fetch, index[1..], store[1..], end)
    ensures index[0].offset + index[0].compressedSize == OffsetAt(index[1..], 0, end)
  {
    forall k | 0 <= k < |index| - 1
      ensures fetch(index[1..][k].offset, index[1..][k]) == Ok(store[1..][k])
      ensures index[1..][k].offset + index[1..][k].compressedSize == OffsetAt(index[1..], k + 1, end)
    {
      assert index[1..][k] == index[k + 1] && store[1..][k] == store[k + 1];
      assert OffsetAt(index[1..], k + 1, end) == OffsetAt(index, k + 2, end);
    }
  }

  /** Reading one chunk behind the other finds them all when each ends where the next begins. */
  lemma {:induction false} LoadsAll(fetch: Fetch, index: seq<Entry>, store: seq<seq<byte>>, start: nat, end: nat)
    requires Serves(fetch, index, store, end) && OffsetAt(index, 0, end) == start
    ensures Loaded(fetch, index, start) == Ok(store)
    decreases |index|
  {
    if index != [] {
      ServesTail(fetch, index, store, end);
      var next := start + index[0].compressedSize;
      LoadsAll(fetch, index[1..], store[1..], next, end);
      LoadedCons(fetch, index, start, store[0], store[1..]);
      assert [store[0]] + store[1..] == store;
    }
  }

  lemma LoadedCons(fetch: Fetch, index: seq<Entry>, at: nat, chunk: seq<byte>, rest: seq<seq<byte>>)
    requires index != [] && fetch(at, index[0]) == Ok(chunk)
    requires Loaded(fetch, index[1..], at + index[0].compressedSize) == Ok(rest)
    ensures Loaded(fetch, index, at) == Ok([chunk] + rest)
  {
  }

  lemma StoreLoads(env: Env, files: seq<File>, t: Tables, a: seq<byte>, store: seq<seq<byte>>)
    requires Exported(env, files, t) && Holds(env, t, a) && Contents(env, files, t, store)
    requires CompressFlag(env.setting) != FLAG_XZ
    ensures Loaded(FetchFrom(env, a, CompressFlag(env.setting)), PlacedIndex(env, t), DataStart(env, t)) == Ok(store)
  {
    ArchiveServes(env, files, t, a, store);
    FirstOffset(env, t);
    LoadsAll(FetchFrom(env, a, CompressFlag(env.setting)), PlacedIndex(env, t), store,
             DataStart(env, t), DataStart(env, t) + |Concat(t.blobs)|);
  }

  lemma FirstOffset(env: Env, t: Tables)
    requires |t.entries| == |t.blobs|
    ensures OffsetAt(PlacedIndex(env, t), 0, DataStart(env, t) + |Concat(t.blobs)|) == DataStart(env, t)
  {
    if t.entries != [] {
      PlaceAt(t.entries, t.blobs, DataStart(env, t), 0);
    }
  }

  lemma {:induction false} StoreAssembles(store: seq<seq<byte>>, numbers: seq<nat>, chunks: seq<seq<byte>>)
    requires LeadsTo(store, numbers, chunks)
    ensures FromStore(store, numbers) == Ok(Concat(chunks))
  {
    if numbers != [] {
      StoreAssembles(store, numbers[1..], chunks[1..]);
    }
  }

  /** Every file, complete. */
  function Complete(files: seq<File>): seq<(string, Option<seq<byte>>)> {
    if files == [] then [] else [(files[0].path, Some(files[0].data))] + Complete(files[1..])
  }

  lemma FileFromStore(env: Env, files: seq<File>, t: Tables, store: seq<seq<byte>>, i: nat)
    requires Exported(env, files, t) && Contents(env, files, t, store) && i < |files| == |t.manifest.files|
    ensures FromStore(store, t.manifest.files[i].chunks) == Ok(files[i].data)
  {
    RowContents(env, files, t, store, i);
    StoreAssembles(store, t.manifest.files[i].chunks, env.chunks(files[i].data));
    assert Splits(env.chunks(files[i].data), files[i].data);
  }

  /** A row that rebuilds its file. */
  ghost predicate Restores(env: Env, store: seq<seq<byte>>, row: ManifestEntry, f: File) {
    FromStore(store, row.chunks) == Ok(f.data) && row.path == f.path && row.hash == env.hash(f.data)
  }

  lemma {:induction false} RowsRebuild(env: Env, store: seq<seq<byte>>, rows: seq<ManifestEntry>, files: seq<File>)
    requires |rows| == |files| && forall i :: 0 <= i < |rows| ==> Restores(env, store, rows[i], files[i])
    ensures Rebuilt(env, store, rows) == Ok(Complete(files))
  {
    if rows != [] {
      assert Restores(env, store, rows[0], files[0]);
      RowsRebuild(env, store, rows[1..], files[1..]);
    }
  }

  lemma AllRebuild(env: Env, files: seq<File>, t: Tables, store: seq<seq<byte>>)
    requires Exported(env, files, t) && Contents(env, files, t, store)
    ensures Rebuilt(env, store, t.manifest.files) == Ok(Complete(files))
  {
    RowsKeepPaths(env, files, t);
    forall i | 0 <= i < |files|
      ensures Restores(env, store, t.manifest.files[i], files[i])
    {
      FileFromStore(env, files, t, store, i);
    }
    RowsRebuild(env, store, t.manifest.files, files);
  }

  lemma ImportedAtBy(env: Env, a: seq<byte>, at: nat, dataAt: nat, count: nat, fetch: Fetch,
                     rows: seq<ManifestEntry>, index: seq<Entry>, store: seq<seq<byte>>)
    requires IndexAt(a, at, count) == Ok(index) && dataAt == at + ENTRY_SIZE * count
    requires Loaded(fetch, index, dataAt) == Ok(store)
    ensures ImportedAt(env, a, at, count, fetch, rows) == Rebuilt(env, store, rows)
  {
  }

  lemma BodyImports(env: Env, files: seq<File>, t: Tables, a: seq<byte>)
    requires Exported(env, files, t) && Holds(env, t, a) && CompressFlag(env.setting) != FLAG_XZ
    ensures ImportedAt(env, a, IndexStart(env, t), |t.entries|, FetchFrom(env, a, CompressFlag(env.setting)),
                       t.manifest.files) == Ok(Complete(files))
  {
    var store := StoreContents(env, files, t);
    IndexReads(env, t, a);
    StoreLoads(env, files, t, a, store);
    AllRebuild(env, files, t, store);
    ImportedAtBy(env, a, IndexStart(env, t), DataStart(env, t), |t.entries|,
                 FetchFrom(env, a, CompressFlag(env.setting)), t.manifest.files, PlacedIndex(env, t), store);
  }

  lemma ImportedBy(env: Env, a: seq<byte>, h: Header, m: Manifest, n: nat, r: Result<Files>)
    requires Open(a) == Ok(h) && ManifestAt(env, a, HEADER_SIZE, h.flags) == Ok((m, n))
    requires ImportedAt(env, a, HEADER_SIZE + 16 + n, h.chunkCount, FetchFrom(env, a, h.flags), m.files) == r
    ensures Imported(env, a) == r
  {
    assert ImportedBehind(env, a, h) == r by { BehindBy(env, a, h, m, n); }
    OpenedBy(env, a, h);
  }

  lemma OpenedBy(env: Env, a: seq<byte>, h: Header)
    requires Open(a) == Ok(h)
    ensures Imported(env, a) == ImportedBehind(env, a, h)
  {
  }

  lemma BehindBy(env: Env, a: seq<byte>, h: Header, m: Manifest, n: nat)
    requires ManifestAt(env, a, HEADER_SIZE, h.flags) == Ok((m, n))
    ensures ImportedBehind(env, a, h)
            == ImportedAt(env, a, HEADER_SIZE + 16 + n, h.chunkCount, FetchFrom(env, a, h.flags), m.files)
  {
  }

  /**
   * The streaming reader rebuilds every file from any archive with this body, whatever its header's offsets
   * and whatever follows, exactly when the manifest is readable.
   */
  lemma StreamRoundTrip(env: Env, files: seq<File>, t: Tables, h: Header, tail: seq<byte>)
    requires Exported(env, files, t)
    requires HeaderFits(h) && h.version == VERSION && h.flags == CompressFlag(env.setting)
    requires h.chunkCount == |t.entries|
    ensures Imported(env, Archive(env, t, h, tail))
            == if Readable(env.setting, |env.json(t.manifest)|) then Ok(Complete(files)) else Err(BadCompression)
  {
    var a := Archive(env, t, h, tail);
    HeaderReads(env, t, h, tail);
    ArchiveHolds(env, t, h, tail);
    ManifestReads(env, t, a);
    if Readable(env.setting, |env.json(t.manifest)|) {
      BodyImports(env, files, t, a);
      ImportedBy(env, a, h, t.manifest, |ManifestBlob(env, t)|, Ok(Complete(files)));
    }
  }

  /** Both kinds of archive stream back to the files. */
  lemma BothArchivesStream(env: Env, files: seq<File>, t: Tables)
    requires Exported(env, files, t)
    ensures Imported(env, StreamedArchive(env, t)) == Imported(env, SeekableArchive(env, t))
            == if Readable(env.setting, |env.json(t.manifest)|) then Ok(Complete(files)) else Err(BadCompression)
  {
    HeadersFit(env, t);
    StreamRoundTrip(env, files, t, NewHeader(env, t), EncodeFooter(FooterOf(env, t)));
    StreamRoundTrip(env, files, t, FinalHeader(env, t), []);
    NoTail(env, t);
  }

  lemma {:induction false} CompleteAt(files: seq<File>, i: nat)
    requires i < |files|
    ensures |Complete(files)| == |files| && Complete(files)[i] == (files[i].path, Some(files[i].data))
  {
    if |files| > 1 { CompleteAt(files[1..], if i > 0 then i - 1 else 0); }
  }

  /** One meaning: on a seekable archive the reader by offsets and the reader by order agree on every path. */
  lemma ReadersAgree(env: Env, files: seq<File>, t: Tables, i: nat)
    requires Exported(env, files, t) && DistinctPaths(files) && i < |files|
    ensures var a := SeekableArchive(env, t);
            var one, all := RestoredFile(env, a, files[i].path), Imported(env, a);
            && (one.Ok? <==> all.Ok?)
            && (one.Ok? ==> i < |all.value| && all.value[i] == (files[i].path, Some(one.value)))
            && (one.Err? ==> one.error == all.error)
  {
    SeekableRoundTrip(env, files, t, i);
    BothArchivesStream(env, files, t);
    CompleteAt(files, i);
  }

  // ---------------------------------------------------------------- piped archives are not seekable

  /** "FXAR" and the version number, read as a little-endian 64-bit length. */
  const MagicAsLength := 0x2_5241_5846

  /** What a reader makes of an archive whose manifest it looks for at its very beginning. */
  function Misread(env: Env, a: seq<byte>, flags: nat): Result<Manifest> {
    if |a| < 16 + MagicAsLength then Err(UnexpectedEof) else
    var json :- DecompressChunk(env.codecs, flags, a[16..16 + MagicAsLength]);
    var m := env.unjson(json);
    if m.None? then Err(BadManifest) else Ok(m.value)
  }

  /** The reader fails as the misread manifest does, or goes by what it says. */
  ghost predicate GoesByMisread(env: Env, a: seq<byte>, flags: nat, path: string) {
    var m, r := Misread(env, a, flags), RestoredFile(env, a, path);
    if m.Err? then r == Err(m.error) else r.Ok? ==> RowOf(m.value.files, path).Ok?
  }

  /**
   * The placeholder header of a piped archive points the random-access reader at the magic bytes: it takes them
   * for a length of almost ten thousand million bytes. It fails on every archive shorter than that, and on a longer
   * one unless that many bytes from the middle of the header on happen to be a manifest, which it then goes by.
   */
  lemma StreamedIsNotSeekable(env: Env, t: Tables, path: string)
    requires Fits(env, t)
    ensures GoesByMisread(env, StreamedArchive(env, t), NewHeader(env, t).flags, path)
    ensures |StreamedArchive(env, t)| < 16 + MagicAsLength ==>
              RestoredFile(env, StreamedArchive(env, t), path) == Err(UnexpectedEof)
  {
    PlaceholderReads(env, t);
    FirstLength(MagicAndVersion);
    MisreadManifest(env, StreamedArchive(env, t), NewHeader(env, t), path, MagicAndVersion);
  }

  const MagicAndVersion: seq<byte> := [0x46, 0x58, 0x41, 0x52, 2, 0, 0, 0]

  lemma PlaceholderReads(env: Env, t: Tables)
    requires Fits(env, t)
    ensures var a, h := StreamedArchive(env, t), NewHeader(env, t);
            Open(a) == Ok(h) && h.manifestOffset == 0 && ReadExact(a, 0, 8) == Ok(MagicAndVersion)
  {
    var h, tail := NewHeader(env, t), EncodeFooter(FooterOf(env, t));
    HeadersFit(env, t);
    HeaderReads(env, t, h, tail);
    MagicReads(h, Body(env, t), tail);
  }

  lemma MagicReads(h: Header, body: seq<byte>, tail: seq<byte>)
    requires h.version == VERSION
    ensures ReadExact(EncodeHeader(h) + body + tail, 0, 8) == Ok(MagicAndVersion)
  {
    FirstBytes(h);
    TopPart(EncodeHeader(h), body, tail);
    Inside(EncodeHeader(h) + body + tail, 0, EncodeHeader(h), 0, 8);
  }

  lemma MisreadManifest(env: Env, a: seq<byte>, h: Header, path: string, first: seq<byte>)
    requires Open(a) == Ok(h) && h.manifestOffset == 0 && ReadExact(a, 0, 8) == Ok(first)
    requires LE.Decode(first) == MagicAsLength
    ensures GoesByMisread(env, a, h.flags, path)
  {
    MisreadRecord(env, a, h.flags, first);
    GoesByManifest(env, a, h, path);
  }

  lemma MisreadRecord(env: Env, a: seq<byte>, flags: nat, first: seq<byte>)
    requires ReadExact(a, 0, 8) == Ok(first) && LE.Decode(first) == MagicAsLength
    ensures var r, m := ManifestAt(env, a, 0, flags), Misread(env, a, flags);
            if m.Err? then r == Err(m.error) else r == Ok((m.value, MagicAsLength))
  {
  }

  lemma GoesByManifest(env: Env, a: seq<byte>, h: Header, path: string)
    requires Open(a) == Ok(h)
    ensures var m, r := ManifestAt(env, a, h.manifestOffset, h.flags), RestoredFile(env, a, path);
            if m.Err? then r == Err(m.error) else r.Ok? ==> RowOf(m.value.0.files, path).Ok?
  {
  }

  lemma FirstBytes(h: Header)
    requires h.version == VERSION
    ensures EncodeHeader(h)[..8] == [0x46, 0x58, 0x41, 0x52, 2, 0, 0, 0]
  {
    var v := [h.version, h.flags, h.chunkMin, h.chunkMax, h.chunkAvg];
    assert LE.Write(4, v) == LE.Encode(v[0], 4) + LE.Write(4, v[1..]);
    EncodeVersion();
    assert EncodeHeader(h)[..8] == MAGIC + LE.Encode(2, 4);
  }

  lemma EncodeVersion()
    ensures LE.Encode(2, 4) == [2, 0, 0, 0]
  {
    assert LE.Encode(0, 1) == [0] + LE.Encode(0, 0);
    assert LE.Encode(0, 2) == [0] + LE.Encode(0, 1);
    assert LE.Encode(0, 3) == [0] + LE.Encode(0, 2);
    assert LE.Encode(2, 4) == [2] + LE.Encode(0, 3);
  }

  lemma FirstLength(s: seq<byte>)
    requires s == [0x46, 0x58, 0x41, 0x52, 2, 0, 0, 0]
    ensures LE.Decode(s) == MagicAsLength
  {
    assert s[7..][1..] == [] && s[6..][1..] == s[7..] && s[5..][1..] == s[6..] && s[4..][1..] == s[5..];
    assert LE.Decode(s[7..]) == 0;
    assert LE.Decode(s[6..]) == 0;
    assert LE.Decode(s[5..]) == 0;
    assert LE.Decode(s[4..]) == 2;
    assert s[3..][1..] == s[4..] && s[2..][1..] == s[3..] && s[1..][1..] == s[2..];
    assert LE.Decode(s[3..]) == 0x252;
    assert LE.Decode(s[2..]) == 0x25241;
    assert LE.Decode(s[1..]) == 0x2524158;
  }
}
