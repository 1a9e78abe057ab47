/** What an archive says about its files, and what a reader believes of any archive, damaged ones included. */
module FxarManifest {
  import opened Bytes
  import opened FxarFormat
  import opened FxarWriter
  import opened FxarReader
  import opened FxarRoundTrip

  // ---------------------------------------------------------------- the rows of an export

  /** The row of a file: its path, length, mode, times and owner, the hash of its bytes, and a number per chunk. */
  ghost predicate Tells(env: Env, f: File, row: ManifestEntry) {
    && row.path == f.path && row.size == |f.data| && row.hash == env.hash(f.data)
    && row.meta.mode == f.meta.mode && row.meta.mtime == f.meta.mtime
    && row.meta.uid == f.meta.uid && row.meta.gid == f.meta.gid
    && |row.chunks| == |env.chunks(f.data)|
  }

  lemma RowTells(env: Env, files: seq<File>, t: Tables, i: nat)
    requires IsExport(env, files, t) && i < |files|
    ensures i < |t.manifest.files| && Tells(env, files[i], t.manifest.files[i])
  {
    var ps := ProcessAll(env, files);
    assert IsRow(Unique(AllPieces(ps)), ps[i], t.manifest.files[i]);
  }

  /** Every row of an export is that of its file, and its numbers lead to the file's own chunks. */
  lemma ExportTells(env: Env, files: seq<File>, t: Tables, store: seq<seq<byte>>)
    requires Exported(env, files, t) && Contents(env, files, t, store)
    ensures |t.manifest.files| == |files|
    ensures forall i :: 0 <= i < |files| ==>
              && Tells(env, files[i], t.manifest.files[i])
              && LeadsTo(store, t.manifest.files[i].chunks, env.chunks(files[i].data))
  {
    forall i | 0 <= i < |files|
      ensures Tells(env, files[i], t.manifest.files[i])
      ensures LeadsTo(store, t.manifest.files[i].chunks, env.chunks(files[i].data))
    {
      RowTells(env, files, t, i);
      RowContents(env, files, t, store, i);
    }
  }

  /** The files of an archive, without their bytes. */
  function Listed(env: Env, a: seq<byte>): Result<seq<ManifestEntry>> {
    var h :- Open(a);
    var m :- ManifestAt(env, a, h.manifestOffset, h.flags);
    Ok(m.0.files)
  }

  /** Listing a seekable archive gives the rows of its files, in order, exactly when the manifest is readable. */
  lemma ListedTells(env: Env, files: seq<File>, t: Tables)
    requires Exported(env, files, t)
    ensures var r := Listed(env, SeekableArchive(env, t));
            if Readable(env.setting, |env.json(t.manifest)|)
            then r.Ok? && |r.value| == |files| && forall i :: 0 <= i < |files| ==> Tells(env, files[i], r.value[i])
            else r == Err(BadCompression)
  {
    var a := SeekableArchive(env, t);
    NoTail(env, t);
    HeadersFit(env, t);
    HeaderReads(env, t, FinalHeader(env, t), []);
    ArchiveHolds(env, t, FinalHeader(env, t), []);
    ManifestReads(env, t, a);
    forall i | 0 <= i < |files| ensures Tells(env, files[i], t.manifest.files[i]) { RowTells(env, files, t, i); }
  }

  // ---------------------------------------------------------------- where everything is

  /** The header of a seekable archive: version, setting, chunk limits, and where manifest and index are. */
  lemma HeaderTells(env: Env, t: Tables)
    requires Fits(env, t)
    ensures var blob := CompressChunk(env.codecs, env.setting, env.json(t.manifest));
            Open(SeekableArchive(env, t))
            == Ok(Header(2, CompressFlag(env.setting), 2048, 2097152, 65536, 80 + |blob|, 48 * |t.entries|, 64, |blob|,
                         |t.entries|))
  {
    FinalHeaderIs(env, t);
    NoTail(env, t);
    HeadersFit(env, t);
    HeaderReads(env, t, FinalHeader(env, t), []);
  }

  lemma FinalHeaderIs(env: Env, t: Tables)
    ensures var blob := CompressChunk(env.codecs, env.setting, env.json(t.manifest));
            FinalHeader(env, t)
            == Header(2, CompressFlag(env.setting), 2048, 2097152, 65536, 80 + |blob|, 48 * |t.entries|, 64, |blob|,
                      |t.entries|)
  {
  }

  /** A piped archive ends with a footer that says where manifest and index are. */
  lemma FooterTells(env: Env, t: Tables)
    requires Fits(env, t)
    ensures var a, blob := StreamedArchive(env, t), CompressChunk(env.codecs, env.setting, env.json(t.manifest));
            && |a| >= 32 && DecodeFooter(a[|a| - 32..]).Ok?
            && DecodeFooter(a[|a| - 32..]).value.0 == Footer(64, 80 + |blob|, |t.entries|)
  {
    var a := StreamedArchive(env, t);
    var top := EncodeHeader(NewHeader(env, t)) + Body(env, t);
    FooterRoundTrip(FooterOf(env, t));
    assert a == top + EncodeFooter(FooterOf(env, t));
    assert a[|a| - 32..] == EncodeFooter(FooterOf(env, t));
  }

  lemma BlobLies(a: seq<byte>, start: nat, blobs: seq<seq<byte>>, k: nat)
    requires ReadExact(a, start, |Concat(blobs)|) == Ok(Concat(blobs)) && k < |blobs|
    ensures ReadExact(a, start + |Concat(blobs[..k])|, |blobs[k]|) == Ok(blobs[k])
  {
    ConcatPart(blobs, k);
    Inside(a, start, Concat(blobs), |Concat(blobs[..k])|, |blobs[k]|);
  }

  lemma DataLies(env: Env, t: Tables, a: seq<byte>)
    requires |t.entries| == |t.blobs| && Holds(env, t, a)
    ensures ReadExact(a, DataStart(env, t), |Concat(t.blobs)|) == Ok(Concat(t.blobs))
  {
  }

  lemma PlacedBlob(a: seq<byte>, es: seq<Entry>, blobs: seq<seq<byte>>, start: nat, k: nat)
    requires |es| == |blobs| && k < |es| && es[k].compressedSize == |blobs[k]|
    requires ReadExact(a, start, |Concat(blobs)|) == Ok(Concat(blobs))
    ensures var e := Place(es, blobs, start)[k];
            && e.hash == es[k].hash && e.size == es[k].size
            && ReadExact(a, e.offset, e.compressedSize) == Ok(blobs[k])
  {
    PlaceAt(es, blobs, start, k);
    BlobLies(a, start, blobs, k);
  }

  /** The index of an archive says where each blob lies, and there it lies. */
  lemma IndexTells(env: Env, t: Tables, a: seq<byte>, k: nat)
    requires Fits(env, t) && Holds(env, t, a) && k < |t.entries|
    ensures var e := PlacedIndex(env, t)[k];
            && e.hash == t.entries[k].hash && e.size == t.entries[k].size
            && ReadExact(a, e.offset, e.compressedSize) == Ok(t.blobs[k])
  {
    DataLies(env, t, a);
    PlacedBlob(a, t.entries, t.blobs, DataStart(env, t), k);
  }

  // ---------------------------------------------------------------- any archive

  /** The first row with the path. */
  ghost predicate FirstRow(rows: seq<ManifestEntry>, path: string, i: nat) {
    i < |rows| && rows[i].path == path && forall j :: 0 <= j < i ==> rows[j].path != path
  }

  lemma {:induction false} RowOfIs(rows: seq<ManifestEntry>, path: string) returns (i: nat)
    ensures RowOf(rows, path).Ok? ==> FirstRow(rows, path, i) && RowOf(rows, path).value == rows[i]
    ensures RowOf(rows, path).Err? ==> RowOf(rows, path) == Err(NotFound)
    ensures RowOf(rows, path).Err? ==> forall j :: 0 <= j < |rows| ==> rows[j].path != path
  {
    i := 0;
    if rows != [] && rows[0].path != path {
      var k := RowOfIs(rows[1..], path);
      i := k + 1;
      assert RowOf(rows, path).Ok? ==> rows[i] == rows[1..][k];
      assert forall j :: 0 < j < |rows| ==> rows[j] == rows[1..][j - 1];
    }
  }

  /** The data is made of pieces that have the hashes of the index entries under these numbers. */
  ghost predicate Vouched(env: Env, index: seq<Entry>, numbers: seq<nat>, data: seq<byte>, pieces: seq<seq<byte>>) {
    && |pieces| == |numbers| && data == Concat(pieces)
    && forall j :: 0 <= j < |numbers| ==> numbers[j] < |index| && env.hash(pieces[j]) == index[numbers[j]].hash
  }

  lemma {:induction false} AssembledIsVouched(env: Env, a: seq<byte>, flags: nat, index: seq<Entry>, numbers: seq<nat>)
      returns (pieces: seq<seq<byte>>)
    requires Assembled(FetchFrom(env, a, flags), index, numbers).Ok?
    ensures Vouched(env, index, numbers, Assembled(FetchFrom(env, a, flags), index, numbers).value, pieces)
  {
    pieces := [];
    if numbers != [] {
      var rest := AssembledIsVouched(env, a, flags, index, numbers[1..]);
      pieces := [ChunkAt(env, a, flags, index[numbers[0]].offset, index[numbers[0]]).value] + rest;
      assert pieces[1..] == rest;
      assert forall j :: 0 < j < |numbers| ==> numbers[j] == numbers[1..][j - 1] && pieces[j] == rest[j - 1];
    }
  }

  lemma {:induction false} AssembledFinds(env: Env, a: seq<byte>, flags: nat, index: seq<Entry>, numbers: seq<nat>)
    ensures Assembled(FetchFrom(env, a, flags), index, numbers) != Err(NotFound)
  {
    if numbers != [] { AssembledFinds(env, a, flags, index, numbers[1..]); }
  }

  /** The header, the manifest and the chunk index of an archive. */
  ghost predicate Opens(env: Env, a: seq<byte>, h: Header, rows: seq<ManifestEntry>, index: seq<Entry>) {
    && Open(a) == Ok(h) && ManifestAt(env, a, h.manifestOffset, h.flags).Ok?
    && ManifestAt(env, a, h.manifestOffset, h.flags).value.0.files == rows
    && IndexAt(a, h.indexOffset, h.chunkCount) == Ok(index)
  }

  /**
   * Of any archive, whatever its bytes: what a restore returns is vouched for by the first row with the path, whose
   * hash it has, and chunk by chunk by the index.
   */
  lemma RestoredIsVouched(env: Env, a: seq<byte>, path: string)
      returns (h: Header, rows: seq<ManifestEntry>, index: seq<Entry>, i: nat, pieces: seq<seq<byte>>)
    requires RestoredFile(env, a, path).Ok?
    ensures Opens(env, a, h, rows, index) && FirstRow(rows, path, i)
    ensures env.hash(RestoredFile(env, a, path).value) == rows[i].hash
    ensures Vouched(env, index, rows[i].chunks, RestoredFile(env, a, path).value, pieces)
  {
    h := Open(a).value;
    rows := ManifestAt(env, a, h.manifestOffset, h.flags).value.0.files;
    index := IndexAt(a, h.indexOffset, h.chunkCount).value;
    i := RowOfIs(rows, path);
    pieces := AssembledIsVouched(env, a, h.flags, index, rows[i].chunks);
  }

  /** An archive that opens has no such file exactly when no row has the path. */
  lemma NotFoundIff(env: Env, a: seq<byte>, path: string, h: Header, rows: seq<ManifestEntry>, index: seq<Entry>)
    requires Opens(env, a, h, rows, index)
    ensures RestoredFile(env, a, path) == Err(NotFound) <==> forall i :: 0 <= i < |rows| ==> rows[i].path != path
  {
    var i := RowOfIs(rows, path);
    if RowOf(rows, path).Ok? { AssembledFinds(env, a, h.flags, index, RowOf(rows, path).value.chunks); }
  }

  lemma {:induction false} RebuiltIsVouched(env: Env, store: seq<seq<byte>>, rows: seq<ManifestEntry>)
    requires Rebuilt(env, store, rows).Ok?
    ensures AllVouched(env, rows, Rebuilt(env, store, rows).value)
  {
    if rows != [] { RebuiltIsVouched(env, store, rows[1..]); }
  }

  /** What an import makes of these rows: each in order, and no bytes that do not have the row's hash. */
  ghost predicate AllVouched(env: Env, rows: seq<ManifestEntry>, fs: Files) {
    && |fs| == |rows|
    && forall i :: 0 <= i < |rows| ==>
         fs[i].0 == rows[i].path && (fs[i].1.Some? ==> env.hash(fs[i].1.value) == rows[i].hash)
  }

  lemma ImportedAtIsVouched(env: Env, a: seq<byte>, at: nat, count: nat, fetch: Fetch, rows: seq<ManifestEntry>)
    requires ImportedAt(env, a, at, count, fetch, rows).Ok?
    ensures AllVouched(env, rows, ImportedAt(env, a, at, count, fetch, rows).value)
  {
    var index := IndexAt(a, at, count).value;
    RebuiltIsVouched(env, Loaded(fetch, index, at + ENTRY_SIZE * count).value, rows);
  }

  lemma BehindIsVouched(env: Env, a: seq<byte>, h: Header)
    requires ImportedBehind(env, a, h).Ok?
    ensures ManifestAt(env, a, HEADER_SIZE, h.flags).Ok?
    ensures AllVouched(env, ManifestAt(env, a, HEADER_SIZE, h.flags).value.0.files, ImportedBehind(env, a, h).value)
  {
    var m := ManifestAt(env, a, HEADER_SIZE, h.flags).value;
    ImportedAtIsVouched(env, a, HEADER_SIZE + 16 + m.1, h.chunkCount, FetchFrom(env, a, h.flags), m.0.files);
  }

  /** So it is with an import: whatever the bytes, what it writes is vouched for by the manifest behind the header. */
  lemma ImportedIsVouched(env: Env, a: seq<byte>)
    requires Imported(env, a).Ok?
    ensures Open(a).Ok? && ManifestAt(env, a, HEADER_SIZE, Open(a).value.flags).Ok?
    ensures AllVouched(env, ManifestAt(env, a, HEADER_SIZE, Open(a).value.flags).value.0.files, Imported(env, a).value)
  {
    BehindIsVouched(env, a, Open(a).value);
  }
}
