/** Writing an FXAR v2 archive: chunking, deduplication by chunk hash and the binary layout. */
module FxarWriter {
  import opened Bytes
  import opened FxarFormat
  import LE = LittleEndian
  import Chunker

  datatype Meta = Meta(mode: nat, mtime: int, uid: nat, gid: nat)
  datatype File = File(path: string, data: seq<byte>, meta: Meta)

  datatype ManifestEntry = ManifestEntry(path: string, size: nat, meta: Meta, hash: Digest, chunks: seq<nat>)
  datatype Manifest = Manifest(version: nat, created: string, files: seq<ManifestEntry>, snapshots: seq<string>)

  /** What the archiver is given besides the files: the hash, the chunker, the codecs and the JSON library. */
  datatype Env = Env(hash: Hasher, chunks: seq<byte> -> seq<seq<byte>>, codecs: Codecs, setting: string,
                     json: Manifest -> seq<byte>, unjson: seq<byte> -> Option<Manifest>)

  const CHUNK_MAX := 2 * 1024 * 1024

  /** The chunker loses nothing and makes no chunk over 2 MiB; JSON and the codecs have inverses. */
  ghost predicate Lawful(env: Env) {
    && LawfulCodecs(env.codecs)
    && (forall m :: env.unjson(env.json(m)) == Some(m))
    && (forall data {:trigger env.chunks(data)} :: Splits(env.chunks(data), data))
  }

  ghost predicate Splits(cs: seq<seq<byte>>, data: seq<byte>) {
    Concat(cs) == data && forall j :: 0 <= j < |cs| ==> |cs[j]| <= CHUNK_MAX
  }

  /** The chunker used by the exporter: the gear chunker with its default parameters. */
  function GearChunks(gear: Chunker.Gear): seq<byte> -> seq<seq<byte>> {
    (data: seq<byte>) => Chunker.ChunksOf(Chunker.DefaultParams, gear, data)
  }

  lemma GearEnvIsLawful(env: Env, gear: Chunker.Gear)
    requires env.chunks == GearChunks(gear)
    requires LawfulCodecs(env.codecs) && forall m :: env.unjson(env.json(m)) == Some(m)
    ensures Lawful(env)
  {
    forall data
      ensures Splits(env.chunks(data), data)
    {
      GearChunksSplit(gear, data);
    }
  }

  lemma GearChunksSplit(gear: Chunker.Gear, data: seq<byte>)
    ensures Splits(GearChunks(gear)(data), data)
  {
    Chunker.ChunksPartition(Chunker.DefaultParams, gear, data);
  }

  /** A chunk as it is stored: its hash, its length and its compressed bytes. */
  datatype Piece = Piece(hash: Digest, size: nat, blob: seq<byte>)
  datatype Processed = Processed(path: string, size: nat, meta: Meta, hash: Digest, pieces: seq<Piece>)

  function PieceOf(env: Env, chunk: seq<byte>): Piece {
    Piece(env.hash(chunk), |chunk| % U32, CompressChunk(env.codecs, env.setting, chunk))
  }

  function PiecesOf(env: Env, chunks: seq<seq<byte>>): (ps: seq<Piece>)
    ensures |ps| == |chunks|
    ensures forall i :: 0 <= i < |ps| ==> ps[i] == PieceOf(env, chunks[i])
  {
    if chunks == [] then [] else [PieceOf(env, chunks[0])] + PiecesOf(env, chunks[1..])
  }

  function Process(env: Env, f: File): Processed {
    Processed(f.path, |f.data|, f.meta, env.hash(f.data), PiecesOf(env, env.chunks(f.data)))
  }

  function ProcessAll(env: Env, files: seq<File>): (ps: seq<Processed>)
    ensures |ps| == |files|
    ensures forall i :: 0 <= i < |ps| ==> ps[i] == Process(env, files[i])
  {
    if files == [] then [] else [Process(env, files[0])] + ProcessAll(env, files[1..])
  }

  // ---------------------------------------------------------------- deduplication

  predicate HasHash(us: seq<Piece>, h: Digest) { exists k :: 0 <= k < |us| && us[k].hash == h }

  /** The first piece of every hash, in order of appearance. */
  function Unique(ps: seq<Piece>): (us: seq<Piece>) {
    if ps == [] then [] else Insert(Unique(ps[..|ps| - 1]), ps[|ps| - 1])
  }

  function Insert(us: seq<Piece>, p: Piece): (r: seq<Piece>) {
    if HasHash(us, p.hash) then us else us + [p]
  }

  function AllPieces(files: seq<Processed>): seq<Piece> {
    if files == [] then [] else AllPieces(files[..|files| - 1]) + files[|files| - 1].pieces
  }

  function EntryOf(p: Piece): Entry { Entry(p.hash, p.size, 0, |p.blob| % U32) }

  /** Index and blob list hold one row for each unique piece, in that order. */
  predicate Stores(entries: seq<Entry>, blobs: seq<seq<byte>>, us: seq<Piece>) {
    && |entries| == |blobs| == |us|
    && forall i :: 0 <= i < |us| ==> entries[i] == EntryOf(us[i]) && blobs[i] == us[i].blob
  }

  /** The chunk numbers of a file lead to its pieces' hashes. As no hash is stored twice they are unique. */
  predicate Refers(us: seq<Piece>, ps: seq<Piece>, numbers: seq<nat>) {
    && |numbers| == |ps|
    && forall j :: 0 <= j < |ps| ==> numbers[j] < |us| && us[numbers[j]].hash == ps[j].hash
  }

  predicate IsRow(us: seq<Piece>, f: Processed, row: ManifestEntry) {
    row == ManifestEntry(f.path, f.size, f.meta, f.hash, row.chunks) && Refers(us, f.pieces, row.chunks)
  }

  predicate AreRows(us: seq<Piece>, files: seq<Processed>, rows: seq<ManifestEntry>) {
    |rows| == |files| && forall i :: 0 <= i < |rows| ==> IsRow(us, files[i], rows[i])
  }

  /** More pieces only append to the table. */
  lemma {:induction false} UniqueGrows(a: seq<Piece>, b: seq<Piece>)
    ensures Unique(a) <= Unique(a + b)
    decreases |b|
  {
    if b == [] {
      assert a + b == a;
    } else {
      var n := |b| - 1;
      UniqueGrows(a, b[..n]);
      assert (a + b)[..|a + b| - 1] == a + b[..n];
    }
  }

  /** Every piece is represented; the table holds nothing else, and no hash twice. */
  lemma {:induction false} UniqueRepresents(ps: seq<Piece>)
    ensures forall p :: p in ps ==> HasHash(Unique(ps), p.hash)
    ensures forall u :: u in Unique(ps) ==> u in ps
    ensures forall i, j :: 0 <= i < j < |Unique(ps)| ==> Unique(ps)[i].hash != Unique(ps)[j].hash
  {
    if ps != [] {
      var init, last := ps[..|ps| - 1], ps[|ps| - 1];
      UniqueRepresents(init);
      assert ps == init + [last];
      var us, vs := Unique(init), Unique(ps);
      assert us <= vs;
      forall p | p in ps
        ensures HasHash(vs, p.hash)
      {
        if p in init {
          var k :| 0 <= k < |us| && us[k].hash == p.hash;
          assert vs[k].hash == p.hash;
        } else if !HasHash(us, last.hash) {
          assert vs[|us|] == last;
        }
      }
    }
  }

  /** The table when `part` has been processed: what the hash map, the index and the blob list hold. */
  ghost predicate TableOf(part: seq<Piece>, seen: map<Digest, nat>, entries: seq<Entry>, blobs: seq<seq<byte>>) {
    var us := Unique(part);
    && Stores(entries, blobs, us)
    && (forall h :: h in seen ==> seen[h] < |us| && us[seen[h]].hash == h)
    && (forall k :: 0 <= k < |us| ==> us[k].hash in seen)
  }

  lemma SeenHash(part: seq<Piece>, p: Piece, seen: map<Digest, nat>, entries: seq<Entry>, blobs: seq<seq<byte>>)
    requires TableOf(part, seen, entries, blobs) && p.hash in seen
    ensures TableOf(part + [p], seen, entries, blobs)
  {
    assert (part + [p])[..|part|] == part;
  }

  lemma NewHash(part: seq<Piece>, p: Piece, seen: map<Digest, nat>, entries: seq<Entry>, blobs: seq<seq<byte>>)
    requires TableOf(part, seen, entries, blobs) && p.hash !in seen
    ensures TableOf(part + [p], seen[p.hash := |entries|], entries + [EntryOf(p)], blobs + [p.blob])
  {
    assert (part + [p])[..|part|] == part;
    assert Unique(part + [p]) == Unique(part) + [p];
  }

  /** The same with the chunk numbers of the current file, j of whose pieces have been added. */
  ghost predicate Adding(before: seq<Piece>, pieces: seq<Piece>, j: nat, seen: map<Digest, nat>,
                         entries: seq<Entry>, blobs: seq<seq<byte>>, numbers: seq<nat>)
    requires j <= |pieces|
  {
    && TableOf(before + pieces[..j], seen, entries, blobs)
    && Refers(Unique(before + pieces[..j]), pieces[..j], numbers)
  }

  lemma RefersSnoc(us: seq<Piece>, vs: seq<Piece>, ps: seq<Piece>, numbers: seq<nat>, p: Piece, number: nat)
    requires us <= vs && Refers(us, ps, numbers) && number < |vs| && vs[number].hash == p.hash
    ensures Refers(vs, ps + [p], numbers + [number])
  {
  }

  lemma AddPiece(before: seq<Piece>, pieces: seq<Piece>, j: nat, seen: map<Digest, nat>,
                 entries: seq<Entry>, blobs: seq<seq<byte>>, numbers: seq<nat>)
    requires j < |pieces| && Adding(before, pieces, j, seen, entries, blobs, numbers)
    ensures var p := pieces[j];
            if p.hash in seen
            then Adding(before, pieces, j + 1, seen, entries, blobs, numbers + [seen[p.hash]])
            else Adding(before, pieces, j + 1, seen[p.hash := |entries|], entries + [EntryOf(p)], blobs + [p.blob],
                        numbers + [|entries|])
  {
    var p, part := pieces[j], before + pieces[..j];
    assert part + [p] == before + pieces[..j + 1] && pieces[..j] + [p] == pieces[..j + 1];
    UniqueGrows(part, [p]);
    if p.hash in seen {
      SeenHash(part, p, seen, entries, blobs);
      RefersSnoc(Unique(part), Unique(part + [p]), pieces[..j], numbers, p, seen[p.hash]);
    } else {
      NewHash(part, p, seen, entries, blobs);
      RefersSnoc(Unique(part), Unique(part + [p]), pieces[..j], numbers, p, |entries|);
    }
  }

  /** One file: each chunk is looked up by hash and stored only when it is new. */
  method AddFile(ghost before: seq<Piece>, pieces: seq<Piece>,
                 seen0: map<Digest, nat>, entries0: seq<Entry>, blobs0: seq<seq<byte>>)
      returns (numbers: seq<nat>, seen: map<Digest, nat>, entries: seq<Entry>, blobs: seq<seq<byte>>)
    requires TableOf(before, seen0, entries0, blobs0)
    ensures TableOf(before + pieces, seen, entries, blobs)
    ensures Refers(Unique(before + pieces), pieces, numbers)
  {
    numbers, seen, entries, blobs := [], seen0, entries0, blobs0;
    assert before + pieces[..0] == before;
    for j := 0 to |pieces|
      invariant Adding(before, pieces, j, seen, entries, blobs, numbers)
    {
      AddPiece(before, pieces, j, seen, entries, blobs, numbers);
      var p := pieces[j];
      if p.hash in seen {
        numbers := numbers + [seen[p.hash]];
      } else {
        numbers := numbers + [|entries|];
        seen := seen[p.hash := |entries|];
        entries := entries + [EntryOf(p)];
        blobs := blobs + [p.blob];
      }
    }
    assert pieces[..|pieces|] == pieces;
  }

  ghost predicate Merging(files: seq<Processed>, i: nat, seen: map<Digest, nat>,
                          entries: seq<Entry>, blobs: seq<seq<byte>>, rows: seq<ManifestEntry>)
    requires i <= |files|
  {
    var part := AllPieces(files[..i]);
    TableOf(part, seen, entries, blobs) && AreRows(Unique(part), files[..i], rows)
  }

  lemma MergeFile(files: seq<Processed>, i: nat, rows: seq<ManifestEntry>, numbers: seq<nat>)
    requires i < |files|
    requires AreRows(Unique(AllPieces(files[..i])), files[..i], rows)
    requires Refers(Unique(AllPieces(files[..i]) + files[i].pieces), files[i].pieces, numbers)
    ensures AllPieces(files[..i + 1]) == AllPieces(files[..i]) + files[i].pieces
    ensures var f := files[i];
            AreRows(Unique(AllPieces(files[..i + 1])), files[..i + 1],
                    rows + [ManifestEntry(f.path, f.size, f.meta, f.hash, numbers)])
  {
    var f := files[i];
    assert files[..i + 1] == files[..i] + [f];
    assert files[..i + 1][..i] == files[..i];
    UniqueGrows(AllPieces(files[..i]), f.pieces);
    RowsSnoc(Unique(AllPieces(files[..i])), Unique(AllPieces(files[..i]) + f.pieces), files[..i], rows, f,
             ManifestEntry(f.path, f.size, f.meta, f.hash, numbers));
  }

  lemma RowsSnoc(us: seq<Piece>, vs: seq<Piece>, files: seq<Processed>, rows: seq<ManifestEntry>,
                 f: Processed, row: ManifestEntry)
    requires us <= vs && AreRows(us, files, rows) && IsRow(vs, f, row)
    ensures AreRows(vs, files + [f], rows + [row])
  {
    forall i | 0 <= i < |rows|
      ensures IsRow(vs, files[i], rows[i])
    {
      assert IsRow(us, files[i], rows[i]);
    }
  }

  /** The merge of all processed files into manifest rows, chunk index and blob list. */
  method BuildDedupTables(files: seq<Processed>)
      returns (rows: seq<ManifestEntry>, entries: seq<Entry>, blobs: seq<seq<byte>>)
    ensures AreRows(Unique(AllPieces(files)), files, rows)
    ensures Stores(entries, blobs, Unique(AllPieces(files)))
  {
    var seen: map<Digest, nat> := map[];
    rows, entries, blobs := [], [], [];
    for i := 0 to |files|
      invariant Merging(files, i, seen, entries, blobs, rows)
    {
      var f := files[i];
      var numbers;
      numbers, seen, entries, blobs := AddFile(AllPieces(files[..i]), f.pieces, seen, entries, blobs);
      MergeFile(files, i, rows, numbers);
      rows := rows + [ManifestEntry(f.path, f.size, f.meta, f.hash, numbers)];
    }
    assert files[..|files|] == files;
  }

  // ---------------------------------------------------------------- layout

  datatype Tables = Tables(manifest: Manifest, entries: seq<Entry>, blobs: seq<seq<byte>>)

  /** The tables of an export of `files`. */
  ghost predicate IsExport(env: Env, files: seq<File>, t: Tables) {
    var ps := ProcessAll(env, files);
    var us := Unique(AllPieces(ps));
    t.manifest.version == VERSION && AreRows(us, ps, t.manifest.files) && Stores(t.entries, t.blobs, us)
  }

  /** Consecutive blobs get consecutive offsets. */
  function Place(es: seq<Entry>, blobs: seq<seq<byte>>, at: nat): (r: seq<Entry>)
    requires |es| == |blobs|
    ensures |r| == |es|
  {
    if es == [] then [] else [es[0].(offset := at)] + Place(es[1..], blobs[1..], at + |blobs[0]|)
  }

  function ManifestBlob(env: Env, t: Tables): seq<byte> {
    CompressChunk(env.codecs, env.setting, env.json(t.manifest))
  }

  function IndexStart(env: Env, t: Tables): nat { HEADER_SIZE + 16 + |ManifestBlob(env, t)| }

  function DataStart(env: Env, t: Tables): nat { IndexStart(env, t) + ENTRY_SIZE * |t.entries| }

  function PlacedIndex(env: Env, t: Tables): (es: seq<Entry>)
    requires |t.entries| == |t.blobs|
    ensures |es| == |t.entries|
  {
    Place(t.entries, t.blobs, DataStart(env, t))
  }

  function ManifestRecord(env: Env, t: Tables): (s: seq<byte>)
    ensures |s| == 16 + |ManifestBlob(env, t)|
  {
    LE.Encode(|ManifestBlob(env, t)|, 8) + LE.Encode(|env.json(t.manifest)|, 8) + ManifestBlob(env, t)
  }

  /** Everything after the header. */
  function Body(env: Env, t: Tables): seq<byte>
    requires |t.entries| == |t.blobs|
  {
    ManifestRecord(env, t) + EncodeIndex(PlacedIndex(env, t)) + Concat(t.blobs)
  }

  function NewHeader(env: Env, t: Tables): Header {
    var p := Chunker.DefaultParams;
    Header(VERSION, CompressFlag(env.setting), p.min, p.max, p.avg, 0, 0, 0, 0, |t.entries|)
  }

  function FinalHeader(env: Env, t: Tables): Header {
    NewHeader(env, t).(indexOffset := IndexStart(env, t), indexSize := ENTRY_SIZE * |t.entries|,
                       manifestOffset := HEADER_SIZE, manifestSize := |ManifestBlob(env, t)|)
  }

  function FooterOf(env: Env, t: Tables): Footer {
    Footer(HEADER_SIZE, IndexStart(env, t), |t.entries|)
  }

  /** A piped archive keeps the placeholder header and ends with a footer. */
  function StreamedArchive(env: Env, t: Tables): seq<byte>
    requires |t.entries| == |t.blobs|
  {
    EncodeHeader(NewHeader(env, t)) + Body(env, t) + EncodeFooter(FooterOf(env, t))
  }

  /** A seekable archive gets its final header. */
  function SeekableArchive(env: Env, t: Tables): seq<byte>
    requires |t.entries| == |t.blobs|
  {
    EncodeHeader(FinalHeader(env, t)) + Body(env, t)
  }

  lemma {:induction false} PlaceSnoc(es: seq<Entry>, blobs: seq<seq<byte>>, at: nat, i: nat)
    requires |es| == |blobs| && i < |es|
    ensures Place(es[..i + 1], blobs[..i + 1], at)
            == Place(es[..i], blobs[..i], at) + [es[i].(offset := at + |Concat(blobs[..i])|)]
  {
    if i > 0 {
      PlaceSnoc(es[1..], blobs[1..], at + |blobs[0]|, i - 1);
      assert es[..i + 1][1..] == es[1..][..i] && es[..i][1..] == es[1..][..i - 1];
      assert blobs[..i + 1][1..] == blobs[1..][..i] && blobs[..i][1..] == blobs[1..][..i - 1];
    } else {
      assert es[..1][1..] == [] && blobs[..1][1..] == [];
    }
  }

  /** Second pass of the layout: every entry's offset is filled in, from the end of the index on. */
  method AssignOffsets(es: seq<Entry>, blobs: seq<seq<byte>>, start: nat) returns (placed: seq<Entry>)
    requires |es| == |blobs|
    ensures placed == Place(es, blobs, start)
  {
    placed := [];
    var dataOffset := start;
    for i := 0 to |es|
      invariant placed == Place(es[..i], blobs[..i], start)
      invariant dataOffset == start + |Concat(blobs[..i])|
    {
      PlaceSnoc(es, blobs, start, i);
      assert blobs[..i + 1] == blobs[..i] + [blobs[i]];
      ConcatAppend(blobs[..i], [blobs[i]]);
      ConcatOne(blobs[i]);
      placed := placed + [es[i].(offset := dataOffset)];
      dataOffset := dataOffset + |blobs[i]|;
    }
    assert es[..|es|] == es && blobs[..|blobs|] == blobs;
  }

  lemma EncodeIndexSnoc(es: seq<Entry>, i: nat)
    requires i < |es|
    ensures EncodeIndex(es[..i + 1]) == EncodeIndex(es[..i]) + EncodeEntry(es[i])
  {
    assert es[..i + 1] == es[..i] + [es[i]];
    EncodeIndexAppend(es[..i], [es[i]]);
    var one := [es[i]];
    assert EncodeIndex(one) == EncodeEntry(one[0]) + EncodeIndex(one[1..]);
  }

  method EmitIndex(es: seq<Entry>) returns (out: seq<byte>)
    ensures out == EncodeIndex(es)
  {
    out := [];
    for i := 0 to |es|
      invariant out == EncodeIndex(es[..i])
    {
      EncodeIndexSnoc(es, i);
      out := out + EncodeEntry(es[i]);
    }
    assert es[..|es|] == es;
  }

  method EmitBlobs(blobs: seq<seq<byte>>) returns (out: seq<byte>, written: nat)
    ensures out == Concat(blobs) && written == |out|
  {
    out, written := [], 0;
    for i := 0 to |blobs|
      invariant out == Concat(blobs[..i]) && written == |out|
    {
      assert blobs[..i + 1] == blobs[..i] + [blobs[i]];
      ConcatAppend(blobs[..i], [blobs[i]]);
      ConcatOne(blobs[i]);
      out := out + blobs[i];
      written := written + |blobs[i]|;
    }
    assert blobs[..|blobs|] == blobs;
  }

  /** Manifest, index and blobs; the header fields are filled in as their positions become known. */
  method EmitBody(env: Env, t: Tables, header0: Header) returns (body: seq<byte>, header: Header, offset: nat)
    requires |t.entries| == |t.blobs|
    ensures body == Body(env, t) && offset == HEADER_SIZE + |body|
    ensures header == header0.(indexOffset := IndexStart(env, t), indexSize := ENTRY_SIZE * |t.entries|,
                               manifestOffset := HEADER_SIZE, manifestSize := |ManifestBlob(env, t)|)
  {
    offset := HEADER_SIZE;
    var compressed := ManifestBlob(env, t);
    header := header0.(manifestOffset := offset, manifestSize := |compressed|);
    var record := ManifestRecord(env, t);
    offset := offset + 16 + |compressed|;

    header := header.(indexOffset := offset, indexSize := ENTRY_SIZE * |t.entries|);
    var placed := AssignOffsets(t.entries, t.blobs, offset + header.indexSize);
    assert placed == PlacedIndex(env, t) by { assert offset + header.indexSize == DataStart(env, t); }
    var index := EmitIndex(placed);
    offset := offset + header.indexSize;

    var data, written := EmitBlobs(t.blobs);
    offset := offset + written;
    body := record + index + data;
  }

  /** The writer appends record after record and counts the bytes it has written. */
  method EmitArchive(env: Env, t: Tables, appendFooter: bool)
      returns (out: seq<byte>, header: Header, offset: nat)
    requires |t.entries| == |t.blobs|
    ensures out == EncodeHeader(NewHeader(env, t)) + Body(env, t)
                   + (if appendFooter then EncodeFooter(FooterOf(env, t)) else [])
    ensures header == FinalHeader(env, t) && offset == |out|
  {
    header := NewHeader(env, t);
    var top := EncodeHeader(header);
    var body;
    body, header, offset := EmitBody(env, t, header);
    var footer := [];
    if appendFooter {
      footer := EncodeFooter(Footer(header.manifestOffset, header.indexOffset, header.chunkCount));
      offset := offset + FOOTER_SIZE;
    }
    out := top + body + footer;
  }

  lemma DropHeader(header: seq<byte>, body: seq<byte>)
    ensures (header + body + [])[|header|..] == body
  {
  }

  /** Seeking back to overwrite the placeholder header. */
  method WriteSeekable(env: Env, t: Tables) returns (out: seq<byte>)
    requires |t.entries| == |t.blobs|
    ensures out == SeekableArchive(env, t)
  {
    var header, offset;
    out, header, offset := EmitArchive(env, t, false);
    DropHeader(EncodeHeader(NewHeader(env, t)), Body(env, t));
    out := EncodeHeader(header) + out[HEADER_SIZE..];
  }

  /** The whole seekable export. */
  method Export(env: Env, files: seq<File>, created: string, snapshots: seq<string>)
      returns (t: Tables, out: seq<byte>)
    ensures IsExport(env, files, t) && out == SeekableArchive(env, t)
    ensures t.manifest.created == created && t.manifest.snapshots == snapshots
  {
    var rows, entries, blobs := BuildDedupTables(ProcessAll(env, files));
    t := Tables(Manifest(VERSION, created, rows, snapshots), entries, blobs);
    out := WriteSeekable(env, t);
  }
}
