/** The FXAR v2 container: header, chunk index and footer records, and the compression settings. */
module FxarFormat {
  import opened Bytes
  import LE = LittleEndian

  const MAGIC: seq<byte> := [0x46, 0x58, 0x41, 0x52]
  const FOOTER_MAGIC: seq<byte> := [0x46, 0x58, 0x41, 0x46]
  const VERSION := 2
  const HEADER_SIZE := 64
  const ENTRY_SIZE := 48
  const FOOTER_SIZE := 32
  const U32 := 0x1_0000_0000

  datatype Error = NotAnArchive | BadVersion | UnexpectedEof | BadCompression | BadManifest | HashMismatch | NotFound
                 | IndexPanic
  datatype Result<+T> = Ok(value: T) | Err(error: Error) {
    predicate IsFailure() { Err? }
    function PropagateFailure<U>(): Result<U>
      requires Err?
    {
      Err(error)
    }
    function Extract(): T
      requires Ok?
    {
      value
    }
  }

  // ---------------------------------------------------------------- records

  datatype Header = Header(version: nat, flags: nat, chunkMin: nat, chunkMax: nat, chunkAvg: nat,
                           indexOffset: nat, indexSize: nat, manifestOffset: nat, manifestSize: nat, chunkCount: nat)

  predicate HeaderFits(h: Header) {
    && h.version < U32 && h.flags < U32 && h.chunkMin < U32 && h.chunkMax < U32 && h.chunkAvg < U32
    && h.indexOffset < WORD && h.indexSize < WORD && h.manifestOffset < WORD && h.manifestSize < WORD
    && h.chunkCount < WORD
  }

  function EncodeHeader(h: Header): (s: seq<byte>)
    ensures |s| == HEADER_SIZE
  {
    MAGIC + LE.Write(4, [h.version, h.flags, h.chunkMin, h.chunkMax, h.chunkAvg])
    + LE.Write(8, [h.indexOffset, h.indexSize, h.manifestOffset, h.manifestSize, h.chunkCount])
  }

  function DecodeHeader(s: seq<byte>): (h: Result<Header>)
    requires |s| == HEADER_SIZE
  {
    if s[..4] != MAGIC then Err(NotAnArchive) else
    var a := LE.Read(4, 5, s[4..24]);
    var b := LE.Read(8, 5, s[24..]);
    Ok(Header(a[0], a[1], a[2], a[3], a[4], b[0], b[1], b[2], b[3], b[4]))
  }

  lemma HeaderRoundTrip(h: Header)
    requires HeaderFits(h)
    ensures DecodeHeader(EncodeHeader(h)) == Ok(h)
  {
    var a := [h.version, h.flags, h.chunkMin, h.chunkMax, h.chunkAvg];
    var b := [h.indexOffset, h.indexSize, h.manifestOffset, h.manifestSize, h.chunkCount];
    var s := EncodeHeader(h);
    LE.WordSizes();
    LE.ReadWrite(4, a);
    LE.ReadWrite(8, b);
    assert s[..4] == MAGIC && s[4..24] == LE.Write(4, a) && s[24..] == LE.Write(8, b);
  }

  datatype Entry = Entry(hash: Digest, size: nat, offset: nat, compressedSize: nat)

  predicate EntryFits(e: Entry) { e.size < U32 && e.offset < WORD && e.compressedSize < U32 }

  function EncodeEntry(e: Entry): (s: seq<byte>)
    ensures |s| == ENTRY_SIZE
  {
    e.hash + LE.Encode(e.size, 4) + LE.Encode(e.offset, 8) + LE.Encode(e.compressedSize, 4)
  }

  function DecodeEntry(s: seq<byte>): Entry
    requires |s| == ENTRY_SIZE
  {
    Entry(s[..32], LE.Decode(s[32..36]), LE.Decode(s[36..44]), LE.Decode(s[44..]))
  }

  lemma EntryRoundTrip(e: Entry)
    requires EntryFits(e)
    ensures DecodeEntry(EncodeEntry(e)) == e
  {
    var s := EncodeEntry(e);
    LE.WordSizes();
    LE.DecodeEncode(e.size, 4);
    LE.DecodeEncode(e.offset, 8);
    LE.DecodeEncode(e.compressedSize, 4);
    assert s[..32] == e.hash && s[32..36] == LE.Encode(e.size, 4);
    assert s[36..44] == LE.Encode(e.offset, 8) && s[44..] == LE.Encode(e.compressedSize, 4);
  }

  function EncodeIndex(es: seq<Entry>): (s: seq<byte>)
    ensures |s| == ENTRY_SIZE * |es|
  {
    if es == [] then [] else EncodeEntry(es[0]) + EncodeIndex(es[1..])
  }

  function DecodeIndex(s: seq<byte>, n: nat): (es: seq<Entry>)
    requires |s| == ENTRY_SIZE * n
    ensures |es| == n
    decreases n
  {
    if n == 0 then [] else [DecodeEntry(s[..ENTRY_SIZE])] + DecodeIndex(s[ENTRY_SIZE..], n - 1)
  }

  lemma {:induction false} IndexRoundTrip(es: seq<Entry>)
    requires forall i :: 0 <= i < |es| ==> EntryFits(es[i])
    ensures DecodeIndex(EncodeIndex(es), |es|) == es
  {
    if es != [] {
      var s := EncodeIndex(es);
      assert s[..ENTRY_SIZE] == EncodeEntry(es[0]) && s[ENTRY_SIZE..] == EncodeIndex(es[1..]);
      EntryRoundTrip(es[0]);
      IndexRoundTrip(es[1..]);
    }
  }

  lemma {:induction false} EncodeIndexAppend(a: seq<Entry>, b: seq<Entry>)
    ensures EncodeIndex(a + b) == EncodeIndex(a) + EncodeIndex(b)
  {
    if a == [] {
      assert a + b == b;
    } else {
      assert (a + b)[1..] == a[1..] + b;
      EncodeIndexAppend(a[1..], b);
    }
  }

  datatype Footer = Footer(manifestOffset: nat, indexOffset: nat, chunkCount: nat)

  /** Sum of the magic bytes and of the six 32-bit words, modulo 2^32. */
  function Checksum(f: Footer): nat {
    (0x46 + 0x58 + 0x41 + 0x46
     + f.manifestOffset % U32 + f.manifestOffset / U32 + f.indexOffset % U32 + f.indexOffset / U32
     + f.chunkCount % U32 + f.chunkCount / U32) % U32
  }

  function EncodeFooter(f: Footer): (s: seq<byte>)
    ensures |s| == FOOTER_SIZE
  {
    FOOTER_MAGIC + LE.Write(8, [f.manifestOffset, f.indexOffset, f.chunkCount]) + LE.Encode(Checksum(f), 4)
  }

  /** The footer and its stored checksum, which nothing compares with the fields. */
  function DecodeFooter(s: seq<byte>): (r: Result<(Footer, nat)>)
    requires |s| == FOOTER_SIZE
  {
    if s[..4] != FOOTER_MAGIC then Err(NotAnArchive) else
    var a := LE.Read(8, 3, s[4..28]);
    Ok((Footer(a[0], a[1], a[2]), LE.Decode(s[28..])))
  }

  lemma FooterRoundTrip(f: Footer)
    requires f.manifestOffset < WORD && f.indexOffset < WORD && f.chunkCount < WORD
    ensures DecodeFooter(EncodeFooter(f)) == Ok((f, Checksum(f)))
  {
    var a := [f.manifestOffset, f.indexOffset, f.chunkCount];
    var s := EncodeFooter(f);
    LE.WordSizes();
    LE.ReadWrite(8, a);
    LE.DecodeEncode(Checksum(f), 4);
    assert s[..4] == FOOTER_MAGIC && s[4..28] == LE.Write(8, a) && s[28..] == LE.Encode(Checksum(f), 4);
  }

  // ---------------------------------------------------------------- compression settings

  /** The compression libraries. `level` is how a "zstd..." setting is read as a level. */
  datatype Codecs = Codecs(zstd: (int, seq<byte>) -> seq<byte>, unzstd: seq<byte> -> Option<seq<byte>>,
                           lz4: seq<byte> -> seq<byte>, unlz4: seq<byte> -> Option<seq<byte>>,
                           gzip: seq<byte> -> seq<byte>, ungzip: seq<byte> -> Option<seq<byte>>,
                           unxz: seq<byte> -> Option<seq<byte>>,
                           level: string -> int)

  /** Each decompressor inverts its compressor, and an xz decoder rejects a zstd frame. */
  ghost predicate LawfulCodecs(c: Codecs) {
    && (forall l, x :: c.unzstd(c.zstd(l, x)) == Some(x))
    && (forall x :: c.unlz4(c.lz4(x)) == Some(x))
    && (forall x :: c.ungzip(c.gzip(x)) == Some(x))
    && (forall l, x :: c.unxz(c.zstd(l, x)) == None)
  }

  const FLAG_NONE := 0
  const FLAG_ZSTD := 1
  const FLAG_LZ4 := 2
  const FLAG_GZIP := 3
  const FLAG_XZ := 4
  const ZSTD_CAPACITY := 16 * 1024 * 1024

  function CompressFlag(setting: string): nat {
    if setting == "none" then FLAG_NONE
    else if "zstd" <= setting then FLAG_ZSTD
    else if setting == "lz4" then FLAG_LZ4
    else if setting == "gzip" then FLAG_GZIP
    else if "xz" <= setting then FLAG_XZ
    else FLAG_ZSTD
  }

  function CompressChunk(c: Codecs, setting: string, data: seq<byte>): seq<byte> {
    if setting == "none" then data
    else if "zstd" <= setting then c.zstd(c.level(setting), data)
    else if setting == "lz4" then c.lz4(data)
    else if setting == "gzip" then c.gzip(data)
    else c.zstd(3, data)
  }

  function DecompressChunk(c: Codecs, flags: nat, data: seq<byte>): Result<seq<byte>> {
    if flags == FLAG_NONE then Ok(data)
    else if flags == FLAG_ZSTD then
      var r := c.unzstd(data);
      if r.Some? && |r.value| <= ZSTD_CAPACITY then Ok(r.value) else Err(BadCompression)
    else
      var r := if flags == FLAG_LZ4 then c.unlz4(data)
               else if flags == FLAG_GZIP then c.ungzip(data)
               else if flags == FLAG_XZ then c.unxz(data)
               else None;
      if r.Some? then Ok(r.value) else Err(BadCompression)
  }

  /** Not an "xz..." setting, and within the reader's output limit if the blob is a zstd frame. */
  predicate Readable(setting: string, size: nat) {
    CompressFlag(setting) != FLAG_XZ && (CompressFlag(setting) == FLAG_ZSTD ==> size <= ZSTD_CAPACITY)
  }

  lemma ZstdInverse(c: Codecs, level: int, data: seq<byte>)
    requires LawfulCodecs(c)
    ensures c.unzstd(c.zstd(level, data)) == Some(data)
  {
  }

  /** What was compressed under a setting is read back under its flag exactly when it is readable. */
  lemma CompressRoundTrip(c: Codecs, setting: string, data: seq<byte>)
    requires LawfulCodecs(c)
    ensures Readable(setting, |data|) ==>
              DecompressChunk(c, CompressFlag(setting), CompressChunk(c, setting, data)) == Ok(data)
    ensures !Readable(setting, |data|) ==>
              DecompressChunk(c, CompressFlag(setting), CompressChunk(c, setting, data)) == Err(BadCompression)
  {
    if "zstd" <= setting {
      assert setting[0] == 'z';
      ZstdInverse(c, c.level(setting), data);
    } else if setting == "lz4" {
      assert c.unlz4(c.lz4(data)) == Some(data);
    } else if setting == "gzip" {
      assert c.ungzip(c.gzip(data)) == Some(data);
    } else if "xz" <= setting {
      assert setting[0] == 'x';
      assert c.unxz(c.zstd(3, data)) == None;
    } else {
      assert c.unzstd(c.zstd(3, data)) == Some(data);
    }
  }
}
