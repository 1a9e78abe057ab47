/** The FXAR v2 records byte by byte: which byte of which field comes where. */
module FxarLayout {
  import opened Bytes
  import opened FxarFormat
  import LE = LittleEndian

  // ---------------------------------------------------------------- numbers

  lemma DivideTwice(n: nat, p: nat)
    requires p > 0
    ensures n / 256 / p == n / (256 * p)
  {
    var q, r := n / 256 / p, n / 256 % p;
    assert n / 256 == p * q + r;
    assert n == 256 * (p * q + r) + n % 256;
    Quotient(n, 256 * p, q, 256 * r + n % 256);
  }

  lemma Quotient(a: nat, m: nat, q: nat, r: nat)
    requires a == m * q + r && r < m
    ensures a / m == q
  {
    var k := a / m;
    assert a == m * k + a % m;
    if k < q { Multiples(m, k + 1, q); }
    if q < k { Multiples(m, q + 1, k); }
  }

  lemma Multiples(m: nat, x: nat, y: nat)
    requires x <= y
    ensures m * x <= m * y
  {
  }

  /** Byte i of a number is its i-th digit to the base 256, the lowest first. */
  lemma {:induction false} EncodedByte(n: nat, w: nat, i: nat)
    requires i < w
    ensures LE.Encode(n, w)[i] == n / LE.Pow256(i) % 256
    decreases i
  {
    if i > 0 {
      EncodedByte(n / 256, w - 1, i - 1);
      DivideTwice(n, LE.Pow256(i - 1));
    }
  }

  // ---------------------------------------------------------------- records

  lemma {:induction false} WriteSnoc(w: nat, init: seq<nat>, last: nat)
    ensures LE.Write(w, init + [last]) == LE.Write(w, init) + LE.Encode(last, w)
    decreases |init|
  {
    if init == [] {
      assert (init + [last])[1..] == [];
    } else {
      assert (init + [last])[1..] == init[1..] + [last];
      WriteSnoc(w, init[1..], last);
    }
  }

  lemma WriteThree(w: nat, a: nat, b: nat, c: nat)
    ensures LE.Write(w, [a, b, c]) == LE.Encode(a, w) + LE.Encode(b, w) + LE.Encode(c, w)
  {
    WriteSnoc(w, [], a);
    WriteSnoc(w, [a], b);
    WriteSnoc(w, [a, b], c);
    assert [] + [a] == [a] && [a] + [b] == [a, b] && [a, b] + [c] == [a, b, c];
  }

  lemma WriteFive(w: nat, a: nat, b: nat, c: nat, d: nat, e: nat)
    ensures LE.Write(w, [a, b, c, d, e])
            == LE.Encode(a, w) + LE.Encode(b, w) + LE.Encode(c, w) + LE.Encode(d, w) + LE.Encode(e, w)
  {
    WriteThree(w, a, b, c);
    WriteSnoc(w, [a, b, c], d);
    WriteSnoc(w, [a, b, c, d], e);
    assert [a, b, c] + [d] == [a, b, c, d] && [a, b, c, d] + [e] == [a, b, c, d, e];
  }

  /** FXAR, then five numbers of 32 bits and five of 64, in this order. */
  lemma HeaderLayout(h: Header, short: nat, long: nat)
    requires short == 4 && long == 8
    ensures EncodeHeader(h)
            == [0x46, 0x58, 0x41, 0x52]
               + (LE.Encode(h.version, short) + LE.Encode(h.flags, short) + LE.Encode(h.chunkMin, short)
                  + LE.Encode(h.chunkMax, short) + LE.Encode(h.chunkAvg, short))
               + (LE.Encode(h.indexOffset, long) + LE.Encode(h.indexSize, long) + LE.Encode(h.manifestOffset, long)
                  + LE.Encode(h.manifestSize, long) + LE.Encode(h.chunkCount, long))
  {
    WriteFive(short, h.version, h.flags, h.chunkMin, h.chunkMax, h.chunkAvg);
    WriteFive(long, h.indexOffset, h.indexSize, h.manifestOffset, h.manifestSize, h.chunkCount);
  }

  lemma IndexCons(e: Entry, es: seq<Entry>)
    ensures EncodeIndex([e] + es) == EncodeEntry(e) + EncodeIndex(es)
  {
    assert ([e] + es)[1..] == es;
  }

  /** The index is its entries one behind the other. */
  lemma IndexParts(before: seq<Entry>, e: Entry, after: seq<Entry>)
    ensures EncodeIndex(before + ([e] + after)) == EncodeIndex(before) + (EncodeEntry(e) + EncodeIndex(after))
  {
    EncodeIndexAppend(before, [e] + after);
    IndexCons(e, after);
  }

  /** An index entry: the hash, the length, the offset, the compressed length. */
  lemma EntryLayout(e: Entry, short: nat, long: nat)
    requires short == 4 && long == 8
    ensures EncodeEntry(e)
            == e.hash + LE.Encode(e.size, short) + LE.Encode(e.offset, long) + LE.Encode(e.compressedSize, short)
  {
  }

  /** The sum of the bytes of a footer's magic and of the 32-bit halves of its numbers. */
  function WordSum(f: Footer): nat {
    0x46 + 0x58 + 0x41 + 0x46 + HalfSum(f.manifestOffset) + HalfSum(f.indexOffset) + HalfSum(f.chunkCount)
  }

  function HalfSum(n: nat): nat { n % 0x1_0000_0000 + n / 0x1_0000_0000 }

  /** FXAF, three numbers of 64 bits, and the sum of the 32-bit words before it, modulo 2^32. */
  lemma FooterLayout(f: Footer, short: nat, long: nat)
    requires short == 4 && long == 8
    ensures EncodeFooter(f)
            == [0x46, 0x58, 0x41, 0x46]
               + (LE.Encode(f.manifestOffset, long) + LE.Encode(f.indexOffset, long) + LE.Encode(f.chunkCount, long))
               + LE.Encode(WordSum(f) % 0x1_0000_0000, short)
  {
    ChecksumIsSum(f);
    WriteThree(long, f.manifestOffset, f.indexOffset, f.chunkCount);
  }

  lemma ChecksumIsSum(f: Footer)
    ensures Checksum(f) == WordSum(f) % 0x1_0000_0000
  {
  }
}
