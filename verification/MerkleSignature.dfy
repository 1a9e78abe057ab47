/** Storing a tree as a signature, and choosing its chunk size. */
module MerkleSignature {
  import opened Bytes
  import opened Merkle
  import opened MerkleDelta
  import Chunker

  // ---------------------------------------------------------------- the adaptive chunk size

  function NextPowerFrom(k: nat, n: nat): nat
    decreases n - Chunker.Pow2(k)
  {
    if Chunker.Pow2(k) >= n then Chunker.Pow2(k) else NextPowerFrom(k + 1, n)
  }

  /** The least power of two that is at least n. */
  lemma {:induction false} NextPowerIsLeast(k: nat, n: nat)
    requires k == 0 || Chunker.Pow2(k - 1) < n
    ensures exists j: nat :: NextPowerFrom(k, n) == Chunker.Pow2(j)
    ensures NextPowerFrom(k, n) >= n
    ensures forall j: nat :: n <= Chunker.Pow2(j) ==> NextPowerFrom(k, n) <= Chunker.Pow2(j)
    decreases n - Chunker.Pow2(k)
  {
    if Chunker.Pow2(k) >= n {
      forall j: nat | n <= Chunker.Pow2(j) ensures Chunker.Pow2(k) <= Chunker.Pow2(j) {
        if j < k { PowerMonotone(j, k - 1); } else { PowerMonotone(k, j); }
      }
    } else {
      NextPowerIsLeast(k + 1, n);
    }
  }

  lemma {:induction false} PowerMonotone(i: nat, j: nat)
    requires i <= j
    ensures Chunker.Pow2(i) <= Chunker.Pow2(j)
  {
    if i < j { PowerMonotone(i, j - 1); }
  }

  lemma Powers()
    ensures Chunker.Pow2(16) == MIN_CHUNK && Chunker.Pow2(31) == 0x8000_0000 && Chunker.Pow2(32) == LENGTH_WRAP
    ensures Chunker.Pow2(54) == 0x40_0000_0000_0000
  {
    assert Chunker.Pow2(8) == 256;
    Chunker.Pow2Sum(8, 8);
    Chunker.Pow2Sum(16, 15);
    assert Chunker.Pow2(15) == 32768;
    Chunker.Pow2Sum(16, 16);
    Chunker.Pow2Sum(32, 16);
    Chunker.Pow2Sum(48, 6);
    assert Chunker.Pow2(6) == 64;
  }

  function Desired(fileSize: nat): nat { (fileSize + MAX_LEAVES - 1) / MAX_LEAVES }

  function Adaptive(fileSize: nat): nat {
    if fileSize == 0 then MIN_CHUNK
    else NextPowerFrom(0, if Desired(fileSize) <= MIN_CHUNK then MIN_CHUNK else Desired(fileSize))
  }

  function SerializedSize(sig: Signature): nat { 56 + |sig.leafHashes| * 32 }

  predicate FitsInXattr(sig: Signature) { SerializedSize(sig) <= MAX_XATTR }

  /** An extended attribute of 64 KiB holds up to 2046 leaf hashes. */
  lemma FitsIff(sig: Signature)
    ensures FitsInXattr(sig) <==> |sig.leafHashes| <= 2046
  {
  }

  /** Of all powers of two from 64 KiB on the least that makes at most 1800 chunks. */
  lemma AdaptiveIsLeast(fileSize: nat, j: nat)
    requires Chunker.Pow2(j) >= 64 * 1024 && fileSize <= 1800 * Chunker.Pow2(j)
    ensures Adaptive(fileSize) <= Chunker.Pow2(j)
  {
    if fileSize > 0 { NextPowerIsLeast(0, if Desired(fileSize) <= MIN_CHUNK then MIN_CHUNK else Desired(fileSize)); }
  }

  /**
   * For every file size of 64 bits the chunk size is a power of two of at least 64 KiB that does not overflow,
   * and it is below 2^32 exactly up to 1800 * 2^31 bytes.
   */
  lemma AdaptiveChunkSize(fileSize: word)
    ensures exists j: nat :: Adaptive(fileSize) == Chunker.Pow2(j)
    ensures MIN_CHUNK <= Adaptive(fileSize) <= 0x40_0000_0000_0000
    ensures Adaptive(fileSize) < LENGTH_WRAP <==> fileSize <= MAX_LEAVES * 0x8000_0000
    ensures fileSize <= MAX_LEAVES * Adaptive(fileSize)
  {
    Powers();
    if fileSize == 0 {
      assert Adaptive(0) == Chunker.Pow2(16);
    } else {
      var n := if Desired(fileSize) <= MIN_CHUNK then MIN_CHUNK else Desired(fileSize);
      NextPowerIsLeast(0, n);
      assert Adaptive(fileSize) <= Chunker.Pow2(54);
      if fileSize <= MAX_LEAVES * 0x8000_0000 {
        assert Adaptive(fileSize) <= Chunker.Pow2(31);
      } else {
        var j: nat :| Adaptive(fileSize) == Chunker.Pow2(j);
        if j <= 31 { PowerMonotone(j, 31); } else { PowerMonotone(32, j); }
      }
    }
  }

  /** A signature made with the adaptive chunk size has at most 1800 leaves and fits an extended attribute. */
  lemma AdaptiveFits(hash: Hasher, data: seq<byte>)
    requires |data| < WORD
    ensures |TreeOf(hash, data, Adaptive(|data|)).leaves| <= MAX_LEAVES
    ensures FitsInXattr(ToSignature(TreeOf(hash, data, Adaptive(|data|))))
  {
    var size := Adaptive(|data|);
    AdaptiveChunkSize(|data|);
    CountIff(|data|, size, MAX_LEAVES);
    StartIsProduct(size, MAX_LEAVES);
  }

  /** A file of more than 1 MiB has at least four chunks. */
  lemma AdaptiveBelow(fileSize: nat)
    requires 1024 * 1024 < fileSize < WORD
    ensures 4 * Adaptive(fileSize) < fileSize
  {
    var n := if Desired(fileSize) <= MIN_CHUNK then MIN_CHUNK else Desired(fileSize);
    Powers();
    if n == MIN_CHUNK {
      NextPowerIsLeast(0, n);
      assert Adaptive(fileSize) <= Chunker.Pow2(16);
    } else {
      NextPowerBelowDouble(0, n);
    }
  }

  lemma {:induction false} NextPowerBelowDouble(k: nat, n: nat)
    requires 1 < n && Chunker.Pow2(k) < 2 * n
    ensures NextPowerFrom(k, n) < 2 * n
    decreases n - Chunker.Pow2(k)
  {
    if Chunker.Pow2(k) < n { NextPowerBelowDouble(k + 1, n); }
  }

  // ---------------------------------------------------------------- signatures

  function LengthAt(sig: Signature, offset: nat): nat {
    Min(if offset <= sig.fileSize then sig.fileSize - offset else 0, sig.chunkSize) % LENGTH_WRAP
  }

  function SigLeaves(sig: Signature, i: nat, offset: nat): seq<Leaf>
    decreases |sig.leafHashes| - i
  {
    if i >= |sig.leafHashes| || (LengthAt(sig, offset) == 0 && i > 0) then []
    else
      var length := LengthAt(sig, offset);
      [Leaf(offset, length, sig.leafHashes[i])] + SigLeaves(sig, i + 1, offset + length)
  }

  lemma {:induction false} SigHashes(sig: Signature, i: nat, offset: nat)
    requires i <= |sig.leafHashes|
    ensures var leaves := SigLeaves(sig, i, offset);
            && i + |leaves| <= |sig.leafHashes|
            && forall j :: 0 <= j < |leaves| ==> leaves[j].hash == sig.leafHashes[i + j]
    decreases |sig.leafHashes| - i
  {
    if i < |sig.leafHashes| { SigHashes(sig, i + 1, offset + LengthAt(sig, offset)); }
  }

  /**
   * Reading a signature: it divides by the chunk size and panics on zero, refuses more hashes than the file can have
   * chunks (with some slack), or gives a tree.
   */
  datatype Reading = Panics | Refused | Rebuilt(tree: Tree)

  function FromSig(sig: Signature): Reading {
    if sig.chunkSize == 0 then Panics
    else if |sig.leafHashes| > sig.fileSize / sig.chunkSize + 2 then Refused
    else Rebuilt(Tree(sig.chunkSize, sig.fileSize, sig.root, SigLeaves(sig, 0, 0)))
  }

  method FromSignature(sig: Signature) returns (r: Reading)
    ensures r == FromSig(sig)
  {
    if sig.chunkSize == 0 { return Panics; }
    if |sig.leafHashes| > sig.fileSize / sig.chunkSize + 2 { return Refused; }
    var leaves: seq<Leaf>, offset: nat, i := [], 0, 0;
    while i < |sig.leafHashes|
      invariant i <= |sig.leafHashes|
      invariant Rebuilding(sig, leaves, i, offset)
    {
      RebuildStep(sig, leaves, i, offset);
      var remaining := if offset <= sig.fileSize then sig.fileSize - offset else 0;
      var length := Min(remaining, sig.chunkSize) % LENGTH_WRAP;
      if length == 0 && i > 0 { break; }
      leaves := leaves + [Leaf(offset, length, sig.leafHashes[i])];
      offset := offset + length;
      i := i + 1;
    }
    RebuildEnd(sig, leaves, i, offset);
    r := Rebuilt(Tree(sig.chunkSize, sig.fileSize, sig.root, leaves));
  }

  ghost predicate Rebuilding(sig: Signature, leaves: seq<Leaf>, i: nat, offset: nat) {
    leaves + SigLeaves(sig, i, offset) == SigLeaves(sig, 0, 0)
  }

  lemma RebuildStep(sig: Signature, leaves: seq<Leaf>, i: nat, offset: nat)
    requires Rebuilding(sig, leaves, i, offset) && i < |sig.leafHashes|
    ensures LengthAt(sig, offset) > 0 || i == 0 ==>
      Rebuilding(sig, leaves + [Leaf(offset, LengthAt(sig, offset), sig.leafHashes[i])], i + 1,
                 offset + LengthAt(sig, offset))
  {
    if LengthAt(sig, offset) > 0 || i == 0 {
      var leaf, rest := Leaf(offset, LengthAt(sig, offset), sig.leafHashes[i]),
          SigLeaves(sig, i + 1, offset + LengthAt(sig, offset));
      assert leaves + ([leaf] + rest) == (leaves + [leaf]) + rest;
    }
  }

  lemma RebuildEnd(sig: Signature, leaves: seq<Leaf>, i: nat, offset: nat)
    requires Rebuilding(sig, leaves, i, offset) && (i >= |sig.leafHashes| || (LengthAt(sig, offset) == 0 && i > 0))
    ensures leaves == SigLeaves(sig, 0, 0)
  {
    assert leaves + [] == leaves;
  }

  /**
   * A signature is never refused for as many hashes as a file of its size has chunks, or one more, and always for three
   * more.
   */
  lemma RefusedIff(sig: Signature)
    requires 0 < sig.chunkSize
    ensures FromSig(sig).Refused? ==> |sig.leafHashes| > Count(sig.fileSize, sig.chunkSize) + 1
    ensures |sig.leafHashes| > Count(sig.fileSize, sig.chunkSize) + 2 ==> FromSig(sig).Refused?
  {
    CountBound(sig.fileSize, sig.chunkSize);
    CountAtLeast(sig.fileSize, sig.chunkSize);
  }

  lemma CountAtLeast(n: nat, size: nat)
    requires 0 < size
    ensures n / size <= Count(n, size)
  {
    var i := n / size;
    if i > 0 {
      CountIff(n, size, i - 1);
      StartIsProduct(size, i - 1);
      OneLess(i, size);
      assert n == i * size + n % size;
    }
  }

  lemma OneLess(i: nat, size: nat)
    requires i > 0
    ensures (i - 1) * size + size == i * size
  {
  }

  lemma CountBound(n: nat, size: nat)
    requires 0 < size
    ensures Count(n, size) <= n / size + 1
  {
    var i := n / size + 1;
    CountIff(n, size, i);
    StartIsProduct(size, i);
    assert n == (n / size) * size + n % size;
    assert i * size == (n / size) * size + size;
  }

  ghost predicate Consistent(sig: Signature, leaves: seq<Leaf>) {
    && |leaves| == |sig.leafHashes|
    && (forall j :: 0 <= j < |leaves| ==>
          leaves[j].hash == sig.leafHashes[j] && leaves[j].length == LengthAt(sig, leaves[j].offset) > 0)
    && (forall j :: 0 < j < |leaves| ==> leaves[j].offset == leaves[j - 1].offset + leaves[j - 1].length)
  }

  /** Leaves that follow one another and have the lengths a signature computes are the leaves it gives back. */
  lemma {:induction false} SigLeavesAre(sig: Signature, leaves: seq<Leaf>, i: nat)
    requires Consistent(sig, leaves) && i < |leaves|
    ensures SigLeaves(sig, i, leaves[i].offset) == leaves[i..]
    decreases |leaves| - i
  {
    if i + 1 < |leaves| {
      SigLeavesAre(sig, leaves, i + 1);
      assert leaves[i + 1].offset == leaves[i].offset + leaves[i].length;
    }
    assert leaves[i..] == [leaves[i]] + leaves[i + 1..];
  }

  lemma TreeLeafInSignature(hash: Hasher, data: seq<byte>, size: nat, i: nat)
    requires 0 < size < LENGTH_WRAP && i < Count(|data|, size)
    ensures var sig, leaf := ToSignature(TreeOf(hash, data, size)), Leaves(hash, data, size)[i];
            leaf.hash == sig.leafHashes[i] && leaf.length == LengthAt(sig, leaf.offset) > 0
  {
    LeafIs(hash, data, size, i);
  }

  lemma NarrowRoundTrip(hash: Hasher, data: seq<byte>, size: nat)
    requires 0 < size < LENGTH_WRAP
    ensures SigLeaves(ToSignature(TreeOf(hash, data, size)), 0, 0) == Leaves(hash, data, size)
  {
    var sig, leaves := ToSignature(TreeOf(hash, data, size)), Leaves(hash, data, size);
    forall i | 0 <= i < |leaves|
      ensures leaves[i].hash == sig.leafHashes[i] && leaves[i].length == LengthAt(sig, leaves[i].offset) > 0
    {
      TreeLeafInSignature(hash, data, size, i);
    }
    TreeIsContiguous(hash, data, size);
    if |leaves| > 0 {
      SigLeavesAre(sig, leaves, 0);
      assert leaves[0..] == leaves && leaves[0].offset == 0;
    }
  }

  /**
   * A tree comes back from its signature exactly when its chunk size is not zero, and chunk lengths fit 32 bits or
   * there is at most one leaf.
   */
  lemma SignatureRoundTrip(hash: Hasher, data: seq<byte>, size: nat)
    ensures FromSig(ToSignature(TreeOf(hash, data, size))) == Rebuilt(TreeOf(hash, data, size))
            <==> 0 < size && (size < LENGTH_WRAP || |data| <= size)
  {
    if 0 < size {
      CountBound(|data|, size);
      LeavesComeBack(hash, data, size);
    }
  }

  lemma LeavesComeBack(hash: Hasher, data: seq<byte>, size: nat)
    requires 0 < size
    ensures SigLeaves(ToSignature(TreeOf(hash, data, size)), 0, 0) == Leaves(hash, data, size)
            <==> size < LENGTH_WRAP || |data| <= size
  {
    var sig := ToSignature(TreeOf(hash, data, size));
    var leaves, again := Leaves(hash, data, size), SigLeaves(sig, 0, 0);
    SingleChunk(data, size);
    if size < LENGTH_WRAP {
      NarrowRoundTrip(hash, data, size);
    } else if |data| <= size {
      assert |data| > 0 ==> again == leaves by {
        if |data| > 0 {
          assert again == [Leaf(0, LengthAt(sig, 0), sig.leafHashes[0])] + SigLeaves(sig, 1, LengthAt(sig, 0));
        }
      }
    } else {
      assert leaves[1].offset == size;
      assert again == [Leaf(0, LengthAt(sig, 0), sig.leafHashes[0])] + SigLeaves(sig, 1, LengthAt(sig, 0));
      assert |again| > 1 ==> again[1].offset == LengthAt(sig, 0) < LENGTH_WRAP;
    }
  }
}
