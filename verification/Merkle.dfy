/** Fixed-size Merkle leaves and their root, and the quick check of a file against a stored signature. */
module Merkle {
  import opened Bytes

  const LENGTH_WRAP := 0x1_0000_0000
  const MIN_CHUNK := 65536
  const MAX_LEAVES := 1800
  const MAX_XATTR := 64 * 1024

  /** `length` is the 32-bit field of the leaf: the chunk length modulo 2^32. */
  datatype Leaf = Leaf(offset: nat, length: nat, hash: Digest)
  datatype Tree = Tree(chunkSize: nat, fileSize: nat, root: Digest, leaves: seq<Leaf>)
  datatype Range = Range(offset: nat, length: nat)
  datatype Signature = Signature(root: Digest, chunkSize: nat, fileSize: nat, leafHashes: seq<Digest>)

  // ---------------------------------------------------------------- chunk arithmetic

  /** Where chunk i starts. */
  function Start(size: nat, i: nat): nat {
    if i == 0 then 0 else Start(size, i - 1) + size
  }

  /** How many chunks n bytes make; a chunk size of zero never reads anything. */
  function Count(n: nat, size: nat): nat {
    if n == 0 || size == 0 then 0 else if n <= size then 1 else 1 + Count(n - size, size)
  }

  function End(n: nat, size: nat, i: nat): nat {
    if Start(size, i) + size <= n then Start(size, i) + size else n
  }

  lemma {:induction false} StartMonotone(size: nat, i: nat, j: nat)
    requires i < j
    ensures Start(size, i) + size <= Start(size, j)
  {
    if i + 1 < j { StartMonotone(size, i, j - 1); }
  }

  lemma {:induction false} StartShift(size: nat, i: nat)
    requires 0 < i
    ensures Start(size, i) == size + Start(size, i - 1)
  {
    if 1 < i { StartShift(size, i - 1); }
  }

  /** Chunk i exists exactly when it starts before the end of the file. */
  lemma {:induction false} CountIff(n: nat, size: nat, i: nat)
    requires 0 < size
    ensures i < Count(n, size) <==> Start(size, i) < n
    decreases i
  {
    if 0 < i {
      StartShift(size, i);
      if n > size { CountIff(n - size, size, i - 1); } else { StartMonotone(size, 0, i); }
    }
  }

  lemma {:induction false} StartIsProduct(size: nat, i: nat)
    ensures Start(size, i) == i * size
  {
    if i > 0 {
      StartIsProduct(size, i - 1);
      assert i * size == (i - 1) * size + size;
    }
  }

  /** Every byte lies in exactly one chunk. */
  lemma {:induction false} ChunkOfByte(n: nat, size: nat, p: nat) returns (i: nat)
    requires 0 < size && p < n
    ensures i < Count(n, size) && Start(size, i) <= p < End(n, size, i)
    decreases p
  {
    if p < size {
      i := 0;
    } else {
      var j := ChunkOfByte(n - size, size, p - size);
      i := j + 1;
      StartShift(size, i);
    }
  }

  // ---------------------------------------------------------------- trees

  function Chunk(data: seq<byte>, size: nat, i: nat): seq<byte>
    requires 0 < size && i < Count(|data|, size)
  {
    CountIff(|data|, size, i);
    data[Start(size, i)..End(|data|, size, i)]
  }

  function LeafAt(hash: Hasher, data: seq<byte>, size: nat, i: nat): Leaf
    requires 0 < size && i < Count(|data|, size)
  {
    Leaf(Start(size, i), |Chunk(data, size, i)| % LENGTH_WRAP, hash(Chunk(data, size, i)))
  }

  function Leaves(hash: Hasher, data: seq<byte>, size: nat): (r: seq<Leaf>)
    ensures |r| == Count(|data|, size)
  {
    seq(Count(|data|, size), i requires 0 <= i < Count(|data|, size) => LeafAt(hash, data, size, i))
  }

  function Digests(leaves: seq<Leaf>): (r: seq<Digest>)
    ensures |r| == |leaves|
  {
    seq(|leaves|, i requires 0 <= i < |leaves| => leaves[i].hash)
  }

  function Root(hash: Hasher, leaves: seq<Leaf>): Digest {
    if |leaves| == 0 then hash([])
    else if |leaves| == 1 then leaves[0].hash
    else hash(Concat(Digests(leaves)))
  }

  function TreeOf(hash: Hasher, data: seq<byte>, size: nat): Tree {
    Tree(size, |data|, Root(hash, Leaves(hash, data, size)), Leaves(hash, data, size))
  }

  /** What a read of up to `want` bytes may return when `left` remain: nothing only at the end. */
  function ReadSize(wish: nat, want: nat, left: nat): (n: nat)
    ensures n <= want && n <= left && (n == 0 <==> want == 0 || left == 0)
  {
    var most := if want <= left then want else left;
    if most == 0 then 0 else if wish == 0 then 1 else if wish <= most then wish else most
  }

  method ComputeRoot(hash: Hasher, leaves: seq<Leaf>) returns (root: Digest)
    ensures root == Root(hash, leaves)
  {
    if |leaves| == 0 { return hash([]); }
    if |leaves| == 1 { return leaves[0].hash; }
    var fed: seq<byte> := [];
    var digests := Digests(leaves);
    assert digests[..0] == [];
    for i := 0 to |leaves|
      invariant fed == Concat(digests[..i])
    {
      assert digests[..i + 1] == digests[..i] + [digests[i]];
      ConcatAppend(digests[..i], [digests[i]]);
      ConcatOne<byte>(digests[i]);
      fed := fed + leaves[i].hash;
    }
    assert digests[..|leaves|] == digests;
    root := hash(fed);
  }

  /** Reads one chunk through however many short reads it takes. */
  method ReadChunk(data: seq<byte>, size: nat, pos: nat, wishes: nat -> nat, turn: nat) returns (total: nat, next: nat)
    requires pos <= |data|
    ensures total == if size <= |data| - pos then size else |data| - pos
  {
    total, next := 0, turn;
    while true
      invariant total <= size && total <= |data| - pos
      decreases size - total
    {
      var n := ReadSize(wishes(next), size - total, |data| - pos - total);
      next := next + 1;
      if n == 0 { break; }
      total := total + n;
      if total >= size { break; }
    }
  }

  /** Building a tree from a file: whatever lengths the reads return, the leaves are the fixed-size chunks. */
  method FromFile(hash: Hasher, data: seq<byte>, size: nat, wishes: nat -> nat) returns (tree: Tree)
    ensures tree == TreeOf(hash, data, size)
  {
    var leaves: seq<Leaf>, offset, turn := [], 0, 0;
    var count := Count(|data|, size);
    while true
      invariant |leaves| <= count && offset <= |data|
      invariant offset == if |leaves| < count then Start(size, |leaves|) else if size == 0 then 0 else |data|
      invariant leaves == Leaves(hash, data, size)[..|leaves|]
      decreases count - |leaves|
    {
      ghost var i := |leaves|;
      var total;
      total, turn := ReadChunk(data, size, offset, wishes, turn);
      if size > 0 { CountIff(|data|, size, i); CountIff(|data|, size, i + 1); }
      if total == 0 {
        assert |leaves| == count;
        break;
      }
      var leaf := Leaf(offset, total % LENGTH_WRAP, hash(data[offset..offset + total]));
      assert leaf == LeafAt(hash, data, size, i);
      leaves := leaves + [leaf];
      offset := offset + total;
    }
    assert leaves == Leaves(hash, data, size);
    var root := ComputeRoot(hash, leaves);
    tree := Tree(size, |data|, root, leaves);
  }

  // ---------------------------------------------------------------- the root

  /** Everything hashed for one file. */
  ghost function Hashed(hash: Hasher, data: seq<byte>, size: nat): set<seq<byte>>
    requires 0 < size
  {
    (set i: nat | i < Count(|data|, size) :: Chunk(data, size, i))
    + {[], Concat(Digests(Leaves(hash, data, size)))}
  }

  /** A one-chunk file that consists of the leaf hashes of a larger file has that file's root. */
  predicate Impersonates(hash: Hasher, a: seq<byte>, b: seq<byte>, size: nat) {
    |a| <= size < |b| && a == Concat(Digests(Leaves(hash, b, size)))
  }

  lemma SingleChunk(data: seq<byte>, size: nat)
    requires 0 < size
    ensures 1 < Count(|data|, size) <==> size < |data|
    ensures 0 < |data| <= size ==> Count(|data|, size) == 1 && Chunk(data, size, 0) == data
  {
  }

  /** The bytes that the root is a hash of. */
  function RootInput(hash: Hasher, data: seq<byte>, size: nat): seq<byte> {
    if |data| <= size then data else Concat(Digests(Leaves(hash, data, size)))
  }

  lemma RootIsHash(hash: Hasher, data: seq<byte>, size: nat)
    requires 0 < size
    ensures Root(hash, Leaves(hash, data, size)) == hash(RootInput(hash, data, size))
    ensures RootInput(hash, data, size) in Hashed(hash, data, size)
  {
    SingleChunk(data, size);
    if 0 < |data| <= size { assert Chunk(data, size, 0) in Hashed(hash, data, size); }
  }

  /** Fixed-width pieces can be read back off their concatenation. */
  lemma {:induction false} DigestsFromConcat(a: seq<Digest>, b: seq<Digest>)
    requires Concat(a) == Concat(b)
    ensures a == b
  {
    if a != [] && b != [] {
      assert Concat(a)[..32] == a[0] && Concat(a)[32..] == Concat(a[1..]);
      assert Concat(b)[..32] == b[0] && Concat(b)[32..] == Concat(b[1..]);
      DigestsFromConcat(a[1..], b[1..]);
      assert a == [a[0]] + a[1..];
      assert b == [b[0]] + b[1..];
    }
  }

  lemma SameChunk(hash: Hasher, a: seq<byte>, b: seq<byte>, size: nat, i: nat)
    requires 0 < size && i < Count(|a|, size) && i < Count(|b|, size)
    requires CollisionFree(hash, Hashed(hash, a, size) + Hashed(hash, b, size))
    requires Leaves(hash, a, size)[i].hash == Leaves(hash, b, size)[i].hash
    ensures Chunk(a, size, i) == Chunk(b, size, i)
  {
    assert Chunk(a, size, i) in Hashed(hash, a, size);
    assert Chunk(b, size, i) in Hashed(hash, b, size);
  }

  /** A byte of a chunk that both files share is the same byte in both. */
  lemma SharedByte(a: seq<byte>, b: seq<byte>, size: nat, i: nat, p: nat)
    requires 0 < size && i < Count(|a|, size) && i < Count(|b|, size) && Chunk(a, size, i) == Chunk(b, size, i)
    requires Start(size, i) <= p < End(|a|, size, i)
    ensures p < |b| && a[p] == b[p]
  {
    CountIff(|a|, size, i);
    CountIff(|b|, size, i);
    SharedSlice(a, b, Start(size, i), End(|a|, size, i), End(|b|, size, i), p);
  }

  lemma SharedSlice(a: seq<byte>, b: seq<byte>, lo: nat, hiA: nat, hiB: nat, p: nat)
    requires lo <= p < hiA <= |a| && lo <= hiB <= |b| && a[lo..hiA] == b[lo..hiB]
    ensures p < |b| && a[p] == b[p]
  {
    assert |a[lo..hiA]| == |b[lo..hiB]|;
    assert a[p] == a[lo..hiA][p - lo] == b[lo..hiB][p - lo] == b[p];
  }

  lemma SameLeavesByte(hash: Hasher, a: seq<byte>, b: seq<byte>, size: nat, p: nat)
    requires 0 < size && Digests(Leaves(hash, a, size)) == Digests(Leaves(hash, b, size)) && p < |a|
    requires CollisionFree(hash, Hashed(hash, a, size) + Hashed(hash, b, size))
    ensures p < |b| && a[p] == b[p]
  {
    var i := ChunkOfByte(|a|, size, p);
    assert |Leaves(hash, b, size)| == |Digests(Leaves(hash, a, size))|;
    assert Digests(Leaves(hash, a, size))[i] == Digests(Leaves(hash, b, size))[i];
    SameChunk(hash, a, b, size, i);
    SharedByte(a, b, size, i, p);
  }

  lemma SameLeavesPrefix(hash: Hasher, a: seq<byte>, b: seq<byte>, size: nat)
    requires 0 < size && Digests(Leaves(hash, a, size)) == Digests(Leaves(hash, b, size))
    requires CollisionFree(hash, Hashed(hash, a, size) + Hashed(hash, b, size))
    ensures |a| <= |b| && a == b[..|a|]
  {
    if |a| > 0 { SameLeavesByte(hash, a, b, size, |a| - 1); }
    forall p | 0 <= p < |a|
      ensures a[p] == b[p]
    {
      SameLeavesByte(hash, a, b, size, p);
    }
  }

  /**
   * Roots of trees with the same chunk size are equal exactly when the files are, or when one file has a single
   * leaf and consists of the other's leaf hashes. With equally many leaves only the first can happen.
   */
  lemma RootsEqualIff(hash: Hasher, a: seq<byte>, b: seq<byte>, size: nat)
    requires 0 < size && CollisionFree(hash, Hashed(hash, a, size) + Hashed(hash, b, size))
    ensures TreeOf(hash, a, size).root == TreeOf(hash, b, size).root
            <==> a == b || Impersonates(hash, a, b, size) || Impersonates(hash, b, a, size)
    ensures Count(|a|, size) == Count(|b|, size) ==> !Impersonates(hash, a, b, size)
  {
    RootIsHash(hash, a, size);
    RootIsHash(hash, b, size);
    SingleChunk(a, size);
    SingleChunk(b, size);
    var x, y := RootInput(hash, a, size), RootInput(hash, b, size);
    assert TreeOf(hash, a, size).root == TreeOf(hash, b, size).root <==> x == y;
    if size < |a| && size < |b| && x == y {
      DigestsFromConcat(Digests(Leaves(hash, a, size)), Digests(Leaves(hash, b, size)));
      SameLeavesPrefix(hash, a, b, size);
      assert Hashed(hash, a, size) + Hashed(hash, b, size) == Hashed(hash, b, size) + Hashed(hash, a, size);
      SameLeavesPrefix(hash, b, a, size);
    }
  }

  /** A chunk size of zero, which the reader of stored signatures turns away, would make every two files look alike. */
  lemma ZeroChunkSize(hash: Hasher, a: seq<byte>, b: seq<byte>)
    ensures TreeOf(hash, a, 0).root == TreeOf(hash, b, 0).root == hash([])
  {
  }

  /** The signature is that of a file whose hashes can be told from the source's. */
  ghost predicate SignatureOf(hash: Hasher, stored: Signature, was: seq<byte>, src: seq<byte>) {
    && 0 < stored.chunkSize && stored == ToSignature(TreeOf(hash, was, stored.chunkSize))
    && CollisionFree(hash, Hashed(hash, src, stored.chunkSize) + Hashed(hash, was, stored.chunkSize))
  }

  /**
   * The quick check of a file against the signature stored for another: it succeeds exactly when the files are equal
   * or one impersonates the other, which needs different leaf counts.
   */
  method VerifyWithMerkle(hash: Hasher, src: seq<byte>, stored: Signature, wishes: nat -> nat) returns (same: bool)
    ensures same <==> TreeOf(hash, src, stored.chunkSize).root == stored.root
    ensures forall was :: SignatureOf(hash, stored, was, src) ==>
              && (same <==> src == was || Impersonates(hash, src, was, stored.chunkSize)
                            || Impersonates(hash, was, src, stored.chunkSize))
              && (Count(|src|, stored.chunkSize) == Count(|was|, stored.chunkSize) ==> (same <==> src == was))
  {
    var tree := FromFile(hash, src, stored.chunkSize, wishes);
    same := tree.root == stored.root;
    var size := stored.chunkSize;
    forall was | SignatureOf(hash, stored, was, src)
      ensures same <==> src == was || Impersonates(hash, src, was, size) || Impersonates(hash, was, src, size)
      ensures Count(|src|, size) == Count(|was|, size) ==> (same <==> src == was)
    {
      RootsEqualIff(hash, src, was, size);
      assert Hashed(hash, src, size) + Hashed(hash, was, size) == Hashed(hash, was, size) + Hashed(hash, src, size);
      RootsEqualIff(hash, was, src, size);
    }
  }

  function ToSignature(t: Tree): Signature {
    Signature(t.root, t.chunkSize, t.fileSize, Digests(t.leaves))
  }
}
