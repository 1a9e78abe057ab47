/** Byte strings, the digests over them, and the few other notions that every component uses. */
module Bytes {

  type byte = x: int | 0 <= x < 256

  /** An unsigned 64-bit machine word. */
  const WORD := 0x1_0000_0000_0000_0000
  type word = x: int | 0 <= x < WORD

  datatype Option<+T> = None | Some(value: T)

  /** A path as its components; the root is empty. */
  type Path = seq<string>

  function Min(a: nat, b: nat): nat { if a <= b then a else b }

  ghost predicate NoDup<T>(s: seq<T>) { forall i, j :: 0 <= i < j < |s| ==> s[i] != s[j] }

  function Concat<T>(parts: seq<seq<T>>): (r: seq<T>) {
    if parts == [] then [] else parts[0] + Concat(parts[1..])
  }

  lemma {:induction false} ConcatAppend<T>(a: seq<seq<T>>, b: seq<seq<T>>)
    ensures Concat(a + b) == Concat(a) + Concat(b)
  {
    if a == [] {
      assert a + b == b;
    } else {
      assert (a + b)[1..] == a[1..] + b;
      ConcatAppend(a[1..], b);
    }
  }

  lemma ConcatOne<T>(x: seq<T>)
    ensures Concat([x]) == x
  {
    assert Concat([x]) == x + Concat([x][1..]);
  }

  /** Where part `i` of a concatenation lies. */
  lemma {:induction false} ConcatPart<T>(parts: seq<seq<T>>, i: nat)
    requires i < |parts|
    ensures var at := |Concat(parts[..i])|;
            at + |parts[i]| <= |Concat(parts)| && Concat(parts)[at..at + |parts[i]|] == parts[i]
  {
    assert parts == parts[..i] + ([parts[i]] + parts[i + 1..]);
    ConcatAppend(parts[..i], [parts[i]] + parts[i + 1..]);
    assert ([parts[i]] + parts[i + 1..])[1..] == parts[i + 1..];
  }

  /** The byte-string hash of the system (BLAKE3), always 32 bytes long. */
  type Digest = d: seq<byte> | |d| == 32 witness seq(32, _ => 0)
  type Hasher = seq<byte> -> Digest

  /** No two different members of `inputs` share a digest: what "collision resistant" means for one run. */
  ghost predicate CollisionFree(hash: Hasher, inputs: set<seq<byte>>) {
    forall x, y :: x in inputs && y in inputs && hash(x) == hash(y) ==> x == y
  }
}
