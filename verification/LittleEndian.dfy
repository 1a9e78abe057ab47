/** Little-endian integers and records of them. */
module LittleEndian {
  import opened Bytes

  function Pow256(w: nat): (p: nat)
    ensures p > 0
  {
    if w == 0 then 1 else 256 * Pow256(w - 1)
  }

  lemma WordSizes()
    ensures Pow256(4) == 0x1_0000_0000 && Pow256(8) == WORD
  {
    assert Pow256(2) == 65536;
    assert Pow256(4) == 65536 * Pow256(2);
    assert Pow256(6) == 65536 * Pow256(4);
    assert Pow256(8) == 65536 * Pow256(6);
  }

  /** The w low-order bytes of n: a value that does not fit is cut off, as by an integer cast. */
  function Encode(n: nat, w: nat): (s: seq<byte>)
    ensures |s| == w
    decreases w
  {
    if w == 0 then [] else [n % 256] + Encode(n / 256, w - 1)
  }

  function Decode(s: seq<byte>): (n: nat) {
    if s == [] then 0 else s[0] + 256 * Decode(s[1..])
  }

  lemma {:induction false} DecodeEncode(n: nat, w: nat)
    requires n < Pow256(w)
    ensures Decode(Encode(n, w)) == n
    decreases w
  {
    if w > 0 {
      DecodeEncode(n / 256, w - 1);
      assert Encode(n, w)[1..] == Encode(n / 256, w - 1);
    }
  }

  /** Consecutive integer fields, each w bytes wide. */
  function Write(w: nat, values: seq<nat>): (s: seq<byte>)
    ensures |s| == w * |values|
  {
    if values == [] then [] else Encode(values[0], w) + Write(w, values[1..])
  }

  function Read(w: nat, n: nat, s: seq<byte>): (values: seq<nat>)
    requires |s| == w * n
    ensures |values| == n
    decreases n
  {
    if n == 0 then [] else
    assert w * n == w + w * (n - 1);
    [Decode(s[..w])] + Read(w, n - 1, s[w..])
  }

  /** Values that fit their fields are read back. */
  lemma {:induction false} ReadWrite(w: nat, values: seq<nat>)
    requires forall i :: 0 <= i < |values| ==> values[i] < Pow256(w)
    ensures Read(w, |values|, Write(w, values)) == values
  {
    if values != [] {
      var s := Write(w, values);
      assert s[..w] == Encode(values[0], w);
      assert s[w..] == Write(w, values[1..]);
      DecodeEncode(values[0], w);
      ReadWrite(w, values[1..]);
    }
  }
}
