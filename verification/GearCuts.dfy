/** Where the gear chunker cuts, in terms of the bytes alone. */
module GearCuts {
  import opened Bytes
  import opened Chunker

  /** The sum of the bytes' table entries, each weighted by a power of two that falls from the first to the last. */
  function Weighted(gear: Gear, s: seq<byte>): nat {
    if s == [] then 0 else gear(s[0]) * Pow2(|s| - 1) + Weighted(gear, s[1..])
  }

  lemma {:induction false} WeightedSnoc(gear: Gear, s: seq<byte>, b: byte)
    ensures Weighted(gear, s + [b]) == 2 * Weighted(gear, s) + gear(b)
    decreases |s|
  {
    if s == [] {
      assert Weighted(gear, [b][1..]) == 0;
    } else {
      assert (s + [b])[1..] == s[1..] + [b];
      WeightedSnoc(gear, s[1..], b);
      Doubled(gear(s[0]), Pow2(|s| - 1));
    }
  }

  lemma Doubled(x: nat, y: nat)
    ensures x * (2 * y) == 2 * (x * y)
  {
  }

  lemma RollsOn(h: nat, g: nat)
    ensures (2 * (h % WORD) + g) % WORD == (2 * h + g) % WORD
  {
    var q := h / WORD;
    assert 2 * h + g == 2 * (h % WORD) + g + WORD * (2 * q);
  }

  /** The running hash of a chunk is its weighted sum modulo 2^64. */
  lemma {:induction false} HashIsSum(p: Params, gear: Gear, s: seq<byte>)
    requires Valid(p)
    ensures Hash(GearRolling(p, gear), s) == Weighted(gear, s) % WORD
    decreases |s|
  {
    if s != [] {
      var init, last := s[..|s| - 1], s[|s| - 1];
      HashIsSum(p, gear, init);
      assert init + [last] == s;
      WeightedSnoc(gear, init, last);
      RollsOn(Weighted(gear, init), gear(last));
    }
  }

  lemma RemainderIs(a: nat, d: nat, m: nat, r: nat)
    requires a == d * m + r && r < m
    ensures a % m == r
  {
    var q := a / m;
    assert a == q * m + a % m;
    RemaindersAgree(d, r, q, a % m, m);
  }

  /** The hash is masked with 2^k - 1: what is left is the weighted sum modulo 2^k. */
  lemma MaskedSum(w: nat, k: nat)
    requires k <= 64
    ensures BitAnd(w % WORD, Pow2(k) - 1) == w % Pow2(k)
  {
    var h, m := w % WORD, Pow2(k);
    var d := MaskIsRemainder(h, k);
    WordIsPow2();
    Pow2Sum(64 - k, k);
    var q, c := w / WORD, Pow2(64 - k);
    assert WORD == c * m;
    Regroup(q, c, m, d, BitAnd(h, m - 1), w);
    RemainderIs(w, q * c + d, m, BitAnd(h, m - 1));
  }

  lemma Regroup(q: nat, c: nat, m: nat, d: nat, r: nat, w: nat)
    requires w == q * (c * m) + (d * m + r)
    ensures w == (q * c + d) * m + r
  {
  }

  /** A chunk may end here: it has min bytes, and its weighted sum is a multiple of 2^k or it has max bytes. */
  ghost predicate Ends(p: Params, gear: Gear, k: nat, chunk: seq<byte>) {
    |chunk| >= p.min && (Weighted(gear, chunk) % Pow2(k) == 0 || |chunk| >= p.max)
  }

  lemma CutIffEnds(p: Params, gear: Gear, k: nat, chunk: seq<byte>)
    requires Valid(p) && p.avg == Pow2(k) && k <= 64
    ensures CutOf(GearRolling(p, gear))(chunk) <==> Ends(p, gear, k, chunk)
  {
    HashIsSum(p, gear, chunk);
    MaskedSum(Weighted(gear, chunk), k);
    CutIsStop(GearRolling(p, gear), chunk);
  }

  // ---------------------------------------------------------------- every list of pieces cut like this

  /** No piece is empty or could have ended earlier, and each but the last ends where it may. */
  ghost predicate CutRight(cut: Cutter, cs: seq<seq<byte>>) {
    && (forall i :: 0 <= i < |cs| ==> cs[i] != [])
    && (forall i, m :: 0 <= i < |cs| && 0 < m < |cs[i]| ==> !cut(cs[i][..m]))
    && (forall i :: 0 <= i < |cs| - 1 ==> cut(cs[i]))
  }

  lemma CutRightTail(cut: Cutter, cs: seq<seq<byte>>)
    requires CutRight(cut, cs) && cs != []
    ensures CutRight(cut, cs[1..])
  {
    forall i, m | 0 <= i < |cs| - 1 && 0 < m < |cs[i + 1]| ensures !cut(cs[1..][i][..m]) {
      assert cs[1..][i] == cs[i + 1];
    }
  }

  /** The first piece of such a list ends at the first cut. */
  lemma FirstPiece(cut: Cutter, cs: seq<seq<byte>>, data: seq<byte>, start: nat)
    requires CutRight(cut, cs) && start < |data| && Concat(cs) == data[start..]
    ensures cs != [] && start + |cs[0]| == NextCut(cut, data, start, start + 1)
    ensures cs[0] == data[start..start + |cs[0]|] && Concat(cs[1..]) == data[start + |cs[0]|..]
  {
    var c, e := cs[0], NextCut(cut, data, start, start + 1);
    var n := start + |c|;
    assert Concat(cs) == c + Concat(cs[1..]);
    assert c == data[start..][..|c|] == data[start..n];
    assert Concat(cs[1..]) == data[start..][|c|..] == data[n..];
    assert |cs| == 1 ==> n == |data|;
    assert n < |data| ==> cut(data[start..n]);
    forall m | start < m < n ensures !cut(data[start..m]) { assert c[..m - start] == data[start..m]; }
  }

  lemma NoPieces(cs: seq<seq<byte>>)
    requires Concat(cs) == [] && forall i :: 0 <= i < |cs| ==> cs[i] != []
    ensures cs == []
  {
  }

  lemma {:induction false} OnlyChunks(cut: Cutter, cs: seq<seq<byte>>, data: seq<byte>, start: nat)
    requires start <= |data| && CutRight(cut, cs) && Concat(cs) == data[start..]
    ensures cs == Chunks(cut, data, start)
    decreases |data| - start
  {
    if start == |data| {
      NoPieces(cs);
    } else {
      FirstPiece(cut, cs, data, start);
      CutRightTail(cut, cs);
      OnlyChunks(cut, cs[1..], data, start + |cs[0]|);
      assert cs == [cs[0]] + cs[1..];
    }
  }

  lemma {:induction false} ChunksAreCutRight(cut: Cutter, data: seq<byte>, start: nat)
    requires start <= |data|
    ensures CutRight(cut, Chunks(cut, data, start)) && Concat(Chunks(cut, data, start)) == data[start..]
    decreases |data| - start
  {
    if start < |data| {
      var e := NextCut(cut, data, start, start + 1);
      var c, rest := data[start..e], Chunks(cut, data, e);
      ChunksAreCutRight(cut, data, e);
      CutRightCons(cut, c, rest, data, start, e);
      assert ([c] + rest)[1..] == rest;
      assert data[start..] == c + data[e..];
    }
  }

  lemma CutRightCons(cut: Cutter, c: seq<byte>, rest: seq<seq<byte>>, data: seq<byte>, start: nat, e: nat)
    requires start < |data| && e == NextCut(cut, data, start, start + 1) && c == data[start..e]
    requires CutRight(cut, rest) && Concat(rest) == data[e..]
    ensures CutRight(cut, [c] + rest)
  {
    var cs := [c] + rest;
    forall i, m | 0 <= i < |cs| && 0 < m < |cs[i]| ensures !cut(cs[i][..m]) {
      if i == 0 { assert c[..m] == data[start..start + m]; } else { assert cs[i] == rest[i - 1]; }
    }
    forall i | 0 <= i < |cs| - 1 ensures cut(cs[i]) {
      if i == 0 {
        assert rest != [] && Concat(rest) == rest[0] + Concat(rest[1..]);
        assert e < |data|;
      } else {
        assert cs[i] == rest[i - 1];
      }
    }
  }

  /** The same of the gear chunker, by weighted sums. */
  ghost predicate GearCut(p: Params, gear: Gear, k: nat, cs: seq<seq<byte>>) {
    && (forall i :: 0 <= i < |cs| ==> cs[i] != [])
    && (forall i, m :: 0 <= i < |cs| && 0 < m < |cs[i]| ==> !Ends(p, gear, k, cs[i][..m]))
    && (forall i :: 0 <= i < |cs| - 1 ==> Ends(p, gear, k, cs[i]))
  }

  lemma GearCutIff(p: Params, gear: Gear, k: nat, cs: seq<seq<byte>>)
    requires Valid(p) && p.avg == Pow2(k) && k <= 64
    ensures GearCut(p, gear, k, cs) <==> CutRight(CutOf(GearRolling(p, gear)), cs)
  {
    forall c: seq<byte> ensures CutOf(GearRolling(p, gear))(c) <==> Ends(p, gear, k, c) { CutIffEnds(p, gear, k, c); }
  }

  /**
   * For an average of 2^k: of all ways to split the data into pieces, the chunks are the one in which each piece but
   * the last has at least min bytes and either max bytes or a weighted sum that is a multiple of 2^k, and no piece
   * has a proper prefix like that.
   */
  lemma ChunksIff(p: Params, gear: Gear, k: nat, data: seq<byte>, cs: seq<seq<byte>>)
    requires Valid(p) && p.avg == Pow2(k) && k <= 64
    ensures cs == ChunksOf(p, gear, data) <==> Concat(cs) == data && GearCut(p, gear, k, cs)
  {
    var cut := CutOf(GearRolling(p, gear));
    assert data[0..] == data;
    ChunksAreCutRight(cut, data, 0);
    GearCutIff(p, gear, k, cs);
    if Concat(cs) == data && CutRight(cut, cs) { OnlyChunks(cut, cs, data, 0); }
  }

  /** The program's own parameters: 2 KiB, 64 KiB and 2 MiB. */
  lemma DefaultChunksIff(gear: Gear, data: seq<byte>, cs: seq<seq<byte>>)
    ensures cs == ChunksOf(DefaultParams, gear, data)
            <==> Concat(cs) == data && GearCut(Params(2048, 65536, 2097152), gear, 16, cs)
  {
    assert Pow2(8) == 256;
    Pow2Sum(8, 8);
    ChunksIff(DefaultParams, gear, 16, data, cs);
  }
}
