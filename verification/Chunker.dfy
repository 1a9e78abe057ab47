/** Content-defined chunking with the gear hash. */
module Chunker {
  import opened Bytes

  datatype Params = Params(min: nat, avg: nat, max: nat)

  /** What the constructor asserts; `usize` is 64 bits wide. */
  predicate Valid(p: Params) { 0 < p.min <= p.avg <= p.max < WORD }

  const DefaultParams := Params(2 * 1024, 64 * 1024, 2 * 1024 * 1024)

  /** The 256-entry lookup table. Everything below holds for every table. */
  type Gear = byte -> word

  function Pow2(k: nat): (p: nat)
    ensures p > 0
  {
    if k == 0 then 1 else 2 * Pow2(k - 1)
  }

  function BitAnd(a: nat, b: nat): nat {
    if a == 0 || b == 0 then 0
    else 2 * BitAnd(a / 2, b / 2) + (if a % 2 == 1 && b % 2 == 1 then 1 else 0)
  }

  /** A rolling hash with a hit test, and the chunk length limits. */
  datatype Rolling = Rolling(min: nat, max: nat, roll: (word, byte) -> word, hit: word -> bool)

  /** The gear hash: shift, add the table entry, wrap at 64 bits; a hit has all bits of avg - 1 clear. */
  function GearRolling(p: Params, gear: Gear): Rolling
    requires Valid(p)
  {
    Rolling(p.min, p.max, (h: word, b: byte) => (2 * h + gear(b)) % WORD, (h: word) => BitAnd(h, p.avg - 1) == 0)
  }

  /** The hash of a chunk; it starts at zero at every cut. */
  function Hash(r: Rolling, s: seq<byte>): word {
    if s == [] then 0 else r.roll(Hash(r, s[..|s| - 1]), s[|s| - 1])
  }

  /** The test after each byte: long enough, and a hit or too long. */
  predicate Stop(r: Rolling, h: word, chunkLen: nat) {
    chunkLen >= r.min && (r.hit(h) || chunkLen >= r.max)
  }

  /** Tells whether the chunk read so far may end here. */
  type Cutter = seq<byte> -> bool

  function CutOf(r: Rolling): Cutter {
    (chunk: seq<byte>) => Stop(r, Hash(r, chunk), |chunk|)
  }

  /** The end of the chunk that begins at `start`: the first position from `from` on where it may be cut, or the end. */
  function NextCut(cut: Cutter, data: seq<byte>, start: nat, from: nat): (e: nat)
    requires start < from <= |data|
    ensures from <= e <= |data|
    ensures forall m {:trigger cut(data[start..m])} :: from <= m < e ==> !cut(data[start..m])
    ensures e < |data| ==> cut(data[start..e])
    decreases |data| - from
  {
    if from == |data| || cut(data[start..from]) then from else NextCut(cut, data, start, from + 1)
  }

  /** The boundaries after `start`, which is one itself. */
  function Boundaries(cut: Cutter, data: seq<byte>, start: nat): (ends: seq<nat>)
    requires start <= |data|
    decreases |data| - start
  {
    if start == |data| then [] else
    var e := NextCut(cut, data, start, start + 1);
    [e] + Boundaries(cut, data, e)
  }

  /** The chunks from `start` on. */
  function Chunks(cut: Cutter, data: seq<byte>, start: nat): (cs: seq<seq<byte>>)
    requires start <= |data|
    decreases |data| - start
  {
    if start == |data| then [] else
    var e := NextCut(cut, data, start, start + 1);
    [data[start..e]] + Chunks(cut, data, e)
  }

  /** The chunks the gear chunker makes of a whole input. */
  function ChunksOf(p: Params, gear: Gear, data: seq<byte>): seq<seq<byte>>
    requires Valid(p)
  {
    Chunks(CutOf(GearRolling(p, gear)), data, 0)
  }

  // ---------------------------------------------------------------- the loops

  lemma HashStep(r: Rolling, data: seq<byte>, start: nat, i: nat)
    requires start <= i < |data|
    ensures r.roll(Hash(r, data[start..i]), data[i]) == Hash(r, data[start..i + 1])
  {
    var chunk := data[start..i + 1];
    assert chunk[..|chunk| - 1] == data[start..i];
  }

  /** What the scan knows before it reads byte i of the chunk that began at `start`. */
  ghost predicate Scanning(r: Rolling, data: seq<byte>, done: seq<nat>, start: nat, hash: word, i: nat) {
    && start <= i <= |data|
    && done + Boundaries(CutOf(r), data, start) == Boundaries(CutOf(r), data, 0)
    && hash == Hash(r, data[start..i])
    && (start < |data| ==> var e := NextCut(CutOf(r), data, start, start + 1); i < e || i == e == |data|)
  }

  lemma NextCutStep(cut: Cutter, data: seq<byte>, start: nat, m: nat)
    requires start < m <= |data| && m <= NextCut(cut, data, start, start + 1)
    ensures cut(data[start..m]) || m == |data| ==> NextCut(cut, data, start, start + 1) == m
    ensures !cut(data[start..m]) && m < |data| ==> m < NextCut(cut, data, start, start + 1)
  {
  }

  lemma BoundaryPush(cut: Cutter, data: seq<byte>, done: seq<nat>, start: nat)
    requires start < |data|
    ensures var e := NextCut(cut, data, start, start + 1);
            done + Boundaries(cut, data, start) == done + [e] + Boundaries(cut, data, e)
  {
  }

  /** Reading one byte: the chunk goes on, or it ends here. */
  lemma ScanStep(r: Rolling, data: seq<byte>, done: seq<nat>, start: nat, hash: word, i: nat)
    requires i < |data| && Scanning(r, data, done, start, hash, i)
    ensures var h := r.roll(hash, data[i]);
            if Stop(r, h, i + 1 - start)
            then Scanning(r, data, done + [i + 1], i + 1, 0, i + 1)
            else Scanning(r, data, done, start, h, i + 1)
  {
    var h, e := r.roll(hash, data[i]), NextCut(CutOf(r), data, start, start + 1);
    CutHere(r, data, start, i);
    if Stop(r, h, i + 1 - start) {
      assert e == i + 1 by { NextCutStep(CutOf(r), data, start, i + 1); }
      ScanCut(r, data, done, start, i + 1);
    } else {
      assert i + 1 < e || i + 1 == e == |data| by { NextCutStep(CutOf(r), data, start, i + 1); }
    }
  }

  /** The running hash decides whether the chunk is cut after byte i. */
  lemma CutHere(r: Rolling, data: seq<byte>, start: nat, i: nat)
    requires start <= i < |data|
    ensures var h := r.roll(Hash(r, data[start..i]), data[i]);
            h == Hash(r, data[start..i + 1]) && (CutOf(r)(data[start..i + 1]) <==> Stop(r, h, i + 1 - start))
  {
    HashStep(r, data, start, i);
    CutIsStop(r, data[start..i + 1]);
  }

  lemma CutIsStop(r: Rolling, chunk: seq<byte>)
    ensures CutOf(r)(chunk) == Stop(r, Hash(r, chunk), |chunk|)
  {
  }

  /** The chunk ends at e, and the next one begins there. */
  lemma ScanCut(r: Rolling, data: seq<byte>, done: seq<nat>, start: nat, e: nat)
    requires start < e <= |data| && e == NextCut(CutOf(r), data, start, start + 1)
    requires done + Boundaries(CutOf(r), data, start) == Boundaries(CutOf(r), data, 0)
    ensures Scanning(r, data, done + [e], e, 0, e)
  {
    BoundaryPush(CutOf(r), data, done, start);
    assert data[e..e] == [];
  }

  lemma ScanEnd(r: Rolling, data: seq<byte>, done: seq<nat>, start: nat, hash: word)
    requires Scanning(r, data, done, start, hash, |data|)
    ensures Boundaries(CutOf(r), data, 0) == done + (if start < |data| then [|data|] else [])
  {
    assert Boundaries(CutOf(r), data, |data|) == [];
    assert start < |data| ==> Boundaries(CutOf(r), data, start) == [|data|];
  }

  /** The single pass over the input: `hash` and `start` are reset at each boundary. */
  method FindBoundaries(r: Rolling, data: seq<byte>) returns (boundaries: seq<nat>)
    ensures boundaries == Boundaries(CutOf(r), data, 0)
  {
    var start, hash;
    boundaries, start, hash := ScanInput(r, data);
    ScanEnd(r, data, boundaries, start, hash);
    if start < |data| {
      boundaries := boundaries + [|data|];
    }
  }

  method ScanInput(r: Rolling, data: seq<byte>) returns (boundaries: seq<nat>, start: nat, hash: word)
    ensures Scanning(r, data, boundaries, start, hash, |data|)
  {
    boundaries, start, hash := [], 0, 0;
    ScanStart(r, data);
    for i := 0 to |data|
      invariant Scanning(r, data, boundaries, start, hash, i)
    {
      ScanStep(r, data, boundaries, start, hash, i);
      hash := r.roll(hash, data[i]);
      if Stop(r, hash, i - start + 1) {
        boundaries := boundaries + [i + 1];
        start, hash := i + 1, 0;
      }
    }
  }

  lemma ScanStart(r: Rolling, data: seq<byte>)
    ensures Scanning(r, data, [], 0, 0, 0)
  {
    assert data[0..0] == [];
  }

  /** Cutting the input at its boundaries. */
  method ChunkSlice(p: Params, gear: Gear, data: seq<byte>) returns (chunks: seq<seq<byte>>)
    requires Valid(p)
    ensures chunks == ChunksOf(p, gear, data)
  {
    if data == [] { return []; }
    var r := GearRolling(p, gear);
    var boundaries := FindBoundaries(r, data);
    chunks := CutAt(CutOf(r), data, boundaries);
  }

  method CutAt(ghost cut: Cutter, data: seq<byte>, boundaries: seq<nat>) returns (chunks: seq<seq<byte>>)
    requires boundaries == Boundaries(cut, data, 0)
    ensures chunks == Chunks(cut, data, 0)
  {
    chunks := [];
    var start: nat := 0;
    for i := 0 to |boundaries|
      invariant start <= |data|
      invariant boundaries[i..] == Boundaries(cut, data, start)
      invariant chunks + Chunks(cut, data, start) == Chunks(cut, data, 0)
    {
      assert boundaries[i..][1..] == boundaries[i + 1..];
      assert boundaries[i] == boundaries[i..][0];
      var end := boundaries[i];
      chunks := chunks + [data[start..end]];
      start := end;
    }
  }

  /** What a reader delivers before its first empty read. */
  function Delivered(pieces: seq<seq<byte>>): seq<byte> {
    if pieces == [] || pieces[0] == [] then [] else pieces[0] + Delivered(pieces[1..])
  }

  lemma DeliveredStep(buf: seq<byte>, pieces: seq<seq<byte>>, i: nat)
    requires i < |pieces| && pieces[i] != []
    ensures buf + Delivered(pieces[i..]) == buf + pieces[i] + Delivered(pieces[i + 1..])
  {
    assert pieces[i..][1..] == pieces[i + 1..];
  }

  /** However the reader splits its input, the chunks are those of the whole. */
  method ChunkReader(p: Params, gear: Gear, pieces: seq<seq<byte>>) returns (chunks: seq<seq<byte>>)
    requires Valid(p)
    ensures chunks == ChunksOf(p, gear, Delivered(pieces))
  {
    var buf: seq<byte> := [];
    var i := 0;
    while i < |pieces| && pieces[i] != []
      invariant 0 <= i <= |pieces|
      invariant buf + Delivered(pieces[i..]) == Delivered(pieces)
    {
      DeliveredStep(buf, pieces, i);
      buf := buf + pieces[i];
      i := i + 1;
    }
    assert buf == Delivered(pieces) by { assert Delivered(pieces[i..]) == []; }
    chunks := ChunkSlice(p, gear, buf);
  }

  // ---------------------------------------------------------------- partition

  lemma {:induction false} ConcatOfChunks(cut: Cutter, data: seq<byte>, start: nat)
    requires start <= |data|
    ensures Concat(Chunks(cut, data, start)) == data[start..]
    decreases |data| - start
  {
    if start < |data| {
      var e := NextCut(cut, data, start, start + 1);
      ConcatOfChunks(cut, data, e);
      assert data[start..] == data[start..e] + data[e..];
    }
  }

  /** A chunk may be cut from min bytes on, and must be at max bytes. */
  ghost predicate Bounded(cut: Cutter, min: nat, max: nat) {
    forall s {:trigger cut(s)} :: (cut(s) ==> min <= |s|) && (max <= |s| ==> cut(s))
  }

  ghost predicate LengthsIn(cs: seq<seq<byte>>, min: nat, max: nat) {
    && (forall i :: 0 <= i < |cs| ==> 0 < |cs[i]| <= max)
    && (forall i :: 0 <= i < |cs| - 1 ==> min <= |cs[i]|)
  }

  lemma {:induction false} ChunkLengths(cut: Cutter, min: nat, max: nat, data: seq<byte>, start: nat)
    requires start <= |data| && 0 < max && Bounded(cut, min, max)
    ensures LengthsIn(Chunks(cut, data, start), min, max)
    decreases |data| - start
  {
    if start < |data| {
      var e := NextCut(cut, data, start, start + 1);
      assert start + max <= |data| ==> cut(data[start..start + max]);
      var first, rest := data[start..e], Chunks(cut, data, e);
      ChunkLengths(cut, min, max, data, e);
      assert rest != [] ==> min <= |first|;
      LengthsCons(first, rest, min, max);
    }
  }

  lemma LengthsCons(first: seq<byte>, rest: seq<seq<byte>>, min: nat, max: nat)
    requires LengthsIn(rest, min, max) && 0 < |first| <= max && (rest != [] ==> min <= |first|)
    ensures LengthsIn([first] + rest, min, max)
  {
  }

  /** Every input is split without loss into chunks of min..max bytes; only the last may be shorter than min. */
  lemma ChunksPartition(p: Params, gear: Gear, data: seq<byte>)
    requires Valid(p)
    ensures var cs := ChunksOf(p, gear, data);
            Concat(cs) == data && LengthsIn(cs, p.min, p.max)
  {
    var cut := CutOf(GearRolling(p, gear));
    assert Bounded(cut, p.min, p.max);
    ConcatOfChunks(cut, data, 0);
    ChunkLengths(cut, p.min, p.max, data, 0);
  }

  /** Boundaries are strictly increasing and the last one is the input length. */
  lemma {:induction false} BoundariesIncrease(cut: Cutter, data: seq<byte>, start: nat)
    requires start <= |data|
    ensures var b := Boundaries(cut, data, start);
            && (forall i :: 0 <= i < |b| ==> start < b[i] <= |data|)
            && (forall i, j :: 0 <= i < j < |b| ==> b[i] < b[j])
            && (start < |data| ==> |b| > 0 && b[|b| - 1] == |data|)
    decreases |data| - start
  {
    if start < |data| {
      BoundariesIncrease(cut, data, NextCut(cut, data, start, start + 1));
    }
  }

  // ---------------------------------------------------------------- locality

  lemma MulAtLeast(x: int, m: int)
    requires x >= 1 && m > 0
    ensures x * m >= m
  {
  }

  lemma RemaindersAgree(d: int, r: int, e: int, s: int, m: int)
    requires 0 <= r < m && 0 <= s < m && d * m + r == e * m + s
    ensures r == s
  {
    assert (d - e) * m == s - r && (e - d) * m == r - s;
    if d > e { MulAtLeast(d - e, m); assert false; }
    if e > d { MulAtLeast(e - d, m); assert false; }
  }

  /** Masking with 2^k - 1 keeps the remainder of the division by 2^k. */
  lemma {:induction false} MaskIsRemainder(a: nat, k: nat) returns (d: nat)
    ensures a == d * Pow2(k) + BitAnd(a, Pow2(k) - 1) && BitAnd(a, Pow2(k) - 1) < Pow2(k)
    decreases k
  {
    if k == 0 {
      d := a;
    } else if a == 0 {
      d := 0;
    } else {
      var q := Pow2(k - 1);
      d := MaskIsRemainder(a / 2, k - 1);
      BitAndStep(a, q);
      DoubleDivision(a, d, q, BitAnd(a / 2, q - 1));
    }
  }

  lemma DoubleDivision(a: nat, d: nat, q: nat, r: nat)
    requires a / 2 == d * q + r
    ensures a == d * (2 * q) + (2 * r + a % 2)
  {
    assert 2 * (d * q) == d * (2 * q);
  }

  lemma BitAndStep(a: nat, q: nat)
    requires a > 0 && q > 0
    ensures BitAnd(a, 2 * q - 1) == 2 * BitAnd(a / 2, q - 1) + a % 2
  {
    var mask := 2 * q - 1;
    assert mask / 2 == q - 1 && mask % 2 == 1;
  }

  lemma {:induction false} Pow2Sum(a: nat, b: nat)
    ensures Pow2(a + b) == Pow2(a) * Pow2(b)
    decreases a
  {
    if a > 0 {
      Pow2Sum(a - 1, b);
      assert Pow2(a + b) == 2 * (Pow2(a - 1) * Pow2(b));
    }
  }

  lemma WordIsPow2()
    ensures Pow2(64) == WORD
  {
    assert Pow2(4) == 16;
    Pow2Sum(4, 4);
    Pow2Sum(8, 8);
    Pow2Sum(16, 16);
    Pow2Sum(32, 32);
  }

  lemma Reduce(x: int) returns (d: int)
    ensures x % WORD == x - d * WORD
  {
    d := x / WORD;
  }

  lemma Factor(u: int, q: int, e: int, c: int)
    ensures 2 * (u * q) - e * (c * (2 * q)) == (u - e * c) * (2 * q)
  {
    assert e * (c * (2 * q)) == (e * c) * (2 * q);
  }

  /** Modulo 2^k, the hash of a chunk is the hash of its last k bytes. */
  lemma {:induction false} HashSeesTail(p: Params, gear: Gear, a: seq<byte>, s: seq<byte>) returns (t: int)
    requires Valid(p) && |s| <= 64
    ensures Hash(GearRolling(p, gear), a + s) == Hash(GearRolling(p, gear), s) + t * Pow2(|s|)
  {
    if s == [] {
      assert a + s == a;
      t := Hash(GearRolling(p, gear), a);
    } else {
      var k := |s|;
      var s', b := s[..k - 1], s[k - 1];
      assert (a + s)[..|a + s| - 1] == a + s';
      var u := HashSeesTail(p, gear, a, s');
      WordIsPow2();
      Pow2Sum(64 - k, k);
      t := RollCarry(p, gear, b, Hash(GearRolling(p, gear), a + s'), Hash(GearRolling(p, gear), s'), u, Pow2(k - 1),
          Pow2(64 - k));
    }
  }

  lemma RollCarry(p: Params, gear: Gear, b: byte, x: word, y: word, u: int, q: nat, c: nat) returns (t: int)
    requires Valid(p) && x == y + u * q && WORD == c * (2 * q)
    ensures var roll := GearRolling(p, gear).roll; roll(x, b) == roll(y, b) + t * (2 * q)
  {
    var dx := Reduce(2 * x + gear(b));
    var dy := Reduce(2 * y + gear(b));
    var uq, t' := u * q, u - (dx - dy) * c;
    Factor(u, q, dx - dy, c);
    assert GearRolling(p, gear).roll(x, b) - GearRolling(p, gear).roll(y, b) == 2 * uq - (dx - dy) * WORD;
    t := t';
  }

  /**
   * With avg == 2^k and k <= min the cut decision is local: for chunks that long, and shorter than max,
   * it is a function of the last k bytes alone.
   */
  lemma CutIsLocal(p: Params, gear: Gear, k: nat, a: seq<byte>, window: seq<byte>)
    requires Valid(p) && p.avg == Pow2(k) && k <= p.min && k <= 64
    requires |window| == k && p.min <= |a + window| < p.max
    ensures CutOf(GearRolling(p, gear))(a + window) <==> GearRolling(p, gear).hit(Hash(GearRolling(p, gear), window))
  {
    MaskSeesTail(p, gear, k, a, window);
  }

  lemma MaskSeesTail(p: Params, gear: Gear, k: nat, a: seq<byte>, window: seq<byte>)
    requires Valid(p) && p.avg == Pow2(k) && |window| == k <= 64
    ensures GearRolling(p, gear).hit(Hash(GearRolling(p, gear), a + window))
            == GearRolling(p, gear).hit(Hash(GearRolling(p, gear), window))
  {
    var x, y := Hash(GearRolling(p, gear), a + window), Hash(GearRolling(p, gear), window);
    var t := HashSeesTail(p, gear, a, window);
    var d := MaskIsRemainder(x, k);
    var e := MaskIsRemainder(y, k);
    var m, rx, ry := Pow2(k), BitAnd(x, Pow2(k) - 1), BitAnd(y, Pow2(k) - 1);
    assert d * m + rx == (e + t) * m + ry;
    RemaindersAgree(d, rx, e + t, ry, m);
  }

  // ---------------------------------------------------------------- resynchronisation

  /** The positions at which a chunk of `data` begins or ends. */
  ghost predicate IsBoundary(cut: Cutter, data: seq<byte>, n: nat) {
    n == 0 || n in Boundaries(cut, data, 0)
  }

  /** From a position in the suffix on, what came before the suffix has no influence. */
  lemma {:induction false} NextCutInSuffix(cut: Cutter, a: seq<byte>, s: seq<byte>, start: nat, from: nat)
    requires start < from <= |s|
    ensures NextCut(cut, a + s, |a| + start, |a| + from) == |a| + NextCut(cut, s, start, from)
    decreases |s| - from
  {
    assert (a + s)[|a| + start..|a| + from] == s[start..from];
    if from < |s| {
      NextCutInSuffix(cut, a, s, start, from + 1);
    }
  }

  lemma {:induction false} ChunksInSuffix(cut: Cutter, a: seq<byte>, s: seq<byte>, start: nat)
    requires start <= |s|
    ensures Chunks(cut, a + s, |a| + start) == Chunks(cut, s, start)
    decreases |s| - start
  {
    if start < |s| {
      NextCutInSuffix(cut, a, s, start, start + 1);
      var e := NextCut(cut, s, start, start + 1);
      assert (a + s)[|a| + start..|a| + e] == s[start..e];
      ChunksInSuffix(cut, a, s, e);
    }
  }

  /** Chunking restarts afresh at every boundary. */
  lemma {:induction false} ChunksRestart(cut: Cutter, data: seq<byte>, start: nat, n: nat)
      returns (pre: seq<seq<byte>>)
    requires start <= |data| && (n == start || n in Boundaries(cut, data, start))
    ensures start <= n <= |data| && Concat(pre) == data[start..n]
    ensures Chunks(cut, data, start) == pre + Chunks(cut, data, n)
    decreases |data| - start
  {
    if n == start {
      pre := [];
    } else {
      var e := NextCut(cut, data, start, start + 1);
      var first := data[start..e];
      var rest := ChunksRestart(cut, data, e, n);
      pre := [first] + rest;
      assert Concat(pre) == first + Concat(rest) by { assert pre[1..] == rest; }
      assert first + data[e..n] == data[start..n];
      assert [first] + (rest + Chunks(cut, data, n)) == pre + Chunks(cut, data, n);
    }
  }

  /** Is there no boundary within less than `min` bytes before position n? */
  ghost predicate QuietBefore(cut: Cutter, min: nat, data: seq<byte>, n: nat) {
    forall e: nat :: n - min < e < n ==> !IsBoundary(cut, data, e)
  }

  /** Would a chunk that ends at n and is at least min bytes long be cut there, wherever it began? */
  ghost predicate AlwaysCut(cut: Cutter, min: nat, data: seq<byte>, n: nat)
    requires n <= |data|
  {
    forall e: nat {:trigger cut(data[e..n])} :: e + min <= n ==> cut(data[e..n])
  }

  /** Such a position is a boundary if no other boundary comes shortly before it. */
  lemma {:induction false} QuietCutIsBoundary(cut: Cutter, min: nat, data: seq<byte>, n: nat, start: nat)
    requires start < n <= |data| && 0 < min
    requires AlwaysCut(cut, min, data, n) && QuietBefore(cut, min, data, n)
    requires IsBoundary(cut, data, start)
    requires forall m :: m in Boundaries(cut, data, start) ==> IsBoundary(cut, data, m)
    ensures n in Boundaries(cut, data, start)
    decreases |data| - start
  {
    assert start + min <= n;
    var e := NextCut(cut, data, start, start + 1);
    var b, rest := Boundaries(cut, data, start), Boundaries(cut, data, e);
    assert b[0] == e && b[1..] == rest;
    assert e in b && forall m :: m in rest ==> m in b;
    assert cut(data[start..n]);
    if e < n {
      QuietCutIsBoundary(cut, min, data, n, e);
    }
  }

  /** Is a hit decided by the last k bytes, whatever precedes them? */
  ghost predicate Local(r: Rolling, k: nat) {
    forall a, w :: |w| == k ==> r.hit(Hash(r, a + w)) == r.hit(Hash(r, w))
  }

  lemma GearIsLocal(p: Params, gear: Gear, k: nat)
    requires Valid(p) && p.avg == Pow2(k) && k <= 64
    ensures Local(GearRolling(p, gear), k)
  {
    var r := GearRolling(p, gear);
    forall a, w | |w| == k
      ensures r.hit(Hash(r, a + w)) == r.hit(Hash(r, w))
    {
      MaskSeesTail(p, gear, k, a, w);
    }
  }

  /** With a local hash a hit makes its end such a position. */
  lemma HitWindowCuts(r: Rolling, k: nat, data: seq<byte>, n: nat)
    requires Local(r, k) && k <= r.min
    requires k <= n <= |data| && r.hit(Hash(r, data[n - k..n]))
    ensures AlwaysCut(CutOf(r), r.min, data, n)
  {
    forall e: nat | e + r.min <= n
      ensures CutOf(r)(data[e..n])
    {
      HitFromAnywhere(r, k, data, e, n);
    }
  }

  lemma HitFromAnywhere(r: Rolling, k: nat, data: seq<byte>, e: nat, n: nat)
    requires Local(r, k) && k <= r.min
    requires k <= n <= |data| && r.hit(Hash(r, data[n - k..n])) && e + r.min <= n
    ensures Stop(r, Hash(r, data[e..n]), n - e)
  {
    var a, w := data[e..n - k], data[n - k..n];
    assert data[e..n] == a + w;
    assert r.hit(Hash(r, a + w)) == r.hit(Hash(r, w));
  }

  /** A boundary inside the suffix: every later chunk is a chunk of the suffix. */
  lemma BoundaryInSuffix(cut: Cutter, a: seq<byte>, s: seq<byte>, n: nat) returns (pre: seq<seq<byte>>)
    requires n <= |s| && IsBoundary(cut, a + s, |a| + n)
    ensures Concat(pre) == a + s[..n]
    ensures Chunks(cut, a + s, 0) == pre + Chunks(cut, s, n)
  {
    pre := ChunksRestart(cut, a + s, 0, |a| + n);
    assert (a + s)[0..|a| + n] == a + s[..n];
    ChunksInSuffix(cut, a, s, n);
  }

  lemma HitInSuffix(r: Rolling, k: nat, a: seq<byte>, s: seq<byte>, n: nat)
    requires Local(r, k) && k <= r.min
    requires k <= n <= |s| && r.hit(Hash(r, s[n - k..n]))
    ensures AlwaysCut(CutOf(r), r.min, a + s, |a| + n)
  {
    assert (a + s)[|a| + n - k..|a| + n] == s[n - k..n];
    HitWindowCuts(r, k, a + s, |a| + n);
  }

  lemma ResyncCut(cut: Cutter, min: nat, a: seq<byte>, s: seq<byte>, n: nat) returns (pre: seq<seq<byte>>)
    requires 0 < n <= |s| && 0 < min
    requires AlwaysCut(cut, min, a + s, |a| + n) && QuietBefore(cut, min, a + s, |a| + n)
    ensures Concat(pre) == a + s[..n]
    ensures Chunks(cut, a + s, 0) == pre + Chunks(cut, s, n)
  {
    QuietCutIsBoundary(cut, min, a + s, |a| + n, 0);
    pre := BoundaryInSuffix(cut, a, s, n);
  }

  /**
   * Resynchronisation. Two inputs share the suffix s. If some k-byte window of s is a hit and neither input
   * has a boundary less than min bytes before its end, both are cut there, and from there on their chunks
   * are the same: those of the rest of s.
   */
  lemma Resynchronise(p: Params, gear: Gear, k: nat, a1: seq<byte>, a2: seq<byte>, s: seq<byte>, n: nat)
      returns (pre1: seq<seq<byte>>, pre2: seq<seq<byte>>)
    requires Valid(p) && p.avg == Pow2(k) && k <= p.min && k <= 64
    requires k <= n <= |s| && 0 < n
    requires var r := GearRolling(p, gear);
             && r.hit(Hash(r, s[n - k..n]))
             && QuietBefore(CutOf(r), p.min, a1 + s, |a1| + n)
             && QuietBefore(CutOf(r), p.min, a2 + s, |a2| + n)
    ensures Concat(pre1) == a1 + s[..n] && Concat(pre2) == a2 + s[..n]
    ensures ChunksOf(p, gear, a1 + s) == pre1 + Chunks(CutOf(GearRolling(p, gear)), s, n)
    ensures ChunksOf(p, gear, a2 + s) == pre2 + Chunks(CutOf(GearRolling(p, gear)), s, n)
  {
    var r := GearRolling(p, gear);
    var cut := CutOf(r);
    assert AlwaysCut(cut, p.min, a1 + s, |a1| + n) && AlwaysCut(cut, p.min, a2 + s, |a2| + n) by {
      GearIsLocal(p, gear, k);
      HitInSuffix(r, k, a1, s, n);
      HitInSuffix(r, k, a2, s, n);
    }
    pre1 := ResyncCut(cut, p.min, a1, s, n);
    pre2 := ResyncCut(cut, p.min, a2, s, n);
  }

  /** In particular a boundary at the start of the common suffix fixes all later chunks. */
  lemma CommonSuffix(cut: Cutter, a1: seq<byte>, a2: seq<byte>, s: seq<byte>)
      returns (pre1: seq<seq<byte>>, pre2: seq<seq<byte>>)
    requires IsBoundary(cut, a1 + s, |a1|) && IsBoundary(cut, a2 + s, |a2|)
    ensures Concat(pre1) == a1 && Concat(pre2) == a2
    ensures Chunks(cut, a1 + s, 0) == pre1 + Chunks(cut, s, 0)
    ensures Chunks(cut, a2 + s, 0) == pre2 + Chunks(cut, s, 0)
  {
    pre1 := BoundaryInSuffix(cut, a1, s, 0);
    pre2 := BoundaryInSuffix(cut, a2, s, 0);
  }
}
