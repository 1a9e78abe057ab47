/** Skipping directories whose stored hash still matches, and the files below them, in a full scan. */
module Pruning {
  import opened Bytes

  datatype Child = Child(name: string, meta: Digest)

  /** What a target says about a directory: whether it is there, has a dirty child, and which hash it stores. */
  datatype Target = Target(present: Path -> bool, dirty: Path -> bool, stored: Path -> Option<Digest>)

  /** The walk's directories, the children it recorded for them, and the hash over children. */
  datatype Survey = Survey(dirs: seq<Path>, children: map<Path, seq<Child>>, targets: seq<Target>,
                           dirHash: seq<Child> -> Digest)
  {
    /** Each directory once, parents before children. */
    ghost predicate Valid() {
      && (forall i, j :: 0 <= i < j < |dirs| ==> dirs[i] != dirs[j])
      && (forall i, j :: 0 <= i < j < |dirs| ==> |dirs[i]| <= |dirs[j]|)
    }

    predicate Checked(d: Path) { d != [] && d in children }

    predicate MatchesOn(t: Target, d: Path)
      requires d in children
    {
      t.present(d) && !t.dirty(d) && t.stored(d) == Some(dirHash(children[d]))
    }

    /** The directory has the stored hash, and no dirty child, on every target. */
    ghost predicate Matches(d: Path)
      requires d in children
    {
      forall i :: 0 <= i < |targets| ==> MatchesOn(targets[i], d)
    }

    /** One of the first k directories is below d and does not match. */
    ghost predicate Spoiled(d: Path, k: nat)
      requires k <= |dirs|
    {
      exists j :: 0 <= j < k && Checked(dirs[j]) && !Matches(dirs[j]) && d < dirs[j]
    }

    ghost predicate Prunable(d: Path, k: nat)
      requires k <= |dirs|
    {
      d in dirs[..k] && Checked(d) && Matches(d) && !Spoiled(d, k)
    }
  }

  // ---------------------------------------------------------------- the pruning pass

  method AllMatch(s: Survey, d: Path, h: Digest) returns (all: bool)
    requires d in s.children && h == s.dirHash(s.children[d])
    ensures all <==> s.Matches(d)
  {
    all := true;
    for i := 0 to |s.targets|
      invariant forall k :: 0 <= k < i ==> s.MatchesOn(s.targets[k], d)
    {
      var t := s.targets[i];
      assert s.MatchesOn(t, d) <==> t.present(d) && !t.dirty(d) && t.stored(d) == Some(h);
      if !t.present(d) { return false; }
      if t.dirty(d) { return false; }
      match t.stored(d) {
        case Some(stored) => if stored != h { return false; }
        case None => return false;
      }
    }
  }

  /** Walks up from e and takes every ancestor but the root out of the set. */
  method UnpruneAncestors(pruned: set<Path>, e: Path) returns (r: set<Path>)
    requires [] !in pruned
    ensures r == set d | d in pruned && !(d < e)
  {
    r := pruned;
    var ancestor := e;
    while ancestor != []
      invariant ancestor <= e
      invariant r == set d | d in pruned && !(ancestor <= d && d < e)
      decreases |ancestor|
    {
      var parent := ancestor[..|ancestor| - 1];
      AncestorStep(pruned, e, ancestor, parent);
      if parent == [] { break; }
      r := r - {parent};
      ancestor := parent;
    }
    EmptyIsPrefix(pruned, e, ancestor);
  }

  lemma AncestorStep(pruned: set<Path>, e: Path, ancestor: Path, parent: Path)
    requires ancestor != [] && ancestor <= e && parent == ancestor[..|ancestor| - 1] && [] !in pruned
    ensures parent <= e
    ensures forall d :: d in pruned ==> (parent <= d && d < e <==> (ancestor <= d && d < e) || d == parent)
    ensures parent == [] ==> forall d :: d in pruned && d < e ==> ancestor <= d
  {
    forall d | d in pruned ensures parent <= d && d < e <==> (ancestor <= d && d < e) || d == parent {
      if parent <= d && d < e && d != parent { assert ancestor == e[..|ancestor|] && d == e[..|d|]; }
    }
  }

  lemma EmptyIsPrefix(pruned: set<Path>, e: Path, ancestor: Path)
    ensures ancestor == [] ==> forall d :: d in pruned ==> ancestor <= d
  {
  }

  /** The set after the first k directories is exactly the prunable ones among them. */
  ghost predicate Progress(s: Survey, k: nat, pruned: set<Path>) {
    k <= |s.dirs| && forall d :: d in pruned <==> s.Prunable(d, k)
  }

  lemma SpoiledNext(s: Survey, d: Path, k: nat)
    requires k < |s.dirs|
    ensures s.Spoiled(d, k + 1)
            <==> s.Spoiled(d, k) || (s.Checked(s.dirs[k]) && !s.Matches(s.dirs[k]) && d < s.dirs[k])
  {
    if s.Spoiled(d, k) {
      var j :| 0 <= j < k && s.Checked(s.dirs[j]) && !s.Matches(s.dirs[j]) && d < s.dirs[j];
      assert 0 <= j < k + 1;
    }
  }

  lemma PrunableNext(s: Survey, d: Path, k: nat)
    requires s.Valid() && k < |s.dirs|
    ensures var e := s.dirs[k];
            s.Prunable(d, k + 1)
            <==> if s.Checked(e) && !s.Matches(e) then s.Prunable(d, k) && !(d < e)
                 else s.Prunable(d, k) || (d == e && s.Checked(e))
  {
    var e := s.dirs[k];
    SpoiledNext(s, d, k);
    assert s.dirs[..k + 1] == s.dirs[..k] + [e];
    if d == e { assert !s.Spoiled(e, k); }
  }

  /** After the pass exactly those directories are pruned that match and have no mismatching directory below. */
  method PruneDirs(s: Survey) returns (pruned: set<Path>)
    requires s.Valid()
    ensures forall d :: d in pruned <==> s.Prunable(d, |s.dirs|)
  {
    pruned := {};
    var meta := s.children;
    for k := 0 to |s.dirs|
      invariant Progress(s, k, pruned)
      invariant forall j :: k <= j < |s.dirs| ==> (s.dirs[j] in meta <==> s.dirs[j] in s.children)
      invariant forall d :: d in meta ==> d in s.children && meta[d] == s.children[d]
    {
      var e := s.dirs[k];
      forall d ensures s.Prunable(d, k + 1)
            <==> if s.Checked(e) && !s.Matches(e) then s.Prunable(d, k) && !(d < e)
                 else s.Prunable(d, k) || (d == e && s.Checked(e)) { PrunableNext(s, d, k); }
      if e == [] || e !in meta { continue; }
      var h := s.dirHash(meta[e]);
      meta := meta - {e};
      var all := AllMatch(s, e, h);
      if all {
        pruned := pruned + {e};
      } else {
        pruned := UnpruneAncestors(pruned, e);
      }
    }
  }

  // ---------------------------------------------------------------- the file filter

  ghost predicate HasPrunedAncestor(pruned: set<Path>, f: Path) { exists d :: d in pruned && d < f }

  method KeepsFile(pruned: set<Path>, f: Path) returns (keep: bool)
    ensures keep <==> !HasPrunedAncestor(pruned, f)
  {
    var current := f;
    while current != []
      invariant current <= f && forall d :: d in pruned && d < f ==> d < current
      decreases |current|
    {
      var parent := current[..|current| - 1];
      if parent in pruned { return false; }
      ParentStep(pruned, f, current, parent);
      if parent == [] { break; }
      current := parent;
    }
    keep := true;
  }

  lemma ParentStep(pruned: set<Path>, f: Path, current: Path, parent: Path)
    requires current != [] && current <= f && parent == current[..|current| - 1] && parent !in pruned
    requires forall d :: d in pruned && d < f ==> d < current
    ensures parent <= f && forall d :: d in pruned && d < f ==> d < parent
  {
    forall d | d in pruned && d < f ensures d < parent {
      assert d <= parent;
      assert |d| == |parent| ==> d == parent;
    }
  }

  /** The files kept, in order. */
  function Kept(files: seq<Path>, keep: Path -> bool): seq<Path> {
    if files == [] then []
    else
      var init, last := files[..|files| - 1], files[|files| - 1];
      if keep(last) then Kept(init, keep) + [last] else Kept(init, keep)
  }

  /** Exactly the files to keep are kept, each as often as it was there, and in order. */
  lemma {:induction false} KeptIff(files: seq<Path>, keep: Path -> bool, f: Path)
    ensures multiset(Kept(files, keep))[f] == if keep(f) then multiset(files)[f] else 0
  {
    if files != [] {
      var init, last := files[..|files| - 1], files[|files| - 1];
      KeptIff(init, keep, f);
      assert files == init + [last];
    }
  }

  lemma {:induction false} KeptInOrder(a: seq<Path>, b: seq<Path>, keep: Path -> bool)
    ensures Kept(a + b, keep) == Kept(a, keep) + Kept(b, keep)
    decreases |b|
  {
    if b == [] {
      assert a + b == a;
    } else {
      var n := |b| - 1;
      KeptInOrder(a, b[..n], keep);
      assert (a + b)[..|a + b| - 1] == a + b[..n];
    }
  }

  method FilterFiles(pruned: set<Path>, files: seq<Path>) returns (kept: seq<Path>)
    ensures kept == Kept(files, f => forall d :: d in pruned ==> !(d < f))
  {
    kept := [];
    ghost var keep := (f: Path) => forall d :: d in pruned ==> !(d < f);
    assert files[..0] == [];
    for i := 0 to |files|
      invariant kept == Kept(files[..i], keep)
    {
      assert files[..i + 1][..i] == files[..i];
      var ok := KeepsFile(pruned, files[i]);
      if ok { kept := kept + [files[i]]; }
    }
    assert files[..|files|] == files;
  }

  // ---------------------------------------------------------------- soundness

  /**
   * A skipped file lies below a pruned directory, and every directory with recorded children on the way down to
   * it, its own parent included, matches on every target.
   */
  lemma SkippedOnlyIfMatching(s: Survey, pruned: set<Path>, f: Path, d: Path)
    requires s.Valid() && forall p :: p in pruned <==> s.Prunable(p, |s.dirs|)
    requires d in pruned && d < f
    ensures d != [] && d in s.dirs
    ensures forall p :: p in s.dirs && d <= p < f && s.Checked(p) ==> s.Matches(p)
  {
    forall p | p in s.dirs && d <= p < f && s.Checked(p) ensures s.Matches(p) {
      var j :| 0 <= j < |s.dirs| && s.dirs[j] == p;
      assert !s.Spoiled(d, |s.dirs|);
      assert d == p || d < p;
    }
  }

  /**
   * No file is skipped unless its own parent directory, when children were recorded for it, is on every target, has
   * no dirty child there, and is stored with the hash of the children recorded now.
   */
  lemma ParentMatches(s: Survey, pruned: set<Path>, f: Path)
    requires s.Valid() && forall p :: p in pruned <==> s.Prunable(p, |s.dirs|)
    requires f != [] && HasPrunedAncestor(pruned, f)
    ensures var parent := f[..|f| - 1];
            && parent != []
            && (parent in s.dirs && parent in s.children ==>
                  forall t :: t in s.targets ==>
                    t.present(parent) && !t.dirty(parent) && t.stored(parent) == Some(s.dirHash(s.children[parent])))
  {
    var d :| d in pruned && d < f;
    var parent := f[..|f| - 1];
    assert d <= parent < f;
    SkippedOnlyIfMatching(s, pruned, f, d);
  }
}
