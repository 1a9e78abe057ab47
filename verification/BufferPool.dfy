/** The index allocator under the copy engine: a stack for one thread, a bounded queue when shared. */
module BufferPool {
  import opened Bytes

  ghost function Elements(s: seq<nat>): set<nat> { set x | x in s }

  /** All indices of a pool of n buffers. */
  ghost function Below(n: nat): (r: set<nat>)
    ensures forall x: nat :: x in r <==> x < n
  {
    if n == 0 then {} else Below(n - 1) + {n - 1}
  }

  /** Every index is free or handed out, never both and never twice. */
  ghost predicate Splits(free: seq<nat>, held: set<nat>, n: nat) {
    NoDup(free) && Elements(free) !! held && Elements(free) + held == Below(n)
  }

  lemma AppendSplits(free: seq<nat>, held: set<nat>, n: nat, index: nat)
    requires Splits(free, held, n) && index < n
    ensures Splits(free + [index], held - {index}, n) <==> index in held
  {
    var more := free + [index];
    assert Elements(more) == Elements(free) + {index};
    if index !in held {
      assert index in Elements(free);
      var k :| 0 <= k < |free| && free[k] == index;
      assert more[k] == more[|free|];
    } else {
      assert index !in Elements(free);
    }
  }

  lemma {:induction false} ElementCount(s: seq<nat>)
    requires NoDup(s)
    ensures |Elements(s)| == |s|
  {
    if s != [] {
      var init, last := s[..|s| - 1], s[|s| - 1];
      ElementCount(init);
      assert last !in Elements(init);
      assert Elements(s) == Elements(init) + {last};
    }
  }

  lemma {:induction false} BelowCount(n: nat)
    ensures |Below(n)| == n
  {
    if n > 0 {
      BelowCount(n - 1);
    }
  }

  // ---------------------------------------------------------------- the free list

  /** The buffer that comes next: from the front of a shared queue, from the top of a stack. */
  function Picked(shared: bool, free: seq<nat>): nat
    requires free != []
  {
    if shared then free[0] else free[|free| - 1]
  }

  /** Those that stay free. */
  function Remaining(shared: bool, free: seq<nat>): seq<nat>
    requires free != []
  {
    if shared then free[1..] else free[..|free| - 1]
  }

  /** An index given back goes to the end; a full queue refuses it, and one that does not exist is ignored. */
  function Returned(shared: bool, capacity: nat, free: seq<nat>, index: nat): seq<nat> {
    if index < capacity && (!shared || |free| < capacity) then free + [index] else free
  }

  lemma PickedOnce(shared: bool, free: seq<nat>)
    requires free != [] && NoDup(free)
    ensures Picked(shared, free) in free && NoDup(Remaining(shared, free))
    ensures forall j :: j in Remaining(shared, free) <==> j in free && j != Picked(shared, free)
  {
    var i, left := Picked(shared, free), Remaining(shared, free);
    if shared { assert free == [i] + left; } else { assert free == left + [i]; }
    assert i !in left;
  }

  /** A queue never refuses an index that is not in it. */
  lemma ReturnedIsLast(shared: bool, capacity: nat, free: seq<nat>, index: nat)
    requires NoDup(free) && (forall k :: 0 <= k < |free| ==> free[k] < capacity) && index < capacity && index !in free
    ensures Returned(shared, capacity, free, index) == free + [index]
  {
    ElementCount(free + [index]);
    BelowCount(capacity);
    CardinalityBound(Elements(free + [index]), Below(capacity));
  }

  lemma {:induction false} CardinalityBound(a: set<nat>, b: set<nat>)
    requires a <= b
    ensures |a| <= |b|
  {
    if a != {} {
      var x :| x in a;
      CardinalityBound(a - {x}, b - {x});
    }
  }

  // ---------------------------------------------------------------- the pool

  class Pool {
    const capacity: nat
    const shared: bool
    var free: seq<nat>
    var lens: seq<nat>
    /** The indices handed out and not yet given back. */
    ghost var held: set<nat>

    ghost predicate Shape()
      reads this
    {
      |lens| == capacity
    }

    ghost predicate Sound()
      reads this
    {
      Splits(free, held, capacity)
    }

    constructor (capacity: nat, shared: bool)
      ensures Shape() && Sound() && held == {} && |free| == capacity
      ensures this.capacity == capacity && this.shared == shared
    {
      this.capacity, this.shared := capacity, shared;
      free := seq(capacity, i => i);
      lens := seq(capacity, _ => 0);
      held := {};
      new;
      forall x: nat ensures x in Elements(free) <==> x < capacity {
        if x < capacity { assert free[x] == x; }
      }
    }

    /** Nothing comes only when everything is handed out. */
    method Acquire() returns (index: Option<nat>)
      requires Shape() && Sound()
      modifies this`free, this`held
      ensures Shape() && Sound()
      ensures index.None? <==> old(held) == Below(capacity)
      ensures index.None? ==> free == old(free) && held == old(held)
      ensures index.Some? ==> index.value < capacity && index.value !in old(held) && held == old(held) + {index.value}
      ensures index.Some? ==> old(free) != [] && index.value == Picked(shared, old(free))
      ensures index.Some? ==> free == Remaining(shared, old(free))
    {
      if free == [] {
        return None;
      }
      PickedOnce(shared, free);
      ghost var was := free;
      if shared {
        index := Some(free[0]);
        free := free[1..];
      } else {
        index := Some(free[|free| - 1]);
        free := free[..|free| - 1];
      }
      assert index.value in Elements(was);
      assert Elements(was) == Elements(free) + {index.value};
      held := held + {index.value};
    }

    /**
     * Giving an index back clears its buffer. The pool stays sound exactly when the index was handed out, or does
     * not exist, or a full queue refuses it.
     */
    method Release(index: nat)
      requires Shape() && Sound()
      modifies this
      ensures Shape() && held == old(held) - {index}
      ensures Sound() <==> index >= capacity || index in old(held) || (shared && old(held) == {})
      ensures lens == if index < capacity then old(lens)[index := 0] else old(lens)
      ensures free == Returned(shared, capacity, old(free), index)
    {
      Counted();
      assert index !in held ==> held - {index} == held;
      if index < capacity {
        AppendSplits(free, held, capacity, index);
        lens := lens[index := 0];
        if !shared || |free| < capacity { free := free + [index]; }
      }
      held := held - {index};
    }

    lemma Counted()
      requires Sound()
      ensures |free| + |held| == capacity
      ensures |free| == capacity <==> held == {}
    {
      ElementCount(free);
      BelowCount(capacity);
    }

    method FreeCount() returns (n: nat)
      requires Sound()
      ensures n == capacity - |held|
    {
      Counted();
      n := |free|;
    }
  }
}
