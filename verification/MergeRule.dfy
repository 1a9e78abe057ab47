/** Which rows of a batch the head write is merged with: the rule, and that it decides the merge. */
module MergeRule {
  import opened Bytes
  import opened Columnar

  /** The length of the head and the chosen rows before row i together. */
  function LengthBefore(es: seq<Event>, chosen: set<nat>, i: nat): nat
    requires 1 <= i <= |es|
  {
    if i == 1 then es[0].length
    else LengthBefore(es, chosen, i - 1) + if i - 1 in chosen then es[i - 1].length else 0
  }

  /**
   * Row i is among the first `depth`, is a write of the head's inode and name, and begins where the head and the rows
   * chosen before it end, which together are shorter than the limit.
   */
  ghost predicate Joins(es: seq<Event>, chosen: set<nat>, depth: nat, limit: nat, i: nat)
    requires 1 <= i < |es|
  {
    var row, soFar := es[i], LengthBefore(es, chosen, i);
    && i < depth && (row.kind == Write || row.kind == WriteRange) && row.inode == es[0].inode && row.name == es[0].name
    && row.offset == es[0].offset + soFar && soFar < limit
  }

  /** Exactly the rows that join are chosen. */
  ghost predicate Rule(es: seq<Event>, depth: nat, limit: nat, chosen: set<nat>) {
    forall i: nat :: i in chosen <==> 1 <= i < |es| && Joins(es, chosen, depth, limit, i)
  }

  /** The rows from i on that were not chosen. */
  function NotChosen(es: seq<Event>, chosen: set<nat>, i: nat): seq<Event>
    requires i <= |es|
    decreases |es| - i
  {
    if i == |es| then []
    else if i in chosen then NotChosen(es, chosen, i + 1)
    else [es[i]] + NotChosen(es, chosen, i + 1)
  }

  lemma TakesIff(es: seq<Event>, depth: nat, limit: nat, chosen: set<nat>, i: nat)
    requires 1 <= i < |es| && Rule(es, depth, limit, chosen)
    ensures Scan(es[0], depth, limit).Takes(es, i, LengthBefore(es, chosen, i)) <==> i in chosen
  {
    assert i in chosen <==> Joins(es, chosen, depth, limit, i);
  }

  lemma ScanStep(scan: Scan, es: seq<Event>, i: nat, len: nat)
    requires i < |es|
    ensures if scan.Takes(es, i, len)
            then var more := len + es[i].length;
                 && Lengths(scan.Merged(es, i, len)) == es[i].length + Lengths(scan.Merged(es, i + 1, more))
                 && scan.Rest(es, i, len) == scan.Rest(es, i + 1, more)
            else && scan.Merged(es, i, len) == scan.Merged(es, i + 1, len)
                 && scan.Rest(es, i, len) == [es[i]] + scan.Rest(es, i + 1, len)
  {
    if scan.Takes(es, i, len) {
      var rest := scan.Merged(es, i + 1, len + es[i].length);
      assert ([es[i]] + rest)[1..] == rest;
    }
  }

  /** From row i on, with `len` bytes merged so far, the scan ends with `total` bytes and leaves what is not chosen. */
  ghost predicate Follows(scan: Scan, es: seq<Event>, chosen: set<nat>, i: nat, len: nat, total: nat)
    requires i <= |es|
  {
    len + Lengths(scan.Merged(es, i, len)) == total && scan.Rest(es, i, len) == NotChosen(es, chosen, i)
  }

  lemma FollowsStep(scan: Scan, es: seq<Event>, chosen: set<nat>, i: nat, len: nat, total: nat)
    requires i < |es| && (scan.Takes(es, i, len) <==> i in chosen)
    requires Follows(scan, es, chosen, i + 1, len + (if i in chosen then es[i].length else 0), total)
    ensures Follows(scan, es, chosen, i, len, total)
  {
    ScanStep(scan, es, i, len);
  }

  lemma {:induction false} ScanFollowsRule(es: seq<Event>, depth: nat, limit: nat, chosen: set<nat>, i: nat)
    requires 1 <= i <= |es| && Rule(es, depth, limit, chosen)
    ensures Follows(Scan(es[0], depth, limit), es, chosen, i, LengthBefore(es, chosen, i),
                    LengthBefore(es, chosen, |es|))
    decreases |es| - i
  {
    if i < |es| {
      ScanFollowsRule(es, depth, limit, chosen, i + 1);
      TakesIff(es, depth, limit, chosen, i);
      FollowsStep(Scan(es[0], depth, limit), es, chosen, i, LengthBefore(es, chosen, i),
                  LengthBefore(es, chosen, |es|));
    }
  }

  /** The write handed out and the batch left behind are those of the rule. */
  lemma CoalescedByRule(es: seq<Event>, depth: nat, limit: nat, chosen: set<nat>)
    requires es != [] && IsWrite(es[0]) && Rule(es, depth, limit, chosen)
    ensures Coalesced(es, depth, limit)
            == (es[0].(length := LengthBefore(es, chosen, |es|)), NotChosen(es, chosen, 1))
  {
    ScanFollowsRule(es, depth, limit, chosen, 1);
  }

  // ---------------------------------------------------------------- there is one such choice

  ghost function ChosenBelow(es: seq<Event>, depth: nat, limit: nat, i: nat): (chosen: set<nat>)
    requires 1 <= i <= |es|
    ensures forall k :: k in chosen ==> 1 <= k < i
  {
    if i == 1 then {} else
    var before := ChosenBelow(es, depth, limit, i - 1);
    if Joins(es, before, depth, limit, i - 1) then before + {i - 1} else before
  }

  lemma {:induction false} SameLengths(es: seq<Event>, a: set<nat>, b: set<nat>, i: nat)
    requires 1 <= i <= |es| && forall k: nat :: 1 <= k < i ==> (k in a <==> k in b)
    ensures LengthBefore(es, a, i) == LengthBefore(es, b, i)
  {
    if i > 1 { SameLengths(es, a, b, i - 1); }
  }

  lemma {:induction false} ChosenGrows(es: seq<Event>, depth: nat, limit: nat, i: nat, n: nat)
    requires 1 <= i <= n <= |es|
    ensures forall k: nat :: k < i ==>
              (k in ChosenBelow(es, depth, limit, i) <==> k in ChosenBelow(es, depth, limit, n))
    decreases n - i
  {
    if i < n { ChosenGrows(es, depth, limit, i, n - 1); }
  }

  lemma ChosenJoins(es: seq<Event>, depth: nat, limit: nat, i: nat)
    requires 1 <= i < |es|
    ensures var chosen := ChosenBelow(es, depth, limit, |es|);
            i in chosen <==> Joins(es, chosen, depth, limit, i)
  {
    var chosen, before := ChosenBelow(es, depth, limit, |es|), ChosenBelow(es, depth, limit, i);
    ChosenGrows(es, depth, limit, i, |es|);
    ChosenGrows(es, depth, limit, i + 1, |es|);
    SameLengths(es, before, chosen, i);
    assert i in ChosenBelow(es, depth, limit, i + 1) <==> Joins(es, before, depth, limit, i);
  }

  lemma {:induction false} ChoicesAgree(es: seq<Event>, depth: nat, limit: nat, a: set<nat>, b: set<nat>, i: nat)
    requires i <= |es| && Rule(es, depth, limit, a) && Rule(es, depth, limit, b)
    ensures forall k: nat :: k < i ==> (k in a <==> k in b)
  {
    if i > 0 {
      ChoicesAgree(es, depth, limit, a, b, i - 1);
      if i > 1 {
        SameLengths(es, a, b, i - 1);
        assert i - 1 in a <==> Joins(es, a, depth, limit, i - 1);
        assert i - 1 in b <==> Joins(es, b, depth, limit, i - 1);
      } else {
        assert 0 !in a && 0 !in b;
      }
    }
  }

  /**
   * For every batch, depth and limit exactly one choice of rows follows the rule, and it is what merging the head does:
   * a row is merged if and only if it joins. A head that is no write is handed out alone.
   */
  lemma MergedIff(es: seq<Event>, depth: nat, limit: nat) returns (chosen: set<nat>)
    requires es != []
    ensures Rule(es, depth, limit, chosen)
    ensures forall other: set<nat> :: Rule(es, depth, limit, other) ==> other == chosen
    ensures Coalesced(es, depth, limit)
            == if es[0].kind == Write || es[0].kind == WriteRange
               then (es[0].(length := LengthBefore(es, chosen, |es|)), NotChosen(es, chosen, 1))
               else (es[0], es[1..])
  {
    chosen := ChosenBelow(es, depth, limit, |es|);
    forall i: nat ensures i in chosen <==> 1 <= i < |es| && Joins(es, chosen, depth, limit, i) {
      if 1 <= i < |es| { ChosenJoins(es, depth, limit, i); }
    }
    forall other: set<nat> | Rule(es, depth, limit, other) ensures other == chosen {
      ChoicesAgree(es, depth, limit, other, chosen, |es|);
      assert forall k: nat :: k in other || k in chosen ==> k < |es|;
    }
    if IsWrite(es[0]) { CoalescedByRule(es, depth, limit, chosen); }
  }
}
