/** The priority queue of cities waiting to be processed. Only its contract is
    known: it holds cities, answers membership and yields a city of least
    current distance. Here it is a list in insertion order scanned for the
    least distance, the earliest such city winning ties. */
module Queues {
  import opened Nodes

  ghost predicate NoDuplicates(s: seq<string>)
  {
    forall i, j :: 0 <= i < j < |s| ==> s[i] != s[j]
  }

  class PrioQueue {
    var entries: seq<string>

    constructor ()
      ensures entries == []
    {
      entries := [];
    }

    function Count(): (n: nat)
      reads this
      ensures n == 0 <==> entries == []
    {
      |entries|
    }

    /** Whether `name` is queued: some position of the queue holds it. */
    predicate HasLetter(name: string): (b: bool)
      reads this
      ensures b <==> exists k :: 0 <= k < |entries| && entries[k] == name
    {
      name in entries
    }

    method AddNodeWithPriority(name: string)
      modifies this
      ensures entries == old(entries) + [name]
    {
      entries := entries + [name];
    }

    /** Every entry before position `k` holds a strictly larger distance. */
    ghost predicate EarlierAreLarger(nodes: map<string, Node>, k: nat)
      reads this
      requires k < |entries| && forall e :: e in entries ==> e in nodes
    {
      forall j :: 0 <= j < k ==> Less(nodes[entries[k]].value, nodes[entries[j]].value)
    }

    /** The earliest entry whose distance no other entry undercuts. */
    method First(nodes: map<string, Node>) returns (name: string)
      requires entries != []
      requires forall e :: e in entries ==> e in nodes
      ensures name in entries
      ensures forall e :: e in entries ==> AtMost(nodes[name].value, nodes[e].value)
      ensures exists k :: 0 <= k < |entries| && entries[k] == name && EarlierAreLarger(nodes, k)
    {
      var best := 0;
      var k := 1;
      while k < |entries|
        invariant 0 <= best < k <= |entries|
        invariant forall j :: 0 <= j < k ==> AtMost(nodes[entries[best]].value, nodes[entries[j]].value)
        invariant EarlierAreLarger(nodes, best)
      {
        if Less(nodes[entries[k]].value, nodes[entries[best]].value) {
          best := k;
        }
        k := k + 1;
      }
      name := entries[best];
    }

    /** Removes the entry `First` returned: its earliest occurrence. */
    method RemoveFirst(first: string)
      requires first in entries
      modifies this
      ensures exists k :: EarliestRemoved(old(entries), first, k, entries)
      ensures |entries| == |old(entries)| - 1
      ensures forall x :: x in entries ==> x in old(entries)
      ensures forall x :: x in old(entries) && x != first ==> x in entries
      ensures NoDuplicates(old(entries)) ==> NoDuplicates(entries) && first !in entries
    {
      var k := 0;
      while entries[k] != first
        invariant 0 <= k < |entries|
        invariant first !in entries[..k]
        invariant first in entries[k..]
        decreases |entries| - k
      {
        k := k + 1;
      }
      ghost var was := entries;
      entries := entries[..k] + entries[k + 1..];
      assert EarliestRemoved(was, first, k, entries);
      RemovedFacts(was, first, k, entries);
    }
  }

  /** `after` is `before` without its earliest occurrence of `x`, found at `k`. */
  ghost predicate EarliestRemoved(before: seq<string>, x: string, k: int, after: seq<string>)
  {
    0 <= k < |before| && before[k] == x && x !in before[..k] && after == before[..k] + before[k + 1..]
  }

  /** Taking one entry out keeps every other entry and no new one, and keeps
      a duplicate-free list duplicate-free without the removed entry. */
  lemma RemovedFacts(before: seq<string>, x: string, k: int, after: seq<string>)
    requires EarliestRemoved(before, x, k, after)
    ensures |after| == |before| - 1
    ensures forall y :: y in after ==> y in before
    ensures forall y :: y in before && y != x ==> y in after
    ensures NoDuplicates(before) ==> NoDuplicates(after) && x !in after
  {
    assert forall i :: 0 <= i < |after| ==> after[i] == (if i < k then before[i] else before[i + 1]);
    forall y | y in before && y != x ensures y in after {
      var i :| 0 <= i < |before| && before[i] == y;
      assert after[if i < k then i else i - 1] == y;
    }
  }
}
