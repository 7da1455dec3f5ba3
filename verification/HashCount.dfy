/** How many hashes a batch append performs, against the nodes whose value can change. */
module HashCount {
  import opened Numbers

  /** Nodes visited on the given number of levels when each level recomputes first>>1 .. last>>1 inclusive. */
  function Visits(first: nat, last: nat, levels: nat): (n: nat)
    requires first <= last
    decreases levels
  {
    if levels == 0 then 0
    else (last / 2 - first / 2 + 1) + Visits(first / 2, last / 2, levels - 1)
  }

  /** How many of 2, 4, .., 2^levels divide x. */
  function TwoDivisors(x: nat, levels: nat): (n: nat)
    decreases levels
  {
    if levels == 0 || x % 2 == 1 then 0 else 1 + TwoDivisors(x / 2, levels - 1)
  }

  /** Appending k leaves at any position of a depth-d tree costs at most k + 2d hashes. */
  lemma {:induction false} VisitsBound(first: nat, last: nat, levels: nat)
    requires first <= last
    ensures Visits(first, last, levels) <= (last - first) + 2 * levels
    decreases levels
  {
    if levels > 0 {
      VisitsBound(first / 2, last / 2, levels - 1);
    }
  }

  /** A node between the ancestors of two leaves is itself the ancestor of a leaf between them. */
  lemma LeafBelow(n: nat, last: nat, k: nat, i: nat) returns (j: nat)
    requires n <= last && Up(n, k) <= i <= Up(last, k)
    ensures n <= j <= last && Up(j, k) == i
  {
    j := if Down(i, k) < n then n else Down(i, k);
    UpBlock(Down(i, k), i, k);
    if Down(i, k) < n {
      UpMonotone(Down(i, k), n, k);
    } else if j > last {
      UpMonotone(last, j, k);
      UpBlock(last, i, k);
    }
  }

  lemma AncestorBetween(n: nat, last: nat, k: nat, j: nat)
    requires n <= j <= last
    ensures Up(n, k) <= Up(j, k) <= Up(last, k)
  {
    UpMonotone(n, j, k);
    UpMonotone(j, last, k);
  }

  /** The nodes with a changed leaf below them are those between the ancestors of the first and the last new leaf. */
  lemma AffectedNodes(n: nat, added: nat, k: nat, i: nat)
    requires added > 0
    ensures Up(n, k) <= i <= Up(n + added - 1, k) <==> exists j: nat :: n <= j < n + added && Up(j, k) == i
  {
    if Up(n, k) <= i <= Up(n + added - 1, k) {
      var j := LeafBelow(n, n + added - 1, k, i);
    }
    if j: nat :| n <= j < n + added && Up(j, k) == i {
      AncestorBetween(n, n + added - 1, k, j);
    }
  }

  // ---------------------------------------------------------------- affected nodes, counted

  /** The nodes k levels up with a new leaf below them. */
  ghost function AffectedAt(first: nat, end: nat, k: nat): (r: set<nat>)
  {
    set j: nat | first <= j < end :: Up(j, k)
  }

  /** All nodes above the leaves with a new leaf below them, level by level; none for an empty batch. */
  ghost function Affected(first: nat, end: nat, levels: nat): (n: nat)
  {
    if levels == 0 then 0 else Affected(first, end, levels - 1) + |AffectedAt(first, end, levels)|
  }

  lemma {:induction false} IntervalSize(s: set<nat>, lo: nat, hi: nat)
    requires lo <= hi && forall i: nat :: i in s <==> lo <= i < hi
    ensures |s| == hi - lo
    decreases hi
  {
    if lo == hi {
      assert s == {};
    } else {
      IntervalSize(s - {hi - 1}, lo, hi - 1);
    }
  }

  /** On each level the affected nodes are an interval. */
  lemma AffectedCount(first: nat, end: nat, k: nat)
    requires first < end
    ensures Up(first, k) <= Up(end - 1, k)
    ensures |AffectedAt(first, end, k)| == Up(end - 1, k) - Up(first, k) + 1
  {
    UpMonotone(first, end - 1, k);
    forall i: nat
      ensures i in AffectedAt(first, end, k) <==> Up(first, k) <= i < Up(end - 1, k) + 1
    {
      if i in AffectedAt(first, end, k) {
        var j: nat :| first <= j < end && Up(j, k) == i;
        AncestorBetween(first, end - 1, k, j);
      }
      if Up(first, k) <= i <= Up(end - 1, k) {
        var j := LeafBelow(first, end - 1, k, i);
        assert Up(j, k) in AffectedAt(first, end, k);
      }
    }
    IntervalSize(AffectedAt(first, end, k), Up(first, k), Up(end - 1, k) + 1);
  }

  lemma {:induction false} VisitsFromTop(first: nat, last: nat, levels: nat)
    requires first <= last
    ensures Up(first, levels + 1) <= Up(last, levels + 1)
    ensures Visits(first, last, levels + 1) == Visits(first, last, levels) + Up(last, levels + 1) - Up(first, levels + 1) + 1
    decreases levels
  {
    UpMonotone(first, last, levels + 1);
    if levels > 0 {
      VisitsFromTop(first / 2, last / 2, levels - 1);
    } else {
      assert Up(first, 1) == first / 2 && Up(last, 1) == last / 2;
      assert Visits(first / 2, last / 2, 0) == 0;
    }
  }

  /** Stopping at the last new leaf visits exactly the affected nodes. */
  lemma {:induction false} AffectedVisits(first: nat, end: nat, levels: nat)
    requires first < end
    ensures Affected(first, end, levels) == Visits(first, end - 1, levels)
  {
    if levels > 0 {
      AffectedVisits(first, end, levels - 1);
      AffectedCount(first, end, levels);
      VisitsFromTop(first, end - 1, levels - 1);
    }
  }

  // ---------------------------------------------------------------- hashes beyond the affected nodes

  lemma {:induction false} InclusiveEnd(first: nat, end: nat, levels: nat)
    requires first < end
    ensures Visits(first, end, levels) == Visits(first, end - 1, levels) + TwoDivisors(end, levels)
    decreases levels
  {
    if levels > 0 && end % 2 == 0 {
      InclusiveEnd(first / 2, end / 2, levels - 1);
      assert (end - 1) / 2 == end / 2 - 1;
    }
  }

  lemma {:induction false} EmptyBatch(n: nat, levels: nat)
    ensures Visits(n, n, levels) == levels && Affected(n, n, levels) == 0
    decreases levels
  {
    if levels > 0 {
      EmptyBatch(n / 2, levels - 1);
      EmptyBatch(n, levels - 1);
      assert AffectedAt(n, n, levels) == {};
    }
  }

  /** The hashes beyond the affected nodes: for an empty batch one on every level; otherwise, because the exclusive end
      is used inclusively, one for each power of two up to 2^levels that divides the new leaf count. */
  lemma WastedHashes(first: nat, end: nat, levels: nat)
    requires first <= end
    ensures Visits(first, end, levels)
      == Affected(first, end, levels) + if first == end then levels else TwoDivisors(end, levels)
  {
    if first == end {
      EmptyBatch(first, levels);
    } else {
      InclusiveEnd(first, end, levels);
      AffectedVisits(first, end, levels);
    }
  }

  /** So the append performs the fewest possible hashes exactly when the batch is not empty and the new leaf count is odd. */
  lemma OptimalIffOdd(first: nat, end: nat, levels: nat)
    requires first <= end && levels >= 1
    ensures Visits(first, end, levels) == Affected(first, end, levels) <==> first < end && end % 2 == 1
  {
    WastedHashes(first, end, levels);
  }

  /** The second leaf of a tree costs one hash more than there are affected nodes. */
  lemma SecondLeaf(levels: nat)
    requires levels >= 1
    ensures Visits(1, 2, levels) == levels + 1 && Affected(1, 2, levels) == levels
  {
    WastedHashes(1, 2, levels);
    AffectedVisits(1, 2, levels);
    EmptyBatch(1, levels);
    assert TwoDivisors(2, levels) == 1 + TwoDivisors(1, levels - 1);
  }
}
