/** What the two-layer, sparsely stored tree holds: node lookups, and the invariants of the two update loops. */
module TreeState {
  import opened Wrappers
  import opened Numbers
  import opened MerkleSpec

  type Buffer = seq<byte>
  type Hash = (Buffer, Buffer) -> Buffer

  const MAX_DEPTH: nat := 254
  const INITIAL_LEAF: Buffer := ToBE(0, 32)

  /** `indexToKeyHash`. */
  function Key(name: string, level: nat, index: nat): (s: string)
  {
    name + ":" + Decimal(level) + ":" + Decimal(index)
  }

  lemma KeyInjective(name: string, l: nat, i: nat, l': nat, i': nat)
    requires Key(name, l, i) == Key(name, l', i')
    ensures l == l' && i == i'
  {
    var tail, tail' := ":" + Decimal(i), ":" + Decimal(i');
    var s, s' := Key(name, l, i), Key(name, l', i');
    assert s[|name| + 1..] == Decimal(l) + tail;
    assert s'[|name| + 1..] == Decimal(l') + tail';
    DecimalUniquelyReadable(l, tail, l', tail');
    assert tail[1..] == Decimal(i) && tail'[1..] == Decimal(i');
    DecimalInjective(i, i');
  }

  /** Everything a tree object and its part of the store hold at one moment. */
  datatype Tree = Tree(
    name: string,
    depth: nat,
    zeroHashes: seq<Buffer>,
    nodes: map<string, Buffer>,
    cache: map<string, Buffer>,
    root: Buffer,
    size: int,
    cachedSize: Option<int>)

  predicate Shape(t: Tree)
  {
    1 <= t.depth <= MAX_DEPTH && |t.zeroHashes| == t.depth
  }

  /** Node lookup: the cache first when uncommitted changes count, then the store, then the zero subtree.
      The committed root has its own field. */
  function Value(t: Tree, l: nat, i: nat, uncommitted: bool): (r: Buffer)
    requires Shape(t) && l <= t.depth
  {
    var key := Key(t.name, l, i);
    if uncommitted && key in t.cache then t.cache[key]
    else if l == 0 then t.root
    else if key in t.nodes then t.nodes[key]
    else t.zeroHashes[l - 1]
  }

  function NumLeaves(t: Tree, uncommitted: bool): (n: int)
  {
    if uncommitted && t.cachedSize.Some? then t.cachedSize.value else t.size
  }

  function Leaves(t: Tree, uncommitted: bool): (r: seq<Buffer>)
    requires Shape(t)
    ensures |r| == Pow2(t.depth)
  {
    seq(Pow2(t.depth), i requires 0 <= i => Value(t, t.depth, i, uncommitted))
  }

  /** Every in-range node of the view is the Merkle node over the given leaves. */
  ghost predicate Correct(h: Hash, t: Tree, leaves: seq<Buffer>, uncommitted: bool)
    requires Shape(t)
  {
    |leaves| == Pow2(t.depth) &&
    forall l: nat, i: nat {:trigger Value(t, l, i, uncommitted)} :: l <= t.depth && i < Pow2(l) ==>
      Value(t, l, i, uncommitted) == NodeAt(h, t.depth, leaves, l, i)
  }

  ghost predicate Valid(h: Hash, t: Tree)
  {
    Shape(t) &&
    (forall k :: 0 <= k < t.depth ==> t.zeroHashes[k] == ZeroRoot(h, INITIAL_LEAF, t.depth - 1 - k)) &&
    Correct(h, t, Leaves(t, false), false) &&
    Correct(h, t, Leaves(t, true), true) &&
    0 <= t.size <= Pow2(t.depth) && 0 <= NumLeaves(t, true) <= Pow2(t.depth)
  }

  /** The leaves a view is correct for are the ones it stores. */
  lemma CorrectFixesLeaves(h: Hash, t: Tree, leaves: seq<Buffer>, uncommitted: bool)
    requires Shape(t) && Correct(h, t, leaves, uncommitted)
    ensures leaves == Leaves(t, uncommitted)
  {
    forall i | 0 <= i < |leaves|
      ensures leaves[i] == Leaves(t, uncommitted)[i]
    {
      assert Value(t, t.depth, i, uncommitted) == NodeAt(h, t.depth, leaves, t.depth, i);
    }
  }

  /** Two correct views with the same leaves agree on every in-range node, however they were built. */
  lemma SameLeavesSameNodes(h: Hash, t: Tree, u: bool, t': Tree, u': bool)
    requires Valid(h, t) && Valid(h, t') && t.depth == t'.depth
    requires Leaves(t, u) == Leaves(t', u')
    ensures forall l: nat, i: nat :: l <= t.depth && i < Pow2(l) ==> Value(t, l, i, u) == Value(t', l, i, u')
  {
    forall l: nat, i: nat | l <= t.depth && i < Pow2(l)
      ensures Value(t, l, i, u) == Value(t', l, i, u')
    {
      assert Value(t, l, i, u) == NodeAt(h, t.depth, Leaves(t, u), l, i);
      assert Value(t', l, i, u') == NodeAt(h, t.depth, Leaves(t', u'), l, i);
    }
  }

  /** The sibling read at a level is that entry of the path. */
  lemma SiblingRead(h: Hash, t: Tree, u: bool, index: nat, k: nat)
    requires Valid(h, t) && index < Pow2(t.depth) && k < t.depth
    ensures Value(t, t.depth - k, Sibling(Up(index, k)), u) == PathOf(h, t.depth, Leaves(t, u), t.depth, index)[k]
  {
    hide NodeAt, PathOf, Up, Sibling;
    PathEntry(h, t.depth, Leaves(t, u), t.depth, index, k);
  }

  // ---------------------------------------------------------------- one cache write

  function Put(t: Tree, l: nat, i: nat, v: Buffer): (r: Tree)
  {
    t.(cache := t.cache[Key(t.name, l, i) := v])
  }

  /** A cache write changes exactly one node of the uncommitted view and none of the committed one. */
  lemma PutReads(t: Tree, l: nat, i: nat, v: Buffer, l': nat, i': nat)
    requires Shape(t) && l' <= t.depth
    ensures Value(Put(t, l, i, v), l', i', true) == if l' == l && i' == i then v else Value(t, l', i', true)
    ensures Value(Put(t, l, i, v), l', i', false) == Value(t, l', i', false)
  {
    if Key(t.name, l, i) == Key(t.name, l', i') {
      KeyInjective(t.name, l, i, l', i');
    }
  }

  // ---------------------------------------------------------------- the walk to the root

  /** During the walk every in-range node is right except the ancestors of `cur` above `level`. */
  ghost predicate WalkInv(h: Hash, t: Tree, leaves: seq<Buffer>, level: nat, cur: nat)
    requires Shape(t)
  {
    |leaves| == Pow2(t.depth) && level <= t.depth && cur < Pow2(level) &&
    forall l: nat, i: nat {:trigger Value(t, l, i, true)} :: l <= t.depth && i < Pow2(l) && (l >= level || i != Up(cur, level - l)) ==>
      Value(t, l, i, true) == NodeAt(h, t.depth, leaves, l, i)
  }

  lemma WalkStart(h: Hash, t: Tree, leaves: seq<Buffer>, x: nat, v: Buffer)
    requires Shape(t) && Correct(h, t, leaves, true) && x < Pow2(t.depth)
    ensures WalkInv(h, Put(t, t.depth, x, v), leaves[x := v], t.depth, x)
  {
    var t', leaves' := Put(t, t.depth, x, v), leaves[x := v];
    forall l: nat, i: nat | l <= t.depth && i < Pow2(l) && (l >= t.depth || i != Up(x, t.depth - l))
      ensures Value(t', l, i, true) == NodeAt(h, t.depth, leaves', l, i)
    {
      PutReads(t, t.depth, x, v, l, i);
      if l < t.depth {
        LeafFrame(h, t.depth, leaves, x, v, l, i);
      } else {
        assert Value(t, l, i, true) == NodeAt(h, t.depth, leaves, l, i);
      }
    }
  }

  lemma WalkStep(h: Hash, t: Tree, leaves: seq<Buffer>, level: nat, cur: nat, v: Buffer)
    requires Shape(t) && WalkInv(h, t, leaves, level, cur) && level > 0
    requires v == if cur % 2 == 1 then h(Value(t, level, cur - 1, true), Value(t, level, cur, true))
                  else h(Value(t, level, cur, true), Value(t, level, cur + 1, true))
    ensures WalkInv(h, Put(t, level - 1, cur / 2, v), leaves, level - 1, cur / 2)
  {
    var t' := Put(t, level - 1, cur / 2, v);
    assert cur == 2 * (cur / 2) + cur % 2;
    assert v == NodeAt(h, t.depth, leaves, level - 1, cur / 2);
    forall l: nat, i: nat | l <= t.depth && i < Pow2(l) && (l >= level - 1 || i != Up(cur / 2, level - 1 - l))
      ensures Value(t', l, i, true) == NodeAt(h, t.depth, leaves, l, i)
    {
      PutReads(t, level - 1, cur / 2, v, l, i);
      if l == level - 1 {
        assert Up(cur, 1) == cur / 2;
      }
    }
  }

  // ---------------------------------------------------------------- the level-by-level batch

  /** Node (l, i) is no ancestor of anything between first and last of the given level. */
  predicate Outside(level: nat, first: nat, last: nat, l: nat, i: nat)
    requires l <= level
  {
    i < Up(first, level - l) || i > Up(last, level - l)
  }

  /** Above `level`, only the nodes between the ancestors of first and last may be stale. */
  ghost predicate BatchInv(h: Hash, t: Tree, leaves: seq<Buffer>, level: nat, first: nat, last: nat)
    requires Shape(t)
  {
    |leaves| == Pow2(t.depth) && level <= t.depth && first <= last &&
    forall l: nat, i: nat {:trigger Value(t, l, i, true)} :: l <= t.depth && i < Pow2(l) && (l >= level || Outside(level, first, last, l, i)) ==>
      Value(t, l, i, true) == NodeAt(h, t.depth, leaves, l, i)
  }

  /** While row `row` is being recomputed, its nodes below `index` are right as well. */
  ghost predicate RowInv(h: Hash, t: Tree, leaves: seq<Buffer>, row: nat, first: nat, last: nat, index: nat)
    requires Shape(t)
  {
    |leaves| == Pow2(t.depth) && row < t.depth && first <= last && first <= index <= last + 1 &&
    forall l: nat, i: nat {:trigger Value(t, l, i, true)} :: l <= t.depth && i < Pow2(l) && (l > row || (l == row && i < index) || Outside(row, first, last, l, i)) ==>
      Value(t, l, i, true) == NodeAt(h, t.depth, leaves, l, i)
  }

  /** The first `done` leaves of a batch have been written. */
  ghost predicate LeavesWritten(t0: Tree, t: Tree, n: nat, added: seq<Buffer>, done: nat)
    requires Shape(t0) && Shape(t)
  {
    t.depth == t0.depth && done <= |added| &&
    forall l: nat, i: nat :: l <= t.depth && i < Pow2(l) ==>
      Value(t, l, i, true) ==
      if l == t.depth && n <= i < n + done then added[i - n] else Value(t0, l, i, true)
  }

  lemma LeafWritten(t0: Tree, t: Tree, n: nat, added: seq<Buffer>, done: nat)
    requires Shape(t0) && Shape(t) && LeavesWritten(t0, t, n, added, done) && done < |added|
    ensures LeavesWritten(t0, Put(t, t.depth, n + done, added[done]), n, added, done + 1)
  {
    var t' := Put(t, t.depth, n + done, added[done]);
    forall l: nat, i: nat | l <= t.depth && i < Pow2(l)
      ensures Value(t', l, i, true) ==
        if l == t.depth && n <= i < n + (done + 1) then added[i - n] else Value(t0, l, i, true)
    {
      PutReads(t, t.depth, n + done, added[done], l, i);
    }
  }

  lemma BatchStart(h: Hash, t0: Tree, t: Tree, leaves: seq<Buffer>, n: nat, added: seq<Buffer>)
    requires Shape(t0) && Shape(t) && Correct(h, t0, leaves, true)
    requires n + |added| <= Pow2(t0.depth) && LeavesWritten(t0, t, n, added, |added|)
    ensures BatchInv(h, t, Splice(leaves, n, added), t.depth, n, n + |added|)
  {
    var d, leaves' := t.depth, Splice(leaves, n, added);
    forall l: nat, i: nat | l <= d && i < Pow2(l) && (l >= d || Outside(d, n, n + |added|, l, i))
      ensures Value(t, l, i, true) == NodeAt(h, d, leaves', l, i)
    {
      assert Value(t0, l, i, true) == NodeAt(h, d, leaves, l, i);
      if l < d {
        BatchFrame(h, d, leaves, n, added, l, i);
      }
    }
  }

  lemma RowStart(h: Hash, t: Tree, leaves: seq<Buffer>, level: nat, first: nat, last: nat)
    requires Shape(t) && BatchInv(h, t, leaves, level, first, last) && level > 0
    ensures RowInv(h, t, leaves, level - 1, first / 2, last / 2, first / 2)
  {
    forall l: nat, i: nat | l <= t.depth && i < Pow2(l) &&
        (l > level - 1 || (l == level - 1 && i < first / 2) || Outside(level - 1, first / 2, last / 2, l, i))
      ensures Value(t, l, i, true) == NodeAt(h, t.depth, leaves, l, i)
    {
      if l == level - 1 {
        assert Up(first, 1) == first / 2;
      }
    }
  }

  /** Recomputing a node from its children makes it right, and an out-of-range node is never looked at. */
  lemma RowStep(h: Hash, t: Tree, leaves: seq<Buffer>, row: nat, first: nat, last: nat, index: nat, v: Buffer)
    requires Shape(t) && RowInv(h, t, leaves, row, first, last, index) && index <= last
    requires v == h(Value(t, row + 1, 2 * index, true), Value(t, row + 1, 2 * index + 1, true))
    ensures RowInv(h, Put(t, row, index, v), leaves, row, first, last, index + 1)
  {
    var t' := Put(t, row, index, v);
    forall l: nat, i: nat | l <= t.depth && i < Pow2(l) &&
        (l > row || (l == row && i < index + 1) || Outside(row, first, last, l, i))
      ensures Value(t', l, i, true) == NodeAt(h, t.depth, leaves, l, i)
    {
      PutReads(t, row, index, v, l, i);
    }
  }

  lemma RowEnd(h: Hash, t: Tree, leaves: seq<Buffer>, row: nat, first: nat, last: nat)
    requires Shape(t) && RowInv(h, t, leaves, row, first, last, last + 1)
    ensures BatchInv(h, t, leaves, row, first, last)
  {
  }

  lemma BatchEnd(h: Hash, t: Tree, leaves: seq<Buffer>, first: nat, last: nat)
    requires Shape(t) && BatchInv(h, t, leaves, 0, first, last)
    ensures Correct(h, t, leaves, true)
  {
  }

  // ---------------------------------------------------------------- commit, rollback, reload

  function Committed(t: Tree): (r: Tree)
    requires Shape(t)
  {
    t.(nodes := t.nodes + t.cache, root := Value(t, 0, 0, true), size := NumLeaves(t, true),
       cache := map[], cachedSize := None)
  }

  function RolledBack(t: Tree): (r: Tree)
  {
    t.(cache := map[], cachedSize := None)
  }

  /** After a commit both views are the old uncommitted view. */
  lemma CommitKeepsView(h: Hash, t: Tree, u: bool)
    requires Valid(h, t)
    ensures Valid(h, Committed(t))
    ensures forall l: nat, i: nat :: l <= t.depth && i < Pow2(l) ==> Value(Committed(t), l, i, u) == Value(t, l, i, true)
    ensures Leaves(Committed(t), u) == Leaves(t, true)
    ensures NumLeaves(Committed(t), u) == NumLeaves(t, true)
  {
    var c := Committed(t);
    assert forall l: nat, i: nat, w :: l <= t.depth && i < Pow2(l) ==> Value(c, l, i, w) == Value(t, l, i, true);
    assert Leaves(c, false) == Leaves(t, true);
    assert Leaves(c, true) == Leaves(t, true);
  }

  /** After a rollback both views are the committed view. */
  lemma RollbackRestores(h: Hash, t: Tree, u: bool)
    requires Valid(h, t)
    ensures Valid(h, RolledBack(t))
    ensures forall l: nat, i: nat :: l <= t.depth && i < Pow2(l) ==> Value(RolledBack(t), l, i, u) == Value(t, l, i, false)
    ensures Leaves(RolledBack(t), u) == Leaves(t, false)
    ensures NumLeaves(RolledBack(t), u) == t.size
  {
    var c := RolledBack(t);
    assert forall l: nat, i: nat, w :: l <= t.depth && i < Pow2(l) ==> Value(c, l, i, w) == Value(t, l, i, false);
    assert Leaves(c, false) == Leaves(t, false);
    assert Leaves(c, true) == Leaves(t, false);
  }

  /** Whatever the store already holds under the name is the zero hash of its level. */
  ghost predicate OnlyZeroNodes(h: Hash, t: Tree)
    requires Shape(t)
  {
    forall l: nat, i: nat :: 1 <= l <= t.depth && i < Pow2(l) && Key(t.name, l, i) in t.nodes ==>
      t.nodes[Key(t.name, l, i)] == ZeroRoot(h, INITIAL_LEAF, t.depth - l)
  }

  /** A tree object without root or size given, over whatever the store already holds under its name. */
  predicate JustCreated(h: Hash, t: Tree)
  {
    && Shape(t) && t.cache == map[] && t.size == 0 && t.cachedSize == None
    && (forall k :: 0 <= k < t.depth ==> t.zeroHashes[k] == ZeroRoot(h, INITIAL_LEAF, t.depth - 1 - k))
    && t.root == ZeroRoot(h, INITIAL_LEAF, t.depth)
  }

  /** It is the empty tree, consistent at every node, exactly when the store holds no other nodes than zero hashes. */
  lemma EmptyIffNoNodes(h: Hash, t: Tree)
    requires JustCreated(h, t)
    ensures OnlyZeroNodes(h, t) <==>
      Valid(h, t) && Leaves(t, false) == Zeros(t.depth, INITIAL_LEAF) == Leaves(t, true)
  {
    if OnlyZeroNodes(h, t) {
      EmptyIsValid(h, t);
    } else {
      StoredNodesRemain(h, t);
    }
  }

  lemma EmptyIsValid(h: Hash, t: Tree)
    requires JustCreated(h, t) && OnlyZeroNodes(h, t)
    ensures Valid(h, t) && Leaves(t, false) == Zeros(t.depth, INITIAL_LEAF) == Leaves(t, true)
  {
    var zeros := Zeros(t.depth, INITIAL_LEAF);
    forall l: nat, i: nat, u | l <= t.depth && i < Pow2(l)
      ensures Value(t, l, i, u) == NodeAt(h, t.depth, zeros, l, i)
    {
      ZeroNode(h, t.depth, INITIAL_LEAF, l, i);
    }
    CorrectFixesLeaves(h, t, zeros, false);
    CorrectFixesLeaves(h, t, zeros, true);
  }

  lemma StoredNodesRemain(h: Hash, t: Tree)
    requires JustCreated(h, t) && !OnlyZeroNodes(h, t)
    ensures !(Valid(h, t) && Leaves(t, false) == Zeros(t.depth, INITIAL_LEAF))
  {
    var l: nat, i: nat :| 1 <= l <= t.depth && i < Pow2(l) && Key(t.name, l, i) in t.nodes &&
      t.nodes[Key(t.name, l, i)] != ZeroRoot(h, INITIAL_LEAF, t.depth - l);
    ZeroNode(h, t.depth, INITIAL_LEAF, l, i);
    assert Value(t, l, i, false) == t.nodes[Key(t.name, l, i)];
  }

  /** Nothing but the pending size changed. */
  lemma SizeChanged(h: Hash, t: Tree, t': Tree)
    requires Valid(h, t) && t' == t.(cachedSize := t'.cachedSize)
    requires 0 <= NumLeaves(t', true) <= Pow2(t.depth)
    ensures Valid(h, t') && Leaves(t', true) == Leaves(t, true) && Leaves(t', false) == Leaves(t, false)
  {
    assert forall l: nat, i: nat, u :: l <= t.depth ==> Value(t', l, i, u) == Value(t, l, i, u);
    assert Leaves(t', true) == Leaves(t, true);
    assert Leaves(t', false) == Leaves(t, false);
  }
}
