/** Whole runs of a tree: what any sequence of appends, leaf updates, commits and rollbacks leaves behind. */
module TreeRuns {
  import opened Wrappers
  import opened Numbers
  import opened MerkleSpec
  import opened TreeState
  import opened TreeMeta
  import opened HashCount
  import opened TreeBaseModule

  // ---------------------------------------------------------------- the abstract machine

  datatype Op = Append(leaves: seq<Buffer>) | SetLeaf(leaf: Buffer, index: nat) | Commit | Rollback

  /** One view: all 2^depth leaves and the number of leaves in use. */
  datatype View = View(leaves: seq<Buffer>, size: int)

  datatype Abs = Abs(committed: View, pending: View)

  predicate InRange(op: Op, capacity: nat)
  {
    op.SetLeaf? ==> op.index < capacity
  }

  function Apply(a: Abs, op: Op): (r: Abs)
    requires 0 <= a.pending.size && InRange(op, |a.pending.leaves|)
    ensures 0 <= r.pending.size || r.pending == a.committed
    ensures |a.committed.leaves| == |a.pending.leaves| ==> |r.committed.leaves| == |r.pending.leaves| == |a.pending.leaves|
  {
    match op
    case Append(leaves) =>
      if a.pending.size + |leaves| <= |a.pending.leaves|
      then a.(pending := View(Splice(a.pending.leaves, a.pending.size, leaves), a.pending.size + |leaves|))
      else a
    case SetLeaf(leaf, index) => a.(pending := a.pending.(leaves := a.pending.leaves[index := leaf]))
    case Commit => Abs(a.pending, a.pending)
    case Rollback => Abs(a.committed, a.committed)
  }

  predicate Sane(a: Abs)
  {
    0 <= a.committed.size && 0 <= a.pending.size && |a.committed.leaves| == |a.pending.leaves|
  }

  predicate AllInRange(ops: seq<Op>, capacity: nat)
  {
    forall k :: 0 <= k < |ops| ==> InRange(ops[k], capacity)
  }

  /** The abstract run. */
  function Run(a: Abs, ops: seq<Op>): (r: Abs)
    requires Sane(a) && AllInRange(ops, |a.pending.leaves|)
    ensures Sane(r) && |r.pending.leaves| == |a.pending.leaves|
    decreases |ops|
  {
    if ops == [] then a
    else Apply(Run(a, ops[..|ops| - 1]), ops[|ops| - 1])
  }

  function Abstraction(t: Tree): (a: Abs)
    requires Shape(t)
  {
    Abs(View(Leaves(t, false), t.size), View(Leaves(t, true), NumLeaves(t, true)))
  }

  function Pick(a: Abs, uncommitted: bool): (v: View)
  {
    if uncommitted then a.pending else a.committed
  }

  /** The tree object follows the abstract machine through every run, and in both views every in-range node
      is the Merkle node over that view's leaves. */
  method RunTree(tree: TreeBase, ops: seq<Op>)
    requires tree.Valid() && AllInRange(ops, Pow2(tree.depth))
    modifies tree, tree.store, tree.hasher
    ensures tree.Valid()
    ensures Abstraction(tree.State()) == Run(old(Abstraction(tree.State())), ops)
    ensures forall u, l: nat, i: nat {:trigger Value(tree.State(), l, i, u)} :: l <= tree.depth && i < Pow2(l) ==>
      Value(tree.State(), l, i, u)
        == NodeAt(tree.hasher.f, tree.depth, Pick(Run(old(Abstraction(tree.State())), ops), u).leaves, l, i)
  {
    ghost var a := Abstraction(tree.State());
    var k := 0;
    assert ops[..0] == [];
    while k < |ops|
      invariant 0 <= k <= |ops| && tree.Valid()
      invariant Abstraction(tree.State()) == Run(a, ops[..k])
    {
      assert ops[..k + 1][..k] == ops[..k] && ops[..k + 1][k] == ops[k];
      RunOne(tree, ops[k]);
      k := k + 1;
    }
    assert ops[..k] == ops;
  }

  method RunOne(tree: TreeBase, op: Op)
    requires tree.Valid() && InRange(op, Pow2(tree.depth))
    modifies tree, tree.store, tree.hasher
    ensures tree.Valid()
    ensures Abstraction(tree.State()) == Apply(old(Abstraction(tree.State())), op)
  {
    match op
    case Append(leaves) =>
      var _ := tree.AppendLeaves(leaves);
    case SetLeaf(leaf, index) =>
      tree.AddLeafToCacheAndHashToRoot(leaf, index);
    case Commit =>
      tree.Commit();
    case Rollback =>
      tree.Rollback();
  }

  // ---------------------------------------------------------------- batch against per-leaf insertion

  /** One SetLeaf per leaf, from position n on. */
  function PerLeaf(n: nat, leaves: seq<Buffer>): (ops: seq<Op>)
    ensures |ops| == |leaves|
    ensures forall k :: 0 <= k < |ops| ==> ops[k] == SetLeaf(leaves[k], n + k)
  {
    seq(|leaves|, k requires 0 <= k < |leaves| => SetLeaf(leaves[k], n + k))
  }

  lemma {:induction false} PerLeafIsSplice(a: Abs, n: nat, leaves: seq<Buffer>)
    requires Sane(a) && n + |leaves| <= |a.pending.leaves|
    ensures Run(a, PerLeaf(n, leaves)) == a.(pending := a.pending.(leaves := Splice(a.pending.leaves, n, leaves)))
    decreases |leaves|
  {
    var ops := PerLeaf(n, leaves);
    if leaves == [] {
      assert Splice(a.pending.leaves, n, leaves) == a.pending.leaves;
    } else {
      var m := |leaves| - 1;
      assert ops[..m] == PerLeaf(n, leaves[..m]);
      PerLeafIsSplice(a, n, leaves[..m]);
      SpliceExtend(a.pending.leaves, n, leaves, m);
      assert leaves[..m + 1] == leaves;
    }
  }

  /** One walk to the root per leaf, from the current leaf count on: exactly k * d hashes. */
  method WalkEach(tree: TreeBase, leaves: seq<Buffer>)
    requires tree.Valid() && NumLeaves(tree.State(), true) + |leaves| <= Pow2(tree.depth)
    modifies tree`cache, tree.hasher
    ensures tree.Valid()
    ensures tree.LeavesOf(true) == Splice(old(tree.LeavesOf(true)), old(NumLeaves(tree.State(), true)), leaves)
    ensures tree.hasher.hashCount == old(tree.hasher.hashCount) + |leaves| * tree.depth
  {
    ghost var before := tree.LeavesOf(true);
    var n := tree.GetNumLeaves(true);
    var k := 0;
    while k < |leaves|
      invariant 0 <= k <= |leaves| && tree.Valid()
      invariant tree.LeavesOf(true) == Splice(before, n, leaves[..k])
      invariant tree.hasher.hashCount == old(tree.hasher.hashCount) + k * tree.depth
    {
      tree.AddLeafToCacheAndHashToRoot(leaves[k], n + k);
      SpliceExtend(before, n, leaves, k);
      assert (k + 1) * tree.depth == k * tree.depth + tree.depth;
      k := k + 1;
    }
    assert leaves[..k] == leaves;
  }

  /** From equal states, the batch append and one walk per leaf give the same value at every in-range node,
      the batch with at most k + 2d hashes and the walks with exactly k * d. */
  method BatchMatchesPerLeaf(batch: TreeBase, walk: TreeBase, leaves: seq<Buffer>)
    requires batch.Valid() && walk.Valid() && batch != walk && batch.hasher != walk.hasher
    requires batch.State() == walk.State() && batch.hasher.f == walk.hasher.f
    requires NumLeaves(batch.State(), true) + |leaves| <= Pow2(batch.depth)
    modifies batch, batch.hasher, walk, walk.hasher
    ensures batch.Valid() && walk.Valid()
    ensures forall l: nat, i: nat {:trigger Value(batch.State(), l, i, true)} :: l <= batch.depth && i < Pow2(l) ==>
      Value(batch.State(), l, i, true) == Value(walk.State(), l, i, true)
    ensures batch.hasher.hashCount - old(batch.hasher.hashCount) <= |leaves| + 2 * batch.depth
    ensures walk.hasher.hashCount == old(walk.hasher.hashCount) + |leaves| * batch.depth
  {
    ghost var n: nat := NumLeaves(walk.State(), true);
    var _ := batch.AppendLeaves(leaves);
    VisitsBound(n, n + |leaves|, batch.depth);
    WalkEach(walk, leaves);
    SameLeavesSameNodes(batch.hasher.f, batch.State(), true, walk.State(), true);
  }

  // ---------------------------------------------------------------- rollback and append-only histories

  /** Whatever happened since the last commit, a rollback brings both views back to it. */
  lemma {:induction false} RollbackDiscards(a: Abs, ops: seq<Op>)
    requires Sane(a) && AllInRange(ops, |a.pending.leaves|)
    requires forall k :: 0 <= k < |ops| ==> !ops[k].Commit?
    ensures Run(a, ops).committed == a.committed
    ensures Run(a, ops + [Rollback]) == Abs(a.committed, a.committed)
    decreases |ops|
  {
    assert (ops + [Rollback])[..|ops|] == ops;
    if ops != [] {
      RollbackDiscards(a, ops[..|ops| - 1]);
    }
  }

  /** An append-only history as two plain lists. */
  datatype Lists = Lists(committed: seq<Buffer>, pending: seq<Buffer>)

  function ListRun(ops: seq<Op>, capacity: nat): (r: Lists)
    ensures |r.committed| <= capacity && |r.pending| <= capacity
    decreases |ops|
  {
    if ops == [] then Lists([], [])
    else
      var a := ListRun(ops[..|ops| - 1], capacity);
      match ops[|ops| - 1]
      case Append(leaves) => if |a.pending| + |leaves| <= capacity then a.(pending := a.pending + leaves) else a
      case SetLeaf(_, _) => a
      case Commit => Lists(a.pending, a.pending)
      case Rollback => Lists(a.committed, a.committed)
  }

  function Padded(d: nat, list: seq<Buffer>): (r: seq<Buffer>)
    requires |list| <= Pow2(d)
    ensures |r| == Pow2(d)
  {
    list + Zeros(d, INITIAL_LEAF)[|list|..]
  }

  function Empty(d: nat): (a: Abs)
  {
    var v := View(Zeros(d, INITIAL_LEAF), 0);
    Abs(v, v)
  }

  /** From the empty tree, appends, commits and rollbacks keep each view equal to
      the leaves appended so far followed by zero leaves. */
  lemma {:induction false} AppendOnlyRun(d: nat, ops: seq<Op>)
    requires forall k :: 0 <= k < |ops| ==> !ops[k].SetLeaf?
    ensures var r, lists := Run(Empty(d), ops), ListRun(ops, Pow2(d));
      && r.pending == View(Padded(d, lists.pending), |lists.pending|)
      && r.committed == View(Padded(d, lists.committed), |lists.committed|)
    decreases |ops|
  {
    if ops == [] {
      assert Padded(d, []) == Zeros(d, INITIAL_LEAF);
    } else {
      var before := ops[..|ops| - 1];
      AppendOnlyRun(d, before);
      var list := ListRun(before, Pow2(d)).pending;
      match ops[|ops| - 1] {
        case Append(leaves) =>
          if |list| + |leaves| <= Pow2(d) {
            assert Splice(Padded(d, list), |list|, leaves) == Padded(d, list + leaves);
          }
        case _ =>
      }
    }
  }

  // ---------------------------------------------------------------- creation and reload

  /** Whatever nodes the store holds under the name stay; the result is the empty tree exactly when none of them
      differs from a zero hash. */
  method NewTree(store: Store, f: Hash, name: string, depth: nat) returns (r: Result<TreeBase>)
    modifies store`meta
    ensures r.Ok? <==> 1 <= depth <= MAX_DEPTH
    ensures r.Ok? ==>
      && fresh(r.value) && fresh(r.value.hasher) && r.value.store == store && r.value.hasher.f == f && r.value.depth == depth
      && r.value.name == name && JustCreated(f, r.value.State()) && store.meta == Some(MetaOf(r.value.State()))
    ensures r.Ok? ==>
      (OnlyZeroNodes(f, r.value.State()) <==> r.value.Valid() && Abstraction(r.value.State()) == Empty(depth))
  {
    if !(depth >= 1 && depth <= MAX_DEPTH) {
      return Err("Invalid depth");
    }
    var tree := new TreeBase(store, f, name, depth, 0, None);
    EmptyIffNoNodes(f, tree.State());
    tree.WriteMeta();
    r := Ok(tree);
  }

  /** Two single appends to a new tree: the second spends one hash more than there are nodes above its leaf. */
  method SecondAppendWastesOne(f: Hash, name: string, depth: nat, a: Buffer, b: Buffer) returns (first: nat, second: nat)
    requires 1 <= depth <= MAX_DEPTH
    ensures first == Affected(0, 1, depth) == depth
    ensures second == Affected(1, 2, depth) + 1 == depth + 1
  {
    hide NodeAt, Correct, Affected, Visits;
    var store := new Store();
    var made := NewTree(store, f, name, depth);
    var tree := made.value;
    assert 2 <= Pow2(depth) by {
      Pow2Monotone(1, depth);
    }
    var start := tree.hasher.hashCount;
    var _ := tree.AppendLeaves([a]);
    var middle := tree.hasher.hashCount;
    var _ := tree.AppendLeaves([b]);
    first, second := middle - start, tree.hasher.hashCount - middle;
    OptimalIffOdd(0, 1, depth);
    AffectedVisits(0, 1, depth);
    EmptyBatch(0, depth);
    SecondLeaf(depth);
  }

  /** A tree created again under a name whose old tree has committed a leaf is not the empty tree. */
  method RecreatedIsNotEmpty(f: Hash, name: string, depth: nat, leaf: Buffer) returns (r: Result<TreeBase>)
    requires 1 <= depth <= MAX_DEPTH && leaf != INITIAL_LEAF
    ensures r.Ok? && !(r.value.Valid() && Abstraction(r.value.State()) == Empty(depth))
  {
    var store := new Store();
    var made := NewTree(store, f, name, depth);
    var tree := made.value;
    var _ := tree.AppendLeaves([leaf]);
    ghost var appended := tree.LeavesOf(true);
    tree.Commit();
    assert appended[0] == leaf && Value(tree.State(), depth, 0, false) == leaf;
    assert store.nodes[Key(name, depth, 0)] == leaf;
    r := NewTree(store, f, name, depth);
    assert r.value.State().nodes[Key(name, depth, 0)] == leaf;
  }

  method LoadTree(store: Store, f: Hash, name: string) returns (r: Result<TreeBase>)
    ensures r.Ok? <==>
      && store.meta.Some? && DecodeMeta(store.meta.value).Ok?
      && 1 <= DecodeMeta(store.meta.value).value.depth <= MAX_DEPTH
    ensures r.Ok? ==>
      var meta := DecodeMeta(store.meta.value).value;
      && fresh(r.value) && r.value.store == store && r.value.hasher.f == f
      && r.value.depth == meta.depth && |r.value.zeroHashes| == meta.depth && r.value.maxIndex == Pow2(meta.depth) - 1
      && (forall k :: 0 <= k < meta.depth ==> r.value.zeroHashes[k] == ZeroRoot(f, INITIAL_LEAF, meta.depth - 1 - k))
      && r.value.State() == Tree(name, meta.depth, r.value.zeroHashes, store.nodes, map[], meta.root, meta.size, None)
  {
    if store.meta.None? {
      return Err("no metadata");
    }
    var meta := DecodeMeta(store.meta.value);
    if meta.Err? {
      return Err(meta.error);
    }
    if !(meta.value.depth >= 1 && meta.value.depth <= MAX_DEPTH) {
      return Err("Invalid depth");
    }
    var tree := new TreeBase(store, f, name, meta.value.depth, meta.value.size, Some(meta.value.root));
    r := Ok(tree);
  }

  /** With 32-byte hashes the root of a valid tree has 32 bytes. */
  lemma RootSize(h: Hash, t: Tree, u: bool)
    requires Valid(h, t) && forall a, b :: |h(a, b)| == 32
    ensures |Value(t, 0, 0, u)| == 32
  {
    assert Value(t, 0, 0, u) == NodeAt(h, t.depth, Leaves(t, u), 0, 0);
  }

  /** Committing and loading gives a tree in exactly the committed state, so equal in every observation. */
  method CommitAndReload(tree: TreeBase) returns (r: Result<TreeBase>)
    requires tree.Valid() && forall a, b :: |tree.hasher.f(a, b)| == 32
    modifies tree, tree.store
    ensures r.Ok? && r.value.Valid() && r.value.hasher.f == tree.hasher.f
    ensures tree.Valid() && tree.State() == Committed(old(tree.State()))
    ensures r.value.State() == tree.State()
    ensures Abstraction(r.value.State()) == Apply(old(Abstraction(tree.State())), Op.Commit)
  {
    RootSize(tree.hasher.f, tree.State(), true);
    ghost var a := Abstraction(tree.State());
    tree.Commit();
    assert Abstraction(tree.State()) == Apply(a, Op.Commit);
    r := Reload(tree);
  }

  lemma SameZeroHashes(h: Hash, a: seq<Buffer>, b: seq<Buffer>, d: nat)
    requires |a| == d && |b| == d
    requires forall k :: 0 <= k < d ==> a[k] == ZeroRoot(h, INITIAL_LEAF, d - 1 - k)
    requires forall k :: 0 <= k < d ==> b[k] == ZeroRoot(h, INITIAL_LEAF, d - 1 - k)
    ensures a == b
  {
  }

  /** Loading what a tree with nothing uncommitted has stored gives a tree in the same state. */
  method Reload(tree: TreeBase) returns (r: Result<TreeBase>)
    requires tree.Valid() && tree.cache == map[] && tree.cachedSize == None && |tree.root| == 32
    requires tree.store.meta == Some(MetaOf(tree.State()))
    ensures r.Ok? && fresh(r.value) && r.value.Valid() && r.value.hasher.f == tree.hasher.f && r.value.State() == tree.State()
  {
    ghost var t := tree.State();
    SettledMeta(t);
    r := LoadTree(tree.store, tree.hasher.f, tree.name);
    SameZeroHashes(tree.hasher.f, r.value.zeroHashes, tree.zeroHashes, tree.depth);
  }
}
