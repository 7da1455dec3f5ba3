/** The update-only tree: its size is the number of non-zero leaves. */
module SparseTreeModule {
  import opened Wrappers
  import opened Numbers
  import opened MerkleSpec
  import opened TreeState
  import opened TreeBaseModule

  function One(leaf: Buffer): (n: nat)
  {
    if leaf == INITIAL_LEAF then 0 else 1
  }

  /** How many leaves differ from the zero leaf. */
  function NonZero(leaves: seq<Buffer>): (n: nat)
    ensures n <= |leaves|
  {
    if leaves == [] then 0 else NonZero(leaves[..|leaves| - 1]) + One(leaves[|leaves| - 1])
  }

  lemma {:induction false} NonZeroUpdate(leaves: seq<Buffer>, i: nat, v: Buffer)
    requires i < |leaves|
    ensures NonZero(leaves[i := v]) == NonZero(leaves) - One(leaves[i]) + One(v)
    decreases |leaves|
  {
    var last := |leaves| - 1;
    if i < last {
      assert leaves[i := v][..last] == leaves[..last][i := v];
      NonZeroUpdate(leaves[..last], i, v);
    } else {
      assert leaves[i := v][..last] == leaves[..last];
    }
  }

  lemma {:induction false} NoNonZero(leaves: seq<Buffer>)
    requires forall i :: 0 <= i < |leaves| ==> leaves[i] == INITIAL_LEAF
    ensures NonZero(leaves) == 0
  {
    if leaves != [] {
      NoNonZero(leaves[..|leaves| - 1]);
    }
  }

  /** A new tree over a store without nodes of its name can be used as a sparse tree: its size 0 counts its leaves. */
  lemma EmptyIsSparse(h: Hash, t: Tree)
    requires JustCreated(h, t) && OnlyZeroNodes(h, t)
    ensures Valid(h, t)
    ensures NumLeaves(t, false) == NonZero(Leaves(t, false)) && NumLeaves(t, true) == NonZero(Leaves(t, true))
  {
    EmptyIsValid(h, t);
    NoNonZero(Zeros(t.depth, INITIAL_LEAF));
  }

  class SparseTree {
    const base: TreeBase

    ghost predicate Valid()
      reads this, base, base.store
    {
      && base.Valid()
      && NumLeaves(base.State(), false) == NonZero(base.LeavesOf(false))
      && NumLeaves(base.State(), true) == NonZero(base.LeavesOf(true))
    }

    constructor (base: TreeBase)
      requires base.Valid() && NumLeaves(base.State(), false) == NonZero(base.LeavesOf(false))
      requires NumLeaves(base.State(), true) == NonZero(base.LeavesOf(true))
      ensures Valid() && this.base == base
    {
      this.base := base;
    }

    /** Sets a leaf and keeps the pending size equal to the number of non-zero leaves;
        writing zero over zero does nothing at all. */
    method UpdateLeaf(leaf: Buffer, index: nat) returns (r: Result<()>)
      requires Valid()
      modifies base`cache, base`cachedSize, base.hasher
      ensures Valid()
      ensures r.Ok? <==> index < Pow2(base.depth)
      ensures r.Err? ==> base.State() == old(base.State())
      ensures r.Ok? ==> base.LeavesOf(true) == old(base.LeavesOf(true))[index := leaf]
      ensures base.LeavesOf(false) == old(base.LeavesOf(false))
      ensures r.Ok? && leaf == INITIAL_LEAF && old(base.LeavesOf(true))[index] == INITIAL_LEAF ==>
        base.State() == old(base.State()) && base.hasher.hashCount == old(base.hasher.hashCount)
    {
      hide NodeAt, Pow2, Correct;
      if index > base.maxIndex {
        return Err("Index out of bounds");
      }
      var insertingZeroElement := leaf == INITIAL_LEAF;
      var original := base.GetLeafValue(index, true);
      var originallyZeroElement := original == INITIAL_LEAF;
      ghost var before := base.LeavesOf(true);
      NonZeroUpdate(before, index, leaf);
      if insertingZeroElement && originallyZeroElement {
        return Ok(());
      }
      base.AddLeafToCacheAndHashToRoot(leaf, index);
      ghost var t := base.State();
      var n := base.GetNumLeaves(true);
      if insertingZeroElement {
        base.cachedSize := Some(n - 1);
      } else if originallyZeroElement {
        base.cachedSize := Some(n + 1);
      }
      SizeChanged(base.hasher.f, t, base.State());
      r := Ok(());
    }

    method Commit()
      requires Valid()
      modifies base, base.store
      ensures Valid()
      ensures base.State() == Committed(old(base.State()))
      ensures base.LeavesOf(true) == base.LeavesOf(false) == old(base.LeavesOf(true))
    {
      base.Commit();
    }

    method Rollback()
      requires Valid()
      modifies base
      ensures Valid()
      ensures base.State() == RolledBack(old(base.State()))
      ensures base.LeavesOf(true) == base.LeavesOf(false) == old(base.LeavesOf(false))
    {
      base.Rollback();
    }
  }
}
