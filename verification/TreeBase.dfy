/** The Merkle tree object: committed nodes in a store, uncommitted changes in a cache. */
module TreeBaseModule {
  import opened Wrappers
  import opened Numbers
  import opened MerkleSpec
  import opened TreeState
  import opened TreeMeta
  import opened HashCount

  /** The part of the key-value store one tree name owns. */
  class Store {
    var nodes: map<string, Buffer>
    var meta: Option<Buffer>

    constructor ()
      ensures nodes == map[] && meta == None
    {
      nodes, meta := map[], None;
    }
  }

  class HasherWithStats {
    const f: Hash
    var hashCount: nat

    constructor (f: Hash)
      ensures this.f == f && hashCount == 0
    {
      this.f, hashCount := f, 0;
    }

    method Hash(lhs: Buffer, rhs: Buffer) returns (r: Buffer)
      modifies this
      ensures r == f(lhs, rhs) && hashCount == old(hashCount) + 1
    {
      hashCount := hashCount + 1;
      r := f(lhs, rhs);
    }
  }

  class TreeBase {
    const store: Store
    const hasher: HasherWithStats
    const name: string
    const depth: nat
    const maxIndex: int
    const zeroHashes: seq<Buffer>
    var size: int
    var cachedSize: Option<int>
    var root: Buffer
    var cache: map<string, Buffer>

    ghost function State(): (t: Tree)
      reads this, store
    {
      Tree(name, depth, zeroHashes, store.nodes, cache, root, size, cachedSize)
    }

    ghost predicate Valid()
      reads this, store
    {
      TreeState.Valid(hasher.f, State()) && maxIndex == Pow2(depth) - 1
    }

    /** The leaves of the committed or the uncommitted view. */
    ghost function LeavesOf(uncommitted: bool): (r: seq<Buffer>)
      reads this, store
      requires Valid()
      ensures |r| == Pow2(depth)
    {
      Leaves(State(), uncommitted)
    }

    /** Zero hashes bottom up; then the given root, or that of the empty tree. */
    constructor (store: Store, f: Hash, name: string, depth: nat, size: int, root: Option<Buffer>)
      requires 1 <= depth <= MAX_DEPTH
      ensures this.store == store && hasher.f == f && fresh(hasher)
      ensures maxIndex == Pow2(depth) - 1
      ensures Shape(State()) && this.depth == depth && |zeroHashes| == depth
      ensures forall k :: 0 <= k < depth ==> zeroHashes[k] == ZeroRoot(f, INITIAL_LEAF, depth - 1 - k)
      ensures State() == Tree(name, depth, zeroHashes, store.nodes, map[],
        if root.Some? then root.value else ZeroRoot(f, INITIAL_LEAF, depth), size, None)
    {
      var current, zs, i := INITIAL_LEAF, [], depth;
      while i > 0
        invariant 0 <= i <= depth && |zs| == depth - i
        invariant current == ZeroRoot(f, INITIAL_LEAF, depth - i)
        invariant forall k :: 0 <= k < |zs| ==> zs[k] == ZeroRoot(f, INITIAL_LEAF, depth - 1 - (i + k))
      {
        i := i - 1;
        zs := [current] + zs;
        current := f(current, current);
      }
      this.store, this.name, this.depth, this.size := store, name, depth, size;
      this.hasher := new HasherWithStats(f);
      this.zeroHashes := zs;
      this.root := if root.Some? then root.value else current;
      this.maxIndex := Pow2(depth) - 1;
      this.cache, this.cachedSize := map[], None;
    }

    method GetRoot(uncommitted: bool) returns (r: Buffer)
      requires Valid()
      ensures r == Root(hasher.f, depth, LeavesOf(uncommitted))
    {
      var key := Key(name, 0, 0);
      r := if uncommitted && key in cache then cache[key] else root;
      assert r == Value(State(), 0, 0, uncommitted);
      TopNodeIsRoot(hasher.f, depth, LeavesOf(uncommitted));
    }

    method GetNumLeaves(uncommitted: bool) returns (n: int)
      ensures n == NumLeaves(State(), uncommitted)
    {
      n := if uncommitted && cachedSize.Some? then cachedSize.value else size;
    }

    method GetLatestValueAtIndex(level: nat, index: nat, uncommitted: bool) returns (r: Buffer)
      requires Shape(State()) && 1 <= level <= depth
      ensures r == Value(State(), level, index, uncommitted)
    {
      var key := Key(name, level, index);
      if uncommitted && key in cache {
        return cache[key];
      }
      if key in store.nodes {
        return store.nodes[key];
      }
      r := zeroHashes[level - 1];
    }

    method GetLeafValue(index: nat, uncommitted: bool) returns (r: Buffer)
      requires Valid() && index < Pow2(depth)
      ensures r == LeavesOf(uncommitted)[index]
    {
      r := GetLatestValueAtIndex(depth, index, uncommitted);
    }

    method GetSibling(level: nat, index: nat, uncommitted: bool) returns (r: Buffer)
      requires Shape(State()) && 1 <= level <= depth
      ensures r == Value(State(), level, Sibling(index), uncommitted)
    {
      var isRight := index % 2 == 1;
      r := GetLatestValueAtIndex(level, if isRight then index - 1 else index + 1, uncommitted);
    }

    /** The siblings from leaf to root, lowest first; folding the leaf with them gives the root of the view. */
    method GetSiblingPath(index: nat, uncommitted: bool) returns (path: seq<Buffer>)
      requires Valid() && index < Pow2(depth)
      ensures path == PathOf(hasher.f, depth, LeavesOf(uncommitted), depth, index)
      ensures FoldPath(hasher.f, LeavesOf(uncommitted)[index], index, path)
           == Root(hasher.f, depth, LeavesOf(uncommitted))
    {
      hide PathOf, NodeAt, FoldPath, Root, Pow2;
      ghost var leaves := LeavesOf(uncommitted);
      ghost var whole := PathOf(hasher.f, depth, leaves, depth, index);
      path := [];
      var level: nat, cur: nat := depth, index;
      while level > 0
        invariant level <= depth && |path| == depth - level
        invariant cur == Up(index, depth - level)
        invariant forall k :: 0 <= k < |path| ==> path[k] == whole[k]
      {
        ghost var k := depth - level;
        assert cur / 2 == Up(index, k + 1) by { UpStep(index, k); }
        var sibling := GetSibling(level, cur, uncommitted);
        assert sibling == whole[k] by { SiblingRead(hasher.f, State(), uncommitted, index, k); }
        path := path + [sibling];
        level := level - 1;
        cur := cur / 2;
      }
      assert path == whole;
      PathGivesRoot(hasher.f, depth, leaves, index);
    }

    method ClearCache()
      modifies this`cache, this`cachedSize
      ensures cache == map[] && cachedSize == None
    {
      cache, cachedSize := map[], None;
    }

    /** Sets one leaf and rehashes its path to the root: exactly `depth` hashes. */
    method AddLeafToCacheAndHashToRoot(leaf: Buffer, index: nat)
      requires Valid() && index < Pow2(depth)
      modifies this`cache, hasher
      ensures Valid()
      ensures State() == old(State()).(cache := cache)
      ensures LeavesOf(true) == old(LeavesOf(true))[index := leaf]
      ensures LeavesOf(false) == old(LeavesOf(false))
      ensures hasher.hashCount == old(hasher.hashCount) + depth
    {
      ghost var t0, leaves := State(), LeavesOf(true)[index := leaf];
      WalkStart(hasher.f, t0, LeavesOf(true), index, leaf);
      cache := cache[Key(name, depth, index) := leaf];
      var current, level: nat, cur: nat := leaf, depth, index;
      while level > 0
        invariant level <= depth
        invariant State() == t0.(cache := cache)
        invariant WalkInv(hasher.f, State(), leaves, level, cur)
        invariant current == Value(State(), level, cur, true)
        invariant hasher.hashCount == old(hasher.hashCount) + (depth - level)
      {
        ghost var t := State();
        var isRight := cur % 2 == 1;
        var sibling := GetSibling(level, cur, true);
        var lhs := if isRight then sibling else current;
        var rhs := if isRight then current else sibling;
        current := hasher.Hash(lhs, rhs);
        WalkStep(hasher.f, t, leaves, level, cur, current);
        level := level - 1;
        cur := cur / 2;
        cache := cache[Key(name, level, cur) := current];
      }
      UncommittedChanged(t0, leaves);
    }

    /** Reassembles validity after a change of the cache alone. */
    lemma UncommittedChanged(t0: Tree, leaves: seq<Buffer>)
      requires TreeState.Valid(hasher.f, t0) && maxIndex == Pow2(depth) - 1
      requires State() == t0.(cache := cache)
      requires Correct(hasher.f, State(), leaves, true)
      ensures Valid() && LeavesOf(true) == leaves && LeavesOf(false) == Leaves(t0, false)
    {
      CorrectFixesLeaves(hasher.f, State(), leaves, true);
      assert forall l: nat, i: nat :: l <= depth && i < Pow2(l) ==> Value(State(), l, i, false) == Value(t0, l, i, false);
      assert Leaves(State(), false) == Leaves(t0, false);
    }

    /** Step 1 of the batch append: every new leaf goes to the cache. */
    method InsertLeaves(n: nat, leaves: seq<Buffer>)
      requires Shape(State())
      modifies this`cache
      ensures State() == old(State()).(cache := cache)
      ensures LeavesWritten(old(State()), State(), n, leaves, |leaves|)
    {
      ghost var t0 := State();
      var i := 0;
      while i < |leaves|
        invariant 0 <= i <= |leaves| && State() == t0.(cache := cache)
        invariant LeavesWritten(t0, State(), n, leaves, i)
      {
        LeafWritten(t0, State(), n, leaves, i);
        cache := cache[Key(name, depth, n + i) := leaves[i]];
        i := i + 1;
      }
    }

    /** Step 3 of the batch append: recomputes the nodes first .. last (inclusive) of the level above. */
    method RehashLevel(level: nat, first: nat, last: nat, ghost after: seq<Buffer>)
      requires Shape(State()) && 0 < level <= depth && first <= last
      requires RowInv(hasher.f, State(), after, level - 1, first, last, first)
      modifies this`cache, hasher
      ensures State() == old(State()).(cache := cache)
      ensures BatchInv(hasher.f, State(), after, level - 1, first, last)
      ensures hasher.hashCount == old(hasher.hashCount) + (last - first + 1)
    {
      ghost var t0 := State();
      var index: nat := first;
      while index <= last
        invariant first <= index <= last + 1 && State() == t0.(cache := cache)
        invariant RowInv(hasher.f, State(), after, level - 1, first, last, index)
        invariant hasher.hashCount == old(hasher.hashCount) + (index - first)
      {
        ghost var t := State();
        var lhs := GetLatestValueAtIndex(level, index * 2, true);
        var rhs := GetLatestValueAtIndex(level, index * 2 + 1, true);
        var node := hasher.Hash(lhs, rhs);
        RowStep(hasher.f, t, after, level - 1, first, last, index, node);
        cache := cache[Key(name, level - 1, index) := node];
        index := index + 1;
      }
      RowEnd(hasher.f, State(), after, level - 1, first, last);
    }

    /** Step 2 of the batch append: all levels from the bottom up; the end is used as if it were inclusive. */
    method RehashLevels(first: nat, end: nat, ghost after: seq<Buffer>)
      requires Shape(State()) && first <= end && BatchInv(hasher.f, State(), after, depth, first, end)
      modifies this`cache, hasher
      ensures State() == old(State()).(cache := cache)
      ensures Correct(hasher.f, State(), after, true)
      ensures hasher.hashCount == old(hasher.hashCount) + Visits(first, end, depth)
    {
      hide BatchInv, Correct, NodeAt, Value, Pow2;
      ghost var t0 := State();
      var firstIndex: nat, lastIndex: nat, level: nat := first, end, depth;
      while level > 0
        invariant level <= depth && firstIndex <= lastIndex && State() == t0.(cache := cache)
        invariant BatchInv(hasher.f, State(), after, level, firstIndex, lastIndex)
        invariant hasher.hashCount + Visits(firstIndex, lastIndex, level) == old(hasher.hashCount) + Visits(first, end, depth)
      {
        RowStart(hasher.f, State(), after, level, firstIndex, lastIndex);
        firstIndex, lastIndex := firstIndex / 2, lastIndex / 2;
        RehashLevel(level, firstIndex, lastIndex, after);
        level := level - 1;
      }
      BatchEnd(hasher.f, State(), after, firstIndex, lastIndex);
    }

    /** The batch append: writes the leaves, then recomputes each level once from first>>1 to last>>1 inclusive. */
    method AppendLeaves(leaves: seq<Buffer>) returns (r: Result<()>)
      requires Valid()
      modifies this`cache, this`cachedSize, hasher
      ensures Valid()
      ensures r.Ok? <==> old(NumLeaves(State(), true)) + |leaves| <= Pow2(depth)
      ensures r.Err? ==> State() == old(State()) && hasher.hashCount == old(hasher.hashCount)
      ensures r.Ok? ==>
        State() == old(State()).(cache := cache, cachedSize := Some(old(NumLeaves(State(), true)) + |leaves|))
      ensures r.Ok? ==> LeavesOf(true) == Splice(old(LeavesOf(true)), old(NumLeaves(State(), true)), leaves)
      ensures LeavesOf(false) == old(LeavesOf(false))
      ensures r.Ok? ==>
        hasher.hashCount == old(hasher.hashCount)
          + Visits(old(NumLeaves(State(), true)), old(NumLeaves(State(), true)) + |leaves|, depth)
    {
      var numLeaves := GetNumLeaves(true);
      if numLeaves + |leaves| - 1 > maxIndex {
        return Err("Can't append beyond max index");
      }
      ghost var t0, after := State(), Splice(LeavesOf(true), numLeaves, leaves);
      InsertLeaves(numLeaves, leaves);
      BatchStart(hasher.f, t0, State(), Leaves(t0, true), numLeaves, leaves);
      RehashLevels(numLeaves, numLeaves + |leaves|, after);
      UncommittedChanged(t0, after);
      ghost var t1 := State();
      cachedSize := Some(numLeaves + |leaves|);
      SizeChanged(hasher.f, t1, State());
      r := Ok(());
    }

    method WriteMeta()
      requires Shape(State()) && 0 <= NumLeaves(State(), true) <= Pow2(depth)
      modifies store`meta
      ensures store.meta == Some(MetaOf(State()))
    {
      hide Pow2, NodeAt, EncodeMeta;
      SizesFitMeta(depth);
      var key := Key(name, 0, 0);
      var n := GetNumLeaves(true);
      store.meta := Some(EncodeMeta(if key in cache then cache[key] else root, depth, n));
    }

    /** Every cached node goes to the store. */
    method FlushCache()
      modifies store`nodes
      ensures store.nodes == old(store.nodes) + cache
    {
      ghost var nodes0 := store.nodes;
      var keys := cache.Keys;
      while keys != {}
        invariant keys <= cache.Keys
        invariant store.nodes == nodes0 + map k | k in cache && k !in keys :: cache[k]
      {
        var key :| key in keys;
        store.nodes := store.nodes[key := cache[key]];
        keys := keys - {key};
      }
      assert store.nodes == nodes0 + cache;
    }

    /** Moves the uncommitted changes to the store and records root, depth and size. */
    method Commit()
      requires Valid()
      modifies this`size, this`root, this`cache, this`cachedSize, store
      ensures Valid()
      ensures State() == Committed(old(State()))
      ensures LeavesOf(true) == old(LeavesOf(true)) && LeavesOf(false) == old(LeavesOf(true))
      ensures store.meta == Some(MetaOf(State()))
    {
      ghost var t0 := State();
      FlushCache();
      size := GetNumLeaves(true);
      var top := Key(name, 0, 0);
      root := if top in cache then cache[top] else root;
      ClearCache();
      assert State() == Committed(t0);
      CommitKeepsView(hasher.f, t0, true);
      CommitKeepsView(hasher.f, t0, false);
      WriteMeta();
    }

    method Rollback()
      requires Valid()
      modifies this`cache, this`cachedSize
      ensures Valid()
      ensures State() == RolledBack(old(State()))
      ensures LeavesOf(true) == old(LeavesOf(false)) && LeavesOf(false) == old(LeavesOf(false))
    {
      ghost var t0 := State();
      ClearCache();
      RollbackRestores(hasher.f, t0, true);
      RollbackRestores(hasher.f, t0, false);
    }
  }
}
