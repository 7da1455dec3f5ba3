/** The recursive meaning of a binary Merkle tree over 2^d leaves, for an arbitrary hash. */
module MerkleSpec {
  import opened Numbers

  /** Value of node `i` of level `l` (the root is level 0, the leaves are level d). */
  function NodeAt<T>(h: (T, T) -> T, d: nat, leaves: seq<T>, l: nat, i: nat): (r: T)
    requires |leaves| == Pow2(d) && l <= d && i < Pow2(l)
    decreases d - l
  {
    if l == d then leaves[i]
    else h(NodeAt(h, d, leaves, l + 1, 2 * i), NodeAt(h, d, leaves, l + 1, 2 * i + 1))
  }

  /** The same root by halving the leaf list, with no node numbering. */
  function Root<T>(h: (T, T) -> T, d: nat, leaves: seq<T>): (r: T)
    requires |leaves| == Pow2(d)
  {
    if d == 0 then leaves[0]
    else h(Root(h, d - 1, leaves[..Pow2(d - 1)]), Root(h, d - 1, leaves[Pow2(d - 1)..]))
  }

  /** The leaves below node (l, i). */
  function Block<T>(d: nat, leaves: seq<T>, l: nat, i: nat): (b: seq<T>)
    requires |leaves| == Pow2(d) && l <= d && i < Pow2(l)
    ensures |b| == Pow2(d - l)
  {
    DownInRange(i, d - l, l);
    leaves[Down(i, d - l)..Down(i, d - l) + Pow2(d - l)]
  }

  lemma SliceHalves<T>(s: seq<T>, at: nat, p: nat)
    requires at + 2 * p <= |s|
    ensures s[at..at + 2 * p][..p] == s[at..at + p]
    ensures s[at..at + 2 * p][p..] == s[at + p..at + 2 * p]
  {
  }

  lemma BlockHalves<T>(d: nat, leaves: seq<T>, l: nat, i: nat)
    requires |leaves| == Pow2(d) && l < d && i < Pow2(l)
    ensures Block(d, leaves, l, i)[..Pow2(d - l - 1)] == Block(d, leaves, l + 1, 2 * i)
    ensures Block(d, leaves, l, i)[Pow2(d - l - 1)..] == Block(d, leaves, l + 1, 2 * i + 1)
  {
    var k, at := d - l - 1, Down(i, d - l);
    var p := Pow2(k);
    assert Pow2(d - l) == 2 * p && d - (l + 1) == k;
    assert Down(2 * i, k) == at;
    assert Down(2 * i + 1, k) == at + p by { DownNext(2 * i, k); }
    assert at + 2 * p <= |leaves| by { DownInRange(i, k + 1, l); }
    SliceHalves(leaves, at, p);
  }

  /** Node (l, i) is the halving root of the block of leaves below it. */
  lemma {:induction false} NodeIsBlockRoot<T>(h: (T, T) -> T, d: nat, leaves: seq<T>, l: nat, i: nat)
    requires |leaves| == Pow2(d) && l <= d && i < Pow2(l)
    ensures NodeAt(h, d, leaves, l, i) == Root(h, d - l, Block(d, leaves, l, i))
    decreases d - l
  {
    if l < d {
      NodeIsBlockRoot(h, d, leaves, l + 1, 2 * i);
      NodeIsBlockRoot(h, d, leaves, l + 1, 2 * i + 1);
      BlockHalves(d, leaves, l, i);
    }
  }

  lemma TopNodeIsRoot<T>(h: (T, T) -> T, d: nat, leaves: seq<T>)
    requires |leaves| == Pow2(d)
    ensures NodeAt(h, d, leaves, 0, 0) == Root(h, d, leaves)
  {
    NodeIsBlockRoot(h, d, leaves, 0, 0);
    UpBlock(0, 0, d);
    UpInRange(0, d, d);
    assert Block(d, leaves, 0, 0) == leaves;
  }

  /** A node depends only on the leaves below it. */
  lemma {:induction false} NodeFrame<T>(h: (T, T) -> T, d: nat, a: seq<T>, b: seq<T>, l: nat, i: nat)
    requires |a| == Pow2(d) && |b| == Pow2(d) && l <= d && i < Pow2(l)
    requires forall j: nat :: j < |a| && Up(j, d - l) == i ==> a[j] == b[j]
    ensures NodeAt(h, d, a, l, i) == NodeAt(h, d, b, l, i)
    decreases d - l
  {
    if l == d {
      assert Up(i, 0) == i;
    } else {
      forall j: nat | j < |a| && Up(j, d - l - 1) / 2 == i
        ensures a[j] == b[j]
      {
        UpStep(j, d - l - 1);
      }
      NodeFrame(h, d, a, b, l + 1, 2 * i);
      NodeFrame(h, d, a, b, l + 1, 2 * i + 1);
    }
  }

  /** Changing one leaf changes nothing outside its path to the root. */
  lemma LeafFrame<T>(h: (T, T) -> T, d: nat, leaves: seq<T>, x: nat, v: T, l: nat, i: nat)
    requires |leaves| == Pow2(d) && x < |leaves| && l <= d && i < Pow2(l)
    requires i != Up(x, d - l)
    ensures NodeAt(h, d, leaves[x := v], l, i) == NodeAt(h, d, leaves, l, i)
  {
    NodeFrame(h, d, leaves[x := v], leaves, l, i);
  }

  // ---------------------------------------------------------------- batches of leaves

  /** The leaves after `added` is written at position n. */
  function Splice<T>(leaves: seq<T>, n: nat, added: seq<T>): (r: seq<T>)
    requires n + |added| <= |leaves|
    ensures |r| == |leaves|
    ensures forall j :: 0 <= j < |r| ==>
      r[j] == if n <= j < n + |added| then added[j - n] else leaves[j]
  {
    leaves[..n] + added + leaves[n + |added|..]
  }

  lemma SpliceExtend<T>(leaves: seq<T>, n: nat, added: seq<T>, k: nat)
    requires n + |added| <= |leaves| && k < |added|
    ensures Splice(leaves, n, added[..k + 1]) == Splice(leaves, n, added[..k])[n + k := added[k]]
  {
  }

  /** A batch changes nothing outside the ancestors of its (inclusive) index range. */
  lemma BatchFrame<T>(h: (T, T) -> T, d: nat, leaves: seq<T>, n: nat, added: seq<T>, l: nat, i: nat)
    requires |leaves| == Pow2(d) && n + |added| <= |leaves| && l <= d && i < Pow2(l)
    requires i < Up(n, d - l) || i > Up(n + |added|, d - l)
    ensures NodeAt(h, d, Splice(leaves, n, added), l, i) == NodeAt(h, d, leaves, l, i)
  {
    var s := Splice(leaves, n, added);
    forall j: nat | j < |s| && Up(j, d - l) == i
      ensures s[j] == leaves[j]
    {
      if n <= j < n + |added| {
        UpMonotone(n, j, d - l);
        UpMonotone(j, n + |added|, d - l);
      }
    }
    NodeFrame(h, d, s, leaves, l, i);
  }

  /** The node whose first leaf is the exclusive end of a batch is visited but not affected. */
  lemma EndNodeUnaffected<T>(h: (T, T) -> T, d: nat, leaves: seq<T>, n: nat, added: seq<T>, l: nat, i: nat)
    requires |leaves| == Pow2(d) && n + |added| <= |leaves| && l <= d && i < Pow2(l)
    requires Down(i, d - l) == n + |added|
    ensures i == Up(n + |added|, d - l)
    ensures NodeAt(h, d, Splice(leaves, n, added), l, i) == NodeAt(h, d, leaves, l, i)
  {
    var s := Splice(leaves, n, added);
    UpBlock(n + |added|, i, d - l);
    forall j: nat | j < |s| && Up(j, d - l) == i
      ensures s[j] == leaves[j]
    {
      UpBlock(j, i, d - l);
    }
    NodeFrame(h, d, s, leaves, l, i);
  }

  // ---------------------------------------------------------------- all-zero subtrees

  /** Root of a subtree of height k whose leaves are all `zero`. */
  function ZeroRoot<T>(h: (T, T) -> T, zero: T, k: nat): (r: T)
  {
    if k == 0 then zero else h(ZeroRoot(h, zero, k - 1), ZeroRoot(h, zero, k - 1))
  }

  function Zeros<T>(d: nat, zero: T): (r: seq<T>)
    ensures |r| == Pow2(d) && forall j :: 0 <= j < |r| ==> r[j] == zero
  {
    seq(Pow2(d), j => zero)
  }

  lemma {:induction false} ZeroNode<T>(h: (T, T) -> T, d: nat, zero: T, l: nat, i: nat)
    requires l <= d && i < Pow2(l)
    ensures NodeAt(h, d, Zeros(d, zero), l, i) == ZeroRoot(h, zero, d - l)
    decreases d - l
  {
    if l < d {
      ZeroNode(h, d, zero, l + 1, 2 * i);
      ZeroNode(h, d, zero, l + 1, 2 * i + 1);
    }
  }

  // ---------------------------------------------------------------- sibling paths

  function Sibling(i: nat): (s: nat)
    ensures s / 2 == i / 2 && s != i
  {
    if i % 2 == 1 then i - 1 else i + 1
  }

  /** The siblings met on the way from node (l, i) to the root, lowest first. */
  function PathOf<T>(h: (T, T) -> T, d: nat, leaves: seq<T>, l: nat, i: nat): (p: seq<T>)
    requires |leaves| == Pow2(d) && l <= d && i < Pow2(l)
    ensures |p| == l
    decreases l
  {
    if l == 0 then []
    else
      assert Pow2(l) == 2 * Pow2(l - 1) && i / 2 < Pow2(l - 1);
      [NodeAt(h, d, leaves, l, Sibling(i))] + PathOf(h, d, leaves, l - 1, i / 2)
  }

  /** Entry k of a path is the sibling of the k-th ancestor. */
  lemma {:induction false} PathEntry<T>(h: (T, T) -> T, d: nat, leaves: seq<T>, l: nat, i: nat, k: nat)
    requires |leaves| == Pow2(d) && k < l <= d && i < Pow2(l)
    ensures Up(i, k) < Pow2(l - k) && Sibling(Up(i, k)) < Pow2(l - k)
    ensures PathOf(h, d, leaves, l, i)[k] == NodeAt(h, d, leaves, l - k, Sibling(Up(i, k)))
    decreases k
  {
    UpInRange(i, k, l);
    if k > 0 {
      PathEntry(h, d, leaves, l - 1, i / 2, k - 1);
    }
  }

  /** What a verifier computes from a leaf, its index and a sibling path. */
  function FoldPath<T>(h: (T, T) -> T, node: T, i: nat, path: seq<T>): (r: T)
    decreases |path|
  {
    if path == [] then node
    else FoldPath(h, if i % 2 == 1 then h(path[0], node) else h(node, path[0]), i / 2, path[1..])
  }

  /** Folding a node with its own path gives the root. */
  lemma {:induction false} PathSound<T>(h: (T, T) -> T, d: nat, leaves: seq<T>, l: nat, i: nat)
    requires |leaves| == Pow2(d) && l <= d && i < Pow2(l)
    ensures FoldPath(h, NodeAt(h, d, leaves, l, i), i, PathOf(h, d, leaves, l, i))
         == NodeAt(h, d, leaves, 0, 0)
    decreases l
  {
    if l > 0 {
      var p := PathOf(h, d, leaves, l, i);
      assert p[1..] == PathOf(h, d, leaves, l - 1, i / 2);
      assert i == 2 * (i / 2) + i % 2;
      PathSound(h, d, leaves, l - 1, i / 2);
    }
  }

  lemma PathGivesRoot<T>(h: (T, T) -> T, d: nat, leaves: seq<T>, x: nat)
    requires |leaves| == Pow2(d) && x < |leaves|
    ensures FoldPath(h, leaves[x], x, PathOf(h, d, leaves, d, x)) == Root(h, d, leaves)
  {
    PathSound(h, d, leaves, d, x);
    TopNodeIsRoot(h, d, leaves);
  }

  /** The path of a leaf does not depend on that leaf. */
  lemma {:induction false} PathIgnoresLeaf<T>(h: (T, T) -> T, d: nat, leaves: seq<T>, x: nat, v: T, l: nat)
    requires |leaves| == Pow2(d) && x < |leaves| && l <= d
    ensures Up(x, d - l) < Pow2(l)
    ensures PathOf(h, d, leaves[x := v], l, Up(x, d - l)) == PathOf(h, d, leaves, l, Up(x, d - l))
    decreases l
  {
    UpInRange(x, d - l, d);
    if l > 0 {
      var i := Up(x, d - l);
      UpStep(x, d - l);
      PathIgnoresLeaf(h, d, leaves, x, v, l - 1);
      LeafFrame(h, d, leaves, x, v, l, Sibling(i));
    }
  }

  /** A path read before an update, folded with the new leaf, gives the root after it. */
  lemma PathSurvivesUpdate<T>(h: (T, T) -> T, d: nat, leaves: seq<T>, x: nat, v: T)
    requires |leaves| == Pow2(d) && x < |leaves|
    ensures FoldPath(h, v, x, PathOf(h, d, leaves, d, x)) == Root(h, d, leaves[x := v])
  {
    PathIgnoresLeaf(h, d, leaves, x, v, d);
    PathGivesRoot(h, d, leaves[x := v], x);
  }

  /** With a collision-free hash only the stored leaf and its own path fold to the root. */
  lemma {:induction false} PathBinding<T(!new)>(h: (T, T) -> T, d: nat, leaves: seq<T>, l: nat, i: nat, node: T, path: seq<T>)
    requires forall a, b, a', b' :: h(a, b) == h(a', b') ==> a == a' && b == b'
    requires |leaves| == Pow2(d) && l <= d && i < Pow2(l) && |path| == l
    requires FoldPath(h, node, i, path) == NodeAt(h, d, leaves, 0, 0)
    ensures node == NodeAt(h, d, leaves, l, i)
    ensures path == PathOf(h, d, leaves, l, i)
    decreases l
  {
    if l > 0 {
      var up := if i % 2 == 1 then h(path[0], node) else h(node, path[0]);
      PathBinding(h, d, leaves, l - 1, i / 2, up, path[1..]);
      assert i == 2 * (i / 2) + i % 2;
      assert path == [path[0]] + path[1..];
    }
  }
}
