/** The calldata root of a block body: layer-by-layer hashing of the transaction effect hashes. */
module CalldataRoot {
  import opened Wrappers
  import opened Numbers
  import opened MerkleSpec

  predicate PowerOfTwo(n: nat)
  {
    n == 1 || (n > 1 && n % 2 == 0 && PowerOfTwo(n / 2))
  }

  function Log2(n: nat): (d: nat)
    requires PowerOfTwo(n)
    ensures Pow2(d) == n
  {
    if n == 1 then 0 else 1 + Log2(n / 2)
  }

  lemma {:induction false} Pow2IsPowerOfTwo(d: nat)
    ensures PowerOfTwo(Pow2(d)) && Log2(Pow2(d)) == d
  {
    if d > 0 {
      Pow2IsPowerOfTwo(d - 1);
      assert Pow2(d) / 2 == Pow2(d - 1);
    }
  }

  /** The next layer: neighbours hashed in pairs. */
  function Pairs<T>(h: (T, T) -> T, layer: seq<T>, n: nat): (r: seq<T>)
    requires |layer| == 2 * n
    ensures |r| == n
  {
    seq(n, i requires 0 <= i < n => h(layer[2 * i], layer[2 * i + 1]))
  }

  lemma PairsSplit<T>(h: (T, T) -> T, layer: seq<T>, half: nat, k: nat)
    requires |layer| == 2 * half && half == 2 * k
    ensures Pairs(h, layer, half)[..k] == Pairs(h, layer[..half], k)
    ensures Pairs(h, layer, half)[k..] == Pairs(h, layer[half..], k)
  {
    var p, q := Pairs(h, layer, half), Pairs(h, layer[half..], k);
    forall i | 0 <= i < k
      ensures p[k..][i] == q[i]
    {
      assert layer[half..][2 * i] == layer[2 * (k + i)] && layer[half..][2 * i + 1] == layer[2 * (k + i) + 1];
    }
    assert p[k..] == q;
  }

  lemma RootOfHalves<T>(h: (T, T) -> T, d: nat, leaves: seq<T>)
    requires |leaves| == Pow2(d) && d > 0
    ensures |leaves| == 2 * Pow2(d - 1)
    ensures Root(h, d, leaves) == h(Root(h, d - 1, leaves[..Pow2(d - 1)]), Root(h, d - 1, leaves[Pow2(d - 1)..]))
  {
  }

  lemma RootOfPair<T>(h: (T, T) -> T, leaves: seq<T>)
    requires |leaves| == 2 && Pow2(0) == 1 && Pow2(1) == 2
    ensures Root(h, 0, Pairs(h, leaves, 1)) == Root(h, 1, leaves)
  {
    assert leaves[..1][0] == leaves[0] && leaves[1..][0] == leaves[1];
  }

  lemma Halves(d: nat)
    requires d > 0
    ensures Pow2(d) == 2 * Pow2(d - 1)
    ensures d == 1 ==> Pow2(d - 1) == 1
  {
  }

  /** Hashing one layer keeps the balanced root. */
  lemma {:induction false} PairsKeepRoot<T>(h: (T, T) -> T, d: nat, leaves: seq<T>)
    requires |leaves| == Pow2(d) && d > 0
    ensures |leaves| == 2 * Pow2(d - 1)
    ensures Root(h, d - 1, Pairs(h, leaves, Pow2(d - 1))) == Root(h, d, leaves)
  {
    hide *;
    var half := Pow2(d - 1);
    Halves(d);
    if d == 1 {
      RootOfPair(h, leaves);
    } else {
      Halves(d - 1);
      RootOfHalves(h, d, leaves);
      RootOfHalves(h, d - 1, Pairs(h, leaves, half));
      PairsSplit(h, leaves, half, Pow2(d - 2));
      PairsKeepRoot(h, d - 1, leaves[..half]);
      PairsKeepRoot(h, d - 1, leaves[half..]);
    }
  }

  /** The layer the inner loop has built. */
  lemma LayerKeepsRoot<T>(h: (T, T) -> T, layer: seq<T>, next: seq<T>)
    requires |layer| == 2 * |next| && |next| > 0
    requires forall k :: 0 <= k < |next| ==> next[k] == h(layer[2 * k], layer[2 * k + 1])
    ensures PowerOfTwo(|next|) <==> PowerOfTwo(|layer|)
    ensures PowerOfTwo(|layer|) ==> Root(h, Log2(|next|), next) == Root(h, Log2(|layer|), layer)
  {
    assert next == Pairs(h, layer, |next|);
    DoubledPower(|next|);
    if PowerOfTwo(|layer|) {
      RootKept(h, layer, |next|);
    }
  }

  lemma {:induction false} DoubledPower(n: nat)
    requires n > 0
    ensures PowerOfTwo(2 * n) <==> PowerOfTwo(n)
    ensures PowerOfTwo(n) ==> Log2(2 * n) == Log2(n) + 1
  {
    hide Pow2;
    assert 2 * n > 1 && 2 * n % 2 == 0 && 2 * n / 2 == n;
  }

  lemma RootKept<T>(h: (T, T) -> T, layer: seq<T>, n: nat)
    requires |layer| == 2 * n && n > 0 && PowerOfTwo(n) && PowerOfTwo(2 * n) && Log2(2 * n) == Log2(n) + 1
    ensures Root(h, Log2(n), Pairs(h, layer, n)) == Root(h, Log2(2 * n), layer)
  {
    hide *;
    PairsKeepRoot(h, Log2(2 * n), layer);
  }

  /** `computeRoot`: the root of the balanced tree over the leaves in order exactly when their number is a power of two;
      no leaves give no root, any other number makes a layer of odd length and throws. */
  method ComputeRoot<T>(h: (T, T) -> T, leafs: seq<T>) returns (r: Result<Option<T>>)
    ensures r.Ok? <==> |leafs| == 0 || PowerOfTwo(|leafs|)
    ensures |leafs| == 0 ==> r == Ok(None)
    ensures PowerOfTwo(|leafs|) ==> r == Ok(Some(Root(h, Log2(|leafs|), leafs)))
  {
    var layers: seq<seq<T>> := [leafs];
    var activeLayer := 0;
    while |layers[activeLayer]| > 1
      invariant activeLayer == |layers| - 1
      invariant |layers[activeLayer]| == 0 <==> |leafs| == 0
      invariant PowerOfTwo(|layers[activeLayer]|) <==> PowerOfTwo(|leafs|)
      invariant PowerOfTwo(|leafs|) ==>
        Root(h, Log2(|layers[activeLayer]|), layers[activeLayer]) == Root(h, Log2(|leafs|), leafs)
      decreases |layers[activeLayer]|
    {
      var layer, i, layerLength := [], 0, |layers[activeLayer]|;
      while i < layerLength
        invariant i == 2 * |layer| && i <= layerLength
        invariant forall k :: 0 <= k < |layer| ==>
          layer[k] == h(layers[activeLayer][2 * k], layers[activeLayer][2 * k + 1])
      {
        if i + 1 >= layerLength {
          // the right neighbour is undefined and cannot be concatenated
          return Err("TypeError");
        }
        layer := layer + [h(layers[activeLayer][i], layers[activeLayer][i + 1])];
        i := i + 2;
      }
      LayerKeepsRoot(h, layers[activeLayer], layer);
      layers := layers + [layer];
      activeLayer := activeLayer + 1;
    }
    var last := layers[|layers| - 1];
    r := Ok(if |last| == 0 then None else Some(last[0]));
  }
}
