/** The persisted metadata record of a tree: 32-byte root, depth and size. */
module TreeMeta {
  import opened Wrappers
  import opened Numbers
  import opened TreeState

  datatype Meta = Meta(root: Buffer, depth: nat, size: nat)

  /** `root.copy(data)` into a zeroed record whose bytes from 32 on are then overwritten. */
  function CopyRoot(root: Buffer): (r: Buffer)
    ensures |r| == 32
  {
    if |root| >= 32 then root[..32] else root + seq(32 - |root|, i => 0)
  }

  function EncodeMeta(root: Buffer, depth: nat, size: nat): (r: Buffer)
    requires depth < Pow2(32) && size < Pow2(256)
    ensures |r| == 68
  {
    CopyRoot(root) + ToLE(depth, 4) + ToLE(size, 32)
  }

  function DecodeMeta(meta: Buffer): (r: Result<Meta>)
  {
    if |meta| < 36 then Err("ERR_OUT_OF_RANGE")
    else Ok(Meta(meta[..32], FromLE(meta[32..36]), FromLE(meta[36..])))
  }

  lemma DecodeEncodedMeta(root: Buffer, depth: nat, size: nat)
    requires depth < Pow2(32) && size < Pow2(256)
    ensures DecodeMeta(EncodeMeta(root, depth, size)) == Ok(Meta(CopyRoot(root), depth, size))
  {
    var m := EncodeMeta(root, depth, size);
    ThreeParts(CopyRoot(root), ToLE(depth, 4), ToLE(size, 32));
    LittleEndianRoundTrip(depth, 4);
    LittleEndianRoundTrip(size, 32);
  }

  /** The record gives back what was written exactly for 32-byte roots. */
  lemma MetaRoundTrip(root: Buffer, depth: nat, size: nat)
    requires depth < Pow2(32) && size < Pow2(256)
    ensures DecodeMeta(EncodeMeta(root, depth, size)) == Ok(Meta(root, depth, size)) <==> |root| == 32
  {
    DecodeEncodedMeta(root, depth, size);
    assert |root| == 32 ==> root[..32] == root;
    assert CopyRoot(root) == root <==> |root| == 32;
  }

  lemma SizesFitMeta(depth: nat)
    requires depth <= MAX_DEPTH
    ensures depth < Pow2(32) && Pow2(depth) < Pow2(256)
  {
    Pow2Monotone(depth, 256);
    Pow2Monotone(8, 32);
    Pow2Of8();
  }

  /** The record `writeMeta` stores for a tree. */
  function MetaOf(t: Tree): (r: Buffer)
    requires Shape(t) && 0 <= NumLeaves(t, true) <= Pow2(t.depth)
  {
    SizesFitMeta(t.depth);
    EncodeMeta(Value(t, 0, 0, true), t.depth, NumLeaves(t, true))
  }

  /** With nothing pending and a 32-byte root the record is exactly the tree's root, depth and size. */
  lemma SettledMeta(t: Tree)
    requires Shape(t) && t.cache == map[] && t.cachedSize == None && 0 <= t.size <= Pow2(t.depth) && |t.root| == 32
    ensures DecodeMeta(MetaOf(t)) == Ok(Meta(t.root, t.depth, t.size))
  {
    hide Pow2, EncodeMeta, DecodeMeta;
    SizesFitMeta(t.depth);
    MetaRoundTrip(t.root, t.depth, t.size);
  }
}
