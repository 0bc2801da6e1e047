/** The nodes and leafs of a Refs tree, as objects linked both ways. */
module RefsNodes {
  import opened Hashing

  /** A leaf of a Refs tree. */
  class RefsElement {
    var hash: Hash
    const upper: RefsNode

    constructor (hash: Hash, upper: RefsNode)
      ensures this.hash == hash && this.upper == upper
    {
      this.hash, this.upper := hash, upper;
    }
  }

  /**
   A node of a Refs tree.  Ghost `height` is its distance from the leafs, which
   the code passes along as `depth`.
   */
  class RefsNode {
    var hash: Hash
    var length: int
    var loaded: bool
    var contentMod: bool
    var leafs: seq<RefsElement>
    var branches: seq<RefsNode>
    const upper: RefsNode?
    ghost const height: nat

    constructor (hash: Hash, upper: RefsNode?, ghost height: nat)
      ensures this.hash == hash && this.upper == upper && length == 0 && !loaded && !contentMod
      ensures leafs == [] && branches == []
      ensures this.height == height
    {
      this.hash, this.upper, this.length, this.loaded, this.contentMod := hash, upper, 0, false, false;
      this.leafs, this.branches := [], [];
      this.height := height;
    }

    ghost function Listed(depth: nat): seq<Hash>
      reads this, leafs, branches
    {
      if depth == 0 then LeafHashes(leafs) else BranchHashes(branches)
    }

    /** The hashes the encoding of the node lists. */
    method ListElements(depth: nat) returns (elements: seq<Hash>)
      ensures elements == Listed(depth)
    {
      elements := [];
      if depth == 0 {
        for i := 0 to |leafs|
          invariant elements == LeafHashes(leafs)[..i]
        {
          elements := elements + [leafs[i].hash];
        }
      } else {
        for i := 0 to |branches|
          invariant elements == BranchHashes(branches)[..i]
        {
          elements := elements + [branches[i].hash];
        }
      }
    }

    method Encode(depth: nat) returns (val: Blob)
      ensures val == NodeBlob(length, Listed(depth))
    {
      var elements := ListElements(depth);
      val := NodeBlob(length, elements);
    }

    /**
     Make the hash actual and save the node; the hash field of the root node
     is never set.
     */
    method UpdateHash(pack: Pack, depth: nat)
      requires pack.Valid()
      modifies this`hash, this`contentMod, pack`objects
      ensures pack.Valid() && old(pack.objects).Keys <= pack.objects.Keys
      ensures upper == null ==> hash == old(hash) && pack.objects == old(pack.objects)
      ensures upper != null ==> hash == Sum(NodeBlob(length, old(Listed(depth))))
      ensures hash == old(hash) || hash in pack.objects
      ensures contentMod ==> old(contentMod) && Sum(NodeBlob(length, old(Listed(depth)))) == hash
    {
      var val := Encode(depth);
      var h := Sum(val);
      if h == hash {
        return;
      }
      if upper != null {
        pack.Set(h, val);
        hash := h;
      }
      contentMod := false;
    }

    method UpdateHashIfNeed(pack: Pack, depth: nat, need: bool)
      requires pack.Valid()
      modifies this`hash, this`contentMod, pack`objects
      ensures pack.Valid() && old(pack.objects).Keys <= pack.objects.Keys
      ensures !need ==> contentMod && hash == old(hash) && pack.objects == old(pack.objects)
      ensures need ==>
                && (upper == null ==> hash == old(hash) && pack.objects == old(pack.objects))
                && (upper != null ==> hash == Sum(NodeBlob(length, old(Listed(depth)))))
                && (hash == old(hash) || hash in pack.objects)
                && (contentMod ==> old(contentMod) && Sum(NodeBlob(length, old(Listed(depth)))) == hash)
    {
      if !need {
        contentMod := true;
        return;
      }
      UpdateHash(pack, depth);
    }
  }

  ghost function LeafHashes(ls: seq<RefsElement>): (hs: seq<Hash>)
    reads ls
    ensures |hs| == |ls|
    ensures forall i | 0 <= i < |ls| :: hs[i] == ls[i].hash
  {
    if ls == [] then [] else [ls[0].hash] + LeafHashes(ls[1..])
  }

  ghost function BranchHashes(bs: seq<RefsNode>): (hs: seq<Hash>)
    reads bs
    ensures |hs| == |bs|
    ensures forall i | 0 <= i < |bs| :: hs[i] == bs[i].hash
  {
    if bs == [] then [] else [bs[0].hash] + BranchHashes(bs[1..])
  }
}
