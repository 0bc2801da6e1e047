/** The Refs: a sequence of hashes kept as a Merkle tree of linked nodes. */
module RefsHeap {
  import opened Hashing
  import opened Powers
  import opened Trees
  import opened Growth
  import opened Merkle
  import opened RefsNodes
  import opened RefsGraph
  import opened RefsLinks
  import opened RefsIndex
  import opened RefsState
  import opened RefsTail
  import opened RefsWalk
  import opened Deletions
  import opened Visits

  class Refs {
    var hash: Hash
    var depth: nat
    var degree: nat
    var root: RefsNode?
    var flags: Flags
    var refsIndex: Index
    var iterators: seq<bool>

    ghost var G: Graph
    ghost var E: Items
    ghost var limbo: set<RefsElement>

    /** Everything in memory is linked and indexed; upper nodes need not know the trees of `M`. */
    ghost predicate Wired(M: Nodes)
      reads `root, `depth, `degree, `flags, `refsIndex, `limbo, `G, `E, G.Keys, E.Keys
    {
      Wiring(M, root, depth, degree, flags, refsIndex, limbo, G, E)
    }

    /** The nodes not in `M` have the fields they should have. */
    ghost predicate NodesOk(M: Nodes, objects: Objects)
      reads `G, `flags
    {
      AllOk(M, G, flags, objects)
    }

    /** What has been added since then is new. */
    twostate predicate Fresh()
      reads `G, `E
    {
      (forall n <- G :: n !in old(G) ==> fresh(n)) && (forall e <- E :: e !in old(E) ==> fresh(e))
    }

    /** A blank Refs. */
    constructor (degree: nat, flags: Flags, depth: nat)
      requires ValidDegree(degree)
      ensures this.degree == degree && this.flags == flags && this.depth == depth && hash == Blank && iterators == []
        && limbo == {}
      ensures root != null && fresh(root) && Wired({}) && E == map[] && G == map[root := Made(depth, false, true)]
    {
      this.hash, this.degree, this.flags, this.depth := Blank, degree, flags, depth;
      this.refsIndex, this.iterators, this.limbo, this.E := map[], [], {}, map[];
      var rn := new RefsNode(Blank, null, depth);
      rn.loaded := true;
      this.root := rn;
      this.G := map[rn := Made(depth, false, true)];
    }

    // ---------------------------------------------------------------- loading

    method AddElementToIndex(re: RefsElement)
      modifies this`refsIndex
      ensures refsIndex == With(old(refsIndex), re, re.hash)
    {
      refsIndex := refsIndex[re.hash := (if re.hash in refsIndex then refsIndex[re.hash] else []) + [re]];
    }

    /** Put `re` after the last leaf of its upper node. */
    method AttachLeaf(re: RefsElement, ghost M: Nodes)
      requires Wired(M) && re !in E && re.upper in M && re.upper in G
      requires re.upper.height == 0 && G[re.upper].inMemory && G[re.upper].tree.Leaf?
      modifies this`refsIndex, this`G, this`E, re.upper`leafs
      ensures Wired(M) && E == old(E)[re := Item(re.hash, |old(re.upper.leafs)|)]
      ensures G == WithLeaf(re.upper, re, re.hash, old(G))
    {
      hide Addressed, Flat, FlatAll, WF, HashOf, Links, Indexes, Mirrors;
      var upper := re.upper;
      MirroredAt(upper, G, E);
      AddLeaf(upper, re, re.hash, M, root, G, E);
      if flags.hashTableIndex {
        AddBesides(refsIndex, E, limbo, re, Item(re.hash, |upper.leafs|));
        AddElementToIndex(re);
      }
      E := E[re := Item(re.hash, |upper.leafs|)];
      upper.leafs := upper.leafs + [re];
      G := WithLeaf(upper, re, re.hash, G);
      MirrorsIs(upper, G[upper]);
      forall n | n in G && n != upper
        ensures Mirrors(n, G[n])
      {
        assert old(Mirrors(n, G[n]));
      }
    }

    method LoadLeaf(hash: Hash, upper: RefsNode, ghost M: Nodes) returns (re: RefsElement)
      requires Wired(M) && upper in M && upper in G && upper.height == 0 && G[upper].inMemory && G[upper].tree.Leaf?
      modifies this`refsIndex, this`G, this`E, upper`leafs
      ensures Wired(M) && MoreItems(old(E), E) && Fresh()
      ensures G == WithLeaf(upper, re, hash, old(G))
    {
      hide Addressed, Flat, FlatAll, WF, HashOf, Links, Indexes;
      re := new RefsElement(hash, upper);
      AttachLeaf(re, M);
    }

    /** Start loading `rn`. */
    ghost method Open(rn: RefsNode, M: Nodes)
      requires Wired(M) && rn in G && G[rn].leafs == [] && G[rn].branches == []
      modifies this`G
      ensures Wired(M + {rn}) && G == Opened(rn, old(G))
    {
      hide Addressed, Flat, FlatAll, WF, HashOf, Links, Indexes, Mirrors;
      MirroredAt(rn, G, E);
      OpenNode(rn, M, root, G, E);
      G := Opened(rn, G);
      MirrorsIs(rn, G[rn]);
      forall n | n in G && n != rn
        ensures Mirrors(n, G[n])
      {
        MirroredAt(n, old(G), E);
      }
    }

    /** All of `rn` has been loaded. */
    method MarkLoaded(rn: RefsNode, ghost M: Nodes, ghost G0: Graph, ghost E0: Items)
      requires Wired(M + {rn}) && LinkedBut(M, root, G0, E0)
      requires rn in G0 && rn in G && rn !in M && G[rn].tree == G0[rn].tree && G[rn].pos == G0[rn].pos
      requires forall n <- G0 :: n != rn ==> n in G && G[n] == G0[n]
      modifies this`G, rn`loaded
      ensures Wired(M) && G == old(G)[rn := old(G)[rn].(loaded := true)]
    {
      hide Addressed, Flat, FlatAll, WF, HashOf, Indexes;
      CloseNode(rn, M, root, G0, E0, G, E);
      SetLoaded(rn, M);
    }

    method SetLoaded(rn: RefsNode, ghost M: Nodes)
      requires Wired(M) && rn in G
      modifies this`G, rn`loaded
      ensures Wired(M) && G == old(G)[rn := old(G)[rn].(loaded := true)]
    {
      hide Addressed, Flat, FlatAll, Indexes, WF, HashOf, Links, Mirrors;
      MirroredAt(rn, G, E);
      ghost var c := G[rn].(loaded := true);
      FieldLinks(rn, c, M, root, G, E);
      rn.loaded := true;
      G := G[rn := c];
      MirrorsIs(rn, c);
      forall n | n in G && n != rn
        ensures Mirrors(n, G[n])
      {
        assert old(Mirrors(n, G[n]));
      }
    }

    method LoadLeafs(rn: RefsNode, elements: seq<Hash>, ghost M: Nodes)
      requires Wired(M) && rn in G && rn !in M && rn.height == 0 && G[rn].leafs == [] && G[rn].branches == []
      requires G[rn].tree == Leaf(elements)
      modifies this`refsIndex, this`G, this`E, rn`leafs, rn`loaded
      ensures Wired(M) && MoreItems(old(E), E) && Fresh()
      ensures rn in G && G == old(G)[rn := old(G)[rn].(inMemory := true, leafs := G[rn].leafs, loaded := true)]
    {
      hide Addressed, Flat, FlatAll, WF, HashOf, Indexes, Links, MirrorAll, Mirrors;
      ghost var G0, E0 := G, E;
      Open(rn, M);
      for i := 0 to |elements|
        invariant Wired(M + {rn}) && MoreItems(E0, E) && Fresh()
        invariant rn in G && G == G0[rn := G0[rn].(inMemory := true, leafs := G[rn].leafs, tree := Leaf(elements[..i]))]
      {
        ghost var c := G[rn];
        var re := LoadLeaf(elements[i], rn, M + {rn});
        Overwrite(G0, rn, c, G[rn]);
        SliceSnoc(elements, i);
      }
      assert elements[..|elements|] == elements;
      ghost var c := G[rn];
      MarkLoaded(rn, M, G0, E0);
      Overwrite(G0, rn, c, G[rn]);
    }

    /** Put `br` after the last branch of its upper node. */
    method AttachBranch(br: RefsNode, ghost c: Cell, ghost M: Nodes)
      requires Wired(M) && br !in G && br.upper != null && br.upper in M && br.upper in G
      requires br.height + 1 == br.upper.height && G[br.upper].inMemory && G[br.upper].tree.Branch?
      requires c.leafs == [] && c.branches == [] && (c.inMemory ==> c.tree == Empty(br.height))
      requires Mirrors(br, c)
      modifies this`G, br.upper`branches
      ensures Wired(M)
      ensures G == WithBranch(br.upper, br, c, old(G))
    {
      hide Addressed, Flat, FlatAll, WF, HashOf, Indexes, Links, Mirrors;
      var upper := br.upper;
      MirroredAt(upper, G, E);
      AddBranch(upper, br, c, M, root, G, E);
      MirrorsPos(br, c, |G[upper].branches|);
      upper.branches := upper.branches + [br];
      G := WithBranch(upper, br, c, G);
      MirrorsIs(upper, G[upper]);
      forall n | n in G && n != upper && n != br
        ensures Mirrors(n, G[n])
      {
        assert old(Mirrors(n, G[n]));
      }
    }

    method AddUnloaded(pack: Pack, hash: Hash, depth: nat, upper: RefsNode, ghost tree: Tree, ghost M: Nodes)
      returns (br: RefsNode)
      requires pack.Valid() && Wired(M) && NodesOk(M, pack.objects)
      requires upper in M && upper in G && upper.height == depth + 1 && G[upper].inMemory && G[upper].tree.Branch?
      requires hash == HashOf(tree) && Stored(pack.objects, tree)
      modifies this`G, upper`branches
      ensures Wired(M) && br !in old(G) && fresh(br) && br.height == depth && br.upper == upper
        && AsStored(Unloaded(hash, tree))
      ensures G == WithBranch(upper, br, Unloaded(hash, tree), old(G))
      ensures flags.hashTableIndex || flags.entireRefs || NodesOk(M, pack.objects)
      ensures NodesOk(M + {br}, pack.objects)
    {
      hide Addressed, Flat, FlatAll, WF, HashOf, NodeHashes, Links, Indexes;
      StoredHash(pack.objects, tree);
      br := new RefsNode(hash, upper, depth);
      AttachBranch(br, Unloaded(hash, tree), M);
    }

    /** Put the branch with the given hash after the last one of `upper`, and load deeper if the flags ask for it. */
    method LoadBranch(pack: Pack, hash: Hash, depth: nat, upper: RefsNode, ghost tree: Tree, ghost M: Nodes)
      requires pack.Valid() && Wired(M) && NodesOk(M, pack.objects)
      requires upper in M && upper in G && upper.height == depth + 1 && G[upper].inMemory && G[upper].tree.Branch?
      requires hash == HashOf(tree) && Stored(pack.objects, tree) && WF(tree, degree, depth)
      modifies this`refsIndex, this`G, this`E, upper`branches
      ensures Wired(M) && NodesOk(M, pack.objects) && MoreItems(old(E), E) && AddedFrom(upper, old(G), G) && Fresh()
        && NoneDeeper(flags, old(G), G)
      ensures upper in G
        && G[upper] == old(G)[upper].(branches := G[upper].branches, tree := Branch(old(G)[upper].tree.kids + [tree]))
      decreases depth, 1
    {
      hide Addressed, Flat, FlatAll, WF, HashOf, NodeHashes, Links, Indexes, Adds, NotDeeper;
      ghost var c := Unloaded(hash, tree);
      var br := AddUnloaded(pack, hash, depth, upper, tree, M);
      AddedBranch(upper, br, c, old(G));
      DeeperBranch(upper, br, c, flags, old(G));
      if flags.hashTableIndex || flags.entireRefs {
        LoadNode(pack, br, depth, M);
        assert AsStored(G[br]);
        AddedLater(upper, br, c, old(G), G);
        DeeperSome(flags, old(G), G);
      }
    }

    method LoadEach(pack: Pack, rn: RefsNode, depth: nat, elements: seq<Hash>, ghost kids: seq<Tree>, ghost M: Nodes)
      requires pack.Valid() && Wired(M) && NodesOk(M, pack.objects) && rn in M && rn in G && rn.height == depth > 0
      requires G[rn].inMemory && G[rn].leafs == [] && G[rn].branches == [] && G[rn].tree == Branch([])
      requires elements == HashAll(kids) && AllHashes(kids) <= pack.objects.Keys
      requires forall i | 0 <= i < |kids| :: WF(kids[i], degree, depth - 1)
      modifies this`refsIndex, this`G, this`E, rn`branches
      ensures Wired(M) && NodesOk(M, pack.objects) && MoreItems(old(E), E) && AddedFrom(rn, old(G), G) && Fresh()
        && NoneDeeper(flags, old(G), G)
      ensures rn in G && G[rn] == old(G)[rn].(branches := G[rn].branches, tree := Branch(kids))
      decreases depth, 0, 1
    {
      hide Addressed, Flat, FlatAll, WF, Links, Indexes, HashOf, NodeHashes, Adds, NotDeeper;
      ghost var c := G[rn];
      AddedNothing(rn, G);
      DeeperNothing(flags, G, G);
      KidsStored(kids, pack.objects);
      for i := 0 to |elements|
        invariant Wired(M) && NodesOk(M, pack.objects) && MoreItems(old(E), E) && AddedFrom(rn, old(G), G) && Fresh()
          && NoneDeeper(flags, old(G), G)
        invariant rn in G && G[rn] == c.(branches := G[rn].branches, tree := Branch(kids[..i]))
      {
        ghost var H := G;
        LoadBranch(pack, elements[i], depth - 1, rn, kids[i], M);
        AddedTrans(rn, old(G), H, G);
        DeeperTrans(rn, flags, old(G), H, G);
        SliceSnoc(kids, i);
      }
      assert kids[..|kids|] == kids;
    }

    method LoadBranches(pack: Pack, rn: RefsNode, depth: nat, elements: seq<Hash>, ghost M: Nodes)
      requires pack.Valid() && Wired(M) && NodesOk(M + {rn}, pack.objects)
      requires rn in G && rn !in M && rn.height == depth > 0 && G[rn].leafs == [] && G[rn].branches == []
      requires WF(G[rn].tree, degree, depth) && elements == HashAll(G[rn].tree.kids)
        && KidHashes(G[rn].tree) <= pack.objects.Keys
      modifies this`refsIndex, this`G, this`E, rn`branches, rn`loaded
      ensures Wired(M) && NodesOk(M + {rn}, pack.objects) && MoreItems(old(E), E) && AddedFrom(rn, old(G), G) && Fresh()
        && NoneDeeper(flags, old(G), G)
      ensures rn in G && G[rn] == old(G)[rn].(inMemory := true, branches := G[rn].branches, loaded := true)
      decreases depth, 0, 2
    {
      hide Addressed, Flat, FlatAll, Indexes, HashOf, NodeHashes, Links, Adds, EachOk, WF, NotDeeper;
      KidsShape(G[rn].tree, degree, depth);
      ghost var G0, E0, kids := G, E, G[rn].tree.kids;
      Open(rn, M);
      OneOk(rn, G[rn], M + {rn}, M + {rn}, G0, flags, pack.objects);
      AddedSelf(rn, G[rn], G0);
      ghost var G1 := G;
      LoadEach(pack, rn, depth, elements, kids, M + {rn});
      AddedTrans(rn, G0, G1, G);
      DeeperNothing(flags, G0, G1);
      DeeperTrans(rn, flags, G0, G1, G);
      AddedAt(rn, G0, G);
      ghost var G2 := G;
      MarkBranches(rn, M, G0, E0, pack.objects);
      AddedTrans(rn, G0, G2, G);
      DeeperNothing(flags, G2, G);
      DeeperTrans(rn, flags, G0, G2, G);
    }

    /** All branches are there. */
    method MarkBranches(rn: RefsNode, ghost M: Nodes, ghost G0: Graph, ghost E0: Items, ghost objects: Objects)
      requires Wired(M + {rn}) && NodesOk(M + {rn}, objects) && LinkedBut(M, root, G0, E0)
      requires rn in G0 && rn in G && rn !in M && G[rn].tree == G0[rn].tree && G[rn].pos == G0[rn].pos
      requires forall n <- G0 :: n != rn ==> n in G && G[n] == G0[n]
      modifies this`G, rn`loaded
      ensures Wired(M) && NodesOk(M + {rn}, objects) && G == old(G)[rn := old(G)[rn].(loaded := true)]
        && AddedFrom(rn, old(G), G)
    {
      hide Addressed, Flat, FlatAll, Indexes, HashOf, NodeHashes, Links, Adds, EachOk, WF, MirrorAll;
      MarkLoaded(rn, M, G0, E0);
      OneOk(rn, G[rn], M + {rn}, M + {rn}, old(G), flags, objects);
      AddedSelf(rn, G[rn], old(G));
    }

    method LoadSubtree(pack: Pack, rn: RefsNode, elements: seq<Hash>, depth: nat, ghost M: Nodes)
      requires pack.Valid() && Wired(M) && NodesOk(M + {rn}, pack.objects)
      requires rn in G && rn !in M && rn.height == depth && G[rn].leafs == [] && G[rn].branches == []
      requires WF(G[rn].tree, degree, depth) && elements == Elements(G[rn].tree)
        && KidHashes(G[rn].tree) <= pack.objects.Keys
      modifies this`refsIndex, this`G, this`E, rn`leafs, rn`branches, rn`loaded
      ensures Wired(M) && NodesOk(M + {rn}, pack.objects) && MoreItems(old(E), E) && AddedFrom(rn, old(G), G) && Fresh()
        && NoneDeeper(flags, old(G), G)
      ensures rn in G
        && G[rn] == old(G)[rn].(inMemory := true, leafs := G[rn].leafs, branches := G[rn].branches, loaded := true)
      decreases depth, 0, 3
    {
      hide Addressed, Flat, FlatAll, Links, Indexes, HashOf;
      if depth == 0 {
        LoadLeafs(rn, elements, M);
        return;
      }
      LoadBranches(pack, rn, depth, elements, M);
    }

    /** Load a node from the Pack. */
    method LoadNode(pack: Pack, rn: RefsNode, depth: nat, ghost M: Nodes)
      requires pack.Valid() && Wired(M) && NodesOk(M + {rn}, pack.objects)
      requires rn in G && rn !in M && rn.height == depth && !G[rn].inMemory && rn.upper != null
      requires Clean(G[rn], pack.objects) && WF(G[rn].tree, degree, depth)
      modifies this`refsIndex, this`G, this`E, rn`leafs, rn`branches, rn`loaded, rn`length
      ensures Wired(M) && NodesOk(M, pack.objects) && MoreItems(old(E), E) && AddedFrom(rn, old(G), G) && Fresh()
        && NoneDeeper(flags, old(G), G)
      ensures rn in G && G[rn] == old(G)[rn].(inMemory := true, leafs := G[rn].leafs, branches := G[rn].branches,
              length := Len(G[rn].tree), loaded := true)
      decreases depth, 0, 4
    {
      hide Addressed, Flat, FlatAll, Indexes, Links, MirrorAll, EachOk, Adds, HashOf, NodeHashes, WF, NotDeeper;
      HoldsAt(rn, M, root, G, E);
      MirroredAt(rn, G, E);
      StoredHash(pack.objects, G[rn].tree);
      var err, ern := pack.Get(rn.hash);
      EncodingAt(G[rn], pack.objects);
      SetLength(rn, ern.length, M);
      ghost var H := G;
      AddedSelf(rn, G[rn], old(G));
      OneOk(rn, G[rn], M + {rn}, M + {rn}, old(G), flags, pack.objects);
      LoadSubtree(pack, rn, ern.elements, depth, M);
      AddedTrans(rn, old(G), H, G);
      DeeperNothing(flags, old(G), H);
      DeeperTrans(rn, flags, old(G), H, G);
      AllOkAfter(rn, M, G, flags, pack.objects);
    }

    method SetLength(rn: RefsNode, length: int, ghost M: Nodes)
      requires Wired(M) && rn in G
      modifies this`G, rn`length
      ensures Wired(M) && G == old(G)[rn := old(G)[rn].(length := length)]
    {
      hide Addressed, Flat, FlatAll, Indexes, WF, HashOf, Links, Mirrors;
      MirroredAt(rn, G, E);
      ghost var c := G[rn].(length := length);
      FieldLinks(rn, c, M, root, G, E);
      rn.length := length;
      G := G[rn := c];
      MirrorsIs(rn, c);
      forall n | n in G && n != rn
        ensures Mirrors(n, G[n])
      {
        assert old(Mirrors(n, G[n]));
      }
    }

    method LoadNodeIfNeed(pack: Pack, rn: RefsNode, depth: nat)
      requires pack.Valid() && Wired({}) && NodesOk({}, pack.objects)
      requires rn in G && rn.height == depth && rn != root && WF(G[rn].tree, degree, depth)
      modifies this`refsIndex, this`G, this`E, rn`leafs, rn`branches, rn`loaded, rn`length
      ensures Wired({}) && NodesOk({}, pack.objects) && MoreItems(old(E), E) && LoadedFrom(old(G), G) && Fresh()
      ensures AddedFrom(rn, old(G), G) && NoneDeeper(flags, old(G), G)
      ensures Here(rn, depth, degree, G) && rn.length == Len(G[rn].tree)
    {
      hide Addressed, Flat, FlatAll, WF, Indexes, HashOf, Links;
      MirroredAt(rn, G, E);
      if rn.loaded {
        return;
      }
      UpperOf(rn, {}, root, G, E);
      LoadNode(pack, rn, depth, {});
      MirroredAt(rn, G, E);
    }

    // -------------------------------------------------------- access by index

    /** Skip branches until the one that holds the i-th element. */
    method FindBranch(pack: Pack, rn: RefsNode, i: nat, depth: nat) returns (j: nat, rest: nat)
      requires pack.Valid() && Wired({}) && NodesOk({}, pack.objects)
      requires Here(rn, depth, degree, G) && depth > 0 && i < Len(G[rn].tree)
      modifies this`refsIndex, this`G, this`E, G.Keys
      ensures Wired({}) && NodesOk({}, pack.objects) && MoreItems(old(E), E) && LoadedFrom(old(G), G) && Fresh()
      ensures AboveSame(depth - 1, old(G), G)
      ensures G[rn].tree.Branch? && (j, rest) == Skip(G[rn].tree.kids, 0, i)
      ensures j < |G[rn].branches| && rn.branches == G[rn].branches && Here(G[rn].branches[j], depth - 1, degree, G)
    {
      hide Addressed, Flat, FlatAll, Locate, HashOf, NodeHashes, WF, Indexes, Skip, Links, EachOk, Loads, Adds,
        HigherSame, MoreItems, MirrorAll;
      KidsOf(rn, depth, degree, {}, root, G, E);
      MirroredAt(rn, G, E);
      ghost var kids := G[rn].tree.kids;
      SkipLocates(kids, i);
      j, rest := 0, i;
      NothingLoaded(G, E);
      AboveNothing(depth - 1, G);
      while true
        invariant Wired({}) && NodesOk({}, pack.objects) && MoreItems(old(E), E) && LoadedFrom(old(G), G) && Fresh()
        invariant AboveSame(depth - 1, old(G), G)
        invariant rn in G && G[rn] == old(G)[rn] && rn.branches == G[rn].branches
        invariant j < |kids| && Skip(kids, j, rest) == Skip(kids, 0, i)
        decreases |kids| - j
      {
        var br := rn.branches[j];
        BranchOf(rn, j, {}, root, G, E);
        ghost var H, F := G, E;
        LoadNodeIfNeed(pack, br, depth - 1);
        LoadedMore(old(G), old(E), H, F, G, E);
        AddedAbove(br, H, G);
        AboveTrans(depth - 1, depth - 1, old(G), H, G);
        LoadedAt(rn, H, G);
        LoadedAt(br, H, G);
        SkipStep(kids, j, rest);
        if rest < br.length {
          break;
        }
        rest, j := rest - br.length, j + 1;
      }
    }

    /** The leaf at the given index in the subtree of `rn`. */
    method ElementByIndex(pack: Pack, rn: RefsNode, i: nat, depth: nat) returns (el: RefsElement)
      requires pack.Valid() && Wired({}) && NodesOk({}, pack.objects)
      requires Here(rn, depth, degree, G) && i < Len(G[rn].tree)
      modifies this`refsIndex, this`G, this`E, G.Keys
      ensures Wired({}) && NodesOk({}, pack.objects) && MoreItems(old(E), E) && LoadedFrom(old(G), G) && Fresh()
      ensures rn in G && el in E && Positioned(el, G, E, root) && Position(el, G, E, root) == Start(rn, G, root) + i
      decreases depth
    {
      hide Addressed, Flat, FlatAll, Locate, HashOf, NodeHashes, WF, Indexes, Skip, Links, EachOk, Loads, MoreItems,
        MirrorAll;
      MirroredAt(rn, G, E);
      NothingLoaded(G, E);
      if depth == 0 {
        LeafsOf(rn, degree, {}, root, G, E);
        for j := 0 to |rn.leafs|
          invariant j <= i
        {
          if j == i {
            LeafOf(rn, i, {}, root, G, E);
            return rn.leafs[j];
          }
        }
      }
      KidsOf(rn, depth, degree, {}, root, G, E);
      ghost var kids := G[rn].tree.kids;
      SkipLocates(kids, i);
      var j, rest := FindBranch(pack, rn, i, depth);
      var br := rn.branches[j];
      ghost var H, F := G, E;
      LoadedAt(rn, old(G), H);
      KidsOf(rn, depth, degree, {}, root, G, E);
      BranchOf(rn, j, {}, root, G, E);
      el := ElementByIndex(pack, br, rest, depth - 1);
      LoadedMore(old(G), old(E), H, F, G, E);
      LoadedAt(rn, H, G);
      LoadedAt(br, H, G);
      StartOf(br, root, G, E);
    }

    // ----------------------------------------------------------------- hashes

    /** Let the node save itself; whether it is stale then is up to the caller. */
    method Save(pack: Pack, up: RefsNode, depth: nat, ghost stale: bool, ghost M: Nodes)
      requires pack.Valid() && Wired(M) && up in G && up.upper != null && up != root
      modifies this`G, up`hash, up`contentMod, pack`objects
      ensures pack.Valid() && old(pack.objects).Keys <= pack.objects.Keys && Wired(M)
      ensures up in G && G == old(G)[up := old(G)[up].(hash := G[up].hash, mod := G[up].mod, stale := stale)]
      ensures G[up].hash == Sum(NodeBlob(G[up].length, old(up.Listed(depth))))
      ensures G[up].hash == old(G)[up].hash || G[up].hash in pack.objects
      ensures G[up].mod ==> old(G)[up].mod
    {
      hide Addressed, Flat, FlatAll, WF, HashOf, Links, Indexes, ContentAddressed, LeafHashes, BranchHashes, Mirrors;
      MirroredAt(up, G, E);
      up.UpdateHash(pack, depth);
      ghost var c := G[up].(hash := up.hash, mod := up.contentMod, stale := stale);
      FieldLinks(up, c, M, root, G, E);
      G := G[up := c];
      MirrorsIs(up, c);
      forall n | n in G && n != up
        ensures Mirrors(n, G[n])
      {
        assert old(Mirrors(n, G[n]));
      }
    }

    /** Make the hash of a node actual; the nodes in `N` need not be as they should be. */
    method Refresh(pack: Pack, up: RefsNode, depth: nat, ghost M: Nodes, ghost N: Nodes := {})
      requires pack.Valid() && Wired(M) && NodesOk(N, pack.objects) && up !in N
      requires up in G && up.height == depth && G[up].inMemory && up.upper != null && up != root
        && forall b <- G[up].branches :: b !in M && b !in N
      modifies this`G, up`hash, up`contentMod, pack`objects
      ensures pack.Valid() && old(pack.objects).Keys <= pack.objects.Keys && Wired(M) && NodesOk(N, pack.objects)
      ensures up in G
        && G == old(G)[up := old(G)[up].(hash := G[up].hash, mod := G[up].mod, stale := old(!KidsClean(up, G)))]
      ensures (G[up].mod ==> old(G)[up].mod) && HashLen(G[up].hash) == Len(G[up].tree)
    {
      hide Addressed, Flat, FlatAll, WF, HashOf, NodeHashes, Links, Indexes, MirrorAll, EachOk;
      ghost var good, H := KidsClean(up, G), G;
      if good {
        ListedIs(up, depth, M, root, flags, pack.objects, G, E, N);
      }
      NodeAt(up, N, G, flags, pack.objects);
      Save(pack, up, depth, !good, M);
      if good {
        CleanOf(G[up], pack.objects);
      }
      MoreOk(N, H, flags, old(pack.objects), pack.objects);
      OneOk(up, G[up], N, N, H, flags, pack.objects);
    }

    method SetMod(up: RefsNode, mod: bool, ghost M: Nodes)
      requires Wired(M) && up in G
      modifies this`G, up`contentMod
      ensures Wired(M) && G == old(G)[up := old(G)[up].(mod := mod)]
    {
      hide Addressed, Flat, FlatAll, Indexes, WF, HashOf, Links, Mirrors;
      MirroredAt(up, G, E);
      ghost var c := G[up].(mod := mod);
      FieldLinks(up, c, M, root, G, E);
      up.contentMod := mod;
      G := G[up := c];
      MirrorsIs(up, c);
      forall n | n in G && n != up
        ensures Mirrors(n, G[n])
      {
        assert old(Mirrors(n, G[n]));
      }
    }

    /** Make the hash of a changed node actual, or mark the node. */
    method RefreshIfNeed(pack: Pack, up: RefsNode, depth: nat, need: bool)
      requires pack.Valid() && Wired({up}) && NodesOk({}, pack.objects) && need == !flags.lazyUpdating
      requires up in G && up.height == depth && G[up].inMemory && G[up].stale && up != root
      requires Kept(flags.lazyUpdating, {up}, root, G)
      modifies this`G, up`hash, up`contentMod, pack`objects
      ensures pack.Valid() && old(pack.objects).Keys <= pack.objects.Keys && Wired({up}) && NodesOk({}, pack.objects)
      ensures up in G && G == old(G)[up := old(G)[up].(hash := G[up].hash, mod := G[up].mod, stale := G[up].stale)]
      ensures if flags.lazyUpdating then G[up].mod && G[up].stale else !G[up].stale
    {
      hide Addressed, Flat, FlatAll, WF, HashOf, NodeHashes, Links, Indexes, MirrorAll, EachOk;
      if !need {
        NodeAt(up, {}, G, flags, pack.objects);
        ghost var H := G;
        SetMod(up, true, {up});
        OneOk(up, G[up], {}, {}, H, flags, pack.objects);
        return;
      }
      UpperOf(up, {up}, root, G, E);
      forall b <- G[up].branches
        ensures b != up && b != root
      {
        var i :| 0 <= i < |G[up].branches| && G[up].branches[i] == b;
        BranchOf(up, i, {up}, root, G, E);
      }
      Refresh(pack, up, depth, {up});
    }

    ghost predicate HashKnown(objects: Objects)
      reads `hash
    {
      hash == Blank || hash in objects
    }

    ghost function Tree(): Tree
      requires root != null && root in G
      reads `root, `G
    {
      G[root].tree
    }

    /** The hash of the Refs is actual, or the root is marked. */
    ghost predicate RootKept(objects: Objects)
      reads `root, `G, `flags, `hash, `degree, `depth
    {
      root != null && root in G
      && ((flags.lazyUpdating && G[root].mod) || Current(hash, Value(degree, depth, G[root].tree), objects))
    }

    /** One node on the way up to the root, which has to know what changed. */
    method BubbleStep(pack: Pack, up: RefsNode, depth: nat, need: bool)
      requires pack.Valid() && Wired({up}) && NodesOk({}, pack.objects) && need == !flags.lazyUpdating
      requires up in G && up.height == depth && G[up].inMemory && G[up].stale && up.upper != null
      requires Kept(flags.lazyUpdating, {up}, root, G) && root != null && up.height <= root.height
        && SameLen(up, root, G)
      modifies this`G, up`hash, up`contentMod, pack`objects
      ensures pack.Valid() && old(pack.objects).Keys <= pack.objects.Keys && Wired({up.upper})
        && NodesOk({}, pack.objects)
      ensures up.upper in G && up.upper.height == depth + 1 <= root.height && G[up.upper].inMemory && G[up.upper].stale
      ensures Kept(flags.lazyUpdating, {up.upper}, root, G) && SameLen(up.upper, root, G) && G.Keys == old(G).Keys
      ensures TopTree(up.upper, G[up.upper].tree, root, G) == old(TopTree(up, G[up].tree, root, G))
    {
      hide Addressed, Flat, FlatAll, WF, HashOf, NodeHashes, Links, Indexes, MirrorAll, EachOk, TopTree;
      TopIs({up}, root, G, E);
      RefreshIfNeed(pack, up, depth, need);
      SavedTop(up, G[up], root, old(G), E);
      ghost var H := G;
      StepTop(up, root, G, E);
      StepKept(flags.lazyUpdating, up, G[up], root, old(G));
      StepOk(up, G, flags, pack.objects);
      StepLen(up, root, G, E);
      MirroredRetree(up.upper, UpperTree(up, G[up].tree, G), G, E);
      G := Stepped(up, G);
    }

    /** Take away what is below the root: there are no elements. */
    method Strip(ghost objects: Objects)
      requires Wired({}) && NodesOk({}, objects) && root != null && root in G && G[root].length == 0
      modifies this`G, this`E, root`leafs, root`branches, root`contentMod
      ensures root != null && Wired({}) && NodesOk({}, objects) && G == Bare(root, old(G)) && E == map[]
    {
      hide Addressed, Flat, FlatAll, WF, HashOf, NodeHashes, Links, Indexes, EachOk, Mirrors;
      TopIs({}, root, G, E);
      NodeAt(root, {}, G, flags, objects);
      NoItems(root, G, E);
      BareLinks(root, G, E);
      BareOk(root, G, flags, objects);
      MirroredAt(root, G, E);
      root.contentMod := false;
      root.leafs, root.branches := [], [];
      G, E := Bare(root, G), map[];
      MirrorsIs(root, G[root]);
    }

    /** Make the hash of the Refs actual. */
    method UpdateHash(pack: Pack)
      requires pack.Valid() && Wired({}) && NodesOk({}, pack.objects) && HashKnown(pack.objects) && root != null
        && root in G
      modifies this`G, this`E, this`hash, G.Keys, pack`objects
      ensures pack.Valid() && old(pack.objects).Keys <= pack.objects.Keys && Wired({}) && NodesOk({}, pack.objects)
      ensures root in G && HashKnown(pack.objects)
      ensures old(AllClean({}, root, G)) ==>
              AllClean({}, root, G) && Current(hash, Value(degree, depth, G[root].tree), pack.objects)
      ensures Len(old(Tree())) > 0 ==> G == old(G)[root := G[root]]
      ensures Len(old(Tree())) == 0 ==> G[root].tree == Empty(depth) && G.Keys == {root} && hash == Blank
      ensures G[root].tree == Settled(false, old(Tree()), depth) && G.Keys <= old(G).Keys && E.Keys <= old(E).Keys
    {
      hide Addressed, Flat, FlatAll, WF, HashOf, NodeHashes, Links, Indexes, MirrorAll, EachOk, EachClean;
      TopIs({}, root, G, E);
      NodeAt(root, {}, G, flags, pack.objects);
      MirroredAt(root, G, E);
      if root.length == 0 {
        hash := Blank;
        Strip(pack.objects);
        BareClean(root, old(G), depth);
        CurrentIs(hash, Value(degree, depth, G[root].tree), pack.objects);
        return;
      }
      SaveRoot(pack);
      if AllClean({}, root, G) {
        TopClean(root, G[root].(mod := false), G);
      }
      SetMod(root, false, {});
      OneOk(root, G[root], {}, {}, old(G), flags, pack.objects);
    }

    /** Save the encoding of the Refs. */
    method SaveRoot(pack: Pack)
      requires pack.Valid() && Wired({}) && NodesOk({}, pack.objects) && HashKnown(pack.objects)
      requires root != null && root in G && Len(G[root].tree) > 0
      modifies this`hash, pack`objects
      ensures pack.Valid() && old(pack.objects).Keys <= pack.objects.Keys && NodesOk({}, pack.objects)
        && HashKnown(pack.objects)
      ensures AllClean({}, root, G) ==> Current(hash, Value(degree, depth, G[root].tree), pack.objects)
    {
      hide Addressed, Flat, FlatAll, WF, HashOf, NodeHashes, Links, Indexes, MirrorAll, EachOk, EachClean;
      TopIs({}, root, G, E);
      NodeAt(root, {}, G, flags, pack.objects);
      MirroredAt(root, G, E);
      ghost var good := AllClean({}, root, G);
      if good {
        TopKidsClean(root, G, E);
        ListedIs(root, depth, {}, root, flags, pack.objects, G, E);
      }
      var elements := root.ListElements(depth);
      var val := RootBlob(depth, degree, root.length, elements);
      var h := Sum(val);
      if hash != h {
        pack.Set(h, val);
        hash := h;
      }
      MoreOk({}, G, flags, old(pack.objects), pack.objects);
      if good {
        CurrentIs(hash, Value(degree, depth, G[root].tree), pack.objects);
      }
    }

    /** Make the hash of the Refs actual, or mark its root. */
    method UpdateHashIfNeed(pack: Pack, need: bool)
      requires pack.Valid() && Wired({}) && NodesOk({}, pack.objects) && HashKnown(pack.objects)
      requires need == !flags.lazyUpdating && root != null && root in G && Kept(flags.lazyUpdating, {root}, root, G)
      modifies this`G, this`E, this`hash, G.Keys, pack`objects
      ensures pack.Valid() && old(pack.objects).Keys <= pack.objects.Keys && Wired({}) && NodesOk({}, pack.objects)
      ensures HashKnown(pack.objects) && RootKept(pack.objects) && Kept(flags.lazyUpdating, {}, root, G)
      ensures Tree() == Settled(flags.lazyUpdating, old(Tree()), depth) && G.Keys <= old(G).Keys
        && E.Keys <= old(E).Keys
      ensures flags.lazyUpdating ==> hash == old(hash)
    {
      hide Addressed, Flat, FlatAll, WF, HashOf, NodeHashes, Links, Indexes, MirrorAll, EachOk, EachClean, EachMarked;
      if !need {
        NodeAt(root, {}, G, flags, pack.objects);
        TopIs({}, root, G, E);
        SetMod(root, true, {});
        OneOk(root, G[root], {}, {}, old(G), flags, pack.objects);
        MarkedTop(true, G[root], root, old(G));
        return;
      }
      MarkedTop(false, G[root], root, G);
      assert G[root := G[root]] == G;
      UpdateHash(pack);
      CurrentKnown(hash, Value(degree, depth, G[root].tree), pack.objects);
    }

    /** Mark what has changed up to the root, or make the hashes actual. */
    method BubbleContentChanges(pack: Pack, el: RefsElement)
      requires pack.Valid() && Wired({el.upper}) && NodesOk({}, pack.objects) && HashKnown(pack.objects)
      requires el.upper in G && el.upper.height == 0 && G[el.upper].inMemory && G[el.upper].stale
      requires Kept(flags.lazyUpdating, {el.upper}, root, G) && SameLen(el.upper, root, G)
      modifies this`G, this`E, this`hash, G.Keys, pack`objects
      ensures pack.Valid() && old(pack.objects).Keys <= pack.objects.Keys && Wired({}) && NodesOk({}, pack.objects)
      ensures HashKnown(pack.objects) && Kept(flags.lazyUpdating, {}, root, G) && RootKept(pack.objects)
        && G.Keys <= old(G).Keys && E.Keys <= old(E).Keys
      ensures Tree() == Settled(flags.lazyUpdating, old(TopTree(el.upper, G[el.upper].tree, root, G)), depth)
      ensures flags.lazyUpdating ==> hash == old(hash)
    {
      hide Addressed, Flat, FlatAll, WF, HashOf, NodeHashes, Links, Indexes, MirrorAll, EachOk, EachClean, EachMarked,
        TopTree, Settled;
      var need := !flags.lazyUpdating;
      var d, up: RefsNode := 0, el.upper;
      TopIs({up}, root, G, E);
      while up.upper != null
        invariant pack.Valid() && old(pack.objects).Keys <= pack.objects.Keys
        invariant Wired({up}) && NodesOk({}, pack.objects) && HashKnown(pack.objects)
        invariant up in G && up.height == d <= root.height && G[up].inMemory && G[up].stale && G.Keys == old(G).Keys
          && E == old(E)
        invariant Kept(flags.lazyUpdating, {up}, root, G) && SameLen(up, root, G)
        invariant TopTree(up, G[up].tree, root, G) == old(TopTree(el.upper, G[el.upper].tree, root, G))
          && hash == old(hash)
        decreases root.height - up.height
      {
        BubbleStep(pack, up, d, need);
        up, d := up.upper, d + 1;
      }
      TopOnly(up, root, G, E);
      UpdateHashIfNeed(pack, need);
    }

    // ------------------------------------------------------ the Refs as a whole

    /** Content, lengths and links are as they should be. */
    ghost predicate Sound(pack: Pack)
      reads `root, `depth, `degree, `flags, `refsIndex, `limbo, `hash, `G, `E, pack, G.Keys, E.Keys
    {
      pack.Valid() && Wired({}) && NodesOk({}, pack.objects) && HashKnown(pack.objects)
      && root != null && root in G && WF(G[root].tree, degree, depth) && limbo == {}
    }

    /** Hashes are actual, or can be made so, too. */
    ghost predicate Valid(pack: Pack)
      reads `root, `depth, `degree, `flags, `refsIndex, `limbo, `hash, `G, `E, pack, G.Keys, E.Keys
    {
      Sound(pack) && Kept(flags.lazyUpdating, {}, root, G) && RootKept(pack.objects)
    }

    /** All hashes are actual, that of the Refs too. */
    ghost predicate UpToDate(pack: Pack)
      reads `root, `depth, `degree, `flags, `refsIndex, `limbo, `hash, `G, `E, pack, G.Keys, E.Keys
    {
      Valid(pack) && AllClean({}, root, G) && Current(hash, Value(degree, depth, Tree()), pack.objects)
    }

    // -------------------------------------------------------- set by index

    /** Delete a particular element from the index. */
    method DelElementFromIndex(re: RefsElement)
      requires re.hash in refsIndex && Distinct(refsIndex[re.hash])
      modifies this`refsIndex
      ensures refsIndex == WithoutEntry(old(refsIndex), re.hash, Sans(old(refsIndex[re.hash]), re))
    {
      var res := refsIndex[re.hash];
      for k := 0 to |res|
        invariant res == old(refsIndex[re.hash]) && re !in res[..k]
      {
        if res[k] == re {
          SansIs(res, re, k);
          res := res[..k] + res[k + 1..];
          break;
        }
      }
      if |res| == 0 {
        refsIndex := refsIndex - {re.hash};
        return;
      }
      refsIndex := refsIndex[re.hash := res];
    }

    /** Move `el` to the entry of the index its new hash belongs to. */
    method Reindex(el: RefsElement, x: Hash)
      requires Matches(refsIndex, E) && el in E && el.hash == E[el].hash
      modifies this`refsIndex, el`hash
      ensures el.hash == x && Matches(refsIndex, (E - {el})[el := E[el].(hash := x)])
    {
      hide Sans;
      ghost var E' := E - {el};
      DeleteMatches(refsIndex, E, el, E');
      DelElementFromIndex(el);
      AddMatches(refsIndex, E', el, E[el].(hash := x));
      el.hash := x;
      AddElementToIndex(el);
    }

    /** Change the hash of a leaf, moving it to another entry of the index. */
    method ChangeLeaf(el: RefsElement, x: Hash)
      requires Wired({}) && el in E && root != null && limbo == {}
      modifies this`refsIndex, this`G, this`E, el`hash
      ensures el.upper in old(G) && old(G)[el.upper].tree.Leaf? && old(E)[el].pos < |old(G)[el.upper].tree.es|
      ensures Wired({el.upper}) && G == LeafSet(el, x, old(G), old(E)) && E == LeafSetItems(el, x, old(E))
    {
      hide Addressed, Flat, FlatAll, WF, HashOf, Links, Indexes, Mirrors, Sans;
      ItemAt(el, root, G, E);
      SetItem(el, x, root, G, E);
      ghost var E', E0 := E - {el}, E;
      if flags.hashTableIndex {
        NoLimbo(refsIndex, E);
        Reindex(el, x);
        NoLimbo(refsIndex, E'[el := E0[el].(hash := x)]);
      }
      el.hash := x;
      E := LeafSetItems(el, x, E);
      assert E == E'[el := E0[el].(hash := x)];
      assert MirrorAll(G, E) by {
        forall n | n in G
          ensures Mirrors(n, G[n])
        {
          assert old(Mirrors(n, G[n]));
        }
      }
      MirroredRetree(el.upper, Leaf(G[el.upper].tree.es[E0[el].pos := x]), G, E);
      G := LeafSet(el, x, G, E0);
    }

    /** Replace the hash of an element. */
    method SetElementHash(pack: Pack, el: RefsElement, x: Hash, ghost i: nat)
      requires Valid(pack) && Positioned(el, G, E, root) && i == Position(el, G, E, root)
      modifies this, G.Keys, E.Keys, pack`objects
      ensures Valid(pack) && old(pack.objects).Keys <= pack.objects.Keys && G.Keys <= old(G).Keys
        && E.Keys <= old(E).Keys
      ensures degree == old(degree) && depth == old(depth) && flags == old(flags) && iterators == old(iterators)
      ensures i < Len(old(Tree())) && Tree() == SetAt(old(Tree()), i, x)
      ensures flags.lazyUpdating ==> hash == old(hash)
    {
      hide Addressed, Flat, FlatAll, WF, HashOf, NodeHashes, Links, Indexes, MirrorAll, EachOk, EachClean, EachMarked,
        TopTree, SetAt;
      ghost var t, lazy := G[root].tree, flags.lazyUpdating;
      ItemAt(el, root, G, E);
      LeafSetTop(el, x, i, root, G, E);
      ItemMirrored(el, G, E);
      if el.hash == x {
        SetAtSame(t, i);
        return;
      }
      LeafSetOk(el, x, lazy, root, G, E, flags, pack.objects);
      ChangeLeaf(el, x);
      SetAtShape(t, i, x, degree, depth);
      SetAtIsUpdate(t, i, x);
      BubbleContentChanges(pack, el);
    }

    /** Replace the hash of the i-th element. */
    method SetHashByIndex(pack: Pack, i: int, x: Hash) returns (err: Err)
      requires Valid(pack)
      modifies this, G.Keys, E.Keys, pack`objects
      ensures Valid(pack) && old(pack.objects).Keys <= pack.objects.Keys && Fresh()
      ensures degree == old(degree) && depth == old(depth) && flags == old(flags) && iterators == old(iterators)
      ensures err == if 0 <= i < Len(old(Tree())) then Ok else IndexOutOfRange
      ensures Tree() == if 0 <= i < Len(old(Tree())) then SetAt(old(Tree()), i, x) else old(Tree())
      ensures flags.lazyUpdating ==> hash == old(hash)
    {
      hide Addressed, Flat, FlatAll, WF, HashOf, NodeHashes, Links, Indexes, MirrorAll, EachOk, EachClean, EachMarked,
        TopTree, SetAt, Loads;
      TopAt({}, root, G, E);
      NodeAt(root, {}, G, flags, pack.objects);
      MirroredAt(root, G, E);
      if i < 0 || i >= root.length {
        return IndexOutOfRange;
      }
      ghost var H := G;
      var el := ElementByIndex(pack, root, i, depth);
      LoadedAt(root, H, G);
      LoadedKept(flags.lazyUpdating, {}, root, H, G);
      SetElementHash(pack, el, x, i);
      return Ok;
    }

    // -------------------------------------------------------- delete by index

    /** Take the i-th leaf out of a node. */
    method DetachLeaf(rn: RefsNode, i: nat)
      requires Wired({}) && Here(rn, 0, degree, G) && i < Len(G[rn].tree) && root != null && limbo == {}
      modifies this`refsIndex, this`G, this`E, rn`leafs
      ensures old(G)[rn].tree.Leaf? && i < |old(G)[rn].leafs| == |old(G)[rn].tree.es| && old(G)[rn].leafs[i] in old(E)
      ensures Wired({rn}) && G == WithoutLeaf(rn, i, old(G)) && E == WithoutItem(old(G)[rn].leafs[i], old(E))
    {
      hide Addressed, Flat, FlatAll, WF, HashOf, Links, Indexes, Mirrors, Sans;
      LeafsOf(rn, degree, {}, root, G, E);
      LeafOf(rn, i, {}, root, G, E);
      MirroredAt(rn, G, E);
      var el := rn.leafs[i];
      ItemAt(el, root, G, E);
      ItemMirrored(el, G, E);
      RemoveLeaf(el, root, G, E);
      ghost var F := WithoutItem(el, E);
      if flags.hashTableIndex {
        NoLimbo(refsIndex, E);
        DeleteMatches(refsIndex, E, el, F);
        DelElementFromIndex(el);
        NoLimbo(refsIndex, F);
      }
      rn.leafs := rn.leafs[..i] + rn.leafs[i + 1..];
      G, E := WithoutLeaf(rn, i, G), F;
      MirrorsIs(rn, G[rn]);
      forall n | n in G && n != rn
        ensures Mirrors(n, G[n])
      {
        assert old(Mirrors(n, G[n]));
      }
    }

    /** Take the j-th branch, which has no elements, out of a node. */
    method DetachBranch(rn: RefsNode, j: nat, br: RefsNode, ghost M: Nodes)
      requires Wired(M) && root != null && rn in G && j < |G[rn].branches| && G[rn].branches[j] == br
      requires rn in M && br in M && (forall x <- M :: x.height >= br.height) && br in G && Len(G[br].tree) == 0
      modifies this`G, rn`branches
      ensures old(G)[rn].tree.Branch? && |old(G)[rn].branches| == |old(G)[rn].tree.kids|
      ensures Wired(M - {br}) && G == WithoutBranch(rn, j, old(G))
    {
      hide Addressed, Flat, FlatAll, WF, HashOf, Links, Indexes, Mirrors, Below;
      RemoveBranch(rn, j, M, root, G, E);
      BranchOf(rn, j, M, root, G, E);
      BranchBelow(br, M, root, G, E);
      MirroredAt(rn, G, E);
      rn.branches := rn.branches[..j] + rn.branches[j + 1..];
      G := WithoutBranch(rn, j, G);
      MirrorsIs(rn, G[rn]);
      forall n | n in G && n != rn
        ensures Mirrors(n, G[n])
      {
        assert old(Mirrors(n, G[n]));
        MirrorsPos(n, old(G)[n], G[n].pos);
      }
    }

    /** Count one element less, and update the node unless nothing is left of it. */
    method CountDeleted(pack: Pack, rn: RefsNode, depth: nat)
      requires pack.Valid() && Wired({rn}) && NodesOk({rn}, pack.objects) && root != null
      requires rn in G && rn.height == depth && G[rn].inMemory && G[rn].stale
      requires NodeOk(G[rn].(length := G[rn].length - 1), flags, pack.objects)
      requires Kept(flags.lazyUpdating, {rn}, root, G)
      modifies this`G, rn`length, rn`hash, rn`contentMod, pack`objects
      ensures pack.Valid() && old(pack.objects).Keys <= pack.objects.Keys && Wired({rn}) && NodesOk({}, pack.objects)
      ensures rn in G && G == old(G)[rn := old(G)[rn].(hash := G[rn].hash, mod := G[rn].mod, stale := G[rn].stale,
              length := old(G)[rn].length - 1)]
      ensures Updated(rn) && Kept(flags.lazyUpdating, {rn}, root, G)
    {
      hide Addressed, Flat, FlatAll, WF, HashOf, NodeHashes, Links, Indexes, MirrorAll, EachOk, EachClean, EachMarked;
      MirroredAt(rn, G, E);
      SetLength(rn, rn.length - 1, {rn});
      OneOk(rn, G[rn], {}, {rn}, old(G), flags, pack.objects);
      KeptOne(flags.lazyUpdating, rn, G[rn], root, old(G));
      MirroredAt(rn, G, E);
      TopIs({rn}, root, G, E);
      if rn.length == 0 {
        return;
      }
      if rn.upper == null {
        return;
      }
      ghost var H := G;
      RefreshIfNeed(pack, rn, depth, !flags.lazyUpdating);
      KeptOne(flags.lazyUpdating, rn, G[rn], root, H);
      Overwrite(old(G), rn, H[rn], G[rn]);
    }

    /** A node that has elements is marked, or its hash is actual. */
    ghost predicate Updated(rn: RefsNode)
      requires rn in G
      reads `root, `G, `flags
    {
      rn != root && Len(G[rn].tree) > 0 ==> if flags.lazyUpdating then G[rn].mod && G[rn].stale else !G[rn].stale
    }

    /** One element has been deleted from the branch `br` of `rn`: let `rn` know. */
    method DropOrKeep(pack: Pack, rn: RefsNode, j: nat, br: RefsNode, depth: nat)
      requires pack.Valid() && Wired({br}) && NodesOk({}, pack.objects) && root != null && br in G && Updated(br)
        && G[br].inMemory
      requires rn in G && rn.height == depth && G[rn].inMemory && j < |G[rn].branches| && G[rn].branches[j] == br
        && br != root
      requires G[rn].tree.Branch? && |G[rn].branches| == |G[rn].tree.kids|
        && Len(G[rn].tree.kids[j]) == Len(G[br].tree) + 1
      requires Kept(flags.lazyUpdating, {br}, root, G)
      modifies this`G, rn`branches, rn`length, rn`hash, rn`contentMod, pack`objects
      ensures pack.Valid() && old(pack.objects).Keys <= pack.objects.Keys && Wired({rn}) && NodesOk({}, pack.objects)
      ensures G.Keys <= old(G).Keys && rn in G && G[rn].inMemory && G[rn].pos == old(G)[rn].pos
        && AboveSame(depth, old(G), G)
      ensures G[rn].tree == var k, ks := old(G)[br].tree, old(G)[rn].tree.kids;
                            Branch(if Len(k) == 0 then Without(ks, j) else ks[j := k])
      ensures Updated(rn) && Kept(flags.lazyUpdating, {rn}, root, G)
    {
      hide Addressed, Flat, FlatAll, WF, HashOf, NodeHashes, Links, Indexes, MirrorAll, EachOk, EachClean, EachMarked,
        HigherSame, Below, WithoutBranch;
      ghost var lazy := flags.lazyUpdating;
      NodeAt(br, {}, G, flags, pack.objects);
      NodeAt(rn, {}, G, flags, pack.objects);
      MirroredAt(br, G, E);
      MirroredAt(rn, G, E);
      LenKid(G[rn].tree.kids, j, G[br].tree);
      BranchOf(rn, j, {br}, root, G, E);
      if br.length == 0 {
        WithoutIs(rn, br, j, {br}, root, G, E);
        BranchGone(rn, br, j, lazy, root, G, E, flags, pack.objects);
        MoreBut({br}, {rn, br}, root, G, E);
        DetachBranch(rn, j, br, {rn, br});
        assert {rn, br} - {br} == {rn};
      } else {
        StepTop(br, root, G, E);
        StepUpdated(lazy, br, root, G, flags, pack.objects);
        MirroredRetree(rn, UpperTree(br, G[br].tree, G), G, E);
        G := Stepped(br, G);
      }
      ghost var U := G;
      CountDeleted(pack, rn, depth);
      AboveOne(rn, G[rn], U);
      AboveTrans(depth, depth, old(G), U, G);
    }

    method DeleteLeafByIndex(pack: Pack, rn: RefsNode, i: nat)
      requires pack.Valid() && Wired({}) && NodesOk({}, pack.objects) && root != null && limbo == {}
      requires Here(rn, 0, degree, G) && i < Len(G[rn].tree) && Kept(flags.lazyUpdating, {}, root, G)
      modifies this`refsIndex, this`G, this`E, G.Keys, pack`objects
      ensures pack.Valid() && old(pack.objects).Keys <= pack.objects.Keys && Wired({rn}) && NodesOk({}, pack.objects)
        && Fresh()
      ensures rn in G && G[rn].inMemory && G[rn].pos == old(G)[rn].pos && AboveSame(0, old(G), G)
      ensures G[rn].tree == DeleteAt(old(G)[rn].tree, i) && Updated(rn) && Kept(flags.lazyUpdating, {rn}, root, G)
    {
      hide Addressed, Flat, FlatAll, WF, HashOf, NodeHashes, Links, Indexes, MirrorAll, EachOk, EachClean, EachMarked,
        HigherSame;
      NodeAt(rn, {}, G, flags, pack.objects);
      LeafsOf(rn, degree, {}, root, G, E);
      LeafGone(rn, i, flags.lazyUpdating, root, G, flags, pack.objects);
      DetachLeaf(rn, i);
      ghost var U := G;
      CountDeleted(pack, rn, 0);
      AboveOne(rn, G[rn], U);
      AboveTrans(0, 0, old(G), U, G);
    }

    /** The branch that holds an element to delete. */
    method FindToDelete(pack: Pack, rn: RefsNode, i: nat, depth: nat) returns (j: nat, rest: nat, br: RefsNode)
      requires pack.Valid() && Wired({}) && NodesOk({}, pack.objects) && root != null
      requires Here(rn, depth, degree, G) && depth > 0 && i < Len(G[rn].tree) && Kept(flags.lazyUpdating, {}, root, G)
      modifies this`refsIndex, this`G, this`E, G.Keys
      ensures Wired({}) && NodesOk({}, pack.objects) && Fresh() && Kept(flags.lazyUpdating, {}, root, G)
        && AboveSame(depth - 1, old(G), G)
      ensures rn in G && G[rn] == old(G)[rn] && G[rn].inMemory && j < |G[rn].branches| && br == G[rn].branches[j]
        && br != root
      ensures rn.height == depth && Here(br, depth - 1, degree, G) && br.upper == rn
      ensures G[rn].tree.Branch? && |G[rn].branches| == |G[rn].tree.kids| && G[br].tree == G[rn].tree.kids[j]
      ensures rest < Len(G[br].tree) && Len(G[br].tree) == Len(DeleteAt(G[br].tree, rest)) + 1
      ensures var k, ks := DeleteAt(G[br].tree, rest), G[rn].tree.kids;
              DeleteAt(G[rn].tree, i) == Branch(if Len(k) == 0 then Without(ks, j) else ks[j := k])
    {
      hide Addressed, Flat, FlatAll, WF, HashOf, NodeHashes, Links, Indexes, MirrorAll, EachOk, EachClean, EachMarked,
        HigherSame, Skip, Locate, Loads, MoreItems, DeleteAt;
      ghost var t := G[rn].tree;
      KidsOf(rn, depth, degree, {}, root, G, E);
      j, rest := FindBranch(pack, rn, i, depth);
      LoadedAt(rn, old(G), G);
      DeleteAtKid(t, i, j, rest);
      DeleteAtIsRemoval(t.kids[j], rest);
      LoadedKept(flags.lazyUpdating, {}, root, old(G), G);
      BranchOf(rn, j, {}, root, G, E);
      MirroredAt(rn, G, E);
      br := rn.branches[j];
    }

    /** Delete the i-th element of a node; the upper node does not know yet. */
    method DeleteElementByIndex(pack: Pack, rn: RefsNode, i: nat, depth: nat)
      requires pack.Valid() && Wired({}) && NodesOk({}, pack.objects) && root != null && limbo == {}
      requires Here(rn, depth, degree, G) && i < Len(G[rn].tree) && Kept(flags.lazyUpdating, {}, root, G)
      modifies this`refsIndex, this`G, this`E, G.Keys, pack`objects
      ensures pack.Valid() && old(pack.objects).Keys <= pack.objects.Keys && Wired({rn}) && NodesOk({}, pack.objects)
        && Fresh()
      ensures rn in G && G[rn].inMemory && G[rn].pos == old(G)[rn].pos && AboveSame(depth, old(G), G)
      ensures G[rn].tree == DeleteAt(old(G)[rn].tree, i) && Updated(rn) && Kept(flags.lazyUpdating, {rn}, root, G)
      decreases depth
    {
      hide Addressed, Flat, FlatAll, WF, HashOf, NodeHashes, Links, Indexes, MirrorAll, EachOk, EachClean, EachMarked,
        HigherSame, Skip, Locate, Loads, MoreItems, DeleteAt;
      if depth == 0 {
        DeleteLeafByIndex(pack, rn, i);
        return;
      }
      var j, rest, br := FindToDelete(pack, rn, i, depth);
      ghost var H := G;
      DeleteElementByIndex(pack, br, rest, depth - 1);
      AboveAt(rn, depth - 1, H, G);
      AboveTrans(depth - 1, depth - 1, old(G), H, G);
      ghost var I := G;
      DropOrKeep(pack, rn, j, br, depth);
      AboveTrans(depth - 1, depth, old(G), I, G);
    }

    /** Running iterators have to find their next element from the root. */
    method RewindIterators()
      modifies this`iterators
      ensures iterators == Rewound(old(iterators))
    {
      if |iterators| > 0 {
        iterators := iterators[|iterators| - 1 := true];
      }
    }

    /** Delete an element and update the Refs. */
    method DeleteFound(pack: Pack, i: nat)
      requires Valid(pack) && i < Len(Tree())
      modifies this`refsIndex, this`G, this`E, this`hash, G.Keys, pack`objects
      ensures Valid(pack) && old(pack.objects).Keys <= pack.objects.Keys && Fresh()
      ensures Tree() == Settled(flags.lazyUpdating, DeleteAt(old(Tree()), i), depth)
      ensures flags.lazyUpdating ==> hash == old(hash)
    {
      hide Addressed, Flat, FlatAll, WF, HashOf, NodeHashes, Links, Indexes, MirrorAll, EachOk, EachClean, EachMarked,
        TopTree, DeleteAt, HigherSame;
      TopIs({}, root, G, E);
      ghost var t := Tree();
      DeleteElementByIndex(pack, root, i, depth);
      TopOnly(root, root, G, E);
      UpdateHashIfNeed(pack, !flags.lazyUpdating);
      DeleteAtShape(t, i, degree, depth);
      BareShape(degree, depth);
    }

    /** Delete the i-th element. */
    method DeleteByIndex(pack: Pack, i: int) returns (err: Err)
      requires Valid(pack)
      modifies this, G.Keys, E.Keys, pack`objects
      ensures Valid(pack) && old(pack.objects).Keys <= pack.objects.Keys && Fresh()
      ensures degree == old(degree) && depth == old(depth) && flags == old(flags)
      ensures err == if 0 <= i < Len(old(Tree())) then Ok else IndexOutOfRange
      ensures Tree() ==
              if 0 <= i < Len(old(Tree())) then Settled(flags.lazyUpdating, DeleteAt(old(Tree()), i), depth)
              else old(Tree())
      ensures iterators == if 0 <= i < Len(old(Tree())) then Rewound(old(iterators)) else old(iterators)
      ensures flags.lazyUpdating ==> hash == old(hash)
    {
      hide Addressed, Flat, FlatAll, WF, HashOf, NodeHashes, Links, Indexes, MirrorAll, EachOk, EachClean, EachMarked,
        DeleteAt, Settled, Rewound;
      NodeAt(root, {}, G, flags, pack.objects);
      TopAt({}, root, G, E);
      MirroredAt(root, G, E);
      if i < 0 || i >= root.length {
        return IndexOutOfRange;
      }
      DeleteFound(pack, i);
      RewindIterators();
      return Ok;
    }

    // ------------------------------------------------------ free space on tail

    /** Whether `fit` more elements fit: the free space on the tail, or enough of it. */
    method FreeSpaceOnTailNode(pack: Pack, rn: RefsNode, depth: nat, fit: int) returns (fsotn: int)
      requires pack.Valid() && Wired({}) && NodesOk({}, pack.objects) && Here(rn, depth, degree, G)
      modifies this`refsIndex, this`G, this`E, G.Keys
      ensures Wired({}) && NodesOk({}, pack.objects) && MoreItems(old(E), E) && LoadedFrom(old(G), G) && Fresh()
      ensures rn in old(G) && WF(old(G)[rn].tree, degree, depth)
        && (fsotn >= fit <==> Free(old(G)[rn].tree, degree, depth) >= fit)
      decreases depth
    {
      hide Addressed, Flat, FlatAll, WF, HashOf, NodeHashes, Links, Indexes, MirrorAll, EachOk, Loads, MoreItems, Pow,
        Cap, Times;
      MirroredAt(rn, G, E);
      NothingLoaded(G, E);
      ghost var t := G[rn].tree;
      if depth == 0 {
        LeafsOf(rn, degree, {}, root, G, E);
        fsotn := degree - |rn.leafs|;
        return;
      }
      KidsOf(rn, depth, degree, {}, root, G, E);
      var p := PowLoop(degree, depth);
      CapIsPow(degree, depth);
      TimesIs(p, degree - |t.kids|);
      fsotn := p * (degree - |rn.branches|);
      if fsotn >= fit {
        return;
      }
      if |rn.branches| == 0 {
        return;
      }
      var last := rn.branches[|rn.branches| - 1];
      BranchOf(rn, |rn.branches| - 1, {}, root, G, E);
      LoadNodeIfNeed(pack, last, depth - 1);
      ghost var H, F := G, E;
      LoadedAt(last, old(G), G);
      var fsotnl := FreeSpaceOnTailNode(pack, last, depth - 1, fit - fsotn);
      LoadedMore(old(G), old(E), H, F, G, E);
      fsotn := fsotn + fsotnl;
    }

    // ---------------------------------------------------------------- append

    /** Bubble the length increasing. */
    method BubbleIncrease(rn: RefsNode, increase: nat, ghost tail: seq<RefsNode>, ghost objects: Objects)
      requires Wired({rn}) && NodesOk({}, objects) && Point(rn, increase, tail, degree, root, G)
      modifies this`G, G.Keys`length
      ensures Wired({}) && NodesOk({}, objects) && root != null && root in G
      ensures |tail| > 0 && Told(tail[..|tail| - 1], increase, old(G), G)
      ensures G[root].tree == old(Whole(tail, root, G))
    {
      hide Addressed, Flat, FlatAll, WF, HashOf, NodeHashes, Links, Indexes, MirrorAll, EachOk, TailNodes, ToldSo,
        Whole, Mirrors;
      ghost var k, n := |tail| - 1, |tail| - 1;
      ghost var G0 := G;
      ToldNone(increase, G);
      assert tail[..k + 1] == tail && tail[k..n] == [];
      TailAbove(tail, k, {rn}, root, G, E);
      var up := rn.upper;
      while up != null
        invariant 0 <= k <= n < |tail| && up == if k > 0 then tail[k - 1] else null
        invariant Wired({tail[k]}) && NodesOk({}, objects) && G.Keys == G0.Keys
        invariant tail[k] in G && Tail(tail[..k + 1], root, G) && Lag(tail[k], increase, root, G)
        invariant Whole(tail[..k + 1], root, G) == old(Whole(tail, root, G)) && Told(tail[k..n], increase, G0, G)
        decreases k
      {
        TailSlices(tail, k, n, root, G0);
        ghost var H := G;
        IncreaseUpper(tail[k], up, increase, tail[..k + 1], objects);
        ToldMore(up, G[up], tail[k..n], increase, G0, H);
        k := k - 1;
        TailAbove(tail[..k + 1], k, {up}, root, G, E);
        up := up.upper;
      }
      WholeOne(tail[..1], root, G);
      TailAbove(tail[..1], 0, {root}, root, G, E);
      TopOnly(root, root, G, E);
      assert tail[0..n] == tail[..n];
    }

    /** The node above the last tail node is told about `increase` elements more. */
    method IncreaseUpper(ghost m: RefsNode, up: RefsNode, increase: nat, ghost tail: seq<RefsNode>,
            ghost objects: Objects)
      requires Wired({m}) && NodesOk({}, objects) && root != null && |tail| > 1 && Tail(tail, root, G)
      requires tail[|tail| - 1] == m && tail[|tail| - 2] == up && m in G && Lag(m, increase, root, G)
      modifies this`G, up`length
      ensures Wired({up}) && NodesOk({}, objects) && up in old(G) && up in G && G.Keys == old(G).Keys
      ensures Tail(tail[..|tail| - 1], root, G) && Lag(up, increase, root, G)
      ensures Whole(tail[..|tail| - 1], root, G) == old(Whole(tail, root, G))
      ensures Len(G[up].tree) == Len(old(G)[up].tree) + increase
      ensures G == old(G)[up := old(G)[up].(tree := G[up].tree, stale := true, length := old(G)[up].length + increase)]
    {
      hide Addressed, Flat, FlatAll, WF, HashOf, NodeHashes, Links, Indexes, MirrorAll, EachOk, TailNodes, Whole,
        Mirrors;
      RaiseStep(tail, increase, root, G, E, flags, objects);
      ghost var V := RaisedStep(m, increase, G);
      MirroredRetree(up, UpperTree(m, G[m].tree, G), G, E);
      G := Stepped(m, G);
      MirroredAt(up, G, E);
      SetLength(up, up.length + increase, {up});
      assert G == V;
    }

    /** Let the whole tail know the tree of its last node, which has as many elements as before. */
    ghost method TellTail(tail: seq<RefsNode>, objects: Objects)
      requires |tail| > 0 && root != null && Wired({tail[|tail| - 1]}) && NodesOk({}, objects) && Tail(tail, root, G)
      requires tail[|tail| - 1] in G && Lag(tail[|tail| - 1], 0, root, G)
      modifies this`G
      ensures Wired({}) && NodesOk({}, objects) && Told(tail[..|tail| - 1], 0, old(G), G)
      ensures root in G && G[root].tree == old(Whole(tail, root, G))
      decreases |tail|
    {
      hide Addressed, Flat, FlatAll, WF, HashOf, NodeHashes, Links, Indexes, MirrorAll, EachOk, TailNodes, ToldSo,
        Whole, Mirrors;
      var k := |tail| - 1;
      var m := tail[k];
      TailAbove(tail, k, {m}, root, G, E);
      if k == 0 {
        WholeOne(tail, root, G);
        TopOnly(root, root, G, E);
        ToldNone(0, G);
        return;
      }
      RaiseStep(tail, 0, root, G, E, flags, objects);
      TailSlices(tail, k, k, root, G);
      TailDistinct(tail[..k], k - 1, root, Stepped(m, G));
      var u, V := tail[k - 1], RaisedStep(m, 0, G);
      assert V == Stepped(m, G);
      MirroredRetree(u, UpperTree(m, G[m].tree, G), G, E);
      G := V;
      TellTail(tail[..k], objects);
      assert tail[..k][..k - 1] + [u] == tail[..k];
      assert tail[..k][..k - 1] == tail[..k - 1];
      ToldLast(u, V[u], tail[..k - 1], 0, old(G), G);
    }

    /** A new branch, marked as loaded, after the last one of `upper`. */
    method GrowBranch(upper: RefsNode, mod: bool, loaded: bool, ghost tail: seq<RefsNode>) returns (br: RefsNode)
      requires Wired({}) && root != null && |tail| > 0 && Tail(tail, root, G)
      requires tail[|tail| - 1] == upper && upper in G && upper.height > 0 && G[upper].tree.Branch?
      modifies this`G, upper`branches, upper`contentMod
      ensures Wired({upper}) && fresh(br) && br !in old(G) && br.height == upper.height - 1 && br.upper == upper
      ensures G == Grown(upper, br, mod, loaded, old(G))
    {
      hide Addressed, Flat, FlatAll, WF, HashOf, NodeHashes, Links, Indexes, MirrorAll, TailNodes;
      br := new RefsNode(Blank, upper, upper.height - 1);
      br.loaded := loaded;
      br.contentMod := mod;
      GrownLinks(tail, br, mod, loaded, root, G, E);
      MoreBut({}, {upper}, root, G, E);
      TailAt(tail, |tail| - 1, root, G);
      AttachBranch(br, Made(br.height, mod, loaded), {upper});
      if mod {
        SetMod(upper, true, {upper});
      }
      MirroredRetree(upper, G[upper].tree, G, E);
      GrownSame(upper, br, mod, loaded, old(G), G);
      G := Grown(upper, br, mod, loaded, old(G));
    }

    /** A new branch for the last tail node, which all of the tail knows. */
    method NewBranch(pack: Pack, upper: RefsNode, mod: bool, ghost tail: seq<RefsNode>, ghost s: Standing)
      returns (br: RefsNode)
      requires Wired({}) && NodesOk({}, pack.objects) && root != null && |tail| > 0 && Tail(tail, root, G)
      requires tail[|tail| - 1] == upper && upper in G && upper.height > 0 && G[upper].tree.Branch?
        && Stands(s, tail, root, G)
      modifies this`G, upper`branches, upper`contentMod
      ensures Wired({}) && NodesOk({}, pack.objects) && fresh(br) && br in G && br !in old(G) && Fresh()
      ensures br.height == upper.height - 1 && br.upper == upper && G[br].inMemory && G[br].tree == Empty(br.height)
      ensures Tail(tail + [br], root, G) && Stands(s, tail + [br], root, G)
      ensures root in old(G) && root in G && G[root].tree == AddEmpty(old(G)[root].tree, |tail| - 1, br.height)
    {
      hide Addressed, Flat, FlatAll, WF, HashOf, NodeHashes, Links, Indexes, MirrorAll, EachOk, TailNodes, ToldSo,
        Whole, StandsSo, AddEmpty;
      TopAt({}, root, G, E);
      br := GrowBranch(upper, mod, true, tail);
      ghost var G0, V := old(G), G;
      TailAt(tail, |tail| - 1, root, G0);
      GrownLinks(tail, br, mod, true, root, G0, E);
      GrownTree(tail, br, mod, true, root, G0, E);
      GrownOk(upper, br, mod, G0, flags, pack.objects);
      GrownStands(s, tail, br, mod, true, root, G0);
      NotInTail(tail, br, root, G0);
      TellTail(tail, pack.objects);
      AfterTelling(tail, br, s, root, V, G);
    }

    /** Append to the leafs of the last tail node, which is not full. */
    method AppendLeaf(rn: RefsNode, x: Hash, ghost increase: nat, ghost tail: seq<RefsNode>, ghost s: Standing,
            ghost objects: Objects)
      requires Wired(Lagging(rn, increase)) && NodesOk({}, objects) && Point(rn, increase, tail, degree, root, G)
      requires root != null && rn in G && rn.height == 0 && G[rn].tree.Leaf? && |G[rn].tree.es| < degree
      requires Stands(s, tail, root, G) && degree >= 1 && root.height == depth
      modifies this`refsIndex, this`G, this`E, rn`leafs, rn`length
      ensures Wired({rn}) && NodesOk({}, objects) && root != null && Point(rn, increase + 1, tail, degree, root, G)
        && Fresh()
      ensures Stands(s, tail, root, G) && G.Keys == old(G).Keys
      ensures WF(old(Whole(tail, root, G)), degree, depth) && Free(old(Whole(tail, root, G)), degree, depth) > 0
      ensures Whole(tail, root, G) == AppendOne(old(Whole(tail, root, G)), degree, depth, x)
    {
      hide Addressed, Flat, FlatAll, WF, HashOf, NodeHashes, Links, Indexes, MirrorAll, EachOk, TailNodes, Whole,
        StandsSo, Free, AppendOne;
      MoreBut(Lagging(rn, increase), {rn}, root, G, E);
      PointInMemory(rn, increase, tail, degree, root, G);
      var el := new RefsElement(x, rn);
      LeafedPoint(increase, tail, el, x, degree, root, G, E, s, flags, objects);
      CountLeaf(rn, el, x);
    }

    /** Attach a leaf, and count it. */
    method CountLeaf(rn: RefsNode, el: RefsElement, ghost x: Hash)
      requires Wired({rn}) && root != null && rn in G && rn.height == 0 && G[rn].inMemory && G[rn].tree.Leaf?
      requires el !in E && el.upper == rn && el.hash == x
      modifies this`refsIndex, this`G, this`E, rn`leafs, rn`length
      ensures Wired({rn}) && G == Leafed(rn, el, x, old(G)) && el in E && E == old(E)[el := E[el]]
    {
      hide Addressed, Flat, FlatAll, WF, HashOf, NodeHashes, Links, Indexes, MirrorAll, EachOk;
      LeafedSame(rn, el, x, G);
      AttachLeaf(el, {rn});
      MirroredAt(rn, G, E);
      SetLength(rn, rn.length + 1, {rn});
      MirroredRetree(rn, G[rn].tree, G, E);
      StaleLinks(rn, {rn}, root, G, E);
      G := Leafed(rn, el, x, old(G));
    }

    /** The next element can be appended here: links hold but for the last increase, and hashes stand as they should. */
    ghost predicate AtPoint(rn: RefsNode, increase: nat, tail: seq<RefsNode>, objects: Objects)
      reads `root, `depth, `degree, `flags, `refsIndex, `limbo, `G, `E, G.Keys, E.Keys
    {
      Wired(Lagging(rn, increase)) && NodesOk({}, objects) && root != null && root.height == depth
      && Point(rn, increase, tail, degree, root, G)
    }

    /** Tell the nodes above a node what has been appended to it. */
    method BubbleIfNeed(rn: RefsNode, increase: nat, ghost tail: seq<RefsNode>, ghost s: Standing, ghost dirty: bool,
            ghost objects: Objects)
      requires AtPoint(rn, increase, tail, objects) && |tail| > 1 && rn in G
      requires Stands(s, tail[..|tail| - 1], root, G) && Soiled(s, dirty, increase, tail, root, G)
        && (increase > 0 ==> dirty)
      modifies this`G, G.Keys`length
      ensures Wired({}) && NodesOk({}, objects) && root in G && G.Keys == old(G).Keys && rn in G && G[rn] == old(G)[rn]
      ensures G[root].tree == old(Whole(tail, root, G)) && Tail(tail, root, G)
      ensures Stands(s, tail[..|tail| - 1], root, G) && Above(s, dirty, tail[..|tail| - 1], root, G)
    {
      hide Addressed, Flat, FlatAll, WF, HashOf, NodeHashes, Links, Indexes, MirrorAll, EachOk, TailNodes, ToldSo,
        Whole, StandsSo, SoiledSo, AboveSo, Free, AppendOne, FreeTwo, PointAt;
      ghost var k := |tail| - 1;
      PointInMemory(rn, increase, tail, degree, root, G);
      TailDistinct(tail, k, root, G);
      if increase > 0 {
        BubbleIncrease(rn, increase, tail, objects);
        ToldTail(tail[..k], increase, tail, root, old(G), G);
        ToldAt(rn, tail[..k], increase, old(G), G);
        ToldKeys(tail[..k], increase, old(G), G);
      } else {
        WholeTop(tail, root, G, E);
      }
      AboveTold(s, dirty, increase, tail, root, old(G), G);
    }

    /** Leave a full node behind; its hash is updated only if elements have just been appended below it. */
    method PassFull(pack: Pack, u: RefsNode, d: nat, increase: nat, ghost ups: seq<RefsNode>, ghost s0: Standing,
            ghost dirty: bool)
      returns (ghost s: Standing)
      requires pack.Valid() && Wired({}) && NodesOk({}, pack.objects) && root != null && |ups| > 1 && Tail(ups, root, G)
        && ups[|ups| - 1] == u
      requires u in G && u.height == d && root in G && Stands(s0, ups, root, G) && Above(s0, dirty, ups, root, G)
        && (increase > 0 ==> dirty)
      modifies this`G, u`hash, u`contentMod, pack`objects
      ensures pack.Valid() && old(pack.objects).Keys <= pack.objects.Keys && Wired({}) && NodesOk({}, pack.objects)
      ensures Tail(ups, root, G) && root in G && G.Keys == old(G).Keys && G[root].tree == old(G)[root].tree
        && G[u].tree == old(G)[u].tree
      ensures Stands(s, ups[..|ups| - 1], root, G) && Soiled(s, dirty, 0, ups, root, G)
      ensures s == if increase == 0 && s0 == Actual && dirty then Missed else s0
    {
      hide Addressed, Flat, FlatAll, WF, HashOf, NodeHashes, Links, Indexes, MirrorAll, EachOk, TailNodes, ToldSo,
        Whole, StandsSo, SoiledSo, AboveSo, Free, AppendOne, FreeTwo, PointAt;
      TailAt(ups, |ups| - 1, root, G);
      TailAbove(ups, |ups| - 1, {}, root, G, E);
      if increase == 0 {
        AbovePass(s0, dirty, ups, root, G, E);
        s := if s0 == Actual && dirty then Missed else s0;
        return;
      }
      if s0 == Actual {
        KidsActual(ups, {}, root, G, E);
      }
      NodeAt(u, {}, G, flags, pack.objects);
      Refresh(pack, u, d, {});
      AboveRefreshed(s0, ups, G[u], root, old(G));
      TailSaved(ups, u, G[u], root, old(G));
      s := s0;
    }

    /** Leave a full node for the one above it, which gets to know what has been appended. */
    method LeaveNode(pack: Pack, rn0: RefsNode, depth0: nat, increase0: nat, ghost tail0: seq<RefsNode>,
            ghost s0: Standing, ghost dirty: bool)
      returns (u: RefsNode, ghost ups: seq<RefsNode>)
      requires ValidDegree(degree) && AtPoint(rn0, increase0, tail0, pack.objects) && rn0.height == depth0 && rn0 in G
      requires WF(G[rn0].tree, degree, depth0) && Free(G[rn0].tree, degree, depth0) == 0
      requires WF(Whole(tail0, root, G), degree, depth) && Free(Whole(tail0, root, G), degree, depth) > 0
      requires |tail0| > 1 ==> Stands(s0, tail0[..|tail0| - 1], root, G) && Soiled(s0, dirty, increase0, tail0, root, G)
      requires increase0 > 0 ==> dirty
      modifies this`G, G.Keys`length
      ensures AtPoint(u, 0, ups, pack.objects) && u in G && u.height == depth0 + 1 && root in G
        && WF(G[root].tree, degree, depth) && G.Keys == old(G).Keys
      ensures G[root].tree == old(Whole(tail0, root, G)) && |ups| > 0 && ups[|ups| - 1] == u && Tail(ups, root, G)
      ensures Stands(s0, ups, root, G) && Above(s0, dirty, ups, root, G)
      ensures WF(G[u].tree, degree, u.height) && FreeLast(G[u].tree, degree, u.height) == 0
        && u.branches == G[u].branches && |G[u].branches| <= degree
      ensures if |G[u].branches| == degree then Free(G[u].tree, degree, u.height) == 0 && |ups| > 1
              else Free(G[u].tree, degree, u.height) > 0
      ensures u.height <= 2 && |G[u].branches| < degree ==> After(s0, dirty, G[root].tree, degree, depth) == s0
      ensures u.height == 2 && depth >= 3 && |G[u].branches| == degree && dirty && s0 == Actual ==>
              After(s0, dirty, G[root].tree, degree, depth) == Missed
    {
      hide Addressed, Flat, FlatAll, WF, HashOf, NodeHashes, Links, Indexes, MirrorAll, EachOk, TailNodes, ToldSo,
        Whole, StandsSo, SoiledSo, AboveSo, Free, AppendOne, FreeTwo, PointAt;
      PointInMemory(rn0, increase0, tail0, degree, root, G);
      ghost var k, w := |tail0| - 1, Whole(tail0, root, G);
      TailAbove(tail0, k, Lagging(rn0, increase0), root, G, E);
      WholeOne(tail0, root, G);
      if rn0.upper == null {
        assert false;
      }
      BubbleIfNeed(rn0, increase0, tail0, s0, dirty, pack.objects);
      AboveFull(tail0, degree, root, G, E);
      u, ups := rn0.upper, tail0[..k];
      PointTop(u, ups, degree, root, G, E);
      MirroredAt(u, G, E);
      AfterGoingUp(s0, dirty, k - 1, u, w, degree, depth, root, G);
    }

    /** Go up from a full node to the first one with room for a branch. */
    method AppendNodeGoUp(pack: Pack, rn0: RefsNode, depth0: nat, increase0: nat, x: Hash,
                          ghost tail0: seq<RefsNode>, ghost s0: Standing, ghost dirty: bool)
      returns (rn: RefsNode, d: nat, increase: nat, ghost tail: seq<RefsNode>, ghost s: Standing)
      requires pack.Valid() && ValidDegree(degree) && AtPoint(rn0, increase0, tail0, pack.objects)
        && rn0.height == depth0 && rn0 in G
      requires WF(G[rn0].tree, degree, depth0) && Free(G[rn0].tree, degree, depth0) == 0
      requires WF(Whole(tail0, root, G), degree, depth) && Free(Whole(tail0, root, G), degree, depth) > 0
      requires |tail0| > 1 ==> Stands(s0, tail0[..|tail0| - 1], root, G) && Soiled(s0, dirty, increase0, tail0, root, G)
      requires increase0 > 0 ==> dirty && depth0 == 0
      requires dirty && s0 == Actual ==> depth0 <= 1 && (depth0 == 1 <==> increase0 == 0)
      modifies this`refsIndex, this`G, this`E, G.Keys, pack`objects
      ensures pack.Valid() && old(pack.objects).Keys <= pack.objects.Keys && Fresh()
      ensures AtPoint(rn, increase, tail, pack.objects) && rn.height == d == 0 && increase > 0
      ensures Whole(tail, root, G) == AppendOne(old(Whole(tail0, root, G)), degree, depth, x)
      ensures Stands(s, tail, root, G) && s == After(s0, dirty, old(Whole(tail0, root, G)), degree, depth)
      decreases 1, depth - depth0, 0
    {
      hide Addressed, Flat, FlatAll, WF, HashOf, NodeHashes, Links, Indexes, MirrorAll, EachOk, TailNodes, ToldSo,
        Whole, StandsSo, SoiledSo, AboveSo, Free, AppendOne, FreeTwo, PointAt;
      ghost var ups;
      var u;
      u, ups := LeaveNode(pack, rn0, depth0, increase0, tail0, s0, dirty);
      if |u.branches| == degree {
        ghost var s1 := PassFull(pack, u, depth0 + 1, increase0, ups, s0, dirty);
        PointTop(u, ups, degree, root, G, E);
        rn, d, increase, tail, s := AppendNodeGoUp(pack, u, depth0 + 1, 0, x, ups, s1, dirty);
        return;
      }
      rn, d, increase, tail, s := AppendInNewBranch(pack, u, depth0 + 1, true, x, ups, s0);
    }

    /** Make a branch and append the element there. */
    method AppendInNewBranch(pack: Pack, u: RefsNode, depth0: nat, mod: bool, x: Hash, ghost ups: seq<RefsNode>,
            ghost s0: Standing)
      returns (rn: RefsNode, d: nat, increase: nat, ghost tail: seq<RefsNode>, ghost s: Standing)
      requires pack.Valid() && ValidDegree(degree) && AtPoint(u, 0, ups, pack.objects) && u in G && root in G
        && u.height == depth0 > 0
      requires WF(G[root].tree, degree, depth) && WF(G[u].tree, degree, u.height)
      requires Free(G[u].tree, degree, u.height) > 0 && FreeLast(G[u].tree, degree, u.height) == 0
        && Stands(s0, ups, root, G)
      modifies this`refsIndex, this`G, this`E, G.Keys, pack`objects
      ensures pack.Valid() && old(pack.objects).Keys <= pack.objects.Keys && Fresh()
      ensures AtPoint(rn, increase, tail, pack.objects) && rn.height == d == 0 && increase > 0
      ensures WF(old(Tree()), degree, depth) && Whole(tail, root, G) == AppendOne(old(Tree()), degree, depth, x)
      ensures Stands(s, tail, root, G) && s == s0
      decreases 0, depth0, 0
    {
      hide Addressed, Flat, FlatAll, WF, HashOf, NodeHashes, Links, Indexes, MirrorAll, EachOk, TailNodes, ToldSo,
        Whole, StandsSo, SoiledSo, AboveSo, Free, AppendOne, FreeTwo, PointAt;
      PointInMemory(u, 0, ups, degree, root, G);
      ghost var k, w := |ups| - 1, G[root].tree;
      PointTop(u, ups, degree, root, G, E);
      KidsShape(G[u].tree, degree, u.height);
      var br := NewBranch(pack, u, mod, ups, s0);
      AppendEmpty(w, degree, depth, k, x);
      PointTop(br, ups + [br], degree, root, G, E);
      rn, d, increase, tail, s := AppendNode(pack, br, depth0 - 1, 0, x, ups + [br], s0, false, true);
    }

    /** Append one element to the leafs of the last tail node, or go up. */
    method AppendAtLeafs(pack: Pack, rn0: RefsNode, increase0: nat, x: Hash,
                         ghost tail0: seq<RefsNode>, ghost s0: Standing, ghost dirty: bool, ghost made: bool)
      returns (rn: RefsNode, d: nat, increase: nat, ghost tail: seq<RefsNode>, ghost s: Standing)
      requires pack.Valid() && ValidDegree(degree) && AtPoint(rn0, increase0, tail0, pack.objects) && rn0.height == 0
        && rn0 in G
      requires WF(Whole(tail0, root, G), degree, depth) && Free(Whole(tail0, root, G), degree, depth) > 0
      requires Stands(s0, tail0, root, G) && (made ==> increase0 == 0 && G[rn0].tree == Empty(0))
      requires !made ==> (dirty <==> increase0 > 0) && (!dirty ==> Soiled(s0, dirty, increase0, tail0, root, G))
      modifies this`refsIndex, this`G, this`E, G.Keys, pack`objects
      ensures pack.Valid() && old(pack.objects).Keys <= pack.objects.Keys && Fresh()
      ensures AtPoint(rn, increase, tail, pack.objects) && rn.height == d == 0 && increase > 0
      ensures Whole(tail, root, G) == AppendOne(old(Whole(tail0, root, G)), degree, depth, x)
      ensures Stands(s, tail, root, G)
        && s == if made then s0 else After(s0, dirty, old(Whole(tail0, root, G)), degree, depth)
      decreases if made then 0 else 2, 0, 0
    {
      hide Addressed, Flat, FlatAll, WF, HashOf, NodeHashes, Links, Indexes, MirrorAll, EachOk, TailNodes, ToldSo,
        Whole, StandsSo, SoiledSo, AboveSo, Free, AppendOne, FreeTwo, PointAt;
      ghost var w := Whole(tail0, root, G);
      PointInMemory(rn0, increase0, tail0, degree, root, G);
      WholeAppend(tail0, Lagging(rn0, increase0), degree, x, root, G, E);
      LeafsOf(rn0, degree, Lagging(rn0, increase0), root, G, E);
      LeafRoom(rn0, w, |tail0| - 1, s0, dirty, degree, depth, root, G);
      MirroredAt(rn0, G, E);
      if |rn0.leafs| == degree {
        RefreshLeafs(pack, rn0, increase0, tail0, s0, dirty);
        rn, d, increase, tail, s := AppendNodeGoUp(pack, rn0, 0, increase0, x, tail0, s0, dirty);
        return;
      }
      AppendLeaf(rn0, x, increase0, tail0, s0, pack.objects);
      rn, d, increase, tail, s := rn0, 0, increase0 + 1, tail0, s0;
    }

    /** Make the hash of a full node actual before leaving it. */
    method RefreshLeafs(pack: Pack, rn: RefsNode, increase: nat, ghost tail: seq<RefsNode>, ghost s: Standing,
            ghost dirty: bool)
      requires pack.Valid() && AtPoint(rn, increase, tail, pack.objects) && rn.height == 0 && rn in G && |tail| > 1
      requires Stands(s, tail, root, G) && (dirty <==> increase > 0)
        && (!dirty ==> Soiled(s, dirty, increase, tail, root, G))
      modifies this`G, rn`hash, rn`contentMod, pack`objects
      ensures pack.Valid() && old(pack.objects).Keys <= pack.objects.Keys && AtPoint(rn, increase, tail, pack.objects)
      ensures rn in G && G.Keys == old(G).Keys && G[rn].tree == old(G)[rn].tree
        && Whole(tail, root, G) == old(Whole(tail, root, G))
      ensures Stands(s, tail[..|tail| - 1], root, G) && Soiled(s, dirty, increase, tail, root, G)
    {
      hide Addressed, Flat, FlatAll, WF, HashOf, NodeHashes, Links, Indexes, MirrorAll, EachOk, TailNodes, ToldSo,
        Whole, StandsSo, SoiledSo, AboveSo, Free, AppendOne, FreeTwo, PointAt;
      PointInMemory(rn, increase, tail, degree, root, G);
      TailAbove(tail, |tail| - 1, Lagging(rn, increase), root, G, E);
      LeafsBare(rn, Lagging(rn, increase), root, G, E);
      NodeAt(rn, {}, G, flags, pack.objects);
      Refresh(pack, rn, 0, Lagging(rn, increase));
      PointSaved(rn, G[rn], increase, tail, s, dirty, degree, root, old(G));
    }

    /** One step down the tail, loading the node there. */
    method StepDown(pack: Pack, rn: RefsNode, d: nat, ghost tail: seq<RefsNode>, ghost s: Standing)
      returns (br: RefsNode)
      requires pack.Valid() && AtPoint(rn, 0, tail, pack.objects) && rn in G && rn.height == d > 0
        && G[rn].branches != []
      requires root in G && WF(G[root].tree, degree, depth) && Stands(s, tail, root, G) && s != Missed
        && Soiled(s, false, 0, tail, root, G)
      modifies this`refsIndex, this`G, this`E, G.Keys
      ensures AtPoint(br, 0, tail + [br], pack.objects) && br in G && br.height == d - 1 && Fresh()
      ensures LoadedFrom(old(G), G) && MoreItems(old(E), E) && root in G && G[root].tree == old(G)[root].tree
      ensures Stands(s, tail + [br], root, G) && Soiled(s, false, 0, tail + [br], root, G)
    {
      hide Addressed, Flat, FlatAll, WF, HashOf, NodeHashes, Links, Indexes, MirrorAll, EachOk, TailNodes, ToldSo,
        Whole, StandsSo, SoiledSo, AboveSo, Free, AppendOne, FreeTwo, PointAt, Loads, MoreItems, Adds;
      PointInMemory(rn, 0, tail, degree, root, G);
      PointTop(rn, tail, degree, root, G, E);
      KidsOf(rn, d, degree, {}, root, G, E);
      MirroredAt(rn, G, E);
      ghost var j := |G[rn].branches| - 1;
      BranchOf(rn, j, {}, root, G, E);
      br := rn.branches[|rn.branches| - 1];
      LoadNodeIfNeed(pack, br, d - 1);
      LoadedTail(tail, br, s, root, old(G), G, flags, pack.objects);
      LoadedAt(root, old(G), G);
      PointTop(br, tail + [br], degree, root, G, E);
    }

    /** Down the tail to the leafs, or to a node without branches. */
    method WalkDown(pack: Pack, rn0: RefsNode, depth0: nat, ghost tail0: seq<RefsNode>, ghost s: Standing)
      returns (rn: RefsNode, d: nat, ghost tail: seq<RefsNode>)
      requires pack.Valid() && AtPoint(rn0, 0, tail0, pack.objects) && rn0 in G && rn0.height == depth0 && root in G
      requires WF(G[root].tree, degree, depth) && Stands(s, tail0, root, G) && s != Missed
        && Soiled(s, false, 0, tail0, root, G)
      modifies this`refsIndex, this`G, this`E, G.Keys
      ensures AtPoint(rn, 0, tail, pack.objects) && rn in G && rn.height == d && Fresh()
      ensures d > 0 ==> G[rn].branches == []
      ensures root in G && G[root].tree == old(G)[root].tree && Stands(s, tail, root, G)
        && Soiled(s, false, 0, tail, root, G)
    {
      hide Addressed, Flat, FlatAll, WF, HashOf, NodeHashes, Links, Indexes, MirrorAll, EachOk, TailNodes, ToldSo,
        Whole, StandsSo, SoiledSo, AboveSo, Free, AppendOne, FreeTwo, PointAt, Loads, MoreItems, Adds;
      rn, d, tail := rn0, depth0, tail0;
      ghost var w := G[root].tree;
      while d > 0
        invariant pack.Valid() && AtPoint(rn, 0, tail, pack.objects) && rn in G && rn.height == d && Fresh()
        invariant root in G && G[root].tree == w && Stands(s, tail, root, G) && Soiled(s, false, 0, tail, root, G)
      {
        MirroredAt(rn, G, E);
        if |rn.branches| == 0 {
          return;
        }
        rn := StepDown(pack, rn, d, tail, s);
        tail, d := tail + [rn], d - 1;
      }
    }

    /** Append one element. */
    method AppendNode(pack: Pack, rn0: RefsNode, depth0: nat, increase0: nat, x: Hash,
                      ghost tail0: seq<RefsNode>, ghost s0: Standing, ghost dirty: bool, ghost made: bool)
      returns (rn: RefsNode, d: nat, increase: nat, ghost tail: seq<RefsNode>, ghost s: Standing)
      requires pack.Valid() && ValidDegree(degree) && AtPoint(rn0, increase0, tail0, pack.objects)
        && rn0.height == depth0 && rn0 in G
      requires WF(Whole(tail0, root, G), degree, depth) && Free(Whole(tail0, root, G), degree, depth) > 0
      requires Stands(s0, tail0, root, G) && (!made && depth0 > 0 ==> s0 != Missed && increase0 == 0)
      requires made ==> increase0 == 0 && G[rn0].tree == Empty(depth0)
      requires !made ==> (dirty <==> increase0 > 0) && (!dirty ==> Soiled(s0, dirty, increase0, tail0, root, G))
      modifies this`refsIndex, this`G, this`E, G.Keys, pack`objects
      ensures pack.Valid() && old(pack.objects).Keys <= pack.objects.Keys && Fresh()
      ensures AtPoint(rn, increase, tail, pack.objects) && rn.height == d == 0 && increase > 0
      ensures Whole(tail, root, G) == AppendOne(old(Whole(tail0, root, G)), degree, depth, x)
      ensures Stands(s, tail, root, G)
        && s == if made then s0 else After(s0, dirty, old(Whole(tail0, root, G)), degree, depth)
      decreases if made then 0 else 2, depth0, 1
    {
      hide Addressed, Flat, FlatAll, WF, HashOf, NodeHashes, Links, Indexes, MirrorAll, EachOk, TailNodes, ToldSo,
        Whole, StandsSo, SoiledSo, AboveSo, Free, AppendOne, FreeTwo, PointAt, Loads, MoreItems, Adds;
      PointInMemory(rn0, increase0, tail0, degree, root, G);
      if depth0 == 0 {
        rn, d, increase, tail, s := AppendAtLeafs(pack, rn0, increase0, x, tail0, s0, dirty, made);
        return;
      }
      WholeTop(tail0, root, G, E);
      ghost var w := G[root].tree;
      rn, d, tail := rn0, depth0, tail0;
      MadeBare(rn0, depth0, made, root, G, E);
      MirroredAt(rn0, G, E);
      if |rn0.branches| > 0 {
        rn, d, tail := WalkDown(pack, rn0, depth0, tail0, s0);
      }
      PointInMemory(rn, 0, tail, degree, root, G);
      PointTop(rn, tail, degree, root, G, E);
      if d > 0 {
        KidsOf(rn, d, degree, {}, root, G, E);
        NoBranches(G[rn].tree, degree, d);
        rn, d, increase, tail, s := AppendInNewBranch(pack, rn, d, false, x, tail, s0);
        return;
      }
      rn, d, increase, tail, s := AppendAtLeafs(pack, rn, 0, x, tail, s0, false, false);
    }

    /** Update a tail node and tell the node above it. */
    method FiniStep(pack: Pack, m: RefsNode, d: nat, increase: nat, ghost tail: seq<RefsNode>, ghost s: Standing)
      requires pack.Valid() && root != null && |tail| > 1 && tail[|tail| - 1] == m && m in G && m.height == d
        && Tail(tail, root, G)
      requires Wired({m}) && NodesOk({}, pack.objects) && Lag(m, increase, root, G) && Stands(s, tail, root, G)
      modifies this`G, m`hash, m`contentMod, pack`objects
      ensures pack.Valid() && old(pack.objects).Keys <= pack.objects.Keys && G.Keys == old(G).Keys
      ensures var u := tail[|tail| - 2];
              u in G && m.upper == u && u.height == d + 1 && Wired({u}) && NodesOk({u}, pack.objects)
              && Tail(tail[..|tail| - 1], root, G)
              && NodeOk(G[u].(length := G[u].length + increase), flags, pack.objects) && Lag(u, increase, root, G)
              && Whole(tail[..|tail| - 1], root, G) == old(Whole(tail, root, G))
              && Stands(s, tail[..|tail| - 1], root, G)
    {
      hide Addressed, Flat, FlatAll, WF, HashOf, NodeHashes, Links, Indexes, MirrorAll, EachOk, EachClean, TailNodes,
        Whole, StandsSo, PointAt;
      TailAt(tail, |tail| - 1, root, G);
      TailAbove(tail, |tail| - 1, {m}, root, G, E);
      if s == Actual {
        KidsActual(tail, {m}, root, G, E);
      }
      KidsNotSelf(m, root, G, E);
      Refresh(pack, m, d, {m});
      TailSaved(tail, m, G[m], root, old(G));
      StandsSoon(s, tail, m, G[m], root, old(G));
      LagSaved(m, G[m], increase, root, old(G), E);
      RaiseStep(tail, increase, root, G, E, flags, pack.objects);
      StandsPop(s, tail, root, G);
      StepStands(s, tail[..|tail| - 1], m, increase, root, G, flags, pack.objects);
      MirroredRetree(m.upper, UpperTree(m, G[m].tree, G), G, E);
      G := Stepped(m, G);
    }

    /** Let a tail node above the leafs count what has been appended. */
    method AddLength(pack: Pack, rn: RefsNode, d: nat, increase: nat, ghost tail: seq<RefsNode>, ghost s: Standing)
      requires root != null && |tail| > 0 && tail[|tail| - 1] == rn && rn in G && rn.height == d && Tail(tail, root, G)
      requires Wired({rn}) && NodesOk({rn}, pack.objects) && Lag(rn, increase, root, G) && Stands(s, tail, root, G)
      requires NodeOk(G[rn].(length := G[rn].length + if d > 0 then increase else 0), flags, pack.objects)
      modifies this`G, rn`length
      ensures Wired({rn}) && NodesOk({}, pack.objects) && Lag(rn, increase, root, G) && Tail(tail, root, G)
        && Stands(s, tail, root, G)
      ensures rn in G && Whole(tail, root, G) == old(Whole(tail, root, G)) && G.Keys == old(G).Keys
    {
      hide Addressed, Flat, FlatAll, WF, HashOf, NodeHashes, Links, Indexes, MirrorAll, EachOk, EachClean, TailNodes,
        Whole, StandsSo, PointAt;
      MirroredAt(rn, G, E);
      ghost var c := G[rn].(length := G[rn].length + if d > 0 then increase else 0);
      if d > 0 {
        SetLength(rn, rn.length + increase, {rn});
      }
      assert G == old(G)[rn := c];
      OneOk(rn, c, {}, {rn}, old(G), flags, pack.objects);
      TailRaised(tail, rn, c, root, old(G));
      LagSaved(rn, c, increase, root, old(G), E);
      if s != Unknown {
        NotAheadAt(s, rn, tail, root, old(G));
      }
      StandsSoon(s, tail, rn, c, root, old(G));
    }

    /** The root has no hash of its own: it is just not marked any more. */
    method SaveTop(pack: Pack, ghost s: Standing)
      requires Wired({}) && NodesOk({}, pack.objects) && root != null && root in G && Stands(s, [root], root, G)
      modifies this`G, root`contentMod
      ensures Wired({}) && NodesOk({}, pack.objects) && root in G && G == old(G)[root := old(G)[root].(mod := false)]
        && Stands(s, [root], root, G)
    {
      hide Addressed, Flat, FlatAll, WF, HashOf, NodeHashes, Links, Indexes, MirrorAll, EachOk, EachClean, TailNodes,
        Whole, StandsSo, PointAt;
      NodeAt(root, {}, G, flags, pack.objects);
      TopIs({}, root, G, E);
      SetMod(root, false, {});
      OneOk(root, G[root], {}, {}, old(G), flags, pack.objects);
      StandsSoon(s, [root], root, G[root], root, old(G));
    }

    /** Finish one tail node, and tell the node above it. */
    method FiniNode(pack: Pack, rn: RefsNode, d: nat, increase: nat, ghost t: seq<RefsNode>, ghost s: Standing)
      requires |t| > 0 && t[|t| - 1] == rn && rn in G && rn.height == d && root != null
      requires pack.Valid() && Wired({rn}) && NodesOk({rn}, pack.objects) && Tail(t, root, G)
        && Lag(rn, increase, root, G) && Stands(s, t, root, G)
      requires NodeOk(G[rn].(length := G[rn].length + if d > 0 then increase else 0), flags, pack.objects)
      modifies this`G, rn`length, rn`hash, rn`contentMod, pack`objects
      ensures pack.Valid() && old(pack.objects).Keys <= pack.objects.Keys && G.Keys == old(G).Keys
      ensures if rn.upper == null then
                Wired({rn}) && NodesOk({}, pack.objects) && Lag(rn, increase, root, G) && Tail(t, root, G)
                && Stands(s, t, root, G)
                && Whole(t, root, G) == old(Whole(t, root, G)) && t == [root]
              else
                |t| > 1 && t[|t| - 2] == rn.upper && rn.upper in G && rn.upper.height == d + 1
                && Wired({rn.upper}) && NodesOk({rn.upper}, pack.objects) && Tail(t[..|t| - 1], root, G)
                && NodeOk(G[rn.upper].(length := G[rn.upper].length + increase), flags, pack.objects)
                && Lag(rn.upper, increase, root, G)
                && Whole(t[..|t| - 1], root, G) == old(Whole(t, root, G)) && Stands(s, t[..|t| - 1], root, G)
    {
      hide Addressed, Flat, FlatAll, WF, HashOf, NodeHashes, Links, Indexes, MirrorAll, EachOk, EachClean, TailNodes,
        Whole, StandsSo, PointAt;
      TailAbove(t, |t| - 1, {rn}, root, G, E);
      AddLength(pack, rn, d, increase, t, s);
      if rn.upper != null {
        FiniStep(pack, rn, d, increase, t, s);
      } else {
        WholeOne(t, root, G);
      }
    }

    /**
     Finish appending: tell the nodes above how many elements have been appended, and update all
     hashes on the tail.
     */
    method FiniNodes(pack: Pack, rn0: RefsNode, increase: nat, ghost tail: seq<RefsNode>, ghost s: Standing)
      requires pack.Valid() && AtPoint(rn0, increase, tail, pack.objects) && increase > 0 && rn0.height == 0 && rn0 in G
      requires Stands(s, tail, root, G)
      modifies this`G, G.Keys, pack`objects
      ensures pack.Valid() && old(pack.objects).Keys <= pack.objects.Keys && Wired({}) && NodesOk({}, pack.objects)
      ensures root in G && G[root].tree == old(Whole(tail, root, G)) && Stands(s, [root], root, G)
        && G.Keys == old(G).Keys
    {
      hide Addressed, Flat, FlatAll, WF, HashOf, NodeHashes, Links, Indexes, MirrorAll, EachOk, EachClean, TailNodes,
        Whole, StandsSo, PointAt;
      var rn, d := rn0, 0;
      ghost var t := tail;
      PointInMemory(rn, increase, tail, degree, root, G);
      assert G[rn := G[rn]] == G;
      NodeAt(rn, {}, G, flags, pack.objects);
      OneOk(rn, G[rn], {rn}, {}, G, flags, pack.objects);
      while true
        invariant |t| > 0 && t[|t| - 1] == rn && rn in G && rn.height == d && G.Keys == old(G).Keys
        invariant pack.Valid() && old(pack.objects).Keys <= pack.objects.Keys && Wired({rn})
          && NodesOk({rn}, pack.objects)
        invariant Tail(t, root, G) && Lag(rn, increase, root, G) && Stands(s, t, root, G)
        invariant NodeOk(G[rn].(length := G[rn].length + if d > 0 then increase else 0), flags, pack.objects)
        invariant Whole(t, root, G) == old(Whole(tail, root, G))
        decreases |t|
      {
        FiniNode(pack, rn, d, increase, t, s);
        if rn.upper == null {
          break;
        }
        rn, d, t := rn.upper, d + 1, t[..|t| - 1];
      }
      FiniTop(pack, s);
    }

    /** Finish the root, which tells nobody. */
    method FiniTop(pack: Pack, ghost s: Standing)
      requires root != null && Wired({root}) && NodesOk({}, pack.objects) && Tail([root], root, G)
        && Stands(s, [root], root, G)
      modifies this`G, root`contentMod
      ensures root != null && Wired({}) && NodesOk({}, pack.objects) && root in G && Stands(s, [root], root, G)
        && G.Keys == old(G).Keys
      ensures G[root].tree == old(Whole([root], root, G))
    {
      hide Addressed, Flat, FlatAll, WF, HashOf, NodeHashes, Links, Indexes, MirrorAll, EachOk, EachClean, TailNodes,
        Whole, StandsSo, PointAt;
      TopIs({root}, root, G, E);
      WholeOne([root], root, G);
      TopOnly(root, root, G, E);
      SaveTop(pack, s);
    }

    /** Append each of the hashes. */
    method AppendEach(pack: Pack, xs: seq<Hash>)
      returns (rn: RefsNode, d: nat, increase: nat, ghost tail: seq<RefsNode>, ghost s: Standing)
      requires Sound(pack) && |xs| <= Free(Tree(), degree, depth) && |xs| > 0
      modifies this`refsIndex, this`G, this`E, G.Keys, pack`objects
      ensures pack.Valid() && old(pack.objects).Keys <= pack.objects.Keys && Fresh()
      ensures AtPoint(rn, increase, tail, pack.objects) && rn in G && rn.height == d == 0 && increase > 0
      ensures Whole(tail, root, G) == AppendAll(old(Tree()), degree, depth, xs) && Stands(s, tail, root, G)
      ensures s == StandingAfter(if old(AllClean({}, root, G)) then Actual
              else Unknown, old(Tree()), degree, depth, |xs|)
    {
      hide Addressed, Flat, FlatAll, WF, HashOf, NodeHashes, Links, Indexes, MirrorAll, EachOk, EachClean, TailNodes,
        Whole, StandsSo, SoiledSo, PointAt, Free, FreeTwo, AppendOne, AppendAll, AppendKeepsHashes;
      ghost var t, s0 := Tree(), if AllClean({}, root, G) then Actual else Unknown;
      rn, d, increase, tail, s := root, depth, 0, [root], s0;
      TopIs({}, root, G, E);
      TailOne(root, G);
      PointTop(root, tail, degree, root, G, E);
      StandsStart(AllClean({}, root, G), root, G, flags, pack.objects);
      AppendNone(t, degree, depth);
      StandingNotMissed(s0, t, degree, depth, 0);
      for i := 0 to |xs|
        invariant pack.Valid() && old(pack.objects).Keys <= pack.objects.Keys && Fresh()
        invariant AtPoint(rn, increase, tail, pack.objects) && rn in G && rn.height == d
        invariant i > 0 <==> increase > 0
        invariant i > 0 ==> d == 0
        invariant i == 0 ==> Soiled(s, false, 0, tail, root, G)
        invariant Whole(tail, root, G) == AppendAll(t, degree, depth, xs[..i]) && Stands(s, tail, root, G)
        invariant s == StandingAfter(s0, t, degree, depth, i)
      {
        StandingStep(s0, t, degree, depth, xs[..i]);
        AppendNext(t, degree, depth, xs, i);
        StandingNotMissed(s0, t, degree, depth, i);
        rn, d, increase, tail, s := AppendNode(pack, rn, d, increase, xs[i], tail, s, i > 0, false);
        PointInMemory(rn, increase, tail, degree, root, G);
      }
      assert xs[..|xs|] == xs;
    }

    /** Append the hashes where they fit. */
    method AppendInPlace(pack: Pack, xs: seq<Hash>)
      requires Sound(pack) && |xs| <= Free(Tree(), degree, depth) && |xs| > 0
      modifies this`refsIndex, this`G, this`E, this`hash, G.Keys, pack`objects
      ensures Sound(pack) && old(pack.objects).Keys <= pack.objects.Keys && Fresh()
      ensures Tree() == AppendAll(old(Tree()), degree, depth, xs)
      ensures old(AllClean({}, root, G)) ==>
              (AppendKeepsHashes(old(Tree()), degree, depth, |xs|) <==> HashesActual(root, G))
      ensures old(AllClean({}, root, G)) && AppendKeepsHashes(old(Tree()), degree, depth, |xs|) ==>
              AllClean({}, root, G) && Valid(pack) && Current(hash, Value(degree, depth, Tree()), pack.objects)
    {
      hide Addressed, Flat, FlatAll, WF, HashOf, NodeHashes, Links, Indexes, MirrorAll, EachOk, EachClean, TailNodes,
        Whole, StandsSo, SoiledSo, PointAt, Free, FreeTwo, AppendOne, AppendAll, AppendKeepsHashes;
      var rn, d, increase, tail, s := AppendEach(pack, xs);
      FiniNodes(pack, rn, increase, tail, s);
      StandsEnd(s, root, G, flags, pack.objects);
      ghost var H := G;
      UpdateHash(pack);
      ActualBelow(root, G[root], H);
      if AllClean({}, root, G) {
        CleanMarked({}, root, G);
      }
    }

    // ---------------------------------------------------------------- ascend

    /** No running iterator has to rewind. */
    ghost predicate Steady()
      reads `iterators
    {
      |iterators| > 0 && !iterators[|iterators| - 1]
    }

    /** Whether the running iterator has to find its next element from the root; the one around it has to, too, then. */
    method IsFindingIteratorsIndexFromRootRequired() returns (yep: bool)
      requires |iterators| > 0
      modifies this`iterators
      ensures yep == old(iterators[|iterators| - 1]) && Steady()
      ensures !yep ==> iterators == old(iterators)
      ensures yep ==> iterators == Rewound(old(iterators[..|iterators| - 1])) + [false]
    {
      yep := false;
      if iterators[|iterators| - 1] {
        if |iterators| > 1 {
          iterators := iterators[|iterators| - 2 := true];
        }
        iterators := iterators[|iterators| - 1 := false];
        yep := true;
      }
    }

    /** Visit the leafs of a node from the i-th element on; `shift` is the index of its first element. */
    method AscendNodeLeafs(rn: RefsNode, shift: nat, i0: nat, stop: Stop)
      returns (pass: nat, rewind: bool, stopped: bool, calls: seq<Call>)
      requires Wired({}) && root != null && Here(rn, 0, degree, G) && Steady()
      requires shift <= i0 <= shift + Len(G[rn].tree)
      modifies this`iterators
      ensures iterators == old(iterators) && !rewind
      ensures Visited(Flat(G[rn].tree), i0 - shift, i0, stop, calls, stopped, pass)
    {
      hide Addressed, Flat, FlatAll, WF, HashOf, NodeHashes, Links, Indexes, MirrorAll, EachOk, Loads, MoreItems, Calls,
        Stops, Part, VisitedSo, GoingSo, Before;
      LeafsOf(rn, degree, {}, root, G, E);
      FlatLeaf(G[rn].tree.es);
      MirroredAt(rn, G, E);
      ghost var es, lo := G[rn].tree.es, i0 - shift;
      pass, rewind, stopped, calls := 0, false, false, [];
      var i := i0;
      GoingStart(es, lo, i0, stop);
      for j := 0 to |rn.leafs|
        invariant iterators == old(iterators) && !rewind && !stopped
        invariant i == Max(i0, shift + j) && pass == i - i0
        invariant Going(es, lo, j, i0, stop, calls)
      {
        GoingLeaf(es, lo, j, i0, stop, calls, pass);
        if shift + j < i {
          continue;
        }
        LeafOf(rn, j, {}, root, G, E);
        ItemMirrored(rn.leafs[j], G, E);
        calls := calls + [(i, rn.leafs[j].hash)];
        if stop(i, rn.leafs[j].hash) {
          return pass, false, true, calls;
        }
        pass := pass + 1;
        rewind := IsFindingIteratorsIndexFromRootRequired();
        if rewind {
          return;
        }
        i := i + 1;
      }
      GoingEnd(es, lo, i0, stop, calls);
    }

    /** Visit the elements below a node from the i-th one on. */
    method AscendNode(pack: Pack, rn: RefsNode, depth: nat, shift: nat, i0: nat, stop: Stop)
      returns (pass: nat, rewind: bool, stopped: bool, calls: seq<Call>)
      requires pack.Valid() && Wired({}) && NodesOk({}, pack.objects) && root != null && Here(rn, depth, degree, G)
        && Steady()
      requires shift <= i0 <= shift + Len(G[rn].tree)
      modifies this`refsIndex, this`G, this`E, this`iterators, G.Keys
      ensures Wired({}) && NodesOk({}, pack.objects) && MoreItems(old(E), E) && LoadedFrom(old(G), G) && Fresh()
      ensures iterators == old(iterators) && !rewind && rn in G && G[rn] == old(G)[rn]
      ensures Visited(Flat(G[rn].tree), i0 - shift, i0, stop, calls, stopped, pass)
      decreases depth, 1
    {
      hide Addressed, Flat, FlatAll, WF, HashOf, NodeHashes, Links, Indexes, MirrorAll, EachOk, Loads, Adds, MoreItems,
        Calls, Stops, Part, VisitedSo, GoingSo, Before;
      NothingLoaded(G, E);
      if depth == 0 {
        pass, rewind, stopped, calls := AscendNodeLeafs(rn, shift, i0, stop);
        return;
      }
      pass, rewind, stopped, calls := AscendNodeBranches(pack, rn, depth, shift, i0, stop);
    }

    /** Go on to the branch `br`. */
    method AscendBranch(pack: Pack, br: RefsNode, depth: nat, shift: nat, i: nat, stop: Stop)
      returns (subpass: nat, rewind: bool, stopped: bool, calls: seq<Call>)
      requires pack.Valid() && Wired({}) && NodesOk({}, pack.objects) && root != null && Steady()
      requires br in G && br != root && br.height == depth && WF(G[br].tree, degree, depth) && shift <= i
      modifies this`refsIndex, this`G, this`E, this`iterators, G.Keys
      ensures Wired({}) && NodesOk({}, pack.objects) && MoreItems(old(E), E) && LoadedFrom(old(G), G) && Fresh()
      ensures iterators == old(iterators) && !rewind && br in G && br.length == Len(old(G)[br].tree)
        && G[br].tree == old(G)[br].tree
      ensures i <= shift + Len(old(G)[br].tree) ==>
              Visited(Flat(G[br].tree), i - shift, i, stop, calls, stopped, subpass)
      ensures i > shift + Len(old(G)[br].tree) ==> calls == [] && !stopped && subpass == 0
      decreases depth, 2
    {
      hide Addressed, Flat, FlatAll, WF, HashOf, NodeHashes, Links, Indexes, MirrorAll, EachOk, Loads, Adds, MoreItems,
        Calls, Stops, Part, VisitedSo, GoingSo, Before;
      subpass, rewind, stopped, calls := 0, false, false, [];
      LoadNodeIfNeed(pack, br, depth);
      LoadedAt(br, old(G), G);
      if shift + br.length < i {
        return;
      }
      ghost var H, F := G, E;
      subpass, rewind, stopped, calls := AscendNode(pack, br, depth, shift, i, stop);
      LoadedMore(old(G), old(E), H, F, G, E);
      NodeAt(br, {}, G, flags, pack.objects);
      MirroredAt(br, G, E);
    }

    method AscendNodeBranches(pack: Pack, rn: RefsNode, depth: nat, shift0: nat, i0: nat, stop: Stop)
      returns (pass: nat, rewind: bool, stopped: bool, calls: seq<Call>)
      requires pack.Valid() && Wired({}) && NodesOk({}, pack.objects) && root != null && Here(rn, depth, degree, G)
        && depth > 0 && Steady()
      requires shift0 <= i0 <= shift0 + Len(G[rn].tree)
      modifies this`refsIndex, this`G, this`E, this`iterators, G.Keys
      ensures Wired({}) && NodesOk({}, pack.objects) && MoreItems(old(E), E) && LoadedFrom(old(G), G) && Fresh()
      ensures iterators == old(iterators) && !rewind && rn in G && G[rn] == old(G)[rn]
      ensures Visited(Flat(G[rn].tree), i0 - shift0, i0, stop, calls, stopped, pass)
      decreases depth, 0
    {
      hide Addressed, Flat, FlatAll, WF, HashOf, NodeHashes, Links, Indexes, MirrorAll, EachOk, Loads, Adds, MoreItems,
        Calls, Stops, Part, VisitedSo, GoingSo, Before;
      KidsOf(rn, depth, degree, {}, root, G, E);
      MirroredAt(rn, G, E);
      NothingLoaded(G, E);
      ghost var ks, es, lo := G[rn].tree.kids, Flat(G[rn].tree), i0 - shift0;
      var shift, i := shift0, i0;
      pass, rewind, stopped, calls := 0, false, false, [];
      GoingStart(es, lo, i0, stop);
      PrefixAll(ks);
      for k := 0 to |rn.branches|
        invariant Wired({}) && NodesOk({}, pack.objects) && MoreItems(old(E), E) && LoadedFrom(old(G), G) && Fresh()
        invariant iterators == old(iterators) && !rewind && !stopped && rn in G && G[rn] == old(G)[rn]
          && rn.branches == G[rn].branches
        invariant shift == shift0 + Before(ks, k) && i == Max(i0, shift) && pass == i - i0
        invariant Going(es, lo, Before(ks, k), i0, stop, calls)
      {
        ghost var H, F := G, E;
        var br := rn.branches[k];
        BranchOf(rn, k, {}, root, G, E);
        var subpass, subcalls;
        subpass, rewind, stopped, subcalls := AscendBranch(pack, br, depth - 1, shift, i, stop);
        LoadedMore(old(G), old(E), H, F, G, E);
        LoadedAt(rn, H, G);
        MirroredAt(rn, G, E);
        GoingBranch(ks, k, lo, i0, stop, calls, subcalls, stopped, subpass, pass + subpass);
        pass, calls := pass + subpass, calls + subcalls;
        if stopped || rewind {
          return;
        }
        i, shift := i + subpass, shift + br.length;
      }
      GoingEnd(es, lo, i0, stop, calls);
    }

    /** Iterate up from the given element until the function asks to stop. */
    method AscendFrom(pack: Pack, from: int, stop: Stop) returns (err: Err, calls: seq<Call>)
      requires Sound(pack)
      modifies this`refsIndex, this`G, this`E, this`iterators, G.Keys
      ensures Sound(pack) && Fresh() && LoadedFrom(old(G), G) && MoreItems(old(E), E) && Tree() == old(Tree())
        && iterators == old(iterators)
      ensures old(Valid(pack)) ==> Valid(pack)
      ensures err == if from == 0 || 0 <= from < Len(Tree()) then Ok else IndexOutOfRange
      ensures calls == if 0 <= from < Len(Tree()) then Calls(Flat(Tree())[from..], from, stop) else []
    {
      hide Addressed, Flat, FlatAll, WF, HashOf, NodeHashes, Links, Indexes, MirrorAll, EachOk, EachClean, EachMarked,
        Loads, Adds, MoreItems, Calls, CallsDown, Stops, Part, VisitedSo, GoingSo, Before, DeleteAt, Settled, Rewound;
      NodeAt(root, {}, G, flags, pack.objects);
      TopAt({}, root, G, E);
      MirroredAt(root, G, E);
      NothingLoaded(G, E);
      calls := [];
      if from == 0 && root.length == 0 {
        return Ok, [];
      }
      if from < 0 || from >= root.length {
        return IndexOutOfRange, [];
      }
      iterators := iterators + [false];
      var pass, rewind, stopped;
      pass, rewind, stopped, calls := AscendNode(pack, root, depth, 0, from, stop);
      iterators := iterators[..|iterators| - 1];
      VisitedIs(Flat(G[root].tree), from, from, stop, calls, stopped, pass);
      LoadedValid(flags.lazyUpdating, root, old(G), G);
      return Ok, calls;
    }

    // ---------------------------------------------------------------- descend

    /**
     Call the function for one element: it asks to stop, or deletes the element
     and goes on.
     */
    method DescendCall(pack: Pack, i: nat, x: Hash, stop: Stop, kill: bool) returns (rewind: bool, stopped: bool)
      requires Sound(pack) && Steady() && i < Len(Tree()) && (kill ==> Valid(pack))
      modifies this`refsIndex, this`G, this`E, this`iterators, this`hash, G.Keys, E.Keys, pack`objects
      ensures stopped == (!kill && stop(i, x)) && rewind == (kill && stop(i, x)) && Steady() && Fresh()
      ensures !rewind ==>
              Sound(pack) && G == old(G) && E == old(E) && iterators == old(iterators)
              && pack.objects == old(pack.objects) && hash == old(hash) && refsIndex == old(refsIndex)
      ensures rewind ==> Valid(pack) && Tree() == Settled(flags.lazyUpdating, DeleteAt(old(Tree()), i), depth)
      ensures rewind ==>
              iterators == Rewound(old(iterators[..|iterators| - 1])) + [false]
              && old(pack.objects).Keys <= pack.objects.Keys
      ensures flags.lazyUpdating ==> hash == old(hash)
    {
      hide Addressed, Flat, FlatAll, WF, HashOf, NodeHashes, Links, Indexes, MirrorAll, EachOk, EachClean, EachMarked,
        Loads, Adds, MoreItems, Calls, CallsDown, Stops, Part, DeleteAt, Settled;
      rewind, stopped := false, false;
      if !stop(i, x) {
        return;
      }
      if !kill {
        return false, true;
      }
      DeleteFound(pack, i);
      RewindIterators();
      rewind := IsFindingIteratorsIndexFromRootRequired();
    }

    /**
     The elements `es`, the first of which has index `lo`, have been visited from
     the last one down: all of them, or those down to where the function asked
     to stop, or down to the one it deleted.
     */
    twostate predicate Descended(pack: Pack, stop: Stop, kill: bool, es: seq<Hash>, lo: nat, rewind: bool,
        stopped: bool, new calls: seq<Call>)
      requires old(root) != null && old(root) in old(G) && old(Steady())
      reads this, pack, G.Keys, E.Keys
    {
      calls == CallsDown(es, lo, stop)
      && stopped == (!kill && Stops(es, lo, stop)) && rewind == (kill && Stops(es, lo, stop))
      && Sound(pack) && (kill ==> Valid(pack)) && Steady() && old(pack.objects).Keys <= pack.objects.Keys
      && (flags.lazyUpdating ==> hash == old(hash))
      && (if rewind then
            |calls| > 0 && var i := calls[|calls| - 1].0;
            0 <= i < Len(old(Tree())) && Tree() == Settled(flags.lazyUpdating, DeleteAt(old(Tree()), i), depth)
            && iterators == Rewound(old(iterators[..|iterators| - 1])) + [false]
          else
            LoadedFrom(old(G), G) && MoreItems(old(E), E) && iterators == old(iterators)
            && pack.objects == old(pack.objects) && hash == old(hash))
    }

    /** Visit the leafs of a node from the i-th element down; `shift` is the index of its last element. */
    method DescendNodeLeafs(pack: Pack, rn: RefsNode, shift0: int, i0: int, stop: Stop, kill: bool, ghost es: seq<Hash>,
            ghost lo: nat)
      returns (pass: nat, rewind: bool, stopped: bool, calls: seq<Call>)
      requires Sound(pack) && Steady() && (kill ==> Valid(pack)) && Here(rn, 0, degree, G)
      requires shift0 + 1 == lo + Len(G[rn].tree) && i0 + 1 == lo + |es| && es <= Flat(G[rn].tree) && i0 < Len(Tree())
      modifies this`refsIndex, this`G, this`E, this`iterators, this`hash, G.Keys, E.Keys, pack`objects
      ensures Descended(pack, stop, kill, es, lo, rewind, stopped, calls)
        && pass == |calls| - (if stopped then 1 else 0)
      ensures Fresh() && (!rewind ==> G == old(G) && E == old(E))
    {
      hide Addressed, Flat, FlatAll, WF, HashOf, NodeHashes, Links, Indexes, MirrorAll, EachOk, EachClean, EachMarked,
        Loads, Adds, MoreItems, Calls, CallsDown, Stops, PartDown, DeleteAt, Settled, Rewound;
      LeafsOf(rn, degree, {}, root, G, E);
      FlatLeaf(G[rn].tree.es);
      MirroredAt(rn, G, E);
      NothingLoaded(G, E);
      ghost var all, hi := G[rn].tree.es, |es|;
      assert all[..hi] == es;
      pass, rewind, stopped, calls := 0, false, false, [];
      var i, shift, k := i0, shift0, |rn.leafs| - 1;
      PartDownNone(all, hi, stop, lo);
      while k >= 0
        invariant -1 <= k < |all| && rn in G && |G[rn].leafs| == |all| && Sound(pack) && Steady()
          && (kill ==> Valid(pack)) && iterators == old(iterators)
        invariant G == old(G) && E == old(E) && !rewind && !stopped && pack.objects == old(pack.objects)
          && hash == old(hash) && refsIndex == old(refsIndex)
        invariant shift == lo + k && i == Min(i0, lo + k) && pass == |calls| == i0 - i
        invariant calls == CallsDown(PartDown(all, k + 1, hi), lo + k + 1, stop)
          && !Stops(PartDown(all, k + 1, hi), lo + k + 1, stop)
      {
        if shift > i {
          PartDownSkip(all, k, hi, lo, stop);
          shift, k := shift - 1, k - 1;
          continue;
        }
        MirroredAt(rn, G, E);
        LeafOf(rn, k, {}, root, G, E);
        ItemMirrored(rn.leafs[k], G, E);
        PartDownNext(all, k, hi, lo, stop);
        var x := rn.leafs[k].hash;
        calls := calls + [(i, x)];
        rewind, stopped := DescendCall(pack, i, x, stop, kill);
        if stopped {
          return;
        }
        pass := pass + 1;
        if rewind {
          return;
        }
        i, shift, k := i - 1, shift - 1, k - 1;
      }
      PartDownAll(all, hi);
    }

    /** Visit the elements below a node from the i-th one down. */
    method DescendNode(pack: Pack, rn: RefsNode, depth: nat, shift: int, i0: int, stop: Stop, kill: bool,
            ghost es: seq<Hash>, ghost lo: nat)
      returns (pass: nat, rewind: bool, stopped: bool, calls: seq<Call>)
      requires Sound(pack) && Steady() && (kill ==> Valid(pack)) && Here(rn, depth, degree, G)
      requires shift + 1 == lo + Len(G[rn].tree) && i0 + 1 == lo + |es| && es <= Flat(G[rn].tree) && i0 < Len(Tree())
      modifies this`refsIndex, this`G, this`E, this`iterators, this`hash, G.Keys, E.Keys, pack`objects
      ensures Descended(pack, stop, kill, es, lo, rewind, stopped, calls) && Fresh()
      ensures pass == |calls| - (if stopped then 1 else 0) && (!rewind ==> rn in G && G[rn] == old(G)[rn])
      decreases depth, 1
    {
      hide Addressed, Flat, FlatAll, WF, HashOf, NodeHashes, Links, Indexes, MirrorAll, EachOk, EachClean, EachMarked,
        Loads, Adds, MoreItems, Calls, CallsDown, Stops, PartDown, DeleteAt, Settled, Rewound;
      if depth == 0 {
        pass, rewind, stopped, calls := DescendNodeLeafs(pack, rn, shift, i0, stop, kill, es, lo);
        return;
      }
      pass, rewind, stopped, calls := DescendNodeBranches(pack, rn, depth, shift, i0, stop, kill, es, lo);
    }

    /** Go on to the branch `br`, if there is something to visit. */
    method DescendBranch(pack: Pack, br: RefsNode, depth: nat, shift: int, i: int, stop: Stop, kill: bool,
            ghost es: seq<Hash>, ghost lo: nat)
      returns (subpass: nat, rewind: bool, stopped: bool, calls: seq<Call>, length: int)
      requires Sound(pack) && Steady() && (kill ==> Valid(pack))
      requires br in G && br != root && br.height == depth && WF(G[br].tree, degree, depth)
      requires shift + 1 == lo + Len(G[br].tree) && i < Len(Tree()) && i <= shift
      requires if lo > i + 1 then es == [] else i + 1 == lo + |es| && es <= Flat(G[br].tree)
      modifies this`refsIndex, this`G, this`E, this`iterators, this`hash, G.Keys, E.Keys, pack`objects
      ensures Descended(pack, stop, kill, es, lo, rewind, stopped, calls) && Fresh()
      ensures subpass == |calls| - (if stopped then 1 else 0) && length == Len(old(G)[br].tree)
      decreases depth, 2
    {
      hide Addressed, Flat, FlatAll, WF, HashOf, NodeHashes, Links, Indexes, MirrorAll, EachOk, EachClean, EachMarked,
        Loads, Adds, MoreItems, Calls, CallsDown, Stops, PartDown, DeleteAt, Settled, Rewound, Current,
        Kept, ContentAddressed, Marked, AllClean, AllOk, Mirrored;
      TopAt({}, root, G, E);
      LoadNodeIfNeed(pack, br, depth);
      LoadedAt(br, old(G), G);
      LoadedValid(flags.lazyUpdating, root, old(G), G);
      length := br.length;
      if shift - br.length > i {
        DownNone(lo, stop);
        return 0, false, false, [], length;
      }
      ghost var H, F := G, E;
      subpass, rewind, stopped, calls := DescendNode(pack, br, depth, shift, i, stop, kill, es, lo);
      if !rewind {
        LoadedMore(old(G), old(E), H, F, G, E);
      }
    }

    method DescendNodeBranches(pack: Pack, rn: RefsNode, depth: nat, shift0: int, i0: int, stop: Stop, kill: bool,
            ghost es: seq<Hash>, ghost lo: nat)
      returns (pass: nat, rewind: bool, stopped: bool, calls: seq<Call>)
      requires Sound(pack) && Steady() && (kill ==> Valid(pack)) && Here(rn, depth, degree, G) && depth > 0
      requires shift0 + 1 == lo + Len(G[rn].tree) && i0 + 1 == lo + |es| && es <= Flat(G[rn].tree) && i0 < Len(Tree())
      modifies this`refsIndex, this`G, this`E, this`iterators, this`hash, G.Keys, E.Keys, pack`objects
      ensures Descended(pack, stop, kill, es, lo, rewind, stopped, calls) && Fresh()
      ensures pass == |calls| - (if stopped then 1 else 0) && (!rewind ==> rn in G && G[rn] == old(G)[rn])
      decreases depth, 0
    {
      hide Addressed, Flat, FlatAll, WF, HashOf, NodeHashes, Links, Indexes, MirrorAll, EachOk, EachClean, EachMarked,
        Loads, Adds, MoreItems, Calls, CallsDown, Stops, PartDown, Before, KidPart, GoingDownSo, DeleteAt, Settled,
        Rewound, Current, Kept, ContentAddressed, Marked, AllClean, AllOk, Mirrored;
      KidsOf(rn, depth, degree, {}, root, G, E);
      MirroredAt(rn, G, E);
      NothingLoaded(G, E);
      ghost var ks, all, hi := G[rn].tree.kids, Flat(G[rn].tree), |es|;
      assert all[..hi] == es;
      pass, rewind, stopped, calls := 0, false, false, [];
      var i, shift, k := i0, shift0, |rn.branches| - 1;
      PrefixAll(ks);
      TopAt({}, root, G, E);
      GoingDownStart(all, hi, lo, stop);
      while k >= 0
        invariant -1 <= k < |ks| && rn in G && G[rn] == old(G)[rn] && Sound(pack) && Steady() && (kill ==> Valid(pack))
          && Fresh()
        invariant LoadedFrom(old(G), G) && MoreItems(old(E), E) && !rewind && !stopped && root in G
          && G[root] == old(G)[root]
        invariant iterators == old(iterators) && pack.objects == old(pack.objects) && hash == old(hash)
        invariant shift + 1 == lo + Before(ks, k + 1) && i == Min(i0, shift) && pass == |calls| == i0 - i
        invariant GoingDown(all, Before(ks, k + 1), hi, lo, stop, calls)
      {
        ghost var H, F, p := G, E, Before(ks, k);
        MirroredAt(rn, G, E);
        BranchOf(rn, k, {}, root, G, E);
        KidPartIs(ks, k, hi);
        ghost var sub := KidPart(ks, k, hi);
        var subpass, subcalls, length;
        subpass, rewind, stopped, subcalls, length :=
          DescendBranch(pack, rn.branches[k], depth - 1, shift, i, stop, kill, sub, lo + p);
        GoingDownBranch(ks, k, hi, lo, stop, calls, subcalls);
        pass, calls := pass + subpass, calls + subcalls;
        if rewind {
          return;
        }
        LoadedMore(old(G), old(E), H, F, G, E);
        LoadedAt(rn, H, G);
        LoadedAt(root, H, G);
        if stopped {
          return;
        }
        shift, i, k := shift - length, i - subpass, k - 1;
      }
      GoingDownEnd(all, hi, lo, stop, calls);
    }

    /** Iterate down from the given element until the function asks to stop. */
    method DescendFrom(pack: Pack, from: int, stop: Stop) returns (err: Err, calls: seq<Call>)
      requires Sound(pack)
      modifies this`refsIndex, this`G, this`E, this`iterators, this`hash, G.Keys, E.Keys, pack`objects
      ensures Sound(pack) && Fresh() && LoadedFrom(old(G), G) && MoreItems(old(E), E) && Tree() == old(Tree())
        && iterators == old(iterators)
      ensures pack.objects == old(pack.objects) && hash == old(hash) && (old(Valid(pack)) ==> Valid(pack))
      ensures err == if 0 <= from < Len(Tree()) then Ok else IndexOutOfRange
      ensures calls == if 0 <= from < Len(Tree()) then CallsDown(Flat(Tree())[..from + 1], 0, stop) else []
    {
      hide Addressed, Flat, FlatAll, WF, HashOf, NodeHashes, Links, Indexes, MirrorAll, EachOk, EachClean, EachMarked,
        Loads, Adds, MoreItems, CallsDown, Stops, DeleteAt, Settled, Rewound;
      NodeAt(root, {}, G, flags, pack.objects);
      TopAt({}, root, G, E);
      MirroredAt(root, G, E);
      NothingLoaded(G, E);
      calls := [];
      if from < 0 || from >= root.length {
        return IndexOutOfRange, [];
      }
      iterators := iterators + [false];
      var pass, rewind, stopped;
      ghost var es := Flat(Tree())[..from + 1];
      pass, rewind, stopped, calls := DescendNode(pack, root, depth, root.length - 1, from, stop, false, es, 0);
      iterators := iterators[..|iterators| - 1];
      LoadedValid(flags.lazyUpdating, root, old(G), G);
      return Ok, calls;
    }

    /** One round down from the i-th element, up to the next element to delete. */
    method DescendRound(pack: Pack, x: Hash, i: int, shift: int) returns (pass: nat, rewind: bool)
      requires Valid(pack) && Steady() && shift + 1 == Len(Tree()) && -1 <= i <= shift
      modifies this`refsIndex, this`G, this`E, this`iterators, this`hash, G.Keys, E.Keys, pack`objects
      ensures Valid(pack) && Steady() && Fresh() && old(pack.objects).Keys <= pack.objects.Keys
        && iterators == if rewind then Rewound(old(iterators[..|iterators| - 1])) + [false] else old(iterators)
      ensures !rewind ==> Tree() == old(Tree()) && x !in old(Flat(Tree()))[..i + 1]
      ensures rewind ==> LastMatch(old(Flat(Tree())), i, i + 1 - pass, x) && 0 <= i + 1 - pass < Len(old(Tree()))
      ensures rewind ==> Flat(Tree()) == Without(old(Flat(Tree())), i + 1 - pass)
      ensures rewind ==> Tree() == Settled(flags.lazyUpdating, DeleteAt(old(Tree()), i + 1 - pass), depth)
      ensures flags.lazyUpdating ==> hash == old(hash)
    {
      hide Addressed, Flat, FlatAll, WF, HashOf, NodeHashes, Links, Indexes, MirrorAll, EachOk, EachClean, EachMarked,
        Loads, Adds, MoreItems, CallsDown, Stops, DeleteAt, Settled, LastMatchSo, Rewound, Current, Kept,
        ContentAddressed, Marked, AllClean, AllOk, Mirrored;
      TopAt({}, root, G, E);
      ghost var t, es := Tree(), Flat(Tree())[..i + 1];
      var stop := (_, h) => h == x;
      var stopped, calls;
      pass, rewind, stopped, calls := DescendNode(pack, root, depth, shift, i, stop, true, es, 0);
      RoundFinds(Flat(t), i, x, stop);
      if rewind {
        ghost var d := calls[|calls| - 1].0;
        DeleteAtIsRemoval(t, d);
        SettledFlat(flags.lazyUpdating, DeleteAt(t, d), depth);
      }
    }

    /** Number of elements. */
    method Length(pack: Pack) returns (n: int)
      requires Sound(pack)
      ensures n == Len(Tree())
    {
      hide Addressed, Flat, FlatAll, WF, HashOf, NodeHashes, Links, Indexes, MirrorAll, EachOk, EachClean, EachMarked,
        Loads, Adds, MoreItems, CallsDown, Stops, DeleteAt, Settled, Rewound, Others, PendingSo;
      NodeAt(root, {}, G, flags, pack.objects);
      TopAt({}, root, G, E);
      MirroredAt(root, G, E);
      n := root.length;
    }

    /** One round, and what it leaves to be done. */
    method DescendPending(pack: Pack, x: Hash, i: int, shift: int, ghost t: Tree, ghost deleted: bool,
            ghost its: seq<bool>)
      returns (pass: nat, rewind: bool)
      requires Valid(pack) && Steady() && shift + 1 == Len(Tree()) && -1 <= i <= shift
        && Midway(flags.lazyUpdating, x, t, Tree(), depth, i, deleted, its, iterators)
      modifies this`refsIndex, this`G, this`E, this`iterators, this`hash, G.Keys, E.Keys, pack`objects
      ensures Valid(pack) && Steady() && Fresh() && old(pack.objects).Keys <= pack.objects.Keys
      ensures !rewind ==> Flat(Tree()) == Others(Flat(t), x) && deleted == (x in Flat(t))
      ensures !rewind ==> Tree() == if deleted then Settled(flags.lazyUpdating, Trimmed(t, x), depth) else t
      ensures !rewind ==> iterators == (if deleted then Rewound(its) else its) + [false]
      ensures rewind ==> Midway(flags.lazyUpdating, x, t, Tree(), depth, i - pass, true, its, iterators)
      ensures rewind ==> -1 <= i - pass < Len(Tree()) && 0 < pass
      ensures flags.lazyUpdating ==> hash == old(hash)
    {
      hide Addressed, Flat, FlatAll, WF, HashOf, NodeHashes, Links, Indexes, MirrorAll, EachOk, EachClean, EachMarked,
        Loads, Adds, MoreItems, CallsDown, Stops, DeleteAt, Settled, Rewound, Others, PendingSo, LastMatchSo,
        TrimmingSo, Trimmed, Current, Kept, ContentAddressed, Marked, AllClean, AllOk, LinkedBut, Mirrored;
      ghost var u := Tree();
      RewoundTwice(its);
      assert iterators[..|iterators| - 1] == if deleted then Rewound(its) else its;
      pass, rewind := DescendRound(pack, x, i, shift);
      if rewind {
        PendingStep(Flat(t), i, i + 1 - pass, x, Flat(u), deleted);
        MatchAt(Flat(u), i, i + 1 - pass, x);
        TrimmingStep(flags.lazyUpdating, x, t, u, i + 1 - pass, depth, deleted);
      } else {
        PendingEnd(Flat(t), i, x, Flat(u), deleted);
        TrimmingEnd(flags.lazyUpdating, x, t, u, depth, deleted);
      }
    }

    /** Round after round until nothing is left to delete. */
    method DescendRounds(pack: Pack, x: Hash) returns (err: Err, deleted: bool)
      requires Valid(pack) && Steady() && Len(Tree()) > 0
      modifies this`refsIndex, this`G, this`E, this`iterators, this`hash, G.Keys, E.Keys, pack`objects
      ensures Valid(pack) && Fresh() && old(pack.objects).Keys <= pack.objects.Keys
      ensures var its := old(iterators[..|iterators| - 1]);
              iterators == (if deleted then Rewound(its) else its) + [false]
      ensures err == Ok && deleted == (x in old(Flat(Tree()))) && Flat(Tree()) == Others(old(Flat(Tree())), x)
      ensures Tree() == if deleted then Settled(flags.lazyUpdating, Trimmed(old(Tree()), x), depth) else old(Tree())
      ensures flags.lazyUpdating ==> hash == old(hash)
    {
      hide Addressed, Flat, FlatAll, WF, HashOf, NodeHashes, Links, Indexes, MirrorAll, EachOk, EachClean, EachMarked,
        Loads, Adds, MoreItems, CallsDown, Stops, DeleteAt, Settled, Rewound, Others, PendingSo, LastMatchSo,
        MidwaySo, Trimmed, Current, Kept, ContentAddressed, Marked, AllClean, AllOk, LinkedBut, Mirrored;
      ghost var t := Tree();
      var n := Length(pack);
      err, deleted := Ok, false;
      ghost var its := iterators[..|iterators| - 1];
      assert iterators == its + [false];
      var i := n - 1;
      MidwayStart(flags.lazyUpdating, x, t, depth, its);
      while true
        invariant Valid(pack) && Steady() && Fresh() && old(pack.objects).Keys <= pack.objects.Keys
        invariant -1 <= i < n == Len(Tree()) && err == Ok && (flags.lazyUpdating ==> hash == old(hash))
        invariant Midway(flags.lazyUpdating, x, t, Tree(), depth, i, deleted, its, iterators)
        decreases i
      {
        var pass, rewind := DescendPending(pack, x, i, n - 1, t, deleted, its);
        if !rewind {
          break;
        }
        i, deleted := i - pass, true;
        n := Length(pack);
        if i >= n {
          err := IndexOutOfRange;
          break;
        }
      }
    }

    /** Delete every element with the given hash on the way down. */
    method DescendDeleting(pack: Pack, x: Hash) returns (err: Err, deleted: bool)
      requires Valid(pack)
      modifies this`refsIndex, this`G, this`E, this`iterators, this`hash, G.Keys, E.Keys, pack`objects
      ensures Valid(pack) && Fresh() && old(pack.objects).Keys <= pack.objects.Keys
      ensures iterators == if deleted then Rewound(old(iterators)) else old(iterators)
      ensures err == Ok && deleted == (x in old(Flat(Tree()))) && Flat(Tree()) == Others(old(Flat(Tree())), x)
      ensures Tree() == if deleted then Settled(flags.lazyUpdating, Trimmed(old(Tree()), x), depth) else old(Tree())
      ensures flags.lazyUpdating ==> hash == old(hash)
    {
      hide Addressed, Flat, FlatAll, WF, HashOf, NodeHashes, Links, Indexes, MirrorAll, EachOk, EachClean, EachMarked,
        Loads, Adds, MoreItems, CallsDown, Stops, DeleteAt, Settled, Rewound, Others, PendingSo,
        Trimmed;
      var n := Length(pack);
      if n == 0 {
        OthersNone(x);
        return Ok, false;
      }
      assert (iterators + [false])[..|iterators|] == iterators;
      iterators := iterators + [false];
      err, deleted := DescendRounds(pack, x);
      iterators := iterators[..|iterators| - 1];
    }

    // --------------------------------------------- delete by hash, with index

    /** Where the element is among the leafs of its node. */
    method ElementIndex(up: RefsNode, el: RefsElement) returns (i: nat)
      requires Wired({}) && root != null && el in E && el.upper == up
      ensures i == E[el].pos && up in G && i < |G[up].leafs| && G[up].leafs[i] == el
    {
      hide Addressed, Flat, FlatAll, WF, HashOf, NodeHashes, Links, Indexes, MirrorAll, EachOk, EachClean, EachMarked,
        TopTree, RemoveAt;
      ItemAt(el, root, G, E);
      MirroredAt(up, G, E);
      i := 0;
      while i < |up.leafs|
        invariant i <= E[el].pos < |up.leafs|
      {
        LeafOf(up, i, {}, root, G, E);
        if up.leafs[i] == el {
          return;
        }
        i := i + 1;
      }
    }

    /** Take a leaf out of its node that the index does not hold any more. */
    method DetachIndexed(up: RefsNode, i: nat, ghost el: RefsElement)
      requires Wired({}) && root != null && el in E && el in limbo && el.upper == up && up in G
        && i == E[el].pos < |G[up].leafs| && G[up].leafs[i] == el
      modifies this`limbo, this`G, this`E, up`leafs
      ensures old(G)[up].tree.Leaf? && |old(G)[up].leafs| == |old(G)[up].tree.es|
      ensures Wired({up}) && G == WithoutLeaf(up, i, old(G)) && E == WithoutItem(el, old(E))
        && limbo == old(limbo) - {el}
    {
      hide Addressed, Flat, FlatAll, WF, HashOf, NodeHashes, Links, Indexes, Mirrors;
      ItemAt(el, root, G, E);
      MirroredAt(up, G, E);
      RemoveLeaf(el, root, G, E);
      LimboLess(refsIndex, E, limbo, el, flags.hashTableIndex);
      up.leafs := up.leafs[..i] + up.leafs[i + 1..];
      G, E, limbo := WithoutLeaf(up, i, G), WithoutItem(el, E), limbo - {el};
      MirrorsIs(up, G[up]);
      forall n | n in G && n != up
        ensures Mirrors(n, G[n])
      {
        assert old(Mirrors(n, G[n]));
      }
    }

    /** One node on the way up from a deleted element: one element less, marked, and made actual on demand. */
    method CountLess(pack: Pack, up: RefsNode, depth: nat, update: bool, ghost track: bool)
      requires pack.Valid() && root != null && Wired({up}) && NodesOk({up}, pack.objects) && up in G
        && up.height == depth && G[up].inMemory && G[up].stale
      requires NodeOk(G[up].(length := G[up].length - 1), flags, pack.objects) && Lag(up, -1, root, G)
      requires track ==> Kept(!update, {up}, root, G)
      modifies this`G, up`length, up`hash, up`contentMod, pack`objects
      ensures pack.Valid() && old(pack.objects).Keys <= pack.objects.Keys && Wired({up}) && NodesOk({}, pack.objects)
      ensures up in G && G == old(G)[up := G[up]] && G[up] == old(G)[up].(length := old(G)[up].length - 1,
              hash := G[up].hash, mod := G[up].mod, stale := G[up].stale)
      ensures track ==> if update then up == root || !G[up].stale else G[up].mod && G[up].stale
      ensures if update then up == root ==> !G[up].mod else G[up].mod && G[up].stale
    {
      hide Addressed, Flat, FlatAll, WF, HashOf, NodeHashes, Links, Indexes, MirrorAll, EachOk, EachClean, EachMarked,
        TopTree, RemoveAt;
      MirroredAt(up, G, E);
      SetLength(up, up.length - 1, {up});
      OneOk(up, G[up], {}, {up}, old(G), flags, pack.objects);
      ghost var H := G;
      SetMod(up, true, {up});
      OneOk(up, G[up], {}, {}, H, flags, pack.objects);
      Overwrite(old(G), up, H[up], G[up]);
      if update {
        TopAt({up}, root, G, E);
        KidsNotSelf(up, root, G, E);
        ghost var I := G;
        if up.upper == null {
          SetMod(up, false, {up});
          OneOk(up, G[up], {}, {}, I, flags, pack.objects);
        } else {
          TopIs({up}, root, G, E);
          if track {
            KidsCleanBut(up, root, old(G), I, E);
          }
          Refresh(pack, up, depth, {up});
        }
        Overwrite(old(G), up, I[up], G[up]);
      }
    }

    /** Count one element less in a node and tell the node above it. */
    method LessStep(pack: Pack, up: RefsNode, depth: nat, update: bool, ghost track: bool, ghost x: Hash,
            ghost G0: Graph)
      requires pack.Valid() && root != null && Wired({up}) && NodesOk({up}, pack.objects) && up in G
        && up.height == depth && G[up].inMemory && G[up].stale
      requires NodeOk(G[up].(length := G[up].length - 1), flags, pack.objects) && Lag(up, -1, root, G)
        && up.upper != null && up.height <= root.height
      requires track ==> Kept(!update, {up}, root, G)
      requires !update ==> Thinned(x, {up}, root, G0, G)
      modifies this`G, up`length, up`hash, up`contentMod, pack`objects
      ensures pack.Valid() && old(pack.objects).Keys <= pack.objects.Keys && G.Keys == old(G).Keys
      ensures var u := up.upper;
              u != null && u in G && u.height == depth + 1 <= root.height && G[u].inMemory && G[u].stale
              && Wired({u}) && NodesOk({u}, pack.objects)
              && NodeOk(G[u].(length := G[u].length - 1), flags, pack.objects) && Lag(u, -1, root, G)
              && TopTree(u, G[u].tree, root, G) == old(TopTree(up, G[up].tree, root, G))
              && (track ==> Kept(!update, {u}, root, G)) && (!update ==> Thinned(x, {u}, root, G0, G))
    {
      hide Addressed, Flat, FlatAll, WF, HashOf, NodeHashes, Links, Indexes, MirrorAll, EachOk, EachClean, EachMarked,
        TopTree, RemoveAt, ThinnedSo;
      TopIs({up}, root, G, E);
      CountLess(pack, up, depth, update, track);
      FieldsTop(up, G[up], root, old(G), E);
      LagSaved(up, G[up], -1, root, old(G), E);
      StepTop(up, root, G, E);
      StepLess(up, -1, root, G, E, flags, pack.objects);
      if track {
        StepFields(!update, up, G[up], root, old(G));
      }
      MirroredRetree(up.upper, UpperTree(up, G[up].tree, G), G, E);
      if !update {
        ThinnedMark(x, up, G[up], root, G0, old(G));
        ThinnedUp(x, up, root, G0, G);
      }
      G := Stepped(up, G);
    }

    /** Count one element less in the root. */
    method LessTop(pack: Pack, up: RefsNode, depth: nat, update: bool, ghost track: bool, ghost x: Hash,
            ghost G0: Graph)
      requires pack.Valid() && root != null && Wired({up}) && NodesOk({up}, pack.objects) && up in G
        && up.height == depth && G[up].inMemory && G[up].stale
      requires NodeOk(G[up].(length := G[up].length - 1), flags, pack.objects) && Lag(up, -1, root, G)
        && up.upper == null
      requires track ==> Kept(!update, {up}, root, G)
      requires !update ==> Thinned(x, {up}, root, G0, G)
      modifies this`G, up`length, up`hash, up`contentMod, pack`objects
      ensures pack.Valid() && old(pack.objects).Keys <= pack.objects.Keys && G.Keys == old(G).Keys && root != null
        && root in G && up.height <= root.height
      ensures Wired({}) && NodesOk({}, pack.objects) && (track ==> Kept(!update, {}, root, G))
      ensures G[root].tree == old(TopTree(up, G[up].tree, root, G))
      ensures G[root].mod == !update && (!update ==> Thinned(x, {}, root, G0, G))
    {
      hide Addressed, Flat, FlatAll, WF, HashOf, NodeHashes, Links, Indexes, MirrorAll, EachOk, EachClean, EachMarked,
        TopTree, RemoveAt, ThinnedSo;
      TopOnly(up, root, G, E);
      CountLess(pack, up, depth, update, track);
      TopOnly(up, root, G, E);
      if track {
        KeptTop(!update, G[root], root, old(G));
      }
      if !update {
        ThinnedMark(x, root, G[root], root, G0, old(G));
      }
    }

    /** Count one element less in all nodes from `up0` up. */
    method LessUp(pack: Pack, up0: RefsNode, update: bool, ghost track: bool, ghost x: Hash, ghost G0: Graph)
      requires pack.Valid() && root != null && Wired({up0}) && NodesOk({up0}, pack.objects) && up0 in G
        && up0.height == 0 && G[up0].inMemory && G[up0].stale
      requires NodeOk(G[up0].(length := G[up0].length - 1), flags, pack.objects) && Lag(up0, -1, root, G)
      requires track ==> Kept(!update, {up0}, root, G)
      requires !update ==> Thinned(x, {up0}, root, G0, G)
      modifies this`G, G.Keys, pack`objects
      ensures pack.Valid() && old(pack.objects).Keys <= pack.objects.Keys && G.Keys == old(G).Keys && root != null
        && root in G && up0.height <= root.height
      ensures Wired({}) && NodesOk({}, pack.objects) && (track ==> Kept(!update, {}, root, G))
      ensures G[root].tree == old(TopTree(up0, G[up0].tree, root, G))
      ensures G[root].mod == !update && (!update ==> Thinned(x, {}, root, G0, G))
    {
      hide Addressed, Flat, FlatAll, WF, HashOf, NodeHashes, Links, Indexes, MirrorAll, EachOk, EachClean, EachMarked,
        TopTree, RemoveAt, ThinnedSo;
      var d, up: RefsNode := 0, up0;
      ghost var w := TopTree(up0, G[up0].tree, root, G);
      while up.upper != null
        invariant pack.Valid() && old(pack.objects).Keys <= pack.objects.Keys && root != null && G.Keys == old(G).Keys
        invariant Wired({up}) && NodesOk({up}, pack.objects) && up in G && up.height == d <= root.height
          && G[up].inMemory && G[up].stale
        invariant NodeOk(G[up].(length := G[up].length - 1), flags, pack.objects) && Lag(up, -1, root, G)
          && (track ==> Kept(!update, {up}, root, G))
        invariant TopTree(up, G[up].tree, root, G) == w && (!update ==> Thinned(x, {up}, root, G0, G))
        decreases root.height - up.height
      {
        LessStep(pack, up, d, update, track, x, G0);
        up, d := up.upper, d + 1;
      }
      LessTop(pack, up, d, update, track, x, G0);
    }

    /** Delete an element that the index does not hold any more. */
    method DeleteElement(pack: Pack, el: RefsElement, update: bool, ghost i: nat, ghost track: bool, ghost x: Hash,
            ghost G0: Graph)
      requires pack.Valid() && root != null && Wired({}) && NodesOk({}, pack.objects) && el in limbo && el in E
      requires Positioned(el, G, E, root) && i == Position(el, G, E, root) && (track ==> Kept(!update, {}, root, G))
      requires E[el].hash == x && (!update ==> Thinned(x, {}, root, G0, G))
      modifies this`limbo, this`G, this`E, G.Keys, pack`objects
      ensures pack.Valid() && old(pack.objects).Keys <= pack.objects.Keys && root != null && root in G && root in old(G)
      ensures Wired({}) && NodesOk({}, pack.objects) && limbo == old(limbo) - {el} && E == WithoutItem(el, old(E))
        && G.Keys == old(G).Keys
      ensures i < Len(old(Tree())) && Tree() == RemoveAt(old(Tree()), i) && (track ==> Kept(!update, {}, root, G))
      ensures Flat(old(Tree()))[i] == x && G[root].mod == !update && (!update ==> Thinned(x, {}, root, G0, G))
    {
      hide Addressed, Flat, FlatAll, WF, HashOf, NodeHashes, Links, Indexes, MirrorAll, EachOk, EachClean, EachMarked,
        TopTree, RemoveAt, ThinnedSo;
      var up := el.upper;
      ItemAt(el, root, G, E);
      TopAt({}, root, G, E);
      LeafLessTop(el, i, root, G, E);
      LeafLessOk(el, !update, track, root, G, flags, pack.objects, E);
      var j := ElementIndex(up, el);
      DetachIndexed(up, j, el);
      if !update {
        ThinnedLeaf(x, up, j, root, G0, old(G));
      }
      LessUp(pack, up, update, track, x, G0);
    }

    // --------------------------------------------------------- walk updating

    /** A node has been walked: there is nothing stale below unless it is blank. */
    ghost predicate Walked(rn: RefsNode, t: Tree)
      requires rn in G
      reads `root, `G
    {
      (rn != root && (Len(t) > 0 || !G[rn].inMemory) ==> !G[rn].stale && KidsClean(rn, G))
      && (rn == root ==> KidsClean(rn, G))
    }

    /** Walk the i-th branch of `rn`, and take it away if it is blank then. */
    method WalkBranch(pack: Pack, rn: RefsNode, i: nat, depth: nat, ghost M: Nodes) returns (removed: bool)
      requires pack.Valid() && root != null && Wired(M) && NodesOk({}, pack.objects) && Marked(M, root, G)
      requires rn in M && Here(rn, depth, degree, G) && depth > 0 && i < |G[rn].branches|
        && forall m <- M :: m.height >= depth
      modifies this`G, G.Keys, pack`objects
      ensures pack.Valid() && old(pack.objects).Keys <= pack.objects.Keys && G.Keys <= old(G).Keys
      ensures Wired(M) && NodesOk({}, pack.objects) && Marked(M, root, G)
      ensures Here(rn, depth, degree, G) && Cleaner(rn, depth, old(G), G)
      ensures if removed then G[rn].branches == Without(old(G)[rn].branches, i) else
                G[rn].branches == old(G)[rn].branches && G[rn].branches[i] in G && !G[G[rn].branches[i]].stale
      ensures var b := old(G)[rn].branches[i];
              b in old(G) && Apart(rn, b, old(G), G) && removed == (old(G)[b].inMemory && Len(Swept(b, old(G))) == 0)
              && G[rn].tree == KidWalked(old(G)[rn].tree, i, Swept(b, old(G)), removed)
      ensures G[rn].mod == old(G)[rn].mod && G[rn].loaded == old(G)[rn].loaded && G[rn].length == old(G)[rn].length
      decreases depth, 0, 0
    {
      hide Addressed, Flat, FlatAll, WF, HashOf, NodeHashes, Links, Indexes, MirrorAll, EachOk, EachClean, EachMarked,
        Tidied, CleanerSo, WithoutBranch, ApartSo, Swept;
      KidsOf(rn, depth, degree, M, root, G, E);
      BranchOf(rn, i, M, root, G, E);
      MirroredAt(rn, G, E);
      var br := rn.branches[i];
      ghost var t, k := G[rn].tree, G[rn].tree.kids[i];
      SweptIs(br, M, degree, root, G, E);
      WalkUpdatingNode(pack, br, depth - 1, M);
      ghost var H := G;
      TidiedIs(k, G[br].tree, degree, depth - 1);
      TidiedSame(t, degree, depth);
      CleanerAt(rn, br, depth - 1, old(G), H);
      CleanerAt(br, br, depth - 1, old(G), H);
      UpperOf(br, M + {br}, root, G, E);
      BranchOf(rn, i, M + {br}, root, G, E);
      MirroredAt(br, G, E);
      MirroredAt(rn, G, E);
      NodeAt(br, {}, G, flags, pack.objects);
      ApartMore(rn, br, old(G), H);
      assert M + {br} - {br} == M;
      if br.loaded && br.length == 0 {
        WalkedOut(rn, br, i, M + {br}, root, old(G), H, E, flags, pack.objects);
        TidiedBlank(t, t, i, degree, depth);
        ApartWithout(rn, br, i, M + {br}, root, H, E);
        DetachBranch(rn, i, br, M + {br});
        ApartTrans(rn, br, old(G), H, G);
        CleanerAt(rn, rn, depth, old(G), G);
        TidiedIs(t, G[rn].tree, degree, depth);
        return true;
      }
      WalkedIn(rn, br, M + {br}, root, old(G), H, E, flags, pack.objects);
      TidiedKid(t, t, i, G[br].tree, degree, depth);
      MirroredRetree(rn, UpperTree(br, G[br].tree, G), G, E);
      G := Stepped(br, G);
      ApartOne(rn, br, G[rn], old(G), H);
      TidiedIs(t, G[rn].tree, degree, depth);
      return false;
    }

    /** Make actual what is marked below a node, and take away what is blank. */
    method WalkUpdatingNode(pack: Pack, rn: RefsNode, depth: nat, ghost M: Nodes)
      requires pack.Valid() && root != null && Wired(M) && NodesOk({}, pack.objects) && Marked(M, root, G)
      requires rn !in M && rn in G && rn.height == depth && WF(G[rn].tree, degree, depth)
        && forall m <- M :: m.height > depth
      modifies this`G, G.Keys, pack`objects
      ensures pack.Valid() && old(pack.objects).Keys <= pack.objects.Keys && G.Keys <= old(G).Keys
      ensures Wired(M + {rn}) && NodesOk({}, pack.objects) && Marked(M + {rn}, root, G)
      ensures rn in G && Walked(rn, old(G)[rn].tree) && Cleaner(rn, depth, old(G), G)
      ensures G[rn].tree == Swept(rn, old(G)) && Apart(rn, rn, old(G), G)
      decreases depth, 1
    {
      hide Addressed, Flat, FlatAll, WF, HashOf, NodeHashes, Links, Indexes, MirrorAll, EachOk, EachClean, EachMarked,
        Tidied, CleanerSo, WithoutBranch, ApartSo, Swept;
      MirroredAt(rn, G, E);
      ghost var t := G[rn].tree;
      CleanerSelf(rn, depth, G);
      ApartSelf(rn, rn, G);
      MoreBut(M, M + {rn}, root, G, E);
      MarkedMore(rn, M, root, G);
      NodeAt(rn, {}, G, flags, pack.objects);
      SweptAt(rn, G);
      SweptIs(rn, M, degree, root, G, E);
      TidiedIs(t, Swept(rn, G), degree, depth);
      if !rn.loaded || !rn.contentMod {
        NothingToWalk(rn, M, root, G, E, flags, pack.objects);
        return;
      }
      if depth > 0 {
        WalkBranches(pack, rn, depth, M + {rn});
      } else {
        LeafsBare(rn, M + {rn}, root, G, E);
      }
      MirroredAt(rn, G, E);
      NodeAt(rn, {}, G, flags, pack.objects);
      if rn.length > 0 {
        WalkSave(pack, rn, depth, M + {rn}, old(G));
      }
    }

    method WalkBranches(pack: Pack, rn: RefsNode, depth: nat, ghost M: Nodes)
      requires pack.Valid() && root != null && Wired(M) && NodesOk({}, pack.objects) && Marked(M, root, G)
      requires rn in M && Here(rn, depth, degree, G) && depth > 0 && forall m <- M :: m.height >= depth
      modifies this`G, G.Keys, pack`objects
      ensures pack.Valid() && old(pack.objects).Keys <= pack.objects.Keys && G.Keys <= old(G).Keys
      ensures Wired(M) && NodesOk({}, pack.objects) && Marked(M, root, G)
      ensures Here(rn, depth, degree, G) && Cleaner(rn, depth, old(G), G) && KidsClean(rn, G)
      ensures G[rn].tree == Branch(SweptAll(depth, old(G)[rn].branches, old(G))) && Apart(rn, rn, old(G), G)
      ensures G[rn].length == old(G)[rn].length && G[rn].loaded == old(G)[rn].loaded && G[rn].mod == old(G)[rn].mod
      decreases depth, 0, 1
    {
      hide Addressed, Flat, FlatAll, WF, HashOf, NodeHashes, Links, Indexes, MirrorAll, EachOk, EachClean, EachMarked,
        CleanerSo, WithoutBranch, ApartSo, WalkingSo, Swept, KidWalked;
      var i := 0;
      MirroredAt(rn, G, E);
      CleanerSelf(rn, depth, G);
      ApartSelf(rn, rn, G);
      WalkingStart(rn, M, root, G, E);
      ghost var bs, ks, j := G[rn].branches, G[rn].tree.kids, 0;
      while i < |rn.branches|
        invariant pack.Valid() && old(pack.objects).Keys <= pack.objects.Keys && G.Keys <= old(G).Keys
        invariant Wired(M) && NodesOk({}, pack.objects) && Marked(M, root, G)
        invariant Here(rn, depth, degree, G) && Cleaner(rn, depth, old(G), G) && Apart(rn, rn, old(G), G)
        invariant G[rn].length == old(G)[rn].length && G[rn].loaded == old(G)[rn].loaded && G[rn].mod == old(G)[rn].mod
        invariant rn.branches == G[rn].branches && i <= |rn.branches|
          && forall k | 0 <= k < i :: ActualAt(G[rn].branches[k], G)
        invariant Walking(rn, bs, ks, j, i, old(G), G)
        decreases |rn.branches| - i
      {
        ghost var H := G;
        BranchOf(rn, i, M, root, G, E);
        var removed := WalkBranch(pack, rn, i, depth, M);
        WalkingStep(rn, bs, ks, j, i, removed, M, root, old(G), H, G, E);
        ApartUpper(rn, H[rn].branches[i], H, G);
        ApartTrans(rn, rn, old(G), H, G);
        CleanerTrans(rn, depth, old(G), H, G);
        StillActual(rn, i, removed, M, root, H, G, E);
        MirroredAt(rn, G, E);
        j := j + 1;
        if !removed {
          i := i + 1;
        }
      }
      AllActual(rn, G);
      WalkingEnd(rn, bs, ks, j, i, old(G), G);
    }

    /** Save a node that has been walked. */
    method WalkSave(pack: Pack, rn: RefsNode, depth: nat, ghost M: Nodes, ghost G0: Graph)
      requires pack.Valid() && root != null && Wired(M) && NodesOk({}, pack.objects) && Marked(M, root, G)
      requires rn in M && rn in G && rn.height == depth && G[rn].inMemory && KidsClean(rn, G) && Len(G[rn].tree) > 0
      requires Cleaner(rn, depth, G0, G) && Apart(rn, rn, G0, G) && forall m <- M :: m.height >= depth
      modifies this`G, rn`hash, rn`contentMod, pack`objects
      ensures pack.Valid() && old(pack.objects).Keys <= pack.objects.Keys && G.Keys == old(G).Keys
      ensures Wired(M) && NodesOk({}, pack.objects) && Marked(M, root, G)
      ensures rn in G && G[rn].tree == old(G)[rn].tree && G[rn].inMemory && KidsClean(rn, G)
        && (rn != root ==> !G[rn].stale) && Cleaner(rn, depth, G0, G) && Apart(rn, rn, G0, G)
    {
      hide Addressed, Flat, FlatAll, WF, HashOf, NodeHashes, Links, Indexes, MirrorAll, EachOk, EachClean, EachMarked,
        Tidied, CleanerSo, WithoutBranch, ApartSo;
      TopIs(M, root, G, E);
      NodeAt(rn, {}, G, flags, pack.objects);
      if rn.upper == null {
        SetMod(rn, false, M);
        OneOk(rn, G[rn], {}, {}, old(G), flags, pack.objects);
      } else {
        KidsLower(rn, M, root, G, E);
        Refresh(pack, rn, depth, M);
      }
      MarkedOne(rn, G[rn], M, root, old(G));
      KidsCleanOne(rn, G[rn], M, root, old(G), E);
      CleanerOne(rn, G[rn], depth, G0, old(G));
      ApartOne(rn, rn, G[rn], G0, old(G));
    }

    /** Make everything actual that is marked. */
    method WalkUpdating(pack: Pack)
      requires Sound(pack) && Marked({}, root, G)
      modifies this`G, this`E, this`hash, G.Keys, pack`objects
      ensures Sound(pack) && old(pack.objects).Keys <= pack.objects.Keys && G.Keys <= old(G).Keys
        && E.Keys <= old(E).Keys
      ensures AllClean({}, root, G) && Current(hash, Value(degree, depth, Tree()), pack.objects) && Valid(pack)
      ensures root in old(G) && Tree() == Settled(false, Swept(root, old(G)), depth)
      ensures Tidied(old(Tree()), Swept(root, old(G)), degree, depth)
    {
      hide Addressed, Flat, FlatAll, WF, HashOf, NodeHashes, Links, Indexes, MirrorAll, EachOk, EachClean, EachMarked,
        RemoveAt, Others, Tidied, CleanerSo, ApartSo, Swept, Settled;
      TopAt({}, root, G, E);
      SweptIs(root, {}, degree, root, G, E);
      assert {} + {root} == {root};
      WalkUpdatingNode(pack, root, depth, {});
      TidiedIs(old(Tree()), G[root].tree, degree, depth);
      TopOnly(root, root, G, E);
      NothingStale({root}, root, G, E);
      SettledShape(false, G[root].tree, degree, depth);
      UpdateHash(pack);
      CleanMarked({}, root, G);
    }

    /** Delete every element of an entry of the index, which has been taken out of it. */
    method DeleteEach(pack: Pack, x: Hash, els: seq<RefsElement>, update: bool, ghost track: bool)
      requires pack.Valid() && root != null && Wired({}) && NodesOk({}, pack.objects) && root in G
        && WF(G[root].tree, degree, depth)
      requires limbo == SetOf(els) && Distinct(els) && (forall e <- els :: e in E && E[e].hash == x)
        && (track ==> Kept(!update, {}, root, G))
      modifies this`limbo, this`G, this`E, G.Keys, pack`objects
      ensures pack.Valid() && old(pack.objects).Keys <= pack.objects.Keys && root != null && root in G
        && G.Keys == old(G).Keys && E.Keys <= old(E).Keys
      ensures Wired({}) && NodesOk({}, pack.objects) && limbo == {} && WF(G[root].tree, degree, depth)
        && (track ==> Kept(!update, {}, root, G))
      ensures Cleared(Tree(), x) == Cleared(old(Tree()), x) && Len(Tree()) == Len(old(Tree())) - |els|
      ensures els != [] ==> G[root].mod == !update
      ensures !update ==> Thinned(x, {}, root, old(G), G)
    {
      hide Addressed, Flat, FlatAll, WF, HashOf, NodeHashes, Links, Indexes, MirrorAll, EachOk, EachClean, EachMarked,
        RemoveAt, Cleared, ThinnedSo;
      assert els[0..] == els;
      ThinnedSelf(x, root, G, E);
      for k := 0 to |els|
        invariant pack.Valid() && old(pack.objects).Keys <= pack.objects.Keys && root != null && root in G
          && G.Keys == old(G).Keys && E.Keys <= old(E).Keys
        invariant Wired({}) && NodesOk({}, pack.objects) && limbo == SetOf(els[k..]) && WF(G[root].tree, degree, depth)
          && (track ==> Kept(!update, {}, root, G))
        invariant forall e <- els[k..] :: e in E && E[e].hash == x
        invariant Cleared(Tree(), x) == Cleared(old(Tree()), x) && Len(Tree()) == Len(old(Tree())) - k
        invariant (k > 0 ==> G[root].mod == !update) && (!update ==> Thinned(x, {}, root, old(G), G))
      {
        var el := els[k];
        NextInLimbo(els, k);
        NextHave(els, k, E);
        ItemAt(el, root, G, E);
        ghost var t, i, F := Tree(), Position(el, G, E, root), E;
        DeleteElement(pack, el, update, i, track, x, old(G));
        RemoveAtIsRemoval(t, i);
        RemoveAtShape(t, i, degree, depth);
        ClearedRemoveAt(t, i, x);
        NextLeft(els, k, el, F);
      }
      assert els[|els|..] == [];
    }

    /** Make actual what deleting has left. */
    method FinishDeleting(pack: Pack, one: bool)
      requires Sound(pack) && (!flags.lazyUpdating ==> Kept(!one, {}, root, G))
      modifies this`G, this`E, this`hash, G.Keys, pack`objects
      ensures Sound(pack) && old(pack.objects).Keys <= pack.objects.Keys && G.Keys <= old(G).Keys
        && E.Keys <= old(E).Keys
      ensures flags.lazyUpdating ==>
              G == old(G) && E == old(E) && hash == old(hash) && pack.objects == old(pack.objects)
      ensures !flags.lazyUpdating ==>
              Valid(pack) && root in old(G)
              && Tree() == Settled(false, if one then old(Tree()) else Swept(root, old(G)), depth)
      ensures Flat(Tree()) == Flat(old(Tree()))
    {
      hide Addressed, Flat, FlatAll, WF, HashOf, NodeHashes, Links, Indexes, MirrorAll, EachOk, EachClean, EachMarked,
        Settled, Swept, Tidied;
      if !flags.lazyUpdating {
        ghost var t := Tree();
        if one {
          SettledShape(false, t, degree, depth);
          SettledFlat(false, t, depth);
          UpdateHash(pack);
        } else {
          WalkUpdating(pack);
          TidiedIs(t, Swept(root, old(G)), degree, depth);
          SettledFlat(false, Swept(root, old(G)), depth);
        }
      }
    }

    /** Take the entry of a hash out of the index, if there is one. */
    method TakeOut(pack: Pack, x: Hash) returns (els: seq<RefsElement>)
      requires Wired({}) && NodesOk({}, pack.objects) && root != null && flags.hashTableIndex && limbo == {}
      modifies this`refsIndex, this`limbo
      ensures Wired({}) && limbo == SetOf(els) && Distinct(els) && (forall e <- els :: e in E && E[e].hash == x)
      ensures root in G && (els == [] <==> x !in Flat(Tree()))
        && (els == [] ==> refsIndex == old(refsIndex) && limbo == {})
      ensures els != [] ==> x in old(refsIndex) && els == old(refsIndex)[x] && x !in refsIndex
      ensures x in old(refsIndex) ==> els == old(refsIndex)[x]
    {
      hide Addressed, Flat, FlatAll, WF, HashOf, NodeHashes, Links, Indexes, MirrorAll, EachOk;
      NoLimbo(refsIndex, E);
      IndexKnows(refsIndex, x, root, G, E, flags, pack.objects);
      if x !in refsIndex {
        return [];
      }
      els := refsIndex[x];
      TakeEntry(refsIndex, E, x);
      refsIndex := refsIndex - {x};
      limbo := SetOf(els);
    }

    /** Delete the elements of an entry that has been taken out of the index, and make actual what that has left. */
    method DeleteTaken(pack: Pack, x: Hash, els: seq<RefsElement>, one: bool)
      requires pack.Valid() && Wired({}) && NodesOk({}, pack.objects) && HashKnown(pack.objects) && root != null
        && root in G && WF(G[root].tree, degree, depth) && flags.hashTableIndex
      requires x !in refsIndex && els != [] && one == (|els| == 1) && (!flags.lazyUpdating ==> AllClean({}, root, G))
      requires limbo == SetOf(els) && Distinct(els) && forall e <- els :: e in E && E[e].hash == x
      modifies this`limbo, this`G, this`E, this`hash, G.Keys, pack`objects
      ensures Sound(pack) && old(pack.objects).Keys <= pack.objects.Keys && G.Keys <= old(G).Keys
        && E.Keys <= old(E).Keys
      ensures |els| == multiset(old(Flat(Tree())))[x] && root in old(G) && Flat(Tree()) == Others(old(Flat(Tree())), x)
      ensures Tree() == if one || flags.lazyUpdating then Settled(flags.lazyUpdating, Cleared(old(Tree()), x), depth)
                        else Settled(false, Swept(root, Erased(x, old(G))), depth)
      ensures if flags.lazyUpdating then hash == old(hash) && G[root].mod == !one else Valid(pack)
      ensures one && old(AllClean({}, root, G)) ==> AllClean({}, root, G)
      ensures !one && old(Kept(flags.lazyUpdating, {}, root, G)) ==> Valid(pack)
    {
      hide Addressed, Flat, FlatAll, WF, HashOf, NodeHashes, Links, Indexes, MirrorAll, EachOk, EachClean, EachMarked,
        Cleared, Swept, ThinnedSo, Erased;
      ghost var t := Tree();
      OthersCount(Flat(t), x);
      ClearedIs(t, x);
      ghost var track := Kept(!one, {}, root, G);
      if !flags.lazyUpdating {
        CleanMarked({}, root, G);
      }
      DeleteEach(pack, x, els, one, track);
      NoLimbo(refsIndex, E);
      IndexKnows(refsIndex, x, root, G, E, flags, pack.objects);
      ClearedSame(Tree(), x);
      if !one {
        SweptErased(x, root, old(G), G, E);
      }
      FinishDeleting(pack, one);
    }

    /**
     Delete all elements with the given hash, which the index tells.  A single one
     leaves its node behind even if that has no elements then, and the hashes of the
     nodes above are actual at once; of several, the nodes are marked and then walked.
     */
    method DeleteByHashUsingHashTable(pack: Pack, x: Hash) returns (err: Err)
      requires Sound(pack) && flags.hashTableIndex && (!flags.lazyUpdating ==> Valid(pack))
      modifies this`refsIndex, this`limbo, this`G, this`E, this`hash, this`iterators, G.Keys, pack`objects
      ensures Sound(pack) && old(pack.objects).Keys <= pack.objects.Keys && G.Keys <= old(G).Keys
        && E.Keys <= old(E).Keys
      ensures err == if x in old(Flat(Tree())) then Ok else NotFound
      ensures iterators == if x in old(Flat(Tree())) then Rewound(old(iterators)) else old(iterators)
      ensures Flat(Tree()) == Others(old(Flat(Tree())), x)
      ensures var t, n := old(Tree()), multiset(old(Flat(Tree())))[x];
              Tree() == if n == 0 then t
                        else if n == 1 || flags.lazyUpdating then Settled(flags.lazyUpdating, Cleared(t, x), depth)
                        else Settled(false, Swept(root, Erased(x, old(G))), depth)
      ensures flags.lazyUpdating ==>
                var n := multiset(old(Flat(Tree())))[x];
                hash == old(hash) && (n > 0 ==> G[root].mod == (n > 1))
      ensures !flags.lazyUpdating ==> Valid(pack)
      ensures multiset(old(Flat(Tree())))[x] <= 1 && old(AllClean({}, root, G)) ==> AllClean({}, root, G)
      ensures multiset(old(Flat(Tree())))[x] != 1 && old(Valid(pack)) ==> Valid(pack)
    {
      hide Addressed, Flat, FlatAll, WF, HashOf, NodeHashes, Links, Indexes, MirrorAll, EachOk, EachClean, EachMarked,
        Rewound, Cleared, Settled, Swept, Erased;
      ghost var es := Flat(Tree());
      OthersCount(es, x);
      var els := TakeOut(pack, x);
      if |els| == 0 {
        OthersSame(es, x);
        return NotFound;
      }
      var one := |els| == 1;
      DeleteTaken(pack, x, els, one);
      RewindIterators();
      return Ok;
    }

    // ----------------------------------------------------- building a slice

    /** Nodes that are being built have no hashes yet. */
    ghost predicate Building(rn: RefsNode, tail: seq<RefsNode>)
      reads `root, `depth, `degree, `flags, `refsIndex, `limbo, `G, `E, G.Keys, E.Keys
    {
      Wired({rn}) && root != null && root.height == depth && Raw(G) && limbo == {}
      && 0 < |tail| && tail[|tail| - 1] == rn && Tail(tail, root, G) && rn in G
      && WF(Whole(tail, root, G), degree, depth)
    }

    /** Let the whole tail know the tree of its last node. */
    ghost method TellBare(tail: seq<RefsNode>)
      requires |tail| > 0 && root != null && Wired({tail[|tail| - 1]}) && Tail(tail, root, G) && tail[|tail| - 1] in G
      modifies this`G
      ensures Wired({}) && Retold(tail[..|tail| - 1], old(G), G) && root in G
        && G[root].tree == old(Whole(tail, root, G))
      decreases |tail|
    {
      hide Addressed, Flat, FlatAll, WF, HashOf, NodeHashes, Links, Indexes, MirrorAll, TailNodes, Whole, AddEmpty,
        Free, AppendOne, RawSo, RetoldSo;
      var k := |tail| - 1;
      var m := tail[k];
      TailAbove(tail, k, {m}, root, G, E);
      RetoldSelf(G);
      if k == 0 {
        WholeOne(tail, root, G);
        TopOnly(root, root, G, E);
        return;
      }
      TailStep(tail, root, G, E);
      MirroredRetree(tail[k - 1], UpperTree(m, G[m].tree, G), G, E);
      G := Stepped(m, G);
      TellBare(tail[..k]);
      assert tail[..k][..k - 1] + [tail[k - 1]] == tail[..k];
      assert tail[..k][..k - 1] == tail[..k - 1];
      RetoldLast(tail[k - 1], UpperTree(m, old(G)[m].tree, old(G)), tail[..k - 1], old(G), G);
    }

    /** A branch after the last one of the last tail node. */
    method NewBareBranch(upper: RefsNode, ghost tail: seq<RefsNode>) returns (br: RefsNode)
      requires Wired({}) && root != null && |tail| > 0 && Tail(tail, root, G) && Raw(G)
      requires tail[|tail| - 1] == upper && upper in G && upper.height > 0 && G[upper].tree.Branch?
      modifies this`G, upper`branches, upper`contentMod
      ensures Wired({}) && Raw(G) && fresh(br) && br in G && br !in old(G) && Fresh()
      ensures br.height == upper.height - 1 && br.upper == upper && G[br].inMemory && G[br].tree == Empty(br.height)
      ensures Tail(tail + [br], root, G) && root in old(G) && root in G
        && G[root].tree == AddEmpty(old(G)[root].tree, |tail| - 1, br.height)
    {
      hide Addressed, Flat, FlatAll, WF, HashOf, NodeHashes, Links, Indexes, MirrorAll, TailNodes, Whole, AddEmpty,
        Free, AppendOne, RawSo, RetoldSo;
      TopAt({}, root, G, E);
      br := GrowBranch(upper, false, false, tail);
      ghost var G0, V := old(G), G;
      GrownLinks(tail, br, false, false, root, G0, E);
      GrownTree(tail, br, false, false, root, G0, E);
      GrownRaw(upper, br, G0);
      TellBare(tail);
      NotInTail(tail, br, root, G0);
      AfterRetelling(tail, br, root, V, G);
    }

    /** Append to the leafs of the last tail node, which is not full. */
    method AppendBareLeaf(rn: RefsNode, x: Hash, ghost tail: seq<RefsNode>)
      requires Building(rn, tail) && ValidDegree(degree) && rn.height == 0 && G[rn].tree.Leaf?
        && |G[rn].tree.es| < degree
      modifies this`refsIndex, this`G, this`E, rn`leafs
      ensures Building(rn, tail) && Fresh()
      ensures WF(old(Whole(tail, root, G)), degree, depth) && Free(old(Whole(tail, root, G)), degree, depth) > 0
      ensures Whole(tail, root, G) == AppendOne(old(Whole(tail, root, G)), degree, depth, x)
    {
      hide Addressed, Flat, FlatAll, WF, HashOf, NodeHashes, Links, Indexes, MirrorAll, TailNodes, Whole, AddEmpty,
        Free, AppendOne, RawSo, RetoldSo;
      var el := new RefsElement(x, rn);
      TailAt(tail, |tail| - 1, root, G);
      BareLeafed(tail, el, x, degree, root, G, E);
      AttachLeaf(el, {rn});
    }

    /** Go up from full leafs to the first node with room for a branch. */
    method AppendCreatingSliceNodeGoUp(rn0: RefsNode, depth0: nat, x: Hash, ghost tail0: seq<RefsNode>)
      returns (rn: RefsNode, d: nat, ghost tail: seq<RefsNode>)
      requires Building(rn0, tail0) && ValidDegree(degree) && rn0.height == depth0 == 0 && root in G
      requires WF(G[rn0].tree, degree, 0) && Free(G[rn0].tree, degree, 0) == 0
        && Free(Whole(tail0, root, G), degree, depth) > 0
      modifies this`refsIndex, this`G, this`E, G.Keys
      ensures Building(rn, tail) && rn.height == d == 0 && Fresh()
      ensures Whole(tail, root, G) == AppendOne(old(Whole(tail0, root, G)), degree, depth, x)
      decreases 2, 0
    {
      hide Addressed, Flat, FlatAll, WF, HashOf, NodeHashes, Links, Indexes, MirrorAll, TailNodes, Whole, AddEmpty,
        Free, AppendOne, RawSo, RetoldSo, PointAt;
      ghost var w := Whole(tail0, root, G);
      TellBare(tail0);
      AfterTellingAll(tail0, root, old(G), G);
      rn, d, tail := rn0, depth0, tail0;
      while true
        invariant Wired({}) && root in G && G[root].tree == w && Raw(G) && |tail| > 0 && tail[|tail| - 1] == rn
          && Tail(tail, root, G)
        invariant rn in G && rn.height == d && WF(G[rn].tree, degree, d) && Free(G[rn].tree, degree, d) == 0
          && G.Keys == old(G).Keys && E == old(E)
        decreases |tail|
      {
        PointTop(rn, tail, degree, root, G, E);
        TailAbove(tail, |tail| - 1, {}, root, G, E);
        WholeOne(tail, root, G);
        if rn.upper == null {
          assert false;
        }
        AboveFull(tail, degree, root, G, E);
        rn, d, tail := rn.upper, d + 1, tail[..|tail| - 1];
        TailAt(tail, |tail| - 1, root, G);
        MirroredAt(rn, G, E);
        if |rn.branches| != degree {
          break;
        }
      }
      PointTop(rn, tail, degree, root, G, E);
      MoreBut({}, {rn}, root, G, E);
      rn, d, tail := AppendCreatingSliceNode(rn, d, x, tail, false);
    }

    /** Append one element to a slice that is being built. */
    method AppendCreatingSliceNode(rn0: RefsNode, depth0: nat, x: Hash, ghost tail0: seq<RefsNode>, ghost made: bool)
      returns (rn: RefsNode, d: nat, ghost tail: seq<RefsNode>)
      requires Building(rn0, tail0) && ValidDegree(degree) && rn0.height == depth0 && root in G
      requires WF(G[rn0].tree, degree, depth0) && Free(Whole(tail0, root, G), degree, depth) > 0
        && (made ==> G[rn0].tree == Empty(depth0))
      requires depth0 > 0 ==> Free(G[rn0].tree, degree, depth0) > 0 && FreeLast(G[rn0].tree, degree, depth0) == 0
      modifies this`refsIndex, this`G, this`E, G.Keys
      ensures Building(rn, tail) && rn.height == d == 0 && Fresh()
      ensures Whole(tail, root, G) == AppendOne(old(Whole(tail0, root, G)), degree, depth, x)
      decreases if made then 0 else if depth0 > 0 then 1 else 3, depth0
    {
      hide Addressed, Flat, FlatAll, WF, HashOf, NodeHashes, Links, Indexes, MirrorAll, TailNodes, Whole, AddEmpty,
        Free, AppendOne, RawSo, RetoldSo, PointAt;
      MirroredAt(rn0, G, E);
      TailAt(tail0, |tail0| - 1, root, G);
      ghost var w, k := Whole(tail0, root, G), |tail0| - 1;
      if depth0 == 0 {
        LeafsOf(rn0, degree, {rn0}, root, G, E);
        LeafFull(G[rn0].tree, degree);
        if |rn0.leafs| == degree {
          rn, d, tail := AppendCreatingSliceNodeGoUp(rn0, depth0, x, tail0);
          return;
        }
        AppendBareLeaf(rn0, x, tail0);
        rn, d, tail := rn0, 0, tail0;
        return;
      }
      TellBare(tail0);
      AfterTellingAll(tail0, root, old(G), G);
      PointTop(rn0, tail0, degree, root, G, E);
      KidsShape(G[rn0].tree, degree, depth0);
      AppendEmpty(w, degree, depth, k, x);
      var br := NewBareBranch(rn0, tail0);
      PointTop(br, tail0 + [br], degree, root, G, E);
      EmptyIs(degree, br.height, x);
      EmptyLast(degree, br.height);
      MoreBut({}, {br}, root, G, E);
      rn, d, tail := AppendCreatingSliceNode(br, depth0 - 1, x, tail0 + [br], true);
    }

    /** Slice nodes in `done` are as they should be; the others have no hashes yet. */
    ghost predicate Slicing(done: Nodes, objects: Objects)
      reads `root, `G, `flags
    {
      root != null && Done(done, root, G) && AllOk(Undone(done, G), G, flags, objects) && Sane(G, objects)
    }

    /** Set the length of a slice node, mark it as loaded and save it. */
    method SliceSave(pack: Pack, rn: RefsNode, depth: nat, length: int, ghost done: Nodes)
      requires pack.Valid() && Wired({}) && Slicing(done, pack.objects) && rn in G && rn.height == depth
      requires length == Len(G[rn].tree) && forall b <- G[rn].branches :: b in done
      modifies this`G, rn`length, rn`loaded, rn`hash, rn`contentMod, pack`objects
      ensures pack.Valid() && old(pack.objects).Keys <= pack.objects.Keys && Wired({})
        && Slicing(done + {rn}, pack.objects)
      ensures FieldsOnly(old(G), G)
    {
      hide Addressed, Flat, FlatAll, WF, HashOf, NodeHashes, Links, Indexes, MirrorAll, EachOk, EachClean, DoneSo,
        SaneSo, FieldsOnlySo, Undone;
      SaneAt(rn, G, pack.objects);
      ghost var c, N := G[rn].(length := length, loaded := true), Undone(done + {rn}, G);
      CountedOk(rn, c, done, root, G, flags, pack.objects);
      SetLength(rn, length, {});
      ghost var H := G;
      SetLoaded(rn, {});
      Overwrite(old(G), rn, H[rn], c);
      UndoneSame(done + {rn}, old(G), G);
      DoneKidsOne(rn, c, done, root, old(G), E);
      TopIs({}, root, G, E);
      ghost var I := G;
      if rn.upper == null {
        SetMod(rn, false, {});
        OneOk(rn, G[rn], N, N, I, flags, pack.objects);
      } else {
        Refresh(pack, rn, depth, {}, N);
      }
      Overwrite(old(G), rn, c, G[rn]);
      NodeAt(rn, N, G, flags, pack.objects);
      SaneOne(rn, G[rn], old(G), old(pack.objects), pack.objects);
      DoneOne(rn, G[rn], done, root, old(G));
      FieldsOne(rn, G[rn], old(G));
      UndoneSame(done + {rn}, old(G), G);
    }

    /** Set the lengths and hashes of a slice from the leafs up. */
    method WalkUpdatingSliceNode(pack: Pack, rn: RefsNode, depth: nat, ghost done0: Nodes) returns (ghost done: Nodes)
      requires pack.Valid() && Wired({}) && Slicing(done0, pack.objects) && rn in G && rn.height == depth
        && WF(G[rn].tree, degree, depth)
      modifies this`G, G.Keys, pack`objects
      ensures pack.Valid() && old(pack.objects).Keys <= pack.objects.Keys && Wired({}) && Slicing(done, pack.objects)
      ensures done0 <= done && rn in done && FieldsOnly(old(G), G)
      decreases depth
    {
      hide Addressed, Flat, FlatAll, WF, HashOf, NodeHashes, Links, Indexes, MirrorAll, EachOk, EachClean, DoneSo,
        SaneSo, FieldsOnlySo, Undone;
      FieldsSelf(G);
      SaneAt(rn, G, pack.objects);
      MirroredAt(rn, G, E);
      done := done0;
      var length := 0;
      if depth == 0 {
        LeafsOf(rn, degree, {}, root, G, E);
        LeafsBare(rn, {}, root, G, E);
        length := |rn.leafs|;
      } else {
        KidsOf(rn, depth, degree, {}, root, G, E);
        ghost var ks := G[rn].tree.kids;
        PrefixNone(ks);
        for i := 0 to |rn.branches|
          invariant pack.Valid() && old(pack.objects).Keys <= pack.objects.Keys && Wired({})
            && Slicing(done, pack.objects)
          invariant done0 <= done && FieldsOnly(old(G), G) && rn in G && rn.branches == G[rn].branches
            && G[rn].tree == old(G)[rn].tree
          invariant |rn.branches| == |ks| && G.Keys == old(G).Keys
          invariant length == |FlatAll(ks[..i])| && forall k | 0 <= k < i :: rn.branches[k] in done
        {
          var br := rn.branches[i];
          BranchOf(rn, i, {}, root, G, E);
          ghost var H := G;
          done := WalkUpdatingSliceNode(pack, br, depth - 1, done);
          FieldsAt(rn, H, G);
          FieldsTrans(old(G), H, G);
          MirroredAt(rn, G, E);
          MirroredAt(br, G, E);
          DoneAt(br, done, root, G, flags, pack.objects);
          SaneAt(br, G, pack.objects);
          KidLength(rn, i, br.length, root, G, E);
          length := length + br.length;
        }
        assert ks[..|ks|] == ks;
        FieldsAt(rn, old(G), G);
      }
      ghost var H := G;
      SliceSave(pack, rn, depth, length, done);
      FieldsTrans(old(G), H, G);
      done := done + {rn};
    }

    /** Append all of `xs` to a slice that is being built. */
    method FillSlice(rn0: RefsNode, d0: nat, xs: seq<Hash>, ghost tail0: seq<RefsNode>)
      returns (rn: RefsNode, d: nat, ghost tail: seq<RefsNode>)
      requires Building(rn0, tail0) && ValidDegree(degree) && root in G && rn0.height == d0
        && |xs| <= Free(Whole(tail0, root, G), degree, depth)
      requires d0 == 0 || (G[rn0].tree == Empty(d0) && WF(Empty(d0), degree, d0))
      modifies this`refsIndex, this`G, this`E, G.Keys
      ensures Building(rn, tail) && rn.height == d && Fresh() && (xs != [] || d0 == 0 ==> d == 0)
        && (xs == [] ==> rn == rn0 && d == d0 && tail == tail0 && G == old(G))
      ensures Whole(tail, root, G) == AppendAll(old(Whole(tail0, root, G)), degree, depth, xs)
    {
      hide Addressed, Flat, FlatAll, WF, HashOf, NodeHashes, Links, Indexes, MirrorAll, EachOk, EachClean, EachMarked,
        Whole, TailNodes, Free, AppendAll, AppendOne, RawSo, RetoldSo, DoneSo, SaneSo, FieldsOnlySo, Undone, MinDepth,
        Packed, Cap, Times;
      rn, d, tail := rn0, d0, tail0;
      ghost var w := Whole(tail, root, G);
      AppendNone(w, degree, depth);
      for i := 0 to |xs|
        invariant Building(rn, tail) && root in G && rn.height == d && Fresh() && (i > 0 || d0 == 0 ==> d == 0)
        invariant i == 0 ==> rn == rn0 && d == d0 && tail == tail0 && G == old(G)
        invariant Whole(tail, root, G) == AppendAll(w, degree, depth, xs[..i])
      {
        AppendNext(w, degree, depth, xs, i);
        BuildingShape(rn, {rn}, tail, degree, root, G, E);
        if d > 0 {
          EmptyIs(degree, d, xs[i]);
          EmptyLast(degree, d);
        }
        rn, d, tail := AppendCreatingSliceNode(rn, d, xs[i], tail, false);
        TopAt({rn}, root, G, E);
      }
      assert xs[..|xs|] == xs;
    }

    /** Set lengths and hashes of a slice that has been built. */
    method WalkUpdatingSlice(pack: Pack, ghost rn: RefsNode, ghost tail: seq<RefsNode>)
      requires pack.Valid() && Building(rn, tail) && hash == Blank && ValidDegree(degree)
      modifies this`G, this`E, this`hash, G.Keys, pack`objects
      ensures Valid(pack) && AllClean({}, root, G) && old(pack.objects).Keys <= pack.objects.Keys
        && G.Keys <= old(G).Keys && E.Keys <= old(E).Keys
      ensures Current(hash, Value(degree, depth, Tree()), pack.objects)
        && Tree() == Settled(false, old(Whole(tail, root, G)), depth)
    {
      hide Addressed, Flat, FlatAll, WF, HashOf, NodeHashes, Links, Indexes, MirrorAll, EachOk, EachClean, EachMarked,
        Whole, TailNodes, Free, AppendAll, AppendOne, RawSo, RetoldSo, DoneSo, SaneSo, FieldsOnlySo, Undone, MinDepth,
        Packed, Cap, Times;
      TellBare(tail);
      AfterTellingAll(tail, root, old(G), G);
      RawStart(root, G, flags, pack.objects);
      TopAt({}, root, G, E);
      ghost var H := G;
      ghost var done := WalkUpdatingSliceNode(pack, root, depth, {});
      AllDone(done, root, G, E, flags, pack.objects);
      FieldsAt(root, H, G);
      UpdateHash(pack);
      BareShape(degree, depth);
      CleanMarked({}, root, G);
    }

    /** A blank Refs of the least depth that fits the given number of elements. */
    static method NewRefs(degree: nat, flags: Flags, fit: nat) returns (nr: Refs)
      requires ValidDegree(degree)
      ensures fresh(nr) && nr.degree == degree && nr.flags == flags && nr.depth == MinDepth(degree, fit)
        && nr.hash == Blank && nr.iterators == [] && nr.limbo == {}
      ensures nr.root != null && fresh(nr.root) && nr.Wired({}) && nr.E == map[]
        && nr.G == map[nr.root := Made(nr.depth, false, true)]
    {
      var depth := 0;
      if fit > degree {
        depth := DepthToFit(degree, 0, fit);
      }
      SmallDepth(degree, fit);
      LeastDepthUnique(degree, fit, depth, MinDepth(degree, fit));
      nr := new Refs(degree, flags, depth);
    }

    /** Fill this blank Refs with the given elements, first `xs` and then `ys`. */
    method Fill(pack: Pack, xs: seq<Hash>, ys: seq<Hash>)
      requires pack.Valid() && ValidDegree(degree) && hash == Blank && limbo == {}
        && depth == MinDepth(degree, |xs| + |ys|)
      requires root != null && Wired({}) && G == map[root := Made(depth, false, true)] && xs + ys != []
      modifies this`refsIndex, this`G, this`E, this`hash, G.Keys, pack`objects
      ensures Valid(pack) && Fresh() && old(pack.objects).Keys <= pack.objects.Keys && AllClean({}, root, G)
      ensures Current(hash, Value(degree, depth, Tree()), pack.objects) && Tree() == PackedMin(degree, xs + ys)
    {
      hide Addressed, Flat, FlatAll, WF, HashOf, NodeHashes, Links, Indexes, MirrorAll, EachOk, EachClean, EachMarked,
        Current, LeastDepth, PackedMin, Whole, TailNodes, Free, AppendAll, AppendOne, RawSo, MinDepth, Packed, Cap,
        Times, Calls, Stops, Loads, MoreItems;
      BuildingStart(root, depth, |xs| + |ys|, degree, G, E);
      FillMore(degree, depth, xs, ys);
      var rn, d;
      ghost var tail;
      rn, d, tail := FillSlice(root, depth, xs, [root]);
      TopAt({rn}, root, G, E);
      rn, d, tail := FillSlice(rn, d, ys, tail);
      WalkUpdatingSlice(pack, rn, tail);
      FillDone(degree, xs + ys);
    }

    /** A new Refs of the least depth with the given elements, first `xs` and then `ys`. */
    static method Make(pack: Pack, degree: nat, flags: Flags, xs: seq<Hash>, ys: seq<Hash>) returns (nr: Refs)
      requires pack.Valid() && ValidDegree(degree)
      modifies pack`objects
      ensures fresh(nr) && nr.Valid(pack) && old(pack.objects).Keys <= pack.objects.Keys && nr.degree == degree
        && nr.flags == flags && nr.iterators == []
      ensures nr.depth == MinDepth(degree, |xs| + |ys|) && nr.Tree() == PackedMin(degree, xs + ys)
      ensures AllClean({}, nr.root, nr.G) && Current(nr.hash, Value(degree, nr.depth, nr.Tree()), pack.objects)
      ensures (forall n <- nr.G :: fresh(n)) && (forall e <- nr.E :: fresh(e))
    {
      hide Addressed, Flat, FlatAll, WF, HashOf, NodeHashes, Links, Indexes, MirrorAll, EachOk, EachClean, EachMarked,
        Current, LeastDepth, PackedMin, Whole, TailNodes, Free, AppendAll, AppendOne, RawSo, MinDepth, Packed, Cap,
        Times, Calls, Stops, Loads, MoreItems;
      nr := NewRefs(degree, flags, |xs| + |ys|);
      if |xs| + |ys| == 0 {
        assert xs + ys == [];
        BlankValid(nr.root, nr.depth, degree, flags, nr.G, pack.objects);
        return;
      }
      nr.Fill(pack, xs, ys);
    }

    /** The elements from the i-th up to the j-th, as a new Refs. */
    method Slice(pack: Pack, i: int, j: int) returns (err: Err, slice: Refs?)
      requires Sound(pack)
      modifies this`refsIndex, this`G, this`E, this`iterators, G.Keys, pack`objects
      ensures Sound(pack) && Tree() == old(Tree()) && iterators == old(iterators) && Fresh()
        && (old(Valid(pack)) ==> Valid(pack))
      ensures old(pack.objects).Keys <= pack.objects.Keys
      ensures err ==
              if i < 0 || j < 0 || i > Len(Tree()) || j > Len(Tree()) then IndexOutOfRange
              else if i > j then InvalidSliceIndex
              else Ok
      ensures err == Ok ==>
              slice != null && fresh(slice) && slice.Valid(pack) && slice.degree == degree && slice.flags == flags
              && slice.iterators == []
              && slice.depth == MinDepth(degree, j - i)
              && slice.Tree() == PackedMin(degree, Flat(Tree())[i..j])
              && AllClean({}, slice.root, slice.G)
              && Current(slice.hash, Value(degree, slice.depth, slice.Tree()), pack.objects)
              && (forall n <- slice.G :: fresh(n)) && (forall e <- slice.E :: fresh(e))
    {
      hide Addressed, Flat, FlatAll, WF, HashOf, NodeHashes, Links, Indexes, MirrorAll, EachOk, EachClean, EachMarked,
        Current, LeastDepth, PackedMin, Whole, TailNodes, Free, AppendAll, AppendOne, RawSo, MinDepth, Packed, Cap,
        Times, Calls, Stops, Loads, MoreItems;
      var n := Length(pack);
      if i < 0 || j < 0 || i > n || j > n {
        return IndexOutOfRange, null;
      }
      if i > j {
        return InvalidSliceIndex, null;
      }
      var xs := Copy(pack, i, j);
      slice := MakeBeside(pack, xs);
      return Ok, slice;
    }

    /** A new Refs with the given elements beside this one, which stays as it is. */
    method MakeBeside(pack: Pack, xs: seq<Hash>) returns (nr: Refs)
      requires Sound(pack)
      modifies pack`objects
      ensures Sound(pack) && (old(Valid(pack)) ==> Valid(pack)) && old(pack.objects).Keys <= pack.objects.Keys
      ensures fresh(nr) && nr.Valid(pack) && nr.degree == degree && nr.flags == flags && nr.iterators == []
      ensures nr.depth == MinDepth(degree, |xs|) && nr.Tree() == PackedMin(degree, xs)
      ensures AllClean({}, nr.root, nr.G) && Current(nr.hash, Value(degree, nr.depth, nr.Tree()), pack.objects)
      ensures (forall n <- nr.G :: fresh(n)) && (forall e <- nr.E :: fresh(e))
    {
      hide Addressed, Flat, FlatAll, WF, HashOf, NodeHashes, Links, Indexes, MirrorAll, EachOk, EachClean, EachMarked,
        LeastDepth, PackedMin, MinDepth, Packed, Cap, Times, Loads, MoreItems;
      nr := Make(pack, degree, flags, xs, []);
      assert xs + [] == xs;
      MoreSound(flags, root, G, hash, Value(degree, depth, Tree()), old(pack.objects), pack.objects);
    }

    /** The hashes from the i-th up to the j-th. */
    method Copy(pack: Pack, i: nat, j: nat) returns (xs: seq<Hash>)
      requires Sound(pack) && i <= j <= Len(Tree())
      modifies this`refsIndex, this`G, this`E, this`iterators, G.Keys
      ensures Sound(pack) && Tree() == old(Tree()) && iterators == old(iterators) && Fresh()
        && (old(Valid(pack)) ==> Valid(pack))
      ensures xs == Flat(Tree())[i..j]
    {
      hide Addressed, Flat, FlatAll, WF, HashOf, NodeHashes, Links, Indexes, MirrorAll, EachOk, EachClean, EachMarked,
        Whole, TailNodes, Free, AppendAll, AppendOne, RawSo, MinDepth, Packed, Cap, Times, Calls, Stops, Loads,
        MoreItems;
      xs := [];
      if i == j {
        return;
      }
      var stop := (k, _) => k == j;
      var err, calls := AscendFrom(pack, i, stop);
      SliceCalls(Flat(Tree()), i, j, stop);
      xs := HashesOf(calls, j - i);
      assert xs == Flat(Tree())[i..j];
    }

    method Assign(nr: Refs)
      modifies this
      ensures hash == old(nr.hash) && depth == old(nr.depth) && degree == old(nr.degree) && root == old(nr.root)
        && flags == old(nr.flags)
      ensures refsIndex == old(nr.refsIndex) && iterators == old(nr.iterators) && G == old(nr.G) && E == old(nr.E)
        && limbo == old(nr.limbo)
    {
      hash, depth, degree, root := nr.hash, nr.depth, nr.degree, nr.root;
      flags, refsIndex, iterators := nr.flags, nr.refsIndex, nr.iterators;
      G, E, limbo := nr.G, nr.E, nr.limbo;
    }

    /** Replace this Refs with another one. */
    method Become(nr: Refs, ghost pack: Pack)
      requires nr.Valid(pack)
      modifies this
      ensures Valid(pack) && G == old(nr.G) && E == old(nr.E) && root == old(nr.root) && Tree() == old(nr.Tree())
        && hash == old(nr.hash)
      ensures degree == old(nr.degree) && depth == old(nr.depth) && flags == old(nr.flags)
        && iterators == old(nr.iterators)
    {
      hide Addressed, Flat, FlatAll, WF, HashOf, NodeHashes, Links, Indexes, EachOk, EachClean, EachMarked, Mirrors,
        Current, ContentAddressed;
      Assign(nr);
      forall n | n in G
        ensures Mirrors(n, G[n])
      {
        assert old(Mirrors(n, nr.G[n]));
      }
      assert MirrorAll(G, E);
    }

    /** Replace this Refs with another one, keeping the iterators that run. */
    method TakeOver(nr: Refs, ghost pack: Pack)
      requires nr.Valid(pack)
      modifies this, nr`iterators
      ensures Valid(pack) && G == old(nr.G) && E == old(nr.E) && root == old(nr.root) && Tree() == old(nr.Tree())
        && hash == old(nr.hash)
      ensures degree == old(nr.degree) && depth == old(nr.depth) && flags == old(nr.flags)
        && iterators == old(iterators)
    {
      hide Addressed, Flat, FlatAll, WF, HashOf, NodeHashes, Links, Indexes, EachOk, EachClean, EachMarked, MirrorAll,
        Current;
      nr.iterators := iterators;
      Become(nr, pack);
    }

    /** Replace this Refs with a copy of the least depth. */
    method Shrink(pack: Pack, n: nat)
      requires Sound(pack) && n == Len(Tree())
      modifies this, G.Keys, E.Keys, pack`objects
      ensures Valid(pack) && Fresh() && old(pack.objects).Keys <= pack.objects.Keys && degree == old(degree)
        && flags == old(flags)
      ensures AllClean({}, root, G) && Current(hash, Value(degree, depth, Tree()), pack.objects) && iterators == []
      ensures depth == MinDepth(degree, n) && Tree() == PackedMin(degree, Flat(old(Tree())))
    {
      hide Addressed, Flat, FlatAll, WF, HashOf, NodeHashes, Links, Indexes, MirrorAll, EachOk, EachClean, EachMarked,
        Current, LeastDepth, PackedMin, Free, AppendAll, AppendKeepsHashes, MinDepth, Packed, Loads, MoreItems;
      ghost var es := Flat(Tree());
      var err, slice := Slice(pack, 0, n);
      assert es[0..n] == es;
      Become(slice, pack);
    }

    /**
     Make everything actual, and the depth the least.  At the same depth nothing
     is walked if the root is not marked, as appending leaves it even when there
     are changes that have not been hashed.
     */
    method Rebuild(pack: Pack) returns (err: Err)
      requires Sound(pack)
      requires Valid(pack) || MinDepth(degree, Len(Tree())) != depth || !root.contentMod
      modifies this, G.Keys, E.Keys, pack`objects
      ensures Sound(pack) && Fresh() && old(pack.objects).Keys <= pack.objects.Keys && degree == old(degree)
        && flags == old(flags)
      ensures err == (if old(iterators) != [] then RefsIterating else Ok) && iterators == old(iterators)
        && Flat(Tree()) == Flat(old(Tree()))
      ensures old(Valid(pack)) ==> Valid(pack)
      ensures err == Ok && (old(Valid(pack)) || MinDepth(degree, Len(old(Tree()))) != old(depth)) ==>
                Valid(pack) && AllClean({}, root, G) && Current(hash, Value(degree, depth, Tree()), pack.objects)
      ensures err == Ok && !old(root.contentMod) ==>
                var n := Len(old(Tree()));
                MinDepth(degree, n) == old(depth) && n > 0 ==>
                  (HashesActual(root, G) <==> old(HashesActual(root, G)))
      ensures err == Ok && MinDepth(degree, Len(old(Tree()))) != old(depth) ==>
                depth == MinDepth(degree, Len(old(Tree()))) && Tree() == PackedMin(degree, Flat(old(Tree())))
      ensures err == Ok && MinDepth(degree, Len(old(Tree()))) == old(depth) ==>
                depth == old(depth) && root == old(root)
                && Tree() == Settled(false, if old(root.contentMod) then Swept(root, old(G)) else old(Tree()), depth)
                && (Len(Tree()) > 0 && NoBlanks(old(Tree())) ==> Tree() == old(Tree()))
    {
      hide Addressed, Flat, FlatAll, WF, HashOf, NodeHashes, Links, Indexes, MirrorAll, EachOk, EachClean, EachMarked,
        Current, LeastDepth, PackedMin, Free, AppendAll, AppendKeepsHashes, MinDepth, Packed, Loads, MoreItems,
        HashesActual, Swept, Settled, Tidied;
      if |iterators| > 0 {
        return RefsIterating;
      }
      var n := Length(pack);
      var dif := DepthToFit(degree, 0, n);
      LeastDepthUnique(degree, n, dif, MinDepth(degree, n));
      if dif != depth {
        PackedFlatMin(degree, Flat(Tree()));
        Shrink(pack, n);
        return Ok;
      }
      if root.contentMod {
        if !flags.lazyUpdating {
          CleanMarked({}, root, G);
        }
        ghost var t := Tree();
        WalkUpdating(pack);
        TidiedIs(t, Swept(root, old(G)), degree, depth);
        SettledFlat(false, Swept(root, old(G)), depth);
        SettledLen(false, Swept(root, old(G)), depth);
      } else {
        WalkNothing(pack);
      }
      return Ok;
    }

    method CopyAll(pack: Pack) returns (xs: seq<Hash>)
      requires Sound(pack)
      modifies this`refsIndex, this`G, this`E, this`iterators, G.Keys
      ensures Sound(pack) && Tree() == old(Tree()) && iterators == old(iterators) && Fresh() && xs == Flat(Tree())
    {
      hide Addressed, Flat, FlatAll, WF, HashOf, NodeHashes, Links, Indexes, MirrorAll, EachOk, EachClean, EachMarked,
        Current, Loads, MoreItems;
      var n := Length(pack);
      xs := Copy(pack, 0, n);
    }

    /** Walk from a root that is not marked: nothing but the hash of the Refs is updated. */
    method WalkNothing(pack: Pack)
      requires Sound(pack) && !root.contentMod
      modifies this`G, this`E, this`hash, G.Keys, pack`objects
      ensures Sound(pack) && old(pack.objects).Keys <= pack.objects.Keys && Fresh()
      ensures old(Valid(pack)) ==>
              Valid(pack) && AllClean({}, root, G) && Current(hash, Value(degree, depth, Tree()), pack.objects)
      ensures Flat(Tree()) == Flat(old(Tree())) && Tree() == Settled(false, old(Tree()), depth)
      ensures Len(old(Tree())) > 0 ==> Tree() == old(Tree()) && (HashesActual(root, G) <==> old(HashesActual(root, G)))
    {
      hide Addressed, Flat, FlatAll, WF, HashOf, NodeHashes, Links, Indexes, MirrorAll, EachOk, EachClean, EachMarked,
        Current, LeastDepth, PackedMin, Free, AppendAll, AppendKeepsHashes, MinDepth, Packed, Loads, MoreItems;
      ghost var G0 := G;
      MirroredAt(root, G, E);
      if Kept(flags.lazyUpdating, {}, root, G) {
        UnmarkedClean(flags.lazyUpdating, root, G, E, flags, pack.objects);
      }
      SettledFlat(false, Tree(), depth);
      BareShape(degree, depth);
      UpdateHash(pack);
      if Len(Tree()) > 0 {
        SameActual(root, G0, G);
      }
      ghost var clean := AllClean({}, root, G);
      if clean {
        CleanMarked({}, root, G);
      }
    }

    /** Replace this Refs with a copy of the least depth that has the hashes appended. */
    method Enlarge(pack: Pack, xs: seq<Hash>)
      requires Sound(pack)
      modifies this, G.Keys, E.Keys, pack`objects
      ensures Valid(pack) && Fresh() && old(pack.objects).Keys <= pack.objects.Keys && degree == old(degree)
        && flags == old(flags) && iterators == old(iterators)
      ensures AllClean({}, root, G) && Current(hash, Value(degree, depth, Tree()), pack.objects)
      ensures depth == MinDepth(degree, Len(old(Tree())) + |xs|) && Tree() == PackedMin(degree, Flat(old(Tree())) + xs)
    {
      hide Addressed, Flat, FlatAll, WF, HashOf, NodeHashes, Links, Indexes, MirrorAll, EachOk, EachClean, EachMarked,
        Current, LeastDepth, PackedMin, Free, AppendAll, AppendKeepsHashes, MinDepth, Packed, Loads, MoreItems;
      var hashes := CopyAll(pack);
      var nr := Make(pack, degree, flags, hashes, xs);
      TakeOver(nr, pack);
    }

    /** Append the hashes in place, or to a deeper copy of the Refs if they do not fit. */
    method AppendHashes(pack: Pack, xs: seq<Hash>) returns (err: Err)
      requires Sound(pack)
      modifies this, G.Keys, E.Keys, pack`objects
      ensures err == Ok && Sound(pack) && Fresh() && old(pack.objects).Keys <= pack.objects.Keys
      ensures degree == old(degree) && flags == old(flags) && iterators == old(iterators)
      ensures Fits(old(Tree()), old(degree), old(depth), |xs|) ==>
                depth == old(depth) && Tree() == AppendAll(old(Tree()), degree, depth, xs)
                && (old(AllClean({}, root, G)) ==>
                    (AppendKeepsHashes(old(Tree()), degree, depth, |xs|) <==> HashesActual(root, G)))
      ensures !Fits(old(Tree()), old(degree), old(depth), |xs|) ==>
                depth == MinDepth(degree, Len(old(Tree())) + |xs|)
                && Tree() == PackedMin(degree, Flat(old(Tree())) + xs) && Valid(pack)
      ensures old(UpToDate(pack)) && AppendStaysActual(old(Tree()), old(degree), old(depth), |xs|) ==> UpToDate(pack)
    {
      hide Addressed, Flat, FlatAll, WF, HashOf, NodeHashes, Links, Indexes, MirrorAll, EachOk, EachClean, EachMarked,
        Free, AppendAll, AppendKeepsHashes, MinDepth, Packed, Loads, MoreItems;
      if |xs| == 0 {
        AppendNone(Tree(), degree, depth);
        NothingKeeps(Tree(), degree, depth);
        if AllClean({}, root, G) {
          CleanActual(root, G, flags, pack.objects);
        }
        return Ok;
      }
      TopAt({}, root, G, E);
      ghost var t := Tree();
      var fsotn := FreeSpaceOnTailNode(pack, root, depth, |xs|);
      LoadedAt(root, old(G), G);
      LoadedValid(false, root, old(G), G);
      if fsotn < |xs| {
        Enlarge(pack, xs);
        return Ok;
      }
      AppendInPlace(pack, xs);
      return Ok;
    }

    // ------------------------------------------------------------- initialize

    /** The blank root a Refs starts from. */
    method StartRoot(pack: Pack)
      requires pack.Valid()
      modifies this
      ensures hash == old(hash) && iterators == old(iterators) && flags == pack.flags && degree == pack.degree
        && depth == 0
      ensures root == null && G == map[] && E == map[] && limbo == {} && refsIndex == map[]
    {
      flags, degree, depth := pack.flags, pack.degree, 0;
      root, refsIndex := null, map[];
      G, E, limbo := map[], map[], {};
    }

    /** Put a root at the given depth. */
    method PlaceRoot(depth: nat, degree: nat)
      requires ValidDegree(degree) && G == map[] && E == map[] && limbo == {} && refsIndex == map[]
      modifies this`root, this`depth, this`degree, this`G
      ensures root != null && fresh(root) && Wired({}) && G == map[root := Made(depth, false, true)]
        && this.depth == depth && this.degree == degree
    {
      var rn := new RefsNode(Blank, null, depth);
      rn.loaded := true;
      this.depth, this.degree, root := depth, degree, rn;
      G := map[rn := Made(depth, false, true)];
    }

    /** Load what the encoding of the Refs lists. */
    method LoadRoot(pack: Pack, length: int, elements: seq<Hash>, ghost t: Tree)
      requires pack.Valid() && root != null && Wired({}) && G == map[root := Made(depth, false, true)]
      requires WF(t, degree, depth) && Elements(t) == elements && Len(t) == length && KidHashes(t) <= pack.objects.Keys
      modifies this`refsIndex, this`G, this`E, G.Keys
      ensures root in G && Wired({}) && NodesOk({}, pack.objects) && G[root].tree == t && AllClean({}, root, G)
        && Fresh() && NoneDeeper(flags, old(G), G)
    {
      hide Addressed, Flat, FlatAll, WF, HashOf, NodeHashes, Links, Indexes, MirrorAll, EachOk, EachClean, EachMarked,
        Loads, MoreItems, Adds, ReadRoot, ReadElements, NotDeeper;
      ghost var rn, G0 := root, G;
      MoreBut({}, {root}, root, G, E);
      SetLength(root, length, {root});
      RootAlone(root, length, depth, flags, pack.objects);
      ghost var H := G;
      assert H == map[root := Made(depth, false, true).(length := length)];
      if depth == 0 {
        LeafShape(t, degree);
        LoadRootLeafs(elements);
        AddedSelf(root, G[root], H);
        OneOk(root, G[root], {root}, {root}, H, flags, pack.objects);
        DeeperNothing(flags, old(G), G);
      } else {
        KidsShape(t, degree, depth);
        LoadEach(pack, root, depth, elements, t.kids, {root});
        DeeperNothing(flags, old(G), H);
        DeeperTrans(root, flags, old(G), H, G);
      }
      TopAt({root}, root, G, E);
      RootLoaded(root, t, H, G, flags, pack.objects);
      TopOnly(root, root, G, E);
    }

    method LoadRootLeafs(elements: seq<Hash>)
      requires root != null && Wired({root}) && depth == 0 && root in G && G[root].inMemory && G[root].tree == Leaf([])
        && G[root].branches == []
      modifies this`refsIndex, this`G, this`E, root`leafs
      ensures root != null && Wired({root}) && Fresh() && root in G && G == old(G)[root := G[root]]
      ensures G[root] == old(G)[root].(leafs := G[root].leafs, tree := Leaf(elements))
    {
      hide Addressed, Flat, FlatAll, WF, HashOf, NodeHashes, Links, Indexes, MirrorAll, EachOk, EachClean, EachMarked,
        Loads, Adds, ReadRoot, ReadElements;
      ghost var G0 := G;
      NothingLoaded(G, E);
      for i := 0 to |elements|
        invariant Wired({root}) && Fresh() && MoreItems(old(E), E)
        invariant root in G && G == G0[root := G0[root].(leafs := G[root].leafs, tree := Leaf(elements[..i]))]
      {
        ghost var c := G[root];
        var re := LoadLeaf(elements[i], root, {root});
        Overwrite(G0, root, c, G[root]);
        SliceSnoc(elements, i);
      }
      assert elements[..|elements|] == elements;
    }

    /** Build the Refs that has been read. */
    method LoadRefs(pack: Pack, er: Blob)
      requires pack.Valid() && Readable(pack.objects, hash) && hash != Blank && FirstError(pack.objects, hash) == Ok
      requires er == pack.objects[hash] && er.RootBlob?
      requires flags == pack.flags && G == map[] && E == map[] && limbo == {} && refsIndex == map[]
      modifies this`root, this`depth, this`degree, this`refsIndex, this`G, this`E, G.Keys
      ensures Valid(pack) && AllClean({}, root, G) && Fresh()
      ensures LoadedAs(flags, root, G)
      ensures Current(hash, Value(degree, depth, Tree()), pack.objects)
      ensures ReadRoot(pack.objects, hash, pack.degree) == Some(Value(degree, depth, Tree()))
    {
      hide Addressed, Flat, FlatAll, WF, HashOf, NodeHashes, Links, Indexes, MirrorAll, EachOk, EachClean, EachMarked,
        ReadElements, Elements;
      ReadableIs(pack.objects, hash, pack.degree);
      ghost var v := ReadRoot(pack.objects, hash, pack.degree).value;
      PlaceRoot(er.depth, er.degree);
      ghost var H := G;
      LoadRoot(pack, er.length, er.elements, v.tree);
      CleanMarked({}, root, G);
      LoadedAsTold(root, H, G, E, flags, pack.objects);
    }

    /** Load the Refs that the hash stands for; the nodes below the root are loaded as the flags ask for it. */
    method Initialize(pack: Pack) returns (err: Err)
      requires pack.Valid()
      requires if root != null then Valid(pack) else Readable(pack.objects, hash)
      modifies this, G.Keys
      ensures pack.objects == old(pack.objects) && hash == old(hash) && iterators == old(iterators)
      ensures old(root) != null ==>
              err == Ok && Valid(pack) && G == old(G) && E == old(E) && root == old(root) && degree == old(degree)
              && depth == old(depth)
      ensures old(root) == null ==> err == FirstError(pack.objects, hash) && flags == pack.flags
      ensures old(root) == null ==>
              (err == NotFound <==> hash != Blank && hash !in pack.objects)
              && (err == DecodingFailed <==>
                  hash != Blank && hash in pack.objects && !pack.objects[hash].RootBlob?)
              && (err == InvalidEncodedRefs <==>
                  hash != Blank && hash in pack.objects && pack.objects[hash].RootBlob?
                  && (pack.objects[hash].length == 0 || !(2 <= pack.objects[hash].degree <= 1024)))
              && err in {Ok, NotFound, DecodingFailed, InvalidEncodedRefs}
      ensures old(root) == null && err == Ok ==>
              Valid(pack) && AllClean({}, root, G) && Current(hash, Value(degree, depth, Tree()), pack.objects)
      ensures old(root) == null && err == Ok ==>
              ReadRoot(pack.objects, hash, pack.degree) == Some(Value(degree, depth, Tree()))
      ensures old(root) == null && err == Ok ==> LoadedAs(flags, root, G)
      ensures old(root) == null && err == Ok ==> (forall n <- G :: fresh(n)) && (forall e <- E :: fresh(e))
    {
      hide Addressed, Flat, FlatAll, WF, HashOf, NodeHashes, Links, Indexes, MirrorAll, EachOk, EachClean, EachMarked,
        ReadElements, Elements, LoadedSo;
      if root != null {
        return Ok;
      }
      StartRoot(pack);
      if hash == Blank {
        PlaceRoot(0, degree);
        LoadedBlank(root, flags, G);
        BlankIs(root, degree, flags, G, pack.objects);
        CleanMarked({}, root, G);
        return Ok;
      }
      var er;
      err, er := pack.Get(hash);
      if err != Ok {
        return;
      }
      if !er.RootBlob? {
        return DecodingFailed;
      }
      if er.length == 0 || !ValidDegree(er.degree) {
        return InvalidEncodedRefs;
      }
      LoadRefs(pack, er);
      return Ok;
    }

    /** Forget everything but the hash. */
    method Reset() returns (err: Err)
      modifies this
      ensures err == if old(iterators) != [] then RefsIterating else Ok
      ensures hash == old(hash) && iterators == old(iterators)
      ensures err == Ok ==> root == null && G == map[] && E == map[]
      ensures err != Ok ==> unchanged(this)
    {
      if |iterators| > 0 {
        return RefsIterating;
      }
      Forget();
      return Ok;
    }

    method Forget()
      modifies this
      ensures hash == old(hash) && iterators == old(iterators) && root == null && G == map[] && E == map[]
    {
      depth, degree, root, flags, refsIndex := 0, 0, null, Flags(false, false, false), map[];
      G, E, limbo := map[], map[], {};
    }

    /** Reload round trip: what is actual is loaded again from its hash. */
    method Reload(pack: Pack) returns (err: Err)
      requires Valid(pack) && Current(hash, Value(degree, depth, Tree()), pack.objects)
      modifies this
      ensures pack.objects == old(pack.objects) && hash == old(hash)
        && err == if old(iterators) != [] then RefsIterating else Ok
      ensures Valid(pack) && Flat(Tree()) == Flat(old(Tree()))
      ensures err == Ok ==>
              AllClean({}, root, G) && flags == pack.flags && Current(hash, Value(degree, depth, Tree()), pack.objects)
      ensures Len(Tree()) > 0 ==> Tree() == old(Tree()) && degree == old(degree) && depth == old(depth)
    {
      hide Addressed, Flat, FlatAll, WF, HashOf, NodeHashes, Links, Indexes, MirrorAll, EachOk, EachClean, EachMarked,
        ReadElements, Elements, MinDepth;
      ghost var v, known := Value(degree, depth, Tree()), pack.objects;
      ReloadReadable(known, hash, v, pack.degree);
      err := Reset();
      if err != Ok {
        return;
      }
      err := Initialize(pack);
    }

    /** The hash of the i-th element. */
    method HashByIndex(pack: Pack, i: int) returns (err: Err, x: Hash)
      requires Sound(pack)
      modifies this`refsIndex, this`G, this`E, G.Keys
      ensures Sound(pack) && Tree() == old(Tree()) && LoadedFrom(old(G), G) && MoreItems(old(E), E) && Fresh()
        && (old(Valid(pack)) ==> Valid(pack))
      ensures err == if 0 <= i < Len(Tree()) then Ok else IndexOutOfRange
      ensures 0 <= i < Len(Tree()) ==> x == Flat(Tree())[i]
    {
      hide Addressed, Flat, FlatAll, WF, HashOf, NodeHashes, Links, Indexes, MirrorAll, EachOk, EachClean, EachMarked,
        Loads, MoreItems, Others, Rewound;
      x := Blank;
      NothingLoaded(G, E);
      var n := Length(pack);
      if i < 0 || i >= n {
        return IndexOutOfRange, Blank;
      }
      TopAt({}, root, G, E);
      ghost var H := G;
      var el := ElementByIndex(pack, root, i, depth);
      LoadedAt(root, H, G);
      LoadedValid(flags.lazyUpdating, root, H, G);
      LeafSetTop(el, Blank, i, root, G, E);
      ItemMirrored(el, G, E);
      return Ok, el.hash;
    }

    /** The index of the first element of a node. */
    method NodeIndex(rn: RefsNode, ghost objects: Objects) returns (i: nat)
      requires Wired({}) && NodesOk({}, objects) && root != null && rn in G && (forall n <- G :: G[n].inMemory)
      ensures i == Start(rn, G, root)
    {
      hide Addressed, Flat, FlatAll, WF, HashOf, NodeHashes, Links, Indexes, MirrorAll, EachOk, EachClean, EachMarked,
        Loads, MoreItems, Others, Rewound;
      i := 0;
      var down, up := rn, rn.upper;
      TopIs({}, root, G, E);
      while up != null
        invariant down in G && up == down.upper
        invariant Start(rn, G, root) == i + Start(down, G, root)
        decreases root.height - down.height
      {
        StartOf(down, root, G, E);
        UpperOf(down, {}, root, G, E);
        MirroredAt(up, G, E);
        ghost var ks := G[up].tree.kids;
        var k := 0;
        PrefixNone(ks);
        ghost var i0 := i;
        while up.branches[k] != down
          invariant k <= G[down].pos && i == i0 + |FlatAll(ks[..k])|
          decreases G[down].pos - k
        {
          BranchOf(up, k, {}, root, G, E);
          MirroredAt(up.branches[k], G, E);
          NodeAt(up.branches[k], {}, G, flags, objects);
          FlatAllPrefix(ks, k);
          i, k := i + up.branches[k].length, k + 1;
        }
        BranchOf(up, k, {}, root, G, E);
        down, up := up, up.upper;
      }
    }

    /** The index of a leaf. */
    method IndexInRefs(el: RefsElement, ghost objects: Objects) returns (i: nat)
      requires Wired({}) && NodesOk({}, objects) && root != null && el in E && (forall n <- G :: G[n].inMemory)
      ensures Positioned(el, G, E, root) && i == Position(el, G, E, root)
      ensures root in G && i < Len(G[root].tree) && Flat(G[root].tree)[i] == el.hash
    {
      hide Addressed, Flat, FlatAll, WF, HashOf, NodeHashes, Links, Indexes, MirrorAll, EachOk, EachClean, EachMarked,
        Loads, MoreItems, Others, Rewound;
      ItemAt(el, root, G, E);
      TopAt({}, root, G, E);
      var j := ElementIndex(el.upper, el);
      var k := NodeIndex(el.upper, objects);
      LeafSetTop(el, Blank, k + j, root, G, E);
      ItemMirrored(el, G, E);
      return k + j;
    }

    /**
     Delete all elements with the given hash.  Without a hash table the nodes go that
     this makes empty.  With one, the node of a single element stays, and of several
     a walk takes away all empty branches of the nodes it visits.
     */
    method DeleteByHash(pack: Pack, x: Hash) returns (err: Err)
      requires Sound(pack) && ((flags.lazyUpdating && flags.hashTableIndex) || Valid(pack))
      modifies this`refsIndex, this`limbo, this`G, this`E, this`hash, this`iterators, G.Keys, E.Keys, pack`objects
      ensures Sound(pack) && old(pack.objects).Keys <= pack.objects.Keys && Fresh()
      ensures iterators == if x in old(Flat(Tree())) then Rewound(old(iterators)) else old(iterators)
      ensures err == if x in old(Flat(Tree())) then Ok else NotFound
      ensures Flat(Tree()) == Others(old(Flat(Tree())), x)
      ensures var t, n := old(Tree()), multiset(old(Flat(Tree())))[x];
              Tree() == if n == 0 then t
                        else if !flags.hashTableIndex then Settled(flags.lazyUpdating, Trimmed(t, x), depth)
                        else if n == 1 || flags.lazyUpdating then Settled(flags.lazyUpdating, Cleared(t, x), depth)
                        else Settled(false, Swept(root, Erased(x, old(G))), depth)
      ensures NoBlanks(old(Tree())) && !flags.lazyUpdating && multiset(old(Flat(Tree())))[x] > 1 ==>
              Tree() == Settled(false, Trimmed(old(Tree()), x), depth)
      ensures !(flags.lazyUpdating && flags.hashTableIndex) ==> Valid(pack)
      ensures flags.lazyUpdating ==> hash == old(hash)
      ensures flags.lazyUpdating && flags.hashTableIndex ==>
                var n := multiset(old(Flat(Tree())))[x];
                n > 0 ==> G[root].mod == (n > 1)
      ensures flags.hashTableIndex && multiset(old(Flat(Tree())))[x] <= 1 && old(AllClean({}, root, G)) ==>
              AllClean({}, root, G)
      ensures flags.hashTableIndex && multiset(old(Flat(Tree())))[x] != 1 && old(Valid(pack)) ==> Valid(pack)
    {
      hide Addressed, Flat, FlatAll, WF, HashOf, NodeHashes, Links, Indexes, MirrorAll, EachOk, EachClean, EachMarked,
        Loads, MoreItems, Others, Rewound, Settled, Trimmed, Cleared, Swept, Erased;
      ghost var t := Tree();
      OthersCount(Flat(t), x);
      if flags.hashTableIndex {
        if NoBlanks(t) {
          AllInMemory(G, flags, pack.objects);
          SweptTrimmed(x, root, root, G, E);
        }
        err := DeleteByHashUsingHashTable(pack, x);
        return;
      }
      var deleted;
      err, deleted := DescendDeleting(pack, x);
      if err == Ok && !deleted {
        err := NotFound;
      }
    }
  }
}
