/** What holds of the objects of a Refs as a whole. */
module RefsState {
  import opened Hashing
  import opened Trees
  import opened Merkle
  import opened RefsNodes
  import opened RefsGraph
  import opened RefsLinks

  /** A node in memory above the leafs has one branch for each subtree. */
  lemma KidsOf(rn: RefsNode, depth: nat, degree: nat, M: Nodes, root: RefsNode, G: Graph, E: Items)
    requires LinkedBut(M, root, G, E) && Here(rn, depth, degree, G) && depth > 0
    ensures G[rn].tree.Branch? && |G[rn].branches| == |G[rn].tree.kids| <= degree
    ensures forall i | 0 <= i < |G[rn].tree.kids| :: WF(G[rn].tree.kids[i], degree, depth - 1)
    ensures Flat(G[rn].tree) == FlatAll(G[rn].tree.kids)
  {
    assert Holds(rn, M, G, E);
  }

  lemma LeafsOf(rn: RefsNode, degree: nat, M: Nodes, root: RefsNode, G: Graph, E: Items)
    requires LinkedBut(M, root, G, E) && Here(rn, 0, degree, G)
    ensures G[rn].tree.Leaf? && |G[rn].leafs| == |G[rn].tree.es| == Len(G[rn].tree) <= degree
  {
    assert Holds(rn, M, G, E);
  }

  lemma StartOf(b: RefsNode, root: RefsNode, G: Graph, E: Items)
    requires LinkedBut({}, root, G, E) && b in G && b != root
    ensures b.upper != null && b.upper in G && G[b.upper].tree.Branch? && G[b].pos < |G[b.upper].tree.kids|
    ensures Start(b, G, root) == Start(b.upper, G, root) + |FlatAll(G[b.upper].tree.kids[..G[b].pos])|
  {
    UpperOf(b, {}, root, G, E);
  }

  // ------------------------------------------------------------------ hashes

  /** A node whose branches are as they should be lists the hashes its tree has. */
  lemma ListedIs(n: RefsNode, depth: nat, M: Nodes, root: RefsNode, flags: Flags, objects: Objects, G: Graph, E: Items,
          N: Nodes := {})
    requires Mirrored(G, E) && LinkedBut(M, root, G, E) && AllOk(N, G, flags, objects)
    requires n in G && n.height == depth && G[n].inMemory && KidsClean(n, G)
      && forall b <- G[n].branches :: b !in M && b !in N
    ensures n.Listed(depth) == Elements(G[n].tree)
    ensures KidHashes(G[n].tree) <= objects.Keys
  {
    hide Flat, FlatAll, NodeHashes, Links, EachOk;
    HoldsAt(n, M, root, G, E);
    MirroredAt(n, G, E);
    if depth == 0 {
      forall i | 0 <= i < |G[n].leafs|
        ensures G[n].leafs[i].hash == G[n].tree.es[i]
      {
        assert IsLeaf(G[n].leafs[i], n, i, G[n].tree.es[i], E);
      }
      assert n.Listed(depth) == G[n].tree.es;
    } else {
      var ks := G[n].tree.kids;
      forall i | 0 <= i < |ks|
        ensures G[n].branches[i].hash == HashOf(ks[i]) && Stored(objects, ks[i])
      {
        var b := G[n].branches[i];
        assert IsBranch(b, n, i, ks[i], M, G);
        NodeAt(b, N, G, flags, objects);
        MirroredAt(b, G, E);
      }
      assert n.Listed(depth) == HashAll(ks);
      AllHashesStored(ks, objects);
    }
  }

  lemma HoldsAt(n: RefsNode, M: Nodes, root: RefsNode, G: Graph, E: Items)
    requires LinkedBut(M, root, G, E) && n in G
    ensures Holds(n, M, G, E)
  {
  }

  lemma TopAt(M: Nodes, top: RefsNode, G: Graph, E: Items)
    requires LinkedBut(M, top, G, E)
    ensures top in G && top.upper == null && G[top].inMemory && G[top].stale
  {
  }

  lemma TopIs(M: Nodes, top: RefsNode, G: Graph, E: Items)
    requires LinkedBut(M, top, G, E)
    ensures top in G && top.upper == null && G[top].inMemory && G[top].stale
    ensures forall n <- G :: n.height <= top.height && (n != top <==> n.upper != null)
  {
    forall n | n in G && n != top
      ensures n.upper != null
    {
      assert Hangs(n, G);
    }
  }

  /** More in the Pack does no harm. */
  lemma MoreOk(M: Nodes, G: Graph, flags: Flags, a: Objects, b: Objects)
    requires AllOk(M, G, flags, a) && a.Keys <= b.Keys
    ensures AllOk(M, G, flags, b)
  {
    hide HashOf, NodeHashes, Flat;
  }

  lemma NodeAt(m: RefsNode, M: Nodes, G: Graph, flags: Flags, objects: Objects)
    requires AllOk(M, G, flags, objects) && m in G && m !in M
    ensures NodeOk(G[m], flags, objects)
  {
  }

  lemma KidsShape(t: Tree, d: nat, h: nat)
    requires WF(t, d, h) && h > 0
    ensures t.Branch? && |t.kids| <= d && forall i | 0 <= i < |t.kids| :: WF(t.kids[i], d, h - 1)
  {
  }

  /** A node that is as it should be, or need not be. */
  lemma OneOk(m: RefsNode, c: Cell, M: Nodes, N: Nodes, G: Graph, flags: Flags, objects: Objects)
    requires AllOk(N, G, flags, objects) && N <= M + {m} && (m in M || NodeOk(c, flags, objects))
    ensures AllOk(M, G[m := c], flags, objects)
  {
  }

  lemma AllOkAfter(m: RefsNode, M: Nodes, G: Graph, flags: Flags, objects: Objects)
    requires AllOk(M + {m}, G, flags, objects) && m in G && NodeOk(G[m], flags, objects)
    ensures AllOk(M, G, flags, objects)
  {
  }

  lemma EncodingAt(c: Cell, objects: Objects)
    requires ContentAddressed(objects) && Clean(c, objects)
    ensures c.hash in objects && objects[c.hash] == NodeEncoding(c.tree) && KidHashes(c.tree) <= objects.Keys
  {
    StoredHash(objects, c.tree);
  }

  lemma CleanOf(c: Cell, objects: Objects)
    requires c.hash == Sum(NodeBlob(Len(c.tree), Elements(c.tree))) && c.hash in objects
      && KidHashes(c.tree) <= objects.Keys
    ensures Clean(c, objects)
  {
    CleanTree(c.tree, objects);
  }

  /** The length a node hash tells; less than any length if it is blank. */
  function HashLen(h: Hash): int {
    if h.Sum? && h.blob.NodeBlob? then h.blob.length else -1
  }

  // ------------------------------------------------------------- one step up

  ghost function Stepped(m: RefsNode, G: Graph): Graph
    requires m in G && HasUpper(m, G)
  {
    Retree(m.upper, UpperTree(m, G[m].tree, G), G)
  }

  /** The tree at the top does not depend on how far up the change has come. */
  lemma StepTop(m: RefsNode, top: RefsNode, G: Graph, E: Items)
    requires LinkedBut({m}, top, G, E) && m in G && m != top
    ensures HasUpper(m, G) && LinkedBut({m.upper}, top, Stepped(m, G), E)
    ensures m.height < m.upper.height <= top.height
    ensures TopTree(m, G[m].tree, top, G) == TopTree(m.upper, Stepped(m, G)[m.upper].tree, top, Stepped(m, G))
  {
    UpperOf(m, {m}, top, G, E);
    StepUp(m, top, G, E);
    var u, U := m.upper, Stepped(m, G);
    if u != top {
      UpperOf(u, {u}, top, U, E);
    }
    TopTreeSame(u, U[u].tree, top, G, U);
  }

  /** A change that keeps the number of elements keeps the lengths of the nodes above. */
  lemma StepOk(m: RefsNode, G: Graph, flags: Flags, objects: Objects)
    requires AllOk({}, G, flags, objects) && HasUpper(m, G)
    requires Len(G[m].tree) == Len(G[m.upper].tree.kids[G[m].pos])
    ensures AllOk({}, Stepped(m, G), flags, objects)
  {
    hide Flat, FlatAll, HashOf, NodeHashes;
    var ks, j := G[m.upper].tree.kids, G[m].pos;
    FlatAllAt(ks, j);
    FlatAllUpdate(ks, j, G[m].tree);
    FlatBranch(ks);
    FlatBranch(ks[j := G[m].tree]);
    assert G[m.upper].tree == Branch(ks);
  }

  /** `m` has been made actual or marked: now it is its upper node that needs it. */
  lemma StepKept(lazy: bool, m: RefsNode, c: Cell, top: RefsNode, G: Graph)
    requires Kept(lazy, {m}, top, G) && HasUpper(m, G) && c == G[m].(hash := c.hash, mod := c.mod, stale := c.stale)
    requires if lazy then c.mod && c.stale else !c.stale
    ensures Kept(lazy, {m.upper}, top, Stepped(m, G[m := c]))
  {
  }

  lemma {:induction false} SetAtSame(t: Tree, i: nat)
    requires i < Len(t)
    ensures SetAt(t, i, Flat(t)[i]) == t
    decreases t
  {
    if t.Branch? {
      var j := Locate(t.kids, i);
      FlatAllAt(t.kids, j);
      SetAtSame(t.kids[j], i - |FlatAll(t.kids[..j])|);
    }
  }

  /** Saving or marking `m` changes nothing above. */
  lemma SavedTop(m: RefsNode, c: Cell, top: RefsNode, G: Graph, E: Items)
    requires LinkedBut({m}, top, G, E) && m in G && c == G[m].(hash := c.hash, mod := c.mod, stale := c.stale)
    requires SameLen(m, top, G)
    ensures TopTree(m, c.tree, top, G[m := c]) == TopTree(m, c.tree, top, G) && SameLen(m, top, G[m := c])
  {
    if m != top {
      UpperOf(m, {m}, top, G, E);
    }
    TopTreeSame(m, c.tree, top, G, G[m := c]);
  }

  /** The upper node of `m` counts its elements right. */
  ghost predicate SameLen(m: RefsNode, top: RefsNode?, G: Graph) {
    m != top ==> HasUpper(m, G) && Len(G[m].tree) == Len(G[m.upper].tree.kids[G[m].pos])
  }

  lemma StepLen(m: RefsNode, top: RefsNode, G: Graph, E: Items)
    requires LinkedBut({m}, top, G, E) && m in G && m != top && SameLen(m, top, G)
    ensures SameLen(m.upper, top, Stepped(m, G))
  {
    hide Flat, FlatAll;
    var u, ks, j := m.upper, G[m.upper].tree.kids, G[m].pos;
    UpperOf(m, {m}, top, G, E);
    FlatAllAt(ks, j);
    FlatAllUpdate(ks, j, G[m].tree);
    FlatBranch(ks);
    FlatBranch(ks[j := G[m].tree]);
    if u != top {
      UpperOf(u, {m}, top, G, E);
    }
  }

  // ---------------------------------------------------------------- the root

  /** No elements, no leafs. */
  lemma NoItems(top: RefsNode, G: Graph, E: Items)
    requires LinkedBut({}, top, G, E) && Len(G[top].tree) == 0
    ensures E == map[]
  {
    if e :| e in E {
      assert Sits(e, G, E);
      LeafOf(e.upper, E[e].pos, {}, top, G, E);
      FlatLeaf(G[e.upper].tree.es);
      TopIndex(e.upper, E[e].pos, top, G, E);
    }
  }

  /** The top without anything below it. */
  ghost function Bare(top: RefsNode, G: Graph): Graph
    requires top in G
  {
    map[top := G[top].(leafs := [], branches := [], tree := Empty(top.height), mod := false)]
  }

  lemma BareLinks(top: RefsNode, G: Graph, E: Items)
    requires LinkedBut({}, top, G, E)
    ensures LinkedBut({}, top, Bare(top, G), map[])
  {
    assert Holds(top, {}, G, E);
  }

  lemma BareOk(top: RefsNode, G: Graph, flags: Flags, objects: Objects)
    requires top in G && AllOk({}, G, flags, objects) && G[top].length == 0 && G[top].inMemory && G[top].stale
    ensures AllOk({}, Bare(top, G), flags, objects)
  {
    assert Len(Empty(top.height)) == 0;
  }

  lemma BareClean(top: RefsNode, G: Graph, h: nat)
    requires top in G
    ensures AllClean({}, top, Bare(top, G)) && Len(Empty(h)) == 0
  {
  }

  /** The change has come to the top. */
  lemma TopOnly(m: RefsNode, top: RefsNode, G: Graph, E: Items)
    requires LinkedBut({m}, top, G, E) && m in G && m.upper == null
    ensures m == top && LinkedBut({}, top, G, E) && TopTree(m, G[m].tree, top, G) == G[top].tree
  {
    TopIs({m}, top, G, E);
    LessBut(m, {m}, top, G, E);
    assert {m} - {m} == {};
  }

  lemma CurrentKnown(hash: Hash, v: Value, objects: Objects)
    requires Current(hash, v, objects)
    ensures hash == Blank || hash in objects
  {
  }

  lemma BareShape(d: nat, h: nat)
    ensures WF(Empty(h), d, h) && Flat(Empty(h)) == []
  {
  }

  /** The hash stands for the value, and the value can be read back. */
  ghost predicate Current(hash: Hash, v: Value, objects: Objects) {
    hash == v.RootHash() && ValueStored(objects, v)
  }

  /** A Refs without elements has nothing below its root once its hash is actual. */
  function Settled(lazy: bool, t: Tree, h: nat): Tree {
    if !lazy && Len(t) == 0 then Empty(h) else t
  }

  lemma SettledShape(lazy: bool, t: Tree, d: nat, h: nat)
    requires WF(t, d, h)
    ensures WF(Settled(lazy, t, h), d, h)
  {
    BareShape(d, h);
  }

  lemma SettledLen(lazy: bool, t: Tree, h: nat)
    ensures Len(Settled(lazy, t, h)) > 0 ==> Settled(lazy, t, h) == t
  {
    BareShape(1, h);
  }

  lemma SettledFlat(lazy: bool, t: Tree, h: nat)
    ensures Flat(Settled(lazy, t, h)) == Flat(t)
  {
    BareShape(1, h);
  }

  /** All stale nodes are marked once the root is. */
  lemma MarkedTop(lazy: bool, c: Cell, top: RefsNode, G: Graph)
    requires Kept(lazy, {top}, top, G) && top in G && (lazy ==> c.mod)
    ensures Kept(lazy, {}, top, G[top := c])
  {
  }

  lemma TopClean(top: RefsNode, c: Cell, G: Graph)
    requires AllClean({}, top, G)
    ensures AllClean({}, top, G[top := c])
  {
  }

  lemma TopKidsClean(top: RefsNode, G: Graph, E: Items)
    requires LinkedBut({}, top, G, E) && AllClean({}, top, G)
    ensures KidsClean(top, G)
  {
    forall b <- G[top].branches
      ensures b in G && !G[b].stale
    {
      var i :| 0 <= i < |G[top].branches| && G[top].branches[i] == b;
      BranchOf(top, i, {}, top, G, E);
    }
  }

  lemma CurrentIs(hash: Hash, v: Value, objects: Objects)
    requires Len(v.tree) == 0 ==> hash == Blank
    requires Len(v.tree) > 0 ==> hash == Sum(v.RootEncoding()) && hash in objects && KidHashes(v.tree) <= objects.Keys
    ensures Current(hash, v, objects)
  {
  }

  // ----------------------------------------------------------- setting a leaf

  /** Where the element is in its upper node. */
  lemma ItemAt(e: RefsElement, top: RefsNode, G: Graph, E: Items)
    requires LinkedBut({}, top, G, E) && e in E
    ensures e.upper in G && e.upper.height == 0 && G[e.upper].inMemory && G[e.upper].tree.Leaf?
    ensures |G[e.upper].leafs| == |G[e.upper].tree.es| == Len(G[e.upper].tree)
    ensures E[e].pos < |G[e.upper].tree.es| && G[e.upper].tree.es[E[e].pos] == E[e].hash
      && G[e.upper].leafs[E[e].pos] == e
    ensures Sits(e, G, E)
  {
    assert Sits(e, G, E);
    LeafOf(e.upper, E[e].pos, {}, top, G, E);
  }

  ghost function LeafSet(e: RefsElement, x: Hash, G: Graph, E: Items): Graph
    requires e in E && e.upper in G && G[e.upper].tree.Leaf? && E[e].pos < |G[e.upper].tree.es|
  {
    Retree(e.upper, Leaf(G[e.upper].tree.es[E[e].pos := x]), G)
  }

  ghost function LeafSetItems(e: RefsElement, x: Hash, E: Items): Items
    requires e in E
  {
    E[e := E[e].(hash := x)]
  }

  /** Setting a leaf sets the element of the whole at its index. */
  lemma LeafSetTop(e: RefsElement, x: Hash, i: nat, top: RefsNode, G: Graph, E: Items)
    requires LinkedBut({}, top, G, E) && Positioned(e, G, E, top) && i == Position(e, G, E, top)
    ensures e.upper in G && G[e.upper].tree.Leaf? && E[e].pos < |G[e.upper].tree.es|
    ensures var U := LeafSet(e, x, G, E);
            i < Len(G[top].tree) && Flat(G[top].tree)[i] == E[e].hash && SameLen(e.upper, top, U)
            && e.upper.height <= top.height && TopTree(e.upper, U[e.upper].tree, top, U) == SetAt(G[top].tree, i, x)
  {
    ItemAt(e, top, G, E);
    TopIs({}, top, G, E);
    var m, k, U := e.upper, E[e].pos, LeafSet(e, x, G, E);
    TopIndex(m, k, top, G, E);
    TopSet(m, k, x, U[m].tree, i, top, G, E);
    if m != top {
      UpperOf(m, {}, top, G, E);
    }
    TopTreeSame(m, U[m].tree, top, G, U);
  }

  lemma LeafSetOk(e: RefsElement, x: Hash, lazy: bool, top: RefsNode, G: Graph, E: Items, flags: Flags,
          objects: Objects)
    requires e in E && e.upper in G && G[e.upper].tree.Leaf? && E[e].pos < |G[e.upper].tree.es| && G[e.upper].inMemory
    requires AllOk({}, G, flags, objects) && Kept(lazy, {}, top, G)
    ensures AllOk({}, LeafSet(e, x, G, E), flags, objects) && Kept(lazy, {e.upper}, top, LeafSet(e, x, G, E))
  {
    hide HashOf, NodeHashes;
  }

  // ---------------------------------------------------------------- deleting

  /** Nodes higher than `h` are as they have been. */
  ghost predicate AboveSame(h: int, G: Graph, H: Graph)
  {
    HigherSame(h, G, H) == true
  }

  ghost predicate HigherSame(h: int, G: Graph, H: Graph) {
    forall n <- G :: n.height > h ==> n in H && H[n] == G[n]
  }

  lemma AboveNothing(h: int, G: Graph)
    ensures AboveSame(h, G, G)
  {
  }

  lemma AboveTrans(h: int, k: int, G: Graph, H: Graph, I: Graph)
    requires AboveSame(h, G, H) && AboveSame(k, H, I) && h <= k
    ensures AboveSame(k, G, I)
  {
  }

  lemma AboveAt(n: RefsNode, h: int, G: Graph, H: Graph)
    requires AboveSame(h, G, H) && n in G && n.height > h
    ensures n in H && H[n] == G[n]
  {
  }

  lemma AboveOne(m: RefsNode, c: Cell, G: Graph)
    ensures AboveSame(m.height, G, G[m := c])
  {
  }

  lemma AddedAbove(m: RefsNode, G: Graph, H: Graph)
    requires AddedFrom(m, G, H)
    ensures AboveSame(m.height, G, H)
  {
  }

  /** After a leaf has been taken away only its upper node has to be updated. */
  lemma LeafGone(m: RefsNode, j: nat, lazy: bool, top: RefsNode, G: Graph, flags: Flags, objects: Objects)
    requires m in G && G[m].tree.Leaf? && j < |G[m].leafs| == |G[m].tree.es|
    requires AllOk({}, G, flags, objects) && Kept(lazy, {}, top, G) && G[m].inMemory
    ensures AllOk({m}, WithoutLeaf(m, j, G), flags, objects) && Kept(lazy, {m}, top, WithoutLeaf(m, j, G))
    ensures NodeOk(WithoutLeaf(m, j, G)[m].(length := G[m].length - 1), flags, objects)
    ensures WithoutLeaf(m, j, G)[m].tree == DeleteAt(G[m].tree, j) && AboveSame(m.height, G, WithoutLeaf(m, j, G))
  {
    hide HashOf, NodeHashes;
  }

  /** Taking a branch away concerns its upper node, and where the branches after it are. */
  lemma WithoutIs(m: RefsNode, b: RefsNode, j: nat, M: Nodes, top: RefsNode, G: Graph, E: Items)
    requires LinkedBut(M, top, G, E) && m in G && j < |G[m].branches| && G[m].branches[j] == b
    requires G[m].tree.Branch? && |G[m].branches| == |G[m].tree.kids|
    ensures var U := WithoutBranch(m, j, G);
            U.Keys <= G.Keys && m in U && AboveSame(m.height, G, U)
            && U[m] == G[m].(branches := Without(G[m].branches, j), tree := Branch(Without(G[m].tree.kids, j)),
                stale := true)
            && (forall n <- U :: n != m ==> U[n] == G[n].(pos := U[n].pos))
            && (forall n <- U :: n != m && n != top ==>
                  n.upper in U && U[n.upper].mod == G[n.upper].mod
                  && (U[n.upper].stale == G[n.upper].stale || n.upper == m))
            && b !in U
  {
    hide Flat, FlatAll, Below;
    BranchOf(m, j, M, top, G, E);
    BranchBelow(b, M, top, G, E);
    BelowSelf(b, G);
    forall n | n in G && n != top
      ensures n.upper in G && (n.upper == m ==> n.height + 1 == m.height)
    {
      UpperOf(n, M, top, G, E);
    }
  }

  /** After a branch without elements has been taken away only its upper node has to be updated. */
  lemma BranchGone(m: RefsNode, b: RefsNode, j: nat, lazy: bool, top: RefsNode, G: Graph, E: Items, flags: Flags,
          objects: Objects)
    requires LinkedBut({b}, top, G, E) && m in G && j < |G[m].branches| && G[m].branches[j] == b
    requires G[m].tree.Branch? && |G[m].branches| == |G[m].tree.kids|
    requires AllOk({}, G, flags, objects) && Kept(lazy, {b}, top, G)
    ensures AllOk({m}, WithoutBranch(m, j, G), flags, objects) && Kept(lazy, {m}, top, WithoutBranch(m, j, G))
  {
    hide HashOf, NodeHashes, Flat, FlatAll, Below, Links, WithoutBranch;
    WithoutIs(m, b, j, {b}, top, G, E);
  }

  lemma KeptOne(lazy: bool, m: RefsNode, c: Cell, top: RefsNode?, G: Graph)
    requires Kept(lazy, {m}, top, G)
    ensures Kept(lazy, {m}, top, G[m := c])
  {
  }

  lemma LenKid(ks: seq<Tree>, j: nat, k: Tree)
    requires j < |ks|
    ensures Len(Branch(Without(ks, j))) == Len(Branch(ks)) - Len(ks[j])
    ensures Len(Branch(ks[j := k])) == Len(Branch(ks)) - Len(ks[j]) + Len(k)
  {
    hide Flat, FlatAll;
    FlatAllAt(ks, j);
    FlatAllUpdate(ks, j, k);
    FlatAllConcat(ks[..j], ks[j + 1..]);
    FlatBranch(ks);
    FlatBranch(ks[j := k]);
    FlatBranch(Without(ks, j));
  }

  /** `m` has been updated and its upper node has to be. */
  lemma StepUpdated(lazy: bool, m: RefsNode, top: RefsNode, G: Graph, flags: Flags, objects: Objects)
    requires Kept(lazy, {m}, top, G) && HasUpper(m, G) && AllOk({}, G, flags, objects)
    requires if lazy then G[m].mod && G[m].stale else !G[m].stale
    ensures Kept(lazy, {m.upper}, top, Stepped(m, G)) && AllOk({m.upper}, Stepped(m, G), flags, objects)
    ensures AboveSame(m.upper.height, G, Stepped(m, G))
  {
    hide HashOf, NodeHashes, Flat, FlatAll;
    StepKept(lazy, m, G[m], top, G);
    assert G[m := G[m]] == G;
  }

  lemma BelowSelf(b: RefsNode, G: Graph)
    ensures Below(b, b, G)
  {
  }

  lemma DeleteAtKid(t: Tree, i: nat, j: nat, rest: nat)
    requires t.Branch? && i < Len(t) && (j, rest) == Skip(t.kids, 0, i)
    ensures j < |t.kids| && rest < Len(t.kids[j])
    ensures var k := DeleteAt(t.kids[j], rest);
            DeleteAt(t, i) == Branch(if Len(k) == 0 then Without(t.kids, j) else t.kids[j := k])
  {
    SkipLocates(t.kids, i);
  }

  function Rewound(iterators: seq<bool>): seq<bool> {
    if iterators == [] then [] else iterators[|iterators| - 1 := true]
  }

  lemma LoadedValid(lazy: bool, top: RefsNode, G: Graph, H: Graph)
    requires LoadedFrom(G, H) && top in G && G[top].inMemory
    ensures top in H && H[top] == G[top] && (Kept(lazy, {}, top, G) ==> Kept(lazy, {}, top, H))
  {
    if Kept(lazy, {}, top, G) {
      LoadedKept(lazy, {}, top, G, H);
    }
  }

  // ----------------------------------------------------------------- walking

  /** The same elements in a well-formed tree, which is the same tree if nothing was blank. */
  ghost predicate Tidied(t: Tree, u: Tree, d: nat, h: nat) {
    WF(u, d, h) && Flat(u) == Flat(t) && (NoBlanks(t) ==> u == t)
  }

  lemma TidiedIs(t: Tree, u: Tree, d: nat, h: nat)
    requires Tidied(t, u, d, h)
    ensures WF(u, d, h) && Flat(u) == Flat(t) && (NoBlanks(t) ==> u == t)
  {
  }

  lemma TidiedSame(t: Tree, d: nat, h: nat)
    requires WF(t, d, h)
    ensures Tidied(t, t, d, h)
  {
  }

  /** One branch tidied. */
  lemma TidiedKid(t: Tree, u: Tree, j: nat, k: Tree, d: nat, h: nat)
    requires Tidied(t, u, d, h) && h > 0 && u.Branch? && j < |u.kids| && Tidied(u.kids[j], k, d, h - 1)
    ensures Tidied(t, Branch(u.kids[j := k]), d, h) && Flat(u.kids[j]) == Flat(k)
  {
    hide FlatAll;
    FlatAllAt(u.kids, j);
    FlatAllUpdate(u.kids, j, k);
    FlatBranch(u.kids);
    FlatBranch(u.kids[j := k]);
    if NoBlanks(t) {
      assert u.kids[j := k] == u.kids;
    }
  }

  /** One blank branch taken away. */
  lemma TidiedBlank(t: Tree, u: Tree, j: nat, d: nat, h: nat)
    requires Tidied(t, u, d, h) && h > 0 && u.Branch? && j < |u.kids| && Len(u.kids[j]) == 0
    ensures Tidied(t, Branch(Without(u.kids, j)), d, h)
  {
    hide FlatAll;
    FlatAllAt(u.kids, j);
    FlatAllConcat(u.kids[..j], u.kids[j + 1..]);
    FlatBranch(u.kids);
    FlatBranch(Without(u.kids, j));
  }

  /** Nodes down to height `h` that are not stale remain so, but for `m`. */
  ghost predicate Cleaner(m: RefsNode?, h: nat, G: Graph, H: Graph)
  {
    CleanerSo(m, h, G, H) == true
  }

  ghost predicate CleanerSo(m: RefsNode?, h: nat, G: Graph, H: Graph) {
    H.Keys <= G.Keys
    && (forall n <- G :: n.height > h ==> n in H && H[n] == G[n])
    && (forall n <- H :: n != m && H[n].stale ==> G[n].stale)
    && (forall n <- H :: H[n].inMemory == G[n].inMemory)
  }

  lemma CleanerSelf(m: RefsNode?, h: nat, G: Graph)
    ensures Cleaner(m, h, G, G)
  {
  }

  lemma CleanerAt(n: RefsNode, m: RefsNode?, h: nat, G: Graph, H: Graph)
    requires Cleaner(m, h, G, H) && n in G
    ensures H.Keys <= G.Keys && (n.height > h ==> n in H && H[n] == G[n])
    ensures n in H ==> H[n].inMemory == G[n].inMemory && (n != m && !G[n].stale ==> !H[n].stale)
  {
  }

  lemma CleanerTrans(m: RefsNode, h: nat, G: Graph, H: Graph, I: Graph)
    requires Cleaner(m, h, G, H) && Cleaner(m, h, H, I)
    ensures Cleaner(m, h, G, I)
  {
  }

  /** The branch `b` of `m` has been walked and goes: it is blank. */
  lemma WalkedOut(m: RefsNode, b: RefsNode, j: nat, M: Nodes, top: RefsNode, G: Graph, H: Graph, E: Items, flags: Flags,
          objects: Objects)
    requires LinkedBut(M, top, H, E) && m in M && b in M && m in H && m.height > 0 && j < |H[m].branches|
      && H[m].branches[j] == b
    requires H[m].tree.Branch? && |H[m].branches| == |H[m].tree.kids| && Cleaner(b, m.height - 1, G, H) && m in G
      && Len(H[m].tree.kids[j]) == 0
    requires AllOk({}, H, flags, objects) && Marked(M, top, H)
    ensures var V := WithoutBranch(m, j, H);
            Cleaner(m, m.height, G, V) && AllOk({}, V, flags, objects) && Marked(M - {b}, top, V) && m in V
            && V[m] == H[m].(branches := Without(H[m].branches, j), tree := Branch(Without(H[m].tree.kids, j)),
                stale := true)
  {
    hide HashOf, NodeHashes, Flat, FlatAll, Below, Links, WithoutBranch;
    WithoutIs(m, b, j, M, top, H, E);
    LenKid(H[m].tree.kids, j, H[m].tree.kids[j]);
    assert H[m].tree == Branch(H[m].tree.kids);
    var V := WithoutBranch(m, j, H);
    NodeAt(m, {}, H, flags, objects);
    BranchOf(m, j, M, top, H, E);
    assert V[m].length == H[m].length && Len(V[m].tree) == Len(H[m].tree);
    assert NodeOk(V[m], flags, objects);
  }

  /** The branch `b` of `m` has been walked and stays. */
  lemma WalkedIn(m: RefsNode, b: RefsNode, M: Nodes, top: RefsNode, G: Graph, H: Graph, E: Items, flags: Flags,
          objects: Objects)
    requires LinkedBut(M, top, H, E) && m in M && b in M && b in H && b != top && HasUpper(b, H) && b.upper == m
    requires Cleaner(b, m.height - 1, G, H) && m in G && !H[b].stale && Len(H[b].tree) == Len(H[m].tree.kids[H[b].pos])
    requires AllOk({}, H, flags, objects) && Marked(M, top, H) && KidsClean(b, H)
    ensures var V := Stepped(b, H);
            LinkedBut(M - {b}, top, V, E) && Cleaner(m, m.height, G, V) && AllOk({}, V, flags, objects)
            && Marked(M - {b}, top, V)
            && V == H[m := H[m].(tree := Branch(H[m].tree.kids[H[b].pos := H[b].tree]), stale := true)]
  {
    hide HashOf, NodeHashes, Flat, FlatAll, Links;
    StepUpIn(b, M, top, H, E);
    StepOk(b, H, flags, objects);
    LenKid(H[m].tree.kids, H[b].pos, H[b].tree);
    assert H[m].tree == Branch(H[m].tree.kids);
    forall n | n in H && n != top && n.upper == b
      ensures !H[n].stale
    {
      UpperOf(n, M, top, H, E);
      assert n in H[b].branches;
    }
  }

  lemma CleanerOne(m: RefsNode, c: Cell, h: nat, G: Graph, H: Graph)
    requires Cleaner(m, h, G, H) && m in H && m.height == h && c.inMemory == H[m].inMemory
    ensures Cleaner(m, h, G, H[m := c])
  {
  }

  /** A node that is not marked or not loaded is actual, and so is what hangs on it. */
  lemma NothingToWalk(m: RefsNode, M: Nodes, top: RefsNode, G: Graph, E: Items, flags: Flags, objects: Objects)
    requires LinkedBut(M, top, G, E) && Marked(M, top, G) && AllOk({}, G, flags, objects) && m in G && m !in M
      && (!G[m].mod || !G[m].loaded)
    requires forall n <- M :: n.height > m.height
    ensures (m != top ==> !G[m].stale) && KidsClean(m, G) && Marked(M + {m}, top, G)
  {
    hide HashOf, NodeHashes, Flat;
    assert NodeOk(G[m], flags, objects);
    forall b <- G[m].branches
      ensures b in G ==> !G[b].stale
    {
      var i :| 0 <= i < |G[m].branches| && G[m].branches[i] == b;
      BranchOf(m, i, M, top, G, E);
    }
  }

  lemma MarkedMore(m: RefsNode, M: Nodes, top: RefsNode, G: Graph)
    requires Marked(M, top, G)
    ensures Marked(M + {m}, top, G)
  {
  }

  lemma MarkedOne(m: RefsNode, c: Cell, M: Nodes, top: RefsNode, G: Graph)
    requires Marked(M, top, G) && m in M
    ensures Marked(M, top, G[m := c])
  {
  }

  ghost predicate ActualAt(b: RefsNode, G: Graph) {
    b in G && !G[b].stale
  }

  /** The branches before the i-th remain actual while the i-th is walked. */
  lemma StillActual(m: RefsNode, i: nat, removed: bool, M: Nodes, top: RefsNode, G: Graph, H: Graph, E: Items)
    requires LinkedBut(M, top, G, E) && LinkedBut(M, top, H, E) && Cleaner(m, m.height, G, H) && m in G && m in H
      && i < |G[m].branches|
    requires if removed then H[m].branches == Without(G[m].branches, i)
            else H[m].branches == G[m].branches && ActualAt(H[m].branches[i], H)
    requires forall k | 0 <= k < i :: ActualAt(G[m].branches[k], G)
    ensures i <= |H[m].branches| && forall k | 0 <= k < (if removed then i else i + 1) :: ActualAt(H[m].branches[k], H)
  {
    forall k | 0 <= k < i
      ensures ActualAt(H[m].branches[k], H)
    {
      BranchOf(m, k, M, top, G, E);
      assert H[m].branches[k] == G[m].branches[k];
      BranchOf(m, k, M, top, H, E);
      assert ActualAt(G[m].branches[k], G);
    }
  }

  lemma AllActual(m: RefsNode, G: Graph)
    requires m in G && forall k | 0 <= k < |G[m].branches| :: ActualAt(G[m].branches[k], G)
    ensures KidsClean(m, G)
  {
    forall b <- G[m].branches
      ensures !G[b].stale
    {
      var k :| 0 <= k < |G[m].branches| && G[m].branches[k] == b;
      assert ActualAt(G[m].branches[k], G);
    }
  }

  lemma KidsLower(m: RefsNode, M: Nodes, top: RefsNode, G: Graph, E: Items)
    requires LinkedBut(M, top, G, E) && m in G && forall n <- M :: n.height >= m.height
    ensures forall b <- G[m].branches :: b !in M
  {
    forall b <- G[m].branches
      ensures b !in M
    {
      var k :| 0 <= k < |G[m].branches| && G[m].branches[k] == b;
      BranchOf(m, k, M, top, G, E);
    }
  }

  lemma KidsCleanOne(m: RefsNode, c: Cell, M: Nodes, top: RefsNode, G: Graph, E: Items)
    requires LinkedBut(M, top, G, E) && m in G && KidsClean(m, G) && c.branches == G[m].branches
    ensures KidsClean(m, G[m := c])
  {
    forall b <- G[m].branches
      ensures b != m
    {
      var k :| 0 <= k < |G[m].branches| && G[m].branches[k] == b;
      BranchOf(m, k, M, top, G, E);
    }
  }

  /** Staleness goes up to the top: if nothing right below the top is stale, nothing is. */
  lemma {:induction false} StaleGoesUp(n: RefsNode, M: Nodes, top: RefsNode, G: Graph, E: Items)
    requires LinkedBut({}, top, G, E) && Marked(M, top, G) && n in G && n != top && G[n].stale && M <= {top}
    ensures !KidsClean(top, G)
    decreases top.height - n.height
  {
    UpperOf(n, {}, top, G, E);
    TopIs({}, top, G, E);
    if n.upper == top {
      assert n in G[top].branches;
    } else {
      StaleGoesUp(n.upper, M, top, G, E);
    }
  }

  lemma NothingStale(M: Nodes, top: RefsNode, G: Graph, E: Items)
    requires LinkedBut({}, top, G, E) && Marked(M, top, G) && KidsClean(top, G) && M <= {top}
    ensures AllClean({}, top, G)
  {
    forall n <- G | n != top
      ensures !G[n].stale
    {
      if G[n].stale {
        StaleGoesUp(n, M, top, G, E);
      }
    }
  }

  /** When the root is not marked, and every stale node can be found from it, there are none. */
  lemma UnmarkedClean(lazy: bool, top: RefsNode, G: Graph, E: Items, flags: Flags, objects: Objects)
    requires LinkedBut({}, top, G, E) && AllOk({}, G, flags, objects) && Kept(lazy, {}, top, G) && top in G
      && !G[top].mod
    ensures AllClean({}, top, G)
  {
    if lazy {
      NothingToWalk(top, {}, top, G, E, flags, objects);
      NothingStale({}, top, G, E);
    }
  }

  lemma CleanMarked(M: Nodes, top: RefsNode?, G: Graph)
    requires AllClean({}, top, G)
    ensures Marked(M, top, G)
  {
  }

  /** When everything is in memory there is a leaf for every element. */
  lemma {:induction false} HasItem(n: RefsNode, k: nat, top: RefsNode, G: Graph, E: Items)
    requires LinkedBut({}, top, G, E) && n in G && k < Len(G[n].tree) && forall m <- G :: G[m].inMemory
    ensures exists e :: e in E && E[e].hash == Flat(G[n].tree)[k]
    decreases n.height
  {
    assert Holds(n, {}, G, E);
    if n.height == 0 {
      FlatLeaf(G[n].tree.es);
      LeafOf(n, k, {}, top, G, E);
    } else {
      var ks := G[n].tree.kids;
      FlatBranch(ks);
      var j := Locate(ks, k);
      var b := G[n].branches[j];
      BranchOf(n, j, {}, top, G, E);
      var r := k - |FlatAll(ks[..j])|;
      AtKid(ks, j, r, Blank);
      HasItem(b, r, top, G, E);
    }
  }

  lemma AllInMemory(G: Graph, flags: Flags, objects: Objects)
    requires AllOk({}, G, flags, objects) && flags.hashTableIndex
    ensures forall n <- G :: G[n].inMemory
  {
    hide HashOf, NodeHashes, Flat;
  }

  lemma LoadedAsTold(top: RefsNode, G: Graph, H: Graph, E: Items, flags: Flags, objects: Objects)
    requires LinkedBut({}, top, H, E) && AllOk({}, H, flags, objects) && NoneDeeper(flags, G, H) && G.Keys == {top}
    ensures LoadedAs(flags, top, H)
  {
    hide HashOf, NodeHashes, Flat;
  }

  /** The index knows every hash there is. */
  lemma IndexKnows(index: Index, x: Hash, top: RefsNode, G: Graph, E: Items, flags: Flags, objects: Objects)
    requires LinkedBut({}, top, G, E) && Matches(index, E) && AllOk({}, G, flags, objects) && flags.hashTableIndex
    ensures top in G && (x in index <==> x in Flat(G[top].tree))
  {
    AllInMemory(G, flags, objects);
    if x in index {
      var e := index[x][0];
      assert e in E && E[e].hash == x;
      ItemAt(e, top, G, E);
      FlatLeaf(G[e.upper].tree.es);
      TopIndex(e.upper, E[e].pos, top, G, E);
    }
    if x in Flat(G[top].tree) {
      var k :| 0 <= k < Len(G[top].tree) && Flat(G[top].tree)[k] == x;
      HasItem(top, k, top, G, E);
      var e :| e in E && E[e].hash == x;
      assert E[e].hash in index;
    }
  }

  // ------------------------------------------------------- updating a slice

  /** What has been updated is as it should be, and so is what is below. */
  ghost predicate Done(done: Nodes, top: RefsNode?, G: Graph)
  {
    DoneSo(done, top, G) == true
  }

  ghost predicate DoneSo(done: Nodes, top: RefsNode?, G: Graph) {
    (forall n <- done :: n in G && (n != top ==> !G[n].stale) && forall b <- G[n].branches :: b in done)
    && forall n <- G :: n !in done ==> G[n].stale
  }

  /** Only hashes, lengths and marks have changed. */
  ghost predicate FieldsOnly(G: Graph, H: Graph)
  {
    FieldsOnlySo(G, H) == true
  }

  ghost predicate FieldsOnlySo(G: Graph, H: Graph) {
    H.Keys == G.Keys
    && forall n <- G :: H[n] == G[n].(hash := H[n].hash, length := H[n].length, loaded := H[n].loaded, mod := H[n].mod,
        stale := H[n].stale)
  }

  /** Everything is in memory, and every hash is known. */
  ghost predicate Sane(G: Graph, objects: Objects)
  {
    SaneSo(G, objects) == true
  }

  ghost predicate SaneSo(G: Graph, objects: Objects) {
    forall n <- G :: G[n].inMemory && (G[n].hash == Blank || G[n].hash in objects)
  }

  ghost function Undone(done: Nodes, G: Graph): Nodes {
    G.Keys - done
  }

  lemma FieldsSelf(G: Graph)
    ensures FieldsOnly(G, G)
  {
  }

  lemma FieldsTrans(G: Graph, H: Graph, I: Graph)
    requires FieldsOnly(G, H) && FieldsOnly(H, I)
    ensures FieldsOnly(G, I)
  {
  }

  lemma FieldsAt(n: RefsNode, G: Graph, H: Graph)
    requires FieldsOnly(G, H) && n in G
    ensures n in H && H[n].tree == G[n].tree && H[n].branches == G[n].branches && H[n].leafs == G[n].leafs
      && H[n].inMemory == G[n].inMemory
    ensures H.Keys == G.Keys
  {
  }

  lemma FieldsOne(m: RefsNode, c: Cell, G: Graph)
    requires m in G
      && c == G[m].(hash := c.hash, length := c.length, loaded := c.loaded, mod := c.mod, stale := c.stale)
    ensures FieldsOnly(G, G[m := c])
  {
  }

  lemma DoneAt(n: RefsNode, done: Nodes, top: RefsNode?, G: Graph, flags: Flags, objects: Objects)
    requires Done(done, top, G) && AllOk(Undone(done, G), G, flags, objects) && n in done
    ensures n in G && NodeOk(G[n], flags, objects)
    ensures n != top ==> !G[n].stale
  {
    hide HashOf, NodeHashes, Flat;
  }

  lemma SaneAt(n: RefsNode, G: Graph, objects: Objects)
    requires Sane(G, objects) && n in G
    ensures G[n].inMemory && (G[n].hash == Blank || G[n].hash in objects)
  {
  }

  lemma SaneOne(m: RefsNode, c: Cell, G: Graph, a: Objects, b: Objects)
    requires Sane(G, a) && a.Keys <= b.Keys && m in G && c.inMemory && (c.hash == Blank || c.hash in b)
    ensures Sane(G[m := c], b)
  {
  }

  /** A node whose branches are done has been updated. */
  lemma DoneOne(m: RefsNode, c: Cell, done: Nodes, top: RefsNode?, G: Graph)
    requires Done(done, top, G) && m in G && c.branches == G[m].branches && (m != top ==> !c.stale)
      && forall b <- c.branches :: b in done
    ensures Done(done + {m}, top, G[m := c])
  {
  }

  lemma UndoneOne(m: RefsNode, c: Cell, done: Nodes, G: Graph, flags: Flags, objects: Objects)
    requires AllOk(Undone(done, G), G, flags, objects) && m in G && NodeOk(c, flags, objects)
    ensures AllOk(Undone(done + {m}, G[m := c]), G[m := c], flags, objects)
  {
    hide HashOf, NodeHashes, Flat;
  }

  /** What is done includes all there is once the top is done. */
  lemma {:induction false} DoneReaches(n: RefsNode, done: Nodes, top: RefsNode, G: Graph, E: Items)
    requires LinkedBut({}, top, G, E) && Done(done, top, G) && top in done && n in G
    ensures n in done
    decreases top.height - n.height
  {
    if n != top {
      UpperOf(n, {}, top, G, E);
      TopIs({}, top, G, E);
      DoneReaches(n.upper, done, top, G, E);
      assert n in G[n.upper].branches;
    }
  }

  lemma AllDone(done: Nodes, top: RefsNode, G: Graph, E: Items, flags: Flags, objects: Objects)
    requires LinkedBut({}, top, G, E) && Done(done, top, G) && top in done && AllOk(Undone(done, G), G, flags, objects)
    ensures AllOk({}, G, flags, objects) && AllClean({}, top, G)
  {
    forall n <- G
      ensures n in done
    {
      DoneReaches(n, done, top, G, E);
    }
    assert Undone(done, G) == {};
  }

  lemma SliceStart(top: RefsNode, G: Graph, flags: Flags, objects: Objects)
    requires forall n <- G :: G[n].inMemory && G[n].hash == Blank && G[n].stale
    ensures Done({}, top, G) && AllOk(Undone({}, G), G, flags, objects) && Sane(G, objects)
  {
  }

  /** Its length and mark set, a node is as it should be but for its hash. */
  lemma CountedOk(m: RefsNode, c: Cell, done: Nodes, top: RefsNode?, G: Graph, flags: Flags, objects: Objects)
    requires Done(done, top, G) && AllOk(Undone(done, G), G, flags, objects) && Sane(G, objects) && m in G
    requires c == G[m].(length := Len(G[m].tree), loaded := true)
    ensures NodeOk(c, flags, objects) && AllOk(Undone(done + {m}, G[m := c]), G[m := c], flags, objects)
  {
    hide HashOf, NodeHashes, Flat;
    if m in done {
      DoneAt(m, done, top, G, flags, objects);
    }
    UndoneOne(m, c, done, G, flags, objects);
  }

  lemma DoneKids(m: RefsNode, done: Nodes, M: Nodes, top: RefsNode, G: Graph, E: Items)
    requires LinkedBut(M, top, G, E) && Done(done, top, G) && m in G && forall b <- G[m].branches :: b in done
    ensures KidsClean(m, G) && forall b <- G[m].branches :: b in G && b !in Undone(done + {m}, G) && b != m
  {
    forall b <- G[m].branches
      ensures b in G && !G[b].stale && b != m
    {
      var i :| 0 <= i < |G[m].branches| && G[m].branches[i] == b;
      BranchOf(m, i, M, top, G, E);
    }
  }

  /** The lengths of the branches add up. */
  lemma KidLength(m: RefsNode, i: nat, d: nat, top: RefsNode, G: Graph, E: Items)
    requires LinkedBut({}, top, G, E) && m in G && i < |G[m].branches| && G[m].branches[i] in G
      && d == Len(G[G[m].branches[i]].tree)
    ensures G[m].tree.Branch? && i < |G[m].tree.kids|
    ensures |FlatAll(G[m].tree.kids[..i + 1])| == |FlatAll(G[m].tree.kids[..i])| + d
  {
    BranchOf(m, i, {}, top, G, E);
    FlatAllPrefix(G[m].tree.kids, i);
  }

  lemma UndoneSame(done: Nodes, G: Graph, H: Graph)
    requires G.Keys == H.Keys
    ensures Undone(done, G) == Undone(done, H)
  {
  }

  lemma DoneKidsOne(m: RefsNode, c: Cell, done: Nodes, top: RefsNode, G: Graph, E: Items)
    requires LinkedBut({}, top, G, E) && Done(done, top, G) && m in G && c.branches == G[m].branches
      && forall b <- G[m].branches :: b in done
    ensures KidsClean(m, G[m := c]) && m !in Undone(done + {m}, G)
    ensures forall b <- c.branches :: b !in Undone(done + {m}, G)
  {
    DoneKids(m, done, {}, top, G, E);
  }

  lemma RewoundTwice(iterators: seq<bool>)
    ensures Rewound(Rewound(iterators)) == Rewound(iterators)
  {
  }

  lemma RewoundLen(iterators: seq<bool>)
    ensures |Rewound(iterators)| == |iterators|
    ensures forall k | 0 <= k < |iterators| :: Rewound(iterators)[k] == (iterators[k] || k == |iterators| - 1)
  {
  }
}
