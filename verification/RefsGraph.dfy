/**
 What the links between the nodes of a Refs mean.  A graph records, for every
 node in memory, its fields and the tree it stands for.
 */
module RefsGraph {
  import opened Hashing
  import opened Powers
  import opened Trees
  import opened Growth
  import opened Merkle
  import opened RefsNodes

  /**
   The fields of a node, its place in the upper node and the tree it stands for.
   A node may have its links in memory before it is marked as loaded.  A node is
   stale when it has changed since its hash has been calculated.
   */
  datatype Cell = Cell(
    inMemory: bool, leafs: seq<RefsElement>, branches: seq<RefsNode>, pos: nat, tree: Tree,
    hash: Hash, length: int, loaded: bool, mod: bool, stale: bool)
  datatype Item = Item(hash: Hash, pos: nat)

  type Graph = map<RefsNode, Cell>
  type Items = map<RefsElement, Item>
  type Nodes = set<RefsNode>

  // ------------------------------------------------------------------- links
  /** `n` is the branch of its upper node it should be. */
  ghost predicate Hangs(n: RefsNode, G: Graph)
    requires n in G
  {
    n.upper != null && n.upper in G && G[n].pos < |G[n.upper].branches| && G[n.upper].branches[G[n].pos] == n
  }

  /** `e` is the leaf of its upper node it should be. */
  ghost predicate Sits(e: RefsElement, G: Graph, E: Items)
    requires e in E
  {
    e.upper in G && E[e].pos < |G[e.upper].leafs| && G[e.upper].leafs[E[e].pos] == e
  }

  ghost predicate IsBranch(b: RefsNode, n: RefsNode, i: nat, t: Tree, M: Nodes, G: Graph) {
    b in G && b.upper == n && G[b].pos == i && b.height + 1 == n.height && (b !in M ==> G[b].tree == t)
  }

  ghost predicate IsLeaf(e: RefsElement, n: RefsNode, i: nat, x: Hash, E: Items) {
    e in E && e.upper == n && E[e].pos == i && E[e].hash == x
  }

  ghost predicate HasBranches(n: RefsNode, c: Cell, M: Nodes, G: Graph) {
    c.tree.Branch? && |c.branches| == |c.tree.kids|
    && forall i | 0 <= i < |c.branches| :: IsBranch(c.branches[i], n, i, c.tree.kids[i], M, G)
  }

  ghost predicate HasLeafs(n: RefsNode, c: Cell, E: Items) {
    c.tree.Leaf? && |c.leafs| == |c.tree.es|
    && forall i | 0 <= i < |c.leafs| :: IsLeaf(c.leafs[i], n, i, c.tree.es[i], E)
  }

  /** What `n` has in memory is what its tree says. */
  ghost predicate Holds(n: RefsNode, M: Nodes, G: Graph, E: Items)
    requires n in G
  {
    var c := G[n];
    if !c.inMemory then c.leafs == [] && c.branches == []
    else if n.height == 0 then c.branches == [] && HasLeafs(n, c, E)
    else c.leafs == [] && HasBranches(n, c, M, G)
  }

  /**
   All links hold, except that upper nodes need not know the trees of the nodes in
   `M` yet.  The top has no hash of its own and always counts as stale.
   */
  ghost predicate LinkedBut(M: Nodes, top: RefsNode, G: Graph, E: Items)
  {
    Links(M, top, G, E) == true
  }

  ghost predicate Links(M: Nodes, top: RefsNode, G: Graph, E: Items)
  {
    top in G && top.upper == null && G[top].inMemory && G[top].stale
    && (forall n <- G :: n.height <= top.height)
    && (forall n {:trigger Hangs(n, G)} | n in G && n != top :: Hangs(n, G))
    && (forall n {:trigger Holds(n, M, G, E)} | n in G :: Holds(n, M, G, E))
    && (forall e {:trigger Sits(e, G, E)} | e in E :: Sits(e, G, E))
  }

  /** `m` has its upper node, which knows its place and maybe not its tree. */
  ghost predicate HasUpper(m: RefsNode, G: Graph) {
    m in G && Hangs(m, G) && m.upper.height == m.height + 1 && G[m.upper].inMemory
    && G[m.upper].tree.Branch? && |G[m.upper].branches| == |G[m.upper].tree.kids|
  }

  // --------------------------------------------------------- changing a tree

  ghost function Retree(n: RefsNode, t: Tree, G: Graph): Graph
    requires n in G
  {
    G[n := G[n].(tree := t, stale := true)]
  }

  /** What the upper node of `m` is when the tree of `m` is `t`. */
  ghost function UpperTree(m: RefsNode, t: Tree, G: Graph): Tree
    requires HasUpper(m, G)
  {
    Branch(G[m.upper].tree.kids[G[m].pos := t])
  }

  /** Let all nodes above `m` know. */
  ghost function Lift(m: RefsNode, top: RefsNode, G: Graph): Graph
    requires m in G && m.height <= top.height
    decreases top.height - m.height
  {
    if m == top || !HasUpper(m, G) || m.upper.height > top.height then G
    else Lift(m.upper, top, Retree(m.upper, UpperTree(m, G[m].tree, G), G))
  }

  /** The tree at the top when the tree of `m` is `t`. */
  ghost function TopTree(m: RefsNode, t: Tree, top: RefsNode, G: Graph): Tree
    requires m in G && m.height <= top.height
    decreases top.height - m.height
  {
    if m == top || !HasUpper(m, G) || m.upper.height > top.height then t
    else TopTree(m.upper, UpperTree(m, t, G), top, G)
  }

  // ------------------------------------------------------- local alterations

  /** Put a new leaf after the last one of `m`. */
  ghost function WithLeaf(m: RefsNode, e: RefsElement, x: Hash, G: Graph): Graph
    requires m in G && G[m].tree.Leaf?
  {
    G[m := G[m].(leafs := G[m].leafs + [e], tree := Leaf(G[m].tree.es + [x]))]
  }

  /** The node as it is before anything of it has been loaded. */
  ghost function Opened(m: RefsNode, G: Graph): Graph
    requires m in G
  {
    G[m := G[m].(inMemory := true, leafs := [], branches := [], tree := Empty(m.height))]
  }

  // ------------------------------------------------------------------ fields

  ghost predicate Mirrors(n: RefsNode, c: Cell)
    reads n
  {
    n.leafs == c.leafs && n.branches == c.branches && n.hash == c.hash && n.length == c.length
    && n.loaded == c.loaded && n.contentMod == c.mod
  }

  /** The fields of nodes and the hashes of elements are what the graph says. */
  ghost predicate Mirrored(G: Graph, E: Items)
    reads G.Keys, E.Keys
  {
    MirrorAll(G, E) == true
  }

  ghost predicate MirrorAll(G: Graph, E: Items)
    reads G.Keys, E.Keys
  {
    (forall n {:trigger Mirrors(n, G[n])} | n in G :: Mirrors(n, G[n]))
    && (forall e {:trigger E[e]} | e in E :: e.hash == E[e].hash)
  }

  /** The node has the hash of its tree, and all of the tree is stored. */
  ghost predicate Clean(c: Cell, objects: Objects) {
    c.hash == HashOf(c.tree) && Stored(objects, c.tree)
  }

  ghost predicate NodeOk(c: Cell, flags: Flags, objects: Objects) {
    c.loaded == c.inMemory
    && (c.inMemory ==> c.length == Len(c.tree))
    && (!c.inMemory ==> !c.mod && !c.stale)
    && (!c.stale ==> Clean(c, objects))
    && (c.hash == Blank || c.hash in objects)
    && (flags.hashTableIndex || flags.entireRefs ==> c.inMemory)
  }

  ghost predicate AllOk(M: Nodes, G: Graph, flags: Flags, objects: Objects)
  {
    EachOk(M, G, flags, objects) == true
  }

  ghost predicate EachOk(M: Nodes, G: Graph, flags: Flags, objects: Objects) {
    forall n <- G :: n !in M ==> NodeOk(G[n], flags, objects)
  }

  /** No node but the top and those in `M` is stale. */
  ghost predicate AllClean(M: Nodes, top: RefsNode?, G: Graph)
  {
    EachClean(M, top, G) == true
  }

  ghost predicate EachClean(M: Nodes, top: RefsNode?, G: Graph) {
    forall n <- G :: n != top && n !in M ==> !G[n].stale
  }

  /**
   A stale node is marked, and so is its upper node, which is stale itself unless
   it is the top; the nodes in `M` need not be marked yet.
   */
  ghost predicate Marked(M: Nodes, top: RefsNode?, G: Graph)
  {
    EachMarked(M, top, G) == true
  }

  ghost predicate EachMarked(M: Nodes, top: RefsNode?, G: Graph) {
    forall n <- G :: n != top && n !in M && G[n].stale ==>
      G[n].mod && (n.upper in M || (n.upper in G && G[n.upper].mod && (n.upper == top || G[n.upper].stale)))
  }

  /** Every hash is actual, or every stale node can be found from the top. */
  ghost predicate Kept(lazy: bool, M: Nodes, top: RefsNode?, G: Graph) {
    if lazy then Marked(M, top, G) else AllClean(M, top, G)
  }

  /** `H` is `G` with more of it loaded, all as stored. */
  ghost predicate LoadedFrom(G: Graph, H: Graph)
  {
    Loads(G, H) == true
  }

  ghost predicate Loads(G: Graph, H: Graph) {
    G.Keys <= H.Keys
    && (forall n <- G :: H[n] == if G[n].inMemory then G[n] else
          G[n].(inMemory := H[n].inMemory, leafs := H[n].leafs, branches := H[n].branches,
                length := H[n].length, loaded := H[n].loaded))
    && (forall n <- H :: n !in G ==> AsStored(H[n]))
  }

  /** A node known by its hash only. */
  ghost function Unloaded(hash: Hash, tree: Tree): Cell {
    Cell(false, [], [], 0, tree, hash, 0, false, false, false)
  }

  ghost predicate AsStored(c: Cell) {
    !c.mod && !c.stale
  }

  /** Only the cell of `m` differs, and nodes as stored have been added. */
  ghost predicate AddedFrom(m: RefsNode, G: Graph, H: Graph)
  {
    Adds(m, G, H) == true
  }

  ghost predicate Adds(m: RefsNode, G: Graph, H: Graph) {
    G.Keys <= H.Keys
    && (forall n <- G :: n != m ==> H[n] == G[n])
    && (forall n <- H :: n !in G ==> AsStored(H[n]))
  }

  /** The nodes below the root are in memory if and only if the flags ask for it. */
  ghost predicate LoadedAs(flags: Flags, top: RefsNode?, G: Graph)
  {
    LoadedSo(flags, top, G) == true
  }

  ghost predicate LoadedSo(flags: Flags, top: RefsNode?, G: Graph) {
    forall n <- G :: G[n].inMemory <==> n == top || flags.hashTableIndex || flags.entireRefs
  }

  /** Unless the flags ask for all of it, nothing of the nodes that have been added is in memory. */
  ghost predicate NoneDeeper(flags: Flags, G: Graph, H: Graph)
  {
    NotDeeper(flags, G, H) == true
  }

  ghost predicate NotDeeper(flags: Flags, G: Graph, H: Graph) {
    flags.hashTableIndex || flags.entireRefs || forall n <- H :: n !in G ==> !H[n].inMemory
  }

  ghost predicate MoreItems(E: Items, F: Items) {
    E.Keys <= F.Keys && forall e <- E :: F[e] == E[e]
  }

  /** Put a branch after the last one of `m`. */
  ghost function WithBranch(m: RefsNode, b: RefsNode, c: Cell, G: Graph): Graph
    requires m in G && G[m].tree.Branch?
  {
    G[m := G[m].(branches := G[m].branches + [b], tree := Branch(G[m].tree.kids + [c.tree]))]
     [b := c.(pos := |G[m].branches|)]
  }

  ghost function WithoutLeaf(m: RefsNode, j: nat, G: Graph): Graph
    requires m in G && G[m].tree.Leaf? && j < |G[m].leafs| == |G[m].tree.es|
  {
    G[m := G[m].(leafs := Without(G[m].leafs, j), tree := Leaf(Without(G[m].tree.es, j)), stale := true)]
  }

  ghost function WithoutItem(e: RefsElement, E: Items): Items
    requires e in E
  {
    map k | k in E && k != e :: if k.upper == e.upper && E[k].pos > E[e].pos then E[k].(pos := E[k].pos - 1) else E[k]
  }

  /** `n` is `b` or somewhere below it. */
  ghost predicate Below(n: RefsNode, b: RefsNode, G: Graph)
    decreases b.height - n.height
  {
    n == b || (n in G && n.height < b.height && HasUpper(n, G) && Below(n.upper, b, G))
  }

  /** Take the j-th branch of `m` away, with all that is below it. */
  ghost function WithoutBranch(m: RefsNode, j: nat, G: Graph): Graph
    requires m in G && G[m].tree.Branch? && j < |G[m].branches| == |G[m].tree.kids|
  {
    map n | n in G && !Below(n, G[m].branches[j], G) ::
      if n == m then
        G[m].(branches := Without(G[m].branches, j), tree := Branch(Without(G[m].tree.kids, j)), stale := true)
      else if n.upper == m && G[n].pos > j then G[n].(pos := G[n].pos - 1)
      else G[n]
  }

  // --------------------------------------------------- positions and the top

  /** Number of elements before the first element of `m`. */
  ghost function Offset(m: RefsNode, top: RefsNode, G: Graph): nat
    requires m in G && m.height <= top.height
    decreases top.height - m.height
  {
    if m == top || !HasUpper(m, G) || m.upper.height > top.height then 0
    else Offset(m.upper, top, G) + |FlatAll(G[m.upper].tree.kids[..G[m].pos])|
  }

  // ---------------------------------------------------------------- the tail

  ghost predicate IsLast(b: RefsNode, n: RefsNode, G: Graph) {
    n in G && G[n].branches != [] && G[n].branches[|G[n].branches| - 1] == b
  }

  ghost predicate DownAt(tail: seq<RefsNode>, i: nat, G: Graph)
    requires 0 < i < |tail|
  {
    IsLast(tail[i], tail[i - 1], G)
  }

  /** The nodes from the top down along the last branches. */
  ghost predicate Tail(tail: seq<RefsNode>, top: RefsNode, G: Graph)
  {
    TailNodes(tail, top, G) == true
  }

  ghost predicate TailNodes(tail: seq<RefsNode>, top: RefsNode, G: Graph) {
    0 < |tail| && tail[0] == top
    && (forall i | 0 <= i < |tail| :: tail[i] in G && G[tail[i]].inMemory && tail[i].height + i == top.height)
    && (forall i {:trigger DownAt(tail, i, G)} | 0 < i < |tail| :: DownAt(tail, i, G))
  }

  // ------------------------------------------------------------------- index

  type Index = map<Hash, seq<RefsElement>>

  /** The index holds exactly the elements, each under its hash and once, and no empty entry. */
  ghost predicate Matches(index: Index, E: Items)
  {
    Indexes(index, E) == true
  }

  ghost predicate Indexes(index: Index, E: Items) {
    (forall h <- index :: index[h] != [])
    && (forall h, i {:trigger index[h][i]} | h in index && 0 <= i < |index[h]| ::
        index[h][i] in E && E[index[h][i]].hash == h)
    && (forall h, i, j {:trigger index[h][i], index[h][j]} | h in index && 0 <= i < j < |index[h]| ::
        index[h][i] != index[h][j])
    && (forall e <- E :: E[e].hash in index && e in index[E[e].hash])
  }

  ghost predicate Distinct(s: seq<RefsElement>) {
    forall i, j | 0 <= i < j < |s| :: s[i] != s[j]
  }

  // --------------------------------------------------------------- the whole

  /**
   Everything in memory is linked and indexed; upper nodes need not know the trees
   of `M`, and the elements in `limbo` have been taken out of the index already.
   */
  ghost predicate Wiring(M: Nodes, root: RefsNode?, depth: nat, degree: nat, flags: Flags, index: Index,
      limbo: set<RefsElement>, G: Graph, E: Items)
    reads G.Keys, E.Keys
  {
    Wires(M, root, depth, degree, flags, index, limbo, G, E) == true
  }

  ghost predicate Wires(M: Nodes, root: RefsNode?, depth: nat, degree: nat, flags: Flags, index: Index,
      limbo: set<RefsElement>, G: Graph, E: Items)
    reads G.Keys, E.Keys
  {
    root != null && root.height == depth && ValidDegree(degree)
    && Mirrored(G, E) && LinkedBut(M, root, G, E)
    && limbo <= E.Keys && (flags.hashTableIndex ==> Matches(index, E - limbo))
  }

  /** `rn` is a node in memory at the given depth. */
  ghost predicate Here(rn: RefsNode, depth: nat, degree: nat, G: Graph) {
    rn in G && rn.height == depth && G[rn].inMemory && WF(G[rn].tree, degree, depth)
  }

  /** Where the elements of `n` start in the whole. */
  ghost function Start(n: RefsNode, G: Graph, root: RefsNode): nat
    requires n in G
  {
    if n.height <= root.height then Offset(n, root, G) else 0
  }

  ghost predicate Positioned(e: RefsElement, G: Graph, E: Items, root: RefsNode) {
    e in E && e.upper in G
  }

  /** The index of an element. */
  ghost function Position(e: RefsElement, G: Graph, E: Items, root: RefsNode): nat
    requires Positioned(e, G, E, root)
  {
    Start(e.upper, G, root) + E[e].pos
  }

  ghost predicate KidsClean(n: RefsNode, G: Graph) {
    n in G && forall b <- G[n].branches :: b in G ==> !G[b].stale
  }
}
