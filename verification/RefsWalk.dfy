/** What a walk from the root that makes hashes actual leaves of the tree. */
module RefsWalk {
  import opened Hashing
  import opened Trees
  import opened Merkle
  import opened RefsNodes
  import opened RefsGraph
  import opened RefsLinks
  import opened RefsState
  import opened Visits
  import opened Deletions

  // ------------------------------------------------------------------- below

  /** `n` is `b` or hangs below it. */
  ghost predicate Under(n: RefsNode, b: RefsNode)
    decreases b.height - n.height
  {
    n == b || (n.upper != null && n.height < n.upper.height && n.height < b.height && Under(n.upper, b))
  }

  lemma {:induction false} UnderUpper(n: RefsNode, b: RefsNode)
    requires Under(n, b) && b.upper != null && b.height < b.upper.height
    ensures Under(n, b.upper)
    decreases b.height - n.height
  {
    if n != b {
      UnderUpper(n.upper, b);
    }
  }

  lemma {:induction false} BelowUnder(n: RefsNode, b: RefsNode, G: Graph)
    requires Below(n, b, G)
    ensures Under(n, b)
    decreases b.height - n.height
  {
    if n != b {
      BelowUnder(n.upper, b, G);
    }
  }

  /** What is neither `m` nor below `b` is as it was, but for its place in its upper node. */
  ghost predicate Apart(m: RefsNode, b: RefsNode, G: Graph, H: Graph)
  {
    ApartSo(m, b, G, H) == true
  }

  ghost predicate ApartSo(m: RefsNode, b: RefsNode, G: Graph, H: Graph) {
    forall n <- G :: n != m && !Under(n, b) ==> n in H && H[n] == G[n].(pos := H[n].pos)
  }

  lemma ApartSelf(m: RefsNode, b: RefsNode, G: Graph)
    ensures Apart(m, b, G, G)
  {
  }

  lemma ApartTrans(m: RefsNode, b: RefsNode, G: Graph, H: Graph, I: Graph)
    requires Apart(m, b, G, H) && Apart(m, b, H, I)
    ensures Apart(m, b, G, I)
  {
  }

  lemma ApartOne(m: RefsNode, b: RefsNode, c: Cell, G: Graph, H: Graph)
    requires Apart(m, b, G, H)
    ensures Apart(m, b, G, H[m := c])
  {
  }

  lemma ApartUpper(m: RefsNode, b: RefsNode, G: Graph, H: Graph)
    requires Apart(m, b, G, H) && b.upper == m && b.height < m.height
    ensures Apart(m, m, G, H)
  {
    forall n <- G | n != m && !Under(n, m)
      ensures !Under(n, b)
    {
      if Under(n, b) {
        UnderUpper(n, b);
      }
    }
  }

  lemma ApartMore(m: RefsNode, b: RefsNode, G: Graph, H: Graph)
    requires Apart(b, b, G, H)
    ensures Apart(m, b, G, H)
  {
  }

  lemma ApartWithout(m: RefsNode, b: RefsNode, j: nat, M: Nodes, top: RefsNode, G: Graph, E: Items)
    requires LinkedBut(M, top, G, E) && m in G && j < |G[m].branches| && G[m].branches[j] == b
    requires G[m].tree.Branch? && |G[m].branches| == |G[m].tree.kids|
    ensures Apart(m, b, G, WithoutBranch(m, j, G))
  {
    forall n <- G | !Under(n, b)
      ensures !Below(n, b, G)
    {
      if Below(n, b, G) {
        BelowUnder(n, b, G);
      }
    }
  }

  // ------------------------------------------------------------------- walks

  /**
   What a walk leaves of the tree of `n`: a node that is not marked stays as it is,
   with all that is below it; of a marked one every branch is walked, and those in
   memory that have no elements then go.
   */
  ghost function Swept(n: RefsNode, G: Graph): Tree
    requires n in G
    decreases n.height, 0, 0
  {
    if G[n].inMemory && G[n].mod && n.height > 0 then Branch(SweptAll(n.height, G[n].branches, G)) else G[n].tree
  }

  ghost function SweptAll(h: nat, bs: seq<RefsNode>, G: Graph): seq<Tree>
    requires h > 0
    decreases h - 1, 1, |bs|
  {
    if bs == [] then []
    else
      var b := bs[|bs| - 1];
      SweptAll(h, bs[..|bs| - 1], G) + if b in G && b.height < h then SweptKid(G[b].inMemory, Swept(b, G)) else []
  }

  lemma SweptAt(n: RefsNode, G: Graph)
    requires n in G
    ensures Swept(n, G) ==
            if G[n].inMemory && G[n].mod && n.height > 0 then Branch(SweptAll(n.height, G[n].branches, G))
            else G[n].tree
  {
  }

  function SweptKid(inMemory: bool, t: Tree): seq<Tree> {
    if inMemory && Len(t) == 0 then [] else [t]
  }

  /** A walk elsewhere makes no difference. */
  lemma {:induction false} SweptSame(n: RefsNode, m: RefsNode, b: RefsNode, M: Nodes, top: RefsNode, G: Graph, H: Graph,
          E: Items)
    requires LinkedBut(M, top, G, E) && Apart(m, b, G, H) && n in G && !Under(n, b) && n.height <= b.height < m.height
    ensures n in H && Swept(n, H) == Swept(n, G) && H[n].inMemory == G[n].inMemory
    decreases n.height, 0, 0
  {
    if n.height > 0 {
      SweptAllSame(n, |G[n].branches|, m, b, M, top, G, H, E);
      assert G[n].branches[..|G[n].branches|] == G[n].branches;
    }
  }

  lemma {:induction false} SweptAllSame(n: RefsNode, j: nat, m: RefsNode, b: RefsNode, M: Nodes, top: RefsNode,
          G: Graph, H: Graph, E: Items)
    requires LinkedBut(M, top, G, E) && Apart(m, b, G, H) && n in G && !Under(n, b)
      && 0 < n.height <= b.height < m.height
      && j <= |G[n].branches|
    ensures SweptAll(n.height, G[n].branches[..j], H) == SweptAll(n.height, G[n].branches[..j], G)
    decreases n.height - 1, 1, j
  {
    if j > 0 {
      BranchOf(n, j - 1, M, top, G, E);
      assert G[n].branches[..j][..j - 1] == G[n].branches[..j - 1];
      SweptAllSame(n, j - 1, m, b, M, top, G, H, E);
      SweptSame(G[n].branches[j - 1], m, b, M, top, G, H, E);
    }
  }

  /** The elements are the same, and so is the tree if nothing was blank. */
  lemma {:induction false} SweptIs(n: RefsNode, M: Nodes, d: nat, top: RefsNode, G: Graph, E: Items)
    requires LinkedBut(M, top, G, E) && n in G && WF(G[n].tree, d, n.height) && forall m <- M :: m.height >= n.height
    ensures Tidied(G[n].tree, Swept(n, G), d, n.height)
    decreases n.height, 0, 0
  {
    hide Flat, FlatAll, NoBlanks;
    if n.height > 0 && G[n].inMemory && G[n].mod {
      assert Holds(n, M, G, E);
      KidsShape(G[n].tree, d, n.height);
      var bs, ks := G[n].branches, G[n].tree.kids;
      SweptAllIs(n, |bs|, M, d, top, G, E);
      assert bs[..|bs|] == bs && ks[..|bs|] == ks;
      FlatBranch(ks);
      FlatBranch(SweptAll(n.height, bs, G));
      BranchShape(SweptAll(n.height, bs, G), d, n.height);
    }
  }

  lemma BranchShape(ks: seq<Tree>, d: nat, h: nat)
    requires h > 0 && |ks| <= d && forall k <- ks :: WF(k, d, h - 1)
    ensures WF(Branch(ks), d, h)
  {
    forall i | 0 <= i < |ks|
      ensures WF(ks[i], d, h - 1)
    {
      assert ks[i] in ks;
    }
  }

  lemma {:induction false} SweptAllIs(n: RefsNode, j: nat, M: Nodes, d: nat, top: RefsNode, G: Graph, E: Items)
    requires LinkedBut(M, top, G, E) && n in G && n.height > 0 && WF(G[n].tree, d, n.height)
      && (forall m <- M :: m.height >= n.height) && j <= |G[n].branches| == |G[n].tree.kids|
    ensures var r, ks := SweptAll(n.height, G[n].branches[..j], G), G[n].tree.kids[..j];
            |r| <= j && FlatAll(r) == FlatAll(ks) && (forall k <- r :: WF(k, d, n.height - 1))
            && (NoBlanks(G[n].tree) ==> r == ks)
    decreases n.height - 1, 1, j
  {
    hide Flat, FlatAll, WF, Links, HasUpper;
    KidsShape(G[n].tree, d, n.height);
    if j == 0 {
      FlatAllNone();
    } else {
      var bs, ks := G[n].branches, G[n].tree.kids;
      var b := bs[j - 1];
      BranchOf(n, j - 1, M, top, G, E);
      assert bs[..j][..j - 1] == bs[..j - 1] && ks[..j] == ks[..j - 1] + [ks[j - 1]];
      SweptAllIs(n, j - 1, M, d, top, G, E);
      SweptIs(b, M, d, top, G, E);
      var a, t := SweptAll(n.height, bs[..j - 1], G), Swept(b, G);
      TidiedIs(ks[j - 1], t, d, n.height - 1);
      FlatAllSnoc(ks[..j - 1], ks[j - 1]);
      SweptSnoc(a, G[b].inMemory, t);
      assert SweptAll(n.height, bs[..j], G) == a + SweptKid(G[b].inMemory, t);
    }
  }

  lemma SweptSnoc(a: seq<Tree>, inMemory: bool, t: Tree)
    ensures FlatAll(a + SweptKid(inMemory, t)) == FlatAll(a) + Flat(t)
  {
    FlatAllSnoc(a, t);
    assert a + [] == a;
  }

  lemma SweptAllNext(h: nat, bs: seq<RefsNode>, j: nat, G: Graph)
    requires h > 0 && j < |bs| && bs[j] in G && bs[j].height < h
    ensures SweptAll(h, bs[..j + 1], G) == SweptAll(h, bs[..j], G) + SweptKid(G[bs[j]].inMemory, Swept(bs[j], G))
  {
    assert bs[..j + 1][..j] == bs[..j];
  }

  /** The node after its i-th branch has been walked, which left `k`. */
  ghost function KidWalked(t: Tree, i: nat, k: Tree, removed: bool): Tree {
    if t.Branch? && i < |t.kids| then Branch(if removed then Without(t.kids, i) else t.kids[i := k]) else t
  }

  /**
   The first `j` of the branches that `rn` had have been walked, and `i` of them
   stayed; the others are as they were.
   */
  ghost predicate Walking(rn: RefsNode, bs: seq<RefsNode>, ks: seq<Tree>, j: nat, i: nat, G: Graph, H: Graph)
  {
    WalkingSo(rn, bs, ks, j, i, G, H) == true
  }

  ghost predicate WalkingSo(rn: RefsNode, bs: seq<RefsNode>, ks: seq<Tree>, j: nat, i: nat, G: Graph, H: Graph) {
    rn in H && rn.height > 0 && H[rn].tree.Branch? && |H[rn].branches| == |H[rn].tree.kids|
    && j <= |bs| == |ks| && i <= |H[rn].branches| && H[rn].branches[i..] == bs[j..]
    && H[rn].tree.kids[i..] == ks[j..] && H[rn].tree.kids[..i] == SweptAll(rn.height, bs[..j], G)
    && forall k | j <= k < |bs| :: StillThere(bs[k], G, H)
  }

  ghost predicate StillThere(b: RefsNode, G: Graph, H: Graph) {
    b in G && b in H && Swept(b, H) == Swept(b, G) && H[b].inMemory == G[b].inMemory
  }

  lemma StillIs(b: RefsNode, G: Graph, H: Graph)
    requires StillThere(b, G, H)
    ensures b in G && b in H && Swept(b, H) == Swept(b, G) && H[b].inMemory == G[b].inMemory
  {
  }

  lemma WalkingStart(rn: RefsNode, M: Nodes, top: RefsNode, G: Graph, E: Items)
    requires LinkedBut(M, top, G, E) && rn in G && rn.height > 0 && G[rn].inMemory
    ensures G[rn].tree.Branch? && Walking(rn, G[rn].branches, G[rn].tree.kids, 0, 0, G, G)
  {
    assert Holds(rn, M, G, E);
    forall k | 0 <= k < |G[rn].branches|
      ensures StillThere(G[rn].branches[k], G, G)
    {
      BranchOf(rn, k, M, top, G, E);
    }
  }

  lemma WalkingEnd(rn: RefsNode, bs: seq<RefsNode>, ks: seq<Tree>, j: nat, i: nat, G: Graph, H: Graph)
    requires Walking(rn, bs, ks, j, i, G, H) && rn in H && i == |H[rn].branches|
    ensures rn.height > 0 && H[rn].tree == Branch(SweptAll(rn.height, bs, G))
  {
    assert |bs[j..]| == 0;
    assert bs[..j] == bs;
    assert H[rn].tree.kids[..i] == H[rn].tree.kids;
  }

  lemma WalkingAt(rn: RefsNode, bs: seq<RefsNode>, ks: seq<Tree>, j: nat, i: nat, G: Graph, H: Graph)
    requires Walking(rn, bs, ks, j, i, G, H) && rn in H && i < |H[rn].branches|
    ensures j < |bs| == |ks| && H[rn].branches[i] == bs[j] && StillThere(bs[j], G, H)
    ensures H[rn].tree.Branch? && |H[rn].branches| == |H[rn].tree.kids|
    ensures H[rn].tree.kids[i] == ks[j]
  {
    assert H[rn].branches[i..][0] == bs[j..][0];
    assert H[rn].tree.kids[i..][0] == ks[j..][0];
  }

  lemma WalkingStep(rn: RefsNode, bs: seq<RefsNode>, ks: seq<Tree>, j: nat, i: nat, removed: bool, M: Nodes,
          top: RefsNode, G: Graph, H: Graph, I: Graph, E: Items)
    requires Walking(rn, bs, ks, j, i, G, H) && LinkedBut(M, top, H, E) && rn in H && rn in I && i < |H[rn].branches|
    requires H[rn].branches[i] in H && Apart(rn, H[rn].branches[i], H, I)
    requires var b := H[rn].branches[i];
             removed == (H[b].inMemory && Len(Swept(b, H)) == 0)
             && I[rn].tree == KidWalked(H[rn].tree, i, Swept(b, H), removed)
             && I[rn].branches == (if removed then Without(H[rn].branches, i) else H[rn].branches)
    ensures Walking(rn, bs, ks, j + 1, if removed then i else i + 1, G, I)
  {
    hide Flat, SweptAll, Swept, Without, Links, StillThere, ApartSo;
    WalkingAt(rn, bs, ks, j, i, G, H);
    BranchOf(rn, i, M, top, H, E);
    var b, h := H[rn].branches[i], H[rn];
    StillAll(rn, bs, ks, j, i, M, top, G, H, I, E);
    StillIs(b, G, H);
    SweptAllNext(rn.height, bs, j, G);
    Out(h.branches, i, bs, j);
    Out(h.tree.kids, i, ks, j);
    In(h.branches, i, bs, j, b);
    In(h.tree.kids, i, ks, j, Swept(b, H));
    assert h.branches[i := b] == h.branches;
  }

  lemma Out<T>(s: seq<T>, i: nat, u: seq<T>, j: nat)
    requires i < |s| && j < |u| && s[i..] == u[j..]
    ensures |Without(s, i)| == |s| - 1 && Without(s, i)[..i] == s[..i] && Without(s, i)[i..] == u[j + 1..]
  {
    assert s[i + 1..] == s[i..][1..];
    assert u[j + 1..] == u[j..][1..];
  }

  lemma In<T>(s: seq<T>, i: nat, u: seq<T>, j: nat, x: T)
    requires i < |s| && j < |u| && s[i..] == u[j..]
    ensures s[i := x][..i + 1] == s[..i] + [x] && s[i := x][i + 1..] == u[j + 1..]
  {
    assert s[i + 1..] == s[i..][1..];
    assert u[j + 1..] == u[j..][1..];
  }

  lemma StillAll(rn: RefsNode, bs: seq<RefsNode>, ks: seq<Tree>, j: nat, i: nat, M: Nodes, top: RefsNode, G: Graph,
          H: Graph, I: Graph, E: Items)
    requires Walking(rn, bs, ks, j, i, G, H) && LinkedBut(M, top, H, E) && rn in H && i < |H[rn].branches|
    requires Apart(rn, H[rn].branches[i], H, I)
    ensures forall k | j < k < |bs| :: StillThere(bs[k], G, I)
  {
    hide Flat, SweptAll, Swept, Links, ApartSo;
    BranchOf(rn, i, M, top, H, E);
    var b := H[rn].branches[i];
    forall k | j < k < |bs|
      ensures StillThere(bs[k], G, I)
    {
      var o := i + (k - j);
      assert H[rn].branches[i..][k - j] == bs[j..][k - j];
      BranchOf(rn, o, M, top, H, E);
      assert StillThere(bs[k], G, H);
      SweptSame(bs[k], rn, b, M, top, H, I, E);
    }
  }

  // ------------------------------------------------------ deleting by a hash

  /**
   Elements with the hash `x` have gone: nodes that lost some are marked, those in
   `M` have yet to be.
   */
  ghost predicate Thinned(x: Hash, M: Nodes, top: RefsNode, G: Graph, H: Graph)
  {
    ThinnedSo(x, M, top, G, H) == true
  }

  ghost predicate ThinnedSo(x: Hash, M: Nodes, top: RefsNode, G: Graph, H: Graph) {
    H.Keys == G.Keys
    && (forall n <- G :: Thinner(x, n in M, G[n], H[n]))
    && (forall n <- G :: n != top ==> KnownAbove(n, G))
  }

  ghost predicate Thinner(x: Hash, pending: bool, c: Cell, k: Cell) {
    k.inMemory == c.inMemory && k.branches == c.branches && k.pos == c.pos && Cleared(k.tree, x) == Cleared(c.tree, x)
    && Len(k.tree) <= Len(c.tree)
    && if pending then Len(k.tree) < Len(c.tree) else k.mod == (c.mod || Len(k.tree) < Len(c.tree))
  }

  ghost predicate KnownAbove(n: RefsNode, G: Graph)
    requires n in G
  {
    HasUpper(n, G) && G[n.upper].tree.kids[G[n].pos] == G[n].tree
  }

  lemma ThinnedSelf(x: Hash, top: RefsNode, G: Graph, E: Items)
    requires LinkedBut({}, top, G, E)
    ensures Thinned(x, {}, top, G, G)
  {
    hide Links;
    forall n <- G | n != top
      ensures KnownAbove(n, G)
    {
      UpperOf(n, {}, top, G, E);
    }
  }

  lemma ThinnedLeaf(x: Hash, m: RefsNode, j: nat, top: RefsNode, G: Graph, H: Graph)
    requires Thinned(x, {}, top, G, H) && m in H && H[m].tree.Leaf? && j < |H[m].leafs| == |H[m].tree.es|
      && H[m].tree.es[j] == x
    ensures Thinned(x, {m}, top, G, WithoutLeaf(m, j, H))
  {
    OthersWithout(H[m].tree.es, j, x);
  }

  lemma ThinnedMark(x: Hash, m: RefsNode, c: Cell, top: RefsNode, G: Graph, H: Graph)
    requires Thinned(x, {m}, top, G, H) && m in H && c.mod
    requires c == H[m].(length := c.length, hash := c.hash, mod := c.mod, stale := c.stale)
    ensures Thinned(x, {}, top, G, H[m := c])
  {
    hide Flat, Cleared;
    assert Thinner(x, true, G[m], H[m]);
  }

  /** Told to the node above. */
  lemma ThinnedUp(x: Hash, m: RefsNode, top: RefsNode, G: Graph, H: Graph)
    requires Thinned(x, {}, top, G, H) && m in H && m != top && HasUpper(m, H)
      && Len(H[m].tree) < Len(H[m.upper].tree.kids[H[m].pos])
    ensures Thinned(x, {m.upper}, top, G, Stepped(m, H))
  {
    hide Flat, Cleared, ThinnedSo;
    var u := m.upper;
    ThinnedAt(x, m, {}, top, G, H);
    ThinnedAt(x, u, {}, top, G, H);
    ThinnedKid(x, G[u].tree, H[u].tree, G[m].pos, H[m].tree);
    ThinnedOne(x, u, Stepped(m, H)[u], top, G, H);
  }

  lemma ThinnedAt(x: Hash, n: RefsNode, M: Nodes, top: RefsNode, G: Graph, H: Graph)
    requires Thinned(x, M, top, G, H) && n in H
    ensures n in G && Thinner(x, n in M, G[n], H[n]) && (n != top ==> KnownAbove(n, G))
  {
    hide Flat, Cleared;
  }

  lemma ThinnedOne(x: Hash, m: RefsNode, c: Cell, top: RefsNode, G: Graph, H: Graph)
    requires Thinned(x, {}, top, G, H) && m in G && Thinner(x, true, G[m], c)
    ensures Thinned(x, {m}, top, G, H[m := c])
  {
    hide Flat, Cleared, HasUpper;
  }

  lemma ThinnedKid(x: Hash, t: Tree, u: Tree, j: nat, k: Tree)
    requires t.Branch? && u.Branch? && j < |t.kids| && j < |u.kids| && Cleared(u, x) == Cleared(t, x)
      && Cleared(k, x) == Cleared(t.kids[j], x)
    requires Len(k) < Len(u.kids[j])
    ensures Cleared(Branch(u.kids[j := k]), x) == Cleared(t, x) && Len(Branch(u.kids[j := k])) < Len(u)
  {
    hide Flat;
    LenKid(u.kids, j, k);
    assert Branch(u.kids) == u;
    assert |ClearedAll(u.kids, x)| == |u.kids|;
    assert ClearedAll(u.kids[j := k], x) == ClearedAll(t.kids, x);
  }

  /** The nodes without `x`, marked where it was. */
  ghost function Erased(x: Hash, G: Graph): Graph {
    map n | n in G :: G[n].(tree := Cleared(G[n].tree, x), mod := G[n].mod || x in Flat(G[n].tree))
  }

  /** What a walk makes of nodes that have all lost `x`. */
  lemma SweptErased(x: Hash, top: RefsNode, G: Graph, H: Graph, E: Items)
    requires Thinned(x, {}, top, G, H) && LinkedBut({}, top, H, E) && top in H && x !in Flat(H[top].tree)
    ensures top in G && Swept(top, H) == Swept(top, Erased(x, G))
  {
    hide Flat, Cleared, ThinnedSo, Links, Swept;
    assert top in G by {
      ThinnedAt(x, top, {}, top, G, H);
    }
    forall n <- H
      ensures Alike(n, H, Erased(x, G))
    {
      ErasedAt(x, n, top, G, H, E);
    }
    SweptAlike(top, {}, top, H, Erased(x, G), E);
  }

  lemma ErasedAt(x: Hash, n: RefsNode, top: RefsNode, G: Graph, H: Graph, E: Items)
    requires Thinned(x, {}, top, G, H) && LinkedBut({}, top, H, E) && n in H && top in H && x !in Flat(H[top].tree)
    ensures Alike(n, H, Erased(x, G))
  {
    hide Flat, Cleared, ThinnedSo, Links;
    NotBelow(x, n, top, H, E);
    ClearedSame(H[n].tree, x);
    ThinnedAt(x, n, {}, top, G, H);
    ClearedIs(G[n].tree, x);
    OthersCount(Flat(G[n].tree), x);
  }

  ghost predicate Alike(n: RefsNode, G: Graph, H: Graph) {
    n in G && n in H && H[n].inMemory == G[n].inMemory && H[n].branches == G[n].branches && H[n].tree == G[n].tree
    && H[n].mod == G[n].mod
  }

  lemma {:induction false} NotBelow(x: Hash, n: RefsNode, top: RefsNode, G: Graph, E: Items)
    requires LinkedBut({}, top, G, E) && n in G && x !in Flat(G[top].tree)
    ensures x !in Flat(G[n].tree)
  {
    if x in Flat(G[n].tree) {
      var k :| 0 <= k < Len(G[n].tree) && Flat(G[n].tree)[k] == x;
      TopIndex(n, k, top, G, E);
    }
  }

  lemma {:induction false} SweptAlike(n: RefsNode, M: Nodes, top: RefsNode, G: Graph, H: Graph, E: Items)
    requires LinkedBut(M, top, G, E) && (forall m <- G :: Alike(m, G, H)) && n in G
    ensures n in H && Swept(n, H) == Swept(n, G)
    decreases n.height, 0, 0
  {
    assert Alike(n, G, H);
    if n.height > 0 {
      SweptAllAlike(n, |G[n].branches|, M, top, G, H, E);
      assert G[n].branches[..|G[n].branches|] == G[n].branches;
    }
  }

  lemma {:induction false} SweptAllAlike(n: RefsNode, j: nat, M: Nodes, top: RefsNode, G: Graph, H: Graph, E: Items)
    requires LinkedBut(M, top, G, E) && (forall m <- G :: Alike(m, G, H)) && n in G && n.height > 0
      && j <= |G[n].branches|
    ensures SweptAll(n.height, G[n].branches[..j], H) == SweptAll(n.height, G[n].branches[..j], G)
    decreases n.height - 1, 1, j
  {
    if j > 0 {
      BranchOf(n, j - 1, M, top, G, E);
      assert G[n].branches[..j][..j - 1] == G[n].branches[..j - 1];
      SweptAllAlike(n, j - 1, M, top, G, H, E);
      SweptAlike(G[n].branches[j - 1], M, top, G, H, E);
      assert Alike(G[n].branches[j - 1], G, H);
    }
  }

  /** If nothing was blank, just the nodes go that get empty. */
  lemma {:induction false} SweptTrimmed(x: Hash, n: RefsNode, top: RefsNode, G: Graph, E: Items)
    requires LinkedBut({}, top, G, E) && n in G && NoBlanks(G[n].tree) && forall m <- G :: G[m].inMemory
    ensures Swept(n, Erased(x, G)) == Trimmed(G[n].tree, x)
    decreases n.height, 0, 0
  {
    assert Holds(n, {}, G, E);
    if G[n].mod || x in Flat(G[n].tree) {
      if n.height > 0 {
        var bs, ks := G[n].branches, G[n].tree.kids;
        SweptAllTrimmed(x, n, |bs|, top, G, E);
        assert bs[..|bs|] == bs && ks[..|bs|] == ks;
      }
    } else {
      ClearedSame(G[n].tree, x);
      TrimmedSame(G[n].tree, x);
    }
  }

  lemma {:induction false} SweptAllTrimmed(x: Hash, n: RefsNode, j: nat, top: RefsNode, G: Graph, E: Items)
    requires LinkedBut({}, top, G, E) && n in G && n.height > 0 && G[n].tree.Branch? && NoBlanks(G[n].tree)
      && (forall m <- G :: G[m].inMemory) && j <= |G[n].branches| == |G[n].tree.kids|
    ensures SweptAll(n.height, G[n].branches[..j], Erased(x, G)) == TrimmedAll(G[n].tree.kids[..j], x)
    decreases n.height - 1, 1, j
  {
    hide Flat, Cleared;
    if j > 0 {
      var bs, ks, H := G[n].branches, G[n].tree.kids, Erased(x, G);
      var b := bs[j - 1];
      BranchOf(n, j - 1, {}, top, G, E);
      SweptAllTrimmed(x, n, j - 1, top, G, E);
      SweptTrimmed(x, b, top, G, E);
      SweptAllNext(n.height, bs, j - 1, H);
      assert ks[..j][..j - 1] == ks[..j - 1];
      if x !in Flat(ks[j - 1]) {
        TrimmedSame(ks[j - 1], x);
      }
      assert Len(ks[j - 1]) > 0;
    }
  }

  // -------------------------------------------------- deleting on the way down

  /** On the way from `t` to what is left of it without `x`, emptied nodes gone. */
  ghost predicate Trimming(lazy: bool, x: Hash, t: Tree, u: Tree, h: nat, deleted: bool)
  {
    TrimmingSo(lazy, x, t, u, h, deleted) == true
  }

  ghost predicate TrimmingSo(lazy: bool, x: Hash, t: Tree, u: Tree, h: nat, deleted: bool) {
    Settled(lazy, Trimmed(u, x), h) == Settled(lazy, Trimmed(t, x), h)
    && u == if deleted then Settled(lazy, u, h) else t
  }

  lemma TrimmingStart(lazy: bool, x: Hash, t: Tree, h: nat)
    ensures Trimming(lazy, x, t, t, h, false)
  {
  }

  lemma TrimmingStep(lazy: bool, x: Hash, t: Tree, u: Tree, i: nat, h: nat, deleted: bool)
    requires Trimming(lazy, x, t, u, h, deleted) && i < Len(u) && Flat(u)[i] == x
    ensures Trimming(lazy, x, t, Settled(lazy, DeleteAt(u, i), h), h, true)
  {
    hide Trimmed, DeleteAt;
    var v := DeleteAt(u, i);
    TrimmedDeleteAt(u, i, x);
    if !lazy && Len(v) == 0 {
      TrimmedIs(v, x);
      TrimmedIs(Empty(h), x);
      BareShape(1, h);
    }
  }

  lemma TrimmingEnd(lazy: bool, x: Hash, t: Tree, u: Tree, h: nat, deleted: bool)
    requires Trimming(lazy, x, t, u, h, deleted) && x !in Flat(u)
    ensures u == if deleted then Settled(lazy, Trimmed(t, x), h) else t
  {
    TrimmedSame(u, x);
  }

  /** The i-th element is next, and running iterators know what has been deleted. */
  ghost predicate Midway(lazy: bool, x: Hash, t: Tree, u: Tree, h: nat, i: int, deleted: bool, its: seq<bool>,
      now: seq<bool>)
  {
    MidwaySo(lazy, x, t, u, h, i, deleted, its, now) == true
  }

  ghost predicate MidwaySo(lazy: bool, x: Hash, t: Tree, u: Tree, h: nat, i: int, deleted: bool, its: seq<bool>,
      now: seq<bool>) {
    Pending(Flat(t), i, x, Flat(u), deleted) && Trimming(lazy, x, t, u, h, deleted)
    && now == (if deleted then Rewound(its) else its) + [false]
  }

  lemma MidwayStart(lazy: bool, x: Hash, t: Tree, h: nat, its: seq<bool>)
    requires Len(t) > 0
    ensures Midway(lazy, x, t, t, h, Len(t) - 1, false, its, its + [false])
  {
    PendingStart(Flat(t), x);
    TrimmingStart(lazy, x, t, h);
  }
}
