/**
 How graphs of nodes change when a node is loaded, changed, added or removed,
 and how a change travels up to the root.
 */
module RefsLinks {
  import opened Hashing
  import opened Powers
  import opened Trees
  import opened Growth
  import opened Merkle
  import opened RefsNodes
  import opened RefsGraph

  // ------------------------------------------------------------------- links
  lemma UpperOf(m: RefsNode, M: Nodes, top: RefsNode, G: Graph, E: Items)
    requires LinkedBut(M, top, G, E) && m in G && m != top
    ensures HasUpper(m, G)
    ensures m !in M ==> G[m.upper].tree.kids[G[m].pos] == G[m].tree
  {
    assert Hangs(m, G);
    assert Holds(m.upper, M, G, E);
    assert IsBranch(m, m.upper, G[m].pos, G[m.upper].tree.kids[G[m].pos], M, G);
  }

  lemma BranchOf(n: RefsNode, i: nat, M: Nodes, top: RefsNode, G: Graph, E: Items)
    requires LinkedBut(M, top, G, E) && n in G && i < |G[n].branches|
    ensures var b := G[n].branches[i];
            b in G && b.upper == n && G[b].pos == i && b.height + 1 == n.height && b != top
            && G[n].tree.Branch? && |G[n].branches| == |G[n].tree.kids| && G[n].inMemory
            && (b !in M ==> G[b].tree == G[n].tree.kids[i])
  {
    assert Holds(n, M, G, E);
    assert IsBranch(G[n].branches[i], n, i, G[n].tree.kids[i], M, G);
  }

  lemma LeafOf(n: RefsNode, i: nat, M: Nodes, top: RefsNode, G: Graph, E: Items)
    requires LinkedBut(M, top, G, E) && n in G && i < |G[n].leafs|
    ensures var e := G[n].leafs[i];
            e in E && e.upper == n && E[e].pos == i && n.height == 0 && G[n].inMemory
            && G[n].tree.Leaf? && |G[n].leafs| == |G[n].tree.es| && E[e].hash == G[n].tree.es[i]
  {
    assert Holds(n, M, G, E);
    assert IsLeaf(G[n].leafs[i], n, i, G[n].tree.es[i], E);
  }

  lemma MoreBut(M: Nodes, N: Nodes, top: RefsNode, G: Graph, E: Items)
    requires LinkedBut(M, top, G, E) && M <= N
    ensures LinkedBut(N, top, G, E)
  {
    forall n | n in G
      ensures Holds(n, N, G, E)
    {
      assert Holds(n, M, G, E);
      forall i | 0 <= i < |G[n].branches|
        ensures IsBranch(G[n].branches[i], n, i, G[n].tree.kids[i], N, G)
      {
        assert IsBranch(G[n].branches[i], n, i, G[n].tree.kids[i], M, G);
      }
    }
  }

  /** The upper node of `m` knows its tree after all. */
  lemma LessBut(m: RefsNode, M: Nodes, top: RefsNode, G: Graph, E: Items)
    requires LinkedBut(M, top, G, E) && m in G
    requires m != top ==> HasUpper(m, G) && G[m.upper].tree.kids[G[m].pos] == G[m].tree
    ensures LinkedBut(M - {m}, top, G, E)
  {
    forall n | n in G
      ensures Holds(n, M - {m}, G, E)
    {
      assert Holds(n, M, G, E);
      forall i | 0 <= i < |G[n].branches|
        ensures IsBranch(G[n].branches[i], n, i, G[n].tree.kids[i], M - {m}, G)
      {
        assert IsBranch(G[n].branches[i], n, i, G[n].tree.kids[i], M, G);
      }
    }
  }

  // --------------------------------------------------------- changing a tree

  /** Let the upper node of `m` know its tree. */
  lemma StepUpIn(m: RefsNode, M: Nodes, top: RefsNode, G: Graph, E: Items)
    requires LinkedBut(M, top, G, E) && m in M && m != top && HasUpper(m, G) && m.upper in M
    ensures LinkedBut(M - {m}, top, Retree(m.upper, UpperTree(m, G[m].tree, G), G), E)
  {
    var u, N := m.upper, M - {m};
    var U := Retree(u, UpperTree(m, G[m].tree, G), G);
    forall n | n in U && n != top
      ensures Hangs(n, U)
    {
      assert Hangs(n, G);
    }
    forall n | n in U
      ensures Holds(n, N, U, E)
    {
      assert Holds(n, M, G, E);
      forall i | 0 <= i < |G[n].branches|
        ensures IsBranch(U[n].branches[i], n, i, U[n].tree.kids[i], N, U)
      {
        assert IsBranch(G[n].branches[i], n, i, G[n].tree.kids[i], M, G);
      }
    }
    forall e | e in E
      ensures Sits(e, U, E)
    {
      assert Sits(e, G, E);
    }
  }

  lemma StepUp(m: RefsNode, top: RefsNode, G: Graph, E: Items)
    requires LinkedBut({m}, top, G, E) && m != top && HasUpper(m, G)
    ensures LinkedBut({m.upper}, top, Retree(m.upper, UpperTree(m, G[m].tree, G), G), E)
  {
    MoreBut({m}, {m, m.upper}, top, G, E);
    StepUpIn(m, {m, m.upper}, top, G, E);
    assert {m, m.upper} - {m} == {m.upper};
  }

  lemma {:induction false} TopTreeSame(m: RefsNode, t: Tree, top: RefsNode, G: Graph, H: Graph)
    requires m in G && m in H && m.height <= top.height && G[m].pos == H[m].pos
    requires HasUpper(m, G) <==> HasUpper(m, H)
    requires forall n <- G :: n.height > m.height ==> n in H && H[n] == G[n]
    requires forall n <- H :: n.height > m.height ==> n in G
    ensures TopTree(m, t, top, G) == TopTree(m, t, top, H)
    decreases top.height - m.height
  {
    if m != top && HasUpper(m, G) && m.upper.height <= top.height {
      TopTreeSame(m.upper, UpperTree(m, t, G), top, G, H);
    }
  }

  lemma {:induction false} LiftLinks(m: RefsNode, top: RefsNode, G: Graph, E: Items)
    requires LinkedBut({m}, top, G, E) && m in G
    ensures var L := Lift(m, top, G);
            L.Keys == G.Keys && LinkedBut({}, top, L, E)
            && (forall n <- G ::
                L[n] == G[n].(tree := L[n].tree, stale := L[n].stale) && (n.height <= m.height ==> L[n] == G[n]))
            && L[top].tree == TopTree(m, G[m].tree, top, G)
    decreases top.height - m.height
  {
    if m == top {
      LessBut(m, {m}, top, G, E);
      assert {m} - {m} == {};
    } else {
      UpperOf(m, {m}, top, G, E);
      var u := m.upper;
      StepUp(m, top, G, E);
      var U := Retree(u, UpperTree(m, G[m].tree, G), G);
      LiftLinks(u, top, U, E);
      if u != top {
        UpperOf(u, {u}, top, U, E);
      }
      TopTreeSame(u, U[u].tree, top, G, U);
    }
  }

  // ------------------------------------------------------- local alterations

  /** Change the hash of a leaf. */
  lemma SetItem(e: RefsElement, x: Hash, top: RefsNode, G: Graph, E: Items)
    requires LinkedBut({}, top, G, E) && e in E && Sits(e, G, E)
    requires G[e.upper].tree.Leaf? && E[e].pos < |G[e.upper].tree.es|
    ensures LinkedBut({e.upper}, top, Retree(e.upper, Leaf(G[e.upper].tree.es[E[e].pos := x]), G),
            E[e := E[e].(hash := x)])
  {
    var m, F := e.upper, E[e := E[e].(hash := x)];
    var U := Retree(m, Leaf(G[m].tree.es[E[e].pos := x]), G);
    LeafOf(m, E[e].pos, {}, top, G, E);
    assert Holds(m, {}, G, E);
    Keep(m, {}, {m}, top, G, U, E, F);
    forall i | 0 <= i < |G[m].leafs|
      ensures IsLeaf(U[m].leafs[i], m, i, U[m].tree.es[i], F)
    {
      assert IsLeaf(G[m].leafs[i], m, i, G[m].tree.es[i], E);
    }
    forall k | k in F
      ensures Sits(k, U, F)
    {
      assert Sits(k, G, E);
    }
  }

  /** A change of `m` alone, and of elements of `m` alone, keeps the links of all other nodes. */
  lemma Keep(m: RefsNode, M: Nodes, N: Nodes, top: RefsNode, G: Graph, U: Graph, E: Items, F: Items)
    requires LinkedBut(M, top, G, E) && m in G && N == M + {m}
    requires U.Keys == G.Keys && U == G[m := U[m]] && U[m].pos == G[m].pos
    requires U[m].branches == G[m].branches && (m.height == 0 ==> G[m].branches == [])
    requires forall e <- E :: e.upper != m ==> e in F && F[e] == E[e]
    requires forall e <- F :: e.upper != m ==> e in E
    ensures forall n | n in G && n != top :: Hangs(n, U)
    ensures forall n | n in G && n != m :: Holds(n, N, U, F)
    ensures forall e | e in F && e.upper != m :: Sits(e, U, F)
  {
    forall n | n in G && n != top
      ensures Hangs(n, U)
    {
      assert Hangs(n, G);
    }
    forall n | n in G && n != m
      ensures Holds(n, N, U, F)
    {
      assert Holds(n, M, G, E);
      forall i | 0 <= i < |G[n].branches|
        ensures IsBranch(U[n].branches[i], n, i, U[n].tree.kids[i], N, U)
      {
        assert IsBranch(G[n].branches[i], n, i, G[n].tree.kids[i], M, G);
      }
      forall i | 0 <= i < |G[n].leafs|
        ensures IsLeaf(U[n].leafs[i], n, i, U[n].tree.es[i], F)
      {
        assert IsLeaf(G[n].leafs[i], n, i, G[n].tree.es[i], E);
      }
    }
    forall e | e in F && e.upper != m
      ensures Sits(e, U, F)
    {
      assert Sits(e, G, E);
    }
  }

  lemma AddLeaf(m: RefsNode, e: RefsElement, x: Hash, M: Nodes, top: RefsNode, G: Graph, E: Items)
    requires LinkedBut(M, top, G, E) && m in M && m in G && m.height == 0 && G[m].inMemory
    requires e !in E && e.upper == m
    ensures G[m].tree.Leaf? && |G[m].leafs| == |G[m].tree.es|
    ensures LinkedBut(M, top, WithLeaf(m, e, x, G), E[e := Item(x, |G[m].leafs|)])
  {
    assert Holds(m, M, G, E);
    var U, F := WithLeaf(m, e, x, G), E[e := Item(x, |G[m].leafs|)];
    assert M + {m} == M;
    Keep(m, M, M, top, G, U, E, F);
    forall i | 0 <= i < |U[m].leafs|
      ensures IsLeaf(U[m].leafs[i], m, i, U[m].tree.es[i], F)
    {
      if i < |G[m].leafs| {
        assert IsLeaf(G[m].leafs[i], m, i, G[m].tree.es[i], E);
      }
    }
    forall k | k in F
      ensures Sits(k, U, F)
    {
      if k in E {
        assert Sits(k, G, E);
      }
    }
  }

  lemma OpenNode(m: RefsNode, M: Nodes, top: RefsNode, G: Graph, E: Items)
    requires LinkedBut(M, top, G, E) && m in G && G[m].leafs == [] && G[m].branches == []
    ensures LinkedBut(M + {m}, top, Opened(m, G), E)
  {
    assert forall e <- E :: Sits(e, G, E);
    Keep(m, M, M + {m}, top, G, Opened(m, G), E, E);
  }

  // ------------------------------------------------------------------ fields

  lemma LoadedTrans(G: Graph, H: Graph, I: Graph)
    requires LoadedFrom(G, H) && LoadedFrom(H, I)
    ensures LoadedFrom(G, I)
  {
      }

  lemma NothingLoaded(G: Graph, E: Items)
    ensures LoadedFrom(G, G) && MoreItems(E, E)
  {
  }

  lemma LoadedMore(G: Graph, E: Items, H: Graph, F: Items, I: Graph, K: Items)
    requires LoadedFrom(G, H) && LoadedFrom(H, I) && MoreItems(E, F) && MoreItems(F, K)
    ensures LoadedFrom(G, I) && MoreItems(E, K)
  {
    LoadedTrans(G, H, I);
  }

  /** What was in memory stays as it is. */
  lemma LoadedAt(n: RefsNode, G: Graph, H: Graph)
    requires LoadedFrom(G, H) && n in G
    ensures n in H && H[n].tree == G[n].tree && H[n].pos == G[n].pos && (G[n].inMemory ==> H[n] == G[n])
  {
  }

  lemma LoadedKept(lazy: bool, M: Nodes, top: RefsNode?, G: Graph, H: Graph)
    requires LoadedFrom(G, H) && Kept(lazy, M, top, G)
    ensures Kept(lazy, M, top, H)
  {
  }

  lemma MirroredAt(n: RefsNode, G: Graph, E: Items)
    requires Mirrored(G, E) && n in G
    ensures Mirrors(n, G[n])
  {
  }

  lemma MirrorsPos(n: RefsNode, c: Cell, pos: nat)
    requires Mirrors(n, c)
    ensures Mirrors(n, c.(pos := pos))
  {
  }

  lemma ItemMirrored(e: RefsElement, G: Graph, E: Items)
    requires Mirrored(G, E) && e in E
    ensures e.hash == E[e].hash
  {
  }

  lemma MirrorsIs(n: RefsNode, c: Cell)
    requires n.leafs == c.leafs && n.branches == c.branches && n.hash == c.hash && n.length == c.length
    requires n.loaded == c.loaded && n.contentMod == c.mod
    ensures Mirrors(n, c)
  {
  }

  /** Trees are not in memory. */
  lemma MirroredRetree(m: RefsNode, t: Tree, G: Graph, E: Items)
    requires Mirrored(G, E) && m in G
    ensures Mirrored(Retree(m, t, G), E)
  {
    forall n | n in G
      ensures Mirrors(n, Retree(m, t, G)[n])
    {
      MirroredAt(n, G, E);
    }
  }

  /** First a new branch of `m`, then things below that branch. */
  lemma AddedLater(m: RefsNode, b: RefsNode, c: Cell, G: Graph, H: Graph)
    requires m in G && G[m].tree.Branch? && b !in G && b in H && AsStored(H[b])
    requires AddedFrom(b, WithBranch(m, b, c, G), H)
    ensures AddedFrom(m, G, H) && m in H && H[m] == WithBranch(m, b, c, G)[m]
  {
  }

  lemma AddedBranch(m: RefsNode, b: RefsNode, c: Cell, G: Graph)
    requires m in G && G[m].tree.Branch? && b !in G && AsStored(c)
    ensures AddedFrom(m, G, WithBranch(m, b, c, G))
  {
  }

  lemma AddedNothing(m: RefsNode, G: Graph)
    ensures AddedFrom(m, G, G)
  {
  }

  lemma AddedAt(m: RefsNode, G: Graph, H: Graph)
    requires AddedFrom(m, G, H)
    ensures G.Keys <= H.Keys && forall n <- G :: n != m ==> H[n] == G[n]
  {
  }

  lemma AddedSelf(m: RefsNode, c: Cell, G: Graph)
    requires m in G
    ensures AddedFrom(m, G, G[m := c])
  {
  }

  lemma AddedTrans(m: RefsNode, G: Graph, H: Graph, I: Graph)
    requires m in G && AddedFrom(m, G, H) && AddedFrom(m, H, I)
    ensures AddedFrom(m, G, I)
  {
  }

  lemma DeeperNothing(flags: Flags, G: Graph, H: Graph)
    requires H.Keys <= G.Keys
    ensures NoneDeeper(flags, G, H)
  {
  }

  lemma DeeperTrans(m: RefsNode, flags: Flags, G: Graph, H: Graph, I: Graph)
    requires NoneDeeper(flags, G, H) && NoneDeeper(flags, H, I) && AddedFrom(m, H, I) && m in G
    ensures NoneDeeper(flags, G, I)
  {
  }

  lemma DeeperBranch(m: RefsNode, b: RefsNode, c: Cell, flags: Flags, G: Graph)
    requires m in G && G[m].tree.Branch? && !c.inMemory
    ensures NoneDeeper(flags, G, WithBranch(m, b, c, G))
  {
  }

  lemma DeeperSome(flags: Flags, G: Graph, H: Graph)
    ensures flags.hashTableIndex || flags.entireRefs ==> NoneDeeper(flags, G, H)
  {
  }

  lemma Overwrite<K, V>(m: map<K, V>, k: K, v: V, w: V)
    ensures m[k := v][k := w] == m[k := w]
  {
  }

  /** All of `m` has been loaded: its upper node knows its tree again. */
  lemma CloseNode(m: RefsNode, M: Nodes, top: RefsNode, G0: Graph, E0: Items, G: Graph, E: Items)
    requires LinkedBut(M, top, G0, E0) && LinkedBut(M + {m}, top, G, E)
    requires m in G0 && m in G && m !in M && G[m].tree == G0[m].tree && G[m].pos == G0[m].pos
    requires forall n <- G0 :: n != m ==> n in G && G[n] == G0[n]
    ensures LinkedBut(M, top, G, E)
  {
    if m != top {
      UpperOf(m, M, top, G0, E0);
      UpperOf(m, M + {m}, top, G, E);
    }
    LessBut(m, M + {m}, top, G, E);
    assert M + {m} - {m} == M;
  }

  /** Hash, length and marks of a node do not concern links. */
  lemma FieldLinks(m: RefsNode, c: Cell, M: Nodes, top: RefsNode, G: Graph, E: Items)
    requires LinkedBut(M, top, G, E) && m in G
    requires c == G[m].(hash := c.hash, length := c.length, loaded := c.loaded, mod := c.mod, stale := c.stale)
      && (m != top || c.stale == G[m].stale)
    ensures LinkedBut(M, top, G[m := c], E)
  {
    var U := G[m := c];
    forall n | n in G && n != top
      ensures Hangs(n, U)
    {
      assert Hangs(n, G);
    }
    forall n | n in G
      ensures Holds(n, M, U, E)
    {
      assert Holds(n, M, G, E);
      forall i | 0 <= i < |G[n].branches|
        ensures IsBranch(U[n].branches[i], n, i, U[n].tree.kids[i], M, U)
      {
        assert IsBranch(G[n].branches[i], n, i, G[n].tree.kids[i], M, G);
      }
    }
    forall e | e in E
      ensures Sits(e, U, E)
    {
      assert Sits(e, G, E);
    }
  }

  lemma AddBranch(m: RefsNode, b: RefsNode, c: Cell, M: Nodes, top: RefsNode, G: Graph, E: Items)
    requires LinkedBut(M, top, G, E) && m in M && m in G && G[m].inMemory
    requires b !in G && b.upper == m && b.height + 1 == m.height
    requires c.leafs == [] && c.branches == [] && (c.inMemory ==> c.tree == Empty(b.height))
    ensures G[m].tree.Branch? && |G[m].branches| == |G[m].tree.kids|
    ensures LinkedBut(M, top, WithBranch(m, b, c, G), E)
  {
    assert Holds(m, M, G, E);
    var U := WithBranch(m, b, c, G);
    forall n | n in U && n != top
      ensures Hangs(n, U)
    {
      if n in G {
        assert Hangs(n, G);
      }
    }
    forall n | n in U
      ensures Holds(n, M, U, E)
    {
      if n in G {
        assert Holds(n, M, G, E);
        forall i | 0 <= i < |U[n].branches|
          ensures IsBranch(U[n].branches[i], n, i, U[n].tree.kids[i], M, U)
        {
          if i < |G[n].branches| {
            assert IsBranch(G[n].branches[i], n, i, G[n].tree.kids[i], M, G);
          }
        }
      }
    }
    forall e | e in E
      ensures Sits(e, U, E)
    {
      assert Sits(e, G, E);
    }
  }

  lemma LeafsWithout(e: RefsElement, top: RefsNode, G: Graph, E: Items)
    requires LinkedBut({}, top, G, E) && e in E && Sits(e, G, E)
    requires G[e.upper].tree.Leaf? && |G[e.upper].leafs| == |G[e.upper].tree.es|
    ensures HasLeafs(e.upper, WithoutLeaf(e.upper, E[e].pos, G)[e.upper], WithoutItem(e, E))
  {
    var m, j := e.upper, E[e].pos;
    var c, F := WithoutLeaf(m, j, G)[m], WithoutItem(e, E);
    LeafOf(m, j, {}, top, G, E);
    forall i | 0 <= i < |c.leafs|
      ensures IsLeaf(c.leafs[i], m, i, c.tree.es[i], F)
    {
      LeafOf(m, if i < j then i else i + 1, {}, top, G, E);
    }
  }

  /** Take the leaf `e` out of its upper node. */
  lemma RemoveLeaf(e: RefsElement, top: RefsNode, G: Graph, E: Items)
    requires LinkedBut({}, top, G, E) && e in E && Sits(e, G, E)
    requires G[e.upper].tree.Leaf? && |G[e.upper].leafs| == |G[e.upper].tree.es|
    ensures LinkedBut({e.upper}, top, WithoutLeaf(e.upper, E[e].pos, G), WithoutItem(e, E))
  {
    var m, j := e.upper, E[e].pos;
    assert Holds(m, {}, G, E);
    var U, F := WithoutLeaf(m, j, G), WithoutItem(e, E);
    LeafOf(m, j, {}, top, G, E);
    LeafsWithout(e, top, G, E);
    Keep(m, {}, {m}, top, G, U, E, F);
    forall k | k in F
      ensures Sits(k, U, F)
    {
      SitsWithout(k, e, top, G, E);
    }
  }

  lemma SitsWithout(k: RefsElement, e: RefsElement, top: RefsNode, G: Graph, E: Items)
    requires LinkedBut({}, top, G, E) && e in E && Sits(e, G, E) && k in WithoutItem(e, E)
    requires G[e.upper].tree.Leaf? && |G[e.upper].leafs| == |G[e.upper].tree.es|
    ensures Sits(k, WithoutLeaf(e.upper, E[e].pos, G), WithoutItem(e, E))
  {
    assert Sits(k, G, E);
  }

  /** What is below a node counts for it. */
  lemma {:induction false} BelowLen(n: RefsNode, b: RefsNode, M: Nodes, top: RefsNode, G: Graph, E: Items)
    requires LinkedBut(M, top, G, E) && n in G && b in G && Below(n, b, G) && Len(G[n].tree) > 0
    requires forall m <- M :: m.height >= b.height
    ensures Len(G[b].tree) > 0
    decreases b.height - n.height
  {
    hide Flat, FlatAll;
    if n != b {
      UpperOf(n, M, top, G, E);
      var ks, j := G[n.upper].tree.kids, G[n].pos;
      FlatAllAt(ks, j);
      FlatBranch(ks);
      assert G[n.upper].tree == Branch(ks);
      BelowLen(n.upper, b, M, top, G, E);
    }
  }

  /** What is below a branch of `m` is lower than `m`, and what hangs on it is below it too. */
  lemma BranchBelow(b: RefsNode, M: Nodes, top: RefsNode, G: Graph, E: Items)
    requires LinkedBut(M, top, G, E) && b in G && b != top
    ensures forall n | n in G && Below(n, b, G) :: n.height <= b.height
    ensures forall n | n in G && n != top && n != b && n.upper in G && Below(n.upper, b, G) :: Below(n, b, G)
  {
    forall n | n in G && n != top && n != b && n.upper in G && Below(n.upper, b, G)
      ensures Below(n, b, G)
    {
      UpperOf(n, M, top, G, E);
    }
  }

  /** Take a branch without elements out of `m`. */
  lemma RemoveBranch(m: RefsNode, j: nat, M: Nodes, top: RefsNode, G: Graph, E: Items)
    requires LinkedBut(M, top, G, E) && m in M && m in G && j < |G[m].branches|
    requires var b := G[m].branches[j];
             b in M && (forall x <- M :: x.height >= b.height) && (b in G ==> Len(G[b].tree) == 0)
    ensures G[m].tree.Branch? && |G[m].branches| == |G[m].tree.kids|
    ensures LinkedBut(M - {G[m].branches[j]}, top, WithoutBranch(m, j, G), E)
  {
    var b := G[m].branches[j];
    BranchOf(m, j, M, top, G, E);
    BranchBelow(b, M, top, G, E);
    var U := WithoutBranch(m, j, G);
    forall n | n in U && n != top
      ensures Hangs(n, U)
    {
      HangsWithout(n, m, j, M, top, G, E);
    }
    forall n | n in U
      ensures Holds(n, M - {b}, U, E)
    {
      KeepOthers(n, m, j, M, top, G, E);
    }
    forall e | e in E
      ensures Sits(e, U, E)
    {
      assert Sits(e, G, E);
      LeafOf(e.upper, E[e].pos, M, top, G, E);
      FlatLeaf(G[e.upper].tree.es);
      if Below(e.upper, b, G) {
        BelowLen(e.upper, b, M, top, G, E);
      }
    }
  }

  lemma HangsWithout(n: RefsNode, m: RefsNode, j: nat, M: Nodes, top: RefsNode, G: Graph, E: Items)
    requires LinkedBut(M, top, G, E) && m in G && n in G && n != top && j < |G[m].branches|
    requires G[m].tree.Branch? && |G[m].branches| == |G[m].tree.kids| && !Below(n, G[m].branches[j], G)
    ensures Hangs(n, WithoutBranch(m, j, G))
  {
    var b := G[m].branches[j];
    BranchOf(m, j, M, top, G, E);
    BranchBelow(b, M, top, G, E);
    UpperOf(n, M, top, G, E);
    assert !Below(n.upper, b, G);
  }

  lemma KeepOthers(n: RefsNode, m: RefsNode, j: nat, M: Nodes, top: RefsNode, G: Graph, E: Items)
    requires LinkedBut(M, top, G, E) && m in M && m in G && n in G && j < |G[m].branches|
    requires G[m].tree.Branch? && |G[m].branches| == |G[m].tree.kids|
    requires !Below(n, G[m].branches[j], G)
    ensures Holds(n, M - {G[m].branches[j]}, WithoutBranch(m, j, G), E)
  {
    var b := G[m].branches[j];
    var U := WithoutBranch(m, j, G);
    BranchOf(m, j, M, top, G, E);
    assert Holds(n, M, G, E);
    forall i | 0 <= i < |U[n].branches|
      ensures IsBranch(U[n].branches[i], n, i, U[n].tree.kids[i], M - {b}, U)
    {
      var o := if n != m || i < j then i else i + 1;
      var k := G[n].branches[o];
      BranchOf(n, o, M, top, G, E);
      assert k != b;
      assert !Below(k, b, G);
    }
  }

  // --------------------------------------------------- positions and the top

  /** Where the k-th element of `m` is in the whole. */
  lemma {:induction false} TopIndex(m: RefsNode, k: nat, top: RefsNode, G: Graph, E: Items)
    requires LinkedBut({}, top, G, E) && m in G && k < Len(G[m].tree)
    ensures Offset(m, top, G) + k < Len(G[top].tree)
    ensures Flat(G[top].tree)[Offset(m, top, G) + k] == Flat(G[m].tree)[k]
    decreases top.height - m.height
  {
    if m != top {
      UpperOf(m, {}, top, G, E);
      var ks, j := G[m.upper].tree.kids, G[m].pos;
      AtKid(ks, j, k, Blank);
      TopIndex(m.upper, |FlatAll(ks[..j])| + k, top, G, E);
    }
  }

  lemma {:induction false} TopSet(m: RefsNode, k: nat, x: Hash, t: Tree, i: nat, top: RefsNode, G: Graph, E: Items)
    requires LinkedBut({}, top, G, E) && m in G && k < Len(G[m].tree)
    requires t == SetAt(G[m].tree, k, x) && i == Offset(m, top, G) + k && i < Len(G[top].tree)
    ensures TopTree(m, t, top, G) == SetAt(G[top].tree, i, x)
    decreases top.height - m.height
  {
    if m != top {
      UpperOf(m, {}, top, G, E);
      var ks, j := G[m.upper].tree.kids, G[m].pos;
      AtKid(ks, j, k, x);
      TopSet(m.upper, |FlatAll(ks[..j])| + k, x, UpperTree(m, t, G), i, top, G, E);
    }
  }

  lemma {:induction false} TopRemove(m: RefsNode, k: nat, t: Tree, i: nat, top: RefsNode, G: Graph, E: Items)
    requires LinkedBut({}, top, G, E) && m in G && k < Len(G[m].tree)
    requires t == RemoveAt(G[m].tree, k) && i == Offset(m, top, G) + k && i < Len(G[top].tree)
    ensures TopTree(m, t, top, G) == RemoveAt(G[top].tree, i)
    decreases top.height - m.height
  {
    if m != top {
      UpperOf(m, {}, top, G, E);
      var ks, j := G[m.upper].tree.kids, G[m].pos;
      AtKid(ks, j, k, Blank);
      TopRemove(m.upper, |FlatAll(ks[..j])| + k, UpperTree(m, t, G), i, top, G, E);
    }
  }
}
