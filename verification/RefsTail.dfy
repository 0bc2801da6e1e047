/** The tail of a Refs, where elements are appended. */
module RefsTail {
  import opened Hashing
  import opened Powers
  import opened Trees
  import opened Growth
  import opened Merkle
  import opened RefsNodes
  import opened RefsGraph
  import opened RefsLinks
  import opened RefsState

  // ------------------------------------------------------------------- nodes

  lemma TailAt(tail: seq<RefsNode>, i: nat, top: RefsNode, G: Graph)
    requires Tail(tail, top, G) && i < |tail|
    ensures 0 < |tail| <= top.height + 1 && tail[0] == top
    ensures tail[i] in G && G[tail[i]].inMemory && tail[i].height + i == top.height
  {
    assert tail[|tail| - 1].height + |tail| - 1 == top.height;
  }

  lemma TailDown(tail: seq<RefsNode>, i: nat, top: RefsNode, G: Graph)
    requires Tail(tail, top, G) && 0 < i < |tail|
    ensures IsLast(tail[i], tail[i - 1], G)
  {
    assert DownAt(tail, i, G);
  }

  lemma TailPrefix(tail: seq<RefsNode>, k: nat, top: RefsNode, G: Graph)
    requires Tail(tail, top, G) && 0 < k <= |tail|
    ensures Tail(tail[..k], top, G)
  {
    forall i | 0 < i < k
      ensures DownAt(tail[..k], i, G)
    {
      assert DownAt(tail, i, G);
    }
  }

  lemma TailOne(top: RefsNode, G: Graph)
    requires top in G && G[top].inMemory
    ensures Tail([top], top, G)
  {
  }

  lemma TailMore(tail: seq<RefsNode>, b: RefsNode, top: RefsNode, G: Graph)
    requires Tail(tail, top, G) && b in G && G[b].inMemory && IsLast(b, tail[|tail| - 1], G)
    requires b.height + |tail| == top.height
    ensures Tail(tail + [b], top, G)
  {
    var t := tail + [b];
    forall i | 0 < i < |t|
      ensures DownAt(t, i, G)
    {
      if i < |tail| {
        assert DownAt(tail, i, G);
      }
    }
  }

  /** The tail depends on the branches of its nodes only. */
  lemma TailSame(tail: seq<RefsNode>, top: RefsNode, G: Graph, H: Graph)
    requires Tail(tail, top, G)
    requires forall n <- tail :: n in G ==> n in H && H[n].inMemory
    requires forall i | 0 <= i < |tail| - 1 ::
            tail[i] in G && tail[i] in H && H[tail[i]].branches == G[tail[i]].branches
    ensures Tail(tail, top, H)
  {
    forall i | 0 < i < |tail|
      ensures DownAt(tail, i, H)
    {
      assert DownAt(tail, i, G);
    }
  }

  /** A node on the tail is the last branch of the one before. */
  lemma TailUpper(tail: seq<RefsNode>, i: nat, M: Nodes, top: RefsNode, G: Graph, E: Items)
    requires LinkedBut(M, top, G, E) && Tail(tail, top, G) && 0 < i < |tail|
    ensures var n, u := tail[i], tail[i - 1];
            n in G && n.upper == u && u in G && n != top && HasUpper(n, G) && G[n].pos + 1 == |G[u].branches|
  {
    TailAt(tail, i - 1, top, G);
    TailAt(tail, i, top, G);
    TailDown(tail, i, top, G);
    var u := tail[i - 1];
    BranchOf(u, |G[u].branches| - 1, M, top, G, E);
    UpperOf(tail[i], M, top, G, E);
  }

  // ------------------------------------------------------------------- trees

  /** The trees of the tail nodes are on the right spine of the whole. */
  lemma {:induction false} TailTree(tail: seq<RefsNode>, i: nat, M: Nodes, top: RefsNode, G: Graph, E: Items)
    requires LinkedBut(M, top, G, E) && Tail(tail, top, G) && i < |tail| && forall m <- M :: m == tail[|tail| - 1]
    ensures top in G && tail[i] in G && OnSpine(G[top].tree, i)
    ensures i + 1 < |tail| || M == {} ==> SpineAt(G[top].tree, i) == G[tail[i]].tree
  {
    TailAt(tail, i, top, G);
    if i > 0 {
      TailTree(tail, i - 1, M, top, G, E);
      TailAt(tail, i - 1, top, G);
      TailAt(tail, |tail| - 1, top, G);
      TailUpper(tail, i, M, top, G, E);
      UpperOf(tail[i], M, top, G, E);
      GraftDown(G[top].tree, i - 1, G[tail[i]].tree);
    }
  }

  /** The whole tree, as the last tail node sees it. */
  ghost function Whole(tail: seq<RefsNode>, top: RefsNode, G: Graph): Tree {
    if 0 < |tail| && top in G && tail[|tail| - 1] in G && OnSpine(G[top].tree, |tail| - 1)
    then Graft(G[top].tree, |tail| - 1, G[tail[|tail| - 1]].tree) else Leaf([])
  }

  lemma WholeTop(tail: seq<RefsNode>, top: RefsNode, G: Graph, E: Items)
    requires LinkedBut({}, top, G, E) && Tail(tail, top, G)
    ensures top in G && Whole(tail, top, G) == G[top].tree
  {
    TailTree(tail, |tail| - 1, {}, top, G, E);
    GraftSame(G[top].tree, |tail| - 1);
  }

  lemma {:induction false} GraftSame(t: Tree, k: nat)
    requires OnSpine(t, k)
    ensures Graft(t, k, SpineAt(t, k)) == t
  {
    if k > 0 {
      GraftSame(t.kids[|t.kids| - 1], k - 1);
    }
  }

  /** Let the node above the last tail node know its tree: the whole is the same. */
  lemma TailStep(tail: seq<RefsNode>, top: RefsNode, G: Graph, E: Items)
    requires Tail(tail, top, G) && |tail| > 1 && LinkedBut({tail[|tail| - 1]}, top, G, E)
    ensures var k := |tail| - 1; var m, u := tail[k], tail[k - 1];
            m in G && u in G && m != top && HasUpper(m, G) && m.upper == u
            && LinkedBut({u}, top, Stepped(m, G), E) && Tail(tail[..k], top, Stepped(m, G))
            && Whole(tail[..k], top, Stepped(m, G)) == Whole(tail, top, G)
            && Stepped(m, G) == G[u := G[u].(tree := Stepped(m, G)[u].tree, stale := true)]
            && Stepped(m, G)[u].tree == Branch(G[u].tree.kids[|G[u].tree.kids| - 1 := G[m].tree])
  {
    var k := |tail| - 1;
    var m, u := tail[k], tail[k - 1];
    TailUpper(tail, k, {m}, top, G, E);
    StepTop(m, top, G, E);
    TailTree(tail, k - 1, {m}, top, G, E);
    TailTree(tail, k, {m}, top, G, E);
    TailPrefix(tail, k, top, G);
    var U := Stepped(m, G);
    TailSame(tail[..k], top, G, U);
    GraftDown(G[top].tree, k - 1, G[m].tree);
    if k == 1 {
      assert tail[..k][|tail[..k]| - 1] == top;
    } else {
      assert U[top] == G[top];
    }
  }

  // --------------------------------------------------------------- appending

  /** The upper node of `m` does not count the last `increase` elements yet. */
  ghost predicate Lag(m: RefsNode, increase: int, top: RefsNode, G: Graph) {
    m != top ==> HasUpper(m, G) && Len(G[m].tree) == Len(G[m.upper].tree.kids[G[m].pos]) + increase
  }

  /** Appending at the last tail node is appending to the whole. */
  lemma WholeAppend(tail: seq<RefsNode>, M: Nodes, d: nat, x: Hash, top: RefsNode, G: Graph, E: Items)
    requires LinkedBut(M, top, G, E) && Tail(tail, top, G) && forall m <- M :: m == tail[|tail| - 1]
    requires d >= 1 && WF(Whole(tail, top, G), d, top.height)
    ensures var m, k := tail[|tail| - 1], |tail| - 1;
            m in G && top in G && m.height + k == top.height && OnSpine(G[top].tree, k)
            && WF(G[m].tree, d, m.height) && Whole(tail, top, G) == Graft(G[top].tree, k, G[m].tree)
            && (Free(G[m].tree, d, m.height) > 0 ==>
                  Free(Whole(tail, top, G), d, top.height) > 0
                  && AppendOne(Whole(tail, top, G), d, top.height, x)
                     == Graft(G[top].tree, k, AppendOne(G[m].tree, d, m.height, x)))
  {
    var m, k := tail[|tail| - 1], |tail| - 1;
    TailAt(tail, k, top, G);
    TailTree(tail, k, M, top, G, E);
    var t := G[top].tree;
    var w := Graft(t, k, G[m].tree);
    GraftTwice(t, k, G[m].tree, G[m].tree);
    SpineWF(w, d, top.height, k);
    if Free(G[m].tree, d, m.height) > 0 {
      AppendAtSpine(w, d, top.height, k, x);
      GraftTwice(t, k, G[m].tree, AppendOne(G[m].tree, d, m.height, x));
    }
  }

  /** An empty branch after the last one of the node `k` levels down the spine. */
  function AddEmpty(t: Tree, k: nat, h: nat): Tree {
    if OnSpine(t, k) && SpineAt(t, k).Branch? then Graft(t, k, Branch(SpineAt(t, k).kids + [Empty(h)])) else t
  }

  /** An empty branch put where the next element goes changes nothing for it. */
  lemma AppendEmpty(w: Tree, d: nat, h: nat, k: nat, x: Hash)
    requires d >= 1 && WF(w, d, h) && k < h && OnSpine(w, k)
    requires WF(SpineAt(w, k), d, h - k) && Free(SpineAt(w, k), d, h - k) > 0 && FreeLast(SpineAt(w, k), d, h - k) == 0
    ensures var e := AddEmpty(w, k, h - k - 1);
            WF(e, d, h) && Free(e, d, h) > 0 && AppendOne(e, d, h, x) == AppendOne(w, d, h, x)
    ensures Free(w, d, h) > 0
  {
    var u, z := SpineAt(w, k), Empty(h - k - 1);
    var v := Branch(u.kids + [z]);
    FreeNeedsRoom(u, d, h - k);
    EmptyIs(d, h - k - 1, x);
    assert WF(v, d, h - k);
    GraftWF(w, d, h, k, v);
    var e := Graft(w, k, v);
    GraftTwice(w, k, v, AppendOne(v, d, h - k, x));
    assert v.kids[|v.kids| - 1] == z;
    assert (u.kids + [z])[|u.kids| := Chain(h - k - 1, x)] == u.kids + [Chain(h - k - 1, x)];
    AppendAtSpine(e, d, h, k, x);
    AppendAtSpine(w, d, h, k, x);
  }

  lemma EmptyIs(d: nat, h: nat, x: Hash)
    requires d >= 1
    ensures WF(Empty(h), d, h) && Free(Empty(h), d, h) > 0 && AppendOne(Empty(h), d, h, x) == Chain(h, x)
    ensures Len(Empty(h)) == 0
  {
    CapPositive(d, h);
    assert Times(Cap(d, h), d) == Cap(d, h) + Times(Cap(d, h), d - 1);
  }

  /** Room on the spine at height two or lower. */
  lemma {:induction false} FreeTwoRoom(t: Tree, d: nat, h: nat, k: nat)
    requires d >= 1 && WF(t, d, h) && h >= 2 && h - 2 <= k <= h && OnSpine(t, k)
    requires WF(SpineAt(t, k), d, h - k) && Free(SpineAt(t, k), d, h - k) > 0
    ensures FreeTwo(t, d, h) > 0
    decreases h
  {
    if h == 2 {
      AppendAtSpine(t, d, h, k, Blank);
    } else {
      FreeTwoRoom(t.kids[|t.kids| - 1], d, h - 1, k - 1);
    }
  }

  lemma {:induction false} FreeTwoFull(t: Tree, d: nat, h: nat)
    requires WF(t, d, h) && h >= 2 && OnSpine(t, h - 2)
    requires WF(SpineAt(t, h - 2), d, 2) && Free(SpineAt(t, h - 2), d, 2) == 0
    ensures FreeTwo(t, d, h) == 0
    decreases h
  {
    if h > 2 {
      FreeTwoFull(t.kids[|t.kids| - 1], d, h - 1);
    }
  }

  // ------------------------------------------------- hashes while appending

  lemma HashLenIs(t: Tree)
    ensures HashLen(HashOf(t)) == Len(t)
  {
  }

  ghost predicate Behind(c: Cell) {
    HashLen(c.hash) < Len(c.tree)
  }

  /** No hash tells more than there is. */
  ghost predicate NotAhead(top: RefsNode, G: Graph)
  {
    NoneAhead(top, G) == true
  }

  ghost predicate NoneAhead(top: RefsNode, G: Graph) {
    forall n <- G :: n != top ==> HashLen(G[n].hash) <= Len(G[n].tree)
  }

  /**
   How hashes stand while elements are appended: all hashes off the tail are
   actual; or a hash off the tail is behind; or nothing is known.
   */
  datatype Standing = Actual | Missed | Unknown

  ghost predicate Stands(s: Standing, tail: seq<RefsNode>, top: RefsNode, G: Graph)
  {
    StandsSo(s, tail, top, G) == true
  }

  ghost predicate StandsSo(s: Standing, tail: seq<RefsNode>, top: RefsNode, G: Graph) {
    match s
    case Actual => top in tail && NotAhead(top, G) && forall n <- G :: n !in tail ==> !G[n].stale
    case Missed => top in tail && NotAhead(top, G) && exists n :: n in G && n !in tail && Behind(G[n])
    case Unknown => true
  }

  /** A change of the last tail node alone. */
  lemma StandsLast(s: Standing, tail: seq<RefsNode>, m: RefsNode, c: Cell, top: RefsNode, G: Graph)
    requires Stands(s, tail, top, G) && m in tail && m in G
    requires m != top ==> HashLen(c.hash) <= Len(c.tree)
    ensures Stands(s, tail, top, G[m := c])
  {
    hide Flat;
    if s == Missed {
      var n :| n in G && n !in tail && Behind(G[n]);
      assert G[m := c][n] == G[n];
    }
  }

  /** A new branch for the last tail node. */
  lemma StandsBranch(s: Standing, tail: seq<RefsNode>, b: RefsNode, c: Cell, top: RefsNode, G: Graph)
    requires Stands(s, tail, top, G) && |tail| > 0 && tail[|tail| - 1] in G && b !in G
    requires G[tail[|tail| - 1]].tree.Branch? && HashLen(c.hash) <= Len(c.tree)
    requires Len(Branch(G[tail[|tail| - 1]].tree.kids + [c.tree])) >= Len(G[tail[|tail| - 1]].tree)
    ensures Stands(s, tail + [b], top, WithBranch(tail[|tail| - 1], b, c, G))
  {
    hide Flat;
    var U := WithBranch(tail[|tail| - 1], b, c, G);
    assert top in tail ==> top in tail + [b];
    if s == Missed {
      var n :| n in G && n !in tail && Behind(G[n]);
      assert U[n] == G[n] && n !in tail + [b];
    }
  }

  /** The last tail node leaves the tail: its hash stays as it is. */
  lemma StandsPop(s: Standing, tail: seq<RefsNode>, top: RefsNode, G: Graph)
    requires Stands(s, tail, top, G) && |tail| > 1 && tail[0] == top
    requires var m := tail[|tail| - 1]; m in G && (s == Actual ==> !G[m].stale)
    ensures Stands(s, tail[..|tail| - 1], top, G)
  {
    hide Flat;
    var t, m := tail[..|tail| - 1], tail[|tail| - 1];
    assert t[0] == top;
    assert forall n :: n in tail ==> n in t || n == m;
    if s == Missed {
      var n :| n in G && n !in tail && Behind(G[n]);
      assert n !in t;
    }
  }

  lemma StandsMissed(tail: seq<RefsNode>, top: RefsNode, G: Graph, E: Items)
    requires Stands(Actual, tail, top, G) && |tail| > 1 && tail[0] == top && Tail(tail, top, G)
    requires var m := tail[|tail| - 1]; m in G && Behind(G[m])
    ensures Stands(Missed, tail[..|tail| - 1], top, G)
  {
    hide Flat;
    var t, m := tail[..|tail| - 1], tail[|tail| - 1];
    assert t[0] == top;
    forall i | 0 <= i < |t|
      ensures t[i] != m
    {
      TailAt(tail, i, top, G);
      TailAt(tail, |tail| - 1, top, G);
    }
    assert m !in t;
  }

  /** Nodes as stored do not matter. */
  lemma StandsLoaded(s: Standing, tail: seq<RefsNode>, top: RefsNode, G: Graph, H: Graph, flags: Flags,
          objects: Objects)
    requires Stands(s, tail, top, G) && LoadedFrom(G, H) && AllOk({}, H, flags, objects) && top in G
    requires forall n <- tail :: n in G
    ensures Stands(s, tail, top, H)
  {
    hide Flat, NodeHashes;
    forall n | n in H && n !in G
      ensures HashLen(H[n].hash) == Len(H[n].tree)
    {
      assert AsStored(H[n]) && NodeOk(H[n], flags, objects);
      HashLenIs(H[n].tree);
    }
    if s == Missed {
      var n :| n in G && n !in tail && Behind(G[n]);
      assert n in H && Behind(H[n]);
    }
  }

  /** Deeper along the tail. */
  lemma StandsDeeper(s: Standing, tail: seq<RefsNode>, b: RefsNode, top: RefsNode, G: Graph)
    requires Stands(s, tail, top, G) && s != Missed
    ensures Stands(s, tail + [b], top, G)
  {
    if s == Actual {
      assert forall n :: n in tail ==> n in tail + [b];
    }
  }

  // ------------------------------------------------------ telling the nodes above

  /** The last tail node knows `increase` elements more than the node above it. */
  ghost function RaisedStep(m: RefsNode, increase: int, G: Graph): Graph
    requires m in G && HasUpper(m, G)
  {
    Stepped(m, G)[m.upper := Stepped(m, G)[m.upper].(length := G[m.upper].length + increase)]
  }

  lemma RaiseStep(tail: seq<RefsNode>, increase: nat, top: RefsNode, G: Graph, E: Items, flags: Flags, objects: Objects)
    requires Tail(tail, top, G) && |tail| > 1 && LinkedBut({tail[|tail| - 1]}, top, G, E)
    requires AllOk({}, G, flags, objects) && tail[|tail| - 1] in G && Lag(tail[|tail| - 1], increase, top, G)
    ensures var k := |tail| - 1; var m, u := tail[k], tail[k - 1];
            u in G && m != top && HasUpper(m, G) && m.upper == u
            && LinkedBut({u}, top, Stepped(m, G), E) && LinkedBut({u}, top, RaisedStep(m, increase, G), E)
            && AllOk({}, RaisedStep(m, increase, G), flags, objects)
            && Lag(u, increase, top, RaisedStep(m, increase, G))
    ensures var k := |tail| - 1; var m, u, V := tail[k], tail[k - 1], RaisedStep(tail[k], increase, G);
            Tail(tail[..k], top, V) && Whole(tail[..k], top, V) == Whole(tail, top, G)
            && V == G[u := G[u].(tree := V[u].tree, stale := true, length := G[u].length + increase)]
            && Len(V[u].tree) == Len(G[u].tree) + increase
  {
    hide Flat, FlatAll, WF, HashOf, NodeHashes, Links, TailNodes, Graft, OnSpine;
    var k := |tail| - 1;
    var m, u := tail[k], tail[k - 1];
    TailStep(tail, top, G, E);
    var U, V := Stepped(m, G), RaisedStep(m, increase, G);
    var c := U[u].(length := G[u].length + increase);
    FieldLinks(u, c, {u}, top, U, E);
    TailRaised(tail[..k], u, c, top, U);
    LenKid(G[u].tree.kids, G[m].pos, G[m].tree);
    assert G[u].tree == Branch(G[u].tree.kids);
    if u != top {
      UpperOf(u, {m}, top, G, E);
      UpperOf(u, {u}, top, V, E);
    }
  }

  lemma TailRaised(tail: seq<RefsNode>, u: RefsNode, c: Cell, top: RefsNode, G: Graph)
    requires Tail(tail, top, G) && u in G && c == G[u].(length := c.length)
    ensures Tail(tail, top, G[u := c]) && Whole(tail, top, G[u := c]) == Whole(tail, top, G)
  {
    TailSame(tail, top, G, G[u := c]);
  }

  /** The nodes in `ups` have been told about `increase` elements more. */
  ghost predicate Told(ups: seq<RefsNode>, increase: int, G: Graph, H: Graph)
  {
    ToldSo(ups, increase, G, H) == true
  }

  ghost predicate ToldSo(ups: seq<RefsNode>, increase: int, G: Graph, H: Graph) {
    H.Keys == G.Keys
    && (forall n <- G :: n !in ups ==> H[n] == G[n])
    && (forall n <- ups :: n in G && H[n].stale && Len(H[n].tree) == Len(G[n].tree) + increase
          && H[n] == G[n].(tree := H[n].tree, stale := H[n].stale, length := G[n].length + increase))
  }

  lemma ToldNone(increase: int, G: Graph)
    ensures Told([], increase, G, G)
  {
  }

  lemma ToldMore(u: RefsNode, c: Cell, ups: seq<RefsNode>, increase: int, G: Graph, H: Graph)
    requires Told(ups, increase, G, H) && u in G && u !in ups && c.stale && Len(c.tree) == Len(H[u].tree) + increase
    requires c == H[u].(tree := c.tree, stale := c.stale, length := H[u].length + increase)
    ensures Told([u] + ups, increase, G, H[u := c])
  {
    hide Flat;
  }

  lemma ToldLast(u: RefsNode, c: Cell, ups: seq<RefsNode>, increase: int, G: Graph, H: Graph)
    requires u in G && u !in ups && c.stale && Len(c.tree) == Len(G[u].tree) + increase
    requires c == G[u].(tree := c.tree, stale := c.stale, length := G[u].length + increase)
    requires Told(ups, increase, G[u := c], H)
    ensures Told(ups + [u], increase, G, H)
  {
    hide Flat;
  }

  lemma TailDistinct(tail: seq<RefsNode>, k: nat, top: RefsNode, G: Graph)
    requires Tail(tail, top, G) && k < |tail|
    ensures tail[k] !in tail[k + 1..] && tail[k] !in tail[..k]
  {
    forall i | 0 <= i < |tail| && i != k
      ensures tail[i] != tail[k]
    {
      TailAt(tail, i, top, G);
      TailAt(tail, k, top, G);
    }
  }

  lemma ToldTail(ups: seq<RefsNode>, increase: int, tail: seq<RefsNode>, top: RefsNode, G: Graph, H: Graph)
    requires Told(ups, increase, G, H) && Tail(tail, top, G)
    ensures Tail(tail, top, H)
  {
    TailSame(tail, top, G, H);
  }

  lemma ToldStands(s: Standing, ups: seq<RefsNode>, increase: nat, tail: seq<RefsNode>, top: RefsNode, G: Graph,
          H: Graph)
    requires Told(ups, increase, G, H) && Stands(s, tail, top, G) && forall n <- ups :: n in tail
    ensures Stands(s, tail, top, H)
  {
    hide Flat;
    if s == Missed {
      var n :| n in G && n !in tail && Behind(G[n]);
      assert n in H && Behind(H[n]);
    }
  }

  lemma ToldAt(n: RefsNode, ups: seq<RefsNode>, increase: int, G: Graph, H: Graph)
    requires Told(ups, increase, G, H) && n in G
    ensures n in H && (n !in ups ==> H[n] == G[n])
    ensures n in ups ==> H[n].stale && Len(H[n].tree) == Len(G[n].tree) + increase
                         && H[n] == G[n].(tree := H[n].tree, stale := true, length := G[n].length + increase)
  {
  }

  lemma WholeOne(tail: seq<RefsNode>, top: RefsNode, G: Graph)
    requires Tail(tail, top, G) && |tail| > 0
    ensures tail[0] == top && top in G && (|tail| == 1 ==> Whole(tail, top, G) == G[top].tree)
  {
    TailAt(tail, 0, top, G);
  }

  /** One step up the tail. */
  lemma TailSlices(tail: seq<RefsNode>, k: nat, n: nat, top: RefsNode, G: Graph)
    requires 0 < k <= n < |tail| && Tail(tail, top, G)
    ensures tail[..k + 1][..k] == tail[..k] && tail[k - 1..n] == [tail[k - 1]] + tail[k..n]
    ensures tail[k - 1] !in tail[k..n] && tail[k - 1] in G
  {
    TailDistinct(tail, k - 1, top, G);
    TailAt(tail, k - 1, top, G);
    assert forall x <- tail[k..n] :: x in tail[k - 1 + 1..];
  }

  /** What is above the i-th tail node. */
  lemma TailAbove(tail: seq<RefsNode>, i: nat, M: Nodes, top: RefsNode, G: Graph, E: Items)
    requires LinkedBut(M, top, G, E) && Tail(tail, top, G) && i < |tail|
    ensures tail[i].upper == if i > 0 then tail[i - 1] else null
  {
    TopIs(M, top, G, E);
    if i > 0 {
      TailUpper(tail, i, M, top, G, E);
    }
  }

  /** Where the next element is to be appended: at the last tail node, or close to it. */
  ghost predicate Point(rn: RefsNode, increase: int, tail: seq<RefsNode>, d: nat, top: RefsNode?, G: Graph)
  {
    PointAt(rn, increase, tail, d, top, G) == true
  }

  ghost predicate PointAt(rn: RefsNode, increase: int, tail: seq<RefsNode>, d: nat, top: RefsNode?, G: Graph) {
    top != null && 0 < |tail| && tail[|tail| - 1] == rn && Tail(tail, top, G) && rn in G && G[rn].inMemory
    && 0 <= increase && Lag(rn, increase, top, G) && WF(Whole(tail, top, G), d, top.height)
  }

  ghost function Lagging(rn: RefsNode, increase: int): Nodes {
    if increase > 0 then {rn} else {}
  }

  // -------------------------------------------------------------- new branches

  /** A node made for appending. */
  ghost function Made(h: nat, mod: bool, loaded: bool): Cell {
    Cell(true, [], [], 0, Empty(h), Blank, 0, loaded, mod, true)
  }

  /** The upper node of the new branch is stale, and marked on demand. */
  ghost function Grown(u: RefsNode, b: RefsNode, mod: bool, loaded: bool, G: Graph): Graph
    requires u in G && G[u].tree.Branch? && b != u
  {
    var U := WithBranch(u, b, Made(b.height, mod, loaded), G);
    U[u := U[u].(mod := G[u].mod || mod, stale := true)]
  }

  lemma GrownSame(u: RefsNode, b: RefsNode, mod: bool, loaded: bool, G: Graph, H: Graph)
    requires u in G && G[u].tree.Branch? && b != u
    requires var U := WithBranch(u, b, Made(b.height, mod, loaded), G); H == if mod then U[u := U[u].(mod := true)]
            else U
    ensures u in H && Retree(u, H[u].tree, H) == Grown(u, b, mod, loaded, G)
  {
    var U := WithBranch(u, b, Made(b.height, mod, loaded), G);
    var c := Grown(u, b, mod, loaded, G)[u];
    assert H[u].(stale := true) == c;
    Overwrite(U, u, H[u], c);
    assert H[u := c] == U[u := c];
  }

  lemma GrownLinks(tail: seq<RefsNode>, b: RefsNode, mod: bool, loaded: bool, top: RefsNode, G: Graph, E: Items)
    requires LinkedBut({}, top, G, E) && |tail| > 0 && Tail(tail, top, G)
    requires var u := tail[|tail| - 1];
             u in G && G[u].tree.Branch? && b !in G && b.upper == u && b.height + 1 == u.height
    ensures var u, V := tail[|tail| - 1], Grown(tail[|tail| - 1], b, mod, loaded, G);
            LinkedBut({u}, top, WithBranch(u, b, Made(b.height, mod, loaded), G), E)
            && LinkedBut({u}, top, V, E) && Tail(tail, top, V) && Tail(tail + [b], top, V)
    ensures |G[tail[|tail| - 1]].branches| == |G[tail[|tail| - 1]].tree.kids|
  {
    hide Flat, FlatAll;
    var k := |tail| - 1;
    var u := tail[k];
    TailAt(tail, k, top, G);
    MoreBut({}, {u}, top, G, E);
    AddBranch(u, b, Made(b.height, mod, loaded), {u}, top, G, E);
    var U, V := WithBranch(u, b, Made(b.height, mod, loaded), G), Grown(u, b, mod, loaded, G);
    FieldLinks(u, V[u], {u}, top, U, E);
    forall i | 0 <= i < k
      ensures tail[i] in G && V[tail[i]].branches == G[tail[i]].branches
    {
      TailAt(tail, i, top, G);
    }
    forall n | n in tail
      ensures V[n].inMemory
    {
      var i :| 0 <= i < |tail| && tail[i] == n;
      TailAt(tail, i, top, G);
    }
    TailSame(tail, top, G, V);
    TailMore(tail, b, top, V);
  }

  lemma GrownTree(tail: seq<RefsNode>, b: RefsNode, mod: bool, loaded: bool, top: RefsNode, G: Graph, E: Items)
    requires LinkedBut({}, top, G, E) && |tail| > 0 && Tail(tail, top, G)
    requires var u := tail[|tail| - 1];
             u in G && G[u].tree.Branch? && b !in G && b.upper == u && b.height + 1 == u.height
    ensures var k, u, V := |tail| - 1, tail[|tail| - 1], Grown(tail[|tail| - 1], b, mod, loaded, G);
            Lag(u, 0, top, V) && Len(V[u].tree) == Len(G[u].tree) && Len(Empty(b.height)) == 0
            && Whole(tail, top, V) == AddEmpty(G[top].tree, k, b.height)
  {
    hide Flat, FlatAll, HashOf, NodeHashes;
    var k := |tail| - 1;
    var u, z := tail[k], Empty(b.height);
    var V := Grown(u, b, mod, loaded, G);
    TailAt(tail, k, top, G);
    EmptyIs(1, b.height, Blank);
    FlatAllSnoc(G[u].tree.kids, z);
    FlatBranch(G[u].tree.kids + [z]);
    FlatBranch(G[u].tree.kids);
    assert G[u].tree == Branch(G[u].tree.kids);
    TailTree(tail, k, {}, top, G, E);
    GrownLinks(tail, b, mod, loaded, top, G, E);
    if u != top {
      UpperOf(u, {}, top, G, E);
      UpperOf(u, {u}, top, V, E);
    }
    GraftTop(G[top].tree, k, V[u].tree);
  }

  lemma GrownOk(u: RefsNode, b: RefsNode, mod: bool, G: Graph, flags: Flags, objects: Objects)
    requires u in G && G[u].tree.Branch? && b !in G && b != u && AllOk({}, G, flags, objects) && G[u].inMemory
    requires Len(Grown(u, b, mod, true, G)[u].tree) == Len(G[u].tree) && Len(Empty(b.height)) == 0
    ensures AllOk({}, Grown(u, b, mod, true, G), flags, objects)
  {
    hide Flat, FlatAll, HashOf, NodeHashes;
  }

  /** Grafting at the top replaces everything. */
  lemma GraftTop(t: Tree, k: nat, u: Tree)
    requires OnSpine(t, k)
    ensures k == 0 ==> Graft(t, k, u) == u
  {
  }

  lemma GrownStands(s: Standing, tail: seq<RefsNode>, b: RefsNode, mod: bool, loaded: bool, top: RefsNode, G: Graph)
    requires Stands(s, tail, top, G) && |tail| > 0 && tail[|tail| - 1] in G && b !in G
    requires G[tail[|tail| - 1]].tree.Branch?
    ensures Stands(s, tail + [b], top, Grown(tail[|tail| - 1], b, mod, loaded, G))
  {
    hide Flat, FlatAll;
    var u := tail[|tail| - 1];
    var c := Made(b.height, mod, loaded);
    FlatAllSnoc(G[u].tree.kids, c.tree);
    FlatBranch(G[u].tree.kids + [c.tree]);
    FlatBranch(G[u].tree.kids);
    assert G[u].tree == Branch(G[u].tree.kids);
    StandsBranch(s, tail, b, c, top, G);
    var U := WithBranch(u, b, c, G);
    var V := Grown(u, b, mod, loaded, G);
    assert u in tail + [b];
    if s != Unknown {
      NotAheadAt(s, u, tail + [b], top, U);
    } else {
      return;
    }
    StandsLast(s, tail + [b], u, V[u], top, U);
  }

  lemma NotAheadAt(s: Standing, n: RefsNode, tail: seq<RefsNode>, top: RefsNode, G: Graph)
    requires Stands(s, tail, top, G) && s != Unknown && n in G
    ensures n != top ==> HashLen(G[n].hash) <= Len(G[n].tree)
  {
  }

  lemma NotInTail(tail: seq<RefsNode>, b: RefsNode, top: RefsNode, G: Graph)
    requires Tail(tail, top, G) && b !in G
    ensures b !in tail
  {
  }

  lemma AfterTelling(tail: seq<RefsNode>, b: RefsNode, s: Standing, top: RefsNode, G: Graph, H: Graph)
    requires |tail| > 0 && Told(tail[..|tail| - 1], 0, G, H) && b in G && b !in tail
    requires Tail(tail + [b], top, G) && Stands(s, tail + [b], top, G)
    ensures b in H && H[b] == G[b] && Tail(tail + [b], top, H) && Stands(s, tail + [b], top, H) && H.Keys == G.Keys
  {
    hide TailNodes, StandsSo;
    ToldTail(tail[..|tail| - 1], 0, tail + [b], top, G, H);
    ToldStands(s, tail[..|tail| - 1], 0, tail + [b], top, G, H);
  }

  // ----------------------------------------------------------------- new leafs

  /** The node with a new leaf after the last one. */
  ghost function Leafed(m: RefsNode, e: RefsElement, x: Hash, G: Graph): Graph
    requires m in G && G[m].tree.Leaf?
  {
    var U := WithLeaf(m, e, x, G);
    U[m := U[m].(length := G[m].length + 1, stale := true)]
  }

  lemma LeafedSame(m: RefsNode, e: RefsElement, x: Hash, G: Graph)
    requires m in G && G[m].tree.Leaf?
    ensures var U := WithLeaf(m, e, x, G);
            var H := U[m := U[m].(length := G[m].length + 1)];
            Retree(m, H[m].tree, H) == Leafed(m, e, x, G)
  {
    var U := WithLeaf(m, e, x, G);
    var H := U[m := U[m].(length := G[m].length + 1)];
    var c := Leafed(m, e, x, G)[m];
    assert H[m].(stale := true) == c;
    assert H[m := c] == U[m := c];
  }

  lemma StaleLinks(m: RefsNode, M: Nodes, top: RefsNode, G: Graph, E: Items)
    requires LinkedBut(M, top, G, E) && m in G
    ensures LinkedBut(M, top, Retree(m, G[m].tree, G), E)
  {
    FieldLinks(m, G[m].(stale := true), M, top, G, E);
    if m == top {
      TopIs(M, top, G, E);
    }
  }

  lemma PointInMemory(rn: RefsNode, increase: int, tail: seq<RefsNode>, d: nat, top: RefsNode?, G: Graph)
    requires Point(rn, increase, tail, d, top, G)
    ensures top != null && |tail| > 0 && tail[|tail| - 1] == rn && Tail(tail, top, G) && rn in G && G[rn].inMemory
    ensures WF(Whole(tail, top, G), d, top.height) && rn.height + |tail| - 1 == top.height && increase >= 0
    ensures Lag(rn, increase, top, G)
  {
    TailAt(tail, |tail| - 1, top, G);
  }

  lemma LeafedPoint(increase: nat, tail: seq<RefsNode>, e: RefsElement, x: Hash, d: nat, top: RefsNode, G: Graph,
          E: Items,
                    s: Standing, flags: Flags, objects: Objects)
    requires |tail| > 0 && Point(tail[|tail| - 1], increase, tail, d, top, G)
      && LinkedBut({tail[|tail| - 1]}, top, G, E) && d >= 1
    requires AllOk({}, G, flags, objects) && Stands(s, tail, top, G)
    requires var m := tail[|tail| - 1]; m.height == 0 && G[m].tree.Leaf? && |G[m].tree.es| < d
    ensures var m := tail[|tail| - 1]; var V := Leafed(m, e, x, G);
            Point(m, increase + 1, tail, d, top, V) && AllOk({}, V, flags, objects) && Stands(s, tail, top, V)
            && WF(Whole(tail, top, G), d, top.height) && Free(Whole(tail, top, G), d, top.height) > 0
            && Whole(tail, top, V) == AppendOne(Whole(tail, top, G), d, top.height, x)
  {
    hide HashOf, NodeHashes, Links, StandsSo;
    var k := |tail| - 1;
    var m := tail[k];
    var V := Leafed(m, e, x, G);
    WholeAppend(tail, {m}, d, x, top, G, E);
    assert V[m].tree == AppendOne(G[m].tree, d, 0, x);
    FlatLeaf(G[m].tree.es);
    FlatLeaf(G[m].tree.es + [x]);
    TailSame(tail, top, G, V);
    AppendOneWF(Whole(tail, top, G), d, top.height, x);
    LeafedTop(tail, m, V, d, x, top, G, E);
    if s != Unknown {
      NotAheadAt(s, m, tail, top, G);
    }
    StandsSoon(s, tail, m, V[m], top, G);
    if m != top {
      UpperOf(m, {m}, top, G, E);
    }
  }

  lemma StandsSoon(s: Standing, tail: seq<RefsNode>, m: RefsNode, c: Cell, top: RefsNode, G: Graph)
    requires Stands(s, tail, top, G) && m in tail && m in G
    requires s != Unknown && m != top ==> HashLen(c.hash) <= Len(c.tree)
    ensures Stands(s, tail, top, G[m := c])
  {
    if s != Unknown {
      StandsLast(s, tail, m, c, top, G);
    }
  }

  lemma LeafedTop(tail: seq<RefsNode>, m: RefsNode, V: Graph, d: nat, x: Hash, top: RefsNode, G: Graph, E: Items)
    requires |tail| > 0 && Tail(tail, top, G) && m == tail[|tail| - 1] && m in G && m in V
    requires V == G[m := V[m]] && top in G && OnSpine(G[top].tree, |tail| - 1)
    ensures Whole(tail, top, V) == Graft(G[top].tree, |tail| - 1, V[m].tree)
  {
    TailAt(tail, |tail| - 1, top, G);
    if m == top {
      TailAt(tail, 0, top, G);
      assert |tail| == 1;
    } else {
      assert V[top] == G[top];
    }
  }

  // ------------------------------------------------------------ going up and down

  /** How hashes stand after one more append, if elements have been appended before. */
  function After(s: Standing, dirty: bool, w: Tree, d: nat, h: nat): Standing
    requires WF(w, d, h)
  {
    if s == Actual && dirty && h >= 3 && FreeTwo(w, d, h) == 0 then Missed else s
  }

  /** Before the first append all hashes are actual; then those above the node just updated are behind. */
  ghost predicate Soiled(s: Standing, dirty: bool, increase: int, tail: seq<RefsNode>, top: RefsNode?, G: Graph)
  {
    SoiledSo(s, dirty, increase, tail, top, G) == true
  }

  ghost predicate SoiledSo(s: Standing, dirty: bool, increase: int, tail: seq<RefsNode>, top: RefsNode?, G: Graph) {
    s == Actual ==>
      if !dirty then forall n <- tail :: n == top || (n in G && !G[n].stale)
      else increase == 0 ==> forall n <- tail :: n == top || n == tail[|tail| - 1] || (n in G && Behind(G[n]))
  }

  /** The whole seen from the tail, when all of the tail knows it. */
  lemma PointTop(rn: RefsNode, tail: seq<RefsNode>, d: nat, top: RefsNode, G: Graph, E: Items)
    requires LinkedBut({}, top, G, E) && Tail(tail, top, G) && |tail| > 0 && tail[|tail| - 1] == rn
      && WF(G[top].tree, d, top.height)
    ensures Point(rn, 0, tail, d, top, G) && Whole(tail, top, G) == G[top].tree
    ensures rn in G && rn.height + |tail| - 1 == top.height && WF(G[rn].tree, d, rn.height)
    ensures OnSpine(G[top].tree, |tail| - 1) && SpineAt(G[top].tree, |tail| - 1) == G[rn].tree
  {
    var k := |tail| - 1;
    TailAt(tail, k, top, G);
    WholeTop(tail, top, G, E);
    TailTree(tail, k, {}, top, G, E);
    SpineWF(G[top].tree, d, top.height, k);
    if rn != top {
      UpperOf(rn, {}, top, G, E);
    }
  }

  /** Above a full node there is a node with room for one more branch, or a full node again. */
  lemma AboveFull(tail: seq<RefsNode>, d: nat, top: RefsNode, G: Graph, E: Items)
    requires LinkedBut({}, top, G, E) && Tail(tail, top, G) && |tail| > 1 && WF(G[top].tree, d, top.height)
    requires var m := tail[|tail| - 1]; m in G && WF(G[m].tree, d, m.height) && Free(G[m].tree, d, m.height) == 0
    ensures var u := tail[|tail| - 2];
            u in G && u.height > 0 && WF(G[u].tree, d, u.height) && G[u].tree.Branch?
            && |G[u].branches| == |G[u].tree.kids| <= d
            && FreeLast(G[u].tree, d, u.height) == 0 && Tail(tail[..|tail| - 1], top, G)
            && (|G[u].branches| == d ==> Free(G[u].tree, d, u.height) == 0)
            && (|G[u].branches| < d ==> Free(G[u].tree, d, u.height) > 0 || d == 0)
  {
    var k := |tail| - 1;
    var m, u := tail[k], tail[k - 1];
    TailUpper(tail, k, {}, top, G, E);
    UpperOf(m, {}, top, G, E);
    TailPrefix(tail, k, top, G);
    TailAt(tail, k, top, G);
    PointTop(u, tail[..k], d, top, G, E);
    KidsOf(u, u.height, d, {}, top, G, E);
    if 0 < |G[u].branches| < d {
      CapPositive(d, u.height);
      assert Times(Cap(d, u.height), d - |G[u].branches|) ==
              Cap(d, u.height) + Times(Cap(d, u.height), d - |G[u].branches| - 1);
    }
  }

  /** Saving a node does not change the tail. */
  lemma TailSaved(tail: seq<RefsNode>, u: RefsNode, c: Cell, top: RefsNode, G: Graph)
    requires Tail(tail, top, G) && u in G && c == G[u].(hash := c.hash, mod := c.mod, stale := c.stale)
    ensures Tail(tail, top, G[u := c]) && Whole(tail, top, G[u := c]) == Whole(tail, top, G)
  {
    TailSame(tail, top, G, G[u := c]);
  }

  /** What is above a node that has been appended to is behind, if it has been told; otherwise all is as it has been. */
  ghost predicate Above(s: Standing, dirty: bool, ups: seq<RefsNode>, top: RefsNode?, G: Graph)
  {
    AboveSo(s, dirty, ups, top, G) == true
  }

  ghost predicate AboveSo(s: Standing, dirty: bool, ups: seq<RefsNode>, top: RefsNode?, G: Graph) {
    s == Actual ==> forall n <- ups :: n == top || (n in G && if dirty then Behind(G[n]) else !G[n].stale)
  }

  lemma AboveTold(s: Standing, dirty: bool, increase: nat, tail: seq<RefsNode>, top: RefsNode, G: Graph, H: Graph)
    requires |tail| > 1 && Tail(tail, top, G) && Stands(s, tail[..|tail| - 1], top, G)
      && Soiled(s, dirty, increase, tail, top, G)
    requires increase > 0 ==> dirty && Told(tail[..|tail| - 1], increase, G, H)
    requires increase == 0 ==> H == G
    ensures Stands(s, tail[..|tail| - 1], top, H) && Above(s, dirty, tail[..|tail| - 1], top, H)
  {
    var k := |tail| - 1;
    var ups := tail[..k];
    if increase > 0 {
      ToldStands(s, ups, increase, ups, top, G, H);
    }
    if s == Actual {
      forall n | n in ups && n != top
        ensures n in H && if dirty then Behind(H[n]) else !H[n].stale
      {
        TailDistinct(tail, k, top, G);
        var i :| 0 <= i < k && ups[i] == n;
        TailAt(tail, i, top, G);
        if increase > 0 {
          NotAheadAt(s, n, ups, top, G);
          ToldAt(n, ups, increase, G, H);
        } else {
          assert n in tail;
        }
      }
    }
  }

  /** Passing a full node without looking at it. */
  lemma AbovePass(s: Standing, dirty: bool, ups: seq<RefsNode>, top: RefsNode, G: Graph, E: Items)
    requires |ups| > 1 && Tail(ups, top, G) && Stands(s, ups, top, G) && Above(s, dirty, ups, top, G)
    ensures var p := if s == Actual && dirty then Missed else s;
            Stands(p, ups[..|ups| - 1], top, G) && Soiled(p, dirty, 0, ups, top, G)
  {
    var u := ups[|ups| - 1];
    TailAt(ups, |ups| - 1, top, G);
    assert u in ups && u != top;
    if s == Actual && dirty {
      StandsMissed(ups, top, G, E);
    } else {
      StandsPop(s, ups, top, G);
    }
  }

  /** Passing a full node after its hash has been made actual. */
  lemma AboveRefreshed(s: Standing, ups: seq<RefsNode>, c: Cell, top: RefsNode, G: Graph)
    requires |ups| > 1 && Tail(ups, top, G) && Stands(s, ups, top, G) && Above(s, true, ups, top, G)
    requires var u := ups[|ups| - 1]; u in G && HashLen(c.hash) <= Len(c.tree) && (s == Actual ==> !c.stale)
    ensures var V := G[ups[|ups| - 1] := c];
            Stands(s, ups[..|ups| - 1], top, V) && Soiled(s, true, 0, ups, top, V)
  {
    var u := ups[|ups| - 1];
    TailAt(ups, |ups| - 1, top, G);
    assert u in ups && u != top;
    StandsSoon(s, ups, u, c, top, G);
    StandsPop(s, ups, top, G[u := c]);
  }

  /** What hangs on the last tail node is not on the tail. */
  lemma KidsActual(tail: seq<RefsNode>, M: Nodes, top: RefsNode, G: Graph, E: Items)
    requires |tail| > 0 && Tail(tail, top, G) && LinkedBut(M, top, G, E) && Stands(Actual, tail, top, G)
      && tail[|tail| - 1] in G
    ensures KidsClean(tail[|tail| - 1], G)
  {
    var u := tail[|tail| - 1];
    forall b | b in G[u].branches && b in G
      ensures !G[b].stale
    {
      var i :| 0 <= i < |G[u].branches| && G[u].branches[i] == b;
      BranchOf(u, i, M, top, G, E);
      forall j | 0 <= j < |tail|
        ensures tail[j] != b
      {
        TailAt(tail, j, top, G);
        TailAt(tail, |tail| - 1, top, G);
      }
    }
  }

  lemma ToldKeys(ups: seq<RefsNode>, increase: int, G: Graph, H: Graph)
    requires Told(ups, increase, G, H)
    ensures H.Keys == G.Keys
  {
  }

  /** What going up one level says about the subtree of depth two on the tail. */
  lemma AfterGoingUp(s: Standing, dirty: bool, k: nat, u: RefsNode, w: Tree, d: nat, h: nat, top: RefsNode, G: Graph)
    requires d >= 1 && WF(w, d, h) && top.height == h && u.height + k == h && u.height > 0 && u in G
    requires OnSpine(w, k) && SpineAt(w, k) == G[u].tree && WF(G[u].tree, d, u.height)
    ensures u.height <= 2 && Free(G[u].tree, d, u.height) > 0 ==> After(s, dirty, w, d, h) == s
    ensures u.height == 2 && h >= 3 && Free(G[u].tree, d, u.height) == 0 && dirty && s == Actual ==>
            After(s, dirty, w, d, h) == Missed
    ensures k == 0 ==> Free(w, d, h) == Free(G[u].tree, d, u.height)
  {
    if h >= 3 && u.height <= 2 {
      if Free(G[u].tree, d, u.height) > 0 {
        FreeTwoRoom(w, d, h, k);
      } else if u.height == 2 {
        FreeTwoFull(w, d, h);
      }
    }
  }

  // ------------------------------------------------------------------- leafs

  /** A leaf node is full or not; if not, the subtree of depth two on the tail has room. */
  lemma LeafRoom(m: RefsNode, w: Tree, k: nat, s: Standing, dirty: bool, d: nat, h: nat, top: RefsNode, G: Graph)
    requires d >= 1 && WF(w, d, h) && m in G && m.height == 0 && k == h && top in G && OnSpine(G[top].tree, k)
    requires WF(G[m].tree, d, 0) && w == Graft(G[top].tree, k, G[m].tree) && Free(w, d, h) > 0
    ensures |G[m].tree.es| < d ==> After(s, dirty, w, d, h) == s
    ensures |G[m].tree.es| == d ==> Free(G[m].tree, d, 0) == 0 && h > 0
  {
    GraftTwice(G[top].tree, k, G[m].tree, G[m].tree);
    if |G[m].tree.es| < d && h >= 2 {
      FreeTwoRoom(w, d, h, h);
    }
  }

  lemma LeafsBare(n: RefsNode, M: Nodes, top: RefsNode, G: Graph, E: Items)
    requires LinkedBut(M, top, G, E) && n in G && n.height == 0 && G[n].inMemory
    ensures G[n].branches == [] && KidsClean(n, G)
  {
    assert Holds(n, M, G, E);
  }

  /** Saving the last tail node leaves the point where it is. */
  lemma PointSaved(rn: RefsNode, c: Cell, increase: nat, tail: seq<RefsNode>, s: Standing, dirty: bool, d: nat,
          top: RefsNode, G: Graph)
    requires Point(rn, increase, tail, d, top, G) && |tail| > 1 && Stands(s, tail, top, G)
    requires c == G[rn].(hash := c.hash, mod := c.mod, stale := c.stale) && !c.stale && HashLen(c.hash) <= Len(c.tree)
    requires (dirty <==> increase > 0) && (!dirty ==> Soiled(s, dirty, increase, tail, top, G))
    ensures var V := G[rn := c];
            Point(rn, increase, tail, d, top, V) && Whole(tail, top, V) == Whole(tail, top, G)
            && Stands(s, tail[..|tail| - 1], top, V) && Soiled(s, dirty, increase, tail, top, V)
  {
    hide Flat, WF, Whole, TailNodes, StandsSo;
    TailAt(tail, |tail| - 1, top, G);
    TailSaved(tail, rn, c, top, G);
    StandsSoon(s, tail, rn, c, top, G);
    StandsPop(s, tail, top, G[rn := c]);
  }

  /** A node without branches has room for one. */
  lemma NoBranches(t: Tree, d: nat, h: nat)
    requires WF(t, d, h) && h > 0 && d >= 1
    ensures t.kids == [] ==> Free(t, d, h) > 0 && FreeLast(t, d, h) == 0
  {
    CapPositive(d, h);
    assert Times(Cap(d, h), d) == Cap(d, h) + Times(Cap(d, h), d - 1);
  }

  /** The tail goes on with the last branch, once it is loaded. */
  lemma LoadedTail(tail: seq<RefsNode>, b: RefsNode, s: Standing, top: RefsNode, G: Graph, H: Graph, flags: Flags,
          objects: Objects)
    requires |tail| > 0 && Tail(tail, top, G) && LoadedFrom(G, H) && AllOk({}, H, flags, objects) && top in G
    requires IsLast(b, tail[|tail| - 1], G) && b in G && b.height + |tail| == top.height && b in H && H[b].inMemory
    requires Stands(s, tail, top, G) && s != Missed && Soiled(s, false, 0, tail, top, G)
    ensures Tail(tail + [b], top, H) && Stands(s, tail + [b], top, H) && Soiled(s, false, 0, tail + [b], top, H)
  {
    hide NoneAhead, HashOf, NodeHashes, Flat;
    forall n | n in tail
      ensures n in G && H[n] == G[n] && n != b
    {
      var i :| 0 <= i < |tail| && tail[i] == n;
      TailAt(tail, i, top, G);
    }
    TailSame(tail, top, G, H);
    TailMore(tail, b, top, H);
    StandsLoaded(s, tail, top, G, H, flags, objects);
    StandsDeeper(s, tail, b, top, H);
  }

  /** A node just made has no branches. */
  lemma MadeBare(n: RefsNode, h: nat, made: bool, top: RefsNode, G: Graph, E: Items)
    requires LinkedBut({}, top, G, E) && n in G && n.height == h > 0 && G[n].inMemory
    ensures made && G[n].tree == Empty(h) ==> G[n].branches == []
  {
    assert Holds(n, {}, G, E);
  }

  // --------------------------------------------------------------- finishing

  lemma KidsNotSelf(m: RefsNode, top: RefsNode, G: Graph, E: Items)
    requires LinkedBut({m}, top, G, E) && m in G
    ensures forall b <- G[m].branches :: b != m
  {
    forall b <- G[m].branches
      ensures b != m
    {
      var i :| 0 <= i < |G[m].branches| && G[m].branches[i] == b;
      BranchOf(m, i, {m}, top, G, E);
    }
  }

  lemma LagSaved(m: RefsNode, c: Cell, increase: int, top: RefsNode, G: Graph, E: Items)
    requires Lag(m, increase, top, G) && m in G
      && c == G[m].(hash := c.hash, mod := c.mod, stale := c.stale, length := c.length)
    requires LinkedBut({m}, top, G, E)
    ensures Lag(m, increase, top, G[m := c])
  {
    if m != top {
      UpperOf(m, {m}, top, G, E);
    }
  }

  lemma StepStands(s: Standing, ups: seq<RefsNode>, m: RefsNode, increase: nat, top: RefsNode, G: Graph, flags: Flags,
          objects: Objects)
    requires Stands(s, ups, top, G) && m in G && HasUpper(m, G) && m.upper in ups && m.upper in G
    requires Tail(ups, top, RaisedStep(m, increase, G))
    requires var V := RaisedStep(m, increase, G);
             AllOk({}, V, flags, objects) && Len(V[m.upper].tree) == Len(G[m.upper].tree) + increase
             && V == G[m.upper := G[m.upper].(tree := V[m.upper].tree, stale := true,
                 length := G[m.upper].length + increase)]
    ensures var U, u := Stepped(m, G), m.upper;
            Stands(s, ups, top, U) && AllOk({u}, U, flags, objects)
            && NodeOk(U[u].(length := U[u].length + increase), flags, objects)
            && Lag(u, increase, top, RaisedStep(m, increase, G)) == Lag(u, increase, top, U)
            && Tail(ups, top, U) && Whole(ups, top, U) == Whole(ups, top, RaisedStep(m, increase, G))
  {
    hide Flat, FlatAll, HashOf, NodeHashes, StandsSo;
    var u, U, V := m.upper, Stepped(m, G), RaisedStep(m, increase, G);
    assert U[u].(length := U[u].length + increase) == V[u];
    assert U == V[u := U[u]];
    TailRaised(ups, u, U[u], top, V);
    if s != Unknown {
      NotAheadAt(s, u, ups, top, G);
    }
    StandsSoon(s, ups, u, U[u], top, G);
    assert U == G[u := U[u]];
  }

  // ------------------------------------------------------ the appended hashes

  /** How hashes stand after `n` appends. */
  function StandingAfter(s: Standing, t: Tree, d: nat, h: nat, n: nat): Standing
    requires WF(t, d, h)
  {
    if s == Actual && !AppendKeepsHashes(t, d, h, n) then Missed else s
  }

  lemma StandingStep(s: Standing, t: Tree, d: nat, h: nat, xs: seq<Hash>)
    requires d >= 1 && WF(t, d, h) && |xs| <= Free(t, d, h)
    ensures After(StandingAfter(s, t, d, h, |xs|), xs != [], AppendAll(t, d, h, xs), d, h) ==
            StandingAfter(s, t, d, h, |xs| + 1)
  {
    KeepsFewer(t, d, h, |xs|);
    if AppendKeepsHashes(t, d, h, |xs|) {
      KeepsStep(t, d, h, xs);
    }
  }

  /** Nothing is missed before the first append. */
  lemma StandingNotMissed(s: Standing, t: Tree, d: nat, h: nat, i: nat)
    requires WF(t, d, h) && s != Missed
    ensures i == 0 ==> StandingAfter(s, t, d, h, i) == s
  {
  }

  /** All hashes below the top are those of the trees. */
  ghost predicate HashesActual(top: RefsNode?, G: Graph) {
    forall n <- G :: n != top ==> G[n].hash == HashOf(G[n].tree)
  }

  lemma SameActual(top: RefsNode, G: Graph, H: Graph)
    requires top in G && top in H && H == G[top := H[top]]
    ensures HashesActual(top, H) <==> HashesActual(top, G)
  {
    hide HashOf;
    assert forall n <- G :: n in H && (n != top ==> H[n] == G[n]);
  }

  lemma CleanActual(top: RefsNode?, G: Graph, flags: Flags, objects: Objects)
    requires AllClean({}, top, G) && AllOk({}, G, flags, objects)
    ensures HashesActual(top, G)
  {
    hide HashOf, NodeHashes, Flat;
  }

  lemma StandsStart(clean: bool, top: RefsNode, G: Graph, flags: Flags, objects: Objects)
    requires AllOk({}, G, flags, objects) && top in G && (clean ==> AllClean({}, top, G))
    ensures var s := if clean then Actual else Unknown;
            Stands(s, [top], top, G) && Soiled(s, false, 0, [top], top, G)
  {
    hide HashOf, NodeHashes, Flat;
    if clean {
      forall n | n in G && n != top
        ensures HashLen(G[n].hash) <= Len(G[n].tree)
      {
        assert NodeOk(G[n], flags, objects);
        HashLenIs(G[n].tree);
      }
    }
  }

  lemma StandsEnd(s: Standing, top: RefsNode, G: Graph, flags: Flags, objects: Objects)
    requires AllOk({}, G, flags, objects) && Stands(s, [top], top, G)
    ensures s == Actual ==> AllClean({}, top, G) && HashesActual(top, G)
    ensures s == Missed ==> !HashesActual(top, G)
  {
    hide NodeHashes, Flat, HashOf;
    if s == Actual {
      CleanActual(top, G, flags, objects);
    } else if s == Missed {
      var n :| n in G && n !in [top] && Behind(G[n]);
      assert top in [top];
      HashLenIs(G[n].tree);
    }
  }

  /** The root may change: it has no hash of its own. */
  lemma ActualBelow(top: RefsNode, c: Cell, G: Graph)
    ensures HashesActual(top, G[top := c]) == HashesActual(top, G)
  {
    hide HashOf;
    if !HashesActual(top, G) {
      var n :| n in G && n != top && G[n].hash != HashOf(G[n].tree);
      assert G[top := c][n] == G[n];
    }
  }

  /** The branches of the only stale node are not stale. */
  lemma KidsCleanBut(m: RefsNode, top: RefsNode, G: Graph, H: Graph, E: Items)
    requires AllClean({m}, top, G) && LinkedBut({m}, top, H, E) && m in G && m in H && H == G[m := H[m]]
      && H[m].branches == G[m].branches
    ensures KidsClean(m, H)
  {
    forall b <- H[m].branches
      ensures b in H && !H[b].stale
    {
      var i :| 0 <= i < |H[m].branches| && H[m].branches[i] == b;
      BranchOf(m, i, {m}, top, H, E);
    }
  }

  // ------------------------------------------------- deleting a given element

  lemma FieldsTop(m: RefsNode, c: Cell, top: RefsNode, G: Graph, E: Items)
    requires LinkedBut({m}, top, G, E) && m in G
    requires c == G[m].(hash := c.hash, length := c.length, mod := c.mod, stale := c.stale)
    ensures m.height <= top.height && TopTree(m, c.tree, top, G[m := c]) == TopTree(m, c.tree, top, G)
  {
    if m != top {
      UpperOf(m, {m}, top, G, E);
    }
    TopTreeSame(m, c.tree, top, G, G[m := c]);
  }

  /** The node above learns about `increase` elements more, or fewer. */
  lemma StepLess(m: RefsNode, increase: int, top: RefsNode, G: Graph, E: Items, flags: Flags, objects: Objects)
    requires LinkedBut({m}, top, G, E) && m in G && m != top && HasUpper(m, G) && m.upper in G
      && Lag(m, increase, top, G)
    requires AllOk({}, G, flags, objects)
    ensures var U, u := Stepped(m, G), m.upper;
            AllOk({u}, U, flags, objects) && NodeOk(U[u].(length := U[u].length + increase), flags, objects)
            && Lag(u, increase, top, U)
            && U[u].inMemory && U[u].stale
  {
    hide Flat, FlatAll, HashOf, NodeHashes;
    var u, U := m.upper, Stepped(m, G);
    LenKid(G[u].tree.kids, G[m].pos, G[m].tree);
    assert G[u].tree == Branch(G[u].tree.kids);
    if u != top {
      UpperOf(u, {m}, top, G, E);
      StepUp(m, top, G, E);
      UpperOf(u, {u}, top, U, E);
    }
  }

  lemma StepFields(lazy: bool, m: RefsNode, c: Cell, top: RefsNode, G: Graph)
    requires Kept(lazy, {m}, top, G) && m != top && HasUpper(m, G)
    requires c == G[m].(hash := c.hash, length := c.length, mod := c.mod, stale := c.stale)
    requires if lazy then c.mod && c.stale else !c.stale
    ensures Kept(lazy, {m.upper}, top, Stepped(m, G[m := c]))
  {
  }

  lemma KeptTop(lazy: bool, c: Cell, top: RefsNode, G: Graph)
    requires Kept(lazy, {top}, top, G) && top in G && (lazy ==> c.mod)
    ensures Kept(lazy, {}, top, G[top := c])
  {
  }

  lemma LeafLessTop(e: RefsElement, i: nat, top: RefsNode, G: Graph, E: Items)
    requires LinkedBut({}, top, G, E) && Positioned(e, G, E, top) && i == Position(e, G, E, top)
    ensures e.upper in G && e.upper.height <= top.height && G[e.upper].tree.Leaf?
    ensures E[e].pos < |G[e.upper].leafs| == |G[e.upper].tree.es| && i < Len(G[top].tree)
    ensures var m, U := e.upper, WithoutLeaf(e.upper, E[e].pos, G);
            TopTree(m, U[m].tree, top, U) == RemoveAt(G[top].tree, i) && Lag(m, -1, top, U)
            && Flat(G[top].tree)[i] == E[e].hash
  {
    ItemAt(e, top, G, E);
    TopIs({}, top, G, E);
    var m, k, U := e.upper, E[e].pos, WithoutLeaf(e.upper, E[e].pos, G);
    TopIndex(m, k, top, G, E);
    TopRemove(m, k, U[m].tree, i, top, G, E);
    if m != top {
      UpperOf(m, {}, top, G, E);
    }
    TopTreeSame(m, U[m].tree, top, G, U);
  }

  lemma LeafLessOk(e: RefsElement, lazy: bool, track: bool, top: RefsNode, G: Graph, flags: Flags, objects: Objects,
          E: Items)
    requires e in E && e.upper in G && G[e.upper].tree.Leaf? && G[e.upper].inMemory
    requires E[e].pos < |G[e.upper].leafs| == |G[e.upper].tree.es|
    requires AllOk({}, G, flags, objects) && (track ==> Kept(lazy, {}, top, G))
    ensures var m := e.upper; var U := WithoutLeaf(m, E[e].pos, G);
            AllOk({m}, U, flags, objects) && NodeOk(U[m].(length := U[m].length - 1), flags, objects)
            && (track ==> Kept(lazy, {m}, top, U)) && U[m].stale && U[m].inMemory
  {
    hide HashOf, NodeHashes;
  }

  // ---------------------------------------------------------------- building

  ghost predicate Raw(G: Graph)
  {
    RawSo(G) == true
  }

  ghost predicate RawSo(G: Graph) {
    forall n <- G :: G[n].inMemory && G[n].hash == Blank && G[n].stale
  }

  /** The nodes in `ups` may stand for other trees now; nothing else has changed. */
  ghost predicate Retold(ups: seq<RefsNode>, G: Graph, H: Graph)
  {
    RetoldSo(ups, G, H) == true
  }

  ghost predicate RetoldSo(ups: seq<RefsNode>, G: Graph, H: Graph) {
    H.Keys == G.Keys && (forall n <- G :: n !in ups ==> H[n] == G[n])
    && forall n <- G :: H[n] == G[n].(tree := H[n].tree, stale := H[n].stale) && (G[n].stale ==> H[n].stale)
  }

  lemma RetoldSelf(G: Graph)
    ensures Retold([], G, G)
  {
  }

  lemma RetoldLast(u: RefsNode, t: Tree, ups: seq<RefsNode>, G: Graph, I: Graph)
    requires u in G && Retold(ups, Retree(u, t, G), I)
    ensures Retold(ups + [u], G, I)
  {
  }

  lemma GrownRaw(u: RefsNode, b: RefsNode, G: Graph)
    requires Raw(G) && u in G && G[u].tree.Branch? && b != u && b !in G
    ensures Raw(Grown(u, b, false, false, G))
  {
  }

  lemma AfterRetelling(tail: seq<RefsNode>, b: RefsNode, top: RefsNode, G: Graph, H: Graph)
    requires |tail| > 0 && Retold(tail[..|tail| - 1], G, H) && Tail(tail + [b], top, G) && Raw(G) && b in G
      && b !in tail
    ensures Tail(tail + [b], top, H) && Raw(H) && b in H && H[b] == G[b] && H.Keys == G.Keys
  {
    TailSame(tail + [b], top, G, H);
  }

  lemma BareLeafed(tail: seq<RefsNode>, e: RefsElement, x: Hash, d: nat, top: RefsNode, G: Graph, E: Items)
    requires |tail| > 0 && Tail(tail, top, G) && LinkedBut({tail[|tail| - 1]}, top, G, E) && d >= 1 && Raw(G)
    requires WF(Whole(tail, top, G), d, top.height)
    requires var m := tail[|tail| - 1]; m in G && m.height == 0 && G[m].tree.Leaf? && |G[m].tree.es| < d
    ensures var m := tail[|tail| - 1]; var V := WithLeaf(m, e, x, G); var w := Whole(tail, top, G);
            Tail(tail, top, V) && Raw(V) && Free(w, d, top.height) > 0
            && Whole(tail, top, V) == AppendOne(w, d, top.height, x) && WF(Whole(tail, top, V), d, top.height)
  {
    hide Links;
    var m := tail[|tail| - 1];
    var V := WithLeaf(m, e, x, G);
    WholeAppend(tail, {m}, d, x, top, G, E);
    assert V[m].tree == AppendOne(G[m].tree, d, 0, x);
    TailSame(tail, top, G, V);
    AppendOneWF(Whole(tail, top, G), d, top.height, x);
    LeafedTop(tail, m, V, d, x, top, G, E);
  }

  lemma AfterTellingAll(tail: seq<RefsNode>, top: RefsNode, G: Graph, H: Graph)
    requires |tail| > 0 && Retold(tail[..|tail| - 1], G, H) && Tail(tail, top, G) && Raw(G)
    ensures Tail(tail, top, H) && Raw(H) && H.Keys == G.Keys && tail[|tail| - 1] in H
      && H[tail[|tail| - 1]] == G[tail[|tail| - 1]]
  {
    TailSame(tail, top, G, H);
    TailDistinct(tail, |tail| - 1, top, G);
    TailAt(tail, |tail| - 1, top, G);
  }

  lemma LeafFull(t: Tree, d: nat)
    requires WF(t, d, 0) && t.Leaf?
    ensures |t.es| == d ==> Free(t, d, 0) == 0
    ensures |t.es| <= d
  {
  }

  lemma EmptyLast(d: nat, h: nat)
    ensures WF(Empty(h), d, h) && (h > 0 ==> FreeLast(Empty(h), d, h) == 0)
  {
  }

  lemma BuildingShape(rn: RefsNode, M: Nodes, tail: seq<RefsNode>, d: nat, top: RefsNode, G: Graph, E: Items)
    requires LinkedBut(M, top, G, E) && M <= {rn} && |tail| > 0 && Tail(tail, top, G) && tail[|tail| - 1] == rn
    requires d >= 1 && WF(Whole(tail, top, G), d, top.height)
    ensures rn in G && WF(G[rn].tree, d, rn.height)
  {
    WholeAppend(tail, M, d, Blank, top, G, E);
  }

  lemma RawStart(top: RefsNode, G: Graph, flags: Flags, objects: Objects)
    requires Raw(G)
    ensures Done({}, top, G) && AllOk(Undone({}, G), G, flags, objects) && Sane(G, objects)
  {
    SliceStart(top, G, flags, objects);
  }

  lemma SmallDepth(d: nat, n: nat)
    requires d >= 2
    ensures n <= d ==> LeastDepth(d, n, 0)
  {
    CapBase(d);
  }

  /** A blank Refs of the least depth can be filled. */
  lemma BuildingStart(top: RefsNode, h: nat, n: nat, d: nat, G: Graph, E: Items)
    requires LinkedBut({}, top, G, E) && G == map[top := Made(h, false, true)] && top.height == h && d >= 2
      && h == MinDepth(d, n)
    ensures LinkedBut({top}, top, G, E) && Tail([top], top, G) && Raw(G) && Whole([top], top, G) == Empty(h)
    ensures WF(Empty(h), d, h) && Free(Empty(h), d, h) >= n
  {
    MoreBut({}, {top}, top, G, E);
    TailOne(top, G);
    FreeEmpty(d, h);
  }

  lemma FreeEmpty(d: nat, h: nat)
    requires d >= 1
    ensures WF(Empty(h), d, h) && Free(Empty(h), d, h) == Cap(d, h + 1)
  {
    PackedEmpty(d, h);
    PackedFree(d, h, []);
  }

  lemma FillMore(d: nat, h: nat, xs: seq<Hash>, ys: seq<Hash>)
    requires d >= 1 && WF(Empty(h), d, h) && Free(Empty(h), d, h) >= |xs| + |ys|
    ensures var w := AppendAll(Empty(h), d, h, xs);
            |ys| <= Free(w, d, h) && AppendAll(w, d, h, ys) == Packed(d, h, xs + ys)
  {
    FreeEmpty(d, h);
    AppendAllSplit(Empty(h), d, h, xs, ys);
    FillEmpty(d, h, xs + ys);
  }

  lemma FillDone(d: nat, xs: seq<Hash>)
    requires d >= 2 && xs != []
    ensures Settled(false, Packed(d, MinDepth(d, |xs|), xs), MinDepth(d, |xs|)) == PackedMin(d, xs)
  {
    PackedIs(d, MinDepth(d, |xs|), xs);
  }

  /** A blank Refs is a value without elements. */
  lemma BlankValid(top: RefsNode, h: nat, d: nat, flags: Flags, G: Graph, objects: Objects)
    requires G == map[top := Made(h, false, true)] && top.height == h && d >= 2 && h == MinDepth(d, 0)
    ensures AllOk({}, G, flags, objects) && WF(Empty(h), d, h) && Kept(flags.lazyUpdating, {}, top, G)
      && AllClean({}, top, G)
    ensures Current(Blank, Value(d, h, Empty(h)), objects) && Empty(h) == PackedMin(d, [])
  {
    PackedEmpty(d, h);
  }

  /** More in the Pack does no harm. */
  lemma MoreSound(flags: Flags, top: RefsNode, G: Graph, hash: Hash, v: Value, a: Objects, b: Objects)
    requires AllOk({}, G, flags, a) && a.Keys <= b.Keys
    ensures AllOk({}, G, flags, b) && (Current(hash, v, a) ==> Current(hash, v, b))
  {
    MoreOk({}, G, flags, a, b);
  }

  // ------------------------------------------------------------- initializing

  lemma RootAlone(top: RefsNode, length: int, h: nat, flags: Flags, objects: Objects)
    ensures AllOk({top}, map[top := Made(h, false, true).(length := length)], flags, objects)
  {
  }

  /** What has been loaded below the root is as stored. */
  lemma RootLoaded(top: RefsNode, t: Tree, G: Graph, H: Graph, flags: Flags, objects: Objects)
    requires top in H && AddedFrom(top, G, H) && G.Keys == {top} && AllOk({top}, H, flags, objects)
    requires H[top] == G[top].(leafs := H[top].leafs, branches := H[top].branches, tree := t) && G[top].length == Len(t)
    requires G[top].loaded && G[top].inMemory && G[top].stale && G[top].hash == Blank
    ensures AllOk({}, H, flags, objects) && AllClean({}, top, H)
  {
    hide HashOf, NodeHashes, Flat;
  }

  lemma LeafShape(t: Tree, d: nat)
    requires WF(t, d, 0)
    ensures t.Leaf? && Elements(t) == t.es
  {
  }

  lemma LoadedBlank(top: RefsNode, flags: Flags, G: Graph)
    requires G == map[top := Made(top.height, false, true)]
    ensures LoadedAs(flags, top, G)
  {
  }

  /** What initializing finds at first sight. */
  function FirstError(objects: Objects, hash: Hash): Err {
    if hash == Blank then Ok
    else if hash !in objects then NotFound
    else if !objects[hash].RootBlob? then DecodingFailed
    else if objects[hash].length == 0 || !ValidDegree(objects[hash].degree) then InvalidEncodedRefs
    else Ok
  }

  /** If there is nothing wrong at first sight, the whole value is there. */
  ghost predicate Readable(objects: Objects, hash: Hash) {
    FirstError(objects, hash) == Ok && hash != Blank ==>
      ReadRoot(objects, hash, 2).Some? && ReadRoot(objects, hash, 2).value.Valid()
  }

  lemma ReadableIs(objects: Objects, hash: Hash, degree: nat)
    requires Readable(objects, hash) && FirstError(objects, hash) == Ok && hash != Blank && ContentAddressed(objects)
    ensures hash in objects && objects[hash].RootBlob?
    ensures var r, b := ReadRoot(objects, hash, degree), objects[hash];
            r.Some? && r.value.Valid() && r.value.degree == b.degree && r.value.depth == b.depth
            && Elements(r.value.tree) == b.elements
            && Len(r.value.tree) == b.length && KidHashes(r.value.tree) <= objects.Keys
            && Current(hash, r.value, objects)
            && r == Some(Value(b.degree, b.depth, r.value.tree))
  {
    var b := objects[hash];
    ReadElementsStored(objects, b.length, b.elements, b.depth);
  }

  /** A Refs without elements. */
  lemma BlankIs(top: RefsNode, d: nat, flags: Flags, G: Graph, objects: Objects)
    requires G == map[top := Made(0, false, true)] && top.height == 0 && d >= 2
    ensures AllOk({}, G, flags, objects) && WF(Empty(0), d, 0) && AllClean({}, top, G)
    ensures Current(Blank, Value(d, 0, Empty(0)), objects)
    ensures ReadRoot(objects, Blank, d) == Some(Value(d, 0, Empty(0)))
  {
  }

  /** What is actual can be read. */
  lemma ReloadReadable(objects: Objects, hash: Hash, v: Value, degree: nat)
    requires ContentAddressed(objects) && v.Valid() && Current(hash, v, objects)
    ensures Readable(objects, hash) && FirstError(objects, hash) == Ok
    ensures var r := ReadRoot(objects, hash, degree);
            r.Some? && r.value.Seq() == v.Seq() && (Len(v.tree) > 0 ==> r.value == v)
  {
    hide Flat, FlatAll;
    RootRoundTrip(objects, v, degree);
    RootRoundTrip(objects, v, 2);
    if Len(v.tree) > 0 {
      assert objects[hash] == v.RootEncoding();
    }
  }
}
