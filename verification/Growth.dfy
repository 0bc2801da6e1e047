/**
 Appending to a Refs tree on values: the free space on the tail, the tree after
 appending in place, and the canonical left-packed tree.
 */
module Growth {
  import opened Hashing
  import opened Powers
  import opened Trees

  /** Elements that can still be appended without making the tree deeper. */
  function Free(t: Tree, d: nat, h: nat): (f: nat)
    requires WF(t, d, h)
    decreases h
  {
    if h == 0 then d - |t.es|
    else Times(Cap(d, h), d - |t.kids|) + FreeLast(t, d, h)
  }

  function FreeLast(t: Tree, d: nat, h: nat): nat
    requires WF(t, d, h) && h > 0
    decreases h, 0
  {
    if t.kids == [] then 0 else Free(t.kids[|t.kids| - 1], d, h - 1)
  }

  /** A branch reaching down to a single leaf. */
  function Chain(h: nat, x: Hash): Tree {
    if h == 0 then Leaf([x]) else Branch([Chain(h - 1, x)])
  }

  /** Append at the lowest node of the right spine that has room. */
  function AppendOne(t: Tree, d: nat, h: nat, x: Hash): Tree
    requires WF(t, d, h)
    decreases h
  {
    if h == 0 then Leaf(t.es + [x])
    else
      var n := |t.kids|;
      if FreeLast(t, d, h) > 0 then Branch(t.kids[n - 1 := AppendOne(t.kids[n - 1], d, h - 1, x)])
      else Branch(t.kids + [Chain(h - 1, x)])
  }

  lemma {:induction false} ChainIs(d: nat, h: nat, x: Hash)
    requires d >= 1
    ensures WF(Chain(h, x), d, h) && Flat(Chain(h, x)) == [x] && NoBlanks(Chain(h, x))
    ensures Free(Chain(h, x), d, h) == Cap(d, h + 1) - 1
  {
    if h == 0 {
      CapBase(d);
    } else {
      ChainIs(d, h - 1, x);
      FlatAllOne(Chain(h - 1, x));
    }
  }

  lemma FreeNeedsRoom(t: Tree, d: nat, h: nat)
    requires WF(t, d, h) && h > 0 && Free(t, d, h) > 0 && FreeLast(t, d, h) == 0
    ensures |t.kids| < d
  {
  }

  lemma {:induction false} AppendOneWF(t: Tree, d: nat, h: nat, x: Hash)
    requires d >= 1 && WF(t, d, h) && Free(t, d, h) > 0
    ensures WF(AppendOne(t, d, h, x), d, h)
    decreases h
  {
    if h > 0 {
      var n, u := |t.kids|, AppendOne(t, d, h, x);
      if FreeLast(t, d, h) > 0 {
        AppendOneWF(t.kids[n - 1], d, h - 1, x);
      } else {
        FreeNeedsRoom(t, d, h);
        ChainIs(d, h - 1, x);
      }
      assert forall i | 0 <= i < |u.kids| :: i < n - 1 ==> u.kids[i] == t.kids[i];
    }
  }

  /** In-place append is sequence append. */
  lemma {:induction false} AppendOneFlat(t: Tree, d: nat, h: nat, x: Hash)
    requires d >= 1 && WF(t, d, h) && Free(t, d, h) > 0
    ensures Flat(AppendOne(t, d, h, x)) == Flat(t) + [x]
    decreases h
  {
    hide FlatAll, Flat, Cap;
    if h == 0 {
      FlatLeaf(t.es);
      FlatLeaf(t.es + [x]);
    } else {
      var ks, n := t.kids, |t.kids|;
      FlatBranch(ks);
      if FreeLast(t, d, h) > 0 {
        var u := AppendOne(ks[n - 1], d, h - 1, x);
        AppendOneFlat(ks[n - 1], d, h - 1, x);
        FlatAllUpdate(ks, n - 1, u);
        FlatAllAt(ks, n - 1);
        assert ks[n..] == [];
        FlatAllNone();
        FlatBranch(ks[n - 1 := u]);
      } else {
        ChainIs(d, h - 1, x);
        FlatAllSnoc(ks, Chain(h - 1, x));
        FlatBranch(ks + [Chain(h - 1, x)]);
      }
    }
  }

  /** ... and uses up one free place. */
  lemma {:induction false} AppendOneFree(t: Tree, d: nat, h: nat, x: Hash)
    requires d >= 1 && WF(t, d, h) && Free(t, d, h) > 0
    ensures WF(AppendOne(t, d, h, x), d, h)
    ensures Free(AppendOne(t, d, h, x), d, h) == Free(t, d, h) - 1
    decreases h
  {
    AppendOneWF(t, d, h, x);
    if h > 0 {
      if FreeLast(t, d, h) > 0 {
        AppendOneFree(t.kids[|t.kids| - 1], d, h - 1, x);
      } else {
        FreeNeedsRoom(t, d, h);
        ChainIs(d, h - 1, x);
      }
    }
  }

  lemma AppendOneIs(t: Tree, d: nat, h: nat, x: Hash)
    requires d >= 1 && WF(t, d, h) && Free(t, d, h) > 0
    ensures var u := AppendOne(t, d, h, x);
            WF(u, d, h) && Flat(u) == Flat(t) + [x] && Free(u, d, h) == Free(t, d, h) - 1
  {
    AppendOneFlat(t, d, h, x);
    AppendOneFree(t, d, h, x);
  }

  lemma {:induction false} AppendOneNoBlanks(t: Tree, d: nat, h: nat, x: Hash)
    requires d >= 1 && WF(t, d, h) && Free(t, d, h) > 0 && NoBlanks(t)
    ensures NoBlanks(AppendOne(t, d, h, x))
    decreases h
  {
    if h > 0 {
      ChainIs(d, h - 1, x);
      if FreeLast(t, d, h) > 0 {
        AppendOneNoBlanks(t.kids[|t.kids| - 1], d, h - 1, x);
        AppendOneIs(t.kids[|t.kids| - 1], d, h - 1, x);
      }
    }
  }

  function AppendAll(t: Tree, d: nat, h: nat, xs: seq<Hash>): (u: Tree)
    requires d >= 1 && WF(t, d, h) && |xs| <= Free(t, d, h)
    ensures WF(u, d, h) && Flat(u) == Flat(t) + xs && Free(u, d, h) == Free(t, d, h) - |xs|
    decreases |xs|
  {
    if xs == [] then t
    else
      var n := |xs| - 1;
      var u := AppendAll(t, d, h, xs[..n]);
      AppendOneIs(u, d, h, xs[n]);
      AppendOne(u, d, h, xs[n])
  }

  lemma AppendNone(t: Tree, d: nat, h: nat)
    requires d >= 1 && WF(t, d, h)
    ensures AppendAll(t, d, h, []) == t
  {
  }

  lemma AppendNext(t: Tree, d: nat, h: nat, xs: seq<Hash>, i: nat)
    requires d >= 1 && WF(t, d, h) && |xs| <= Free(t, d, h) && i < |xs|
    ensures var u := AppendAll(t, d, h, xs[..i]);
            WF(u, d, h) && Free(u, d, h) > 0 && AppendAll(t, d, h, xs[..i + 1]) == AppendOne(u, d, h, xs[i])
  {
    assert xs[..i + 1][..i] == xs[..i];
  }

  lemma {:induction false} AppendAllSplit(t: Tree, d: nat, h: nat, xs: seq<Hash>, ys: seq<Hash>)
    requires d >= 1 && WF(t, d, h) && |xs| + |ys| <= Free(t, d, h)
    ensures AppendAll(t, d, h, xs + ys) == AppendAll(AppendAll(t, d, h, xs), d, h, ys)
    decreases |ys|
  {
    if ys == [] {
      assert xs + ys == xs;
    } else {
      var n := |ys| - 1;
      assert (xs + ys)[..|xs + ys| - 1] == xs + ys[..n];
      AppendAllSplit(t, d, h, xs, ys[..n]);
    }
  }

  // ------------------------------------------------------------- right spine

  /** The node `k` levels down the right spine. */
  function SpineAt(t: Tree, k: nat): Tree
    requires OnSpine(t, k)
  {
    if k == 0 then t else SpineAt(t.kids[|t.kids| - 1], k - 1)
  }

  predicate OnSpine(t: Tree, k: nat) {
    k == 0 || (t.Branch? && t.kids != [] && OnSpine(t.kids[|t.kids| - 1], k - 1))
  }

  /** Replace the node `k` levels down the right spine. */
  function Graft(t: Tree, k: nat, u: Tree): Tree
    requires OnSpine(t, k)
  {
    if k == 0 then u
    else Branch(t.kids[|t.kids| - 1 := Graft(t.kids[|t.kids| - 1], k - 1, u)])
  }

  /** There is room at or below the node `k` levels down the spine. */
  lemma {:induction false} AppendAtSpine(t: Tree, d: nat, h: nat, k: nat, x: Hash)
    requires d >= 1 && WF(t, d, h) && k <= h && OnSpine(t, k)
    requires WF(SpineAt(t, k), d, h - k) && Free(SpineAt(t, k), d, h - k) > 0
    ensures Free(t, d, h) > 0
    ensures AppendOne(t, d, h, x) == Graft(t, k, AppendOne(SpineAt(t, k), d, h - k, x))
    decreases k
  {
    if k > 0 {
      AppendAtSpine(t.kids[|t.kids| - 1], d, h - 1, k - 1, x);
    }
  }

  lemma {:induction false} GraftTwice(t: Tree, k: nat, u: Tree, v: Tree)
    requires OnSpine(t, k)
    ensures OnSpine(Graft(t, k, u), k) && SpineAt(Graft(t, k, u), k) == u
    ensures Graft(Graft(t, k, u), k, v) == Graft(t, k, v)
  {
    if k > 0 {
      GraftTwice(t.kids[|t.kids| - 1], k - 1, u, v);
    }
  }

  /** Grafting one level further down. */
  lemma {:induction false} GraftDown(t: Tree, k: nat, u: Tree)
    requires OnSpine(t, k) && SpineAt(t, k).Branch? && SpineAt(t, k).kids != []
    ensures OnSpine(t, k + 1)
    ensures var ks := SpineAt(t, k).kids;
            SpineAt(t, k + 1) == ks[|ks| - 1]
            && Graft(t, k + 1, u) == Graft(t, k, Branch(ks[|ks| - 1 := u]))
  {
    if k > 0 {
      GraftDown(t.kids[|t.kids| - 1], k - 1, u);
    }
  }

  lemma {:induction false} SpineWF(t: Tree, d: nat, h: nat, k: nat)
    requires WF(t, d, h) && k <= h && OnSpine(t, k)
    ensures WF(SpineAt(t, k), d, h - k)
  {
    if k > 0 {
      SpineWF(t.kids[|t.kids| - 1], d, h - 1, k - 1);
    }
  }

  lemma {:induction false} GraftWF(t: Tree, d: nat, h: nat, k: nat, u: Tree)
    requires WF(t, d, h) && k <= h && OnSpine(t, k) && WF(u, d, h - k)
    ensures WF(Graft(t, k, u), d, h)
  {
    if k > 0 {
      GraftWF(t.kids[|t.kids| - 1], d, h - 1, k - 1, u);
    }
  }

  // ------------------------------------------------------------- left-packed

  /**
   The canonical tree of height `h` over `es`: all branches full except the
   last one, which is canonical itself.
   */
  function Packed(d: nat, h: nat, es: seq<Hash>): Tree
    decreases h, 1, |es|
  {
    if h == 0 then Leaf(es) else Branch(PackedKids(d, h - 1, es))
  }

  function PackedKids(d: nat, h: nat, es: seq<Hash>): seq<Tree>
    decreases h, 2, |es|
  {
    var c := Cap(d, h + 1);
    if es == [] then []
    else if |es| <= c || c <= 0 then [Packed(d, h, es)]
    else [Packed(d, h, es[..c])] + PackedKids(d, h, es[c..])
  }

  lemma {:induction false} PackedFlat(d: nat, h: nat, es: seq<Hash>)
    requires d >= 1
    ensures Flat(Packed(d, h, es)) == es && NoBlanks(Packed(d, h, es))
    decreases h, 1, |es|
  {
    if h == 0 {
      FlatLeaf(es);
    } else {
      PackedKidsFlat(d, h - 1, es);
      FlatBranch(PackedKids(d, h - 1, es));
    }
  }

  lemma {:induction false} PackedKidsFlat(d: nat, h: nat, es: seq<Hash>)
    requires d >= 1
    ensures FlatAll(PackedKids(d, h, es)) == es
    ensures forall i | 0 <= i < |PackedKids(d, h, es)| ::
            Len(PackedKids(d, h, es)[i]) > 0 && NoBlanks(PackedKids(d, h, es)[i])
    decreases h, 2, |es|
  {
    hide FlatAll, Flat, NoBlanks, Cap, Packed;
    var c, ks := Cap(d, h + 1), PackedKids(d, h, es);
    CapPositive(d, h + 1);
    FlatAllNone();
    if es == [] {
    } else if |es| <= c {
      PackedFlat(d, h, es);
      FlatAllOne(Packed(d, h, es));
    } else {
      var first, rest := Packed(d, h, es[..c]), PackedKids(d, h, es[c..]);
      assert ks == [first] + rest;
      PackedFlat(d, h, es[..c]);
      PackedKidsFlat(d, h, es[c..]);
      FlatAllConcat([first], rest);
      FlatAllOne(first);
      assert forall i | 0 < i < |ks| :: ks[i] == rest[i - 1];
    }
  }

  lemma {:induction false} PackedWF(d: nat, h: nat, es: seq<Hash>)
    requires d >= 1 && |es| <= Cap(d, h + 1)
    ensures WF(Packed(d, h, es), d, h)
    decreases h, 1, |es|
  {
    if h == 0 {
      CapBase(d);
    } else {
      PackedKidsWF(d, h - 1, es, d);
    }
  }

  lemma {:induction false} PackedKidsWF(d: nat, h: nat, es: seq<Hash>, w: nat)
    requires d >= 1 && |es| <= Times(Cap(d, h + 1), w)
    ensures |PackedKids(d, h, es)| <= w
    ensures forall k <- PackedKids(d, h, es) :: WF(k, d, h)
    decreases h, 2, |es|
  {
    var c := Cap(d, h + 1);
    CapPositive(d, h + 1);
    if es == [] {
    } else if |es| <= c {
      PackedWF(d, h, es);
    } else {
      PackedWF(d, h, es[..c]);
      PackedKidsWF(d, h, es[c..], w - 1);
    }
  }

  lemma {:induction false} PackedFree(d: nat, h: nat, es: seq<Hash>)
    requires d >= 1 && |es| <= Cap(d, h + 1)
    ensures WF(Packed(d, h, es), d, h)
    ensures Free(Packed(d, h, es), d, h) == Cap(d, h + 1) - |es|
    decreases h, 1, |es|
  {
    PackedWF(d, h, es);
    if h == 0 {
      CapBase(d);
    } else {
      PackedKidsFree(d, h - 1, es, d);
    }
  }

  lemma {:induction false} PackedKidsFree(d: nat, h: nat, es: seq<Hash>, w: nat)
    requires d >= 1 && |es| <= Times(Cap(d, h + 1), w)
    ensures var ks := PackedKids(d, h, es);
            |ks| <= w && (ks != [] ==> WF(ks[|ks| - 1], d, h)) &&
            Times(Cap(d, h + 1), w - |ks|) + (if ks == [] then 0 else Free(ks[|ks| - 1], d, h))
            == Times(Cap(d, h + 1), w) - |es|
    decreases h, 2, |es|
  {
    var c := Cap(d, h + 1);
    CapPositive(d, h + 1);
    PackedKidsWF(d, h, es, w);
    if es == [] {
    } else if |es| <= c {
      PackedFree(d, h, es);
    } else {
      PackedKidsFree(d, h, es[c..], w - 1);
      var rest := PackedKids(d, h, es[c..]);
      assert PackedKids(d, h, es) == [Packed(d, h, es[..c])] + rest;
      PackedKidsFlat(d, h, es[c..]);
      assert rest != [];
    }
  }

  lemma PackedIs(d: nat, h: nat, es: seq<Hash>)
    requires d >= 1 && |es| <= Cap(d, h + 1)
    ensures var t := Packed(d, h, es);
            WF(t, d, h) && Flat(t) == es && NoBlanks(t) && Free(t, d, h) == Cap(d, h + 1) - |es|
  {
    PackedFlat(d, h, es);
    PackedFree(d, h, es);
  }

  lemma {:induction false} PackedOne(d: nat, h: nat, x: Hash)
    requires d >= 1
    ensures Packed(d, h, [x]) == Chain(h, x)
  {
    if h > 0 {
      CapPositive(d, h);
      PackedOne(d, h - 1, x);
    }
  }

  /** Appending in place keeps the canonical shape. */
  lemma {:induction false} AppendPacked(d: nat, h: nat, es: seq<Hash>, x: Hash)
    requires d >= 1 && |es| < Cap(d, h + 1)
    ensures WF(Packed(d, h, es), d, h)
    ensures AppendOne(Packed(d, h, es), d, h, x) == Packed(d, h, es + [x])
    decreases h, 1, |es|
  {
    PackedIs(d, h, es);
    if h > 0 {
      AppendPackedKids(d, h - 1, es, x, d);
    }
  }

  lemma KidsFew(d: nat, h: nat, es: seq<Hash>)
    requires |es| <= Cap(d, h + 1)
    ensures PackedKids(d, h, es) == if es == [] then [] else [Packed(d, h, es)]
  {
    hide Cap, Packed;
  }

  lemma KidsMany(d: nat, h: nat, es: seq<Hash>)
    requires |es| > Cap(d, h + 1) > 0
    ensures var c := Cap(d, h + 1);
            PackedKids(d, h, es) == [Packed(d, h, es[..c])] + PackedKids(d, h, es[c..])
            && PackedKids(d, h, es[c..]) != []
  {
    hide Cap, Packed;
  }

  lemma SplitSnoc<T>(es: seq<T>, x: T, c: nat)
    requires c <= |es|
    ensures (es + [x])[..c] == es[..c] && (es + [x])[c..] == es[c..] + [x]
  {
  }

  lemma {:induction false} AppendPackedKids(d: nat, h: nat, es: seq<Hash>, x: Hash, w: nat)
    requires d >= 1 && |es| < Times(Cap(d, h + 1), w)
    ensures var ks := PackedKids(d, h, es);
            (ks != [] ==> WF(ks[|ks| - 1], d, h)) &&
            PackedKids(d, h, es + [x]) ==
            if ks != [] && Free(ks[|ks| - 1], d, h) > 0
            then ks[|ks| - 1 := AppendOne(ks[|ks| - 1], d, h, x)]
            else ks + [Chain(h, x)]
    decreases h, 2, |es|
  {
    hide Packed, PackedKids, AppendOne, Chain, Free, Cap, WF, Flat, FlatAll;
    var c := Cap(d, h + 1);
    CapPositive(d, h + 1);
    PackedOne(d, h, x);
    if es == [] {
      KidsFew(d, h, []);
      KidsFew(d, h, [x]);
      assert es + [x] == [x];
    } else if |es| <= c {
      KidsFew(d, h, es);
      PackedFree(d, h, es);
      if |es| < c {
        KidsFew(d, h, es + [x]);
        AppendPacked(d, h, es, x);
      } else {
        SplitSnoc(es, x, c);
        assert es[..c] == es && es[c..] == [];
        KidsMany(d, h, es + [x]);
        KidsFew(d, h, [x]);
      }
    } else {
      KidsMany(d, h, es);
      KidsMany(d, h, es + [x]);
      SplitSnoc(es, x, c);
      AppendPackedKids(d, h, es[c..], x, w - 1);
    }
  }

  lemma {:induction false} AppendAllPacked(d: nat, h: nat, es: seq<Hash>, xs: seq<Hash>)
    requires d >= 1 && |es| + |xs| <= Cap(d, h + 1)
    ensures WF(Packed(d, h, es), d, h) && Free(Packed(d, h, es), d, h) == Cap(d, h + 1) - |es|
    ensures AppendAll(Packed(d, h, es), d, h, xs) == Packed(d, h, es + xs)
    decreases |xs|
  {
    PackedIs(d, h, es);
    if xs == [] {
      assert es + xs == es;
    } else {
      var n := |xs| - 1;
      AppendAllPacked(d, h, es, xs[..n]);
      AppendPacked(d, h, es + xs[..n], xs[n]);
      assert es + xs == es + xs[..n] + [xs[n]];
    }
  }

  // ------------------------------------------------------------ minimal depth

  /** The least depth whose capacity holds `n` elements. */
  ghost predicate LeastDepth(d: nat, n: nat, k: nat) {
    n <= Cap(d, k + 1) && forall j | 1 <= j <= k :: Cap(d, j) < n
  }

  lemma LeastDepthUnique(d: nat, n: nat, a: nat, b: nat)
    requires LeastDepth(d, n, a) && LeastDepth(d, n, b)
    ensures a == b
  {
  }

  /** The least depth from `start` on that fits, found by trying depths one by one. */
  method DepthToFit(degree: nat, start: nat, fit: int) returns (depth: nat)
    requires degree >= 2
    ensures fit <= Cap(degree, depth + 1) && (fit <= degree ==> depth == 0) && (fit > degree ==> start <= depth + 1)
    ensures fit > degree ==> forall j | 1 <= j <= depth && start <= j :: Cap(degree, j) < fit
    ensures (forall j | 1 <= j < start :: Cap(degree, j) < fit) ==>
            LeastDepth(degree, if fit < 0 then 0 else fit, depth)
  {
    CapBase(degree);
    if fit <= degree {
      return 0;
    }
    var s := start;
    if s == 0 {
      s := 1;
    }
    var p := PowLoop(degree, s);
    CapIsPow(degree, s);
    while p < fit
      invariant s >= 1 && s >= start && p == Cap(degree, s)
        && forall j | 1 <= j < s && start <= j :: Cap(degree, j) < fit
      decreases fit - s
    {
      CapIsPow(degree, s);
      PowGrows(degree, s);
      s := s + 1;
      p := PowLoop(degree, s);
      CapIsPow(degree, s);
    }
    return s - 1;
  }

  function MinDepth(d: nat, n: nat): (k: nat)
    requires d >= 2
    ensures LeastDepth(d, n, k)
  {
    MinDepthFrom(d, n, 0)
  }

  function MinDepthFrom(d: nat, n: nat, s: nat): (k: nat)
    requires d >= 2 && forall j | 1 <= j <= s :: Cap(d, j) < n
    ensures LeastDepth(d, n, k)
    decreases n - s
  {
    PowGrows(d, s + 1);
    CapIsPow(d, s + 1);
    if n <= Cap(d, s + 1) then s else MinDepthFrom(d, n, s + 1)
  }

  /** The canonical tree of least depth: what Rebuild and Slice produce. */
  function PackedMin(d: nat, es: seq<Hash>): Tree
    requires d >= 2
  {
    Packed(d, MinDepth(d, |es|), es)
  }

  lemma PackedEmpty(d: nat, h: nat)
    ensures Packed(d, h, []) == Empty(h)
  {
  }

  /** Filling an empty tree gives the canonical one. */
  lemma FillEmpty(d: nat, h: nat, xs: seq<Hash>)
    requires d >= 1 && |xs| <= Cap(d, h + 1)
    ensures WF(Empty(h), d, h) && Free(Empty(h), d, h) >= |xs| && AppendAll(Empty(h), d, h, xs) == Packed(d, h, xs)
  {
    PackedEmpty(d, h);
    AppendAllPacked(d, h, [], xs);
    assert [] + xs == xs;
  }

  lemma PackedFlatMin(d: nat, es: seq<Hash>)
    requires d >= 2
    ensures Flat(PackedMin(d, es)) == es
  {
    PackedFlat(d, MinDepth(d, |es|), es);
  }
}
