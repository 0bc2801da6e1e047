/** What runs of operations on a Refs do. */
module RefsRuns {
  import opened Hashing
  import opened Powers
  import opened Trees
  import opened Growth
  import opened Merkle
  import opened RefsState
  import opened RefsTail
  import opened RefsGraph
  import opened RefsWalk
  import opened Deletions
  import opened RefsHeap
  import opened Visits

  // ---------------------------------------------------------- lazy and eager

  /** A change by index; it does nothing if the index is out of range. */
  datatype Edit = SetHash(i: int, x: Hash) | Delete(i: int)

  function Apply(t: Tree, e: Edit): Tree {
    if !(0 <= e.i < Len(t)) then t
    else match e case SetHash(i, x) => SetAt(t, i, x) case Delete(i) => DeleteAt(t, i)
  }

  function ApplyAll(t: Tree, es: seq<Edit>): Tree {
    if es == [] then t else Apply(ApplyAll(t, es[..|es| - 1]), es[|es| - 1])
  }

  /** The value after rebuilding. */
  function Rebuilt(v: Value): Value
    requires ValidDegree(v.degree)
  {
    var h := MinDepth(v.degree, Len(v.tree));
    if h != v.depth then Value(v.degree, h, PackedMin(v.degree, Flat(v.tree))) else v
  }

  /** The elements after a run of changes. */
  function Edited(s: seq<Hash>, e: Edit): seq<Hash> {
    if !(0 <= e.i < |s|) then s
    else match e case SetHash(i, x) => s[i := x] case Delete(i) => Without(s, i)
  }

  function EditedAll(s: seq<Hash>, es: seq<Edit>): seq<Hash> {
    if es == [] then s else Edited(EditedAll(s, es[..|es| - 1]), es[|es| - 1])
  }

  lemma {:induction false} ApplyAllIs(t: Tree, es: seq<Edit>, d: nat, h: nat)
    requires WF(t, d, h) && NoBlanks(t)
    ensures WF(ApplyAll(t, es), d, h) && NoBlanks(ApplyAll(t, es)) && Flat(ApplyAll(t, es)) == EditedAll(Flat(t), es)
  {
    if es != [] {
      var n := |es| - 1;
      var u := ApplyAll(t, es[..n]);
      ApplyAllIs(t, es[..n], d, h);
      if 0 <= es[n].i < Len(u) {
        match es[n]
        case SetHash(i, x) =>
          SetAtShape(u, i, x, d, h);
          SetAtIsUpdate(u, i, x);
        case Delete(i) =>
          DeleteAtShape(u, i, d, h);
          DeleteAtIsRemoval(u, i);
      }
    }
  }

  lemma FirstKid(ks: seq<Tree>)
    ensures ks != [] ==> |FlatAll(ks)| >= Len(ks[0])
  {
    if ks != [] {
      FlatAllAt(ks, 0);
    }
  }

  /** Deleting the last element by index leaves nothing behind. */
  lemma DeleteLast(t: Tree, i: nat, d: nat, h: nat)
    requires WF(t, d, h) && NoBlanks(t) && i < Len(t) && Len(DeleteAt(t, i)) == 0
    ensures DeleteAt(t, i) == Empty(h)
  {
    DeleteAtIsRemoval(t, i);
    if h > 0 {
      var u := DeleteAt(t, i);
      DeleteAtShape(t, i, d, h);
      FirstKid(u.kids);
    }
  }

  /** ... so there is nothing to settle. */
  lemma DeleteSettled(lazy: bool, t: Tree, i: nat, d: nat, h: nat)
    requires WF(t, d, h) && NoBlanks(t) && i < Len(t)
    ensures Settled(lazy, DeleteAt(t, i), h) == DeleteAt(t, i)
  {
    if Len(DeleteAt(t, i)) == 0 {
      DeleteLast(t, i, d, h);
    }
  }

  method ApplyEdit(r: Refs, pack: Pack, e: Edit)
    requires r.Valid(pack)
    modifies r, r.G.Keys, r.E.Keys, pack`objects
    ensures r.Valid(pack) && r.Fresh() && r.degree == old(r.degree) && r.depth == old(r.depth)
      && |r.iterators| == old(|r.iterators|)
    ensures NoBlanks(old(r.Tree())) ==> r.Tree() == Apply(old(r.Tree()), e)
    ensures Flat(r.Tree()) == Edited(old(Flat(r.Tree())), e)
  {
    hide Addressed, Flat, FlatAll, WF, SetAt, DeleteAt, Settled, NoBlanks;
    ghost var t := r.Tree();
    match e
    case SetHash(i, x) =>
      if 0 <= i < Len(t) {
        SetAtIsUpdate(t, i, x);
      }
      var err := r.SetHashByIndex(pack, i, x);
    case Delete(i) =>
      if 0 <= i < Len(t) {
        DeleteAtIsRemoval(t, i);
        SettledFlat(r.flags.lazyUpdating, DeleteAt(t, i), r.depth);
        if NoBlanks(t) {
          DeleteSettled(r.flags.lazyUpdating, t, i, r.degree, r.depth);
        }
      }
      RewoundLen(r.iterators);
      var err := r.DeleteByIndex(pack, i);
  }

  /**
   A run of changes by index and a rebuild, with hashes updated at once or lazily:
   the hash in the end is a function of the value in the beginning and of the
   changes, so it does not matter which.
   */
  method EditAndRebuild(r: Refs, pack: Pack, es: seq<Edit>)
    requires r.Valid(pack) && r.iterators == []
    modifies r, r.G.Keys, r.E.Keys, pack`objects
    ensures r.Valid(pack) && Current(r.hash, Value(r.degree, r.depth, r.Tree()), pack.objects)
    ensures NoBlanks(old(r.Tree())) ==>
              var v := Rebuilt(Value(old(r.degree), old(r.depth), ApplyAll(old(r.Tree()), es)));
              Current(r.hash, v, pack.objects) && (Len(r.Tree()) > 0 ==> v == Value(r.degree, r.depth, r.Tree()))
    ensures var n := EditedAll(old(Flat(r.Tree())), es);
            MinDepth(old(r.degree), |n|) != old(r.depth) ==>
              r.degree == old(r.degree) && r.depth == MinDepth(r.degree, |n|) && r.Tree() == PackedMin(r.degree, n)
    ensures Flat(r.Tree()) == EditedAll(old(Flat(r.Tree())), es)
  {
    hide Addressed, Flat, FlatAll, WF, SetAt, DeleteAt, Settled, NoBlanks, MinDepth, PackedMin, Swept;
    ghost var t, d, h := r.Tree(), r.degree, r.depth;
    for k := 0 to |es|
      invariant r.Valid(pack) && r.Fresh() && r.degree == d && r.depth == h && |r.iterators| == 0
      invariant NoBlanks(t) ==> NoBlanks(r.Tree()) && r.Tree() == ApplyAll(t, es[..k])
      invariant Flat(r.Tree()) == EditedAll(Flat(t), es[..k])
    {
      ApplyEdit(r, pack, es[k]);
      assert es[..k + 1][..k] == es[..k];
      if NoBlanks(t) {
        ApplyAllIs(t, es[..k + 1], d, h);
      }
    }
    assert es[..|es|] == es;
    if NoBlanks(t) {
      ApplyAllIs(t, es, d, h);
    }
    var err := r.Rebuild(pack);
    if NoBlanks(t) {
      RebuiltHash(Value(d, h, ApplyAll(t, es)), Value(r.degree, r.depth, r.Tree()), r.hash, pack.objects);
    }
  }

  /** What rebuilding promises tells the hash. */
  lemma RebuiltHash(v: Value, w: Value, hash: Hash, objects: Objects)
    requires v.Valid() && w.degree == v.degree && Flat(w.tree) == Flat(v.tree) && Current(hash, w, objects)
    requires MinDepth(v.degree, Len(v.tree)) != v.depth ==>
            w.depth == MinDepth(v.degree, Len(v.tree)) && w.tree == PackedMin(v.degree, Flat(v.tree))
    requires MinDepth(v.degree, Len(v.tree)) == v.depth ==> w.depth == v.depth && (Len(w.tree) > 0 ==> w.tree == v.tree)
    ensures Current(hash, Rebuilt(v), objects) && (Len(w.tree) > 0 ==> w == Rebuilt(v))
  {
    PackedFlatMin(v.degree, Flat(v.tree));
  }

  // --------------------------------------------------- deleting by two routes

  /**
   Deleting the only element with a hash: the hash of the Refs does not depend on
   whether there is a hash table, if and only if the element is not alone in its
   node, or that is the root, or it is the only one.
   */
  lemma DeletionHashes(v: Value, i: nat, x: Hash)
    requires v.Valid() && i < Len(v.tree) && Flat(v.tree)[i] == x && x !in Without(Flat(v.tree), i)
    ensures Value(v.degree, v.depth, Settled(false, Cleared(v.tree, x), v.depth)).RootHash()
         == Value(v.degree, v.depth, Settled(false, Trimmed(v.tree, x), v.depth)).RootHash()
       <==> v.tree.Leaf? || !Lone(v.tree, i) || Len(v.tree) == 1
  {
    hide Flat, FlatAll, Lone;
    var c, t := Cleared(v.tree, x), Trimmed(v.tree, x);
    ClearedIs(v.tree, x);
    TrimmedIs(v.tree, x);
    OthersOnly(Flat(v.tree), i, x);
    ClearedShape(v.tree, x, v.degree, v.depth);
    TrimmedShape(v.tree, x, v.degree, v.depth);
    SettledFlat(false, c, v.depth);
    SettledFlat(false, t, v.depth);
    RoutesAgree(v.tree, i, x);
    var a, b := Value(v.degree, v.depth, c), Value(v.degree, v.depth, t);
    if Len(v.tree) > 1 && a.RootHash() == b.RootHash() {
      RootHashInjective(a, b);
    }
  }

  /** Three elements with two to a node: the third is alone, and the hash differs. */
  lemma EmptyLeft(a: Hash, b: Hash, x: Hash)
    requires x !in [a, b]
    ensures var t := Branch([Leaf([a, b]), Leaf([x])]);
            Cleared(t, x) == Branch([Leaf([a, b]), Leaf([])]) && Trimmed(t, x) == Branch([Leaf([a, b])])
            && Value(2, 1, Cleared(t, x)).RootHash() != Value(2, 1, Trimmed(t, x)).RootHash()
  {
    var l, r := Leaf([a, b]), Leaf([x]);
    ClearedSame(l, x);
    TrimmedSame(l, x);
    OthersOne(x);
    assert Cleared(r, x) == Trimmed(r, x) == Leaf([]);
    assert [l, r][..1] == [l];
    assert ClearedAll([l, r], x) == [l, Leaf([])];
    TrimmedAllOne(l, x);
    assert TrimmedAll([l, r], x) == [l];
    FlatAllOne(l);
    var c, t := Value(2, 1, Branch([l, Leaf([])])), Value(2, 1, Branch([l]));
    if c.RootHash() == t.RootHash() {
      RootHashInjective(c, t);
    }
  }

  // --------------------------------------------------------------- any run

  /** Any operation; appends take one hash at a time. */
  datatype Op = Edit(edit: Edit) | DeleteAll(x: Hash) | Push(x: Hash) | Renew

  function Done(s: seq<Hash>, op: Op): seq<Hash> {
    match op
    case Edit(e) => Edited(s, e)
    case DeleteAll(x) => Others(s, x)
    case Push(x) => s + [x]
    case Renew => s
  }

  function DoneAll(s: seq<Hash>, ops: seq<Op>): seq<Hash> {
    if ops == [] then s else Done(DoneAll(s, ops[..|ops| - 1]), ops[|ops| - 1])
  }

  method Perform(r: Refs, pack: Pack, op: Op)
    requires r.Valid(pack) && !r.flags.lazyUpdating
    modifies r, r.G.Keys, r.E.Keys, pack`objects
    ensures r.Valid(pack) && r.Fresh() && r.flags == old(r.flags) && |r.iterators| == old(|r.iterators|)
    ensures Flat(r.Tree()) == Done(old(Flat(r.Tree())), op)
  {
    hide Addressed, Flat, FlatAll, WF, SetAt, DeleteAt, Settled, NoBlanks, MinDepth, PackedMin, AppendAll, Others,
      AppendKeepsHashes, AppendStaysActual, Fits;
    ghost var t, d, h := r.Tree(), r.degree, r.depth;
    var err;
    match op
    case Edit(SetHash(i, x)) =>
      if 0 <= i < Len(t) {
        SetAtIsUpdate(t, i, x);
      }
      err := r.SetHashByIndex(pack, i, x);
    case Edit(Delete(i)) =>
      if 0 <= i < Len(t) {
        DeleteAtIsRemoval(t, i);
        SettledFlat(false, DeleteAt(t, i), h);
      }
      RewoundLen(r.iterators);
      err := r.DeleteByIndex(pack, i);
    case DeleteAll(x) =>
      err := r.DeleteByHash(pack, x);
    case Push(x) =>
      PushIs(t, d, h, x);
      err := r.AppendHashes(pack, [x]);
    case Renew =>
      err := r.Rebuild(pack);
  }

  /** One hash can always be appended without missing a hash. */
  lemma PushIs(t: Tree, d: nat, h: nat, x: Hash)
    requires ValidDegree(d) && WF(t, d, h)
    ensures AppendStaysActual(t, d, h, |[x]|)
    ensures Fits(t, d, h, |[x]|) ==> Flat(AppendAll(t, d, h, [x])) == Flat(t) + [x]
    ensures Flat(PackedMin(d, Flat(t) + [x])) == Flat(t) + [x]
  {
    OneKeepsHashes(t, d, h);
    PackedFlatMin(d, Flat(t) + [x]);
  }

  /** Any run with hashes updated at once leaves the sequence it should, under its hash. */
  method Run(r: Refs, pack: Pack, ops: seq<Op>)
    requires r.Valid(pack) && !r.flags.lazyUpdating
    modifies r, r.G.Keys, r.E.Keys, pack`objects
    ensures r.Valid(pack) && Flat(r.Tree()) == DoneAll(old(Flat(r.Tree())), ops)
    ensures Current(r.hash, Value(r.degree, r.depth, r.Tree()), pack.objects) && HashesActual(r.root, r.G)
  {
    hide Addressed, Flat, FlatAll, WF, SetAt, DeleteAt, Settled, NoBlanks, MinDepth, PackedMin;
    ghost var s := Flat(r.Tree());
    for k := 0 to |ops|
      invariant r.Valid(pack) && r.Fresh() && !r.flags.lazyUpdating
      invariant Flat(r.Tree()) == DoneAll(s, ops[..k])
    {
      Perform(r, pack, ops[k]);
      assert ops[..k + 1][..k] == ops[..k];
    }
    assert ops[..|ops|] == ops;
    CleanActual(r.root, r.G, r.flags, pack.objects);
  }

  /** ... so that loading it again gives the same sequence. */
  method RunAndReload(r: Refs, pack: Pack, ops: seq<Op>)
    requires r.Valid(pack) && !r.flags.lazyUpdating && r.iterators == []
    modifies r, r.G.Keys, r.E.Keys, pack`objects
    ensures r.Valid(pack) && Flat(r.Tree()) == DoneAll(old(Flat(r.Tree())), ops)
  {
    hide Addressed, Flat, FlatAll, WF, SetAt, DeleteAt, Settled, NoBlanks, MinDepth, PackedMin;
    Run(r, pack, ops);
    var err := r.Reload(pack);
  }

  // ------------------------------------------------------------------ chunks

  function Concat(chunks: seq<seq<Hash>>): seq<Hash> {
    if chunks == [] then [] else Concat(chunks[..|chunks| - 1]) + chunks[|chunks| - 1]
  }

  /** The tree of the elements, left-packed and of the least depth. */
  ghost predicate Canonical(v: Value, es: seq<Hash>) {
    v.degree >= 2 && v.depth == MinDepth(v.degree, |es|) && v.tree == PackedMin(v.degree, es)
  }

  /** A canonical tree stays canonical wherever the appended hashes go. */
  lemma AppendCanonical(d: nat, es: seq<Hash>, xs: seq<Hash>)
    requires d >= 2
    ensures var h := MinDepth(d, |es|); var t := PackedMin(d, es);
            WF(t, d, h) && (Fits(t, d, h, |xs|) ==> Canonical(Value(d, h, AppendAll(t, d, h, xs)), es + xs))
  {
    var h, k := MinDepth(d, |es|), MinDepth(d, |es| + |xs|);
    PackedIs(d, h, es);
    if Fits(Packed(d, h, es), d, h, |xs|) {
      LeastDepthUnique(d, |es| + |xs|, h, k);
      AppendAllPacked(d, h, es, xs);
    }
  }

  /** No chunk runs past a subtree of depth two that it has changed. */
  predicate ChunksStayActual(d: nat, es: seq<Hash>, chunks: seq<seq<Hash>>)
    requires d >= 2
  {
    chunks == [] ||
    var n := |chunks| - 1;
    var s := es + Concat(chunks[..n]);
    ChunksStayActual(d, es, chunks[..n]) && ChunkStaysActual(d, s, |chunks[n]|)
  }

  predicate ChunkStaysActual(d: nat, es: seq<Hash>, n: nat)
    requires d >= 2
  {
    PackedWF(d, MinDepth(d, |es|), es);
    AppendStaysActual(PackedMin(d, es), d, MinDepth(d, |es|), n)
  }

  /** Free places in the last of the blocks of `c` that `n` elements take. */
  function Room(c: nat, n: nat): nat
    requires c >= 1
  {
    if n == 0 then 0 else if n <= c then c - n else Room(c, n - c)
  }

  lemma {:induction false} RoomSkips(c: nat, n: nat, k: nat)
    requires c >= 1 && n > Times(c, k)
    ensures Room(c, n) == Room(c, n - Times(c, k))
  {
    if k > 0 {
      RoomSkips(c, n - c, k - 1);
    }
  }

  /** A full subtree of depth two or more is made of full subtrees of depth two. */
  lemma {:induction false} Blocks(d: nat, h: nat) returns (k: nat)
    requires h >= 3
    ensures Cap(d, h) == Cap(d, 3) * k
  {
    if h == 3 {
      k := 1;
    } else {
      k := Blocks(d, h - 1);
      TimesIs(Cap(d, h - 1), d);
      assert Cap(d, 3) * k * d == Cap(d, 3) * (k * d);
      k := k * d;
    }
  }

  /** The room in the tail subtree of depth two, counted from the length alone. */
  lemma {:induction false} PackedFreeTwo(d: nat, h: nat, es: seq<Hash>)
    requires d >= 1 && h >= 2 && es != [] && |es| <= Cap(d, h + 1)
    ensures WF(Packed(d, h, es), d, h)
    ensures Cap(d, 3) >= 1 && FreeTwo(Packed(d, h, es), d, h) == Room(Cap(d, 3), |es|)
    decreases h, 1, |es|
  {
    CapPositive(d, 3);
    PackedIs(d, h, es);
    if h > 2 {
      PackedKidsFreeTwo(d, h - 1, es, d);
    }
  }

  lemma {:induction false} PackedKidsFreeTwo(d: nat, h: nat, es: seq<Hash>, w: nat)
    requires d >= 1 && h >= 2 && es != [] && |es| <= Times(Cap(d, h + 1), w)
    ensures var ks := PackedKids(d, h, es);
            ks != [] && WF(ks[|ks| - 1], d, h) && Cap(d, 3) >= 1 && FreeTwo(ks[|ks| - 1], d, h) == Room(Cap(d, 3), |es|)
    decreases h, 2, |es|
  {
    hide Times, Cap, Packed, FreeTwo;
    var c := Cap(d, h + 1);
    CapPositive(d, h + 1);
    TimesIs(c, w);
    if |es| <= c {
      PackedFreeTwo(d, h, es);
    } else {
      TimesIs(c, w - 1);
      assert c * w == c * (w - 1) + c;
      PackedKidsFreeTwo(d, h, es[c..], w - 1);
      var k := Blocks(d, h + 1);
      TimesIs(Cap(d, 3), k);
      RoomSkips(Cap(d, 3), |es|, k);
    }
  }

  /** When a chunk leaves all hashes actual, counted from lengths alone. */
  lemma ChunkCondition(d: nat, es: seq<Hash>, n: nat)
    requires d >= 2
    ensures Cap(d, 3) >= 1
    ensures ChunkStaysActual(d, es, n) <==>
              var h, c := MinDepth(d, |es|), Cap(d, 3);
              h <= 2 || |es| + n > Cap(d, h + 1) || n <= Room(c, |es|) || (Room(c, |es|) == 0 && n <= c)
  {
    var h := MinDepth(d, |es|);
    CapPositive(d, 3);
    PackedIs(d, h, es);
    if h > 2 {
      assert Cap(d, 1) < |es|;
      PackedFreeTwo(d, h, es);
    }
  }

  /** One hash at a time is always fine, and so is everything at once from a blank Refs. */
  lemma SinglesStay(d: nat, es: seq<Hash>, xs: seq<Hash>)
    requires d >= 2
    ensures ChunksStayActual(d, es, Singles(xs)) && Concat(Singles(xs)) == xs
  {
    if xs != [] {
      var n := |xs| - 1;
      var s := es + Concat(Singles(xs[..n]));
      SinglesStay(d, es, xs[..n]);
      PackedWF(d, MinDepth(d, |s|), s);
      OneKeepsHashes(PackedMin(d, s), d, MinDepth(d, |s|));
    }
  }

  function Singles(xs: seq<Hash>): (r: seq<seq<Hash>>)
    ensures |r| == |xs|
  {
    if xs == [] then [] else Singles(xs[..|xs| - 1]) + [[xs[|xs| - 1]]]
  }

  lemma AtOnceStays(d: nat, xs: seq<Hash>)
    requires d >= 2
    ensures ChunksStayActual(d, [], [xs]) && Concat([xs]) == xs
  {
    assert [xs][..0] == [] && Concat([]) == [];
    LeastDepthUnique(d, 0, MinDepth(d, 0), 0);
  }

  /** Eight hashes after seventeen, with two to a node, run past a changed subtree and leave it with the hash it had. */
  lemma EightAfterSeventeen(es: seq<Hash>)
    requires |es| == 17
    ensures !ChunkStaysActual(2, es, 8)
  {
    assert Cap(2, 1) == 2 && Cap(2, 2) == 4 && Cap(2, 3) == 8;
    assert Cap(2, 4) == 16;
    assert Cap(2, 5) == 32;
    assert LeastDepth(2, 17, 4);
    LeastDepthUnique(2, 17, MinDepth(2, 17), 4);
    assert Room(8, 17) == Room(8, 9) == Room(8, 1) == 7;
    ChunkCondition(2, es, 8);
  }

  /** Appending chunk by chunk: the shape does not depend on how the hashes are split. */
  method AppendChunks(r: Refs, pack: Pack, chunks: seq<seq<Hash>>, ghost es: seq<Hash>)
    requires r.Sound(pack) && Canonical(Value(r.degree, r.depth, r.Tree()), es)
    modifies r, r.G.Keys, r.E.Keys, pack`objects
    ensures r.Sound(pack) && r.degree == old(r.degree) && r.flags == old(r.flags)
      && Canonical(Value(r.degree, r.depth, r.Tree()), es + Concat(chunks))
    ensures old(r.UpToDate(pack)) && ChunksStayActual(r.degree, es, chunks) ==> r.UpToDate(pack)
  {
    hide Addressed, Flat, FlatAll, WF, MinDepth, Packed, AppendAll, AppendStaysActual, Fits, AppendKeepsHashes,
      HashesActual, EachClean, HashOf, Links, Indexes, MirrorAll, EachOk, ContentAddressed, Current;
    ghost var d, clean := r.degree, r.UpToDate(pack);
    assert es + Concat([]) == es;
    for k := 0 to |chunks|
      invariant r.Sound(pack) && r.Fresh() && r.degree == d && r.flags == old(r.flags)
        && Canonical(Value(d, r.depth, r.Tree()), es + Concat(chunks[..k]))
      invariant clean && ChunksStayActual(d, es, chunks[..k]) ==> r.UpToDate(pack)
    {
      ghost var s := es + Concat(chunks[..k]);
      assert chunks[..k + 1][..k] == chunks[..k];
      assert s + chunks[k] == es + Concat(chunks[..k + 1]);
      AppendCanonical(d, s, chunks[k]);
      PackedFlatMin(d, s);
      var err := r.AppendHashes(pack, chunks[k]);
    }
    assert chunks[..|chunks|] == chunks;
  }

  /** One at a time or all at once: the hash is the same for every list of hashes. */
  method OneByOneOrAtOnce(pack: Pack, degree: nat, flags: Flags, xs: seq<Hash>) returns (one: Refs, all: Refs)
    requires pack.Valid() && ValidDegree(degree)
    modifies pack`objects
    ensures one.hash == all.hash == Value(degree, MinDepth(degree, |xs|), PackedMin(degree, xs)).RootHash()
  {
    hide Addressed, Flat, FlatAll, WF, MinDepth, Packed, HashesActual, EachClean, HashOf, Links, Indexes, MirrorAll,
      EachOk, ContentAddressed, Concat, ValueStored;
    SinglesStay(degree, [], xs);
    AtOnceStays(degree, xs);
    assert [] + xs == xs;
    one := Refs.Make(pack, degree, flags, [], []);
    ghost var none: seq<Hash> := [];
    assert none + none == none;
    AppendChunks(one, pack, Singles(xs), []);
    all := Refs.Make(pack, degree, flags, [], []);
    AppendChunks(all, pack, [xs], []);
  }

  /** Seventeen hashes with two to a node, and then eight at once: a node is left with a hash that is not its own. */
  method MissedHash(pack: Pack, flags: Flags, es: seq<Hash>, xs: seq<Hash>) returns (r: Refs)
    requires pack.Valid() && |es| == 17 && |xs| == 8
    modifies pack`objects
    ensures r.Sound(pack) && Flat(r.Tree()) == es + xs && !HashesActual(r.root, r.G)
  {
    hide Addressed, Flat, FlatAll, WF, MinDepth, Packed, HashesActual, EachClean, HashOf, Links, Indexes, MirrorAll,
      EachOk, ContentAddressed, Current;
    assert es + [] == es;
    r := Refs.Make(pack, 2, flags, es, []);
    EightAfterSeventeen(es);
    PackedFlatMin(2, es);
    AppendCanonical(2, es, xs);
    var err := r.AppendHashes(pack, xs);
  }
}
