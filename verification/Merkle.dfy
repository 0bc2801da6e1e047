/**
 The Merkle encoding of a Refs tree: the hash a tree has, what a Pack must hold
 for it, and reading it back.
 */
module Merkle {
  import opened Hashing
  import opened Powers
  import opened Trees
  import opened Growth

  datatype Option<T> = None | Some(value: T)

  // ------------------------------------------------------------------ hashes

  /** The hashes a node's encoding lists: leaf hashes or branch hashes. */
  function Elements(t: Tree): seq<Hash>
    decreases t, 0
  {
    match t
    case Leaf(es) => es
    case Branch(kids) => HashAll(kids)
  }

  function NodeEncoding(t: Tree): Blob
    decreases t, 1
  {
    NodeBlob(Len(t), Elements(t))
  }

  function HashOf(t: Tree): Hash
    decreases t, 2
  {
    Sum(NodeEncoding(t))
  }

  function HashAll(ks: seq<Tree>): (hs: seq<Hash>)
    ensures |hs| == |ks|
    ensures forall i | 0 <= i < |ks| :: hs[i] == HashOf(ks[i])
  {
    if ks == [] then [] else
      var n := |ks| - 1;
      HashAll(ks[..n]) + [HashOf(ks[n])]
  }

  /** What a Refs value is: its degree, its depth and its tree. */
  datatype Value = Value(degree: nat, depth: nat, tree: Tree) {
    ghost predicate Valid() {
      ValidDegree(degree) && WF(tree, degree, depth)
    }

    function Seq(): seq<Hash> {
      Flat(tree)
    }

    function RootEncoding(): Blob {
      RootBlob(depth, degree, Len(tree), Elements(tree))
    }

    /** The hash that represents the value: blank iff there are no elements. */
    function RootHash(): Hash {
      if Len(tree) == 0 then Blank else Sum(RootEncoding())
    }
  }

  /** A node hash tells the whole subtree. */
  lemma {:induction false} HashOfInjective(a: Tree, b: Tree, d: nat, h: nat)
    requires WF(a, d, h) && WF(b, d, h) && HashOf(a) == HashOf(b)
    ensures a == b
    decreases h, 1
  {
    ElementsInjective(a, b, d, h);
  }

  lemma {:induction false} ElementsInjective(a: Tree, b: Tree, d: nat, h: nat)
    requires WF(a, d, h) && WF(b, d, h) && Elements(a) == Elements(b)
    ensures a == b
    decreases h, 0
  {
    if h > 0 {
      forall i | 0 <= i < |a.kids|
        ensures a.kids[i] == b.kids[i]
      {
        assert HashAll(a.kids)[i] == HashAll(b.kids)[i];
        HashOfInjective(a.kids[i], b.kids[i], d, h - 1);
      }
      assert |HashAll(a.kids)| == |HashAll(b.kids)|;
    }
  }

  /** Equal non-blank root hashes mean equal values: the hash represents the Refs. */
  lemma RootHashInjective(a: Value, b: Value)
    requires a.Valid() && b.Valid() && a.RootHash() == b.RootHash()
    ensures (Len(a.tree) == 0 && Len(b.tree) == 0) || a == b
  {
    if Len(a.tree) != 0 && Len(b.tree) != 0 {
      ElementsInjective(a.tree, b.tree, a.degree, a.depth);
    }
  }

  // ----------------------------------------------------------------- storage

  /** The hashes of a node and of all nodes below it. */
  function NodeHashes(t: Tree): set<Hash>
    decreases t, 1
  {
    {HashOf(t)} + KidHashes(t)
  }

  function KidHashes(t: Tree): set<Hash>
    decreases t, 0
  {
    match t
    case Leaf(_) => {}
    case Branch(kids) => AllHashes(kids)
  }

  function AllHashes(ks: seq<Tree>): set<Hash> {
    if ks == [] then {} else AllHashes(ks[..|ks| - 1]) + NodeHashes(ks[|ks| - 1])
  }

  /** The node and all nodes below it are in the Pack. */
  ghost predicate Stored(objects: Objects, t: Tree) {
    NodeHashes(t) <= objects.Keys
  }

  ghost predicate ValueStored(objects: Objects, v: Value) {
    Len(v.tree) == 0 || (v.RootHash() in objects && KidHashes(v.tree) <= objects.Keys)
  }

  lemma StoredHash(objects: Objects, t: Tree)
    requires Stored(objects, t)
    ensures HashOf(t) in objects && KidHashes(t) <= objects.Keys
  {
  }

  lemma CleanTree(t: Tree, objects: Objects)
    requires HashOf(t) in objects && KidHashes(t) <= objects.Keys
    ensures Stored(objects, t) && HashOf(t) == Sum(NodeBlob(Len(t), Elements(t)))
  {
  }

  lemma {:induction false} AllHashesAre(ks: seq<Tree>, objects: Objects, i: nat)
    requires AllHashes(ks) <= objects.Keys && i < |ks|
    ensures Stored(objects, ks[i])
  {
    var n := |ks| - 1;
    if i < n {
      AllHashesAre(ks[..n], objects, i);
    }
  }

  lemma {:induction false} AllHashesStored(ks: seq<Tree>, objects: Objects)
    requires forall i | 0 <= i < |ks| :: Stored(objects, ks[i])
    ensures AllHashes(ks) <= objects.Keys
  {
    if ks != [] {
      var n := |ks| - 1;
      AllHashesStored(ks[..n], objects);
      assert Stored(objects, ks[n]);
    }
  }

  /** The branches of a stored node are stored. */
  lemma KidsStored(ks: seq<Tree>, objects: Objects)
    requires AllHashes(ks) <= objects.Keys
    ensures forall i | 0 <= i < |ks| :: Stored(objects, ks[i])
  {
    forall i | 0 <= i < |ks|
      ensures Stored(objects, ks[i])
    {
      AllHashesAre(ks, objects, i);
    }
  }

  // ----------------------------------------------------------------- reading

  /** Read the subtree of depth `h` with the given hash; None if anything is missing or malformed. */
  function ReadTree(objects: Objects, hash: Hash, h: nat): Option<Tree>
    decreases h, 0
  {
    if hash !in objects || !objects[hash].NodeBlob? then None
    else ReadElements(objects, objects[hash].length, objects[hash].elements, h)
  }

  /** Read what the encoding of a node of depth `h` lists. */
  function ReadElements(objects: Objects, length: int, elements: seq<Hash>, h: nat): Option<Tree>
    decreases h, 0, 0
  {
    if h == 0 then
      if length == |elements| then Some(Leaf(elements)) else None
    else
      var kids := ReadAll(objects, elements, h - 1);
      if kids.Some? && length == |FlatAll(kids.value)| then Some(Branch(kids.value)) else None
  }

  function ReadAll(objects: Objects, elements: seq<Hash>, h: nat): (r: Option<seq<Tree>>)
    ensures r.Some? ==> |r.value| == |elements|
    ensures r.Some? ==> forall i | 0 <= i < |elements| :: ReadTree(objects, elements[i], h) == Some(r.value[i])
    ensures r.None? ==> exists i :: 0 <= i < |elements| && ReadTree(objects, elements[i], h).None?
    decreases h, 1, |elements|
  {
    if elements == [] then Some([])
    else
      var n := |elements| - 1;
      var most, last := ReadAll(objects, elements[..n], h), ReadTree(objects, elements[n], h);
      if most.Some? && last.Some? then Some(most.value + [last.value])
      else
        assert most.None? ==> exists i :: 0 <= i < n && ReadTree(objects, elements[..n][i], h).None?;
        None
  }

  /** The value a Refs with the given hash has in a Pack; a blank one takes the default degree. */
  function ReadRoot(objects: Objects, hash: Hash, degree: nat): Option<Value> {
    if hash == Blank then Some(Value(degree, 0, Leaf([])))
    else if hash !in objects || !objects[hash].RootBlob? then None
    else
      var b := objects[hash];
      if b.length <= 0 || !ValidDegree(b.degree) || b.depth < 0 then None
      else
        match ReadElements(objects, b.length, b.elements, b.depth)
        case Some(t) => Some(Value(b.degree, b.depth, t))
        case None => None
  }

  lemma {:induction false} ReadBack(objects: Objects, t: Tree, d: nat, h: nat)
    requires ContentAddressed(objects) && WF(t, d, h) && Stored(objects, t)
    ensures ReadTree(objects, HashOf(t), h) == Some(t)
    decreases h, 1
  {
    assert objects[HashOf(t)] == NodeEncoding(t);
    ReadBackElements(objects, t, d, h);
  }

  lemma {:induction false} ReadBackElements(objects: Objects, t: Tree, d: nat, h: nat)
    requires ContentAddressed(objects) && WF(t, d, h) && KidHashes(t) <= objects.Keys
    ensures ReadElements(objects, Len(t), Elements(t), h) == Some(t)
    decreases h, 0
  {
    if h > 0 {
      var es := HashAll(t.kids);
      KidsStored(t.kids, objects);
      forall i | 0 <= i < |es|
        ensures ReadTree(objects, es[i], h - 1) == Some(t.kids[i])
      {
        ReadBack(objects, t.kids[i], d, h - 1);
      }
      var r := ReadAll(objects, es, h - 1);
      assert r.Some? && r.value == t.kids;
    }
  }

  /** What is read carries the hash it was read by, and all of it is stored. */
  lemma {:induction false} ReadIsStored(objects: Objects, hash: Hash, h: nat)
    requires ContentAddressed(objects) && ReadTree(objects, hash, h).Some?
    ensures var t := ReadTree(objects, hash, h).value; HashOf(t) == hash && Stored(objects, t)
    decreases h, 1
  {
    var b := objects[hash];
    ReadElementsStored(objects, b.length, b.elements, h);
  }

  lemma {:induction false} ReadElementsStored(objects: Objects, length: int, elements: seq<Hash>, h: nat)
    requires ContentAddressed(objects) && ReadElements(objects, length, elements, h).Some?
    ensures var t := ReadElements(objects, length, elements, h).value;
            Elements(t) == elements && Len(t) == length && KidHashes(t) <= objects.Keys
    decreases h, 0
  {
    if h > 0 {
      var kids := ReadAll(objects, elements, h - 1).value;
      forall i | 0 <= i < |elements|
        ensures HashOf(kids[i]) == elements[i] && Stored(objects, kids[i])
      {
        ReadIsStored(objects, elements[i], h - 1);
      }
      assert HashAll(kids) == elements;
      AllHashesStored(kids, objects);
    }
  }

  /** Reload round trip: a stored value is read back from its hash. */
  lemma RootRoundTrip(objects: Objects, v: Value, degree: nat)
    requires ContentAddressed(objects) && v.Valid() && ValueStored(objects, v)
    ensures var r := ReadRoot(objects, v.RootHash(), degree);
            r.Some? && r.value.Seq() == v.Seq() && (Len(v.tree) > 0 ==> r.value == v)
  {
    if Len(v.tree) > 0 {
      assert objects[v.RootHash()] == v.RootEncoding();
      ReadBackElements(objects, v.tree, v.degree, v.depth);
    }
  }

  // ------------------------------------------- when in-place append is Merkle

  /**
   Free space of the subtree of depth two on the tail (none if the spine does
   not reach that deep).
   */
  function FreeTwo(t: Tree, d: nat, h: nat): nat
    requires WF(t, d, h) && h >= 2
    decreases h
  {
    if h == 2 then Free(t, d, 2)
    else if t.kids == [] then 0
    else FreeTwo(t.kids[|t.kids| - 1], d, h - 1)
  }

  /**
   Appending `n` hashes in place leaves every node hash actual: the tree is
   shallow, or the appended hashes do not run past a subtree of depth two that
   they have changed.
   */
  predicate AppendKeepsHashes(t: Tree, d: nat, h: nat, n: nat)
    requires WF(t, d, h)
  {
    h <= 2 || n <= FreeTwo(t, d, h) || (FreeTwo(t, d, h) == 0 && n <= Cap(d, 3))
  }

  lemma {:induction false} ChainFreeTwo(d: nat, h: nat, x: Hash)
    requires d >= 1 && h >= 2
    ensures WF(Chain(h, x), d, h) && FreeTwo(Chain(h, x), d, h) == Cap(d, 3) - 1
  {
    ChainIs(d, h, x);
    if h > 2 {
      ChainIs(d, h - 1, x);
      ChainFreeTwo(d, h - 1, x);
    }
  }

  lemma {:induction false} FreeTwoBelow(t: Tree, d: nat, h: nat)
    requires WF(t, d, h) && h >= 2 && Free(t, d, h) == 0
    ensures FreeTwo(t, d, h) == 0
    decreases h
  {
    if h > 2 && t.kids != [] {
      FreeTwoBelow(t.kids[|t.kids| - 1], d, h - 1);
    }
  }

  /** Each append takes a place in the tail subtree of depth two, or opens a new one. */
  lemma {:induction false} AppendOneFreeTwo(t: Tree, d: nat, h: nat, x: Hash)
    requires d >= 1 && h >= 3 && WF(t, d, h) && Free(t, d, h) > 0
    ensures WF(AppendOne(t, d, h, x), d, h)
    ensures FreeTwo(AppendOne(t, d, h, x), d, h)
            == if FreeTwo(t, d, h) > 0 then FreeTwo(t, d, h) - 1 else Cap(d, 3) - 1
    decreases h
  {
    AppendOneWF(t, d, h, x);
    if FreeLast(t, d, h) > 0 {
      var last := t.kids[|t.kids| - 1];
      if h == 3 {
        AppendOneFree(last, d, 2, x);
      } else {
        AppendOneFreeTwo(last, d, h - 1, x);
      }
    } else {
      ChainFreeTwo(d, h - 1, x);
      if t.kids != [] {
        FreeTwoBelow(t.kids[|t.kids| - 1], d, h - 1);
      }
    }
  }

  /** One hash at a time is always fine. */
  lemma OneKeepsHashes(t: Tree, d: nat, h: nat)
    requires d >= 1 && WF(t, d, h)
    ensures AppendKeepsHashes(t, d, h, 1)
  {
    CapPositive(d, 3);
  }

  /** How much room the tail subtree of depth two has after appending. */
  lemma {:induction false} FreeTwoAll(t: Tree, d: nat, h: nat, xs: seq<Hash>)
    requires d >= 1 && h >= 3 && WF(t, d, h) && |xs| <= Free(t, d, h) && |xs| <= FreeTwo(t, d, h) + Cap(d, 3)
    ensures var f := FreeTwo(t, d, h);
            FreeTwo(AppendAll(t, d, h, xs), d, h) == if |xs| <= f then f - |xs| else f + Cap(d, 3) - |xs|
    decreases |xs|
  {
    if xs != [] {
      var n := |xs| - 1;
      FreeTwoAll(t, d, h, xs[..n]);
      AppendOneFreeTwo(AppendAll(t, d, h, xs[..n]), d, h, xs[n]);
    }
  }

  /** One more hash can be appended unless it opens a new subtree of depth two after the first hash. */
  lemma KeepsStep(t: Tree, d: nat, h: nat, xs: seq<Hash>)
    requires d >= 1 && WF(t, d, h) && |xs| <= Free(t, d, h) && AppendKeepsHashes(t, d, h, |xs|)
    ensures AppendKeepsHashes(t, d, h, |xs| + 1) <==> h <= 2 || xs == [] || FreeTwo(AppendAll(t, d, h, xs), d, h) > 0
  {
    if h >= 3 {
      CapPositive(d, 3);
      FreeTwoAll(t, d, h, xs);
    }
  }

  lemma KeepsFewer(t: Tree, d: nat, h: nat, n: nat)
    requires WF(t, d, h)
    ensures AppendKeepsHashes(t, d, h, n + 1) ==> AppendKeepsHashes(t, d, h, n)
  {
  }

  /** `n` more elements fit without making the tree deeper. */
  predicate Fits(t: Tree, d: nat, h: nat, n: nat)
    requires WF(t, d, h)
  {
    n <= Free(t, d, h)
  }

  /** Appending `n` elements, in place or to a deeper copy, leaves every node hash actual. */
  predicate AppendStaysActual(t: Tree, d: nat, h: nat, n: nat)
    requires WF(t, d, h)
  {
    Fits(t, d, h, n) ==> AppendKeepsHashes(t, d, h, n)
  }

  lemma NothingKeeps(t: Tree, d: nat, h: nat)
    requires WF(t, d, h)
    ensures AppendKeepsHashes(t, d, h, 0) && Fits(t, d, h, 0)
  {
  }
}
