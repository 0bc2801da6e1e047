/**
 The value of a Refs tree: a tree of fan-out at most `d` (the degree) whose
 leaves, read left to right, are the sequence of hashes the Refs stands for.
 The operations here are the specifications of the in-place operations of
 module RefsHeap; the lemmas say what they mean for the sequence.
 */
module Trees {
  import opened Hashing
  import opened Powers

  datatype Tree = Leaf(es: seq<Hash>) | Branch(kids: seq<Tree>)

  // ---------------------------------------------------------------- sequence

  /** The hashes of the tree from left to right. */
  function Flat(t: Tree): seq<Hash> {
    match t
    case Leaf(es) => es
    case Branch(kids) => FlatAll(kids)
  }

  function FlatAll(ks: seq<Tree>): seq<Hash> {
    if ks == [] then [] else FlatAll(ks[..|ks| - 1]) + Flat(ks[|ks| - 1])
  }

  function Len(t: Tree): nat {
    |Flat(t)|
  }

  lemma FlatLeaf(es: seq<Hash>)
    ensures Flat(Leaf(es)) == es
  {
  }

  lemma FlatBranch(ks: seq<Tree>)
    ensures Flat(Branch(ks)) == FlatAll(ks)
  {
  }

  lemma {:induction false} FlatAllConcat(a: seq<Tree>, b: seq<Tree>)
    ensures FlatAll(a + b) == FlatAll(a) + FlatAll(b)
  {
    if b == [] {
      assert a + b == a;
    } else {
      var n := |b| - 1;
      assert (a + b)[..|a + b| - 1] == a + b[..n];
      FlatAllConcat(a, b[..n]);
    }
  }

  lemma FlatAllPrefix(ks: seq<Tree>, j: nat)
    requires j < |ks|
    ensures FlatAll(ks[..j + 1]) == FlatAll(ks[..j]) + Flat(ks[j])
  {
    assert ks[..j + 1][..j] == ks[..j];
  }

  lemma FlatAllAt(ks: seq<Tree>, j: nat)
    requires j < |ks|
    ensures FlatAll(ks) == FlatAll(ks[..j]) + Flat(ks[j]) + FlatAll(ks[j + 1..])
  {
    var a, b := ks[..j + 1], ks[j + 1..];
    assert ks == a + b;
    FlatAllConcat(a, b);
    FlatAllPrefix(ks, j);
  }

  lemma FlatAllNone()
    ensures FlatAll([]) == []
  {
  }

  lemma FlatAllOne(t: Tree)
    ensures FlatAll([t]) == Flat(t)
  {
    assert [t][..0] == [];
    assert FlatAll([]) == [];
  }

  lemma FlatAllSnoc(ks: seq<Tree>, t: Tree)
    ensures FlatAll(ks + [t]) == FlatAll(ks) + Flat(t)
  {
    assert (ks + [t])[..|ks|] == ks;
  }

  // ------------------------------------------------------------------- shape

  /** All leaves at depth `h`, no node wider than `d`. */
  ghost predicate WF(t: Tree, d: nat, h: nat) {
    if h == 0 then
      t.Leaf? && |t.es| <= d
    else
      t.Branch? && |t.kids| <= d && forall i | 0 <= i < |t.kids| :: WF(t.kids[i], d, h - 1)
  }

  /** No node below this one is empty. */
  ghost predicate NoBlanks(t: Tree) {
    t.Branch? ==> forall i | 0 <= i < |t.kids| :: Len(t.kids[i]) > 0 && NoBlanks(t.kids[i])
  }

  function Empty(h: nat): Tree {
    if h == 0 then Leaf([]) else Branch([])
  }

  lemma {:induction false} LenBound(t: Tree, d: nat, h: nat)
    requires WF(t, d, h)
    ensures Len(t) <= Cap(d, h + 1)
    decreases h, 0
  {
    if h == 0 {
      CapBase(d);
    } else {
      LenAllBound(t.kids, d, h);
      TimesMono(Cap(d, h), |t.kids|, d);
    }
  }

  lemma {:induction false} LenAllBound(ks: seq<Tree>, d: nat, h: nat)
    requires h > 0 && forall i | 0 <= i < |ks| :: WF(ks[i], d, h - 1)
    ensures |FlatAll(ks)| <= Times(Cap(d, h), |ks|)
    decreases h - 1, 1, |ks|
  {
    if ks != [] {
      var n := |ks| - 1;
      LenBound(ks[n], d, h - 1);
      LenAllBound(ks[..n], d, h);
    }
  }

  // ---------------------------------------------------------- access by index

  /** The branch holding the i-th element: skip branches while i is past them. */
  function Locate(ks: seq<Tree>, i: nat): (j: nat)
    requires i < |FlatAll(ks)|
    ensures j < |ks|
    ensures |FlatAll(ks[..j])| <= i < |FlatAll(ks[..j])| + Len(ks[j])
  {
    var n := |ks| - 1;
    if i >= |FlatAll(ks[..n])| then n
    else
      var j := Locate(ks[..n], i);
      assert ks[..n][..j] == ks[..j];
      j
  }

  lemma {:induction false} PrefixMono(ks: seq<Tree>, a: nat, b: nat)
    requires a <= b <= |ks|
    ensures |FlatAll(ks[..a])| <= |FlatAll(ks[..b])|
    decreases b
  {
    if a < b {
      FlatAllPrefix(ks, b - 1);
      PrefixMono(ks, a, b - 1);
    }
  }

  lemma LocateUnique(ks: seq<Tree>, i: nat, j: nat)
    requires j < |ks| && |FlatAll(ks[..j])| <= i < |FlatAll(ks[..j])| + Len(ks[j])
    ensures i < |FlatAll(ks)| && Locate(ks, i) == j
  {
    FlatAllPrefix(ks, j);
    PrefixMono(ks, j + 1, |ks|);
    assert ks[..|ks|] == ks;
    var l := Locate(ks, i);
    FlatAllPrefix(ks, l);
    if l < j {
      PrefixMono(ks, l + 1, j);
    } else if j < l {
      PrefixMono(ks, j + 1, l);
    }
  }

  /** Branches skipped one by one, starting with the j-th: where the search stops, and what is left of `i`. */
  function Skip(ks: seq<Tree>, j: nat, i: nat): (nat, nat)
    decreases |ks| - j
  {
    if j + 1 >= |ks| || i < Len(ks[j]) then (j, i) else Skip(ks, j + 1, i - Len(ks[j]))
  }

  lemma {:induction false} SkipFinds(ks: seq<Tree>, j: nat, i: nat)
    requires j < |ks| && |FlatAll(ks[..j])| <= i < |FlatAll(ks)|
    ensures var l := Locate(ks, i); Skip(ks, j, i - |FlatAll(ks[..j])|) == (l, i - |FlatAll(ks[..l])|)
    decreases |ks| - j
  {
    FlatAllPrefix(ks, j);
    var rest := i - |FlatAll(ks[..j])|;
    if j + 1 == |ks| {
      assert ks[..j + 1] == ks;
    }
    if rest < Len(ks[j]) {
      LocateUnique(ks, i, j);
    } else {
      SkipFinds(ks, j + 1, i);
    }
  }

  lemma SkipLocates(ks: seq<Tree>, i: nat)
    requires i < |FlatAll(ks)|
    ensures var l := Locate(ks, i);
            Skip(ks, 0, i) == (l, i - |FlatAll(ks[..l])|) && i - |FlatAll(ks[..l])| < Len(ks[l])
  {
    assert ks[..0] == [];
    SkipFinds(ks, 0, i);
  }

  lemma SkipStep(ks: seq<Tree>, j: nat, i: nat)
    requires j < |ks|
    ensures i < Len(ks[j]) ==> Skip(ks, j, i) == (j, i)
    ensures i >= Len(ks[j]) && j + 1 < |ks| ==> Skip(ks, j, i) == Skip(ks, j + 1, i - Len(ks[j]))
    ensures i >= Len(ks[j]) && j + 1 == |ks| ==> Skip(ks, j, i) == (j, i)
  {
  }

  /** Replace the i-th element. */
  function SetAt(t: Tree, i: nat, x: Hash): Tree
    requires i < Len(t)
    decreases t
  {
    match t
    case Leaf(es) => Leaf(es[i := x])
    case Branch(kids) =>
      var j := Locate(kids, i);
      Branch(kids[j := SetAt(kids[j], i - |FlatAll(kids[..j])|, x)])
  }

  /** Remove the i-th element; a branch that becomes empty goes too. */
  function DeleteAt(t: Tree, i: nat): Tree
    requires i < Len(t)
    decreases t
  {
    match t
    case Leaf(es) => Leaf(es[..i] + es[i + 1..])
    case Branch(kids) =>
      var j := Locate(kids, i);
      var k := DeleteAt(kids[j], i - |FlatAll(kids[..j])|);
      if Len(k) == 0 then Branch(kids[..j] + kids[j + 1..]) else Branch(kids[j := k])
  }

  /** Remove the i-th element leaving emptied branches in place. */
  function RemoveAt(t: Tree, i: nat): Tree
    requires i < Len(t)
    decreases t
  {
    match t
    case Leaf(es) => Leaf(es[..i] + es[i + 1..])
    case Branch(kids) =>
      var j := Locate(kids, i);
      Branch(kids[j := RemoveAt(kids[j], i - |FlatAll(kids[..j])|)])
  }

  /** Setting and removing inside a branch, seen from the node. */
  lemma AtKid(ks: seq<Tree>, j: nat, k: nat, x: Hash)
    requires j < |ks| && k < Len(ks[j])
    ensures var i := |FlatAll(ks[..j])| + k;
            i < |FlatAll(ks)| && FlatAll(ks)[i] == Flat(ks[j])[k]
            && SetAt(Branch(ks), i, x) == Branch(ks[j := SetAt(ks[j], k, x)])
            && RemoveAt(Branch(ks), i) == Branch(ks[j := RemoveAt(ks[j], k)])
  {
    var i := |FlatAll(ks[..j])| + k;
    LocateUnique(ks, i, j);
    FlatAllAt(ks, j);
  }

  lemma SliceSnoc<T>(s: seq<T>, i: nat)
    requires i < |s|
    ensures s[..i + 1] == s[..i] + [s[i]]
  {
  }

  function Without<T>(s: seq<T>, i: nat): seq<T>
    requires i < |s|
  {
    s[..i] + s[i + 1..]
  }

  lemma FlatAllUpdate(ks: seq<Tree>, j: nat, k: Tree)
    requires j < |ks|
    ensures FlatAll(ks[j := k]) == FlatAll(ks[..j]) + Flat(k) + FlatAll(ks[j + 1..])
  {
    FlatAllAt(ks[j := k], j);
    assert ks[j := k][..j] == ks[..j];
    assert ks[j := k][j + 1..] == ks[j + 1..];
  }

  lemma WithoutMiddle<T>(a: seq<T>, b: seq<T>, c: seq<T>, i: nat)
    requires i < |b|
    ensures Without(a + b + c, |a| + i) == a + Without(b, i) + c
  {
  }

  lemma UpdateMiddle<T>(a: seq<T>, b: seq<T>, c: seq<T>, i: nat, x: T)
    requires i < |b|
    ensures (a + b + c)[|a| + i := x] == a + b[i := x] + c
  {
  }

  lemma {:induction false} SetAtIsUpdate(t: Tree, i: nat, x: Hash)
    requires i < Len(t)
    ensures Flat(SetAt(t, i, x)) == Flat(t)[i := x]
    decreases t
  {
    hide FlatAll;
    if t.Branch? {
      FlatBranch(t.kids);
      var j := Locate(t.kids, i);
      var a, b, c := FlatAll(t.kids[..j]), Flat(t.kids[j]), FlatAll(t.kids[j + 1..]);
      var k := SetAt(t.kids[j], i - |a|, x);
      SetAtIsUpdate(t.kids[j], i - |a|, x);
      FlatAllAt(t.kids, j);
      FlatAllUpdate(t.kids, j, k);
      FlatBranch(t.kids[j := k]);
      UpdateMiddle(a, b, c, i - |a|, x);
    }
  }

  lemma {:induction false} DeleteAtIsRemoval(t: Tree, i: nat)
    requires i < Len(t)
    ensures Flat(DeleteAt(t, i)) == Without(Flat(t), i)
    decreases t
  {
    hide FlatAll;
    if t.Branch? {
      FlatBranch(t.kids);
      var j := Locate(t.kids, i);
      var a, b, c := FlatAll(t.kids[..j]), Flat(t.kids[j]), FlatAll(t.kids[j + 1..]);
      var k := DeleteAt(t.kids[j], i - |a|);
      DeleteAtIsRemoval(t.kids[j], i - |a|);
      FlatAllAt(t.kids, j);
      WithoutMiddle(a, b, c, i - |a|);
      if Len(k) == 0 {
        FlatAllConcat(t.kids[..j], t.kids[j + 1..]);
        FlatBranch(t.kids[..j] + t.kids[j + 1..]);
        assert a + Flat(k) + c == a + c;
      } else {
        FlatAllUpdate(t.kids, j, k);
        FlatBranch(t.kids[j := k]);
      }
    }
  }

  lemma {:induction false} RemoveAtIsRemoval(t: Tree, i: nat)
    requires i < Len(t)
    ensures Flat(RemoveAt(t, i)) == Without(Flat(t), i)
    decreases t
  {
    hide FlatAll;
    if t.Branch? {
      FlatBranch(t.kids);
      var j := Locate(t.kids, i);
      var a, b, c := FlatAll(t.kids[..j]), Flat(t.kids[j]), FlatAll(t.kids[j + 1..]);
      var k := RemoveAt(t.kids[j], i - |a|);
      RemoveAtIsRemoval(t.kids[j], i - |a|);
      FlatAllAt(t.kids, j);
      FlatAllUpdate(t.kids, j, k);
      FlatBranch(t.kids[j := k]);
      WithoutMiddle(a, b, c, i - |a|);
    }
  }

  lemma {:induction false} SetAtShape(t: Tree, i: nat, x: Hash, d: nat, h: nat)
    requires i < Len(t) && WF(t, d, h)
    ensures WF(SetAt(t, i, x), d, h)
    ensures NoBlanks(t) ==> NoBlanks(SetAt(t, i, x))
    decreases t
  {
    if t.Branch? {
      var j := Locate(t.kids, i);
      var off := |FlatAll(t.kids[..j])|;
      SetAtShape(t.kids[j], i - off, x, d, h - 1);
      SetAtIsUpdate(t.kids[j], i - off, x);
    }
  }

  lemma {:induction false} DeleteAtShape(t: Tree, i: nat, d: nat, h: nat)
    requires i < Len(t) && WF(t, d, h)
    ensures WF(DeleteAt(t, i), d, h)
    ensures NoBlanks(t) ==> NoBlanks(DeleteAt(t, i))
    decreases t
  {
    if t.Branch? {
      var j := Locate(t.kids, i);
      var off := |FlatAll(t.kids[..j])|;
      DeleteAtShape(t.kids[j], i - off, d, h - 1);
    }
  }

  lemma {:induction false} RemoveAtShape(t: Tree, i: nat, d: nat, h: nat)
    requires i < Len(t) && WF(t, d, h)
    ensures WF(RemoveAt(t, i), d, h)
    decreases t
  {
    if t.Branch? {
      var j := Locate(t.kids, i);
      RemoveAtShape(t.kids[j], i - |FlatAll(t.kids[..j])|, d, h - 1);
    }
  }
}
