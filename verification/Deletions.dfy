/** What deleting all elements with a hash makes of a tree. */
module Deletions {
  import opened Hashing
  import opened Trees
  import opened Visits

  // ------------------------------------------------------ emptied nodes stay

  /** The tree without `x`; nodes that get empty stay. */
  function Cleared(t: Tree, x: Hash): Tree {
    match t
    case Leaf(es) => Leaf(Others(es, x))
    case Branch(kids) => Branch(ClearedAll(kids, x))
  }

  function ClearedAll(ks: seq<Tree>, x: Hash): (r: seq<Tree>)
    ensures |r| == |ks|
    ensures forall i | 0 <= i < |ks| :: r[i] == Cleared(ks[i], x)
  {
    if ks == [] then [] else ClearedAll(ks[..|ks| - 1], x) + [Cleared(ks[|ks| - 1], x)]
  }

  lemma {:induction false} ClearedIs(t: Tree, x: Hash)
    ensures Flat(Cleared(t, x)) == Others(Flat(t), x)
    decreases t, 0
  {
    if t.Branch? {
      ClearedAllIs(t.kids, x);
      FlatBranch(t.kids);
      FlatBranch(ClearedAll(t.kids, x));
    }
  }

  lemma {:induction false} ClearedAllIs(ks: seq<Tree>, x: Hash)
    ensures FlatAll(ClearedAll(ks, x)) == Others(FlatAll(ks), x)
    decreases ks, 1
  {
    if ks != [] {
      var n := |ks| - 1;
      ClearedAllIs(ks[..n], x);
      ClearedIs(ks[n], x);
      FlatAllSnoc(ClearedAll(ks[..n], x), Cleared(ks[n], x));
      OthersConcat(FlatAll(ks[..n]), Flat(ks[n]), x);
    }
  }

  lemma {:induction false} ClearedShape(t: Tree, x: Hash, d: nat, h: nat)
    requires WF(t, d, h)
    ensures WF(Cleared(t, x), d, h)
    decreases h
  {
    if h > 0 {
      forall i | 0 <= i < |t.kids|
        ensures WF(Cleared(t.kids[i], x), d, h - 1)
      {
        ClearedShape(t.kids[i], x, d, h - 1);
      }
    }
  }

  /** Without an occurrence nothing changes. */
  lemma {:induction false} ClearedSame(t: Tree, x: Hash)
    requires x !in Flat(t)
    ensures Cleared(t, x) == t
    decreases t
  {
    if t.Leaf? {
      OthersSame(t.es, x);
    } else {
      forall i | 0 <= i < |t.kids|
        ensures Cleared(t.kids[i], x) == t.kids[i]
      {
        FlatAllAt(t.kids, i);
        ClearedSame(t.kids[i], x);
      }
      assert ClearedAll(t.kids, x) == t.kids;
    }
  }

  /** One occurrence removed makes no difference. */
  lemma {:induction false} ClearedRemoveAt(t: Tree, i: nat, x: Hash)
    requires i < Len(t) && Flat(t)[i] == x
    ensures Cleared(RemoveAt(t, i), x) == Cleared(t, x)
    decreases t
  {
    hide FlatAll;
    if t.Leaf? {
      OthersWithout(t.es, i, x);
    } else {
      FlatBranch(t.kids);
      var j := Locate(t.kids, i);
      var k := i - |FlatAll(t.kids[..j])|;
      AtKid(t.kids, j, k, x);
      ClearedRemoveAt(t.kids[j], k, x);
      assert ClearedAll(t.kids[j := RemoveAt(t.kids[j], k)], x) == ClearedAll(t.kids, x);
    }
  }

  /** Removing the only occurrence clears the tree of it. */
  lemma ClearedOnce(t: Tree, i: nat, x: Hash)
    requires i < Len(t) && Flat(t)[i] == x && x !in Without(Flat(t), i)
    ensures Cleared(t, x) == RemoveAt(t, i)
  {
    ClearedRemoveAt(t, i, x);
    RemoveAtIsRemoval(t, i);
    ClearedSame(RemoveAt(t, i), x);
  }

  // -------------------------------------------------------- emptied nodes go

  /** The tree without `x`, and without the nodes that get empty by that; other nodes stay, empty or not. */
  function Trimmed(t: Tree, x: Hash): Tree {
    match t
    case Leaf(es) => Leaf(Others(es, x))
    case Branch(kids) => Branch(TrimmedAll(kids, x))
  }

  function TrimmedAll(ks: seq<Tree>, x: Hash): seq<Tree> {
    if ks == [] then []
    else
      var n := |ks| - 1;
      TrimmedAll(ks[..n], x) + TrimmedKid(ks[n], Trimmed(ks[n], x), x)
  }

  /** A node that was left as `u`: it goes if that made it empty. */
  function TrimmedKid(t: Tree, u: Tree, x: Hash): seq<Tree> {
    if x in Flat(t) && Len(u) == 0 then [] else [u]
  }

  lemma {:induction false} TrimmedIs(t: Tree, x: Hash)
    ensures Flat(Trimmed(t, x)) == Others(Flat(t), x)
    decreases t, 0
  {
    if t.Branch? {
      TrimmedAllIs(t.kids, x);
      FlatBranch(t.kids);
      FlatBranch(TrimmedAll(t.kids, x));
    }
  }

  lemma {:induction false} TrimmedAllIs(ks: seq<Tree>, x: Hash)
    ensures FlatAll(TrimmedAll(ks, x)) == Others(FlatAll(ks), x) && |TrimmedAll(ks, x)| <= |ks|
    decreases ks, 1
  {
    if ks != [] {
      var n := |ks| - 1;
      TrimmedAllIs(ks[..n], x);
      TrimmedIs(ks[n], x);
      var a, k := TrimmedAll(ks[..n], x), Trimmed(ks[n], x);
      FlatAllSnoc(a, k);
      assert FlatAll(a + TrimmedKid(ks[n], k, x)) == FlatAll(a) + Flat(k) by {
        assert a + [] == a;
      }
      OthersConcat(FlatAll(ks[..n]), Flat(ks[n]), x);
    }
  }

  lemma {:induction false} TrimmedAllConcat(a: seq<Tree>, b: seq<Tree>, x: Hash)
    ensures TrimmedAll(a + b, x) == TrimmedAll(a, x) + TrimmedAll(b, x)
  {
    hide Trimmed, TrimmedKid;
    if b == [] {
      assert a + b == a;
    } else {
      var n := |b| - 1;
      assert (a + b)[..|a + b| - 1] == a + b[..n];
      TrimmedAllConcat(a, b[..n], x);
    }
  }

  lemma TrimmedAllOne(k: Tree, x: Hash)
    ensures TrimmedAll([k], x) == TrimmedKid(k, Trimmed(k, x), x)
  {
    assert [k][..0] == [];
  }

  lemma {:induction false} TrimmedAllAt(ks: seq<Tree>, j: nat, x: Hash)
    requires j < |ks|
    ensures TrimmedAll(ks, x)
         == TrimmedAll(ks[..j], x) + TrimmedKid(ks[j], Trimmed(ks[j], x), x) + TrimmedAll(ks[j + 1..], x)
  {
    assert ks == ks[..j] + ([ks[j]] + ks[j + 1..]);
    TrimmedAllConcat(ks[..j], [ks[j]] + ks[j + 1..], x);
    TrimmedAllConcat([ks[j]], ks[j + 1..], x);
    TrimmedAllOne(ks[j], x);
  }

  /** Without an occurrence nothing changes. */
  lemma {:induction false} TrimmedSame(t: Tree, x: Hash)
    requires x !in Flat(t)
    ensures Trimmed(t, x) == t
    decreases t, 0
  {
    if t.Leaf? {
      OthersSame(t.es, x);
    } else {
      TrimmedAllSame(t.kids, x);
    }
  }

  lemma {:induction false} TrimmedAllSame(ks: seq<Tree>, x: Hash)
    requires x !in FlatAll(ks)
    ensures TrimmedAll(ks, x) == ks
    decreases ks, 1
  {
    if ks != [] {
      var n := |ks| - 1;
      TrimmedAllSame(ks[..n], x);
      TrimmedSame(ks[n], x);
    }
  }

  /** One occurrence deleted by its index makes no difference. */
  lemma {:induction false} TrimmedDeleteAt(t: Tree, i: nat, x: Hash)
    requires i < Len(t) && Flat(t)[i] == x
    ensures Trimmed(DeleteAt(t, i), x) == Trimmed(t, x)
    decreases t
  {
    hide FlatAll, TrimmedAll;
    if t.Leaf? {
      OthersWithout(t.es, i, x);
    } else {
      FlatBranch(t.kids);
      var ks, j := t.kids, Locate(t.kids, i);
      var r := i - |FlatAll(ks[..j])|;
      AtKid(ks, j, r, x);
      var k := DeleteAt(ks[j], r);
      TrimmedDeleteAt(ks[j], r, x);
      DeleteAtIsRemoval(ks[j], r);
      TrimmedAllAt(ks, j, x);
      TrimmedIs(k, x);
      if Len(k) == 0 {
        TrimmedAllConcat(ks[..j], ks[j + 1..], x);
        assert Len(Trimmed(k, x)) == 0;
      } else {
        TrimmedAllAt(ks[j := k], j, x);
        assert ks[j := k][..j] == ks[..j] && ks[j := k][j + 1..] == ks[j + 1..];
        if x !in Flat(k) {
          OthersSame(Flat(k), x);
        }
      }
    }
  }

  /** Where nothing was empty nothing is. */
  lemma {:induction false} TrimmedNoBlanks(t: Tree, x: Hash)
    requires NoBlanks(t)
    ensures NoBlanks(Trimmed(t, x))
    decreases t, 0
  {
    if t.Branch? {
      TrimmedAllNoBlanks(t.kids, x);
    }
  }

  lemma {:induction false} TrimmedAllNoBlanks(ks: seq<Tree>, x: Hash)
    requires forall k <- ks :: Len(k) > 0 && NoBlanks(k)
    ensures forall k <- TrimmedAll(ks, x) :: Len(k) > 0 && NoBlanks(k)
    decreases ks, 1
  {
    if ks != [] {
      var n := |ks| - 1;
      TrimmedAllNoBlanks(ks[..n], x);
      TrimmedNoBlanks(ks[n], x);
      TrimmedIs(ks[n], x);
      if x !in Flat(ks[n]) {
        TrimmedSame(ks[n], x);
      }
    }
  }

  lemma {:induction false} TrimmedShape(t: Tree, x: Hash, d: nat, h: nat)
    requires WF(t, d, h)
    ensures WF(Trimmed(t, x), d, h)
    decreases t, 0
  {
    if h > 0 {
      TrimmedAllShape(t.kids, x, d, h - 1);
      TrimmedAllIs(t.kids, x);
    }
  }

  lemma {:induction false} TrimmedAllShape(ks: seq<Tree>, x: Hash, d: nat, h: nat)
    requires forall k <- ks :: WF(k, d, h)
    ensures forall k <- TrimmedAll(ks, x) :: WF(k, d, h)
    decreases ks, 1
  {
    if ks != [] {
      var n := |ks| - 1;
      TrimmedAllShape(ks[..n], x, d, h);
      TrimmedShape(ks[n], x, d, h);
    }
  }

  // ------------------------------------------------------------- two routes

  /** The leaf node of the i-th element has no other element. */
  ghost predicate Lone(t: Tree, i: nat)
    requires i < Len(t)
    decreases t
  {
    match t
    case Leaf(es) => |es| == 1
    case Branch(kids) =>
      var j := Locate(kids, i);
      Lone(kids[j], i - |FlatAll(kids[..j])|)
  }

  /** An element that is alone in its node makes that empty. */
  lemma {:induction false} LoneLeaves(t: Tree, i: nat, x: Hash)
    requires i < Len(t) && Flat(t)[i] == x && x !in Without(Flat(t), i)
    requires t.Branch? && Lone(t, i)
    ensures Cleared(t, x) != Trimmed(t, x)
    decreases t
  {
    hide FlatAll, TrimmedAll;
    FlatBranch(t.kids);
    var ks, j := t.kids, Locate(t.kids, i);
    var r := i - |FlatAll(ks[..j])|;
    AtKid(ks, j, r, x);
    OnlyThere(ks, j, r, x);
    OnlyKid(ks, j, x);
    var k := Trimmed(ks[j], x);
    if ks[j].Branch? {
      LoneLeaves(ks[j], r, x);
      assert k in TrimmedKid(ks[j], k, x) ==> TrimmedAll(ks, x)[j] == k;
    } else {
      OthersOnly(ks[j].es, r, x);
      assert |TrimmedAll(ks, x)| == |ks| - 1;
    }
  }

  lemma OthersOnly(es: seq<Hash>, i: nat, x: Hash)
    requires i < |es| && es[i] == x && x !in Without(es, i)
    ensures Others(es, x) == Without(es, i)
  {
    OthersWithout(es, i, x);
    OthersSame(Without(es, i), x);
  }

  /** The only occurrence, seen from the branch that has it. */
  lemma OnlyThere(ks: seq<Tree>, j: nat, r: nat, x: Hash)
    requires j < |ks| && r < Len(ks[j]) && Flat(ks[j])[r] == x
    requires var i := |FlatAll(ks[..j])| + r; i < |FlatAll(ks)| && x !in Without(FlatAll(ks), i)
    ensures x !in Without(Flat(ks[j]), r) && x !in FlatAll(ks[..j]) && x !in FlatAll(ks[j + 1..])
  {
    hide FlatAll;
    var a, b, c := FlatAll(ks[..j]), Flat(ks[j]), FlatAll(ks[j + 1..]);
    FlatAllAt(ks, j);
    WithoutMiddle(a, b, c, r);
    assert x !in a + Without(b, r) + c;
  }

  /** What becomes of branches only one of which has `x`. */
  lemma OnlyKid(ks: seq<Tree>, j: nat, x: Hash)
    requires j < |ks| && x !in FlatAll(ks[..j]) && x !in FlatAll(ks[j + 1..])
    ensures ClearedAll(ks, x) == ks[j := Cleared(ks[j], x)]
    ensures TrimmedAll(ks, x) == ks[..j] + TrimmedKid(ks[j], Trimmed(ks[j], x), x) + ks[j + 1..]
  {
    hide Flat, FlatAll, Cleared, Trimmed, TrimmedAll, TrimmedKid;
    var a, c := ks[..j], ks[j + 1..];
    TrimmedAllAt(ks, j, x);
    TrimmedAllSame(a, x);
    TrimmedAllSame(c, x);
    ClearedAllSame(a, x);
    ClearedAllSame(c, x);
    forall k | 0 <= k < |ks| && k != j
      ensures Cleared(ks[k], x) == ks[k]
    {
      if k < j {
        assert ClearedAll(a, x)[k] == Cleared(a[k], x);
      } else {
        assert ClearedAll(c, x)[k - j - 1] == Cleared(c[k - j - 1], x);
      }
    }
  }

  lemma ClearedAllSame(ks: seq<Tree>, x: Hash)
    requires x !in FlatAll(ks)
    ensures ClearedAll(ks, x) == ks
  {
    FlatBranch(ks);
    ClearedSame(Branch(ks), x);
  }

  /**
   Taking out the only element with a hash leaves the same with its node kept or
   not, if and only if it is not alone there, or the node is the root.
   */
  lemma {:induction false} RoutesAgree(t: Tree, i: nat, x: Hash)
    requires i < Len(t) && Flat(t)[i] == x && x !in Without(Flat(t), i)
    ensures Cleared(t, x) == Trimmed(t, x) <==> t.Leaf? || !Lone(t, i)
    decreases t
  {
    if t.Branch? {
      if Lone(t, i) {
        LoneLeaves(t, i, x);
      } else {
        RoutesJoin(t, i, x);
      }
    }
  }

  lemma {:induction false} RoutesJoin(t: Tree, i: nat, x: Hash)
    requires i < Len(t) && Flat(t)[i] == x && x !in Without(Flat(t), i) && !Lone(t, i)
    ensures Cleared(t, x) == Trimmed(t, x) && Len(Cleared(t, x)) > 0
    decreases t
  {
    hide FlatAll, TrimmedAll;
    ClearedIs(t, x);
    OthersOnly(Flat(t), i, x);
    if t.Branch? {
      FlatBranch(t.kids);
      var ks, j := t.kids, Locate(t.kids, i);
      var r := i - |FlatAll(ks[..j])|;
      AtKid(ks, j, r, x);
      OnlyThere(ks, j, r, x);
      RoutesJoin(ks[j], r, x);
      OnlyKid(ks, j, x);
      FlatAllUpdate(ks, j, Cleared(ks[j], x));
      FlatBranch(ks[j := Cleared(ks[j], x)]);
    }
  }

  /** How many elements go. */
  lemma {:induction false} OthersCount(es: seq<Hash>, x: Hash)
    ensures |Others(es, x)| == |es| - multiset(es)[x]
  {
    if es != [] {
      assert es == [es[0]] + es[1..];
      OthersCount(es[1..], x);
    }
  }
}
