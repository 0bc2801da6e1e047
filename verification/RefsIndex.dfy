/** The hash-table index of a Refs: the leafs of every hash. */
module RefsIndex {
  import opened Hashing
  import opened RefsNodes
  import opened RefsGraph

  function Entry(index: Index, h: Hash): seq<RefsElement> {
    if h in index then index[h] else []
  }

  function With(index: Index, e: RefsElement, h: Hash): Index {
    index[h := Entry(index, h) + [e]]
  }

  lemma AddMatches(index: Index, E: Items, e: RefsElement, it: Item)
    requires Matches(index, E) && e !in E
    ensures Matches(With(index, e, it.hash), E[e := it])
  {
    var w, F := With(index, e, it.hash), E[e := it];
    forall k <- F
      ensures F[k].hash in w && k in w[F[k].hash]
    {
      if k != e {
        assert E[k].hash in index && k in index[E[k].hash];
        var i :| 0 <= i < |index[E[k].hash]| && index[E[k].hash][i] == k;
        assert w[F[k].hash][i] == k;
      } else {
        assert w[it.hash][|Entry(index, it.hash)|] == e;
      }
    }
  }

  /** The element `e` taken out of a list that has it at most once. */
  function Sans(s: seq<RefsElement>, e: RefsElement): (r: seq<RefsElement>)
    ensures e !in s ==> r == s
  {
    if s == [] then []
    else if s[0] == e then s[1..]
    else [s[0]] + Sans(s[1..], e)
  }

  lemma {:induction false} SansIs(s: seq<RefsElement>, e: RefsElement, k: nat)
    requires k < |s| && s[k] == e && Distinct(s)
    ensures Sans(s, e) == s[..k] + s[k + 1..]
  {
    if k > 0 {
      assert s[0] != s[k];
      assert s[1..][k - 1] == e;
      SansIs(s[1..], e, k - 1);
    }
  }

  function WithoutEntry(index: Index, h: Hash, rest: seq<RefsElement>): Index {
    if rest == [] then index - {h} else index[h := rest]
  }

  lemma SansMembers(s: seq<RefsElement>, e: RefsElement)
    requires e in s && Distinct(s)
    ensures Distinct(Sans(s, e))
    ensures forall f :: f in Sans(s, e) <==> f in s && f != e
  {
    var k :| 0 <= k < |s| && s[k] == e;
    SansIs(s, e, k);
    assert forall i | 0 <= i < |s| && i != k :: s[i] != e;
    forall f | f in s && f != e
      ensures f in Sans(s, e)
    {
      var o :| 0 <= o < |s| && s[o] == f;
      assert Sans(s, e)[if o < k then o else o - 1] == f;
    }
  }

  lemma DeleteMatches(index: Index, E: Items, e: RefsElement, F: Items)
    requires Matches(index, E) && e in E
    requires F.Keys == E.Keys - {e} && forall k <- F :: F[k].hash == E[k].hash
    ensures E[e].hash in index && Distinct(index[E[e].hash])
    ensures Matches(WithoutEntry(index, E[e].hash, Sans(index[E[e].hash], e)), F)
  {
    var h := E[e].hash;
    var s := index[h];
    var r := Sans(s, e);
    SansMembers(s, e);
    var w := WithoutEntry(index, h, r);
    forall i | 0 <= i < |r|
      ensures r[i] in F && F[r[i]].hash == h
    {
      assert r[i] in s;
    }
    forall f <- F
      ensures F[f].hash in w && f in w[F[f].hash]
    {
      assert E[f].hash in index && f in index[E[f].hash];
    }
  }

  /** Changing only where elements are does not concern the index. */
  lemma MoveMatches(index: Index, E: Items, F: Items)
    requires Matches(index, E) && F.Keys == E.Keys && forall e <- E :: F[e].hash == E[e].hash
    ensures Matches(index, F)
  {
  }

  lemma AddBesides(index: Index, E: Items, limbo: set<RefsElement>, e: RefsElement, it: Item)
    requires Matches(index, E - limbo) && limbo <= E.Keys && e !in E
    ensures Matches(With(index, e, it.hash), E[e := it] - limbo) && limbo <= E[e := it].Keys
  {
    AddMatches(index, E - limbo, e, it);
    assert E[e := it] - limbo == (E - limbo)[e := it];
  }

  lemma NoLimbo(index: Index, E: Items)
    ensures Matches(index, E - {}) == Matches(index, E)
  {
    assert E - {} == E;
  }

  /** An element the index does not hold any more can be taken away. */
  lemma LimboLess(index: Index, E: Items, limbo: set<RefsElement>, e: RefsElement, indexed: bool)
    requires e in E && e in limbo && limbo <= E.Keys && (indexed ==> Matches(index, E - limbo))
    ensures limbo - {e} <= WithoutItem(e, E).Keys
    ensures indexed ==> Matches(index, WithoutItem(e, E) - (limbo - {e}))
  {
    var F := WithoutItem(e, E);
    if indexed {
      assert (F - (limbo - {e})).Keys == (E - limbo).Keys;
      MoveMatches(index, E - limbo, F - (limbo - {e}));
    }
  }

  function SetOf(s: seq<RefsElement>): set<RefsElement> {
    set e | e in s
  }

  /** A whole entry taken out of the index: its elements are in limbo. */
  lemma TakeEntry(index: Index, E: Items, x: Hash)
    requires Matches(index, E) && x in index
    ensures Distinct(index[x]) && index[x] != [] && SetOf(index[x]) <= E.Keys
    ensures forall e <- index[x] :: E[e].hash == x
    ensures Matches(index - {x}, E - SetOf(index[x]))
  {
    var s := index[x];
    forall e <- s
      ensures e in E && E[e].hash == x
    {
      var k :| 0 <= k < |s| && s[k] == e;
      assert index[x][k] in E;
    }
    var rest := index - {x};
    forall h, i | h in rest && 0 <= i < |rest[h]|
      ensures rest[h][i] in E - SetOf(s)
    {
      assert index[h][i] in E && E[index[h][i]].hash == h;
    }
    forall e <- E - SetOf(s)
      ensures E[e].hash in rest && e in rest[E[e].hash]
    {
      assert E[e].hash in index && e in index[E[e].hash];
    }
  }

  lemma NextInLimbo(s: seq<RefsElement>, k: nat)
    requires k < |s| && Distinct(s)
    ensures SetOf(s[k..]) - {s[k]} == SetOf(s[k + 1..]) && s[k] in SetOf(s[k..])
  {
    assert s[k..] == [s[k]] + s[k + 1..];
    assert forall i | k < i < |s| :: s[i] != s[k];
  }

  lemma NextHave(s: seq<RefsElement>, k: nat, E: Items)
    requires k < |s| && forall e <- s[k..] :: e in E
    ensures s[k] in E && forall e <- s[k + 1..] :: e in E
  {
    assert s[k..][0] == s[k];
    assert forall e <- s[k + 1..] :: e in s[k..];
  }

  /** What is left of an entry after one of its elements has gone. */
  lemma NextLeft(s: seq<RefsElement>, k: nat, e: RefsElement, E: Items)
    requires k < |s| && Distinct(s) && e == s[k] && e in E && forall f <- s[k..] :: f in E
    ensures forall f <- s[k + 1..] :: f in s[k..] && f in WithoutItem(e, E) && WithoutItem(e, E)[f].hash == E[f].hash
  {
    forall f <- s[k + 1..]
      ensures f != e && f in s[k..]
    {
      var i :| 0 <= i < |s| - k - 1 && s[k + 1..][i] == f;
      assert s[k..][i + 1] == f && s[k + 1 + i] == f;
    }
  }
}
