/**
 The database of Root objects by feed, head and seq, and what an index of last
 Root objects should hold.
 */
module IdxDB {

  /** A public key; zero is the blank one. */
  newtype Pub = p: int | 0 <= p

  newtype Nonce = n: int | 0 <= n

  /** The hash of an encoded Root, which tells all of it. */
  datatype RootHash = BlankHash | HashOf(pub: Pub, nonce: Nonce, num: nat, prev: RootHash, time: int, content: nat)

  /** What the database keeps of a Root. */
  datatype DataRoot = DataRoot(num: nat, prev: RootHash, hash: RootHash, time: int)

  /** The head of a feed with the newest last Root, and the time of that Root. */
  datatype Active = Active(nonce: Nonce, time: int)

  datatype Option<T> = None | Some(value: T)

  datatype Error = Done | NoSuchFeed | NoSuchHead | NotFound | NotFull | BlankField | Panicked

  type Roots = map<nat, DataRoot>

  type Heads = map<Nonce, Roots>

  type Feeds = map<Pub, Heads>

  /** Last Root objects by head, None for heads without any. */
  type LastRoots = map<Nonce, Option<DataRoot>>

  ghost predicate IsLast(rs: Roots, s: nat) {
    s in rs && forall t <- rs :: t <= s
  }

  lemma {:induction false} HasLast(keys: set<nat>)
    requires keys != {}
    ensures exists s :: s in keys && forall t <- keys :: t <= s
    decreases keys
  {
    var s: nat :| s in keys;
    if keys - {s} == {} {
      assert forall t <- keys :: t == s || t in keys - {s};
    } else {
      HasLast(keys - {s});
      var t: nat :| t in keys - {s} && forall u <- keys - {s} :: u <= t;
      var m := if s < t then t else s;
      assert m in keys && forall u <- keys :: u <= m by {
        forall u <- keys
          ensures u <= m
        {
          assert u == s || u in keys - {s};
        }
      }
    }
  }

  /** The Root with the greatest seq. */
  ghost function Last(rs: Roots): (r: Option<DataRoot>)
    ensures rs == map[] <==> r == None
    ensures r.Some? ==> exists s :: IsLast(rs, s) && r.value == rs[s]
  {
    if rs == map[] then None
    else
      assert rs.Keys != {};
      HasLast(rs.Keys);
      assert exists s :: IsLast(rs, s) by {
        var s: nat :| s in rs.Keys && forall t <- rs.Keys :: t <= s;
        assert IsLast(rs, s);
      }
      var s: nat :| IsLast(rs, s);
      Some(rs[s])
  }

  lemma LastIs(rs: Roots, s: nat)
    requires IsLast(rs, s)
    ensures Last(rs) == Some(rs[s])
  {
  }

  /** A head for which each Root is stored under its seq. */
  predicate Keyed(rs: Roots) {
    forall s <- rs :: rs[s].num == s && rs[s].hash != BlankHash
  }

  predicate AllKeyed(db: Feeds) {
    forall pk <- db :: forall nonce <- db[pk] :: Keyed(db[pk][nonce])
  }

  // --------------------------------------------------------------- the index

  /** What loading an index from the database gives. */
  ghost function LoadedHeads(hs: Heads): LastRoots {
    map nonce | nonce in hs :: Last(hs[nonce])
  }

  ghost function Loaded(db: Feeds): map<Pub, LastRoots> {
    map pk | pk in db :: LoadedHeads(db[pk])
  }

  /** The active head is one of those with the newest last Root; no Root newer than the epoch, no active head. */
  ghost predicate Newest(h: LastRoots, a: Active) {
    a.time >= 0 && (forall nonce <- h :: h[nonce].Some? ==> h[nonce].value.time <= a.time)
    && if a.time == 0 then a.nonce == 0 else a.nonce in h && h[a.nonce].Some? && h[a.nonce].value.time == a.time
  }

  function Advanced(a: Active, nonce: Nonce, time: int): Active {
    if a.time < time then Active(nonce, time) else a
  }

  lemma NobodyNewest()
    ensures Newest(map[], Active(0, 0))
  {
  }

  /** One more head. */
  lemma NewestMore(h: LastRoots, a: Active, nonce: Nonce, dr: Option<DataRoot>)
    requires Newest(h, a) && nonce !in h
    ensures Newest(h[nonce := dr], if dr.Some? then Advanced(a, nonce, dr.value.time) else a)
  {
    var g := h[nonce := dr];
    assert g[nonce] == dr && (a.nonce in h ==> g[a.nonce] == h[a.nonce]);
  }

  /** A new last Root of a head. */
  lemma NewestPut(h: LastRoots, a: Active, nonce: Nonce, r: DataRoot)
    requires Newest(h, a)
    ensures Newest(h[nonce := Some(r)], Advanced(a, nonce, r.time)) <==>
            r.time >= a.time || a.time == 0 || a.nonce != nonce
  {
    var g := h[nonce := Some(r)];
    assert g[nonce] == Some(r) && (a.nonce != nonce && a.nonce in h ==> g[a.nonce] == h[a.nonce]);
  }

  /** Another last Root of a head, or none, while the active head stays. */
  lemma NewestStays(h: LastRoots, a: Active, nonce: Nonce, dr: Option<DataRoot>)
    requires Newest(h, a) && nonce in h && (dr.Some? ==> dr.value.time != a.time)
    ensures Newest(h[nonce := dr], a) <==>
            (dr.Some? ==> dr.value.time <= a.time) && (a.time == 0 || a.nonce != nonce)
  {
    var g := h[nonce := dr];
    assert g[nonce] == dr && (a.nonce != nonce && a.nonce in h ==> g[a.nonce] == h[a.nonce]);
  }

  lemma NewestLess(h: LastRoots, a: Active, nonce: Nonce)
    requires Newest(h, a) && nonce in h
    ensures Newest(h - {nonce}, a) <==> a.time == 0 || a.nonce != nonce
  {
    var g := h - {nonce};
    assert a.nonce != nonce && a.nonce in h ==> a.nonce in g && g[a.nonce] == h[a.nonce];
  }

  /** Some head has no Root objects. */
  ghost predicate HasBlank(hs: Heads) {
    exists nonce :: nonce in hs && hs[nonce] == map[]
  }

  lemma BlankHead(hs: Heads)
    ensures HasBlank(hs) <==> exists nonce :: nonce in LoadedHeads(hs) && LoadedHeads(hs)[nonce] == None
  {
    forall nonce | nonce in hs
      ensures hs[nonce] == map[] <==> LoadedHeads(hs)[nonce] == None
    {
      LastNone(hs[nonce]);
    }
    if HasBlank(hs) {
      var nonce :| nonce in hs && hs[nonce] == map[];
      assert nonce in LoadedHeads(hs) && LoadedHeads(hs)[nonce] == None;
    }
  }

  lemma LoadedHead(db: Feeds, pk: Pub, nonce: Nonce, rs: Roots)
    requires pk in db
    ensures Loaded(db[pk := db[pk][nonce := rs]]) == Loaded(db)[pk := Loaded(db)[pk][nonce := Last(rs)]]
  {
    assert LoadedHeads(db[pk][nonce := rs]) == LoadedHeads(db[pk])[nonce := Last(rs)];
  }

  lemma LoadedLess(db: Feeds, pk: Pub, nonce: Nonce)
    requires pk in db
    ensures Loaded(db[pk := db[pk] - {nonce}]) == Loaded(db)[pk := Loaded(db)[pk] - {nonce}]
  {
    assert LoadedHeads(db[pk] - {nonce}) == LoadedHeads(db[pk]) - {nonce};
  }

  lemma LoadedFeed(db: Feeds, pk: Pub)
    ensures Loaded(db[pk := map[]]) == Loaded(db)[pk := map[]]
    ensures Loaded(db - {pk}) == Loaded(db) - {pk}
  {
    assert LoadedHeads(map[]) == map[];
  }

  /** The same last Root means the index stays the same. */
  lemma SameLast(db: Feeds, pk: Pub, nonce: Nonce, rs: Roots)
    requires pk in db && nonce in db[pk] && Last(rs) == Last(db[pk][nonce])
    ensures Loaded(db[pk := db[pk][nonce := rs]]) == Loaded(db)
  {
    LoadedHead(db, pk, nonce, rs);
    assert Loaded(db)[pk][nonce := Last(rs)] == Loaded(db)[pk];
  }

  lemma LastSome(rs: Roots) returns (t: nat)
    requires rs != map[]
    ensures IsLast(rs, t) && Last(rs) == Some(rs[t])
  {
    var o := Last(rs);
    assert o.Some?;
    t :| IsLast(rs, t) && o.value == rs[t];
  }

  /** A Root above all others is the last one; one below the last one is not. */
  lemma LastAdded(rs: Roots, s: nat, r: DataRoot)
    requires s !in rs
    ensures Keyed(rs) && (rs == map[] || Last(rs).value.num < s) ==> Last(rs[s := r]) == Some(r)
    ensures Keyed(rs) && rs != map[] && s < Last(rs).value.num ==> Last(rs[s := r]) == Last(rs)
  {
    if rs == map[] {
      LastIs(rs[s := r], s);
    } else if Keyed(rs) {
      var t := LastSome(rs);
      LastIs(rs[s := r], if t < s then s else t);
    }
  }

  lemma LastDropped(rs: Roots, s: nat)
    requires s in rs && Keyed(rs) && s != Last(rs).value.num
    ensures Last(rs - {s}) == Last(rs)
  {
    var t := LastSome(rs);
    LastIs(rs - {s}, t);
  }

  lemma LoadedIs(db: Feeds, pk: Pub, nonce: Nonce)
    requires pk in db
    ensures pk in Loaded(db) && (nonce in Loaded(db)[pk] <==> nonce in db[pk])
    ensures nonce in db[pk] ==> Loaded(db)[pk][nonce] == Last(db[pk][nonce])
  {
  }

  lemma SameHeads(db: Feeds, pk: Pub)
    requires pk in db
    ensures pk in Loaded(db) && Loaded(db)[pk].Keys == db[pk].Keys
  {
  }

  lemma SameRoots(db: Feeds, pk: Pub, nonce: Nonce)
    requires pk in db && nonce in db[pk]
    ensures db[pk := db[pk][nonce := db[pk][nonce]]] == db
  {
    assert db[pk][nonce := db[pk][nonce]] == db[pk];
  }

  lemma KeyedLess(db: Feeds, pk: Pub, nonce: Nonce)
    requires AllKeyed(db) && pk in db
    ensures AllKeyed(db[pk := db[pk] - {nonce}])
  {
  }

  lemma KeyedOthers(db: Feeds, pk: Pub)
    requires AllKeyed(db)
    ensures AllKeyed(db - {pk})
  {
  }

  lemma LastNone(rs: Roots)
    ensures rs == map[] <==> Last(rs) == None
  {
  }

  /** The seq after the last one is free. */
  lemma AboveLast(rs: Roots)
    requires Keyed(rs)
    ensures rs != map[] ==> Last(rs).Some? && Last(rs).value.num + 1 !in rs
  {
    if rs != map[] {
      var t := LastSome(rs);
    }
  }

  /** The Root objects of a head, none if there is no such head. */
  function RootsOf(db: Feeds, pk: Pub, nonce: Nonce): Roots {
    if pk in db && nonce in db[pk] then db[pk][nonce] else map[]
  }

  lemma LoadedKeys(db: Feeds, pk: Pub)
    ensures pk in Loaded(db) <==> pk in db
    ensures Loaded(db).Keys == db.Keys
  {
  }

  lemma KeyedAt(db: Feeds, pk: Pub, nonce: Nonce)
    requires AllKeyed(db)
    ensures Keyed(RootsOf(db, pk, nonce))
  {
  }

  lemma KeyedWith(db: Feeds, pk: Pub, nonce: Nonce, rs: Roots)
    requires AllKeyed(db) && pk in db && Keyed(rs)
    ensures AllKeyed(db[pk := db[pk][nonce := rs]])
  {
  }

  /** Putting a new Root into the index as the last one is right exactly if it is above all others. */
  lemma NewRoot(db: Feeds, pk: Pub, nonce: Nonce, rs: Roots, r: DataRoot)
    requires AllKeyed(db) && pk in db && rs == RootsOf(db, pk, nonce) && r.num !in rs && r.hash != BlankHash
    ensures var d := db[pk := db[pk][nonce := rs[r.num := r]]];
            AllKeyed(d) && pk in Loaded(db)
            && (Loaded(db)[pk := Loaded(db)[pk][nonce := Some(r)]] == Loaded(d) <==>
                rs == map[] || Last(rs).value.num < r.num)
  {
    hide Last, Loaded, AllKeyed;
    KeyedAt(db, pk, nonce);
    LoadedKeys(db, pk);
    KeyedWith(db, pk, nonce, rs[r.num := r]);
    LoadedHead(db, pk, nonce, rs[r.num := r]);
    LastAdded(rs, r.num, r);
    if rs != map[] {
      var t := LastSome(rs);
    }
    HeadTells(Loaded(db), pk, nonce, Some(r), Last(rs[r.num := r]));
  }

  lemma HeadTells(l: map<Pub, LastRoots>, pk: Pub, nonce: Nonce, a: Option<DataRoot>, b: Option<DataRoot>)
    requires pk in l
    ensures l[pk := l[pk][nonce := a]] == l[pk := l[pk][nonce := b]] <==> a == b
  {
    var x, y := l[pk := l[pk][nonce := a]], l[pk := l[pk][nonce := b]];
    assert x[pk][nonce] == a && y[pk][nonce] == b;
  }

  // ------------------------------------------------------------- the database

  /** A Root put into a head, which is made if it is not there. */
  function PutRoot(db: Feeds, pk: Pub, nonce: Nonce, r: DataRoot): Feeds
    requires pk in db
  {
    db[pk := db[pk][nonce := RootsOf(db, pk, nonce)[r.num := r]]]
  }

  function WithoutRoot(db: Feeds, pk: Pub, nonce: Nonce, num: nat): Feeds
    requires pk in db && nonce in db[pk]
  {
    db[pk := db[pk][nonce := db[pk][nonce] - {num}]]
  }

  /** The last Root after one has been deleted, or the deleted one if there is none. */
  ghost function Deciding(rs: Roots, num: nat): DataRoot
    requires num in rs
  {
    if rs - {num} == map[] then rs[num] else Last(rs - {num}).value
  }

  lemma LoadedFeeds(db: Feeds, pk: Pub)
    requires pk in db
    ensures pk in Loaded(db) && Loaded(db)[pk] == LoadedHeads(db[pk])
  {
  }

  /** When the active head is kept as it is after a Root has been deleted. */
  lemma SettlesActive(h: LastRoots, a: Active, rs: Roots, nonce: Nonce, num: nat)
    requires Newest(h, a) && nonce in h && num in rs && Keyed(rs) && h[nonce] == Last(rs)
    requires Deciding(rs, num).time != a.time
    ensures Newest(h[nonce := Last(rs - {num})], a) <==>
            num != Last(rs).value.num
            || ((rs - {num} == map[] || Deciding(rs, num).time <= a.time) && (a.time == 0 || a.nonce != nonce))
  {
    hide Last, Newest;
    LastNone(rs);
    LastNone(rs - {num});
    if num != Last(rs).value.num {
      LastDropped(rs, num);
      assert h[nonce := Last(rs)] == h;
    } else {
      NewestStays(h, a, nonce, Last(rs - {num}));
    }
  }

  // --------------------------------------------------------------- the chain

  /** Seqs without gaps, each Root naming the one before it. */
  ghost predicate Chained(rs: Roots) {
    Keyed(rs)
    && (forall s, t :: s in rs && t in rs && s <= t ==> forall u | s <= u <= t :: u in rs)
    && (forall s :: s in rs && s + 1 in rs ==> rs[s + 1].prev == rs[s].hash)
  }

  lemma GrownGap(rs: Roots, r: DataRoot, t: nat, s: nat, u: nat, v: nat)
    requires Chained(rs) && IsLast(rs, t) && r.num == t + 1
    ensures (s in rs || s == r.num) && (u in rs || u == r.num) && s <= v <= u ==> v in rs || v == r.num
  {
    hide Chained;
    NoGap(rs, s, t, v);
  }

  lemma GrownLink(rs: Roots, r: DataRoot, t: nat, s: nat)
    requires Chained(rs) && IsLast(rs, t) && r.num == t + 1 && r.prev == rs[t].hash
    ensures var n := rs[r.num := r]; s in n && s + 1 in n ==> n[s + 1].prev == n[s].hash
  {
  }

  /** The next Root, which names the last one, makes the chain longer. */
  lemma ChainGrows(rs: Roots, r: DataRoot)
    requires Keyed(rs) && r.hash != BlankHash
    requires rs != map[] ==> r.num == Last(rs).value.num + 1 && r.prev == Last(rs).value.hash
    ensures Chained(rs) ==> Chained(rs[r.num := r])
  {
    hide Last;
    if rs != map[] && Chained(rs) {
      var t := LastSome(rs);
      var n: Roots := rs[r.num := r];
      forall s: nat, u: nat, v: nat | s in n && u in n && s <= v <= u
        ensures v in n
      {
        GrownGap(rs, r, t, s, u, v);
      }
      forall s: nat | s in n && s + 1 in n
        ensures n[s + 1].prev == n[s].hash
      {
        GrownLink(rs, r, t, s);
      }
    }
  }

  lemma NoGap(rs: Roots, s: nat, t: nat, u: nat)
    requires Chained(rs)
    ensures s in rs && t in rs && s <= u <= t ==> u in rs
  {
  }

  /** What is left when only the last `k` seqs are kept. */
  ghost function KeepLast(rs: Roots, k: nat): Roots {
    if rs == map[] then rs else map s | s in rs && s + k > Last(rs).value.num :: rs[s]
  }

  /** One less than or as many as there are. */
  lemma KeepLastCount(rs: Roots, k: nat)
    requires Chained(rs)
    ensures |KeepLast(rs, k)| == if k < |rs| then k else |rs|
  {
    if rs != map[] {
      var hi := LastSome(rs);
      WindowSize(rs, hi);
      KeepKeys(rs, k, hi);
      assert |KeepLast(rs, k)| == |KeepLast(rs, k).Keys|;
    }
  }

  lemma KeepKeys(rs: Roots, k: nat, hi: nat)
    requires hi in rs && |rs| <= hi + 1 && rs.Keys == Window(hi + 1 - |rs|, hi + 1) && Last(rs) == Some(rs[hi])
      && rs[hi].num == hi && rs != map[]
    ensures KeepLast(rs, k).Keys == Window(hi + 1 - if k < |rs| then k else |rs|, hi + 1)
  {
  }

  function Window(lo: nat, hi: nat): (w: set<nat>)
    requires lo <= hi
    ensures forall s: nat :: s in w <==> lo <= s < hi
    ensures |w| == hi - lo
    decreases hi
  {
    if lo == hi then {} else Window(lo, hi - 1) + {hi - 1}
  }

  /** The seqs of a chain are those below its last one, as many as there are. */
  lemma WindowSize(rs: Roots, hi: nat)
    requires Chained(rs) && IsLast(rs, hi)
    ensures |rs| <= hi + 1 && rs.Keys == Window(hi + 1 - |rs|, hi + 1)
  {
    var lo: nat := hi;
    while lo > 0 && lo - 1 in rs
      invariant lo <= hi && forall u | lo <= u <= hi :: u in rs
      decreases lo
    {
      lo := lo - 1;
    }
    forall s <- rs
      ensures lo <= s
    {
      if lo > 0 {
        NoGap(rs, s, hi, lo - 1);
      }
    }
    assert rs.Keys == Window(lo, hi + 1);
    assert |rs| == |rs.Keys|;
  }

  /** The seqs from `t` to `s` are all there. */
  ghost predicate Joined(rs: Roots, t: nat, s: nat) {
    t <= s && forall u: nat | t <= u <= s :: u in rs
  }

  /** What is left of a head when Root objects are removed from `s` down until one is not there. */
  ghost function Cut(rs: Roots, s: nat): Roots {
    map t | t in rs && !Joined(rs, t, s) :: rs[t]
  }

  ghost function Pruned(rs: Roots, k: nat): Roots {
    if rs == map[] || Last(rs).value.num < k then rs else Cut(rs, Last(rs).value.num - k)
  }

  /** Without the seqs above `lo` up to `s`. */
  ghost function Sans(rs: Roots, lo: int, s: nat): Roots {
    map t | t in rs && !(lo < t <= s) :: rs[t]
  }

  /** Going down stops at `lo`, or below zero. */
  lemma CutIs(rs: Roots, lo: int, s: nat)
    requires -1 <= lo <= s && (forall u: nat | lo < u <= s :: u in rs) && (lo >= 0 ==> (lo as nat) !in rs)
    ensures Cut(rs, s) == Sans(rs, lo, s)
  {
    forall t <- rs
      ensures Joined(rs, t, s) <==> lo < t <= s
    {
      if lo >= 0 && t <= lo {
        assert (lo as nat) !in rs;
      }
    }
  }

  lemma CutFirst(rs: Roots, s: nat)
    ensures Cut(rs, s) != rs <==> s in rs
  {
    if s in rs {
      assert Joined(rs, s, s);
      assert s !in Cut(rs, s);
    } else {
      assert forall t <- rs :: !Joined(rs, t, s);
    }
  }

  /** When the seqs have no gaps, going down removes all up to where it starts. */
  lemma CutWindow(rs: Roots, hi: nat, lo: nat, k: nat)
    requires lo <= hi && k <= hi && forall u: nat :: u in rs <==> lo <= u <= hi
    ensures Cut(rs, hi - k) == map s | s in rs && s + k > hi :: rs[s]
  {
    hide Cut;
    CutIs(rs, if lo <= hi - k then lo - 1 else hi - k, hi - k);
  }

  /** Of a chain exactly the last ones are left. */
  lemma PrunedIs(rs: Roots, k: nat)
    requires Chained(rs)
    ensures Pruned(rs, k) == KeepLast(rs, k)
  {
    hide Chained, Last, KeepLast, Cut;
    if rs == map[] {
      KeepNothing(rs, k);
    } else {
      var hi := LastSome(rs);
      ChainKeyed(rs);
      KeepIs(rs, hi, k);
      if hi >= k {
        var lo := Lowest(rs, hi);
        CutWindow(rs, hi, lo, k);
      }
    }
  }

  lemma KeepNothing(rs: Roots, k: nat)
    requires rs == map[]
    ensures KeepLast(rs, k) == rs
  {
  }

  lemma Lowest(rs: Roots, hi: nat) returns (lo: nat)
    requires Chained(rs) && IsLast(rs, hi)
    ensures lo <= hi && forall u: nat :: u in rs <==> lo <= u <= hi
  {
    hide Chained;
    WindowSize(rs, hi);
    lo := hi + 1 - |rs|;
    assert forall u: nat :: u in rs <==> u in rs.Keys;
  }

  lemma ChainKeyed(rs: Roots)
    requires Chained(rs)
    ensures Keyed(rs)
  {
  }

  /** The last Root stays if at least one is kept. */
  lemma PrunedKeeps(rs: Roots, k: nat)
    requires Keyed(rs) && k >= 1
    ensures Keyed(Pruned(rs, k)) && Last(Pruned(rs, k)) == Last(rs) && (Pruned(rs, k) == map[] <==> rs == map[])
  {
    if rs != map[] && Last(rs).value.num >= k {
      var hi := LastSome(rs);
      LastIs(Pruned(rs, k), hi);
    }
  }

  lemma KeepIs(rs: Roots, hi: nat, k: nat)
    requires IsLast(rs, hi) && Keyed(rs)
    ensures KeepLast(rs, k) == map s | s in rs && s + k > hi :: rs[s]
    ensures hi < k ==> KeepLast(rs, k) == rs
  {
    LastIs(rs, hi);
  }

  lemma KeepChained(rs: Roots, k: nat)
    requires Chained(rs)
    ensures Chained(KeepLast(rs, k))
  {
    var kept := KeepLast(rs, k);
    forall s: nat, t: nat, u: nat | s in kept && t in kept && s <= u <= t
      ensures u in kept
    {
      NoGap(rs, s, t, u);
    }
  }
}
