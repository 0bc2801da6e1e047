/** The index of last Root objects, kept beside the database it mirrors. */
module Index {
  import opened IdxDB

  /** A Root object. */
  class Root {
    var pub: Pub
    var nonce: Nonce
    var num: nat
    var prev: RootHash
    var time: int
    var content: nat
    var hash: RootHash
    var sig: nat
    var isFull: bool

    constructor (pub: Pub, nonce: Nonce, content: nat)
      ensures this.pub == pub && this.nonce == nonce && this.content == content && num == 0 && prev == hash == BlankHash
    {
      this.pub, this.nonce, this.content := pub, nonce, content;
      num, prev, time, hash, sig, isFull := 0, BlankHash, 0, BlankHash, 0, false;
    }

    /** Time, hash and signature of a new Root. */
    method Seal(now: int, sig: nat)
      modifies `time, `hash, `isFull, `sig
      ensures time == now && hash == HashOf(pub, nonce, num, prev, now, content) && isFull && this.sig == sig
    {
      time := now;
      hash := HashOf(pub, nonce, num, prev, time, content);
      isFull := true;
      this.sig := sig;
    }

    /** The Root comes after another one, if there is one. */
    method Follow(last: Option<DataRoot>)
      modifies `num, `prev
      ensures num == (if last.Some? then last.value.num + 1 else old(num))
      ensures prev == (if last.Some? then last.value.hash else old(prev))
    {
      if last.Some? {
        num := last.value.num + 1;
        prev := last.value.hash;
      }
    }
  }

  /** The database: feeds of heads of Root objects ordered by seq. */
  class Database {
    var feeds: Feeds

    constructor ()
      ensures feeds == map[]
    {
      feeds := map[];
    }

    /** The Root with the greatest seq, which is the first one when descending. */
    method LastOf(pk: Pub, nonce: Nonce) returns (dr: Option<DataRoot>)
      requires pk in feeds && nonce in feeds[pk]
      ensures dr == Last(feeds[pk][nonce])
    {
      var rs := feeds[pk][nonce];
      if rs == map[] {
        return None;
      }
      var s: nat :| s in rs;
      var left := rs.Keys - {s};
      while left != {}
        invariant left <= rs.Keys && s in rs && forall t <- rs :: t in left || t <= s
        decreases left
      {
        var t: nat :| t in left;
        left := left - {t};
        if s < t {
          s := t;
        }
      }
      LastIs(rs, s);
      return Some(rs[s]);
    }

    method SetRoots(pk: Pub, nonce: Nonce, rs: Roots)
      requires pk in feeds
      modifies this
      ensures feeds == old(feeds)[pk := old(feeds)[pk][nonce := rs]]
    {
      feeds := feeds[pk := feeds[pk][nonce := rs]];
    }
  }

  /** The hashes of all Root objects of a head. */
  ghost function HashesOf(rs: Roots): set<RootHash> {
    set s <- rs :: rs[s].hash
  }

  ghost predicate Lists<T(!new)>(s: seq<T>, keys: set<T>) {
    (forall x :: x in s <==> x in keys) && forall i, j :: 0 <= i < j < |s| ==> s[i] != s[j]
  }

  class Index {
    const db: Database
    var feeds: map<Pub, LastRoots>
    var active: map<Pub, Active>
    var feedsl: seq<Pub>

    /** The index is what loading it from the database would give. */
    ghost predicate Valid()
      reads this, db
    {
      feeds == Loaded(db.feeds) && AllKeyed(db.feeds) && Cached() && active.Keys == feeds.Keys
    }

    /** The active head of a feed is the one with the newest last Root. */
    ghost predicate Right(pk: Pub)
      reads this
    {
      pk in feeds && pk in active && Newest(feeds[pk], active[pk])
    }

    /** The active heads of other feeds stay. */
    twostate predicate Besides(pk: Pub)
      reads this
    {
      forall p <- old(active) :: p != pk ==> p in active && active[p] == old(active)[p]
    }

    /** The list of feeds is forgotten or complete. */
    ghost predicate Cached()
      reads this
    {
      feedsl == [] || Lists(feedsl, feeds.Keys)
    }

    constructor (db: Database)
      requires AllKeyed(db.feeds)
      ensures this.db == db && Valid() && fresh(this) && forall pk <- feeds :: Right(pk)
    {
      this.db, this.feeds, this.active, this.feedsl := db, map[], map[], [];
      new;
      Load();
    }

    /** Read the last Root of every head of every feed. */
    method Load()
      requires AllKeyed(db.feeds) && feedsl == []
      modifies this`feeds, this`active
      ensures feeds == Loaded(db.feeds) && active.Keys == feeds.Keys && forall pk <- feeds :: Right(pk)
    {
      hide Newest, Last;
      feeds, active := map[], map[];
      var left := db.feeds.Keys;
      while left != {}
        invariant left <= db.feeds.Keys && feeds.Keys == active.Keys == db.feeds.Keys - left
        invariant forall pk <- feeds :: feeds[pk] == LoadedHeads(db.feeds[pk]) && Newest(feeds[pk], active[pk])
        decreases left
      {
        var pk: Pub :| pk in left;
        var hs, a := LoadHeads(pk);
        feeds, active := feeds[pk := hs], active[pk := a];
        left := left - {pk};
      }
      assert feeds.Keys == Loaded(db.feeds).Keys;
    }

    method LoadHeads(pk: Pub) returns (h: LastRoots, a: Active)
      requires pk in db.feeds
      ensures h == LoadedHeads(db.feeds[pk]) && Newest(h, a)
    {
      hide Last, Newest;
      h, a := map[], Active(0, 0);
      NobodyNewest();
      var left := db.feeds[pk].Keys;
      while left != {}
        invariant left <= db.feeds[pk].Keys && h.Keys == db.feeds[pk].Keys - left && Newest(h, a)
        invariant forall nonce <- h :: h[nonce] == Last(db.feeds[pk][nonce])
        decreases left
      {
        var nonce: Nonce :| nonce in left;
        var dr := db.LastOf(pk, nonce);
        NewestMore(h, a, nonce, dr);
        h := h[nonce := dr];
        if dr.Some? && a.time < dr.value.time {
          a := Active(nonce, dr.value.time);
        }
        left := left - {nonce};
      }
      assert h.Keys == LoadedHeads(db.feeds[pk]).Keys;
    }

    // ------------------------------------------------------------------ find

    /** The head of a feed. */
    ghost predicate HasHead(pk: Pub, nonce: Nonce)
      reads this, db
    {
      pk in db.feeds && nonce in db.feeds[pk]
    }

    method LastRoot(pk: Pub, nonce: Nonce) returns (dr: Option<DataRoot>, err: Error)
      requires Valid()
      ensures err ==
              if pk !in db.feeds then NoSuchFeed
              else if nonce !in db.feeds[pk] then NoSuchHead
              else if db.feeds[pk][nonce] == map[] then NotFound
              else Done
      ensures dr == if HasHead(pk, nonce) then Last(db.feeds[pk][nonce]) else None
    {
      if pk !in feeds {
        return None, NoSuchFeed;
      }
      var hs := feeds[pk];
      if nonce !in hs {
        return None, NoSuchHead;
      }
      dr := hs[nonce];
      if dr == None {
        return None, NotFound;
      }
      return dr, Done;
    }

    method LastRootSeq(pk: Pub, nonce: Nonce) returns (num: nat, err: Error)
      requires Valid()
      ensures err ==
              if pk !in db.feeds then NoSuchFeed
              else if nonce !in db.feeds[pk] then NoSuchHead
              else if db.feeds[pk][nonce] == map[] then NotFound
              else Done
      ensures err == Done ==> IsLast(db.feeds[pk][nonce], num)
    {
      var dr;
      dr, err := LastRoot(pk, nonce);
      if err != Done {
        return 0, err;
      }
      ghost var s := LastSome(db.feeds[pk][nonce]);
      return dr.value.num, Done;
    }

    /** A Root by its seq: the last one from the index, others from the database. */
    method FindRoot(pk: Pub, nonce: Nonce, num: nat) returns (dr: Option<DataRoot>, err: Error)
      requires Valid()
      ensures err ==
              if pk !in db.feeds then NoSuchFeed
              else if nonce !in db.feeds[pk] then NoSuchHead
              else if num in db.feeds[pk][nonce] then Done
              else NotFound
      ensures dr == if err == Done then Some(db.feeds[pk][nonce][num]) else None
    {
      if pk !in feeds {
        return None, NoSuchFeed;
      }
      var hs := feeds[pk];
      if nonce !in hs {
        return None, NoSuchHead;
      }
      dr := hs[nonce];
      if dr == None {
        return None, NotFound;
      }
      ghost var s := LastSome(db.feeds[pk][nonce]);
      if dr.value.num == num {
        return dr, Done;
      }
      var rs := db.feeds[pk][nonce];
      if num in rs {
        return Some(rs[num]), Done;
      }
      return None, NotFound;
    }

    // ---------------------------------------------------------------- active

    /** Look for the active head of a feed; a head without Root objects makes it panic. */
    method SetActive(pk: Pub) returns (panics: bool)
      requires pk in feeds && pk in active
      modifies this`active
      ensures panics <==> exists nonce :: nonce in feeds[pk] && feeds[pk][nonce] == None
      ensures !panics ==> Right(pk)
      ensures active.Keys == old(active).Keys && Besides(pk)
    {
      var h := feeds[pk];
      active := active[pk := Active(0, 0)];
      var left := h.Keys;
      while left != {}
        invariant left <= h.Keys && active.Keys == old(active).Keys && Besides(pk)
        invariant forall nonce <- h :: nonce !in left ==> h[nonce].Some? && h[nonce].value.time <= active[pk].time
        invariant var a := active[pk];
                  a.time >= 0 && if a.time == 0 then a.nonce == 0
                  else a.nonce in h && h[a.nonce].Some? && h[a.nonce].value.time == a.time
        decreases left
      {
        var nonce: Nonce :| nonce in left;
        left := left - {nonce};
        if h[nonce] == None {
          assert nonce in feeds[pk] && feeds[pk][nonce] == None;
          return true;
        }
        if active[pk].time < h[nonce].value.time {
          active := active[pk := Active(nonce, h[nonce].value.time)];
        }
      }
      return false;
    }

    method ActiveHead(pk: Pub) returns (nonce: Nonce)
      requires Valid()
      ensures nonce == if pk in db.feeds && pk in active then active[pk].nonce else 0
      ensures Right(pk) ==>
              if exists n :: n in feeds[pk] && feeds[pk][n].Some? && feeds[pk][n].value.time > 0
              then nonce in db.feeds[pk] && db.feeds[pk][nonce] != map[]
                   && forall n <- db.feeds[pk] :: db.feeds[pk][n] != map[] ==>
                     Last(db.feeds[pk][n]).value.time <= Last(db.feeds[pk][nonce]).value.time
              else nonce == 0
    {
      hide Loaded, Last;
      LoadedKeys(db.feeds, pk);
      if pk !in feeds {
        return 0;
      }
      forall n | n in db.feeds[pk]
        ensures n in feeds[pk] && feeds[pk][n] == Last(db.feeds[pk][n])
          && (feeds[pk][n] == None <==> db.feeds[pk][n] == map[])
      {
        LoadedIs(db.feeds, pk, n);
        LastNone(db.feeds[pk][n]);
      }
      SameHeads(db.feeds, pk);
      return active[pk].nonce;
    }

    /** A Root has been put into a head. */
    method Advance(pk: Pub, nonce: Nonce, time: int)
      requires pk in active
      modifies this`active
      ensures active == old(active)[pk := Advanced(old(active)[pk], nonce, time)]
    {
      if active[pk].time < time {
        active := active[pk := Active(nonce, time)];
      }
    }

    // ------------------------------------------------------------------- add

    method AddFeed(pk: Pub)
      requires Valid()
      modifies this, db
      ensures Valid() && db.feeds == if pk in old(db.feeds) then old(db.feeds) else old(db.feeds)[pk := map[]]
      ensures Besides(pk) && (pk !in old(db.feeds) ==> Right(pk))
    {
      if pk in feeds {
        return;
      }
      NobodyNewest();
      LoadedFeed(db.feeds, pk);
      db.feeds := db.feeds[pk := map[]];
      feedsl := [];
      feeds, active := feeds[pk := map[]], active[pk := Active(0, 0)];
    }

    /** Add a head without Root objects.  All heads of the feed are forgotten, so the index is not right any more. */
    method AddHead(pk: Pub, nonce: Nonce) returns (err: Error)
      requires Valid()
      modifies this`feeds, this`active, db
      ensures err == if pk in old(db.feeds) then Done else NoSuchFeed
      ensures old(HasHead(pk, nonce)) || err != Done ==> Valid() && db.feeds == old(db.feeds) && unchanged(this)
      ensures !old(HasHead(pk, nonce)) && err == Done ==>
              db.feeds == old(db.feeds)[pk := old(db.feeds)[pk][nonce := map[]]] && AllKeyed(db.feeds)
              && feeds == old(feeds)[pk := map[]] && !Valid()
    {
      hide Last;
      if pk !in feeds {
        return NoSuchFeed;
      }
      LoadedIs(db.feeds, pk, nonce);
      if nonce in feeds[pk] {
        return Done;
      }
      db.SetRoots(pk, nonce, map[]);
      feeds, active := feeds[pk := map[]], active[pk := Active(0, 0)];
      LoadedIs(db.feeds, pk, nonce);
      assert nonce in Loaded(db.feeds)[pk] && nonce !in feeds[pk];
      return Done;
    }

    /** Replace the last Root of a head. */
    method Replace(pk: Pub, nonce: Nonce, dr: Option<DataRoot>)
      requires pk in feeds && Cached()
      modifies this`feeds
      ensures feeds == old(feeds)[pk := old(feeds)[pk][nonce := dr]] && Cached()
    {
      feeds := feeds[pk := feeds[pk][nonce := dr]];
      assert feeds.Keys == old(feeds).Keys;
    }

    /**
     Add a full Root.  It replaces the last one of its head whatever its seq is,
     so the index stays right exactly if the seq is above the last one.
     */
    method AddRoot(r: Root) returns (alreadyHave: bool, err: Error)
      requires Valid()
      modifies this`feeds, this`active, db
      ensures Besides(r.pub)
      ensures err ==
              if !r.isFull then NotFull
              else if r.pub == 0 || r.hash == BlankHash || r.sig == 0 then BlankField
              else if r.pub !in old(db.feeds) then NoSuchFeed
              else Done
      ensures alreadyHave <==> err == Done && old(HasHead(r.pub, r.nonce)) && r.num in old(db.feeds)[r.pub][r.nonce]
      ensures err != Done || alreadyHave ==> Valid() && db.feeds == old(db.feeds) && unchanged(this)
      ensures err == Done && !alreadyHave ==>
                var rs := RootsOf(old(db.feeds), r.pub, r.nonce);
                var dr := DataRoot(r.num, r.prev, r.hash, r.time);
                db.feeds == old(db.feeds)[r.pub := old(db.feeds)[r.pub][r.nonce := rs[r.num := dr]]]
                && (Valid() <==> rs == map[] || Last(rs).value.num < r.num)
                && AllKeyed(db.feeds)
      ensures err == Done && !alreadyHave && old(Right(r.pub)) ==>
                var a := old(active)[r.pub];
                Right(r.pub) <==> r.time >= a.time || a.time == 0 || a.nonce != r.nonce
    {
      hide Loaded, Last, Lists, AllKeyed, Newest;
      alreadyHave, err := false, Done;
      if !r.isFull {
        return false, NotFull;
      }
      if r.pub == 0 || r.hash == BlankHash || r.sig == 0 {
        return false, BlankField;
      }
      LoadedKeys(db.feeds, r.pub);
      var ir;
      ir, err := FindRoot(r.pub, r.nonce, r.num);
      if err == Done {
        return true, Done;
      }
      if err == NoSuchFeed {
        return false, err;
      }
      var rs: Roots := map[];
      if r.nonce in db.feeds[r.pub] {
        rs := db.feeds[r.pub][r.nonce];
      }
      var dr := DataRoot(r.num, r.prev, r.hash, r.time);
      KeyedAt(db.feeds, r.pub, r.nonce);
      NewRoot(db.feeds, r.pub, r.nonce, rs, dr);
      db.SetRoots(r.pub, r.nonce, rs[r.num := dr]);
      err := Done;
      // a Root that has not been found is none, so it is never seen to be newer than this one
      assert ir == None;
      PutLast(r.pub, r.nonce, dr);
    }

    /** Put a Root as the last one of a head. */
    method PutLast(pk: Pub, nonce: Nonce, dr: DataRoot)
      requires pk in feeds && Cached() && active.Keys == feeds.Keys
      modifies this`feeds, this`active
      ensures feeds == old(feeds)[pk := old(feeds)[pk][nonce := Some(dr)]] && Cached() && active.Keys == feeds.Keys
      ensures Besides(pk)
      ensures old(Right(pk)) ==>
                var a := old(active)[pk];
                Right(pk) <==> dr.time >= a.time || a.time == 0 || a.nonce != nonce
    {
      hide Newest, Lists;
      if Newest(feeds[pk], active[pk]) {
        NewestPut(feeds[pk], active[pk], nonce, dr);
      }
      Replace(pk, nonce, Some(dr));
      Advance(pk, nonce, dr.time);
    }

    /** Put a Root after the last one of its head. */
    method PutNext(pk: Pub, nonce: Nonce, rs: Roots, dr: DataRoot)
      requires Valid() && pk in db.feeds && rs == RootsOf(db.feeds, pk, nonce) && dr.num !in rs && dr.hash != BlankHash
      requires rs != map[] ==> dr.num == Last(rs).value.num + 1 && dr.prev == Last(rs).value.hash
      modifies this`feeds, this`active, db
      ensures Valid() && db.feeds == old(db.feeds)[pk := old(db.feeds)[pk][nonce := rs[dr.num := dr]]]
      ensures Chained(rs) ==> Chained(rs[dr.num := dr])
      ensures Besides(pk)
      ensures old(Right(pk)) ==>
                var a := old(active)[pk];
                Right(pk) <==> dr.time >= a.time || a.time == 0 || a.nonce != nonce
    {
      hide Loaded, Last, Lists, AllKeyed, Chained, Newest;
      LoadedKeys(db.feeds, pk);
      KeyedAt(db.feeds, pk, nonce);
      NewRoot(db.feeds, pk, nonce, rs, dr);
      ChainGrows(rs, dr);
      db.SetRoots(pk, nonce, rs[dr.num := dr]);
      PutLast(pk, nonce, dr);
    }

    /** Save a Root as the next one of its head: it gets the next seq, and names the one before it. */
    method SaveRoot(r: Root, now: int, sig: nat) returns (err: Error)
      requires Valid()
      modifies this`feeds, this`active, db, r
      ensures Valid() && err == if r.pub in old(db.feeds) then Done else NoSuchFeed
      ensures err != Done ==> db.feeds == old(db.feeds) && unchanged(r) && unchanged(this)
      ensures Besides(r.pub)
      ensures err == Done && old(Right(r.pub)) ==>
                var a := old(active)[r.pub];
                Right(r.pub) <==> now >= a.time || a.time == 0 || a.nonce != r.nonce
      ensures r.pub == old(r.pub) && r.nonce == old(r.nonce) && r.content == old(r.content)
      ensures err == Done ==>
                var rs := RootsOf(old(db.feeds), r.pub, r.nonce);
                r.num == (if rs == map[] then old(r.num) else Last(rs).value.num + 1)
                && r.prev == (if rs == map[] then old(r.prev) else Last(rs).value.hash)
                && r.hash == HashOf(r.pub, r.nonce, r.num, r.prev, now, r.content) && r.isFull && r.sig == sig
                && r.time == now
                && db.feeds == PutRoot(old(db.feeds), r.pub, r.nonce, DataRoot(r.num, r.prev, r.hash, now))
                && (Chained(rs) ==> Chained(RootsOf(db.feeds, r.pub, r.nonce)))
    {
      hide Loaded, Last, Lists, AllKeyed, Chained, Newest;
      if r.pub !in db.feeds {
        return NoSuchFeed;
      }
      KeyedAt(db.feeds, r.pub, r.nonce);
      var rs: Roots := map[];
      if r.nonce in db.feeds[r.pub] {
        rs := db.feeds[r.pub][r.nonce];
        var last := db.LastOf(r.pub, r.nonce);
        r.Follow(last);
      }
      LastNone(rs);
      AboveLast(rs);
      r.Seal(now, sig);
      PutNext(r.pub, r.nonce, rs, DataRoot(r.num, r.prev, r.hash, r.time));
      return Done;
    }

    // ---------------------------------------------------------------- delete

    /**
     Delete a Root from the database; if it is the last one, the one before it
     becomes the last.  Returns the Root that decides about the active head: the
     last one, or the deleted one if there is none any more.
     */
    method DelStored(pk: Pub, nonce: Nonce, num: nat) returns (ir: DataRoot)
      requires Valid() && HasHead(pk, nonce) && num in db.feeds[pk][nonce]
      modifies this`feeds, db
      ensures Valid() && db.feeds == WithoutRoot(old(db.feeds), pk, nonce, num)
      ensures pk in feeds && feeds[pk] == LoadedHeads(db.feeds[pk]) && pk in old(feeds) && nonce in old(feeds)[pk]
      ensures feeds[pk] == old(feeds)[pk][nonce := Last(old(db.feeds)[pk][nonce] - {num})]
      ensures ir == Deciding(old(db.feeds)[pk][nonce], num)
    {
      hide Loaded, Last, Lists, AllKeyed, LoadedHeads;
      LoadedKeys(db.feeds, pk);
      LoadedIs(db.feeds, pk, nonce);
      ir := feeds[pk][nonce].value;
      var rs := db.feeds[pk][nonce];
      KeyedAt(db.feeds, pk, nonce);
      KeyedWith(db.feeds, pk, nonce, rs - {num});
      ghost var last := LastSome(rs);
      LastNone(rs - {num});
      LoadedHead(db.feeds, pk, nonce, rs - {num});
      LoadedFeeds(WithoutRoot(db.feeds, pk, nonce, num), pk);
      if num != ir.num {
        LastDropped(rs, num);
        SameLast(db.feeds, pk, nonce, rs - {num});
        db.SetRoots(pk, nonce, rs - {num});
        return;
      }
      db.SetRoots(pk, nonce, rs - {num});
      var dr := db.LastOf(pk, nonce);
      Replace(pk, nonce, dr);
      if dr.Some? {
        ir := dr.value;
      }
    }

    /**
     Delete a Root.  If the Root that decides has the time of the active head,
     the active head is looked for, which panics if some head of the feed has no
     Root objects.
     */
    method DelRoot(pk: Pub, nonce: Nonce, num: nat) returns (hash: RootHash, err: Error)
      requires Valid()
      modifies this`feeds, this`active, db
      ensures Valid() && feedsl == old(feedsl) && Besides(pk)
      ensures err == NoSuchFeed <==> pk !in old(db.feeds)
      ensures err == NoSuchHead <==> pk in old(db.feeds) && nonce !in old(db.feeds)[pk]
      ensures err == NotFound <==> old(HasHead(pk, nonce)) && num !in old(db.feeds)[pk][nonce]
      ensures err in {NoSuchFeed, NoSuchHead, NotFound} ==> db.feeds == old(db.feeds) && unchanged(this)
      ensures old(HasHead(pk, nonce)) && num in old(db.feeds)[pk][nonce] ==>
                var rs, a := old(db.feeds)[pk][nonce], old(active)[pk];
                var ir := Deciding(rs, num);
                hash == rs[num].hash && db.feeds == WithoutRoot(old(db.feeds), pk, nonce, num)
                && err in {Done, Panicked}
                && (err == Panicked <==> ir.time == a.time && HasBlank(db.feeds[pk]))
                && (ir.time != a.time ==> active == old(active))
                && (err == Done && old(Right(pk)) ==>
                      (Right(pk) <==> num != Last(rs).value.num || ir.time == a.time
                                      || ((rs - {num} == map[] || ir.time <= a.time)
                                              && (a.time == 0 || a.nonce != nonce))))
    {
      hide Loaded, Last, Lists, AllKeyed, Newest, HasBlank, LoadedHeads;
      LoadedKeys(db.feeds, pk);
      if pk !in feeds {
        return BlankHash, NoSuchFeed;
      }
      LoadedIs(db.feeds, pk, nonce);
      if nonce !in feeds[pk] {
        return BlankHash, NoSuchHead;
      }
      var rs := db.feeds[pk][nonce];
      if num !in rs {
        return BlankHash, NotFound;
      }
      hash := rs[num].hash;
      KeyedAt(db.feeds, pk, nonce);
      ghost var h, a := feeds[pk], active[pk];
      var ir := DelStored(pk, nonce, num);
      BlankHead(db.feeds[pk]);
      LastNone(rs - {num});
      if ir.time == active[pk].time {
        var panics := SetActive(pk);
        return hash, if panics then Panicked else Done;
      }
      if Newest(h, a) {
        SettlesActive(h, a, rs, nonce, num);
      }
      return hash, Done;
    }

    /** Delete a head with all its Root objects, and tell their hashes. */
    method DelHead(pk: Pub, nonce: Nonce) returns (hashes: set<RootHash>, err: Error)
      requires Valid()
      modifies this`feeds, db
      ensures Valid()
        && err == if pk !in old(db.feeds) then NoSuchFeed else if nonce !in old(db.feeds)[pk] then NoSuchHead else Done
      ensures err != Done ==> db.feeds == old(db.feeds) && hashes == {}
      ensures err == Done ==>
              db.feeds == old(db.feeds)[pk := old(db.feeds)[pk] - {nonce}]
              && hashes == HashesOf(old(db.feeds)[pk][nonce])
      ensures err == Done && old(Right(pk)) ==>
                (Right(pk) <==> active[pk].time == 0 || active[pk].nonce != nonce)
    {
      hide Loaded, Last, Lists, AllKeyed, Newest;
      LoadedKeys(db.feeds, pk);
      if pk !in feeds {
        return {}, NoSuchFeed;
      }
      LoadedIs(db.feeds, pk, nonce);
      if nonce !in feeds[pk] {
        return {}, NoSuchHead;
      }
      hashes := RootHashes(db.feeds[pk][nonce]);
      LoadedLess(db.feeds, pk, nonce);
      KeyedLess(db.feeds, pk, nonce);
      db.feeds := db.feeds[pk := db.feeds[pk] - {nonce}];
      if Newest(feeds[pk], active[pk]) {
        NewestLess(feeds[pk], active[pk], nonce);
      }
      Forget(pk, nonce);
      return hashes, Done;
    }

    method Forget(pk: Pub, nonce: Nonce)
      requires pk in feeds && Cached()
      modifies this`feeds
      ensures feeds == old(feeds)[pk := old(feeds)[pk] - {nonce}] && Cached()
    {
      feeds := feeds[pk := feeds[pk] - {nonce}];
      assert feeds.Keys == old(feeds).Keys;
    }

    method RootHashes(rs: Roots) returns (hashes: set<RootHash>)
      ensures hashes == HashesOf(rs)
    {
      hashes := {};
      var left := rs.Keys;
      while left != {}
        invariant left <= rs.Keys && hashes == set s | s in rs && s !in left :: rs[s].hash
        decreases left
      {
        var s: nat :| s in left;
        hashes := hashes + {rs[s].hash};
        left := left - {s};
      }
    }

    /** Delete a feed with all its heads, and tell the hashes of all their Root objects. */
    method DelFeed(pk: Pub) returns (hashes: set<RootHash>, err: Error)
      requires Valid()
      modifies this, db
      ensures Valid() && err == if pk in old(db.feeds) then Done else NoSuchFeed
      ensures err != Done ==> db.feeds == old(db.feeds) && hashes == {}
      ensures err == Done ==> db.feeds == old(db.feeds) - {pk} && Besides(pk)
      ensures err == Done ==> forall h :: h in hashes <==> exists nonce ::
              nonce in old(db.feeds)[pk] && h in HashesOf(old(db.feeds)[pk][nonce])
    {
      hide Loaded, Last, Lists, AllKeyed, HashesOf;
      LoadedKeys(db.feeds, pk);
      hashes := {};
      if pk !in feeds {
        return {}, NoSuchFeed;
      }
      SameHeads(db.feeds, pk);
      var left := feeds[pk].Keys;
      while left != {}
        invariant Valid() && db.feeds == old(db.feeds) && unchanged(this) && left <= db.feeds[pk].Keys
        invariant forall h :: h in hashes <==> exists nonce ::
                nonce in db.feeds[pk] && nonce !in left && h in HashesOf(db.feeds[pk][nonce])
        decreases left
      {
        var nonce: Nonce :| nonce in left;
        var more := RootHashes(db.feeds[pk][nonce]);
        hashes := hashes + more;
        left := left - {nonce};
      }
      LoadedFeed(db.feeds, pk);
      KeyedOthers(db.feeds, pk);
      db.feeds := db.feeds - {pk};
      feeds, active := feeds - {pk}, active - {pk};
      feedsl := [];
      return hashes, Done;
    }

    // ------------------------------------------------------------------ list

    /** All feeds; the list is built once until they change. */
    method Feeds() returns (pks: seq<Pub>)
      requires Valid()
      modifies this`feedsl
      ensures Valid() && Lists(pks, db.feeds.Keys)
    {
      LoadedKeys(db.feeds, 0);
      if feedsl != [] {
        ListsAll(feedsl, feeds.Keys);
      }
      if |feedsl| != |feeds| {
        var more := Listing(feeds.Keys);
        feedsl := feedsl + more;
      }
      return feedsl;
    }

    method HeadsOf(pk: Pub) returns (nonces: seq<Nonce>, err: Error)
      requires Valid()
      ensures err == if pk in db.feeds then Done else NoSuchFeed
      ensures err == Done ==> Lists(nonces, db.feeds[pk].Keys)
    {
      if pk !in feeds {
        return [], NoSuchFeed;
      }
      SameHeads(db.feeds, pk);
      nonces := Listing(feeds[pk].Keys);
      return nonces, Done;
    }
  }

  lemma {:induction false} ListsAll<T(!new)>(s: seq<T>, keys: set<T>)
    requires Lists(s, keys)
    ensures |s| == |keys|
  {
    if s == [] {
      assert keys == {};
    } else {
      var n := |s| - 1;
      assert s == s[..n] + [s[n]];
      ListsAll(s[..n], keys - {s[n]});
    }
  }

  /** The elements in any order. */
  method Listing<T(==, !new)>(keys: set<T>) returns (s: seq<T>)
    ensures Lists(s, keys)
  {
    s := [];
    var left := keys;
    while left != {}
      invariant left <= keys && Lists(s, keys - left)
      decreases left
    {
      var x :| x in left;
      s := s + [x];
      left := left - {x};
    }
  }

  // ----------------------------------------------------------------- removal

  ghost predicate AllChained(db: Feeds) {
    forall pk <- db :: forall nonce <- db[pk] :: Chained(db[pk][nonce])
  }

  /** Some heads pruned. */
  ghost function PrunedHeads(hs: Heads, k: nat, done: set<Nonce>): Heads {
    map nonce | nonce in hs :: if nonce in done then Pruned(hs[nonce], k) else hs[nonce]
  }

  /** Every head of some feeds pruned. */
  ghost function PrunedFeeds(db: Feeds, k: nat, done: set<Pub>): Feeds {
    map pk | pk in db :: if pk in done then PrunedHeads(db[pk], k, db[pk].Keys) else db[pk]
  }

  /** Something is to be removed from a head whose last Root has the time of the active head. */
  ghost predicate Touches(rs: Roots, a: Active, k: nat) {
    rs != map[] && Pruned(rs, k) != rs && Last(rs).value.time == a.time
  }

  /** Removing panics: some head of the feed has no Root objects, and the active head is looked for. */
  ghost predicate Blocked(hs: Heads, a: Active, k: nat) {
    HasBlank(hs) && exists nonce :: nonce in hs && Touches(hs[nonce], a, k)
  }

  function Elements<T>(s: seq<T>): set<T> {
    set x <- s :: x
  }

  lemma NoElements<T(!new)>(s: seq<T>)
    ensures Elements(s[..0]) == {}
  {
  }

  lemma MoreElements<T(!new)>(s: seq<T>, i: nat)
    requires i < |s|
    ensures Elements(s[..i + 1]) == Elements(s[..i]) + {s[i]}
    ensures (forall j | 0 <= j < i :: s[j] != s[i]) ==> s[i] !in Elements(s[..i])
  {
    var a, b := s[..i], s[..i + 1];
    assert b == a + [s[i]];
    assert forall x :: x in Elements(a) <==> x in a;
    assert forall x :: x in Elements(b) <==> x in b;
    assert forall x :: x in b <==> x in a || x == s[i];
  }

  lemma HeadPruned(hs: Heads, k: nat, done: set<Nonce>, nonce: Nonce)
    requires nonce in hs && nonce !in done
    ensures nonce in PrunedHeads(hs, k, done) && PrunedHeads(hs, k, done)[nonce] == hs[nonce]
    ensures PrunedHeads(hs, k, done + {nonce}) == PrunedHeads(hs, k, done)[nonce := Pruned(hs[nonce], k)]
  {
  }

  lemma FeedPruned(db: Feeds, k: nat, done: set<Pub>, pk: Pub)
    requires pk in db && pk !in done
    ensures pk in PrunedFeeds(db, k, done) && PrunedFeeds(db, k, done)[pk] == db[pk]
    ensures PrunedFeeds(db, k, done + {pk}) == PrunedFeeds(db, k, done)[pk := PrunedHeads(db[pk], k, db[pk].Keys)]
  {
  }

  lemma NothingPruned(db: Feeds, k: nat, pk: Pub)
    ensures PrunedFeeds(db, k, {}) == db
    ensures pk in db ==> PrunedHeads(db[pk], k, {}) == db[pk] && db[pk := db[pk]] == db
  {
  }

  /** Pruning leaves something in every head that has something. */
  lemma BlanksStay(hs: Heads, k: nat, done: set<Nonce>)
    requires k >= 1 && forall nonce <- hs :: Keyed(hs[nonce])
    ensures HasBlank(PrunedHeads(hs, k, done)) <==> HasBlank(hs)
  {
    hide Pruned, Keyed;
    var p := PrunedHeads(hs, k, done);
    forall nonce | nonce in hs
      ensures p[nonce] == map[] <==> hs[nonce] == map[]
    {
      PrunedKeeps(hs[nonce], k);
    }
    if HasBlank(hs) {
      var nonce :| nonce in hs && hs[nonce] == map[];
      assert nonce in p && p[nonce] == map[];
    }
  }

  /** Replacing a head of a feed that has been replaced. */
  lemma PutHead(db: Feeds, pk: Pub, hs: Heads, nonce: Nonce, rs: Roots)
    ensures db[pk := hs][pk := db[pk := hs][pk][nonce := rs]] == db[pk := hs[nonce := rs]]
  {
  }

  /** Taking one seq more out of a head that has been replaced. */
  lemma TakeRoot(db: Feeds, pk: Pub, nonce: Nonce, cur: Roots, s: nat)
    requires pk in db
    ensures var d := db[pk := db[pk][nonce := cur]];
            WithoutRoot(d, pk, nonce, s) == db[pk := db[pk][nonce := cur - {s}]]
  {
    assert db[pk][nonce := cur][nonce := cur - {s}] == db[pk][nonce := cur - {s}];
  }

  /** Replacing a head that has something by something keeps it so whether some head has nothing. */
  lemma BlankBeside(hs: Heads, nonce: Nonce, rs: Roots)
    requires nonce in hs && hs[nonce] != map[] && rs != map[]
    ensures HasBlank(hs[nonce := rs]) <==> HasBlank(hs)
  {
    var g := hs[nonce := rs];
    if HasBlank(hs) {
      var n :| n in hs && hs[n] == map[];
      assert n in g && g[n] == map[];
    }
    if HasBlank(g) {
      var n :| n in g && g[n] == map[];
      assert n in hs && hs[n] == map[];
    }
  }

  /** A Root below the last one is deleted: the last one decides. */
  lemma LastDecides(rs: Roots, num: nat, s: nat)
    requires Keyed(rs) && IsLast(rs, num) && s in rs && s < num
    ensures Deciding(rs, s) == rs[num] == Last(rs).value && Last(rs - {s}) == Last(rs) && rs - {s} != map[]
    ensures IsLast(rs - {s}, num) && Keyed(rs - {s})
  {
    LastIs(rs, num);
    LastIs(rs - {s}, num);
    assert num in rs - {s};
  }

  /** Delete one more Root of a head, of which `cur` are left, below the last one. */
  method RemoveOne(c: Index, pk: Pub, nonce: Nonce, s: nat, ghost num: nat, ghost db: Feeds, ghost cur: Roots)
    returns (err: Error)
    requires c.Valid() && pk in db && nonce in db[pk] && db[pk][nonce] != map[]
    requires c.db.feeds == db[pk := db[pk][nonce := cur]] && IsLast(cur, num) && s < num
    modifies c`feeds, c`active, c.db
    ensures c.Valid() && c.feedsl == old(c.feedsl) && c.Besides(pk) && pk in old(c.active) && pk in c.active
    ensures s !in cur ==> err == NotFound && c.db.feeds == old(c.db.feeds) && c.active == old(c.active)
    ensures s in cur ==>
            c.db.feeds == db[pk := db[pk][nonce := cur - {s}]] && IsLast(cur - {s}, num) && err in {Done, Panicked}
            && (err == Panicked <==> cur[num].time == old(c.active)[pk].time && HasBlank(db[pk]))
            && (err == Done && HasBlank(db[pk]) ==> c.active == old(c.active))
  {
    hide Loaded, Lists, AllKeyed, Chained, Last, HasBlank, Newest;
    KeyedAt(c.db.feeds, pk, nonce);
    LoadedKeys(c.db.feeds, pk);
    TakeRoot(db, pk, nonce, cur, s);
    if s in cur {
      LastDecides(cur, num, s);
      BlankBeside(db[pk], nonce, cur - {s});
    }
    var hash;
    hash, err := c.DelRoot(pk, nonce, s);
    LoadedKeys(c.db.feeds, pk);
  }

  /** Remove the Root objects of a head but for the last ones. */
  method RemoveFromHead(c: Index, pk: Pub, nonce: Nonce, keepLast: nat) returns (panics: bool)
    requires c.Valid() && c.HasHead(pk, nonce) && keepLast >= 1
    modifies c`feeds, c`active, c.db
    ensures c.Valid() && c.feedsl == old(c.feedsl) && c.Besides(pk) && pk in old(c.active) && pk in c.active
    ensures panics <==>
            HasBlank(old(c.db.feeds)[pk]) && Touches(old(c.db.feeds)[pk][nonce], old(c.active)[pk], keepLast)
    ensures !panics && HasBlank(old(c.db.feeds)[pk]) ==> c.active == old(c.active)
    ensures !panics ==>
            c.db.feeds ==
            old(c.db.feeds)[pk := old(c.db.feeds)[pk][nonce := Pruned(old(c.db.feeds)[pk][nonce], keepLast)]]
  {
    hide Loaded, Lists, AllKeyed, Chained, Last, HasBlank, Newest, Cut;
    ghost var db, rs := c.db.feeds, c.db.feeds[pk][nonce];
    LoadedKeys(db, pk);
    SameRoots(db, pk, nonce);
    KeyedAt(db, pk, nonce);
    var num, err := c.LastRootSeq(pk, nonce);
    if err != Done {
      return false;
    }
    LastIs(rs, num);
    if num < keepLast {
      return false;
    }
    PrunedCut(rs, num, keepLast);
    panics := RemoveDown(c, pk, nonce, num - keepLast, num);
  }

  /** Delete Root objects downwards until one is not there. */
  method RemoveDown(c: Index, pk: Pub, nonce: Nonce, from: nat, ghost num: nat) returns (panics: bool)
    requires c.Valid() && c.HasHead(pk, nonce) && IsLast(c.db.feeds[pk][nonce], num) && from < num
    modifies c`feeds, c`active, c.db
    ensures c.Valid() && c.feedsl == old(c.feedsl) && c.Besides(pk) && pk in old(c.active) && pk in c.active
    ensures var rs := old(c.db.feeds)[pk][nonce];
            panics <==> HasBlank(old(c.db.feeds)[pk]) && from in rs && rs[num].time == old(c.active)[pk].time
    ensures !panics && HasBlank(old(c.db.feeds)[pk]) ==> c.active == old(c.active)
    ensures !panics ==>
            c.db.feeds == old(c.db.feeds)[pk := old(c.db.feeds)[pk][nonce := Cut(old(c.db.feeds)[pk][nonce], from)]]
  {
    hide Loaded, Lists, AllKeyed, Chained, Last, HasBlank, Newest, Cut, Sans, Keyed;
    ghost var db, rs := c.db.feeds, c.db.feeds[pk][nonce];
    LoadedKeys(db, pk);
    SameRoots(db, pk, nonce);
    var goDown, err := from, Done;
    SansMore(rs, from, from);
    while goDown > 0
      invariant 0 <= goDown <= from && c.Valid() && c.feedsl == old(c.feedsl) && c.Besides(pk) && pk in c.active
      invariant forall u: nat | goDown < u <= from :: u in rs
      invariant IsLast(Sans(rs, goDown, from), num) && Sans(rs, goDown, from)[num] == rs[num]
      invariant c.db.feeds == db[pk := db[pk][nonce := Sans(rs, goDown, from)]]
      invariant HasBlank(db[pk]) ==> c.active == old(c.active)
      invariant if goDown == from then c.active == old(c.active)
                else from in rs && (HasBlank(db[pk]) ==> rs[num].time != old(c.active)[pk].time)
    {
      SansMore(rs, goDown, from);
      err := RemoveOne(c, pk, nonce, goDown, num, db, Sans(rs, goDown, from));
      if err == Panicked {
        return true;
      }
      if err != Done {
        CutIs(rs, goDown, from);
        return false;
      }
      goDown := goDown - 1;
    }
    SansMore(rs, 0, from);
    err := RemoveOne(c, pk, nonce, 0, num, db, Sans(rs, 0, from));
    CutEnds(rs, from);
    return err == Panicked;
  }

  lemma PrunedCut(rs: Roots, num: nat, k: nat)
    requires Keyed(rs) && IsLast(rs, num) && 1 <= k <= num
    ensures Pruned(rs, k) == Cut(rs, num - k) && Last(rs) == Some(rs[num]) && rs != map[]
    ensures Pruned(rs, k) != rs <==> num - k in rs
  {
    hide Cut;
    LastIs(rs, num);
    CutFirst(rs, num - k);
  }

  lemma CutEnds(rs: Roots, s: nat)
    requires forall u: nat | 0 < u <= s :: u in rs
    ensures Cut(rs, s) == Sans(rs, if 0 in rs then -1 else 0, s)
  {
    hide Cut, Sans;
    CutIs(rs, if 0 in rs then -1 else 0, s);
  }

  /** One seq less. */
  lemma SansMore(rs: Roots, lo: nat, s: nat)
    requires lo <= s
    ensures Sans(rs, lo, s) - {lo} == Sans(rs, lo - 1, s) && (lo in Sans(rs, lo, s) <==> lo in rs)
    ensures Sans(rs, s, s) == rs
  {
  }

  method RemoveFromFeed(c: Index, pk: Pub, keepLast: nat) returns (panics: bool)
    requires c.Valid() && pk in c.db.feeds && keepLast >= 1
    modifies c`feeds, c`active, c.db
    ensures c.Valid() && c.feedsl == old(c.feedsl) && c.Besides(pk) && pk in old(c.active)
    ensures panics <==> Blocked(old(c.db.feeds)[pk], old(c.active)[pk], keepLast)
    ensures !panics ==>
            c.db.feeds == old(c.db.feeds)[pk := PrunedHeads(old(c.db.feeds)[pk], keepLast, old(c.db.feeds)[pk].Keys)]
  {
    hide Loaded, Lists, AllKeyed, Chained, Last, HasBlank, Pruned, PrunedHeads, Elements, Touches;
    ghost var db, a := c.db.feeds, c.active;
    LoadedKeys(db, pk);
    NothingPruned(db, keepLast, pk);
    AllKeyedIs(db, pk);
    var heads, err := c.HeadsOf(pk);
    NoElements(heads);
    for i := 0 to |heads|
      invariant c.Valid() && c.feedsl == old(c.feedsl) && c.Besides(pk)
      invariant c.db.feeds == db[pk := PrunedHeads(db[pk], keepLast, Elements(heads[..i]))]
      invariant HasBlank(db[pk]) ==>
              c.active == a && forall j | 0 <= j < i :: !Touches(db[pk][heads[j]], a[pk], keepLast)
    {
      MoreElements(heads, i);
      HeadPruned(db[pk], keepLast, Elements(heads[..i]), heads[i]);
      BlanksStay(db[pk], keepLast, Elements(heads[..i]));
      PutHead(db, pk, PrunedHeads(db[pk], keepLast, Elements(heads[..i])), heads[i],
          Pruned(db[pk][heads[i]], keepLast));
      panics := RemoveFromHead(c, pk, heads[i], keepLast);
      if panics {
        return;
      }
    }
    AllListed(heads, db[pk].Keys);
    return false;
  }

  lemma AllKeyedIs(db: Feeds, pk: Pub)
    requires AllKeyed(db) && pk in db
    ensures forall nonce <- db[pk] :: Keyed(db[pk][nonce])
  {
  }

  lemma AllListed<T(!new)>(s: seq<T>, keys: set<T>)
    requires Lists(s, keys)
    ensures Elements(s[..|s|]) == keys
  {
    assert s[..|s|] == s;
  }

  /**
   Remove old Root objects, keeping the last ones of every head.  It panics
   exactly if there is a feed in which some head has no Root objects, and
   something is to be removed from a head whose last Root has the time of the
   active head.
   */
  method RemoveRootObjects(c: Index, keepLast: nat) returns (panics: bool)
    requires c.Valid() && keepLast >= 1
    modifies c, c.db
    ensures c.Valid() && old(c.active).Keys == old(c.db.feeds).Keys
    ensures panics <==>
            exists pk :: pk in old(c.db.feeds) && Blocked(old(c.db.feeds)[pk], old(c.active)[pk], keepLast)
    ensures !panics ==> c.db.feeds == PrunedFeeds(old(c.db.feeds), keepLast, old(c.db.feeds).Keys)
  {
    hide Loaded, AllKeyed, Chained, Last, Pruned, PrunedHeads, PrunedFeeds, Elements, Blocked;
    ghost var db, a := c.db.feeds, c.active;
    LoadedKeys(db, 0);
    NothingPruned(db, keepLast, 0);
    var pks := c.Feeds();
    NoElements(pks);
    for i := 0 to |pks|
      invariant c.Valid() && c.db.feeds == PrunedFeeds(db, keepLast, Elements(pks[..i])) && c.db.feeds.Keys == db.Keys
      invariant forall j | i <= j < |pks| :: pks[j] in c.active && c.active[pks[j]] == a[pks[j]]
      invariant forall j | 0 <= j < i :: !Blocked(db[pks[j]], a[pks[j]], keepLast)
    {
      LoadedKeys(c.db.feeds, 0);
      MoreElements(pks, i);
      FeedPruned(db, keepLast, Elements(pks[..i]), pks[i]);
      panics := RemoveFromFeed(c, pks[i], keepLast);
      if panics {
        return;
      }
    }
    AllListed(pks, db.Keys);
    return false;
  }

  /** Of chained heads the last Root objects are left, exactly, and they stay chained. */
  lemma KeptChained(db: Feeds, k: nat)
    requires AllChained(db)
    ensures AllChained(PrunedFeeds(db, k, db.Keys))
    ensures forall pk, nonce :: pk in db && nonce in db[pk] ==>
              PrunedFeeds(db, k, db.Keys)[pk][nonce] == KeepLast(db[pk][nonce], k)
  {
    hide KeepLast, Chained, Pruned;
    forall pk, nonce | pk in db && nonce in db[pk]
      ensures Pruned(db[pk][nonce], k) == KeepLast(db[pk][nonce], k) && Chained(KeepLast(db[pk][nonce], k))
    {
      PrunedIs(db[pk][nonce], k);
      KeepChained(db[pk][nonce], k);
    }
  }

  // -------------------------------------------------------------------- runs

  /** What is done to an index. */
  datatype Op =
    | AddFeed(pk: Pub)
    | AddHead(pk: Pub, nonce: Nonce)
    | Save(pk: Pub, nonce: Nonce, content: nat, now: int, sig: nat)
    | Receive(pk: Pub, nonce: Nonce, num: nat, prev: RootHash, time: int, content: nat, sig: nat)
    | DelRoot(pk: Pub, nonce: Nonce, num: nat)
    | DelHead(pk: Pub, nonce: Nonce)
    | DelFeed(pk: Pub)
    | Remove(keepLast: nat)
    | Reload
  {
    /** The operation makes no gaps and no heads without Root objects. */
    predicate Plain() {
      !Receive? && !DelRoot? && !AddHead?
    }
  }

  ghost predicate NoBlanks(db: Feeds) {
    forall pk <- db :: !HasBlank(db[pk])
  }

  /** Add a Root that has been received, unless its head has a later one. */
  method Receive(c: Index, pk: Pub, nonce: Nonce, num: nat, prev: RootHash, time: int, content: nat, sig: nat)
    requires c.Valid()
    modifies c`feeds, c`active, c.db
    ensures c.Valid()
  {
    hide Loaded, AllKeyed, Chained, Last, Lists;
    var last, err := c.LastRootSeq(pk, nonce);
    if err == Done {
      LastIs(c.db.feeds[pk][nonce], last);
      KeyedAt(c.db.feeds, pk, nonce);
      if num <= last {
        return;
      }
    }
    var r := FullRoot(pk, nonce, num, prev, time, content, sig);
    var already;
    already, err := c.AddRoot(r);
  }

  /** Remove old Root objects; the process starts again if that panics. */
  method Clean(c: Index, keepLast: nat) returns (d: Index)
    requires c.Valid() && keepLast >= 1
    modifies c, c.db
    ensures d.Valid() && d.db == c.db && (d == c || fresh(d))
    ensures old(Neat(c.db.feeds)) ==> Neat(d.db.feeds)
  {
    hide Loaded, AllKeyed, Chained, Last, PrunedFeeds, HasBlank;
    ghost var db := c.db.feeds;
    var panics := RemoveRootObjects(c, keepLast);
    d := c;
    if panics {
      d := new Index(c.db);
    } else if Neat(db) {
      KeptChained(db, keepLast);
      StillNoBlanks(db, keepLast);
    }
  }

  /** Any run: the index is what would be loaded, whatever has been done; a panic starts the process again. */
  method Run(ops: seq<Op>) returns (c: Index)
    requires forall op <- ops :: op.Remove? ==> op.keepLast >= 1
    ensures c.Valid()
    ensures (forall op <- ops :: op.Plain()) ==> AllChained(c.db.feeds)
  {
    hide Loaded, AllKeyed, Chained, Last, HasBlank, NoBlanks;
    var db := new Database();
    c := new Index(db);
    NothingYet();
    for i := 0 to |ops|
      invariant c.Valid() && fresh(c) && fresh(c.db)
      invariant (forall op <- ops :: op.Plain()) ==> Neat(c.db.feeds)
    {
      assert ops[i] in ops;
      c := Perform(c, ops[i]);
    }
  }

  method Perform(c: Index, op: Op) returns (d: Index)
    requires c.Valid() && (op.Remove? ==> op.keepLast >= 1)
    modifies c, c.db
    ensures d.Valid() && d.db == c.db && (d == c || fresh(d))
    ensures op.Plain() && old(Neat(c.db.feeds)) ==> Neat(d.db.feeds)
  {
    hide Loaded, AllKeyed, Chained, Last, HasBlank, NoBlanks, AllChained, Neat;
    ghost var before := c.db.feeds;
    d := c;
    match op
    case AddFeed(pk) =>
      c.AddFeed(pk);
      EmptyFeed(before, pk);
    case AddHead(pk, nonce) =>
      var err := c.AddHead(pk, nonce);
      d := new Index(c.db);
    case Save(pk, nonce, content, now, sig) =>
      var r := new Root(pk, nonce, content);
      var err := c.SaveRoot(r, now, sig);
      if err == Done {
        SavedChained(before, pk, nonce, DataRoot(r.num, r.prev, r.hash, now));
      }
    case Receive(pk, nonce, num, prev, time, content, sig) => Receive(c, pk, nonce, num, prev, time, content, sig);
    case DelRoot(pk, nonce, num) =>
      var hash, err := c.DelRoot(pk, nonce, num);
      if err == Panicked {
        d := new Index(c.db);
      }
    case DelHead(pk, nonce) =>
      var hashes, err := c.DelHead(pk, nonce);
      LessChained(before, pk, nonce);
    case DelFeed(pk) =>
      var hashes, err := c.DelFeed(pk);
      LessChained(before, pk, 0);
    case Remove(keepLast) => d := Clean(c, keepLast);
    case Reload => d := new Index(c.db);
  }

  lemma NothingYet()
    ensures Neat(map[])
  {
  }

  /** Everything is chained, and there are no heads without Root objects. */
  ghost predicate Neat(db: Feeds) {
    AllChained(db) && NoBlanks(db)
  }

  lemma EmptyFeed(db: Feeds, pk: Pub)
    ensures Neat(db) ==> Neat(db[pk := map[]])
  {
  }

  lemma SavedChained(db: Feeds, pk: Pub, nonce: Nonce, dr: DataRoot)
    requires pk in db
    ensures Neat(db) ==> Chained(RootsOf(db, pk, nonce))
    ensures Neat(db) && Chained(RootsOf(PutRoot(db, pk, nonce, dr), pk, nonce)) ==> Neat(PutRoot(db, pk, nonce, dr))
  {
    var rs := RootsOf(db, pk, nonce)[dr.num := dr];
    assert dr.num in rs;
    NoMoreBlank(db[pk], nonce, rs);
  }

  lemma NoMoreBlank(hs: Heads, nonce: Nonce, rs: Roots)
    requires rs != map[]
    ensures HasBlank(hs[nonce := rs]) ==> HasBlank(hs)
  {
    var g := hs[nonce := rs];
    if HasBlank(g) {
      var n :| n in g && g[n] == map[];
      assert n in hs && hs[n] == map[];
    }
  }

  lemma LessChained(db: Feeds, pk: Pub, nonce: Nonce)
    ensures Neat(db) ==> Neat(db - {pk}) && (pk in db ==> Neat(db[pk := db[pk] - {nonce}]))
  {
  }

  lemma StillNoBlanks(db: Feeds, k: nat)
    requires Neat(db) && k >= 1
    ensures NoBlanks(PrunedFeeds(db, k, db.Keys))
  {
    hide HasBlank, PrunedHeads;
    forall pk | pk in db
      ensures !HasBlank(PrunedHeads(db[pk], k, db[pk].Keys))
    {
      BlanksStay(db[pk], k, db[pk].Keys);
    }
  }

  // ------------------------------------------------------------------- panics

  /** A feed without heads. */
  method NewFeed(pk: Pub) returns (c: Index)
    ensures fresh(c) && fresh(c.db) && c.Valid() && c.db.feeds == map[pk := map[]] && c.Right(pk)
    ensures c.feeds == map[pk := map[]] && c.active == map[pk := Active(0, 0)]
  {
    hide Lists, AllKeyed;
    var db := new Database();
    c := new Index(db);
    c.AddFeed(pk);
    LoadedFeeds(db.feeds, pk);
    LoadedKeys(db.feeds, pk);
  }

  /** A full Root. */
  method FullRoot(pk: Pub, nonce: Nonce, num: nat, prev: RootHash, time: int, content: nat, sig: nat) returns (r: Root)
    ensures fresh(r) && r.pub == pk && r.nonce == nonce && r.num == num && r.prev == prev && r.time == time
    ensures r.sig == sig && r.isFull && r.hash == HashOf(pk, nonce, num, prev, time, content)
  {
    r := new Root(pk, nonce, content);
    r.num, r.prev, r.time, r.sig, r.isFull := num, prev, time, sig, true;
    r.hash := HashOf(pk, nonce, num, prev, time, content);
  }

  /** A feed with one head and one Root. */
  method OneRoot(pk: Pub, nonce: Nonce, content: nat, now: int, sig: nat) returns (c: Index, r: Root)
    requires now >= 0
    ensures fresh(c) && fresh(c.db) && c.Valid() && r.num == 0 && r.hash != BlankHash
    ensures var dr := DataRoot(0, BlankHash, r.hash, now);
            c.db.feeds == map[pk := map[nonce := map[0 := dr]]]
            && c.active == map[pk := if now > 0 then Active(nonce, now) else Active(0, 0)]
  {
    hide Loaded, Lists, AllKeyed, Chained;
    c := NewFeed(pk);
    ghost var db := c.db;
    r := new Root(pk, nonce, content);
    var err := c.SaveRoot(r, now, sig);
    ghost var dr := DataRoot(0, BlankHash, r.hash, now);
    assert db.feeds[pk] == map[nonce := map[0 := dr]];
    LoadedIs(db.feeds, pk, nonce);
    LastIs(map[0 := dr], 0);
    SameHeads(db.feeds, pk);
    LoadedKeys(db.feeds, pk);
    assert c.feeds[pk].Keys == {nonce} && c.feeds[pk][nonce] == Some(dr) && c.Right(pk);
    assert c.active.Keys == {pk};
  }

  /** Deleting the only Root of a feed panics. */
  method OnlyRoot(pk: Pub, nonce: Nonce, content: nat, now: int, sig: nat) returns (c: Index, err: Error)
    requires now >= 0
    ensures c.Valid() && err == Panicked
  {
    hide Loaded, Lists, AllKeyed, Chained, Newest;
    var r;
    c, r := OneRoot(pk, nonce, content, now, sig);
    ghost var dr := DataRoot(0, BlankHash, r.hash, now);
    assert c.db.feeds[pk][nonce] - {0} == map[] && Deciding(map[0 := dr], 0) == dr;
    var hash;
    hash, err := c.DelRoot(pk, nonce, 0);
    assert nonce in c.db.feeds[pk] && c.db.feeds[pk][nonce] == map[];
  }

  // ---------------------------------------------------------------- witnesses

  /** The active head stays when it is deleted. */
  method GoneHead(pk: Pub, nonce: Nonce, content: nat, now: int, sig: nat) returns (c: Index, head: Nonce)
    requires now > 0
    ensures c.Valid() && pk in c.db.feeds && nonce !in c.db.feeds[pk] && head == nonce
  {
    hide Loaded, Lists, AllKeyed, Chained;
    var r;
    c, r := OneRoot(pk, nonce, content, now, sig);
    var hashes, err := c.DelHead(pk, nonce);
    head := c.ActiveHead(pk);
  }

  /** An older Root takes the place of the last one. */
  method OlderRoot(pk: Pub, nonce: Nonce, num: nat, older: nat, time: int, content: nat, sig: nat) returns (c: Index)
    requires pk != 0 && sig != 0 && older < num
    ensures !c.Valid()
  {
    hide Loaded, Lists, AllKeyed, Chained, Newest;
    c := NewFeed(pk);
    var r := FullRoot(pk, nonce, num, BlankHash, time, content, sig);
    var already, err := c.AddRoot(r);
    ghost var dr := DataRoot(num, BlankHash, r.hash, time);
    assert c.db.feeds[pk] == map[nonce := map[num := dr]];
    LastIs(map[num := dr], num);
    var s := FullRoot(pk, nonce, older, BlankHash, time, content, sig);
    already, err := c.AddRoot(s);
  }
}
