/** The write-behind cache in front of the store. */
module Caching {
  import opened Totals
  import opened Hashing
  import opened Cxds
  import opened CacheState

  datatype Policy = LRU | LFU

  /** What is sent to those who wait for an object. */
  datatype Object = Object(key: Key, val: Bytes, rc: int, err: Error)

  class Item {
    var fwant: map<Chan, nat>
    var points: int
    var fc: nat
    var cc: nat
    var rc: nat
    var val: Bytes

    ghost function Rec(): Record
      reads this
    {
      Record(fwant, points, fc, cc, rc, val)
    }

    constructor (cc: nat, rc: nat, val: Bytes)
      ensures Rec() == Record(map[], 0, 0, cc, rc, val)
    {
      fwant, points, fc, this.cc, this.rc, this.val := map[], 0, 0, cc, rc, val;
    }

    predicate IsWanted()
      reads this
    {
      |fwant| > 0
    }

    predicate IsFilling()
      reads this
    {
      |val| == 0
    }

    /** Take the value away. */
    method Blank()
      modifies this`val, this`rc, this`cc, this`points
      ensures Rec() == Blanked(old(Rec()))
    {
      val := [];
      rc := 0;
      cc := 0;
      points := 0;
    }

    /** A value of the store, with its counter. */
    method Give(val: Bytes, rc: nat)
      modifies this`val, this`rc, this`cc
      ensures this.val == val && this.rc == this.cc == rc
    {
      this.val := val;
      this.rc := rc;
      this.cc := rc;
    }

    /** Points by the time of the last access, or by the number of accesses. */
    method Touch(policy: Policy, now: int)
      modifies this`points
      ensures points == Touched(policy, old(points), now)
      ensures policy == LRU ==> points == now
      ensures policy == LFU ==> points == old(points) + 1
    {
      match policy
      case LRU => points := now;
      case LFU => points := points + 1;
    }
  }

  function Touched(policy: Policy, points: int, now: int): int {
    match policy
    case LRU => now
    case LFU => points + 1
  }

  /** An item with a rank; the reference is cleared once the item is evicted. */
  datatype RankItem = RankItem(key: Key, points: int, it: Item?)

  ghost predicate Distinct(rank: seq<RankItem>) {
    forall i, j :: 0 <= i < j < |rank| ==> rank[i].key != rank[j].key
  }

  ghost predicate Ranked(rank: seq<RankItem>) {
    forall i, j :: 0 <= i < j < |rank| ==> rank[i].points <= rank[j].points
  }

  /** The same entries in any order. */
  ghost predicate Reordered(a: seq<RankItem>, b: seq<RankItem>) {
    |a| == |b| && (forall r <- a :: r in b) && (forall r <- b :: r in a) && (Distinct(a) ==> Distinct(b))
  }

  /** An entry put in between. */
  function PutAt(rank: seq<RankItem>, i: nat, r: RankItem): (out: seq<RankItem>)
    requires i <= |rank|
    ensures |out| == |rank| + 1
    ensures forall j :: 0 <= j <= |rank| ==> out[j] == if j < i then rank[j] else if j == i then r else rank[j - 1]
  {
    rank[..i] + [r] + rank[i..]
  }

  lemma PutRanked(rank: seq<RankItem>, i: nat, r: RankItem)
    requires i <= |rank| && Ranked(rank)
    requires i > 0 ==> rank[i - 1].points <= r.points
    requires i < |rank| ==> r.points <= rank[i].points
    ensures Ranked(PutAt(rank, i, r))
  {
  }

  lemma PutMembers(rank: seq<RankItem>, i: nat, r: RankItem)
    requires i <= |rank|
    ensures var out := PutAt(rank, i, r);
            (forall q <- out :: q == r || q in rank) && r in out && (forall q <- rank :: q in out)
    ensures Distinct(rank) && (forall q <- rank :: q.key != r.key) ==> Distinct(PutAt(rank, i, r))
  {
    var out := PutAt(rank, i, r);
    assert out[i] == r;
    forall q <- rank
      ensures q in out
    {
      var j :| 0 <= j < |rank| && rank[j] == q;
      assert out[if j < i then j else j + 1] == q;
    }
  }

  /** Put an entry where it belongs. */
  method Insert(rank: seq<RankItem>, r: RankItem) returns (out: seq<RankItem>)
    requires Ranked(rank)
    ensures Ranked(out) && |out| == |rank| + 1 && (forall q <- out :: q == r || q in rank) && r in out
      && (forall q <- rank :: q in out)
    ensures Distinct(rank) && (forall q <- rank :: q.key != r.key) ==> Distinct(out)
  {
    hide PutAt, Ranked, Distinct;
    var i := |rank|;
    while i > 0 && rank[i - 1].points > r.points
      invariant 0 <= i <= |rank| && (i < |rank| ==> r.points <= rank[i].points)
    {
      i := i - 1;
    }
    out := PutAt(rank, i, r);
    PutRanked(rank, i, r);
    PutMembers(rank, i, r);
  }

  /** Sort by points; entries with the same points come in any order. */
  method Sort(rank: seq<RankItem>) returns (out: seq<RankItem>)
    ensures Ranked(out) && Reordered(rank, out)
  {
    out := [];
    for i := 0 to |rank|
      invariant Ranked(out) && |out| == i && (forall r <- out :: r in rank[..i]) && (forall r <- rank[..i] :: r in out)
        && (Distinct(rank) ==> Distinct(out))
    {
      assert rank[..i + 1] == rank[..i] + [rank[i]];
      assert Distinct(rank) ==> forall r <- out :: r.key != rank[i].key;
      out := Insert(out, rank[i]);
    }
    assert rank[..|rank|] == rank;
  }

  function KeysOf(rank: seq<RankItem>): set<Key> {
    set r <- rank :: r.key
  }

  lemma KeysNext(rank: seq<RankItem>, p: nat)
    requires p < |rank|
    ensures KeysOf(rank[..p + 1]) == KeysOf(rank[..p]) + {rank[p].key}
    ensures Distinct(rank) ==>
            rank[p].key !in KeysOf(rank[..p]) && forall q | p < q < |rank| :: rank[q].key != rank[p].key
  {
    assert rank[..p + 1] == rank[..p] + [rank[p]];
  }

  lemma KeysNone(rank: seq<RankItem>)
    ensures KeysOf(rank[..0]) == {}
  {
  }

  /** Evicted are those with the fewest points. */
  ghost predicate FewestPoints(recs: map<Key, Record>, out: set<Key>) {
    forall k, j :: k in out && j in recs && j !in out ==> k in recs && recs[k].points <= recs[j].points
  }

  /** Entries for all items. */
  ghost predicate Lists(rank: seq<RankItem>, recs: map<Key, Record>) {
    Distinct(rank) && (forall r <- rank :: r.key in recs && recs[r.key].points == r.points)
    && (forall k <- recs :: k in KeysOf(rank))
  }

  lemma ListsSorted(a: seq<RankItem>, b: seq<RankItem>, recs: map<Key, Record>)
    requires Lists(a, recs) && Reordered(a, b)
    ensures Lists(b, recs) && Distinct(b) && forall q | 0 <= q < |b| :: b[q] in a && b[q].key in recs
  {
  }

  lemma NoneFewest(recs: map<Key, Record>)
    ensures FewestPoints(recs, {})
  {
  }

  lemma InPrefix(rank: seq<RankItem>, p: nat, b: nat)
    requires b < |rank| && p <= |rank|
    ensures b < p ==> rank[b].key in KeysOf(rank[..p])
  {
    if b < p {
      assert rank[..p][b] == rank[b];
    }
  }

  lemma PrefixFewest(rank: seq<RankItem>, recs: map<Key, Record>, p: nat)
    requires Lists(rank, recs) && Ranked(rank) && p <= |rank|
    ensures FewestPoints(recs, KeysOf(rank[..p]))
  {
    forall k, j | k in KeysOf(rank[..p]) && j in recs && j !in KeysOf(rank[..p])
      ensures k in recs && recs[k].points <= recs[j].points
    {
      var a :| 0 <= a < p && rank[a].key == k;
      assert rank[a] in rank;
      var r :| r in rank && r.key == j;
      var b :| 0 <= b < |rank| && rank[b] == r;
      InPrefix(rank, p, b);
    }
  }

  /** All keys, those with the fewest points first. */
  ghost predicate ByPoints(recs: Items, order: seq<Key>) {
    (forall k <- order :: k in recs) && (forall k <- recs :: k in order)
    && forall i, j :: 0 <= i < j < |order| ==> order[i] != order[j] && recs[order[i]].points <= recs[order[j]].points
  }

  /** The first `p` of them. */
  function Firsts(order: seq<Key>, p: nat): set<Key> {
    set i | 0 <= i < p && i < |order| :: order[i]
  }

  /** The size of what is left when the first `p` of them have been evicted. */
  ghost function SizeLeft(recs: Items, order: seq<Key>, p: nat): int {
    Volume(Held(Evicted(recs, Firsts(order, p))))
  }

  lemma SizeLeftNone(recs: Items, order: seq<Key>)
    ensures SizeLeft(recs, order, 0) == Volume(Held(recs)) && Firsts(order, 0) == {}
  {
    assert Firsts(order, 0) == {};
    EvictNone(recs, map[]);
  }

  lemma FirstsBut(recs: Items, order: seq<Key>, p: nat)
    requires 0 < p <= |order| && ByPoints(recs, order)
    ensures order[p - 1] in Firsts(order, p)
    ensures SizeLeft(recs, order, p - 1) == Volume(Held(Evicted(recs, Firsts(order, p) - {order[p - 1]})))
  {
    assert Firsts(order, p) - {order[p - 1]} == Firsts(order, p - 1);
  }

  function Order(rank: seq<RankItem>): (order: seq<Key>)
    ensures |order| == |rank| && forall i | 0 <= i < |rank| :: order[i] == rank[i].key
  {
    seq(|rank|, i requires 0 <= i < |rank| => rank[i].key)
  }

  lemma OrderFirsts(rank: seq<RankItem>, p: nat)
    requires p <= |rank|
    ensures Firsts(Order(rank), p) == KeysOf(rank[..p])
  {
    forall k | k in Firsts(Order(rank), p)
      ensures k in KeysOf(rank[..p])
    {
      var i :| 0 <= i < p && Order(rank)[i] == k;
      assert rank[..p][i].key == k;
    }
  }

  lemma OrderSize(recs: Items, order: seq<Key>)
    requires ByPoints(recs, order)
    ensures |order| == |recs|
  {
    FirstsSize(order, |order|);
    assert Firsts(order, |order|) == recs.Keys;
    assert |recs.Keys| == |recs|;
  }

  lemma {:induction false} FirstsSize(order: seq<Key>, p: nat)
    requires p <= |order| && forall i, j :: 0 <= i < j < |order| ==> order[i] != order[j]
    ensures |Firsts(order, p)| == p
  {
    if p > 0 {
      FirstsSize(order, p - 1);
      assert Firsts(order, p) == Firsts(order, p - 1) + {order[p - 1]};
    }
  }

  lemma OrderIs(rank: seq<RankItem>, recs: Items)
    requires Lists(rank, recs) && Ranked(rank)
    ensures ByPoints(recs, Order(rank))
  {
    forall k <- recs
      ensures k in Order(rank)
    {
      var r :| r in rank && r.key == k;
      var i :| 0 <= i < |rank| && rank[i] == r;
      assert Order(rank)[i] == k;
    }
    forall i, j | 0 <= i < j < |rank|
      ensures recs[rank[i].key].points <= recs[rank[j].key].points
    {
      assert rank[i] in rank && rank[j] in rank;
    }
  }

  lemma RankMore(rank: seq<RankItem>, r: RankItem)
    requires Distinct(rank) && r.key !in KeysOf(rank)
    ensures Distinct(rank + [r]) && KeysOf(rank + [r]) == KeysOf(rank) + {r.key}
  {
    assert forall q <- rank :: q.key in KeysOf(rank);
    assert forall i | 0 <= i < |rank| :: rank[i] in rank;
  }

  function Incr(cc: nat, inc: int): nat {
    if cc + inc < 0 then 0 else cc + inc
  }

  /** Who waits after one more starts to wait: it does only if the object is not there. */
  function Waiting(w: map<Key, map<Chan, nat>>, l: Entries, key: Key, gc: Chan, inc: nat): map<Key, map<Chan, nat>> {
    if key in l then w else w[key := Added(if key in w then w[key] else map[], gc, inc)]
  }

  lemma FirstAdded(gc: Chan, inc: nat)
    ensures Added(map[], gc, inc) == map[gc := inc]
  {
  }

  /**
   What those who start to wait for an object are sent: the object, if it is there, with the count
   not owned by fillers.
   */
  function Told(gc: Chan, key: Key, l: Entries, f: map<Key, nat>): map<Chan, Object> {
    if key in l then map[gc := Object(key, l[key].val, HardRc(l, f, key), None)] else map[]
  }

  lemma ToldIs(gc: Chan, key: Key, l: Entries, f: map<Key, nat>, val: Bytes, rc: int)
    requires key in l && l[key].val == val && HardRc(l, f, key) == rc
    ensures Told(gc, key, l, f) == map[gc := Object(key, val, rc, None)]
  {
  }

  lemma ToldNothing(gc: Chan, key: Key, l: Entries, f: map<Key, nat>)
    requires key !in l
    ensures Told(gc, key, l, f) == map[]
  {
  }

  function Added(fwant: map<Chan, nat>, gc: Chan, inc: nat): (w: map<Chan, nat>)
    ensures gc in w
  {
    fwant[gc := inc + if gc in fwant then fwant[gc] else 0]
  }

  /** Everybody who has waited still does, and what is asked for adds up. */
  lemma AddedIs(fwant: map<Chan, nat>, gc: Chan, inc: nat)
    ensures Added(fwant, gc, inc).Keys == fwant.Keys + {gc}
    ensures SumWants(Added(fwant, gc, inc)) == SumWants(fwant) + inc
    ensures forall c <- fwant :: c != gc ==> Added(fwant, gc, inc)[c] == fwant[c]
  {
    MoreWants(fwant, gc, Added(fwant, gc, inc)[gc]);
  }

  ghost predicate Single(items: map<Key, Item>) {
    forall a, b :: a in items && b in items && items[a] == items[b] ==> a == b
  }

  /** The same object to everybody. */
  function Sends(fwant: map<Chan, nat>, obj: Object): (sent: map<Chan, Object>)
    ensures forall c <- fwant :: c in sent && sent[c] == obj
    ensures forall c <- sent :: c in fwant
  {
    map c | c in fwant :: obj
  }

  class Cache {
    const policy: Policy
    const enable: bool
    const maxAmount: int
    const maxVolume: int
    const maxItemSize: int
    const maxObjectSize: int
    const amountc: int
    const volumec: int
    const db: MemoryCXDS

    var items: map<Key, Item>
    var amount: int
    var volume: int

    /** What a validated configuration promises about the limits. */
    ghost predicate Limits() {
      0 <= amountc <= maxAmount && 0 <= volumec <= maxVolume && maxItemSize <= volumec
      && (enable <==> maxAmount != 0 && maxVolume != 0)
    }

    ghost function Records(): Items
      reads this, items.Values
    {
      map k | k in items :: items[k].Rec()
    }

    lemma RecordAt(key: Key)
      ensures key in items <==> key in Records()
      ensures key in items ==> Records()[key] == items[key].Rec()
    {
    }

    /** Every item is that of one key. */
    ghost predicate Linked()
      reads this
    {
      Single(items) == true
    }

    /** Everything but the tally, which closing does not keep. */
    ghost predicate Sound()
      reads this, items.Values, db
    {
      Limits() && Linked() && db.Counted() && Consistent(Records(), db.kvs)
    }

    ghost predicate Valid()
      reads this, items.Values, db
    {
      Sound() && Tally(amount, volume, Records())
    }

    /** The store as everybody sees it. */
    ghost function L(): Entries
      reads this, items.Values, db
    {
      Logical(Records(), db.kvs)
    }

    /** The counts owned by fillers. */
    ghost function F(): map<Key, nat>
      reads this, items.Values
    {
      Fillings(Records())
    }

    /** Who waits for what. */
    ghost function W(): map<Key, map<Chan, nat>>
      reads this, items.Values
    {
      Wants(Records())
    }

    /** Every item has a value, and nobody waits for any. */
    ghost predicate AllRegular()
      reads this, items.Values
    {
      forall k <- Records() :: Records()[k].Regular()
    }

    /** No more is held than allowed. */
    ghost predicate Bounded()
      reads this
    {
      amount <= maxAmount && volume <= maxVolume
    }

    /** All items are from before or new. */
    twostate predicate Renewed()
      reads this
    {
      forall it <- items.Values :: it in old(items.Values) || fresh(it)
    }

    /** A counter can be changed without wrapping around. */
    ghost predicate Fits(key: Key, inc: int)
      reads this, items.Values, db
    {
      -WIDTH < inc < WIDTH && (key in L() ==> L()[key].rc + inc < WIDTH)
    }

    /** An empty cache; the lower boundaries come from the configuration. */
    constructor (policy: Policy, maxAmount: int, maxVolume: int, maxItemSize: int, maxObjectSize: int, amountc: int,
        volumec: int, db: MemoryCXDS)
      requires 0 <= amountc <= maxAmount && 0 <= volumec <= maxVolume && maxItemSize <= volumec
      requires db.Counted() && forall k <- db.kvs :: EntryOk(db.kvs[k])
      ensures Valid() && this.db == db && L() == db.kvs && F() == map[] && W() == map[]
      ensures items == map[] && this.maxObjectSize == maxObjectSize
    {
      this.policy, this.maxAmount, this.maxVolume, this.maxItemSize := policy, maxAmount, maxVolume, maxItemSize;
      this.maxObjectSize, this.amountc, this.volumec, this.db := maxObjectSize, amountc, volumec, db;
      this.enable := !(maxAmount == 0 || maxVolume == 0);
      items, amount, volume := map[], 0, 0;
      new;
      assert Records() == map[] && Held(map[]) == map[] && Sizes(map[]) == map[];
      assert Logical(map[], db.kvs) == db.kvs;
    }

    // ---------------------------------------------------------------- delete

    /** Take the value of an item out of the cache, and the item too unless fillers own counts of it. */
    method Forget(key: Key, it: Item)
      requires Linked() && key in items && items[key] == it
      modifies this, it
      ensures Linked() && items.Values <= old(items.Values)
      ensures amount == old(amount) - 1 && volume == old(volume) - |old(it.val)|
      ensures Records() ==
              if old(it.fc) == 0 then old(Records()) - {key}
              else old(Records())[key := Blanked(old(it.Rec()))]
      ensures items == if old(it.fc) == 0 then old(items) - {key} else old(items)
      ensures it.Rec() == if old(it.fc) == 0 then old(it.Rec()) else Blanked(old(it.Rec()))
    {
      amount := amount - 1;
      volume := volume - |it.val|;
      if it.fc == 0 {
        items := items - {key};
        return;
      }
      it.Blank();
    }

    /**
     Delete an item from the cache, writing its counter, which is `cc`; it stays without the value
     if fillers own counts of it.
     */
    method Delete(key: Key, it: Item, cc: int) returns (err: Error)
      requires Linked() && db.Counted() && key in items && items[key] == it
      modifies this, it, db
      ensures Linked() && db.Counted() && items.Values <= old(items.Values)
      ensures db.kvs == Counting(old(db.kvs), key, cc - old(it.rc))
      ensures err == if cc == old(it.rc) || key in old(db.kvs) then None else ErrNotFound
      ensures err == None ==> amount == old(amount) - 1 && volume == old(volume) - |old(it.val)|
      ensures err == None ==>
              Records() ==
              if old(it.fc) == 0 then old(Records()) - {key}
              else old(Records())[key := Blanked(old(it.Rec()))]
      ensures items == if err == None && old(it.fc) == 0 then old(items) - {key} else old(items)
      ensures err == None ==> it.Rec() == if old(it.fc) == 0 then old(it.Rec()) else Blanked(old(it.Rec()))
      ensures err != None ==> Records() == old(Records()) && amount == old(amount) && volume == old(volume)
    {
      hide Logical, Held, Fillings, Wants, Consistent, SumWants, Volume, Live, Recounted, Counting, Tally;
      var inc := cc - it.rc;
      CountingNothing(db.kvs, key);
      if inc != 0 {
        var rc;
        rc, err := db.Inc(key, inc);
        if err != None {
          return;
        }
      }
      Forget(key, it);
      return None;
    }

    // ---------------------------------------------------------------- clean

    /** Eviction of one more item. */
    method Evict(r: RankItem, ghost recs: Items, ghost kvs: Entries, ghost out: set<Key>)
      requires Sound() && Tally(amount, volume, Records()) && Consistent(recs, kvs) && Evictable(recs, out)
      requires Records() == Evicted(recs, out) && db.kvs == Written(recs, kvs, out)
      requires r.key in recs && recs[r.key].Regular() && r.key !in out && r.key in items && items[r.key] == r.it
      modifies this, items.Values, db
      ensures Valid() && items.Values <= old(items.Values) && Evictable(recs, out + {r.key})
      ensures Records() == Evicted(recs, out + {r.key}) && db.kvs == Written(recs, kvs, out + {r.key})
      ensures amount == old(amount) - 1 && volume == old(volume) - |recs[r.key].val|
      ensures forall k <- old(items) :: k != r.key ==> k in items && items[k] == old(items[k])
    {
      hide Logical, Held, Fillings, Wants, Consistent, SumWants, Volume, Live, Recounted, Evicted, Written, Tally;
      ItemAt(recs, kvs, r.key);
      EvictMore(recs, kvs, out, r.key);
      TallyDrop(amount, volume, Records(), r.key);
      TallyPut(amount, volume, Records(), r.key, Blanked(recs[r.key]));
      ItemAt(Records(), db.kvs, r.key);
      CountingTo(db.kvs, r.key, recs[r.key].cc);
      var err := Delete(r.key, r.it, r.it.cc);
      EvictionConsistent(recs, kvs, out + {r.key});
    }

    /**
     How far cleaning goes for another item of size `vol`: if there are too many
     items, the first `a` go, until there are fewer than the lower boundary or none;
     if what is left then is too large, more go, until it is small enough for the
     lower boundary.
     */
    ghost predicate StopsAt(recs: Items, order: seq<Key>, a: nat, p: nat, vol: int) {
      a <= p <= |order|
      && (if |order| + 1 <= maxAmount then a == 0
          else (a > 0 ==> |order| - (a - 1) >= amountc) && (|order| - a < amountc || a == |order|))
      && (if SizeLeft(recs, order, a) + vol < maxVolume then p == a
          else SizeLeft(recs, order, p) + vol <= volumec && TooLarge(recs, order, a, p, vol))
    }

    /** From the first `a` gone until the first `p` are, what is left is too large for the lower boundary. */
    ghost predicate TooLarge(recs: Items, order: seq<Key>, a: nat, p: nat, vol: int) {
      forall q | a <= q < p :: SizeLeft(recs, order, q) + vol > volumec
    }

    lemma TooLargeMore(recs: Items, order: seq<Key>, a: nat, p: nat, vol: int)
      requires TooLarge(recs, order, a, p, vol) && SizeLeft(recs, order, p) + vol > volumec
      ensures TooLarge(recs, order, a, p + 1, vol)
    {
      hide SizeLeft;
    }

    /** What cleaning evicts for another item of size `vol`. */
    ghost predicate Cleans(recs: Items, vol: int, out: set<Key>) {
      exists order: seq<Key>, a: nat, p: nat ::
        StopsAt(recs, order, a, p, vol) && ByPoints(recs, order) && out == Firsts(order, p)
    }

    lemma CleansTo(recs: Items, order: seq<Key>, a: nat, p: nat, vol: int)
      requires StopsAt(recs, order, a, p, vol) && ByPoints(recs, order)
      ensures Cleans(recs, vol, Firsts(order, p))
    {
    }

    /** Nothing goes if there is room; if there are few enough, the last one that goes was too much by size. */
    lemma CleansInNeed(recs: Items, vol: int, out: set<Key>)
      requires Cleans(recs, vol, out) && |recs| + 1 <= maxAmount
      ensures Volume(Held(recs)) + vol < maxVolume ==> out == {}
      ensures out != {} ==>
              exists last :: last in out && Volume(Held(Evicted(recs, out - {last}))) + vol > volumec
    {
      hide Held, Volume, Evicted, ByPoints, SizeLeft;
      var order: seq<Key>, a: nat, p: nat :|
        StopsAt(recs, order, a, p, vol) && ByPoints(recs, order) && out == Firsts(order, p);
      OrderSize(recs, order);
      SizeLeftNone(recs, order);
      if p > 0 {
        var last := order[p - 1];
        assert SizeLeft(recs, order, p - 1) + vol > volumec;
        FirstsBut(recs, order, p);
        assert Volume(Held(Evicted(recs, out - {last}))) + vol > volumec;
      }
    }

    /** What goes to make room for another item of size `vol`: nothing if it fits or if some item has to stay. */
    ghost predicate Room(recs: Items, vol: int, out: set<Key>) {
      if (forall k <- recs :: recs[k].Regular())
         && (|Held(recs)| + 1 > maxAmount || Volume(Held(recs)) + vol > maxVolume)
      then Cleans(recs, vol, out)
      else out == {}
    }

    /** The first `p` entries of the rank have been evicted. */
    ghost predicate Cleaned(rank: seq<RankItem>, p: nat, recs: Items, kvs: Entries)
      reads this, items.Values, db
    {
      p <= |rank| && Valid() && Consistent(recs, kvs) && Distinct(rank)
      && Evictable(recs, KeysOf(rank[..p])) && Records() == Evicted(recs, KeysOf(rank[..p]))
      && db.kvs == Written(recs, kvs, KeysOf(rank[..p]))
      && amount == |rank| - p
      && (forall q | p <= q < |rank| ::
            rank[q].key in items && rank[q].it == items[rank[q].key]
            && rank[q].key in recs && recs[rank[q].key].Regular())
    }

    /** Evict the next item of the rank. */
    method CleanNext(r: RankItem, ghost rank: seq<RankItem>, ghost p: nat, ghost recs: Items, ghost kvs: Entries)
      requires Cleaned(rank, p, recs, kvs) && p < |rank| && r == rank[p]
      modifies this, items.Values, db
      ensures Cleaned(rank, p + 1, recs, kvs) && items.Values <= old(items.Values)
    {
      hide Logical, Held, Fillings, Wants, Consistent, SumWants, Volume, Live, Recounted, Evicted, Written, Evictable,
        Distinct, KeysOf;
      KeysNext(rank, p);
      Evict(r, recs, kvs, KeysOf(rank[..p]));
    }

    /** What is left of the rank: the entries that have not been evicted, or one that has. */
    ghost predicate Rest(rest: seq<RankItem>, rank: seq<RankItem>, p: nat) {
      p <= |rank| && (rest == rank[p..] || (p == |rank| && |rest| == 1 && rest[0].it == null))
    }

    /** Evict items until there are few enough. */
    method CleanByAmount(rank0: seq<RankItem>, ghost recs: Items, ghost kvs: Entries)
      returns (rest: seq<RankItem>, ghost p: nat)
      requires Cleaned(rank0, 0, recs, kvs)
      modifies this, items.Values, db
      ensures Cleaned(rank0, p, recs, kvs) && Rest(rest, rank0, p) && items.Values <= old(items.Values)
      ensures |rank0| - p < amountc || p == |rank0|
      ensures p > 0 ==> |rank0| - (p - 1) >= amountc
    {
      hide Logical, Held, Fillings, Wants, Consistent, SumWants, Volume, Live, Recounted, Evicted, Written, Evictable,
        Distinct, KeysOf, Tally;
      var rank, i, k := rank0, 0, 0;
      while k < |rank|
        invariant 0 <= k <= |rank| == |rank0| && Cleaned(rank0, k, recs, kvs) && items.Values <= old(items.Values)
        invariant k > 0 ==> |rank0| - (k - 1) >= amountc
        invariant rank[k..] == rank0[k..] && i == (if k == 0 then 0 else k - 1) && (k > 0 ==> rank[i].it == null)
      {
        i := k;
        if amount < amountc {
          break;
        }
        CleanNext(rank[i], rank0, k, recs, kvs);
        rank := rank[i := rank[i].(it := null)];
        k := k + 1;
      }
      rest, p := rank[i..], k;
    }

    /** Evict items until they are small enough; a cleared entry is never evicted again. */
    method CleanByVolume(rest: seq<RankItem>, vol: int, ghost rank: seq<RankItem>, ghost p0: nat, ghost recs: Items,
            ghost kvs: Entries)
      returns (ghost p: nat)
      requires Cleaned(rank, p0, recs, kvs) && Rest(rest, rank, p0) && vol <= volumec
      modifies this, items.Values, db
      ensures p >= p0 && Cleaned(rank, p, recs, kvs) && SizeLeft(recs, Order(rank), p) + vol <= volumec
      ensures TooLarge(recs, Order(rank), p0, p, vol)
      ensures items.Values <= old(items.Values)
    {
      hide Single, Logical, Fillings, Wants, Consistent, SumWants, Volume, Live, Recounted, Evicted, Written, Evictable,
        Distinct, KeysOf, SizeLeft, Order, Tally;
      assert TooLarge(recs, Order(rank), p0, p0, vol);
      hide TooLarge;
      p := p0;
      SizeIs(rank, p, recs, kvs);
      for i := 0 to |rest|
        invariant p0 <= p <= |rank| && Cleaned(rank, p, recs, kvs) && (rest == rank[p0..] ==> p == p0 + i)
          && items.Values <= old(items.Values) && volume == SizeLeft(recs, Order(rank), p)
        invariant TooLarge(recs, Order(rank), p0, p, vol)
      {
        if volume + vol <= volumec {
          return;
        }
        NextThere(rest, i, rank, p0, p, recs, kvs);
        TooLargeMore(recs, Order(rank), p0, p, vol);
        CleanNext(rest[i], rank, p, recs, kvs);
        p := p + 1;
        SizeIs(rank, p, recs, kvs);
      }
      if volume + vol > volumec {
        NextThere(rest, |rest|, rank, p0, p, recs, kvs);
      }
    }

    /** As long as anything is left, the next entry is one that has not been evicted. */
    lemma NextThere(rest: seq<RankItem>, i: nat, rank: seq<RankItem>, p0: nat, p: nat, recs: Items, kvs: Entries)
      requires Cleaned(rank, p, recs, kvs) && Rest(rest, rank, p0) && p0 <= p && i <= |rest|
        && (rest == rank[p0..] ==> p == p0 + i) && volume > 0
      ensures i < |rest| && p < |rank| && rest[i] == rank[p]
    {
      hide Single, Logical, Fillings, Wants, Consistent, SumWants, Volume, Live, Recounted, Evicted, Written, Evictable,
        Distinct, KeysOf;
      NothingHeld(amount, volume, Records());
    }

    /** What is left has the size the tally says. */
    lemma SizeIs(rank: seq<RankItem>, p: nat, recs: Items, kvs: Entries)
      requires Cleaned(rank, p, recs, kvs)
      ensures volume == SizeLeft(recs, Order(rank), p)
    {
      OrderFirsts(rank, p);
    }

    /** Entries for all items, unless one of them is wanted or has no value. */
    method MakeRank() returns (rank: seq<RankItem>, all: bool)
      ensures all <==> AllRegular()
      ensures all ==>
              Lists(rank, Records()) && |rank| == |items| && forall r <- rank :: r.key in items && r.it == items[r.key]
    {
      rank := [];
      var left := items.Keys;
      while left != {}
        invariant left <= items.Keys && |rank| + |left| == |items|
        invariant Distinct(rank) && forall r <- rank ::
                r.key in items && r.key !in left && r.it == items[r.key] && r.points == items[r.key].points
        invariant forall k <- items :: k !in left ==> k in KeysOf(rank) && items[k].Rec().Regular()
        decreases left
      {
        var key :| key in left;
        var it := items[key];
        if it.IsWanted() {
          assert !Records()[key].Regular();
          return rank, false;
        }
        if it.IsFilling() {
          assert !Records()[key].Regular();
          return rank, false;
        }
        RankMore(rank, RankItem(key, it.points, it));
        rank := rank + [RankItem(key, it.points, it)];
        left := left - {key};
      }
      return rank, true;
    }

    lemma RecordsSize()
      ensures Records().Keys == items.Keys && |Records()| == |items|
    {
      assert Records().Keys == items.Keys;
      assert |Records()| == |Records().Keys| && |items| == |items.Keys|;
    }

    /** Entries for all items by their points. */
    method SortedRank() returns (rank: seq<RankItem>, all: bool)
      requires Valid()
      ensures all <==> AllRegular()
      ensures all ==> Lists(rank, Records()) && Ranked(rank) && Cleaned(rank, 0, Records(), db.kvs)
    {
      hide Single, Logical, Fillings, Wants, Consistent, SumWants, Volume, Live, Recounted, Evicted, Written, Evictable,
        Distinct, Held, Ranked, FewestPoints, KeysOf, Lists, Reordered;
      ghost var recs, kvs := Records(), db.kvs;
      EvictNone(recs, kvs);
      rank, all := MakeRank();
      if !all {
        return;
      }
      HeldAll(recs);
      ghost var rank0 := rank;
      rank := Sort(rank);
      ListsSorted(rank0, rank, recs);
      KeysNone(rank);
      RecordsSize();
      assert forall q | 0 <= q < |rank| ::
              rank[q].key in items && rank[q].it == items[rank[q].key] && recs[rank[q].key].Regular();
    }

    /** Clean by amount first, then by volume if need be. */
    method CleanRanked(full: seq<RankItem>, vol: int, ghost recs: Items, ghost kvs: Entries)
      returns (ghost a: nat, ghost p: nat)
      requires Cleaned(full, 0, recs, kvs) && vol <= volumec
      modifies this, items.Values, db
      ensures Cleaned(full, p, recs, kvs) && StopsAt(recs, Order(full), a, p, vol)
      ensures maxAmount >= 1 && vol <= maxVolume ==> amount + 1 <= maxAmount && volume + vol <= maxVolume
      ensures items.Values <= old(items.Values)
    {
      hide Single, Logical, Fillings, Wants, Consistent, SumWants, Volume, Live, Recounted, Evicted, Written, Evictable,
        Distinct, Held, Ranked, KeysOf, Tally, SizeLeft, Order, TooLarge;
      var rank := full;
      a := 0;
      assert rank[0..] == rank;
      if amount + 1 > maxAmount {
        rank, a := CleanByAmount(rank, recs, kvs);
      }
      p := a;
      SizeIs(full, a, recs, kvs);
      if volume + vol >= maxVolume {
        p := CleanByVolume(rank, vol, full, a, recs, kvs);
        SizeIs(full, p, recs, kvs);
      }
    }

    /**
     Clean the cache down for another item of the given size: evict the items
     with the fewest points, or nothing at all if some item is wanted or has no
     value.
     */
    method CleanDown(vol: int) returns (ghost out: set<Key>)
      requires Valid() && vol <= volumec
      modifies this, items.Values, db
      ensures Valid() && Evictable(old(Records()), out) && FewestPoints(old(Records()), out)
      ensures Records() == Evicted(old(Records()), out) && db.kvs == Written(old(Records()), old(db.kvs), out)
      ensures if old(AllRegular()) then Cleans(old(Records()), vol, out) else out == {} && items == old(items)
      ensures old(AllRegular()) && maxAmount >= 1 && vol <= maxVolume ==>
              amount + 1 <= maxAmount && volume + vol <= maxVolume
      ensures items.Values <= old(items.Values)
    {
      hide Single, Logical, Fillings, Wants, Consistent, SumWants, Volume, Live, Recounted, Evicted, Written, Evictable,
        Distinct, Held, Ranked, FewestPoints, KeysOf, Lists, Tally, Cleans, StopsAt, ByPoints, Firsts, Order;
      out := {};
      ghost var recs, kvs := Records(), db.kvs;
      EvictNone(recs, kvs);
      NoneFewest(recs);
      var rank, all := SortedRank();
      if !all {
        return;
      }
      ghost var full := rank;
      ghost var a, p := CleanRanked(rank, vol, recs, kvs);
      out := KeysOf(full[..p]);
      PrefixFewest(full, recs, p);
      OrderIs(full, recs);
      OrderFirsts(full, p);
      CleansTo(recs, Order(full), a, p, vol);
    }

    // ------------------------------------------------------------------- put

    /** The items after a value of the store that has none: it gets one if it is worth it, for which others may go. */
    ghost predicate Caches(recs: Items, key: Key, val: Bytes, rc: nat, now: int, after: Items) {
      if enable && |val| <= maxItemSize && rc != 0 then
        exists out ::
          Room(recs, |val|, out)
          && after == Evicted(recs, out)[key := Record(map[], Touched(policy, 0, now), 0, rc, rc, val)]
      else
        after == recs
    }

    /**
     The items after a value that has one, which is what the entry says then: an
     item without a value gets it if it is worth it, and one with a value goes if
     nobody refers to it any more.
     */
    ghost function Served(recs: Items, key: Key, e: Entry, touch: bool, now: int): Items
      requires key in recs
    {
      var r := recs[key];
      var points := Touched(policy, r.points, now);
      if r.IsFilling() then
        if enable && |e.val| <= maxItemSize && e.rc != 0 then
          recs[key := r.(val := e.val, rc := e.rc, cc := e.rc, points := points)]
        else recs
      else if e.rc != 0 then recs[key := r.(cc := e.rc, points := if touch then points else r.points)]
      else if r.fc == 0 then recs - {key}
      else recs[key := Blanked(r)]
    }

    lemma ServedFilling(recs: Items, key: Key, e: Entry, now: int)
      requires key in recs && recs[key].IsFilling()
      ensures Served(recs, key, e, false, now) == Served(recs, key, e, true, now)
    {
    }

    /** A disabled cache caches nothing. */
    lemma CachesNothing(recs: Items, key: Key, a: Bytes, b: Bytes, rc: nat, now: int, after: Items)
      requires Caches(recs, key, a, rc, now, after) && (enable ==> a == b)
      ensures Caches(recs, key, b, rc, now, after)
    {
    }

    /** An item with a value is counted, and maybe touched, or goes. */
    lemma ServedCounted(recs: Items, key: Key, e: Entry, touch: bool, now: int)
      requires key in recs && !recs[key].IsFilling()
      ensures var r := recs[key].(cc := e.rc);
              Served(recs, key, e, touch, now)
              == if e.rc == 0 then (if r.fc == 0 then recs[key := r] - {key} else recs[key := r][key := Blanked(r)])
                 else recs[key := if touch then r.(points := Touched(policy, r.points, now)) else r]
    {
      assert recs[key := recs[key].(cc := e.rc)] - {key} == recs - {key};
    }

    lemma RoomIs(vol: int)
      requires Valid()
      ensures !(AllRegular() && (amount + 1 > maxAmount || volume + vol > maxVolume)) ==> Room(Records(), vol, {})
      ensures AllRegular() && (amount + 1 > maxAmount || volume + vol > maxVolume) ==>
                forall out :: Room(Records(), vol, out) <==> Cleans(Records(), vol, out)
    {
      hide Cleans;
    }

    /** Make room for another item if need be. */
    method MakeRoom(vol: nat) returns (ghost out: set<Key>)
      requires Valid() && vol <= maxItemSize && enable
      modifies this, items.Values, db
      ensures Valid() && L() == old(L()) && F() == old(F()) && W() == old(W())
      ensures Evictable(old(Records()), out) && FewestPoints(old(Records()), out) && Room(old(Records()), vol, out)
      ensures Records() == Evicted(old(Records()), out) && db.kvs == Written(old(Records()), old(db.kvs), out)
      ensures !old(AllRegular()) ==> out == {} && items == old(items)
      ensures old(AllRegular()) ==> amount + 1 <= maxAmount && volume + vol <= maxVolume
      ensures items.Values <= old(items.Values)
    {
      hide Single, Logical, Fillings, Wants, Consistent, SumWants, Volume, Live, Recounted, Evicted, Written, Evictable,
        Held, FewestPoints, Room, Tally;
      out := {};
      EvictNone(Records(), db.kvs);
      NoneFewest(Records());
      RoomIs(vol);
      if amount + 1 > maxAmount || volume + vol > maxVolume {
        out := CleanDown(vol);
      }
      EvictionKeeps(old(Records()), old(db.kvs), out);
    }

    method AddItem(key: Key, it: Item)
      requires Linked() && key !in items && it !in items.Values
      modifies this`items
      ensures Linked() && items == old(items)[key := it] && Records() == old(Records())[key := it.Rec()]
    {
      items := items[key := it];
    }

    /** One more item of the given size. */
    method CountIn(size: nat)
      modifies this`amount, this`volume
      ensures amount == old(amount) + 1 && volume == old(volume) + size && Records() == old(Records())
    {
      amount := amount + 1;
      volume := volume + size;
    }

    method NewItem(key: Key, val: Bytes, rc: nat, now: int)
      requires Linked() && key !in items
      modifies this`items, this`amount, this`volume
      ensures Linked() && Records() == old(Records())[key := Record(map[], Touched(policy, 0, now), 0, rc, rc, val)]
      ensures amount == old(amount) + 1 && volume == old(volume) + |val| && items.Keys == old(items).Keys + {key}
      ensures Renewed()
    {
      hide Touched;
      ghost var recs := Records();
      var it := new Item(rc, rc, val);
      it.Touch(policy, now);
      assert recs == Records();
      CountIn(|val|);
      AddItem(key, it);
    }

    /** Create a regular item for a value of the store. */
    method PutItem(key: Key, val: Bytes, rc: nat, now: int) returns (ghost out: set<Key>)
      requires Valid() && key !in items && key in db.kvs && db.kvs[key].rc == rc && (enable ==> db.kvs[key].val == val)
      modifies this, items.Values, db
      ensures Valid() && L() == old(L()) && F() == old(F()) && W() == old(W())
      ensures Evictable(old(Records()), out) && FewestPoints(old(Records()), out)
      ensures if enable && |val| <= maxItemSize && rc != 0 then
                var r := Record(map[], Touched(policy, 0, now), 0, rc, rc, val);
                Room(old(Records()), |val|, out) && (old(AllRegular()) ==> Bounded())
                && Records() == Evicted(old(Records()), out)[key := r]
              else
                Records() == old(Records()) && out == {}
      ensures Caches(old(Records()), key, val, rc, now, Records())
      ensures Renewed()
    {
      hide Single, Logical, Fillings, Wants, Consistent, SumWants, Volume, Live, Recounted, Evicted, Written, Evictable,
        Held, FewestPoints, Room, Tally, Touched;
      out := {};
      EvictNone(Records(), db.kvs);
      NoneFewest(Records());
      ItemAt(Records(), db.kvs, key);
      if !enable || |val| > maxItemSize || rc == 0 {
        return;
      }
      out := MakeRoom(|val|);
      EvictedOut(old(Records()), old(db.kvs), out, key);
      ghost var recs, r := Records(), Record(map[], Touched(policy, 0, now), 0, rc, rc, val);
      NoWants();
      Put(amount, volume, recs, db.kvs, key, r);
      NoItem(recs, db.kvs, key);
      NewItem(key, val, rc, now);
    }

    /** Give a value to an item. */
    method FillItem(ghost key: Key, val: Bytes, rc: nat, it: Item, now: int)
      requires Linked() && key in items && items[key] == it
      modifies this`amount, this`volume, it
      ensures Records() == old(Records())[key := old(it.Rec()).(val := val, rc := rc, cc := rc,
              points := Touched(policy, old(it.points), now))]
      ensures amount == old(amount) + 1 && volume == old(volume) + |val|
      ensures it.fc == old(it.fc) && it.fwant == old(it.fwant)
    {
      hide Touched;
      CountIn(|val|);
      it.Give(val, rc);
      it.Touch(policy, now);
    }

    /** Give the value in the store to an item without one; as such an item is there nothing is evicted for it. */
    method PutFillingItem(ghost key: Key, val: Bytes, rc: nat, it: Item, now: int)
      requires Valid() && key in items && items[key] == it && !it.IsWanted() && it.IsFilling()
      requires key in db.kvs && db.kvs[key].rc == rc && (enable ==> db.kvs[key].val == val)
      modifies this, items.Values, db
      ensures Valid() && L() == old(L()) && F() == old(F()) && W() == old(W()) && db.kvs == old(db.kvs)
        && items == old(items)
      ensures Records() == if enable && |val| <= maxItemSize && rc != 0 then
                old(Records())[key := old(it.Rec()).(val := val, rc := rc, cc := rc,
                    points := Touched(policy, old(it.points), now))]
              else old(Records())
      ensures Records() == Served(old(Records()), key, Entry(rc, val), true, now)
      ensures it.fc == old(it.fc) && it.fwant == old(it.fwant)
    {
      hide Single, Logical, Fillings, Wants, Consistent, SumWants, Volume, Live, Recounted, Evicted, Written, Evictable,
        Held, FewestPoints, Room, Tally, Touched;
      if !enable || |val| > maxItemSize || rc == 0 {
        return;
      }
      ghost var recs := Records();
      assert !recs[key].Regular();
      EvictNone(recs, db.kvs);
      ghost var out := MakeRoom(|val|);
      CacheValue(key, val, rc, it, now);
    }

    /** Cache a value of the store with the item it belongs to. */
    method CacheValue(ghost key: Key, val: Bytes, rc: nat, it: Item, now: int)
      requires Valid() && key in items && items[key] == it && !it.IsWanted() && it.IsFilling()
      requires key in db.kvs && db.kvs[key] == Entry(rc, val)
      modifies this`amount, this`volume, it
      ensures Valid() && L() == old(L()) && F() == old(F()) && W() == old(W()) && it.fc == old(it.fc)
        && it.fwant == old(it.fwant)
      ensures Records() == old(Records())[key := old(it.Rec()).(val := val, rc := rc, cc := rc,
              points := Touched(policy, old(it.points), now))]
    {
      hide Single, Logical, Fillings, Wants, Consistent, SumWants, Volume, Live, Recounted, Evicted, Written, Evictable,
        Held, FewestPoints, Room, Tally, Touched;
      ghost var recs, kvs := Records(), db.kvs;
      ghost var r := recs[key].(val := val, rc := rc, cc := rc, points := Touched(policy, it.points, now));
      ItemAt(recs, kvs, key);
      ItemIs(recs, kvs, key);
      SameEntry(Logical(recs, kvs), key);
      Put(amount, volume, recs, kvs, key, r);
      FillItem(key, val, rc, it, now);
    }

    method GetStored(key: Key, inc: int) returns (val: Bytes, urc: nat, err: Error)
      requires db.Counted()
      modifies db
      ensures db.Counted() && db.kvs == Counting(old(db.kvs), key, inc) && Records() == old(Records())
      ensures err == if key in old(db.kvs) then None else ErrNotFound
      ensures err == None ==> key in db.kvs && db.kvs[key] == Entry(urc, val)
    {
      hide Volume, Live, Recounted;
      val, urc, err := db.Get(key, inc);
    }

    /** Get a value from the store for an item without one. */
    method GetFilling(key: Key, inc: int, it: Item, now: int) returns (val: Bytes, rc: int, err: Error)
      requires Valid() && key in items && items[key] == it && !it.IsWanted() && it.IsFilling() && Fits(key, inc)
      modifies this, items.Values, db
      ensures Valid() && L() == Counting(old(L()), key, inc) && F() == old(F()) && W() == old(W())
        && items == old(items)
      ensures err == None && key in old(L()) && key in L() && val == L()[key].val && rc == HardRc(L(), F(), key)
      ensures it.fc == old(it.fc) && it.fwant == old(it.fwant)
      ensures Records() == Served(old(Records()), key, L()[key], true, now)
    {
      hide Single, Logical, Fillings, Wants, Consistent, SumWants, Volume, Live, Recounted, Held, Tally, Touched,
        Counting;
      ghost var recs, kvs := Records(), db.kvs;
      ItemAt(recs, kvs, key);
      ItemIs(recs, kvs, key);
      Missing(recs, kvs, key, inc);
      StoreCounts(recs, kvs, key, inc);
      var urc;
      val, urc, err := GetStored(key, inc);
      rc := 0;
      if err == None {
        rc := urc - it.fc;
        PutFillingItem(key, val, urc, it, now);
      }
    }

    // ------------------------------------------------------------------- get

    method SetCc(ghost key: Key, it: Item, cc: nat)
      requires Linked() && key in items && items[key] == it
      modifies it`cc
      ensures Records() == old(Records())[key := old(it.Rec()).(cc := cc)]
    {
      it.cc := cc;
    }

    method TouchItem(ghost key: Key, it: Item, now: int)
      requires Linked() && key in items && items[key] == it
      modifies it`points
      ensures Records() == old(Records())[key := old(it.Rec()).(points := Touched(policy, old(it.points), now))]
    {
      hide Touched;
      it.Touch(policy, now);
    }

    /** Count in the cache; an item that nobody refers to any more goes. */
    method CountItem(key: Key, inc: int, it: Item, touch: bool, now: int)
      requires Valid() && key in items && items[key] == it && it.Rec().Regular() && Fits(key, inc)
      modifies this, items.Values, db
      ensures Valid() && L() == Counting(old(L()), key, inc) && F() == old(F()) && W() == old(W())
      ensures key in L() && L()[key] == Entry(it.cc, old(it.val)) && it.fc == old(it.fc) == Filled(F(), key)
      ensures Records() == Served(old(Records()), key, L()[key], touch, now)
      ensures items.Values <= old(items.Values)
    {
      hide Single, Logical, Fillings, Wants, Consistent, SumWants, Volume, Live, Recounted, Evicted, Written, Evictable,
        Held, FewestPoints, Room, Tally, Touched, Counting, Served, Records;
      ghost var recs, kvs := Records(), db.kvs;
      RecordAt(key);
      var cc := Incr(it.cc, inc);
      ghost var r := recs[key].(cc := cc);
      ItemAt(recs, kvs, key);
      ItemIs(recs, kvs, key);
      CacheCounts(recs, kvs, key, inc, r);
      SameTally(amount, volume, recs, key, r);
      ServedCounted(recs, key, Entry(cc, it.val), touch, now);
      SetCc(key, it, cc);
      RecordAt(key);
      if it.cc == 0 {
        DeleteRegular(key, it);
      } else if touch {
        r := r.(points := Touched(policy, it.points, now));
        CacheCounts(recs, kvs, key, inc, r);
        SameTally(amount, volume, recs, key, r);
        TouchItem(key, it, now);
        assert Records() == recs[key := r];
      }
    }

    /** Delete an item that has a value and that nobody waits for: it stands for the same. */
    method DeleteRegular(key: Key, it: Item)
      requires Valid() && key in items && items[key] == it && it.Rec().Regular()
      modifies this, items.Values, db
      ensures Valid() && L() == old(L()) && F() == old(F()) && W() == old(W())
      ensures it.cc == (if old(it.fc) == 0 then old(it.cc) else 0) && it.fc == old(it.fc)
      ensures Records() ==
              if old(it.fc) == 0 then old(Records()) - {key} else old(Records())[key := Blanked(old(it.Rec()))]
      ensures items.Values <= old(items.Values)
    {
      hide Single, Logical, Fillings, Wants, Consistent, SumWants, Volume, Live, Recounted, Evicted, Written, Held,
        FewestPoints, Room, Tally, Touched, Counting;
      ghost var recs, kvs := Records(), db.kvs;
      EvictNone(recs, kvs);
      ItemAt(recs, kvs, key);
      assert Evictable(recs, {key});
      EvictionKeeps(recs, kvs, {key});
      assert {} + {key} == {key};
      EvictMore(recs, kvs, {}, key);
      TallyDrop(amount, volume, recs, key);
      TallyPut(amount, volume, recs, key, Blanked(recs[key]));
      CountingTo(kvs, key, recs[key].cc);
      var err := Delete(key, it, it.cc);
    }

    method Get(key: Key, inc: int, now: int) returns (val: Bytes, rc: int, err: Error)
      requires Valid() && Fits(key, inc)
      modifies this, items.Values, db
      ensures Valid() && L() == Counting(old(L()), key, inc) && F() == old(F()) && W() == old(W())
      ensures err == if key in old(L()) then None else ErrNotFound
      ensures err == None ==> val == L()[key].val && rc == HardRc(L(), F(), key)
      ensures Renewed()
      ensures err != None ==> Records() == old(Records())
      ensures err == None ==> if old(key in items) then Records() == Served(old(Records()), key, L()[key], true, now)
                else Caches(old(Records()), key, val, L()[key].rc, now, Records())
    {
      hide Single, Logical, Fillings, Wants, Consistent, SumWants, Volume, Live, Recounted, Evicted, Written, Held,
        FewestPoints, Room, Tally, Touched, Counting,
        Caches, Served;
      ghost var recs, kvs := Records(), db.kvs;
      ItemAt(recs, kvs, key);
      Missing(recs, kvs, key, inc);
      if key in items {
        var it := items[key];
        ItemIs(recs, kvs, key);
        if it.IsWanted() {
          return [], 0, ErrNotFound;
        }
        if it.IsFilling() {
          val, rc, err := GetFilling(key, inc, it, now);
          return;
        }
        val := it.val;
        CountItem(key, inc, it, true, now);
        return val, it.cc - it.fc, None;
      }
      NoItem(recs, kvs, key);
      StoreCounts(recs, kvs, key, inc);
      var urc;
      val, urc, err := GetStored(key, inc);
      rc := 0;
      if err != None {
        return;
      }
      rc := urc;
      ghost var out := PutItem(key, val, urc, now);
    }

    /** Like Get, but nothing is put into the cache, and the item is not touched. */
    method GetNoCache(key: Key, inc: int, now: int) returns (val: Bytes, rc: int, err: Error)
      requires Valid() && Fits(key, inc)
      modifies this, items.Values, db
      ensures Valid() && L() == Counting(old(L()), key, inc) && F() == old(F()) && W() == old(W())
      ensures err == if key in old(L()) then None else ErrNotFound
      ensures err == None ==> val == L()[key].val && rc == HardRc(L(), F(), key)
      ensures Renewed()
      ensures Records() ==
              if err == None && old(key in items) then Served(old(Records()), key, L()[key], false, now)
              else old(Records())
    {
      hide Single, Logical, Fillings, Wants, Consistent, SumWants, Volume, Live, Recounted, Evicted, Written, Held,
        FewestPoints, Room, Tally, Touched, Counting,
        Served;
      ghost var recs, kvs := Records(), db.kvs;
      ItemAt(recs, kvs, key);
      Missing(recs, kvs, key, inc);
      if key in items {
        var it := items[key];
        ItemIs(recs, kvs, key);
        if it.IsWanted() {
          return [], 0, ErrNotFound;
        }
        if it.IsFilling() {
          val, rc, err := GetFilling(key, inc, it, now);
          ServedFilling(recs, key, L()[key], now);
          return;
        }
        val := it.val;
        CountItem(key, inc, it, false, now);
        return val, it.cc - it.fc, None;
      }
      NoItem(recs, kvs, key);
      StoreCounts(recs, kvs, key, inc);
      var urc;
      val, urc, err := GetStored(key, inc);
      rc := urc;
    }

    // ------------------------------------------------------------------- set

    /** Nobody waits for the item any more: what they asked for is owned by fillers now. */
    method Unwait(ghost key: Key, it: Item, wincs: nat)
      requires Linked() && key in items && items[key] == it
      modifies it
      ensures it.Rec() == old(it.Rec()).(fwant := map[], fc := old(it.fc) + wincs)
        && Records() == old(Records())[key := it.Rec()]
    {
      it.fwant := map[];
      it.fc := it.fc + wincs;
    }

    method RemoveItem(key: Key)
      requires Linked() && key in items
      modifies this`items
      ensures Linked() && Records() == old(Records()) - {key} && items == old(items) - {key}
        && old(items[key]) !in items.Values
      ensures items.Values <= old(items.Values)
    {
      items := items - {key};
    }

    /** The sum of what those who wait ask for. */
    method WantIncs(fwant: map<Chan, nat>) returns (wincs: nat)
      ensures wincs == SumWants(fwant)
    {
      wincs := 0;
      NoWants();
      var left := fwant.Keys;
      ghost var seen: map<Chan, nat> := map[];
      while left != {}
        invariant left <= fwant.Keys && seen.Keys == fwant.Keys - left && (forall c <- seen :: seen[c] == fwant[c])
          && wincs == SumWants(seen)
        decreases left
      {
        var gc :| gc in left;
        MoreWants(seen, gc, fwant[gc]);
        seen := seen[gc := fwant[gc]];
        wincs := wincs + fwant[gc];
        left := left - {gc};
      }
      assert seen == fwant;
    }

    method SetStored(key: Key, val: Bytes, inc: int) returns (urc: nat, err: Error)
      requires db.Counted() && 0 <= inc < WIDTH
      modifies db
      ensures db.Counted() && Records() == old(Records())
      ensures db.kvs == if inc == 0 then old(db.kvs) else Setting(old(db.kvs), key, val, inc)
      ensures err == (if inc == 0 then Panicked else if val == [] then ErrEmptyValue else None)
        && (err == None ==> key in db.kvs && urc == db.kvs[key].rc)
    {
      hide Volume, Live, Recounted;
      urc, err := db.Set(key, val, inc);
    }

    /** Stop waiting for a value that has just been stored, and cache it. */
    method Supply(key: Key, val: Bytes, urc: nat, it: Item, wincs: nat, now: int, ghost kvs: Entries)
      requires Limits() && Linked() && db.Counted() && Consistent(Records(), kvs) && Tally(amount, volume, Records())
      requires key in items && items[key] == it && it.IsWanted() && it.fc + wincs < WIDTH
      requires EntryOk(Entry(urc, val)) && key !in kvs && db.kvs == kvs[key := Entry(urc, val)]
      modifies this, items.Values, db
      ensures Valid() && L() == Logical(old(Records()), kvs)[key := Entry(urc, val)]
        && W() == Wants(old(Records())) - {key}
      ensures F() == WithFilled(Fillings(old(Records())), key, old(it.fc) + wincs)
      ensures Renewed()
      ensures var r := old(it.Rec()).(fwant := map[], fc := old(it.fc) + wincs);
              Records() == Served(old(Records())[key := r], key, Entry(urc, val), true, now)
    {
      hide Single, Logical, Fillings, Wants, Consistent, SumWants, Volume, Live, Recounted, Evicted, Written, Held,
        FewestPoints, Room, Tally, Touched, Counting,
        Served;
      ghost var recs := Records();
      ItemAt(recs, kvs, key);
      ghost var r := recs[key].(fwant := map[], fc := it.fc + wincs);
      WantedSet(amount, volume, recs, kvs, key, Entry(urc, val), r);
      Unwait(key, it, wincs);
      PutFillingItem(key, val, urc, it, now);
    }

    /** Store a value somebody waits for, and send it. */
    method StoreWanted(key: Key, val: Bytes, inc: nat, it: Item, wincs: nat, now: int)
      returns (rc: int, err: Error, sent: map<Chan, Object>)
      requires Valid() && key in items && items[key] == it && it.IsWanted() && wincs == SumWants(it.fwant)
      requires inc + wincs < WIDTH && it.fc + wincs < WIDTH
      modifies this, items.Values, db
      ensures Valid() && err == if inc + wincs == 0 then Panicked else if val == [] then ErrEmptyValue else None
      ensures err != None ==> L() == old(L()) && F() == old(F()) && W() == old(W()) && sent == map[]
      ensures err == None ==>
              L() == old(L())[key := Entry(inc + wincs, val)] && F() == WithFilled(old(F()), key, old(it.fc) + wincs)
      ensures err == None ==>
              W() == old(W()) - {key} && rc == HardRc(L(), F(), key)
              && sent == Sends(old(it.fwant), Object(key, val, rc, None))
      ensures Renewed()
      ensures var r := old(it.Rec()).(fwant := map[], fc := old(it.fc) + wincs);
              Records() == if err == None then Served(old(Records())[key := r], key, L()[key], true, now)
                           else old(Records())
    {
      hide Single, Logical, Fillings, Wants, Consistent, SumWants, Volume, Live, Recounted, Evicted, Written, Held,
        FewestPoints, Room, Tally, Touched, Counting, Setting, WithFilled, Filled, Sends,
        Served;
      ghost var recs, kvs := Records(), db.kvs;
      ItemAt(recs, kvs, key);
      SettingNothing(kvs, key, inc + wincs);
      var urc;
      urc, err := SetStored(key, val, inc + wincs);
      rc, sent := 0, map[];
      if err != None {
        return;
      }
      SettingNew(kvs, key, val, inc + wincs);
      rc := urc - (wincs + it.fc);
      sent := Sends(it.fwant, Object(key, val, rc, None));
      Supply(key, val, urc, it, wincs, now, kvs);
      FilledIs(old(F()), key, old(it.fc) + wincs);
    }

    /** Tell those who wait that the object is too large, and forget about it. */
    method Refuse(key: Key, it: Item) returns (sent: map<Chan, Object>)
      requires Valid() && key in items && items[key] == it && it.IsWanted()
      modifies this`items
      ensures Valid() && L() == old(L()) && F() == old(F()) - {key} && W() == old(W()) - {key}
      ensures sent == Sends(it.fwant, Object(key, [], 0, ErrTooLarge))
      ensures items.Values <= old(items.Values) && Records() == old(Records()) - {key}
    {
      hide Single, Logical, Fillings, Wants, Consistent, SumWants, Volume, Live, Recounted, Evicted, Written, Held,
        FewestPoints, Room, Tally, Touched, Counting, Setting, WithFilled, Filled, Sends;
      sent := Sends(it.fwant, Object(key, [], 0, ErrTooLarge));
      ghost var recs := Records();
      ItemAt(recs, db.kvs, key);
      WantedGone(amount, volume, recs, db.kvs, key);
      RemoveItem(key);
    }

    /** Set a value somebody waits for, and send it. */
    method SetWantedItem(key: Key, val: Bytes, inc: nat, it: Item, now: int)
      returns (rc: int, err: Error, sent: map<Chan, Object>)
      requires Valid() && key in items && items[key] == it && it.IsWanted()
      requires inc + SumWants(it.fwant) < WIDTH && it.fc + SumWants(it.fwant) < WIDTH
      modifies this, items.Values, db
      ensures Valid()
      ensures err ==
              if |val| > maxObjectSize then ErrTooLarge
              else if inc + old(SumWants(it.fwant)) == 0 then Panicked
              else if val == [] then ErrEmptyValue
              else None
      ensures err == ErrTooLarge ==> L() == old(L()) && F() == old(F()) - {key} && W() == old(W()) - {key}
      ensures err != None && err != ErrTooLarge ==> L() == old(L()) && F() == old(F()) && W() == old(W())
      ensures err == None ==> var n := old(SumWants(it.fwant));
                L() == old(L())[key := Entry(inc + n, val)] && F() == WithFilled(old(F()), key, old(it.fc) + n)
                && W() == old(W()) - {key}
      ensures err == None ==> rc == HardRc(L(), F(), key)
      ensures sent == if err in {ErrEmptyValue, Panicked} then map[] else Sends(old(it.fwant),
              if err == None then Object(key, val, rc, None) else Object(key, [], 0, ErrTooLarge))
      ensures Renewed()
      ensures var r := old(it.Rec()).(fwant := map[], fc := old(it.fc) + old(SumWants(it.fwant)));
              Records() == if err == None then Served(old(Records())[key := r], key, L()[key], true, now)
                           else if err == ErrTooLarge then old(Records()) - {key}
                           else old(Records())
    {
      hide Single, Logical, Fillings, Wants, Consistent, SumWants, Volume, Live, Recounted, Evicted, Written, Held,
        FewestPoints, Room, Tally, Touched, Counting, Setting, WithFilled, Filled, Sends, HardRc,
        Served;
      if |val| > maxObjectSize {
        rc, err := 0, ErrTooLarge;
        sent := Refuse(key, it);
        return;
      }
      var wincs := WantIncs(it.fwant);
      rc, err, sent := StoreWanted(key, val, inc, it, wincs, now);
    }

    /** Count in the store, reading the value only if it can be cached. */
    method CountStored(key: Key, inc: int) returns (val: Bytes, urc: nat, err: Error)
      requires db.Counted()
      modifies db
      ensures db.Counted() && db.kvs == Counting(old(db.kvs), key, inc) && Records() == old(Records())
      ensures err == if key in old(db.kvs) then None else ErrNotFound
      ensures err == None ==> urc == db.kvs[key].rc && (enable ==> val == db.kvs[key].val)
    {
      hide Volume, Live, Recounted, Counting;
      val := [];
      if enable {
        val, urc, err := db.Get(key, inc);
      } else {
        urc, err := db.Inc(key, inc);
      }
    }

    /** Count in the store for an item without a value, reading the value only if it can be cached. */
    method IncFilling(key: Key, inc: int, it: Item, now: int) returns (rc: int, err: Error)
      requires Valid() && key in items && items[key] == it && !it.IsWanted() && it.IsFilling() && Fits(key, inc)
      modifies this, items.Values, db
      ensures Valid() && L() == Counting(old(L()), key, inc) && F() == old(F()) && W() == old(W())
        && items == old(items)
      ensures err == None && key in old(L()) && rc == HardRc(L(), F(), key)
      ensures Records() == Served(old(Records()), key, L()[key], true, now)
    {
      hide Single, Logical, Fillings, Wants, Consistent, SumWants, Volume, Live, Recounted, Held, Tally, Touched,
        Counting;
      ghost var recs, kvs := Records(), db.kvs;
      ItemAt(recs, kvs, key);
      ItemIs(recs, kvs, key);
      Missing(recs, kvs, key, inc);
      StoreCounts(recs, kvs, key, inc);
      var val, urc;
      val, urc, err := CountStored(key, inc);
      rc := 0;
      if err == None {
        rc := urc - it.fc;
        PutFillingItem(key, val, urc, it, now);
      }
    }

    /** No counter wraps around when a value that somebody waits for is set. */
    ghost predicate FitsWanted(key: Key, inc: nat)
      reads this, items.Values
    {
      key in W() ==> inc + SumWants(W()[key]) < WIDTH && Filled(F(), key) + SumWants(W()[key]) < WIDTH
    }

    method Set(key: Key, val: Bytes, inc: int, now: int) returns (rc: int, err: Error, sent: map<Chan, Object>)
      requires Valid() && (key in L() ==> L()[key].val == val) && (inc > 0 ==> Fits(key, inc) && FitsWanted(key, inc))
      modifies this, items.Values, db
      ensures Valid()
      ensures err ==
              if inc <= 0 then Panicked
              else if old(key in items) && key !in old(W()) then None
              else if |val| > maxObjectSize then ErrTooLarge
              else if val == [] then ErrEmptyValue
              else None
      ensures key in old(W()) && err == None ==> var n := SumWants(old(W())[key]);
                L() == old(L())[key := Entry(inc + n, val)]
                && F() == WithFilled(old(F()), key, Filled(old(F()), key) + n) && W() == old(W()) - {key}
      ensures key !in old(W()) && err == None ==>
              L() == Setting(old(L()), key, val, inc) && F() == old(F()) && W() == old(W())
      ensures err == ErrTooLarge && key in old(W()) ==>
              L() == old(L()) && F() == old(F()) - {key} && W() == old(W()) - {key}
      ensures err != None && !(err == ErrTooLarge && key in old(W())) ==>
              L() == old(L()) && F() == old(F()) && W() == old(W())
      ensures err == None ==> rc == HardRc(L(), F(), key)
      ensures sent == if key !in old(W()) || err in {ErrEmptyValue, Panicked} then map[]
                      else Sends(old(W())[key], if err == None then Object(key, val, rc, None)
                          else Object(key, [], 0, ErrTooLarge))
      ensures Renewed()
      ensures key in old(W()) ==>
                var r := old(Records())[key];
                Records() == if err == None then Served(old(Records())[key := r.(fwant := map[],
                                     fc := r.fc + SumWants(r.fwant))], key, L()[key], true, now)
                             else if err == ErrTooLarge then old(Records()) - {key}
                             else old(Records())
      ensures key !in old(W()) ==>
                if err != None then Records() == old(Records())
                else if old(key in items) then Records() == Served(old(Records()), key, L()[key], true, now)
                else Caches(old(Records()), key, val, L()[key].rc, now, Records())
    {
      hide Single, Logical, Fillings, Wants, Consistent, SumWants, Volume, Live, Recounted, Evicted, Written, Held,
        FewestPoints, Room, Tally, Touched, Counting, Setting, WithFilled, HardRc, Sends, Filled,
        Served, Caches;
      if inc <= 0 {
        return 0, Panicked, map[];
      }
      ghost var recs, kvs := Records(), db.kvs;
      ItemAt(recs, kvs, key);
      Missing(recs, kvs, key, inc);
      if key in items {
        var it := items[key];
        ItemIs(recs, kvs, key);
        if it.IsWanted() {
          rc, err, sent := SetWantedItem(key, val, inc, it, now);
          return;
        }
        sent := map[];
        SettingCounts(L(), key, val, inc);
        if it.IsFilling() {
          rc, err := IncFilling(key, inc, it, now);
          return;
        }
        CountItem(key, inc, it, true, now);
        HardIs(L(), F(), key);
        return it.cc - it.fc, None, sent;
      }
      NoItem(recs, kvs, key);
      rc, err, sent := SetNew(key, val, inc, now);
    }

    /** Set a value that has no item. */
    method SetNew(key: Key, val: Bytes, inc: int, now: int) returns (rc: int, err: Error, sent: map<Chan, Object>)
      requires Valid() && inc > 0 && Fits(key, inc) && (key in L() ==> L()[key].val == val) && key !in items
      modifies this, items.Values, db
      ensures Valid() && F() == old(F()) && W() == old(W()) && sent == map[]
      ensures err == if |val| > maxObjectSize then ErrTooLarge else if val == [] then ErrEmptyValue else None
      ensures L() == if err == None then Setting(old(L()), key, val, inc) else old(L())
      ensures err == None ==> rc == HardRc(L(), F(), key)
      ensures Renewed()
      ensures if err == None then Caches(old(Records()), key, val, L()[key].rc, now, Records())
              else Records() == old(Records())
    {
      hide Single, Logical, Fillings, Wants, Consistent, SumWants, Volume, Live, Recounted, Evicted, Written, Held,
        FewestPoints, Room, Tally, Touched, Counting, Setting, WithFilled, HardRc, Filled, Caches;
      ghost var recs, kvs := Records(), db.kvs;
      sent := map[];
      if |val| > maxObjectSize {
        return 0, ErrTooLarge, sent;
      }
      NoItem(recs, kvs, key);
      ItemAt(recs, kvs, key);
      StoreSets(recs, kvs, key, val, inc);
      SettingNothing(L(), key, inc);
      var urc;
      urc, err := SetStored(key, val, inc);
      rc := 0;
      if err != None {
        return;
      }
      rc := urc;
      HardIs(L(), F(), key);
      ghost var out := PutItem(key, val, urc, now);
    }

    method IncItem(key: Key, inc: int, it: Item, now: int) returns (rc: int, err: Error)
      requires Valid() && key in items && items[key] == it && Fits(key, inc)
      modifies this, items.Values, db
      ensures Valid() && L() == Counting(old(L()), key, inc) && F() == old(F()) && W() == old(W())
      ensures err == if key in old(L()) then None else ErrNotFound
      ensures err == None ==> rc == HardRc(L(), F(), key)
      ensures Renewed()
      ensures Records() == if err == None then Served(old(Records()), key, L()[key], true, now) else old(Records())
    {
      hide Single, Logical, Fillings, Wants, Consistent, SumWants, Volume, Live, Recounted, Evicted, Written, Held,
        FewestPoints, Room, Tally, Touched, Counting,
        Served;
      ghost var recs, kvs := Records(), db.kvs;
      ItemAt(recs, kvs, key);
      Missing(recs, kvs, key, inc);
      ItemIs(recs, kvs, key);
      if it.IsWanted() {
        return 0, ErrNotFound;
      }
      if it.IsFilling() {
        rc, err := IncFilling(key, inc, it, now);
        return;
      }
      CountItem(key, inc, it, true, now);
      return it.cc - it.fc, None;
    }

    /** Change a counter; the new one is told only if there is an item. */
    method Inc(key: Key, inc: int, now: int) returns (rc: int, err: Error)
      requires Valid() && Fits(key, inc)
      modifies this, items.Values, db
      ensures Valid() && L() == Counting(old(L()), key, inc) && F() == old(F()) && W() == old(W())
      ensures err == if key in old(L()) then None else ErrNotFound
      ensures err == None ==> rc == if old(key in items) then HardRc(L(), F(), key) else 0
      ensures Renewed()
      ensures err != None ==> Records() == old(Records())
      ensures err == None ==> if old(key in items) then Records() == Served(old(Records()), key, L()[key], true, now)
                else Caches(old(Records()), key, L()[key].val, L()[key].rc, now, Records())
    {
      hide Single, Logical, Fillings, Wants, Consistent, SumWants, Volume, Live, Recounted, Evicted, Written, Held,
        FewestPoints, Room, Tally, Touched, Counting, HardRc,
        Served, Caches;
      ghost var recs, kvs := Records(), db.kvs;
      ItemAt(recs, kvs, key);
      if key in items {
        rc, err := IncItem(key, inc, items[key], now);
        return;
      }
      NoItem(recs, kvs, key);
      StoreCounts(recs, kvs, key, inc);
      var val, urc;
      val, urc, err := CountStored(key, inc);
      rc := 0;
      if err != None {
        return;
      }
      ghost var out := PutItem(key, val, urc, now);
      CachesNothing(recs, key, val, L()[key].val, urc, now, Records());
    }

    // --------------------------------------------------------------- filling

    method SetFc(ghost key: Key, it: Item, fc: nat)
      requires Linked() && key in items && items[key] == it
      modifies it`fc
      ensures it.Rec() == old(it.Rec()).(fc := fc) && Records() == old(Records())[key := it.Rec()]
    {
      it.fc := fc;
    }

    method SetFwant(ghost key: Key, it: Item, fwant: map<Chan, nat>)
      requires Linked() && key in items && items[key] == it
      modifies it`fwant
      ensures Records() == old(Records())[key := old(it.Rec()).(fwant := fwant)]
    {
      it.fwant := fwant;
    }

    /** A new item without a value. */
    method NewBlank(key: Key, fwant: map<Chan, nat>, fc: nat) returns (it: Item)
      requires Linked() && key !in items
      modifies this`items
      ensures fresh(it) && Linked() && items == old(items)[key := it] && it.Rec() == Record(fwant, 0, fc, 0, 0, [])
      ensures Records() == old(Records())[key := it.Rec()]
    {
      it := new Item(0, 0, []);
      it.fwant, it.fc := fwant, fc;
      AddItem(key, it);
    }

    /** No count owned by those who wait or by fillers grows too large. */
    ghost predicate FitsWant(key: Key, inc: nat)
      reads this, items.Values, db
    {
      Fits(key, inc) && Filled(F(), key) + inc < WIDTH && (key in W() ==> SumWants(W()[key]) + inc < WIDTH)
    }

    /** Whether there is an item with a value. */
    ghost predicate Holds(key: Key)
      reads this, items.Values
    {
      key in Records() && !Records()[key].IsFilling()
    }

    /**
     The items after somebody has asked for an object, which is what `l` says then:
     one who waits is added, or the count asked for is owned by fillers and the value
     is cached if it was not.
     */
    ghost function Asked(recs: Items, key: Key, gc: Chan, inc: nat, l: Entries, now: int): Items {
      var r := if key in recs then recs[key] else Record(map[], 0, 0, 0, 0, []);
      if key !in l then recs[key := r.(fwant := Added(r.fwant, gc, inc))]
      else if r.IsFilling() then Served(recs[key := r.(fc := r.fc + inc)], key, l[key], true, now)
      else recs[key := r.(fc := r.fc + inc, points := Touched(policy, r.points, now))]
    }

    ghost function ServedLending(recs: Items, key: Key, fc: nat, e: Entry, now: int): Items
      requires key in recs
    {
      Served(recs[key := recs[key].(fc := fc)], key, e, true, now)
    }

    /** Whether the value is served before or after fillers own more makes no difference. */
    lemma ServedLent(recs: Items, key: Key, fc: nat, e: Entry, now: int)
      requires key in recs && recs[key].IsFilling()
      ensures var s := Served(recs, key, e, true, now);
              key in s && ServedLending(recs, key, fc, e, now) == s[key := s[key].(fc := fc)]
    {
    }

    lemma AskedMore(recs: Items, key: Key, gc: Chan, inc: nat, l: Entries, now: int)
      requires key in recs && key !in l
      ensures Asked(recs, key, gc, inc, l, now) == recs[key := recs[key].(fwant := Added(recs[key].fwant, gc, inc))]
    {
    }

    lemma AskedFilling(recs: Items, key: Key, gc: Chan, inc: nat, l: Entries, now: int)
      requires key in recs && key in l && recs[key].IsFilling()
      ensures Asked(recs, key, gc, inc, l, now) == ServedLending(recs, key, recs[key].fc + inc, l[key], now)
    {
    }

    lemma AskedHeld(recs: Items, key: Key, gc: Chan, inc: nat, l: Entries, now: int)
      requires key in recs && key in l && !recs[key].IsFilling()
      ensures Asked(recs, key, gc, inc, l, now)
           == recs[key := recs[key].(fc := recs[key].fc + inc, points := Touched(policy, recs[key].points, now))]
    {
    }

    /** The items after a count owned by fillers has been applied or given back. */
    ghost function Finished(recs: Items, key: Key, inc: int, l: Entries, now: int): Items {
      if key !in recs || recs[key].fc == 0 then recs
      else
        var r := recs[key];
        var touched := r.(fc := 0, points := Touched(policy, r.points, now));
        if inc > 0 then
          if r.fc > inc then recs[key := r.(fc := Incr(r.fc, -inc))]
          else if r.IsFilling() then recs - {key}
          else recs[key := touched]
        else if key in l then Served(recs[key := r.(fc := Incr(r.fc, inc))], key, l[key], true, now)
        else recs[key := r.(fc := Incr(r.fc, inc))]
    }

    lemma FinishedNothing(recs: Items, key: Key, inc: int, l: Entries, now: int)
      ensures key !in recs || recs[key].fc == 0 ==> Finished(recs, key, inc, l, now) == recs
    {
    }

    lemma FinishedBack(recs: Items, key: Key, inc: int, l: Entries, now: int)
      requires key in recs && recs[key].fc > 0 && inc < 0 && recs[key].fc + inc >= 0
      ensures var i := recs[key := recs[key].(fc := recs[key].fc + inc)];
              Finished(recs, key, inc, l, now) == if key in l then Served(i, key, l[key], true, now) else i
    {
    }

    lemma FinishedApplied(recs: Items, key: Key, inc: int, l: Entries, now: int)
      requires key in recs && 0 < inc <= recs[key].fc
      ensures var r := recs[key].(fc := recs[key].fc - inc);
              Finished(recs, key, inc, l, now)
              == if r.fc > 0 then recs[key := r]
                 else if r.IsFilling() then recs[key := r] - {key}
                 else recs[key := r][key := r.(points := Touched(policy, r.points, now))]
    {
      var r := recs[key].(fc := recs[key].fc - inc);
      assert recs[key := r] - {key} == recs - {key};
    }

    /** Wait for an object, or be sent it at once. */
    method Want(key: Key, gc: Chan, inc: nat, now: int) returns (sent: map<Chan, Object>)
      requires Valid() && FitsWant(key, inc)
      modifies this, items.Values, db
      ensures Valid() && L() == (if old(Holds(key)) then old(L()) else Counting(old(L()), key, inc))
      ensures F() == if key in old(L()) then WithFilled(old(F()), key, Filled(old(F()), key) + inc) else old(F())
      ensures W() == Waiting(old(W()), old(L()), key, gc, inc)
      ensures sent == Told(gc, key, L(), F())
      ensures Renewed()
      ensures Records() == Asked(old(Records()), key, gc, inc, L(), now)
      ensures key in old(L()) ==>
              (HardRc(L(), F(), key) == old(HardRc(L(), F(), key)) <==> inc == 0 || !old(Holds(key)))
    {
      hide Single, Logical, Fillings, Wants, Consistent, SumWants, Volume, Live, Recounted, Held, Tally, Touched,
        Counting, WithFilled, HardRc, Told, Filled, Waiting, Asked;
      ghost var recs, kvs := Records(), db.kvs;
      if key in items {
        sent := WantItem(key, gc, inc, items[key], now);
        HardAfter(old(L()), old(F()), key, inc, old(Holds(key)), L(), F());
        return;
      }
      NoItem(recs, kvs, key);
      assert !Holds(key);
      sent := WantStored(key, gc, inc, now);
      HardAfter(old(L()), old(F()), key, inc, false, L(), F());
    }

    lemma Twice(recs: Items, key: Key, a: Record, b: Record)
      ensures recs[key := a][key := b] == recs[key := b]
    {
    }

    method WantItem(key: Key, gc: Chan, inc: nat, it: Item, now: int) returns (sent: map<Chan, Object>)
      requires Valid() && FitsWant(key, inc) && key in items && items[key] == it
      modifies this, items.Values, db
      ensures Valid() && L() == (if old(Holds(key)) then old(L()) else Counting(old(L()), key, inc))
      ensures F() == if key in old(L()) then WithFilled(old(F()), key, Filled(old(F()), key) + inc) else old(F())
      ensures W() == Waiting(old(W()), old(L()), key, gc, inc)
      ensures sent == Told(gc, key, L(), F())
      ensures Renewed()
      ensures Records() == Asked(old(Records()), key, gc, inc, L(), now)
    {
      hide Single, Logical, Fillings, Wants, Consistent, SumWants, Volume, Live, Recounted, Held, Tally, Touched,
        Counting, WithFilled, HardRc, Told, Filled, Added, Served, ServedLending, Asked;
      ghost var recs, kvs := Records(), db.kvs;
      ItemAt(recs, kvs, key);
      Missing(recs, kvs, key, inc);
      ItemIs(recs, kvs, key);
      assert recs[key] == it.Rec() && (Holds(key) <==> !it.IsFilling());
      if it.IsWanted() {
        WantMore(key, gc, inc, it);
        AskedMore(recs, key, gc, inc, L(), now);
        ToldNothing(gc, key, L(), F());
        return map[];
      }
      if it.IsFilling() {
        sent := WantFilling(key, gc, inc, it, now);
        AskedFilling(recs, key, gc, inc, L(), now);
        return;
      }
      sent := WantHeld(key, gc, inc, it, now);
      AskedHeld(recs, key, gc, inc, L(), now);
    }

    method WantMore(key: Key, gc: Chan, inc: nat, it: Item)
      requires Valid() && key in items && items[key] == it && it.IsWanted() && FitsWant(key, inc)
      modifies it
      ensures Valid() && L() == old(L()) && F() == old(F()) && key in old(W())
        && W() == old(W())[key := Added(old(W())[key], gc, inc)]
      ensures var recs := old(Records());
              key in recs && Records() == recs[key := recs[key].(fwant := Added(recs[key].fwant, gc, inc))]
    {
      hide Single, Logical, Fillings, Wants, Consistent, SumWants, Volume, Live, Recounted, Held, Tally, Touched,
        Counting;
      ghost var recs, kvs := Records(), db.kvs;
      ItemAt(recs, kvs, key);
      ItemIs(recs, kvs, key);
      var fwant := Added(it.fwant, gc, inc);
      MoreWants(it.fwant, gc, fwant[gc]);
      Put(amount, volume, recs, kvs, key, recs[key].(fwant := fwant));
      Missing(recs, kvs, key, 0);
      SetFwant(key, it, fwant);
    }

    /** Create a wanted item. */
    method AddWanted(key: Key, gc: Chan, inc: nat)
      requires Valid() && key !in items && key !in db.kvs && inc < WIDTH
      modifies this`items
      ensures Valid() && L() == old(L()) && F() == old(F()) && W() == old(W())[key := map[gc := inc]]
      ensures Renewed() && Records() == old(Records())[key := Record(map[gc := inc], 0, 0, 0, 0, [])]
    {
      hide Single, Logical, Fillings, Wants, Consistent, SumWants, Volume, Live, Recounted, Held, Tally, Touched,
        Counting, WithFilled, HardRc, Filled, Told;
      ghost var recs, kvs := Records(), db.kvs;
      NoItem(recs, kvs, key);
      OneWant(gc, inc);
      Put(amount, volume, recs, kvs, key, Record(map[gc := inc], 0, 0, 0, 0, []));
      var it := NewBlank(key, map[gc := inc], 0);
    }

    /** The store has what is not wanted. */
    method WantFilling(key: Key, gc: Chan, inc: nat, it: Item, now: int) returns (sent: map<Chan, Object>)
      requires Valid() && key in items && items[key] == it && !it.IsWanted() && it.IsFilling() && FitsWant(key, inc)
      modifies this, items.Values, db
      ensures Valid() && L() == Counting(old(L()), key, inc) && key in old(L()) && key in L() && W() == old(W())
      ensures F() == WithFilled(old(F()), key, Filled(old(F()), key) + inc) && sent == Told(gc, key, L(), F())
      ensures items == old(items)
      ensures var recs := old(Records());
              key in recs && Records() == ServedLending(recs, key, recs[key].fc + inc, L()[key], now)
    {
      hide Single, Logical, Fillings, Wants, Consistent, SumWants, Volume, Live, Recounted, Held, Tally, Touched,
        Counting, WithFilled, HardRc, Filled, Told, Served, ServedLending, Records;
      ghost var recs := Records();
      RecordAt(key);
      ItemIs(recs, db.kvs, key);
      var val, rc, err := GetFilling(key, inc, it, now);
      ServedLent(recs, key, it.fc + inc, L()[key], now);
      RecordAt(key);
      sent := Lend(key, gc, inc, it, val, rc);
    }

    method WantHeld(key: Key, gc: Chan, inc: nat, it: Item, now: int) returns (sent: map<Chan, Object>)
      requires Valid() && key in items && items[key] == it && it.Rec().Regular() && FitsWant(key, inc)
      modifies it
      ensures Valid() && L() == old(L()) && F() == WithFilled(old(F()), key, Filled(old(F()), key) + inc)
        && W() == old(W()) && key in L()
      ensures sent == Told(gc, key, L(), F())
      ensures var recs := old(Records());
              key in recs
              && Records()
                 == recs[key := recs[key].(fc := recs[key].fc + inc, points := Touched(policy, recs[key].points, now))]
    {
      hide Single, Logical, Fillings, Wants, Consistent, SumWants, Volume, Live, Recounted, Held, Tally, Touched,
        Counting, WithFilled, HardRc, Filled, Told, Records;
      ghost var recs, kvs := Records(), db.kvs;
      RecordAt(key);
      ItemAt(recs, kvs, key);
      ItemIs(recs, kvs, key);
      Missing(recs, kvs, key, 0);
      HardIs(L(), F(), key);
      sent := Lend(key, gc, inc, it, it.val, it.cc - it.fc);
      ghost var mid := it.Rec();
      TouchKeeps(key, it, now);
      Twice(recs, key, mid, it.Rec());
    }

    /** Let fillers own more of a count, and send the object with what is not theirs. */
    method Lend(key: Key, gc: Chan, inc: nat, it: Item, val: Bytes, rc: int) returns (sent: map<Chan, Object>)
      requires Valid() && key in items && items[key] == it && !it.IsWanted() && it.fc + inc < WIDTH
        && it.fc == Filled(F(), key)
      requires key in L() && L()[key].val == val && rc == HardRc(L(), F(), key)
      modifies it`fc
      ensures Valid() && L() == old(L()) && F() == WithFilled(old(F()), key, old(it.fc) + inc) && W() == old(W())
      ensures sent == Told(gc, key, L(), F())
      ensures Records() == old(Records())[key := it.Rec()] && it.Rec() == old(it.Rec()).(fc := old(it.fc) + inc)
    {
      hide Single, Logical, Fillings, Wants, Consistent, SumWants, Volume, Live, Recounted, Held, Tally, Touched,
        Counting, WithFilled, HardRc, Filled, Told;
      var n := it.fc + inc;
      ghost var l, f := L(), F();
      HardIs(l, f, key);
      HardShift(l, f, key, n);
      ToldIs(gc, key, l, WithFilled(f, key, n), val, rc - inc);
      sent := map[gc := Object(key, val, rc - inc, None)];
      OwnFc(key, it, n);
    }

    /** Touching an item changes nothing else. */
    method TouchKeeps(ghost key: Key, it: Item, now: int)
      requires Valid() && key in items && items[key] == it
      modifies it`points
      ensures Valid() && L() == old(L()) && F() == old(F()) && W() == old(W())
      ensures Records() == old(Records())[key := it.Rec()]
        && it.Rec() == old(it.Rec()).(points := Touched(policy, old(it.points), now))
    {
      hide Single, Logical, Fillings, Wants, Consistent, SumWants, Volume, Live, Recounted, Held, Tally, Touched,
        Counting, WithFilled, HardRc, Filled, Told;
      ghost var recs, kvs := Records(), db.kvs;
      ItemAt(recs, kvs, key);
      ItemIs(recs, kvs, key);
      Missing(recs, kvs, key, 0);
      PointsKeep(amount, volume, recs, kvs, key, Touched(policy, it.points, now));
      TouchItem(key, it, now);
    }

    /** Change how much of the count fillers own. */
    method OwnFc(ghost key: Key, it: Item, fc: nat)
      requires Valid() && key in items && items[key] == it && !it.IsWanted() && fc < WIDTH
      modifies it`fc
      ensures Valid() && L() == old(L()) && F() == WithFilled(old(F()), key, fc) && W() == old(W()) && it.fc == fc
      ensures Records() == old(Records())[key := it.Rec()] && it.Rec() == old(it.Rec()).(fc := fc)
    {
      hide Single, Logical, Fillings, Wants, Consistent, SumWants, Volume, Live, Recounted, Held, Tally, Touched,
        Counting, WithFilled, HardRc, Filled;
      ghost var recs, kvs := Records(), db.kvs;
      FcKeeps(amount, volume, recs, kvs, key, fc);
      SetFc(key, it, fc);
    }

    method WantStored(key: Key, gc: Chan, inc: nat, now: int) returns (sent: map<Chan, Object>)
      requires Valid() && key !in items && FitsWant(key, inc)
      modifies this, items.Values, db
      ensures Valid() && L() == Counting(old(L()), key, inc)
      ensures F() == if key in old(L()) then WithFilled(old(F()), key, Filled(old(F()), key) + inc) else old(F())
      ensures W() == Waiting(old(W()), old(L()), key, gc, inc)
      ensures sent == Told(gc, key, L(), F())
      ensures Renewed()
      ensures Records() == Asked(old(Records()), key, gc, inc, L(), now)
    {
      hide Single, Logical, Fillings, Wants, Consistent, SumWants, Volume, Live, Recounted, Held, Tally, Touched,
        Counting, WithFilled, HardRc, Filled, Told, Served;
      ghost var recs, kvs := Records(), db.kvs;
      NoItem(recs, kvs, key);
      Missing(recs, kvs, key, inc);
      StoreCounts(recs, kvs, key, inc);
      var val, urc, err := GetStored(key, inc);
      ghost var kvs' := db.kvs;
      if err != None {
        FirstAdded(gc, inc);
        AddWanted(key, gc, inc);
        ToldNothing(gc, key, L(), F());
        return map[];
      }
      HardShift(Logical(recs, kvs'), Fillings(recs), key, inc);
      ToldIs(gc, key, Logical(recs, kvs'), WithFilled(Fillings(recs), key, inc), val, urc - inc);
      sent := map[gc := Object(key, val, urc - inc, None)];
      Adopt(key, val, urc, inc, now);
    }

    /** Create a filling item for a value of the store, and cache it. */
    method Adopt(key: Key, val: Bytes, urc: nat, inc: nat, now: int)
      requires Valid() && key !in items && inc < WIDTH && key in db.kvs && db.kvs[key] == Entry(urc, val)
      modifies this, items.Values, db
      ensures Valid() && L() == old(L()) && F() == WithFilled(old(F()), key, inc) && W() == old(W())
      ensures Renewed()
      ensures Records() ==
              Served(old(Records())[key := Record(map[], 0, inc, 0, 0, [])], key, Entry(urc, val), true, now)
    {
      hide Single, Logical, Fillings, Wants, Consistent, SumWants, Volume, Live, Recounted, Held, Tally, Touched,
        Counting, WithFilled, HardRc, Filled, Told, Served;
      ghost var recs, kvs := Records(), db.kvs;
      NoItem(recs, kvs, key);
      NoWants();
      Put(amount, volume, recs, kvs, key, Record(map[], 0, inc, 0, 0, []));
      var it := NewBlank(key, map[], inc);
      PutFillingItem(key, val, urc, it, now);
    }

    /** Those who still wait once this one does not. */
    ghost function Unwanted(key: Key, gc: Chan): map<Key, map<Chan, nat>>
      reads this, items.Values
    {
      if key !in W() then W() else if W()[key] - {gc} == map[] then W() - {key} else W()[key := W()[key] - {gc}]
    }

    /** Do not wait for an object any more. */
    method Unwant(key: Key, gc: Chan)
      requires Valid()
      modifies this, items.Values
      ensures Valid() && L() == old(L()) && F() == old(F()) && W() == old(Unwanted(key, gc))
      ensures Renewed()
      ensures Records() ==
              if key !in old(W()) then old(Records())
              else if old(W())[key] - {gc} == map[] then old(Records()) - {key}
              else old(Records())[key := old(Records())[key].(fwant := old(W())[key] - {gc})]
    {
      hide Single, Logical, Fillings, Wants, Consistent, SumWants, Volume, Live, Recounted, Held, Tally, Touched,
        Counting, WithFilled, HardRc, Filled;
      if key !in items {
        NoItem(Records(), db.kvs, key);
        return;
      }
      var it := items[key];
      ghost var recs, kvs := Records(), db.kvs;
      ItemAt(recs, kvs, key);
      ItemIs(recs, kvs, key);
      if !it.IsWanted() {
        return;
      }
      var fwant := it.fwant - {gc};
      assert recs[key] == it.Rec();
      if |fwant| == 0 && it.fc == 0 && |it.val| == 0 {
        DropBlank(key);
        Discard(it, fwant, it.points);
        return;
      }
      WaitLess(key, gc, it, fwant);
    }

    /** One less waits for an item. */
    method WaitLess(ghost key: Key, ghost gc: Chan, it: Item, fwant: map<Chan, nat>)
      requires Valid() && key in items && items[key] == it && it.IsWanted() && fwant == it.fwant - {gc}
        && fwant != map[]
      modifies it`fwant
      ensures Valid() && L() == old(L()) && F() == old(F()) && W() == old(W())[key := fwant]
      ensures key in old(Records()) && Records() == old(Records())[key := old(Records())[key].(fwant := fwant)]
    {
      hide Single, Logical, Fillings, Wants, Consistent, SumWants, Volume, Live, Recounted, Held, Tally, Touched,
        Counting, WithFilled, HardRc, Filled;
      ghost var recs, kvs := Records(), db.kvs;
      assert recs[key] == it.Rec();
      LessWanted(amount, volume, recs, kvs, key, recs[key].(fwant := fwant), gc);
      SetFwant(key, it, fwant);
    }

    /** What becomes of a removed item changes nothing. */
    method Discard(it: Item, fwant: map<Chan, nat>, points: int)
      requires Valid() && it !in items.Values
      modifies it
      ensures Valid() && L() == old(L()) && F() == old(F()) && W() == old(W()) && Records() == old(Records())
    {
      hide Single, Logical, Fillings, Wants, Consistent, SumWants, Volume, Live, Recounted, Held, Tally, Touched,
        Counting, WithFilled, HardRc, Filled;
      ghost var recs := Records();
      it.fwant := fwant;
      it.points := points;
      assert Records() == recs;
    }

    /** Remove an item that has no value and no counts of fillers. */
    method DropBlank(key: Key)
      requires Valid() && key in items && items[key].fc == 0 && items[key].IsFilling()
      modifies this`items
      ensures Valid() && L() == old(L()) && F() == old(F()) && W() == old(W()) - {key}
        && old(items[key]) !in items.Values
      ensures items.Values <= old(items.Values) && Records() == old(Records()) - {key}
    {
      hide Single, Logical, Fillings, Wants, Consistent, SumWants, Volume, Live, Recounted, Held, Tally, Touched,
        Counting, WithFilled, HardRc, Filled;
      ghost var recs, kvs := Records(), db.kvs;
      NotFilling(recs, key);
      WantedGone(amount, volume, recs, kvs, key);
      RemoveItem(key);
    }

    /** Set a value only if somebody waits for it. */
    method SetWanted(key: Key, val: Bytes, now: int) returns (rc: int, err: Error, sent: map<Chan, Object>)
      requires Valid() && FitsWanted(key, 0)
      modifies this, items.Values, db
      ensures Valid()
      ensures key !in old(W()) ==>
              err == None && rc == 0 && sent == map[] && L() == old(L()) && F() == old(F()) && W() == old(W())
      ensures key in old(W()) ==>
              err ==
              if |val| > maxObjectSize then ErrTooLarge
              else if SumWants(old(W())[key]) == 0 then Panicked
              else if val == [] then ErrEmptyValue
              else None
      ensures key in old(W()) && err == None ==> var n := SumWants(old(W())[key]);
                L() == old(L())[key := Entry(n, val)] && F() == WithFilled(old(F()), key, Filled(old(F()), key) + n)
                && W() == old(W()) - {key}
                && rc == HardRc(L(), F(), key) && sent == Sends(old(W())[key], Object(key, val, rc, None))
      ensures err == ErrTooLarge ==>
              L() == old(L()) && F() == old(F()) - {key} && W() == old(W()) - {key}
              && sent == Sends(old(W())[key], Object(key, [], 0, ErrTooLarge))
      ensures err in {ErrEmptyValue, Panicked} ==>
              L() == old(L()) && F() == old(F()) && W() == old(W()) && sent == map[]
      ensures Renewed()
      ensures key !in old(W()) ==> Records() == old(Records())
      ensures key in old(W()) ==>
                var r := old(Records())[key];
                Records() == if err == None then Served(old(Records())[key := r.(fwant := map[],
                                     fc := r.fc + SumWants(r.fwant))], key, L()[key], true, now)
                             else if err == ErrTooLarge then old(Records()) - {key}
                             else old(Records())
    {
      hide Single, Logical, Fillings, Wants, Consistent, SumWants, Volume, Live, Recounted, Held, Tally, Touched,
        Counting, WithFilled, HardRc, Filled, Sends, Served;
      rc, err, sent := 0, None, map[];
      if key !in items {
        NoItem(Records(), db.kvs, key);
        return;
      }
      ItemIs(Records(), db.kvs, key);
      if !items[key].IsWanted() {
        return;
      }
      rc, err, sent := SetWantedItem(key, val, 0, items[key], now);
    }

    /** What fillers may give back or apply: no more than they own. */
    ghost predicate Owned(key: Key, inc: int)
      reads this, items.Values
    {
      inc != 0 && (key in F() ==> -(F()[key] as int) <= inc <= F()[key])
    }

    /** Apply a count owned by fillers, or give it back. */
    method Finc(key: Key, inc: int, now: int) returns (err: Error)
      requires Valid() && Owned(key, inc)
      modifies this, items.Values, db
      ensures Valid() && W() == old(W())
      ensures key !in old(F()) ==> err == None && L() == old(L()) && F() == old(F())
      ensures key in old(F()) && inc > 0 ==>
              err == None && L() == old(L()) && F() == WithFilled(old(F()), key, old(F())[key] - inc)
      ensures key in old(F()) && inc < 0 ==>
              L() == Counting(old(L()), key, inc) && F() == WithFilled(old(F()), key, old(F())[key] + inc)
      ensures key in old(F()) && inc < 0 ==> err == if key in old(L()) then None else ErrNotFound
      ensures key in old(F()) && inc > 0 ==> HardRc(L(), F(), key) == old(HardRc(L(), F(), key)) + inc
      ensures key in old(F()) && inc < 0 && key in old(L()) ==>
              (HardRc(L(), F(), key) == old(HardRc(L(), F(), key)) <==> old(L())[key].rc + inc >= 0)
      ensures Renewed()
      ensures Records() == Finished(old(Records()), key, inc, L(), now)
    {
      hide Single, Logical, Fillings, Wants, Consistent, SumWants, Volume, Live, Recounted, Held, Tally, Touched,
        Counting, WithFilled, HardRc, Filled, Served, Finished, Records;
      RecordAt(key);
      FinishedNothing(Records(), key, inc, L(), now);
      if key !in items {
        NoItem(Records(), db.kvs, key);
        return None;
      }
      var it := items[key];
      ghost var recs, kvs := Records(), db.kvs;
      ItemAt(recs, kvs, key);
      ItemIs(recs, kvs, key);
      FilledAt(F(), key);
      CountFits(recs, kvs, key, 0);
      assert recs[key] == it.Rec();
      if it.fc == 0 {
        NotFilling(recs, key);
        return None;
      }
      FincHard(L(), F(), key, inc);
      if inc > 0 {
        FincApply(key, inc, it, now);
        return None;
      }
      CountingKeys(L(), key, inc);
      OwnFc(key, it, it.fc + inc);
      Missing(Records(), kvs, key, inc);
      CountFits(Records(), kvs, key, inc);
      ghost var mid := Records();
      assert mid == recs[key := recs[key].(fc := recs[key].fc + inc)];
      var rc;
      rc, err := IncItem(key, inc, it, now);
      FinishedBack(recs, key, inc, L(), now);
    }

    /** Apply a count: what has no owner and no value goes, unless it is wanted. */
    method FincApply(key: Key, inc: int, it: Item, now: int)
      requires Valid() && key in items && items[key] == it && 0 < inc <= it.fc
      modifies this, items.Values
      ensures Valid() && L() == old(L()) && F() == WithFilled(old(F()), key, old(it.fc) - inc) && W() == old(W())
      ensures items.Values <= old(items.Values) && Records() == Finished(old(Records()), key, inc, L(), now)
    {
      hide Single, Logical, Fillings, Wants, Consistent, SumWants, Volume, Live, Recounted, Held, Tally, Touched,
        Counting, WithFilled, HardRc, Filled, Served, Finished;
      ItemAt(Records(), db.kvs, key);
      assert Records()[key] == it.Rec();
      FinishedApplied(Records(), key, inc, L(), now);
      OwnFc(key, it, it.fc - inc);
      if it.fc > 0 {
        return;
      }
      if !it.IsWanted() {
        if |it.val| == 0 {
          NotWanted(Records(), key);
          DropBlank(key);
          Discard(it, it.fwant, Touched(policy, it.points, now));
          return;
        }
        TouchKeeps(key, it, now);
      }
    }

    // ----------------------------------------------------------------- close

    /** Give back what fillers own, and write the counter. */
    method CloseItem(key: Key, it: Item) returns (err: Error)
      requires Sound() && key in items && items[key] == it
      modifies this, it, db
      ensures db.Counted() && err == if key in old(db.kvs) || old(SumWants(it.fwant)) == 0 then None else ErrNotFound
      ensures err == None ==> Sound() && items == old(items) - {key} && Records() == old(Records()) - {key}
      ensures err == None ==> db.kvs == Closed(old(db.kvs), key, old(it.Rec()))
    {
      hide Single, Logical, Fillings, Wants, Volume, Live, Recounted, Held, Tally, Touched, Counting, WithFilled,
        HardRc, Filled, Consistent, SumWants, Closed;
      ghost var recs, kvs := Records(), db.kvs;
      ItemAt(recs, kvs, key);
      NoWants();
      assert recs[key] == it.Rec();
      ClosedKeeps(recs, kvs, key);
      var cc := Reclaim(key, it);
      ClosedIs(kvs, key, recs[key], cc);
      err := Delete(key, it, cc);
      assert err == None ==> Records() == recs - {key};
    }

    /** Make what is wanted owned by fillers, and take from the counter what fillers own. */
    method Reclaim(ghost key: Key, it: Item) returns (cc: int)
      requires Linked() && key in items && items[key] == it
      modifies it
      ensures it.Rec() == old(it.Rec()).(fwant := map[], fc := 0) && Records() == old(Records())[key := it.Rec()]
      ensures cc == old(it.cc - it.fc - SumWants(it.fwant))
    {
      hide Single, SumWants;
      NoWants();
      if it.IsWanted() {
        var wincs := WantIncs(it.fwant);
        Unwait(key, it, wincs);
      }
      cc := it.cc - it.fc;
      SetFc(key, it, 0);
    }

    /** Close the cache: without those who wait every counter in the store becomes the one not owned by fillers. */
    method Close() returns (err: Error)
      requires Sound()
      modifies this, items.Values, db
      ensures err == None <==> forall k <- old(W()) :: SumWants(old(W())[k]) == 0
      ensures err == None ==> Sound() && items == map[] && L() == db.kvs && db.kvs.Keys == old(L()).Keys
      ensures err == None ==>
                forall k <- db.kvs ::
                  db.kvs[k].val == old(L())[k].val
                  && (HardRc(old(L()), old(F()), k) >= 0 ==> db.kvs[k].rc == HardRc(old(L()), old(F()), k))
    {
      hide Single, Logical, Fillings, Wants, Volume, Live, Recounted, Held, Tally, Touched, Counting, WithFilled,
        HardRc, Filled, Consistent, SumWants, Closed;
      ghost var recs, kvs := Records(), db.kvs;
      NothingClosed(recs, kvs);
      while items != map[]
        invariant Sound() && items.Values <= old(items.Values) && Closing(recs, kvs, Records(), db.kvs)
        decreases |items|
      {
        var key :| key in items;
        ItemAt(Records(), db.kvs, key);
        ghost var left := Records();
        assert left[key] == items[key].Rec();
        ClosingNext(recs, kvs, Records(), db.kvs, key);
        err := CloseItem(key, items[key]);
        if err != None {
          assert key in old(W()) && SumWants(old(W())[key]) > 0;
          return;
        }
      }
      AllClosed(recs, kvs, db.kvs);
      err := None;
    }
  }
}
