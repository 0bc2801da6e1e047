/**
 What a cache in front of a store amounts to: the logical store (cached counters
 in place of stored ones), the counts owned by fillers, and who waits for what.
 */
module CacheState {
  import opened Totals
  import opened Hashing
  import opened Cxds

  /** A channel of somebody who waits for an object. */
  type Chan = nat

  /** The fields of an item. */
  datatype Record = Record(fwant: map<Chan, nat>, points: int, fc: nat, cc: nat, rc: nat, val: Bytes) {
    predicate IsWanted() {
      fwant != map[]
    }

    predicate IsFilling() {
      val == []
    }

    /** Neither wanted nor without a value. */
    predicate Regular() {
      !IsWanted() && !IsFilling()
    }
  }

  type Items = map<Key, Record>

  /**
   A cached value is the stored one, and the stored counter is remembered; the
   store has all but what is wanted.
   */
  ghost predicate Consistent(items: Items, kvs: Entries) {
    (forall k <- kvs :: EntryOk(kvs[k]))
    && (forall k <- items :: ItemOk(k, items[k], kvs))
  }

  predicate EntryOk(e: Entry) {
    e.rc < WIDTH && e.val != []
  }

  ghost predicate ItemOk(k: Key, r: Record, kvs: Entries) {
    (r.IsWanted() ==> r.IsFilling() && r.fc == 0 && k !in kvs)
    && (r.IsFilling() && !r.IsWanted() ==> k in kvs)
    && (if r.IsFilling() then r.cc == 0 && r.rc == 0
        else k in kvs && kvs[k].val == r.val && kvs[k].rc == r.rc && r.cc < WIDTH)
    && r.fc < WIDTH && SumWants(r.fwant) < WIDTH
  }

  function Counts(w: map<Chan, nat>): (m: map<Chan, int>)
    ensures m.Keys == w.Keys && forall c <- w :: m[c] == w[c]
  {
    map c | c in w :: w[c]
  }

  /** All that waits for an object asks for. */
  ghost function SumWants(w: map<Chan, nat>): (n: nat) {
    TotalNat(Counts(w));
    Total(Counts(w))
  }

  lemma NoWants()
    ensures SumWants(map[]) == 0
  {
    assert Counts(map[]) == map[];
  }

  lemma MoreWants(w: map<Chan, nat>, c: Chan, n: nat)
    ensures SumWants(w[c := n]) == SumWants(w) + n - if c in w then w[c] else 0
  {
    assert Counts(w[c := n]) == Counts(w)[c := n];
    TotalPut(Counts(w), c, n);
  }

  lemma OneWant(c: Chan, n: nat)
    ensures SumWants(map[c := n]) == n && map[c := n] != map[]
  {
    NoWants();
    MoreWants(map[], c, n);
    assert map[][c := n] == map[c := n];
    assert c in map[c := n];
  }

  lemma LessWants(w: map<Chan, nat>, c: Chan)
    requires c in w
    ensures SumWants(w - {c}) == SumWants(w) - w[c]
  {
    assert Counts(w - {c}) == Counts(w) - {c};
    TotalPick(Counts(w), c);
  }

  // ------------------------------------------------------- what it stands for

  /** The store as it would be if everything had been written at once. */
  function Logical(items: Items, kvs: Entries): (l: Entries)
    ensures l.Keys == kvs.Keys
  {
    map k | k in kvs :: if k in items && !items[k].IsFilling() then Entry(items[k].cc, kvs[k].val) else kvs[k]
  }

  /** The counts owned by fillers. */
  function Fillings(items: Items): map<Key, nat> {
    map k | k in items && items[k].fc != 0 :: items[k].fc
  }

  /** Who waits for what. */
  function Wants(items: Items): map<Key, map<Chan, nat>> {
    map k | k in items && items[k].IsWanted() :: items[k].fwant
  }

  function Filled(f: map<Key, nat>, key: Key): nat {
    if key in f then f[key] else 0
  }

  function WithFilled(f: map<Key, nat>, key: Key, fc: nat): map<Key, nat> {
    if fc == 0 then f - {key} else f[key := fc]
  }

  lemma FilledIs(f: map<Key, nat>, key: Key, fc: nat)
    ensures Filled(WithFilled(f, key, fc), key) == fc
  {
  }

  /** The count that is not owned by fillers. */
  function HardRc(l: Entries, f: map<Key, nat>, key: Key): int {
    (if key in l then l[key].rc else 0) - Filled(f, key)
  }

  /** Cached values. */
  function Held(items: Items): Entries {
    map k | k in items && !items[k].IsFilling() :: Entry(0, items[k].val)
  }

  lemma PutFillings(items: Items, key: Key, r: Record)
    ensures Fillings(items[key := r]) == WithFilled(Fillings(items), key, r.fc)
  {
  }

  lemma PutWants(items: Items, key: Key, r: Record)
    ensures Wants(items[key := r]) == if r.IsWanted() then Wants(items)[key := r.fwant] else Wants(items) - {key}
  {
  }

  lemma PutHeld(items: Items, key: Key, r: Record)
    ensures Held(items[key := r]) == if r.IsFilling() then Held(items) - {key} else Held(items)[key := Entry(0, r.val)]
  {
  }

  lemma PutLogical(items: Items, kvs: Entries, key: Key, r: Record)
    ensures key in kvs ==> Logical(items[key := r], kvs) == Logical(items, kvs)[key := if r.IsFilling() then kvs[key]
            else Entry(r.cc, kvs[key].val)]
    ensures key !in kvs ==> Logical(items[key := r], kvs) == Logical(items, kvs)
  {
  }

  /** Changing or adding one item. */
  lemma PutIs(items: Items, kvs: Entries, key: Key, r: Record)
    ensures Fillings(items[key := r]) == WithFilled(Fillings(items), key, r.fc)
    ensures Wants(items[key := r]) == if r.IsWanted() then Wants(items)[key := r.fwant] else Wants(items) - {key}
    ensures Held(items[key := r]) == if r.IsFilling() then Held(items) - {key} else Held(items)[key := Entry(0, r.val)]
    ensures key in kvs ==> Logical(items[key := r], kvs) == Logical(items, kvs)[key := if r.IsFilling() then kvs[key]
            else Entry(r.cc, kvs[key].val)]
    ensures key !in kvs ==> Logical(items[key := r], kvs) == Logical(items, kvs)
  {
    hide Logical, Fillings, Wants, Held;
    PutFillings(items, key, r);
    PutWants(items, key, r);
    PutHeld(items, key, r);
    PutLogical(items, kvs, key, r);
  }

  /** Removing an item. */
  lemma DropIs(items: Items, kvs: Entries, key: Key)
    ensures Fillings(items - {key}) == Fillings(items) - {key}
    ensures Wants(items - {key}) == Wants(items) - {key}
    ensures Held(items - {key}) == Held(items) - {key}
    ensures Logical(items - {key}, kvs) ==
            if key in kvs then Logical(items, kvs)[key := kvs[key]]
            else Logical(items, kvs)
  {
  }

  /** A change of the store at a key that is not cached. */
  lemma StoreIs(items: Items, kvs: Entries, key: Key, e: Entry)
    requires key !in items || items[key].IsFilling()
    ensures Logical(items, kvs[key := e]) == Logical(items, kvs)[key := e]
  {
  }

  lemma CountingNothing(kvs: Entries, key: Key)
    ensures Counting(kvs, key, 0) == kvs
  {
    if key in kvs {
      assert kvs[key := kvs[key]] == kvs;
    }
  }

  lemma CountingKeys(kvs: Entries, key: Key, inc: int)
    ensures Counting(kvs, key, inc).Keys == kvs.Keys
  {
  }

  /** Writing a cached counter to the store. */
  lemma CountingTo(kvs: Entries, key: Key, cc: nat)
    requires key in kvs && kvs[key].rc < WIDTH && cc < WIDTH
    ensures Counting(kvs, key, cc - kvs[key].rc) == kvs[key := Entry(cc, kvs[key].val)]
  {
  }

  // --------------------------------------------------------------- evictions

  /** An evicted item stays only for its fillers, without the value. */
  function Blanked(r: Record): Record {
    Record(r.fwant, 0, r.fc, 0, 0, [])
  }

  function Evicted(items: Items, out: set<Key>): Items {
    map k | k in items && !(k in out && items[k].fc == 0) :: if k in out then Blanked(items[k]) else items[k]
  }

  /** The counters of evicted items are written. */
  function Written(items: Items, kvs: Entries, out: set<Key>): Entries {
    map k | k in kvs :: if k in out && k in items then Entry(items[k].cc, kvs[k].val) else kvs[k]
  }

  ghost predicate Evictable(items: Items, out: set<Key>) {
    forall k <- out :: k in items && items[k].Regular()
  }

  lemma EvictionConsistent(items: Items, kvs: Entries, out: set<Key>)
    requires Consistent(items, kvs) && Evictable(items, out)
    ensures Consistent(Evicted(items, out), Written(items, kvs, out))
  {
    hide SumWants;
    var i, s := Evicted(items, out), Written(items, kvs, out);
    forall k <- i
      ensures ItemOk(k, i[k], s)
    {
      assert ItemOk(k, items[k], kvs);
    }
    forall k <- kvs
      ensures EntryOk(s[k])
    {
      if k in items {
        assert ItemOk(k, items[k], kvs);
      }
    }
  }

  /** Evictions change nothing that the cache stands for. */
  lemma EvictionKeeps(items: Items, kvs: Entries, out: set<Key>)
    requires Consistent(items, kvs) && Evictable(items, out)
    ensures var i, s := Evicted(items, out), Written(items, kvs, out);
            Consistent(i, s) && Logical(i, s) == Logical(items, kvs) && Fillings(i) == Fillings(items)
            && Wants(i) == Wants(items)
  {
    hide SumWants, Consistent;
    EvictionConsistent(items, kvs, out);
    var i, s := Evicted(items, out), Written(items, kvs, out);
    forall k <- kvs
      ensures Logical(i, s)[k] == Logical(items, kvs)[k]
    {
    }
  }

  lemma EvictItem(items: Items, out: set<Key>, key: Key)
    requires key in items && key !in out
    ensures key in Evicted(items, out) && Evicted(items, out)[key] == items[key]
    ensures Evicted(items, out + {key}) ==
            if items[key].fc == 0 then Evicted(items, out) - {key}
            else Evicted(items, out)[key := Blanked(items[key])]
  {
  }

  lemma EvictCounter(items: Items, kvs: Entries, out: set<Key>, key: Key)
    requires key in items && key !in out && key in kvs
    ensures key in Written(items, kvs, out) && Written(items, kvs, out)[key] == kvs[key]
    ensures Written(items, kvs, out + {key}) == Written(items, kvs, out)[key := Entry(items[key].cc, kvs[key].val)]
  {
  }

  /** One more eviction. */
  lemma EvictMore(items: Items, kvs: Entries, out: set<Key>, key: Key)
    requires Consistent(items, kvs) && Evictable(items, out) && key in items && items[key].Regular() && key !in out
      && key in kvs
    ensures var i, s := Evicted(items, out), Written(items, kvs, out);
            key in i && i[key] == items[key] && key in s && s[key] == kvs[key] && Evictable(items, out + {key})
            && Evicted(items, out + {key}) == (if items[key].fc == 0 then i - {key} else i[key := Blanked(items[key])])
            && Written(items, kvs, out + {key}) == s[key := Entry(items[key].cc, kvs[key].val)]
            && Held(Evicted(items, out + {key})) == Held(i) - {key} && key in Held(i)
            && Held(i)[key].val == items[key].val
  {
    hide Evicted, Written, Held, Consistent, Logical, Fillings, Wants;
    EvictItem(items, out, key);
    EvictCounter(items, kvs, out, key);
    var i := Evicted(items, out);
    HeldAt(i, key);
    PutHeld(i, key, Blanked(items[key]));
    DropIs(i, kvs, key);
  }

  lemma EvictNone(items: Items, kvs: Entries)
    ensures Evicted(items, {}) == items && Written(items, kvs, {}) == kvs && Evictable(items, {})
  {
  }

  /** Everything but one key is as it was. */
  lemma ConsistentAt(items: Items, kvs: Entries, key: Key, items': Items, kvs': Entries)
    requires Consistent(items, kvs) && items' - {key} == items - {key} && kvs' - {key} == kvs - {key}
    requires key in items' ==> ItemOk(key, items'[key], kvs')
    requires key in kvs' ==> EntryOk(kvs'[key])
    ensures Consistent(items', kvs')
  {
    hide SumWants;
    forall k <- items'
      ensures ItemOk(k, items'[k], kvs')
    {
      if k != key {
        assert k in items' - {key} && k in items - {key}
          && items'[k] == (items' - {key})[k] == (items - {key})[k] == items[k];
        assert ItemOk(k, items[k], kvs);
        assert k in kvs' - {key} <==> k in kvs - {key};
        if k in kvs {
          assert (kvs' - {key})[k] == (kvs - {key})[k];
        }
      }
    }
    forall k <- kvs'
      ensures EntryOk(kvs'[k])
    {
      if k != key {
        assert k in kvs' - {key} && kvs'[k] == (kvs' - {key})[k] == (kvs - {key})[k] == kvs[k];
      }
    }
  }

  lemma ItemAt(items: Items, kvs: Entries, key: Key)
    requires Consistent(items, kvs)
    ensures key in items ==> ItemOk(key, items[key], kvs)
    ensures key in kvs ==> EntryOk(kvs[key])
  {
  }

  // ------------------------------------------------------------------ tally

  /** The amount and the volume are those of a recount. */
  ghost predicate Tally(amount: int, volume: int, items: Items) {
    amount == |Held(items)| && volume == Volume(Held(items))
  }

  function Weight(items: Items, key: Key): nat {
    if key in items then |items[key].val| else 0
  }

  function One(items: Items, key: Key): nat {
    if key in items && !items[key].IsFilling() then 1 else 0
  }

  lemma HeldAt(items: Items, key: Key)
    ensures key in Held(items) <==> key in items && !items[key].IsFilling()
    ensures key in Held(items) ==> Held(items)[key].val == items[key].val
  {
  }

  lemma TallyPut(amount: int, volume: int, items: Items, key: Key, r: Record)
    requires Tally(amount, volume, items)
    ensures Tally(amount - One(items, key) + (if r.IsFilling() then 0 else 1), volume - Weight(items, key) + |r.val|,
            items[key := r])
  {
    hide Held, Volume;
    HeldAt(items, key);
    PutHeld(items, key, r);
    if r.IsFilling() {
      TallyLess(items, key);
    } else {
      PutSize(Held(items), key, Entry(0, r.val));
      VolumePut(Held(items), key, Entry(0, r.val));
    }
  }

  lemma TallyLess(items: Items, key: Key)
    ensures |Held(items) - {key}| == |Held(items)| - One(items, key)
      && Volume(Held(items) - {key}) == Volume(Held(items)) - Weight(items, key)
  {
    hide Held, Volume;
    HeldAt(items, key);
    if key in Held(items) {
      DropSize(Held(items), key);
      VolumeDrop(Held(items), key);
    } else {
      assert Held(items) - {key} == Held(items);
    }
  }

  lemma TallyDrop(amount: int, volume: int, items: Items, key: Key)
    requires Tally(amount, volume, items)
    ensures Tally(amount - One(items, key), volume - Weight(items, key), items - {key})
  {
    hide Held, Volume, Logical;
    DropIs(items, map[], key);
    TallyLess(items, key);
  }

  lemma NothingHeld(amount: int, volume: int, items: Items)
    requires Tally(amount, volume, items)
    ensures amount >= 0 && volume >= 0 && (amount == 0 ==> volume == 0)
  {
    TotalNat(Sizes(Held(items)));
    if amount == 0 {
      assert Held(items) == map[];
      assert Sizes(Held(items)) == map[];
    }
  }

  /** If every item has a value all of them are held. */
  lemma HeldAll(items: Items)
    requires forall k <- items :: items[k].Regular()
    ensures |Held(items)| == |items|
  {
    assert Held(items).Keys == items.Keys;
    assert |Held(items)| == |Held(items).Keys| && |items| == |items.Keys|;
  }

  /** Changing or adding one item, with all that it changes. */
  lemma Put(amount: int, volume: int, items: Items, kvs: Entries, key: Key, r: Record)
    requires Consistent(items, kvs) && Tally(amount, volume, items) && ItemOk(key, r, kvs)
    ensures var i := items[key := r];
            Consistent(i, kvs) && Tally(amount - One(items, key) + (if r.IsFilling() then 0 else 1),
                volume - Weight(items, key) + |r.val|, i)
            && Fillings(i) == WithFilled(Fillings(items), key, r.fc)
            && Wants(i) == (if r.IsWanted() then Wants(items)[key := r.fwant] else Wants(items) - {key})
            && Logical(i, kvs) ==
                    if key !in kvs then Logical(items, kvs)
                    else Logical(items, kvs)[key := if r.IsFilling() then kvs[key] else Entry(r.cc, kvs[key].val)]
  {
    hide Logical, Fillings, Wants, Held, Consistent, Tally, ItemOk;
    ItemAt(items, kvs, key);
    assert items[key := r] - {key} == items - {key};
    ConsistentAt(items, kvs, key, items[key := r], kvs);
    TallyPut(amount, volume, items, key, r);
    PutIs(items, kvs, key, r);
  }

  /** What is not in the items is not in what they stand for. */
  lemma NoItem(items: Items, kvs: Entries, key: Key)
    requires key !in items
    ensures key in kvs ==>
            key in Logical(items, kvs) && Logical(items, kvs)[key] == kvs[key]
            && Logical(items, kvs)[key := kvs[key]] == Logical(items, kvs)
    ensures key !in Fillings(items) && Filled(Fillings(items), key) == 0 && key !in Wants(items)
      && WithFilled(Fillings(items), key, 0) == Fillings(items) && Wants(items) - {key} == Wants(items)
  {
  }

  lemma ItemIs(items: Items, kvs: Entries, key: Key)
    requires key in items
    ensures Filled(Fillings(items), key) == items[key].fc && (key in Wants(items) <==> items[key].IsWanted())
    ensures WithFilled(Fillings(items), key, items[key].fc) == Fillings(items)
    ensures items[key].IsWanted() ==> Wants(items)[key] == items[key].fwant
    ensures !items[key].IsWanted() ==> Wants(items) - {key} == Wants(items)
    ensures key in kvs ==>
            Logical(items, kvs)[key] == if items[key].IsFilling() then kvs[key] else Entry(items[key].cc, kvs[key].val)
  {
  }

  lemma SameEntry(l: Entries, key: Key)
    requires key in l
    ensures l[key := l[key]] == l
  {
  }

  /** Evictions do not touch what is not in the cache. */
  lemma EvictedOut(items: Items, kvs: Entries, out: set<Key>, key: Key)
    requires key !in items
    ensures key !in Evicted(items, out)
      && (key in kvs ==> key in Written(items, kvs, out) && Written(items, kvs, out)[key] == kvs[key])
  {
  }

  /** Counting in the store what is not cached. */
  lemma StoreCounts(items: Items, kvs: Entries, key: Key, inc: int)
    requires Consistent(items, kvs) && (key in items ==> items[key].IsFilling())
    requires key in kvs ==> -WIDTH < inc && kvs[key].rc + inc < WIDTH
    ensures var s := Counting(kvs, key, inc);
            Consistent(items, s) && Logical(items, s) == Counting(Logical(items, kvs), key, inc)
            && (key in kvs ==> key in s && Logical(items, s)[key] == s[key] && s[key].val == kvs[key].val)
  {
    hide SumWants;
    if key in kvs {
      var e := Entry(Bumped(kvs[key].rc, inc), kvs[key].val);
      StoreIs(items, kvs, key, e);
      ItemAt(items, kvs, key);
      assert kvs[key := e] - {key} == kvs - {key};
      ConsistentAt(items, kvs, key, items, kvs[key := e]);
    }
  }

  /** Counting in the cache. */
  lemma CacheCounts(items: Items, kvs: Entries, key: Key, inc: int, r: Record)
    requires Consistent(items, kvs) && key in items && items[key].Regular()
    requires -WIDTH < inc && items[key].cc + inc < WIDTH
    requires r.(points := items[key].points) == items[key].(cc := if items[key].cc + inc < 0 then 0
            else items[key].cc + inc)
    ensures var i := items[key := r];
            Consistent(i, kvs) && Logical(i, kvs) == Counting(Logical(items, kvs), key, inc)
            && Fillings(i) == Fillings(items) && Wants(i) == Wants(items)
    ensures key in kvs && Logical(items[key := r], kvs)[key] == Entry(r.cc, r.val)
  {
    hide SumWants, Logical, Fillings, Wants, Held, Consistent;
    ItemAt(items, kvs, key);
    ItemIs(items, kvs, key);
    PutIs(items, kvs, key, r);
    assert items[key := r] - {key} == items - {key};
    ConsistentAt(items, kvs, key, items[key := r], kvs);
  }

  lemma SameTally(amount: int, volume: int, items: Items, key: Key, r: Record)
    requires Tally(amount, volume, items) && key in items && r.val == items[key].val
    ensures Tally(amount, volume, items[key := r])
  {
    TallyPut(amount, volume, items, key, r);
  }

  lemma Missing(items: Items, kvs: Entries, key: Key, inc: int)
    ensures key in Logical(items, kvs) <==> key in kvs
    ensures key !in kvs ==> Counting(Logical(items, kvs), key, inc) == Logical(items, kvs)
  {
  }

  /** An item without a value can go. */
  lemma WantedGone(amount: int, volume: int, items: Items, kvs: Entries, key: Key)
    requires Consistent(items, kvs) && Tally(amount, volume, items) && key in items && items[key].IsFilling()
    ensures var i := items - {key};
            Consistent(i, kvs) && Tally(amount, volume, i) && Logical(i, kvs) == Logical(items, kvs)
            && Fillings(i) == Fillings(items) - {key} && Wants(i) == Wants(items) - {key}
  {
    hide SumWants, Logical, Fillings, Wants, Held, Consistent, Tally;
    ItemIs(items, kvs, key);
    ItemAt(items, kvs, key);
    Missing(items, kvs, key, 0);
    if key in kvs {
      SameEntry(Logical(items, kvs), key);
    }
    DropIs(items, kvs, key);
    TallyDrop(amount, volume, items, key);
    assert items - {key} - {key} == items - {key};
    ConsistentAt(items, kvs, key, items - {key}, kvs);
  }

  lemma SettingNew(kvs: Entries, key: Key, val: Bytes, n: nat)
    requires key !in kvs && val != [] && n < WIDTH
    ensures Setting(kvs, key, val, n) == kvs[key := Entry(n, val)]
  {
  }

  lemma SettingNothing(kvs: Entries, key: Key, n: int)
    ensures Setting(kvs, key, [], n) == kvs
  {
  }

  /** A value somebody has waited for is in the store. */
  lemma WantedSet(amount: int, volume: int, items: Items, kvs: Entries, key: Key, e: Entry, r: Record)
    requires Consistent(items, kvs) && Tally(amount, volume, items) && key in items && items[key].IsWanted()
      && EntryOk(e)
    requires r == items[key].(fwant := map[], fc := r.fc) && r.fc < WIDTH
    ensures var i, s := items[key := r], kvs[key := e];
            Consistent(i, s) && Tally(amount, volume, i) && Logical(i, s) == Logical(items, kvs)[key := e]
            && Fillings(i) == WithFilled(Fillings(items), key, r.fc) && Wants(i) == Wants(items) - {key}
  {
    hide SumWants, Logical, Fillings, Wants, Held, Consistent, Tally;
    NoWants();
    ItemAt(items, kvs, key);
    PutIs(items, kvs, key, r);
    StoreIs(items[key := r], kvs, key, e);
    TallyPut(amount, volume, items, key, r);
    assert items[key := r] - {key} == items - {key} && kvs[key := e] - {key} == kvs - {key};
    ConsistentAt(items, kvs, key, items[key := r], kvs[key := e]);
  }

  /** Setting a value that is there only counts it. */
  lemma SettingCounts(l: Entries, key: Key, val: Bytes, inc: int)
    ensures key in l && val != [] ==> Setting(l, key, val, inc) == Counting(l, key, inc)
  {
  }

  lemma HardIs(l: Entries, f: map<Key, nat>, key: Key)
    requires key in l
    ensures HardRc(l, f, key) == l[key].rc - Filled(f, key)
  {
  }

  /** Setting in the store what has no item. */
  lemma StoreSets(items: Items, kvs: Entries, key: Key, val: Bytes, inc: int)
    requires Consistent(items, kvs) && key !in items && 0 < inc < WIDTH
      && (key in kvs ==> kvs[key].rc + inc < WIDTH && kvs[key].val == val)
    ensures var s := Setting(kvs, key, val, inc);
            Consistent(items, s) && Logical(items, s) == Setting(Logical(items, kvs), key, val, inc)
            && (val != [] ==> key in s && Logical(items, s)[key] == s[key] && s[key].val == val)
  {
    hide SumWants, Consistent, Logical;
    Missing(items, kvs, key, inc);
    NoItem(items, kvs, key);
    SettingCounts(kvs, key, val, inc);
    SettingCounts(Logical(items, kvs), key, val, inc);
    StoreCounts(items, kvs, key, inc);
    if val != [] && key !in kvs {
      var e := Entry(inc, val);
      StoreIs(items, kvs, key, e);
      ItemAt(items, kvs, key);
      assert kvs[key := e] - {key} == kvs - {key};
      ConsistentAt(items, kvs, key, items, kvs[key := e]);
    }
  }

  lemma HardShift(l: Entries, f: map<Key, nat>, key: Key, fc: nat)
    requires key in l
    ensures HardRc(l, WithFilled(f, key, fc), key) == l[key].rc - fc
  {
    FilledIs(f, key, fc);
  }

  lemma PointsKeep(amount: int, volume: int, items: Items, kvs: Entries, key: Key, points: int)
    requires Consistent(items, kvs) && Tally(amount, volume, items) && key in items
    ensures var i := items[key := items[key].(points := points)];
            Consistent(i, kvs) && Tally(amount, volume, i) && Fillings(i) == Fillings(items) && Wants(i) == Wants(items)
            && Logical(i, kvs) == Logical(items, kvs)
  {
    hide Logical, Fillings, Wants, Held, Consistent, Tally, SumWants;
    var r := items[key].(points := points);
    ItemAt(items, kvs, key);
    FieldsKeep(amount, volume, items, kvs, key, r);
  }

  /** Changing who owns the count. */
  lemma FcKeeps(amount: int, volume: int, items: Items, kvs: Entries, key: Key, fc: nat)
    requires Consistent(items, kvs) && Tally(amount, volume, items) && key in items && fc < WIDTH
      && !items[key].IsWanted()
    ensures var i := items[key := items[key].(fc := fc)];
            Consistent(i, kvs) && Tally(amount, volume, i) && Fillings(i) == WithFilled(Fillings(items), key, fc)
            && Wants(i) == Wants(items) && Logical(i, kvs) == Logical(items, kvs)
  {
    hide Logical, Fillings, Wants, Held, Consistent, Tally, SumWants;
    FieldsKeep(amount, volume, items, kvs, key, items[key].(fc := fc));
  }

  lemma FieldsKeep(amount: int, volume: int, items: Items, kvs: Entries, key: Key, r: Record)
    requires Consistent(items, kvs) && Tally(amount, volume, items) && key in items && r.fc < WIDTH
    requires r == items[key].(fc := r.fc, points := r.points) && (r.IsWanted() ==> r.fc == 0)
    ensures var i := items[key := r];
            Consistent(i, kvs) && Tally(amount, volume, i) && Fillings(i) == WithFilled(Fillings(items), key, r.fc)
            && Wants(i) == Wants(items) && Logical(i, kvs) == Logical(items, kvs)
    ensures r.fc == items[key].fc ==> Fillings(items[key := r]) == Fillings(items)
  {
    hide Logical, Fillings, Wants, Held, Consistent, Tally, SumWants;
    ItemAt(items, kvs, key);
    ItemIs(items, kvs, key);
    Missing(items, kvs, key, 0);
    Put(amount, volume, items, kvs, key, r);
    if key in kvs {
      SameEntry(Logical(items, kvs), key);
    }
    if r.IsWanted() {
      SameWants(Wants(items), key);
    }
  }

  lemma SameWants(w: map<Key, map<Chan, nat>>, key: Key)
    requires key in w
    ensures w[key := w[key]] == w
  {
  }

  lemma LessWanted(amount: int, volume: int, items: Items, kvs: Entries, key: Key, r: Record, c: Chan)
    requires Consistent(items, kvs) && Tally(amount, volume, items) && key in items && items[key].IsWanted()
    requires r == items[key].(fwant := items[key].fwant - {c}) && r.IsWanted()
    ensures var i := items[key := r];
            Consistent(i, kvs) && Tally(amount, volume, i) && Fillings(i) == Fillings(items)
            && Logical(i, kvs) == Logical(items, kvs)
            && Wants(i) == Wants(items)[key := r.fwant]
  {
    hide Logical, Fillings, Wants, Held, Consistent, Tally, SumWants;
    var w := items[key].fwant;
    ItemAt(items, kvs, key);
    ItemIs(items, kvs, key);
    if c in w {
      LessWants(w, c);
    } else {
      assert w - {c} == w;
    }
    Put(amount, volume, items, kvs, key, r);
  }

  lemma NotFilling(items: Items, key: Key)
    requires key in items && items[key].fc == 0
    ensures key !in Fillings(items) && Fillings(items) - {key} == Fillings(items)
  {
  }

  lemma FilledAt(f: map<Key, nat>, key: Key)
    ensures key in f ==> Filled(f, key) == f[key]
    ensures Filled(f, key) > 0 ==> key in f
  {
  }

  /** A count given back fits. */
  lemma CountFits(items: Items, kvs: Entries, key: Key, inc: int)
    requires Consistent(items, kvs) && inc <= 0
    ensures key in Logical(items, kvs) ==> Logical(items, kvs)[key].rc + inc < WIDTH
  {
    hide SumWants;
    if key in items && key in kvs {
      assert ItemOk(key, items[key], kvs);
    }
  }

  lemma NotWanted(items: Items, key: Key)
    requires key in items && !items[key].IsWanted()
    ensures Wants(items) - {key} == Wants(items)
  {
  }

  // ---------------------------------------------------------------- closing

  /** The store once the item of a key has been closed. */
  ghost function Closed(kvs: Entries, key: Key, r: Record): Entries {
    Counting(kvs, key, r.cc - r.fc - SumWants(r.fwant) - r.rc)
  }

  lemma ClosedIs(kvs: Entries, key: Key, r: Record, cc: int)
    requires cc == r.cc - r.fc - SumWants(r.fwant)
    ensures Closed(kvs, key, r) == Counting(kvs, key, cc - r.rc)
  {
  }

  lemma ClosedKeeps(items: Items, kvs: Entries, key: Key)
    requires Consistent(items, kvs) && key in items
    ensures Consistent(items - {key}, Closed(kvs, key, items[key]))
  {
    hide SumWants;
    assert items - {key} - {key} == items - {key};
    ItemAt(items, kvs, key);
    assert Closed(kvs, key, items[key]) - {key} == kvs - {key};
    ConsistentAt(items, kvs, key, items - {key}, Closed(kvs, key, items[key]));
  }

  /** Closing an item leaves the count not owned by fillers. */
  lemma ClosedHard(items: Items, kvs: Entries, key: Key)
    requires Consistent(items, kvs) && key in items && key in kvs
      && HardRc(Logical(items, kvs), Fillings(items), key) >= 0
    ensures Closed(kvs, key, items[key])[key].rc == HardRc(Logical(items, kvs), Fillings(items), key)
  {
    hide SumWants;
    ItemAt(items, kvs, key);
    ItemIs(items, kvs, key);
    NoWants();
  }

  /** Some items have been closed. */
  ghost predicate Closing(items: Items, kvs: Entries, left: Items, now: Entries) {
    (forall k <- left :: k in items && left[k] == items[k]) && now.Keys == kvs.Keys
    && (forall k <- items :: k !in left ==> SumWants(items[k].fwant) == 0)
    && (forall k <- kvs :: now[k].val == kvs[k].val && (k in left ==> now[k] == kvs[k]))
    && (forall k <- kvs :: k !in left && HardRc(Logical(items, kvs), Fillings(items), k) >= 0 ==>
        now[k].rc == HardRc(Logical(items, kvs), Fillings(items), k))
  }

  lemma NothingClosed(items: Items, kvs: Entries)
    ensures Closing(items, kvs, items, kvs)
  {
  }

  /** Closing an item changes one counter. */
  lemma ClosedOthers(kvs: Entries, now: Entries, key: Key, r: Record)
    requires now.Keys == kvs.Keys
    ensures Closed(now, key, r).Keys == kvs.Keys && forall k <- kvs :: Closed(now, key, r)[k].val == now[k].val
    ensures forall k <- kvs :: k != key ==> Closed(now, key, r)[k] == now[k]
    ensures key in kvs && now[key] == kvs[key] ==> Closed(now, key, r)[key] == Closed(kvs, key, r)[key]
  {
  }

  lemma ClosingNext(items: Items, kvs: Entries, left: Items, now: Entries, key: Key)
    requires Closing(items, kvs, left, now) && Consistent(items, kvs) && key in left
    ensures key in now || SumWants(left[key].fwant) == 0 ==>
            Closing(items, kvs, left - {key}, Closed(now, key, left[key]))
    ensures !(key in now || SumWants(left[key].fwant) == 0) ==> key in Wants(items) && SumWants(Wants(items)[key]) > 0
  {
    hide SumWants, Consistent, HardRc, Logical, Fillings, Wants, Closed;
    NoWants();
    ItemAt(items, kvs, key);
    ItemIs(items, kvs, key);
    ClosedOthers(kvs, now, key, left[key]);
    if key in kvs && HardRc(Logical(items, kvs), Fillings(items), key) >= 0 {
      ClosedHard(items, kvs, key);
    }
  }

  lemma AllClosed(items: Items, kvs: Entries, now: Entries)
    requires Closing(items, kvs, map[], now)
    ensures Logical(map[], now) == now && now.Keys == Logical(items, kvs).Keys
      && forall k <- Wants(items) :: SumWants(Wants(items)[k]) == 0
    ensures forall k <- now :: now[k].val == Logical(items, kvs)[k].val
                               && (HardRc(Logical(items, kvs), Fillings(items), k) >= 0 ==>
                                   now[k].rc == HardRc(Logical(items, kvs), Fillings(items), k))
  {
  }

  /** Waiting moves no count, but for what is taken from a cached item without being counted. */
  lemma WantHard(l: Entries, f: map<Key, nat>, key: Key, inc: nat)
    requires inc < WIDTH && (key in l ==> l[key].rc + inc < WIDTH)
    ensures var g := WithFilled(f, key, Filled(f, key) + inc);
            key in l ==>
              HardRc(Counting(l, key, inc), g, key) == HardRc(l, f, key)
              && HardRc(l, g, key) == HardRc(l, f, key) - inc
  {
    FilledIs(f, key, Filled(f, key) + inc);
  }

  /** Starting to wait keeps the hard count exactly if nothing is asked for or the key was not held. */
  lemma HardAfter(l: Entries, f: map<Key, nat>, key: Key, inc: nat, held: bool, m: Entries, g: map<Key, nat>)
    requires inc < WIDTH && (key in l ==> l[key].rc + inc < WIDTH)
    requires key in l ==>
            m == (if held then l else Counting(l, key, inc)) && g == WithFilled(f, key, Filled(f, key) + inc)
    ensures key in l ==> (HardRc(m, g, key) == HardRc(l, f, key) <==> inc == 0 || !held)
  {
    WantHard(l, f, key, inc);
  }

  /**
   Applying a count makes it hard; giving it back does nothing to the hard count unless the counter
   is stopped at zero.
   */
  lemma FincHard(l: Entries, f: map<Key, nat>, key: Key, inc: int)
    requires (key in l ==> l[key].rc < WIDTH) && key in f && f[key] < WIDTH && -(f[key] as int) <= inc <= f[key]
    ensures inc > 0 ==> HardRc(l, WithFilled(f, key, f[key] - inc), key) == HardRc(l, f, key) + inc
    ensures inc < 0 && key in l ==>
              var g := WithFilled(f, key, f[key] + inc);
              HardRc(Counting(l, key, inc), g, key) == HardRc(l, f, key) <==> l[key].rc + inc >= 0
  {
    if inc > 0 {
      FilledIs(f, key, f[key] - inc);
    } else {
      FilledIs(f, key, f[key] + inc);
    }
  }
}
