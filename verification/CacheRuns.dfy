/** What runs of operations on a cache do. */
module CacheRuns {
  import opened Hashing
  import opened Cxds
  import opened CacheState
  import opened Caching

  /** Operations of those who are not fillers. */
  datatype Op = Get(key: Key, inc: int) | Inc(key: Key, inc: int) | Set(key: Key, val: Bytes, inc: int)

  datatype Answer = Answer(val: Bytes, err: Error)

  /** The store after an operation. */
  function Apply(l: Entries, op: Op): Entries {
    match op
    case Get(key, inc) => Counting(l, key, inc)
    case Inc(key, inc) => Counting(l, key, inc)
    case Set(key, val, inc) => Setting(l, key, val, inc)
  }

  function ApplyAll(l: Entries, ops: seq<Op>): Entries {
    if ops == [] then l else Apply(ApplyAll(l, ops[..|ops| - 1]), ops[|ops| - 1])
  }

  /** No counter wraps around, and a key stands for one value, which is not too large. */
  predicate Proper(l: Entries, op: Op, maxObjectSize: int) {
    -WIDTH < op.inc < WIDTH && (op.key in l ==> l[op.key].rc + op.inc < WIDTH)
    && (op.Set? ==> op.inc > 0 && |op.val| <= maxObjectSize && (op.key in l ==> l[op.key].val == op.val))
  }

  predicate AllProper(l: Entries, ops: seq<Op>, maxObjectSize: int) {
    forall k | 0 <= k < |ops| :: Proper(ApplyAll(l, ops[..k]), ops[k], maxObjectSize)
  }

  /** One operation on the cache is one operation on what it stands for. */
  method Perform(c: Cache, op: Op, now: int) returns (a: Answer)
    requires c.Valid() && Proper(c.L(), op, c.maxObjectSize) && op.key !in c.W()
    modifies c, c.items.Values, c.db
    ensures c.Valid() && c.L() == Apply(old(c.L()), op) && c.F() == old(c.F()) && c.W() == old(c.W())
    ensures a == Said(old(c.L()), op) && c.Renewed()
  {
    hide Counting, Setting;
    SettingCounts(c.L(), op.key, if op.Set? then op.val else [], op.inc);
    SettingNothing(c.L(), op.key, op.inc);
    CountingValue(c.L(), op.key, op.inc);
    match op
    case Get(key, inc) =>
      var val, rc, err := c.Get(key, inc, now);
      a := Answer(if err == None then val else [], err);
    case Inc(key, inc) =>
      var rc, err := c.Inc(key, inc, now);
      a := Answer([], err);
    case Set(key, val, inc) =>
      NonEmpty(c, key);
      var rc, err, sent := c.Set(key, val, inc, now);
      a := Answer([], err);
  }

  /** The answer of a store. */
  function Said(l: Entries, op: Op): Answer {
    match op
    case Get(key, inc) => if key in l then Answer(l[key].val, None) else Answer([], ErrNotFound)
    case Inc(key, inc) => Answer([], if key in l then None else ErrNotFound)
    case Set(key, val, inc) => Answer([], if val == [] then ErrEmptyValue else None)
  }

  lemma CountingValue(l: Entries, key: Key, inc: int)
    ensures key in l ==> key in Counting(l, key, inc) && Counting(l, key, inc)[key].val == l[key].val
  {
  }

  /** What has an item that nobody waits for is there, with a value. */
  lemma NonEmpty(c: Cache, key: Key)
    requires c.Valid() && key !in c.W()
    ensures key in c.L() ==> c.L()[key].val != []
    ensures key in c.items ==> key in c.L()
  {
    hide SumWants;
    ItemAt(c.Records(), c.db.kvs, key);
  }

  /**
   Write-behind refinement: a cache and a bare store, given the same operations
   on objects that nobody waits for, answer the same and stand for the same,
   whatever the cache evicts meanwhile.
   */
  method Alongside(c: Cache, store: MemoryCXDS, ops: seq<Op>, times: seq<int>)
    requires c.Valid() && store.Counted() && store != c.db && c.L() == store.kvs
    requires |times| == |ops| && AllProper(c.L(), ops, c.maxObjectSize) && forall op <- ops :: op.key !in c.W()
    modifies c, c.items.Values, c.db, store
    ensures c.Valid() && c.L() == store.kvs == ApplyAll(old(c.L()), ops) && c.F() == old(c.F())
      && c.W() == old(c.W())
  {
    hide Counting, Setting, Logical, Fillings, Wants, Consistent, Tally, Single, SumWants, Live, Volume, Recounted,
      Apply, Said;
    ghost var l := c.L();
    for k := 0 to |ops|
      invariant c.Valid() && store.Counted() && c.L() == store.kvs == ApplyAll(l, ops[..k]) && c.F() == old(c.F())
        && c.W() == old(c.W()) && c.Renewed()
    {
      assert ops[..k + 1][..k] == ops[..k];
      assert Proper(ApplyAll(l, ops[..k]), ops[k], c.maxObjectSize);
      var a := Perform(c, ops[k], times[k]);
      var b := PerformBare(store, ops[k]);
      assert a == b;
    }
    assert ops[..|ops|] == ops;
  }

  method PerformBare(store: MemoryCXDS, op: Op) returns (a: Answer)
    requires store.Counted() && -WIDTH < op.inc < WIDTH && (op.Set? ==> op.inc > 0)
    modifies store
    ensures store.Counted() && store.kvs == Apply(old(store.kvs), op) && a == Said(old(store.kvs), op)
  {
    CountingValue(store.kvs, op.key, op.inc);
    match op
    case Get(key, inc) =>
      var val, rc, err := store.Get(key, inc);
      a := Answer(if err == None then val else [], err);
    case Inc(key, inc) =>
      var rc, err := store.Inc(key, inc);
      a := Answer([], err);
    case Set(key, val, inc) =>
      var rc, err := store.Set(key, val, inc);
      a := Answer([], err);
  }
}
