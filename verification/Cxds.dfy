/** The in-memory key-value store with reference counters. */
module Cxds {
  import opened Hashing
  import opened Totals

  type Key = Hash

  /** Counters are 32 bits wide. */
  const WIDTH := 0x1_0000_0000

  datatype Entry = Entry(rc: nat, val: Bytes)

  type Entries = map<Key, Entry>

  datatype Error = None | ErrNotFound | ErrEmptyValue | ErrTooLarge | Panicked

  /** A counter after a change: down it stops at zero, up it wraps around. */
  function Bumped(rc: nat, inc: int): (r: nat)
    ensures rc < WIDTH && -WIDTH < inc && rc + inc < WIDTH ==> r == if rc + inc < 0 then 0 else rc + inc
    ensures rc < WIDTH && inc < WIDTH && rc + inc >= WIDTH ==> r == rc + inc - WIDTH
  {
    if inc == 0 then rc
    else if inc < 0 then
      var u := (-inc) % WIDTH;
      if u >= rc then 0 else rc - u
    else (rc + inc) % WIDTH
  }

  /** The store after a change of the counter of one key. */
  function Counting(kvs: Entries, key: Key, inc: int): Entries {
    if key in kvs then kvs[key := Entry(Bumped(kvs[key].rc, inc), kvs[key].val)] else kvs
  }

  /** The store after setting a value; a value that is there already is only counted. */
  function Setting(kvs: Entries, key: Key, val: Bytes, inc: int): Entries {
    if val == [] then kvs
    else if key in kvs then Counting(kvs, key, inc)
    else kvs[key := Entry(inc % WIDTH, val)]
  }

  // -------------------------------------------------------------- statistics

  /** The entries that are referred to. */
  function Live(kvs: Entries): (l: Entries)
    ensures forall k :: k in l <==> k in kvs && kvs[k].rc > 0
  {
    map k | k in kvs && kvs[k].rc > 0 :: kvs[k]
  }

  function Sizes(kvs: Entries): map<Key, int> {
    map k | k in kvs :: |kvs[k].val|
  }

  ghost function Volume(kvs: Entries): int {
    Total(Sizes(kvs))
  }

  lemma VolumePut(kvs: Entries, key: Key, e: Entry)
    ensures Volume(kvs[key := e]) == Volume(kvs) + |e.val| - if key in kvs then |kvs[key].val| else 0
  {
    assert Sizes(kvs[key := e]) == Sizes(kvs)[key := |e.val|];
    TotalPut(Sizes(kvs), key, |e.val|);
  }

  lemma VolumeDrop(kvs: Entries, key: Key)
    requires key in kvs
    ensures Volume(kvs - {key}) == Volume(kvs) - |kvs[key].val|
  {
    assert Sizes(kvs - {key}) == Sizes(kvs) - {key};
    TotalPick(Sizes(kvs), key);
  }

  lemma DropSize(kvs: Entries, key: Key)
    requires key in kvs
    ensures |kvs - {key}| == |kvs| - 1
  {
    assert (kvs - {key}).Keys == kvs.Keys - {key};
    assert |kvs.Keys - {key}| == |kvs.Keys| - 1;
    assert |kvs| == |kvs.Keys|;
    assert |kvs - {key}| == |(kvs - {key}).Keys|;
  }

  lemma PutSize(kvs: Entries, key: Key, e: Entry)
    ensures |kvs[key := e]| == |kvs| + if key in kvs then 0 else 1
  {
    assert kvs[key := e] - {key} == kvs - {key};
    DropSize(kvs[key := e], key);
    if key in kvs {
      DropSize(kvs, key);
    } else {
      assert kvs - {key} == kvs;
    }
  }

  lemma LivePut(kvs: Entries, key: Key, e: Entry)
    ensures Live(kvs[key := e]) == if e.rc > 0 then Live(kvs)[key := e] else Live(kvs) - {key}
    ensures key in Live(kvs) ==> Live(kvs)[key] == kvs[key]
    ensures key !in Live(kvs) ==> Live(kvs) - {key} == Live(kvs)
  {
  }

  /** What a change of one entry does to the statistics. */
  lemma PutCounts(kvs: Entries, key: Key, e: Entry)
    ensures var n, o := kvs[key := e], if key in kvs then kvs[key].rc > 0 else false;
            |n| == |kvs| + (if key in kvs then 0 else 1)
            && Volume(n) == Volume(kvs) + |e.val| - (if key in kvs then |kvs[key].val| else 0)
            && |Live(n)| == |Live(kvs)| + (if e.rc > 0 then 1 else 0) - (if o then 1 else 0)
            && Volume(Live(n)) == Volume(Live(kvs)) + (if e.rc > 0 then |e.val| else 0) - (if o then |kvs[key].val|
                else 0)
  {
    hide Volume, Live;
    PutSize(kvs, key, e);
    VolumePut(kvs, key, e);
    LivePut(kvs, key, e);
    if e.rc > 0 {
      PutSize(Live(kvs), key, e);
      VolumePut(Live(kvs), key, e);
    } else if key in Live(kvs) {
      DropSize(Live(kvs), key);
      VolumeDrop(Live(kvs), key);
    }
  }

  lemma DropCounts(kvs: Entries, key: Key)
    requires key in kvs
    ensures var n, o := kvs - {key}, kvs[key].rc > 0;
            |n| == |kvs| - 1 && Volume(n) == Volume(kvs) - |kvs[key].val|
            && |Live(n)| == |Live(kvs)| - (if o then 1 else 0)
            && Volume(Live(n)) == Volume(Live(kvs)) - (if o then |kvs[key].val| else 0)
  {
    DropSize(kvs, key);
    VolumeDrop(kvs, key);
    assert Live(kvs - {key}) == Live(kvs) - {key};
    if key in Live(kvs) {
      DropSize(Live(kvs), key);
      VolumeDrop(Live(kvs), key);
    } else {
      assert Live(kvs) - {key} == Live(kvs);
    }
  }

  /** What a callback of an iteration with deletion answers. */
  datatype Verdict = Keep | Delete | Stop | Fail

  /** Statistics are those of a recount. */
  ghost predicate Recounted(kvs: Entries, amountAll: int, amountUsed: int, volumeAll: int, volumeUsed: int) {
    amountAll == |kvs| && volumeAll == Volume(kvs) && amountUsed == |Live(kvs)| && volumeUsed == Volume(Live(kvs))
  }

  class MemoryCXDS {
    var kvs: Entries
    var amountAll: int
    var amountUsed: int
    var volumeAll: int
    var volumeUsed: int

    // entries counted as used when they were made, though their counter was zero, and their volume
    ghost var drift: nat
    ghost var driftVolume: nat

    /** The statistics are those of a recount, but for the drift. */
    ghost predicate Counted()
      reads this
    {
      Recounted(kvs, amountAll, amountUsed - drift, volumeAll, volumeUsed - driftVolume) == true
    }

    /** The statistics are those of a recount. */
    ghost predicate Exact()
      reads this
    {
      Recounted(kvs, amountAll, amountUsed, volumeAll, volumeUsed)
    }

    lemma ExactIs()
      requires Counted()
      ensures Exact() <==> drift == 0 && driftVolume == 0
    {
    }

    constructor ()
      ensures kvs == map[] && Counted() && drift == 0 && driftVolume == 0
    {
      kvs, amountAll, amountUsed, volumeAll, volumeUsed := map[], 0, 0, 0, 0;
      drift, driftVolume := 0, 0;
      new;
      assert Live(kvs) == map[] && Sizes(kvs) == map[];
    }

    /** Count an entry in or out of the used ones. */
    method Av(rc: nat, nrc: nat, vol: int)
      modifies this`amountUsed, this`volumeUsed
      ensures amountUsed == old(amountUsed) + (if nrc > 0 then 1 else 0) - (if rc > 0 then 1 else 0)
      ensures volumeUsed == old(volumeUsed) + (if nrc > 0 then vol else 0) - (if rc > 0 then vol else 0)
    {
      if rc == 0 {
        if nrc > 0 {
          amountUsed := amountUsed + 1;
          volumeUsed := volumeUsed + vol;
        }
        return;
      }
      if nrc == 0 {
        amountUsed := amountUsed - 1;
        volumeUsed := volumeUsed - vol;
      }
    }

    /** The drift stays. */
    twostate predicate Steady()
      reads this
    {
      drift == old(drift) && driftVolume == old(driftVolume)
    }

    /** Change the counter of an entry. */
    method Incr(key: Key, mo: Entry, rc: nat, inc: int) returns (nrc: nat)
      requires Counted() && key in kvs && mo == kvs[key] && rc == mo.rc
      modifies this
      ensures Counted() && kvs == Counting(old(kvs), key, inc) && nrc == kvs[key].rc && Steady()
    {
      hide Volume, Live;
      if inc == 0 {
        assert kvs == kvs[key := mo];
        return rc;
      }
      if inc < 0 {
        var uinc := (-inc) % WIDTH;
        nrc := if uinc >= rc then 0 else rc - uinc;
      } else {
        nrc := (rc + inc) % WIDTH;
      }
      PutCounts(kvs, key, Entry(nrc, mo.val));
      kvs := kvs[key := Entry(nrc, mo.val)];
      Av(rc, nrc, |mo.val|);
    }

    method Get(key: Key, inc: int) returns (val: Bytes, rc: nat, err: Error)
      requires Counted()
      modifies this
      ensures Counted() && kvs == Counting(old(kvs), key, inc) && Steady()
      ensures err == if key in old(kvs) then None else ErrNotFound
      ensures err == None ==> val == kvs[key].val && rc == kvs[key].rc
    {
      val, rc := [], 0;
      if key in kvs {
        val, rc := kvs[key].val, kvs[key].rc;
        rc := Incr(key, kvs[key], rc, inc);
        return val, rc, None;
      }
      return val, rc, ErrNotFound;
    }

    /**
     Without a positive increment it panics.  A new entry is counted as used, also
     if its counter wraps to zero: the statistics drift then, and only then.
     */
    method Set(key: Key, val: Bytes, inc: int) returns (rc: nat, err: Error)
      requires Counted()
      modifies this
      ensures Counted() && kvs == if inc <= 0 then old(kvs) else Setting(old(kvs), key, val, inc)
      ensures err == if inc <= 0 then Panicked else if val == [] then ErrEmptyValue else None
      ensures err == None ==> rc == kvs[key].rc
      ensures var wraps := inc > 0 && val != [] && key !in old(kvs) && inc % WIDTH == 0;
              drift == old(drift) + (if wraps then 1 else 0)
              && driftVolume == old(driftVolume) + if wraps then |val| else 0
      ensures old(Exact()) ==> (Exact() <==> inc <= 0 || val == [] || key in old(kvs) || inc % WIDTH != 0)
    {
      if old(Exact()) {
        ExactIs();
      }
      if inc <= 0 {
        return 0, Panicked;
      }
      rc, err := SetSome(key, val, inc);
      ExactIs();
    }

    method SetSome(key: Key, val: Bytes, inc: int) returns (rc: nat, err: Error)
      requires Counted() && inc > 0
      modifies this
      ensures Counted() && kvs == Setting(old(kvs), key, val, inc)
      ensures err == if val == [] then ErrEmptyValue else None
      ensures err == None ==> rc == kvs[key].rc
      ensures var wraps := val != [] && key !in old(kvs) && inc % WIDTH == 0;
              drift == old(drift) + (if wraps then 1 else 0)
              && driftVolume == old(driftVolume) + if wraps then |val| else 0
    {
      hide Volume, Live;
      if |val| == 0 {
        return 0, ErrEmptyValue;
      }
      if key in kvs {
        rc := Incr(key, kvs[key], kvs[key].rc, inc);
        return rc, None;
      }
      amountAll := amountAll + 1;
      volumeAll := volumeAll + |val|;
      amountUsed := amountUsed + 1;
      volumeUsed := volumeUsed + |val|;
      rc := inc % WIDTH;
      PutCounts(kvs, key, Entry(rc, val));
      if rc == 0 {
        drift, driftVolume := drift + 1, driftVolume + |val|;
      }
      kvs := kvs[key := Entry(rc, val)];
      return rc, None;
    }

    method Inc(key: Key, inc: int) returns (rc: nat, err: Error)
      requires Counted()
      modifies this
      ensures Counted() && kvs == Counting(old(kvs), key, inc) && Steady()
      ensures err == if key in old(kvs) then None else ErrNotFound
      ensures err == None ==> rc == kvs[key].rc
    {
      if key in kvs {
        rc := Incr(key, kvs[key], kvs[key].rc, inc);
        return rc, None;
      }
      return 0, ErrNotFound;
    }

    /** Take an entry out. */
    method Drop(key: Key, mo: Entry)
      requires Counted() && key in kvs && mo == kvs[key]
      modifies this
      ensures Counted() && kvs == old(kvs) - {key} && Steady()
    {
      hide Volume, Live;
      DropCounts(kvs, key);
      kvs := kvs - {key};
      if mo.rc > 0 {
        amountUsed := amountUsed - 1;
        volumeUsed := volumeUsed - |mo.val|;
      }
      amountAll := amountAll - 1;
      volumeAll := volumeAll - |mo.val|;
    }

    /** Visit entries in any order, deleting those the callback says. */
    method IterateDel(verdict: (Key, nat, Bytes) -> Verdict) returns (failed: bool)
      requires Counted()
      modifies this
      ensures Counted() && Steady() && kvs.Keys <= old(kvs).Keys && forall k <- kvs :: kvs[k] == old(kvs)[k]
      ensures forall k <- old(kvs) :: k !in kvs ==> verdict(k, old(kvs)[k].rc, old(kvs)[k].val) == Delete
      ensures failed ==> exists k :: k in kvs && verdict(k, kvs[k].rc, kvs[k].val) == Fail
      ensures (forall k <- old(kvs) :: verdict(k, old(kvs)[k].rc, old(kvs)[k].val) in {Keep, Delete}) ==>
                !failed && forall k <- kvs :: verdict(k, kvs[k].rc, kvs[k].val) == Keep
    {
      hide Volume, Live;
      var left := kvs.Keys;
      while left != {}
        invariant Counted() && Steady() && left <= kvs.Keys <= old(kvs).Keys && forall k <- kvs :: kvs[k] == old(kvs)[k]
        invariant forall k <- old(kvs) :: k !in kvs ==> verdict(k, old(kvs)[k].rc, old(kvs)[k].val) == Delete
        invariant forall k <- kvs :: k !in left ==> verdict(k, kvs[k].rc, kvs[k].val) == Keep
        decreases |left|
      {
        var k :| k in left;
        var mo := kvs[k];
        left := left - {k};
        match verdict(k, mo.rc, mo.val)
        case Stop => return false;
        case Fail => return true;
        case Keep =>
        case Delete =>
          Drop(k, mo);
      }
      return false;
    }
  }

  // -------------------------------------------------------------------- runs

  datatype Op =
    | Get(key: Key, inc: int)
    | Set(key: Key, val: Bytes, inc: int)
    | Inc(key: Key, inc: int)
    | Sweep(verdict: (Key, nat, Bytes) -> Verdict)
  {
    /** The operation makes no entry with a counter that wraps to zero. */
    predicate Fitting() {
      Set? ==> inc <= 0 || inc % WIDTH != 0
    }
  }

  /** The statistics after any run are those of a recount, but for what has drifted. */
  method Run(ops: seq<Op>) returns (db: MemoryCXDS)
    ensures fresh(db) && db.Counted() && ((forall op <- ops :: op.Fitting()) ==> db.Exact())
  {
    db := new MemoryCXDS();
    for k := 0 to |ops|
      invariant db.Counted() && ((forall op <- ops :: op.Fitting()) ==> db.drift == 0 && db.driftVolume == 0)
    {
      assert ops[k] in ops;
      match ops[k]
      case Get(key, inc) => var val, rc, err := db.Get(key, inc);
      case Set(key, val, inc) => var rc, err := db.Set(key, val, inc);
      case Inc(key, inc) => var rc, err := db.Inc(key, inc);
      case Sweep(verdict) => var failed := db.IterateDel(verdict);
    }
    db.ExactIs();
  }

  /** A counter that wraps to zero. */
  method Wrapped(key: Key, val: Bytes) returns (db: MemoryCXDS)
    requires val != []
    ensures db.Counted() && !db.Exact()
  {
    db := new MemoryCXDS();
    db.ExactIs();
    var rc, err := db.Set(key, val, WIDTH);
  }
}
