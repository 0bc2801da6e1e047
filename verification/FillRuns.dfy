/** What runs of operations on a cache do when fillers take part. */
module FillRuns {
  import opened Hashing
  import opened Cxds
  import opened CacheState
  import opened Caching

  /** What a cache amounts to. */
  datatype State = State(l: Entries, f: map<Key, nat>, w: map<Key, map<Chan, nat>>)

  datatype Op =
    | Get(key: Key, inc: int)
    | Inc(key: Key, inc: int)
    | Set(key: Key, val: Bytes, inc: int)
    | Want(key: Key, gc: Chan, asks: nat)
    | Unwant(key: Key, gc: Chan)
    | SetWanted(key: Key, val: Bytes)
    | Finc(key: Key, inc: int)

  ghost function StateOf(c: Cache): State
    reads c, c.items.Values, c.db
  {
    State(c.L(), c.F(), c.W())
  }

  // ------------------------------------------------------------------- steps

  /** All that waits for an object. */
  ghost function Wanted(s: State, key: Key): nat {
    if key in s.w then SumWants(s.w[key]) else 0
  }

  /** A value that somebody waits for is set, counting `inc` besides what they ask for. */
  ghost function Given(s: State, key: Key, val: Bytes, inc: nat, max: int): State
    requires key in s.w
  {
    var n := Wanted(s, key);
    if |val| > max then s.(f := s.f - {key}, w := s.w - {key})
    else if inc + n == 0 || val == [] then s
    else State(s.l[key := Entry(inc + n, val)], WithFilled(s.f, key, Filled(s.f, key) + n), s.w - {key})
  }

  function Fewer(w: map<Key, map<Chan, nat>>, key: Key, gc: Chan): map<Key, map<Chan, nat>> {
    if key !in w then w else if w[key] - {gc} == map[] then w - {key} else w[key := w[key] - {gc}]
  }

  /** The state after an operation; `held` tells whether the cache held the value. */
  ghost function Next(s: State, op: Op, held: bool, max: int): State {
    match op
    case Get(key, inc) => s.(l := Counting(s.l, key, inc))
    case Inc(key, inc) => s.(l := Counting(s.l, key, inc))
    case Set(key, val, inc) =>
      if inc <= 0 then s
      else if key in s.w then Given(s, key, val, inc, max)
      else s.(l := Setting(s.l, key, val, inc))
    case Want(key, gc, inc) =>
      State(if held then s.l else Counting(s.l, key, inc),
            if key in s.l then WithFilled(s.f, key, Filled(s.f, key) + inc) else s.f,
            Waiting(s.w, s.l, key, gc, inc))
    case Unwant(key, gc) => s.(w := Fewer(s.w, key, gc))
    case SetWanted(key, val) => if key in s.w then Given(s, key, val, 0, max) else s
    case Finc(key, inc) =>
      if key !in s.f || inc == 0 || !(-(s.f[key] as int) <= inc <= s.f[key]) then s
      else if inc > 0 then s.(f := WithFilled(s.f, key, s.f[key] - inc))
      else s.(l := Counting(s.l, key, inc), f := WithFilled(s.f, key, s.f[key] + inc))
  }

  ghost function NextAll(s: State, ops: seq<Op>, helds: seq<bool>, max: int): State
    requires |helds| == |ops|
  {
    if ops == [] then s
    else var n := |ops| - 1; Next(NextAll(s, ops[..n], helds[..n], max), ops[n], helds[n], max)
  }

  /** No counter wraps around, a key stands for one value, and fillers apply and give back what they own. */
  ghost predicate Proper(s: State, op: Op, max: int) {
    match op
    case Get(key, inc) => Counts32(s, key, inc)
    case Inc(key, inc) => Counts32(s, key, inc)
    case Set(key, val, inc) =>
      (key in s.l ==> s.l[key].val == val)
      && (inc > 0 ==> Counts32(s, key, inc) && Supplies32(s, key, inc) && (key !in s.w ==> |val| <= max))
    case Want(key, gc, inc) =>
      Counts32(s, key, inc) && Filled(s.f, key) + inc < WIDTH && Wanted(s, key) + inc < WIDTH
    case Unwant(key, gc) => true
    case SetWanted(key, val) => Supplies32(s, key, 0)
    case Finc(key, inc) => inc != 0 && (key in s.f ==> -(s.f[key] as int) <= inc <= s.f[key])
  }

  ghost predicate Counts32(s: State, key: Key, inc: int) {
    -WIDTH < inc < WIDTH && (key in s.l ==> s.l[key].rc + inc < WIDTH)
  }

  ghost predicate Supplies32(s: State, key: Key, inc: nat) {
    inc + Wanted(s, key) < WIDTH && Filled(s.f, key) + Wanted(s, key) < WIDTH
  }

  /** Every operation is proper when its turn comes. */
  ghost predicate AllProper(s: State, ops: seq<Op>, helds: seq<bool>, max: int)
    requires |helds| == |ops|
  {
    forall k | 0 <= k < |ops| :: Proper(NextAll(s, ops[..k], helds[..k], max), ops[k], max)
  }

  /** They are, whatever the cache holds. */
  ghost predicate EverProper(s: State, ops: seq<Op>, max: int) {
    forall helds: seq<bool> | |helds| == |ops| :: AllProper(s, ops, helds, max)
  }

  // --------------------------------------------------------------- hard counts

  ghost function Hard(s: State, key: Key): int {
    HardRc(s.l, s.f, key)
  }

  /** What an operation should add to the hard count of its key: what is counted, or applied by a filler. */
  ghost function Due(s: State, op: Op, max: int): int {
    match op
    case Get(key, inc) => if key in s.l then inc else 0
    case Inc(key, inc) => if key in s.l then inc else 0
    case Set(key, val, inc) => if inc <= 0 || val == [] || |val| > max then 0 else inc
    case Finc(key, inc) => if key in s.f && 0 < inc <= s.f[key] then inc else 0
    case _ => 0
  }

  /** What it adds besides: a counter stops at zero, or a filler owns what has not been counted. */
  ghost function Slip(s: State, op: Op, held: bool): int {
    match op
    case Get(key, inc) => Stopped(s, key, inc)
    case Inc(key, inc) => Stopped(s, key, inc)
    case Want(key, gc, inc) => if key in s.l && held then -(inc as int) else 0
    case Finc(key, inc) => if key in s.f && -(s.f[key] as int) <= inc < 0 then Stopped(s, key, inc) else 0
    case _ => 0
  }

  ghost function Stopped(s: State, key: Key, inc: int): nat {
    if key in s.l && s.l[key].rc + inc < 0 then -(s.l[key].rc + inc) else 0
  }

  /** Who owns counts, owns them of something that is there; nobody waits for that. */
  ghost predicate Sane(s: State) {
    (forall k <- s.f :: k in s.l && 0 < s.f[k] < WIDTH)
    && (forall k <- s.w :: k !in s.l && SumWants(s.w[k]) < WIDTH)
    && forall k <- s.l :: EntryOk(s.l[k])
  }

  lemma SaneAt(c: Cache)
    requires c.Valid()
    ensures Sane(StateOf(c))
  {
    hide SumWants;
  }

  lemma CountStep(s: State, key: Key, inc: int, k: Key)
    requires Sane(s) && Counts32(s, key, inc)
    ensures Sane(s.(l := Counting(s.l, key, inc)))
    ensures Hard(s.(l := Counting(s.l, key, inc)), k) ==
            Hard(s, k) + if key == k && key in s.l then inc + Stopped(s, key, inc) else 0
  {
    hide SumWants;
  }

  lemma SetStep(s: State, key: Key, val: Bytes, inc: int, k: Key)
    requires Sane(s) && Counts32(s, key, inc) && inc > 0 && key !in s.w && (key in s.l ==> s.l[key].val == val)
    ensures Sane(s.(l := Setting(s.l, key, val, inc)))
    ensures Hard(s.(l := Setting(s.l, key, val, inc)), k) == Hard(s, k) + if key == k && val != [] then inc else 0
  {
    hide SumWants;
    CountStep(s, key, inc, k);
  }

  lemma GivenStep(s: State, key: Key, val: Bytes, inc: nat, max: int, k: Key)
    requires Sane(s) && Supplies32(s, key, inc) && key in s.w
    ensures Sane(Given(s, key, val, inc, max))
    ensures Hard(Given(s, key, val, inc, max), k) ==
            Hard(s, k) + if key == k && |val| <= max && val != [] then inc else 0
  {
    hide SumWants;
    FilledIs(s.f, key, Filled(s.f, key) + Wanted(s, key));
  }

  lemma OwnStep(s: State, key: Key, fc: nat, k: Key)
    requires Sane(s) && key in s.l && fc < WIDTH
    ensures Sane(s.(f := WithFilled(s.f, key, fc)))
    ensures Hard(s.(f := WithFilled(s.f, key, fc)), k) == Hard(s, k) + if key == k then Filled(s.f, key) - fc else 0
  {
    hide SumWants;
    FilledIs(s.f, key, fc);
  }

  lemma WaitStep(s: State, key: Key, gc: Chan, asks: nat)
    requires Sane(s) && Wanted(s, key) + asks < WIDTH
    ensures Sane(s.(w := Waiting(s.w, s.l, key, gc, asks)))
  {
    hide SumWants;
    if key !in s.l {
      var w := if key in s.w then s.w[key] else map[];
      NoWants();
      MoreWants(w, gc, Added(w, gc, asks)[gc]);
    }
  }

  lemma LeaveStep(s: State, key: Key, gc: Chan)
    requires Sane(s)
    ensures Sane(s.(w := Fewer(s.w, key, gc)))
  {
    hide SumWants;
    if key in s.w {
      if gc in s.w[key] {
        LessWants(s.w[key], gc);
      } else {
        assert s.w[key] - {gc} == s.w[key];
      }
    }
  }

  lemma WantStep(s: State, key: Key, gc: Chan, asks: nat, held: bool, max: int, k: Key)
    requires Sane(s) && Proper(s, Want(key, gc, asks), max)
    ensures var t := Next(s, Want(key, gc, asks), held, max);
            Sane(t) && Hard(t, k) == Hard(s, k) + if key == k && key in s.l && held then -(asks as int) else 0
  {
    hide SumWants, Waiting, WithFilled, HardRc, Filled;
    WaitStep(s, key, gc, asks);
    var t := s.(w := Waiting(s.w, s.l, key, gc, asks));
    CountStep(t, key, asks, k);
    var u := if held then t else t.(l := Counting(s.l, key, asks));
    if key in s.l {
      OwnStep(u, key, Filled(s.f, key) + asks, k);
    }
  }

  lemma FincStep(s: State, key: Key, inc: int, held: bool, max: int, k: Key)
    requires Sane(s) && key in s.f && inc != 0 && -(s.f[key] as int) <= inc <= s.f[key]
    ensures var op := Finc(key, inc); var t := Next(s, op, held, max);
            Sane(t) && Hard(t, k) == Hard(s, k) + if key == k then Due(s, op, max) + Slip(s, op, held) else 0
  {
    hide SumWants, Counting, WithFilled, HardRc;
    var fc: nat := if inc > 0 then s.f[key] - inc else s.f[key] + inc;
    var t := s.(f := WithFilled(s.f, key, fc));
    OwnStep(s, key, fc, k);
    if inc < 0 {
      CountStep(t, key, inc, k);
    }
  }

  /** The hard count of every key after an operation. */
  lemma Step(s: State, op: Op, held: bool, max: int, key: Key)
    requires Sane(s) && Proper(s, op, max)
    ensures Sane(Next(s, op, held, max))
    ensures Hard(Next(s, op, held, max), key) ==
            Hard(s, key) + if op.key == key then Due(s, op, max) + Slip(s, op, held) else 0
  {
    hide SumWants, Counting, WithFilled, HardRc, Sane, Setting, Given, Filled, Waiting, Fewer;
    match op
    case Get(k, inc) => CountStep(s, k, inc, key);
    case Inc(k, inc) => CountStep(s, k, inc, key);
    case Set(k, val, inc) =>
      if inc > 0 {
        if k in s.w {
          GivenStep(s, k, val, inc, max, key);
        } else {
          SetStep(s, k, val, inc, key);
        }
      }
    case Want(k, gc, asks) => WantStep(s, k, gc, asks, held, max, key);
    case Unwant(k, gc) => LeaveStep(s, k, gc);
    case SetWanted(k, val) =>
      if k in s.w {
        GivenStep(s, k, val, 0, max, key);
      }
    case Finc(k, inc) =>
      if k in s.f {
        FincStep(s, k, inc, held, max, key);
      }
  }

  // -------------------------------------------------------------------- runs

  /** What a run should have added to the hard count of a key, and what has slipped in besides. */
  ghost function DueAll(s: State, ops: seq<Op>, helds: seq<bool>, max: int, key: Key): int
    requires |helds| == |ops|
  {
    if ops == [] then 0
    else
      var n := |ops| - 1;
      DueAll(s, ops[..n], helds[..n], max, key)
      + if ops[n].key == key then Due(NextAll(s, ops[..n], helds[..n], max), ops[n], max) else 0
  }

  ghost function SlipAll(s: State, ops: seq<Op>, helds: seq<bool>, max: int, key: Key): int
    requires |helds| == |ops|
  {
    if ops == [] then 0
    else
      var n := |ops| - 1;
      SlipAll(s, ops[..n], helds[..n], max, key)
      + if ops[n].key == key then Slip(NextAll(s, ops[..n], helds[..n], max), ops[n], helds[n]) else 0
  }

  lemma ProperLess(s: State, ops: seq<Op>, helds: seq<bool>, max: int)
    requires ops != [] && |helds| == |ops| && AllProper(s, ops, helds, max)
    ensures var n := |ops| - 1;
            AllProper(s, ops[..n], helds[..n], max) && Proper(NextAll(s, ops[..n], helds[..n], max), ops[n], max)
  {
    var n := |ops| - 1;
    forall k | 0 <= k < n
      ensures Proper(NextAll(s, ops[..n][..k], helds[..n][..k], max), ops[..n][k], max)
    {
      assert ops[..n][..k] == ops[..k] && helds[..n][..k] == helds[..k];
    }
  }

  /** The hard count of every key after any run. */
  lemma {:induction false} Conserved(s: State, ops: seq<Op>, helds: seq<bool>, max: int, key: Key)
    requires Sane(s) && |helds| == |ops| && AllProper(s, ops, helds, max)
    ensures Sane(NextAll(s, ops, helds, max))
    ensures Hard(NextAll(s, ops, helds, max), key) ==
            Hard(s, key) + DueAll(s, ops, helds, max, key) + SlipAll(s, ops, helds, max, key)
  {
    hide Next, Proper, Sane, Due, Slip, HardRc, AllProper;
    if ops != [] {
      var n := |ops| - 1;
      ProperLess(s, ops, helds, max);
      Conserved(s, ops[..n], helds[..n], max, key);
      Step(NextAll(s, ops[..n], helds[..n], max), ops[n], helds[n], max, key);
    }
  }

  /** One operation on a cache. */
  method Perform(c: Cache, op: Op, now: int) returns (ghost held: bool)
    requires c.Valid() && Proper(StateOf(c), op, c.maxObjectSize)
    modifies c, c.items.Values, c.db
    ensures c.Valid() && StateOf(c) == Next(old(StateOf(c)), op, held, c.maxObjectSize) && c.Renewed()
    ensures held == old(c.Holds(op.key))
  {
    hide Single, Logical, Fillings, Wants, Consistent, SumWants, Volume, Live, Recounted, Tally, Counting, Setting,
      WithFilled, HardRc, Filled, Waiting, Told, Sends;
    held := c.Holds(op.key);
    SaneAt(c);
    match op
    case Get(key, inc) => var val, rc, err := c.Get(key, inc, now);
    case Inc(key, inc) => var rc, err := c.Inc(key, inc, now);
    case Set(key, val, inc) => PerformSet(c, key, val, inc, now);
    case Want(key, gc, asks) => var sent := c.Want(key, gc, asks, now);
    case Unwant(key, gc) => c.Unwant(key, gc);
    case SetWanted(key, val) => PerformSetWanted(c, key, val, now);
    case Finc(key, inc) => PerformFinc(c, key, inc, now);
  }

  method PerformSetWanted(c: Cache, key: Key, val: Bytes, now: int)
    requires c.Valid() && Proper(StateOf(c), SetWanted(key, val), c.maxObjectSize)
    modifies c, c.items.Values, c.db
    ensures c.Valid() && c.Renewed()
    ensures forall held :: StateOf(c) == Next(old(StateOf(c)), SetWanted(key, val), held, c.maxObjectSize)
  {
    hide Single, Logical, Fillings, Wants, Consistent, SumWants, Volume, Live, Recounted, Tally, WithFilled, HardRc,
      Filled, Sends;
    var rc, err, sent := c.SetWanted(key, val, now);
  }

  method PerformFinc(c: Cache, key: Key, inc: int, now: int)
    requires c.Valid() && Proper(StateOf(c), Finc(key, inc), c.maxObjectSize)
    modifies c, c.items.Values, c.db
    ensures c.Valid() && c.Renewed()
    ensures forall held :: StateOf(c) == Next(old(StateOf(c)), Finc(key, inc), held, c.maxObjectSize)
  {
    hide Single, Logical, Fillings, Wants, Consistent, SumWants, Volume, Live, Recounted, Tally, Counting, WithFilled,
      HardRc, Filled;
    var err := c.Finc(key, inc, now);
  }

  method PerformSet(c: Cache, key: Key, val: Bytes, inc: int, now: int)
    requires c.Valid() && Proper(StateOf(c), Op.Set(key, val, inc), c.maxObjectSize)
    modifies c, c.items.Values, c.db
    ensures c.Valid() && c.Renewed()
    ensures forall held :: StateOf(c) == Next(old(StateOf(c)), Op.Set(key, val, inc), held, c.maxObjectSize)
  {
    hide Single, Logical, Fillings, Wants, Consistent, SumWants, Volume, Live, Recounted, Tally, Counting,
      WithFilled, HardRc, Filled, Waiting, Told, Sends;
    var rc, err, sent := c.Set(key, val, inc, now);
  }

  /** The next operation of a run is proper, whatever the cache has held until then. */
  lemma ProperNext(s: State, ops: seq<Op>, helds: seq<bool>, max: int)
    requires |helds| < |ops| && EverProper(s, ops, max)
    ensures Proper(NextAll(s, ops[..|helds|], helds, max), ops[|helds|], max)
  {
    var all := helds + seq(|ops| - |helds|, _ => false);
    assert AllProper(s, ops, all, max);
    assert all[..|helds|] == helds;
  }

  lemma NextOne(s: State, ops: seq<Op>, helds: seq<bool>, held: bool, max: int)
    requires |helds| < |ops|
    ensures NextAll(s, ops[..|helds| + 1], helds + [held], max) ==
            Next(NextAll(s, ops[..|helds|], helds, max), ops[|helds|], held, max)
  {
    var n := |helds|;
    assert ops[..n + 1][..n] == ops[..n] && (helds + [held])[..n] == helds;
  }

  /** Any run of operations of fillers and others, in any order. */
  method Run(c: Cache, ops: seq<Op>, times: seq<int>) returns (ghost helds: seq<bool>)
    requires c.Valid() && |times| == |ops| && EverProper(StateOf(c), ops, c.maxObjectSize)
    modifies c, c.items.Values, c.db
    ensures c.Valid() && |helds| == |ops| && StateOf(c) == NextAll(old(StateOf(c)), ops, helds, c.maxObjectSize)
    ensures c.Renewed() && (ops != [] ==> helds[0] == old(c.Holds(ops[0].key)))
  {
    hide Single, Logical, Fillings, Wants, Consistent, Tally, Next, Proper, EverProper;
    ghost var s := StateOf(c);
    helds := [];
    for k := 0 to |ops|
      invariant c.Valid() && |helds| == k && StateOf(c) == NextAll(s, ops[..k], helds, c.maxObjectSize) && c.Renewed()
      invariant k == 0 && k < |ops| ==> c.Holds(ops[0].key) == old(c.Holds(ops[0].key))
      invariant k > 0 ==> helds[0] == old(c.Holds(ops[0].key))
    {
      ProperNext(s, ops, helds, c.maxObjectSize);
      ghost var held := Perform(c, ops[k], times[k]);
      NextOne(s, ops, helds, held, c.maxObjectSize);
      helds := helds + [held];
    }
    assert ops[..|ops|] == ops;
  }

  /**
   Any run, and closing.  If nothing is left that somebody waits for with a
   count, the counter of every value in the database is the hard count there was
   at first, with what has been counted and what fillers have applied, and with
   what has slipped in.
   */
  method RunAndClose(c: Cache, ops: seq<Op>, times: seq<int>) returns (err: Error, ghost helds: seq<bool>)
    requires c.Valid() && |times| == |ops| && EverProper(StateOf(c), ops, c.maxObjectSize)
    modifies c, c.items.Values, c.db
    ensures |helds| == |ops| && AllProper(old(StateOf(c)), ops, helds, c.maxObjectSize)
    ensures var t := NextAll(old(StateOf(c)), ops, helds, c.maxObjectSize);
            (err == None <==> forall k <- t.w :: SumWants(t.w[k]) == 0)
            && (err == None ==> c.db.kvs.Keys == t.l.Keys && forall k <- c.db.kvs :: c.db.kvs[k].val == t.l[k].val)
    ensures err == None ==>
            forall k <- c.db.kvs ::
              var n := Hard(old(StateOf(c)), k) + DueAll(old(StateOf(c)), ops, helds, c.maxObjectSize, k)
                       + SlipAll(old(StateOf(c)), ops, helds, c.maxObjectSize, k);
              n >= 0 ==> c.db.kvs[k].rc == n
  {
    hide Single, Logical, Fillings, Wants, Consistent, Tally, Next, Proper, SumWants, HardRc, AllProper, Sane;
    ghost var s := StateOf(c);
    SaneAt(c);
    helds := Run(c, ops, times);
    assert AllProper(s, ops, helds, c.maxObjectSize);
    ghost var t := StateOf(c);
    forall k: Key
      ensures Hard(t, k) ==
              Hard(s, k) + DueAll(s, ops, helds, c.maxObjectSize, k) + SlipAll(s, ops, helds, c.maxObjectSize, k)
    {
      Conserved(s, ops, helds, c.maxObjectSize, k);
    }
    err := c.Close();
  }

  // ------------------------------------------------------------------- lives

  /** Nothing about the key is different. */
  ghost predicate SameKey(s: State, t: State, key: Key) {
    (key in t.l <==> key in s.l) && (key in s.l ==> t.l[key] == s.l[key])
    && (key in t.f <==> key in s.f) && (key in s.f ==> t.f[key] == s.f[key])
    && (key in t.w <==> key in s.w) && (key in s.w ==> t.w[key] == s.w[key])
  }

  /** An operation on another key leaves a key alone. */
  lemma OtherStep(s: State, op: Op, held: bool, max: int, key: Key)
    requires op.key != key
    ensures SameKey(s, Next(s, op, held, max), key)
  {
    hide SumWants, HardRc, Bumped, Filled, Given, SameKey;
    if op.Set? && op.inc > 0 {
      OtherGiven(s, op.key, op.val, op.inc, max, key);
    } else if op.SetWanted? {
      OtherGiven(s, op.key, op.val, 0, max, key);
    } else {
      OtherPlain(s, op, held, max, key);
    }
  }

  lemma OtherGiven(s: State, k: Key, val: Bytes, inc: nat, max: int, key: Key)
    requires k != key
    ensures k in s.w ==> SameKey(s, Given(s, k, val, inc, max), key)
    ensures SameKey(s, s, key) && SameKey(s, s.(l := Setting(s.l, k, val, inc)), key)
  {
    hide SumWants, Bumped, Filled;
  }

  lemma OtherPlain(s: State, op: Op, held: bool, max: int, key: Key)
    requires op.key != key && (op.Set? ==> op.inc <= 0) && !op.SetWanted?
    ensures SameKey(s, Next(s, op, held, max), key)
  {
    hide SumWants, HardRc, Bumped, Filled, Given, Setting;
  }

  /** Operations on other keys leave a key alone. */
  lemma {:induction false} OthersKeep(s: State, ops: seq<Op>, helds: seq<bool>, max: int, key: Key)
    requires |helds| == |ops| && forall op <- ops :: op.key != key
    ensures SameKey(s, NextAll(s, ops, helds, max), key)
  {
    hide Next;
    if ops != [] {
      var n := |ops| - 1;
      OthersKeep(s, ops[..n], helds[..n], max, key);
      assert ops[n] in ops;
      OtherStep(NextAll(s, ops[..n], helds[..n], max), ops[n], helds[n], max, key);
    }
  }

  lemma {:induction false} NextConcat(s: State, a: seq<Op>, b: seq<Op>, g: seq<bool>, h: seq<bool>, max: int)
    requires |g| == |a| && |h| == |b|
    ensures NextAll(s, a + b, g + h, max) == NextAll(NextAll(s, a, g, max), b, h, max)
  {
    hide Next;
    if b == [] {
      assert a + b == a && g + h == g;
    } else {
      var n := |b| - 1;
      assert (a + b)[..|a| + n] == a + b[..n] && (g + h)[..|a| + n] == g + h[..n];
      NextConcat(s, a, b[..n], g, h[..n], max);
    }
  }

  /** An operation, others on other keys, and what is left to do. */
  lemma AfterOthers(s: State, op: Op, others: seq<Op>, rest: seq<Op>, helds: seq<bool>, max: int)
    returns (t: State, left: seq<bool>)
    requires |helds| == 1 + |others| + |rest| && forall o <- others :: o.key != op.key
    ensures |left| == |rest| && NextAll(s, [op] + others + rest, helds, max) == NextAll(t, rest, left, max)
    ensures SameKey(Next(s, op, helds[0], max), t, op.key)
  {
    hide Next;
    var g, h := helds[..1], helds[1..1 + |others|];
    left := helds[1 + |others|..];
    assert helds == g + h + left && [op][..0] == [] && g[..0] == [] && g == [helds[0]];
    NextConcat(s, [op] + others, rest, g + h, left, max);
    NextConcat(s, [op], others, g, h, max);
    var u := NextAll(s, [op], g, max);
    assert u == Next(s, op, helds[0], max);
    OthersKeep(u, others, h, max, op.key);
    t := NextAll(u, others, h, max);
  }

  /** The whole life of a new object: somebody waits for it, it is set, and the count is applied or given back. */
  function NewLife(key: Key, gc: Chan, asks: nat, a: seq<Op>, val: Bytes, b: seq<Op>, apply: bool): seq<Op> {
    [Want(key, gc, asks)] + a + ([SetWanted(key, val)] + b + [Finc(key, if apply then asks else -(asks as int))])
  }

  lemma NewLifeEnds(s: State, key: Key, gc: Chan, asks: nat, a: seq<Op>, val: Bytes, b: seq<Op>, apply: bool,
          helds: seq<bool>, max: int)
    requires Sane(s) && key !in s.l && key !in s.w && 0 < asks < WIDTH && val != [] && |val| <= max
    requires (forall op <- a :: op.key != key) && forall op <- b :: op.key != key
    requires |helds| == |NewLife(key, gc, asks, a, val, b, apply)|
    ensures var t := NextAll(s, NewLife(key, gc, asks, a, val, b, apply), helds, max);
            key in t.l && t.l[key] == Entry(if apply then asks else 0, val) && key !in t.f && key !in t.w
  {
    hide SumWants;
    OneWant(gc, asks);
    FirstAdded(gc, asks);
    var n := if apply then asks else -(asks as int);
    var supply := [SetWanted(key, val)];
    var t, left := AfterOthers(s, Want(key, gc, asks), a, supply + b + [Finc(key, n)], helds, max);
    assert t.w[key] == map[gc := asks] && key !in t.l && key !in t.f;
    var u, last := AfterOthers(t, SetWanted(key, val), b, [Finc(key, n)], left, max);
    assert u.l[key] == Entry(asks, val) && u.f[key] == asks && key !in u.w;
    assert [Finc(key, n)][..0] == [] && last[..0] == [];
    assert NextAll(u, [Finc(key, n)], last, max) == Next(u, Finc(key, n), last[0], max);
  }

  /** The life of a count of something that is there. */
  function CountLife(key: Key, gc: Chan, asks: nat, a: seq<Op>, apply: bool): seq<Op> {
    [Want(key, gc, asks)] + a + [Finc(key, if apply then asks else -(asks as int))]
  }

  lemma CountLifeEnds(s: State, key: Key, gc: Chan, asks: nat, a: seq<Op>, apply: bool, helds: seq<bool>, max: int)
    requires Sane(s) && key in s.l && 0 < asks < WIDTH && s.l[key].rc + asks < WIDTH && forall op <- a :: op.key != key
    requires |helds| == |CountLife(key, gc, asks, a, apply)|
    ensures var t := NextAll(s, CountLife(key, gc, asks, a, apply), helds, max);
            key in t.l
            && Hard(t, key) == Hard(s, key) + (if apply then asks else 0) - (if helds[0] then asks else 0)
                               + if helds[0] && !apply && s.l[key].rc < asks then asks - s.l[key].rc else 0
  {
    hide SumWants;
    var n := if apply then asks else -(asks as int);
    var t, left := AfterOthers(s, Want(key, gc, asks), a, [Finc(key, n)], helds, max);
    assert [Finc(key, n)][..0] == [] && left[..0] == [];
    assert NextAll(t, [Finc(key, n)], left, max) == Next(t, Finc(key, n), left[0], max);
  }

  /**
   An object that is not there is waited for, set, its count applied or given
   back, and the cache closed, whatever happens to other objects meanwhile: the
   database has it, with the count or with none.
   */
  method FillNew(c: Cache, key: Key, gc: Chan, asks: nat, a: seq<Op>, val: Bytes, b: seq<Op>, apply: bool,
          times: seq<int>)
    returns (err: Error)
    requires c.Valid() && key !in c.L() && key !in c.W() && 0 < asks < WIDTH && val != [] && |val| <= c.maxObjectSize
    requires (forall op <- a :: op.key != key) && forall op <- b :: op.key != key
    requires |times| == |NewLife(key, gc, asks, a, val, b, apply)|
      && EverProper(StateOf(c), NewLife(key, gc, asks, a, val, b, apply), c.maxObjectSize)
    modifies c, c.items.Values, c.db
    ensures err == None ==> key in c.db.kvs && c.db.kvs[key] == Entry(if apply then asks else 0, val)
  {
    hide Single, Logical, Fillings, Wants, Consistent, Tally, Next, Proper, SumWants, AllProper, EverProper, Sane,
      NewLife, NextAll;
    ghost var s := StateOf(c);
    SaneAt(c);
    ghost var helds := Run(c, NewLife(key, gc, asks, a, val, b, apply), times);
    NewLifeEnds(s, key, gc, asks, a, val, b, apply, helds, c.maxObjectSize);
    HardIs(c.L(), c.F(), key);
    err := c.Close();
  }

  /**
   The life of a count: it is taken while the value is looked at, whatever
   happens to other objects meanwhile, then applied or given back, and the cache
   is closed.  What stays in the database is the hard count, with what was
   applied; unless the cache held the value at first, when as much is missing.
   */
  method FillOne(c: Cache, key: Key, gc: Chan, asks: nat, a: seq<Op>, apply: bool, times: seq<int>) returns (err: Error)
    requires c.Valid() && key in c.L() && 0 < asks < WIDTH && c.L()[key].rc + asks < WIDTH
    requires (forall op <- a :: op.key != key) && |times| == |CountLife(key, gc, asks, a, apply)|
    requires EverProper(StateOf(c), CountLife(key, gc, asks, a, apply), c.maxObjectSize)
    modifies c, c.items.Values, c.db
    ensures err == None && !old(c.Holds(key)) ==>
              key in c.db.kvs
              && var n := HardRc(old(c.L()), old(c.F()), key) + if apply then asks else 0;
                 n >= 0 ==> c.db.kvs[key].rc == n
    ensures err == None && old(c.Holds(key)) ==>
              key in c.db.kvs
              && var n := HardRc(old(c.L()), old(c.F()), key)
                          - if apply then 0 else if old(c.L())[key].rc < asks then old(c.L())[key].rc else asks;
                 n >= 0 ==> c.db.kvs[key].rc == n
  {
    hide Single, Logical, Fillings, Wants, Consistent, Tally, Next, Proper, SumWants, AllProper, EverProper, Sane,
      CountLife, NextAll, HardRc;
    ghost var s := StateOf(c);
    SaneAt(c);
    CountLifeStarts(key, gc, asks, a, apply);
    ghost var helds := Run(c, CountLife(key, gc, asks, a, apply), times);
    CountLifeEnds(s, key, gc, asks, a, apply, helds, c.maxObjectSize);
    err := c.Close();
  }

  lemma CountLifeStarts(key: Key, gc: Chan, asks: nat, a: seq<Op>, apply: bool)
    ensures var ops := CountLife(key, gc, asks, a, apply); ops != [] && ops[0].key == key
  {
  }

  // --------------------------------------------------------------- witnesses

  /** Whoever waits with nothing to count makes setting the value panic. */
  method NothingToCount(key: Key, gc: Chan, val: Bytes, max: int) returns (err: Error)
    requires |val| <= max
    ensures err == Panicked
  {
    hide Single, Fillings, Wants, Consistent, Tally, SumWants;
    var db := new MemoryCXDS();
    var c := new Cache(Policy.LRU, 0, 0, 0, max, 0, 0, db);
    OneWant(gc, 0);
    FirstAdded(gc, 0);
    var sent := c.Want(key, gc, 0, 0);
    var rc;
    rc, err, sent := c.SetWanted(key, val, 0);
  }

  /** Wanting a value that is held takes from its hard count. */
  method HeldWant(c: Cache, key: Key, gc: Chan, asks: nat, now: int)
    requires c.Valid() && c.Holds(key) && c.FitsWant(key, asks)
    modifies c, c.items.Values, c.db
    ensures HardRc(c.L(), c.F(), key) == HardRc(old(c.L()), old(c.F()), key) - asks
  {
    hide Single, Logical, Fillings, Wants, Consistent, Tally, SumWants, Waiting, Told, Counting;
    ItemAt(c.Records(), c.db.kvs, key);
    WantHard(c.L(), c.F(), key, asks);
    var sent := c.Want(key, gc, asks, now);
  }

  lemma CountingIs(l: Entries, key: Key, inc: int)
    requires key in l && -WIDTH < inc && l[key].rc < WIDTH && l[key].rc + inc < WIDTH
    ensures var m := Counting(l, key, inc);
            m.Keys == l.Keys && m[key].val == l[key].val
            && m[key].rc == if l[key].rc + inc < 0 then 0 else l[key].rc + inc
  {
  }

  /** Somebody else counts down what a filler owns; giving it back stops at zero, and the hard count goes up. */
  method StoppedFinc(key: Key, gc: Chan, val: Bytes, max: int) returns (c: Cache)
    requires val != [] && |val| <= max
    ensures c.Valid() && key in c.F() && c.F()[key] == 1 && key in c.L() && c.L()[key].rc == 0
  {
    hide Single, Logical, Fillings, Wants, Consistent, Tally, SumWants, Waiting, Told, Counting, HardRc, Volume, Live,
      Recounted, Cache.Records, Cache.Served, Cache.Caches, Cache.Asked;
    var db := new MemoryCXDS();
    c := new Cache(Policy.LRU, 0, 0, 0, max, 0, 0, db);
    SettingNew(map[], key, val, 1);
    var rc, err, sent := c.Set(key, val, 1, 0);
    assert c.L() == map[key := Entry(1, val)];
    CountingIs(c.L(), key, 1);
    sent := c.Want(key, gc, 1, 0);
    assert c.F() == map[key := 1] && c.L()[key].rc <= 2;
    CountingIs(c.L(), key, -2);
    rc, err := c.Inc(key, -2, 0);
  }
}
