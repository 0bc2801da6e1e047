/**
 Filling the Root objects of a head from several connections: which object is
 requested from which connection, and which Root is filled next.
 */
module FillHead {

  type Conn = nat

  type Key = nat

  /** A Root received from a connection, which may be gone. */
  datatype ConnRoot = NoRoot | ConnRoot(c: Peer, num: nat)

  datatype Peer = Gone | Peer(c: Conn)

  datatype Failure = InvalidResponse | Closed | Timeout | Other

  /** A request that runs. */
  datatype Request = Request(c: Conn, key: Key)

  type Known = map<Conn, seq<nat>>

  // ------------------------------------------------------------- known Roots

  predicate Ascending(s: seq<nat>) {
    forall i, j :: 0 <= i < j < |s| ==> s[i] < s[j]
  }

  ghost predicate AllAscending(cs: Known) {
    forall c <- cs :: Ascending(cs[c])
  }

  /** The seq is put where it belongs, unless it is there. */
  function Insert(s: seq<nat>, num: nat): seq<nat> {
    if s == [] then [num]
    else if s[0] == num then s
    else if s[0] > num then [num] + s
    else [s[0]] + Insert(s[1..], num)
  }

  lemma {:induction false} InsertIs(s: seq<nat>, num: nat)
    requires Ascending(s)
    ensures Ascending(Insert(s, num)) && forall k :: k in Insert(s, num) <==> k == num || k in s
  {
    if s != [] && s[0] < num {
      var r := Insert(s[1..], num);
      InsertIs(s[1..], num);
      forall i | 0 <= i < |r|
        ensures s[0] < r[i]
      {
        assert r[i] in r;
      }
    }
  }

  lemma InsertTwo(a: nat, b: nat)
    requires a < b
    ensures Insert([], a) == [a] && Insert([a], b) == [a, b]
  {
    assert Insert([a][1..], b) == [b];
  }

  lemma {:induction false} InsertAfter(s: seq<nat>, i: nat, num: nat)
    requires i <= |s| && forall j | 0 <= j < i :: s[j] < num
    ensures Insert(s, num) == s[..i] + Insert(s[i..], num)
  {
    if i == 0 {
      assert s[0..] == s;
    } else {
      InsertAfter(s[1..], i - 1, num);
      assert s[1..][i - 1..] == s[i..] && s[..i] == [s[0]] + s[1..][..i - 1];
    }
  }

  function Learn(cs: Known, c: Conn, num: nat): Known {
    cs[c := Insert(if c in cs then cs[c] else [], num)]
  }

  /** A connection is known to have one Root more; the others have what they had. */
  lemma LearnIs(cs: Known, c: Conn, num: nat)
    requires AllAscending(cs)
    ensures var k := Learn(cs, c, num);
            k.Keys == cs.Keys + {c} && (forall d <- cs :: d != c ==> k[d] == cs[d])
            && forall s :: s in k[c] <==> s == num || (c in cs && s in cs[c])
  {
    hide Insert, Ascending;
    InsertIs(if c in cs then cs[c] else [], num);
  }

  lemma Learned(cs: Known, c: Conn, num: nat)
    requires AllAscending(cs)
    ensures AllAscending(Learn(cs, c, num)) && c in Learn(cs, c, num) && num in Learn(cs, c, num)[c]
  {
    hide Insert, Ascending;
    InsertIs(if c in cs then cs[c] else [], num);
  }

  method AddKnown(cs: Known, c: Conn, num: nat) returns (k: Known)
    ensures k == Learn(cs, c, num)
  {
    if c !in cs {
      return cs[c := [num]];
    }
    var known := cs[c];
    for i := 0 to |known|
      invariant forall j | 0 <= j < i :: known[j] < num
    {
      if known[i] == num {
        InsertAfter(known, i, num);
        assert known[i..] == [num] + known[i + 1..] && known == known[..i] + known[i..];
        return cs;
      }
      if known[i] > num {
        InsertAfter(known, i, num);
        var more := known[..i] + ([num] + known[i..]);
        return cs[c := more];
      }
    }
    InsertAfter(known, |known|, num);
    assert known == known[..|known|];
    return cs[c := known + [num]];
  }

  /** The seq is not known for the connection any more; the others stay. */
  method RemoveKnown(cs: Known, c: Conn, num: nat) returns (k: Known)
    requires AllAscending(cs)
    ensures AllAscending(k) && k.Keys == cs.Keys && k - {c} == cs - {c}
    ensures c in cs ==> forall s :: s in k[c] <==> s != num && s in cs[c]
  {
    if c !in cs {
      return cs;
    }
    var known := cs[c];
    for i := 0 to |known|
      invariant forall j | 0 <= j < i :: known[j] != num
    {
      if known[i] == num {
        var less := known[..i] + known[i + 1..];
        assert known == known[..i] + [num] + known[i + 1..];
        return cs[c := less];
      }
    }
    return cs;
  }

  /** Without the first seq that is not below `num`. */
  function Forward(s: seq<nat>, num: nat): seq<nat> {
    if s == [] then [] else if s[0] >= num then s[1..] else [s[0]] + Forward(s[1..], num)
  }

  lemma {:induction false} ForwardAfter(s: seq<nat>, i: nat, num: nat)
    requires i <= |s| && forall j | 0 <= j < i :: s[j] < num
    ensures Forward(s, num) == s[..i] + Forward(s[i..], num)
  {
    if i == 0 {
      assert s[0..] == s;
    } else {
      ForwardAfter(s[1..], i - 1, num);
      assert s[1..][i - 1..] == s[i..] && s[..i] == [s[0]] + s[1..][..i - 1];
    }
  }

  /** All old seqs stay known; of the others the lowest does not. */
  lemma ForwardIs(s: seq<nat>, num: nat)
    requires Ascending(s)
    ensures Ascending(Forward(s, num))
    ensures forall k :: k in Forward(s, num) <==> k in s && (k < num || exists l :: l in s && num <= l < k)
  {
    hide Forward;
    var i := 0;
    while i < |s| && s[i] < num
      invariant i <= |s| && forall j | 0 <= j < i :: s[j] < num
    {
      i := i + 1;
    }
    ForwardAt(s, i, num);
    if i < |s| {
      var f := s[..i] + s[i + 1..];
      forall k | k in s
        ensures k in f <==> k != s[i]
        ensures k < num || (exists l :: l in s && num <= l < k) <==> k != s[i]
      {
        var j :| 0 <= j < |s| && s[j] == k;
        if j != i {
          assert f[if j < i then j else j - 1] == k;
        }
        if j > i {
          assert s[i] in s && num <= s[i] < k;
        }
      }
    }
  }

  /** The first seq that is not below `num` is the i-th. */
  lemma ForwardAt(s: seq<nat>, i: nat, num: nat)
    requires i <= |s| && (forall j | 0 <= j < i :: s[j] < num) && (i < |s| ==> s[i] >= num)
    ensures Forward(s, num) == if i < |s| then s[..i] + s[i + 1..] else s
  {
    ForwardAfter(s, i, num);
    if i < |s| {
      assert s[i..][1..] == s[i + 1..];
    } else {
      assert s == s[..i];
    }
  }

  function Moved(cs: Known, num: nat): Known {
    map c <- cs :: Forward(cs[c], num)
  }

  /** The seq is known, and so is a lower one above `num`. */
  ghost predicate NotFirst(s: seq<nat>, num: nat, q: nat) {
    q in s && exists l :: l in s && num < l < q
  }

  /**
   After a Root has been filled a newer one is still known from those connections that have
   announced one in between, too.
   */
  lemma MovedIs(cs: Known, num: nat)
    requires AllAscending(cs)
    ensures AllAscending(Moved(cs, num + 1))
    ensures forall q, c :: c in cs && q > num ==> (q in Moved(cs, num + 1)[c] <==> NotFirst(cs[c], num, q))
  {
    forall c | c in cs
      ensures Ascending(Moved(cs, num + 1)[c])
      ensures forall q :: q > num ==> (q in Moved(cs, num + 1)[c] <==> NotFirst(cs[c], num, q))
    {
      ForwardIs(cs[c], num + 1);
    }
  }

  method DropFirst(known: seq<nat>, num: nat) returns (r: seq<nat>)
    ensures r == Forward(known, num)
  {
    for i := 0 to |known|
      invariant forall j | 0 <= j < i :: known[j] < num
    {
      if known[i] >= num {
        ForwardAt(known, i, num);
        return known[..i] + known[i + 1..];
      }
    }
    ForwardAt(known, |known|, num);
    return known;
  }

  /** A Root has been filled. */
  method MoveForward(cs: Known, num: nat) returns (k: Known)
    ensures k == Moved(cs, num)
  {
    k := cs;
    var left := cs.Keys;
    while left != {}
      invariant left <= k.Keys == cs.Keys
      invariant forall c <- cs :: k[c] == if c in left then cs[c] else Forward(cs[c], num)
    {
      var c :| c in left;
      left := left - {c};
      var known := DropFirst(k[c], num);
      k := k[c := known];
    }
  }

  /** The connections that know the seq, each once, in any order. */
  method BuildConnsList(cs: Known, num: nat) returns (l: seq<Conn>)
    ensures forall c :: c in l <==> c in cs && num in cs[c]
    ensures forall i, j :: 0 <= i < j < |l| ==> l[i] != l[j]
  {
    l := [];
    var left := cs.Keys;
    while left != {}
      invariant left <= cs.Keys && (forall c :: c in l <==> c in cs && c !in left && num in cs[c])
      invariant forall i, j :: 0 <= i < j < |l| ==> l[i] != l[j]
    {
      var c :| c in left;
      left := left - {c};
      if num in cs[c] {
        l := l + [c];
      }
    }
  }

  // ----------------------------------------------------------------- counting

  function KeysOf(flight: seq<Request>): (ks: seq<Key>)
    ensures |ks| == |flight| && forall i :: 0 <= i < |ks| ==> ks[i] == flight[i].key
  {
    seq(|flight|, i requires 0 <= i < |flight| => flight[i].key)
  }

  function Without(flight: seq<Request>, i: nat): seq<Request>
    requires i < |flight|
  {
    flight[..i] + flight[i + 1..]
  }

  lemma TakeOut(flight: seq<Request>, i: nat)
    requires i < |flight|
    ensures multiset(KeysOf(flight)) == multiset(KeysOf(Without(flight, i))) + multiset{flight[i].key}
  {
    var ks := KeysOf(flight);
    assert ks == ks[..i] + [ks[i]] + ks[i + 1..];
    assert KeysOf(Without(flight, i)) == ks[..i] + ks[i + 1..];
  }

  lemma TakeOff(flight: seq<Request>, r: Request)
    ensures multiset(KeysOf(flight + [r])) == multiset(KeysOf(flight)) + multiset{r.key}
  {
    assert KeysOf(flight + [r]) == KeysOf(flight) + [r.key];
  }

  /** Every requested key is exactly once queued, in flight or done. */
  ghost predicate Accounted(requested: multiset<Key>, rqo: seq<Key>, flight: seq<Request>, done: multiset<Key>)
  {
    Adds(requested, rqo, flight, done) == true
  }

  ghost predicate Adds(requested: multiset<Key>, rqo: seq<Key>, flight: seq<Request>, done: multiset<Key>) {
    requested == multiset(rqo) + multiset(KeysOf(flight)) + done
  }

  lemma Queue(requested: multiset<Key>, rqo: seq<Key>, flight: seq<Request>, done: multiset<Key>, key: Key)
    requires Accounted(requested, rqo, flight, done)
    ensures Accounted(requested + multiset{key}, rqo + [key], flight, done)
  {
  }

  lemma QueueFirst(requested: multiset<Key>, rqo: seq<Key>, flight: seq<Request>, done: multiset<Key>, key: Key)
    requires Accounted(requested, rqo, flight, done)
    ensures Accounted(requested + multiset{key}, [key] + rqo, flight, done)
  {
    assert multiset([key] + rqo) == multiset{key} + multiset(rqo);
  }

  lemma NothingYet()
    ensures Accounted(multiset{}, [], [], multiset{})
  {
    assert KeysOf([]) == [];
  }

  lemma Start(requested: multiset<Key>, rqo: seq<Key>, flight: seq<Request>, done: multiset<Key>, r: Request)
    requires Accounted(requested, rqo, flight, done) && rqo != [] && rqo[0] == r.key
    ensures Accounted(requested, rqo[1..], flight + [r], done)
  {
    TakeOff(flight, r);
    assert rqo == [r.key] + rqo[1..];
  }

  lemma Finish(requested: multiset<Key>, rqo: seq<Key>, flight: seq<Request>, done: multiset<Key>, i: nat)
    requires Accounted(requested, rqo, flight, done) && i < |flight|
    ensures Accounted(requested, rqo, Without(flight, i), done + multiset{flight[i].key})
    ensures Accounted(requested, [flight[i].key] + rqo, Without(flight, i), done)
  {
    TakeOut(flight, i);
    assert multiset([flight[i].key] + rqo) == multiset{flight[i].key} + multiset(rqo);
  }

  // ------------------------------------------------------------------- filling

  // ------------------------------------------------------------- the next request

  /** The idle connections from the first one on that is still there. */
  function Skip(fc: seq<Conn>, cs: Known): (r: seq<Conn>)
    ensures r != [] ==> r[0] in cs
  {
    if fc == [] || fc[0] in cs then fc else Skip(fc[1..], cs)
  }

  /** The request to start: the first key, from the first idle connection that is still there. */
  function Due(rqo: seq<Key>, fc: seq<Conn>, cs: Known): (r: seq<Request>)
    ensures |r| <= |rqo| && |r| <= |Skip(fc, cs)|
  {
    if rqo == [] || Skip(fc, cs) == [] then [] else [Request(Skip(fc, cs)[0], rqo[0])]
  }

  lemma {:induction false} SkipIs(fc: seq<Conn>, cs: Known)
    ensures var k := |fc| - |Skip(fc, cs)|;
            0 <= k <= |fc| && Skip(fc, cs) == fc[k..] && (k < |fc| ==> fc[k] in cs)
            && forall i | 0 <= i < k :: fc[i] !in cs
  {
    if fc != [] && fc[0] !in cs {
      SkipIs(fc[1..], cs);
    }
  }

  /** What is requested next, and what stays queued: the k-th idle connection is the first one that is still there. */
  lemma DueIs(rqo: seq<Key>, fc: seq<Conn>, cs: Known, k: nat)
    requires k <= |fc| && (forall i | 0 <= i < k :: fc[i] !in cs) && (k < |fc| ==> fc[k] in cs)
    ensures rqo == [] ==> Due(rqo, fc, cs) == [] && Idle(rqo, fc, cs) == fc
    ensures rqo != [] && k == |fc| ==> Due(rqo, fc, cs) == [] && Idle(rqo, fc, cs) == []
    ensures rqo != [] && k < |fc| ==>
            Due(rqo, fc, cs) == [Request(fc[k], rqo[0])] && Idle(rqo, fc, cs) == fc[k + 1..]
  {
    hide Skip;
    SkipIs(fc, cs);
    var j := |fc| - |Skip(fc, cs)|;
    assert j == k;
  }

  /** The connections that stay idle; those that are gone are noticed only when a request needs one. */
  function Idle(rqo: seq<Key>, fc: seq<Conn>, cs: Known): seq<Conn> {
    if rqo == [] then fc else Skip(fc, cs)[|Due(rqo, fc, cs)|..]
  }

  class Head {
    var r: ConnRoot
    var p: ConnRoot
    var cs: Known
    var rqo: seq<Key>
    var fc: seq<Conn>
    var requesting: int
    var filler: bool
    var failed: bool

    // the session: requests that run, keys requested and received, places of
    // connections given out, failures and places dropped, replies to requests
    // of earlier sessions
    ghost var flight: seq<Request>
    ghost var requested: multiset<Key>
    ghost var done: multiset<Key>
    ghost var places: nat
    ghost var failures: nat
    ghost var dropped: nat
    ghost var strays: nat

    // requests of earlier sessions that still run, and whether there has been one
    ghost var late: seq<Request>
    ghost var overrun: bool

    /** The bookkeeping of a session, between any two events. */
    ghost predicate Counted()
      reads this
    {
      requesting == |flight| - strays && (!overrun ==> late == [] && strays == 0)
      && Accounted(requested, rqo, flight, done)
      && |fc| + |flight| + failures + dropped == places
    }

    /** Nothing waits while something can be done for it. */
    ghost predicate Busy()
      reads this
    {
      (rqo == [] || fc == []) && (rqo != [] ==> requesting != 0 || flight != [] || failed)
    }

    ghost predicate Valid()
      reads this
    {
      AllAscending(cs) && (p.ConnRoot? ==> r.ConnRoot? && p.num > r.num)
      && (if r.ConnRoot? then filler && Counted() && Busy()
          else requesting == 0 && flight == [] && (!overrun ==> late == []))
    }

    /**
     The scheduler never stalls silently unless a session has ended while
     requests were running: when no request runs, every key that has been
     requested is there, or the filler has been told to fail.  There are no
     more failures than places of connections.
     */
    lemma NoStall()
      requires Valid() && r.ConnRoot?
      ensures flight == [] && !failed && !overrun ==> done == requested
      ensures flight == [] && !failed && done != requested ==> strays > 0
      ensures failures <= places && |done| + failures <= |requested| + places
    {
      assert |requested| == |rqo| + |flight| + |done|;
    }

    /**
     With keys and idle connections queued, the request that is due has been
     started; the filler is told to fail if something is queued, nothing could be
     started and the counter of running requests is zero.
     */
    ghost predicate Triggered(keys: seq<Key>, conns: seq<Conn>, before: seq<Request>, hopeless: bool)
      reads this
    {
      rqo == keys[|Due(keys, conns, cs)|..] && fc == Idle(keys, conns, cs) && flight == before + Due(keys, conns, cs)
      && failed == (hopeless || (keys != [] && flight == before && requesting == 0))
    }

    /**
     The filler should be told to fail exactly if something is queued and no
     request of the session runs.  It is exactly if something could be started,
     or, of the replies to requests of earlier sessions, there has been none when
     no request runs, and not one for every request that runs otherwise.
     */
    lemma ToldRightly(keys: seq<Key>, conns: seq<Conn>, before: seq<Request>)
      requires Valid() && r.ConnRoot? && Triggered(keys, conns, before, false) && keys != []
      ensures failed <==> flight == before && |flight| == strays
      ensures (failed <==> flight == []) <==>
              flight != before || (if flight == [] then strays == 0 else |flight| != strays)
      ensures !overrun ==> (failed <==> flight == [])
    {
    }

    /** A reply finds nothing that is filled only after a session has ended while requests were running. */
    lemma NoReply(i: nat, stray: bool)
      requires Valid() && i < |Running(stray)|
      ensures r == NoRoot ==> overrun && stray
    {
    }

    constructor ()
      ensures Valid() && r == p == NoRoot && cs == map[] && late == [] && !overrun
    {
      r, p, cs, rqo, fc, requesting, filler, failed := NoRoot, NoRoot, map[], [], [], 0, false, false;
      flight, late, overrun := [], [], false;
    }

    /**
     Request the next key from the next connection that is still there; true if there is none,
     neither busy nor idle.
     */
    method TryRequest() returns (fatal: bool)
      requires r.ConnRoot? && Counted() && (|rqo| <= 1 || |fc| <= 1)
      modifies `rqo, `fc, `requesting, `flight, `dropped
      ensures Counted() && (rqo == [] || fc == [])
      ensures var due := Due(old(rqo), old(fc), cs);
              flight == old(flight) + due && requesting == old(requesting) + |due|
              && rqo == old(rqo)[|due|..] && fc == Idle(old(rqo), old(fc), cs)
              && fatal == (old(rqo) != [] && due == [] && requesting == 0)
    {
      hide Adds, Accounted;
      if |rqo| == 0 {
        return false;
      }
      if |fc| == 0 {
        return requesting == 0;
      }
      var c := NextIdle();
      if c.Gone? {
        return requesting == 0;
      }
      StartRequest(c.c);
      return false;
    }

    /** Take connections off the idle ones up to the first that is still there. */
    method NextIdle() returns (next: Peer)
      requires fc != []
      modifies `fc, `dropped
      ensures var l := Skip(old(fc), cs);
              next == (if l == [] then Gone else Peer(l[0])) && fc == (if l == [] then [] else l[1..])
              && |l| + dropped == old(|fc| + dropped)
    {
      var c := fc[0];
      fc := fc[1..];
      while c !in cs
        invariant Skip([c] + fc, cs) == Skip(old(fc), cs) && |fc| + dropped + 1 == old(|fc| + dropped)
        decreases |fc|
      {
        dropped := dropped + 1;
        assert ([c] + fc)[1..] == fc;
        if |fc| == 0 {
          return Gone;
        }
        c := fc[0];
        fc := fc[1..];
      }
      return Peer(c);
    }

    /** Request the first key from the connection. */
    method StartRequest(c: Conn)
      requires rqo != [] && Accounted(requested, rqo, flight, done)
      modifies `rqo, `requesting, `flight
      ensures requesting == old(requesting) + 1 && flight == old(flight) + [Request(c, old(rqo)[0])]
      ensures rqo == old(rqo)[1..] && Accounted(requested, rqo, flight, done)
    {
      hide Adds;
      var key := rqo[0];
      Start(requested, rqo, flight, done, Request(c, key));
      rqo := rqo[1..];
      requesting := requesting + 1;
      flight := flight + [Request(c, key)];
    }

    method TriggerRequest()
      requires r.ConnRoot? && filler && Counted() && (|rqo| <= 1 || |fc| <= 1)
      modifies `rqo, `fc, `requesting, `flight, `dropped, `failed
      ensures Counted() && Busy() && Triggered(old(rqo), old(fc), old(flight), old(failed))
    {
      hide Adds, Skip, Due, Idle;
      var fatal := TryRequest();
      if fatal {
        if filler {
          failed := true;
        }
      }
    }

    /** The filler asks for an object. */
    method HandleRequest(key: Key)
      requires Valid() && r.ConnRoot?
      modifies this
      ensures Valid() && r == old(r) && p == old(p) && cs == old(cs) && late == old(late) && overrun == old(overrun)
      ensures requested == old(requested) + multiset{key} && done == old(done) && failures == old(failures)
        && places == old(places)
      ensures strays == old(strays) && Triggered(old(rqo) + [key], old(fc), old(flight), old(failed))
    {
      hide Adds, Ascending, AllAscending, Skip, Due, Idle;
      Queue(requested, rqo, flight, done, key);
      rqo := rqo + [key];
      requested := requested + multiset{key};
      TriggerRequest();
    }

    static ghost function Remaining(flight: seq<Request>, i: nat, stray: bool): seq<Request> {
      if stray || i >= |flight| then flight else Without(flight, i)
    }

    /** The requests that run, of this session or of earlier ones. */
    ghost function Running(stray: bool): seq<Request>
      reads this
    {
      if stray then late else flight
    }

    /**
     A request has been answered: its connection is idle. With nothing that is filled there is no
     list to put it into.
     */
    method HandleSuccess(c: Conn, ghost i: nat, ghost stray: bool) returns (panics: bool)
      requires Valid() && i < |Running(stray)| && Running(stray)[i].c == c
      modifies this
      ensures panics <==> old(r) == NoRoot
      ensures r == old(r) && p == old(p) && cs == old(cs) && overrun == old(overrun)
      ensures !panics ==> Valid() && requested == old(requested) && failures == old(failures)
      ensures !panics ==> done == old(done) + if stray then multiset{} else multiset{old(Running(stray)[i].key)}
      ensures !panics ==>
              if stray then Strayed(old(late), i, old(strays)) && places == old(places) + 1
              else late == old(late) && strays == old(strays) && places == old(places)
      ensures !panics ==>
              Triggered(old(rqo), old(fc) + [c], Remaining(old(flight), i, stray), old(failed))
    {
      hide Adds, Ascending, AllAscending, Skip, Due, Idle;
      if r == NoRoot {
        requesting := requesting - 1;
        return true;
      }
      Answer(c, i, stray);
      TriggerRequest();
      return false;
    }

    /** A request does not run any more, and its connection is idle. */
    method Answer(c: Conn, ghost i: nat, ghost stray: bool)
      requires i < |Running(stray)| && Counted()
      modifies `requesting, `fc, `flight, `done, `late, `strays, `places
      ensures Counted() && fc == old(fc) + [c]
      ensures if stray then
                Strayed(old(late), i, old(strays)) && places == old(places) + 1 && flight == old(flight)
                && done == old(done)
              else
                late == old(late) && strays == old(strays) && places == old(places)
                && flight == Without(old(flight), i) && done == old(done) + multiset{old(flight[i].key)}
    {
      hide Adds;
      requesting := requesting - 1;
      if stray {
        Stray(i);
        places := places + 1;
      } else {
        Finish(requested, rqo, flight, done, i);
        done := done + multiset{flight[i].key};
        flight := Without(flight, i);
      }
      fc := fc + [c];
    }

    /** The request of an earlier session has been answered. */
    ghost predicate Strayed(before: seq<Request>, i: nat, count: nat)
      requires i < |before|
      reads this
    {
      late == Without(before, i) && strays == count + 1
    }

    ghost method Stray(i: nat)
      requires i < |late|
      modifies `late, `strays
      ensures Strayed(old(late), i, old(strays))
    {
      late, strays := Without(late, i), strays + 1;
    }

    /** A request has failed: the key is requested again, first of all, and the connection is not idle any more. */
    method HandleRequestFailure(c: Conn, num: nat, key: Key, err: Failure, ghost i: nat, ghost stray: bool)
      returns (panics: bool)
      requires Valid() && i < |Running(stray)| && Running(stray)[i] == Request(c, key)
      modifies `requesting, `rqo, `fc, `flight, `failures, `late, `strays, `requested, `dropped, `failed, `cs
      ensures panics <==> r == NoRoot
      ensures !panics ==> Valid() && done == old(done) && places == old(places)
      ensures !panics ==>
              if stray then
                Strayed(old(late), i, old(strays)) && requested == old(requested) + multiset{key}
                && failures == old(failures)
              else
                late == old(late) && strays == old(strays) && requested == old(requested)
                && failures == old(failures) + 1
      ensures err == InvalidResponse || err == Closed ==> cs == old(cs) - {c}
      ensures err == Other ==> cs == old(cs)
      ensures err == Timeout ==> cs.Keys == old(cs).Keys && cs - {c} == old(cs) - {c}
      ensures err == Timeout && c in cs ==> forall s :: s in cs[c] <==> s != num && s in old(cs)[c]
      ensures !panics ==>
              Triggered([key] + old(rqo), old(fc), Remaining(old(flight), i, stray), old(failed))
    {
      hide Adds, Accounted, Ascending, AllAscending, Skip, Due, Idle;
      Distrust(c, num, err);
      if r == NoRoot {
        requesting := requesting - 1;
        return true;
      }
      Retry(key, i, stray);
      return false;
    }

    /** The key of a failed request is requested again. */
    method Retry(key: Key, ghost i: nat, ghost stray: bool)
      requires r.ConnRoot? && filler && i < |Running(stray)| && Running(stray)[i].key == key && Counted() && Busy()
      modifies `requesting, `rqo, `fc, `flight, `failures, `late, `strays, `requested, `dropped, `failed
      ensures Counted() && Busy()
      ensures if stray then
                Strayed(old(late), i, old(strays)) && requested == old(requested) + multiset{key}
                && failures == old(failures)
              else
                late == old(late) && strays == old(strays) && requested == old(requested)
                && failures == old(failures) + 1
      ensures Triggered([key] + old(rqo), old(fc), if stray then old(flight) else Without(old(flight), i), old(failed))
    {
      hide Adds, Accounted, Skip, Due, Idle;
      Requeue(key, i, stray);
      TriggerRequest();
    }

    /** The key of a failed request is the next to be requested. */
    method Requeue(key: Key, ghost i: nat, ghost stray: bool)
      requires i < |Running(stray)| && Running(stray)[i].key == key && Counted()
      modifies `requesting, `rqo, `flight, `failures, `late, `strays, `requested
      ensures rqo == [key] + old(rqo) && Counted()
      ensures if stray then
                Strayed(old(late), i, old(strays)) && requested == old(requested) + multiset{key}
                && failures == old(failures) && flight == old(flight)
              else
                late == old(late) && strays == old(strays) && requested == old(requested)
                && failures == old(failures) + 1 && flight == Without(old(flight), i)
    {
      hide Adds;
      requesting := requesting - 1;
      if stray {
        QueueFirst(requested, rqo, flight, done, key);
        requested := requested + multiset{key};
        Stray(i);
      } else {
        Finish(requested, rqo, flight, done, i);
        flight := Without(flight, i);
        failures := failures + 1;
      }
      rqo := [key] + rqo;
    }

    /** A connection that has failed is removed, or it does not have the Root any more. */
    method Distrust(c: Conn, num: nat, err: Failure)
      requires AllAscending(cs)
      modifies `cs
      ensures AllAscending(cs)
      ensures err == InvalidResponse || err == Closed ==> cs == old(cs) - {c}
      ensures err == Other ==> cs == old(cs)
      ensures err == Timeout ==> cs.Keys == old(cs).Keys && cs - {c} == old(cs) - {c}
      ensures err == Timeout && c in cs ==> forall s :: s in cs[c] <==> s != num && s in old(cs)[c]
    {
      match err {
        case InvalidResponse => cs := cs - {c};
        case Closed => cs := cs - {c};
        case Timeout => cs := RemoveKnown(cs, c, num);
        case Other =>
      }
    }

    /** One more idle connection. */
    method AddPlace(c: Conn)
      requires r.ConnRoot? && filler && Counted() && Busy()
      modifies `fc, `places, `rqo, `requesting, `flight, `dropped, `failed
      ensures Counted() && Busy() && places == old(places) + 1
      ensures Triggered(old(rqo), old(fc) + [c], old(flight), old(failed))
    {
      hide Adds, Skip, Due, Idle;
      fc := fc + [c];
      places := places + 1;
      TriggerRequest();
    }

    /** The newest Root that is not rejected waits to be filled. */
    method Await(c: Conn, num: nat, reject: bool)
      modifies `p
      ensures p == if !reject && (old(p) == NoRoot || old(p).num < num) then ConnRoot(Peer(c), num) else old(p)
    {
      if p == NoRoot {
        if reject {
          return;
        }
        p := ConnRoot(Peer(c), num);
        return;
      }
      if p.num < num {
        if reject {
          return;
        }
        p := ConnRoot(Peer(c), num);
      }
    }

    /** A connection has a Root, while one is being filled. */
    method HearMore(c: Conn, num: nat, reject: bool)
      requires Valid() && r.ConnRoot?
      modifies `cs, `p, `fc, `places, `rqo, `requesting, `flight, `dropped, `failed
      ensures Valid()
      ensures places == old(places) + if num == r.num then 1 else 0
      ensures p ==
              if num > r.num && !reject && (old(p) == NoRoot || old(p).num < num) then ConnRoot(Peer(c), num)
              else old(p)
      ensures if num == r.num then Triggered(old(rqo), old(fc) + [c], old(flight), old(failed))
              else rqo == old(rqo) && fc == old(fc) && flight == old(flight) && failed == old(failed)
      ensures if num < r.num then cs == old(cs) else cs == Learn(old(cs), c, num)
    {
      hide Adds, Accounted, Insert, Learn, Ascending, AllAscending, Skip, Due, Idle;
      if num < r.num {
        return;
      }
      Learned(cs, c, num);
      cs := AddKnown(cs, c, num);
      if num == r.num {
        AddPlace(c);
        return;
      }
      Await(c, num, reject);
    }

    /** A connection has a Root; the newest that is not rejected is filled next. */
    method HandleReceivedRoot(c: Conn, num: nat, reject: bool)
      requires Valid()
      modifies this
      ensures Valid() && late == old(late) && overrun == old(overrun)
      ensures old(r) != NoRoot ==>
              r == old(r) && requested == old(requested) && done == old(done) && failures == old(failures)
      ensures old(r) != NoRoot ==> places == old(places) + if num == r.num then 1 else 0
      ensures old(r) != NoRoot ==>
              p ==
                      if num > r.num && !reject && (old(p) == NoRoot || old(p).num < num) then ConnRoot(Peer(c), num)
                      else old(p)
      ensures old(r) != NoRoot && num == r.num ==> Triggered(old(rqo), old(fc) + [c], old(flight), old(failed))
      ensures old(r) != NoRoot && num != r.num ==>
                rqo == old(rqo) && fc == old(fc) && flight == old(flight) && failed == old(failed)
      ensures if old(r) != NoRoot && num < r.num then cs == old(cs) else cs == Learn(old(cs), c, num)
      ensures old(r) == NoRoot ==> p == NoRoot && r == if reject then NoRoot else ConnRoot(Peer(c), num)
      ensures old(r) == NoRoot && !reject ==> c in fc && NewSession()
    {
      hide Adds, Accounted, Insert, Learn, Ascending, AllAscending, Skip, Due, Idle;
      if r != NoRoot {
        HearMore(c, num, reject);
        return;
      }
      Learned(cs, c, num);
      cs := AddKnown(cs, c, num);
      if reject {
        return;
      }
      CreateFiller(ConnRoot(Peer(c), num));
    }

    /** Nothing has been requested yet. */
    ghost method CountFrom(n: nat)
      modifies `flight, `requested, `done, `places, `failures, `dropped, `strays
      ensures flight == [] && requested == done == multiset{} && failures == dropped == strays == 0 && places == n
      ensures Accounted(requested, [], flight, done)
    {
      hide Adds;
      NothingYet();
      flight, requested, done, places, failures, dropped, strays := [], multiset{}, multiset{}, n, 0, 0, 0;
    }

    /** A session starts with all connections that know the Root, each once. */
    ghost predicate NewSession()
      reads this
    {
      r.ConnRoot? && rqo == [] && flight == [] && requested == done == multiset{} && failures == dropped == strays == 0
      && !failed
      && places == |fc| && (forall c :: c in fc <==> c in cs && r.num in cs[c])
      && (forall i, j :: 0 <= i < j < |fc| ==> fc[i] != fc[j])
    }

    method CreateFiller(cr: ConnRoot)
      requires AllAscending(cs) && cr.ConnRoot? && (p.ConnRoot? ==> p.num > cr.num) && requesting == 0
        && (!overrun ==> late == [])
      modifies this
      ensures Valid() && r == cr && p == old(p) && cs == old(cs) && NewSession() && late == old(late)
        && overrun == old(overrun)
    {
      hide Adds, Ascending, AllAscending;
      r := cr;
      filler, failed := true, false;
      rqo := [];
      fc := BuildConnsList(cs, cr.num);
      CountFrom(|fc|);
    }

    /** The filler that has been closed stays known, and what it has requested may still run. */
    method CloseFiller()
      requires !filler ==> r == NoRoot && requesting == 0 && flight == []
      modifies this
      ensures r == NoRoot && requesting == 0 && p == old(p) && cs == old(cs) && filler == old(filler)
      ensures flight == [] && late == old(late) + old(flight) && overrun == (old(overrun) || old(flight) != [])
    {
      if !filler {
        return;
      }
      rqo, fc := [], [];
      r := NoRoot;
      requesting := 0;
      late, overrun, flight := late + flight, overrun || flight != [], [];
    }

    /** The filler is done; the Root that waits is the next to be filled, and it is a newer one. */
    method HandleFillingResult(ok: bool)
      requires Valid() && (ok ==> r.ConnRoot?)
      modifies this
      ensures Valid() && r == old(p) && p == NoRoot
      ensures cs == if ok then Moved(old(cs), old(r).num + 1) else old(cs)
      ensures ok && r != NoRoot ==> forall c :: c in fc <==> c in old(cs) && NotFirst(old(cs)[c], old(r).num, r.num)
      ensures r != NoRoot ==> old(r).ConnRoot? && r.num > old(r.num) && NewSession()
      ensures late == old(late) + old(flight) && overrun == (old(overrun) || old(flight) != [])
    {
      hide Adds, Accounted, Forward, Ascending, AllAscending;
      if ok {
        MovedIs(cs, r.num);
        cs := MoveForward(cs, r.num + 1);
      }
      CloseFiller();
      if p == NoRoot {
        return;
      }
      var cr := p;
      p := NoRoot;
      CreateFiller(cr);
    }

    /** A connection is gone; the places it has are dropped when their turn comes. */
    method HandleDelConn(c: Conn)
      requires Valid()
      modifies this
      ensures Valid() && cs == old(cs) - {c} && late == old(late) && overrun == old(overrun)
      ensures r == Left(old(r), c) && p == Left(old(p), c)
      ensures rqo == old(rqo) && fc == old(fc) && requested == old(requested) && done == old(done)
        && flight == old(flight) && failures == old(failures) && places == old(places)
    {
      hide Adds, Ascending;
      cs := cs - {c};
      if r.ConnRoot? && r.c == Peer(c) {
        r := r.(c := Gone);
      }
      if p.ConnRoot? && p.c == Peer(c) {
        p := p.(c := Gone);
      }
    }

    /** Filling takes too long. */
    method HandleTimeout()
      requires Valid()
      modifies `failed
      ensures Valid() && (r.ConnRoot? ==> failed)
    {
      if filler {
        failed := true;
      }
    }

    /** The head is closed: nothing is filled any more. */
    method HandleError()
      requires Valid()
      modifies this
      ensures Valid() && r == p == NoRoot
      ensures late == old(late) + old(flight) && overrun == (old(overrun) || old(flight) != [])
    {
      p := NoRoot;
      if filler {
        HandleFillingResult(false);
      }
      CloseFiller();
    }
  }

  lemma DueOne(key: Key, c: Conn, cs: Known)
    requires c in cs
    ensures Skip([c], cs) == [c] && Due([key], [c], cs) == [Request(c, key)] && Idle([key], [c], cs) == []
    ensures Due([], [c], cs) == [] && Idle([], [c], cs) == [c]
    ensures Skip([], cs) == [] && Due([key], [], cs) == [] && Idle([key], [], cs) == []
  {
  }

  lemma HasConn(fc: seq<Conn>)
    ensures fc == [] || exists c :: c in fc
  {
    if fc != [] {
      assert fc[0] in fc;
    }
  }

  lemma OnlyConn(fc: seq<Conn>, c: Conn)
    requires forall k :: k in fc <==> k == c
    requires forall i, j :: 0 <= i < j < |fc| ==> fc[i] != fc[j]
    ensures fc == [c]
  {
    assert c in fc;
    var n := |fc| - 1;
    assert fc[0] in fc && fc[n] in fc;
  }

  /** A session times out while a request runs, and another one starts. */
  method Overrun(c: Conn, d: Conn, key: Key) returns (h: Head)
    requires c != d
    ensures fresh(h) && h.Valid() && h.r == ConnRoot(Peer(d), 2) && h.NewSession() && h.fc == [d]
      && h.late == [Request(c, key)]
    ensures c in h.cs && d in h.cs
  {
    hide Adds, Accounted, AllAscending, Ascending, Skip, Due, Idle;
    h := new Head();
    h.HandleReceivedRoot(c, 1, false);
    OnlyConn(h.fc, c);
    DueOne(key, c, h.cs);
    assert h.rqo + [key] == [key];
    h.HandleRequest(key);
    assert h.flight == [Request(c, key)];
    h.HandleReceivedRoot(d, 2, false);
    assert h.p == ConnRoot(Peer(d), 2);
    h.HandleTimeout();
    assert (h.cs - {d})[c] == h.cs[c] && 2 !in h.cs[c];
    h.HandleFillingResult(false);
    OnlyConn(h.fc, d);
  }

  /**
   What NoStall asks for is needed: the answer to a request of the session
   before is counted in this one, where then a request fails on every
   connection, and nobody is told.
   */
  method Stall(c: Conn, d: Conn, first: Key, key: Key) returns (h: Head)
    requires c != d
    ensures h.Valid() && h.r.ConnRoot? && h.flight == [] && !h.failed && h.done != h.requested
  {
    hide Adds, Accounted, AllAscending, Ascending, Skip, Due, Idle;
    h := Overrun(c, d, first);
    DueOne(key, d, h.cs);
    assert h.rqo + [key] == [key];
    h.HandleRequest(key);
    assert h.flight == [Request(d, key)] && h.fc == [] && h.rqo == [];
    DueOne(key, c, h.cs);
    assert h.fc + [c] == [c];
    var panics := h.HandleSuccess(c, 0, true);
    assert h.flight == [Request(d, key)] && h.fc == [c] && h.requesting == 0;
    assert [key] + h.rqo == [key] && Without(h.flight, 0) == [];
    panics := h.HandleRequestFailure(d, 2, key, Other, 0, false);
    assert h.flight == [Request(c, key)] && h.fc == [] && h.requesting == 0;
    assert [key] + h.rqo == [key] && Without(h.flight, 0) == [];
    panics := h.HandleRequestFailure(c, 2, key, Other, 0, false);
  }

  /**
   As well the filler is told to fail while a request of its own runs: the
   failure of a request of the session before is counted as if that were it.
   */
  method Premature(c: Conn, d: Conn, first: Key, key: Key) returns (h: Head)
    requires c != d
    ensures h.Valid() && h.r.ConnRoot? && h.failed && h.flight == [Request(d, key)]
  {
    hide Adds, Accounted, AllAscending, Ascending, Skip, Due, Idle;
    h := Overrun(c, d, first);
    DueOne(key, d, h.cs);
    assert h.rqo + [key] == [key];
    h.HandleRequest(key);
    assert h.flight == [Request(d, key)] && h.fc == [] && h.rqo == [] && h.requesting == 1;
    DueOne(first, c, h.cs);
    assert [first] + h.rqo == [first];
    var panics := h.HandleRequestFailure(c, 1, first, Other, 0, true);
  }

  /** A reply that comes when nothing is filled: a session times out while a request runs, and no Root waits. */
  method Crash(c: Conn, key: Key) returns (panics: bool)
    ensures panics
  {
    hide Adds, Accounted, AllAscending, Ascending, Skip, Due, Idle;
    var h := new Head();
    h.HandleReceivedRoot(c, 1, false);
    OnlyConn(h.fc, c);
    DueOne(key, c, h.cs);
    assert h.rqo + [key] == [key];
    h.HandleRequest(key);
    assert h.flight == [Request(c, key)];
    h.HandleTimeout();
    h.HandleFillingResult(false);
    panics := h.HandleSuccess(c, 0, true);
  }

  /**
   Forgetting a newer Root instead of the old ones: the one connection that
   has announced the Root that waits is not asked for it.
   */
  method Starved(c: Conn, key: Key) returns (h: Head)
    ensures h.Valid() && h.r == ConnRoot(Peer(c), 2) && c in h.cs
    ensures h.flight == [] && h.failed && h.done != h.requested
  {
    hide Adds, Accounted, AllAscending, Ascending, Skip, Due, Idle, Forward, Insert;
    h := new Head();
    h.HandleReceivedRoot(c, 1, false);
    InsertTwo(1, 2);
    h.HandleReceivedRoot(c, 2, false);
    assert h.cs[c] == [1, 2];
    h.HandleFillingResult(true);
    HasConn(h.fc);
    DueOne(key, c, h.cs);
    assert h.rqo + [key] == [key];
    h.HandleRequest(key);
  }

  function Left(cr: ConnRoot, c: Conn): ConnRoot {
    if cr.ConnRoot? && cr.c == Peer(c) then cr.(c := Gone) else cr
  }
}
