/**
 What an iteration over a sequence of hashes does: the calls it makes, up or
 down, until the function it calls asks it to stop.
 */
module Visits {
  import opened Hashing
  import opened Trees

  type Call = (int, Hash)
  type Stop = (int, Hash) -> bool

  /** The calls for `es`, whose first element has index `base`. */
  function Calls(es: seq<Hash>, base: int, stop: Stop): seq<Call> {
    if es == [] then []
    else if Stops(es[..|es| - 1], base, stop) then Calls(es[..|es| - 1], base, stop)
    else Calls(es[..|es| - 1], base, stop) + [(base + |es| - 1, es[|es| - 1])]
  }

  predicate Stops(es: seq<Hash>, base: int, stop: Stop) {
    exists k | 0 <= k < |es| :: stop(base + k, es[k])
  }

  /** The same from the last element to the first one. */
  function CallsDown(es: seq<Hash>, base: int, stop: Stop): seq<Call> {
    if es == [] then []
    else if Stops(es[1..], base + 1, stop) then CallsDown(es[1..], base + 1, stop)
    else CallsDown(es[1..], base + 1, stop) + [(base, es[0])]
  }

  /** Without a stop every element is visited once, in order, with its index. */
  lemma {:induction false} CallsAll(es: seq<Hash>, base: int, stop: Stop)
    requires !Stops(es, base, stop)
    ensures |Calls(es, base, stop)| == |es|
    ensures forall k | 0 <= k < |es| :: Calls(es, base, stop)[k] == (base + k, es[k])
  {
    if es != [] {
      var n := |es| - 1;
      assert forall k | 0 <= k < n :: es[..n][k] == es[k];
      assert !Stops(es[..n], base, stop);
      CallsAll(es[..n], base, stop);
    }
  }

  /** With a stop, exactly the elements up to it are visited. */
  lemma {:induction false} CallsUpTo(es: seq<Hash>, base: int, stop: Stop, s: nat)
    requires s < |es| && stop(base + s, es[s]) && forall k | 0 <= k < s :: !stop(base + k, es[k])
    ensures |Calls(es, base, stop)| == s + 1
    ensures forall k | 0 <= k <= s :: Calls(es, base, stop)[k] == (base + k, es[k])
    decreases |es|
  {
    var n := |es| - 1;
    assert forall k | 0 <= k < n :: es[..n][k] == es[k];
    if s == n {
      CallsAll(es[..n], base, stop);
    } else {
      assert stop(base + s, es[..n][s]);
      CallsUpTo(es[..n], base, stop, s);
    }
  }

  lemma {:induction false} CallsDownAll(es: seq<Hash>, base: int, stop: Stop)
    requires !Stops(es, base, stop)
    ensures |CallsDown(es, base, stop)| == |es|
    ensures forall k | 0 <= k < |es| :: CallsDown(es, base, stop)[k] == (base + |es| - 1 - k, es[|es| - 1 - k])
  {
    if es != [] {
      assert forall k | 0 <= k < |es| - 1 :: es[1..][k] == es[k + 1] && base + 1 + k == base + (k + 1);
      assert !Stops(es[1..], base + 1, stop);
      CallsDownAll(es[1..], base + 1, stop);
    }
  }

  lemma {:induction false} CallsConcat(a: seq<Hash>, b: seq<Hash>, base: int, stop: Stop)
    ensures Stops(a + b, base, stop) <==> Stops(a, base, stop) || Stops(b, base + |a|, stop)
    ensures Stops(a, base, stop) ==> Calls(a + b, base, stop) == Calls(a, base, stop)
    ensures !Stops(a, base, stop) ==> Calls(a + b, base, stop) == Calls(a, base, stop) + Calls(b, base + |a|, stop)
    decreases |b|
  {
    StopsConcat(a, b, base, stop);
    if b == [] {
      assert a + b == a;
    } else {
      var n := |b| - 1;
      assert (a + b)[..|a + b| - 1] == a + b[..n];
      CallsConcat(a, b[..n], base, stop);
    }
  }

  lemma StopsConcat(a: seq<Hash>, b: seq<Hash>, base: int, stop: Stop)
    ensures Stops(a + b, base, stop) <==> Stops(a, base, stop) || Stops(b, base + |a|, stop)
  {
    if k :| 0 <= k < |a| && stop(base + k, a[k]) {
      assert (a + b)[k] == a[k];
    } else if k :| 0 <= k < |b| && stop(base + |a| + k, b[k]) {
      assert (a + b)[|a| + k] == b[k] && base + (|a| + k) == base + |a| + k;
    } else {
      forall k | 0 <= k < |a + b|
        ensures !stop(base + k, (a + b)[k])
      {
        if k >= |a| {
          assert !stop(base + |a| + (k - |a|), b[k - |a|]);
        }
      }
    }
  }

  lemma {:induction false} CallsDownConcat(a: seq<Hash>, b: seq<Hash>, base: int, stop: Stop)
    ensures Stops(a + b, base, stop) <==> Stops(a, base, stop) || Stops(b, base + |a|, stop)
    ensures Stops(b, base + |a|, stop) ==> CallsDown(a + b, base, stop) == CallsDown(b, base + |a|, stop)
    ensures !Stops(b, base + |a|, stop) ==>
              CallsDown(a + b, base, stop) == CallsDown(b, base + |a|, stop) + CallsDown(a, base, stop)
    decreases |a|
  {
    StopsConcat(a, b, base, stop);
    if a == [] {
      assert a + b == b;
    } else {
      assert (a + b)[1..] == a[1..] + b;
      CallsDownConcat(a[1..], b, base + 1, stop);
      StopsConcat(a[1..], b, base + 1, stop);
    }
  }

  lemma CallsOne(x: Hash, base: int, stop: Stop)
    ensures Calls([x], base, stop) == [(base, x)] && CallsDown([x], base, stop) == [(base, x)]
    ensures Stops([x], base, stop) <==> stop(base, x)
  {
    assert [x][..0] == [] && [x][1..] == [];
    assert [x][0] == x;
    assert Calls([], base, stop) == [] && CallsDown([], base + 1, stop) == [];
    if stop(base, x) {
      assert stop(base + 0, [x][0]);
    }
  }

  // ------------------------------------------------------------ part by part

  /** The elements from `lo` up to `hi`, if any. */
  function Part(es: seq<Hash>, lo: nat, hi: nat): seq<Hash>
    requires hi <= |es|
  {
    if lo <= hi then es[lo..hi] else []
  }

  function Max(a: int, b: int): int {
    if a > b then a else b
  }

  lemma PartKid(ks: seq<Tree>, k: nat, lo: nat)
    requires k < |ks|
    ensures var es, p, n := FlatAll(ks), |FlatAll(ks[..k])|, Len(ks[k]);
            p + n <= |es| && |FlatAll(ks[..k + 1])| == p + n
            && (lo <= p + n ==> Part(es, lo, p + n) == Part(es, lo, p) + Flat(ks[k])[Max(lo - p, 0)..])
            && (lo > p + n ==> Part(es, lo, p + n) == Part(es, lo, p))
  {
    hide Flat, FlatAll;
    FlatAllPrefix(ks, k);
    FlatAllAt(ks, k);
    var es, p, n := FlatAll(ks), |FlatAll(ks[..k])|, Len(ks[k]);
    assert es[..p] == FlatAll(ks[..k]) && es[p..p + n] == Flat(ks[k]);
    if lo <= p + n {
      if lo <= p {
        assert es[lo..p + n] == es[lo..p] + es[p..p + n];
        assert Flat(ks[k])[0..] == Flat(ks[k]);
      } else {
        assert es[lo..p + n] == es[p..p + n][lo - p..];
        assert Part(es, lo, p) == [];
      }
    }
  }

  lemma PartNone(es: seq<Hash>, lo: nat, stop: Stop, base: int)
    requires lo <= |es|
    ensures Part(es, lo, 0) == [] && Calls([], base, stop) == [] && !Stops([], base, stop)
  {
  }

  lemma PartSkip(es: seq<Hash>, lo: nat, j: nat)
    requires j < lo <= |es|
    ensures Part(es, lo, j + 1) == Part(es, lo, j) == []
  {
  }

  lemma PartNext(es: seq<Hash>, lo: nat, j: nat, base: int, stop: Stop)
    requires lo <= j < |es|
    ensures Calls(Part(es, lo, j), base, stop) + [(base + j - lo, es[j])] == Calls(Part(es, lo, j + 1), base, stop)
            || Stops(Part(es, lo, j), base, stop)
    ensures Stops(Part(es, lo, j + 1), base, stop) <==> Stops(Part(es, lo, j), base, stop) || stop(base + j - lo, es[j])
  {
    assert es[lo..j + 1] == es[lo..j] + [es[j]];
    CallsConcat(es[lo..j], [es[j]], base, stop);
    CallsOne(es[j], base + j - lo, stop);
  }

  /** What comes after a stop does not matter. */
  lemma PartStopped(es: seq<Hash>, lo: nat, j: nat, base: int, stop: Stop)
    requires lo <= j < |es| && Stops(Part(es, lo, j + 1), base, stop)
    ensures Stops(es[lo..], base, stop) && Calls(es[lo..], base, stop) == Calls(Part(es, lo, j + 1), base, stop)
  {
    assert es[lo..] == es[lo..j + 1] + es[j + 1..];
    CallsConcat(es[lo..j + 1], es[j + 1..], base, stop);
  }

  lemma PartAll(es: seq<Hash>, lo: nat)
    requires lo <= |es|
    ensures Part(es, lo, |es|) == es[lo..]
  {
  }

  lemma PrefixNone(ks: seq<Tree>)
    ensures ks[..0] == [] && FlatAll(ks[..0]) == []
  {
  }

  /** The calls for one branch more. */
  lemma PartGoesOn(ks: seq<Tree>, k: nat, lo: nat, base: int, stop: Stop)
    requires k < |ks| && !Stops(Part(FlatAll(ks), lo, Before(ks, k)), base, stop)
    ensures Before(ks, k + 1) == Before(ks, k) + Len(ks[k])
    ensures var es, p, n := FlatAll(ks), Before(ks, k), Len(ks[k]);
            lo <= p + n ==>
              var sub, at := Flat(ks[k])[Max(lo - p, 0)..], base + Max(p - lo, 0);
              Calls(Part(es, lo, p + n), base, stop) == Calls(Part(es, lo, p), base, stop) + Calls(sub, at, stop)
              && (Stops(Part(es, lo, p + n), base, stop) <==> Stops(sub, at, stop))
  {
    hide Flat, FlatAll, Calls, Stops;
    PartKid(ks, k, lo);
    var es, p, n := FlatAll(ks), Before(ks, k), Len(ks[k]);
    if lo <= p + n {
      CallsConcat(Part(es, lo, p), Flat(ks[k])[Max(lo - p, 0)..], base, stop);
    }
  }

  /** Number of elements before the k-th branch. */
  function Before(ks: seq<Tree>, k: nat): (n: nat)
    requires k <= |ks|
    ensures n <= |FlatAll(ks)|
  {
    PrefixMono(ks, k, |ks|);
    assert ks[..|ks|] == ks;
    |FlatAll(ks[..k])|
  }

  lemma PartStops(es: seq<Hash>, lo: nat, hi: nat, base: int, stop: Stop)
    requires hi <= |es| && Stops(Part(es, lo, hi), base, stop)
    ensures lo <= hi && Stops(es[lo..], base, stop)
      && Calls(es[lo..], base, stop) == Calls(Part(es, lo, hi), base, stop)
  {
    assert lo <= hi;
    assert es[lo..] == es[lo..hi] + es[hi..];
    CallsConcat(es[lo..hi], es[hi..], base, stop);
  }

  /** The elements of `es` from `lo` on have been visited, as far as the function let them be. */
  ghost predicate Visited(es: seq<Hash>, lo: int, base: int, stop: Stop, calls: seq<Call>, stopped: bool, pass: int)
  {
    VisitedSo(es, lo, base, stop, calls, stopped, pass) == true
  }

  ghost predicate VisitedSo(es: seq<Hash>, lo: int, base: int, stop: Stop, calls: seq<Call>, stopped: bool, pass: int) {
    0 <= lo <= |es| && calls == Calls(es[lo..], base, stop) && stopped == Stops(es[lo..], base, stop)
    && (!stopped ==> pass == |es| - lo)
  }

  lemma VisitedIs(es: seq<Hash>, lo: nat, base: int, stop: Stop, calls: seq<Call>, stopped: bool, pass: int)
    requires Visited(es, lo, base, stop, calls, stopped, pass)
    ensures lo <= |es| && calls == Calls(es[lo..], base, stop)
  {
  }

  /** The first elements have been visited, and none has stopped it. */
  ghost predicate Going(es: seq<Hash>, lo: nat, hi: int, base: int, stop: Stop, calls: seq<Call>)
  {
    GoingSo(es, lo, hi, base, stop, calls) == true
  }

  ghost predicate GoingSo(es: seq<Hash>, lo: nat, hi: int, base: int, stop: Stop, calls: seq<Call>) {
    0 <= hi <= |es| && calls == Calls(Part(es, lo, hi), base, stop) && !Stops(Part(es, lo, hi), base, stop)
  }

  lemma GoingStart(es: seq<Hash>, lo: nat, base: int, stop: Stop)
    requires lo <= |es|
    ensures Going(es, lo, 0, base, stop, [])
  {
    PartNone(es, lo, stop, base);
  }

  lemma GoingEnd(es: seq<Hash>, lo: nat, base: int, stop: Stop, calls: seq<Call>)
    requires Going(es, lo, |es|, base, stop, calls) && lo <= |es|
    ensures Visited(es, lo, base, stop, calls, false, |es| - lo)
  {
    PartAll(es, lo);
  }

  /** One element more, which may be before those to be visited. */
  lemma GoingLeaf(es: seq<Hash>, lo: nat, j: nat, base: int, stop: Stop, calls: seq<Call>, pass: int)
    requires Going(es, lo, j, base, stop, calls) && j < |es| && lo <= |es|
    ensures j < lo ==> Going(es, lo, j + 1, base, stop, calls)
    ensures j >= lo && !stop(base + j - lo, es[j]) ==>
            Going(es, lo, j + 1, base, stop, calls + [(base + j - lo, es[j])])
    ensures j >= lo && stop(base + j - lo, es[j]) ==>
            Visited(es, lo, base, stop, calls + [(base + j - lo, es[j])], true, pass)
  {
    hide Calls, Stops, Part;
    if j < lo {
      PartSkip(es, lo, j);
    } else {
      PartNext(es, lo, j, base, stop);
      if stop(base + j - lo, es[j]) {
        PartStopped(es, lo, j, base, stop);
      }
    }
  }

  /** The elements of one branch more, which may be before those to be visited. */
  lemma GoingBranch(ks: seq<Tree>, k: nat, lo: nat, base: int, stop: Stop, calls: seq<Call>, sub: seq<Call>,
          stopped: bool, subpass: int, pass: int)
    requires k < |ks| && lo <= |FlatAll(ks)| && Going(FlatAll(ks), lo, Before(ks, k), base, stop, calls)
    requires var p, n := Before(ks, k), Len(ks[k]);
             if lo <= p + n then Visited(Flat(ks[k]), Max(lo - p, 0), base + Max(p - lo, 0), stop, sub, stopped,
                 subpass)
             else sub == [] && !stopped && subpass == 0
    ensures Before(ks, k + 1) == Before(ks, k) + Len(ks[k])
    ensures !stopped ==> Going(FlatAll(ks), lo, Before(ks, k + 1), base, stop, calls + sub)
    ensures !stopped ==> Max(lo, Before(ks, k)) + subpass == Max(lo, Before(ks, k + 1))
    ensures stopped ==> Visited(FlatAll(ks), lo, base, stop, calls + sub, true, pass)
  {
    hide Flat, FlatAll, Calls, Stops, Part;
    PartKid(ks, k, lo);
    PartGoesOn(ks, k, lo, base, stop);
    if stopped {
      PartStops(FlatAll(ks), lo, Before(ks, k + 1), base, stop);
    }
  }

  // ------------------------------------------------------------------- down

  /** The elements from `k` up to `hi`, if any, which are visited from the last one down. */
  function PartDown(es: seq<Hash>, k: nat, hi: nat): seq<Hash>
    requires hi <= |es|
  {
    if k <= hi then es[k..hi] else []
  }

  function Min(a: int, b: int): int {
    if a < b then a else b
  }

  lemma PartDownNone(es: seq<Hash>, hi: nat, stop: Stop, lo: int)
    requires hi <= |es|
    ensures PartDown(es, |es|, hi) == [] && CallsDown([], lo + |es|, stop) == [] && !Stops([], lo + |es|, stop)
  {
  }

  lemma PartDownSkip(es: seq<Hash>, k: nat, hi: nat, lo: int, stop: Stop)
    requires hi <= k < |es|
    ensures PartDown(es, k, hi) == PartDown(es, k + 1, hi) == []
    ensures CallsDown([], lo + k, stop) == CallsDown([], lo + k + 1, stop) == [] && !Stops([], lo + k, stop)
  {
  }

  lemma PartDownNext(es: seq<Hash>, k: nat, hi: nat, lo: int, stop: Stop)
    requires k < hi <= |es| && !Stops(PartDown(es, k + 1, hi), lo + k + 1, stop)
    ensures CallsDown(PartDown(es, k, hi), lo + k, stop) ==
            CallsDown(PartDown(es, k + 1, hi), lo + k + 1, stop) + [(lo + k, es[k])]
    ensures Stops(PartDown(es, k, hi), lo + k, stop) <==> stop(lo + k, es[k])
    ensures stop(lo + k, es[k]) ==>
            Stops(es[..hi], lo, stop) && CallsDown(es[..hi], lo, stop) == CallsDown(PartDown(es, k, hi), lo + k, stop)
  {
    hide CallsDown, Stops;
    var rest := es[k + 1..hi];
    assert es[k..hi] == [es[k]] + rest;
    CallsDownConcat([es[k]], rest, lo + k, stop);
    CallsOne(es[k], lo + k, stop);
    assert es[..hi] == es[..k] + es[k..hi];
    CallsDownConcat(es[..k], es[k..hi], lo, stop);
  }

  lemma PartDownAll(es: seq<Hash>, hi: nat)
    requires hi <= |es|
    ensures PartDown(es, 0, hi) == es[..hi]
  {
  }

  lemma PrefixAll(ks: seq<Tree>)
    ensures Before(ks, |ks|) == |FlatAll(ks)| && Before(ks, 0) == 0
  {
    assert ks[..|ks|] == ks && ks[..0] == [];
  }

  lemma DownNone(lo: int, stop: Stop)
    ensures CallsDown([], lo, stop) == [] && !Stops([], lo, stop)
  {
  }

  /** The calls for one branch more. */
  lemma PartDownKid(ks: seq<Tree>, k: nat, hi: nat, lo: int, stop: Stop)
    requires k < |ks| && hi <= |FlatAll(ks)|
      && !Stops(PartDown(FlatAll(ks), Before(ks, k + 1), hi), lo + Before(ks, k + 1), stop)
    ensures Before(ks, k + 1) == Before(ks, k) + Len(ks[k])
    ensures var all, p, n := FlatAll(ks), Before(ks, k), Len(ks[k]);
            var sub := if p > hi then [] else Flat(ks[k])[..Min(hi - p, n)];
            sub <= Flat(ks[k])
            && CallsDown(PartDown(all, p, hi), lo + p, stop) == CallsDown(PartDown(all, p + n, hi), lo + p + n,
                stop) + CallsDown(sub, lo + p, stop)
            && (Stops(PartDown(all, p, hi), lo + p, stop) <==> Stops(sub, lo + p, stop))
            && (!Stops(sub, lo + p, stop) ==> |CallsDown(sub, lo + p, stop)| == |sub|)
            && (Stops(sub, lo + p, stop) ==>
                  Stops(all[..hi], lo, stop)
                  && CallsDown(all[..hi], lo, stop) == CallsDown(PartDown(all, p, hi), lo + p, stop))
  {
    hide Flat, FlatAll, CallsDown, Stops;
    FlatAllPrefix(ks, k);
    FlatAllAt(ks, k);
    var all, p, n := FlatAll(ks), Before(ks, k), Len(ks[k]);
    assert all[p..p + n] == Flat(ks[k]);
    DownNone(lo + p, stop);
    DownNone(lo + p + n, stop);
    if p <= hi {
      var sub := Flat(ks[k])[..Min(hi - p, n)];
      if !Stops(sub, lo + p, stop) {
        CallsDownAll(sub, lo + p, stop);
      }
      var rest := PartDown(all, p + n, hi);
      if hi < p + n {
        assert all[p..hi] == all[p..p + n][..hi - p];
        assert sub + rest == sub;
      } else {
        assert sub == Flat(ks[k]);
        assert all[p..hi] == all[p..p + n] + all[p + n..hi];
      }
      assert all[p..hi] == sub + rest;
      if hi >= p + n {
        CallsDownConcat(sub, rest, lo + p, stop);
      }
      assert all[..hi] == all[..p] + all[p..hi];
      CallsDownConcat(all[..p], all[p..hi], lo, stop);
    }
  }

  /** The last elements have been visited, and none has stopped it. */
  ghost predicate GoingDown(es: seq<Hash>, k: int, hi: nat, lo: int, stop: Stop, calls: seq<Call>)
  {
    GoingDownSo(es, k, hi, lo, stop, calls) == true
  }

  ghost predicate GoingDownSo(es: seq<Hash>, k: int, hi: nat, lo: int, stop: Stop, calls: seq<Call>) {
    0 <= k && hi <= |es| && calls == CallsDown(PartDown(es, k, hi), lo + k, stop)
    && !Stops(PartDown(es, k, hi), lo + k, stop)
  }

  lemma GoingDownStart(es: seq<Hash>, hi: nat, lo: int, stop: Stop)
    requires hi <= |es|
    ensures GoingDown(es, |es|, hi, lo, stop, [])
  {
    PartDownNone(es, hi, stop, lo);
  }

  lemma GoingDownEnd(es: seq<Hash>, hi: nat, lo: int, stop: Stop, calls: seq<Call>)
    requires GoingDown(es, 0, hi, lo, stop, calls)
    ensures hi <= |es| && calls == CallsDown(es[..hi], lo, stop) && !Stops(es[..hi], lo, stop)
  {
    PartDownAll(es, hi);
  }

  /** What there is to visit below the k-th branch. */
  function KidPart(ks: seq<Tree>, k: nat, hi: nat): seq<Hash>
    requires k < |ks|
  {
    var p := Before(ks, k);
    if p > hi then [] else Flat(ks[k])[..Min(hi - p, Len(ks[k]))]
  }

  lemma KidPartIs(ks: seq<Tree>, k: nat, hi: nat)
    requires k < |ks|
    ensures Before(ks, k + 1) == Before(ks, k) + Len(ks[k]) && KidPart(ks, k, hi) <= Flat(ks[k])
    ensures |KidPart(ks, k, hi)| == if Before(ks, k) > hi then 0 else Min(hi - Before(ks, k), Len(ks[k]))
  {
    FlatAllPrefix(ks, k);
  }

  /** The calls below one branch more. */
  lemma GoingDownBranch(ks: seq<Tree>, k: nat, hi: nat, lo: int, stop: Stop, calls: seq<Call>, sub: seq<Call>)
    requires k < |ks| && GoingDown(FlatAll(ks), Before(ks, k + 1), hi, lo, stop, calls)
    requires sub == CallsDown(KidPart(ks, k, hi), lo + Before(ks, k), stop)
    ensures var stopped := Stops(KidPart(ks, k, hi), lo + Before(ks, k), stop);
            (!stopped ==>
                GoingDown(FlatAll(ks), Before(ks, k), hi, lo, stop, calls + sub) && |sub| == |KidPart(ks, k, hi)|)
            && (stopped ==>
                  hi <= |FlatAll(ks)| && Stops(FlatAll(ks)[..hi], lo, stop)
                  && CallsDown(FlatAll(ks)[..hi], lo, stop) == calls + sub)
  {
    hide Flat, FlatAll, CallsDown, Stops, PartDown, Before;
    PartDownKid(ks, k, hi, lo, stop);
  }

  // -------------------------------------------------------------- deleting

  /** The elements that differ from `x`, in order. */
  function Others(es: seq<Hash>, x: Hash): (r: seq<Hash>)
    ensures x !in r && |r| <= |es|
  {
    if es == [] then []
    else if es[0] == x then Others(es[1..], x)
    else [es[0]] + Others(es[1..], x)
  }

  lemma {:induction false} OthersConcat(a: seq<Hash>, b: seq<Hash>, x: Hash)
    ensures Others(a + b, x) == Others(a, x) + Others(b, x)
  {
    if a == [] {
      assert a + b == b;
    } else {
      assert (a + b)[1..] == a[1..] + b;
      OthersConcat(a[1..], b, x);
    }
  }

  lemma {:induction false} OthersSame(es: seq<Hash>, x: Hash)
    requires x !in es
    ensures Others(es, x) == es
  {
    if es != [] {
      OthersSame(es[1..], x);
    }
  }

  lemma OthersNone(x: Hash)
    ensures Others([], x) == []
  {
  }

  lemma OthersOne(x: Hash)
    ensures Others([x], x) == []
  {
  }

  /** On the way down: the elements after the i-th have been dealt with. */
  ghost predicate Pending(es: seq<Hash>, i: int, x: Hash, now: seq<Hash>, deleted: bool)
  {
    PendingSo(es, i, x, now, deleted) == true
  }

  ghost predicate PendingSo(es: seq<Hash>, i: int, x: Hash, now: seq<Hash>, deleted: bool) {
    -1 <= i < |es| && i < |now| && now == es[..i + 1] + Others(es[i + 1..], x) && deleted == (x in es[i + 1..])
  }

  lemma PendingStart(es: seq<Hash>, x: Hash)
    requires es != []
    ensures Pending(es, |es| - 1, x, es, false)
  {
  }

  /** The elements of `es` down to the i-th have been visited, and there is nothing to delete below. */
  lemma PendingEnd(es: seq<Hash>, i: int, x: Hash, now: seq<Hash>, deleted: bool)
    requires Pending(es, i, x, now, deleted) && -1 <= i < |now| && x !in now[..i + 1]
    ensures now == Others(es, x) && deleted == (x in es)
  {
    hide Others;
    assert now[..i + 1] == es[..i + 1];
    assert es == es[..i + 1] + es[i + 1..];
    OthersConcat(es[..i + 1], es[i + 1..], x);
    OthersSame(es[..i + 1], x);
  }

  /** The next element to delete, the d-th, has been deleted. */
  lemma PendingStep(es: seq<Hash>, i: int, d: int, x: Hash, now: seq<Hash>, deleted: bool)
    requires Pending(es, i, x, now, deleted) && LastMatch(now, i, d, x)
    ensures 0 <= d <= i < |now| && Pending(es, d - 1, x, Without(now, d), true) && |Without(now, d)| == |now| - 1
  {
    hide Others;
    var a, b := es[d + 1..i + 1], es[i + 1..];
    assert now[d + 1..i + 1] == a;
    assert es[d..] == [x] + (a + b);
    OthersConcat([x], a + b, x);
    OthersConcat(a, b, x);
    OthersSame(a, x);
    OthersOne(x);
    assert now[d + 1..] == a + Others(b, x);
    assert es[d..][0] == x;
  }

  /** The last match up to the i-th element. */
  ghost predicate LastMatch(es: seq<Hash>, i: int, d: int, x: Hash)
  {
    LastMatchSo(es, i, d, x) == true
  }

  ghost predicate LastMatchSo(es: seq<Hash>, i: int, d: int, x: Hash) {
    0 <= d <= i < |es| && es[d] == x && x !in es[d + 1..i + 1]
  }

  lemma MatchAt(es: seq<Hash>, i: int, d: int, x: Hash)
    requires LastMatch(es, i, d, x)
    ensures 0 <= d < |es| && es[d] == x
  {
  }

  /** What a round down finds. */
  lemma RoundFinds(es: seq<Hash>, i: int, x: Hash, stop: Stop)
    requires -1 <= i < |es| && forall i, h :: stop(i, h) == (h == x)
    ensures Stops(es[..i + 1], 0, stop) <==> x in es[..i + 1]
    ensures Stops(es[..i + 1], 0, stop) ==> var c := CallsDown(es[..i + 1], 0, stop);
              |c| > 0 && |c| == i + 1 - c[|c| - 1].0 && LastMatch(es, i, c[|c| - 1].0, x)
  {
    hide CallsDown, Stops;
    KillLast(es[..i + 1], x, stop);
    if Stops(es[..i + 1], 0, stop) {
      var c := CallsDown(es[..i + 1], 0, stop);
      var d := c[|c| - 1].0;
      assert es[..i + 1][d + 1..] == es[d + 1..i + 1];
    }
  }

  /** Going down to the first match from the end. */
  lemma {:induction false} KillLast(es: seq<Hash>, x: Hash, stop: Stop)
    requires forall i, h :: stop(i, h) == (h == x)
    ensures Stops(es, 0, stop) <==> x in es
    ensures Stops(es, 0, stop) ==> var c := CallsDown(es, 0, stop); |c| > 0 && var d := c[|c| - 1].0;
              0 <= d < |es| && es[d] == x && x !in es[d + 1..] && |c| == |es| - d
  {
    KillLastFrom(es, 0, x, stop);
  }

  lemma {:induction false} KillLastFrom(es: seq<Hash>, base: int, x: Hash, stop: Stop)
    requires forall i, h :: stop(i, h) == (h == x)
    ensures Stops(es, base, stop) <==> x in es
    ensures Stops(es, base, stop) ==> var c := CallsDown(es, base, stop); |c| > 0 && var d := c[|c| - 1].0 - base;
              0 <= d < |es| && es[d] == x && x !in es[d + 1..] && |c| == |es| - d
  {
    StopsIs(es, base, x, stop);
    if es != [] {
      KillLastFrom(es[1..], base + 1, x, stop);
      if Stops(es, base, stop) {
        if Stops(es[1..], base + 1, stop) {
          var d := CallsDown(es, base, stop)[|CallsDown(es, base, stop)| - 1].0 - base;
          assert es[1..][d - 1] == es[d] && es[d + 1..] == es[1..][d..];
        } else {
          CallsDownAll(es[1..], base + 1, stop);
          assert es[0] == x;
        }
      }
    }
  }

  lemma StopsIs(es: seq<Hash>, base: int, x: Hash, stop: Stop)
    requires forall i, h :: stop(i, h) == (h == x)
    ensures Stops(es, base, stop) <==> x in es
  {
    if x in es {
      var k :| 0 <= k < |es| && es[k] == x;
      assert stop(base + k, es[k]);
    }
  }

  lemma OthersWithout(es: seq<Hash>, i: nat, x: Hash)
    requires i < |es| && es[i] == x
    ensures Others(Without(es, i), x) == Others(es, x)
  {
    hide Others;
    assert es == es[..i] + ([x] + es[i + 1..]);
    OthersConcat(es[..i], [x] + es[i + 1..], x);
    OthersConcat([x], es[i + 1..], x);
    OthersConcat(es[..i], es[i + 1..], x);
    OthersOne(x);
  }

  // ------------------------------------------------------------------ slices

  /** The calls that ask for the elements from `i` up to `j`, and stop at `j`. */
  lemma SliceCalls(es: seq<Hash>, i: nat, j: nat, stop: Stop)
    requires i <= j <= |es| && forall k, h :: stop(k, h) == (k == j)
    ensures var calls := Calls(es[i..], i, stop);
            |calls| >= j - i && forall k | 0 <= k < j - i :: calls[k].1 == es[i + k]
  {
    if j < |es| {
      CallsUpTo(es[i..], i, stop, j - i);
    } else {
      assert !Stops(es[i..], i, stop);
      CallsAll(es[i..], i, stop);
    }
  }

  /** The hashes of the first `n` calls. */
  method HashesOf(calls: seq<Call>, n: nat) returns (xs: seq<Hash>)
    requires n <= |calls|
    ensures |xs| == n && forall k | 0 <= k < n :: xs[k] == calls[k].1
  {
    xs := [];
    for k := 0 to n
      invariant |xs| == k && forall l | 0 <= l < k :: xs[l] == calls[l].1
    {
      xs := xs + [calls[k].1];
    }
  }
}
