/**
 * The replacer as two sequences of frames, most recently used first: the young ones before the midpoint and
 * the old ones (`elder`) after it. `limbo` holds frames that Pin unlinked but left in the node map.
 */
module LruLists {
  import opened Wrappers

  datatype Lru = Lru(young: seq<nat>, elder: seq<nat>, limbo: set<nat>, target: nat) {
    function Order(): seq<nat> { young + elder }
  }

  predicate Distinct(s: seq<nat>) {
    forall i, j :: 0 <= i < j < |s| ==> s[i] != s[j]
  }

  predicate Wf(l: Lru) {
    Distinct(l.Order()) && forall f :: f in l.limbo ==> f !in l.Order()
  }

  /** What rebalance() really establishes. */
  predicate Balanced(l: Lru) { |l.elder| <= l.target || l.young == [] }

  // ----- operations

  /** The share of the pool the old sublist may take before young frames are demoted into it. */
  function TargetOldSize(poolSize: nat, oldPct: int): nat {
    var pct := if oldPct < 5 then 5 else if oldPct > 95 then 95 else oldPct;
    var share := poolSize * pct / 100;
    if share < 1 then 1 else share
  }

  /** Whatever the configuration says, at least one frame may be old, and in a pool of two or more one may be young. */
  lemma TargetOldSizeBounds(poolSize: nat, oldPct: int)
    ensures 1 <= TargetOldSize(poolSize, oldPct)
    ensures poolSize >= 2 ==> TargetOldSize(poolSize, oldPct) < poolSize
    ensures 5 <= oldPct <= 95 && poolSize * oldPct >= 100
            ==> 100 * TargetOldSize(poolSize, oldPct) <= poolSize * oldPct < 100 * (TargetOldSize(poolSize, oldPct) + 1)
  {
    var pct := if oldPct < 5 then 5 else if oldPct > 95 then 95 else oldPct;
    assert poolSize * pct <= poolSize * 95 by {
      assert poolSize * (95 - pct) >= 0;
    }
  }

  function Rebalance(l: Lru): Lru
    decreases |l.young|
  {
    var n := |l.young| - 1;
    if |l.elder| > l.target && l.young != []
    then Rebalance(l.(young := l.young[..n], elder := [l.young[n]] + l.elder))
    else l
  }

  function Remove(s: seq<nat>, f: nat): seq<nat> {
    if s == [] then [] else if s[0] == f then s[1..] else [s[0]] + Remove(s[1..], f)
  }

  function Pin(l: Lru, f: nat): Lru {
    if f in l.Order() then l.(young := Remove(l.young, f), elder := Remove(l.elder, f), limbo := l.limbo + {f}) else l
  }

  function Unpin(l: Lru, f: nat): Lru {
    if f in l.Order() || f in l.limbo then l else Rebalance(l.(elder := [f] + l.elder))
  }

  function Access(l: Lru, f: nat): Lru {
    if f in l.elder then Rebalance(l.(young := [f] + l.young, elder := Remove(l.elder, f)))
    else if f in l.young then l.(young := [f] + Remove(l.young, f))
    else l
  }

  function Evict(l: Lru): (Lru, Option<nat>) {
    var o, y := |l.elder| - 1, |l.young| - 1;
    if l.elder != [] then (l.(elder := l.elder[..o]), Some(l.elder[o]))
    else if l.young != [] then (l.(young := l.young[..y]), Some(l.young[y]))
    else (l, None)
  }

  // ----- sequences without repetition

  lemma {:induction false} RemoveAbsent(s: seq<nat>, f: nat)
    requires f !in s
    ensures Remove(s, f) == s
  {
    if s != [] {
      RemoveAbsent(s[1..], f);
    }
  }

  lemma {:induction false} RemoveAt(s: seq<nat>, k: nat)
    requires Distinct(s) && k < |s|
    ensures Remove(s, s[k]) == s[..k] + s[k + 1..]
  {
    if k == 0 {
      assert s[..0] + s[1..] == s[1..];
    } else {
      var t := s[1..];
      assert t[k - 1] == s[k] != s[0];
      RemoveAt(t, k - 1);
      assert s[..k] + s[k + 1..] == [s[0]] + (t[..k - 1] + t[k..]);
    }
  }

  lemma {:induction false} RemoveConcat(s: seq<nat>, t: seq<nat>, f: nat)
    ensures Remove(s + t, f) == if f in s then Remove(s, f) + t else s + Remove(t, f)
  {
    if s == [] {
      assert s + t == t;
    } else {
      RemoveConcat(s[1..], t, f);
      assert (s + t)[1..] == s[1..] + t && (s + t)[0] == s[0];
      assert f in s <==> f == s[0] || f in s[1..];
      assert [s[0]] + (s[1..] + Remove(t, f)) == s + Remove(t, f);
    }
  }

  lemma RemoveDistinct(s: seq<nat>, f: nat)
    requires Distinct(s)
    ensures Distinct(Remove(s, f)) && f !in Remove(s, f)
    ensures forall g :: g in Remove(s, f) <==> g in s && g != f
  {
    if f in s {
      var k :| 0 <= k < |s| && s[k] == f;
      RemoveAt(s, k);
    } else {
      RemoveAbsent(s, f);
    }
  }

  // ----- the list as one order

  /** rebalance() only moves the midpoint: the order of the frames does not change. */
  lemma {:induction false} RebalanceMovesMidpoint(l: Lru)
    ensures Rebalance(l).Order() == l.Order() && Balanced(Rebalance(l))
    ensures Rebalance(l).limbo == l.limbo && Rebalance(l).target == l.target
    ensures Balanced(l) ==> Rebalance(l) == l
    decreases |l.young|
  {
    if !Balanced(l) {
      var n := |l.young| - 1;
      var m := l.(young := l.young[..n], elder := [l.young[n]] + l.elder);
      RebalanceMovesMidpoint(m);
      assert m.Order() == l.Order();
    }
  }

  /** Once the old sublist is over its share, rebalance() demotes every young frame, since demoting makes it longer. */
  lemma {:induction false} RebalanceDemotesAll(l: Lru)
    ensures |l.elder| > l.target ==> Rebalance(l).young == [] && Rebalance(l).elder == l.Order()
    decreases |l.young|
  {
    if !Balanced(l) {
      var n := |l.young| - 1;
      var m := l.(young := l.young[..n], elder := [l.young[n]] + l.elder);
      RebalanceDemotesAll(m);
      assert m.Order() == l.Order();
    }
  }

  /** A hit is a move-to-front of the whole order, wherever the frame was. */
  lemma AccessMovesToFront(l: Lru, f: nat)
    requires Wf(l) && f in l.Order()
    ensures Access(l, f).Order() == [f] + Remove(l.Order(), f)
    ensures Access(l, f).limbo == l.limbo && Access(l, f).target == l.target
  {
    RemoveConcat(l.young, l.elder, f);
    if f in l.elder {
      OnlyOnce(l.young, l.elder, f);
      var m := l.(young := [f] + l.young, elder := Remove(l.elder, f));
      RebalanceMovesMidpoint(m);
      assert m.Order() == [f] + (l.young + Remove(l.elder, f));
    } else {
      assert ([f] + Remove(l.young, f)) + l.elder == [f] + (Remove(l.young, f) + l.elder);
    }
  }

  lemma OnlyOnce(s: seq<nat>, t: seq<nat>, f: nat)
    requires Distinct(s + t) && f in t
    ensures f !in s
  {
    var k :| 0 <= k < |t| && t[k] == f;
    forall j | 0 <= j < |s|
      ensures s[j] != f
    {
      assert (s + t)[j] == s[j] && (s + t)[|s| + k] == t[k];
    }
  }

  /** The victim is the least recently used frame of the whole order, or nobody if it is empty. */
  lemma EvictTakesLast(l: Lru)
    ensures l.Order() == [] ==> Evict(l) == (l, None)
    ensures l.Order() != [] ==>
              var n := |l.Order()| - 1;
              Evict(l).1 == Some(l.Order()[n]) && Evict(l).0.Order() == l.Order()[..n]
    ensures Evict(l).0.limbo == l.limbo && Evict(l).0.target == l.target
  {
  }

  /** A frame enters at the midpoint, that is, behind every young frame. */
  lemma UnpinEntersAtMidpoint(l: Lru, f: nat)
    requires f !in l.Order() && f !in l.limbo
    ensures Unpin(l, f).Order() == l.young + [f] + l.elder
    ensures Unpin(l, f).limbo == l.limbo && Unpin(l, f).target == l.target
  {
    var m := l.(elder := [f] + l.elder);
    RebalanceMovesMidpoint(m);
    assert m.Order() == l.young + [f] + l.elder;
  }

  /** So the replacer is plain LRU exactly while nothing is young. */
  lemma PlainLruIffNoYoung(l: Lru, f: nat)
    requires f !in l.Order() && f !in l.limbo
    ensures Unpin(l, f).Order() == [f] + l.Order() <==> l.young == []
  {
    UnpinEntersAtMidpoint(l, f);
    if l.young != [] {
      assert (l.young + [f] + l.elder)[0] == l.Order()[0] == l.young[0];
    }
  }

  // ----- invariants

  lemma InsertDistinct(s: seq<nat>, t: seq<nat>, f: nat)
    requires Distinct(s + t) && f !in s + t
    ensures Distinct(s + [f] + t)
    ensures forall g :: g in s + [f] + t <==> g in s + t || g == f
  {
    forall i, j | 0 <= i < j < |s| + 1 + |t|
      ensures (s + [f] + t)[i] != (s + [f] + t)[j]
    {
      var i', j' := if i < |s| then i else i - 1, if j < |s| then j else j - 1;
      assert i != |s| ==> (s + [f] + t)[i] == (s + t)[i'];
      assert j != |s| ==> (s + [f] + t)[j] == (s + t)[j'];
    }
    forall g | g in s + t
      ensures g in s + [f] + t
    {
      assert g in s || g in t;
    }
  }

  lemma AccessKeeps(l: Lru, f: nat)
    requires Wf(l) && Balanced(l)
    ensures Wf(Access(l, f)) && Balanced(Access(l, f))
    ensures Access(l, f).limbo == l.limbo && Access(l, f).target == l.target
    ensures forall g :: g in Access(l, f).Order() <==> g in l.Order()
  {
    if f in l.Order() {
      AccessMovesToFront(l, f);
      RemoveDistinct(l.Order(), f);
      var r := Remove(l.Order(), f);
      assert [] + r == r && [] + [f] + r == [f] + r;
      InsertDistinct([], r, f);
      if f in l.elder {
        RebalanceMovesMidpoint(l.(young := [f] + l.young, elder := Remove(l.elder, f)));
      }
    }
  }

  lemma UnpinKeeps(l: Lru, f: nat)
    requires Wf(l) && Balanced(l)
    ensures Wf(Unpin(l, f)) && Balanced(Unpin(l, f))
    ensures Unpin(l, f).limbo == l.limbo && Unpin(l, f).target == l.target
    ensures forall g :: g in Unpin(l, f).Order() <==> g in l.Order() || (g == f && f !in l.limbo)
  {
    if f !in l.Order() && f !in l.limbo {
      UnpinEntersAtMidpoint(l, f);
      InsertDistinct(l.young, l.elder, f);
      RebalanceMovesMidpoint(l.(elder := [f] + l.elder));
    }
  }

  lemma EvictKeeps(l: Lru)
    requires Wf(l) && Balanced(l)
    ensures Wf(Evict(l).0) && Balanced(Evict(l).0)
    ensures Evict(l).0.limbo == l.limbo && Evict(l).0.target == l.target
    ensures forall g :: g in Evict(l).0.Order() <==> g in l.Order() && Evict(l).1 != Some(g)
  {
    EvictTakesLast(l);
    var s, n := l.Order(), |l.Order()| - 1;
    if s != [] {
      assert s == s[..n] + [s[n]];
    }
  }

  lemma PinKeeps(l: Lru, f: nat)
    requires Wf(l) && Balanced(l)
    ensures Wf(Pin(l, f)) && Balanced(Pin(l, f)) && Pin(l, f).target == l.target
    ensures forall g :: g in Pin(l, f).Order() <==> g in l.Order() && g != f
    ensures f !in l.Order() ==> Pin(l, f) == l
  {
    if f in l.Order() {
      RemoveConcat(l.young, l.elder, f);
      RemoveDistinct(l.Order(), f);
      if f in l.elder {
        OnlyOnce(l.young, l.elder, f);
        RemoveAbsent(l.young, f);
        var k :| 0 <= k < |l.elder| && l.elder[k] == f;
        DistinctPart(l.young, l.elder);
        RemoveAt(l.elder, k);
      } else {
        RemoveAbsent(l.elder, f);
      }
      assert Pin(l, f).Order() == Remove(l.Order(), f);
    }
  }

  lemma DistinctPart(s: seq<nat>, t: seq<nat>)
    requires Distinct(s + t)
    ensures Distinct(s) && Distinct(t)
  {
    forall i, j | 0 <= i < j < |t|
      ensures t[i] != t[j]
    {
      assert (s + t)[|s| + i] == t[i] && (s + t)[|s| + j] == t[j];
    }
    forall i, j | 0 <= i < j < |s|
      ensures s[i] != s[j]
    {
      assert (s + t)[i] == s[i] && (s + t)[j] == s[j];
    }
  }

  lemma PinAt(l: Lru, k: nat)
    requires Wf(l)
    ensures k < |l.young| ==>
              Pin(l, l.young[k]) == l.(young := l.young[..k] + l.young[k + 1..], limbo := l.limbo + {l.young[k]})
    ensures k < |l.elder| ==>
              Pin(l, l.elder[k]) == l.(elder := l.elder[..k] + l.elder[k + 1..], limbo := l.limbo + {l.elder[k]})
  {
    DistinctPart(l.young, l.elder);
    if k < |l.young| {
      if l.young[k] in l.elder { OnlyOnce(l.young, l.elder, l.young[k]); }
      RemoveAt(l.young, k);
      RemoveAbsent(l.elder, l.young[k]);
    }
    if k < |l.elder| {
      OnlyOnce(l.young, l.elder, l.elder[k]);
      RemoveAbsent(l.young, l.elder[k]);
      RemoveAt(l.elder, k);
    }
  }

  /** Evicting unlinks the last frame and forgets its node. */
  lemma EvictByPin(l: Lru)
    requires Wf(l)
    ensures l.elder != [] ==> Pin(l, l.elder[|l.elder| - 1]).(limbo := l.limbo) == Evict(l).0
    ensures l.elder == [] && l.young != [] ==> Pin(l, l.young[|l.young| - 1]).(limbo := l.limbo) == Evict(l).0
  {
    if l.elder != [] {
      PinAt(l, |l.elder| - 1);
    } else if l.young != [] {
      PinAt(l, |l.young| - 1);
    }
  }

  /** A hit unlinks the frame and links it again at the young head. */
  lemma AccessByPin(l: Lru, f: nat)
    requires Wf(l) && f in l.Order()
    ensures var m := Pin(l, f).(limbo := l.limbo);
            Access(l, f) == if f in l.elder then Rebalance(m.(young := [f] + m.young)) else m.(young := [f] + m.young)
  {
    if f in l.elder {
      OnlyOnce(l.young, l.elder, f);
      RemoveAbsent(l.young, f);
    } else {
      RemoveAbsent(l.elder, f);
    }
  }

  // ----- Pin followed by Unpin

  /** "Insert frame_id at midpoint" holds exactly for frames that were not pinned while listed. */
  lemma UnpinListsIff(l: Lru, f: nat)
    requires Wf(l) && Balanced(l)
    ensures f in Unpin(l, f).Order() <==> f !in l.limbo
  {
    UnpinKeeps(l, f);
  }

  /** Pinned and unpinned again, a frame is offered for eviction exactly when it was not listed before the pin and was
      never pinned while listed: a frame pinned while listed is lost to the replacer. */
  lemma PinLosesListedFrame(l: Lru, f: nat)
    requires Wf(l) && Balanced(l)
    ensures f in Unpin(Pin(l, f), f).Order() <==> f !in l.Order() && f !in l.limbo
  {
    PinKeeps(l, f);
    UnpinListsIff(Pin(l, f), f);
  }

  // ----- scan resistance

  /** One page of a long scan: evict somebody, then list the frame the new page landed in. */
  function Round(l: Lru, f: nat): Lru { Unpin(Evict(l).0, f) }

  function Scan(l: Lru, fs: seq<nat>): Lru
    decreases |fs|
  {
    if fs == [] then l else Scan(Round(l, fs[0]), fs[1..])
  }

  /** Every frame of the scan is unlisted when its page arrives; reusing the victim's frame is the usual case. */
  predicate Arrives(l: Lru, fs: seq<nat>)
    decreases |fs|
  {
    fs == [] || (fs[0] !in Evict(l).0.Order() && fs[0] !in l.limbo && Arrives(Round(l, fs[0]), fs[1..]))
  }

  function Reverse(s: seq<nat>): (r: seq<nat>)
    ensures |r| == |s|
  {
    if s == [] then [] else Reverse(s[1..]) + [s[0]]
  }

  lemma RoundIs(l: Lru, f: nat)
    requires 1 <= |l.elder| <= l.target && f !in Evict(l).0.Order() && f !in l.limbo
    ensures Round(l, f) == l.(elder := [f] + l.elder[..|l.elder| - 1])
  {
  }

  lemma TurnedOver(fs: seq<nat>, elder: seq<nat>)
    requires fs != [] && elder != []
    ensures (Reverse(fs[1..]) + ([fs[0]] + elder[..|elder| - 1]))[..|elder|] == (Reverse(fs) + elder)[..|elder|]
  {
    var a, f, front := Reverse(fs[1..]), fs[0], elder[..|elder| - 1];
    assert a + ([f] + front) == (a + [f]) + front;
    assert (a + [f]) + elder == ((a + [f]) + front) + [elder[|elder| - 1]];
  }

  /** A scan of any length never touches the young frames; it only turns over the old ones. */
  lemma {:induction false} ScanResistance(l: Lru, fs: seq<nat>)
    requires 1 <= |l.elder| <= l.target && Arrives(l, fs)
    ensures Scan(l, fs).young == l.young && Scan(l, fs).target == l.target && Scan(l, fs).limbo == l.limbo
    ensures Scan(l, fs).elder == (Reverse(fs) + l.elder)[..|l.elder|]
    decreases |fs|
  {
    hide Round, Evict;
    if fs == [] {
      assert Reverse(fs) + l.elder == l.elder;
    } else {
      RoundIs(l, fs[0]);
      ScanResistance(Round(l, fs[0]), fs[1..]);
      TurnedOver(fs, l.elder);
    }
  }
}
