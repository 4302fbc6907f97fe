/**
 The rolling statistics of `data_stats`: counters are updated as samples arrive and
 rebuilt by replaying the queue whenever the period advances.
 */
module Statistics {
  import T = UTime
  import opened Values
  import opened Counters

  const USECS_PER_SEC := 1_000_000

  /** `hashId`: mote sensor types, and optionally mote numbers, collapse to one id. */
  function HashBits(sid: bv32, singlemote: bool): bv32 {
    if IsMote(sid) then
      var mid := WithoutType(sid);
      if singlemote then WithoutMote(mid) else mid
    else sid
  }

  predicate IsMote(sid: bv32) { sid & 0x8000 != 0 }
  function WithoutType(sid: bv32): bv32 { sid ^ (sid & 3) }
  function WithoutMote(sid: bv32): bv32 { sid ^ (sid & 0xf00) }

  function HashId(sid: Id, singlemote: bool): Id { Id(HashBits(sid.bits, singlemote)) }

  /** The bits of a mote's id other than those for the sensor type and, with `singlemote`, for the mote. */
  function Considered(singlemote: bool): bv32 { if singlemote then 0xfffff0fc else 0xfffffffc }

  function Cut(x: bv32, mask: bv32): bv32 { x & mask }

  /** The id with the other bits cleared. */
  function Masked(sid: bv32, singlemote: bool): bv32 { Cut(sid, Considered(singlemote)) }

  lemma {:induction false} WithoutTypeIs(sid: bv32)
    ensures WithoutType(sid) == Cut(sid, 0xfffffffc)
  {
  }

  lemma {:induction false} WithoutMoteIs(sid: bv32)
    ensures WithoutMote(sid) == Cut(sid, 0xfffff0ff)
  {
  }

  lemma {:induction false} CutBoth(sid: bv32)
    ensures Cut(Cut(sid, 0xfffffffc), 0xfffff0ff) == Cut(sid, 0xfffff0fc)
  {
    assert (sid & 0xfffffffc) & 0xfffff0ff == sid & 0xfffff0fc;
  }

  lemma {:induction false} MaskedIsMote(sid: bv32, singlemote: bool)
    ensures IsMote(Masked(sid, singlemote)) == IsMote(sid)
  {
    assert (sid & 0xfffffffc) & 0x8000 == sid & 0x8000;
    assert (sid & 0xfffff0fc) & 0x8000 == sid & 0x8000;
  }

  /** What hashing leaves of an id: all of it or, of a mote's, what is considered. */
  lemma {:induction false} HashBitsAre(sid: bv32, singlemote: bool)
    ensures HashBits(sid, singlemote) == if IsMote(sid) then Masked(sid, singlemote) else sid
  {
    hide WithoutType, WithoutMote, Cut, IsMote;
    WithoutTypeIs(sid);
    WithoutMoteIs(Cut(sid, 0xfffffffc));
    CutBoth(sid);
  }

  /** Two ids share a counter exactly if they are the same, or both are motes' and agree in the bits considered. */
  lemma {:induction false} HashIdSeparates(a: Id, b: Id, singlemote: bool)
    ensures HashId(a, singlemote) == HashId(b, singlemote) <==>
            a == b || (IsMote(a.bits) && IsMote(b.bits) && Masked(a.bits, singlemote) == Masked(b.bits, singlemote))
  {
    hide HashBits, Masked, IsMote;
    HashBitsAre(a.bits, singlemote);
    HashBitsAre(b.bits, singlemote);
    MaskedIsMote(a.bits, singlemote);
    MaskedIsMote(b.bits, singlemote);
  }

  /** Bit 15 marks a mote; bits 0 and 1, and with `singlemote` bits 8 to 11, are not considered. */
  lemma {:induction false} MoteBits(sid: bv32, singlemote: bool, mask: bv32)
    requires mask == if singlemote then 0xfffff0fc else 0xfffffffc
    ensures IsMote(sid) <==> sid & 0x8000 != 0
    ensures Masked(sid, singlemote) == sid & mask
  {
  }

  /** Ids that are not motes' never share a counter. */
  lemma {:induction false} OrdinaryIdsApart(a: Id, b: Id, singlemote: bool)
    requires a.bits & 0x8000 == 0 && b.bits & 0x8000 == 0
    ensures HashId(a, singlemote) == HashId(b, singlemote) <==> a == b
  {
    hide HashId, Masked, IsMote;
    MoteBits(a.bits, singlemote, Considered(singlemote));
    MoteBits(b.bits, singlemote, Considered(singlemote));
    HashIdSeparates(a, b, singlemote);
  }

  /** Hashing twice is hashing once, so the counter made for a sample is the one found for it later. */
  lemma {:induction false} HashIdIdempotent(sid: Id, singlemote: bool)
    ensures HashId(HashId(sid, singlemote), singlemote) == HashId(sid, singlemote)
  {
    hide HashBits, Masked, IsMote;
    HashBitsAre(sid.bits, singlemote);
    HashBitsAre(Masked(sid.bits, singlemote), singlemote);
    MaskedIsMote(sid.bits, singlemote);
    MaskedTwice(sid.bits, singlemote);
  }

  lemma {:induction false} MaskedTwice(sid: bv32, singlemote: bool)
    ensures Masked(Masked(sid, singlemote), singlemote) == Masked(sid, singlemote)
  {
    assert (sid & 0xfffffffc) & 0xfffffffc == sid & 0xfffffffc;
    assert (sid & 0xfffff0fc) & 0xfffff0fc == sid & 0xfffff0fc;
  }

  /** `UTime::round`: to the nearest multiple of `y` microseconds, or not at all. */
  function Round(t: int, y: nat): int {
    if y == 0 then t
    else
      var m := t % y;
      t - (if m >= y / 2 then m - y else m)
  }

  /** The result is a multiple of `y`, not further than half a `y` from `t`; halfway it is the later one. */
  lemma {:induction false} RoundIsNearest(t: int, y: nat)
    requires y > 0
    ensures IsMultiple(Round(t, y), y)
    ensures -(y - y / 2) <= t - Round(t, y) < y / 2
  {
    var q, m := t / y, t % y;
    assert t == y * q + m;
    if m >= y / 2 {
      assert Round(t, y) == y * q + y;
      NextMultiple(y, q);
    } else {
      assert Round(t, y) == y * q;
    }
  }

  ghost predicate IsMultiple(x: int, y: int) { exists q :: x == y * q }

  lemma {:induction false} NextMultiple(y: int, q: int)
    ensures y * q + y == y * (q + 1)
  {
  }

  /** The queued samples from `start` on. */
  ghost function Kept(q: seq<Sample>, start: int): seq<Sample> {
    if q == [] then []
    else Kept(q[..|q| - 1], start) + (if q[|q| - 1].time < start then [] else [q[|q| - 1]])
  }

  /** The samples of `q` that belong to counter `key` and to the period [start, end). */
  ghost function Mine(q: seq<Sample>, key: Id, singlemote: bool, start: int, end: int): seq<Sample> {
    if q == [] then []
    else
      var s := q[|q| - 1];
      Mine(q[..|q| - 1], key, singlemote, start, end)
      + (if HashId(s.id, singlemote) == key && start <= s.time < end then [s] else [])
  }

  lemma {:induction false} KeptContents(q: seq<Sample>, start: int)
    ensures forall s :: s in Kept(q, start) <==> s in q && s.time >= start
  {
    if q != [] {
      KeptContents(q[..|q| - 1], start);
      assert q == q[..|q| - 1] + [q[|q| - 1]];
    }
  }

  lemma {:induction false} MineSnoc(q: seq<Sample>, s: Sample, key: Id, singlemote: bool, start: int, end: int)
    ensures Mine(q + [s], key, singlemote, start, end) ==
            Mine(q, key, singlemote, start, end) + (if HashId(s.id, singlemote) == key && start <= s.time < end then [s] else [])
  {
    assert (q + [s])[..|q|] == q;
  }

  /** Samples from before a period do not matter to it. */
  lemma {:induction false} MineOfKept(q: seq<Sample>, key: Id, singlemote: bool, lo: int, start: int, end: int)
    requires lo <= start
    ensures Mine(Kept(q, lo), key, singlemote, start, end) == Mine(q, key, singlemote, start, end)
  {
    if q != [] {
      hide HashId;
      var l, s := q[..|q| - 1], q[|q| - 1];
      MineOfKept(l, key, singlemote, lo, start, end);
      if s.time >= lo {
        MineSnoc(Kept(l, lo), s, key, singlemote, start, end);
      } else {
        assert Kept(q, lo) == Kept(l, lo);
      }
    }
  }

  /** Every counter is the fold of the queued samples that belong to it, and every queued sample has a counter. */
  ghost predicate Agrees(samples: map<Id, Counter>, q: seq<Sample>, singlemote: bool, start: int, end: int, enableData: bool) {
    && (forall k :: 0 <= k < |q| ==> HashId(q[k].id, singlemote) in samples && q[k].time >= start)
    && (forall key :: key in samples ==> samples[key] == Fold(Mine(q, key, singlemote, start, end), enableData))
  }

  /** An arriving sample that is queued and, when it is within the period, accumulated keeps the agreement. */
  lemma {:induction false} AgreesArrival(samples: map<Id, Counter>, q: seq<Sample>, singlemote: bool, start: int, end: int, enableData: bool,
                      s: Sample, samples': map<Id, Counter>)
    requires Agrees(samples, q, singlemote, start, end, enableData)
    requires var h := HashId(s.id, singlemote);
      && h in samples && samples[h].Ok() && s.time >= start
      && samples' == if s.time < end then samples[h := Accumulate(samples[h], s, enableData)] else samples
    ensures Agrees(samples', q + [s], singlemote, start, end, enableData)
  {
    hide HashId, Accumulate, Fold, Mine;
    forall key | key in samples'
      ensures samples'[key] == Fold(Mine(q + [s], key, singlemote, start, end), enableData)
    {
      MineSnoc(q, s, key, singlemote, start, end);
      var m := Mine(q, key, singlemote, start, end);
      if HashId(s.id, singlemote) == key && s.time < end {
        FoldSnoc(m, s, enableData);
      } else {
        assert Mine(q + [s], key, singlemote, start, end) == m;
      }
    }
  }

  /** A new counter for an id that no queued sample has. */
  lemma {:induction false} AgreesNewCounter(samples: map<Id, Counter>, q: seq<Sample>, singlemote: bool, start: int, end: int, enableData: bool, key: Id)
    requires Agrees(samples, q, singlemote, start, end, enableData) && key !in samples
    ensures Agrees(samples[key := Empty()], q, singlemote, start, end, enableData)
  {
    hide HashId, Fold, Mine;
    NoneMine(q, key, singlemote, start, end);
    assert Fold([], enableData) == Empty() by { FoldEmpty(enableData); }
  }

  /** The counters cannot be a replay of the queue: a sample precedes the period, or a count is wrong. */
  ghost predicate Apart(samples: map<Id, Counter>, q: seq<Sample>, singlemote: bool, start: int, end: int) {
    || (exists k :: 0 <= k < |q| && q[k].time < start)
    || (exists key :: key in samples && samples[key].nsamps != |Mine(q, key, singlemote, start, end)|)
  }

  lemma {:induction false} ApartDisagrees(samples: map<Id, Counter>, q: seq<Sample>, singlemote: bool, start: int, end: int, enableData: bool)
    requires Apart(samples, q, singlemote, start, end)
    ensures !Agrees(samples, q, singlemote, start, end, enableData)
  {
    hide HashId, Fold, Mine;
    if key :| key in samples && samples[key].nsamps != |Mine(q, key, singlemote, start, end)| {
      FoldCount(Mine(q, key, singlemote, start, end), enableData);
    }
  }

  lemma {:induction false} FoldCount(q: seq<Sample>, enableData: bool)
    ensures Fold(q, enableData).nsamps == |q|
  {
    hide Fold;
    FoldMeaning(q, enableData);
  }

  /** Further arrivals do not mend a disagreement. */
  lemma {:induction false} ApartArrival(samples: map<Id, Counter>, q: seq<Sample>, singlemote: bool, start: int, end: int, enableData: bool,
                     s: Sample, samples': map<Id, Counter>)
    requires Apart(samples, q, singlemote, start, end)
    requires var h := HashId(s.id, singlemote);
      && h in samples && samples[h].Ok() && s.time >= start
      && samples' == if s.time < end then samples[h := Accumulate(samples[h], s, enableData)] else samples
    ensures Apart(samples', q + [s], singlemote, start, end)
  {
    hide HashId, Accumulate, Mine;
    if k :| 0 <= k < |q| && q[k].time < start {
      assert (q + [s])[k].time < start;
    } else {
      var key :| key in samples && samples[key].nsamps != |Mine(q, key, singlemote, start, end)|;
      MineSnoc(q, s, key, singlemote, start, end);
      AccumulateCount(samples[HashId(s.id, singlemote)], s, enableData);
      assert key in samples' && samples'[key].nsamps != |Mine(q + [s], key, singlemote, start, end)|;
    }
  }

  lemma {:induction false} AccumulateCount(c: Counter, s: Sample, enableData: bool)
    requires c.Ok()
    ensures Accumulate(c, s, enableData).nsamps == c.nsamps + 1
  {
    hide Accumulate;
    AccumulateScalars(c, s, enableData);
  }

  lemma {:induction false} ApartNewCounter(samples: map<Id, Counter>, q: seq<Sample>, singlemote: bool, start: int, end: int, key: Id)
    requires Apart(samples, q, singlemote, start, end) && key !in samples
    ensures Apart(samples[key := Empty()], q, singlemote, start, end)
  {
    hide HashId, Mine;
    if k :| 0 <= k < |q| && q[k].time < start {
    } else {
      var other :| other in samples && samples[other].nsamps != |Mine(q, other, singlemote, start, end)|;
      assert samples[key := Empty()][other] == samples[other];
    }
  }

  /** Moving the period from one that ends at `e0` leaves every queued sample counted, or not, as before. */
  ghost predicate Unmoved(q: seq<Sample>, e0: int, s1: int, e1: int) {
    forall k :: 0 <= k < |q| ==> q[k].time >= s1 && (q[k].time < e0 <==> q[k].time < e1)
  }

  lemma {:induction false} MineSame(q: seq<Sample>, key: Id, singlemote: bool, s0: int, e0: int, s1: int, e1: int)
    requires Unmoved(q, e0, s1, e1) && forall k :: 0 <= k < |q| ==> q[k].time >= s0
    ensures Mine(q, key, singlemote, s1, e1) == Mine(q, key, singlemote, s0, e0)
  {
    hide HashId;
    if q != [] {
      MineSame(q[..|q| - 1], key, singlemote, s0, e0, s1, e1);
      assert q[|q| - 1].time >= s0;
    }
  }

  lemma {:induction false} MineGrows(q: seq<Sample>, key: Id, singlemote: bool, s0: int, e0: int, s1: int, e1: int)
    requires e0 <= e1 && forall k :: 0 <= k < |q| ==> q[k].time >= s0 && q[k].time >= s1
    ensures |Mine(q, key, singlemote, s0, e0)| <= |Mine(q, key, singlemote, s1, e1)|
    ensures (exists k :: 0 <= k < |q| && HashId(q[k].id, singlemote) == key && e0 <= q[k].time < e1) ==>
              |Mine(q, key, singlemote, s0, e0)| < |Mine(q, key, singlemote, s1, e1)|
  {
    hide HashId;
    if q != [] {
      var n := |q| - 1;
      MineGrows(q[..n], key, singlemote, s0, e0, s1, e1);
      assert q[n].time >= s0 && q[n].time >= s1;
      if k :| 0 <= k < |q| && HashId(q[k].id, singlemote) == key && e0 <= q[k].time < e1 {
        assert k < n ==> q[..n][k] == q[k];
      }
    }
  }

  /**
   Counters that agree with the queue for one period agree with it for another exactly if
   no queued sample precedes the new period and none changes sides at its end.
   */
  lemma {:induction false} AgreesMoved(samples: map<Id, Counter>, q: seq<Sample>, singlemote: bool, s0: int, e0: int, s1: int, e1: int, enableData: bool)
    requires Agrees(samples, q, singlemote, s0, e0, enableData)
    ensures Agrees(samples, q, singlemote, s1, e1, enableData) <==> Unmoved(q, e0, s1, e1)
    ensures !Unmoved(q, e0, s1, e1) ==> Apart(samples, q, singlemote, s1, e1)
  {
    hide HashId, Fold, Mine;
    if Unmoved(q, e0, s1, e1) {
      forall key | key in samples
        ensures Mine(q, key, singlemote, s1, e1) == Mine(q, key, singlemote, s0, e0)
      {
        MineSame(q, key, singlemote, s0, e0, s1, e1);
      }
    } else {
      MovedIsApart(samples, q, singlemote, s0, e0, s1, e1, enableData);
      ApartDisagrees(samples, q, singlemote, s1, e1, enableData);
    }
  }

  lemma {:induction false} MovedIsApart(samples: map<Id, Counter>, q: seq<Sample>, singlemote: bool, s0: int, e0: int, s1: int, e1: int, enableData: bool)
    requires Agrees(samples, q, singlemote, s0, e0, enableData) && !Unmoved(q, e0, s1, e1)
    ensures Apart(samples, q, singlemote, s1, e1)
  {
    hide HashId, Fold, Mine;
    var k :| 0 <= k < |q| && !(q[k].time >= s1 && (q[k].time < e0 <==> q[k].time < e1));
    if forall i :: 0 <= i < |q| ==> q[i].time >= s1 {
      var key := HashId(q[k].id, singlemote);
      FoldCount(Mine(q, key, singlemote, s0, e0), enableData);
      if e0 <= e1 {
        MineGrows(q, key, singlemote, s0, e0, s1, e1);
      } else {
        MineGrows(q, key, singlemote, s1, e1, s0, e0);
      }
      assert key in samples && samples[key].nsamps != |Mine(q, key, singlemote, s1, e1)|;
    }
  }

  lemma {:induction false} FoldEmpty(enableData: bool)
    ensures Fold([], enableData) == Empty()
  {
  }

  lemma {:induction false} NoneMine(q: seq<Sample>, key: Id, singlemote: bool, start: int, end: int)
    requires forall k :: 0 <= k < |q| ==> HashId(q[k].id, singlemote) != key
    ensures Mine(q, key, singlemote, start, end) == []
  {
    if q != [] { NoneMine(q[..|q| - 1], key, singlemote, start, end); }
  }

  /** What can happen to the statistics: a sample arrives, or a reporting period ends at clock time `now`. */
  datatype Event = Arrival(s: Sample, matched: bool) | Advance(now: int)

  ghost function Advances(events: seq<Event>): nat {
    if events == [] then 0 else Advances(events[..|events| - 1]) + (if events[|events| - 1].Advance? then 1 else 0)
  }

  class DataStats {
    const period: int
    const update: int
    const count: int
    const realtime: bool
    const singlemote: bool
    const enableData: bool
    const roundSecs: nat
    const sensorIds: seq<Id>

    var samples: map<Id, Counter>
    var sampleq: seq<Sample>
    var countersCreated: bool
    var periodStart: int
    var periodEnd: int
    var alarm: bool

    /** A period starting at zero was restarted, without a replay, so that the counters no longer fit the queue. */
    ghost var stale: bool

    /** Such a period was restarted yet again, and the counters did not fit the queue although every count was right. */
    ghost var tangled: bool

    /** Samples are queued for replay. */
    predicate Replays() { count != 1 && period > 0 }

    /** Every queued sample has a counter. */
    ghost predicate HasCounters()
      reads this
    {
      forall k :: 0 <= k < |sampleq| ==> HashId(sampleq[k].id, singlemote) in samples
    }

    /** The counters are what a replay of the queue would give. */
    ghost predicate Agreed()
      reads this
    {
      Agrees(samples, sampleq, singlemote, periodStart, periodEnd, enableData)
    }

    /**
     In every reachable state that replays and is not tangled, the incrementally updated
     counters are what a replay of the queue would give, or else they are stale and cannot be.
     */
    ghost predicate Valid()
      reads this
    {
      && period >= 0 && update >= 0 && (period > 0 ==> update > 0)
      && (forall key :: key in samples ==> samples[key].Ok() && HashId(key, singlemote) == key)
      && (!Replays() ==> sampleq == [])
      && HasCounters()
      && (Replays() && !tangled ==> if stale then Apart(samples, sampleq, singlemote, periodStart, periodEnd) else Agreed())
    }

    /** `stale` is exactly disagreement. */
    lemma {:induction false} StaleIsDisagreement()
      requires Valid() && Replays() && !tangled
      ensures stale <==> !Agreed()
    {
      hide Agrees, Apart, HashId;
      if stale { ApartDisagrees(samples, sampleq, singlemote, periodStart, periodEnd, enableData); }
    }

    /** No start precedes time zero; a period that starts there is a first one. */
    ghost predicate FromEpoch()
      reads this
    {
      && !tangled && periodStart >= 0
      && (periodStart == 0 ==> !stale && (sampleq == [] || periodEnd == FirstEnd(0)))
      && (forall s :: s in sampleq ==> StartFor(s.time) >= 0)
    }

    /** All starts are after time zero, so that zero can only mean "not started". */
    ghost predicate AfterEpoch()
      reads this
    {
      && !stale && !tangled
      && periodStart >= 0 && (periodStart == 0 ==> sampleq == [])
      && (forall s :: s in sampleq ==> StartFor(s.time) > 0)
    }

    constructor (period: int, update: int, count: int, realtime: bool, singlemote: bool, enableData: bool, roundSecs: nat, sensorIds: seq<Id>)
      requires period >= 0 && update >= 0 && (period > 0 ==> update > 0)
      ensures Valid() && AfterEpoch() && FromEpoch() && periodStart == 0 && sampleq == [] && samples == map[] && !countersCreated
      ensures this.period == period && this.update == update && this.count == count && this.realtime == realtime
      ensures this.singlemote == singlemote && this.enableData == enableData && this.roundSecs == roundSecs
    {
      this.period, this.update, this.count, this.realtime := period, update, count, realtime;
      this.singlemote, this.enableData, this.roundSecs, this.sensorIds := singlemote, enableData, roundSecs, sensorIds;
      samples, sampleq, countersCreated, periodStart, periodEnd, alarm := map[], [], false, 0, 0, false;
      stale, tangled := false, false;
    }

    /** Add a counter for a sample id, unless there is one. */
    method AddCounter(sid: Id)
      requires Valid()
      modifies this`samples
      ensures Valid() && HashId(sid, singlemote) in samples
      ensures samples == if HashId(sid, singlemote) in old(samples) then old(samples) else old(samples)[HashId(sid, singlemote) := Empty()]
    {
      hide HashId, Agrees, Apart;
      var h := HashId(sid, singlemote);
      if h !in samples {
        HashIdIdempotent(sid, singlemote);
        if Replays() && !tangled {
          if stale {
            ApartNewCounter(samples, sampleq, singlemote, periodStart, periodEnd, h);
          } else {
            AgreesNewCounter(samples, sampleq, singlemote, periodStart, periodEnd, enableData, h);
          }
        }
        samples := samples[h := Empty()];
      }
    }

    method CreateCounters()
      requires Valid()
      modifies this`samples
      ensures Valid()
      ensures forall key :: key in old(samples) ==> key in samples && samples[key] == old(samples)[key]
      ensures forall key :: key in samples && key !in old(samples) ==> samples[key] == Empty()
      ensures forall k :: 0 <= k < |sensorIds| ==> HashId(sensorIds[k], singlemote) in samples
    {
      hide HashId, Agrees, Apart;
      for i := 0 to |sensorIds|
        invariant Valid()
        invariant forall key :: key in old(samples) ==> key in samples && samples[key] == old(samples)[key]
        invariant forall key :: key in samples && key !in old(samples) ==> samples[key] == Empty()
        invariant forall k :: 0 <= k < i ==> HashId(sensorIds[k], singlemote) in samples
      {
        AddCounter(sensorIds[i]);
      }
    }

    /** Where a period set to start at `t` begins, and where it first ends. */
    function StartFor(t: int): int { Round(t, roundSecs * USECS_PER_SEC) }
    function FirstEnd(start: int): int { start + (if update < period then update else period) * USECS_PER_SEC }

    /** With rounding a period starts on a multiple of so many seconds, the nearest; without, where it was set to start. */
    lemma {:induction false} StartIsRounded(t: int, y: nat)
      requires y == roundSecs * USECS_PER_SEC
      ensures roundSecs == 0 ==> StartFor(t) == t
      ensures roundSecs > 0 ==> IsMultiple(StartFor(t), y) && -(y - y / 2) <= t - StartFor(t) < y / 2
    {
      hide Round, IsMultiple;
      RoundNot(t);
      if roundSecs > 0 { RoundIsNearest(t, y); }
    }

    method SetStart(t: int)
      modifies this`periodStart, this`periodEnd
      ensures periodStart == StartFor(t) && periodEnd == FirstEnd(periodStart)
    {
      periodStart := t;
      if roundSecs != 0 { periodStart := Round(t, roundSecs * USECS_PER_SEC); }
      periodEnd := periodStart + period * USECS_PER_SEC;
      if update < period { periodEnd := periodStart + update * USECS_PER_SEC; }
    }

    /** A sample arrives. The first one, and any one that finds the period starting at zero, sets the start. */
    method Receive(s: Sample, matched: bool) returns (taken: bool)
      requires Valid()
      modifies this
      ensures Valid() && taken == matched
      ensures !matched ==> samples == old(samples) && sampleq == old(sampleq) && periodStart == old(periodStart) && periodEnd == old(periodEnd)
      ensures matched && old(periodStart) == 0 ==> periodStart == StartFor(s.time) && periodEnd == FirstEnd(periodStart)
      ensures old(periodStart) != 0 ==> periodStart == old(periodStart) && periodEnd == old(periodEnd)
      ensures matched ==> sampleq == if count != 1 && period > 0 && s.time >= periodStart then old(sampleq) + [s] else old(sampleq)
      ensures alarm == (old(alarm) || (matched && period > 0 && s.time >= periodStart && s.time >= periodEnd))
      ensures matched ==> var h := HashId(s.id, singlemote);
        var was := if h in old(samples) then old(samples)[h] else Empty();
        h in samples && was.Ok() &&
        samples[h] == if period == 0 || periodStart <= s.time < periodEnd then Accumulate(was, s, enableData) else was
      ensures matched && Replays() && !old(stale) && !old(tangled) ==>
                !tangled && (stale <==> old(periodStart) == 0 && !Unmoved(old(sampleq), old(periodEnd), StartFor(s.time), FirstEnd(StartFor(s.time))))
      ensures matched && Replays() && !old(stale) && !old(tangled) ==>
                (Agreed() <==> old(periodStart) != 0 || Unmoved(old(sampleq), old(periodEnd), StartFor(s.time), FirstEnd(StartFor(s.time))))
      ensures old(stale) && (old(periodStart) != 0 || !matched) ==> stale && tangled == old(tangled)
      ensures old(AfterEpoch()) && (matched ==> StartFor(s.time) > 0) ==> AfterEpoch()
      ensures old(FromEpoch()) && (matched ==> StartFor(s.time) >= 0) ==> FromEpoch()
    {
      hide HashId, Accumulate, Agrees, Apart, Round;
      taken := matched;
      if !matched {
        return;
      }
      Prepare(s);
      if !(period > 0 && s.time < periodStart) {
        Tally(s);
      }
      if Replays() && !tangled { StaleIsDisagreement(); }
    }

    /** See to it that the sample has a counter and the period a start. */
    method Prepare(s: Sample)
      requires Valid()
      modifies this`samples, this`countersCreated, this`periodStart, this`periodEnd, this`stale, this`tangled
      ensures Valid()
      ensures var h := HashId(s.id, singlemote);
        h in samples && samples[h] == if h in old(samples) then old(samples)[h] else Empty()
      ensures old(periodStart) == 0 ==> periodStart == StartFor(s.time) && periodEnd == FirstEnd(periodStart)
      ensures old(periodStart) != 0 ==> periodStart == old(periodStart) && periodEnd == old(periodEnd)
      ensures old(periodStart) != 0 ==> stale == old(stale) && tangled == old(tangled)
      ensures !old(stale) && !old(tangled) && old(periodStart) == 0 ==>
                !tangled && (stale <==> Replays() && !Unmoved(sampleq, old(periodEnd), periodStart, periodEnd))
      ensures old(AfterEpoch()) && StartFor(s.time) > 0 ==> AfterEpoch()
      ensures old(FromEpoch()) && StartFor(s.time) >= 0 ==> FromEpoch()
    {
      hide HashId, Agrees, Apart, Round;
      if !countersCreated {
        CreateCounters();
        countersCreated := true;
      }
      AddCounter(s.id);
      Begin(s.time);
    }

    /** A first period is the first window. */
    lemma {:induction false} FirstWindow(start: int)
      requires periodStart == start > 0 && periodEnd == FirstEnd(start)
      ensures AtWindow(start, 0)
    {
    }

    /** Start the period at `t` unless it has started. */
    method Begin(t: int)
      requires Valid()
      modifies this`periodStart, this`periodEnd, this`stale, this`tangled
      ensures Valid()
      ensures old(periodStart) == 0 ==> periodStart == StartFor(t) && periodEnd == FirstEnd(periodStart)
      ensures old(periodStart) != 0 ==> periodStart == old(periodStart) && periodEnd == old(periodEnd)
      ensures old(periodStart) != 0 ==> stale == old(stale) && tangled == old(tangled)
      ensures !old(stale) && !old(tangled) && old(periodStart) == 0 ==>
                !tangled && (stale <==> Replays() && !Unmoved(sampleq, old(periodEnd), periodStart, periodEnd))
      ensures old(AfterEpoch()) && StartFor(t) > 0 ==> AfterEpoch()
      ensures old(FromEpoch()) && StartFor(t) >= 0 ==> FromEpoch()
    {
      hide HashId, Agrees, Apart, Round;
      if periodStart == 0 {
        ghost var start, end := periodStart, periodEnd;
        SetStart(t);
        if Replays() && !tangled {
          if stale {
            stale := !Agreed();
            tangled := stale && !Apart(samples, sampleq, singlemote, periodStart, periodEnd);
          } else {
            AgreesMoved(samples, sampleq, singlemote, start, end, periodStart, periodEnd, enableData);
            AgreesNotBefore(samples, sampleq, singlemote, start, end, enableData);
            stale := !Unmoved(sampleq, end, periodStart, periodEnd);
          }
        }
      }
    }

    /** Queue a sample that is not too old and, if it is not ahead of the period either, accumulate it. */
    method Tally(s: Sample)
      requires Valid() && HashId(s.id, singlemote) in samples && (period > 0 ==> s.time >= periodStart)
      modifies this`samples, this`sampleq, this`alarm
      ensures Valid()
      ensures sampleq == if Replays() then old(sampleq) + [s] else old(sampleq)
      ensures samples == if period == 0 || s.time < periodEnd
                         then old(samples)[HashId(s.id, singlemote) := Accumulate(old(samples)[HashId(s.id, singlemote)], s, enableData)]
                         else old(samples)
      ensures alarm == (old(alarm) || (period > 0 && s.time >= periodEnd))
    {
      hide HashId, Accumulate, Agrees, Apart;
      var h := HashId(s.id, singlemote);
      ghost var before := samples;
      if period == 0 || s.time < periodEnd {
        var c := CountSample(samples[h], s);
        samples := samples[h := c];
      }
      if Replays() {
        if stale && !tangled {
          ApartArrival(before, sampleq, singlemote, periodStart, periodEnd, enableData, s, samples);
        } else if !tangled {
          AgreesArrival(before, sampleq, singlemote, periodStart, periodEnd, enableData, s, samples);
        }
        sampleq := sampleq + [s];
      }
      if period != 0 && s.time >= periodEnd {
        alarm := true;
      }
    }

    /** Add one sample to a counter. */
    method CountSample(c0: Counter, s: Sample) returns (c: Counter)
      requires c0.Ok()
      ensures c == Accumulate(c0, s, enableData)
    {
      c := c0;
      if c.nsamps == 0 {
        c := c.(t1s := s.time, minDelta := INT_MAX, maxDelta := INT_MIN);
      } else {
        var d := DeltaT(c.t2s, s.time);
        c := c.(minDelta := Min(c.minDelta, d), maxDelta := Max(c.maxDelta, d));
      }
      c := c.(t2s := s.time, totalBytes := c.totalBytes + s.bytes);
      if c.nsamps == 0 {
        c := c.(minlens := s.bytes, maxlens := s.bytes);
      } else {
        c := c.(minlens := Min(c.minlens, s.bytes), maxlens := Max(c.maxlens, s.bytes));
      }
      c := c.(nsamps := c.nsamps + 1);
      c := AccumulateData(c, s, enableData);
    }

    /** Drop what precedes the period from the queue. */
    method DropBefore(start: int)
      modifies this`sampleq
      ensures sampleq == Kept(old(sampleq), start)
    {
      var kept: seq<Sample> := [];
      for i := 0 to |sampleq|
        invariant sampleq == old(sampleq) && kept == Kept(sampleq[..i], start)
      {
        assert sampleq[..i + 1][..i] == sampleq[..i];
        if !(sampleq[i].time < start) { kept := kept + [sampleq[i]]; }
      }
      assert sampleq[..|sampleq|] == sampleq;
      sampleq := kept;
    }

    /** Feed the queue to reset counters. */
    method Replay(start: int, end: int) returns (earliest: int)
      requires forall k :: 0 <= k < |sampleq| ==> HashId(sampleq[k].id, singlemote) in samples && sampleq[k].time >= start
      requires forall key :: key in samples ==> samples[key] == Empty()
      modifies this`samples
      ensures Agrees(samples, sampleq, singlemote, start, end, enableData)
      ensures samples.Keys == old(samples.Keys) && forall key :: key in samples ==> samples[key].Ok()
      ensures IsEarliest(sampleq, earliest)
    {
      hide HashId, Fold, Mine, Accumulate, Agrees, Apart, Kept;
      EmptyCountersAgree(samples, singlemote, start, end, enableData);
      earliest := T.MAX_TIME;
      for i := 0 to |sampleq|
        invariant samples.Keys == old(samples.Keys) && forall key :: key in samples ==> samples[key].Ok()
        invariant Agrees(samples, sampleq[..i], singlemote, start, end, enableData)
        invariant IsEarliest(sampleq[..i], earliest)
      {
        var samp := sampleq[i];
        ghost var before := samples;
        if samp.time < end {
          var h := HashId(samp.id, singlemote);
          var c := CountSample(samples[h], samp);
          samples := samples[h := c];
        }
        AgreesArrival(before, sampleq[..i], singlemote, start, end, enableData, samp, samples);
        assert sampleq[..i + 1] == sampleq[..i] + [samp];
        EarliestSnoc(sampleq[..i], earliest, samp);
        if samp.time < earliest { earliest := samp.time; }
      }
      assert sampleq[..|sampleq|] == sampleq;
    }

    /** Drop what precedes the period, reset every counter, and replay the rest of the queue. */
    method RestartStats(start: int, end: int) returns (earliest: int)
      requires forall k :: 0 <= k < |sampleq| ==> HashId(sampleq[k].id, singlemote) in samples
      modifies this`samples, this`sampleq
      ensures sampleq == Kept(old(sampleq), start)
      ensures Agrees(samples, sampleq, singlemote, start, end, enableData)
      ensures samples.Keys == old(samples.Keys) && forall key :: key in samples ==> samples[key].Ok()
      ensures IsEarliest(sampleq, earliest)
    {
      hide HashId, Fold, Mine, Accumulate, Agrees, Apart, Kept, IsEarliest;
      KeptContents(sampleq, start);
      DropBefore(start);
      assert forall k :: 0 <= k < |sampleq| ==> sampleq[k] in Kept(old(sampleq), start);
      samples := map key | key in samples :: Empty();
      earliest := Replay(start, end);
    }

    /** The period after one update: the end moves on, and the start follows once the period is full. */
    function NextEnd(): int
      reads this
    {
      periodEnd + update * USECS_PER_SEC
    }

    function NextStart(): int
      reads this
    {
      Max(periodStart, NextEnd() - period * USECS_PER_SEC)
    }

    /** What a replay needs. */
    ghost predicate Replayable()
      reads this
    {
      && period >= 0 && update >= 0 && (period > 0 ==> update > 0) && (!Replays() ==> sampleq == [])
      && HasCounters() && (forall key :: key in samples ==> HashId(key, singlemote) == key)
    }

    /** Rebuild the counters for the period that has just been set. */
    method Rebuild() returns (earliest: int)
      requires Replayable()
      modifies this`samples, this`sampleq, this`stale, this`tangled
      ensures Valid() && !stale && !tangled && samples.Keys == old(samples.Keys)
      ensures sampleq == Kept(old(sampleq), periodStart) && IsEarliest(sampleq, earliest)
      ensures forall s :: s in sampleq ==> s in old(sampleq)
    {
      hide HashId, Fold, Mine, Accumulate, Agrees, Apart, Round, IsEarliest, Kept;
      KeptContents(sampleq, periodStart);
      earliest := RestartStats(periodStart, periodEnd);
      stale, tangled := false, false;
      AgreesHasCounters(samples, sampleq, singlemote, periodStart, periodEnd, enableData);
      assert forall key :: key in samples ==> key in old(samples);
      assert sampleq != [] ==> sampleq[0] in old(sampleq);
    }

    /** No queued sample has an unset time. */
    ghost predicate TagsSet()
      reads this
    {
      forall s :: s in sampleq ==> s.time > T.MIN_TIME
    }

    /**
     Advance to the next period, with the counters rebuilt. In real time, a period that has
     fallen behind both the queue and the clock is started anew at the earliest queued
     sample, or now; unless the start is rounded, that loses no sample.
     */
    method AdvanceStats(now: int) returns (ghost next: int)
      requires Valid() && T.MIN_TIME < now < T.MAX_TIME
      modifies this`samples, this`sampleq, this`periodStart, this`periodEnd, this`stale, this`tangled
      ensures Valid()
      ensures samples.Keys == old(samples.Keys)
      ensures old(periodStart) == 0 ==> samples == old(samples) && sampleq == old(sampleq)
      ensures old(periodStart) == 0 && realtime ==> periodStart == StartFor(now) && periodEnd == FirstEnd(periodStart)
      ensures (old(periodStart) == 0 && !realtime) || (old(periodStart) != 0 && period == 0) ==>
                samples == old(samples) && sampleq == old(sampleq) && periodStart == old(periodStart) && periodEnd == old(periodEnd)
      ensures old(periodStart) != 0 && period > 0 ==>
                !stale && !tangled && IsEarliest(Kept(old(sampleq), old(NextStart())), next)
      ensures old(periodStart) != 0 && period > 0 ==>
                var behind := realtime && (if T.IsSet(next) then next >= old(NextEnd()) else now >= old(NextEnd()));
                periodStart == (if !behind then old(NextStart()) else if T.IsSet(next) then StartFor(next) else StartFor(now)) &&
                periodEnd == (if behind then FirstEnd(periodStart) else old(NextEnd()))
      ensures old(periodStart) != 0 && period > 0 && (!realtime || (roundSecs == 0 && old(TagsSet()))) ==>
                sampleq == Kept(old(sampleq), old(NextStart()))
      ensures old(AfterEpoch()) && (realtime ==> StartFor(now) > 0) ==> AfterEpoch()
      ensures old(FromEpoch()) && (realtime ==> StartFor(now) >= 0) ==> FromEpoch()
    {
      hide HashId, Fold, Mine, Accumulate, Agrees, Apart, Kept, Round, IsEarliest;
      next := T.MAX_TIME;
      if periodStart == 0 {
        if realtime {
          Begin(now);
        }
        return;
      }
      if period == 0 {
        return;
      }
      periodEnd := periodEnd + update * USECS_PER_SEC;
      if periodEnd - period * USECS_PER_SEC > periodStart {
        periodStart := periodEnd - period * USECS_PER_SEC;
      }
      var earliest := Rebuild();
      next := earliest;
      assert old(AfterEpoch()) ==> AfterEpoch();
      assert old(FromEpoch()) ==> FromEpoch();
      assert old(TagsSet()) ==> TagsSet();
      if !realtime {
        return;
      }
      ResetStart(earliest, now);
    }

    /** The clock tells a time. */
    ghost predicate Possible(e: Event) {
      e.Advance? ==> T.MIN_TIME < e.now < T.MAX_TIME
    }

    /** A period that the event starts would start after time zero. */
    ghost predicate StartsAfterEpoch(e: Event) {
      match e
      case Arrival(s, matched) => matched ==> StartFor(s.time) > 0
      case Advance(now) => realtime ==> StartFor(now) > 0
    }

    /** A period that the event starts would not start before time zero. */
    ghost predicate StartsFromEpoch(e: Event) {
      match e
      case Arrival(s, matched) => matched ==> StartFor(s.time) >= 0
      case Advance(now) => realtime ==> StartFor(now) >= 0
    }

    /** The period is the one reached from a first period at `start` by `k` advances. */
    ghost predicate AtWindow(start: int, k: nat)
      reads this
    {
      start > 0 && (periodStart, periodEnd) == Window(start, update * USECS_PER_SEC, period * USECS_PER_SEC, k)
    }

    lemma {:induction false} WindowAfterEpoch(start: int, k: nat)
      requires AtWindow(start, k)
      ensures periodStart > 0
    {
      WindowNotBefore(start, update * USECS_PER_SEC, period * USECS_PER_SEC, k);
    }

    /**
     Any interleaving of arrivals and advances keeps the counters in agreement with the
     queue exactly as long as they are not stale, which they become only when a period
     that starts at time zero is moved over queued samples; and it keeps the period on
     its course.
     */
    method Run(events: seq<Event>, ghost start: int, ghost k: nat)
      requires Valid() && forall i :: 0 <= i < |events| ==> Possible(events[i])
      modifies this
      ensures Valid()
      ensures old(AfterEpoch()) && (forall i :: 0 <= i < |events| ==> StartsAfterEpoch(events[i])) ==> Replays() ==> Agreed()
      ensures old(FromEpoch()) && (forall i :: 0 <= i < |events| ==> StartsFromEpoch(events[i])) ==> Replays() ==> (stale <==> !Agreed())
      ensures !realtime && period > 0 && old(AtWindow(start, k)) ==> AtWindow(start, k + Advances(events))
    {
      hide HashId, Kept, Accumulate, StartFor, FirstEnd, Unmoved, Valid, AfterEpoch, FromEpoch, Agreed, HasCounters;
      ghost var proper := AfterEpoch() && forall i :: 0 <= i < |events| ==> StartsAfterEpoch(events[i]);
      ghost var fromEpoch := FromEpoch() && forall i :: 0 <= i < |events| ==> StartsFromEpoch(events[i]);
      for i := 0 to |events|
        invariant Valid() && (proper ==> AfterEpoch()) && (fromEpoch ==> FromEpoch())
        invariant !realtime && period > 0 && old(AtWindow(start, k)) ==> AtWindow(start, k + Advances(events[..i]))
      {
        assert events[..i + 1][..i] == events[..i];
        if !realtime && period > 0 && old(AtWindow(start, k)) { WindowAfterEpoch(start, k + Advances(events[..i])); }
        match events[i] {
          case Arrival(s, matched) => var taken := Receive(s, matched);
          case Advance(now) => ghost var next := AdvanceStats(now);
        }
      }
      assert events[..|events|] == events;
      if proper && Replays() { AfterEpochAgreed(); }
      if fromEpoch && Replays() { FromEpochExact(); }
    }

    lemma {:induction false} AfterEpochAgreed()
      requires Valid() && AfterEpoch() && Replays()
      ensures Agreed()
    {
    }

    lemma {:induction false} FromEpochExact()
      requires Valid() && FromEpoch() && Replays()
      ensures stale <==> !Agreed()
    {
      StaleIsDisagreement();
    }

    /** Start the period anew if it has fallen behind. */
    method ResetStart(next0: int, now: int)
      requires Valid() && !stale && !tangled && IsEarliest(sampleq, next0) && T.MIN_TIME < now < T.MAX_TIME
      modifies this`samples, this`sampleq, this`periodStart, this`periodEnd, this`stale, this`tangled
      ensures Valid() && !stale && !tangled && samples.Keys == old(samples.Keys)
      ensures roundSecs == 0 && old(TagsSet()) ==> sampleq == old(sampleq)
      ensures var behind := if T.IsSet(next0) then next0 >= old(periodEnd) else now >= old(periodEnd);
        && periodStart == (if !behind then old(periodStart) else if T.IsSet(next0) then StartFor(next0) else StartFor(now))
        && periodEnd == (if behind then FirstEnd(periodStart) else old(periodEnd))
      ensures old(AfterEpoch()) && StartFor(now) > 0 ==> AfterEpoch()
      ensures old(FromEpoch()) && StartFor(now) >= 0 ==> FromEpoch()
    {
      hide HashId, Fold, Mine, Accumulate, Agrees, Apart, Kept, Round;
      var next := next0;
      if T.IsSet(next) && next >= periodEnd {
        assert exists k :: 0 <= k < |sampleq| && sampleq[k].time == next;
        assert AfterEpoch() ==> StartFor(next) > 0;
        assert FromEpoch() ==> StartFor(next) >= 0;
      } else if !T.IsSet(next) && now >= periodEnd {
        next := now;
      } else {
        next := T.MIN_TIME;
      }
      if T.IsSet(next) {
        SetStart(next);
        if roundSecs == 0 && TagsSet() {
          RoundNot(next);
          KeptAll(sampleq, periodStart);
        }
        var ignored := Rebuild();
      }
    }
  }

  /**
   A period that starts at time zero is taken for one that has not started: the next
   sample starts it again, and the counter then holds a sample that precedes the period.
   */
  method EpochIsNoStart(a: Sample, b: Sample) returns (d: DataStats)
    requires a.id == b.id && a.time == 0 && b.time > 0
    ensures d.Valid() && d.Replays() && d.stale
    ensures var h := HashId(a.id, false);
      && h in d.samples
      && d.samples[h] != Fold(Mine(d.sampleq, h, false, d.periodStart, d.periodEnd), false)
  {
    hide HashId, Agrees, Apart, Accumulate, Fold;
    d := new DataStats(10, 10, 0, false, false, false, 0, []);
    var h := HashId(a.id, false);
    var first := d.Receive(a, true);
    var second := d.Receive(b, true);
    AccumulateScalars(Empty(), a, false);
    AccumulateScalars(Accumulate(Empty(), a, false), b, false);
    assert d.sampleq == [] + [a] + [b];
    MineSnoc([] + [a], b, h, false, d.periodStart, d.periodEnd);
    MineSnoc([], a, h, false, d.periodStart, d.periodEnd);
    FoldSnoc([], b, false);
    AccumulateScalars(Empty(), b, false);
  }

  lemma {:induction false} AgreesHasCounters(samples: map<Id, Counter>, q: seq<Sample>, singlemote: bool, start: int, end: int, enableData: bool)
    requires Agrees(samples, q, singlemote, start, end, enableData)
    ensures forall k :: 0 <= k < |q| ==> HashId(q[k].id, singlemote) in samples
  {
    hide HashId, Fold, Mine;
  }

  lemma {:induction false} AgreesNotBefore(samples: map<Id, Counter>, q: seq<Sample>, singlemote: bool, start: int, end: int, enableData: bool)
    requires Agrees(samples, q, singlemote, start, end, enableData)
    ensures forall k :: 0 <= k < |q| ==> q[k].time >= start
  {
    hide HashId, Fold, Mine;
  }

  lemma {:induction false} RoundNot(t: int)
    ensures Round(t, 0) == t
  {
  }

  lemma {:induction false} KeptAll(q: seq<Sample>, start: int)
    requires forall k :: 0 <= k < |q| ==> q[k].time >= start
    ensures Kept(q, start) == q
  {
    if q != [] { KeptAll(q[..|q| - 1], start); }
  }

  /** The earliest time in the queue, or the largest time when it is empty. */
  ghost predicate IsEarliest(q: seq<Sample>, t: int) {
    && t <= T.MAX_TIME
    && (forall k :: 0 <= k < |q| ==> t <= q[k].time)
    && (t == T.MAX_TIME || exists k :: 0 <= k < |q| && q[k].time == t)
  }

  lemma {:induction false} EarliestSnoc(q: seq<Sample>, t: int, s: Sample)
    requires IsEarliest(q, t)
    ensures IsEarliest(q + [s], if s.time < t then s.time else t)
  {
    var r := q + [s];
    assert r[|q|] == s;
    if t != T.MAX_TIME {
      var k :| 0 <= k < |q| && q[k].time == t;
      assert r[k].time == t;
    }
  }

  lemma {:induction false} EmptyCountersAgree(samples: map<Id, Counter>, singlemote: bool, start: int, end: int, enableData: bool)
    requires forall key :: key in samples ==> samples[key] == Empty()
    ensures Agrees(samples, [], singlemote, start, end, enableData)
  {
    hide HashId;
    FoldEmpty(enableData);
    assert forall key :: key in samples ==> Mine([], key, singlemote, start, end) == [];
  }

  // ------------------------------------------------------------------ the window law

  /** Start and end of the period after `k` advances that are not reset, from the first period at `start`. */
  ghost function Window(start: int, update: int, period: int, k: nat): (int, int) {
    if k == 0 then (start, start + Min(update, period))
    else
      var (s, e) := Window(start, update, period, k - 1);
      (Max(s, e + update - period), e + update)
  }

  /** `a` times `u`, by repeated addition. */
  ghost function Times(a: nat, u: int): int { if a == 0 then 0 else Times(a - 1, u) + u }

  lemma {:induction false} TimesIsProduct(a: nat, u: int)
    ensures Times(a, u) == a * u
  {
    if a > 0 {
      TimesIsProduct(a - 1, u);
      assert a * u == (a - 1) * u + u;
    }
  }

  lemma {:induction false} TimesAdds(a: nat, b: nat, u: int)
    ensures Times(a + b, u) == Times(a, u) + Times(b, u)
  {
    if b > 0 { TimesAdds(a, b - 1, u); }
  }

  lemma {:induction false} TimesMonotone(a: nat, b: nat, u: nat)
    requires a <= b
    ensures Times(a, u) <= Times(b, u)
  {
    if a < b { TimesMonotone(a, b - 1, u); }
  }

  lemma {:induction false} WindowTimes(start: int, update: int, period: int, k: nat)
    requires 0 < update <= period
    ensures Window(start, update, period, k) == (Max(start, start + Times(k + 1, update) - period), start + Times(k + 1, update))
  {
    if k > 0 { WindowTimes(start, update, period, k - 1); }
  }

  /** The end moves on by one update each time; the start stays until the period is full and then follows. */
  lemma {:induction false} WindowLaw(start: int, update: int, period: int, k: nat)
    requires 0 < update <= period
    ensures Window(start, update, period, k) == (Max(start, start + (k + 1) * update - period), start + (k + 1) * update)
  {
    WindowTimes(start, update, period, k);
    TimesIsProduct(k + 1, update);
  }

  /** A later window never starts earlier: what has been dropped from the queue is in no later window. */
  lemma {:induction false} WindowsOnlyMoveOn(start: int, update: int, period: int, j: nat, k: nat)
    requires 0 < update <= period && j <= k
    ensures Window(start, update, period, j).0 <= Window(start, update, period, k).0
  {
    WindowTimes(start, update, period, j);
    WindowTimes(start, update, period, k);
    TimesMonotone(j + 1, k + 1, update);
  }

  /** No sample is dropped from the queue while a later window could hold it. */
  lemma {:induction false} NothingDroppedTooEarly(q: seq<Sample>, key: Id, singlemote: bool, start: int, update: int, period: int, j: nat, k: nat)
    requires 0 < update <= period && j <= k
    ensures var lo := Window(start, update, period, j).0;
            var (from, end) := Window(start, update, period, k);
            Mine(Kept(q, lo), key, singlemote, from, end) == Mine(q, key, singlemote, from, end)
  {
    hide Mine, Kept, Window;
    WindowsOnlyMoveOn(start, update, period, j, k);
    var w := Window(start, update, period, k);
    MineOfKept(q, key, singlemote, Window(start, update, period, j).0, w.0, w.1);
  }

  lemma {:induction false} WindowNotBefore(start: int, update: int, period: int, k: nat)
    ensures Window(start, update, period, k).0 >= start
  {
    if k > 0 { WindowNotBefore(start, update, period, k - 1); }
  }

  ghost predicate InWindow(t: int, w: (int, int)) { w.0 <= t < w.1 }

  /** When the update divides the period, every time from the start on is in exactly period/update consecutive windows. */
  lemma {:induction false} WindowsCoverEachTime(start: int, update: int, m: nat, t: int, k: nat)
    requires update > 0 && m > 0 && t >= start
    ensures InWindow(t, Window(start, update, Times(m, update), k)) <==> (t - start) / update <= k < (t - start) / update + m
  {
    hide Times, Window, InWindow;
    QuotientTimes(t - start, update);
    WindowsCover(start, update, m, t, k, (t - start) / update);
  }

  lemma {:induction false} WindowsCover(start: int, update: nat, m: nat, t: int, k: nat, q: nat)
    requires update > 0 && m > 0 && Times(q, update) <= t - start < Times(q + 1, update)
    ensures InWindow(t, Window(start, update, Times(m, update), k)) <==> q <= k < q + m
  {
    hide Times, Window;
    TimesOne(update);
    TimesMonotone(0, q, update);
    TimesMonotone(1, m, update);
    WindowTimes(start, update, Times(m, update), k);
    if q <= k { TimesMonotone(q + 1, k + 1, update); } else { TimesMonotone(k + 1, q, update); }
    TimesAdds(q, m, update);
    TimesAdds(q, m + 1, update);
    TimesSucc(m, update);
    TimesSucc(q, update);
    if k < q + m { TimesMonotone(k + 1, q + m, update); } else { TimesMonotone(q + m + 1, k + 1, update); }
  }

  lemma {:induction false} TimesOne(u: int)
    ensures Times(0, u) == 0 && Times(1, u) == u
  {
  }

  lemma {:induction false} TimesSucc(a: nat, u: int)
    ensures Times(a + 1, u) == Times(a, u) + u
  {
  }

  lemma {:induction false} QuotientTimes(d: nat, u: nat)
    requires u > 0
    ensures Times(d / u, u) <= d < Times(d / u + 1, u)
  {
    TimesIsProduct(d / u, u);
  }
}
