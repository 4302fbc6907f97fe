/**
 The read-ahead merge of `nidsmerge`: N loosely ordered inputs are read window by
 window into a sorted set, and everything older than the window is written out.
 */
module Merge {
  import opened Samples
  import opened UTime

  /** One sample of an input archive, and whether the sample matcher selects it. */
  datatype Item = Item(samp: Sample, matched: bool)

  /** Read position, latest time tag and end-of-file state of one input. */
  datatype InputInfo = InputInfo(pos: nat, lastTime: int, eof: bool)

  // ---------------------------------------------------------------- the ledger

  datatype Fate = Inserted | Duplicate | NonIncreasingDuplicate

  /**
   What became of one accepted sample: `tag` is the copy offered to the sorter, `orig` the
   sample as read. So many samples had been written and clipped by then.
   */
  datatype Entry = Entry(input: nat, orig: Sample, tag: Sample, fate: Fate, nwritten: nat, nclipped: nat) {
    predicate Submitted() { fate != NonIncreasingDuplicate }
    predicate SameKey(e: Entry) { input == e.input && orig.id == e.orig.id }
    /** This entry put a copy of `s` with a later tag into the sorter, or found one there. */
    predicate Moved(s: Sample) { Submitted() && orig == s && tag.time > s.time }
    predicate MovedPast(e: Entry) {
      e.Submitted() && e.SameKey(this) && orig.time <= e.tag.time && tag.time == e.tag.time + 1
    }
  }

  /** The matched samples of `items` that do not precede `start`, in order. */
  ghost function Accepted(items: seq<Item>, start: int): seq<Sample> {
    if items == [] then []
    else
      var it := items[|items| - 1];
      Accepted(items[..|items| - 1], start) + (if it.matched && it.samp.time >= start then [it.samp] else [])
  }

  /** The samples of input `i` recorded in the ledger, as read and in order. */
  ghost function OrigsOf(ledger: seq<Entry>, i: nat): seq<Sample> {
    if ledger == [] then []
    else
      var e := ledger[|ledger| - 1];
      OrigsOf(ledger[..|ledger| - 1], i) + (if e.input == i then [e.orig] else [])
  }

  /** The tagged samples that were inserted into the sorter, in order. */
  ghost function InsertedOf(ledger: seq<Entry>): seq<Sample> {
    if ledger == [] then []
    else
      var e := ledger[|ledger| - 1];
      InsertedOf(ledger[..|ledger| - 1]) + (if e.fate == Inserted then [e.tag] else [])
  }

  lemma {:induction false} LedgerSnoc(ledger: seq<Entry>, e: Entry, i: nat)
    ensures OrigsOf(ledger + [e], i) == OrigsOf(ledger, i) + (if e.input == i then [e.orig] else [])
    ensures InsertedOf(ledger + [e]) == InsertedOf(ledger) + (if e.fate == Inserted then [e.tag] else [])
  {
    assert (ledger + [e])[..|ledger|] == ledger;
  }

  lemma {:induction false} InsertedOfFrom(ledger: seq<Entry>, s: Sample) returns (k: nat)
    requires s in InsertedOf(ledger)
    ensures k < |ledger| && ledger[k].fate == Inserted && ledger[k].tag == s
  {
    k := |ledger| - 1;
    if !(ledger[k].fate == Inserted && ledger[k].tag == s) {
      k := InsertedOfFrom(ledger[..k], s);
    }
  }

  lemma {:induction false} InsertedOfHas(ledger: seq<Entry>, k: nat)
    requires k < |ledger| && ledger[k].fate == Inserted
    ensures ledger[k].tag in InsertedOf(ledger)
  {
    var n := |ledger| - 1;
    if k < n {
      InsertedOfHas(ledger[..n], k);
    }
  }

  lemma {:induction false} InsertedOfContains(ledger: seq<Entry>, s: Sample)
    ensures s in InsertedOf(ledger) <==> exists k :: 0 <= k < |ledger| && ledger[k].fate == Inserted && ledger[k].tag == s
  {
    hide InsertedOf;
    if s in InsertedOf(ledger) {
      var k := InsertedOfFrom(ledger, s);
    }
    if exists k :: 0 <= k < |ledger| && ledger[k].fate == Inserted && ledger[k].tag == s {
      var k :| 0 <= k < |ledger| && ledger[k].fate == Inserted && ledger[k].tag == s;
      InsertedOfHas(ledger, k);
    }
  }

  lemma {:induction false} OrigsOfFrom(ledger: seq<Entry>, i: nat, s: Sample) returns (k: nat)
    requires s in OrigsOf(ledger, i)
    ensures k < |ledger| && ledger[k].input == i && ledger[k].orig == s
  {
    k := |ledger| - 1;
    if !(ledger[k].input == i && ledger[k].orig == s) {
      k := OrigsOfFrom(ledger[..k], i, s);
    }
  }

  lemma {:induction false} OrigsOfHas(ledger: seq<Entry>, i: nat, k: nat)
    requires k < |ledger| && ledger[k].input == i
    ensures ledger[k].orig in OrigsOf(ledger, i)
  {
    var n := |ledger| - 1;
    if k < n {
      OrigsOfHas(ledger[..n], i, k);
    }
  }

  lemma {:induction false} OrigsOfContains(ledger: seq<Entry>, i: nat, s: Sample)
    ensures s in OrigsOf(ledger, i) <==> exists k :: 0 <= k < |ledger| && ledger[k].input == i && ledger[k].orig == s
  {
    hide OrigsOf;
    if s in OrigsOf(ledger, i) {
      var k := OrigsOfFrom(ledger, i, s);
    }
    if exists k :: 0 <= k < |ledger| && ledger[k].input == i && ledger[k].orig == s {
      var k :| 0 <= k < |ledger| && ledger[k].input == i && ledger[k].orig == s;
      OrigsOfHas(ledger, i, k);
    }
  }

  lemma {:induction false} AcceptedFrom(items: seq<Item>, start: int, s: Sample) returns (k: nat)
    requires s in Accepted(items, start)
    ensures k < |items| && items[k].matched && items[k].samp == s && s.time >= start
  {
    k := |items| - 1;
    if !(items[k].matched && items[k].samp == s && s.time >= start) {
      k := AcceptedFrom(items[..k], start, s);
    }
  }

  lemma {:induction false} AcceptedHas(items: seq<Item>, start: int, k: nat)
    requires k < |items| && items[k].matched && items[k].samp.time >= start
    ensures items[k].samp in Accepted(items, start)
  {
    var n := |items| - 1;
    if k < n {
      AcceptedHas(items[..n], start, k);
    }
  }

  lemma {:induction false} AcceptedContains(items: seq<Item>, start: int, s: Sample)
    ensures s in Accepted(items, start) <==>
            s.time >= start && exists k :: 0 <= k < |items| && items[k].matched && items[k].samp == s
  {
    hide Accepted;
    if s in Accepted(items, start) {
      var k := AcceptedFrom(items, start, s);
    }
    if s.time >= start && exists k :: 0 <= k < |items| && items[k].matched && items[k].samp == s {
      var k :| 0 <= k < |items| && items[k].matched && items[k].samp == s;
      AcceptedHas(items, start, k);
    }
  }

  /** Raising the start to no more than any accepted time changes nothing. */
  lemma {:induction false} AcceptedRaise(items: seq<Item>, lo: int, hi: int)
    requires lo <= hi
    requires forall s :: s in Accepted(items, lo) ==> s.time >= hi
    ensures Accepted(items, hi) == Accepted(items, lo)
  {
    if items != [] {
      AcceptedRaise(items[..|items| - 1], lo, hi);
      var it := items[|items| - 1];
      if it.matched && it.samp.time >= lo { assert it.samp in Accepted(items, lo); }
    }
  }

  // ---------------------------------------------------- invariants of every run

  /** Positions stay inside their inputs, and an input at end of file has been read to its end. */
  ghost predicate InputsOk(source: seq<seq<Item>>, inputs: seq<InputInfo>) {
    |inputs| == |source| &&
    forall i :: 0 <= i < |source| ==>
      inputs[i].pos <= |source[i]| && (inputs[i].eof ==> inputs[i].pos == |source[i]|)
  }

  /** The ledger holds, input by input and in order, exactly the accepted samples read so far. */
  ghost predicate Accounted(source: seq<seq<Item>>, inputs: seq<InputInfo>, start: int, ledger: seq<Entry>)
    requires InputsOk(source, inputs)
  {
    (forall k :: 0 <= k < |ledger| ==> ledger[k].input < |source|) &&
    forall i :: 0 <= i < |source| ==> OrigsOf(ledger, i) == Accepted(source[i][..inputs[i].pos], start)
  }

  /** Every inserted sample is in exactly one place: written, clipped at the end time, or still in the sorter. */
  ghost predicate Conserved(ledger: seq<Entry>, out: seq<Sample>, clipped: seq<Sample>, sorter: seq<Sample>) {
    multiset(InsertedOf(ledger)) == multiset(out) + multiset(clipped) + multiset(sorter)
  }

  /** Only the time tag of a sample is ever changed, and only when forcing. */
  ghost predicate FatesOk(ledger: seq<Entry>, force: bool) {
    forall k :: 0 <= k < |ledger| ==>
      && ledger[k].tag == ledger[k].orig.(time := ledger[k].tag.time)
      && (!force ==> ledger[k].tag == ledger[k].orig && ledger[k].Submitted())
  }

  /** At the time of entry `k`, its tagged sample had been inserted more often than written or clipped: it was in the sorter. */
  ghost predicate HeldThen(ledger: seq<Entry>, k: nat, out: seq<Sample>, clipped: seq<Sample>)
    requires k < |ledger| && ledger[k].nwritten <= |out| && ledger[k].nclipped <= |clipped|
  {
    var e := ledger[k];
    multiset(InsertedOf(ledger[..k]))[e.tag] >
    multiset(out[..e.nwritten])[e.tag] + multiset(clipped[..e.nclipped])[e.tag]
  }

  /** A submitted sample was a duplicate if and only if an equal one was then in the sorter. */
  ghost predicate DuplicatesOk(ledger: seq<Entry>, out: seq<Sample>, clipped: seq<Sample>) {
    forall k :: 0 <= k < |ledger| ==>
      && ledger[k].nwritten <= |out| && ledger[k].nclipped <= |clipped|
      && (ledger[k].Submitted() ==> (ledger[k].fate == Duplicate <==> HeldThen(ledger, k, out, clipped)))
  }

  /** The same sample was offered before, with its tag moved. */
  ghost predicate MovedBefore(ledger: seq<Entry>, n: nat, s: Sample)
    requires n <= |ledger|
  {
    exists j :: 0 <= j < n && ledger[j].Moved(s)
  }

  /** Only samples whose like has gone on with a moved tag are in the non-increasing set or were discarded by it. */
  ghost predicate NonIncrOk(ledger: seq<Entry>, nonincr: seq<Sample>) {
    && (forall s :: s in nonincr ==> MovedBefore(ledger, |ledger|, s))
    && (forall k :: 0 <= k < |ledger| && ledger[k].fate == NonIncreasingDuplicate ==> MovedBefore(ledger, k, ledger[k].orig))
  }

  /** The tags offered to the sorter for one (input, sample id) strictly increase. */
  ghost predicate TagsIncrease(ledger: seq<Entry>) {
    forall j, k :: 0 <= j < k < |ledger| && ledger[j].Submitted() && ledger[k].Submitted() && ledger[j].SameKey(ledger[k])
      ==> ledger[j].tag.time < ledger[k].tag.time
  }

  /** A tag is never moved earlier, and a moved tag is one microsecond past an earlier tag that had reached the sample's time. */
  ghost predicate TagsMovedByOne(ledger: seq<Entry>) {
    forall k :: 0 <= k < |ledger| && ledger[k].Submitted() && ledger[k].tag != ledger[k].orig ==>
      exists j :: 0 <= j < k && ledger[k].MovedPast(ledger[j])
  }

  /** The last-time map holds, for each (input, sample id), the largest tag offered so far. */
  ghost predicate LastTimesOk(ledger: seq<Entry>, last: map<(nat, nat), int>) {
    (forall k :: 0 <= k < |ledger| && ledger[k].Submitted() ==>
       (ledger[k].input, ledger[k].orig.id) in last &&
       ledger[k].tag.time <= last[(ledger[k].input, ledger[k].orig.id)]) &&
    forall key :: key in last ==>
      exists k :: 0 <= k < |ledger| && ledger[k].Submitted() &&
                  key == (ledger[k].input, ledger[k].orig.id) && ledger[k].tag.time == last[key]
  }

  /** The parts of the invariant that speak of the ledger. */
  ghost predicate LedgerOk(ledger: seq<Entry>, out: seq<Sample>, clipped: seq<Sample>, sorter: seq<Sample>,
                           last: map<(nat, nat), int>, force: bool)
  {
    && Conserved(ledger, out, clipped, sorter)
    && FatesOk(ledger, force)
    && DuplicatesOk(ledger, out, clipped)
    && LastTimesOk(ledger, last)
    && (force ==> TagsIncrease(ledger) && TagsMovedByOne(ledger))
  }

  lemma {:induction false} FatesSnoc(ledger: seq<Entry>, e: Entry, force: bool)
    requires FatesOk(ledger, force)
    requires e.tag == e.orig.(time := e.tag.time)
    requires !force ==> e.tag == e.orig && e.Submitted()
    ensures FatesOk(ledger + [e], force)
  {
  }

  lemma {:induction false} DuplicatesSnoc(ledger: seq<Entry>, e: Entry, out: seq<Sample>, clipped: seq<Sample>, sorter: seq<Sample>)
    requires Conserved(ledger, out, clipped, sorter) && DuplicatesOk(ledger, out, clipped)
    requires e.nwritten == |out| && e.nclipped == |clipped|
    requires e.Submitted() ==> e.fate == if e.tag in sorter then Duplicate else Inserted
    ensures DuplicatesOk(ledger + [e], out, clipped)
  {
    hide InsertedOf;
    var l := ledger + [e];
    forall k | 0 <= k < |ledger|
      ensures l[k] == ledger[k] && l[..k] == ledger[..k]
    {
    }
    assert l[..|ledger|] == ledger && out[..|out|] == out && clipped[..|clipped|] == clipped;
    assert e.tag in sorter <==> multiset(sorter)[e.tag] > 0;
  }

  lemma {:induction false} DuplicatesFlush(ledger: seq<Entry>, out: seq<Sample>, clipped: seq<Sample>, out': seq<Sample>, clipped': seq<Sample>)
    requires DuplicatesOk(ledger, out, clipped) && out <= out' && clipped <= clipped'
    ensures DuplicatesOk(ledger, out', clipped')
  {
    hide InsertedOf;
    forall k | 0 <= k < |ledger|
      ensures out'[..ledger[k].nwritten] == out[..ledger[k].nwritten] && clipped'[..ledger[k].nclipped] == clipped[..ledger[k].nclipped]
    {
    }
  }

  lemma {:induction false} MovedSnoc(ledger: seq<Entry>, e: Entry, n: nat, s: Sample)
    requires n <= |ledger| && MovedBefore(ledger, n, s)
    ensures MovedBefore(ledger + [e], n, s)
  {
    var j :| 0 <= j < n && ledger[j].Moved(s);
    assert (ledger + [e])[j].Moved(s);
  }

  lemma {:induction false} NonIncrSnoc(ledger: seq<Entry>, nonincr: seq<Sample>, e: Entry, nonincr': seq<Sample>)
    requires NonIncrOk(ledger, nonincr)
    requires e.fate == NonIncreasingDuplicate ==> e.orig in nonincr
    requires forall s :: s in nonincr' ==> s in nonincr || e.Moved(s)
    ensures NonIncrOk(ledger + [e], nonincr')
  {
    hide MovedBefore;
    var l := ledger + [e];
    forall s | s in nonincr'
      ensures MovedBefore(l, |l|, s)
    {
      if s in nonincr { MovedSnoc(ledger, e, |ledger|, s); MovedLater(l, |ledger|, s); } else { MovedNow(ledger, e, s); }
    }
    forall k | 0 <= k < |l| && l[k].fate == NonIncreasingDuplicate
      ensures MovedBefore(l, k, l[k].orig)
    {
      if k < |ledger| { assert l[k] == ledger[k]; }
      MovedSnoc(ledger, e, k, l[k].orig);
    }
  }

  lemma {:induction false} MovedLater(ledger: seq<Entry>, n: nat, s: Sample)
    requires n <= |ledger| && MovedBefore(ledger, n, s)
    ensures MovedBefore(ledger, |ledger|, s)
  {
  }

  lemma {:induction false} MovedNow(ledger: seq<Entry>, e: Entry, s: Sample)
    requires e.Moved(s)
    ensures MovedBefore(ledger + [e], |ledger| + 1, s)
  {
    assert (ledger + [e])[|ledger|].Moved(s);
  }

  lemma {:induction false} LastTimesSnoc(ledger: seq<Entry>, last: map<(nat, nat), int>, e: Entry, last': map<(nat, nat), int>)
    requires LastTimesOk(ledger, last)
    requires var key := (e.input, e.orig.id);
      if !e.Submitted() || (key in last && e.tag.time <= last[key]) then last' == last else last' == last[key := e.tag.time]
    ensures LastTimesOk(ledger + [e], last')
  {
    var l := ledger + [e];
    forall key | key in last'
      ensures exists k :: 0 <= k < |l| && l[k].Submitted() && key == (l[k].input, l[k].orig.id) && l[k].tag.time == last'[key]
    {
      if last' != last && key == (e.input, e.orig.id) {
        assert l[|ledger|] == e;
      } else {
        var k :| 0 <= k < |ledger| && ledger[k].Submitted() && key == (ledger[k].input, ledger[k].orig.id)
                 && ledger[k].tag.time == last[key];
        assert l[k] == ledger[k];
      }
    }
  }

  /** How the tag of a forced submission follows from the last-time map. */
  ghost predicate ForcedTag(last: map<(nat, nat), int>, e: Entry) {
    var key := (e.input, e.orig.id);
    if key in last && e.orig.time <= last[key] then e.tag.time == last[key] + 1 else e.tag == e.orig
  }

  lemma {:induction false} TagsIncreaseSnoc(ledger: seq<Entry>, last: map<(nat, nat), int>, e: Entry)
    requires TagsIncrease(ledger) && LastTimesOk(ledger, last)
    requires e.Submitted() ==> ForcedTag(last, e)
    ensures TagsIncrease(ledger + [e])
  {
    forall j | 0 <= j < |ledger| && ledger[j].Submitted() && e.Submitted() && ledger[j].SameKey(e)
      ensures ledger[j].tag.time < e.tag.time
    {
      assert (ledger[j].input, ledger[j].orig.id) == (e.input, e.orig.id);
    }
  }

  lemma {:induction false} TagsMovedSnoc(ledger: seq<Entry>, last: map<(nat, nat), int>, e: Entry)
    requires TagsMovedByOne(ledger) && LastTimesOk(ledger, last)
    requires e.Submitted() ==> ForcedTag(last, e)
    ensures TagsMovedByOne(ledger + [e])
  {
    var l := ledger + [e];
    forall k | 0 <= k < |l| && l[k].Submitted() && l[k].tag != l[k].orig
      ensures exists j :: 0 <= j < k && l[k].MovedPast(l[j])
    {
      if k < |ledger| {
        var j :| 0 <= j < k && ledger[k].MovedPast(ledger[j]);
        assert l[k].MovedPast(l[j]);
      } else {
        var key := (e.input, e.orig.id);
        var j :| 0 <= j < |ledger| && ledger[j].Submitted() && key == (ledger[j].input, ledger[j].orig.id)
                 && ledger[j].tag.time == last[key];
        assert l[k].MovedPast(l[j]);
      }
    }
  }

  /** Recording one more accepted sample keeps the ledger's invariant. */
  lemma {:induction false} LedgerExtend(ledger: seq<Entry>, out: seq<Sample>, clipped: seq<Sample>, sorter: seq<Sample>,
                     last: map<(nat, nat), int>, force: bool, e: Entry, sorter': seq<Sample>, last': map<(nat, nat), int>)
    requires LedgerOk(ledger, out, clipped, sorter, last, force) && Sorted(sorter)
    requires e.tag == e.orig.(time := e.tag.time)
    requires !force ==> e.tag == e.orig && e.Submitted()
    requires e.Submitted() ==> e.fate == if e.tag in sorter then Duplicate else Inserted
    requires e.nwritten == |out| && e.nclipped == |clipped|
    requires sorter' == if e.Submitted() then Insert(sorter, e.tag) else sorter
    requires var key := (e.input, e.orig.id);
      if !e.Submitted() || (key in last && e.tag.time <= last[key]) then last' == last else last' == last[key := e.tag.time]
    requires force && e.Submitted() ==> ForcedTag(last, e)
    ensures LedgerOk(ledger + [e], out, clipped, sorter', last', force)
  {
    hide Insert, InsertedOf, Conserved, FatesOk, DuplicatesOk, LastTimesOk, TagsIncrease, TagsMovedByOne, ForcedTag, Sorted;
    ConservedSnoc(ledger, out, clipped, sorter, e, sorter');
    FatesSnoc(ledger, e, force);
    DuplicatesSnoc(ledger, e, out, clipped, sorter);
    LastTimesSnoc(ledger, last, e, last');
    if force {
      TagsIncreaseSnoc(ledger, last, e);
      TagsMovedSnoc(ledger, last, e);
    }
  }

  lemma {:induction false} ConservedSnoc(ledger: seq<Entry>, out: seq<Sample>, clipped: seq<Sample>, sorter: seq<Sample>, e: Entry, sorter': seq<Sample>)
    requires Conserved(ledger, out, clipped, sorter) && Sorted(sorter)
    requires e.Submitted() ==> e.fate == if e.tag in sorter then Duplicate else Inserted
    requires sorter' == if e.Submitted() then Insert(sorter, e.tag) else sorter
    ensures Conserved(ledger + [e], out, clipped, sorter')
  {
    hide Insert, InsertedOf, Sorted;
    InsertIsSetInsertion(sorter, e.tag);
    LedgerSnoc(ledger, e, 0);
  }

  // ------------------------------------------------------- what the merge is for

  /** In one input, a later matched sample is at most `readAhead` older than an earlier one. */
  ghost predicate BoundedDisorder(source: seq<seq<Item>>, readAhead: int) {
    forall i, j, k :: 0 <= i < |source| && 0 <= j < k < |source[i]| && source[i][j].matched && source[i][k].matched
      ==> source[i][k].samp.time >= source[i][j].samp.time - readAhead
  }

  /** Sample `s` is a matched sample of some input within [lo, hi), where an unset `hi` is no bound. */
  ghost predicate Wanted(source: seq<seq<Item>>, lo: int, hi: int, s: Sample) {
    lo <= s.time && (IsSet(hi) ==> s.time < hi) &&
    exists i, k :: 0 <= i < |source| && 0 <= k < |source[i]| && source[i][k].matched && source[i][k].samp == s
  }

  /** The offline definition: `out` lists the wanted samples, each once, in increasing order. */
  ghost predicate IsMergeOf(out: seq<Sample>, source: seq<seq<Item>>, lo: int, hi: int) {
    Sorted(out) && forall s :: s in out <==> Wanted(source, lo, hi, s)
  }

  /** The offline merge is unique, so it determines the output file. */
  lemma {:induction false} MergeIsUnique(a: seq<Sample>, b: seq<Sample>, source: seq<seq<Item>>, lo: int, hi: int)
    requires IsMergeOf(a, source, lo, hi) && IsMergeOf(b, source, lo, hi)
    ensures a == b
  {
    forall s ensures s in a <==> s in b { assert s in a <==> Wanted(source, lo, hi, s); }
    SortedUnique(a, b);
  }

  // ------------------------------------------- invariants of bounded-disorder runs

  /** Nothing unread precedes `t`. */
  ghost predicate UnreadAbove(source: seq<seq<Item>>, inputs: seq<InputInfo>, t: int)
    requires InputsOk(source, inputs)
  {
    forall i, k :: 0 <= i < |source| && inputs[i].pos <= k < |source[i]| && source[i][k].matched
      ==> source[i][k].samp.time >= t
  }

  /** `lastTime` of an open input is the tag of a sample already read, or still at its initial value. */
  ghost predicate LastSeen(items: seq<Item>, info: InputInfo)
    requires info.pos <= |items|
  {
    info.eof || info.lastTime == MIN_TIME ||
    exists k :: 0 <= k < info.pos && items[k].matched && items[k].samp.time == info.lastTime
  }

  /** Everything written precedes `floor`; everything held or still to be read does not. */
  ghost predicate Ordered(source: seq<seq<Item>>, inputs: seq<InputInfo>, out: seq<Sample>, sorter: seq<Sample>, floor: int)
    requires InputsOk(source, inputs)
  {
    && Sorted(out)
    && (forall k :: 0 <= k < |out| ==> out[k].time < floor)
    && (forall k :: 0 <= k < |sorter| ==> sorter[k].time >= floor)
    && UnreadAbove(source, inputs, floor)
    && forall i :: 0 <= i < |source| ==> LastSeen(source[i], inputs[i])
  }

  /** While the start time is unknown, the fill time is the earliest accepted tag plus the read-ahead. */
  ghost predicate FillOk(start: int, fill: int, readAhead: int, ledger: seq<Entry>) {
    start == MIN_TIME ==>
      && fill > MIN_TIME + readAhead
      && (forall k :: 0 <= k < |ledger| ==> ledger[k].orig.time + readAhead >= fill)
      && (fill == MAX_TIME ==> ledger == [])
      && (fill != MAX_TIME ==> exists k :: 0 <= k < |ledger| && ledger[k].orig.time + readAhead == fill)
  }

  lemma {:induction false} FillSnoc(fill: int, readAhead: int, ledger: seq<Entry>, e: Entry, fill': int)
    requires FillOk(MIN_TIME, fill, readAhead, ledger)
    requires MIN_TIME < e.orig.time < MAX_TIME - readAhead
    requires fill' == if e.orig.time + readAhead < fill then e.orig.time + readAhead else fill
    ensures FillOk(MIN_TIME, fill', readAhead, ledger + [e])
  {
    var l := ledger + [e];
    assert l[|ledger|] == e;
    if fill' == fill {
      var k :| 0 <= k < |ledger| && ledger[k].orig.time + readAhead == fill;
      assert l[k] == ledger[k];
    }
  }

  /** Reading one item keeps the ledger in step with the input. */
  lemma {:induction false} AccountedRead(source: seq<seq<Item>>, inputs: seq<InputInfo>, start: int, ledger: seq<Entry>,
                      ii: nat, info: InputInfo, ledger': seq<Entry>)
    requires InputsOk(source, inputs) && Accounted(source, inputs, start, ledger)
    requires ii < |source| && inputs[ii].pos < |source[ii]| && info.pos == inputs[ii].pos + 1
    requires InputsOk(source, inputs[ii := info])
    requires var it := source[ii][inputs[ii].pos];
      if it.matched && it.samp.time >= start
      then exists e: Entry :: e.input == ii && e.orig == it.samp && ledger' == ledger + [e]
      else ledger' == ledger
    ensures Accounted(source, inputs[ii := info], start, ledger')
  {
    var p := inputs[ii].pos;
    var it := source[ii][p];
    assert source[ii][..p + 1][..p] == source[ii][..p];
    if it.matched && it.samp.time >= start {
      var e: Entry :| e.input == ii && e.orig == it.samp && ledger' == ledger + [e];
      forall i | 0 <= i < |source|
        ensures OrigsOf(ledger', i) == Accepted(source[i][..inputs[ii := info][i].pos], start)
      {
        LedgerSnoc(ledger, e, i);
      }
    }
  }

  /** Reading one item keeps a bounded-disorder run in order. */
  lemma {:induction false} OrderedRead(source: seq<seq<Item>>, inputs: seq<InputInfo>, out: seq<Sample>, sorter: seq<Sample>, floor: int,
                    ii: nat, info: InputInfo, sorter': seq<Sample>)
    requires InputsOk(source, inputs) && Ordered(source, inputs, out, sorter, floor) && Sorted(sorter)
    requires ii < |source| && inputs[ii].pos < |source[ii]| && info.pos == inputs[ii].pos + 1 && !info.eof
    requires InputsOk(source, inputs[ii := info])
    requires var it := source[ii][inputs[ii].pos];
      if it.matched then info.lastTime == it.samp.time && (sorter' == sorter || sorter' == Insert(sorter, it.samp))
      else info.lastTime == inputs[ii].lastTime && sorter' == sorter
    requires !inputs[ii].eof
    ensures Ordered(source, inputs[ii := info], out, sorter', floor)
  {
    var it := source[ii][inputs[ii].pos];
    InsertIsSetInsertion(sorter, it.samp);
    if sorter' != sorter {
      forall k | 0 <= k < |sorter'| ensures sorter'[k].time >= floor {
        assert sorter'[k] in sorter';
        if sorter'[k] != it.samp {
          assert sorter'[k] in sorter;
        }
      }
    }
    assert LastSeen(source[ii], inputs[ii]);
    if it.matched {
      assert source[ii][info.pos - 1].samp.time == info.lastTime;
    }
  }

  /** Finding the end of an input changes nothing else. */
  lemma {:induction false} EofRead(source: seq<seq<Item>>, inputs: seq<InputInfo>, start: int, ledger: seq<Entry>,
                out: seq<Sample>, sorter: seq<Sample>, floor: int, ii: nat, info: InputInfo)
    requires InputsOk(source, inputs) && Accounted(source, inputs, start, ledger)
    requires ii < |source| && inputs[ii].pos == |source[ii]| == info.pos && info.eof
    ensures InputsOk(source, inputs[ii := info]) && Accounted(source, inputs[ii := info], start, ledger)
    ensures Ordered(source, inputs, out, sorter, floor) ==> Ordered(source, inputs[ii := info], out, sorter, floor)
  {
  }

  /** Once every open input has been read up to `fill`, bounded disorder leaves nothing unread before `fill - readAhead`. */
  lemma {:induction false} CaughtUp(source: seq<seq<Item>>, inputs: seq<InputInfo>, out: seq<Sample>, sorter: seq<Sample>, floor: int,
                 readAhead: int, fill: int)
    requires InputsOk(source, inputs) && BoundedDisorder(source, readAhead) && fill > MIN_TIME
    requires Ordered(source, inputs, out, sorter, floor)
    requires forall i :: 0 <= i < |source| ==> inputs[i].eof || inputs[i].lastTime >= fill
    ensures UnreadAbove(source, inputs, fill - readAhead)
    ensures forall i :: 0 <= i < |source| && !inputs[i].eof ==>
      exists k :: 0 <= k < inputs[i].pos && source[i][k].matched && source[i][k].samp.time == inputs[i].lastTime
  {
  }

  /** The samples of `s` that precede the end time, if there is one. */
  function Clip(s: seq<Sample>, end: int): seq<Sample> {
    if s == [] then []
    else Clip(s[..|s| - 1], end) + (if IsSet(end) && s[|s| - 1].time >= end then [] else [s[|s| - 1]])
  }

  lemma {:induction false} ClipKeepsOrder(s: seq<Sample>, end: int)
    requires Sorted(s)
    ensures Sorted(Clip(s, end))
    ensures forall x :: x in Clip(s, end) <==> x in s && (IsSet(end) ==> x.time < end)
  {
    if s != [] {
      var n := |s| - 1;
      ClipKeepsOrder(s[..n], end);
      var c := Clip(s[..n], end);
      assert s == s[..n] + [s[n]];
      forall i | 0 <= i < |c| ensures Less(c[i], s[n]) {
        assert c[i] in s[..n];
      }
    }
  }

  /** The samples of `s` that `Clip` leaves out. */
  ghost function Past(s: seq<Sample>, end: int): seq<Sample> {
    if s == [] then []
    else Past(s[..|s| - 1], end) + (if IsSet(end) && s[|s| - 1].time >= end then [s[|s| - 1]] else [])
  }

  lemma {:induction false} SnocMultiset(s: seq<Sample>, x: Sample)
    ensures multiset(s + [x]) == multiset(s) + multiset{x}
  {
  }

  lemma {:induction false} ClipSnoc(l: seq<Sample>, x: Sample, end: int)
    ensures if IsSet(end) && x.time >= end
      then Clip(l + [x], end) == Clip(l, end) && Past(l + [x], end) == Past(l, end) + [x]
      else Clip(l + [x], end) == Clip(l, end) + [x] && Past(l + [x], end) == Past(l, end)
  {
    assert (l + [x])[..|l|] == l;
  }

  lemma {:induction false} ClipPartitions(s: seq<Sample>, end: int)
    ensures multiset(s) == multiset(Clip(s, end)) + multiset(Past(s, end))
  {
    if s != [] {
      hide Clip, Past, IsSet;
      var l, x := s[..|s| - 1], s[|s| - 1];
      assert s == l + [x];
      ClipPartitions(l, end);
      ClipSnoc(l, x, end);
      SnocMultiset(l, x);
      SnocMultiset(Clip(l, end), x);
      SnocMultiset(Past(l, end), x);
    }
  }

  lemma {:induction false} ClipEndOk(s: seq<Sample>, end: int)
    ensures EndOk(Clip(s, end), Past(s, end), end)
  {
    if s != [] {
      ClipEndOk(s[..|s| - 1], end);
    }
  }

  /** Written samples precede the end time, clipped ones do not. */
  ghost predicate EndOk(out: seq<Sample>, clipped: seq<Sample>, end: int) {
    && (forall k :: 0 <= k < |out| ==> IsSet(end) ==> out[k].time < end)
    && (forall k :: 0 <= k < |clipped| ==> IsSet(end) && clipped[k].time >= end)
  }

  /** A flush of the first `k` samples of the sorter keeps the ledger's invariant. */
  lemma {:induction false} LedgerFlush(ledger: seq<Entry>, out: seq<Sample>, clipped: seq<Sample>, sorter: seq<Sample>,
                    last: map<(nat, nat), int>, force: bool, k: nat, end: int)
    requires LedgerOk(ledger, out, clipped, sorter, last, force) && EndOk(out, clipped, end) && k <= |sorter|
    ensures LedgerOk(ledger, out + Clip(sorter[..k], end), clipped + Past(sorter[..k], end), sorter[k..], last, force)
    ensures EndOk(out + Clip(sorter[..k], end), clipped + Past(sorter[..k], end), end)
  {
    hide FatesOk, DuplicatesOk, LastTimesOk, TagsIncrease, TagsMovedByOne, InsertedOf, Clip, Past;
    DuplicatesFlush(ledger, out, clipped, out + Clip(sorter[..k], end), clipped + Past(sorter[..k], end));
    ClipPartitions(sorter[..k], end);
    ClipEndOk(sorter[..k], end);
    assert sorter == sorter[..k] + sorter[k..];
    assert multiset(sorter) == multiset(sorter[..k]) + multiset(sorter[k..]);
  }

  /** Writing out samples that all precede `t` behind samples that precede `floor` keeps the output sorted. */
  lemma {:induction false} AppendSorted(out: seq<Sample>, more: seq<Sample>, floor: int)
    requires Sorted(out) && Sorted(more)
    requires forall k :: 0 <= k < |out| ==> out[k].time < floor
    requires forall k :: 0 <= k < |more| ==> more[k].time >= floor
    ensures Sorted(out + more)
  {
  }

  /** A flush at `t` moves the boundary of an ordered run from `floor` to `t`. */
  lemma {:induction false} OrderedFlush(source: seq<seq<Item>>, inputs: seq<InputInfo>, out: seq<Sample>, sorter: seq<Sample>,
                     floor: int, t: int, end: int)
    requires InputsOk(source, inputs) && Ordered(source, inputs, out, sorter, floor) && Sorted(sorter) && floor <= t
    ensures var k := LowerBound(sorter, Dummy(t));
      && Sorted(out + Clip(sorter[..k], end))
      && (UnreadAbove(source, inputs, t) ==> Ordered(source, inputs, out + Clip(sorter[..k], end), sorter[k..], t))
  {
    var k := LowerBound(sorter, Dummy(t));
    LowerBoundSplitsByTime(sorter, t);
    ClipKeepsOrder(sorter[..k], end);
    var c := Clip(sorter[..k], end);
    forall i | 0 <= i < |c| ensures floor <= c[i].time < t {
      assert c[i] in sorter[..k];
    }
    AppendSorted(out, c, floor);
  }

  lemma {:induction false} InLedger(ledger: seq<Entry>, out: seq<Sample>, clipped: seq<Sample>, sorter: seq<Sample>, s: Sample) returns (n: nat)
    requires Conserved(ledger, out, clipped, sorter)
    requires s in out || s in clipped || s in sorter
    ensures n < |ledger| && ledger[n].fate == Inserted && ledger[n].tag == s
  {
    assert s in multiset(InsertedOf(ledger));
    InsertedOfContains(ledger, s);
    n :| 0 <= n < |ledger| && ledger[n].fate == Inserted && ledger[n].tag == s;
  }

  lemma {:induction false} EntryWasRead(source: seq<seq<Item>>, inputs: seq<InputInfo>, start: int, ledger: seq<Entry>, n: nat) returns (i: nat, k: nat)
    requires InputsOk(source, inputs) && Accounted(source, inputs, start, ledger) && n < |ledger|
    ensures i < |source| && k < inputs[i].pos && source[i][k].matched && source[i][k].samp.time >= start
    ensures source[i][k].samp == ledger[n].orig
  {
    i := ledger[n].input;
    OrigsOfContains(ledger, i, ledger[n].orig);
    AcceptedContains(source[i][..inputs[i].pos], start, ledger[n].orig);
    k :| 0 <= k < inputs[i].pos && source[i][k].matched && source[i][k].samp == ledger[n].orig;
  }

  /** Whatever is written, clipped or held was read from some input; only its tag may have been moved, and only later. */
  lemma {:induction false} NothingInvented(source: seq<seq<Item>>, inputs: seq<InputInfo>, start: int, ledger: seq<Entry>,
                        out: seq<Sample>, clipped: seq<Sample>, sorter: seq<Sample>, force: bool, s: Sample)
      returns (i: nat, k: nat)
    requires InputsOk(source, inputs) && Accounted(source, inputs, start, ledger)
    requires Conserved(ledger, out, clipped, sorter) && FatesOk(ledger, force) && (force ==> TagsMovedByOne(ledger))
    requires s in out || s in clipped || s in sorter
    ensures i < |source| && k < inputs[i].pos && source[i][k].matched && source[i][k].samp.time >= start
    ensures s == source[i][k].samp.(time := s.time) && s.time >= source[i][k].samp.time
    ensures !force ==> s == source[i][k].samp
  {
    hide Conserved, Accounted;
    var n := InLedger(ledger, out, clipped, sorter, s);
    i, k := EntryWasRead(source, inputs, start, ledger, n);
    assert ledger[n].Submitted();
  }

  /** Inserted or found to be a duplicate, a submitted sample is among the written, clipped and held ones. */
  lemma {:induction false} SubmittedIsSomewhere(ledger: seq<Entry>, out: seq<Sample>, clipped: seq<Sample>, sorter: seq<Sample>, n: nat)
    requires Conserved(ledger, out, clipped, sorter) && DuplicatesOk(ledger, out, clipped) && n < |ledger| && ledger[n].Submitted()
    ensures var t := ledger[n].tag; t in out || t in clipped || t in sorter
  {
    hide InsertedOf;
    var t := ledger[n].tag;
    InsertedOfContains(ledger, t);
    if ledger[n].fate == Duplicate {
      assert t in InsertedOf(ledger[..n]);
      InsertedOfContains(ledger[..n], t);
      var j :| 0 <= j < n && ledger[..n][j].fate == Inserted && ledger[..n][j].tag == t;
      assert ledger[j] == ledger[..n][j];
    }
    assert t in multiset(InsertedOf(ledger));
  }

  /**
   Every accepted sample is found among the written, clipped and held ones: as it was
   read or, with forcing, with a later tag.
   */
  lemma {:induction false} NothingLost(source: seq<seq<Item>>, inputs: seq<InputInfo>, start: int, ledger: seq<Entry>,
                    out: seq<Sample>, clipped: seq<Sample>, sorter: seq<Sample>,
                    last: map<(nat, nat), int>, nonincr: seq<Sample>, force: bool, i: nat, k: nat)
      returns (t: Sample)
    requires InputsOk(source, inputs) && Accounted(source, inputs, start, ledger)
    requires LedgerOk(ledger, out, clipped, sorter, last, force) && NonIncrOk(ledger, nonincr)
    requires i < |source| && k < inputs[i].pos && source[i][k].matched && source[i][k].samp.time >= start
    ensures t in out || t in clipped || t in sorter
    ensures var s := source[i][k].samp; t == s.(time := t.time) && t.time >= s.time && (!force ==> t == s)
  {
    hide Conserved, DuplicatesOk, LastTimesOk, TagsIncrease, TagsMovedByOne, Accounted, NonIncrOk;
    var n := AcceptedIsEntered(source, inputs, start, ledger, i, k);
    n := Offered(ledger, nonincr, n);
    t := ledger[n].tag;
    SubmittedIsSomewhere(ledger, out, clipped, sorter, n);
    TagNotEarlier(ledger, force, n);
  }

  lemma {:induction false} AcceptedIsEntered(source: seq<seq<Item>>, inputs: seq<InputInfo>, start: int, ledger: seq<Entry>, i: nat, k: nat)
      returns (n: nat)
    requires InputsOk(source, inputs) && Accounted(source, inputs, start, ledger)
    requires i < |source| && k < inputs[i].pos && source[i][k].matched && source[i][k].samp.time >= start
    ensures n < |ledger| && ledger[n].input == i && ledger[n].orig == source[i][k].samp
  {
    hide Accepted, OrigsOf;
    var s := source[i][k].samp;
    assert source[i][..inputs[i].pos][k] == source[i][k];
    AcceptedContains(source[i][..inputs[i].pos], start, s);
    OrigsOfContains(ledger, i, s);
    n :| 0 <= n < |ledger| && ledger[n].input == i && ledger[n].orig == s;
  }

  /** Every sample was offered to the sorter, itself or its like before it. */
  lemma {:induction false} Offered(ledger: seq<Entry>, nonincr: seq<Sample>, n: nat) returns (m: nat)
    requires NonIncrOk(ledger, nonincr) && n < |ledger|
    ensures m < |ledger| && ledger[m].Submitted() && ledger[m].orig == ledger[n].orig
  {
    m := n;
    if !ledger[n].Submitted() {
      assert MovedBefore(ledger, n, ledger[n].orig);
      m :| 0 <= m < n && ledger[m].Moved(ledger[n].orig);
    }
  }

  ghost predicate TagsBelow(ledger: seq<Entry>, t: int) {
    forall k :: 0 <= k < |ledger| && ledger[k].Submitted() ==> ledger[k].tag.time < t
  }

  /** Moved by one microsecond each, tags do not get further past the latest time read than there are tags before them. */
  lemma {:induction false} TagGrowth(ledger: seq<Entry>, force: bool, latest: int, n: nat)
    requires FatesOk(ledger, force) && (force ==> TagsMovedByOne(ledger)) && n < |ledger| && ledger[n].Submitted()
    requires forall k :: 0 <= k < |ledger| ==> ledger[k].orig.time < latest
    ensures ledger[n].tag.time < latest + n
  {
    if ledger[n].tag != ledger[n].orig {
      var j :| 0 <= j < n && ledger[n].MovedPast(ledger[j]);
      TagGrowth(ledger, force, latest, j);
    }
  }

  lemma {:induction false} TagNotEarlier(ledger: seq<Entry>, force: bool, n: nat)
    requires FatesOk(ledger, force) && (force ==> TagsMovedByOne(ledger)) && n < |ledger| && ledger[n].Submitted()
    ensures ledger[n].tag.time >= ledger[n].orig.time
  {
  }

  /** Reading everything that could be wanted and emptying the sorter leaves exactly the wanted samples written. */
  lemma {:induction false} OutputIsWanted(source: seq<seq<Item>>, inputs: seq<InputInfo>, start: int, lo: int, hi: int, ledger: seq<Entry>,
                       out: seq<Sample>, clipped: seq<Sample>, last: map<(nat, nat), int>, nonincr: seq<Sample>)
    requires InputsOk(source, inputs) && Accounted(source, inputs, start, ledger) && NonIncrOk(ledger, nonincr)
    requires LedgerOk(ledger, out, clipped, [], last, false) && EndOk(out, clipped, hi) && lo <= start
    requires forall i, k :: 0 <= i < |source| && 0 <= k < |source[i]| && source[i][k].matched
                            && lo <= source[i][k].samp.time && (IsSet(hi) ==> source[i][k].samp.time < hi)
                            ==> k < inputs[i].pos && source[i][k].samp.time >= start
    ensures forall s :: s in out <==> Wanted(source, lo, hi, s)
  {
    forall s ensures s in out <==> Wanted(source, lo, hi, s) {
      assert Conserved(ledger, out, clipped, []) && FatesOk(ledger, false);
      hide LedgerOk, Accounted, NonIncrOk, Conserved, FatesOk;
      if s in out {
        var i, k := NothingInvented(source, inputs, start, ledger, out, clipped, [], false, s);
      }
      if Wanted(source, lo, hi, s) {
        var i, k :| 0 <= i < |source| && 0 <= k < |source[i]| && source[i][k].matched && source[i][k].samp == s;
        var t := NothingLost(source, inputs, start, ledger, out, clipped, [], last, nonincr, false, i, k);
      }
    }
  }

  /** Some matched sample carries time tag `t`. */
  ghost predicate HasTag(source: seq<seq<Item>>, t: int) {
    exists i, k :: 0 <= i < |source| && 0 <= k < |source[i]| && source[i][k].matched && source[i][k].samp.time == t
  }

  /** When the first window has fixed the start time, nothing read so far precedes it. */
  lemma {:induction false} AccountedStart(source: seq<seq<Item>>, inputs: seq<InputInfo>, ledger: seq<Entry>, fill: int, readAhead: int)
    requires InputsOk(source, inputs) && Accounted(source, inputs, MIN_TIME, ledger)
    requires FillOk(MIN_TIME, fill, readAhead, ledger) && fill - readAhead >= MIN_TIME
    ensures Accounted(source, inputs, fill - readAhead, ledger)
    ensures forall i, k :: 0 <= i < |source| && 0 <= k < inputs[i].pos && source[i][k].matched && source[i][k].samp.time >= MIN_TIME
                           ==> source[i][k].samp.time >= fill - readAhead
    ensures fill != MAX_TIME ==> HasTag(source, fill - readAhead)
  {
    if fill != MAX_TIME {
      var n :| 0 <= n < |ledger| && ledger[n].orig.time + readAhead == fill;
      var i := ledger[n].input;
      OrigsOfContains(ledger, i, ledger[n].orig);
      AcceptedContains(source[i][..inputs[i].pos], MIN_TIME, ledger[n].orig);
    }
    forall i | 0 <= i < |source|
      ensures Accepted(source[i][..inputs[i].pos], fill - readAhead) == Accepted(source[i][..inputs[i].pos], MIN_TIME)
    {
      var items := source[i][..inputs[i].pos];
      forall s | s in Accepted(items, MIN_TIME) ensures s.time >= fill - readAhead {
        OrigsOfContains(ledger, i, s);
      }
      AcceptedRaise(items, MIN_TIME, fill - readAhead);
    }
    forall i, k | 0 <= i < |source| && 0 <= k < inputs[i].pos && source[i][k].matched && source[i][k].samp.time >= MIN_TIME
      ensures source[i][k].samp.time >= fill - readAhead
    {
      assert source[i][..inputs[i].pos][k] == source[i][k];
      AcceptedContains(source[i][..inputs[i].pos], MIN_TIME, source[i][k].samp);
      OrigsOfContains(ledger, i, source[i][k].samp);
    }
  }

  /** As long as the start is unknown and nothing has been accepted, no open input has a latest tag. */
  ghost predicate Untouched(start: int, ledger: seq<Entry>, inputs: seq<InputInfo>) {
    start == MIN_TIME && ledger == [] ==> forall i :: 0 <= i < |inputs| && !inputs[i].eof ==> inputs[i].lastTime == MIN_TIME
  }

  // ------------------------------------------------------------------ termination

  /** Samples and end-of-file marks still to be read. */
  ghost function Work(source: seq<seq<Item>>, inputs: seq<InputInfo>): nat
    requires InputsOk(source, inputs)
  {
    if source == [] then 0
    else |source[0]| - inputs[0].pos + (if inputs[0].eof then 0 else 1) + Work(source[1..], inputs[1..])
  }

  lemma {:induction false} WorkUpdate(source: seq<seq<Item>>, inputs: seq<InputInfo>, i: nat, info: InputInfo)
    requires InputsOk(source, inputs) && i < |source| && InputsOk(source, inputs[i := info])
    ensures Work(source, inputs[i := info]) - Work(source, inputs)
            == inputs[i].pos - info.pos + (if info.eof then 0 else 1) - (if inputs[i].eof then 0 else 1)
  {
    if i == 0 {
      assert inputs[i := info][1..] == inputs[1..];
    } else {
      assert inputs[i := info][1..] == inputs[1..][i - 1 := info];
      WorkUpdate(source[1..], inputs[1..], i - 1, info);
    }
  }

  predicate AnyOpen(inputs: seq<InputInfo>) {
    exists i :: 0 <= i < |inputs| && !inputs[i].eof
  }

  /** How far the first open input is ahead of `tcur`: what shrinks while every input waits behind a far-future tag. */
  ghost function Gap(inputs: seq<InputInfo>, tcur: int): nat {
    if inputs == [] then 0
    else if inputs[0].eof then Gap(inputs[1..], tcur)
    else if inputs[0].lastTime > tcur then inputs[0].lastTime - tcur else 0
  }

  lemma {:induction false} GapShrinks(inputs: seq<InputInfo>, tcur: int, step: int)
    requires step > 0 && AnyOpen(inputs)
    requires forall i :: 0 <= i < |inputs| ==> inputs[i].eof || inputs[i].lastTime >= tcur + step
    ensures Gap(inputs, tcur + step) < Gap(inputs, tcur)
  {
    if inputs[0].eof {
      var i :| 0 <= i < |inputs| && !inputs[i].eof;
      assert !inputs[1..][i - 1].eof;
      GapShrinks(inputs[1..], tcur, step);
    }
  }
}
