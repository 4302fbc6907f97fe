/**
 The merge program as an object: `NidsMerge::run` and the methods it calls.
 Ghost fields record what became of every accepted sample.
 */
module MergeProgram {
  import opened Samples
  import opened UTime
  import opened Merge

  class NidsMerge {
    const source: seq<seq<Item>>
    const readAhead: int
    const endTime: int
    const force: bool

    var startTime: int
    var inputs: seq<InputInfo>
    var sorter: seq<Sample>
    var nonincr: seq<Sample>
    var lastSampleTimes: map<(nat, nat), int>
    var out: seq<Sample>

    ghost var ledger: seq<Entry>
    ghost var clipped: seq<Sample>
    ghost var floor: int

    /** Tags are far enough from the limits of a 64-bit time for the read-ahead to be added to them. */
    ghost predicate TagsInRange() {
      0 < readAhead < MAX_TIME &&
      forall i, k :: 0 <= i < |source| && 0 <= k < |source[i]| && source[i][k].matched ==>
        MIN_TIME < source[i][k].samp.time < MAX_TIME - readAhead
    }

    ghost predicate Core()
      reads this
    {
      && Sorted(sorter) && Sorted(nonincr)
      && LedgerOk(ledger, out, clipped, sorter, lastSampleTimes, force)
      && EndOk(out, clipped, endTime)
      && NonIncrOk(ledger, nonincr)
    }

    /** What holds at every step of every run, whatever the order of the inputs. */
    ghost predicate Valid()
      reads this
    {
      && TagsInRange()
      && Core()
      && InputsOk(source, inputs)
      && Accounted(source, inputs, startTime, ledger)
      && Untouched(startTime, ledger, inputs)
    }

    /** What holds besides when forcing is off and every input has bounded disorder. */
    ghost predicate InOrder()
      requires InputsOk(source, inputs)
      reads this
    {
      !force && BoundedDisorder(source, readAhead) ==> Ordered(source, inputs, out, sorter, floor)
    }

    constructor (source: seq<seq<Item>>, headerEof: seq<bool>, readAhead: int, start: int, end: int, force: bool)
      requires 0 < readAhead < MAX_TIME
      requires |headerEof| == |source|
      requires forall i :: 0 <= i < |source| && headerEof[i] ==> source[i] == []
      requires forall i, k :: 0 <= i < |source| && 0 <= k < |source[i]| && source[i][k].matched ==>
                 MIN_TIME < source[i][k].samp.time < MAX_TIME - readAhead
      ensures Valid() && InOrder()
      ensures this.source == source && this.readAhead == readAhead && startTime == start && endTime == end && this.force == force
      ensures out == [] && ledger == [] && floor == MIN_TIME
    {
      this.source, this.readAhead, this.endTime, this.force := source, readAhead, end, force;
      startTime := start;
      inputs := seq(|source|, i requires 0 <= i < |source| =>
                  InputInfo(0, if headerEof[i] then MAX_TIME else MIN_TIME, headerEof[i]));
      sorter, nonincr, lastSampleTimes, out := [], [], map[], [];
      ledger, clipped, floor := [], [], MIN_TIME;
    }

    /** `getLastSampleTime`, with the value the caller initialises when there is none. */
    function LastSampleTime(i: nat, id: nat): int
      reads this
    {
      if (i, id) in lastSampleTimes then lastSampleTimes[(i, id)] else MIN_TIME
    }

    /**
     Offer a sample that has passed the matcher and the start time: move its tag if
     times are forced, check it against the non-increasing set, and insert it into
     the sorter. Returns the new `lastTime`.
     */
    method Submit(ii: nat, read: Sample) returns (lastTime: int, ghost e: Entry)
      requires Core() && read.time > MIN_TIME
      modifies this`sorter, this`nonincr, this`lastSampleTimes, this`ledger
      ensures Core()
      ensures ledger == old(ledger) + [e] && e.input == ii && e.orig == read
      ensures e.tag == read.(time := lastTime)
      ensures lastTime == if force && (ii, read.id) in old(lastSampleTimes) && read.time <= old(LastSampleTime(ii, read.id))
                          then old(LastSampleTime(ii, read.id)) + 1 else read.time
      ensures e.fate == NonIncreasingDuplicate <==>
              force && !((ii, read.id) in old(lastSampleTimes) && read.time <= old(LastSampleTime(ii, read.id))) && read in old(nonincr)
      ensures e.Submitted() ==> (e.fate == Duplicate <==> e.tag in old(sorter)) && sorter == Insert(old(sorter), e.tag)
      ensures !e.Submitted() ==> sorter == old(sorter)
      ensures nonincr == if lastTime != read.time then Insert(old(nonincr), read) else old(nonincr)
    {
      hide LedgerOk, NonIncrOk, Insert, Sorted, Less;
      ghost var last := lastSampleTimes;
      var samp := read;
      lastTime := read.time;
      var found := (ii, samp.id) in lastSampleTimes;
      var lastSampleTime := LastSampleTime(ii, samp.id);
      var discard := false;
      if found && lastTime <= lastSampleTime {
        if force {
          InsertIsSetInsertion(nonincr, samp);
          nonincr := Insert(nonincr, samp);
          samp := samp.(time := lastSampleTime + 1);
          lastTime := samp.time;
        }
      } else if force {
        discard := samp in nonincr;
      }
      if discard {
        e := Entry(ii, read, read, NonIncreasingDuplicate, |out|, |clipped|);
        LedgerExtend(ledger, out, clipped, sorter, last, force, e, sorter, last);
      } else {
        if lastTime > lastSampleTime {
          lastSampleTimes := lastSampleTimes[(ii, samp.id) := lastTime];
        }
        e := Entry(ii, read, samp, if samp in sorter then Duplicate else Inserted, |out|, |clipped|);
        InsertIsSetInsertion(sorter, samp);
        LedgerExtend(ledger, out, clipped, sorter, last, force, e, Insert(sorter, samp), lastSampleTimes);
        sorter := Insert(sorter, samp);
      }
      NonIncrSnoc(ledger, old(nonincr), e, nonincr);
      ledger := ledger + [e];
      assert LedgerOk(ledger, out, clipped, sorter, lastSampleTimes, force);
    }

    /** One turn of the loop that fills input `ii`: read a sample, or find the end of the file. */
    method ReadSample(ii: nat, fill0: int) returns (fill: int)
      requires Valid() && InOrder() && ii < |inputs| && !inputs[ii].eof
      requires FillOk(startTime, fill0, readAhead, ledger)
      modifies this`inputs, this`sorter, this`nonincr, this`lastSampleTimes, this`ledger
      ensures Valid() && InOrder() && FillOk(startTime, fill, readAhead, ledger)
      ensures inputs == old(inputs)[ii := inputs[ii]]
      ensures Work(source, inputs) == old(Work(source, inputs)) - 1
      ensures old(inputs[ii].pos) == |source[ii]| ==> inputs[ii] == InputInfo(|source[ii]|, MAX_TIME, true) && ledger == old(ledger)
      ensures old(inputs[ii].pos) < |source[ii]| ==>
        var item := source[ii][old(inputs[ii].pos)];
        && inputs[ii].pos == old(inputs[ii].pos) + 1 && !inputs[ii].eof
        && (if item.matched && item.samp.time >= startTime
            then |ledger| == |old(ledger)| + 1 && inputs[ii].lastTime == ledger[|ledger| - 1].tag.time >= item.samp.time
            else ledger == old(ledger) && inputs[ii].lastTime == if item.matched then item.samp.time else old(inputs[ii].lastTime))
      ensures fill <= fill0 && (startTime != MIN_TIME ==> fill == fill0)
    {
      hide LedgerOk, NonIncrOk, Insert, Accounted, BoundedDisorder, Ordered, Work, EndOk, Sorted, Less;
      fill := fill0;
      var info := inputs[ii];
      if info.pos == |source[ii]| {
        info := InputInfo(info.pos, MAX_TIME, true);
        EofRead(source, inputs, startTime, ledger, out, sorter, floor, ii, info);
        WorkUpdate(source, inputs, ii, info);
        assert LedgerOk(ledger, out, clipped, sorter, lastSampleTimes, force);
        inputs := inputs[ii := info];
        assert Core();
        return;
      }
      hide Valid, InOrder, FillOk;
      fill := ReadItem(ii, fill0);
    }

    /** Read the next sample of an input. */
    method ReadItem(ii: nat, fill0: int) returns (fill: int)
      requires Valid() && InOrder() && ii < |inputs| && !inputs[ii].eof && inputs[ii].pos < |source[ii]|
      requires FillOk(startTime, fill0, readAhead, ledger)
      modifies this`inputs, this`sorter, this`nonincr, this`lastSampleTimes, this`ledger
      ensures Valid() && InOrder() && FillOk(startTime, fill, readAhead, ledger)
      ensures inputs == old(inputs)[ii := inputs[ii]]
      ensures Work(source, inputs) == old(Work(source, inputs)) - 1
      ensures var item := source[ii][old(inputs[ii].pos)];
        && inputs[ii].pos == old(inputs[ii].pos) + 1 && !inputs[ii].eof
        && (if item.matched && item.samp.time >= startTime
            then |ledger| == |old(ledger)| + 1 && inputs[ii].lastTime == ledger[|ledger| - 1].tag.time >= item.samp.time
            else ledger == old(ledger) && inputs[ii].lastTime == if item.matched then item.samp.time else old(inputs[ii].lastTime))
      ensures fill <= fill0 && (startTime != MIN_TIME ==> fill == fill0)
    {
      hide LedgerOk, NonIncrOk, Insert, Accounted, BoundedDisorder, Ordered, Work, EndOk, Sorted, Less;
      fill := fill0;
      var info := inputs[ii];
      var item := source[ii][info.pos];
      ghost var before, held, entries := inputs, sorter, ledger;
      var lastTime := info.lastTime;
      if item.matched {
        lastTime := item.samp.time;
        if startTime == MIN_TIME && lastTime + readAhead < fill {
          fill := lastTime + readAhead;
        }
        if lastTime >= startTime {
          ghost var e;
          lastTime, e := Submit(ii, item.samp);
          if startTime == MIN_TIME { FillSnoc(fill0, readAhead, entries, e, fill); }
        }
      }
      assert Core();
      info := InputInfo(info.pos + 1, lastTime, false);
      WorkUpdate(source, before, ii, info);
      AccountedRead(source, before, startTime, entries, ii, info, ledger);
      if !force && BoundedDisorder(source, readAhead) {
        OrderedRead(source, before, out, held, floor, ii, info, sorter);
      }
      inputs := inputs[ii := info];
      assert Core();
    }

    /** Of the samples read from position `from` on, at most the last one reaches time `t`. */
    ghost predicate NotReadPast(ii: nat, from: nat, t: int)
      requires ii < |inputs| == |source| && inputs[ii].pos <= |source[ii]|
      reads this
    {
      forall j :: from <= j < inputs[ii].pos - 1 && source[ii][j].matched ==> source[ii][j].samp.time < t
    }

    /** Read input `ii` until its latest tag reaches the fill time, lowering the fill time while the start is unknown. */
    method FillInput(ii: nat, fill0: int) returns (fill: int)
      requires Valid() && InOrder() && ii < |inputs|
      requires FillOk(startTime, fill0, readAhead, ledger)
      modifies this`inputs, this`sorter, this`nonincr, this`lastSampleTimes, this`ledger
      ensures Valid() && InOrder() && FillOk(startTime, fill, readAhead, ledger)
      ensures inputs == old(inputs)[ii := inputs[ii]]
      ensures inputs[ii].eof || inputs[ii].lastTime >= fill
      ensures fill <= fill0 && (startTime != MIN_TIME ==> fill == fill0)
      ensures if old(inputs[ii].eof || inputs[ii].lastTime >= fill0) then inputs == old(inputs)
              else Work(source, inputs) < old(Work(source, inputs))
      ensures NotReadPast(ii, old(inputs[ii].pos), fill0)
    {
      hide LedgerOk, NonIncrOk, Insert, Accounted, BoundedDisorder, Ordered, FillOk, Work, EndOk, Sorted, Less;
      fill := fill0;
      while !inputs[ii].eof && inputs[ii].lastTime < fill
        invariant Valid() && InOrder() && FillOk(startTime, fill, readAhead, ledger)
        invariant ii < |inputs| && inputs == old(inputs)[ii := inputs[ii]]
        invariant fill <= fill0 && (startTime != MIN_TIME ==> fill == fill0)
        invariant (inputs == old(inputs) && fill == fill0) || Work(source, inputs) < old(Work(source, inputs))
        invariant old(inputs[ii].eof || inputs[ii].lastTime >= fill0) ==> inputs == old(inputs)
        invariant old(inputs[ii].pos) <= inputs[ii].pos && NotReadPast(ii, old(inputs[ii].pos), fill0)
        invariant inputs[ii].pos > old(inputs[ii].pos) && source[ii][inputs[ii].pos - 1].matched && !inputs[ii].eof ==>
                    inputs[ii].lastTime >= source[ii][inputs[ii].pos - 1].samp.time
        decreases Work(source, inputs)
      {
        fill := ReadSample(ii, fill);
      }
    }

    /** Write the first `k` samples of the sorter, clipped at the end time. */
    method Write(k: nat) returns (lastWritten: int)
      requires k <= |sorter|
      modifies this`out
      ensures out == old(out) + Clip(sorter[..k], endTime)
      ensures lastWritten == if out == old(out) then MIN_TIME else out[|out| - 1].time
    {
      lastWritten := MIN_TIME;
      for i := 0 to k
        invariant out == old(out) + Clip(sorter[..i], endTime)
        invariant lastWritten == if |out| == |old(out)| then MIN_TIME else out[|out| - 1].time
      {
        assert sorter[..i + 1][..i] == sorter[..i];
        if !IsSet(endTime) || sorter[i].time < endTime {
          out := out + [sorter[i]];
          lastWritten := sorter[i].time;
        }
      }
    }

    /** Write the sorted samples before `tcur`, clipped at the end time, and remove them from the sorter. */
    method FlushSorter(tcur: int) returns (lastWritten: int)
      requires Valid() && InOrder() && (!force && BoundedDisorder(source, readAhead) ==> floor <= tcur)
      modifies this`out, this`sorter, this`clipped, this`floor
      ensures Valid() && floor == tcur
      ensures var k := LowerBound(old(sorter), Dummy(tcur));
        && sorter == old(sorter)[k..]
        && out == old(out) + Clip(old(sorter)[..k], endTime)
        && (forall i :: 0 <= i < k ==> old(sorter)[i].time < tcur)
        && (forall i :: 0 <= i < |sorter| ==> sorter[i].time >= tcur)
      ensures lastWritten == if out == old(out) then MIN_TIME else out[|out| - 1].time
      ensures !force && BoundedDisorder(source, readAhead) ==> Sorted(out)
      ensures (!force && BoundedDisorder(source, readAhead) ==> UnreadAbove(source, inputs, tcur)) ==> InOrder()
    {
      hide Accounted, BoundedDisorder, Ordered, UnreadAbove, Untouched, LedgerOk, NonIncrOk, EndOk, Sorted, Less, LowerBound, Clip, Past;
      var k := LowerBound(sorter, Dummy(tcur));
      LowerBoundSplitsByTime(sorter, tcur);
      SortedSplit(sorter, k);
      LedgerFlush(ledger, out, clipped, sorter, lastSampleTimes, force, k, endTime);
      if !force && BoundedDisorder(source, readAhead) {
        OrderedFlush(source, inputs, out, sorter, floor, tcur, endTime);
      }
      lastWritten := Write(k);
      clipped := clipped + Past(sorter[..k], endTime);
      sorter := sorter[k..];
      floor := tcur;
    }

    /** Forget the non-increasing samples before `tt`. */
    method AgeOffNonIncr(tt: int)
      requires Valid()
      modifies this`nonincr
      ensures Valid()
      ensures forall s :: s in nonincr <==> s in old(nonincr) && s.time >= tt
    {
      hide Accounted, LedgerOk, Sorted, Less, LowerBound;
      var k := LowerBound(nonincr, Dummy(tt));
      LowerBoundSplitsByTime(nonincr, tt);
      SortedSplit(nonincr, k);
      nonincr := nonincr[k..];
      assert forall s :: s in nonincr ==> s in old(nonincr);
    }

    /** Fill every input in turn. Afterwards each has reached the fill time or its end. */
    method FillInputs(fill0: int) returns (fill: int)
      requires Valid() && InOrder() && FillOk(startTime, fill0, readAhead, ledger)
      modifies this`inputs, this`sorter, this`nonincr, this`lastSampleTimes, this`ledger
      ensures Valid() && InOrder() && FillOk(startTime, fill, readAhead, ledger)
      ensures forall i :: 0 <= i < |inputs| ==> inputs[i].eof || inputs[i].lastTime >= fill
      ensures startTime != MIN_TIME ==> fill == fill0
      ensures |inputs| == |old(inputs)| && forall i :: 0 <= i < |inputs| ==> NotReadPast(i, old(inputs)[i].pos, fill0)
      ensures inputs == old(inputs) || Work(source, inputs) < old(Work(source, inputs))
    {
      hide LedgerOk, NonIncrOk, Insert, Accounted, BoundedDisorder, Ordered, FillOk, Work, EndOk, Sorted, Less;
      fill := fill0;
      for ii := 0 to |inputs|
        invariant Valid() && InOrder() && FillOk(startTime, fill, readAhead, ledger)
        invariant |inputs| == |old(inputs)|
        invariant forall i :: 0 <= i < ii ==> inputs[i].eof || inputs[i].lastTime >= fill
        invariant fill <= fill0 && (startTime != MIN_TIME ==> fill == fill0)
        invariant forall i :: ii <= i < |inputs| ==> inputs[i] == old(inputs)[i]
        invariant forall i :: 0 <= i < ii ==> NotReadPast(i, old(inputs)[i].pos, fill0)
        invariant inputs == old(inputs) || Work(source, inputs) < old(Work(source, inputs))
      {
        fill := FillInput(ii, fill);
      }
    }

    /** Nothing that the run may still have to write is left unread. */
    ghost predicate AllWantedRead(lo: int)
      requires InputsOk(source, inputs)
      reads this
    {
      forall i, k :: 0 <= i < |source| && 0 <= k < |source[i]| && source[i][k].matched
                     && lo <= source[i][k].samp.time && (IsSet(endTime) ==> source[i][k].samp.time < endTime)
                     ==> k < inputs[i].pos && source[i][k].samp.time >= startTime
    }

    /** The start time is the one given or, when none was given, the earliest tag of any matched sample. */
    ghost predicate StartOk(given: int)
      reads this
    {
      (given != MIN_TIME ==> startTime == given) &&
      (given == MIN_TIME ==>
         startTime >= MIN_TIME &&
         (startTime != MIN_TIME ==> HasTag(source, startTime)) &&
         forall i, k :: 0 <= i < |source| && 0 <= k < |source[i]| && source[i][k].matched
           ==> source[i][k].samp.time >= startTime)
    }

    /** In any run the start time is the one given or, when none was given, unset or the tag of a matched sample. */
    ghost predicate StartFrom(given: int)
      reads this
    {
      if given != MIN_TIME then startTime == given else startTime == MIN_TIME || HasTag(source, startTime)
    }

    /** Nothing from before `t` is held in the sorter or remembered as non-increasing. */
    ghost predicate HoldsFrom(t: int)
      reads this
    {
      && (forall s :: s in sorter ==> s.time >= t)
      && (forall s :: s in nonincr ==> s.time >= t)
    }

    /** Every input was read to its end, or past the end time as far as the read-ahead reaches. */
    ghost predicate ReadEnough(given: int)
      reads this
    {
      forall i :: 0 <= i < |inputs| ==>
        inputs[i].eof || (IsSet(endTime) && (inputs[i].lastTime >= endTime + readAhead || given >= endTime + readAhead))
    }

    /** What holds between two windows: `tcur` is the start of the next one and `nloops` have been read. */
    ghost predicate Between(tcur: int, nloops: nat, given: int)
      reads this
    {
      && Valid() && InOrder()
      && (nloops == 0 ==> tcur == startTime == given && ledger == [])
      && (nloops > 0 ==> forall i :: 0 <= i < |inputs| ==> inputs[i].eof || inputs[i].lastTime >= tcur)
      && (startTime == MIN_TIME ==> nloops == 0 || !AnyOpen(inputs))
      && (startTime != MIN_TIME ==> tcur >= startTime)
      && given >= MIN_TIME && tcur >= MIN_TIME && StartFrom(given)
      && (nloops >= 2 ==> HoldsFrom(tcur - readAhead))
      && (!force && BoundedDisorder(source, readAhead) ==> floor <= tcur && floor <= MAX_TIME && (nloops > 0 ==> StartOk(given)))
    }

    /** What holds inside a window, after reading and before flushing. */
    ghost predicate Filled(tcur: int, given: int)
      reads this
    {
      && Valid() && InOrder()
      && (forall i :: 0 <= i < |inputs| ==> inputs[i].eof || inputs[i].lastTime >= tcur + readAhead)
      && (startTime == MIN_TIME ==> !AnyOpen(inputs))
      && (startTime != MIN_TIME ==> tcur >= startTime)
      && given >= MIN_TIME && tcur >= MIN_TIME && StartFrom(given)
      && (!force && BoundedDisorder(source, readAhead) ==>
            floor <= tcur && floor <= MAX_TIME && StartOk(given) && UnreadAbove(source, inputs, tcur))
    }

    /** The reading part of a window: fill the inputs, and fix the start time if it is still unknown. */
    method ReadWindow(tcur0: int, nloops: nat, ghost given: int) returns (tcur: int)
      requires Between(tcur0, nloops, given) && AnyOpen(inputs)
      modifies this`startTime, this`inputs, this`sorter, this`nonincr, this`lastSampleTimes, this`ledger
      ensures Filled(tcur, given)
      ensures nloops > 0 ==> tcur == tcur0
      ensures inputs == old(inputs) ==> tcur == tcur0
      ensures |inputs| == |old(inputs)|
      ensures old(startTime) != MIN_TIME ==> forall i :: 0 <= i < |inputs| ==> NotReadPast(i, old(inputs)[i].pos, tcur0 + readAhead)
      ensures inputs == old(inputs) || Work(source, inputs) < old(Work(source, inputs))
    {
      hide LedgerOk, NonIncrOk, Insert, Accounted, BoundedDisorder, Ordered, Work, Gap, EndOk, Sorted, Less;
      tcur := tcur0;
      var fill := if startTime == MIN_TIME then MAX_TIME else tcur + readAhead;
      fill := FillInputs(fill);
      if !force && BoundedDisorder(source, readAhead) {
        CaughtUp(source, inputs, out, sorter, floor, readAhead, fill);
      }
      if startTime == MIN_TIME && fill != MAX_TIME {
        AccountedStart(source, inputs, ledger, fill, readAhead);
        tcur := fill - readAhead;
        startTime := tcur;
      }
    }

    /** The writing part of a window. */
    method FlushWindow(tcur: int, ghost given: int)
      requires Filled(tcur, given) && (!force && BoundedDisorder(source, readAhead) ==> tcur <= MAX_TIME)
      modifies this`sorter, this`nonincr, this`out, this`clipped, this`floor
      ensures Filled(tcur, given) && HoldsFrom(tcur)
      ensures var k := LowerBound(old(sorter), Dummy(tcur));
        sorter == old(sorter)[k..] && out == old(out) + Clip(old(sorter)[..k], endTime)
      ensures forall s :: s in nonincr <==> s in old(nonincr) && s.time >= tcur
    {
      hide LedgerOk, NonIncrOk, Insert, Accounted, BoundedDisorder, Ordered, UnreadAbove, EndOk, Sorted, Less, Clip;
      var lastWritten := FlushSorter(tcur);
      assert forall s :: s in sorter ==> s.time >= tcur;
      if |nonincr| > 0 { AgeOffNonIncr(tcur); }
    }

    /** One read-ahead window. Everything before it is flushed, except in the first window, which has nothing before it. */
    method Window(tcur0: int, nloops: nat, ghost given: int) returns (tcur: int)
      requires Between(tcur0, nloops, given) && AnyOpen(inputs)
      modifies this`startTime, this`inputs, this`sorter, this`nonincr, this`lastSampleTimes, this`out
      modifies this`ledger, this`clipped, this`floor
      ensures Between(tcur, nloops + 1, given)
      ensures Work(source, inputs) < old(Work(source, inputs)) ||
              (inputs == old(inputs) && Gap(inputs, tcur) < old(Gap(inputs, tcur0)))
    {
      hide LedgerOk, NonIncrOk, Insert, Accounted, BoundedDisorder, Ordered, UnreadAbove, Work, Gap, EndOk, Sorted, Less, Clip;
      if !force && BoundedDisorder(source, readAhead) && nloops > 0 { TcurInRange(tcur0); }
      tcur := ReadWindow(tcur0, nloops, given);
      if nloops != 0 {
        FlushWindow(tcur, given);
      }
      if inputs == old(inputs) { GapShrinks(inputs, tcur0, readAhead); }
      tcur := tcur + readAhead;
    }

    /**
     The whole run: for inputs of bounded disorder the output file is the offline
     merge of the inputs, and the start time, when not given, is the earliest tag.
     In any run everything accepted has been written or clipped in the end.
     */
    method Run()
      requires Valid() && InOrder() && out == [] && ledger == [] && floor == MIN_TIME && startTime >= MIN_TIME
      modifies this
      ensures Valid()
      ensures Conserved(ledger, out, clipped, sorter) && FatesOk(ledger, force)
      ensures DuplicatesOk(ledger, out, clipped) && NonIncrOk(ledger, nonincr)
      ensures force ==> TagsIncrease(ledger) && TagsMovedByOne(ledger)
      ensures StartFrom(old(startTime)) && ReadEnough(old(startTime))
      ensures forall s :: s in sorter ==> s.time >= MAX_TIME
      ensures !force || TagsBelow(ledger, MAX_TIME) ==> sorter == [] && Conserved(ledger, out, clipped, [])
      ensures !force && BoundedDisorder(source, readAhead) ==>
                IsMergeOf(out, source, old(startTime), endTime) && StartOk(old(startTime))
    {
      hide LedgerOk, NonIncrOk, DuplicatesOk, Conserved, FatesOk, TagsIncrease, TagsMovedByOne, HasTag;
      hide Insert, Accounted, BoundedDisorder, Ordered, Work, Gap, EndOk, Sorted, Less;
      var tcur := startTime;
      var nloops := 0;
      while AnyOpen(inputs) && (!IsSet(endTime) || tcur < endTime + readAhead)
        invariant nloops >= 0 && Between(tcur, nloops, old(startTime))
        decreases Work(source, inputs), Gap(inputs, tcur)
      {
        tcur := Window(tcur, nloops, old(startTime));
        nloops := nloops + 1;
      }
      ReadToTheEnd(tcur, nloops, old(startTime));
      hide Between, ReadEnough;
      Finish(tcur, nloops, old(startTime));
    }

    lemma {:induction false} ReadToTheEnd(tcur: int, nloops: nat, given: int)
      requires Between(tcur, nloops, given)
      requires !(AnyOpen(inputs) && (!IsSet(endTime) || tcur < endTime + readAhead))
      ensures ReadEnough(given)
    {
      hide Valid, InOrder, HoldsFrom, StartFrom, StartOk, BoundedDisorder;
    }

    /** The last flush, when nothing more is to be read. */
    method Finish(ghost tcur: int, ghost nloops: nat, ghost given: int)
      requires Between(tcur, nloops, given)
      requires !(AnyOpen(inputs) && (!IsSet(endTime) || tcur < endTime + readAhead))
      modifies this`out, this`sorter, this`clipped, this`floor
      ensures Valid()
      ensures Conserved(ledger, out, clipped, sorter) && FatesOk(ledger, force)
      ensures DuplicatesOk(ledger, out, clipped) && NonIncrOk(ledger, nonincr)
      ensures force ==> TagsIncrease(ledger) && TagsMovedByOne(ledger)
      ensures StartFrom(given)
      ensures forall s :: s in sorter ==> s.time >= MAX_TIME
      ensures !force || TagsBelow(ledger, MAX_TIME) ==> sorter == [] && Conserved(ledger, out, clipped, [])
      ensures !force && BoundedDisorder(source, readAhead) ==> IsMergeOf(out, source, given, endTime) && StartOk(given)
    {
      hide LedgerOk, NonIncrOk, DuplicatesOk, Conserved, FatesOk, TagsIncrease, TagsMovedByOne, HasTag, TagsBelow;
      hide Insert, Accounted, BoundedDisorder, Ordered, EndOk, Sorted, Less, Clip, LowerBound;
      if !force && BoundedDisorder(source, readAhead) {
        WantedWasRead(tcur, nloops, given);
      }
      var lastWritten := FlushSorter(MAX_TIME);
      LedgerFacts();
      if !force { TagsInRangeBelow(); }
      if TagsBelow(ledger, MAX_TIME) { SorterEmpty(); }
      if !force && BoundedDisorder(source, readAhead) {
        OutputIsWanted(source, inputs, startTime, given, endTime, ledger, out, clipped, lastSampleTimes, nonincr);
      }
    }

    lemma {:induction false} LedgerFacts()
      requires Core()
      ensures Conserved(ledger, out, clipped, sorter) && FatesOk(ledger, force)
      ensures DuplicatesOk(ledger, out, clipped) && NonIncrOk(ledger, nonincr)
      ensures force ==> TagsIncrease(ledger) && TagsMovedByOne(ledger)
    {
    }

    /** The loop stops only when nothing before the end time is left unread. */
    lemma {:induction false} WantedWasRead(tcur: int, nloops: nat, given: int)
      requires Between(tcur, nloops, given) && !force && BoundedDisorder(source, readAhead)
      requires !(AnyOpen(inputs) && (!IsSet(endTime) || tcur < endTime + readAhead))
      ensures AllWantedRead(given) && StartOk(given)
    {
      hide LedgerOk, NonIncrOk, Accounted, EndOk, Sorted, Ordered, BoundedDisorder;
      if nloops > 0 && tcur > MIN_TIME { CaughtUp(source, inputs, out, sorter, floor, readAhead, tcur); }
    }

    /** In an ordered run, a time that every open input has reached is a time tag, so it is in range. */
    lemma {:induction false} TcurInRange(tcur: int)
      requires Valid() && InOrder() && !force && BoundedDisorder(source, readAhead) && AnyOpen(inputs)
      requires forall i :: 0 <= i < |inputs| ==> inputs[i].eof || inputs[i].lastTime >= tcur
      ensures tcur < MAX_TIME - readAhead
    {
      hide LedgerOk, NonIncrOk, Accounted, EndOk;
      if tcur > MIN_TIME {
        CaughtUp(source, inputs, out, sorter, floor, readAhead, tcur);
        var i :| 0 <= i < |inputs| && !inputs[i].eof;
        assert inputs[i].lastTime >= tcur;
      }
    }

    /** When every tag is below the largest time, flushing up to it empties the sorter. */
    lemma {:induction false} SorterEmpty()
      requires Valid() && TagsBelow(ledger, MAX_TIME)
      requires forall i :: 0 <= i < |sorter| ==> sorter[i].time >= MAX_TIME
      ensures sorter == []
    {
      hide LedgerOk, NonIncrOk, Accounted, EndOk, Sorted;
      LedgerFacts();
      if sorter != [] {
        var n := InLedger(ledger, out, clipped, sorter, sorter[0]);
      }
    }

    /** Without forcing no tag is moved, so none reaches the largest time. */
    lemma {:induction false} TagsInRangeBelow()
      requires Valid() && !force
      ensures TagsBelow(ledger, MAX_TIME)
    {
      hide LedgerOk, NonIncrOk, EndOk, Sorted;
      LedgerFacts();
      forall n | 0 <= n < |ledger|
        ensures ledger[n].tag.time < MAX_TIME
      {
        var i, k := EntryWasRead(source, inputs, startTime, ledger, n);
      }
    }

    /** With forcing, none does unless more samples were accepted than the read-ahead has microseconds. */
    lemma {:induction false} ForcedTagsBelow()
      requires Valid() && |ledger| <= readAhead
      ensures TagsBelow(ledger, MAX_TIME)
    {
      hide LedgerOk, NonIncrOk, EndOk, Sorted, FatesOk, TagsMovedByOne, DuplicatesOk, Conserved;
      LedgerFacts();
      forall n | 0 <= n < |ledger|
        ensures ledger[n].orig.time < MAX_TIME - readAhead
      {
        var i, k := EntryWasRead(source, inputs, startTime, ledger, n);
      }
      hide Accounted, Core;
      forall n | 0 <= n < |ledger| && ledger[n].Submitted()
        ensures ledger[n].tag.time < MAX_TIME
      {
        TagGrowth(ledger, force, MAX_TIME - readAhead, n);
      }
    }
  }
}
