/**
 The checker of a merged archive, `merge_verify`: it slides a window over the merge
 stream and looks up every input sample in the part of the stream it holds.
 */
module MergeVerify {
  import opened Samples
  import opened UTime
  import Merge
  import MergeProgram

  datatype Verdict = Present | Missing | Backward

  /** The merge stream is in time order, as the merge program writes it. */
  ghost predicate TimeOrdered(s: seq<Sample>) {
    forall j, k :: 0 <= j < k < |s| ==> s[j].time <= s[k].time
  }

  /** The set in memory holds samples of the part of the stream read so far, and all of those not before `t`. */
  ghost predicate Holds(held: seq<Sample>, merge: seq<Sample>, m: nat, t: int)
    requires m <= |merge|
  {
    && Sorted(held)
    && (forall s :: s in held ==> s in merge[..m])
    && (forall k :: 0 <= k < m && merge[k].time >= t ==> merge[k] in held)
  }

  /** The window held at `tcur` contains exactly the merge samples that an input sample of the window could equal. */
  lemma {:induction false} WindowIsExact(held: seq<Sample>, merge: seq<Sample>, m: nat, tcur: int, readAhead: int, s: Sample)
    requires m <= |merge| && Holds(held, merge, m, tcur - readAhead) && TimeOrdered(merge)
    requires m < |merge| ==> merge[m].time >= tcur + readAhead
    requires tcur - readAhead <= s.time < tcur + readAhead
    ensures s in held <==> s in merge
  {
    if s in merge {
      var k :| 0 <= k < |merge| && merge[k] == s;
    }
  }

  /** Read the merge stream up to the end of the window, dropping duplicates. */
  method ReadMerge(merge: seq<Sample>, m0: nat, held0: seq<Sample>, limit: int, ghost t: int)
      returns (m: nat, held: seq<Sample>, ndups: nat)
    requires m0 <= |merge| && Holds(held0, merge, m0, t)
    ensures m0 <= m <= |merge| && Holds(held, merge, m, t)
    ensures forall k :: m0 <= k < m ==> merge[k].time < limit
    ensures m < |merge| ==> merge[m].time >= limit
    ensures |held| + ndups == |held0| + (m - m0)
  {
    hide Sorted, Less, Insert;
    m, held, ndups := m0, held0, 0;
    while m < |merge| && merge[m].time < limit
      invariant m0 <= m <= |merge| && Holds(held, merge, m, t)
      invariant forall k :: m0 <= k < m ==> merge[k].time < limit
      invariant |held| + ndups == |held0| + (m - m0)
    {
      InsertIsSetInsertion(held, merge[m]);
      if merge[m] in held { ndups := ndups + 1; }
      held := Insert(held, merge[m]);
      m := m + 1;
    }
  }

  /** The verdict on one input sample when the window starts at `tcur`. */
  function Judge(held: seq<Sample>, s: Sample, tcur: int, readAhead: int): Verdict {
    if s.time < tcur - readAhead then Backward else if s in held then Present else Missing
  }

  /** Check one input until its next sample is past the window. */
  method CheckInput(input: seq<Sample>, done: seq<Verdict>, held: seq<Sample>, tcur: int, readAhead: int)
      returns (verdicts: seq<Verdict>)
    requires |done| <= |input| && readAhead > 0
    ensures done <= verdicts && |verdicts| <= |input|
    ensures forall k :: |done| <= k < |verdicts| ==> input[k].time < tcur + readAhead
    ensures forall k :: |done| <= k < |verdicts| ==> verdicts[k] == Judge(held, input[k], tcur, readAhead)
    ensures |verdicts| < |input| ==> input[|verdicts|].time >= tcur + readAhead
  {
    verdicts := done;
    while |verdicts| < |input|
      invariant done <= verdicts && |verdicts| <= |input|
      invariant forall k :: |done| <= k < |verdicts| ==> input[k].time < tcur + readAhead
      invariant forall k :: |done| <= k < |verdicts| ==> verdicts[k] == Judge(held, input[k], tcur, readAhead)
    {
      var samp := input[|verdicts|];
      if samp.time < tcur - readAhead {
        verdicts := verdicts + [Backward];
      } else if samp.time >= tcur + readAhead {
        break;
      } else if samp !in held {
        verdicts := verdicts + [Missing];
      } else {
        verdicts := verdicts + [Present];
      }
    }
  }

  /** A sample is called missing only when it is not in the merge stream, and present only when it is. */
  ghost predicate Sound(merge: seq<Sample>, input: seq<Sample>, verdicts: seq<Verdict>) {
    |verdicts| <= |input| &&
    forall k :: 0 <= k < |verdicts| ==>
      (verdicts[k] == Missing ==> input[k] !in merge) && (verdicts[k] == Present ==> input[k] in merge)
  }

  /** In one input, a later sample is at most `readAhead` older than an earlier one. */
  ghost predicate Disordered(input: seq<Sample>, readAhead: int) {
    forall j, k :: 0 <= j < k < |input| ==> input[k].time >= input[j].time - readAhead
  }

  /** Only samples from before the first window are called backward. */
  ghost predicate BackwardOnlyBefore(input: seq<Sample>, verdicts: seq<Verdict>, t: int) {
    |verdicts| <= |input| &&
    forall k :: 0 <= k < |verdicts| && verdicts[k] == Backward ==> input[k].time < t
  }

  /** What is known of the verdicts on one input, given how far the checking has got. */
  ghost predicate Checked(merge: seq<Sample>, input: seq<Sample>, verdicts: seq<Verdict>, start: int, readAhead: int) {
    && |verdicts| <= |input|
    && (TimeOrdered(merge) ==> Sound(merge, input, verdicts))
    && (Disordered(input, readAhead) ==> BackwardOnlyBefore(input, verdicts, start - readAhead))
  }

  /** The next sample of the input, if there is one, is not before `t`. */
  ghost predicate Reached(input: seq<Sample>, verdicts: seq<Verdict>, t: int) {
    |verdicts| <= |input| && (|verdicts| < |input| ==> input[|verdicts|].time >= t)
  }

  /** One window of one input: the verdicts stay sound, and bounded disorder keeps in-window samples from being called backward. */
  lemma {:induction false} CheckedInput(merge: seq<Sample>, held: seq<Sample>, m: nat, input: seq<Sample>, done: seq<Verdict>, verdicts: seq<Verdict>,
                     start: int, tcur: int, readAhead: int)
    requires m <= |merge| && Holds(held, merge, m, tcur - readAhead) && readAhead > 0
    requires m < |merge| ==> merge[m].time >= tcur + readAhead
    requires done <= verdicts && |verdicts| <= |input|
    requires forall k :: |done| <= k < |verdicts| ==> input[k].time < tcur + readAhead
    requires forall k :: |done| <= k < |verdicts| ==> verdicts[k] == Judge(held, input[k], tcur, readAhead)
    requires Checked(merge, input, done, start, readAhead)
    requires tcur == start || Reached(input, done, tcur)
    ensures Checked(merge, input, verdicts, start, readAhead)
  {
    hide Holds;
    if TimeOrdered(merge) {
      forall k | |done| <= k < |verdicts|
        ensures (verdicts[k] == Missing ==> input[k] !in merge) && (verdicts[k] == Present ==> input[k] in merge)
      {
        if input[k].time >= tcur - readAhead {
          WindowIsExact(held, merge, m, tcur, readAhead, input[k]);
        }
      }
    }
  }

  // ------------------------------------------------- which window judges a sample

  /** The first window from `tcur` on that reaches past time `t`. */
  ghost function WindowFrom(tcur: int, t: int, readAhead: int): (w: int)
    requires readAhead > 0
    ensures w >= tcur
    decreases if t >= tcur then t - tcur else 0
  {
    if t < tcur + readAhead then tcur else WindowFrom(tcur + readAhead, t, readAhead)
  }

  /** The window in which sample `k` is read: the first that reaches past it and past all before it. */
  ghost function WindowOf(input: seq<Sample>, k: nat, start: int, readAhead: int): (w: int)
    requires readAhead > 0 && k < |input|
    ensures w >= start
  {
    WindowFrom(if k == 0 then start else WindowOf(input, k - 1, start, readAhead), input[k].time, readAhead)
  }

  /** Each sample judged was judged in its window, none of them past `end`; the next one's window is `tcur` or later. */
  ghost predicate Timed(input: seq<Sample>, verdicts: seq<Verdict>, start: int, readAhead: int, tcur: int, end: int)
    requires readAhead > 0
  {
    && |verdicts| <= |input|
    && (forall k :: 0 <= k < |verdicts| ==>
          && (verdicts[k] == Backward <==> input[k].time < WindowOf(input, k, start, readAhead) - readAhead)
          && WindowOf(input, k, start, readAhead) <= end)
    && (|verdicts| < |input| ==>
          WindowOf(input, |verdicts|, start, readAhead) == WindowFrom(tcur, input[|verdicts|].time, readAhead))
  }

  lemma {:induction false} JudgedInWindow(input: seq<Sample>, done: nat, n: nat, start: int, tcur: int, readAhead: int)
    requires readAhead > 0 && done <= n < |input|
    requires WindowOf(input, done, start, readAhead) == WindowFrom(tcur, input[done].time, readAhead)
    requires forall k :: done <= k < n ==> input[k].time < tcur + readAhead
    ensures WindowOf(input, n, start, readAhead) == WindowFrom(tcur, input[n].time, readAhead)
  {
    if done < n {
      JudgedInWindow(input, done, n - 1, start, tcur, readAhead);
    }
  }

  /** One window of one input. */
  lemma {:induction false} TimedInput(held: seq<Sample>, input: seq<Sample>, done: seq<Verdict>, verdicts: seq<Verdict>,
                                      start: int, tcur: int, readAhead: int, end: int)
    requires readAhead > 0 && tcur <= end && Timed(input, done, start, readAhead, tcur, end)
    requires done <= verdicts && |verdicts| <= |input|
    requires forall k :: |done| <= k < |verdicts| ==> input[k].time < tcur + readAhead
    requires forall k :: |done| <= k < |verdicts| ==> verdicts[k] == Judge(held, input[k], tcur, readAhead)
    requires |verdicts| < |input| ==> input[|verdicts|].time >= tcur + readAhead
    ensures Timed(input, verdicts, start, readAhead, tcur + readAhead, end)
  {
    hide WindowOf;
    forall k | |done| <= k < |verdicts|
      ensures WindowOf(input, k, start, readAhead) == tcur
    {
      JudgedInWindow(input, |done|, k, start, tcur, readAhead);
    }
    if |verdicts| < |input| {
      JudgedInWindow(input, |done|, |verdicts|, start, tcur, readAhead);
    }
  }

  lemma {:induction false} TimedDone(input: seq<Sample>, verdicts: seq<Verdict>, start: int, readAhead: int, tcur: int, end: int)
    requires readAhead > 0 && Timed(input, verdicts, start, readAhead, tcur, end) && |verdicts| == |input|
    ensures Timed(input, verdicts, start, readAhead, tcur + readAhead, end)
  {
  }

  lemma {:induction false} WindowsGoOn(input: seq<Sample>, j: nat, k: nat, start: int, readAhead: int)
    requires readAhead > 0 && j <= k < |input|
    ensures WindowOf(input, j, start, readAhead) <= WindowOf(input, k, start, readAhead)
  {
    if j < k {
      WindowsGoOn(input, j, k - 1, start, readAhead);
    }
  }

  /** When no window is left, a sample has been judged exactly if its window was not past the end. */
  ghost predicate JudgedExactly(input: seq<Sample>, verdicts: seq<Verdict>, start: int, readAhead: int, end: int)
    requires readAhead > 0
  {
    && |verdicts| <= |input|
    && (forall k :: 0 <= k < |input| ==> (k < |verdicts| <==> WindowOf(input, k, start, readAhead) <= end))
    && (forall k :: 0 <= k < |verdicts| ==>
          (verdicts[k] == Backward <==> input[k].time < WindowOf(input, k, start, readAhead) - readAhead))
  }

  lemma {:induction false} TimedIsExact(input: seq<Sample>, verdicts: seq<Verdict>, start: int, readAhead: int, tcur: int, end: int)
    requires readAhead > 0 && Timed(input, verdicts, start, readAhead, tcur, end) && (tcur > end || |verdicts| == |input|)
    ensures JudgedExactly(input, verdicts, start, readAhead, end)
  {
    hide WindowOf;
    forall k | |verdicts| <= k < |input|
      ensures WindowOf(input, k, start, readAhead) > end
    {
      WindowsGoOn(input, |verdicts|, k, start, readAhead);
    }
  }

  /** With bounded disorder, exactly the samples more than the read-ahead before the start are called backward. */
  lemma {:induction false} BackwardIff(merge: seq<Sample>, input: seq<Sample>, verdicts: seq<Verdict>, start: int, readAhead: int, end: int, k: nat)
    requires readAhead > 0 && Checked(merge, input, verdicts, start, readAhead) && Disordered(input, readAhead)
    requires JudgedExactly(input, verdicts, start, readAhead, end) && k < |verdicts|
    ensures verdicts[k] == Backward <==> input[k].time < start - readAhead
  {
    hide WindowOf;
    assert WindowOf(input, k, start, readAhead) >= start;
  }

  /** Forget the merge samples before the window. */
  lemma {:induction false} HoldsTrim(held: seq<Sample>, merge: seq<Sample>, m: nat, t: int, t': int)
    requires m <= |merge| && Holds(held, merge, m, t) && t <= t'
    ensures Holds(held[LowerBound(held, Dummy(t'))..], merge, m, t')
    ensures forall s :: s in held[LowerBound(held, Dummy(t'))..] ==> s.time >= t'
  {
    hide Less, Sorted, LowerBound;
    var k := LowerBound(held, Dummy(t'));
    LowerBoundSplitsByTime(held, t');
    SortedSplit(held, k);
    var kept := held[k..];
    forall j | 0 <= j < m && merge[j].time >= t' ensures merge[j] in kept {
      assert merge[j] in held;
      assert merge[j] in held[..k] || merge[j] in kept;
    }
    forall s | s in kept ensures s in merge[..m] {
      assert s in held;
    }
  }

  /** Check every input that has not ended against the window held in memory. */
  method CheckInputs(inputs: seq<seq<Sample>>, done: seq<seq<Verdict>>, ieof0: seq<bool>, held: seq<Sample>, tcur: int, readAhead: int,
                     ghost merge: seq<Sample>, ghost m: nat, ghost start: int, ghost end: int, ghost finished0: set<nat>)
      returns (verdicts: seq<seq<Verdict>>, ieof: seq<bool>, n: nat, ghost finished: set<nat>)
    requires |done| == |inputs| == |ieof0| && readAhead > 0 && tcur <= end
    requires forall i :: 0 <= i < |inputs| ==> Timed(inputs[i], done[i], start, readAhead, tcur, end)
    requires m <= |merge| && Holds(held, merge, m, tcur - readAhead) && (m < |merge| ==> merge[m].time >= tcur + readAhead)
    requires forall i :: 0 <= i < |inputs| ==> Checked(merge, inputs[i], done[i], start, readAhead)
    requires forall i :: 0 <= i < |inputs| ==> tcur == start || Reached(inputs[i], done[i], tcur)
    requires forall i :: 0 <= i < |inputs| && ieof0[i] ==> |done[i]| == |inputs[i]|
    requires forall i :: i in finished0 ==> i < |inputs| && ieof0[i]
    ensures |verdicts| == |inputs| == |ieof|
    ensures forall i :: 0 <= i < |inputs| ==> Checked(merge, inputs[i], verdicts[i], start, readAhead)
    ensures forall i :: 0 <= i < |inputs| ==> Reached(inputs[i], verdicts[i], tcur + readAhead)
    ensures forall i :: 0 <= i < |inputs| ==> Timed(inputs[i], verdicts[i], start, readAhead, tcur + readAhead, end)
    ensures forall i :: 0 <= i < |inputs| && ieof[i] ==> |verdicts[i]| == |inputs[i]|
    ensures forall i :: i in finished ==> i < |inputs| && ieof[i]
    ensures |finished| == |finished0| + n
  {
    hide Sorted, Less, Holds, Checked, Timed;
    verdicts, ieof, n, finished := done, ieof0, 0, finished0;
    for ii := 0 to |inputs|
      invariant |verdicts| == |inputs| == |ieof|
      invariant forall i :: 0 <= i < |inputs| ==> Checked(merge, inputs[i], verdicts[i], start, readAhead)
      invariant forall i :: 0 <= i < ii ==> Reached(inputs[i], verdicts[i], tcur + readAhead)
      invariant forall i :: 0 <= i < ii ==> Timed(inputs[i], verdicts[i], start, readAhead, tcur + readAhead, end)
      invariant forall i :: ii <= i < |inputs| ==> verdicts[i] == done[i] && ieof[i] == ieof0[i]
      invariant forall i :: 0 <= i < |inputs| && ieof[i] ==> |verdicts[i]| == |inputs[i]|
      invariant forall i :: i in finished ==> i < |inputs| && ieof[i]
      invariant |finished| == |finished0| + n
    {
      if !ieof[ii] {
        CheckedBounds(merge, inputs[ii], verdicts[ii], start, readAhead);
        var v := CheckInput(inputs[ii], verdicts[ii], held, tcur, readAhead);
        CheckedInput(merge, held, m, inputs[ii], verdicts[ii], v, start, tcur, readAhead);
        TimedInput(held, inputs[ii], verdicts[ii], v, start, tcur, readAhead, end);
        if |v| == |inputs[ii]| {
          ieof := ieof[ii := true];
          n := n + 1;
          finished := finished + {ii};
        }
        verdicts := verdicts[ii := v];
      } else {
        TimedDone(inputs[ii], verdicts[ii], start, readAhead, tcur, end);
      }
    }
  }

  lemma {:induction false} CheckedBounds(merge: seq<Sample>, input: seq<Sample>, verdicts: seq<Verdict>, start: int, readAhead: int)
    requires Checked(merge, input, verdicts, start, readAhead)
    ensures |verdicts| <= |input|
  {
  }

  /**
   The window loop. `headerEof` marks inputs that ended before their first sample;
   they do not count towards the loop's end. Exactly those samples are judged whose
   window starts at or before the end time.
   */
  method Verify(merge: seq<Sample>, inputs: seq<seq<Sample>>, headerEof: seq<bool>, start: int, end: int, readAhead: int)
      returns (verdicts: seq<seq<Verdict>>)
    requires readAhead > 0 && |headerEof| == |inputs|
    requires forall i :: 0 <= i < |inputs| && headerEof[i] ==> inputs[i] == []
    ensures |verdicts| == |inputs|
    ensures forall i :: 0 <= i < |inputs| ==> Checked(merge, inputs[i], verdicts[i], start, readAhead)
    ensures forall i :: 0 <= i < |inputs| ==> JudgedExactly(inputs[i], verdicts[i], start, readAhead, end)
    ensures start <= end ==> forall i :: 0 <= i < |inputs| ==> Reached(inputs[i], verdicts[i], end + 1)
  {
    hide Sorted, Less, Insert, Holds, Checked, LowerBound, Timed, JudgedExactly;
    verdicts := seq(|inputs|, _ => []);
    var held: seq<Sample> := [];
    var m := 0;
    var ieof := headerEof;
    var neof := 0;
    ghost var finished: set<nat> := {};
    var tcur := start;
    InitialChecks(merge, inputs, start, readAhead, end);
    while neof < |inputs| && tcur <= end
      invariant |verdicts| == |inputs| == |ieof| && m <= |merge| && Holds(held, merge, m, tcur - readAhead)
      invariant forall i :: 0 <= i < |inputs| ==> Checked(merge, inputs[i], verdicts[i], start, readAhead)
      invariant forall i :: 0 <= i < |inputs| ==> tcur == start || Reached(inputs[i], verdicts[i], tcur)
      invariant forall i :: 0 <= i < |inputs| ==> Timed(inputs[i], verdicts[i], start, readAhead, tcur, end)
      invariant forall i :: 0 <= i < |inputs| && ieof[i] ==> |verdicts[i]| == |inputs[i]|
      invariant forall i :: i in finished ==> i < |inputs| && ieof[i]
      invariant tcur >= start && |finished| == neof
      invariant tcur > start ==> forall s :: s in held ==> s.time >= tcur - readAhead
      decreases end - tcur
    {
      var n, ndups;
      m, held, ndups := ReadMerge(merge, m, held, tcur + readAhead, tcur - readAhead);
      verdicts, ieof, n, finished := CheckInputs(inputs, verdicts, ieof, held, tcur, readAhead, merge, m, start, end, finished);
      neof := neof + n;
      HoldsTrim(held, merge, m, tcur - readAhead, tcur);
      held := held[LowerBound(held, Dummy(tcur))..];
      tcur := tcur + readAhead;
    }
    if neof >= |inputs| { AllFinished(finished, |inputs|); }
    forall i | 0 <= i < |inputs|
      ensures JudgedExactly(inputs[i], verdicts[i], start, readAhead, end)
    {
      TimedIsExact(inputs[i], verdicts[i], start, readAhead, tcur, end);
    }
  }

  lemma {:induction false} AllFinished(finished: set<nat>, n: nat)
    requires |finished| >= n && forall i :: i in finished ==> i < n
    ensures forall i :: 0 <= i < n ==> i in finished
  {
    if n > 0 {
      if n - 1 !in finished {
        SetBound(finished, n - 1);
      } else {
        AllFinished(finished - {n - 1}, n - 1);
      }
    }
  }

  lemma {:induction false} SetBound(s: set<nat>, n: nat)
    requires forall i :: i in s ==> i < n
    ensures |s| <= n
  {
    if n > 0 {
      SetBound(s - {n - 1}, n - 1);
    } else {
      assert s == {};
    }
  }

  lemma {:induction false} InitialChecks(merge: seq<Sample>, inputs: seq<seq<Sample>>, start: int, readAhead: int, end: int)
    requires readAhead > 0
    ensures forall i :: 0 <= i < |inputs| ==> Timed(inputs[i], [], start, readAhead, start, end)
    ensures Holds([], merge, 0, start - readAhead)
    ensures forall i :: 0 <= i < |inputs| ==> Checked(merge, inputs[i], [], start, readAhead)
  {
  }

  // ----------------------------------------------------------- merge, then verify

  function AllMatched(input: seq<Sample>): (r: seq<Merge.Item>) {
    seq(|input|, k requires 0 <= k < |input| => Merge.Item(input[k], true))
  }

  ghost predicate InPeriod(s: Sample, start: int, end: int) {
    start <= s.time && (IsSet(end) ==> s.time < end)
  }

  /** Verdicts on an archive that is the merge of the very inputs: no sample within the merged period is reported. */
  lemma {:induction false} MergedIsPresent(out: seq<Sample>, inputs: seq<seq<Sample>>, source: seq<seq<Merge.Item>>, verdicts: seq<Verdict>,
                        i: nat, k: nat, start: int, end: int, readAhead: int)
    requires i < |inputs| == |source| && forall n :: 0 <= n < |inputs| ==> source[n] == AllMatched(inputs[n])
    requires Merge.IsMergeOf(out, source, start, end) && readAhead > 0
    requires Checked(out, inputs[i], verdicts, start, readAhead) && Disordered(inputs[i], readAhead)
    requires k < |verdicts| <= |inputs[i]| && InPeriod(inputs[i][k], start, end)
    ensures verdicts[k] == Present
  {
    var s := inputs[i][k];
    assert source[i][k] == Merge.Item(s, true);
    assert Merge.Wanted(source, start, end, s);
    assert s in out;
    assert TimeOrdered(out);
  }

  lemma {:induction false} MatchedDisorder(inputs: seq<seq<Sample>>, source: seq<seq<Merge.Item>>, readAhead: int)
    requires |inputs| == |source| && forall n :: 0 <= n < |inputs| ==> source[n] == AllMatched(inputs[n])
    requires forall n :: 0 <= n < |inputs| ==> Disordered(inputs[n], readAhead)
    ensures Merge.BoundedDisorder(source, readAhead)
  {
    forall i, j, k | 0 <= i < |source| && 0 <= j < k < |source[i]|
      ensures source[i][k].samp.time >= source[i][j].samp.time - readAhead
    {
      assert Disordered(inputs[i], readAhead);
      assert source[i][k].samp == inputs[i][k] && source[i][j].samp == inputs[i][j];
    }
  }

  /**
   Merging inputs of bounded disorder and then verifying the archive against them:
   every sample within the merged period that is examined is found.
   */
  method MergeThenVerify(inputs: seq<seq<Sample>>, start: int, end: int, readAhead: int)
      returns (out: seq<Sample>, verdicts: seq<seq<Verdict>>)
    requires 0 < readAhead < MAX_TIME && start >= MIN_TIME
    requires forall i, k :: 0 <= i < |inputs| && 0 <= k < |inputs[i]| ==>
               MIN_TIME < inputs[i][k].time < MAX_TIME - readAhead
    requires forall i :: 0 <= i < |inputs| ==> Disordered(inputs[i], readAhead)
    ensures |verdicts| == |inputs|
    ensures forall i :: 0 <= i < |inputs| ==> |verdicts[i]| <= |inputs[i]|
    ensures start <= end ==> forall i :: 0 <= i < |inputs| ==> Reached(inputs[i], verdicts[i], end + 1)
    ensures forall i, k :: 0 <= i < |inputs| && 0 <= k < |verdicts[i]| && InPeriod(inputs[i][k], start, end)
              ==> verdicts[i][k] == Present
  {
    hide Disordered, Merge.BoundedDisorder, Merge.IsMergeOf, Checked, Reached;
    var none := seq(|inputs|, _ => false);
    var source := seq(|inputs|, i requires 0 <= i < |inputs| => AllMatched(inputs[i]));
    MatchedDisorder(inputs, source, readAhead);
    var program := new MergeProgram.NidsMerge(source, none, readAhead, start, end, false);
    program.Run();
    out := program.out;
    verdicts := Verify(out, inputs, none, start, end, readAhead);
    forall i | 0 <= i < |inputs| ensures |verdicts[i]| <= |inputs[i]| {
      CheckedBounds(out, inputs[i], verdicts[i], start, readAhead);
    }
    forall i, k | 0 <= i < |inputs| && 0 <= k < |verdicts[i]| && InPeriod(inputs[i][k], start, end)
      ensures verdicts[i][k] == Present
    {
      MergedIsPresent(out, inputs, source, verdicts[i], i, k, start, end, readAhead);
    }
  }
}
