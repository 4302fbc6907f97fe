/** Sample counters of `data_stats`: what one sample adds to them, and what a whole stream of samples amounts to. */
module Counters {
  import opened Values

  /** A 32-bit sample id. */
  datatype Id = Id(bits: bv32)

  datatype Kind = Chars | Floats | Other

  /** A sample as the statistics see it: raw text for character samples, values for float and double samples. */
  datatype Sample = Sample(time: int, id: Id, bytes: nat, kind: Kind, text: string, vals: seq<Num>)

  const USECS_PER_MSEC := 1000
  const INT_MAX: int := 0x7fff_ffff
  const INT_MIN: int := -0x8000_0000

  datatype Counter = Counter(t1s: int, t2s: int, nsamps: nat, minlens: nat, maxlens: nat, totalBytes: nat,
                             minDelta: int, maxDelta: int,
                             sums: seq<real>, nnans: seq<nat>, values: seq<seq<Num>>, rawmsg: seq<string>, times: seq<int>)
  {
    ghost predicate Ok() { |sums| == |nnans| == |values| }
  }

  /** A counter after `reset`. */
  function Empty(): (c: Counter)
    ensures c.Ok()
  {
    Counter(0, 0, 0, 0, 0, 0, 0, 0, [], [], [], [], [])
  }

  /** Integer division truncating towards zero. */
  function Quotient(a: int, b: int): int
    requires b > 0
  {
    if a >= 0 then a / b else -((-a) / b)
  }

  /** Conversion of a 64-bit integer to a 32-bit one. */
  function Int32(x: int): int {
    var y := x % 0x1_0000_0000;
    if y > INT_MAX then y - 0x1_0000_0000 else y
  }

  /** Milliseconds between two samples, rounded. */
  function DeltaT(prev: int, t: int): int { Int32(Quotient(t - prev + USECS_PER_MSEC / 2, USECS_PER_MSEC)) }

  /** The text of a raw sample without a trailing NUL. */
  function Message(text: string): string {
    if |text| > 0 && text[|text| - 1] == '\0' then text[..|text| - 1] else text
  }

  // --------------------------------------------------------- what one sample adds

  function Grow<T>(s: seq<T>, n: nat, zero: T): (r: seq<T>)
    ensures |r| == if n > |s| then n else |s|
    ensures forall i :: 0 <= i < |r| ==> r[i] == if i < |s| then s[i] else zero
  {
    if n > |s| then s + seq(n - |s|, _ => zero) else s
  }

  function AddValues(c: Counter, vals: seq<Num>, enableData: bool): (r: Counter)
    requires c.Ok()
    ensures r.Ok()
  {
    var sums, nnans, values := Grow(c.sums, |vals|, 0.0), Grow(c.nnans, |vals|, 0), Grow(c.values, |vals|, []);
    c.(sums := seq(|sums|, i requires 0 <= i < |sums| => if i < |vals| && vals[i].Num? then sums[i] + vals[i].v else sums[i]),
       nnans := seq(|nnans|, i requires 0 <= i < |nnans| => if i < |vals| && vals[i].NaN? then nnans[i] + 1 else nnans[i]),
       values := seq(|values|, i requires 0 <= i < |values| => if i < |vals| && enableData then values[i] + [vals[i]] else values[i]))
  }

  function AddData(c: Counter, s: Sample, enableData: bool): (r: Counter)
    requires c.Ok()
    ensures r.Ok()
  {
    var c := if enableData then c.(times := c.times + [s.time]) else c;
    if s.kind == Chars && enableData then c.(rawmsg := [Message(s.text)])
    else if s.kind == Floats then AddValues(c, s.vals, enableData)
    else c
  }

  /** `accumulateSample`. */
  function Accumulate(c: Counter, s: Sample, enableData: bool): (r: Counter)
    requires c.Ok()
    ensures r.Ok()
  {
    var first := c.nsamps == 0;
    AddData(
      c.(t1s := if first then s.time else c.t1s,
         t2s := s.time,
         minDelta := if first then INT_MAX else Min(c.minDelta, DeltaT(c.t2s, s.time)),
         maxDelta := if first then INT_MIN else Max(c.maxDelta, DeltaT(c.t2s, s.time)),
         totalBytes := c.totalBytes + s.bytes,
         minlens := if first then s.bytes else Min(c.minlens, s.bytes),
         maxlens := if first then s.bytes else Max(c.maxlens, s.bytes),
         nsamps := c.nsamps + 1),
      s, enableData)
  }

  /** `accumulateData`, growing the per-variable statistics and then going through the values one by one. */
  method AccumulateData(c0: Counter, s: Sample, enableData: bool) returns (c: Counter)
    requires c0.Ok()
    ensures c == AddData(c0, s, enableData)
  {
    c := c0;
    if enableData {
      c := c.(times := c.times + [s.time]);
    }
    if s.kind == Chars && enableData {
      return c.(rawmsg := [Message(s.text)]);
    }
    if s.kind != Floats {
      return;
    }
    ghost var before := c;
    var nvalues := |s.vals|;
    var sums, nnans, values := c.sums, c.nnans, c.values;
    if nvalues > |sums| {
      sums, nnans, values := Grow(sums, nvalues, 0.0), Grow(nnans, nvalues, 0), Grow(values, nvalues, []);
    }
    sums, nnans, values := AddColumns(sums, nnans, values, s.vals, enableData);
    ghost var target := AddValues(before, s.vals, enableData);
    assert sums == target.sums;
    assert nnans == target.nnans;
    assert values == target.values;
    c := c.(sums := sums, nnans := nnans, values := values);
  }

  /** The loop over the values of one sample. */
  method AddColumns(sums0: seq<real>, nnans0: seq<nat>, values0: seq<seq<Num>>, vals: seq<Num>, enableData: bool)
      returns (sums: seq<real>, nnans: seq<nat>, values: seq<seq<Num>>)
    requires |vals| <= |sums0| == |nnans0| == |values0|
    ensures |sums| == |nnans| == |values| == |sums0|
    ensures forall j :: 0 <= j < |sums| ==> sums[j] == if j < |vals| && vals[j].Num? then sums0[j] + vals[j].v else sums0[j]
    ensures forall j :: 0 <= j < |nnans| ==> nnans[j] == if j < |vals| && vals[j].NaN? then nnans0[j] + 1 else nnans0[j]
    ensures forall j :: 0 <= j < |values| ==> values[j] == if j < |vals| && enableData then values0[j] + [vals[j]] else values0[j]
  {
    sums, nnans, values := sums0, nnans0, values0;
    for i := 0 to |vals|
      invariant |sums| == |nnans| == |values| == |sums0|
      invariant forall j :: 0 <= j < |sums| ==> sums[j] == if j < i && vals[j].Num? then sums0[j] + vals[j].v else sums0[j]
      invariant forall j :: 0 <= j < |nnans| ==> nnans[j] == if j < i && vals[j].NaN? then nnans0[j] + 1 else nnans0[j]
      invariant forall j :: 0 <= j < |values| ==> values[j] == if j < i && enableData then values0[j] + [vals[j]] else values0[j]
    {
      var value := vals[i];
      if enableData {
        values := values[i := values[i] + [value]];
      }
      if value.NaN? {
        nnans := nnans[i := nnans[i] + 1];
      } else {
        sums := sums[i := sums[i] + value.v];
      }
    }
  }

  // ------------------------------------------------- what a stream of samples means

  /** A fresh counter fed with the samples of `q` in order. */
  ghost function Fold(q: seq<Sample>, enableData: bool): (c: Counter)
    ensures c.Ok()
  {
    if q == [] then Empty() else Accumulate(Fold(q[..|q| - 1], enableData), q[|q| - 1], enableData)
  }

  lemma {:induction false} FoldSnoc(q: seq<Sample>, s: Sample, enableData: bool)
    ensures Fold([], enableData) == Empty()
    ensures Fold(q + [s], enableData) == Accumulate(Fold(q, enableData), s, enableData)
  {
    hide Accumulate;
    assert (q + [s])[..|q|] == q;
  }

  ghost function SumBytes(q: seq<Sample>): nat {
    if q == [] then 0 else SumBytes(q[..|q| - 1]) + q[|q| - 1].bytes
  }

  /** One more sample and the counts, times, sizes and gaps of the counter. */
  lemma {:induction false} AccumulateScalars(c: Counter, s: Sample, enableData: bool)
    requires c.Ok()
    ensures var r := Accumulate(c, s, enableData); var first := c.nsamps == 0;
      && r.nsamps == c.nsamps + 1 && r.t1s == (if first then s.time else c.t1s) && r.t2s == s.time
      && r.totalBytes == c.totalBytes + s.bytes
      && r.minlens == (if first then s.bytes else Min(c.minlens, s.bytes))
      && r.maxlens == (if first then s.bytes else Max(c.maxlens, s.bytes))
      && r.minDelta == (if first then INT_MAX else Min(c.minDelta, DeltaT(c.t2s, s.time)))
      && r.maxDelta == (if first then INT_MIN else Max(c.maxDelta, DeltaT(c.t2s, s.time)))
  {
  }

  ghost predicate CountsAndTimes(q: seq<Sample>, c: Counter) {
    c.nsamps == |q| && c.totalBytes == SumBytes(q) && (q != [] ==> c.t1s == q[0].time && c.t2s == q[|q| - 1].time)
  }

  ghost predicate LengthRange(q: seq<Sample>, c: Counter) {
    && (forall k :: 0 <= k < |q| ==> c.minlens <= q[k].bytes <= c.maxlens)
    && (q != [] ==> exists k :: 0 <= k < |q| && q[k].bytes == c.minlens)
    && (q != [] ==> exists k :: 0 <= k < |q| && q[k].bytes == c.maxlens)
  }

  /** The gap before sample `k`. */
  ghost function GapBefore(q: seq<Sample>, k: nat): int
    requires 1 <= k < |q|
  {
    DeltaT(q[k - 1].time, q[k].time)
  }

  lemma {:induction false} Int32InRange(x: int)
    ensures INT_MIN <= Int32(x) <= INT_MAX
  {
  }

  /**
   As a 32-bit count, the gap is the nearest millisecond, halves going up, unless a sample
   is more than half a millisecond earlier than the one before it; then the gap
   comes out half to one and a half milliseconds later than it is.
   */
  lemma {:induction false} GapIsNearest(prev: int, t: int)
    requires INT_MIN * USECS_PER_MSEC < t - prev < INT_MAX * USECS_PER_MSEC
    ensures t - prev >= -500 ==> -500 <= t - prev - DeltaT(prev, t) * USECS_PER_MSEC < 500
    ensures t - prev < -500 ==> 500 <= DeltaT(prev, t) * USECS_PER_MSEC - (t - prev) < 1500
  {
    var x := t - prev + 500;
    if x < 0 {
      assert Quotient(x, 1000) == -((-x) / 1000);
    }
  }

  ghost predicate GapRange(q: seq<Sample>, c: Counter) {
    && (forall k :: 1 <= k < |q| ==> c.minDelta <= GapBefore(q, k) <= c.maxDelta)
    && (|q| > 1 ==> exists k :: 1 <= k < |q| && GapBefore(q, k) == c.minDelta)
    && (|q| > 1 ==> exists k :: 1 <= k < |q| && GapBefore(q, k) == c.maxDelta)
  }

  lemma {:induction false} LengthSnoc(l: seq<Sample>, c: Counter, s: Sample, r: Counter)
    requires LengthRange(l, c) && l != []
    requires r.minlens == Min(c.minlens, s.bytes) && r.maxlens == Max(c.maxlens, s.bytes)
    ensures LengthRange(l + [s], r)
  {
    var q := l + [s];
    var k1 :| 0 <= k1 < |l| && l[k1].bytes == c.minlens;
    var k2 :| 0 <= k2 < |l| && l[k2].bytes == c.maxlens;
    assert q[k1] == l[k1] && q[k2] == l[k2] && q[|l|] == s;
  }

  lemma {:induction false} GapSnoc(l: seq<Sample>, c: Counter, s: Sample, r: Counter)
    requires GapRange(l, c) && l != [] && (|l| == 1 ==> c.minDelta == INT_MAX && c.maxDelta == INT_MIN)
    requires var d := DeltaT(l[|l| - 1].time, s.time); r.minDelta == Min(c.minDelta, d) && r.maxDelta == Max(c.maxDelta, d)
    ensures GapRange(l + [s], r)
  {
    var q := l + [s];
    Int32InRange(Quotient(s.time - l[|l| - 1].time + USECS_PER_MSEC / 2, USECS_PER_MSEC));
    hide DeltaT;
    assert GapBefore(q, |l|) == DeltaT(l[|l| - 1].time, s.time);
    assert forall k :: 1 <= k < |l| ==> GapBefore(q, k) == GapBefore(l, k);
    if |l| > 1 {
      var k1 :| 1 <= k1 < |l| && GapBefore(l, k1) == c.minDelta;
      var k2 :| 1 <= k2 < |l| && GapBefore(l, k2) == c.maxDelta;
      assert GapBefore(q, k1) == c.minDelta && GapBefore(q, k2) == c.maxDelta;
    }
  }

  lemma {:induction false} SingleRanges(s: Sample, c: Counter)
    requires c.minlens == c.maxlens == s.bytes
    ensures LengthRange([s], c) && GapRange([s], c)
  {
    assert [s][0].bytes == c.minlens;
  }

  /** The counts, time range, sizes and gaps in `c` are those of the stream `q`. */
  ghost predicate Describes(c: Counter, q: seq<Sample>) {
    && CountsAndTimes(q, c) && LengthRange(q, c) && GapRange(q, c)
    && (|q| == 1 ==> c.minDelta == INT_MAX && c.maxDelta == INT_MIN)
  }

  lemma {:induction false} DescribesSnoc(c: Counter, l: seq<Sample>, s: Sample, enableData: bool)
    requires c.Ok() && Describes(c, l)
    ensures Describes(Accumulate(c, s, enableData), l + [s])
  {
    var r := Accumulate(c, s, enableData);
    AccumulateScalars(c, s, enableData);
    hide Accumulate, DeltaT, LengthRange, GapRange;
    assert (l + [s])[..|l|] == l;
    if l == [] {
      assert l + [s] == [s];
      SingleRanges(s, r);
    } else {
      LengthSnoc(l, c, s, r);
      GapSnoc(l, c, s, r);
    }
  }

  /** A folded counter describes its stream, as the report prints it. */
  lemma {:induction false} FoldMeaning(q: seq<Sample>, enableData: bool)
    ensures Describes(Fold(q, enableData), q)
  {
    if q != [] {
      var l, s := q[..|q| - 1], q[|q| - 1];
      assert q == l + [s];
      FoldMeaning(l, enableData);
      hide Describes, Accumulate;
      DescribesSnoc(Fold(l, enableData), l, s, enableData);
    }
  }

  /** The values of variable `i` in the float samples of a stream. */
  ghost function Column(q: seq<Sample>, i: nat): seq<Num> {
    if q == [] then []
    else
      var s := q[|q| - 1];
      Column(q[..|q| - 1], i) + (if s.kind == Floats && i < |s.vals| then [s.vals[i]] else [])
  }

  ghost function SumOf(col: seq<Num>): real {
    if col == [] then 0.0 else SumOf(col[..|col| - 1]) + (if col[|col| - 1].Num? then col[|col| - 1].v else 0.0)
  }

  ghost function NaNsIn(col: seq<Num>): nat {
    if col == [] then 0 else NaNsIn(col[..|col| - 1]) + (if col[|col| - 1].NaN? then 1 else 0)
  }

  /** One more sample and the statistics of variable `i`. */
  lemma {:induction false} AccumulateColumn(c: Counter, s: Sample, enableData: bool, i: nat)
    requires c.Ok()
    ensures var r := Accumulate(c, s, enableData);
      var v := s.kind == Floats && i < |s.vals|;
      && (i < |r.sums| <==> i < |c.sums| || v)
      && (i < |r.sums| ==>
            var was := i < |c.sums|;
            && r.sums[i] == (if was then c.sums[i] else 0.0) + (if v && s.vals[i].Num? then s.vals[i].v else 0.0)
            && r.nnans[i] == (if was then c.nnans[i] else 0) + (if v && s.vals[i].NaN? then 1 else 0)
            && r.values[i] == var prev := (if was then c.values[i] else []); if v && enableData then prev + [s.vals[i]] else prev)
  {
  }

  ghost predicate ColumnOk(col: seq<Num>, c: Counter, enableData: bool, i: nat)
    requires c.Ok()
  {
    if i < |c.sums| then
      c.sums[i] == SumOf(col) && c.nnans[i] == NaNsIn(col) && c.values[i] == (if enableData then col else [])
    else col == []
  }

  lemma {:induction false} ColumnSnoc(col: seq<Num>, x: Num)
    ensures SumOf(col + [x]) == SumOf(col) + (if x.Num? then x.v else 0.0)
    ensures NaNsIn(col + [x]) == NaNsIn(col) + (if x.NaN? then 1 else 0)
    ensures SumOf([]) == 0.0 && NaNsIn([]) == 0
  {
    assert (col + [x])[..|col|] == col;
  }

  lemma {:induction false} ColumnOkSnoc(col: seq<Num>, c: Counter, s: Sample, enableData: bool, i: nat)
    requires c.Ok() && ColumnOk(col, c, enableData, i)
    ensures ColumnOk(if s.kind == Floats && i < |s.vals| then col + [s.vals[i]] else col, Accumulate(c, s, enableData), enableData, i)
  {
    hide Accumulate, SumOf, NaNsIn;
    AccumulateColumn(c, s, enableData, i);
    if s.kind == Floats && i < |s.vals| { ColumnSnoc(col, s.vals[i]); }
  }

  /** Sums, NaN counts and kept values of each variable are those of its column of the stream. */
  lemma {:induction false} FoldColumns(q: seq<Sample>, enableData: bool, i: nat)
    ensures ColumnOk(Column(q, i), Fold(q, enableData), enableData, i)
  {
    if q != [] {
      var l, s := q[..|q| - 1], q[|q| - 1];
      FoldColumns(l, enableData, i);
      hide Accumulate, ColumnOk;
      ColumnOkSnoc(Column(l, i), Fold(l, enableData), s, enableData, i);
      assert Column(q, i) == if s.kind == Floats && i < |s.vals| then Column(l, i) + [s.vals[i]] else Column(l, i);
    }
  }

  // ------------------------------------------------------------ kept times and text

  ghost function TimesOf(q: seq<Sample>): seq<int> {
    seq(|q|, i requires 0 <= i < |q| => q[i].time)
  }

  /** The sample with the latest raw message, if there is one. */
  ghost predicate IsLastMessage(q: seq<Sample>, k: nat) {
    k < |q| && q[k].kind == Chars && forall j :: k < j < |q| ==> q[j].kind != Chars
  }

  ghost predicate KeptTextOk(q: seq<Sample>, c: Counter, enableData: bool) {
    && c.times == (if enableData then TimesOf(q) else [])
    && (!enableData || (forall j :: 0 <= j < |q| ==> q[j].kind != Chars) ==> c.rawmsg == [])
    && (enableData ==> forall k: nat :: IsLastMessage(q, k) ==> c.rawmsg == [Message(q[k].text)])
  }

  lemma {:induction false} AccumulateText(c: Counter, s: Sample, enableData: bool)
    requires c.Ok()
    ensures var r := Accumulate(c, s, enableData);
      && r.times == (if enableData then c.times + [s.time] else c.times)
      && r.rawmsg == (if enableData && s.kind == Chars then [Message(s.text)] else c.rawmsg)
  {
  }

  lemma {:induction false} KeptTextSnoc(l: seq<Sample>, c: Counter, s: Sample, r: Counter, enableData: bool)
    requires KeptTextOk(l, c, enableData)
    requires r.times == (if enableData then c.times + [s.time] else c.times)
    requires r.rawmsg == (if enableData && s.kind == Chars then [Message(s.text)] else c.rawmsg)
    ensures KeptTextOk(l + [s], r, enableData)
  {
    hide Message;
    var q := l + [s];
    assert TimesOf(q) == TimesOf(l) + [s.time];
    assert q[|l|] == s && forall j :: 0 <= j < |l| ==> q[j] == l[j];
    forall k: nat | enableData && IsLastMessage(q, k)
      ensures r.rawmsg == [Message(q[k].text)]
    {
      if k < |l| {
        assert q[|l|].kind != Chars;
        assert IsLastMessage(l, k);
      }
    }
  }

  /** With data enabled, the times of all samples are kept, and of the raw messages the latest. */
  lemma {:induction false} FoldText(q: seq<Sample>, enableData: bool)
    ensures KeptTextOk(q, Fold(q, enableData), enableData)
  {
    hide Accumulate, KeptTextOk;
    if q == [] {
      NoTextKept(enableData);
    } else {
      var l, s := q[..|q| - 1], q[|q| - 1];
      FoldText(l, enableData);
      AccumulateText(Fold(l, enableData), s, enableData);
      KeptTextSnoc(l, Fold(l, enableData), s, Fold(q, enableData), enableData);
      assert q == l + [s];
    }
  }

  lemma {:induction false} NoTextKept(enableData: bool)
    ensures KeptTextOk([], Empty(), enableData)
  {
  }

  /** A message is the text, without one NUL at its end if it has one there. */
  lemma {:induction false} MessageIs(text: string)
    ensures text == Message(text) || text == Message(text) + ['\0']
    ensures text == Message(text) ==> text == "" || text[|text| - 1] != '\0'
  {
  }
}
