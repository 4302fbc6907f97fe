/**
 An A/D converter whose channel coefficients follow a calibration file:
 `A2DConverter::readCalFile` and the polynomial conversion.
 */
module A2D {
  import opened UTime
  import opened Values
  import opened CalFiles
  import opened CalFileTheory
  import opened CalFileReader

  /** Gain and polarity of each channel, the number of channels in use, and the coefficients per channel. */
  datatype Config = Config(gain: seq<int>, bipolar: seq<int>, numConfig: nat, ncoefs: nat) {
    ghost predicate Ok() { numConfig <= |gain| == |bipolar| && ncoefs > 0 }
    function NumData(): (n: nat)
      ensures n >= 2
    {
      2 + numConfig * ncoefs
    }
  }

  /** Conversion of a field to `int`: truncation towards zero, and the most negative value for a NaN. */
  function ToInt(x: Num): int {
    match x
    case NaN => -0x8000_0000
    case Num(v) => if v >= 0.0 then v.Floor else -((-v).Floor)
  }

  /** The record is for channel `i`: same gain and polarity, where a negative field in the record fits any. */
  predicate Matches(cfg: Config, vals: seq<Num>, i: nat)
    requires cfg.numConfig <= |cfg.gain| == |cfg.bipolar| && i < cfg.numConfig && |vals| >= 2
  {
    && cfg.gain[i] > 0
    && (ToInt(vals[0]) < 0 || cfg.gain[i] == ToInt(vals[0]))
    && (ToInt(vals[1]) < 0 || cfg.bipolar[i] == ToInt(vals[1]))
  }

  /** The conversion truncates: the result is the nearest integer that is not further from zero. */
  lemma {:induction false} ToIntTruncates(v: real)
    ensures v >= 0.0 ==> 0.0 <= ToInt(Num(v)) as real <= v < ToInt(Num(v)) as real + 1.0
    ensures v <= 0.0 ==> 0.0 >= ToInt(Num(v)) as real >= v > ToInt(Num(v)) as real - 1.0
  {
  }

  lemma {:induction false} ToIntOfInteger(g: int)
    ensures ToInt(Num(g as real)) == g
  {
  }

  /** The first field of a record is its gain and the second its polarity; negative or NaN, they fit every channel with a gain. */
  lemma {:induction false} MatchesGainAndPolarity(cfg: Config, vals: seq<Num>, i: nat, g: int, b: int)
    requires cfg.Ok() && i < cfg.numConfig && |vals| >= 2
    requires vals[0] == Num(g as real) || (vals[0] == NaN && g < 0)
    requires vals[1] == Num(b as real) || (vals[1] == NaN && b < 0)
    ensures Matches(cfg, vals, i) <==>
            cfg.gain[i] > 0 && (g < 0 || g == cfg.gain[i]) && (b < 0 || b == cfg.bipolar[i])
  {
    ToIntOfInteger(g);
    ToIntOfInteger(b);
  }

  /** Channels for which the record, read into a buffer of `NumData` values, has coefficients. */
  function ChannelsIn(cfg: Config, vals: seq<Num>): nat
    requires cfg.ncoefs > 0 && |vals| >= 2
  {
    (Min(|vals|, cfg.NumData()) - 2) / cfg.ncoefs
  }

  lemma {:induction false} SliceFits(cfg: Config, vals: seq<Num>, i: nat)
    requires cfg.ncoefs > 0 && |vals| >= 2 && i < ChannelsIn(cfg, vals)
    ensures 2 + cfg.ncoefs * i + cfg.ncoefs <= |vals|
  {
    var m, c := Min(|vals|, cfg.NumData()) - 2, cfg.ncoefs;
    assert (i + 1) * c <= (m / c) * c <= m;
  }

  /** The coefficients of channel `i` in a record. */
  function Slice(cfg: Config, vals: seq<Num>, i: nat): seq<Num>
    requires cfg.ncoefs > 0 && |vals| >= 2 && i < ChannelsIn(cfg, vals)
  {
    SliceFits(cfg, vals, i);
    vals[2 + cfg.ncoefs * i..2 + cfg.ncoefs * i + cfg.ncoefs]
  }

  /** Coefficient `j` of channel `i` is field `2 + ncoefs * i + j` of the record. */
  lemma {:induction false} SliceFields(cfg: Config, vals: seq<Num>, i: nat, j: nat)
    requires cfg.ncoefs > 0 && |vals| >= 2 && i < ChannelsIn(cfg, vals) && j < cfg.ncoefs
    ensures |Slice(cfg, vals, i)| == cfg.ncoefs
    ensures 2 + cfg.ncoefs * i + j < |vals| && Slice(cfg, vals, i)[j] == vals[2 + cfg.ncoefs * i + j]
  {
    hide ChannelsIn;
    SliceFits(cfg, vals, i);
  }

  /** A record has coefficients for as many channels as its fields are enough for, up to those in use. */
  lemma {:induction false} ChannelsInIs(cfg: Config, vals: seq<Num>, n: nat)
    requires cfg.ncoefs > 0 && |vals| >= 2
    requires if |vals| >= cfg.NumData() then n == cfg.numConfig
             else 2 + cfg.ncoefs * n <= |vals| < 2 + cfg.ncoefs * n + cfg.ncoefs
    ensures ChannelsIn(cfg, vals) == n
  {
    var c := cfg.ncoefs;
    if |vals| >= cfg.NumData() {
      DivideExactly(n, c);
    } else {
      var m := |vals| - 2;
      DivideExactly(n, c);
      assert m == n * c + (m - n * c);
      DivideNearly(m, n, c);
    }
  }

  lemma {:induction false} DivideNearly(m: nat, n: nat, c: nat)
    requires c > 0 && n * c <= m < n * c + c
    ensures m / c == n
  {
    var q := m / c;
    assert q * c <= m < q * c + c;
    if q < n {
      MultipleIsFar(c, n - q);
    } else if q > n {
      MultipleIsFar(c, q - n);
    }
  }

  /** Channel `i` is the first one that the record is for but has no coefficients for. */
  ghost predicate FirstShort(cfg: Config, vals: seq<Num>, i: nat)
    requires cfg.Ok() && i < cfg.numConfig && |vals| >= 2
  {
    ChannelsIn(cfg, vals) <= i && Matches(cfg, vals, i) &&
    forall j :: ChannelsIn(cfg, vals) <= j < i ==> !Matches(cfg, vals, j)
  }

  /** What channel `i` holds after a record. */
  ghost function AfterRecord(cfg: Config, vals: seq<Num>, i: nat, was: seq<Num>): seq<Num>
    requires cfg.Ok()
  {
    if |vals| < 2 || i >= cfg.numConfig then was
    else if i < ChannelsIn(cfg, vals) then (if Matches(cfg, vals, i) then Slice(cfg, vals, i) else was)
    else if FirstShort(cfg, vals, i) then seq(cfg.ncoefs, _ => NaN)
    else was
  }

  ghost function ApplyRecord(cfg: Config, coefs: seq<seq<Num>>, vals: seq<Num>): seq<seq<Num>>
    requires cfg.Ok()
  {
    seq(|coefs|, i requires 0 <= i < |coefs| => AfterRecord(cfg, vals, i, coefs[i]))
  }

  /** Behind the first channel that a short record matches but does not cover, which gets NaNs, nothing changes. */
  lemma {:induction false} ShortRecordStops(cfg: Config, coefs: seq<seq<Num>>, vals: seq<Num>, i: nat, j: nat)
    requires cfg.Ok() && |coefs| == |cfg.gain| && |vals| >= 2 && i < cfg.numConfig && FirstShort(cfg, vals, i) && i < j < |coefs|
    ensures ApplyRecord(cfg, coefs, vals)[i] == seq(cfg.ncoefs, _ => NaN)
    ensures ApplyRecord(cfg, coefs, vals)[j] == coefs[j]
  {
    hide ChannelsIn, Matches;
  }

  /** Coefficients after a list of delivered records. */
  ghost function ApplyAll(cfg: Config, coefs: seq<seq<Num>>, log: seq<Outcome>): seq<seq<Num>>
    requires cfg.Ok()
  {
    if log == [] then coefs
    else
      var c := ApplyAll(cfg, coefs, log[..|log| - 1]);
      if log[|log| - 1].Read? then ApplyRecord(cfg, c, log[|log| - 1].vals) else c
  }

  lemma {:induction false} ApplyAllConcat(cfg: Config, coefs: seq<seq<Num>>, a: seq<Outcome>, b: seq<Outcome>)
    requires cfg.Ok()
    ensures ApplyAll(cfg, coefs, a + b) == ApplyAll(cfg, ApplyAll(cfg, coefs, a), b)
    decreases |b|
  {
    if b == [] {
      assert a + b == a;
    } else {
      assert (a + b)[..|a + b| - 1] == a + b[..|b| - 1];
      ApplyAllConcat(cfg, coefs, a, b[..|b| - 1]);
    }
  }

  /** Calibrating for one time and then for a later one is calibrating for the later one. */
  lemma {:induction false} CalibrateInSteps(cfg: Config, coefs: seq<seq<Num>>, fs: FileSystem, rank: string -> nat, r: Reader, t1: int, t2: int)
    requires cfg.Ok() && Acyclic(fs, rank) && WellFormed(fs, rank, r) && t1 <= t2 && Drain(fs, rank, r, t1).2 == None
    ensures WellFormed(fs, rank, Drain(fs, rank, r, t1).1)
    ensures var (log1, q1, _) := Drain(fs, rank, r, t1); var (log2, q2, failure) := Drain(fs, rank, q1, t2);
      && Drain(fs, rank, r, t2).1 == q2 && Drain(fs, rank, r, t2).2 == failure
      && ApplyAll(cfg, coefs, Drain(fs, rank, r, t2).0) == ApplyAll(cfg, ApplyAll(cfg, coefs, log1), log2)
  {
    DrainInSteps(fs, rank, r, t1, t2);
    var (log1, q1, _) := Drain(fs, rank, r, t1);
    ApplyAllConcat(cfg, coefs, log1, Drain(fs, rank, q1, t2).0);
  }

  ghost predicate FullLength(cfg: Config, o: Outcome) {
    o.Read? && 2 <= cfg.NumData() <= |o.vals|
  }

  ghost predicate ForChannel(cfg: Config, o: Outcome, i: nat)
    requires cfg.Ok() && i < cfg.numConfig
  {
    FullLength(cfg, o) && Matches(cfg, o.vals, i)
  }

  ghost predicate NoneForChannel(cfg: Config, log: seq<Outcome>, from: nat, i: nat)
    requires cfg.Ok() && i < cfg.numConfig
  {
    forall k :: from <= k < |log| ==> !ForChannel(cfg, log[k], i)
  }

  /** With full-length records, a channel holds the coefficients of the last delivered record that matches it. */
  lemma {:induction false} LastMatchIsHeld(cfg: Config, coefs: seq<seq<Num>>, log: seq<Outcome>, i: nat)
    requires cfg.Ok() && i < cfg.numConfig && |coefs| == |cfg.gain|
    requires forall k :: 0 <= k < |log| ==> FullLength(cfg, log[k])
    ensures |ApplyAll(cfg, coefs, log)| == |coefs|
    ensures NoneForChannel(cfg, log, 0, i) ==> ApplyAll(cfg, coefs, log)[i] == coefs[i]
    ensures forall k :: 0 <= k < |log| && ForChannel(cfg, log[k], i) && NoneForChannel(cfg, log, k + 1, i) ==>
              i < ChannelsIn(cfg, log[k].vals) && ApplyAll(cfg, coefs, log)[i] == Slice(cfg, log[k].vals, i)
  {
    if log != [] {
      var n := |log| - 1;
      var l := log[..n];
      LastMatchIsHeld(cfg, coefs, l, i);
      FullRecord(cfg, log[n].vals, i);
      assert ApplyAll(cfg, coefs, log) == ApplyRecord(cfg, ApplyAll(cfg, coefs, l), log[n].vals);
      forall k | 0 <= k < |log| && ForChannel(cfg, log[k], i) && NoneForChannel(cfg, log, k + 1, i)
        ensures i < ChannelsIn(cfg, log[k].vals) && ApplyAll(cfg, coefs, log)[i] == Slice(cfg, log[k].vals, i)
      {
        if k < n {
          assert l[k] == log[k] && !ForChannel(cfg, log[n], i);
          assert NoneForChannel(cfg, l, k + 1, i);
        }
      }
      if NoneForChannel(cfg, log, 0, i) {
        assert !ForChannel(cfg, log[n], i);
        assert NoneForChannel(cfg, l, 0, i);
      }
    }
  }

  lemma {:induction false} FullRecord(cfg: Config, vals: seq<Num>, i: nat)
    requires cfg.Ok() && i < cfg.numConfig && |vals| >= cfg.NumData()
    ensures ChannelsIn(cfg, vals) == cfg.numConfig
  {
    DivideExactly(cfg.numConfig, cfg.ncoefs);
  }

  lemma {:induction false} DivideExactly(k: nat, c: nat)
    requires c > 0
    ensures (k * c) / c == k
  {
    var q := (k * c) / c;
    assert c * (k - q) == (k * c) % c;
    if k > q { MultipleIsFar(c, k - q); }
  }

  lemma {:induction false} MultipleIsFar(c: nat, d: nat)
    requires c > 0 && d > 0
    ensures c * d >= c
  {
    if d > 1 {
      MultipleIsFar(c, d - 1);
      assert c * d == c * (d - 1) + c;
    }
  }

  class A2DConverter {
    const maxNumChannels: nat
    const ncoefs: nat
    var numConfigChannels: int
    var gain: seq<int>
    var bipolar: seq<int>
    var coefs: seq<seq<Num>>

    ghost predicate Valid()
      reads this
    {
      |gain| == |bipolar| == |coefs| == maxNumChannels && 0 <= numConfigChannels <= maxNumChannels && ncoefs > 0
    }

    ghost function Cfg(): Config
      requires Valid()
      reads this
    {
      Config(gain, bipolar, numConfigChannels, ncoefs)
    }

    constructor (nchan: nat, ncoefs: nat)
      requires ncoefs > 0
      ensures Valid() && Cfg() == Config(seq(nchan, _ => 0), seq(nchan, _ => -1), 0, ncoefs)
      ensures coefs == seq(nchan, _ => seq(ncoefs, j => if j == 1 then Num(1.0) else Num(0.0)))
    {
      maxNumChannels, this.ncoefs := nchan, ncoefs;
      numConfigChannels := 0;
      gain := seq(nchan, _ => 0);
      bipolar := seq(nchan, _ => -1);
      coefs := seq(nchan, _ => seq(ncoefs, j => if j == 1 then Num(1.0) else Num(0.0)));
    }

    /**
     Configure a channel; the number of channels in use follows the last one with a gain.
     A channel number out of range is not stored, but with a gain it is counted all the same.
     */
    method SetGain(ichan: int, val: int)
      requires Valid()
      modifies this`gain, this`numConfigChannels
      ensures gain == if 0 <= ichan < maxNumChannels then old(gain)[ichan := val] else old(gain)
      ensures numConfigChannels == if val > 0 then ichan + 1 else old(numConfigChannels)
      ensures Valid() <==> val <= 0 || -1 <= ichan < maxNumChannels
    {
      if 0 <= ichan && ichan < maxNumChannels { gain := gain[ichan := val]; }
      if val > 0 { numConfigChannels := ichan + 1; }
    }

    /** The coefficients of a channel in a record that has them. */
    method Part(vals: seq<Num>, ichan: nat) returns (d: seq<Num>)
      requires Valid() && |vals| >= 2 && ichan < ChannelsIn(Cfg(), vals)
      ensures d == Slice(Cfg(), vals, ichan)
    {
      SliceFits(Cfg(), vals, ichan);
      d := vals[2 + ncoefs * ichan..2 + ncoefs * ichan + ncoefs];
    }

    /** Take the coefficients of every matching channel from one record. */
    method TakeRecord(vals: seq<Num>)
      requires Valid() && |vals| >= 2
      modifies this`coefs
      ensures Valid() && coefs == ApplyRecord(Cfg(), old(coefs), vals)
    {
      ghost var cfg := Cfg();
      var nd := 2 + numConfigChannels * ncoefs;
      var n := Min(|vals|, nd);
      var nchanInRecord := (n - 2) / ncoefs;
      assert nchanInRecord == ChannelsIn(cfg, vals);
      hide ChannelsIn, Slice;
      var ichan := 0;
      var short := false;
      while ichan < numConfigChannels && !short
        invariant 0 <= ichan <= numConfigChannels && |coefs| == maxNumChannels
        invariant forall i :: ichan <= i < maxNumChannels ==> coefs[i] == old(coefs)[i]
        invariant forall i :: 0 <= i < ichan ==> coefs[i] == AfterRecord(cfg, vals, i, old(coefs)[i])
        invariant !short ==> forall j :: nchanInRecord <= j < ichan ==> !Matches(cfg, vals, j)
        invariant short ==> ichan > nchanInRecord && Matches(cfg, vals, ichan - 1)
        decreases numConfigChannels - ichan
      {
        if gain[ichan] > 0 &&
           (ToInt(vals[0]) < 0 || gain[ichan] == ToInt(vals[0])) &&
           (ToInt(vals[1]) < 0 || bipolar[ichan] == ToInt(vals[1])) {
          if ichan < nchanInRecord {
            var part := Part(vals, ichan);
            coefs := coefs[ichan := part];
          } else {
            coefs := coefs[ichan := seq(ncoefs, _ => NaN)];
            short := true;
          }
        }
        ichan := ichan + 1;
      }
    }

    /** Bring the coefficients up to time `tt`. */
    method ReadCalFile(calFile: CalFile, tt: int) returns (failure: Option<Outcome>)
      requires Valid() && calFile.Valid() && this !in calFile.Repr
      requires Acyclic(calFile.fs, calFile.rank) && WellFormed(calFile.fs, calFile.rank, calFile.State())
      modifies this`coefs, calFile.Repr
      ensures Valid() && calFile.Valid() && fresh(calFile.Repr - old(calFile.Repr))
      ensures var (log, q, end) := Drain(calFile.fs, calFile.rank, old(calFile.State()), tt);
        calFile.State() == q && failure == end && coefs == ApplyAll(Cfg(), old(coefs), log)
    {
      hide ReadCF, WellFormed, Acyclic, Weight, ApplyRecord, Drain, ApplyAll;
      ghost var fs, rank, start := calFile.fs, calFile.rank, calFile.State();
      ghost var log: seq<Outcome> := [];
      failure := None;
      NothingApplied(Cfg(), coefs);
      assert [] + Drain(fs, rank, start, tt).0 == Drain(fs, rank, start, tt).0;
      while tt >= calFile.nextTime
        invariant Valid() && calFile.Valid() && this !in calFile.Repr && fresh(calFile.Repr - old(calFile.Repr))
        invariant WellFormed(fs, rank, calFile.State())
        invariant Drain(fs, rank, start, tt) ==
                  var (rest, q, end) := Drain(fs, rank, calFile.State(), tt); (log + rest, q, end)
        invariant coefs == ApplyAll(Cfg(), old(coefs), log)
        invariant Cfg() == old(Cfg())
        decreases Weight(fs, rank, calFile.State())
      {
        ghost var r := calFile.State();
        ReadCFWellFormed(fs, rank, r);
        WeightDrops(fs, rank, r);
        var o := calFile.ReadRecord();
        if !o.Read? {
          DrainFails(fs, rank, r, tt);
          assert log + [] == log;
          failure := Some(o);
          return;
        }
        DrainCons(fs, rank, r, tt);
        ghost var log' := log + [o];
        ApplyOneMore(Cfg(), old(coefs), log, o);
        ghost var rest := Drain(fs, rank, calFile.State(), tt);
        assert Drain(fs, rank, r, tt) == ([o] + rest.0, rest.1, rest.2);
        assert log + ([o] + rest.0) == log' + rest.0;
        if |o.vals| >= 2 {
          TakeRecord(o.vals);
        } else {
          ShortRecord(Cfg(), coefs, o.vals);
        }
        log := log';
      }
      DrainStops(fs, rank, calFile.State(), tt);
      assert log + [] == log;
    }

    lemma {:induction false} NothingApplied(cfg: Config, coefs: seq<seq<Num>>)
      requires cfg.Ok()
      ensures ApplyAll(cfg, coefs, []) == coefs
    {
    }

    lemma {:induction false} ApplyOneMore(cfg: Config, coefs: seq<seq<Num>>, log: seq<Outcome>, o: Outcome)
      requires cfg.Ok() && o.Read?
      ensures ApplyAll(cfg, coefs, log + [o]) == ApplyRecord(cfg, ApplyAll(cfg, coefs, log), o.vals)
    {
      hide ApplyRecord;
      assert (log + [o])[..|log|] == log;
    }

    lemma {:induction false} ShortRecord(cfg: Config, coefs: seq<seq<Num>>, vals: seq<Num>)
      requires cfg.Ok() && |vals| < 2
      ensures ApplyRecord(cfg, coefs, vals) == coefs
    {
    }
  }

  // ------------------------------------------------------------------- conversion

  function Power(x: real, k: nat): real { if k == 0 then 1.0 else x * Power(x, k - 1) }

  /** The polynomial with coefficients `d`, lowest order first. */
  ghost function Polynomial(d: seq<real>, x: real): real {
    if d == [] then 0.0 else Polynomial(d[..|d| - 1], x) + d[|d| - 1] * Power(x, |d| - 1)
  }

  lemma {:induction false} PolynomialShift(c: real, d: seq<real>, x: real)
    ensures Polynomial([c] + d, x) == c + x * Polynomial(d, x)
  {
    if d == [] {
      assert Polynomial([], x) == 0.0;
      assert [c] + d == [c];
      assert Polynomial([c], x) == Polynomial([c][..0], x) + c * Power(x, 0);
    } else {
      var l, a, q := d[..|d| - 1], d[|d| - 1], Power(x, |d| - 1);
      PolynomialShift(c, l, x);
      assert ([c] + d)[..|d|] == [c] + l && ([c] + d)[|d|] == a;
      assert Polynomial([c] + d, x) == Polynomial([c] + l, x) + a * Power(x, |d|);
      assert Power(x, |d|) == x * q;
      Distribute(x, Polynomial(l, x), a, q);
    }
  }

  lemma {:induction false} Distribute(x: real, p: real, a: real, q: real)
    ensures x * (p + a * q) == x * p + a * (x * q)
  {
    assert x * (p + a * q) == x * p + x * (a * q);
  }

  /** Conversion of raw counts: evaluation from the highest order down. With no coefficients counts are passed on. */
  method Convert(d: seq<real>, counts: real) returns (out: real)
    ensures out == if d == [] then counts else Polynomial(d, counts)
  {
    out := counts;
    if |d| > 0 {
      var corder := |d| - 1;
      out := d[corder];
      PolynomialShift(d[corder], [], counts);
      assert d[corder..] == [d[corder]] + [];
      for k := 1 to |d|
        invariant out == Polynomial(d[corder - k + 1..], counts)
      {
        assert d[corder - k..] == [d[corder - k]] + d[corder - k + 1..];
        PolynomialShift(d[corder - k], d[corder - k + 1..], counts);
        out := d[corder - k] + counts * out;
      }
    }
  }
}
