/**
 Reading a calibration file forward in time delivers the record in effect: the
 streaming reader agrees with the recursive lookup.
 */
module CalFileTheory {
  import opened UTime
  import opened Values
  import opened CalFiles

  /** The line of its own file that the reader is on. */
  ghost function Cur(fs: FileSystem, r: Reader): nat
    requires r.file in fs
  {
    if r.eof then |fs[r.file]| else if r.pos == 0 then 0 else r.pos - 1
  }

  /** The next time announced while an included file is open. */
  ghost predicate NextOk(r: Reader) {
    r.child.Some? ==> r.nextTime == Min(r.child.value.nextTime, r.timeAfter)
  }

  /** The record last delivered is the line before the current one, or comes from the included file. */
  ghost predicate HasRead(fs: FileSystem, r: Reader) {
    r.file in fs &&
    match r.child
    case None => 1 <= Cur(fs, r) <= |fs[r.file]| && fs[r.file][Cur(fs, r) - 1].rec.Fields?
    case Some(c) => HasRead(fs, c)
  }

  /** The time and the values of the record last delivered. */
  ghost function LastTime(fs: FileSystem, r: Reader): int
    requires HasRead(fs, r)
  {
    match r.child
    case None => fs[r.file][Cur(fs, r) - 1].time
    case Some(c) => Max(r.includeTime, LastTime(fs, c))
  }

  ghost function LastVals(fs: FileSystem, r: Reader): seq<Num>
    requires HasRead(fs, r)
  {
    match r.child
    case None => fs[r.file][Cur(fs, r) - 1].rec.vals
    case Some(c) => LastVals(fs, c)
  }

  /** Position, announced time and include state agree with the file, at every depth. */
  ghost predicate Inv(fs: FileSystem, r: Reader) {
    r.file in fs && r.pos <= |fs[r.file]| && (r.eof ==> r.pos == |fs[r.file]|) &&
    var lines := fs[r.file];
    match r.child
    case None => r.nextTime == if r.eof then MAX_TIME else if r.pos == 0 then MIN_TIME else lines[r.pos - 1].time
    case Some(c) =>
      && 1 <= Cur(fs, r) && lines[Cur(fs, r) - 1] == Line(r.includeTime, Include(c.file))
      && r.timeAfter == (if r.eof then MAX_TIME else lines[Cur(fs, r)].time)
      && (NextOk(r) || r.nextTime == r.timeAfter)
      && Inv(fs, c) && NextOk(c) && 1 <= c.pos
      && (HasRead(fs, c) ==> LastTime(fs, c) < r.timeAfter)
      && (c.child.Some? ==> HasRead(fs, c))
  }

  /** There is a record to deliver. */
  ghost predicate Readable(r: Reader) {
    match r.child
    case None => !r.eof
    case Some(c) => c.nextTime < r.timeAfter || !r.eof
  }

  /** A lower bound of the next delivered time. */
  ghost function Ahead(r: Reader): int {
    match r.child
    case None => r.nextTime
    case Some(c) => if c.nextTime < r.timeAfter then Max(r.includeTime, Ahead(c)) else r.timeAfter
  }

  /** Everything the next read passes through is due at `t`. */
  ghost predicate Due(fs: FileSystem, r: Reader, t: int)
    requires r.file in fs
  {
    match r.child
    case None => if r.pos == 0 && fs[r.file] != [] then fs[r.file][0].time <= t else r.nextTime <= t
    case Some(c) =>
      if c.nextTime < r.timeAfter then r.includeTime <= t && c.file in fs && Due(fs, c, t)
      else r.timeAfter <= t
  }

  /** Line `i` is the first of the latest group of lines with a common time at or before `t`. */
  ghost predicate IsLastGroup(lines: seq<Line>, t: int, i: nat) {
    && i < |lines| && lines[i].time <= t
    && (forall j :: i < j < |lines| && lines[j].time <= t ==> lines[j].time == lines[i].time)
    && (forall j :: 0 <= j < i ==> lines[j].time < lines[i].time)
  }

  ghost predicate InTimeOrder(lines: seq<Line>) {
    forall j, k :: 0 <= j < k < |lines| ==> lines[j].time <= lines[k].time
  }

  lemma {:induction false} SearchFrom(lines: seq<Line>, t: int, k: nat, found: nat, prev: Option<int>)
    requires InTimeOrder(lines) && lines != [] && lines[0].time <= t && k <= |lines|
    requires k == 0 ==> prev == None
    requires k > 0 ==> found < k && lines[k - 1].time <= t && prev == Some(lines[found].time) && lines[k - 1].time == lines[found].time
    requires k > 0 ==> forall j :: 0 <= j < found ==> lines[j].time < lines[found].time
    ensures IsLastGroup(lines, t, SearchIndex(lines, t, k, found, prev))
    decreases |lines| - k
  {
    if k == |lines| || lines[k].time > t {
      assert forall j :: found < j < k ==> lines[found].time <= lines[j].time <= lines[k - 1].time;
    } else if prev == Some(lines[k].time) {
      SearchFrom(lines, t, k + 1, found, prev);
    } else {
      assert forall j :: 0 <= j < k ==> lines[j].time <= lines[k - 1].time;
      SearchFrom(lines, t, k + 1, k, Some(lines[k].time));
    }
  }

  /** The search ends on the first of the latest lines at or before the time. */
  lemma {:induction false} SearchFinds(lines: seq<Line>, t: int)
    requires InTimeOrder(lines) && lines != [] && lines[0].time <= t
    ensures IsLastGroup(lines, t, SearchIndex(lines, t, 0, 0, None))
  {
    SearchFrom(lines, t, 0, 0, None);
  }

  /** There is only one such line. */
  lemma {:induction false} LastGroupIsUnique(lines: seq<Line>, t: int, i: nat, j: nat)
    requires IsLastGroup(lines, t, i) && IsLastGroup(lines, t, j)
    ensures i == j
  {
  }

  lemma {:induction false} AnnouncedBeforeAhead(fs: FileSystem, r: Reader)
    requires Inv(fs, r) && NextOk(r)
    ensures r.nextTime <= Ahead(r)
  {
    if r.child.Some? { AnnouncedBeforeAhead(fs, r.child.value); }
  }

  lemma {:induction false} LastBeforeAhead(fs: FileSystem, r: Reader)
    requires Contract(fs) && Inv(fs, r) && NextOk(r) && HasRead(fs, r) && r.pos >= 1
    ensures LastTime(fs, r) <= Ahead(r)
  {
    match r.child
    case None =>
    case Some(c) => if c.nextTime < r.timeAfter { LastBeforeAhead(fs, c); }
  }

  /** A reader that announces a time at or before `t`, and has delivered nothing later, is due at `t`. */
  lemma {:induction false} AnnouncedIsDue(fs: FileSystem, r: Reader, t: int)
    requires Contract(fs) && Inv(fs, r) && NextOk(r) && r.nextTime <= t && r.pos >= 1
    requires r.child.Some? ==> HasRead(fs, r) && LastTime(fs, r) <= t
    ensures Due(fs, r, t)
  {
    match r.child
    case None =>
    case Some(c) =>
      if c.nextTime < r.timeAfter { AnnouncedIsDue(fs, c, t); }
  }

  /** What one read delivers from a reader with a record due. */
  ghost predicate Delivers(fs: FileSystem, r: Reader, o: (Outcome, Reader))
    requires r.file in fs
  {
    && o.0.Read? && Inv(fs, o.1) && NextOk(o.1) && HasRead(fs, o.1) && o.1.pos >= 1 && o.1.file == r.file
    && LastVals(fs, o.1) == o.0.vals && LastTime(fs, o.1) == o.0.time
    && Ahead(r) <= o.0.time
    && forall t :: Due(fs, r, t) ==> o.0.time <= t
  }

  /** Opening the file named by the directive that the reader is on. */
  lemma {:induction false} OpenedInclude(fs: FileSystem, rank: string -> nat, r: Reader, name: string)
    requires Contract(fs) && Acyclic(fs, rank) && WellFormed(fs, rank, r) && Inv(fs, r) && r.child.None? && !r.eof && r.pos >= 1
    requires fs[r.file][r.pos - 1].rec == Include(name)
    ensures name in fs
    ensures var q := OpenInclude(fs, r, name);
      && WellFormed(fs, rank, q) && Inv(fs, q) && Readable(q) && LinesLeft(fs, q) < LinesLeft(fs, r)
      && q.file == r.file && r.nextTime <= Ahead(q)
      && forall t :: r.nextTime <= t ==> Due(fs, q, t)
  {
    assert name in fs && fs[name] != [];
    OpenedWellFormed(fs, rank, r, name);
    SearchFinds(fs[name], r.nextTime);
    var q := OpenInclude(fs, r, name);
    var c := q.child.value;
    if HasRead(fs, c) { LastBeforeAhead(fs, c); }
  }

  /** A read from a well-formed reader with a record due delivers it, in time order and never ahead of its time. */
  lemma {:induction false} ReadDelivers(fs: FileSystem, rank: string -> nat, r: Reader)
    requires Contract(fs) && Acyclic(fs, rank) && WellFormed(fs, rank, r) && Inv(fs, r) && Readable(r)
    ensures Delivers(fs, r, ReadCF(fs, rank, r))
    decreases rank(r.file), LinesLeft(fs, r)
  {
    if r.child.Some? && r.child.value.nextTime < r.timeAfter {
      ReadFromInclude(fs, rank, r);
    } else {
      ReadOwnLine(fs, rank, r);
    }
  }

  lemma {:induction false} ReadFromInclude(fs: FileSystem, rank: string -> nat, r: Reader)
    requires Contract(fs) && Acyclic(fs, rank) && WellFormed(fs, rank, r) && Inv(fs, r)
    requires r.child.Some? && r.child.value.nextTime < r.timeAfter
    ensures Delivers(fs, r, ReadCF(fs, rank, r))
    ensures r.includeTime <= ReadCF(fs, rank, r).0.time <= r.timeAfter
    decreases rank(r.file), LinesLeft(fs, r), 0
  {
    var c := r.child.value;
    ReadDelivers(fs, rank, c);
    AnnouncedIsDue(fs, c, r.timeAfter - 1);
    IncludedRecord(fs, r, ReadCF(fs, rank, c));
  }

  /** The directive is not after the line that follows it. */
  lemma {:induction false} DirectiveInOrder(fs: FileSystem, r: Reader)
    requires Contract(fs) && Inv(fs, r) && r.child.Some?
    ensures r.includeTime <= r.timeAfter
  {
  }

  /**
   A record of the included file becomes a record of the including one, at a time not
   before the directive and not after the line that follows it.
   */
  lemma {:induction false} IncludedRecord(fs: FileSystem, r: Reader, o: (Outcome, Reader))
    requires Contract(fs) && Inv(fs, r) && r.child.Some? && r.child.value.nextTime < r.timeAfter
    requires Delivers(fs, r.child.value, o) && Due(fs, r.child.value, r.timeAfter - 1)
    ensures r.includeTime <= Max(o.0.time, r.includeTime) <= r.timeAfter
    ensures Delivers(fs, r, (Read(Max(o.0.time, r.includeTime), o.0.vals),
                             r.(child := Some(o.1), nextTime := Min(o.1.nextTime, r.timeAfter))))
  {
    DirectiveInOrder(fs, r);
    hide Contract;
    var q := r.(child := Some(o.1), nextTime := Min(o.1.nextTime, r.timeAfter));
    assert LastTime(fs, o.1) < r.timeAfter;
    IncludedInv(fs, r, o.1);
    IncludedAhead(r, o.0.time);
    IncludedDue(fs, r, o.0.time);
    hide Inv, Due, Ahead;
    assert LastTime(fs, q) == Max(o.0.time, r.includeTime);
  }

  lemma {:induction false} IncludedAhead(r: Reader, t: int)
    requires r.child.Some? && r.child.value.nextTime < r.timeAfter && Ahead(r.child.value) <= t
    ensures Ahead(r) <= Max(t, r.includeTime)
  {
  }

  lemma {:induction false} IncludedDue(fs: FileSystem, r: Reader, time: int)
    requires r.file in fs && r.child.Some? && r.child.value.nextTime < r.timeAfter && r.child.value.file in fs
    requires forall t :: Due(fs, r.child.value, t) ==> time <= t
    ensures forall t :: Due(fs, r, t) ==> Max(time, r.includeTime) <= t
  {
  }

  lemma {:induction false} IncludedInv(fs: FileSystem, r: Reader, c: Reader)
    requires Inv(fs, r) && r.child.Some? && Inv(fs, c) && NextOk(c) && HasRead(fs, c) && c.pos >= 1 && c.file == r.child.value.file
    requires LastTime(fs, c) < r.timeAfter
    ensures var q := r.(child := Some(c), nextTime := Min(c.nextTime, r.timeAfter));
      Inv(fs, q) && NextOk(q) && HasRead(fs, q) && q.pos >= 1
  {
  }

  lemma {:induction false} SettledIsReader(fs: FileSystem, rank: string -> nat, r: Reader)
    requires Contract(fs) && Acyclic(fs, rank) && WellFormed(fs, rank, r) && Inv(fs, r) && Readable(r)
    requires r.child.Some? ==> r.child.value.nextTime >= r.timeAfter
    ensures !r.eof
    ensures var p := Settled(fs, r);
      && WellFormed(fs, rank, p) && Inv(fs, p) && !p.eof && p.pos >= 1 && p.child.None? && p.file == r.file
      && LinesLeft(fs, p) <= LinesLeft(fs, r)
      && Ahead(r) <= p.nextTime
      && forall t :: Due(fs, r, t) ==> p.nextTime <= t
  {
  }

  lemma {:induction false} ReadOwnLine(fs: FileSystem, rank: string -> nat, r: Reader)
    requires Contract(fs) && Acyclic(fs, rank) && WellFormed(fs, rank, r) && Inv(fs, r) && Readable(r)
    requires r.child.Some? ==> r.child.value.nextTime >= r.timeAfter
    ensures Delivers(fs, r, ReadCF(fs, rank, r))
    decreases rank(r.file), LinesLeft(fs, r), 0
  {
    hide Inv, WellFormed, Delivers, NextOk, HasRead, ReadCF, OpenInclude, Readable, Contract, Acyclic, Settled, ReadTime, Due, Ahead;
    SettledIsReader(fs, rank, r);
    var p := Settled(fs, r);
    if fs[r.file][p.pos - 1].rec.Fields? {
      var vals := fs[r.file][p.pos - 1].rec.vals;
      FieldsRecord(fs, p, vals);
      FieldsRead(fs, rank, r);
      PlainReader(fs, p);
      DeliversThrough(fs, r, p, (Read(p.nextTime, vals), ReadTime(fs, p)));
    } else {
      var name := fs[r.file][p.pos - 1].rec.name;
      OpenedInclude(fs, rank, p, name);
      var q := OpenInclude(fs, p, name);
      ReadDelivers(fs, rank, q);
      OpenedRead(fs, rank, r);
      DeliversThrough(fs, r, q, ReadCF(fs, rank, q));
    }
  }

  lemma {:induction false} FieldsRead(fs: FileSystem, rank: string -> nat, r: Reader)
    requires Acyclic(fs, rank) && WellFormed(fs, rank, r) && r.file in fs && !r.eof
    requires r.child.Some? ==> r.child.value.nextTime >= r.timeAfter
    requires var p := Settled(fs, r); !p.eof && 1 <= p.pos <= |fs[r.file]| && fs[r.file][p.pos - 1].rec.Fields?
    ensures var p := Settled(fs, r); ReadCF(fs, rank, r) == (Read(p.nextTime, fs[r.file][p.pos - 1].rec.vals), ReadTime(fs, p))
  {
  }

  lemma {:induction false} PlainReader(fs: FileSystem, p: Reader)
    requires p.file in fs && p.child.None? && p.pos >= 1
    ensures Ahead(p) == p.nextTime && forall t :: Due(fs, p, t) <==> p.nextTime <= t
  {
  }

  lemma {:induction false} DeliversThrough(fs: FileSystem, r: Reader, q: Reader, o: (Outcome, Reader))
    requires r.file in fs && q.file == r.file && Delivers(fs, q, o)
    requires Ahead(r) <= Ahead(q) && forall t :: Due(fs, r, t) ==> Due(fs, q, t)
    ensures Delivers(fs, r, o)
  {
  }

  lemma {:induction false} FieldsRecord(fs: FileSystem, p: Reader, vals: seq<Num>)
    requires Contract(fs) && Inv(fs, p) && !p.eof && p.pos >= 1 && p.child.None? && fs[p.file][p.pos - 1].rec == Fields(vals)
    ensures Delivers(fs, p, (Read(p.nextTime, vals), ReadTime(fs, p)))
  {
  }

  // ------------------------------------------------------------- the record in effect

  lemma {:induction false} AtOrBeforeIs(lines: seq<Line>, t: int, n: nat)
    requires n <= |lines|
    requires forall k :: n <= k < |lines| ==> lines[k].time > t
    requires n > 0 ==> lines[n - 1].time <= t
    ensures AtOrBefore(lines, t) == n
    decreases |lines|
  {
    if n < |lines| {
      AtOrBeforeIs(lines[..|lines| - 1], t, n);
    }
  }

  /** Between the record last delivered and the next announced time, the record last delivered is the one in effect. */
  lemma {:induction false} LastIsInEffect(fs: FileSystem, rank: string -> nat, r: Reader, t: int)
    requires Contract(fs) && Acyclic(fs, rank) && Inv(fs, r) && NextOk(r) && HasRead(fs, r)
    requires LastTime(fs, r) <= t < r.nextTime
    ensures Lookup(fs, rank, r.file, t) == Some(LastVals(fs, r))
  {
    var lines := fs[r.file];
    AtOrBeforeIs(lines, t, Cur(fs, r));
    if r.child.Some? {
      LastIsInEffect(fs, rank, r.child.value, t);
    }
  }

  // ------------------------------------------------------------- reading up to a time

  /** A bound on the records that a file can still deliver from line `k` on, its includes counted in full. */
  ghost function FileWeight(fs: FileSystem, rank: string -> nat, file: string, k: nat): nat
    requires Acyclic(fs, rank)
    decreases rank(file), if file in fs && k < |fs[file]| then |fs[file]| - k else 0
  {
    if file !in fs || k >= |fs[file]| then 0
    else
      1 + (if fs[file][k].rec.Include? then 2 + FileWeight(fs, rank, fs[file][k].rec.name, 0) else 0)
      + FileWeight(fs, rank, file, k + 1)
  }

  ghost function Weight(fs: FileSystem, rank: string -> nat, r: Reader): nat
    requires Acyclic(fs, rank)
    decreases r
  {
    (if r.eof then 0 else 1 + FileWeight(fs, rank, r.file, if r.pos == 0 then 0 else r.pos - 1))
    + (if r.child.Some? then 1 + Weight(fs, rank, r.child.value) else 0)
  }

  lemma {:induction false} FileWeightShrinks(fs: FileSystem, rank: string -> nat, file: string, k: nat)
    requires Acyclic(fs, rank) && file in fs && k <= |fs[file]|
    ensures FileWeight(fs, rank, file, k) <= FileWeight(fs, rank, file, 0)
  {
    if k > 0 { FileWeightShrinks(fs, rank, file, k - 1); }
  }

  lemma {:induction false} OpenedWeight(fs: FileSystem, rank: string -> nat, p: Reader, name: string)
    requires Acyclic(fs, rank) && WellFormed(fs, rank, p) && p.file in fs && !p.eof && p.pos >= 1 && p.child.None?
    requires fs[p.file][p.pos - 1].rec == Include(name) && name in fs
    ensures Weight(fs, rank, OpenInclude(fs, p, name)) < Weight(fs, rank, p)
  {
    var c := OpenInclude(fs, p, name).child.value;
    FileWeightShrinks(fs, rank, name, if c.pos == 0 then 0 else c.pos - 1);
  }

  /** Every successful read uses up some of the weight, so reading ends whatever the files hold. */
  lemma {:induction false} WeightDrops(fs: FileSystem, rank: string -> nat, r: Reader)
    requires Acyclic(fs, rank) && WellFormed(fs, rank, r)
    ensures ReadCF(fs, rank, r).0.Read? ==> Weight(fs, rank, ReadCF(fs, rank, r).1) < Weight(fs, rank, r)
    decreases rank(r.file), LinesLeft(fs, r)
  {
    hide ReadCF, Acyclic, OpenInclude, Settled, FileWeight;
    if r.child.Some? && r.child.value.nextTime < r.timeAfter {
      ChildRead(fs, rank, r);
      WeightDrops(fs, rank, r.child.value);
    } else if r.eof || r.file !in fs {
      FailedRead(fs, rank, r);
    } else {
      hide WellFormed, Weight, LinesLeft;
      var p := Settled(fs, r);
      SettledWellFormed(fs, rank, r);
      SettledWeight(fs, rank, r);
      if p.eof || fs[r.file][p.pos - 1].rec.Fields? {
        OwnWeight(fs, rank, r);
      } else if fs[r.file][p.pos - 1].rec.name !in fs {
        FailedRead(fs, rank, r);
      } else {
        var name := fs[r.file][p.pos - 1].rec.name;
        OpenedWellFormed(fs, rank, p, name);
        OpenedRead(fs, rank, r);
        OpenedWeight(fs, rank, p, name);
        WeightDrops(fs, rank, OpenInclude(fs, p, name));
      }
    }
  }

  lemma {:induction false} SettledWeight(fs: FileSystem, rank: string -> nat, r: Reader)
    requires Acyclic(fs, rank) && WellFormed(fs, rank, r) && r.file in fs && !r.eof
    ensures Weight(fs, rank, Settled(fs, r)) <= Weight(fs, rank, r)
    ensures Settled(fs, r).eof ==> Weight(fs, rank, Settled(fs, r)) < Weight(fs, rank, r)
  {
  }

  lemma {:induction false} OwnWeight(fs: FileSystem, rank: string -> nat, r: Reader)
    requires Acyclic(fs, rank) && WellFormed(fs, rank, r) && r.file in fs && !r.eof
    requires r.child.Some? ==> r.child.value.nextTime >= r.timeAfter
    requires Settled(fs, r).eof || fs[r.file][Settled(fs, r).pos - 1].rec.Fields?
    ensures Weight(fs, rank, ReadCF(fs, rank, r).1) < Weight(fs, rank, r)
  {
    OwnRead(fs, rank, r);
    SettledWellFormed(fs, rank, r);
    SettledWeight(fs, rank, r);
    hide ReadCF, Settled, WellFormed, Acyclic, Weight;
    LineWeight(fs, rank, Settled(fs, r));
  }

  lemma {:induction false} LineWeight(fs: FileSystem, rank: string -> nat, p: Reader)
    requires Acyclic(fs, rank) && p.file in fs && p.pos <= |fs[p.file]| && p.child.None? && (!p.eof ==> p.pos >= 1)
    ensures Weight(fs, rank, ReadTime(fs, p)) <= Weight(fs, rank, p)
    ensures !p.eof ==> Weight(fs, rank, ReadTime(fs, p)) < Weight(fs, rank, p)
  {
  }

  /**
   `while (t >= nextTime()) readCF(...)`: the records delivered, the reader afterwards,
   and the failure that ended the loop, if any.
   */
  ghost function Drain(fs: FileSystem, rank: string -> nat, r: Reader, t: int): (seq<Outcome>, Reader, Option<Outcome>)
    requires Acyclic(fs, rank) && WellFormed(fs, rank, r)
    decreases Weight(fs, rank, r)
  {
    if t < r.nextTime then ([], r, None)
    else
      ReadCFWellFormed(fs, rank, r);
      WeightDrops(fs, rank, r);
      var (res, q) := ReadCF(fs, rank, r);
      if !res.Read? then ([], q, Some(res))
      else
        var (log, q', failure) := Drain(fs, rank, q, t);
        ([res] + log, q', failure)
  }

  lemma {:induction false} DrainWellFormed(fs: FileSystem, rank: string -> nat, r: Reader, t: int)
    requires Acyclic(fs, rank) && WellFormed(fs, rank, r)
    ensures WellFormed(fs, rank, Drain(fs, rank, r, t).1) && Drain(fs, rank, r, t).1.file == r.file
    decreases Weight(fs, rank, r)
  {
    if t >= r.nextTime {
      ReadCFWellFormed(fs, rank, r);
      WeightDrops(fs, rank, r);
      if ReadCF(fs, rank, r).0.Read? { DrainWellFormed(fs, rank, ReadCF(fs, rank, r).1, t); }
    }
  }

  /** Reading up to one time and then up to a later one is reading up to the later one. */
  lemma {:induction false} DrainInSteps(fs: FileSystem, rank: string -> nat, r: Reader, t1: int, t2: int)
    requires Acyclic(fs, rank) && WellFormed(fs, rank, r) && t1 <= t2
    requires Drain(fs, rank, r, t1).2 == None
    ensures WellFormed(fs, rank, Drain(fs, rank, r, t1).1)
    ensures var (log1, q1, _) := Drain(fs, rank, r, t1); var (log2, q2, failure) := Drain(fs, rank, q1, t2);
      Drain(fs, rank, r, t2) == (log1 + log2, q2, failure)
    decreases Weight(fs, rank, r)
  {
    hide *;
    if t1 < r.nextTime {
      DrainStops(fs, rank, r, t1);
      assert [] + Drain(fs, rank, r, t2).0 == Drain(fs, rank, r, t2).0;
    } else {
      DrainGoesOn(fs, rank, r, t1);
      WeightDrops(fs, rank, r);
      DrainCons(fs, rank, r, t1);
      DrainCons(fs, rank, r, t2);
      var (res, q) := ReadCF(fs, rank, r);
      DrainInSteps(fs, rank, q, t1, t2);
      var (log1, q1, _) := Drain(fs, rank, q, t1);
      assert [res] + (log1 + Drain(fs, rank, q1, t2).0) == [res] + log1 + Drain(fs, rank, q1, t2).0;
    }
  }

  lemma {:induction false} DrainStops(fs: FileSystem, rank: string -> nat, r: Reader, t: int)
    requires Acyclic(fs, rank) && WellFormed(fs, rank, r) && t < r.nextTime
    ensures Drain(fs, rank, r, t) == ([], r, None)
  {
  }

  lemma {:induction false} DrainFails(fs: FileSystem, rank: string -> nat, r: Reader, t: int)
    requires Acyclic(fs, rank) && WellFormed(fs, rank, r) && t >= r.nextTime && !ReadCF(fs, rank, r).0.Read?
    ensures Drain(fs, rank, r, t) == ([], ReadCF(fs, rank, r).1, Some(ReadCF(fs, rank, r).0))
  {
    hide ReadCF, WellFormed, Acyclic;
  }

  lemma {:induction false} DrainGoesOn(fs: FileSystem, rank: string -> nat, r: Reader, t: int)
    requires Acyclic(fs, rank) && WellFormed(fs, rank, r) && t >= r.nextTime && Drain(fs, rank, r, t).2 == None
    ensures ReadCF(fs, rank, r).0.Read?
  {
    hide ReadCF, WellFormed, Acyclic;
  }

  /** A reader that can be queried at `t`: unread with its first line not after `t`, or with nothing delivered after `t`. */
  ghost predicate Queryable(fs: FileSystem, rank: string -> nat, r: Reader, t: int) {
    && WellFormed(fs, rank, r) && Inv(fs, r) && NextOk(r)
    && (r.pos == 0 ==> r.child.None? && !r.eof && fs[r.file] != [] && fs[r.file][0].time <= t)
    && (r.pos > 0 ==> HasRead(fs, r) && LastTime(fs, r) <= t)
  }

  /** A due read from a queryable reader leaves it queryable, with the delivered record as its last. */
  lemma {:induction false} QueryRead(fs: FileSystem, rank: string -> nat, r: Reader, t: int)
    requires Contract(fs) && Acyclic(fs, rank) && Queryable(fs, rank, r, t) && r.nextTime <= t < MAX_TIME
    ensures var (res, q) := ReadCF(fs, rank, r);
      && res.Read? && Queryable(fs, rank, q, t) && q.pos > 0 && q.file == r.file
      && LastVals(fs, q) == res.vals && LastTime(fs, q) == res.time
      && r.nextTime <= res.time <= t && (r.pos > 0 ==> LastTime(fs, r) <= res.time)
  {
    hide ReadCF, WellFormed, Acyclic;
    assert Readable(r);
    ReadDelivers(fs, rank, r);
    ReadCFWellFormed(fs, rank, r);
    if r.pos > 0 {
      AnnouncedIsDue(fs, r, t);
      LastBeforeAhead(fs, r);
    }
    assert Due(fs, r, t);
    AnnouncedBeforeAhead(fs, r);
  }

  ghost predicate InOrderFrom(log: seq<Outcome>, lo: int, hi: int) {
    && (forall k :: 0 <= k < |log| ==> log[k].Read? && lo <= log[k].time <= hi)
    && (forall j, k :: 0 <= j < k < |log| ==> log[j].time <= log[k].time)
  }

  /** The outcome of reading up to `t`: no failure, records in time order, and the record in effect at `t` read last. */
  ghost predicate Found(fs: FileSystem, rank: string -> nat, r: Reader, t: int, o: (seq<Outcome>, Reader, Option<Outcome>))
    requires Acyclic(fs, rank)
  {
    && o.2 == None && Queryable(fs, rank, o.1, t) && o.1.pos > 0 && o.1.file == r.file && t < o.1.nextTime
    && Lookup(fs, rank, r.file, t) == Some(LastVals(fs, o.1))
    && (o.0 == [] ==> o.1 == r) && (o.0 != [] ==> o.0[|o.0| - 1] == Read(LastTime(fs, o.1), LastVals(fs, o.1)))
    && InOrderFrom(o.0, r.nextTime, t) && (r.pos > 0 && HasRead(fs, r) ==> InOrderFrom(o.0, LastTime(fs, r), t))
  }

  lemma {:induction false} FoundCons(fs: FileSystem, rank: string -> nat, r: Reader, t: int, res: Outcome, q: Reader,
                  o: (seq<Outcome>, Reader, Option<Outcome>))
    requires Acyclic(fs, rank) && Found(fs, rank, q, t, o)
    requires res.Read? && q.pos > 0 && q.file == r.file && HasRead(fs, q)
    requires LastVals(fs, q) == res.vals && LastTime(fs, q) == res.time
    requires r.nextTime <= res.time <= t && (r.pos > 0 && HasRead(fs, r) ==> LastTime(fs, r) <= res.time)
    ensures Found(fs, rank, r, t, ([res] + o.0, o.1, o.2))
  {
    hide Queryable, Lookup, HasRead, LastTime, LastVals, Acyclic;
  }

  /**
   Reading up to `t` delivers records in time order, none of them later than `t`, and
   leaves as the last one the record in effect at `t`.
   */
  lemma {:induction false} DrainFindsRecordInEffect(fs: FileSystem, rank: string -> nat, r: Reader, t: int)
    requires Contract(fs) && Acyclic(fs, rank) && Queryable(fs, rank, r, t) && MIN_TIME <= t < MAX_TIME
    ensures Found(fs, rank, r, t, Drain(fs, rank, r, t))
    decreases Weight(fs, rank, r)
  {
    if t < r.nextTime {
      LastIsInEffect(fs, rank, r, t);
    } else {
      QueryRead(fs, rank, r, t);
      ReadCFWellFormed(fs, rank, r);
      WeightDrops(fs, rank, r);
      var (res, q) := ReadCF(fs, rank, r);
      hide *;
      DrainFindsRecordInEffect(fs, rank, q, t);
      FoundCons(fs, rank, r, t, res, q, Drain(fs, rank, q, t));
      DrainCons(fs, rank, r, t);
    }
  }

  lemma {:induction false} DrainCons(fs: FileSystem, rank: string -> nat, r: Reader, t: int)
    requires Acyclic(fs, rank) && WellFormed(fs, rank, r) && t >= r.nextTime && ReadCF(fs, rank, r).0.Read?
    ensures WellFormed(fs, rank, ReadCF(fs, rank, r).1)
    ensures var (res, q) := ReadCF(fs, rank, r); var (log, q', failure) := Drain(fs, rank, q, t);
      Drain(fs, rank, r, t) == ([res] + log, q', failure)
  {
    hide ReadCF, WellFormed, Acyclic;
    ReadCFWellFormed(fs, rank, r);
  }

  /** The reader after a sequence of queries. */
  ghost function AfterQueries(fs: FileSystem, rank: string -> nat, file: string, ts: seq<int>): (r: Reader)
    requires Acyclic(fs, rank)
    ensures WellFormed(fs, rank, r) && r.file == file
  {
    if ts == [] then Fresh(file)
    else
      var r := AfterQueries(fs, rank, file, ts[..|ts| - 1]);
      DrainWellFormed(fs, rank, r, ts[|ts| - 1]);
      Drain(fs, rank, r, ts[|ts| - 1]).1
  }

  /** For every non-decreasing sequence of query times, the record read last is always the one in effect. */
  lemma {:induction false} StreamingIsLookup(fs: FileSystem, rank: string -> nat, file: string, ts: seq<int>)
    requires Contract(fs) && Acyclic(fs, rank) && file in fs && ts != []
    requires forall i :: 0 <= i < |ts| ==> fs[file][0].time <= ts[i] < MAX_TIME
    requires forall i, j :: 0 <= i < j < |ts| ==> ts[i] <= ts[j]
    ensures var r := AfterQueries(fs, rank, file, ts);
      && Queryable(fs, rank, r, ts[|ts| - 1]) && r.pos > 0
      && Lookup(fs, rank, file, ts[|ts| - 1]) == Some(LastVals(fs, r))
  {
    var n := |ts| - 1;
    var r := AfterQueries(fs, rank, file, ts[..n]);
    if n > 0 { StreamingIsLookup(fs, rank, file, ts[..n]); }
    DrainFindsRecordInEffect(fs, rank, r, ts[n]);
  }
}
