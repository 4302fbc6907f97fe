/**
 All the records of a calibration file, with its includes written out: what a reader
 delivers is this list, record by record, and nothing else.
 */
module CalFileRecords {
  import opened UTime
  import opened Values
  import opened CalFiles
  import opened CalFileTheory

  /** The first line of the latest group of lines at or before `t`. */
  ghost function LastGroup(lines: seq<Line>, t: int): nat {
    if i: nat :| IsLastGroup(lines, t, i) then i else 0
  }

  /** The records before the first one that is not before `hi`, none of them placed before `lo`. */
  ghost function Between(rs: seq<Outcome>, lo: int, hi: int): seq<Outcome> {
    if rs == [] || !rs[0].Read? || rs[0].time >= hi then []
    else [Read(Max(rs[0].time, lo), rs[0].vals)] + Between(rs[1..], lo, hi)
  }

  ghost function TimeOf(lines: seq<Line>, k: nat): int {
    if k < |lines| then lines[k].time else MAX_TIME
  }

  /**
   The records of a file from line `k` on. A directive stands for the records of the
   file it names, from the latest group at its time on, up to the time of the next line.
   */
  ghost function Records(fs: FileSystem, rank: string -> nat, file: string, k: nat): seq<Outcome>
    requires Acyclic(fs, rank)
    decreases rank(file), if file in fs && k < |fs[file]| then |fs[file]| - k else 0
  {
    if file !in fs || k >= |fs[file]| then []
    else
      var line := fs[file][k];
      (match line.rec
       case Fields(vals) => [Read(line.time, vals)]
       case Include(name) =>
         if name !in fs then []
         else Between(Records(fs, rank, name, LastGroup(fs[name], line.time)), line.time, TimeOf(fs[file], k + 1)))
      + Records(fs, rank, file, k + 1)
  }

  /** The records that a reader has yet to deliver. */
  ghost function Remaining(fs: FileSystem, rank: string -> nat, r: Reader): seq<Outcome>
    requires Acyclic(fs, rank)
    decreases r
  {
    match r.child
    case None => Own(fs, rank, r)
    case Some(c) => Between(Remaining(fs, rank, c), r.includeTime, r.timeAfter) + Own(fs, rank, r)
  }

  ghost function Own(fs: FileSystem, rank: string -> nat, r: Reader): seq<Outcome>
    requires Acyclic(fs, rank)
  {
    if r.eof then [] else Records(fs, rank, r.file, if r.pos == 0 then 0 else r.pos - 1)
  }

  lemma {:induction false} RemainingPlain(fs: FileSystem, rank: string -> nat, r: Reader)
    requires Acyclic(fs, rank) && r.child.None?
    ensures Remaining(fs, rank, r) == Own(fs, rank, r)
  {
    hide Records;
  }

  lemma {:induction false} RemainingWithChild(fs: FileSystem, rank: string -> nat, r: Reader)
    requires Acyclic(fs, rank) && r.child.Some?
    ensures Remaining(fs, rank, r) ==
            Between(Remaining(fs, rank, r.child.value), r.includeTime, r.timeAfter) + Own(fs, rank, r)
  {
    hide Records, Between;
  }

  lemma {:induction false} SearchIsLastGroup(fs: FileSystem, name: string, t: int)
    requires Contract(fs) && name in fs && fs[name][0].time <= t
    ensures SearchIndex(fs[name], t, 0, 0, None) == LastGroup(fs[name], t) < |fs[name]|
  {
    var lines := fs[name];
    assert InTimeOrder(lines);
    SearchFinds(lines, t);
    var i := SearchIndex(lines, t, 0, 0, None);
    LastGroupIsUnique(lines, t, i, LastGroup(lines, t));
  }

  lemma {:induction false} RecordsAtDirective(fs: FileSystem, rank: string -> nat, file: string, k: nat, name: string)
    requires Acyclic(fs, rank) && file in fs && k < |fs[file]| && fs[file][k].rec == Include(name) && name in fs
    ensures var t := fs[file][k].time;
      Records(fs, rank, file, k) ==
      Between(Records(fs, rank, name, LastGroup(fs[name], t)), t, TimeOf(fs[file], k + 1)) + Records(fs, rank, file, k + 1)
  {
  }

  lemma {:induction false} NoRecordsBehind(fs: FileSystem, rank: string -> nat, file: string, k: nat)
    requires Acyclic(fs, rank) && file in fs && k >= |fs[file]|
    ensures Records(fs, rank, file, k) == []
  {
  }

  /** The reader that a directive opens stands on the latest group of the included file. */
  lemma {:induction false} OpenedStandsOn(fs: FileSystem, p: Reader, name: string)
    requires Contract(fs) && Inv(fs, p) && p.child.None? && !p.eof && p.pos >= 1 && fs[p.file][p.pos - 1].rec == Include(name)
    ensures name in fs && p.nextTime == fs[p.file][p.pos - 1].time && p.file in fs && p.pos <= |fs[p.file]|
    ensures var q := OpenInclude(fs, p, name);
      && q.file == p.file && q.child.Some? && q.includeTime == p.nextTime && q.timeAfter == TimeOf(fs[p.file], p.pos)
      && (if q.eof then p.pos == |fs[p.file]| else q.pos == p.pos + 1)
      && var c := q.child.value;
         c.file == name && c.child.None? && !c.eof && c.pos == LastGroup(fs[name], p.nextTime) + 1
  {
    SearchIsLastGroup(fs, name, p.nextTime);
    hide SearchIndex, LastGroup;
  }

  /** Opening an included file changes nothing about what is to come. */
  lemma {:induction false} OpeningKeeps(fs: FileSystem, rank: string -> nat, p: Reader, name: string)
    requires Contract(fs) && Acyclic(fs, rank) && Inv(fs, p) && p.child.None? && !p.eof && p.pos >= 1
    requires fs[p.file][p.pos - 1].rec == Include(name)
    ensures name in fs && Remaining(fs, rank, OpenInclude(fs, p, name)) == Remaining(fs, rank, p)
  {
    hide Contract, Acyclic, Inv, OpenInclude, Records, Between, LastGroup, TimeOf, Remaining;
    OpenedStandsOn(fs, p, name);
    var q := OpenInclude(fs, p, name);
    RemainingPlain(fs, rank, p);
    RemainingPlain(fs, rank, q.child.value);
    RemainingWithChild(fs, rank, q);
    RecordsAtDirective(fs, rank, p.file, p.pos - 1, name);
    if p.pos == |fs[p.file]| { NoRecordsBehind(fs, rank, p.file, p.pos); }
  }

  /** So does leaving a finished include, or reading the first line. */
  lemma {:induction false} SettlingKeeps(fs: FileSystem, rank: string -> nat, r: Reader)
    requires Contract(fs) && Acyclic(fs, rank) && WellFormed(fs, rank, r) && Inv(fs, r) && !r.eof
    requires r.child.Some? ==> Between(Remaining(fs, rank, r.child.value), r.includeTime, r.timeAfter) == []
    requires r.child.Some? ==> r.nextTime == r.timeAfter
    ensures Remaining(fs, rank, Settled(fs, r)) == Remaining(fs, rank, r)
  {
    hide Contract, Acyclic, Records, Between, Remaining;
    if r.child.Some? {
      RemainingWithChild(fs, rank, r);
    } else {
      RemainingPlain(fs, rank, r);
    }
    SettledOwn(fs, rank, r);
    RemainingPlain(fs, rank, Settled(fs, r));
  }

  lemma {:induction false} SettledOwn(fs: FileSystem, rank: string -> nat, r: Reader)
    requires Contract(fs) && Acyclic(fs, rank) && WellFormed(fs, rank, r) && Inv(fs, r) && !r.eof
    requires r.child.Some? ==> r.nextTime == r.timeAfter
    ensures Settled(fs, r).child.None? && Own(fs, rank, Settled(fs, r)) == Own(fs, rank, r)
  {
    hide Acyclic, Records;
  }

  /** A read delivers the next of the remaining records and leaves the others. */
  ghost predicate ReadsFirst(fs: FileSystem, rank: string -> nat, r: Reader, o: (Outcome, Reader))
    requires Acyclic(fs, rank)
  {
    var rs := Remaining(fs, rank, r);
    rs != [] && o.0 == rs[0] && o.0.Read? && Remaining(fs, rank, o.1) == rs[1..]
  }

  lemma {:induction false} BetweenFirst(rs: seq<Outcome>, lo: int, hi: int)
    requires rs != [] && rs[0].Read? && rs[0].time < hi
    ensures Between(rs, lo, hi) == [Read(Max(rs[0].time, lo), rs[0].vals)] + Between(rs[1..], lo, hi)
  {
  }

  lemma {:induction false} DueChildIsReadable(fs: FileSystem, r: Reader)
    requires Contract(fs) && Inv(fs, r) && r.child.Some? && r.child.value.nextTime < r.timeAfter
    ensures Readable(r.child.value) && r.timeAfter <= MAX_TIME
  {
  }

  lemma {:induction false} DueChildIsBefore(fs: FileSystem, rank: string -> nat, r: Reader)
    requires Contract(fs) && Acyclic(fs, rank) && WellFormed(fs, rank, r) && Inv(fs, r)
    requires r.child.Some? && r.child.value.nextTime < r.timeAfter
    ensures WellFormed(fs, rank, r.child.value) && Inv(fs, r.child.value) && Readable(r.child.value)
    ensures ReadCF(fs, rank, r.child.value).0.Read? && ReadCF(fs, rank, r.child.value).0.time < r.timeAfter
  {
    var c := r.child.value;
    DueChildIsReadable(fs, r);
    ReadDelivers(fs, rank, c);
    AnnouncedIsDue(fs, c, r.timeAfter - 1);
  }

  lemma {:induction false} ChildReads(fs: FileSystem, rank: string -> nat, r: Reader)
    requires Acyclic(fs, rank) && WellFormed(fs, rank, r) && r.child.Some? && r.child.value.nextTime < r.timeAfter
    requires WellFormed(fs, rank, r.child.value) && ReadsFirst(fs, rank, r.child.value, ReadCF(fs, rank, r.child.value))
    requires ReadCF(fs, rank, r.child.value).0.time < r.timeAfter
    ensures ReadsFirst(fs, rank, r, ReadCF(fs, rank, r))
  {
    hide Records, Between, Acyclic, Remaining, Own;
    var c := r.child.value;
    var rs := Remaining(fs, rank, c);
    RemainingWithChild(fs, rank, r);
    RemainingWithChild(fs, rank, ReadCF(fs, rank, r).1);
    SameOwn(fs, rank, r, ReadCF(fs, rank, r).1);
    BetweenFirst(rs, r.includeTime, r.timeAfter);
  }

  lemma {:induction false} SameOwn(fs: FileSystem, rank: string -> nat, r: Reader, q: Reader)
    requires Acyclic(fs, rank) && q.eof == r.eof && q.pos == r.pos && q.file == r.file
    ensures Own(fs, rank, q) == Own(fs, rank, r)
  {
    hide Records;
  }

  lemma {:induction false} FieldsReads(fs: FileSystem, rank: string -> nat, p: Reader)
    requires Acyclic(fs, rank) && p.file in fs && p.child.None? && !p.eof && 1 <= p.pos <= |fs[p.file]|
    requires fs[p.file][p.pos - 1].rec.Fields? && p.nextTime == fs[p.file][p.pos - 1].time
    ensures ReadsFirst(fs, rank, p, (Read(p.nextTime, fs[p.file][p.pos - 1].rec.vals), ReadTime(fs, p)))
  {
    var rs := Records(fs, rank, p.file, p.pos - 1);
    var q := ReadTime(fs, p);
    assert rs == [Read(p.nextTime, fs[p.file][p.pos - 1].rec.vals)] + Records(fs, rank, p.file, p.pos);
    assert rs[1..] == Records(fs, rank, p.file, p.pos);
    assert q.eof ==> Records(fs, rank, p.file, p.pos) == [];
    assert !q.eof ==> q.pos - 1 == p.pos;
  }

  lemma {:induction false} PlainNextTime(fs: FileSystem, p: Reader)
    requires Inv(fs, p) && p.child.None? && !p.eof && p.pos >= 1
    ensures p.file in fs && p.pos <= |fs[p.file]| && p.nextTime == fs[p.file][p.pos - 1].time
  {
  }

  lemma {:induction false} IncludeInv(fs: FileSystem, rank: string -> nat, r: Reader)
    requires WellFormed(fs, rank, r) && Inv(fs, r) && r.child.Some?
    ensures var c := r.child.value;
      && Inv(fs, c) && NextOk(c) && c.pos >= 1 && WellFormed(fs, rank, c) && rank(c.file) < rank(r.file)
      && (c.nextTime >= r.timeAfter ==> r.nextTime == r.timeAfter)
  {
  }

  /** A file system as documented, and a reader in a state that reading can lead to. */
  ghost predicate Sound(fs: FileSystem, rank: string -> nat, r: Reader) {
    Contract(fs) && Acyclic(fs, rank) && WellFormed(fs, rank, r) && Inv(fs, r)
  }

  /** The next record of a reader is the first of those remaining. */
  lemma {:induction false} ReadsNext(fs: FileSystem, rank: string -> nat, r: Reader)
    requires Sound(fs, rank, r) && Readable(r)
    ensures ReadsFirst(fs, rank, r, ReadCF(fs, rank, r))
    decreases rank(r.file), LinesLeft(fs, r), 0
  {
    hide Contract, Acyclic, WellFormed, Inv, Readable, NextOk, ReadCF, ReadsFirst, Remaining, Between, Settled, OpenInclude, LinesLeft, ReadTime, Due, Ahead;
    if r.child.Some? && r.child.value.nextTime < r.timeAfter {
      DueChildIsBefore(fs, rank, r);
      IncludeInv(fs, rank, r);
      ReadsNext(fs, rank, r.child.value);
      ChildReads(fs, rank, r);
    } else {
      SettledIsReader(fs, rank, r);
      if r.child.Some? {
        IncludeInv(fs, rank, r);
        LateChild(fs, rank, r.child.value, r.includeTime, r.timeAfter);
      }
      SettlingKeeps(fs, rank, r);
      var p := Settled(fs, r);
      PlainNextTime(fs, p);
      if fs[r.file][p.pos - 1].rec.Fields? {
        FieldsReads(fs, rank, p);
        FieldsRead(fs, rank, r);
        SameReads(fs, rank, r, p, ReadCF(fs, rank, r));
      } else {
        var name := fs[r.file][p.pos - 1].rec.name;
        OpeningKeeps(fs, rank, p, name);
        OpenedInclude(fs, rank, p, name);
        var q := OpenInclude(fs, p, name);
        ReadsNext(fs, rank, q);
        OpenedRead(fs, rank, r);
        SameReads(fs, rank, r, q, ReadCF(fs, rank, q));
      }
    }
  }

  lemma {:induction false} SameReads(fs: FileSystem, rank: string -> nat, r: Reader, q: Reader, o: (Outcome, Reader))
    requires Acyclic(fs, rank) && Remaining(fs, rank, r) == Remaining(fs, rank, q) && ReadsFirst(fs, rank, q, o)
    ensures ReadsFirst(fs, rank, r, o)
  {
  }

  /** A file that announces no time before `hi` has no record before it. */
  lemma {:induction false} LateChild(fs: FileSystem, rank: string -> nat, c: Reader, lo: int, hi: int)
    requires Sound(fs, rank, c) && NextOk(c) && c.pos >= 1 && c.nextTime >= hi
    ensures Between(Remaining(fs, rank, c), lo, hi) == []
    decreases rank(c.file), LinesLeft(fs, c), 1
  {
    hide Contract, Acyclic, WellFormed, Inv, ReadCF, Records, LinesLeft, Due, Ahead;
    if Readable(c) {
      hide Remaining, Readable;
      ReadsNext(fs, rank, c);
      ReadDelivers(fs, rank, c);
      AnnouncedBeforeAhead(fs, c);
    } else if c.child.Some? {
      IncludeInv(fs, rank, c);
      LateChild(fs, rank, c.child.value, c.includeTime, c.timeAfter);
    }
  }

  /** The leading records at or before `t`. */
  ghost function UpTo(rs: seq<Outcome>, t: int): seq<Outcome> {
    if rs == [] || !rs[0].Read? || rs[0].time > t then [] else [rs[0]] + UpTo(rs[1..], t)
  }

  /** Reading up to a time delivers exactly the records remaining up to then. */
  lemma {:induction false} DrainIsUpTo(fs: FileSystem, rank: string -> nat, r: Reader, t: int)
    requires Contract(fs) && Acyclic(fs, rank) && Queryable(fs, rank, r, t) && MIN_TIME <= t < MAX_TIME
    ensures var (log, q, failure) := Drain(fs, rank, r, t);
      log == UpTo(Remaining(fs, rank, r), t) && Remaining(fs, rank, r) == log + Remaining(fs, rank, q)
    decreases Weight(fs, rank, r)
  {
    hide Contract, Acyclic, Queryable, WellFormed, Inv, Readable, NextOk, ReadCF, Remaining, Drain, Weight, HasRead, LastTime, LastVals;
    QueryableIsSound(fs, rank, r, t);
    if t < r.nextTime {
      DrainStops(fs, rank, r, t);
      NothingUpTo(fs, rank, r, t);
    } else {
      QueryRead(fs, rank, r, t);
      ReadCFWellFormed(fs, rank, r);
      WeightDrops(fs, rank, r);
      QueryableIsReadable(fs, rank, r, t);
      ReadsNext(fs, rank, r);
      DrainCons(fs, rank, r, t);
      var (res, q) := ReadCF(fs, rank, r);
      DrainIsUpTo(fs, rank, q, t);
      var rs := Remaining(fs, rank, r);
      assert rs == [rs[0]] + rs[1..];
      var log := Drain(fs, rank, q, t).0;
      assert ([res] + log) + Remaining(fs, rank, Drain(fs, rank, q, t).1) == [res] + (log + Remaining(fs, rank, Drain(fs, rank, q, t).1));
    }
  }

  lemma {:induction false} QueryableIsSound(fs: FileSystem, rank: string -> nat, r: Reader, t: int)
    requires Contract(fs) && Acyclic(fs, rank) && Queryable(fs, rank, r, t)
    ensures Sound(fs, rank, r) && NextOk(r)
  {
  }

  lemma {:induction false} QueryableIsReadable(fs: FileSystem, rank: string -> nat, r: Reader, t: int)
    requires Contract(fs) && Acyclic(fs, rank) && Queryable(fs, rank, r, t) && r.nextTime <= t < MAX_TIME
    ensures Readable(r)
  {
  }

  lemma {:induction false} NothingUpTo(fs: FileSystem, rank: string -> nat, r: Reader, t: int)
    requires Sound(fs, rank, r) && NextOk(r) && t < r.nextTime && MIN_TIME <= t
    ensures UpTo(Remaining(fs, rank, r), t) == []
  {
    hide Contract, Acyclic, WellFormed, Records, LinesLeft, ReadCF;
    assert r.pos >= 1 || r.eof;
    if Readable(r) {
      hide Inv, Remaining, Readable;
      ReadsNext(fs, rank, r);
      ReadDelivers(fs, rank, r);
      AnnouncedBeforeAhead(fs, r);
    } else if r.child.Some? {
      IncludeInv(fs, rank, r);
      LateChild(fs, rank, r.child.value, r.includeTime, r.timeAfter);
    }
  }

  /**
   A file read up to a time from its beginning delivers, in order and once each, exactly
   the records of the file with its includes written out, up to that time.
   */
  lemma {:induction false} DrainIsExpansion(fs: FileSystem, rank: string -> nat, file: string, t: int)
    requires Contract(fs) && Acyclic(fs, rank) && file in fs && fs[file][0].time <= t < MAX_TIME
    ensures WellFormed(fs, rank, Fresh(file))
    ensures Drain(fs, rank, Fresh(file), t).0 == UpTo(Records(fs, rank, file, 0), t)
  {
    hide Drain, Records, Acyclic;
    assert Queryable(fs, rank, Fresh(file), t);
    assert MIN_TIME <= t;
    DrainIsUpTo(fs, rank, Fresh(file), t);
  }
}
