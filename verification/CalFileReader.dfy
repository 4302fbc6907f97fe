/**
 The reader object itself: a `CalFile` delegates to a child `CalFile` while an
 include is open. Its methods do to the object what `CalFiles` says of its state.
 */
module CalFileReader {
  import opened UTime
  import opened Values
  import opened CalFiles

  class CalFile {
    const fs: FileSystem
    ghost const rank: string -> nat

    var file: string
    var pos: nat
    var nextTime: int
    var eof: bool
    var child: CalFile?
    var includeTime: int
    var timeAfter: int
    ghost var Repr: set<object>

    /** A chain of readers, one for each open file, none of them shared. */
    ghost predicate Valid()
      reads this, Repr
      ensures Valid() ==> this in Repr
      decreases Repr
    {
      this in Repr &&
      (child != null ==>
         child in Repr && child.Repr <= Repr && this !in child.Repr && child.fs == fs && child.rank == rank && child.Valid())
    }

    /** The state of this reader and of those it delegates to. */
    ghost function State(): Reader
      requires Valid()
      reads this, Repr
      decreases Repr
    {
      Reader(file, pos, nextTime, eof, if child == null then None else Some(child.State()), includeTime, timeAfter)
    }

    constructor (fs: FileSystem, ghost rank: string -> nat, file: string)
      ensures Valid() && fresh(Repr) && this.fs == fs && this.rank == rank && State() == Fresh(file)
    {
      this.fs, this.rank, this.file := fs, rank, file;
      pos, nextTime, eof, child, includeTime, timeAfter := 0, MIN_TIME, false, null, MIN_TIME, MIN_TIME;
      Repr := {this};
    }

    /** Read the next line, or find the end of the file and close it. */
    method ReadLineTime()
      requires Valid() && file in fs
      modifies this
      ensures Valid() && Repr == old(Repr) && State() == ReadTime(fs, old(State()))
    {
      if pos < |fs[file]| {
        nextTime := fs[file][pos].time;
        pos := pos + 1;
      } else {
        eof := true;
        child := null;
        nextTime := MAX_TIME;
      }
    }

    /** Scan the file, remembering where the last group of lines at or before `t` starts, and reposition there. */
    method SearchTime(t: int)
      requires Valid() && file in fs && State() == Fresh(file)
      modifies this
      ensures Valid() && Repr == old(Repr) && file == old(file) && State() == Search(fs, file, t)
    {
      var lines := fs[file];
      var prev: Option<int> := None;
      var recpos := 0;
      var k := 0;
      while k < |lines| && lines[k].time <= t
        invariant k <= |lines|
        invariant SearchIndex(lines, t, k, recpos, prev) == SearchIndex(lines, t, 0, 0, None)
      {
        if prev != Some(lines[k].time) {
          prev := Some(lines[k].time);
          recpos := k;
        }
        k := k + 1;
      }
      if recpos < |lines| {
        pos := recpos + 1;
        nextTime := lines[recpos].time;
      } else {
        eof := true;
      }
    }

    /** Note the time of the directive, read the time after it, and open the included file at the directive's time. */
    method Open(name: string)
      requires Valid() && file in fs && child == null
      modifies this
      ensures Valid() && fresh(Repr - old(Repr)) && child != null
      ensures State() == OpenInclude(fs, old(State()), name)
    {
      var t := nextTime;
      ReadLineTime();
      includeTime := t;
      timeAfter := nextTime;
      var c := new CalFile(fs, rank, name);
      if name in fs { c.SearchTime(t); }
      child := c;
      Repr := Repr + c.Repr;
    }

    /** Deliver the next record. */
    method ReadRecord() returns (o: Outcome)
      requires Valid() && Acyclic(fs, rank) && WellFormed(fs, rank, State())
      modifies Repr
      ensures Valid() && fresh(Repr - old(Repr))
      ensures (o, State()) == ReadCF(fs, rank, old(State()))
      decreases rank(file), LinesLeft(fs, State()), 2
    {
      if child != null && child.nextTime < timeAfter {
        o := ReadIncluded();
      } else {
        o := ReadOwn();
      }
    }

    /** The included file has a record due before the line after the directive: deliver that, clipped to the directive's time. */
    method ReadIncluded() returns (o: Outcome)
      requires Valid() && Acyclic(fs, rank) && WellFormed(fs, rank, State())
      requires child != null && child.nextTime < timeAfter
      modifies Repr
      ensures Valid() && fresh(Repr - old(Repr))
      ensures (o, State()) == ReadCF(fs, rank, old(State()))
      decreases rank(file), LinesLeft(fs, State()), 1
    {
      hide Acyclic;
      o := child.ReadRecord();
      Repr := Repr + child.Repr;
      if o.Read? {
        o := Read(Max(o.time, includeTime), o.vals);
        nextTime := Min(child.nextTime, timeAfter);
      }
    }

    /** Any include is finished: close it and go on with the lines of this file. */
    method ReadOwn() returns (o: Outcome)
      requires Valid() && Acyclic(fs, rank) && WellFormed(fs, rank, State())
      requires child == null || child.nextTime >= timeAfter
      modifies Repr
      ensures Valid() && fresh(Repr - old(Repr))
      ensures (o, State()) == ReadCF(fs, rank, old(State()))
      decreases rank(file), LinesLeft(fs, State()), 1
    {
      hide Acyclic;
      ghost var before := State();
      child := null;
      if eof {
        return EndOfFile;
      }
      if file !in fs {
        return NoSuchFile;
      }
      if nextTime == MIN_TIME {
        ReadLineTime();
      }
      SettledWellFormed(fs, rank, before);
      assert State() == Settled(fs, before);
      if eof {
        o := Read(nextTime, []);
        ReadLineTime();
        return;
      }
      match fs[file][pos - 1].rec {
        case Fields(vals) =>
          o := Read(nextTime, vals);
          ReadLineTime();
        case Include(name) =>
          o := ReadOpened(name, before);
      }
    }

    /** On a directive: open the file it names and read again. */
    method ReadOpened(name: string, ghost before: Reader) returns (o: Outcome)
      requires Valid() && Acyclic(fs, rank) && WellFormed(fs, rank, before) && file == before.file && file in fs && !before.eof
      requires before.child.Some? ==> before.child.value.nextTime >= before.timeAfter
      requires State() == Settled(fs, before) && WellFormed(fs, rank, State()) && !eof && child == null && pos >= 1
      requires fs[file][pos - 1].rec == Include(name)
      modifies Repr
      ensures Valid() && fresh(Repr - old(Repr))
      ensures (o, State()) == ReadCF(fs, rank, before)
      decreases rank(file), LinesLeft(fs, State()), 0
    {
      ghost var p := State();
      Open(name);
      if name !in fs {
        return NoSuchFile;
      }
      hide Settled, OpenInclude, ReadCF;
      OpenedWellFormed(fs, rank, p, name);
      OpenedRead(fs, rank, before);
      o := ReadRecord();
    }
  }
}
