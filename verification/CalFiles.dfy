/**
 Calibration files with nested include directives: the state of a reader as a
 value, what one `readCF` does to it, and what it is meant to deliver.
 */
module CalFiles {
  import opened UTime
  import opened Values

  /** A line of a file. A field `NA` or `NaN` is a NaN. */
  datatype Record = Fields(vals: seq<Num>) | Include(name: string)
  datatype Line = Line(time: int, rec: Record)
  type FileSystem = map<string, seq<Line>>

  /**
   The state of a `CalFile`: lines consumed, time of the line last read, end-of-file
   state, and the reader of an included file with the times that delimit it.
   */
  datatype Reader = Reader(file: string, pos: nat, nextTime: int, eof: bool,
                           child: Option<Reader>, includeTime: int, timeAfter: int)

  function Fresh(file: string): Reader { Reader(file, 0, MIN_TIME, false, None, MIN_TIME, MIN_TIME) }

  datatype Outcome = Read(time: int, vals: seq<Num>) | EndOfFile | NoSuchFile

  // ------------------------------------------------------------- what a file means

  /** The number of lines at or before `t` in a time-ordered file. */
  ghost function AtOrBefore(lines: seq<Line>, t: int): (n: nat)
    ensures n <= |lines|
  {
    if lines == [] then 0
    else if lines[|lines| - 1].time <= t then |lines|
    else AtOrBefore(lines[..|lines| - 1], t)
  }

  /** Includes never lead back to the file they are in: each goes to a file of lower rank. */
  ghost predicate Acyclic(fs: FileSystem, rank: string -> nat) {
    forall f, k :: f in fs && 0 <= k < |fs[f]| && fs[f][k].rec.Include? ==> rank(fs[f][k].rec.name) < rank(f)
  }

  /** The record in effect at time `t`: the last one at or before `t`, looked up in the included file if it is a directive. */
  ghost function Lookup(fs: FileSystem, rank: string -> nat, file: string, t: int): Option<seq<Num>>
    requires Acyclic(fs, rank)
    decreases rank(file)
  {
    if file !in fs then None
    else
      var n := AtOrBefore(fs[file], t);
      if n == 0 then None
      else
        match fs[file][n - 1].rec
        case Fields(vals) => Some(vals)
        case Include(name) => Lookup(fs, rank, name, t)
  }

  /**
   The documented contract of a set of calibration files: no file is empty, lines are
   in time order, and an included file has a record at or before the directive.
   */
  ghost predicate Contract(fs: FileSystem) {
    && (forall f :: f in fs ==> fs[f] != [])
    && (forall f, k :: f in fs && 0 <= k < |fs[f]| ==> MIN_TIME < fs[f][k].time < MAX_TIME)
    && (forall f, j, k :: f in fs && 0 <= j < k < |fs[f]| ==> fs[f][j].time <= fs[f][k].time)
    && (forall f, k :: f in fs && 0 <= k < |fs[f]| && fs[f][k].rec.Include? ==>
          fs[f][k].rec.name in fs && fs[fs[f][k].rec.name] != [] && fs[fs[f][k].rec.name][0].time <= fs[f][k].time)
  }

  // --------------------------------------------------------------- what a read does

  /** `readTime`: read a line; at the end of the file, close it and put the next time out of reach. */
  function ReadTime(fs: FileSystem, r: Reader): Reader
    requires r.file in fs
  {
    if r.pos < |fs[r.file]| then r.(pos := r.pos + 1, nextTime := fs[r.file][r.pos].time)
    else r.(eof := true, nextTime := MAX_TIME, child := None)
  }

  /**
   Where `search` leaves the file: the last line at or before `t`, or the first of
   the lines that share its time; the first line when all are later.
   */
  function SearchIndex(lines: seq<Line>, t: int, k: nat, found: nat, prev: Option<int>): (i: nat)
    requires k <= |lines|
    decreases |lines| - k
  {
    if k == |lines| || lines[k].time > t then found
    else if prev == Some(lines[k].time) then SearchIndex(lines, t, k + 1, found, prev)
    else SearchIndex(lines, t, k + 1, k, Some(lines[k].time))
  }

  /** `open` and `search` on a new reader. */
  function Search(fs: FileSystem, file: string, t: int): (r: Reader)
    requires file in fs
  {
    var lines := fs[file];
    var i := SearchIndex(lines, t, 0, 0, None);
    if i < |lines| then Fresh(file).(pos := i + 1, nextTime := lines[i].time)
    else Fresh(file).(eof := true)
  }

  /** `openInclude`, given the name of the included file. */
  function OpenInclude(fs: FileSystem, r: Reader, name: string): Reader
    requires r.file in fs
  {
    var q := ReadTime(fs, r);
    q.(includeTime := r.nextTime, timeAfter := q.nextTime,
       child := Some(if name in fs then Search(fs, name, r.nextTime) else Fresh(name)))
  }

  /** A reader never runs past its file, and includes only files of lower rank. */
  ghost predicate WellFormed(fs: FileSystem, rank: string -> nat, r: Reader) {
    (r.file in fs ==> r.pos <= |fs[r.file]| && (r.pos == 0 ==> r.eof || (r.nextTime == MIN_TIME && r.child.None?))) &&
    (r.file !in fs ==> r == Fresh(r.file)) &&
    (r.child.Some? ==> rank(r.child.value.file) < rank(r.file) && WellFormed(fs, rank, r.child.value))
  }

  /** Lines, and the end of the file, still to be read by this reader itself. */
  ghost function LinesLeft(fs: FileSystem, r: Reader): nat {
    (if r.file in fs && r.pos < |fs[r.file]| then |fs[r.file]| - r.pos else 0) + (if r.eof then 0 else 1)
  }

  /** The reader once it has left a finished include behind and, on its first read, has read its first line. */
  function Settled(fs: FileSystem, r: Reader): Reader
    requires r.file in fs
  {
    var p := r.(child := None);
    if p.nextTime == MIN_TIME then ReadTime(fs, p) else p
  }

  /** `readCF`: deliver the next record, from the included file as long as that is due before the line after the directive. */
  ghost function ReadCF(fs: FileSystem, rank: string -> nat, r: Reader): (o: (Outcome, Reader))
    requires Acyclic(fs, rank) && WellFormed(fs, rank, r)
    decreases rank(r.file), LinesLeft(fs, r)
  {
    if r.child.Some? && r.child.value.nextTime < r.timeAfter then
      var (res, c) := ReadCF(fs, rank, r.child.value);
      if res.Read? then
        (Read(Max(res.time, r.includeTime), res.vals), r.(child := Some(c), nextTime := Min(c.nextTime, r.timeAfter)))
      else (res, r.(child := Some(c)))
    else if r.eof then (EndOfFile, r.(child := None))
    else if r.file !in fs then (NoSuchFile, r.(child := None))
    else
      var p := Settled(fs, r);
      if p.eof then (Read(p.nextTime, []), ReadTime(fs, p))
      else
        match fs[p.file][p.pos - 1].rec
        case Fields(vals) => (Read(p.nextTime, vals), ReadTime(fs, p))
        case Include(name) =>
          var q := OpenInclude(fs, p, name);
          if name !in fs then (NoSuchFile, q) else OpenedWellFormed(fs, rank, p, name); ReadCF(fs, rank, q)
  }

  lemma {:induction false} OpenedWellFormed(fs: FileSystem, rank: string -> nat, p: Reader, name: string)
    requires Acyclic(fs, rank) && WellFormed(fs, rank, p) && p.file in fs && !p.eof && p.pos >= 1 && p.child.None?
    requires fs[p.file][p.pos - 1].rec == Include(name) && name in fs
    ensures WellFormed(fs, rank, OpenInclude(fs, p, name)) && OpenInclude(fs, p, name).file == p.file
    ensures LinesLeft(fs, OpenInclude(fs, p, name)) < LinesLeft(fs, p)
  {
  }

  /** Reading on a directive is reading from the reader that has opened it. */
  lemma {:induction false} OpenedRead(fs: FileSystem, rank: string -> nat, r: Reader)
    requires Acyclic(fs, rank) && WellFormed(fs, rank, r) && r.file in fs && !r.eof
    requires r.child.Some? ==> r.child.value.nextTime >= r.timeAfter
    requires var p := Settled(fs, r); !p.eof && fs[r.file][p.pos - 1].rec.Include? && fs[r.file][p.pos - 1].rec.name in fs
    ensures var p := Settled(fs, r); var q := OpenInclude(fs, p, fs[r.file][p.pos - 1].rec.name);
      WellFormed(fs, rank, q) && ReadCF(fs, rank, r) == ReadCF(fs, rank, q)
  {
    var p := Settled(fs, r);
    OpenedWellFormed(fs, rank, p, fs[r.file][p.pos - 1].rec.name);
  }

  /** While the included file has a record due, it is asked for it. */
  lemma {:induction false} ChildRead(fs: FileSystem, rank: string -> nat, r: Reader)
    requires Acyclic(fs, rank) && WellFormed(fs, rank, r) && r.child.Some? && r.child.value.nextTime < r.timeAfter
    ensures WellFormed(fs, rank, r.child.value)
    ensures ReadCF(fs, rank, r).0.Read? <==> ReadCF(fs, rank, r.child.value).0.Read?
    ensures ReadCF(fs, rank, r).1.child == Some(ReadCF(fs, rank, r.child.value).1)
    ensures var q := ReadCF(fs, rank, r).1; q == r.(child := q.child, nextTime := q.nextTime)
  {
  }

  /** Otherwise, off a directive, the reader delivers a line of its own, or an empty record at the end. */
  lemma {:induction false} OwnRead(fs: FileSystem, rank: string -> nat, r: Reader)
    requires Acyclic(fs, rank) && WellFormed(fs, rank, r) && r.file in fs && !r.eof
    requires r.child.Some? ==> r.child.value.nextTime >= r.timeAfter
    requires Settled(fs, r).eof || fs[r.file][Settled(fs, r).pos - 1].rec.Fields?
    ensures ReadCF(fs, rank, r).1 == ReadTime(fs, Settled(fs, r))
  {
  }

  /** A read that fails leaves the position where it is, or behind the directive that cannot be opened. */
  lemma {:induction false} FailedRead(fs: FileSystem, rank: string -> nat, r: Reader)
    requires Acyclic(fs, rank) && WellFormed(fs, rank, r)
    requires r.child.Some? ==> r.child.value.nextTime >= r.timeAfter
    requires r.eof || r.file !in fs ||
             (var p := Settled(fs, r); !p.eof && fs[p.file][p.pos - 1].rec.Include? && fs[p.file][p.pos - 1].rec.name !in fs)
    ensures ReadCF(fs, rank, r).0 == if r.eof then EndOfFile else NoSuchFile
    ensures WellFormed(fs, rank, ReadCF(fs, rank, r).1) && ReadCF(fs, rank, r).1.file == r.file
  {
  }

  lemma {:induction false} ReadTimeWellFormed(fs: FileSystem, rank: string -> nat, p: Reader)
    requires WellFormed(fs, rank, p) && p.file in fs && p.child.None?
    ensures WellFormed(fs, rank, ReadTime(fs, p)) && ReadTime(fs, p).file == p.file
  {
  }

  lemma {:induction false} ReadCFWellFormed(fs: FileSystem, rank: string -> nat, r: Reader)
    requires Acyclic(fs, rank) && WellFormed(fs, rank, r)
    ensures WellFormed(fs, rank, ReadCF(fs, rank, r).1) && ReadCF(fs, rank, r).1.file == r.file
    decreases rank(r.file), LinesLeft(fs, r)
  {
    hide ReadCF, Acyclic, OpenInclude, Settled, ReadTime;
    if r.child.Some? && r.child.value.nextTime < r.timeAfter {
      ChildRead(fs, rank, r);
      ReadCFWellFormed(fs, rank, r.child.value);
    } else if r.eof || r.file !in fs {
      FailedRead(fs, rank, r);
    } else {
      hide WellFormed, LinesLeft;
      var p := Settled(fs, r);
      SettledWellFormed(fs, rank, r);
      if p.eof || fs[r.file][p.pos - 1].rec.Fields? {
        OwnRead(fs, rank, r);
        ReadTimeWellFormed(fs, rank, p);
      } else if fs[r.file][p.pos - 1].rec.name !in fs {
        FailedRead(fs, rank, r);
      } else {
        var name := fs[p.file][p.pos - 1].rec.name;
        OpenedWellFormed(fs, rank, p, name);
        OpenedRead(fs, rank, r);
        ReadCFWellFormed(fs, rank, OpenInclude(fs, p, name));
      }
    }
  }

  /** An empty file delivers an empty record, at the largest time, and only then ends. */
  lemma {:induction false} EmptyFileRead(fs: FileSystem, rank: string -> nat, file: string)
    requires Acyclic(fs, rank) && file in fs && fs[file] == []
    ensures var (o, q) := ReadCF(fs, rank, Fresh(file));
      && o == Read(MAX_TIME, [])
      && WellFormed(fs, rank, q) && ReadCF(fs, rank, q).0 == EndOfFile
  {
  }

  lemma {:induction false} SettledWellFormed(fs: FileSystem, rank: string -> nat, r: Reader)
    requires WellFormed(fs, rank, r) && r.file in fs && !r.eof
    ensures var p := Settled(fs, r);
      WellFormed(fs, rank, p) && (!p.eof ==> p.pos >= 1) && p.file == r.file && p.child.None? && p.pos <= |fs[r.file]|
      && LinesLeft(fs, p) <= LinesLeft(fs, r)
  {
  }
}
