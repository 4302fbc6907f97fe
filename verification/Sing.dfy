/**
 The receiver of `sing` as a program: one buffer with a read and a write
 position, scanned after every read from the port.
 */
module Sing {

  import opened Values
  import opened SingPacket
  import opened SingTally
  import opened SingReceiver
  import Crc

  datatype Outcome = More | Ended | Broken

  ghost function OutcomeOf(s: Step): Outcome {
    match s
    case Wait(_) => More
    case Next(_, _) => More
    case End(_) => Ended
    case Undefined(_) => Broken
  }

  class Receiver {
    var buf: array<byte>
    var rptr: nat
    var wptr: nat
    var tally: Tally
    var npack: nat
    var nlast: nat
    var msec: int
    var dsize: int
    var scanHeaderNext: bool
    var echo: seq<byte>
    ghost var good: seq<Packet>
    ghost var used: nat
    ghost var segs: seq<Segment>

    ghost function State(): Rx
      reads this
    {
      Rx(tally, npack, nlast, msec, dsize, scanHeaderNext, good, echo, used, segs)
    }

    ghost predicate InBounds()
      reads this
    {
      buf.Length == RBUFLEN && rptr <= wptr <= buf.Length
    }

    /** Bytes received and not yet used. */
    ghost function Pending(): seq<byte>
      requires InBounds()
      reads this, buf
    {
      buf[rptr..wptr]
    }

    ghost function Behind(): seq<byte>
      requires InBounds()
      reads this, buf
    {
      buf[wptr..]
    }

    /** Between two reads: room in the buffer, and the bytes at hand at its front. */
    ghost predicate Ready()
      reads this
    {
      InBounds() && State().Valid() && rptr == 0 && wptr < buf.Length
    }

    constructor ()
      ensures Ready() && State() == Begin() && Pending() == [] && fresh(buf)
    {
      buf := new byte[RBUFLEN](i => 0);
      rptr, wptr := 0, 0;
      tally := Start();
      npack, nlast, msec, dsize, scanHeaderNext := 0, 0, 0, 0, true;
      echo, good, used, segs := [], [], 0, [];
    }

    /** Counts the packets between two numbers as missing. */
    method CountMissing(low: nat, high: nat)
      requires tally.Sized()
      modifies this`tally
      ensures tally == MissAll(old(tally), low, high)
    {
      hide Miss;
      var n := low;
      while n < high
        invariant tally.Sized()
        invariant MissAll(tally, n, high) == MissAll(old(tally), low, high)
        decreases high - n
      {
        tally := Miss(tally, n);
        n := n + 1;
      }
    }

    method ReadHeader(f: Fields)
      requires tally.Sized()
      modifies this`tally, this`npack, this`nlast, this`msec, this`dsize, this`scanHeaderNext
      ensures State() == TakeHeader(old(State()), f)
    {
      hide MissAll;
      npack, msec, dsize := f.number, f.msec, f.dsize;
      if npack != EOF_NPACK {
        CountMissing((nlast + 1) % TWO32, npack);
        nlast := npack;
      }
      scanHeaderNext := false;
    }

    /** Resynchronizes behind the next ETX. */
    method SkipJunk()
      requires InBounds()
      modifies this`rptr
      ensures InBounds() && rptr == old(rptr) + Junk(old(Pending()))
    {
      hide Junk;
      ghost var s, from := Pending(), rptr;
      while rptr < wptr
        invariant from <= rptr <= wptr
        invariant forall i :: from <= i < rptr ==> buf[i] != ETX
      {
        rptr := rptr + 1;
        if buf[rptr - 1] == ETX {
          JunkIs(s, rptr - from);
          return;
        }
      }
      JunkIs(s, rptr - from);
    }

    /** The checksum test on the packet at the front. */
    method TestPacket() returns (ok: bool)
      requires InBounds() && START_OF_DATA + dsize >= 0 && rptr + MIN_PACKET_LENGTH + dsize <= wptr
      ensures var plen := MIN_PACKET_LENGTH + dsize;
              ok == CheckOk(Pending()[..plen], Pending()[plen..] + Behind())
    {
      hide ScanHex;
      var plen := MIN_PACKET_LENGTH + dsize;
      var k := START_OF_DATA + dsize;
      FrontSlices(plen, k);
      var crc := Crc.ComputeCksum(buf[rptr..rptr + k]);
      var incrc := ScanHex(buf[rptr + k..]);
      ok := buf[rptr + k + LENGTH_OF_CRC] == ETX && incrc == Some(crc as nat);
    }

    lemma {:induction false} FrontSlices(plen: nat, k: nat)
      requires InBounds() && rptr + plen <= wptr && k <= plen
      ensures Pending()[..plen][..k] == buf[rptr..rptr + k]
      ensures Pending()[..plen][k..] + (Pending()[plen..] + Behind()) == buf[rptr + k..]
      ensures plen > 0 ==> Pending()[..plen][plen - 1] == buf[rptr + plen - 1]
    {
      Slices(buf[..], rptr, wptr, plen, k);
      assert buf[..][rptr..wptr] == Pending() && buf[..][wptr..] == Behind();
      assert buf[..][rptr..rptr + k] == buf[rptr..rptr + k] && buf[..][rptr + k..] == buf[rptr + k..];
    }

    /** The packet at the front passed the test. */
    method AcceptPacket()
      requires InBounds() && tally.Sized()
      requires START_OF_DATA + dsize >= 0 && rptr + MIN_PACKET_LENGTH + dsize <= wptr
      modifies this`tally, this`echo, this`good, this`used, this`segs, this`scanHeaderNext
      ensures State() == TakePacket(old(State()), old(Pending()[..MIN_PACKET_LENGTH + dsize]))
    {
      hide Accept;
      var plen := MIN_PACKET_LENGTH + dsize;
      ghost var raw := Pending()[..plen];
      tally := Accept(tally, nlast, plen);
      assert raw == buf[rptr..rptr + plen];
      echo := echo + buf[rptr..rptr + plen];
      good := good + [Packet(npack, msec, if dsize <= 0 then [] else raw[START_OF_DATA..START_OF_DATA + dsize])];
      segs, used := segs + [Segment(used, raw)], used + plen;
      scanHeaderNext := npack != EOF_NPACK;
    }

    /** A bad packet: it is counted, and its bytes dropped up to an ETX. */
    method RejectPacket()
      requires InBounds() && tally.Sized()
      modifies this`tally, this`scanHeaderNext, this`rptr, this`used
      ensures InBounds() && State() == NoteBad(old(State()), Junk(old(Pending())))
      ensures rptr == old(rptr) + Junk(old(Pending()))
    {
      hide Junk;
      used := used + Junk(Pending());
      SkipJunk();
      tally := tally.(nBad := tally.nBad + 1);
      scanHeaderNext := true;
    }

    /** What a step of the specification has done to the fields. */
    ghost predicate Stepped(r: Step, from: nat)
      reads this
    {
      && State() == r.rx
      && rptr == from + (if r.Next? then r.used else 0)
    }

    /** The part of a turn behind a header. */
    method TurnBody() returns (o: Outcome, again: bool)
      requires InBounds() && State().Valid() && !scanHeaderNext
      modifies this`tally, this`echo, this`good, this`used, this`segs, this`scanHeaderNext, this`rptr
      ensures InBounds()
      ensures var r := StepBody(old(State()), old(Pending()), old(Behind()));
              Stepped(r, old(rptr)) && o == OutcomeOf(r) && again == r.Next?
    {
      hide TakePacket, CheckOk, Junk;
      var plen := MIN_PACKET_LENGTH + dsize;
      o, again := More, false;
      if wptr - rptr < plen {
        return;
      }
      if START_OF_DATA + dsize < 0 {
        o := Broken;
        return;
      }
      var ok := TestPacket();
      if ok {
        AcceptPacket();
        TakenHeader(old(State()), old(Pending()[..MIN_PACKET_LENGTH + dsize]));
        if npack == EOF_NPACK {
          o := Ended;
          return;
        }
        rptr := rptr + plen;
      } else {
        RejectPacket();
      }
      again := true;
    }

    /** One turn of the scanning loop. */
    method Turn() returns (o: Outcome, again: bool)
      requires InBounds() && State().Valid()
      modifies this`tally, this`echo, this`good, this`used, this`segs, this`scanHeaderNext, this`rptr,
               this`npack, this`nlast, this`msec, this`dsize
      ensures InBounds()
      ensures var r := ScanStep(old(State()), old(Pending()), old(Behind()));
              Stepped(r, old(rptr)) && o == OutcomeOf(r) && again == r.Next?
    {
      hide StepBody, TakeHeader, ScanHeader, Junk;
      if scanHeaderNext {
        if wptr - rptr < START_OF_DATA {
          return More, false;
        }
        assert Pending() + Behind() == buf[rptr..];
        var f := ScanHeader(buf[rptr..]);
        if f.Some? && f.value.dsize < MAX_DATA_LENGTH {
          HeaderSize(State(), f.value);
          ReadHeader(f.value);
          if MIN_PACKET_LENGTH + dsize > buf.Length {
            return Broken, false;
          }
        } else {
          dsize := 0;
          RejectPacket();
          return More, true;
        }
      }
      o, again := TurnBody();
    }

    /** Moves the unused bytes to the front of the buffer. */
    method MoveDown()
      requires InBounds()
      modifies this`rptr, this`wptr, buf
      ensures InBounds() && rptr == 0 && Pending() == old(Pending())
    {
      var l := wptr - rptr;
      forall i | 0 <= i < l {
        buf[i] := buf[rptr + i];
      }
      rptr, wptr := 0, l;
    }

    /** Scans what is in the buffer, for as long as it yields something. */
    method ScanBuffer() returns (o: Outcome)
      requires InBounds() && State().Valid()
      modifies this, buf
      ensures buf == old(buf)
      ensures var r := ScanAll(old(State()), old(Pending()), old(Behind()));
              && State() == r.step.rx
              && o == OutcomeOf(r.step)
              && (o == More ==> Ready() && Pending() == r.rest)
    {
      hide ScanStep, MissAll;
      ghost var behind := Behind();
      o := More;
      var again := true;
      ghost var r := ScanAll(State(), Pending(), behind);
      while again
        invariant InBounds() && buf == old(buf) && Behind() == behind
        invariant again ==> State().Valid() && ScanAll(State(), Pending(), behind) == r
        invariant !again ==> State() == r.step.rx && o == OutcomeOf(r.step) && Pending() == r.rest
        decreases again, wptr - rptr
      {
        ghost var s, at := Pending(), rptr;
        ghost var step := ScanStep(State(), s, behind);
        o, again := Turn();
        if again {
          assert Pending() == s[step.used..];
        }
      }
      if o == More {
        MoveDown();
      }
    }

    /** A read from the port that delivers these bytes. */
    method Read(chunk: seq<byte>)
      requires InBounds() && wptr + |chunk| <= buf.Length
      modifies this`wptr, buf
      ensures InBounds() && Pending() == old(Pending()) + chunk
    {
      forall i | 0 <= i < |chunk| {
        buf[wptr + i] := chunk[i];
      }
      wptr := wptr + |chunk|;
    }

    /** One read and the scan that follows it; `rest` is what the port has yet to deliver. */
    method Receive(chunk: seq<byte>, ghost ps: seq<Packet>, ghost rest: seq<byte>, ghost text: seq<byte>) returns (o: Outcome)
      requires Ready() && tally.Recounted() && wptr + |chunk| <= buf.Length
      requires Genuine(State(), text) && text[used..] == Pending()
      modifies this, buf
      ensures buf == old(buf)
      ensures tally.Recounted()
      ensures o == More ==> Ready() && used <= |text + chunk| && (text + chunk)[used..] == Pending()
      ensures Genuine(State(), text + chunk)
      ensures Tracked(Wait(old(State())), ps, old(Pending()), chunk + rest) ==>
                if o == More then Tracked(Wait(State()), ps, Pending(), rest) else o == Ended && Finished(State(), ps)
    {
      hide ScanAll, OnTrack, Tracked, Finished, Positive, Sum, Genuine;
      ghost var before := Pending();
      GenuineUsed(State(), text);
      GenuineGrows(State(), text, chunk);
      Read(chunk);
      ScanGenuine(State(), Pending(), Behind(), text + chunk);
      ScanRecounts(State(), Pending(), Behind());
      ghost var scan := ScanAll(State(), Pending(), Behind());
      if Tracked(Wait(State()), ps, before, chunk + rest) {
        TrackRead(State(), ps, before, chunk, rest);
        TrackScan(State(), ps, Pending(), rest, Behind());
        TrackOutcome(scan.step, ps, scan.rest, rest);
      }
      o := ScanBuffer();
    }

    /**
     Reads a whole stream from the port, in pieces of any sizes. Whatever the bytes,
     there is room for every read, the counters stay exact, and only checked packets are
     accepted. A stream of printed packets is taken in whole.
     */
    method Run(stream: seq<byte>, sizes: nat -> nat, ghost ps: seq<Packet>) returns (o: Outcome)
      requires Ready() && State() == Begin() && Pending() == []
      modifies this, buf
      ensures tally.Recounted()
      ensures exists n :: 0 <= n <= |stream| && Genuine(State(), stream[..n])
      ensures o == More ==> Ready() && Genuine(State(), stream)
      ensures Stream(ps) && stream == PrintAll(ps) ==>
                && State() == After(ps)
                && o == if ps != [] && ps[|ps| - 1].number == EOF_NPACK then Ended else More
    {
      hide Tracked, Begin, PrintAll, Positive, Sum, After, Genuine;
      ghost var sent := Stream(ps) && stream == PrintAll(ps);
      var pos, i := 0, 0;
      o := More;
      BeginRecounts();
      BeginGenuine();
      if sent {
        TrackBegin(ps, stream);
      }
      assert stream[0..] == stream;
      while o == More && pos < |stream|
        invariant buf == old(buf) && 0 <= pos <= |stream|
        invariant tally.Recounted()
        invariant Genuine(State(), stream[..pos])
        invariant o == More ==> Ready() && used <= pos && stream[..pos][used..] == Pending()
        invariant sent ==>
                    if o == More then Tracked(Wait(State()), ps, Pending(), stream[pos..])
                    else o == Ended && Finished(State(), ps)
        decreases o == More, |stream| - pos
      {
        var room := buf.Length - wptr;
        assert room > 0;
        var l := Least(Least(if sizes(i) == 0 then 1 else sizes(i), room), |stream| - pos);
        assert stream[pos..] == stream[pos..pos + l] + stream[pos + l..];
        assert stream[..pos] + stream[pos..pos + l] == stream[..pos + l];
        o := Receive(stream[pos..pos + l], ps, stream[pos + l..], stream[..pos]);
        pos, i := pos + l, i + 1;
      }
      assert Genuine(State(), stream[..pos]);
      assert o == More ==> stream[..pos] == stream;
      if sent && o == More {
        assert stream[pos..] == [];
        TrackDone(State(), ps, Pending());
      }
    }
  }

  /** The packet that ends the stream has arrived, after all others. */
  ghost predicate Finished(rx: Rx, ps: seq<Packet>) {
    Stream(ps) && ps != [] && ps[|ps| - 1].number == EOF_NPACK && rx == After(ps)
  }

  lemma {:induction false} TrackOutcome(r: Step, ps: seq<Packet>, s: seq<byte>, u: seq<byte>)
    requires Tracked(r, ps, s, u) && !r.Next?
    ensures r.Wait? || (r.End? && Finished(r.rx, ps))
    ensures r.Wait? ==> Tracked(Wait(r.rx), ps, s, u)
  {
  }

  lemma {:induction false} BeginGenuine()
    ensures Begin().used == 0 && Genuine(Begin(), [])
  {
  }

  lemma {:induction false} BeginRecounts()
    ensures Begin().tally.Recounted()
  {
    StartRecounts();
  }

  function Least(a: nat, b: nat): (r: nat)
    ensures r <= a && r <= b && (r == a || r == b)
  {
    if a < b then a else b
  }

  lemma {:induction false} TrackBegin(ps: seq<Packet>, stream: seq<byte>)
    requires Stream(ps) && stream == PrintAll(ps)
    ensures Tracked(Wait(Begin()), ps, [], stream)
  {
    hide PrintAll;
    assert ps[0..] == ps && ps[..0] == [];
    assert [] + stream == stream;
  }

  lemma {:induction false} TrackRead(rx: Rx, ps: seq<Packet>, s: seq<byte>, chunk: seq<byte>, rest: seq<byte>)
    requires Tracked(Wait(rx), ps, s, chunk + rest)
    ensures OnTrack(rx, ps, (s + chunk) + rest)
  {
    hide OnTrack;
    assert s + (chunk + rest) == (s + chunk) + rest;
  }

  /** With nothing left to read, nothing is left to deliver. */
  lemma {:induction false} TrackDone(rx: Rx, ps: seq<Packet>, s: seq<byte>)
    requires Tracked(Wait(rx), ps, s, [])
    ensures rx == After(ps) && !(ps != [] && ps[|ps| - 1].number == EOF_NPACK)
  {
    hide PrintAll, After, Print;
    assert s + [] == s;
    var k := |rx.good|;
    if k < |ps| {
      MoreToPrint(ps, k);
      PrintParts(ps[k]);
      assert false;
    }
    assert ps[..k] == ps;
    AfterGood(ps);
  }

  lemma {:induction false} Slices(b: seq<byte>, r: nat, w: nat, plen: nat, k: nat)
    requires r + plen <= w <= |b| && k <= plen
    ensures b[r..w][..plen][..k] == b[r..r + k]
    ensures b[r..w][..plen][k..] + (b[r..w][plen..] + b[w..]) == b[r + k..]
  {
    assert b[r..w][..plen] == b[r..r + plen];
    assert b[r..w][plen..] == b[r + plen..w];
    assert b[r + plen..w] + b[w..] == b[r + plen..];
    assert b[r..r + plen][..k] == b[r..r + k];
    assert b[r..r + plen][k..] == b[r + k..r + plen];
    assert b[r + k..r + plen] + b[r + plen..] == b[r + k..];
  }

  /** Up to the first ETX, or everything. */
  lemma {:induction false} JunkIs(s: seq<byte>, n: nat)
    requires n <= |s| && (n < |s| ==> n > 0)
    requires forall i :: 0 <= i < n - 1 ==> s[i] != ETX
    requires n == |s| || s[n - 1] == ETX
    ensures Junk(s) == n
  {
    if s != [] && s[0] != ETX {
      assert forall i :: 0 <= i < |s| - 1 ==> s[1..][i] == s[i + 1];
      JunkIs(s[1..], n - 1);
    }
  }

  lemma {:induction false} TakenHeader(rx: Rx, raw: seq<byte>)
    requires rx.tally.Sized() && START_OF_DATA + rx.dsize >= 0 && |raw| == MIN_PACKET_LENGTH + rx.dsize
    ensures TakePacket(rx, raw).headerNext == (rx.npack != EOF_NPACK)
    ensures TakePacket(rx, raw).npack == rx.npack
  {
  }
}
