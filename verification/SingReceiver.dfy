/**
 The receiving side of `sing`: it finds packets in a byte stream that arrives in
 arbitrary pieces, through one fixed buffer.
 */
module SingReceiver {

  import opened Values
  import opened SingPacket
  import opened SingTally
  import Crc

  const RBUFLEN: int := 8192

  /** Where in the stream a packet was found, and its bytes. */
  datatype Segment = Segment(start: nat, raw: seq<byte>)

  /** The receiver between two reads, apart from its buffer. */
  datatype Rx = Rx(
    tally: Tally,
    npack: nat,         // number in the last header
    nlast: nat,         // number of the last packet that is not the end
    msec: int,
    dsize: int,
    headerNext: bool,   // the bytes at hand start with a header not yet read
    good: seq<Packet>,  // packets whose checksum was right
    echo: seq<byte>,    // their bytes, as written back to the port
    used: nat,          // bytes of the stream dealt with
    segs: seq<Segment>) // the parts of the stream that those packets are
  {
    ghost predicate Valid() {
      && tally.Sized()
      && (headerNext || MIN_PACKET_LENGTH + dsize <= RBUFLEN)
    }
  }

  function Begin(): (rx: Rx)
    ensures rx.Valid() && rx.headerNext
  {
    Rx(Start(), 0, 0, 0, 0, true, [], [], 0, [])
  }

  // ------------------------------------------------------------- one scanning step

  /** A readable header: numbers passed over are missing packets. */
  function TakeHeader(rx: Rx, f: Fields): (r: Rx)
    requires rx.tally.Sized()
    ensures r.tally.Sized() && !r.headerNext
  {
    if f.number == EOF_NPACK then
      rx.(npack := f.number, msec := f.msec, dsize := f.dsize, headerNext := false)
    else
      rx.(tally := MissAll(rx.tally, (rx.nlast + 1) % TWO32, f.number), nlast := f.number,
          npack := f.number, msec := f.msec, dsize := f.dsize, headerNext := false)
  }

  /** A packet whose checksum is right. */
  function TakePacket(rx: Rx, raw: seq<byte>): (r: Rx)
    requires rx.tally.Sized() && START_OF_DATA + rx.dsize >= 0 && |raw| == MIN_PACKET_LENGTH + rx.dsize
    ensures r.tally.Sized()
  {
    var data := if rx.dsize <= 0 then [] else raw[START_OF_DATA..START_OF_DATA + rx.dsize];
    rx.(tally := Accept(rx.tally, rx.nlast, |raw|),
        good := rx.good + [Packet(rx.npack, rx.msec, data)],
        echo := rx.echo + raw,
        used := rx.used + |raw|,
        segs := rx.segs + [Segment(rx.used, raw)],
        headerNext := rx.npack != EOF_NPACK)
  }

  /** A bad packet, of which so many bytes are dropped. */
  function NoteBad(rx: Rx, junk: nat): Rx {
    rx.(tally := rx.tally.(nBad := rx.tally.nBad + 1), used := rx.used + junk, headerNext := true)
  }

  /** How many bytes of junk to drop: up to and including the first ETX, else all. */
  function Junk(s: seq<byte>): (n: nat)
    ensures n <= |s| && (s != [] ==> n > 0)
    ensures forall i :: 0 <= i < n - 1 ==> s[i] != ETX
    ensures n < |s| ==> n > 0 && s[n - 1] == ETX
  {
    if s == [] then 0 else if s[0] == ETX then 1 else 1 + Junk(s[1..])
  }

  /** The bytes at hand end in the check of what precedes it. */
  predicate CheckOk(raw: seq<byte>, behind: seq<byte>)
    requires |raw| >= LENGTH_OF_CRC + 1
  {
    var k := |raw| - LENGTH_OF_CRC - 1;
    raw[|raw| - 1] == ETX && ScanHex(raw[k..] + behind) == Some(Check(raw[..k]))
  }

  datatype Step =
    | Wait(rx: Rx)             // more bytes are needed
    | Next(rx: Rx, used: nat)  // go on behind this many bytes
    | End(rx: Rx)              // the packet that ends the stream
    | Undefined(rx: Rx)        // the program's behaviour is undefined from here

  /**
   A header has been read. Here `behind` is what lies in the buffer after the
   received bytes: a conversion does not stop where they end.
   */
  function StepBody(rx: Rx, s: seq<byte>, behind: seq<byte>): (r: Step)
    requires rx.Valid() && !rx.headerNext
    ensures r.rx.Valid()
    ensures r.Next? ==> 0 < r.used <= |s| && r.rx.headerNext
    ensures r.Wait? ==> r.rx == rx && |s| < MIN_PACKET_LENGTH + rx.dsize <= RBUFLEN
  {
    var plen := MIN_PACKET_LENGTH + rx.dsize;
    if |s| < plen then Wait(rx)
    else if START_OF_DATA + rx.dsize < 0 then Undefined(rx)
    else if CheckOk(s[..plen], s[plen..] + behind) then
      var r := TakePacket(rx, s[..plen]);
      if r.headerNext then Next(r, plen) else End(r)
    else Next(NoteBad(rx, Junk(s)), Junk(s))
  }

  /** One turn of the scanning loop. */
  function ScanStep(rx: Rx, s: seq<byte>, behind: seq<byte>): (r: Step)
    requires rx.Valid()
    ensures r.Undefined? || r.rx.Valid()
    ensures r.Next? ==> 0 < r.used <= |s| && r.rx.headerNext
    ensures r.Wait? ==> |s| < RBUFLEN
  {
    if !rx.headerNext then StepBody(rx, s, behind)
    else if |s| < START_OF_DATA then Wait(rx)
    else
      match ScanHeader(s + behind)
      case Some(f) =>
        if f.dsize >= MAX_DATA_LENGTH then Next(NoteBad(rx.(dsize := 0), Junk(s)), Junk(s))
        else if MIN_PACKET_LENGTH + f.dsize > RBUFLEN then Undefined(TakeHeader(rx, f))
        else StepBody(TakeHeader(rx, f), s, behind)
      case None => Next(NoteBad(rx.(dsize := 0), Junk(s)), Junk(s))
  }

  datatype Scan = Scan(step: Step, rest: seq<byte>)

  /** The scanning loop: steps until one of them does not go on. */
  function ScanAll(rx: Rx, s: seq<byte>, behind: seq<byte>): (r: Scan)
    requires rx.Valid()
    ensures !r.step.Next?
    ensures r.step.Undefined? || r.step.rx.Valid()
    ensures r.step.Wait? ==> |r.rest| < RBUFLEN
    decreases |s|
  {
    var r := ScanStep(rx, s, behind);
    if r.Next? then ScanAll(r.rx, s[r.used..], behind) else Scan(r, s)
  }

  // -------------------------------------------- the totals, on any stream at all

  lemma {:induction false} HeaderRecounts(rx: Rx, f: Fields)
    requires rx.tally.Recounted()
    ensures TakeHeader(rx, f).tally.Recounted()
  {
    MissAllRecounts(rx.tally, (rx.nlast + 1) % TWO32, f.number);
  }

  lemma {:induction false} BodyRecounts(rx: Rx, s: seq<byte>, behind: seq<byte>)
    requires rx.Valid() && !rx.headerNext && rx.tally.Recounted()
    ensures StepBody(rx, s, behind).rx.tally.Recounted()
  {
    hide Positive, Sum, Accept, CheckOk;
    var plen := MIN_PACKET_LENGTH + rx.dsize;
    if plen > 0 {
      AcceptRecounts(rx.tally, rx.nlast, plen);
    }
  }

  lemma {:induction false} StepRecounts(rx: Rx, s: seq<byte>, behind: seq<byte>)
    requires rx.Valid() && rx.tally.Recounted()
    ensures ScanStep(rx, s, behind).rx.tally.Recounted()
  {
    hide Positive, Sum, StepBody, ScanHeader, TakeHeader;
    if !rx.headerNext {
      BodyRecounts(rx, s, behind);
    } else if |s| >= START_OF_DATA && ScanHeader(s + behind).Some? {
      var f := ScanHeader(s + behind).value;
      HeaderRecounts(rx, f);
      if MIN_PACKET_LENGTH + f.dsize <= RBUFLEN && f.dsize < MAX_DATA_LENGTH {
        assert TakeHeader(rx, f).dsize == f.dsize by { HeaderSize(rx, f); }
        BodyRecounts(TakeHeader(rx, f), s, behind);
      }
    }
  }

  lemma {:induction false} HeaderSize(rx: Rx, f: Fields)
    requires rx.tally.Sized()
    ensures TakeHeader(rx, f).dsize == f.dsize
  {
  }

  /** Whatever the bytes, scanning leaves the counters equal to a recount of the rings. */
  lemma {:induction false} ScanRecounts(rx: Rx, s: seq<byte>, behind: seq<byte>)
    requires rx.Valid() && rx.tally.Recounted()
    ensures ScanAll(rx, s, behind).step.rx.tally.Recounted()
    decreases |s|
  {
    hide ScanStep;
    StepRecounts(rx, s, behind);
    var r := ScanStep(rx, s, behind);
    if r.Next? {
      ScanRecounts(r.rx, s[r.used..], behind);
    }
  }

  // ------------------------------------------------ only checked packets are good

  /** A check that can be read, followed by ETX, which is the checksum of what precedes it. */
  ghost predicate Checks(raw: seq<byte>) {
    && |raw| >= LENGTH_OF_CRC + 1
    && raw[|raw| - 1] == ETX
    && var k := |raw| - LENGTH_OF_CRC - 1;
       exists behind, crc :: ScanHex(raw[k..] + behind) == Some(crc as nat) && Crc.IsChecksum(raw[..k], crc)
  }

  /** The segment lies in the text, has its bytes, and these check. */
  ghost predicate Found(g: Segment, text: seq<byte>, end: nat) {
    g.start + |g.raw| <= end <= |text| && text[g.start..g.start + |g.raw|] == g.raw && Checks(g.raw)
  }

  ghost function Joined(segs: seq<Segment>): seq<byte> {
    if segs == [] then [] else Joined(segs[..|segs| - 1]) + segs[|segs| - 1].raw
  }

  /**
   The good packets are checked segments of the stream, one behind the other, and
   the bytes written back are theirs.
   */
  ghost predicate Genuine(rx: Rx, text: seq<byte>) {
    && |rx.segs| == |rx.good| && rx.used <= |text|
    && rx.echo == Joined(rx.segs)
    && (forall i :: 0 <= i < |rx.segs| ==> Found(rx.segs[i], text, rx.used))
    && (forall i, j :: 0 <= i < j < |rx.segs| ==> rx.segs[i].start + |rx.segs[i].raw| <= rx.segs[j].start)
  }

  lemma {:induction false} CheckOkChecks(raw: seq<byte>, behind: seq<byte>)
    requires |raw| >= LENGTH_OF_CRC + 1 && CheckOk(raw, behind)
    ensures Checks(raw)
  {
    hide ScanHex, Crc.IsChecksum;
    var k := |raw| - LENGTH_OF_CRC - 1;
    var crc := Crc.Cksum(raw[..k]);
    assert ScanHex(raw[k..] + behind) == Some(crc as nat) && Crc.IsChecksum(raw[..k], crc);
  }

  lemma {:induction false} GenuineUsed(rx: Rx, text: seq<byte>)
    requires Genuine(rx, text)
    ensures rx.used <= |text|
  {
  }

  lemma {:induction false} BadGenuine(rx: Rx, n: nat, text: seq<byte>)
    requires Genuine(rx, text) && rx.used + n <= |text|
    ensures Genuine(NoteBad(rx, n), text) && Genuine(NoteBad(rx.(dsize := 0), n), text)
  {
    hide Checks;
    forall i | 0 <= i < |rx.segs|
      ensures Found(rx.segs[i], text, rx.used + n)
    {
      assert Found(rx.segs[i], text, rx.used);
    }
  }

  lemma {:induction false} TakeGenuine(rx: Rx, raw: seq<byte>, text: seq<byte>)
    requires rx.tally.Sized() && START_OF_DATA + rx.dsize >= 0 && |raw| == MIN_PACKET_LENGTH + rx.dsize
    requires Genuine(rx, text) && rx.used + |raw| <= |text| && text[rx.used..rx.used + |raw|] == raw && Checks(raw)
    ensures Genuine(TakePacket(rx, raw), text)
  {
    hide Checks, Accept;
    var r := TakePacket(rx, raw);
    assert r.segs[..|rx.segs|] == rx.segs;
    assert forall i :: 0 <= i < |rx.segs| ==> r.segs[i] == rx.segs[i];
  }

  lemma {:induction false} BodyGenuine(rx: Rx, s: seq<byte>, behind: seq<byte>, text: seq<byte>)
    requires rx.Valid() && !rx.headerNext && Genuine(rx, text) && text[rx.used..] == s
    ensures var r := StepBody(rx, s, behind); Genuine(r.rx, text) && (r.Next? ==> r.rx.used <= |text| && text[r.rx.used..] == s[r.used..])
    ensures StepBody(rx, s, behind).Wait? ==> StepBody(rx, s, behind).rx.used == rx.used
  {
    hide Genuine, CheckOk, TakePacket, Junk, Checks;
    GenuineUsed(rx, text);
    var plen := MIN_PACKET_LENGTH + rx.dsize;
    if plen <= |s| && START_OF_DATA + rx.dsize >= 0 && CheckOk(s[..plen], s[plen..] + behind) {
      CheckOkChecks(s[..plen], s[plen..] + behind);
      TextTail(text, rx.used, s, plen);
      TakeGenuine(rx, s[..plen], text);
      TakenUsed(rx, s[..plen]);
    } else {
      TextTail(text, rx.used, s, Junk(s));
      BadGenuine(rx, Junk(s), text);
    }
  }

  lemma {:induction false} TextTail(text: seq<byte>, used: nat, s: seq<byte>, n: nat)
    requires used <= |text| && text[used..] == s && n <= |s|
    ensures used + n <= |text| && text[used..used + n] == s[..n] && text[used + n..] == s[n..]
  {
  }

  lemma {:induction false} TakenUsed(rx: Rx, raw: seq<byte>)
    requires rx.tally.Sized() && START_OF_DATA + rx.dsize >= 0 && |raw| == MIN_PACKET_LENGTH + rx.dsize
    ensures TakePacket(rx, raw).used == rx.used + |raw|
  {
    hide Accept;
  }

  lemma {:induction false} HeaderGenuine(rx: Rx, f: Fields, text: seq<byte>)
    requires rx.tally.Sized() && Genuine(rx, text)
    ensures Genuine(TakeHeader(rx, f), text) && TakeHeader(rx, f).used == rx.used && TakeHeader(rx, f).dsize == f.dsize
  {
    hide Checks, MissAll;
  }

  lemma {:induction false} StepGenuine(rx: Rx, s: seq<byte>, behind: seq<byte>, text: seq<byte>)
    requires rx.Valid() && Genuine(rx, text) && text[rx.used..] == s
    ensures var r := ScanStep(rx, s, behind); Genuine(r.rx, text) && (r.Next? ==> r.rx.used <= |text| && text[r.rx.used..] == s[r.used..])
    ensures ScanStep(rx, s, behind).Wait? ==> ScanStep(rx, s, behind).rx.used == rx.used
  {
    hide Found, StepBody, ScanHeader, TakeHeader, Junk;
    BadGenuine(rx, Junk(s), text);
    if !rx.headerNext {
      BodyGenuine(rx, s, behind, text);
    } else if |s| >= START_OF_DATA && ScanHeader(s + behind).Some? {
      var f := ScanHeader(s + behind).value;
      HeaderGenuine(rx, f, text);
      if f.dsize < MAX_DATA_LENGTH && MIN_PACKET_LENGTH + f.dsize <= RBUFLEN {
        BodyGenuine(TakeHeader(rx, f), s, behind, text);
      }
    }
  }

  /** Whatever the bytes, every packet that scanning finds good is a checked segment of the stream. */
  lemma {:induction false} ScanGenuine(rx: Rx, s: seq<byte>, behind: seq<byte>, text: seq<byte>)
    requires rx.Valid() && Genuine(rx, text) && text[rx.used..] == s
    ensures var r := ScanAll(rx, s, behind);
      Genuine(r.step.rx, text) && (r.step.Wait? ==> r.step.rx.used <= |text| && text[r.step.rx.used..] == r.rest)
    decreases |s|
  {
    hide ScanStep, Genuine;
    GenuineUsed(rx, text);
    StepGenuine(rx, s, behind, text);
    var r := ScanStep(rx, s, behind);
    if r.Next? {
      ScanGenuine(r.rx, s[r.used..], behind, text);
    }
  }

  /** More bytes of the stream change nothing. */
  lemma {:induction false} GenuineGrows(rx: Rx, text: seq<byte>, more: seq<byte>)
    requires Genuine(rx, text)
    ensures Genuine(rx, text + more) && (text + more)[rx.used..] == text[rx.used..] + more
  {
    hide Checks;
    forall i | 0 <= i < |rx.segs|
      ensures Found(rx.segs[i], text + more, rx.used)
    {
      var g := rx.segs[i];
      assert Found(g, text, rx.used);
      assert (text + more)[g.start..g.start + |g.raw|] == text[g.start..g.start + |g.raw|];
    }
  }

  /** A packet as printed, but with another check. */
  ghost function Corrupted(p: Packet, check: nat): seq<byte> {
    Header(p) + p.data + Hex(8, check) + [ETX]
  }

  /**
   A packet with a wrong check is not accepted: it is counted as bad, nothing is written
   back, and scanning goes on behind the first ETX.
   */
  lemma {:induction false} WrongCheckIsBad(rx: Rx, p: Packet, check: nat, rest: seq<byte>, behind: seq<byte>)
    requires rx.Valid() && rx.headerNext && p.Fits() && p.Length() <= RBUFLEN
    requires check < TWO32 && check != Check(Header(p) + p.data)
    ensures var s := Corrupted(p, check) + rest;
      var r := ScanStep(rx, s, behind);
      && r.Next? && r.used == Junk(s)
      && r.rx == NoteBad(TakeHeader(rx, FieldsOf(p)), Junk(s))
      && r.rx.good == rx.good && r.rx.echo == rx.echo
      && r.rx.tally.nBad == TakeHeader(rx, FieldsOf(p)).tally.nBad + 1
  {
    hide Header, Hex, Check, ScanHex, ScanHeader, MissAll, Junk;
    var s := Corrupted(p, check) + rest;
    var body := Header(p) + p.data;
    HeaderLength(p);
    var t := s[START_OF_DATA..] + behind;
    assert s + behind == Header(p) + t;
    HeaderIsRead(p, t);
    var plen := p.Length();
    var raw := s[..plen];
    var k := plen - LENGTH_OF_CRC - 1;
    assert raw == Corrupted(p, check);
    assert raw[..k] == body;
    CheckIsRead(check, [ETX] + (s[plen..] + behind));
    assert raw[k..] + (s[plen..] + behind) == Hex(8, check) + ([ETX] + (s[plen..] + behind));
  }

  /** Only numbers passed over are counted as bad by a header, so otherwise the packet itself is the only one. */
  lemma {:induction false} OneBad(rx: Rx, p: Packet)
    requires rx.tally.Sized() && p.number <= rx.nlast + 1 < TWO32
    ensures TakeHeader(rx, FieldsOf(p)).tally.nBad == rx.tally.nBad
  {
    NoneMissed(rx.tally, rx.nlast + 1, p.number);
  }

  // ------------------------------------------------------- an uncorrupted stream

  ghost function PrintAll(ps: seq<Packet>): seq<byte> {
    if ps == [] then [] else Print(ps[0]) + PrintAll(ps[1..])
  }

  ghost function FieldsOf(p: Packet): Fields {
    Fields(p.number, p.msec, |p.data|)
  }

  /** What a sender may send: numbers increase, fields fit, packets fit the buffer. */
  ghost predicate Stream(ps: seq<Packet>) {
    && (forall i :: 0 <= i < |ps| ==> ps[i].Fits() && ps[i].Length() <= RBUFLEN)
    && (forall i, j :: 0 <= i < j < |ps| ==> ps[i].number < ps[j].number)
  }

  ghost function Deliver(rx: Rx, p: Packet): (r: Rx)
    requires rx.tally.Sized() && p.Fits()
    ensures r.tally.Sized()
  {
    HeaderLength(p);
    TakePacket(TakeHeader(rx, FieldsOf(p)), Print(p))
  }

  /** The receiver once these packets have arrived. */
  ghost function After(ps: seq<Packet>): (rx: Rx)
    requires forall i :: 0 <= i < |ps| ==> ps[i].Fits()
    ensures rx.tally.Sized()
  {
    if ps == [] then Begin() else Deliver(After(ps[..|ps| - 1]), ps[|ps| - 1])
  }

  lemma {:induction false} PrintParts(p: Packet)
    requires p.Fits()
    ensures |Print(p)| == p.Length()
    ensures Print(p)[..START_OF_DATA] == Header(p)
    ensures Print(p)[START_OF_DATA..START_OF_DATA + |p.data|] == p.data
  {
    hide Header, Hex, Check;
    HeaderLength(p);
  }

  /** A printed packet passes the check, whatever follows it. */
  lemma {:induction false} PrintedCheckOk(p: Packet, behind: seq<byte>)
    requires p.Fits()
    ensures |Print(p)| >= LENGTH_OF_CRC + 1 && CheckOk(Print(p), behind)
  {
    hide Header, Hex, Check, ScanHex;
    HeaderLength(p);
    var body := Header(p) + p.data;
    var raw := Print(p);
    var k := |raw| - LENGTH_OF_CRC - 1;
    assert raw[..k] == body;
    CheckIsRead(Check(body), [ETX] + behind);
    assert raw[k..] + behind == Hex(8, Check(body)) + ([ETX] + behind);
  }

  /** The receiver has read the header of p and nothing more. */
  ghost predicate HasHeader(rx: Rx, p: Packet) {
    rx.Valid() && !rx.headerNext && rx.npack == p.number && rx.msec == p.msec && rx.dsize == |p.data|
  }

  lemma {:induction false} BodyOfPacket(rx: Rx, p: Packet, s: seq<byte>, u: seq<byte>, rest: seq<byte>, behind: seq<byte>)
    requires p.Fits() && HasHeader(rx, p) && s + u == Print(p) + rest
    ensures |Print(p)| == p.Length()
    ensures |s| < p.Length() ==> StepBody(rx, s, behind) == Wait(rx)
    ensures p.Length() <= |s| ==>
              var r := TakePacket(rx, Print(p));
              StepBody(rx, s, behind) == if r.headerNext then Next(r, p.Length()) else End(r)
  {
    hide Print, CheckOk, TakePacket;
    PrintParts(p);
    if p.Length() <= |s| {
      assert s[..p.Length()] == (s + u)[..p.Length()] == Print(p);
      PrintedCheckOk(p, s[p.Length()..] + behind);
    }
  }

  lemma {:induction false} HeaderIsHad(rx: Rx, p: Packet)
    requires rx.tally.Sized() && p.Length() <= RBUFLEN
    ensures HasHeader(TakeHeader(rx, FieldsOf(p)), p)
  {
  }

  lemma {:induction false} HeaderOfPacket(rx: Rx, p: Packet, s: seq<byte>, u: seq<byte>, rest: seq<byte>, behind: seq<byte>)
    requires p.Fits() && p.Length() <= RBUFLEN && rx.Valid() && rx.headerNext
    requires s + u == Print(p) + rest && |s| >= START_OF_DATA
    ensures HasHeader(TakeHeader(rx, FieldsOf(p)), p)
    ensures ScanStep(rx, s, behind) == StepBody(TakeHeader(rx, FieldsOf(p)), s, behind)
  {
    hide Print, StepBody, ScanHeader, Header;
    PrintParts(p);
    assert s[..START_OF_DATA] == (s + u)[..START_OF_DATA] == Header(p);
    var t := s[START_OF_DATA..] + behind;
    assert s + behind == Header(p) + t;
    HeaderIsRead(p, t);
  }

  /** Where the receiver is in the stream: k packets delivered, the text of the others to come. */
  ghost predicate OnTrack(rx: Rx, ps: seq<Packet>, text: seq<byte>) {
    var k := |rx.good|;
    && Stream(ps)
    && k <= |ps|
    && text == PrintAll(ps[k..])
    && After(ps[..k]).headerNext
    && (rx == After(ps[..k]) || (k < |ps| && rx == TakeHeader(After(ps[..k]), FieldsOf(ps[k]))))
  }

  lemma {:induction false} AfterOne(ps: seq<Packet>, k: nat)
    requires Stream(ps) && k < |ps|
    ensures After(ps[..k + 1]) == Deliver(After(ps[..k]), ps[k])
  {
    assert ps[..k + 1][..k] == ps[..k];
  }

  lemma {:induction false} DeliverGood(rx: Rx, p: Packet)
    requires rx.tally.Sized() && p.Fits()
    ensures var r := Deliver(rx, p);
            && r.good == rx.good + [p]
            && r.echo == rx.echo + Print(p)
            && r.headerNext == (p.number != EOF_NPACK)
  {
    hide Print, MissAll, Accept;
    PrintParts(p);
  }

  lemma {:induction false} PrintAllSnoc(ps: seq<Packet>, p: Packet)
    ensures PrintAll(ps + [p]) == PrintAll(ps) + Print(p)
  {
    hide Print;
    if ps == [] {
      assert ([p])[1..] == [];
      assert ps + [p] == [p];
    } else {
      assert (ps + [p])[1..] == ps[1..] + [p];
      PrintAllSnoc(ps[1..], p);
    }
  }

  /** The packets delivered are the packets sent, and so are the bytes written back. */
  lemma {:induction false} AfterGood(ps: seq<Packet>)
    requires forall i :: 0 <= i < |ps| ==> ps[i].Fits()
    ensures After(ps).good == ps
    ensures After(ps).echo == PrintAll(ps)
    ensures ps != [] ==> After(ps).headerNext == (ps[|ps| - 1].number != EOF_NPACK)
  {
    hide Deliver, PrintAll, Print, Start;
    if ps == [] {
      NothingPrinted(ps);
    } else {
      var n := |ps| - 1;
      AfterGood(ps[..n]);
      DeliverGood(After(ps[..n]), ps[n]);
      PrintAllSnoc(ps[..n], ps[n]);
      assert ps == ps[..n] + [ps[n]];
    }
  }

  /** A step keeps the receiver on track: it waits only for lack of bytes, and ends only on the last packet. */
  ghost predicate Tracked(r: Step, ps: seq<Packet>, s: seq<byte>, u: seq<byte>) {
    match r
    case Wait(x) => OnTrack(x, ps, s + u) && (|x.good| < |ps| ==> |s| < ps[|x.good|].Length())
    case Next(x, k) => k <= |s| && OnTrack(x, ps, s[k..] + u)
    case End(x) => Stream(ps) && ps != [] && ps[|ps| - 1].number == EOF_NPACK && x == After(ps)
    case Undefined(x) => false
  }

  /** The packets yet to come, with their text. */
  ghost predicate ToCome(ps: seq<Packet>, k: nat, s: seq<byte>, u: seq<byte>) {
    && Stream(ps)
    && k < |ps|
    && s + u == Print(ps[k]) + PrintAll(ps[k + 1..])
    && After(ps[..k]).headerNext
    && After(ps[..k]).good == ps[..k]
  }

  lemma {:induction false} TrackBody(ps: seq<Packet>, k: nat, s: seq<byte>, u: seq<byte>, behind: seq<byte>)
    requires ToCome(ps, k, s, u)
    requires HasHeader(TakeHeader(After(ps[..k]), FieldsOf(ps[k])), ps[k])
    ensures Tracked(StepBody(TakeHeader(After(ps[..k]), FieldsOf(ps[k])), s, behind), ps, s, u)
  {
    hide Print, PrintAll, StepBody, After;
    var rx := TakeHeader(After(ps[..k]), FieldsOf(ps[k]));
    var p := ps[k];
    BodyOfPacket(rx, p, s, u, PrintAll(ps[k + 1..]), behind);
    if |s| < p.Length() {
      MoreToPrint(ps, k);
    } else {
      AfterOne(ps, k);
      AfterGood(ps[..k + 1]);
      if p.number == EOF_NPACK {
        EndIsLast(ps, k);
        assert ps[..k + 1] == ps;
      } else {
        assert (s + u)[p.Length()..] == s[p.Length()..] + u;
        assert (Print(p) + PrintAll(ps[k + 1..]))[p.Length()..] == PrintAll(ps[k + 1..]);
      }
    }
  }

  lemma {:induction false} EndIsLast(ps: seq<Packet>, k: nat)
    requires Stream(ps) && k < |ps| && ps[k].number == EOF_NPACK
    ensures k == |ps| - 1
  {
    assert k + 1 < |ps| ==> ps[k].number < ps[k + 1].number;
  }

  lemma {:induction false} MoreToPrint(ps: seq<Packet>, k: nat)
    requires k < |ps|
    ensures PrintAll(ps[k..]) == Print(ps[k]) + PrintAll(ps[k + 1..])
  {
    hide Print;
    assert ps[k..][1..] == ps[k + 1..];
  }

  lemma {:induction false} NothingPrinted(ps: seq<Packet>)
    ensures PrintAll(ps[|ps|..]) == []
  {
  }

  lemma {:induction false} TrackStep(rx: Rx, ps: seq<Packet>, s: seq<byte>, u: seq<byte>, behind: seq<byte>)
    requires rx.Valid() && OnTrack(rx, ps, s + u)
    ensures Tracked(ScanStep(rx, s, behind), ps, s, u)
  {
    hide Print, PrintAll, StepBody, After, TakeHeader, Tracked;
    var k := |rx.good|;
    AfterGood(ps[..k]);
    if k == |ps| {
      NothingPrinted(ps);
      NoBytes(s, u);
      TrackIdle(rx, ps, s, u);
    } else {
      MoreToPrint(ps, k);
      var x := After(ps[..k]);
      HeaderIsHad(x, ps[k]);
      if rx != x {
        TrackBody(ps, k, s, u, behind);
      } else if |s| < START_OF_DATA {
        TrackIdle(rx, ps, s, u);
      } else {
        HeaderOfPacket(rx, ps[k], s, u, PrintAll(ps[k + 1..]), behind);
        TrackBody(ps, k, s, u, behind);
      }
    }
  }

  lemma {:induction false} NoBytes(s: seq<byte>, u: seq<byte>)
    requires s + u == []
    ensures s == []
  {
    assert |s| + |u| == |s + u|;
  }

  lemma {:induction false} TrackIdle(rx: Rx, ps: seq<Packet>, s: seq<byte>, u: seq<byte>)
    requires OnTrack(rx, ps, s + u) && |s| < START_OF_DATA
    ensures Tracked(Wait(rx), ps, s, u)
  {
  }

  /** Scanning what has come of an uncorrupted stream. */
  lemma {:induction false} TrackScan(rx: Rx, ps: seq<Packet>, s: seq<byte>, u: seq<byte>, behind: seq<byte>)
    requires rx.Valid() && OnTrack(rx, ps, s + u)
    ensures var r := ScanAll(rx, s, behind); Tracked(r.step, ps, r.rest, u)
    decreases |s|
  {
    hide ScanStep, OnTrack;
    TrackStep(rx, ps, s, u, behind);
    var r := ScanStep(rx, s, behind);
    if r.Next? {
      TrackScan(r.rx, ps, s[r.used..], u, behind);
    }
  }

  // --------------------------------------- what the totals say of such a stream

  ghost function LastNumber(ps: seq<Packet>): nat {
    if ps == [] then 0 else ps[|ps| - 1].number
  }

  /** The packets of a stream before the one that ends it. */
  ghost predicate Open(ps: seq<Packet>) {
    Stream(ps) && forall i :: 0 <= i < |ps| ==> ps[i].number < EOF_NPACK
  }

  /**
   The totals describe the stream: the counters match the rings, the rings hold the
   sizes of the last packets by number, and the numbers from 1 on that did not
   arrive are counted as bad.
   */
  ghost predicate Describes(rx: Rx, ps: seq<Packet>) {
    && rx.nlast == LastNumber(ps)
    && rx.tally.Recounted()
    && BothHold(rx.tally, rx.nlast, ps)
    && rx.tally.nBad == rx.nlast - |ps| + (if ps != [] && ps[0].number == 0 then 1 else 0)
  }

  lemma {:induction false} StartHolds(m: int)
    ensures BothHold(Start(), m, [])
  {
  }

  lemma {:induction false} BelowLast(ps: seq<Packet>)
    requires Stream(ps)
    ensures Below(ps, LastNumber(ps) + 1)
  {
  }

  lemma {:induction false} DeliverIs(rx: Rx, p: Packet)
    requires rx.tally.Sized() && p.Fits() && p.number < EOF_NPACK && rx.nlast < EOF_NPACK
    ensures Deliver(rx, p).nlast == p.number
    ensures Deliver(rx, p).tally == Accept(MissAll(rx.tally, rx.nlast + 1, p.number), p.number, p.Length())
  {
    hide Print, MissAll, Accept;
    PrintParts(p);
  }

  /** Numbers passed over are missed, and the window of the rings follows. */
  lemma {:induction false} NumbersPassedOver(t: Tally, m: nat, ps: seq<Packet>, n: nat)
    requires BothHold(t, m, ps) && Below(ps, n) && Below(ps, m + 1)
    requires m < n || (n == m == 0 && ps == [] && t == Start())
    ensures BothHold(MissAll(t, m + 1, n), n - 1, ps)
    ensures MissAll(t, m + 1, n).nBad == t.nBad + if m < n then n - m - 1 else 0
  {
    hide BothHold, Start;
    if m < n {
      MissAllHolds(t, m + 1, n, ps);
    } else {
      NoneMissed(t, m + 1, n);
      StartHolds(-1);
    }
  }

  lemma {:induction false} DeliverDescribes(rx: Rx, ps: seq<Packet>, p: Packet)
    requires Describes(rx, ps) && Stream(ps) && p.Fits() && p.number < EOF_NPACK
    requires ps == [] ==> rx.tally == Start()
    requires ps != [] ==> LastNumber(ps) < p.number
    ensures Describes(Deliver(rx, p), ps + [p])
  {
    hide Deliver, BothHold, Positive, Sum, MissAll, Accept, Start;
    var n, m := p.number, rx.nlast;
    BelowLast(ps);
    NumbersPassedOver(rx.tally, m, ps, n);
    MissAllRecounts(rx.tally, m + 1, n);
    var t := MissAll(rx.tally, m + 1, n);
    AcceptRecounts(t, n, p.Length());
    AcceptHolds(t, p, ps);
    DeliverIs(rx, p);
    assert ps != [] ==> (ps + [p])[0] == ps[0];
  }

  lemma {:induction false} NoneMissed(t: Tally, low: nat, high: nat)
    requires t.Sized() && high <= low
    ensures MissAll(t, low, high) == t
  {
  }

  lemma {:induction false} AfterDescribes(ps: seq<Packet>)
    requires Open(ps)
    ensures Describes(After(ps), ps)
  {
    hide Deliver, Start, Describes;
    if ps == [] {
      BeginDescribes();
    } else {
      var n := |ps| - 1;
      assert ps == ps[..n] + [ps[n]];
      AfterDescribes(ps[..n]);
      DeliverDescribes(After(ps[..n]), ps[..n], ps[n]);
    }
  }

  lemma {:induction false} BeginDescribes()
    ensures Describes(Begin(), [])
  {
    StartRecounts();
    StartHolds(0);
  }

  /** Packets numbered 0, 1, 2, ... without a gap. */
  ghost predicate Numbered(ps: seq<Packet>) {
    forall i :: 0 <= i < |ps| ==> ps[i].number == i
  }

  lemma {:induction false} NumberedSizes(ps: seq<Packet>, x: int)
    requires Numbered(ps)
    ensures SizeOf(ps, x) == if 0 <= x < |ps| then ps[x].Length() else 0
  {
    if ps != [] && x != |ps| - 1 {
      NumberedSizes(ps[..|ps| - 1], x);
    }
  }

  /** The window of the last n numbers, when every one of them arrived. */
  lemma {:induction false} FullRing(ring: seq<nat>, ps: seq<Packet>)
    requires ring != [] && ps != [] && Numbered(ps) && Holds(ring, |ps| - 1, ps)
    ensures Positive(ring) == if |ps| < |ring| then |ps| else |ring|
  {
    hide Positive, SizeOf;
    var n := |ring|;
    forall i | 0 <= i < n
      ensures ring[i] > 0 <==> i < |ps|
    {
      var x := InWindow(i, |ps| - 1, n);
      NumberedSizes(ps, x);
      assert ring[x % n] == SizeOf(ps, x);
    }
    CountFirst(ring, if |ps| < n then |ps| else n);
  }

  /** The number among the last n, up to m, that falls into slot i. */
  ghost function InWindow(i: nat, m: nat, n: nat): (x: int)
    requires i < n
    ensures m - n < x <= m && x % n == i
    ensures m < n ==> x == if i <= m then i else i - n
    ensures m >= n - 1 ==> x >= 0
  {
    var q, r := m / n, m % n;
    DivMod(m, n);
    Distribute(n, q, 1);
    if i <= r then
      DivModUnique(n * q + i, n, q, i);
      FirstRound(m, n);
      n * q + i
    else
      DivModUnique(n * (q - 1) + i, n, q - 1, i);
      FirstRound(m, n);
      n * (q - 1) + i
  }

  lemma {:induction false} FirstRound(m: nat, n: nat)
    requires n > 0
    ensures m < n ==> m / n == 0 && m % n == m && n * (m / n) == 0 && n * (m / n - 1) == -(n as int)
    ensures m >= n ==> n * (m / n) >= n
  {
    var q := m / n;
    DivMod(m, n);
    Multiple(n, q);
    Distribute(n, q, 1);
  }

  /**
   A clean stream: nothing is bad, and the report reads "all of the last 10, all of
   the last 100", before and after the packet that ends the stream.
   */
  lemma {:induction false} CleanStream(ps: seq<Packet>, end: Packet)
    requires Open(ps) && ps != [] && Numbered(ps)
    requires end.Fits() && end.number == EOF_NPACK
    ensures After(ps).tally.nBad == 0 && Deliver(After(ps), end).tally.nBad == 0
    ensures After(ps).tally.ngood10 == Deliver(After(ps), end).tally.ngood10 == if |ps| < 10 then |ps| else 10
    ensures After(ps).tally.ngood100 == Deliver(After(ps), end).tally.ngood100 == if |ps| < 100 then |ps| else 100
  {
    hide After, Deliver, Describes, Accept;
    AfterDescribes(ps);
    CleanTotals(After(ps), ps);
    DeliverEnd(After(ps), end);
    EndKeepsCounts(After(ps), ps, end.Length());
  }

  lemma {:induction false} CleanTotals(rx: Rx, ps: seq<Packet>)
    requires Describes(rx, ps) && ps != [] && Numbered(ps)
    ensures rx.tally.nBad == 0
    ensures rx.tally.ngood10 == if |ps| < 10 then |ps| else 10
    ensures rx.tally.ngood100 == if |ps| < 100 then |ps| else 100
  {
    hide Positive, Sum, Holds;
    FullRing(rx.tally.last10, ps);
    FullRing(rx.tally.last100, ps);
  }

  /** The end packet goes into the slot of the last packet, which is taken. */
  lemma {:induction false} EndKeepsCounts(rx: Rx, ps: seq<Packet>, plen: nat)
    requires Describes(rx, ps) && ps != [] && Numbered(ps)
    ensures Accept(rx.tally, rx.nlast, plen).ngood10 == rx.tally.ngood10
    ensures Accept(rx.tally, rx.nlast, plen).ngood100 == rx.tally.ngood100
  {
    hide Positive, Sum, SizeOf;
    var n := |ps| - 1;
    NumberedSizes(ps, n);
    assert rx.tally.last10[n % 10] == SizeOf(ps, n) && rx.tally.last100[n % 100] == SizeOf(ps, n);
  }

  lemma {:induction false} DeliverEnd(rx: Rx, end: Packet)
    requires rx.tally.Sized() && end.Fits() && end.number == EOF_NPACK
    ensures Deliver(rx, end).tally == Accept(rx.tally, rx.nlast, end.Length())
    ensures Deliver(rx, end).nlast == rx.nlast
  {
    hide Print, Accept;
    PrintParts(end);
  }
}
