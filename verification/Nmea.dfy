/**
 Framing of NMEA messages from an arbitrarily chunked byte stream, as `tee_i2c`
 does it in a fixed buffer.
 */
module Nmea {
  import opened Values

  // ---------------------------------------------------- the framing, byte by byte

  /** Either outside a message, or inside one with its text so far. */
  type Partial = Option<string>

  /** Messages completed, and the message in progress. */
  datatype Frames = Frames(messages: seq<string>, partial: Partial)

  /** One byte: a '$' starts a message, a newline ends it. */
  ghost function FrameByte(f: Frames, c: char): Frames {
    match f.partial
    case None => if c == '$' then f.(partial := Some("$")) else f
    case Some(m) => if c == '\n' then Frames(f.messages + [m + [c]], None) else f.(partial := Some(m + [c]))
  }

  /** The frames of a whole stream. */
  ghost function FrameAll(f: Frames, s: string): Frames {
    if s == "" then f else FrameByte(FrameAll(f, s[..|s| - 1]), s[|s| - 1])
  }

  lemma {:induction false} FrameConcat(f: Frames, a: string, b: string)
    ensures FrameAll(f, a + b) == FrameAll(FrameAll(f, a), b)
    decreases |b|
  {
    if b == "" {
      assert a + b == a;
    } else {
      assert (a + b)[..|a + b| - 1] == a + b[..|b| - 1];
      FrameConcat(f, a, b[..|b| - 1]);
    }
  }

  /** Earlier messages stay in front. */
  lemma {:induction false} FrameBehind(ms: seq<string>, p: Partial, s: string)
    ensures FrameAll(Frames(ms, p), s) ==
            Frames(ms + FrameAll(Frames([], p), s).messages, FrameAll(Frames([], p), s).partial)
  {
    if s == "" {
      assert ms + [] == ms;
    } else {
      FrameBehind(ms, p, s[..|s| - 1]);
      var f := FrameAll(Frames([], p), s[..|s| - 1]);
      if f.partial.Some? && s[|s| - 1] == '\n' {
        var m := f.partial.value + ['\n'];
        assert ms + (f.messages + [m]) == (ms + f.messages) + [m];
      }
    }
  }

  lemma {:induction false} FrameOutside(s: string)
    requires '$' !in s
    ensures FrameAll(Frames([], None), s) == Frames([], None)
  {
    if s != "" { FrameOutside(s[..|s| - 1]); }
  }

  lemma {:induction false} FrameInside(m: string, s: string)
    requires '\n' !in s
    ensures FrameAll(Frames([], Some(m)), s) == Frames([], Some(m + s))
  {
    if s != "" {
      var l := s[..|s| - 1];
      FrameInside(m, l);
      assert m + s == (m + l) + [s[|s| - 1]];
    } else {
      assert m + s == m;
    }
  }

  // ------------------------------------------------------- the framing, by searching

  /** `strchr` on a NUL-terminated string. */
  function StrChr(s: string, c: char): (r: Option<nat>)
    ensures r.Some? ==> r.value < |s| && s[r.value] == c && c !in s[..r.value]
    ensures r.None? && '\0' !in s ==> c !in s
    decreases |s|
  {
    if s == "" then None
    else if s[0] == c then Some(0)
    else if s[0] == '\0' then None
    else
      var r := StrChr(s[1..], c);
      assert s == [s[0]] + s[1..];
      if r.None? then None else
        assert s[..r.value + 1] == [s[0]] + s[1..][..r.value];
        Some(r.value + 1)
  }

  /** Extract every complete message of the buffered text; keep the rest from where the search last started. */
  ghost function Scan(s: string): (r: (seq<string>, string))
    decreases |s|
  {
    if s == "" then ([], "")
    else
      var p1 := StrChr(s, '$');
      if p1.None? then ([], "")
      else
        var p2 := StrChr(s[p1.value..], '\n');
        if p2.None? then ([], s)
        else
          var end := p1.value + p2.value + 1;
          var r := Scan(s[end..]);
          ([s[p1.value..end]] + r.0, r.1)
  }

  /** The message in progress at the end of some kept text. */
  ghost function PartialOf(rest: string): Partial {
    var p := StrChr(rest, '$');
    if p.None? then None else Some(rest[p.value..])
  }

  lemma {:induction false} FrameSnoc(f: Frames, s: string, c: char)
    ensures FrameAll(f, s + [c]) == FrameByte(FrameAll(f, s), c)
  {
    assert (s + [c])[..|s|] == s;
  }

  /** Text outside a message, and then the beginning of one. */
  lemma {:induction false} StartedMessage(a: string, b: string)
    requires '$' !in a && '\n' !in b
    ensures FrameAll(Frames([], None), (a + ['$']) + b) == Frames([], Some(['$'] + b))
  {
    FrameOutside(a);
    FrameSnoc(Frames([], None), a, '$');
    FrameConcat(Frames([], None), a + ['$'], b);
    FrameInside("$", b);
  }

  lemma {:induction false} NotInTail(s: string, k: nat, c: char)
    requires k <= |s| && c !in s
    ensures c !in s[k..] && c !in s[..k]
  {
  }

  /** Text without a complete message. */
  lemma {:induction false} KeptText(s: string)
    requires PartialOf(s).Some? ==> '\n' !in PartialOf(s).value
    requires '\0' !in s
    ensures FrameAll(Frames([], None), s) == Frames([], PartialOf(s))
  {
    var p := StrChr(s, '$');
    hide FrameAll, StrChr;
    if p.None? {
      FrameOutside(s);
    } else {
      var a, m := s[..p.value], s[p.value..];
      assert m == ['$'] + m[1..] && s == (a + ['$']) + m[1..];
      NotInTail(m, 1, '\n');
      StartedMessage(a, m[1..]);
    }
  }

  /** One complete message, with whatever precedes it. */
  lemma {:induction false} OneMessage(s: string, p1: nat, p2: nat)
    requires '\0' !in s && StrChr(s, '$') == Some(p1) && StrChr(s[p1..], '\n') == Some(p2)
    ensures FrameAll(Frames([], None), s[..p1 + p2 + 1]) == Frames([s[p1..p1 + p2 + 1]], None)
  {
    hide FrameAll, StrChr;
    var a, body := s[..p1], s[p1..][..p2];
    assert s[p1..][0] == '$' && s[p1..][p2] == '\n';
    assert body == ['$'] + body[1..];
    NotInTail(body, 1, '\n');
    StartedMessage(a, body[1..]);
    var t := (a + ['$']) + body[1..];
    assert s[..p1 + p2 + 1] == t + ['\n'];
    FrameSnoc(Frames([], None), t, '\n');
    assert ['$'] + body[1..] + ['\n'] == s[p1..p1 + p2 + 1];
  }

  /** Searching finds the same messages as going byte by byte, and keeps the message in progress. */
  lemma {:induction false} ScanIsFraming(s: string)
    requires '\0' !in s
    ensures FrameAll(Frames([], None), s) == Frames(Scan(s).0, PartialOf(Scan(s).1))
    ensures '\0' !in Scan(s).1
    ensures PartialOf(Scan(s).1).Some? ==> '\n' !in PartialOf(Scan(s).1).value
    decreases |s|
  {
    var p1 := StrChr(s, '$');
    if p1.None? {
      FrameOutside(s);
    } else {
      var p2 := StrChr(s[p1.value..], '\n');
      if p2.None? {
        KeptText(s);
      } else {
        var end := p1.value + p2.value + 1;
        var rest := s[end..];
        assert s == s[..end] + rest;
        OneMessage(s, p1.value, p2.value);
        ScanIsFraming(rest);
        FrameConcat(Frames([], None), s[..end], rest);
        FrameBehind([s[p1.value..end]], None, rest);
      }
    }
  }

  /** More text behind what was kept: framing the whole is framing the new text from the message in progress. */
  lemma {:induction false} ScanContinues(f: Frames, rest: string, more: string)
    requires '\0' !in rest && '\0' !in more
    requires f.partial == PartialOf(rest) && (PartialOf(rest).Some? ==> '\n' !in PartialOf(rest).value)
    ensures var r := Scan(rest + more); FrameAll(f, more) == Frames(f.messages + r.0, PartialOf(r.1))
  {
    KeptText(rest);
    FrameConcat(Frames([], None), rest, more);
    ScanIsFraming(rest + more);
    FrameBehind(f.messages, f.partial, more);
  }

  /** The three outcomes of a search. */
  lemma {:induction false} ScanCases(s: string)
    ensures var p1 := StrChr(s, '$');
      if p1.None? then Scan(s) == ([], "")
      else
        var p2 := StrChr(s[p1.value..], '\n');
        if p2.None? then Scan(s) == ([], s)
        else
          var end := p1.value + p2.value + 1;
          Scan(s) == ([s[p1.value..end]] + Scan(s[end..]).0, Scan(s[end..]).1)
  {
    hide StrChr;
  }

  lemma {:induction false} ScanKeepsSuffix(s: string)
    ensures |Scan(s).1| <= |s|
    ensures Scan(s).1 == "" || StrChr(Scan(s).1, '$').Some?
    decreases |s|
  {
    hide StrChr;
    var p1 := StrChr(s, '$');
    if s != "" && p1.Some? {
      var p2 := StrChr(s[p1.value..], '\n');
      if p2.Some? { ScanKeepsSuffix(s[p1.value + p2.value + 1..]); }
    }
  }

  // --------------------------------------------------------------------- the buffer

  const SIZE := 4096

  /** Kept text: nothing, or a message in progress with less than a quarter buffer of other text before it. */
  ghost predicate Tidy(rest: string) {
    && (rest == "" || (StrChr(rest, '$').Some? && StrChr(rest, '$').value < SIZE / 4))
    && (PartialOf(rest).Some? ==> '\n' !in PartialOf(rest).value)
    && '\0' !in rest
  }

  lemma {:induction false} StrChrPrefix(a: string, b: string, c: char)
    requires StrChr(a, c).Some?
    ensures StrChr(a + b, c) == StrChr(a, c)
  {
    if a[0] != c {
      assert (a + b)[1..] == a[1..] + b;
      StrChrPrefix(a[1..], b, c);
    }
  }

  /** Whatever arrives, the text kept stays tidy. */
  lemma {:induction false} ScanStaysTidy(rest: string, more: string)
    requires Tidy(rest) && |more| <= SIZE / 4 && '\0' !in more
    ensures Tidy(Scan(rest + more).1)
  {
    ScanIsFraming(rest + more);
    ScanKeepsLittle(rest, more);
  }

  /** The text kept before a message in progress is all from the latest arrival, or was there before. */
  lemma {:induction false} ScanKeepsLittle(rest: string, more: string)
    requires Tidy(rest) && |more| <= SIZE / 4
    ensures var r := Scan(rest + more).1; r == "" || (StrChr(r, '$').Some? && StrChr(r, '$').value < SIZE / 4)
  {
    hide *;
    var s := rest + more;
    FirstDollar(rest, more);
    ScanCases(s);
    var p1 := StrChr(s, '$');
    if p1.Some? {
      var p2 := StrChr(s[p1.value..], '\n');
      if p2.Some? {
        AfterNewline(rest, more, p1.value, p2.value);
        ScanKeepsSuffix(s[p1.value + p2.value + 1..]);
      }
    }
  }

  lemma {:induction false} FirstDollar(rest: string, more: string)
    requires Tidy(rest) && |more| <= SIZE / 4
    ensures StrChr(rest + more, '$').Some? ==> StrChr(rest + more, '$').value < SIZE / 4
    ensures rest != "" ==> StrChr(rest + more, '$') == StrChr(rest, '$')
  {
    hide StrChr;
    if rest != "" { StrChrPrefix(rest, more, '$'); } else { assert rest + more == more; }
  }

  lemma {:induction false} AfterNewline(rest: string, more: string, p1: nat, p2: nat)
    requires Tidy(rest) && |more| <= SIZE / 4
    requires StrChr(rest + more, '$') == Some(p1) && StrChr((rest + more)[p1..], '\n') == Some(p2)
    ensures p1 + p2 + 1 <= |rest + more| < p1 + p2 + 1 + SIZE / 4
  {
    hide StrChr;
    FirstDollar(rest, more);
    assert (rest + more)[p1..][p2] == (rest + more)[p1 + p2];
    NewlineIsNew(rest, more, p1, p2);
  }

  /** A newline after the kept text is found in the new text. */
  lemma {:induction false} NewlineIsNew(rest: string, more: string, p1: nat, p2: nat)
    requires rest != "" ==> p1 < |rest| && '\n' !in rest[p1..]
    requires p1 + p2 < |rest + more| && (rest + more)[p1 + p2] == '\n'
    ensures p1 + p2 >= |rest|
  {
    assert forall i :: p1 <= i < |rest| ==> rest[i] == rest[p1..][i - p1];
  }

  /** No message in the stream, finished or not, has more than n bytes before its newline. */
  ghost predicate MessagesUpTo(stream: string, n: nat) {
    forall k :: 0 <= k <= |stream| ==>
      var p := FrameAll(Frames([], None), stream[..k]).partial; p.Some? ==> |p.value| <= n
  }

  /** No message is longer than half the buffer. */
  ghost predicate ShortMessages(stream: string) {
    MessagesUpTo(stream, SIZE / 2)
  }

  lemma {:induction false} MessagesPrefix(a: string, b: string, n: nat)
    requires MessagesUpTo(a + b, n)
    ensures MessagesUpTo(a, n)
  {
    forall k | 0 <= k <= |a|
      ensures var p := FrameAll(Frames([], None), a[..k]).partial; p.Some? ==> |p.value| <= n
    {
      assert (a + b)[..k] == a[..k];
    }
  }

  /** The portion does not fit behind the pending text. */
  predicate Overflows(pending: string, len2: nat) { |pending| + len2 + 1 > SIZE }

  /** Pending text that leaves no room for a portion has a message of more than half the buffer in it. */
  lemma {:induction false} LongPending(stream: string, messages: seq<string>, pending: string, len2: nat)
    requires FrameAll(Frames([], None), stream) == Frames(messages, PartialOf(pending)) && Tidy(pending)
    requires len2 <= SIZE / 4 && Overflows(pending, len2)
    ensures !ShortMessages(stream)
  {
    hide FrameAll, StrChr;
    assert stream[..|stream|] == stream;
  }

  /** The position of the last '$', if there is one. */
  function LastDollarOf(s: string): (r: Option<nat>)
    ensures r.Some? ==> r.value < |s| && s[r.value] == '$' && forall i :: r.value < i < |s| ==> s[i] != '$'
    ensures r.None? ==> '$' !in s
  {
    if s == "" then None
    else if s[|s| - 1] == '$' then Some(|s| - 1)
    else LastDollarOf(s[..|s| - 1])
  }

  /** What is kept of the pending text to make room for a portion: all of it, the text from the last '$' on, or nothing. */
  function Room(pending: string, len2: nat): string {
    if !Overflows(pending, len2) then pending
    else
      var d := LastDollarOf(pending);
      if d.None? || d.value < len2 then "" else pending[d.value..]
  }

  /**
   On overflow a message that starts late enough survives: the text from the last '$' on
   goes on as the message in progress.
   */
  lemma {:induction false} LateMessageSurvives(pending: string, portion: string)
    requires '\0' !in pending && '\0' !in portion && Overflows(pending, |portion|)
    requires var d := LastDollarOf(pending); d.Some? && d.value >= |portion| && '\n' !in pending[d.value..]
    ensures var m := pending[LastDollarOf(pending).value..];
      var s := Room(pending, |portion|) + portion;
      && s == m + portion && FrameAll(Frames([], None), s) == FrameAll(Frames([], Some(m)), portion)
      && Scan(s).0 == FrameAll(Frames([], Some(m)), portion).messages
  {
    hide FrameAll, Scan, StrChr, LastDollarOf;
    var d := LastDollarOf(pending).value;
    var m := pending[d..];
    assert m == ("" + ['$']) + m[1..];
    StartedMessage("", m[1..]);
    assert ['$'] + m[1..] == m;
    FrameConcat(Frames([], None), m, portion);
    ScanIsFraming(m + portion);
  }

  /** Once its newline arrives, a message in progress is the next one found. */
  lemma {:induction false} NewlineCompletes(m: string, portion: string, n: nat)
    requires n < |portion| && portion[n] == '\n' && '\n' !in portion[..n]
    ensures var f := FrameAll(Frames([], Some(m)), portion); f.messages != [] && f.messages[0] == m + portion[..n + 1]
  {
    hide FrameAll;
    var a, b := portion[..n + 1], portion[n + 1..];
    assert portion == a + b && a == portion[..n] + ['\n'];
    FrameInside(m, portion[..n]);
    FrameSnoc(Frames([], Some(m)), portion[..n], '\n');
    var f := FrameAll(Frames([], Some(m)), a);
    assert f == Frames([m + portion[..n] + ['\n']], None);
    assert m + portion[..n] + ['\n'] == m + a;
    FrameConcat(Frames([], Some(m)), a, b);
    FrameBehind(f.messages, None, b);
  }

  ghost function Accepted(messages: seq<string>, accept: string -> bool): seq<string> {
    if messages == [] then []
    else Accepted(messages[..|messages| - 1], accept) + (if accept(messages[|messages| - 1]) then [messages[|messages| - 1]] else [])
  }

  lemma {:induction false} AcceptedSnoc(messages: seq<string>, m: string, accept: string -> bool)
    ensures Accepted(messages + [m], accept) == Accepted(messages, accept) + (if accept(m) then [m] else [])
  {
    assert (messages + [m])[..|messages|] == messages;
  }

  class TeeI2C {
    const accept: string -> bool
    const fb: array<char>
    var head: nat
    var tail: nat
    var written: seq<string>

    ghost var stream: string
    ghost var messages: seq<string>
    ghost var lost: bool

    /** The pointers stay inside the buffer, with room for a terminator. */
    ghost predicate InBounds()
      reads this
    {
      fb.Length == SIZE && head <= tail < SIZE
    }

    ghost function Pending(): string
      requires InBounds()
      reads this, fb
    {
      fb[head..tail]
    }

    ghost predicate Framed()
      requires InBounds()
      reads this, fb
    {
      && written == Accepted(messages, accept)
      && (!lost && '\0' !in stream ==>
            Tidy(Pending()) && FrameAll(Frames([], None), stream) == Frames(messages, PartialOf(Pending())))
      && (lost ==> '\0' in stream || !ShortMessages(stream))
    }

    ghost predicate Valid()
      reads this, fb
    {
      InBounds() && head == 0 && Framed()
    }

    constructor (accept: string -> bool)
      ensures Valid() && fresh(fb) && Pending() == "" && stream == "" && messages == [] && !lost && this.accept == accept
    {
      this.accept := accept;
      fb := new char[SIZE];
      head, tail, written := 0, 0, [];
      stream, messages, lost := "", [], false;
    }

    /** `memmove` of the text from `from` on to the start of the buffer. */
    method ShiftDown(from: nat)
      requires InBounds() && head <= from <= tail
      modifies this`head, this`tail, fb
      ensures InBounds() && head == 0 && tail == old(tail) - from && Pending() == old(fb[from..tail])
    {
      var n := tail - from;
      forall i | 0 <= i < n {
        fb[i] := fb[from + i];
      }
      head, tail := 0, n;
    }

    /** `memrchr`: the last '$' of the pending text. */
    method LastDollar() returns (dp: Option<nat>)
      requires InBounds()
      ensures dp.Some? <==> LastDollarOf(Pending()).Some?
      ensures dp.Some? ==> dp.value == head + LastDollarOf(Pending()).value
    {
      var i := tail;
      while i > head
        invariant head <= i <= tail
        invariant LastDollarOf(fb[head..tail]) == LastDollarOf(fb[head..i])
      {
        assert fb[head..i][..i - head - 1] == fb[head..i - 1];
        i := i - 1;
        if fb[i] == '$' { return Some(i); }
      }
      return None;
    }

    /** Make room for `len2` more characters and a terminator, giving up text only when more than half the buffer is pending. */
    method MakeRoom(len2: nat)
      requires InBounds() && len2 <= SIZE / 4
      modifies this`head, this`tail, fb
      ensures InBounds() && tail + len2 < SIZE
      ensures old(|Pending()|) <= SIZE / 2 ==> Pending() == old(Pending())
      ensures old(head) == 0 ==> Pending() == Room(old(Pending()), len2)
    {
      hide LastDollarOf;
      if tail + len2 + 1 > SIZE {
        var n := tail - head;
        if n > SIZE / 2 {
          var dp := LastDollar();
          var discard := if dp.Some? then dp.value - head else 0;
          if discard < len2 {
            head, tail := 0, 0;
          } else if dp.Some? {
            ShiftDown(dp.value);
          }
        } else {
          ShiftDown(head);
        }
      }
    }

    /** Take the next complete message off the front of the pending text, if there is one. */
    method TakeMessage() returns (m: Option<string>)
      requires InBounds()
      modifies this`head, this`tail
      ensures InBounds()
      ensures m.None? ==> Scan(old(Pending())) == ([], Pending())
      ensures m.Some? ==> |Pending()| < old(|Pending()|)
      ensures m.Some? ==> Scan(old(Pending())) == ([m.value] + Scan(Pending()).0, Scan(Pending()).1)
    {
      hide StrChr, Scan;
      var s := fb[head..tail];
      ScanCases(s);
      if head == tail {
        return None;
      }
      var p1 := StrChr(s, '$');
      if p1.None? {
        head, tail := 0, 0;
        return None;
      }
      var p2 := StrChr(s[p1.value..], '\n');
      if p2.None? {
        return None;
      }
      var end := p1.value + p2.value + 1;
      m := Some(s[p1.value..end]);
      head := head + end;
      assert Pending() == s[end..];
    }

    /** Take every complete message off the front of the pending text, and pass on those that check out. */
    method Extract()
      requires InBounds() && written == Accepted(messages, accept)
      modifies this`head, this`tail, this`written, this`messages
      ensures InBounds() && written == Accepted(messages, accept)
      ensures Pending() == Scan(old(Pending())).1 && messages == old(messages) + Scan(old(Pending())).0
    {
      hide StrChr, Accepted, Scan;
      ghost var s0 := Pending();
      ghost var got: seq<string> := [];
      assert [] + Scan(s0).0 == Scan(s0).0;
      while true
        invariant InBounds() && written == Accepted(messages, accept)
        invariant messages == old(messages) + got
        invariant Scan(s0) == (got + Scan(Pending()).0, Scan(Pending()).1)
        decreases |Pending()|
      {
        ghost var s := Pending();
        var m := TakeMessage();
        if m.None? {
          assert got + [] == got;
          break;
        }
        AcceptedSnoc(messages, m.value, accept);
        assert got + Scan(s).0 == (got + [m.value]) + Scan(Pending()).0;
        messages, got := messages + [m.value], got + [m.value];
        if accept(m.value) {
          written := written + [m.value];
        }
      }
      assert messages == old(messages) + Scan(s0).0;
    }

    /**
     One portion of at most a quarter of the buffer. Text is lost exactly when the
     portion does not fit behind what is pending.
     */
    method WritePortion(portion: string)
      requires Valid() && |portion| <= SIZE / 4
      modifies this, fb
      ensures Valid() && stream == old(stream) + portion
      ensures lost <==> old(lost) || Overflows(old(Pending()), |portion|)
      ensures var s := Room(old(Pending()), |portion|) + portion;
        Pending() == Scan(s).1 && messages == old(messages) + Scan(s).0
      ensures Overflows(old(Pending()), |portion|) ==> Room(old(Pending()), |portion|) != old(Pending())
    {
      hide StrChr, Accepted, Scan, FrameAll, MessagesUpTo, Tidy, PartialOf, LastDollarOf;
      ghost var before, kept, found := stream, Pending(), messages;
      ghost var s := Room(kept, |portion|) + portion;
      MakeRoom(|portion|);
      AppendPortion(portion);
      Extract();
      ShiftDown(head);
      stream := before + portion;
      lost := lost || Overflows(kept, |portion|);
      StreamStep(before, found, kept, old(lost), portion, s);
    }

    /** A portion of which it is known what room it finds and what it completes. */
    method WriteKnown(portion: string, ghost room: string, ghost found: seq<string>, ghost rest: string)
      requires Valid() && |portion| <= SIZE / 4
      requires Room(Pending(), |portion|) == room && Scan(room + portion) == (found, rest)
      modifies this, fb
      ensures Valid() && Pending() == rest && stream == old(stream) + portion
      ensures lost == (old(lost) || Overflows(old(Pending()), |portion|))
      ensures messages == if found == [] then old(messages) else old(messages) + found
    {
      hide StrChr, Accepted, Scan, FrameAll, MessagesUpTo, Tidy, PartialOf, Room, Overflows;
      WritePortion(portion);
    }

    /** Copy the portion behind the pending text, and terminate it. */
    method AppendPortion(portion: string)
      requires InBounds() && tail + |portion| < SIZE
      modifies this`tail, fb
      ensures InBounds() && Pending() == old(Pending()) + portion
    {
      assert tail + |portion| < fb.Length;
      forall i | 0 <= i < |portion| {
        fb[tail + i] := portion[i];
      }
      tail := tail + |portion|;
      fb[tail] := '\0';
    }

    lemma {:induction false} StreamStep(before: string, found: seq<string>, kept: string, wasLost: bool, portion: string, s: string)
      requires InBounds() && stream == before + portion && |portion| <= SIZE / 4
      requires lost == (wasLost || Overflows(kept, |portion|))
      requires s == Room(kept, |portion|) + portion
      requires Pending() == Scan(s).1 && messages == found + Scan(s).0 && written == Accepted(messages, accept)
      requires !wasLost && '\0' !in before ==> Tidy(kept) && FrameAll(Frames([], None), before) == Frames(found, PartialOf(kept))
      requires wasLost ==> '\0' in before || !ShortMessages(before)
      ensures Framed()
    {
      hide StrChr, Accepted, Scan, FrameAll, MessagesUpTo, PartialOf, LastDollarOf;
      if ShortMessages(stream) { MessagesPrefix(before, portion, SIZE / 2); }
      assert '\0' in stream <==> '\0' in before || '\0' in portion;
      if !wasLost && '\0' !in before {
        if Overflows(kept, |portion|) {
          LongPending(before, found, kept, |portion|);
        } else if '\0' !in portion {
          ScanStaysTidy(kept, portion);
          ScanContinues(Frames(found, PartialOf(kept)), kept, portion);
          FrameConcat(Frames([], None), before, portion);
        }
      }
    }

    /** Buffer the input portion by portion and pass on the messages completed. */
    method WriteFilteredOutput(buf: string)
      requires Valid()
      modifies this, fb
      ensures Valid() && stream == old(stream) + buf
      ensures '\0' !in stream && !lost ==> messages == FrameAll(Frames([], None), stream).messages
      ensures '\0' !in stream && ShortMessages(stream) ==>
                !lost && messages == FrameAll(Frames([], None), stream).messages && written == Accepted(messages, accept)
    {
      hide StrChr, Accepted, Scan, FrameAll, MessagesUpTo, Tidy, PartialOf, Room, Overflows;
      var done := 0;
      assert stream + buf[..0] == stream;
      while done < |buf|
        invariant 0 <= done <= |buf| && Valid() && stream == old(stream) + buf[..done]
        decreases |buf| - done
      {
        var len2 := if |buf| - done < SIZE / 4 then |buf| - done else SIZE / 4;
        assert buf[..done + len2] == buf[..done] + buf[done..done + len2];
        WritePortion(buf[done..done + len2]);
        done := done + len2;
      }
      assert buf[..|buf|] == buf;
    }
  }

  /** Two ways of cutting the same stream of short messages into calls pass on the same messages. */
  method ChunkingDoesNotMatter(accept: string -> bool, a: seq<string>, b: seq<string>) returns (fromA: seq<string>, fromB: seq<string>)
    requires Joined(a) == Joined(b) && '\0' !in Joined(a) && ShortMessages(Joined(a))
    ensures fromA == fromB == Accepted(FrameAll(Frames([], None), Joined(a)).messages, accept)
  {
    hide Accepted, FrameAll, MessagesUpTo;
    fromA := Feed(accept, a);
    fromB := Feed(accept, b);
  }

  ghost function Joined(chunks: seq<string>): string {
    if chunks == [] then "" else Joined(chunks[..|chunks| - 1]) + chunks[|chunks| - 1]
  }

  /** Any sequence of calls. */
  method Feed(accept: string -> bool, chunks: seq<string>) returns (out: seq<string>)
    ensures '\0' !in Joined(chunks) && ShortMessages(Joined(chunks)) ==>
              out == Accepted(FrameAll(Frames([], None), Joined(chunks)).messages, accept)
  {
    hide Accepted, FrameAll, MessagesUpTo, Tidy, PartialOf;
    var tee := new TeeI2C(accept);
    for i := 0 to |chunks|
      invariant tee.Valid() && tee.stream == Joined(chunks[..i]) && fresh(tee) && fresh(tee.fb)
    {
      assert chunks[..i + 1][..i] == chunks[..i];
      tee.WriteFilteredOutput(chunks[i]);
    }
    assert chunks[..|chunks|] == chunks;
    tee.WriteFilteredOutput("");
    assert Joined(chunks) + "" == Joined(chunks);
    out := tee.written;
  }

  // ------------------------------------------------------- the bound is sharp

  function Filler(n: nat): (s: string)
    ensures |s| == n && forall i :: 0 <= i < n ==> s[i] == 'x'
  {
    seq(n, _ => 'x')
  }

  /** Other text, a message of one byte more than half the buffer, and other text again. */
  ghost function LongStream(): string {
    (Filler(1023) + ['$']) + Filler(2048) + ['\n'] + Filler(1023)
  }

  lemma {:induction false} ScanNothing(s: string)
    requires '$' !in s
    ensures Scan(s) == ([], "")
  {
    hide StrChr;
    ScanCases(s);
  }

  lemma {:induction false} FirstAt(s: string, c: char, k: nat)
    requires k < |s| && s[k] == c && c !in s[..k] && '\0' !in s[..k]
    ensures StrChr(s, c) == Some(k)
    decreases k
  {
    if k > 0 {
      assert s[0] in s[..k];
      assert s[1..][..k - 1] == s[..k][1..];
      FirstAt(s[1..], c, k - 1);
    }
  }

  lemma {:induction false} ScanStarted(a: string, b: string)
    requires '$' !in a && '\n' !in a && '\n' !in b && '\0' !in a && '\0' !in b
    ensures Scan((a + ['$']) + b) == ([], (a + ['$']) + b)
  {
    hide StrChr, Scan;
    var s := (a + ['$']) + b;
    assert s[..|a|] == a;
    FirstAt(s, '$', |a|);
    ScanCases(s);
  }

  lemma {:induction false} ScanOne(b: string, c: string)
    requires '\n' !in b && '$' !in c && '\0' !in b && '\0' !in c
    ensures Scan((['$'] + b) + (['\n'] + c)) == ([(['$'] + b) + ['\n']], "")
  {
    hide StrChr, Scan;
    var m := ['$'] + b;
    var s := m + (['\n'] + c);
    ScanCases(s);
    assert s[..0] == "" && s[..|m|] == m && s[0..] == s;
    FirstAt(s, '$', 0);
    FirstAt(s, '\n', |m|);
    assert s[0..|m| + 1] == m + ['\n'];
    assert s[|m| + 1..] == c;
    ScanNothing(c);
    assert [m + ['\n']] + [] == [m + ['\n']];
  }

  lemma {:induction false} LongStreamPartial(k: nat)
    requires k <= |LongStream()|
    ensures var p := FrameAll(Frames([], None), LongStream()[..k]).partial; p.Some? ==> |p.value| <= SIZE / 2 + 1
  {
    hide FrameAll;
    var f := Frames([], None);
    var a, b, c := Filler(1023), Filler(2048), Filler(1023);
    var s := LongStream();
    if k <= 1023 {
      assert s[..k] == Filler(k);
      FrameOutside(Filler(k));
    } else if k <= 3072 {
      assert s[..k] == (a + ['$']) + Filler(k - 1024);
      StartedMessage(a, Filler(k - 1024));
    } else {
      var t := (a + ['$']) + b;
      var d := Filler(k - 3073);
      assert s[..k] == (t + ['\n']) + d;
      StartedMessage(a, b);
      FrameSnoc(f, t, '\n');
      FrameConcat(f, t + ['\n'], d);
      FrameOutside(d);
      FrameBehind(FrameAll(f, t + ['\n']).messages, None, d);
    }
  }

  /**
   A message of one byte more than half the buffer passes or is lost, depending on how
   the same stream is cut into calls.
   */
  method LongerMessagesCanBeLost(accept: string -> bool) returns (a: TeeI2C, b: TeeI2C)
    ensures a.stream == b.stream == LongStream()
    ensures MessagesUpTo(LongStream(), SIZE / 2 + 1) && !ShortMessages(LongStream())
    ensures a.lost && a.messages == []
    ensures !b.lost && b.messages == FrameAll(Frames([], None), LongStream()).messages == [(['$'] + Filler(2048)) + ['\n']]
  {
    forall k | 0 <= k <= |LongStream()|
      ensures var p := FrameAll(Frames([], None), LongStream()[..k]).partial; p.Some? ==> |p.value| <= SIZE / 2 + 1
    {
      LongStreamPartial(k);
    }
    hide StrChr, Scan, FrameAll, LastDollarOf, MessagesUpTo, Tidy, PartialOf, Accepted, LongStream;
    a := CutLate(accept);
    b := CutEarly(accept);
  }

  function Late1(): string { Filler(1023) + ['$'] }
  ghost function Late2(): string { Late1() + Filler(1024) }
  ghost function Late3(): string { Late2() + Filler(1024) }
  function Late4(): string { ['\n'] + Filler(1023) }

  lemma {:induction false} LateStarts(n: nat)
    ensures Scan(Late1() + Filler(n)) == ([], Late1() + Filler(n))
  {
    hide Scan;
    ScanStarted(Filler(1023), Filler(n));
  }

  lemma {:induction false} LateScans()
    ensures Scan("" + Late1()) == ([], Late1())
    ensures Scan(Late1() + Filler(1024)) == ([], Late2())
    ensures Scan(Late2() + Filler(1024)) == ([], Late3())
    ensures Scan("" + Late4()) == ([], "")
  {
    hide Scan;
    LateStarts(0);
    LateStarts(1024);
    LateStarts(2048);
    assert "" + Late1() == Late1() == Late1() + Filler(0);
    assert Late2() + Filler(1024) == Late1() + Filler(2048);
    assert "" + Late4() == Late4();
    ScanNothing(Late4());
  }

  lemma {:induction false} LateOverflows()
    ensures !Overflows("", 1024) && Room("", 1024) == ""
    ensures !Overflows(Late1(), 1024) && Room(Late1(), 1024) == Late1()
    ensures !Overflows(Late2(), 1024) && Room(Late2(), 1024) == Late2()
    ensures Overflows(Late3(), 1024) && Room(Late3(), 1024) == ""
  {
    hide LastDollarOf;
    LastAt(Late3(), 1023);
  }

  lemma {:induction false} LateJoined()
    ensures "" + Late1() + Filler(1024) + Filler(1024) + Late4() == LongStream()
  {
  }

  method CutLateStart(accept: string -> bool) returns (a: TeeI2C)
    ensures a.Valid() && a.Pending() == Late3() && !a.lost && a.messages == []
    ensures a.stream == "" + Late1() + Filler(1024) + Filler(1024)
    ensures fresh(a) && fresh(a.fb)
  {
    hide *;
    LateScans();
    LateOverflows();
    LateSizes();
    a := new TeeI2C(accept);
    a.WriteKnown(Late1(), "", [], Late1());
    a.WriteKnown(Filler(1024), Late1(), [], Late2());
    a.WriteKnown(Filler(1024), Late2(), [], Late3());
  }

  /** The '$' comes at the end of a portion with other text before it, which is kept with it. */
  method CutLate(accept: string -> bool) returns (a: TeeI2C)
    ensures a.Valid() && a.stream == LongStream() && a.lost && a.messages == []
  {
    hide *;
    a := CutLateStart(accept);
    LateScans();
    LateOverflows();
    LateJoined();
    LateSizes();
    a.WriteKnown(Late4(), "", [], "");
  }

  lemma {:induction false} LateSizes()
    ensures |Late1()| == 1024 && |Late4()| == 1024 && SIZE / 4 == 1024
  {
  }

  lemma {:induction false} LastAt(s: string, k: nat)
    requires k < |s| && s[k] == '$' && forall i :: k < i < |s| ==> s[i] != '$'
    ensures LastDollarOf(s) == Some(k)
  {
    hide LastDollarOf;
    assert s[k] in s;
  }

  ghost function Early2(): string { ['$'] + Filler(1023) }
  ghost function Early3(): string { ['$'] + Filler(2047) }
  function Early4(): string { "x\n" + Filler(1022) }

  lemma {:induction false} EarlyScans()
    ensures Scan("" + Filler(1023)) == ([], "")
    ensures Scan("" + (['$'] + Filler(1023))) == ([], Early2())
    ensures Scan(Early2() + Filler(1024)) == ([], Early3())
    ensures Scan(Early3() + Early4()) == ([(['$'] + Filler(2048)) + ['\n']], "")
    ensures Scan("" + Filler(1)) == ([], "")
  {
    hide Scan;
    assert forall s: string :: "" + s == s;
    ScanNothing(Filler(1023));
    ScanNothing(Filler(1));
    ScanStarted("", Filler(1023));
    ScanStarted("", Filler(2047));
    assert "" + ['$'] == ['$'];
    assert Early2() + Filler(1024) == Early3();
    assert Early3() + Early4() == (['$'] + Filler(2048)) + (['\n'] + Filler(1022));
    ScanOne(Filler(2048), Filler(1022));
  }

  lemma {:induction false} EarlyFits()
    ensures !Overflows("", 1023) && Room("", 1023) == ""
    ensures !Overflows("", 1024) && Room("", 1024) == ""
    ensures !Overflows(Early2(), 1024) && Room(Early2(), 1024) == Early2()
    ensures !Overflows(Early3(), 1024) && Room(Early3(), 1024) == Early3()
    ensures !Overflows("", 1) && Room("", 1) == ""
    ensures |['$'] + Filler(1023)| == 1024 && |Early4()| == 1024 && SIZE / 4 == 1024
  {
  }

  lemma {:induction false} EarlyJoined()
    ensures "" + Filler(1023) + (['$'] + Filler(1023)) + Filler(1024) + Early4() + Filler(1) == LongStream()
  {
  }

  /** The text before the '$' comes in a call of its own, and is not kept. */
  method CutEarly(accept: string -> bool) returns (b: TeeI2C)
    ensures b.Valid() && b.stream == LongStream() && !b.lost && b.messages == [(['$'] + Filler(2048)) + ['\n']]
  {
    hide *;
    EarlyScans();
    EarlyFits();
    EarlyJoined();
    b := new TeeI2C(accept);
    b.WriteKnown(Filler(1023), "", [], "");
    b.WriteKnown(['$'] + Filler(1023), "", [], Early2());
    b.WriteKnown(Filler(1024), Early2(), [], Early3());
    b.WriteKnown(Early4(), Early3(), [(['$'] + Filler(2048)) + ['\n']], "");
    b.WriteKnown(Filler(1), "", [], "");
  }
}
