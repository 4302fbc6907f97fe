/**
 `rserial` prints the bytes of a remote sensor and starts a new line at each
 message separator, which it matches byte by byte without going back.
 */
module Rserial {

  /** What is printed: a byte, or the line break at a separator. */
  datatype Out = Char(c: char) | Break

  ghost function Chars(s: string): (r: seq<Out>)
    ensures |r| == |s|
    ensures forall i :: 0 <= i < |s| ==> r[i] == Char(s[i])
  {
    seq(|s|, i requires 0 <= i < |s| => Char(s[i]))
  }

  /** A separator, with its line break after or before it. */
  ghost function Mark(sep: string, atEnd: bool): seq<Out> {
    if atEnd then Chars(sep) + [Break] else [Break] + Chars(sep)
  }

  /** The printed bytes without the line breaks. */
  ghost function Bytes(out: seq<Out>): string {
    if out == [] then ""
    else Bytes(out[..|out| - 1]) + if out[|out| - 1].Char? then [out[|out| - 1].c] else ""
  }

  // --------------------------------------------------------------- the reference

  /** Line breaks at the leftmost separators that do not overlap. */
  ghost function Broken(sep: string, atEnd: bool, t: string): seq<Out>
    requires sep != ""
    decreases |t|
  {
    if |t| < |sep| then Chars(t)
    else if t[..|sep|] == sep then Mark(sep, atEnd) + Broken(sep, atEnd, t[|sep|..])
    else [Char(t[0])] + Broken(sep, atEnd, t[1..])
  }

  /** At each line break there is a separator, on the side where it belongs. */
  ghost predicate BrokenAtSeparators(sep: string, atEnd: bool, out: seq<Out>) {
    forall i :: 0 <= i < |out| && out[i] == Break ==> SeparatorAt(sep, atEnd, out, i)
  }

  lemma {:induction false} MarkAtSeparator(sep: string, atEnd: bool)
    ensures BrokenAtSeparators(sep, atEnd, Mark(sep, atEnd))
  {
    var m := Mark(sep, atEnd);
    if atEnd {
      assert m[0..|sep|] == Chars(sep);
    } else {
      assert m[1..1 + |sep|] == Chars(sep);
    }
  }

  /** The separator belonging to the line break at `i` is there. */
  ghost predicate SeparatorAt(sep: string, atEnd: bool, out: seq<Out>, i: nat) {
    if atEnd then |sep| <= i <= |out| && out[i - |sep|..i] == Chars(sep)
    else i + 1 + |sep| <= |out| && out[i + 1..i + 1 + |sep|] == Chars(sep)
  }

  lemma {:induction false} SeparatorBefore(sep: string, atEnd: bool, a: seq<Out>, b: seq<Out>, i: nat)
    requires i < |a| && SeparatorAt(sep, atEnd, a, i)
    ensures SeparatorAt(sep, atEnd, a + b, i)
  {
    var c, n := a + b, |sep|;
    if atEnd { assert c[i - n..i] == a[i - n..i]; } else { assert c[i + 1..i + 1 + n] == a[i + 1..i + 1 + n]; }
  }

  lemma {:induction false} SeparatorBehind(sep: string, atEnd: bool, a: seq<Out>, b: seq<Out>, j: nat)
    requires j < |b| && SeparatorAt(sep, atEnd, b, j)
    ensures SeparatorAt(sep, atEnd, a + b, |a| + j)
  {
    var c, n, i := a + b, |sep|, |a| + j;
    if atEnd { assert c[i - n..i] == b[j - n..j]; } else { assert c[i + 1..i + 1 + n] == b[j + 1..j + 1 + n]; }
  }

  lemma {:induction false} SeparatorsConcat(sep: string, atEnd: bool, a: seq<Out>, b: seq<Out>)
    requires BrokenAtSeparators(sep, atEnd, a) && BrokenAtSeparators(sep, atEnd, b)
    ensures BrokenAtSeparators(sep, atEnd, a + b)
  {
    hide SeparatorAt;
    var c := a + b;
    forall i | 0 <= i < |c| && c[i] == Break
      ensures SeparatorAt(sep, atEnd, c, i)
    {
      if i < |a| {
        assert a[i] == Break;
        SeparatorBefore(sep, atEnd, a, b, i);
      } else {
        assert b[i - |a|] == Break;
        SeparatorBehind(sep, atEnd, a, b, i - |a|);
      }
    }
  }

  /** With the separator at the end of a message every line ends in one, otherwise every line but the first begins with one. */
  lemma {:induction false} LinesAtSeparators(sep: string, atEnd: bool, t: string)
    requires sep != ""
    ensures BrokenAtSeparators(sep, atEnd, Broken(sep, atEnd, t))
    decreases |t|
  {
    hide BrokenAtSeparators, Mark;
    if |t| < |sep| {
      CharsUnbroken(sep, atEnd, t);
    } else if t[..|sep|] == sep {
      MarkAtSeparator(sep, atEnd);
      LinesAtSeparators(sep, atEnd, t[|sep|..]);
      SeparatorsConcat(sep, atEnd, Mark(sep, atEnd), Broken(sep, atEnd, t[|sep|..]));
    } else {
      CharsUnbroken(sep, atEnd, [t[0]]);
      assert Chars([t[0]]) == [Char(t[0])];
      LinesAtSeparators(sep, atEnd, t[1..]);
      SeparatorsConcat(sep, atEnd, [Char(t[0])], Broken(sep, atEnd, t[1..]));
    }
  }

  lemma {:induction false} CharsUnbroken(sep: string, atEnd: bool, t: string)
    ensures BrokenAtSeparators(sep, atEnd, Chars(t))
  {
  }

  // ----------------------------------------------------------------- the matcher

  /** The number of separator bytes matched, and what is printed so far. */
  datatype Matcher = Matcher(nsync: nat, out: seq<Out>)

  ghost function Feed(sep: string, atEnd: bool, m: Matcher, c: char): (r: Matcher)
    requires m.nsync < |sep|
    ensures r.nsync < |sep|
  {
    var n := if c == sep[m.nsync] then m.nsync + 1 else if c == sep[0] then 1 else 0;
    var out := if c == sep[m.nsync] then m.out
               else m.out + Chars(sep[..m.nsync]) + if c == sep[0] then [] else [Char(c)];
    if n == |sep| then Matcher(0, out + Mark(sep, atEnd)) else Matcher(n, out)
  }

  ghost function FeedAll(sep: string, atEnd: bool, m: Matcher, t: string): (r: Matcher)
    requires m.nsync < |sep|
    ensures r.nsync < |sep|
    decreases |t|
  {
    if t == "" then m else FeedAll(sep, atEnd, Feed(sep, atEnd, m, t[0]), t[1..])
  }

  /** What is printed, and the separator bytes still held back. */
  ghost function Shown(sep: string, m: Matcher): seq<Out>
    requires m.nsync < |sep|
  {
    m.out + Chars(sep[..m.nsync])
  }

  // ---------------------------------------------------------------- conservation

  lemma {:induction false} BytesConcat(a: seq<Out>, b: seq<Out>)
    ensures Bytes(a + b) == Bytes(a) + Bytes(b)
    decreases |b|
  {
    if b == [] {
      assert a + b == a;
    } else {
      assert (a + b)[..|a + b| - 1] == a + b[..|b| - 1];
      BytesConcat(a, b[..|b| - 1]);
    }
  }

  lemma {:induction false} BytesOfChars(s: string)
    ensures Bytes(Chars(s)) == s
  {
    if s != "" {
      var n := |s| - 1;
      assert Chars(s)[..n] == Chars(s[..n]);
      BytesOfChars(s[..n]);
    }
  }

  lemma {:induction false} BytesOfMark(sep: string, atEnd: bool)
    ensures Bytes(Mark(sep, atEnd)) == sep
  {
    BytesOfChars(sep);
    BytesConcat(Chars(sep), [Break]);
    BytesConcat([Break], Chars(sep));
    assert Bytes([Break]) == "";
  }

  lemma {:induction false} BytesOfShown(sep: string, m: Matcher)
    requires m.nsync < |sep|
    ensures Bytes(Shown(sep, m)) == Bytes(m.out) + sep[..m.nsync]
  {
    BytesConcat(m.out, Chars(sep[..m.nsync]));
    BytesOfChars(sep[..m.nsync]);
  }

  /** No byte is lost, repeated or reordered, whatever the separator. */
  lemma {:induction false} FeedKeepsBytes(sep: string, atEnd: bool, m: Matcher, c: char)
    requires m.nsync < |sep|
    ensures Bytes(Shown(sep, Feed(sep, atEnd, m, c))) == Bytes(Shown(sep, m)) + [c]
  {
    hide Bytes, Chars, Mark;
    var r := Feed(sep, atEnd, m, c);
    BytesOfShown(sep, m);
    BytesOfShown(sep, r);
    BytesOfMark(sep, atEnd);
    BytesConcat(m.out, Mark(sep, atEnd));
    if c == sep[m.nsync] {
      assert sep[..m.nsync] + [c] == sep[..m.nsync + 1];
      assert sep[..|sep|] == sep;
    } else {
      var out := m.out + Chars(sep[..m.nsync]);
      BytesConcat(out, [Char(c)]);
      BytesOfOne(c);
      BytesConcat(out, Mark(sep, atEnd));
      assert out + [] == out;
      assert c == sep[0] ==> sep[..1] == [c];
    }
  }

  lemma {:induction false} BytesOfOne(c: char)
    ensures Bytes([Char(c)]) == [c]
  {
    assert Bytes([]) == "";
  }

  lemma {:induction false} FeedAllKeepsBytes(sep: string, atEnd: bool, m: Matcher, t: string)
    requires m.nsync < |sep|
    ensures Bytes(Shown(sep, FeedAll(sep, atEnd, m, t))) == Bytes(Shown(sep, m)) + t
    decreases |t|
  {
    hide Bytes, Feed, Shown;
    if t != "" {
      FeedKeepsBytes(sep, atEnd, m, t[0]);
      FeedAllKeepsBytes(sep, atEnd, Feed(sep, atEnd, m, t[0]), t[1..]);
    }
  }

  // ------------------------------------------------- when the leftmost are found

  /** Shifted by d against itself, the separator agrees up to its byte k but not there. */
  ghost predicate Slips(sep: string, d: nat, k: nat) {
    0 < d < k < |sep| && sep[d..k] == sep[..k - d] && sep[k - d] != sep[k]
  }

  /** No mismatch can hide the start of another match. */
  ghost predicate Restartable(sep: string) {
    forall d, k :: !Slips(sep, d, k)
  }

  ghost predicate OccursAt(sep: string, t: string, d: nat) {
    d + |sep| <= |t| && t[d..d + |sep|] == sep
  }

  ghost predicate NoneBefore(sep: string, t: string, k: nat) {
    forall d :: 0 <= d < k ==> !OccursAt(sep, t, d)
  }

  lemma {:induction false} NoneBeforeTail(sep: string, t: string, k: nat)
    requires t != "" && k > 0 && NoneBefore(sep, t, k)
    ensures NoneBefore(sep, t[1..], k - 1)
  {
    forall d | 0 <= d < k - 1
      ensures !OccursAt(sep, t[1..], d)
    {
      assert !OccursAt(sep, t, d + 1);
      assert d + |sep| <= |t[1..]| ==> t[1..][d..d + |sep|] == t[d + 1..d + 1 + |sep|];
    }
  }

  /** Bytes in front that start no separator are printed as they are. */
  lemma {:induction false} BrokenPasses(sep: string, atEnd: bool, s: string, t: string)
    requires sep != "" && NoneBefore(sep, s + t, |s|)
    ensures Broken(sep, atEnd, s + t) == Chars(s) + Broken(sep, atEnd, t)
    decreases |s|
  {
    hide Broken, NoneBefore;
    if s == "" {
      assert s + t == t;
    } else {
      var u, b := s + t, Broken(sep, atEnd, t);
      assert u[1..] == s[1..] + t && u[0] == s[0];
      NoneBeforeTail(sep, u, |s|);
      BrokenPasses(sep, atEnd, s[1..], t);
      BrokenPassesOne(sep, atEnd, u, |s|);
      assert Chars(s) == [Char(s[0])] + Chars(s[1..]);
      assert [Char(s[0])] + (Chars(s[1..]) + b) == ([Char(s[0])] + Chars(s[1..])) + b;
    }
  }

  lemma {:induction false} BrokenPassesOne(sep: string, atEnd: bool, u: string, k: nat)
    requires sep != "" && u != "" && k > 0 && NoneBefore(sep, u, k)
    ensures Broken(sep, atEnd, u) == [Char(u[0])] + Broken(sep, atEnd, u[1..])
  {
    hide Mark;
    assert !OccursAt(sep, u, 0);
    if |u| < |sep| {
      assert Chars(u) == [Char(u[0])] + Chars(u[1..]);
    } else {
      assert u[..|sep|] == u[0..0 + |sep|];
    }
  }

  lemma {:induction false} OccurrenceOverlaps(sep: string, k: nat, c: char, t: string, d: nat)
    requires k < |sep| && d < k && OccursAt(sep, sep[..k] + ([c] + t), d)
    ensures sep[d..k] == sep[..k - d] && sep[k - d] == c
  {
    var u := sep[..k] + ([c] + t);
    var v := u[d..d + |sep|];
    assert v[k - d] == u[k] == c;
    assert sep[..k - d] == v[..k - d] == u[d..k] == sep[d..k];
  }

  /** After a mismatch no separator starts in the bytes matched so far. */
  lemma {:induction false} MismatchEndsAll(sep: string, k: nat, c: char, t: string, d: nat)
    requires Restartable(sep) && k < |sep| && c != sep[k] && d < k
    ensures !OccursAt(sep, sep[..k] + ([c] + t), d)
  {
    assert !Slips(sep, d, k);
    if OccursAt(sep, sep[..k] + ([c] + t), d) {
      OccurrenceOverlaps(sep, k, c, t, d);
    }
  }

  /** The matcher agrees with the reference from any state. */
  lemma {:induction false} MatcherFindsAll(sep: string, atEnd: bool, m: Matcher, t: string)
    requires m.nsync < |sep| && Restartable(sep)
    ensures Shown(sep, FeedAll(sep, atEnd, m, t)) == m.out + Broken(sep, atEnd, sep[..m.nsync] + t)
    decreases |t|
  {
    hide Restartable, Mark, Broken;
    var k := m.nsync;
    if t == "" {
      assert sep[..k] + t == sep[..k];
      BrokenShort(sep, atEnd, sep[..k]);
    } else {
      var c, u := t[0], t[1..];
      MatcherFindsAll(sep, atEnd, Feed(sep, atEnd, m, c), u);
      FeedFindsAll(sep, atEnd, m, c, u);
      assert t == [c] + u;
    }
  }

  lemma {:induction false} BrokenShort(sep: string, atEnd: bool, t: string)
    requires |t| < |sep|
    ensures Broken(sep, atEnd, t) == Chars(t)
  {
  }

  lemma {:induction false} BrokenAtSeparator(sep: string, atEnd: bool, t: string)
    requires sep != ""
    ensures Broken(sep, atEnd, sep + t) == Mark(sep, atEnd) + Broken(sep, atEnd, t)
  {
    assert (sep + t)[..|sep|] == sep && (sep + t)[|sep|..] == t;
  }

  lemma {:induction false} FeedFindsAll(sep: string, atEnd: bool, m: Matcher, c: char, u: string)
    requires m.nsync < |sep| && Restartable(sep)
    ensures var r := Feed(sep, atEnd, m, c);
            m.out + Broken(sep, atEnd, sep[..m.nsync] + ([c] + u)) == r.out + Broken(sep, atEnd, sep[..r.nsync] + u)
  {
    hide Restartable, Mark, Broken;
    var k := m.nsync;
    var r := Feed(sep, atEnd, m, c);
    BrokenAtSeparator(sep, atEnd, u);
    assert sep[..0] + u == u;
    assert sep[..|sep|] == sep;
    if c == sep[k] {
      assert sep[..k] + ([c] + u) == sep[..k + 1] + u;
    } else {
      forall d | 0 <= d < k
        ensures !OccursAt(sep, sep[..k] + ([c] + u), d)
      {
        MismatchEndsAll(sep, k, c, u, d);
      }
      assert NoneBefore(sep, sep[..k] + ([c] + u), k);
      BrokenPasses(sep, atEnd, sep[..k], [c] + u);
      if c == sep[0] {
        assert [c] + u == sep[..1] + u;
      } else {
        FirstDiffers(sep, [c] + u);
        BrokenPasses(sep, atEnd, [c], u);
        assert Chars([c]) == [Char(c)];
      }
    }
  }

  lemma {:induction false} FirstDiffers(sep: string, t: string)
    requires sep != "" && t != "" && t[0] != sep[0]
    ensures !OccursAt(sep, t, 0)
  {
    assert |sep| <= |t| ==> t[0..0 + |sep|][0] == t[0];
  }

  // ------------------------------------------------------ and when they are not

  lemma {:induction false} OccurrenceBreaks(sep: string, atEnd: bool, t: string, d: nat)
    requires sep != "" && OccursAt(sep, t, d)
    ensures Break in Broken(sep, atEnd, t)
    decreases d
  {
    if t[..|sep|] == sep {
      assert Break in Mark(sep, atEnd);
    } else {
      assert t[..|sep|] == t[0..0 + |sep|];
      assert t[1..][d - 1..d - 1 + |sep|] == t[d..d + |sep|];
      OccurrenceBreaks(sep, atEnd, t[1..], d - 1);
    }
  }

  lemma {:induction false} TooShortToBreak(sep: string, atEnd: bool, m: Matcher, t: string)
    requires m.nsync + |t| < |sep| && Break !in m.out
    ensures Break !in Shown(sep, FeedAll(sep, atEnd, m, t))
    decreases |t|
  {
    hide Mark;
    if t != "" {
      var r := Feed(sep, atEnd, m, t[0]);
      assert r.nsync <= m.nsync + 1;
      assert Break !in r.out;
      TooShortToBreak(sep, atEnd, r, t[1..]);
    }
  }

  lemma {:induction false} MatchesItself(sep: string, atEnd: bool, j: nat, k: nat, t: string)
    requires j <= k < |sep|
    ensures FeedAll(sep, atEnd, Matcher(j, []), sep[j..k] + t) == FeedAll(sep, atEnd, Matcher(k, []), t)
    decreases k - j
  {
    var u := sep[j..k] + t;
    if j == k {
      assert u == t;
    } else {
      assert u[0] == sep[j] && u[1..] == sep[j + 1..k] + t;
      MatchesItself(sep, atEnd, j + 1, k, t);
    }
  }

  /** A text whose only separator starts inside a match that fails. */
  ghost function Trap(sep: string, d: nat, k: nat): string
    requires Slips(sep, d, k)
  {
    sep[..k] + sep[k - d..]
  }

  lemma {:induction false} TrapIsMissed(sep: string, atEnd: bool, d: nat, k: nat)
    requires Slips(sep, d, k)
    ensures Shown(sep, FeedAll(sep, atEnd, Matcher(0, []), Trap(sep, d, k))) != Broken(sep, atEnd, Trap(sep, d, k))
  {
    hide Broken, FeedAll, Shown, Feed, Trap;
    TrapHoldsOne(sep, d, k);
    OccurrenceBreaks(sep, atEnd, Trap(sep, d, k), d);
    TrapNotBroken(sep, atEnd, d, k);
  }

  lemma {:induction false} TrapHoldsOne(sep: string, d: nat, k: nat)
    requires Slips(sep, d, k)
    ensures OccursAt(sep, Trap(sep, d, k), d)
  {
    var u := sep[k - d..];
    var t := Trap(sep, d, k);
    assert sep[..k][d..] == sep[d..k];
    assert t[d..] == sep[d..k] + u == sep[..k - d] + sep[k - d..] == sep;
    assert t[d..d + |sep|] == t[d..];
  }

  lemma {:induction false} TrapNotBroken(sep: string, atEnd: bool, d: nat, k: nat)
    requires Slips(sep, d, k)
    ensures Break !in Shown(sep, FeedAll(sep, atEnd, Matcher(0, []), Trap(sep, d, k)))
  {
    hide FeedAll, Shown, Feed;
    var u := sep[k - d..];
    assert sep[0..k] == sep[..k];
    MatchesItself(sep, atEnd, 0, k, u);
    assert u[0] == sep[k - d] != sep[k];
    MismatchPrints(sep, atEnd, k, u[0]);
    TooShortToBreak(sep, atEnd, Feed(sep, atEnd, Matcher(k, []), u[0]), u[1..]);
    FeedFirst(sep, atEnd, Matcher(k, []), u);
  }

  lemma {:induction false} FeedFirst(sep: string, atEnd: bool, m: Matcher, u: string)
    requires m.nsync < |sep| && u != ""
    ensures FeedAll(sep, atEnd, m, u) == FeedAll(sep, atEnd, Feed(sep, atEnd, m, u[0]), u[1..])
  {
    hide Feed;
  }

  lemma {:induction false} MismatchPrints(sep: string, atEnd: bool, k: nat, c: char)
    requires 1 < |sep| && k < |sep| && c != sep[k]
    ensures var m := Feed(sep, atEnd, Matcher(k, []), c); m.nsync <= 1 && Break !in m.out
  {
    hide Mark;
  }

  /** The separator "aab" is missed in the text "aaab". */
  lemma {:induction false} MissedSeparator(atEnd: bool)
    ensures Shown("aab", FeedAll("aab", atEnd, Matcher(0, []), "aaab")) != Broken("aab", atEnd, "aaab")
    ensures !Restartable("aab")
  {
    hide FeedAll, Broken, Shown;
    var sep := "aab";
    assert sep[1..2] == sep[..1];
    assert Slips(sep, 1, 2);
    assert Trap(sep, 1, 2) == "aaab";
    TrapIsMissed(sep, atEnd, 1, 2);
  }

  /** Every text gets its line breaks at the leftmost separators exactly if the separator cannot slip. */
  lemma {:induction false} FindsLeftmostIff(sep: string, atEnd: bool)
    requires sep != ""
    ensures (forall t :: Shown(sep, FeedAll(sep, atEnd, Matcher(0, []), t)) == Broken(sep, atEnd, t)) <==> Restartable(sep)
  {
    hide Broken, FeedAll, Shown, Slips;
    if Restartable(sep) {
      forall t
        ensures Shown(sep, FeedAll(sep, atEnd, Matcher(0, []), t)) == Broken(sep, atEnd, t)
      {
        MatcherFindsAll(sep, atEnd, Matcher(0, []), t);
        assert sep[..0] + t == t;
        assert [] + Broken(sep, atEnd, t) == Broken(sep, atEnd, t);
      }
    } else {
      var d, k :| Slips(sep, d, k);
      TrapIsMissed(sep, atEnd, d, k);
    }
  }

  /** A separator whose first byte does not come again cannot slip. */
  lemma {:induction false} FreshFirstByte(sep: string)
    requires sep != "" && forall i :: 0 < i < |sep| ==> sep[i] != sep[0]
    ensures Restartable(sep)
  {
    forall d: nat, k: nat
      ensures !Slips(sep, d, k)
    {
      assert 0 < d < k < |sep| ==> sep[d..k][0] == sep[d] && sep[..k - d][0] == sep[0];
    }
  }

  // ----------------------------------------------------------------- the program

  /** The bytes that are not skipped: with null skipping, a NUL counts only inside a partial match. */
  ghost function Kept(sep: string, atEnd: bool, nullTerm: bool, m: Matcher, t: string): string
    requires m.nsync < |sep|
    decreases |t|
  {
    if t == "" then ""
    else if nullTerm && t[0] == '\0' && m.nsync == 0 then Kept(sep, atEnd, nullTerm, m, t[1..])
    else [t[0]] + Kept(sep, atEnd, nullTerm, Feed(sep, atEnd, m, t[0]), t[1..])
  }

  ghost function Consume(sep: string, atEnd: bool, nullTerm: bool, m: Matcher, t: string): (r: Matcher)
    requires m.nsync < |sep|
    ensures r.nsync < |sep|
    decreases |t|
  {
    if t == "" then m
    else if nullTerm && t[0] == '\0' && m.nsync == 0 then Consume(sep, atEnd, nullTerm, m, t[1..])
    else Consume(sep, atEnd, nullTerm, Feed(sep, atEnd, m, t[0]), t[1..])
  }

  /** How the bytes are divided into reads makes no difference. */
  lemma {:induction false} ConsumeConcat(sep: string, atEnd: bool, nullTerm: bool, m: Matcher, a: string, b: string)
    requires m.nsync < |sep|
    ensures Consume(sep, atEnd, nullTerm, m, a + b) ==
            Consume(sep, atEnd, nullTerm, Consume(sep, atEnd, nullTerm, m, a), b)
    decreases |a|
  {
    hide Feed;
    if a == "" {
      assert a + b == b;
    } else {
      assert (a + b)[1..] == a[1..] + b;
      if nullTerm && a[0] == '\0' && m.nsync == 0 {
        ConsumeConcat(sep, atEnd, nullTerm, m, a[1..], b);
      } else {
        ConsumeConcat(sep, atEnd, nullTerm, Feed(sep, atEnd, m, a[0]), a[1..], b);
      }
    }
  }

  /** Skipping apart, what is read goes through the matcher. */
  lemma {:induction false} ConsumeFeeds(sep: string, atEnd: bool, nullTerm: bool, m: Matcher, t: string)
    requires m.nsync < |sep|
    ensures Consume(sep, atEnd, nullTerm, m, t) == FeedAll(sep, atEnd, m, Kept(sep, atEnd, nullTerm, m, t))
    decreases |t|
  {
    hide Feed;
    if t != "" {
      if nullTerm && t[0] == '\0' && m.nsync == 0 {
        ConsumeFeeds(sep, atEnd, nullTerm, m, t[1..]);
      } else {
        ConsumeFeeds(sep, atEnd, nullTerm, Feed(sep, atEnd, m, t[0]), t[1..]);
      }
    }
  }

  lemma {:induction false} AllKept(sep: string, atEnd: bool, m: Matcher, t: string)
    requires m.nsync < |sep|
    ensures Kept(sep, atEnd, false, m, t) == t
    decreases |t|
  {
    hide Feed;
    if t != "" {
      AllKept(sep, atEnd, Feed(sep, atEnd, m, t[0]), t[1..]);
    }
  }

  /** With null skipping a NUL between messages leaves no trace, and no other byte is skipped. */
  lemma {:induction false} OnlyNulsSkipped(sep: string, atEnd: bool, nullTerm: bool, m: Matcher, c: char, t: string)
    requires m.nsync < |sep|
    ensures Consume(sep, atEnd, nullTerm, m, [c] + t) ==
            if nullTerm && c == '\0' && m.nsync == 0 then Consume(sep, atEnd, nullTerm, m, t)
            else Consume(sep, atEnd, nullTerm, Feed(sep, atEnd, m, c), t)
  {
    hide Feed;
    assert ([c] + t)[1..] == t;
  }

  /** With no NUL skipping, printed bytes and held prefix are always exactly what was read. */
  lemma {:induction false} NoByteLost(sep: string, atEnd: bool, t: string)
    requires sep != ""
    ensures Bytes(Shown(sep, Consume(sep, atEnd, false, Matcher(0, []), t))) == t
  {
    hide Consume, FeedAll, Kept;
    var m := Matcher(0, []);
    ConsumeFeeds(sep, atEnd, false, m, t);
    AllKept(sep, atEnd, m, t);
    FeedAllKeepsBytes(sep, atEnd, m, t);
    BytesOfShown(sep, m);
    assert Bytes([]) + sep[..0] + t == t;
  }

  class RemoteSerial {
    const messageSeparator: string
    const separatorAtEOM: bool
    const messageLength: nat
    const nullTerm: bool
    var nsync: nat
    var nout: nat
    var out: seq<Out>

    ghost predicate Valid()
      reads this
    {
      && (if messageSeparator == "" then nsync == 0 else nsync < |messageSeparator|)
      && (nullTerm ==> messageSeparator != "")
    }

    ghost function State(): Matcher
      reads this
    {
      Matcher(nsync, out)
    }

    /** NULs are skipped if messages end in a separator that ends a line. */
    constructor (sep: string, atEnd: bool, length: nat)
      ensures Valid() && State() == Matcher(0, [])
      ensures messageSeparator == sep && separatorAtEOM == atEnd && messageLength == length
      ensures nullTerm <==> atEnd && sep != "" && (sep[|sep| - 1] == '\r' || sep[|sep| - 1] == '\n')
    {
      messageSeparator, separatorAtEOM, messageLength := sep, atEnd, length;
      nullTerm := atEnd && sep != "" && (sep[|sep| - 1] == '\r' || sep[|sep| - 1] == '\n');
      nsync, nout, out := 0, 0, [];
    }

    /** Prints the first n bytes of the separator. */
    method PrintSeparator(n: nat)
      requires n <= |messageSeparator|
      modifies this`out
      ensures out == old(out) + Chars(messageSeparator[..n])
    {
      var j := 0;
      while j < n
        invariant j <= n && out == old(out) + Chars(messageSeparator[..j])
      {
        assert Chars(messageSeparator[..j + 1]) == Chars(messageSeparator[..j]) + [Char(messageSeparator[j])];
        out := out + [Char(messageSeparator[j])];
        j := j + 1;
      }
    }

    /** One byte against the separator. */
    method MatchByte(c: char)
      requires Valid() && messageSeparator != ""
      modifies this`nsync, this`nout, this`out
      ensures Valid() && State() == Feed(messageSeparator, separatorAtEOM, old(State()), c)
    {
      hide Chars;
      if c != messageSeparator[nsync] {
        PrintSeparator(nsync);
        nsync := 0;
        if c != messageSeparator[0] {
          out := out + [Char(c)];
        } else {
          nsync := 1;
        }
      } else {
        nsync := nsync + 1;
      }
      if nsync == |messageSeparator| {
        if !separatorAtEOM {
          out := out + [Break];
        }
        PrintSeparator(|messageSeparator|);
        assert messageSeparator[..|messageSeparator|] == messageSeparator;
        if separatorAtEOM {
          out := out + [Break];
        }
        nsync, nout := 0, 0;
      }
    }

    /** One byte of a read. */
    method TakeByte(c: char)
      requires Valid()
      modifies this`nsync, this`nout, this`out
      ensures Valid()
      ensures messageSeparator == "" ==> out == old(out) + [Char(c)]
      ensures messageSeparator != "" ==>
                State() == if nullTerm && c == '\0' && old(nsync) == 0 then old(State())
                           else Feed(messageSeparator, separatorAtEOM, old(State()), c)
    {
      hide Feed;
      if nullTerm && c == '\0' && nsync == 0 {
        return;
      }
      if messageLength > 0 && nsync == |messageSeparator| {
        nout := nout + 1;
        if nout == messageLength {
          nsync := 0;
        }
        out := out + [Char(c)];
      } else if |messageSeparator| == 0 {
        out := out + [Char(c)];
      } else {
        MatchByte(c);
      }
    }

    /** The bytes of one read. */
    method Take(buffer: string)
      requires Valid()
      modifies this`nsync, this`nout, this`out
      ensures Valid()
      ensures messageSeparator == "" ==> out == old(out) + Chars(buffer)
      ensures messageSeparator != "" ==>
                State() == Consume(messageSeparator, separatorAtEOM, nullTerm, old(State()), buffer)
    {
      hide Feed;
      ghost var sep, atEnd := messageSeparator, separatorAtEOM;
      var ic := 0;
      while ic < |buffer|
        invariant ic <= |buffer| && Valid()
        invariant sep == "" ==> out == old(out) + Chars(buffer[..ic])
        invariant sep != "" ==>
                    Consume(sep, atEnd, nullTerm, State(), buffer[ic..]) ==
                    Consume(sep, atEnd, nullTerm, old(State()), buffer)
      {
        var c := buffer[ic];
        assert buffer[ic..][1..] == buffer[ic + 1..];
        assert Chars(buffer[..ic + 1]) == Chars(buffer[..ic]) + [Char(c)];
        TakeByte(c);
        ic := ic + 1;
      }
      assert buffer[..|buffer|] == buffer && buffer[|buffer|..] == "";
    }
  }
}
