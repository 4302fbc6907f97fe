/**
 The running totals of the `sing` receiver: rings of the last 10 and the last
 100 packet sizes, with counters kept beside them.
 */
module SingTally {

  import opened SingPacket

  datatype Tally = Tally(
    last10: seq<nat>, last100: seq<nat>,
    ngood10: nat, ngood100: nat, byteSum: int, nBad: nat)
  {
    predicate Sized() {
      |last10| == 10 && |last100| == 100
    }

    /** The counters are what counting the rings again would give. */
    ghost predicate Recounted() {
      && Sized()
      && ngood10 == Positive(last10)
      && ngood100 == Positive(last100)
      && byteSum == Sum(last100)
    }
  }

  function Start(): (t: Tally)
    ensures t.Sized() && t.nBad == 0
  {
    Tally(seq(10, i => 0), seq(100, i => 0), 0, 0, 0, 0)
  }

  /** Packet number n did not arrive. */
  function Miss(t: Tally, n: nat): (r: Tally)
    requires t.Sized()
    ensures r.Sized()
  {
    var i, j := n % 10, n % 100;
    Tally(t.last10[i := 0], t.last100[j := 0],
          if t.ngood10 > 0 && t.last10[i] > 0 then t.ngood10 - 1 else t.ngood10,
          if t.ngood100 > 0 && t.last100[j] > 0 then t.ngood100 - 1 else t.ngood100,
          t.byteSum - t.last100[j],
          t.nBad + 1)
  }

  /** None of the packets from `low` up to, not including, `high` arrived. */
  function MissAll(t: Tally, low: nat, high: nat): (r: Tally)
    requires t.Sized()
    ensures r.Sized()
    decreases high - low
  {
    if low < high then MissAll(Miss(t, low), low + 1, high) else t
  }

  /** A good packet of plen bytes arrived under number n. */
  function Accept(t: Tally, n: nat, plen: nat): (r: Tally)
    requires t.Sized()
    ensures r.Sized() && r.nBad == t.nBad
  {
    var i, j := n % 10, n % 100;
    Tally(t.last10[i := plen], t.last100[j := plen],
          if t.last10[i] == 0 then t.ngood10 + 1 else t.ngood10,
          if t.last100[j] == 0 then t.ngood100 + 1 else t.ngood100,
          t.byteSum - t.last100[j] + plen,
          t.nBad)
  }

  // ------------------------------------------------------------------- recounting

  ghost function Positive(s: seq<nat>): (n: nat)
    ensures n <= |s|
  {
    if s == [] then 0 else Positive(s[..|s| - 1]) + if s[|s| - 1] > 0 then 1 else 0
  }

  ghost function Sum(s: seq<nat>): nat {
    if s == [] then 0 else Sum(s[..|s| - 1]) + s[|s| - 1]
  }

  lemma {:induction false} CountUpdate(s: seq<nat>, i: nat, v: nat)
    requires i < |s|
    ensures Positive(s[i := v]) + (if s[i] > 0 then 1 else 0) == Positive(s) + (if v > 0 then 1 else 0)
    ensures Sum(s[i := v]) + s[i] == Sum(s) + v
  {
    var n := |s| - 1;
    if i == n {
      assert s[i := v][..n] == s[..n];
    } else {
      assert s[i := v][..n] == s[..n][i := v];
      CountUpdate(s[..n], i, v);
    }
  }

  lemma {:induction false} CountZeros(s: seq<nat>)
    requires forall i :: 0 <= i < |s| ==> s[i] == 0
    ensures Positive(s) == 0 && Sum(s) == 0
  {
    if s != [] {
      CountZeros(s[..|s| - 1]);
    }
  }

  /** As many positive slots as there are, up to the first k of them. */
  lemma {:induction false} CountFirst(s: seq<nat>, k: nat)
    requires k <= |s|
    requires forall i :: 0 <= i < |s| ==> (s[i] > 0 <==> i < k)
    ensures Positive(s) == k
  {
    if s != [] {
      var n := |s| - 1;
      CountFirst(s[..n], if k == |s| then n else k);
    }
  }

  lemma {:induction false} StartRecounts()
    ensures Start().Recounted()
  {
    CountZeros(Start().last10);
    CountZeros(Start().last100);
  }

  /** A missing packet leaves the counters exact. */
  lemma {:induction false} MissRecounts(t: Tally, n: nat)
    requires t.Recounted()
    ensures Miss(t, n).Recounted()
  {
    hide Positive, Sum;
    CountUpdate(t.last10, n % 10, 0);
    CountUpdate(t.last100, n % 100, 0);
  }

  lemma {:induction false} MissAllRecounts(t: Tally, low: nat, high: nat)
    requires t.Recounted()
    ensures MissAll(t, low, high).Recounted()
    decreases high - low
  {
    hide Miss;
    if low < high {
      MissRecounts(t, low);
      MissAllRecounts(Miss(t, low), low + 1, high);
    }
  }

  /** A good packet leaves the counters exact. */
  lemma {:induction false} AcceptRecounts(t: Tally, n: nat, plen: nat)
    requires t.Recounted() && plen > 0
    ensures Accept(t, n, plen).Recounted()
  {
    hide Positive, Sum;
    CountUpdate(t.last10, n % 10, plen);
    CountUpdate(t.last100, n % 100, plen);
  }

  // -------------------------------------------------------- what the rings hold

  /** The size of the packet of that number, zero if there is none. */
  ghost function SizeOf(ps: seq<Packet>, x: int): nat {
    if ps == [] then 0
    else if ps[|ps| - 1].number == x then ps[|ps| - 1].Length()
    else SizeOf(ps[..|ps| - 1], x)
  }

  /** Each of the last |ring| numbers, up to m, has its packet's size in its slot. */
  ghost predicate Holds(ring: seq<nat>, m: int, ps: seq<Packet>)
    requires ring != []
  {
    forall x :: m - |ring| < x <= m ==> ring[x % |ring|] == SizeOf(ps, x)
  }

  lemma {:induction false} Distribute(n: int, a: int, b: int)
    ensures n * a - n * b == n * (a - b)
  {
  }

  lemma {:induction false} NotNegative(n: nat, d: nat)
    ensures n * d >= 0
  {
  }

  /** A multiple other than zero is at least one step away from it. */
  lemma {:induction false} Multiple(n: nat, d: int)
    ensures d >= 1 ==> n * d >= n
    ensures d <= -1 ==> n * d + n <= 0
    ensures d == 0 ==> n * d == 0
  {
    if d >= 1 {
      NotNegative(n, d - 1);
      Distribute(n, d, 1);
    } else if d <= -1 {
      NotNegative(n, -d - 1);
      Distribute(n, -d, 1);
      Distribute(n, 0, d);
    }
  }

  lemma {:induction false} DivMod(y: int, n: nat)
    requires n > 0
    ensures y == n * (y / n) + y % n && 0 <= y % n < n
  {
  }

  /** A quotient and a remainder in range are the quotient and the remainder. */
  lemma {:induction false} DivModUnique(y: int, n: nat, q: int, r: nat)
    requires y == n * q + r && r < n
    ensures y / n == q && y % n == r
  {
    var p := y / n;
    DivMod(y, n);
    Distribute(n, q, p);
    Multiple(n, q - p);
  }

  lemma {:induction false} SlotsDiffer(x: int, y: int, n: nat)
    requires 0 < y - x < n
    ensures x % n != y % n
  {
    var p, q := x / n, y / n;
    DivMod(x, n);
    DivMod(y, n);
    Distribute(n, q, p);
    Multiple(n, q - p);
  }

  /** Storing a size under the next number moves the window on by one. */
  lemma {:induction false} StoreNext(ring: seq<nat>, m: int, ps: seq<Packet>, qs: seq<Packet>, size: nat)
    requires ring != [] && Holds(ring, m, ps)
    requires size == SizeOf(qs, m + 1)
    requires forall x :: x <= m ==> SizeOf(qs, x) == SizeOf(ps, x)
    ensures Holds(ring[(m + 1) % |ring| := size], m + 1, qs)
  {
    hide SizeOf;
    var n := |ring|;
    var r := ring[(m + 1) % n := size];
    forall x | m + 1 - n < x <= m + 1
      ensures r[x % n] == SizeOf(qs, x)
    {
      if x <= m {
        SlotsDiffer(x, m + 1, n);
        assert SizeOf(qs, x) == SizeOf(ps, x);
      }
    }
  }

  ghost predicate BothHold(t: Tally, m: int, ps: seq<Packet>) {
    t.Sized() && Holds(t.last10, m, ps) && Holds(t.last100, m, ps)
  }

  /** Nothing has arrived under a number above the last. */
  ghost predicate Below(ps: seq<Packet>, m: int) {
    forall i :: 0 <= i < |ps| ==> ps[i].number < m
  }

  lemma {:induction false} SizeAbove(ps: seq<Packet>, m: int, x: int)
    requires Below(ps, m) && x >= m
    ensures SizeOf(ps, x) == 0
  {
    if ps != [] {
      SizeAbove(ps[..|ps| - 1], m, x);
    }
  }

  lemma {:induction false} MissAllHolds(t: Tally, low: nat, high: nat, ps: seq<Packet>)
    requires BothHold(t, low - 1, ps) && Below(ps, low) && low <= high
    ensures BothHold(MissAll(t, low, high), high - 1, ps)
    ensures MissAll(t, low, high).nBad == t.nBad + (high - low)
    decreases high - low
  {
    hide Holds, SizeOf;
    if low < high {
      SizeAbove(ps, low, low);
      StoreNext(t.last10, low - 1, ps, ps, 0);
      StoreNext(t.last100, low - 1, ps, ps, 0);
      MissAllHolds(Miss(t, low), low + 1, high, ps);
    }
  }

  lemma {:induction false} AcceptHolds(t: Tally, p: Packet, ps: seq<Packet>)
    requires BothHold(t, p.number - 1, ps) && Below(ps, p.number)
    ensures BothHold(Accept(t, p.number, p.Length()), p.number, ps + [p])
  {
    hide Holds;
    var qs := ps + [p];
    assert qs[..|qs| - 1] == ps;
    StoreNext(t.last10, p.number - 1, ps, qs, p.Length());
    StoreNext(t.last100, p.number - 1, ps, qs, p.Length());
  }
}
