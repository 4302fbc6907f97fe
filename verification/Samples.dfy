/**
 Time-tagged samples and the ordered sample set that the merge programs share:
 the comparator `FullSampleComparator` and the `SortedSampleSet3` built on it.
 A set is represented by its strictly increasing enumeration.
 */
module Samples {

  type Byte = b: int | 0 <= b < 256

  /** A raw sample: time tag in microseconds, sample id, and data bytes. */
  datatype Sample = Sample(time: int, id: nat, data: seq<Byte>)

  /** `memcmp(a, b, n) < 0` on two blocks of the same length. */
  predicate MemLess(a: seq<Byte>, b: seq<Byte>)
    requires |a| == |b|
  {
    a != [] && (a[0] < b[0] || (a[0] == b[0] && MemLess(a[1..], b[1..])))
  }

  /** The comparator of the sorted set: time, then id, then length, then data. */
  predicate Less(x: Sample, y: Sample) {
    if x.time > y.time then false
    else if x.time == y.time then
      if x.id > y.id then false
      else if x.id == y.id then
        if |x.data| > |y.data| then false
        else if |x.data| == |y.data| then MemLess(x.data, y.data)
        else true
      else true
    else true
  }

  lemma {:induction false} MemLessTransitive(a: seq<Byte>, b: seq<Byte>, c: seq<Byte>)
    requires |a| == |b| == |c| && MemLess(a, b) && MemLess(b, c)
    ensures MemLess(a, c)
  {
    if a[0] == b[0] && b[0] == c[0] {
      MemLessTransitive(a[1..], b[1..], c[1..]);
    }
  }

  lemma {:induction false} MemLessTrichotomy(a: seq<Byte>, b: seq<Byte>)
    requires |a| == |b|
    ensures !(MemLess(a, b) && MemLess(b, a))
    ensures MemLess(a, b) || MemLess(b, a) <==> a != b
  {
    if a != [] {
      MemLessTrichotomy(a[1..], b[1..]);
      assert a == [a[0]] + a[1..] && b == [b[0]] + b[1..];
    }
  }

  /** The comparator is a strict total order on whole samples: two samples compare equal only when they are equal. */
  lemma {:induction false} LessTrichotomy(x: Sample, y: Sample)
    ensures !(Less(x, y) && Less(y, x))
    ensures Less(x, y) || Less(y, x) <==> x != y
  {
    if |x.data| == |y.data| {
      MemLessTrichotomy(x.data, y.data);
    }
  }

  /** Blocks of bytes compare at their first difference. */
  lemma {:induction false} MemLessAtFirstDifference(a: seq<Byte>, b: seq<Byte>, k: nat)
    requires |a| == |b| && k < |a| && a[..k] == b[..k] && a[k] != b[k]
    ensures MemLess(a, b) <==> a[k] < b[k]
  {
    if k > 0 {
      assert a[0] == a[..k][0] && b[0] == b[..k][0];
      assert a[1..][..k - 1] == a[..k][1..] && b[1..][..k - 1] == b[..k][1..];
      MemLessAtFirstDifference(a[1..], b[1..], k - 1);
    }
  }

  /** The order is by time, then id, then length, then bytes. */
  lemma {:induction false} LessIsLexicographic(x: Sample, y: Sample)
    ensures x.time < y.time ==> Less(x, y)
    ensures x.time == y.time && x.id < y.id ==> Less(x, y)
    ensures x.time == y.time && x.id == y.id && |x.data| < |y.data| ==> Less(x, y)
    ensures x.time == y.time && x.id == y.id && |x.data| == |y.data| ==> (Less(x, y) <==> MemLess(x.data, y.data))
  {
  }

  lemma {:induction false} LessTransitive(x: Sample, y: Sample, z: Sample)
    requires Less(x, y) && Less(y, z)
    ensures Less(x, z)
  {
    if x.time == y.time == z.time && x.id == y.id == z.id && |x.data| == |y.data| == |z.data| {
      MemLessTransitive(x.data, y.data, z.data);
    }
  }

  /** Strictly increasing in the comparator's order. */
  ghost predicate Sorted(s: seq<Sample>) {
    forall i, j :: 0 <= i < j < |s| ==> Less(s[i], s[j])
  }

  /** `set::insert`: a sample equal to one already present is not inserted. */
  function Insert(s: seq<Sample>, x: Sample): (r: seq<Sample>) {
    if s == [] || Less(x, s[0]) then [x] + s
    else if Less(s[0], x) then [s[0]] + Insert(s[1..], x)
    else s
  }

  lemma {:induction false} BelowAllIsAbsent(s: seq<Sample>, x: Sample)
    requires Sorted(s) && (s == [] || Less(x, s[0]))
    ensures forall i :: 0 <= i < |s| ==> Less(x, s[i])
    ensures x !in s
  {
    forall i | 0 <= i < |s| ensures Less(x, s[i]) && s[i] != x {
      if i > 0 { LessTransitive(x, s[0], s[i]); }
      LessTrichotomy(x, s[i]);
    }
  }

  lemma {:induction false} InsertContents(s: seq<Sample>, x: Sample)
    requires Sorted(s)
    ensures multiset(Insert(s, x)) == if x in s then multiset(s) else multiset(s) + multiset{x}
    ensures x in s ==> Insert(s, x) == s
  {
    if s == [] || Less(x, s[0]) {
      BelowAllIsAbsent(s, x);
    } else {
      LessTrichotomy(x, s[0]);
      assert s == [s[0]] + s[1..];
      if Less(s[0], x) {
        InsertContents(s[1..], x);
      }
    }
  }

  lemma {:induction false} InsertSorted(s: seq<Sample>, x: Sample)
    requires Sorted(s)
    ensures Sorted(Insert(s, x))
  {
    if s == [] || Less(x, s[0]) {
      BelowAllIsAbsent(s, x);
    } else if Less(s[0], x) {
      InsertSorted(s[1..], x);
      InsertContents(s[1..], x);
      var r := Insert(s[1..], x);
      forall i | 0 <= i < |r| ensures Less(s[0], r[i]) {
        assert r[i] in multiset(r);
        if r[i] != x { assert r[i] in s[1..]; }
      }
    }
  }

  /** Insertion keeps the set sorted, and adds exactly the new sample unless it is already there. */
  lemma {:induction false} InsertIsSetInsertion(s: seq<Sample>, x: Sample)
    requires Sorted(s)
    ensures Sorted(Insert(s, x))
    ensures x in s ==> Insert(s, x) == s
    ensures x !in s ==> multiset(Insert(s, x)) == multiset(s) + multiset{x} && |Insert(s, x)| == |s| + 1
    ensures forall y :: y in Insert(s, x) <==> y in s || y == x
  {
    InsertSorted(s, x);
    InsertContents(s, x);
    var r := Insert(s, x);
    assert |multiset(r)| == |r| && |multiset(s)| == |s|;
    forall y ensures y in r <==> y in s || y == x {
      assert y in multiset(r) <==> y in r;
      assert y in multiset(s) <==> y in s;
    }
  }

  /** A default-constructed sample given a time tag: what `lower_bound` is called with. */
  function Dummy(t: int): (d: Sample) { Sample(t, 0, []) }

  /** `set::lower_bound`: the position of the first sample not less than `x`. */
  function LowerBound(s: seq<Sample>, x: Sample): (k: nat)
    ensures k <= |s|
    ensures forall i :: 0 <= i < k ==> Less(s[i], x)
    ensures k < |s| ==> !Less(s[k], x)
  {
    if s == [] || !Less(s[0], x) then 0 else 1 + LowerBound(s[1..], x)
  }

  /** Searching with a dummy sample splits the set exactly by time tag. */
  lemma {:induction false} LowerBoundSplitsByTime(s: seq<Sample>, t: int)
    requires Sorted(s)
    ensures forall i :: 0 <= i < LowerBound(s, Dummy(t)) ==> s[i].time < t
    ensures forall i :: LowerBound(s, Dummy(t)) <= i < |s| ==> s[i].time >= t
  {
    var k := LowerBound(s, Dummy(t));
    if k < |s| {
      assert s[k].time >= t;
      forall i | k < i < |s| ensures s[i].time >= t {
        assert Less(s[k], s[i]);
      }
    }
  }

  lemma {:induction false} SortedSplit(s: seq<Sample>, k: nat)
    requires Sorted(s) && k <= |s|
    ensures Sorted(s[..k]) && Sorted(s[k..]) && s == s[..k] + s[k..]
  {
  }

  /** A strictly increasing sequence is determined by its elements. */
  lemma {:induction false} SortedUnique(a: seq<Sample>, b: seq<Sample>)
    requires Sorted(a) && Sorted(b)
    requires forall s :: s in a <==> s in b
    ensures a == b
  {
    if a == [] {
      assert forall i :: 0 <= i < |b| ==> b[i] in b;
    } else {
      assert a[0] in b;
      assert b[0] in a;
      SortedHeadLeast(a, b[0]);
      SortedHeadLeast(b, a[0]);
      LessTrichotomy(a[0], b[0]);
      forall s ensures s in a[1..] <==> s in b[1..] {
        SortedTail(a, s);
        SortedTail(b, s);
      }
      SortedUnique(a[1..], b[1..]);
    }
  }

  lemma {:induction false} SortedHeadLeast(a: seq<Sample>, x: Sample)
    requires Sorted(a) && x in a
    ensures a[0] == x || Less(a[0], x)
  {
  }

  lemma {:induction false} SortedTail(a: seq<Sample>, x: Sample)
    requires Sorted(a) && a != []
    ensures x in a[1..] <==> x in a && x != a[0]
  {
    LessTrichotomy(a[0], a[0]);
    assert a == [a[0]] + a[1..];
  }
}
