/** The end of a run: the occupied slots moved to the front of the slot array, then that prefix
    sorted by name, which is the order in which the results are printed. */
module Report {
  import opened Bytes
  import opened Aggregate
  import opened Slots

  /** The occupied slots in slot order. */
  function Occupied(s: seq<Entry>): (o: seq<Entry>)
    ensures |o| <= |s|
    ensures forall i :: 0 <= i < |o| ==> o[i].occupied
    decreases |s|
  {
    if |s| == 0 then []
    else Occupied(s[..|s| - 1]) + (if s[|s| - 1].occupied then [s[|s| - 1]] else [])
  }

  /** The compaction loop: `a[count++] = a[i]` for every occupied slot `i`. Afterwards the prefix
      holds exactly the occupied slots in their order, and the slots from `count` on are as
      they were. */
  method Compact(a: array<Entry>) returns (count: nat)
    modifies a
    ensures count <= a.Length
    ensures a[..count] == Occupied(old(a[..]))
    ensures a[count..] == old(a[count..])
  {
    ghost var s := a[..];
    count := 0;
    var i := 0;
    while i < a.Length
      invariant count <= i <= a.Length
      invariant a[..count] == Occupied(s[..i])
      invariant forall k :: count <= k < a.Length ==> a[k] == s[k]
    {
      assert s[..i + 1][..i] == s[..i];
      if a[i].occupied {
        a[count] := a[i];
        count := count + 1;
      }
      i := i + 1;
    }
    assert s[..a.Length] == s;
  }

  /** The compacted prefix stands for the same aggregate and count as the whole slot array. */
  lemma {:induction false} OccupiedContents(buf: seq<byte>, s: seq<Entry>)
    ensures ContentsOf(buf, Occupied(s)) == ContentsOf(buf, s)
    ensures CountSum(Occupied(s)) == CountSum(s)
    decreases |s|
  {
    if |s| > 0 {
      var p := s[..|s| - 1];
      var e := s[|s| - 1];
      OccupiedContents(buf, p);
      var o := Occupied(p);
      if e.occupied {
        var t := o + [e];
        assert Occupied(s) == t;
        assert t[..|t| - 1] == o;
      } else {
        assert Occupied(s) == o;
      }
    }
  }

  /** The compacted prefix holds only occupied slots, each one of the array's. */
  lemma {:induction false} OccupiedShape(s: seq<Entry>)
    ensures forall i :: 0 <= i < |Occupied(s)| ==> Occupied(s)[i].occupied
    ensures multiset(Occupied(s)) <= multiset(s)
    decreases |s|
  {
    if |s| > 0 {
      var p := s[..|s| - 1];
      assert s == p + [s[|s| - 1]];
      OccupiedShape(p);
    }
  }

  /** The compacted prefix of a table with distinct names holds distinct names, one slot per key. */
  lemma {:induction false} OccupiedDistinct(buf: seq<byte>, s: seq<Entry>)
    requires Distinct(buf, s)
    ensures Distinct(buf, Occupied(s))
    ensures |Occupied(s)| == |ContentsOf(buf, s).Keys|
    decreases |s|
  {
    if |s| > 0 {
      var p := s[..|s| - 1];
      var e := s[|s| - 1];
      DistinctPrefix(buf, s, |s| - 1);
      OccupiedDistinct(buf, p);
      OccupiedContents(buf, p);
      OccupiedShape(p);
      var o := Occupied(p);
      if e.occupied {
        PrefixFresh(buf, s, |s| - 1);
        forall i | 0 <= i < |o| ensures NameOf(buf, o[i]) != NameOf(buf, e) {
          ContentsHas(buf, o, i);
        }
      }
    }
    OccupiedContents(buf, s);
    OccupiedShape(s);
    FullTableKeys(buf, Occupied(s));
  }

  /** Ascending by name, strictly: the order of `a.name < b.name` on distinct names. */
  predicate SortedByName(buf: seq<byte>, s: seq<Entry>) {
    forall i, j :: 0 <= i < j < |s| ==> Less(NameOf(buf, s[i]), NameOf(buf, s[j]))
  }

  /** `e` placed before the first entry whose name is greater. */
  function Insert(buf: seq<byte>, xs: seq<Entry>, e: Entry): (r: seq<Entry>)
    ensures multiset(r) == multiset(xs) + multiset{e}
    decreases |xs|
  {
    if |xs| == 0 then [e]
    else if Less(NameOf(buf, e), NameOf(buf, xs[0])) then [e] + xs
    else
      assert xs == [xs[0]] + xs[1..];
      [xs[0]] + Insert(buf, xs[1..], e)
  }

  /** The order `std::sort` establishes, as an insertion sort by name. */
  function SortByName(buf: seq<byte>, s: seq<Entry>): (r: seq<Entry>)
    ensures multiset(r) == multiset(s)
    decreases |s|
  {
    if |s| == 0 then []
    else
      assert s == s[..|s| - 1] + [s[|s| - 1]];
      Insert(buf, SortByName(buf, s[..|s| - 1]), s[|s| - 1])
  }

  /** Inserting a name that is not yet present keeps the order strict and adds exactly `e`. */
  lemma {:induction false} InsertSorted(buf: seq<byte>, xs: seq<Entry>, e: Entry)
    requires SortedByName(buf, xs)
    requires forall i :: 0 <= i < |xs| ==> NameOf(buf, xs[i]) != NameOf(buf, e)
    ensures multiset(Insert(buf, xs, e)) == multiset(xs) + multiset{e}
    ensures SortedByName(buf, Insert(buf, xs, e))
    decreases |xs|
  {
    if |xs| > 0 {
      var x := xs[0];
      assert xs == [x] + xs[1..];
      if Less(NameOf(buf, e), NameOf(buf, x)) {
        InsertFront(buf, xs, e);
      } else {
        LessTotal(NameOf(buf, e), NameOf(buf, x));
        InsertSorted(buf, xs[1..], e);
        InsertBehind(buf, xs, e);
      }
    }
  }

  lemma InsertFront(buf: seq<byte>, xs: seq<Entry>, e: Entry)
    requires SortedByName(buf, xs) && |xs| > 0 && Less(NameOf(buf, e), NameOf(buf, xs[0]))
    ensures SortedByName(buf, [e] + xs)
  {
    var r := [e] + xs;
    forall j | 1 < j < |r| ensures Less(NameOf(buf, e), NameOf(buf, r[j])) {
      LessTransitive(NameOf(buf, e), NameOf(buf, xs[0]), NameOf(buf, r[j]));
    }
  }

  lemma InsertBehind(buf: seq<byte>, xs: seq<Entry>, e: Entry)
    requires SortedByName(buf, xs) && |xs| > 0 && Less(NameOf(buf, xs[0]), NameOf(buf, e))
    requires multiset(Insert(buf, xs[1..], e)) == multiset(xs[1..]) + multiset{e}
    requires SortedByName(buf, Insert(buf, xs[1..], e))
    ensures SortedByName(buf, [xs[0]] + Insert(buf, xs[1..], e))
  {
    var x, tail := xs[0], xs[1..];
    var ins := Insert(buf, tail, e);
    forall j | 0 <= j < |ins| ensures Less(NameOf(buf, x), NameOf(buf, ins[j])) {
      assert ins[j] in multiset(ins);
      if ins[j] != e {
        assert ins[j] in multiset(tail);
        var k :| 0 <= k < |tail| && tail[k] == ins[j];
        assert xs[k + 1] == tail[k];
      }
    }
    ConsSorted(buf, x, ins);
  }

  /** An entry whose name is below every name of a sorted sequence may go in front of it. */
  lemma ConsSorted(buf: seq<byte>, x: Entry, ys: seq<Entry>)
    requires SortedByName(buf, ys)
    requires forall j :: 0 <= j < |ys| ==> Less(NameOf(buf, x), NameOf(buf, ys[j]))
    ensures SortedByName(buf, [x] + ys)
  {
    var r := [x] + ys;
    forall i, j | 0 <= i < j < |r| ensures Less(NameOf(buf, r[i]), NameOf(buf, r[j])) {
      assert r[j] == ys[j - 1];
      if i > 0 {
        assert r[i] == ys[i - 1];
      }
    }
  }

  /** Sorting entries with distinct names permutes them into strictly ascending name order. */
  lemma {:induction false} SortFacts(buf: seq<byte>, s: seq<Entry>)
    requires Distinct(buf, s)
    requires forall i :: 0 <= i < |s| ==> s[i].occupied
    ensures multiset(SortByName(buf, s)) == multiset(s)
    ensures SortedByName(buf, SortByName(buf, s))
    decreases |s|
  {
    if |s| > 0 {
      var p := s[..|s| - 1];
      var e := s[|s| - 1];
      DistinctPrefix(buf, s, |s| - 1);
      SortFacts(buf, p);
      var xs := SortByName(buf, p);
      LastIsNew(buf, s, xs);
      InsertSorted(buf, xs, e);
    }
  }

  /** Under distinct names, the last entry's name is in no arrangement of the entries before it. */
  lemma LastIsNew(buf: seq<byte>, s: seq<Entry>, xs: seq<Entry>)
    requires Distinct(buf, s) && |s| > 0 && multiset(xs) == multiset(s[..|s| - 1])
    requires forall i :: 0 <= i < |s| ==> s[i].occupied
    ensures forall i :: 0 <= i < |xs| ==> NameOf(buf, xs[i]) != NameOf(buf, s[|s| - 1])
  {
    var p := s[..|s| - 1];
    forall i | 0 <= i < |xs| ensures NameOf(buf, xs[i]) != NameOf(buf, s[|s| - 1]) {
      assert xs[i] in multiset(p);
      var j :| 0 <= j < |p| && p[j] == xs[i];
      assert s[j] == xs[i];
    }
  }

  /** The sorted arrangement stands for the same aggregate. */
  lemma SortContents(buf: seq<byte>, s: seq<Entry>)
    requires Distinct(buf, s)
    requires forall i :: 0 <= i < |s| ==> s[i].occupied
    ensures ContentsOf(buf, SortByName(buf, s)) == ContentsOf(buf, s)
  {
    SortFacts(buf, s);
    SortedDistinct(buf, SortByName(buf, s));
    PermutedContents(buf, s, SortByName(buf, s));
  }

  /** Strictly ascending names are distinct. */
  lemma SortedDistinct(buf: seq<byte>, s: seq<Entry>)
    requires SortedByName(buf, s)
    ensures Distinct(buf, s)
  {
    forall i, j | 0 <= i < j < |s| ensures NameOf(buf, s[i]) != NameOf(buf, s[j]) {
      LessIrreflexive(NameOf(buf, s[i]));
    }
  }

  /** Two arrangements of the same entries with distinct names stand for the same aggregate. */
  lemma PermutedContents(buf: seq<byte>, s: seq<Entry>, t: seq<Entry>)
    requires Distinct(buf, s) && Distinct(buf, t) && multiset(s) == multiset(t)
    ensures ContentsOf(buf, s) == ContentsOf(buf, t)
  {
    forall k | k in ContentsOf(buf, s) ensures k in ContentsOf(buf, t) && ContentsOf(buf, t)[k] == ContentsOf(buf, s)[k] {
      ContentsKeys(buf, s, k);
      var i :| 0 <= i < |s| && s[i].occupied && NameOf(buf, s[i]) == k;
      ContentsHas(buf, s, i);
      assert s[i] in multiset(t);
      var j :| 0 <= j < |t| && t[j] == s[i];
      ContentsHas(buf, t, j);
    }
    forall k | k in ContentsOf(buf, t) ensures k in ContentsOf(buf, s) {
      ContentsKeys(buf, t, k);
      var j :| 0 <= j < |t| && t[j].occupied && NameOf(buf, t[j]) == k;
      assert t[j] in multiset(s);
      var i :| 0 <= i < |s| && s[i] == t[j];
      ContentsHas(buf, s, i);
    }
  }

  /** `std::sort(a, a + count, by name)`: the prefix is replaced by its sorted arrangement, the
      rest of the array is untouched. */
  method SortPrefix(buf: seq<byte>, a: array<Entry>, count: nat)
    requires count <= a.Length
    modifies a
    ensures a[..count] == SortByName(buf, old(a[..count]))
    ensures a[count..] == old(a[count..])
  {
    var sorted := SortByName(buf, a[..count]);
    SortLength(buf, a[..count]);
    var k := 0;
    while k < count
      invariant 0 <= k <= count
      invariant a[..k] == sorted[..k]
      invariant a[count..] == old(a[count..])
    {
      a[k] := sorted[k];
      k := k + 1;
    }
  }

  lemma {:induction false} SortLength(buf: seq<byte>, s: seq<Entry>)
    ensures |SortByName(buf, s)| == |s|
    decreases |s|
  {
    if |s| > 0 {
      SortLength(buf, s[..|s| - 1]);
      InsertLength(buf, SortByName(buf, s[..|s| - 1]), s[|s| - 1]);
    }
  }

  lemma {:induction false} InsertLength(buf: seq<byte>, xs: seq<Entry>, e: Entry)
    ensures |Insert(buf, xs, e)| == |xs| + 1
    decreases |xs|
  {
    if |xs| > 0 && !Less(NameOf(buf, e), NameOf(buf, xs[0])) {
      InsertLength(buf, xs[1..], e);
    }
  }
}
