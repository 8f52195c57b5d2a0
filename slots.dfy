/** The slot array of an open-addressing table as a value: entries, linear-probe arithmetic, the
    table invariant, and the aggregate a slot array stands for. */
module Slots {
  import opened Bytes
  import opened KeyHash
  import opened Scanner
  import opened Aggregate

  /** One slot: the key slice, its statistics, and the explicit occupied flag. */
  datatype Entry = Entry(name: Slice, stats: Stats, occupied: bool)

  /** A value-initialised slot (`Entry table[TABLE_SIZE] = {}`). */
  const EMPTY: Entry := Entry(Slice(0, 0), Stats(0, 0, 0, 0), false)

  /** The slot `update_stats` writes where the probe for `name` stopped at `e`: a free slot
      becomes `{temp, temp, temp, 1}` under `name`, an occupied one takes one more value. */
  function Placed(e: Entry, name: Slice, temp: int): (p: Entry)
    ensures p.occupied && p.name == (if e.occupied then e.name else name)
    ensures Cnt(p) == Cnt(e) + 1
  {
    if e.occupied then Entry(e.name, Update(e.stats, temp), true) else Entry(name, Init(temp), true)
  }

  /** The slot the merge writes where the probe for `e`'s name stopped at `cur`: a free slot takes
      a copy of `e`, an occupied one combines its statistics with `e`'s. */
  function Absorbed(cur: Entry, e: Entry): (a: Entry)
    ensures a.occupied == (cur.occupied || e.occupied)
    ensures cur.occupied ==> a.name == cur.name
    ensures a.stats.cnt == (if cur.occupied then cur.stats.cnt else 0) + e.stats.cnt
  {
    if cur.occupied then Entry(cur.name, Merge(cur.stats, e.stats), true) else e
  }

  /** The bytes of a slot's name. */
  function NameOf(buf: seq<byte>, e: Entry): seq<byte> {
    View(buf, e.name)
  }

  /** The slot reached after `k` probe steps from `h`: `(h + k) % TABLE_SIZE`. */
  function Wrap(h: nat, k: nat): (i: nat)
    requires h < TABLE_SIZE && k < TABLE_SIZE
    ensures i < TABLE_SIZE && i == (h + k) % TABLE_SIZE
  {
    if h + k < TABLE_SIZE then h + k else h + k - TABLE_SIZE
  }

  /** How many probe steps lead from `h` to `i`. */
  function Dist(h: nat, i: nat): (d: nat)
    requires h < TABLE_SIZE && i < TABLE_SIZE
    ensures d < TABLE_SIZE && Wrap(h, d) == i
  {
    if i >= h then i - h else i + TABLE_SIZE - h
  }

  lemma DistWrap(h: nat, k: nat)
    requires h < TABLE_SIZE && k < TABLE_SIZE
    ensures Dist(h, Wrap(h, k)) == k
  {
  }

  /** The probe stops at a slot that is free or holds `key`. */
  predicate Stops(buf: seq<byte>, e: Entry, key: seq<byte>) {
    !e.occupied || NameOf(buf, e) == key
  }

  /** `idx` is where the probe for `key` stops: the first slot, cyclically from the key's home,
      that is free or holds `key`. */
  predicate IsProbeTarget(buf: seq<byte>, s: seq<Entry>, key: seq<byte>, idx: nat) {
    |s| == TABLE_SIZE && idx < TABLE_SIZE && Stops(buf, s[idx], key) &&
    forall k :: 0 <= k < Dist(Home(key), idx) ==> !Stops(buf, s[Wrap(Home(key), k)], key)
  }

  /** Occupied slots hold pairwise different names. */
  predicate Distinct(buf: seq<byte>, s: seq<Entry>) {
    forall i, j :: 0 <= i < j < |s| && s[i].occupied && s[j].occupied ==>
      NameOf(buf, s[i]) != NameOf(buf, s[j])
  }

  /** Every slot between the home of slot `i`'s name and `i` is occupied. */
  predicate Reachable(buf: seq<byte>, s: seq<Entry>, i: nat)
    requires |s| == TABLE_SIZE && i < TABLE_SIZE
  {
    var h := Home(NameOf(buf, s[i]));
    forall k :: 0 <= k < Dist(h, i) ==> s[Wrap(h, k)].occupied
  }

  /** The invariant of a table built only by linear-probe insertion. */
  predicate TableInv(buf: seq<byte>, s: seq<Entry>) {
    |s| == TABLE_SIZE && Distinct(buf, s) &&
    forall i :: 0 <= i < |s| && s[i].occupied ==> Reachable(buf, s, i)
  }

  /** The aggregate the slots stand for: each occupied slot's name mapped to its statistics. */
  function ContentsOf(buf: seq<byte>, s: seq<Entry>): Summary
    decreases |s|
  {
    if |s| == 0 then map[]
    else
      var m := ContentsOf(buf, s[..|s| - 1]);
      var e := s[|s| - 1];
      if e.occupied then m[NameOf(buf, e) := e.stats] else m
  }

  /** The count a slot contributes. */
  function Cnt(e: Entry): int {
    if e.occupied then e.stats.cnt else 0
  }

  /** Sum of `cnt` over the occupied slots. */
  function CountSum(s: seq<Entry>): int
    decreases |s|
  {
    if |s| == 0 then 0 else CountSum(s[..|s| - 1]) + Cnt(s[|s| - 1])
  }

  lemma DistinctPrefix(buf: seq<byte>, s: seq<Entry>, n: nat)
    requires Distinct(buf, s) && n <= |s|
    ensures Distinct(buf, s[..n])
  {
  }

  /** A name held by an occupied slot is a key of the contents, with that slot's statistics. */
  lemma {:induction false} ContentsHas(buf: seq<byte>, s: seq<Entry>, i: nat)
    requires Distinct(buf, s) && i < |s| && s[i].occupied
    ensures NameOf(buf, s[i]) in ContentsOf(buf, s)
    ensures ContentsOf(buf, s)[NameOf(buf, s[i])] == s[i].stats
    decreases |s|
  {
    if i < |s| - 1 {
      var p := s[..|s| - 1];
      DistinctPrefix(buf, s, |s| - 1);
      ContentsHas(buf, p, i);
      assert p[i] == s[i];
    }
  }

  /** Every key of the contents is the name of some occupied slot. */
  lemma {:induction false} ContentsKeys(buf: seq<byte>, s: seq<Entry>, k: seq<byte>)
    requires k in ContentsOf(buf, s)
    ensures exists i :: 0 <= i < |s| && s[i].occupied && NameOf(buf, s[i]) == k
    decreases |s|
  {
    var p := s[..|s| - 1];
    if !(s[|s| - 1].occupied && NameOf(buf, s[|s| - 1]) == k) {
      ContentsKeys(buf, p, k);
      var i :| 0 <= i < |p| && p[i].occupied && NameOf(buf, p[i]) == k;
      assert s[i] == p[i];
    }
  }

  /** Writing an occupied entry over the slot that holds its name, or over a free slot while no
      other slot holds that name, sets that name's statistics and leaves the other keys alone. */
  lemma ContentsUpdate(buf: seq<byte>, s: seq<Entry>, i: nat, e: Entry)
    requires i < |s| && Distinct(buf, s) && e.occupied
    requires forall j :: 0 <= j < |s| && j != i && s[j].occupied ==> NameOf(buf, s[j]) != NameOf(buf, e)
    requires s[i].occupied ==> NameOf(buf, s[i]) == NameOf(buf, e)
    ensures Distinct(buf, s[i := e])
    ensures ContentsOf(buf, s[i := e]) == ContentsOf(buf, s)[NameOf(buf, e) := e.stats]
  {
    var t := s[i := e];
    var l := ContentsOf(buf, t);
    var r := ContentsOf(buf, s)[NameOf(buf, e) := e.stats];
    assert Distinct(buf, t);
    ContentsHas(buf, t, i);
    forall k | k in l ensures k in r && l[k] == r[k] {
      ContentsKeys(buf, t, k);
      var j :| 0 <= j < |t| && t[j].occupied && NameOf(buf, t[j]) == k;
      ContentsHas(buf, t, j);
      if j != i {
        ContentsHas(buf, s, j);
      }
    }
    forall k | k in r ensures k in l {
      if k != NameOf(buf, e) {
        ContentsKeys(buf, s, k);
        var j :| 0 <= j < |s| && s[j].occupied && NameOf(buf, s[j]) == k;
        ContentsHas(buf, t, j);
      }
    }
  }

  /** When every slot is occupied with distinct names, there are as many keys as slots. */
  lemma {:induction false} FullTableKeys(buf: seq<byte>, s: seq<Entry>)
    requires Distinct(buf, s)
    requires forall i :: 0 <= i < |s| ==> s[i].occupied
    ensures |ContentsOf(buf, s).Keys| == |s|
    decreases |s|
  {
    if |s| > 0 {
      var p := s[..|s| - 1];
      DistinctPrefix(buf, s, |s| - 1);
      FullTableKeys(buf, p);
      var e := s[|s| - 1];
      if NameOf(buf, e) in ContentsOf(buf, p) {
        ContentsKeys(buf, p, NameOf(buf, e));
        assert false;
      }
      assert ContentsOf(buf, s).Keys == ContentsOf(buf, p).Keys + {NameOf(buf, e)};
    }
  }

  /** A table with fewer keys than slots has a free slot. */
  lemma FreeSlot(buf: seq<byte>, s: seq<Entry>)
    requires Distinct(buf, s) && |ContentsOf(buf, s).Keys| < |s|
    ensures exists i :: 0 <= i < |s| && !s[i].occupied
  {
    if forall i :: 0 <= i < |s| ==> s[i].occupied {
      FullTableKeys(buf, s);
    }
  }

  lemma {:induction false} CountSumUpdate(s: seq<Entry>, i: nat, e: Entry)
    requires i < |s|
    ensures CountSum(s[i := e]) == CountSum(s) - Cnt(s[i]) + Cnt(e)
    decreases |s|
  {
    var t := s[i := e];
    assert t[..|t| - 1] == if i < |s| - 1 then s[..|s| - 1][i := e] else s[..|s| - 1];
    if i < |s| - 1 {
      CountSumUpdate(s[..|s| - 1], i, e);
    }
  }

  /** When the probe for `key` stops at a free slot, no slot holds `key`: an occupied slot holding
      it would lie on the probe path, since every slot from its home to it is occupied. */
  lemma ProbeAbsent(buf: seq<byte>, s: seq<Entry>, key: seq<byte>, idx: nat)
    requires TableInv(buf, s) && IsProbeTarget(buf, s, key, idx) && !s[idx].occupied
    ensures forall j :: 0 <= j < |s| && s[j].occupied ==> NameOf(buf, s[j]) != key
  {
    var h := Home(key);
    forall j | 0 <= j < |s| && s[j].occupied
      ensures NameOf(buf, s[j]) != key
    {
      if NameOf(buf, s[j]) == key {
        assert Reachable(buf, s, j);
        // With d, e the probe distances of j and idx from key's home: d < e puts j, which holds
        // key, on the probe path before idx; d > e puts the free idx on the occupied run from the
        // home to j; d == e makes j and idx the same slot.
        var d, e := Dist(h, j), Dist(h, idx);
        assert false;
      }
    }
  }

  /** Storing an entry for `key` where its probe stops keeps the table invariant and sets that
      key's statistics. */
  lemma WriteAtTarget(buf: seq<byte>, s: seq<Entry>, key: seq<byte>, idx: nat, e: Entry)
    requires TableInv(buf, s) && IsProbeTarget(buf, s, key, idx)
    requires e.occupied && NameOf(buf, e) == key
    ensures TableInv(buf, s[idx := e])
    ensures ContentsOf(buf, s[idx := e]) == ContentsOf(buf, s)[key := e.stats]
  {
    var t := s[idx := e];
    if !s[idx].occupied {
      ProbeAbsent(buf, s, key, idx);
    } else {
      forall j | 0 <= j < |s| && j != idx && s[j].occupied
        ensures NameOf(buf, s[j]) != key
      {
        assert NameOf(buf, s[idx]) == key;
      }
    }
    ContentsUpdate(buf, s, idx, e);
    forall i | 0 <= i < |t| && t[i].occupied ensures Reachable(buf, t, i) {
      if i == idx {
        var h := Home(key);
        forall k | 0 <= k < Dist(h, idx) ensures t[Wrap(h, k)].occupied {
          DistWrap(h, k);
        }
      } else {
        assert Reachable(buf, s, i);
      }
    }
  }

  /** One more slot of a prefix: its name and statistics join the contents, its count the sum. */
  lemma ContentsExtend(buf: seq<byte>, s: seq<Entry>, j: nat)
    requires j < |s|
    ensures ContentsOf(buf, s[..j + 1]) ==
            if s[j].occupied then ContentsOf(buf, s[..j])[NameOf(buf, s[j]) := s[j].stats]
            else ContentsOf(buf, s[..j])
    ensures CountSum(s[..j + 1]) == CountSum(s[..j]) + Cnt(s[j])
  {
    assert s[..j + 1][..j] == s[..j];
  }

  /** With distinct names, the name of occupied slot `j` is not among the names before it. */
  lemma PrefixFresh(buf: seq<byte>, s: seq<Entry>, j: nat)
    requires Distinct(buf, s) && j < |s| && s[j].occupied
    ensures NameOf(buf, s[j]) !in ContentsOf(buf, s[..j])
  {
    if NameOf(buf, s[j]) in ContentsOf(buf, s[..j]) {
      ContentsKeys(buf, s[..j], NameOf(buf, s[j]));
      assert false;
    }
  }

  /** The keys of a prefix of the slots are keys of the whole. */
  lemma PrefixKeys(buf: seq<byte>, s: seq<Entry>, n: nat)
    requires Distinct(buf, s) && n <= |s|
    ensures ContentsOf(buf, s[..n]).Keys <= ContentsOf(buf, s).Keys
  {
    forall k | k in ContentsOf(buf, s[..n]) ensures k in ContentsOf(buf, s) {
      ContentsKeys(buf, s[..n], k);
      var i :| 0 <= i < n && s[..n][i].occupied && NameOf(buf, s[..n][i]) == k;
      ContentsHas(buf, s, i);
    }
  }

  /** The occupied slots of `s`, in slot order, absorbed one by one into `m`: what the merge loop
      of `main` builds in the master table from a worker's slot array. */
  function AbsorbSlots(buf: seq<byte>, m: Summary, s: seq<Entry>): Summary
    decreases |s|
  {
    if |s| == 0 then m
    else
      var r := AbsorbSlots(buf, m, s[..|s| - 1]);
      var e := s[|s| - 1];
      if e.occupied then Absorb(r, NameOf(buf, e), e.stats) else r
  }

  /** Absorbing slots adds exactly the names the slots hold. */
  lemma {:induction false} AbsorbSlotsKeys(buf: seq<byte>, m: Summary, s: seq<Entry>)
    ensures AbsorbSlots(buf, m, s).Keys == m.Keys + ContentsOf(buf, s).Keys
    decreases |s|
  {
    if |s| > 0 {
      AbsorbSlotsKeys(buf, m, s[..|s| - 1]);
    }
  }

  /** With distinct names, absorbing the slots one by one is the per-key combination with the
      aggregate the slots stand for. */
  lemma {:induction false} AbsorbSlotsIsCombine(buf: seq<byte>, m: Summary, s: seq<Entry>)
    requires Distinct(buf, s)
    ensures AbsorbSlots(buf, m, s) == Combine(m, ContentsOf(buf, s))
    decreases |s|
  {
    if |s| == 0 {
      CombineEmpty(m);
    } else {
      var j := |s| - 1;
      DistinctPrefix(buf, s, j);
      AbsorbSlotsIsCombine(buf, m, s[..j]);
      if s[j].occupied {
        PrefixFresh(buf, s, j);
        CombineSnoc(m, ContentsOf(buf, s[..j]), NameOf(buf, s[j]), s[j].stats);
      }
    }
  }

  lemma {:induction false} SubsetCard<T>(a: set<T>, b: set<T>)
    requires a <= b
    ensures |a| <= |b|
    decreases |a|
  {
    if a != {} {
      var x :| x in a;
      SubsetCard(a - {x}, b - {x});
    }
  }
}
