/** Running statistics per key, and the abstract aggregate every table and map in the system is
    measured against: a finite map from key bytes to `Stats`. */
module Aggregate {
  import opened Bytes
  import opened Scanner

  /** min, max and sum of the values (times ten) seen for one key, and how many there were. */
  datatype Stats = Stats(min: int, max: int, sum: int, cnt: int)

  /** The statistics of a key seen once, with value `t`. */
  function Init(t: int): (s: Stats)
    ensures s == TrueStats([t])
  {
    assert [t][..0] == [] && SeqSum([t]) == t;
    Stats(t, t, t, 1)
  }

  /** One more value `t` for a key already present (the `else` branch of `update_stats`). */
  function Update(s: Stats, t: int): (r: Stats)
    ensures r.min <= s.min && r.min <= t && (r.min == s.min || r.min == t)
    ensures r.max >= s.max && r.max >= t && (r.max == s.max || r.max == t)
    ensures r.sum == s.sum + t && r.cnt == s.cnt + 1
  {
    Stats(if t < s.min then t else s.min, if t > s.max then t else s.max, s.sum + t, s.cnt + 1)
  }

  /** Two aggregates of one key combined, as the merge loop does: extremes, then sums. */
  function Merge(a: Stats, b: Stats): (r: Stats)
    ensures r.min <= a.min && r.min <= b.min && (r.min == a.min || r.min == b.min)
    ensures r.max >= a.max && r.max >= b.max && (r.max == a.max || r.max == b.max)
    ensures r.sum == a.sum + b.sum && r.cnt == a.cnt + b.cnt
  {
    Stats(if b.min < a.min then b.min else a.min, if b.max > a.max then b.max else a.max,
          a.sum + b.sum, a.cnt + b.cnt)
  }

  /** Aggregates keyed by the bytes of the name (names are compared by content). */
  type Summary = map<seq<byte>, Stats>

  /** One record applied to an aggregate. */
  function Apply(m: Summary, k: seq<byte>, t: int): (r: Summary)
    ensures r.Keys == m.Keys + {k}
  {
    if k in m then m[k := Update(m[k], t)] else m[k := Init(t)]
  }

  /** The records applied in order. */
  function Fold(buf: seq<byte>, m: Summary, rs: seq<Record>): (r: Summary)
    ensures m.Keys <= r.Keys
    decreases |rs|
  {
    if |rs| == 0 then m else Fold(buf, Apply(m, View(buf, rs[0].key), rs[0].temp), rs[1..])
  }

  /** Per-key combination of two aggregates: what merging one table into another yields. */
  function Combine(m1: Summary, m2: Summary): (r: Summary)
    ensures r.Keys == m1.Keys + m2.Keys
  {
    map k | k in m1.Keys + m2.Keys ::
      if k in m1 && k in m2 then Merge(m1[k], m2[k]) else if k in m1 then m1[k] else m2[k]
  }

  /** The distinct names of the records. */
  function KeySet(buf: seq<byte>, rs: seq<Record>): set<seq<byte>> {
    set i | 0 <= i < |rs| :: View(buf, rs[i].key)
  }

  /** The values recorded for key `k`, in order. */
  function ValuesOf(buf: seq<byte>, rs: seq<Record>, k: seq<byte>): seq<int> {
    if |rs| == 0 then []
    else
      var last := rs[|rs| - 1];
      ValuesOf(buf, rs[..|rs| - 1], k) + (if View(buf, last.key) == k then [last.temp] else [])
  }

  function SeqMin(vs: seq<int>): int
    requires |vs| > 0
  {
    if |vs| == 1 then vs[0]
    else
      var m := SeqMin(vs[..|vs| - 1]);
      if vs[|vs| - 1] < m then vs[|vs| - 1] else m
  }

  function SeqMax(vs: seq<int>): int
    requires |vs| > 0
  {
    if |vs| == 1 then vs[0]
    else
      var m := SeqMax(vs[..|vs| - 1]);
      if vs[|vs| - 1] > m then vs[|vs| - 1] else m
  }

  function SeqSum(vs: seq<int>): int {
    if |vs| == 0 then 0 else SeqSum(vs[..|vs| - 1]) + vs[|vs| - 1]
  }

  /** The exact statistics of a non-empty list of values. */
  function TrueStats(vs: seq<int>): Stats
    requires |vs| > 0
  {
    Stats(SeqMin(vs), SeqMax(vs), SeqSum(vs), |vs|)
  }

  /** SeqMin and SeqMax are the least and greatest of the values, and both occur among them. */
  lemma {:induction false} SeqMinMax(vs: seq<int>)
    requires |vs| > 0
    ensures SeqMin(vs) in vs && SeqMax(vs) in vs
    ensures forall i :: 0 <= i < |vs| ==> SeqMin(vs) <= vs[i] <= SeqMax(vs)
  {
    if |vs| > 1 {
      var p := vs[..|vs| - 1];
      SeqMinMax(p);
      assert forall i :: 0 <= i < |p| ==> vs[i] == p[i];
    }
  }

  lemma FoldAppend(buf: seq<byte>, m: Summary, r1: seq<Record>, r2: seq<Record>)
    ensures Fold(buf, m, r1 + r2) == Fold(buf, Fold(buf, m, r1), r2)
    decreases |r1|
  {
    if |r1| > 0 {
      assert (r1 + r2)[1..] == r1[1..] + r2;
      FoldAppend(buf, Apply(m, View(buf, r1[0].key), r1[0].temp), r1[1..], r2);
    } else {
      assert r1 + r2 == r2;
    }
  }

  /** The last record of a non-empty sequence is applied last. */
  lemma FoldLast(buf: seq<byte>, m: Summary, rs: seq<Record>)
    requires |rs| > 0
    ensures Fold(buf, m, rs) ==
            Apply(Fold(buf, m, rs[..|rs| - 1]), View(buf, rs[|rs| - 1].key), rs[|rs| - 1].temp)
  {
    var p := rs[..|rs| - 1];
    assert rs == p + [rs[|rs| - 1]];
    FoldAppend(buf, m, p, [rs[|rs| - 1]]);
  }

  /** One more value for a key: its true statistics are those `update_stats` computes. */
  lemma TrueStatsSnoc(vs: seq<int>, t: int)
    ensures TrueStats(vs + [t]) == if |vs| == 0 then Init(t) else Update(TrueStats(vs), t)
  {
    var ws := vs + [t];
    assert ws[..|ws| - 1] == vs;
    if |vs| == 0 {
      assert ws == [t] && ws[..0] == [];
      assert SeqSum(ws) == SeqSum([]) + t;
    }
  }

  /** The aggregate of the records holds, for each name seen, exactly the true minimum, maximum,
      sum and count of that name's values; names never seen are absent. */
  lemma {:induction false} FoldIsTrueStats(buf: seq<byte>, rs: seq<Record>, k: seq<byte>)
    ensures k in Fold(buf, map[], rs) <==> |ValuesOf(buf, rs, k)| > 0
    ensures k in Fold(buf, map[], rs) ==> Fold(buf, map[], rs)[k] == TrueStats(ValuesOf(buf, rs, k))
  {
    if |rs| > 0 {
      var p := rs[..|rs| - 1];
      var last := rs[|rs| - 1];
      FoldLast(buf, map[], rs);
      FoldIsTrueStats(buf, p, k);
      var vs := ValuesOf(buf, p, k);
      if View(buf, last.key) == k {
        var ws := vs + [last.temp];
        assert ValuesOf(buf, rs, k) == ws;
        TrueStatsSnoc(vs, last.temp);
      } else {
        assert ValuesOf(buf, rs, k) == vs;
      }
    }
  }

  /** The keys after folding are the keys before plus the records' names. */
  lemma {:induction false} FoldKeys(buf: seq<byte>, m: Summary, rs: seq<Record>)
    ensures Fold(buf, m, rs).Keys == m.Keys + KeySet(buf, rs)
    decreases |rs|
  {
    if |rs| > 0 {
      var k := View(buf, rs[0].key);
      FoldKeys(buf, Apply(m, k, rs[0].temp), rs[1..]);
      assert KeySet(buf, rs) == {k} + KeySet(buf, rs[1..]) by {
        forall x | x in KeySet(buf, rs) ensures x in {k} + KeySet(buf, rs[1..]) {
          var i :| 0 <= i < |rs| && View(buf, rs[i].key) == x;
          if i > 0 { assert rs[1..][i - 1] == rs[i]; }
        }
        forall x | x in KeySet(buf, rs[1..]) ensures x in KeySet(buf, rs) {
          var i :| 0 <= i < |rs[1..]| && View(buf, rs[1..][i].key) == x;
          assert rs[i + 1] == rs[1..][i];
        }
      }
    } else {
      assert KeySet(buf, rs) == {};
    }
  }

  lemma MergeAssociative(a: Stats, b: Stats, c: Stats)
    ensures Merge(Merge(a, b), c) == Merge(a, Merge(b, c))
  {
  }

  lemma CombineAssociative(m1: Summary, m2: Summary, m3: Summary)
    ensures Combine(Combine(m1, m2), m3) == Combine(m1, Combine(m2, m3))
  {
    var l := Combine(Combine(m1, m2), m3);
    var r := Combine(m1, Combine(m2, m3));
    assert l.Keys == r.Keys;
    forall k | k in l.Keys ensures l[k] == r[k] {
      if k in m1 && k in m2 && k in m3 {
        MergeAssociative(m1[k], m2[k], m3[k]);
      }
    }
  }

  lemma CombineEmpty(m: Summary)
    ensures Combine(m, map[]) == m && Combine(map[], m) == m
  {
  }

  /** Applying one record is combining with that record's own aggregate. */
  lemma ApplyIsCombine(m: Summary, k: seq<byte>, t: int)
    ensures Apply(m, k, t) == Combine(m, map[k := Init(t)])
  {
    var l := Apply(m, k, t);
    var r := Combine(m, map[k := Init(t)]);
    assert l.Keys == r.Keys;
    forall x | x in l.Keys ensures l[x] == r[x] {
    }
  }

  /** Folding records into an aggregate equals combining it with the records' own aggregate, so
      records may be aggregated in separate tables and merged afterwards. */
  lemma {:induction false} FoldIsCombine(buf: seq<byte>, m: Summary, rs: seq<Record>)
    ensures Fold(buf, m, rs) == Combine(m, Fold(buf, map[], rs))
    decreases |rs|
  {
    if |rs| == 0 {
      CombineEmpty(m);
    } else {
      var k := View(buf, rs[0].key);
      var t := rs[0].temp;
      var one: Summary := map[k := Init(t)];
      FoldIsCombine(buf, Apply(m, k, t), rs[1..]);
      FoldIsCombine(buf, Apply(map[], k, t), rs[1..]);
      ApplyIsCombine(m, k, t);
      assert Apply(map[], k, t) == one;
      CombineAssociative(m, one, Fold(buf, map[], rs[1..]));
    }
  }

  /** The aggregate of two consecutive record runs is the merge of their aggregates. */
  lemma AggregateConcat(buf: seq<byte>, r1: seq<Record>, r2: seq<Record>)
    ensures Fold(buf, map[], r1 + r2) == Combine(Fold(buf, map[], r1), Fold(buf, map[], r2))
  {
    FoldAppend(buf, map[], r1, r2);
    FoldIsCombine(buf, Fold(buf, map[], r1), r2);
  }

  /** One worker entry folded into the master aggregate: copied when new, merged otherwise. */
  function Absorb(m: Summary, k: seq<byte>, st: Stats): (r: Summary)
    ensures r.Keys == m.Keys + {k}
  {
    if k in m then m[k := Merge(m[k], st)] else m[k := st]
  }

  /** Absorbing the entries of a table one by one builds the per-key combination. */
  lemma CombineSnoc(m: Summary, w: Summary, k: seq<byte>, st: Stats)
    requires k !in w
    ensures Combine(m, w[k := st]) == Absorb(Combine(m, w), k, st)
  {
    var l := Combine(m, w[k := st]);
    var r := Absorb(Combine(m, w), k, st);
    assert l.Keys == r.Keys;
    forall x | x in l ensures l[x] == r[x] {
    }
  }
}
