/**
 * The per-station aggregate (`ByteStation`) and the pure laws of adding a
 * reading to a table of stations keyed by the id's `HashCodeSimple`, and of
 * merging two such tables. `ByteResult` and `ByteResult2` update their
 * tables as these functions say.
 */
module Stations {
  import opened Bytes
  import opened StationReading
  import Misc

  /** `ByteStation` without its memoised `stationName`, which is `string(StationId)`. */
  datatype ByteStation = ByteStation(stationId: seq<byte>, sum: int, min: int, max: int, count: int)

  /** A station some readings went into: at least one, and `min`/`max` bracket every reading, hence the mean. */
  predicate Sane(s: ByteStation)
  {
    s.count >= 1 && s.min <= s.max && s.min * s.count <= s.sum <= s.max * s.count
  }

  /** The station a first reading creates. */
  function First(r: ByteStationReading): (s: ByteStation)
    ensures Sane(s) && s.stationId == r.stationId && s.count == 1
    ensures s.min == s.max == s.sum == r.temperature
  {
    ByteStation(r.stationId, r.temperature, r.temperature, r.temperature, 1)
  }

  /** A later reading `t`: added to the sum, lowering `min` or raising `max` as needed, one more in the count. */
  function Record(s: ByteStation, t: int): (s': ByteStation)
    ensures s'.stationId == s.stationId && s'.count == s.count + 1 && s'.sum == s.sum + t
    ensures s'.min <= t <= s'.max && s'.min <= s.min && s.max <= s'.max
    ensures (s'.min == s.min || s'.min == t) && (s'.max == s.max || s'.max == t)
    ensures Sane(s) ==> Sane(s')
  {
    var s' := s.(sum := s.sum + t, min := Misc.Min(s.min, t), max := Misc.Max(s.max, t), count := s.count + 1);
    if Sane(s) then
      MulMono(s'.min, s.min, s.count);
      MulMono(s.max, s'.max, s.count);
      s'
    else s'
  }

  /** Two stations under one key, as `Merge` joins them: sums and counts add, the bounds widen. */
  function Combine(a: ByteStation, b: ByteStation): (c: ByteStation)
    ensures c.stationId == a.stationId && c.count == a.count + b.count && c.sum == a.sum + b.sum
    ensures c.min == Misc.Min(a.min, b.min) && c.max == Misc.Max(a.max, b.max)
    ensures Sane(a) && Sane(b) ==> Sane(c)
  {
    var c := a.(sum := a.sum + b.sum, min := Misc.Min(a.min, b.min), max := Misc.Max(a.max, b.max), count := a.count + b.count);
    if Sane(a) && Sane(b) then
      CombinedBounds(a, b, c.min, c.max);
      c
    else c
  }

  /** Bounds under both stations' readings bound the readings of both together. */
  lemma CombinedBounds(a: ByteStation, b: ByteStation, lo: int, hi: int)
    requires Sane(a) && Sane(b) && lo <= a.min && lo <= b.min && a.max <= hi && b.max <= hi
    ensures lo * (a.count + b.count) <= a.sum + b.sum <= hi * (a.count + b.count)
  {
    MulMono(lo, a.min, a.count);
    MulMono(lo, b.min, b.count);
    MulMono(a.max, hi, a.count);
    MulMono(b.max, hi, b.count);
    assert lo * (a.count + b.count) == lo * a.count + lo * b.count;
    assert hi * (a.count + b.count) == hi * a.count + hi * b.count;
  }

  lemma MulMono(a: int, b: int, c: int)
    requires a <= b && c >= 0
    ensures a * c <= b * c
  {
    assert (b - a) * c >= 0;
  }

  /** The table after `Add`: a reading goes to the station under `key`, creating it if there is none. */
  function Absorb(m: map<int, ByteStation>, key: int, r: ByteStationReading): map<int, ByteStation>
  {
    if key in m then m[key := Record(m[key], r.temperature)] else m[key := First(r)]
  }

  /** Readings added one after another, each keyed by its id's `HashCodeSimple`. */
  function AbsorbAll(m: map<int, ByteStation>, rs: seq<ByteStationReading>): map<int, ByteStation>
  {
    if rs == [] then m
    else
      var r := rs[|rs| - 1];
      Absorb(AbsorbAll(m, rs[..|rs| - 1]), SimpleHash(r.stationId), r)
  }

  /** The table after `Merge`: every key of either, with the two stations of a shared key combined. */
  function Merged(a: map<int, ByteStation>, b: map<int, ByteStation>): map<int, ByteStation>
  {
    map k | k in a.Keys + b.Keys :: if k in a && k in b then Combine(a[k], b[k]) else if k in a then a[k] else b[k]
  }

  /** The entries of `b` whose key is in `keys`. */
  function Restrict(b: map<int, ByteStation>, keys: set<int>): map<int, ByteStation>
  {
    map k | k in b.Keys * keys :: b[k]
  }

  /** The number of readings a table holds: the counts of its stations added up. */
  ghost function TotalCount<K>(m: map<K, ByteStation>): int
    decreases |m|
  {
    if m == map[] then 0
    else
      var k :| k in m;
      m[k].count + TotalCount(m - {k})
  }

  /** Every station went through `Add` or `Merge` only, and the counts add up to the number of inputs. */
  ghost predicate Consistent(m: map<int, ByteStation>, inputs: int)
  {
    AllSane(m) && TotalCount(m) == inputs
  }

  ghost predicate AllSane<K>(m: map<K, ByteStation>)
  {
    forall k :: k in m ==> Sane(m[k])
  }

  /** Some key of a non-empty map. */
  lemma AnyKey<K>(m: map<K, ByteStation>) returns (k: K)
    requires m != map[]
    ensures k in m
  {
    k :| k in m;
  }

  /** Every station sits under the `HashCodeSimple` of its own id. */
  predicate Keyed(m: map<int, ByteStation>)
  {
    forall k :: k in m ==> SimpleHash(m[k].stationId) == k
  }

  /** `TotalCount` does not depend on which key is taken out first. */
  lemma {:induction false} TotalRemove<K>(m: map<K, ByteStation>, k: K)
    requires k in m
    ensures TotalCount(m) == m[k].count + TotalCount(m - {k})
    decreases |m|
  {
    var k' :| k' in m && TotalCount(m) == m[k'].count + TotalCount(m - {k'});
    if k' != k {
      var m1, m2 := m - {k'}, m - {k};
      assert m1.Keys == m.Keys - {k'} && m2.Keys == m.Keys - {k};
      assert |m1| < |m| && |m2| < |m|;
      assert k in m1 && k' in m2 && m1[k] == m[k] && m2[k'] == m[k'];
      TotalRemove(m1, k);
      TotalRemove(m2, k');
      assert m1 - {k} == m2 - {k'};
    }
  }

  /** Putting `s` under `k` replaces whatever count `k` held. */
  lemma TotalUpdate<K>(m: map<K, ByteStation>, k: K, s: ByteStation)
    ensures TotalCount(m[k := s]) == TotalCount(m) - (if k in m then m[k].count else 0) + s.count
  {
    TotalRemove(m[k := s], k);
    if k in m {
      TotalRemove(m, k);
      assert m[k := s] - {k} == m - {k};
    } else {
      assert m[k := s] - {k} == m;
    }
  }

  /** One reading more: the table stays consistent with one input more, and every station under its id's hash. */
  lemma AbsorbKeeps(m: map<int, ByteStation>, inputs: int, r: ByteStationReading)
    requires Consistent(m, inputs) && Keyed(m)
    ensures var m' := Absorb(m, SimpleHash(r.stationId), r);
      Consistent(m', inputs + 1) && Keyed(m') && m'.Keys == m.Keys + {SimpleHash(r.stationId)}
  {
    var key := SimpleHash(r.stationId);
    if key in m {
      TotalUpdate(m, key, Record(m[key], r.temperature));
    } else {
      TotalUpdate(m, key, First(r));
    }
  }

  /**
   * Built by `Add` alone, a table is consistent, holds one station per
   * distinct `HashCodeSimple` of the ids added, and counts every reading.
   */
  lemma {:induction false} AbsorbAllKeeps(m: map<int, ByteStation>, inputs: int, rs: seq<ByteStationReading>)
    requires Consistent(m, inputs) && Keyed(m)
    ensures var m' := AbsorbAll(m, rs);
      Consistent(m', inputs + |rs|) && Keyed(m')
      && m'.Keys == m.Keys + set r | r in rs :: SimpleHash(r.stationId)
  {
    if rs != [] {
      var init, r := rs[..|rs| - 1], rs[|rs| - 1];
      AbsorbAllKeeps(m, inputs, init);
      AbsorbKeeps(AbsorbAll(m, init), inputs + |init|, r);
      HashesSnoc(rs);
    }
  }

  lemma HashesSnoc(rs: seq<ByteStationReading>)
    requires rs != []
    ensures (set x | x in rs :: SimpleHash(x.stationId))
      == (set x | x in rs[..|rs| - 1] :: SimpleHash(x.stationId)) + {SimpleHash(rs[|rs| - 1].stationId)}
  {
    assert rs == rs[..|rs| - 1] + [rs[|rs| - 1]];
  }

  /** Two ids with one hash share a station, which keeps the first id and counts both readings. */
  lemma CollidingIdsShareStation(r1: ByteStationReading, r2: ByteStationReading)
    requires SimpleHash(r1.stationId) == SimpleHash(r2.stationId)
    ensures var m := AbsorbAll(map[], [r1, r2]);
      m.Keys == {SimpleHash(r1.stationId)} && m[SimpleHash(r1.stationId)].stationId == r1.stationId
      && m[SimpleHash(r1.stationId)].count == 2
  {
    var h := SimpleHash(r1.stationId);
    assert [r1, r2][..1] == [r1] && [r1][..0] == [];
    assert AbsorbAll(map[], [r1]) == map[h := First(r1)];
  }

  /** Merging keeps `r2`'s key for each of its stations: the key set is the union. */
  lemma MergedKeys(a: map<int, ByteStation>, b: map<int, ByteStation>)
    ensures Merged(a, b).Keys == a.Keys + b.Keys
    ensures forall k :: k in a && k !in b ==> Merged(a, b)[k] == a[k]
    ensures forall k :: k in b && k !in a ==> Merged(a, b)[k] == b[k]
  {
  }

  /** Merging two consistent tables gives a consistent table holding the inputs of both. */
  lemma MergedKeeps(a: map<int, ByteStation>, ia: int, b: map<int, ByteStation>, ib: int)
    requires Consistent(a, ia) && Consistent(b, ib)
    ensures Consistent(Merged(a, b), ia + ib)
  {
    MergedTotal(a, b);
    var m := Merged(a, b);
    forall k | k in m
      ensures Sane(m[k])
    {
    }
  }

  /** The readings a merged table counts are those of both tables. */
  lemma {:induction false} MergedTotal(a: map<int, ByteStation>, b: map<int, ByteStation>)
    ensures TotalCount(Merged(a, b)) == TotalCount(a) + TotalCount(b)
    decreases |b|
  {
    if b == map[] {
      assert Merged(a, b) == a;
    } else {
      var k := AnyKey(b);
      TotalRemove(b, k);
      MergedTotal(a, b - {k});
      MergedPeel(a, b, k);
      TotalUpdate(Merged(a, b - {k}), k, if k in a then Combine(a[k], b[k]) else b[k]);
    }
  }

  lemma MergedPeel(a: map<int, ByteStation>, b: map<int, ByteStation>, k: int)
    requires k in b
    ensures Merged(a, b) == Merged(a, b - {k})[k := if k in a then Combine(a[k], b[k]) else b[k]]
  {
  }

  /** Merging keyed tables gives a keyed table. */
  lemma MergedKeyed(a: map<int, ByteStation>, b: map<int, ByteStation>)
    requires Keyed(a) && Keyed(b)
    ensures Keyed(Merged(a, b))
  {
  }

  /**
   * The loop of `Merge` takes `r2`'s keys one at a time: after the keys
   * `done`, the table is `a` merged with that part of `b`.
   */
  lemma MergedStep(a: map<int, ByteStation>, b: map<int, ByteStation>, done: set<int>, k: int)
    requires k in b && k !in done
    ensures var m := Merged(a, Restrict(b, done));
      Merged(a, Restrict(b, done + {k})) == if k in m then m[k := Combine(m[k], b[k])] else m[k := b[k]]
  {
  }

  /**
   * Adding `r2.inputs` once per station of `r2`, as `Merge` is written,
   * breaks the count whenever `r2` has two stations or more: the inputs
   * then exceed what the stations hold.
   */
  lemma MergeOvercounts(a: map<int, ByteStation>, ia: int, b: map<int, ByteStation>, ib: int)
    requires Consistent(a, ia) && Consistent(b, ib) && |b| >= 2
    ensures ia + |b| * ib > TotalCount(Merged(a, b))
  {
    MergedKeeps(a, ia, b, ib);
    CountAtLeastSize(b);
    MulMono(2, |b|, ib);
  }

  /** Each station counts one reading or more, so a table counts at least as many readings as it has stations. */
  lemma {:induction false} CountAtLeastSize<K>(m: map<K, ByteStation>)
    ensures AllSane(m) ==> TotalCount(m) >= |m|
    decreases |m|
  {
    if m != map[] {
      var k :| k in m;
      TotalRemove(m, k);
      CountAtLeastSize(m - {k});
    }
  }
}
