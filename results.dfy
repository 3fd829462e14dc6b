/**
 * `ByteResult` and `ByteResult2`: the tables of stations a run fills, keyed
 * by `HashCodeSimple` of the station id, with the number of readings taken
 * in; and the ordering `GetSortedResults` lists the stations in.
 */
module ByteResults {
  import opened Bytes
  import opened StationReading
  import opened Stations
  import Cache

  /** Go's `<` on strings: byte by byte, a proper prefix first. */
  predicate LexLess(a: seq<byte>, b: seq<byte>)
    decreases |a|
  {
    if a == [] then b != []
    else if b == [] then false
    else if a[0] != b[0] then a[0] < b[0]
    else LexLess(a[1..], b[1..])
  }

  lemma {:induction false} LexIrreflexive(a: seq<byte>)
    ensures !LexLess(a, a)
    decreases |a|
  {
    if a != [] {
      LexIrreflexive(a[1..]);
    }
  }

  lemma {:induction false} LexTransitive(a: seq<byte>, b: seq<byte>, c: seq<byte>)
    requires LexLess(a, b) && LexLess(b, c)
    ensures LexLess(a, c)
    decreases |a|
  {
    if a != [] && a[0] == b[0] && b[0] == c[0] {
      LexTransitive(a[1..], b[1..], c[1..]);
    }
  }

  /** Two different ids are always ordered one way or the other. */
  lemma {:induction false} LexTotal(a: seq<byte>, b: seq<byte>)
    requires a != b
    ensures LexLess(a, b) || LexLess(b, a)
    decreases |a|
  {
    if a != [] && b != [] && a[0] == b[0] {
      assert a == [a[0]] + a[1..] && b == [b[0]] + b[1..];
      LexTotal(a[1..], b[1..]);
    }
  }

  /** No station is listed after one whose id comes later. */
  predicate SortedById(s: seq<ByteStation>)
  {
    forall i, j :: 0 <= i < j < |s| ==> !LexLess(s[j].stationId, s[i].stationId)
  }

  /** `x` placed before the first station whose id is not less than its own. */
  function Insert(s: seq<ByteStation>, x: ByteStation): (r: seq<ByteStation>)
    ensures multiset(r) == multiset(s) + multiset{x}
    ensures SortedById(s) ==> SortedById(r)
  {
    if s == [] || !LexLess(s[0].stationId, x.stationId) then
      InsertFront(s, x);
      [x] + s
    else
      var r := [s[0]] + Insert(s[1..], x);
      assert s == [s[0]] + s[1..];
      InsertBehind(s, x, Insert(s[1..], x));
      r
  }

  lemma InsertFront(s: seq<ByteStation>, x: ByteStation)
    requires s == [] || !LexLess(s[0].stationId, x.stationId)
    ensures SortedById(s) ==> SortedById([x] + s)
  {
    if s != [] && SortedById(s) {
      forall j | 0 < j < |s|
        ensures !LexLess(s[j].stationId, x.stationId)
      {
        if x.stationId != s[0].stationId {
          LexTotal(x.stationId, s[0].stationId);
          if LexLess(s[j].stationId, x.stationId) {
            LexTransitive(s[j].stationId, x.stationId, s[0].stationId);
          }
        }
      }
      assert forall j :: 0 < j < |[x] + s| ==> ([x] + s)[j] == s[j - 1];
    }
  }

  lemma InsertBehind(s: seq<ByteStation>, x: ByteStation, rest: seq<ByteStation>)
    requires s != [] && LexLess(s[0].stationId, x.stationId)
    requires multiset(rest) == multiset(s[1..]) + multiset{x}
    requires SortedById(s[1..]) ==> SortedById(rest)
    ensures SortedById(s) ==> SortedById([s[0]] + rest)
  {
    if SortedById(s) {
      assert SortedById(s[1..]);
      forall j | 0 <= j < |rest|
        ensures !LexLess(rest[j].stationId, s[0].stationId)
      {
        assert rest[j] in multiset(rest);
        if rest[j] == x {
          if LexLess(x.stationId, s[0].stationId) {
            LexTransitive(x.stationId, s[0].stationId, x.stationId);
            LexIrreflexive(x.stationId);
          }
        } else {
          assert rest[j] in multiset(s[1..]);
          var i :| 0 <= i < |s[1..]| && s[1..][i] == rest[j];
          assert s[i + 1] == rest[j];
        }
      }
      assert forall j :: 0 < j < |[s[0]] + rest| ==> ([s[0]] + rest)[j] == rest[j - 1];
    }
  }

  /** The sort in `GetSortedResults`: the stations reordered by ascending id. */
  method SortById(values: seq<ByteStation>) returns (sorted: seq<ByteStation>)
    ensures SortedById(sorted) && multiset(sorted) == multiset(values)
  {
    sorted := [];
    for i := 0 to |values|
      invariant SortedById(sorted) && multiset(sorted) == multiset(values[..i])
    {
      assert values[..i + 1] == values[..i] + [values[i]];
      sorted := Insert(sorted, values[i]);
    }
    assert values[..|values|] == values;
  }

  /** Go's map iteration hands out the keys in an order left open: any key not yet visited. */
  method Pick<K>(rest: set<K>) returns (key: K)
    requires rest != {}
    ensures key in rest
  {
    key :| key in rest;
  }

  class ByteResult {
    var stations: map<int, ByteStation>
    var inputs: int

    /** `NewByteResult`: no stations, no inputs. */
    constructor ()
      ensures stations == map[] && inputs == 0 && Valid()
    {
      stations := map[];
      inputs := 0;
    }

    /** Every station is under its id's hash, and the counts add up to the inputs. */
    ghost predicate Valid()
      reads this
    {
      Consistent(stations, inputs) && Keyed(stations)
    }

    function NoOfStations(): (n: nat)
      reads this
      ensures n == |stations.Keys|
    {
      |stations|
    }

    function NoOfInputs(): (n: int)
      reads this
      ensures Valid() ==> n == TotalCount(stations) && n >= NoOfStations()
    {
      CountAtLeastSize(stations);
      inputs
    }

    /** One reading more: counted in `inputs` and recorded under the hash of its id. */
    method Add(reading: ByteStationReading)
      modifies this
      ensures inputs == old(inputs) + 1
      ensures stations == Absorb(old(stations), SimpleHash(reading.stationId), reading)
      ensures old(Valid()) ==> Valid()
    {
      var key := HashCodeSimple(reading);
      if Valid() {
        AbsorbKeeps(stations, inputs, reading);
      }
      inputs := inputs + 1;
      var t := reading.temperature;
      if key !in stations {
        stations := stations[key := ByteStation(reading.stationId, t, t, t, 1)];
      } else {
        var station := stations[key];
        station := station.(sum := station.sum + t);
        if station.min > t {
          station := station.(min := t);
        }
        if station.max < t {
          station := station.(max := t);
        }
        station := station.(count := station.count + 1);
        stations := stations[key := station];
      }
    }

    /** The stations in the order `GetSortedResults` lists them: each once, by ascending id. */
    method SortedStations() returns (sorted: seq<ByteStation>)
      ensures SortedById(sorted) && multiset(sorted) == Cache.Bag(stations)
    {
      var values := Cache.ListValues(stations);
      sorted := SortById(values);
    }
  }

  class ByteResult2 {
    var stations: map<int, ByteStation>
    var inputs: int

    /** `NewByteResult2`: no stations, no inputs. */
    constructor ()
      ensures stations == map[] && inputs == 0 && Valid()
    {
      stations := map[];
      inputs := 0;
    }

    ghost predicate Valid()
      reads this
    {
      Consistent(stations, inputs) && Keyed(stations)
    }

    function NoOfStations(): (n: nat)
      reads this
      ensures n == |stations.Keys|
    {
      |stations|
    }

    function NoOfInputs(): (n: int)
      reads this
      ensures Valid() ==> n == TotalCount(stations) && n >= NoOfStations()
    {
      CountAtLeastSize(stations);
      inputs
    }

    method Add(reading: ByteStationReading)
      modifies this
      ensures inputs == old(inputs) + 1
      ensures stations == Absorb(old(stations), SimpleHash(reading.stationId), reading)
      ensures old(Valid()) ==> Valid()
    {
      var key := HashCodeSimple(reading);
      if Valid() {
        AbsorbKeeps(stations, inputs, reading);
      }
      inputs := inputs + 1;
      var t := reading.temperature;
      if key !in stations {
        stations := stations[key := ByteStation(reading.stationId, t, t, t, 1)];
      } else {
        var station := stations[key];
        station := station.(sum := station.sum + t);
        if station.min > t {
          station := station.(min := t);
        }
        if station.max < t {
          station := station.(max := t);
        }
        station := station.(count := station.count + 1);
        stations := stations[key := station];
      }
    }

    /**
     * `Merge` as written: `r.inputs += r2.inputs` sits inside the loop over
     * `r2`'s stations, so `r2`'s inputs are added once per station.
     */
    method MergeAsWritten(r2: ByteResult2)
      modifies this
      ensures r2 != this ==> stations == Merged(old(stations), old(r2.stations)) && r2.stations == old(r2.stations)
      ensures r2 != this ==> inputs == old(inputs) + |old(r2.stations)| * old(r2.inputs)
    {
      var rest := r2.stations.Keys;
      ghost var i0, c, n := inputs, r2.inputs, |r2.stations|;
      ghost var visited := 0;
      assert |r2.stations.Keys| == n;
      while rest != {}
        invariant Merging(r2, old(stations), old(r2.stations), rest)
        invariant visited + |rest| == n
        invariant r2 != this ==> r2.inputs == c && inputs == i0 + visited * c
        decreases rest
      {
        inputs := inputs + r2.inputs;
        assert (visited + 1) * c == visited * c + c;
        rest := MergeNext(r2, old(stations), old(r2.stations), rest);
        visited := visited + 1;
      }
      assert visited == n;
      MergingDone(r2, old(stations), old(r2.stations));
    }

    /**
     * The corrected `Merge` (`MergeAsWritten` is `Merge` as Go writes it):
     * `r2`'s inputs are added once, so the merged table counts exactly the
     * inputs of both.
     */
    method Merge(r2: ByteResult2)
      modifies this
      ensures r2 != this ==> stations == Merged(old(stations), old(r2.stations)) && r2.stations == old(r2.stations)
      ensures r2 != this ==> inputs == old(inputs) + old(r2.inputs)
      ensures r2 != this && old(Valid()) && old(r2.Valid()) ==> Valid()
    {
      if r2 != this && Valid() && r2.Valid() {
        MergedKeeps(stations, inputs, r2.stations, r2.inputs);
        MergedKeyed(stations, r2.stations);
      }
      inputs := inputs + r2.inputs;
      var rest := r2.stations.Keys;
      while rest != {}
        invariant Merging(r2, old(stations), old(r2.stations), rest)
        invariant r2 != this ==> inputs == old(inputs) + old(r2.inputs)
        decreases rest
      {
        rest := MergeNext(r2, old(stations), old(r2.stations), rest);
      }
      MergingDone(r2, old(stations), old(r2.stations));
    }

    /**
     * Part way through a merge loop: `r2` still holds `b0`, and the stations
     * of the keys it has left behind `rest` are merged into `s0`.
     */
    ghost predicate Merging(r2: ByteResult2, s0: map<int, ByteStation>, b0: map<int, ByteStation>, rest: set<int>)
      reads this, r2
    {
      rest <= r2.stations.Keys
      && (r2 != this ==> r2.stations == b0 && stations == Merged(s0, Restrict(b0, b0.Keys - rest)))
    }

    /** One round of a merge loop: a key of `r2` not yet visited, merged in. */
    method MergeNext(r2: ByteResult2, ghost s0: map<int, ByteStation>, ghost b0: map<int, ByteStation>, rest: set<int>)
      returns (rest': set<int>)
      requires rest != {} && Merging(r2, s0, b0, rest)
      modifies this`stations
      ensures Merging(r2, s0, b0, rest') && rest' < rest && |rest'| == |rest| - 1
    {
      var key := Pick(rest);
      ghost var done := b0.Keys - rest;
      if r2 != this {
        MergedStep(s0, b0, done, key);
      }
      MergeOne(r2, key);
      rest' := rest - {key};
      assert r2 != this ==> b0.Keys - rest' == done + {key};
    }

    /** With every key visited, the loop has merged all of `r2`. */
    lemma MergingDone(r2: ByteResult2, s0: map<int, ByteStation>, b0: map<int, ByteStation>)
      requires Merging(r2, s0, b0, {})
      ensures r2 != this ==> stations == Merged(s0, b0) && r2.stations == b0
    {
      if r2 != this {
        assert Restrict(b0, b0.Keys - {}) == b0;
      }
    }

    /** The loop body of `Merge` for one key of `r2`: copy its station, or combine it with the one here. */
    method MergeOne(r2: ByteResult2, key: int)
      requires key in r2.stations
      modifies this`stations
      ensures var m, s := old(stations), old(r2.stations[key]);
        stations == if key in m then m[key := Combine(m[key], s)] else m[key := s]
    {
      var station := r2.stations[key];
      if key !in stations {
        stations := stations[key := ByteStation(station.stationId, station.sum, station.min, station.max, station.count)];
      } else {
        var existing := stations[key];
        existing := existing.(sum := existing.sum + station.sum);
        if existing.min > station.min {
          existing := existing.(min := station.min);
        }
        if existing.max < station.max {
          existing := existing.(max := station.max);
        }
        existing := existing.(count := existing.count + station.count);
        stations := stations[key := existing];
      }
    }
  }
}
