/**
 * `ByteStationReading`: one measurement line `name;-12.3` parsed into the
 * station id bytes and the temperature in integer tenths, and the two hash
 * codes that key a station in the results.
 */
module StationReading {
  import opened Bytes

  datatype ByteStationReading = ByteStationReading(stationId: seq<byte>, temperature: int)

  /** `NewByteStationReading`: the empty reading, whose id hashes to each hash's starting value. */
  function NewByteStationReading(): (r: ByteStationReading)
    ensures r.stationId == [] && r.temperature == 0
    ensures SimpleHash(r.stationId) == 17 && Fnv1a(r.stationId) == FNV_OFFSET
  {
    ByteStationReading([], 0)
  }

  /**
   * What a line means: the bytes before the first `;` name the station, and
   * the bytes after it are the temperature in tenths, negative when they
   * start with `-`.
   */
  function Decode(bs: seq<byte>): (r: ByteStationReading)
    requires Splittable(bs)
    ensures |r.stationId| < |bs| && r.stationId == bs[..|r.stationId|] && SEMICOLON !in r.stationId
    ensures bs[|r.stationId|] == SEMICOLON
  {
    var ix := IndexOf(bs, SEMICOLON);
    if bs[ix + 1] == MINUS then ByteStationReading(bs[..ix], -Number(bs[ix + 2..], OffsetDigit))
    else ByteStationReading(bs[..ix], Number(bs[ix + 1..], OffsetDigit))
  }

  /**
   * `NewByteStationReadingFromBytes` as written: after a `-`, `ix` has been
   * advanced past the sign, so the id `bs[:ix]` of a negative reading keeps
   * the `;`.
   */
  method FromBytesAsWritten(bs: seq<byte>) returns (r: ByteStationReading)
    requires Splittable(bs)
    ensures var ix := IndexOf(bs, SEMICOLON);
      if bs[ix + 1] == MINUS
      then r == ByteStationReading(bs[..ix + 1], Decode(bs).temperature) && r.stationId[ix] == SEMICOLON
      else r == Decode(bs)
  {
    var ix := Scan(bs, SEMICOLON);
    var neg := 0;
    if bs[ix + 1] == MINUS {
      neg := 1;
      ix := ix + 1;
    }
    var n := ReadNumber(bs, ix, OffsetDigit);
    if neg == 1 {
      n := -n;
    }
    r := ByteStationReading(bs[..ix], n);
  }

  /**
   * The corrected `NewByteStationReadingFromBytes` (`FromBytesAsWritten`
   * is the function as Go writes it): the id is cut at the `;` whatever the
   * sign.
   */
  method FromBytes(bs: seq<byte>) returns (r: ByteStationReading)
    requires Splittable(bs)
    ensures r == Decode(bs)
  {
    var ix := Scan(bs, SEMICOLON);
    var idEnd := ix;
    var neg := 0;
    if bs[ix + 1] == MINUS {
      neg := 1;
      ix := ix + 1;
    }
    var n := ReadNumber(bs, ix, OffsetDigit);
    if neg == 1 {
      n := -n;
    }
    r := ByteStationReading(bs[..idEnd], n);
  }

  /** The decimal digits of `n`, most significant first. */
  function Spell(n: nat): (s: seq<byte>)
    ensures |s| >= 1 && Decimal(s) && DOT !in s
    ensures ZERO <= s[0] <= ZERO + 9
  {
    if n < 10 then [ZERO + n as byte]
    else
      var s := Spell(n / 10) + [ZERO + (n % 10) as byte];
      assert s[0] == Spell(n / 10)[0];
      s
  }

  /** A temperature in tenths as the measurement file writes it: `-12.3` for -123. */
  function Format(t: int): seq<byte>
  {
    var a := if t < 0 then -t else t;
    (if t < 0 then [MINUS] else []) + Spell(a / 10) + [DOT, ZERO + (a % 10) as byte]
  }

  /** The line `id;temperature` that a reading is written as. */
  function Encode(r: ByteStationReading): seq<byte>
  {
    r.stationId + [SEMICOLON] + Format(r.temperature)
  }

  lemma {:induction false} SpellNumber(n: nat)
    ensures Number(Spell(n), OffsetDigit) == n
  {
    if n >= 10 {
      var s := Spell(n);
      assert s[..|s| - 1] == Spell(n / 10);
      SpellNumber(n / 10);
    }
  }

  /** The number part of a formatted temperature reads back as its magnitude. */
  lemma FormatNumber(a: nat)
    ensures Number(Spell(a / 10) + [DOT, ZERO + (a % 10) as byte], OffsetDigit) == a
  {
    var s := Spell(a / 10) + [DOT, ZERO + (a % 10) as byte];
    assert s[..|s| - 1] == Spell(a / 10) + [DOT];
    assert (Spell(a / 10) + [DOT])[..|s| - 2] == Spell(a / 10);
    SpellNumber(a / 10);
  }

  /** Parsing the line a reading is written as gives the reading back, whenever the id has no `;`. */
  lemma DecodeEncode(r: ByteStationReading)
    requires SEMICOLON !in r.stationId
    ensures Splittable(Encode(r)) && Decode(Encode(r)) == r
  {
    var bs, id, t := Encode(r), r.stationId, r.temperature;
    var a := if t < 0 then -t else t;
    var digits := Spell(a / 10) + [DOT, ZERO + (a % 10) as byte];
    assert bs[..|id|] == id;
    FirstIsIndexOf(bs, SEMICOLON, |id|);
    FormatNumber(a);
    if t < 0 {
      assert bs[|id| + 2..] == digits;
    } else {
      assert bs[|id| + 1..] == digits;
    }
  }

  const FNV_OFFSET: bv32 := 2166136261
  const FNV_PRIME: bv32 := 16777619

  /** FNV-1a over 32 bits: per byte, xor it in, then multiply by the FNV prime modulo 2^32. */
  function Fnv1a(s: seq<byte>): bv32
  {
    if s == [] then FNV_OFFSET
    else FnvStep(Fnv1a(s[..|s| - 1]), s[|s| - 1])
  }

  /** One FNV-1a round: xor the byte in, then multiply by the FNV prime modulo 2^32. */
  function FnvStep(h: bv32, b: byte): bv32
  {
    (h ^ b as bv32) * FNV_PRIME
  }

  /** The FNV-1a test vectors for the empty string and for "a". */
  lemma FnvTestVectors()
    ensures Fnv1a([]) == 0x811c9dc5
    ensures Fnv1a([97]) == 0xe40c292c
  {
    assert Fnv1a([97]) == FnvStep(FNV_OFFSET, 97) by { assert [97][..0] == []; }
  }

  lemma FnvSnoc(s: seq<byte>, i: nat)
    requires i < |s|
    ensures Fnv1a(s[..i + 1]) == FnvStep(Fnv1a(s[..i]), s[i])
  {
    assert s[..i + 1][..i] == s[..i];
  }

  /** `HashCode`: FNV-1a of the id, returned as a non-negative `int`. */
  method HashCode(r: ByteStationReading) returns (h: int)
    ensures h == Fnv1a(r.stationId) as int && 0 <= h < 0x1_0000_0000
  {
    var hash := FNV_OFFSET;
    for i := 0 to |r.stationId|
      invariant hash == Fnv1a(r.stationId[..i])
    {
      FnvSnoc(r.stationId, i);
      hash := FnvStep(hash, r.stationId[i]);
    }
    assert r.stationId[..|r.stationId|] == r.stationId;
    h := hash as int;
  }

  const TWO_63: int := 0x8000_0000_0000_0000
  const TWO_64: int := 0x1_0000_0000_0000_0000

  /** A Go `int` result: `x` reduced into `[-2^63, 2^63)` modulo 2^64. */
  function Wrap64(x: int): (w: int)
    ensures -TWO_63 <= w < TWO_63
    ensures -TWO_63 <= x < TWO_63 ==> w == x
  {
    (x + TWO_63) % TWO_64 - TWO_63
  }

  /** The exact value of `h = h*31 + b` from 17, in unbounded integers. */
  function Poly31(s: seq<byte>): int
  {
    if s == [] then 17 else 31 * Poly31(s[..|s| - 1]) + s[|s| - 1] as int
  }

  /** `HashCodeSimple`'s result: the 31-polynomial of the id with Go's 64-bit wrap-around. */
  function SimpleHash(s: seq<byte>): int
  {
    Wrap64(Poly31(s))
  }

  /** `HashCodeSimple`: the wrapping loop computes the wrapped polynomial. */
  method HashCodeSimple(r: ByteStationReading) returns (h: int)
    ensures h == SimpleHash(r.stationId)
    ensures -TWO_63 <= h < TWO_63
  {
    h := 17;
    for i := 0 to |r.stationId|
      invariant h == SimpleHash(r.stationId[..i])
    {
      assert r.stationId[..i + 1][..i] == r.stationId[..i];
      WrapStep(Poly31(r.stationId[..i]), r.stationId[i] as int);
      h := Wrap64(Wrap64(h * 31) + r.stationId[i] as int);
    }
    assert r.stationId[..|r.stationId|] == r.stationId;
  }

  /** Adding a multiple of 2^64 does not change the wrapped value. */
  lemma WrapShift(x: int, k: int)
    ensures Wrap64(x + TWO_64 * k) == Wrap64(x)
  {
  }

  /** Wrapping after each Go operation ends where wrapping once at the end does. */
  lemma WrapStep(x: int, b: int)
    ensures Wrap64(Wrap64(Wrap64(x) * 31) + b) == Wrap64(31 * x + b)
  {
    var k := (x + TWO_63) / TWO_64;
    assert Wrap64(x) == x - TWO_64 * k;
    WrapShift(31 * x, -31 * k);
    var y := Wrap64(31 * x);
    var j := (31 * x + TWO_63) / TWO_64;
    assert y == 31 * x - TWO_64 * j;
    WrapShift(31 * x + b, -j);
  }

  /** Reading `ab;12.3` gives station `ab` at 123 tenths. */
  method ParsePositive() returns (r: ByteStationReading)
    ensures r == ByteStationReading([97, 98], 123)
  {
    var line := [97, 98, SEMICOLON, 49, 50, DOT, 51];
    assert Format(123) == [49, 50, DOT, 51] by {
      assert Spell(12) == Spell(1) + [50];
    }
    assert line == Encode(ByteStationReading([97, 98], 123));
    DecodeEncode(ByteStationReading([97, 98], 123));
    r := FromBytes(line);
  }

  /** As written, `ab;-1.5` is filed under the id `ab;`, a different station from `ab`. */
  method NegativeIdAsWritten() returns (r: ByteStationReading, fixed: ByteStationReading)
    ensures r == ByteStationReading([97, 98, SEMICOLON], -15)
    ensures fixed == ByteStationReading([97, 98], -15)
  {
    var line := [97, 98, SEMICOLON, MINUS, 49, DOT, 53];
    assert line == Encode(ByteStationReading([97, 98], -15));
    DecodeEncode(ByteStationReading([97, 98], -15));
    r := FromBytesAsWritten(line);
    fixed := FromBytes(line);
  }
}
