/**
 * The older integer parsers `ParseStringInt` and `ParseBytesInt`. Both cut
 * the key at the first `;` and skip a `-` after it, but neither negates the
 * value, and their digit terms are not the digit values: `ParseStringInt`
 * adds raw byte codes and `ParseBytesInt` subtracts the byte from `'0'`.
 * A Go `string` is indexed by byte, so both take a byte sequence.
 */
module Parser {
  import opened Bytes

  /** `StringInt` and `BytesInt`: a key and an integer value. */
  datatype KeyInt = KeyInt(key: seq<byte>, value: int)

  /** Where the digit loop stops: at the `;`, or at the `-` right after it. */
  function SignEnd(s: seq<byte>): (lo: nat)
    requires Splittable(s)
    ensures lo < |s| && IndexOf(s, SEMICOLON) <= lo
    ensures lo == IndexOf(s, SEMICOLON) + 1 <==> s[IndexOf(s, SEMICOLON) + 1] == MINUS
  {
    var ix := IndexOf(s, SEMICOLON);
    if s[ix + 1] == MINUS then ix + 1 else ix
  }

  /** The key is the text before the first `;`; the value adds raw byte codes and keeps no sign. */
  method ParseStringInt(s: seq<byte>) returns (r: KeyInt)
    requires Splittable(s)
    ensures r.key == s[..IndexOf(s, SEMICOLON)]
    ensures r.value == Number(s[SignEnd(s) + 1..], RawDigit) && r.value >= 0
  {
    var ix := Scan(s, SEMICOLON);
    var neg := 0;
    if s[ix + 1] == MINUS {
      neg := 1;
    }
    var n := ReadNumber(s, ix + neg, RawDigit);
    NonNegative(s[ix + neg + 1..], RawDigit);
    r := KeyInt(s[..ix], n);
  }

  /** The key is the bytes before the first `;`; each digit term is `'0' - b` modulo 256 and no sign is kept. */
  method ParseBytesInt(bs: seq<byte>) returns (r: KeyInt)
    requires Splittable(bs)
    ensures r.key == bs[..IndexOf(bs, SEMICOLON)]
    ensures r.value == Number(bs[SignEnd(bs) + 1..], ReversedDigit) && r.value >= 0
  {
    var ix := Scan(bs, SEMICOLON);
    var neg := 0;
    if bs[ix + 1] == MINUS {
      neg := 1;
    }
    var n := ReadNumber(bs, ix + neg, ReversedDigit);
    NonNegative(bs[ix + neg + 1..], ReversedDigit);
    r := KeyInt(bs[..ix], n);
  }

  /** A number whose digit terms are never negative is not negative: the sign is lost. */
  lemma {:induction false} NonNegative(s: seq<byte>, digit: byte -> int)
    requires forall b :: digit(b) >= 0
    ensures Number(s, digit) >= 0
  {
    if s != [] {
      NonNegative(s[..|s| - 1], digit);
    }
  }

  /** `1`, `11`, `111`, ...: the number with `k` ones. */
  function Repunit(k: nat): nat
  {
    if k == 0 then 0 else 10 * Repunit(k - 1) + 1
  }

  /**
   * On decimal text, adding raw byte codes overshoots the decimal value by
   * 48 in every digit position: `'1'` reads as 49 and `"12"` as 538.
   */
  lemma {:induction false} RawNumberShift(s: seq<byte>)
    requires Decimal(s)
    ensures Number(s, RawDigit) == Number(s, OffsetDigit) + 48 * Repunit(Digits(s))
  {
    if s != [] {
      var u := s[..|s| - 1];
      assert Decimal(u) by {
        forall i | 0 <= i < |u| ensures u[i] == DOT || ZERO <= u[i] <= ZERO + 9 {
          assert u[i] == s[i];
        }
      }
      RawNumberShift(u);
    }
  }

  /** `a;-1`: both parsers skip the sign without negating; `ParseStringInt` reads 49, `ParseBytesInt` reads 255. */
  method SignDropped() returns (r: KeyInt, q: KeyInt)
    ensures r == KeyInt([97], 49) && q == KeyInt([97], 255)
  {
    var line := [97, SEMICOLON, MINUS, 49];
    FirstIsIndexOf(line, SEMICOLON, 1);
    assert line[3..] == [49] && [49][..0] == [];
    r := ParseStringInt(line);
    q := ParseBytesInt(line);
  }
}
