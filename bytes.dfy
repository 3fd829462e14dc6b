/**
 * Bytes and the two index loops every parser of a `name;number` line
 * shares: the scan for the first `;` and the right-to-left digit loop that
 * accumulates `n += fac * digit` with `fac *= 10`, skipping `.` bytes.
 */
module Bytes {
  /** Go's `byte`; byte arithmetic wraps modulo 256 and is written out where it happens. */
  newtype byte = x: int | 0 <= x < 256

  const NEWLINE: byte := 10
  const RETURN: byte := 13
  const MINUS: byte := 45
  const DOT: byte := 46
  const ZERO: byte := 48
  const SEMICOLON: byte := 59

  function Pow10(k: nat): (p: nat)
    ensures p >= 1
  {
    if k == 0 then 1 else 10 * Pow10(k - 1)
  }

  /** The number of bytes of `s` that are not `.`, i.e. the number of digit positions. */
  function Digits(s: seq<byte>): (k: nat)
    ensures k <= |s|
  {
    if s == [] then 0 else Digits(s[..|s| - 1]) + (if s[|s| - 1] == DOT then 0 else 1)
  }

  /**
   * The decimal number `s` spells, read from left to right with `.` bytes
   * ignored and every other byte `b` standing for the digit `digit(b)`.
   */
  function Number(s: seq<byte>, digit: byte -> int): int
  {
    if s == [] then 0
    else if s[|s| - 1] == DOT then Number(s[..|s| - 1], digit)
    else 10 * Number(s[..|s| - 1], digit) + digit(s[|s| - 1])
  }

  /** `bs[i] - ASCII_ZERO` in byte arithmetic: the digit value for `'0'..'9'`, wrapped for other bytes. */
  function OffsetDigit(b: byte): (d: int)
    ensures 0 <= d < 256
    ensures ZERO <= b <= ZERO + 9 ==> d == (b - ZERO) as int
    ensures b < ZERO ==> d == b as int + 208
  {
    (b as int - ZERO as int) % 256
  }

  /** `int(s[i])`: the raw byte code, with nothing subtracted. */
  function RawDigit(b: byte): (d: int)
    ensures 0 <= d < 256 && d == OffsetDigit(b) + (if b < ZERO then -208 else 48)
  {
    b as int
  }

  /** `ASCII_ZERO - bs[i]` in byte arithmetic: zero for `'0'`, `256 - d` for any other digit `d`. */
  function ReversedDigit(b: byte): (d: int)
    ensures 0 <= d < 256
    ensures ZERO < b <= ZERO + 9 ==> d == 256 - OffsetDigit(b)
    ensures b == ZERO ==> d == 0
  {
    (ZERO as int - b as int) % 256
  }

  /** Every byte of `s` is a decimal digit or a `.`. */
  predicate Decimal(s: seq<byte>)
  {
    forall i :: 0 <= i < |s| ==> s[i] == DOT || ZERO <= s[i] <= ZERO + 9
  }

  /** The index of the first `b` in `s`, or `|s|` when there is none. */
  function IndexOf(s: seq<byte>, b: byte): (ix: nat)
    ensures ix <= |s| && b !in s[..ix]
    ensures ix < |s| ==> s[ix] == b
  {
    if s == [] then 0
    else if s[0] == b then 0
    else
      var ix := 1 + IndexOf(s[1..], b);
      assert s[..ix] == [s[0]] + s[1..][..ix - 1];
      ix
  }

  /** The line has a `;` that is not its last byte; otherwise the parser indexes past the end and panics. */
  predicate Splittable(bs: seq<byte>)
  {
    IndexOf(bs, SEMICOLON) + 1 < |bs|
  }

  /** `for ix = 0; ix < lg; ix++ { if s[ix] == b { break } }`. */
  method Scan(s: seq<byte>, b: byte) returns (ix: nat)
    ensures ix == IndexOf(s, b)
  {
    ix := 0;
    while ix < |s| && s[ix] != b
      invariant ix <= |s| && b !in s[..ix]
    {
      assert s[..ix + 1] == s[..ix] + [s[ix]];
      ix := ix + 1;
    }
    FirstIsIndexOf(s, b, ix);
  }

  /** Any index before which `b` does not occur and at which `b` (or the end) stands is `IndexOf`. */
  lemma {:induction false} FirstIsIndexOf(s: seq<byte>, b: byte, ix: nat)
    requires ix <= |s| && b !in s[..ix] && (ix < |s| ==> s[ix] == b)
    ensures ix == IndexOf(s, b)
  {
    if s != [] && s[0] != b {
      assert ix > 0;
      assert s[1..][..ix - 1] == s[1..ix];
      FirstIsIndexOf(s[1..], b, ix - 1);
    }
  }

  /**
   * `fac := 1; n := 0; for i := len(s) - 1; i > lo; i-- { if s[i] != '.' { n += fac * digit(s[i]); fac *= 10 } }`:
   * the loop adds the digits from the right with growing powers of ten,
   * which is the decimal number the bytes after `lo` spell.
   */
  method ReadNumber(s: seq<byte>, lo: nat, digit: byte -> int) returns (n: int)
    requires lo < |s|
    ensures n == Number(s[lo + 1..], digit)
  {
    var fac := 1;
    n := 0;
    var i := |s| - 1;
    while i > lo
      invariant lo <= i < |s|
      invariant fac == Pow10(Digits(s[i + 1..])) && n == Number(s[i + 1..], digit)
    {
      assert s[i..] == [s[i]] + s[i + 1..];
      NumberCons(s[i], s[i + 1..], digit);
      DigitsCons(s[i], s[i + 1..]);
      if s[i] != DOT {
        n := n + fac * digit(s[i]);
        fac := fac * 10;
      }
      i := i - 1;
    }
  }

  lemma {:induction false} DigitsCons(b: byte, t: seq<byte>)
    ensures Digits([b] + t) == Digits(t) + (if b == DOT then 0 else 1)
    decreases |t|
  {
    var s := [b] + t;
    if t == [] {
      assert s[..|s| - 1] == [];
    } else {
      assert s[..|s| - 1] == [b] + t[..|t| - 1];
      DigitsCons(b, t[..|t| - 1]);
    }
  }

  /** Prepending a digit adds it at the weight of the digits that follow: the loop's sum equals the decimal value. */
  lemma {:induction false} NumberCons(b: byte, t: seq<byte>, digit: byte -> int)
    ensures Number([b] + t, digit)
      == if b == DOT then Number(t, digit) else digit(b) * Pow10(Digits(t)) + Number(t, digit)
    decreases |t|
  {
    var s := [b] + t;
    if t == [] {
      assert s[..|s| - 1] == [];
    } else {
      var u, x := t[..|t| - 1], t[|t| - 1];
      assert s[..|s| - 1] == [b] + u && s[|s| - 1] == x;
      NumberCons(b, u, digit);
      if b != DOT && x != DOT {
        calc {
          Number(s, digit);
          10 * (digit(b) * Pow10(Digits(u)) + Number(u, digit)) + digit(x);
          digit(b) * (10 * Pow10(Digits(u))) + (10 * Number(u, digit) + digit(x));
          digit(b) * Pow10(Digits(t)) + Number(t, digit);
        }
      }
    }
  }

  /** Decimal bytes spell a number below ten to the power of their digit count. */
  lemma {:induction false} DecimalBounds(s: seq<byte>)
    requires Decimal(s)
    ensures 0 <= Number(s, OffsetDigit) < Pow10(Digits(s))
  {
    if s != [] {
      var u := s[..|s| - 1];
      assert Decimal(u) by {
        forall i | 0 <= i < |u| ensures u[i] == DOT || ZERO <= u[i] <= ZERO + 9 {
          assert u[i] == s[i];
        }
      }
      DecimalBounds(u);
    }
  }

  /** The pieces one after another. */
  function Concat(pieces: seq<seq<byte>>): seq<byte>
  {
    if pieces == [] then [] else Concat(pieces[..|pieces| - 1]) + pieces[|pieces| - 1]
  }

  lemma {:induction false} ConcatAppend(a: seq<seq<byte>>, b: seq<seq<byte>>)
    ensures Concat(a + b) == Concat(a) + Concat(b)
    decreases |b|
  {
    if b == [] {
      assert a + b == a;
    } else {
      assert (a + b)[..|a + b| - 1] == a + b[..|b| - 1];
      ConcatAppend(a, b[..|b| - 1]);
    }
  }
}
