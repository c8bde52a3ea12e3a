/** Decimal printing of uint64 values: the loop of u64 (pkg/consensus/engine.go) and of
    formatUint64 (pkg/snapshot/store.go), and what strconv.FormatUint prints. */
module Decimal {
  import opened Bytes

  const ZERO: byte := 0x30

  /** Base-10 digits of `v`, most significant first, "0" for 0. */
  function Digits(v: nat): (d: bytes)
    ensures |d| > 0
    ensures forall c <- d :: 0x30 <= c <= 0x39
  {
    if v < 10 then [ZERO + v] else Digits(v / 10) + [ZERO + v % 10]
  }

  predicate IsDigit(c: byte) {
    0x30 <= c <= 0x39
  }

  function ParseDigits(d: bytes): nat
    requires forall c <- d :: IsDigit(c)
  {
    if d == [] then 0 else assert IsDigit(d[|d| - 1]); 10 * ParseDigits(d[..|d| - 1]) + (d[|d| - 1] - ZERO)
  }

  /** Printing is exact: it parses back, and has no leading zero. */
  lemma {:induction false} DigitsExact(v: nat)
    ensures ParseDigits(Digits(v)) == v
    ensures v > 0 ==> Digits(v)[0] != ZERO
  {
    if v >= 10 {
      DigitsExact(v / 10);
      assert Digits(v)[..|Digits(v)| - 1] == Digits(v / 10);
    } else {
      assert Digits(v)[..0] == [];
    }
  }

  lemma DigitsInjective(a: nat, b: nat)
    requires Digits(a) == Digits(b)
    ensures a == b
  {
    DigitsExact(a);
    DigitsExact(b);
  }

  lemma LastDigit(v: nat)
    requires v > 0
    ensures Digits(v) == (if v / 10 == 0 then [] else Digits(v / 10)) + [ZERO + v % 10]
  {
  }

  /** Every digit string without a leading zero is the print of the number it denotes. */
  lemma {:induction false} ParseExact(d: bytes)
    requires d != [] && (forall c <- d :: IsDigit(c)) && (|d| > 1 ==> d[0] != ZERO)
    ensures Digits(ParseDigits(d)) == d
    ensures d[0] != ZERO ==> ParseDigits(d) > 0
  {
    if |d| > 1 {
      hide Digits;
      ParseExact(d[..|d| - 1]);
      assert d == d[..|d| - 1] + [d[|d| - 1]];
      var v, last := ParseDigits(d), d[|d| - 1] - ZERO;
      assert IsDigit(d[|d| - 1]) && v == 10 * ParseDigits(d[..|d| - 1]) + last;
      assert v / 10 == ParseDigits(d[..|d| - 1]) && v % 10 == last;
      LastDigit(v);
    } else {
      assert d[..0] == [] && IsDigit(d[0]) && d == [d[0]];
    }
  }

  ghost function Pow10(n: nat): nat {
    if n == 0 then 1 else 10 * Pow10(n - 1)
  }

  lemma TwentyDigitsSuffice()
    ensures U64 <= Pow10(20)
  {
    assert Pow10(5) == 100000;
    assert Pow10(10) == 10000000000;
    assert Pow10(15) == 1000000000000000;
    assert Pow10(20) == 100000000000000000000;
  }

  lemma OneDigitFewer(v: nat, room: nat)
    requires 0 < v < Pow10(room)
    ensures room > 0 && v / 10 < Pow10(room - 1)
  {
  }

  /** The digits still to be written. */
  function Rest(v: nat): bytes {
    if v == 0 then [] else Digits(v)
  }

  lemma DigitWritten(v: nat, written: bytes)
    requires v > 0
    ensures Rest(v) + written == Rest(v / 10) + ([ZERO + v % 10] + written)
  {
    hide Digits;
    LastDigit(v);
    assert (Rest(v / 10) + [ZERO + v % 10]) + written == Rest(v / 10) + ([ZERO + v % 10] + written);
  }

  /** Writing one byte in front of the part already filled. */
  method PutBefore(buf: array<byte>, at: nat, d: byte)
    requires at < buf.Length
    modifies buf
    ensures buf[at..] == [d] + old(buf[at + 1..])
  {
    buf[at] := d;
  }

  lemma NothingWritten(v: nat)
    requires v > 0
    ensures Digits(v) == Rest(v) + []
  {
  }

  lemma AllWritten(s: bytes)
    ensures Rest(0) + s == s
  {
  }

  /** u64 and formatUint64: digits are written backwards from the end of a 20-byte buffer. */
  method FormatUint64(v0: uint64) returns (s: bytes)
    ensures s == Digits(v0) && |s| <= 20
  {
    if v0 == 0 {
      return [ZERO];
    }
    TwentyDigitsSuffice();
    NothingWritten(v0);
    hide Pow10, Digits, Rest;
    var v: nat := v0;
    var buf := new byte[20](_ => 0);
    var n := 0;
    assert buf[20..] == [];
    while v > 0
      invariant 0 <= n <= 20 && v < Pow10(20 - n)
      invariant Digits(v0) == Rest(v) + buf[20 - n..]
      decreases v
    {
      OneDigitFewer(v, 20 - n);
      DigitWritten(v, buf[20 - n..]);
      PutBefore(buf, 19 - n, ZERO + v % 10);
      n := n + 1;
      v := v / 10;
    }
    s := buf[20 - n..];
    AllWritten(s);
  }
}
