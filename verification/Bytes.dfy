/** Go's machine-level data: bytes, fixed-width integers, big-endian fields and hex text.
    A Go `string` and a Go `[]byte` are both sequences of bytes here. */
module Bytes {

  type byte = x: int | 0 <= x < 256
  type bytes = seq<byte>

  const U32: int := 0x1_0000_0000
  const U64: int := 0x1_0000_0000_0000_0000

  type uint64 = x: int | 0 <= x < 0x1_0000_0000_0000_0000

  /** `x + 1` on a uint64: the largest value wraps to 0. */
  function Succ(x: uint64): uint64 {
    (x + 1) % U64
  }

  lemma SuccOfMod(n: nat)
    ensures Succ(n % U64) == (n + 1) % U64
  {
  }

  /** A 32-byte digest, and a hash function. Every result holds for every hash function. */
  type Digest = d: bytes | |d| == 32 witness seq(32, _ => 0)
  type Sha256 = bytes -> Digest

  datatype Option<+T> = None | Some(value: T)
  datatype Result<+T, +E> = Ok(value: T) | Err(error: E)

  function Zeros(n: nat): (z: bytes)
    ensures |z| == n
  {
    seq(n, _ => 0)
  }

  // ---------------------------------------------------------------- big-endian fields

  ghost function Pow256(n: nat): (p: nat)
    ensures p > 0
  {
    if n == 0 then 1 else 256 * Pow256(n - 1)
  }

  /** The low `n` bytes of `v`, most significant first. */
  function BigEndian(v: nat, n: nat): (b: bytes)
    ensures |b| == n
    decreases n
  {
    if n == 0 then [] else BigEndian(v / 256, n - 1) + [v % 256]
  }

  function FromBigEndian(b: bytes): nat {
    if b == [] then 0 else 256 * FromBigEndian(b[..|b| - 1]) + b[|b| - 1]
  }

  lemma {:induction false} BigEndianRoundTrip(v: nat, n: nat)
    requires v < Pow256(n)
    ensures FromBigEndian(BigEndian(v, n)) == v
    decreases n
  {
    if n > 0 {
      BigEndianRoundTrip(v / 256, n - 1);
      assert BigEndian(v, n)[..n - 1] == BigEndian(v / 256, n - 1);
    }
  }

  lemma {:induction false} FromBigEndianRoundTrip(b: bytes)
    ensures FromBigEndian(b) < Pow256(|b|)
    ensures BigEndian(FromBigEndian(b), |b|) == b
    decreases |b|
  {
    if b != [] {
      FromBigEndianRoundTrip(b[..|b| - 1]);
    }
  }

  /** Byte `i` of `n` is the digit of weight 256^(n - 1 - i): the most significant byte comes first. */
  lemma {:induction false} BigEndianByte(v: nat, n: nat, i: nat)
    requires i < n
    ensures BigEndian(v, n)[i] == (v / Pow256(n - 1 - i)) % 256
    decreases n
  {
    if i == n - 1 {
      assert Pow256(0) == 1;
    } else {
      BigEndianByte(v / 256, n - 1, i);
      DivByProduct(v, Pow256(n - 2 - i));
    }
  }

  lemma DivByProduct(v: nat, p: nat)
    requires p > 0
    ensures v / 256 / p == v / (256 * p)
  {
    var q, r := v / 256 / p, v / 256 % p;
    var low := v % 256;
    assert v == 256 * (q * p + r) + low;
    assert v == (256 * p) * q + (256 * r + low);
    assert 256 * r + low < 256 * p;
    QuotientIs(v, 256 * p, q, 256 * r + low);
  }

  lemma QuotientIs(v: nat, d: nat, q: nat, r: nat)
    requires d > 0 && r < d && v == d * q + r
    ensures v / d == q
  {
    var q', r' := v / d, v % d;
    QuotientUnique(d, q, r, q', r');
  }

  lemma QuotientUnique(d: nat, q: nat, r: nat, q': nat, r': nat)
    requires d * q + r == d * q' + r' && r < d && r' < d
    ensures q == q'
  {
    if q' < q { MulOrder(q', q, d); }
    if q < q' { MulOrder(q, q', d); }
  }

  lemma MulOrder(a: int, b: int, m: nat)
    requires a < b
    ensures a * m + m <= b * m
  {
    assert (b - a - 1) * m >= 0;
  }

  lemma FieldWidths()
    ensures Pow256(8) == U64 && Pow256(4) == U32
  {
    assert Pow256(2) == 0x1_0000;
    assert Pow256(4) == 0x1_0000_0000;
    assert Pow256(6) == 0x1_0000_0000_0000;
  }

  // ---------------------------------------------------------------- hexadecimal text

  /** Lower-case digit of a nibble, as fmt's %x prints it. */
  function HexDigit(n: int): byte
    requires 0 <= n < 16
  {
    if n < 10 then 0x30 + n else 0x61 + n - 10
  }

  predicate IsLowerHexDigit(c: byte) {
    0x30 <= c <= 0x39 || 0x61 <= c <= 0x66
  }

  /** fmt.Sprintf("%064x", b) on a 32-byte slice: two lower-case digits a byte. */
  function ToHex(b: bytes): (h: bytes)
    ensures |h| == 2 * |b|
    ensures forall c <- h :: IsLowerHexDigit(c)
  {
    if b == [] then [] else [HexDigit(b[0] / 16), HexDigit(b[0] % 16)] + ToHex(b[1..])
  }

  const DIGITS_OF_HEX := "0123456789abcdef"

  /** Each byte prints as two lower-case digits, the high half first. */
  lemma {:induction false} ToHexAt(b: bytes, i: nat)
    requires i < |b|
    ensures ToHex(b)[2 * i] == DIGITS_OF_HEX[b[i] / 16] as int
    ensures ToHex(b)[2 * i + 1] == DIGITS_OF_HEX[b[i] % 16] as int
  {
    if i == 0 {
      HexDigitIs(b[0] / 16);
      HexDigitIs(b[0] % 16);
    } else {
      ToHexAt(b[1..], i - 1);
      assert ToHex(b)[2..] == ToHex(b[1..]);
    }
  }

  lemma HexDigitIs(n: int)
    requires 0 <= n < 16
    ensures HexDigit(n) == DIGITS_OF_HEX[n] as int
  {
    assert DIGITS_OF_HEX[0] == '0' && DIGITS_OF_HEX[1] == '1' && DIGITS_OF_HEX[2] == '2' && DIGITS_OF_HEX[3] == '3';
    assert DIGITS_OF_HEX[4] == '4' && DIGITS_OF_HEX[5] == '5' && DIGITS_OF_HEX[6] == '6' && DIGITS_OF_HEX[7] == '7';
    assert DIGITS_OF_HEX[8] == '8' && DIGITS_OF_HEX[9] == '9' && DIGITS_OF_HEX[10] == 'a' && DIGITS_OF_HEX[11] == 'b';
    assert DIGITS_OF_HEX[12] == 'c' && DIGITS_OF_HEX[13] == 'd' && DIGITS_OF_HEX[14] == 'e' && DIGITS_OF_HEX[15] == 'f';
  }

  /** Bitwise or. */
  function BitOr(a: nat, b: nat): nat
    decreases a + b
  {
    if a == 0 && b == 0 then 0
    else (if a % 2 == 1 || b % 2 == 1 then 1 else 0) + 2 * BitOr(a / 2, b / 2)
  }

  lemma {:induction false} BitOrBound(a: nat, b: nat, width: nat)
    requires a < Pow2(width) && b < Pow2(width)
    ensures BitOr(a, b) < Pow2(width)
    decreases width
  {
    if a != 0 || b != 0 { BitOrBound(a / 2, b / 2, width - 1); }
  }

  /** Bit `i` of the result is set exactly when it is set in one of the operands. */
  lemma {:induction false} BitOrBit(a: nat, b: nat, i: nat)
    ensures (BitOr(a, b) / Pow2(i)) % 2 == 1 <==> (a / Pow2(i)) % 2 == 1 || (b / Pow2(i)) % 2 == 1
    decreases i
  {
    if i == 0 {
      assert Pow2(0) == 1;
    } else {
      var low, or := BitOr(a, b) % 2, BitOr(a / 2, b / 2);
      BitOrBit(a / 2, b / 2, i - 1);
      HalfThenDiv(a, Pow2(i - 1));
      HalfThenDiv(b, Pow2(i - 1));
      HalfThenDiv(BitOr(a, b), Pow2(i - 1));
      assert BitOr(a, b) / 2 == or;
    }
  }

  lemma HalfThenDiv(v: nat, p: nat)
    requires p > 0
    ensures v / (2 * p) == v / 2 / p
  {
    var q, r := v / 2 / p, v / 2 % p;
    assert v / 2 == p * q + r;
    assert v == (2 * p) * q + (2 * r + v % 2);
    QuotientIs(v, 2 * p, q, 2 * r + v % 2);
  }

  /** Upper- and lower-case digits are read alike. */
  lemma NibbleOfUpperCase(n: int)
    requires 10 <= n < 16
    ensures Nibble(0x41 + n - 10) == n == Nibble(0x61 + n - 10)
  {
  }

  ghost function Pow2(n: nat): (p: nat)
    ensures p > 0
  {
    if n == 0 then 1 else 2 * Pow2(n - 1)
  }

  /** One hex character, with the byte arithmetic of the source: no validity check, wrap mod 256. */
  function Nibble(c: byte): byte {
    if c >= 0x61 then (c - 0x61 + 10) % 256
    else if c >= 0x41 then (c - 0x41 + 10) % 256
    else (c - 0x30) % 256
  }

  /** high<<4 | low, in a byte. */
  function HexToByte(a: byte, b: byte): byte {
    BitOrBound((16 * Nibble(a)) % 256, Nibble(b), 8);
    BitOr((16 * Nibble(a)) % 256, Nibble(b))
  }

  function FromHex(h: bytes): (b: bytes)
    requires |h| % 2 == 0
    ensures |b| == |h| / 2
  {
    if h == [] then [] else [HexToByte(h[0], h[1])] + FromHex(h[2..])
  }

  /** No character is rejected: each stands for its distance from the first digit of its range, wrapping mod 256. */
  lemma NibbleIsDistance(c: byte)
    ensures (Nibble(c) + (if c >= 0x61 then 0x61 - 10 else if c >= 0x41 then 0x41 - 10 else 0x30)) % 256 == c
  {
  }

  ghost predicate Bit(v: nat, i: nat) {
    (v / Pow2(i)) % 2 == 1
  }

  /** The first character gives the high four bits, the second all bits it has. */
  lemma HexToByteBit(a: byte, b: byte, i: nat)
    requires i < 8
    ensures Bit(HexToByte(a, b), i) <==> Bit(Nibble(b), i) || (i >= 4 && Bit(Nibble(a), i - 4))
  {
    BitOrBit((16 * Nibble(a)) % 256, Nibble(b), i);
    ShiftedBit(Nibble(a), i);
  }

  lemma ShiftedBit(x: byte, i: nat)
    requires i < 8
    ensures Bit((16 * x) % 256, i) <==> i >= 4 && Bit(x, i - 4)
  {
    hide Bit;
    var low := x % 16;
    TimesSixteen(x);
    DoubledBit(low, i - 3);
    DoubledBit(2 * low, i - 2);
    DoubledBit(2 * (2 * low), i - 1);
    DoubledBit(2 * (2 * (2 * low)), i);
    if i >= 4 { LowBit(x, i - 4); }
  }

  lemma TimesSixteen(x: byte)
    ensures (16 * x) % 256 == 2 * (2 * (2 * (2 * (x % 16))))
  {
  }

  lemma DoubledBit(v: nat, i: int)
    ensures i >= 0 ==> (Bit(2 * v, i) <==> i > 0 && Bit(v, i - 1))
  {
    if i > 0 {
      HalfThenDiv(2 * v, Pow2(i - 1));
    } else if i == 0 {
      assert Pow2(0) == 1;
    }
  }

  lemma LowBit(x: byte, i: nat)
    requires i < 4
    ensures Bit(x % 16, i) <==> Bit(x, i)
  {
    var high, low := x / 16, x % 16;
    SmallPowers();
    hide Pow2;
    if i == 0 {
    } else if i == 1 {
      LowQuotient(2, 4, high, low, x);
    } else if i == 2 {
      LowQuotient(4, 2, high, low, x);
    } else {
      LowQuotient(8, 1, high, low, x);
    }
  }

  lemma SmallPowers()
    ensures Pow2(0) == 1 && Pow2(1) == 2 && Pow2(2) == 4 && Pow2(3) == 8
  {
  }

  lemma LowQuotient(d: nat, half: nat, high: nat, low: nat, x: nat)
    requires d > 0 && d * (2 * half) == 16 && x == 16 * high + low
    ensures (x / d) % 2 == (low / d) % 2
  {
    var q, r, k := low / d, low % d, half * high;
    assert low == d * q + r;
    MulAssoc(d, 2 * half, high);
    assert 16 * high == d * (2 * half * high);
    MulAssoc(2, half, high);
    assert x == d * (2 * k) + d * q + r;
    MulSum(d, 2 * k, q);
    QuotientIs(x, d, 2 * k + q, r);
  }

  lemma MulAssoc(a: int, b: int, c: int)
    ensures a * b * c == a * (b * c)
  {
  }

  lemma MulSum(a: int, b: int, c: int)
    ensures a * b + a * c == a * (b + c)
  {
  }

  lemma OrOfEven(a: nat, b: nat)
    ensures BitOr(2 * a, b) == b % 2 + 2 * BitOr(a, b / 2)
  {
  }

  lemma OrOfNibbles(high: nat, low: nat)
    requires high < 16 && low < 16
    ensures BitOr(16 * high, low) == 16 * high + low
  {
    hide BitOr;
    OrOfEven(8 * high, low);
    OrOfEven(4 * high, low / 2);
    OrOfEven(2 * high, low / 4);
    OrOfEven(high, low / 8);
    assert low / 2 / 2 == low / 4 && low / 4 / 2 == low / 8 && low / 8 / 2 == 0;
    OrWithZero(high);
  }

  lemma {:induction false} OrWithZero(a: nat)
    ensures BitOr(a, 0) == a
  {
    if a > 0 { OrWithZero(a / 2); }
  }

  lemma NibbleOfDigit(n: int)
    requires 0 <= n < 16
    ensures Nibble(HexDigit(n)) == n && IsLowerHexDigit(HexDigit(n))
  {
  }

  lemma HexByteOfDigits(x: byte, y: byte)
    requires IsLowerHexDigit(x) && IsLowerHexDigit(y)
    ensures Nibble(x) < 16 && Nibble(y) < 16
    ensures HexToByte(x, y) == 16 * Nibble(x) + Nibble(y)
  {
    hide BitOr;
    var high, low := Nibble(x), Nibble(y);
    OrOfNibbles(high, low);
    assert (16 * high) % 256 == 16 * high;
  }

  lemma HexByteRoundTrip(b: byte)
    ensures HexToByte(HexDigit(b / 16), HexDigit(b % 16)) == b
  {
    hide HexToByte, Nibble, HexDigit;
    NibbleOfDigit(b / 16);
    NibbleOfDigit(b % 16);
    HexByteOfDigits(HexDigit(b / 16), HexDigit(b % 16));
  }

  lemma HexDigitsSurvive(x: byte, y: byte)
    requires IsLowerHexDigit(x) && IsLowerHexDigit(y)
    ensures HexDigit(HexToByte(x, y) / 16) == x && HexDigit(HexToByte(x, y) % 16) == y
  {
    hide HexToByte;
    HexByteOfDigits(x, y);
    var b := HexToByte(x, y);
    var high, low := Nibble(x), Nibble(y);
    assert b == 16 * high + low;
    assert b / 16 == high && b % 16 == low;
    assert HexDigit(high) == x && HexDigit(low) == y;
  }

  /** Decoding what %064x printed gives the bytes back. */
  lemma {:induction false} HexRoundTrip(b: bytes)
    ensures FromHex(ToHex(b)) == b
  {
    if b != [] {
      HexByteRoundTrip(b[0]);
      assert ToHex(b)[2..] == ToHex(b[1..]);
      HexRoundTrip(b[1..]);
    }
  }

  /** Printing a decoded text gives the text back exactly when it is lower-case hex. */
  lemma {:induction false} HexTextRoundTrip(h: bytes)
    requires |h| % 2 == 0
    ensures ToHex(FromHex(h)) == h <==> (forall c <- h :: IsLowerHexDigit(c))
  {
    if forall c <- h :: IsLowerHexDigit(c) {
      LowerHexSurvives(h);
    }
  }

  lemma {:induction false} LowerHexSurvives(h: bytes)
    requires |h| % 2 == 0
    requires forall c <- h :: IsLowerHexDigit(c)
    ensures ToHex(FromHex(h)) == h
  {
    if h != [] {
      HexDigitsSurvive(h[0], h[1]);
      LowerHexSurvives(h[2..]);
      assert FromHex(h)[1..] == FromHex(h[2..]);
    }
  }

  lemma HexInjective(a: bytes, b: bytes)
    requires ToHex(a) == ToHex(b)
    ensures a == b
  {
    HexRoundTrip(a);
    HexRoundTrip(b);
  }
}
