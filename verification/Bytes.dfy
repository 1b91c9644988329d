/** Bytes, and the integers stored in them. */
module Bytes {

  type byte = b: int | 0 <= b < 256

  const TWO_TO_THE_16: nat := 0x1_0000
  const TWO_TO_THE_32: nat := 0x1_0000_0000
  const TWO_TO_THE_64: nat := 0x1_0000_0000_0000_0000

  function Min(a: nat, b: nat): nat {
    if a <= b then a else b
  }

  function Power2(k: nat): nat {
    if k == 0 then 1 else 2 * Power2(k - 1)
  }

  /** Exclusive or of the k low bits of a and b. */
  function XorBits(a: nat, b: nat, k: nat): nat {
    if k == 0 then 0 else (a + b) % 2 + 2 * XorBits(a / 2, b / 2, k - 1)
  }

  /** Bitwise exclusive or of two bytes. */
  function Xor(a: byte, b: byte): byte {
    XorBitsBound(a, b, 8);
    XorBits(a, b, 8)
  }

  lemma {:induction false} XorBitsBound(a: nat, b: nat, k: nat)
    ensures XorBits(a, b, k) < Power2(k)
  {
    if k > 0 {
      XorBitsBound(a / 2, b / 2, k - 1);
    }
  }

  lemma {:induction false} XorBitsZero(a: nat, k: nat)
    requires a < Power2(k)
    ensures XorBits(a, 0, k) == a
  {
    if k > 0 {
      XorBitsZero(a / 2, k - 1);
    }
  }

  lemma {:induction false} XorBitsTwice(a: nat, b: nat, k: nat)
    requires a < Power2(k)
    ensures XorBits(XorBits(a, b, k), b, k) == a
  {
    if k > 0 {
      var q, r := XorBits(a / 2, b / 2, k - 1), XorBits(a, b, k);
      LowBit(a, b, q, r);
      XorBitsTwice(a / 2, b / 2, k - 1);
      calc {
        XorBits(r, b, k);
        (r + b) % 2 + 2 * XorBits(r / 2, b / 2, k - 1);
        a % 2 + 2 * (a / 2);
      }
    }
  }

  lemma LowBit(a: nat, b: nat, q: nat, r: nat)
    requires r == (a + b) % 2 + 2 * q
    ensures r / 2 == q && (r + b) % 2 == a % 2
  {
  }

  /** The bit of value 2^k. */
  function Bit(n: nat, k: nat): nat {
    if k == 0 then n % 2 else Bit(n / 2, k - 1)
  }

  /** Each bit of the exclusive or is the sum of the two bits, modulo 2. */
  lemma XorBit(a: byte, b: byte, k: nat)
    requires k < 8
    ensures Bit(Xor(a, b), k) == (Bit(a, k) + Bit(b, k)) % 2
  {
    XorBitsBit(a, b, 8, k);
  }

  lemma {:induction false} XorBitsBit(a: nat, b: nat, n: nat, k: nat)
    requires k < n
    ensures Bit(XorBits(a, b, n), k) == (Bit(a, k) + Bit(b, k)) % 2
    decreases k
  {
    hide XorBits;
    var q, r := XorBits(a / 2, b / 2, n - 1), XorBits(a, b, n);
    XorBitsUnfold(a, b, n);
    if k > 0 {
      XorBitsBit(a / 2, b / 2, n - 1, k - 1);
    }
  }

  lemma XorBitsUnfold(a: nat, b: nat, n: nat)
    requires n > 0
    ensures var r := XorBits(a, b, n); r / 2 == XorBits(a / 2, b / 2, n - 1) && r % 2 == (a % 2 + b % 2) % 2
  {
    var q, r := XorBits(a / 2, b / 2, n - 1), XorBits(a, b, n);
    assert r == (a + b) % 2 + 2 * q;
    hide XorBits;
    HalfAndLow(r, (a + b) % 2, q);
    ParityAdds(a, b);
  }

  lemma HalfAndLow(r: nat, low: nat, q: nat)
    requires low < 2 && r == low + 2 * q
    ensures r / 2 == q && r % 2 == low
  {
  }

  lemma ParityAdds(a: nat, b: nat)
    ensures (a + b) % 2 == (a % 2 + b % 2) % 2
  {
    HalfAndLow(a + b, (a % 2 + b % 2) % 2, a / 2 + b / 2 + (a % 2 + b % 2) / 2);
  }

  lemma XorZero(a: byte)
    ensures Xor(a, 0) == a
  {
    XorBitsZero(a, 8);
  }

  /** Masking is its own inverse. */
  lemma XorTwice(a: byte, k: byte)
    ensures Xor(Xor(a, k), k) == a
  {
    XorBitsTwice(a, k, 8);
  }

  /** n shifted right by k bytes. */
  function ShiftRight(n: nat, k: nat): nat {
    if k == 0 then n else ShiftRight(n / 256, k - 1)
  }

  function Power256(k: nat): (p: nat)
    ensures p > 0
  {
    if k == 0 then 1 else 256 * Power256(k - 1)
  }

  /** The k low bytes of n, most significant first. */
  function ToBigEndian(n: nat, k: nat): (s: seq<byte>)
    ensures |s| == k
  {
    if k == 0 then [] else ToBigEndian(n / 256, k - 1) + [n % 256]
  }

  function FromBigEndian(s: seq<byte>): nat {
    if |s| == 0 then 0 else 256 * FromBigEndian(s[..|s| - 1]) + s[|s| - 1]
  }

  /** The k low bytes of n, least significant first. */
  function ToLittleEndian(n: nat, k: nat): (s: seq<byte>)
    ensures |s| == k
  {
    if k == 0 then [] else [n % 256] + ToLittleEndian(n / 256, k - 1)
  }

  function FromLittleEndian(s: seq<byte>): nat {
    if |s| == 0 then 0 else s[0] + 256 * FromLittleEndian(s[1..])
  }

  lemma {:induction false} BigEndianRoundTrip(n: nat, k: nat)
    requires n < Power256(k)
    ensures FromBigEndian(ToBigEndian(n, k)) == n
  {
    if k > 0 {
      var s := ToBigEndian(n, k);
      BigEndianRoundTrip(n / 256, k - 1);
      assert s[..|s| - 1] == ToBigEndian(n / 256, k - 1);
    }
  }

  lemma {:induction false} LittleEndianRoundTrip(n: nat, k: nat)
    requires n < Power256(k)
    ensures FromLittleEndian(ToLittleEndian(n, k)) == n
  {
    if k > 0 {
      LittleEndianRoundTrip(n / 256, k - 1);
    }
  }

  lemma {:induction false} FromLittleEndianBound(s: seq<byte>)
    ensures FromLittleEndian(s) < Power256(|s|)
  {
    if |s| > 0 {
      FromLittleEndianBound(s[1..]);
    }
  }

  lemma {:induction false} FromBigEndianBound(s: seq<byte>)
    ensures FromBigEndian(s) < Power256(|s|)
  {
    if |s| > 0 {
      FromBigEndianBound(s[..|s| - 1]);
    }
  }

  lemma {:induction false} BigEndianByte(n: nat, k: nat, i: nat)
    requires i < k
    ensures ToBigEndian(n, k)[i] == ShiftRight(n, k - 1 - i) % 256
  {
    if i < k - 1 {
      BigEndianByte(n / 256, k - 1, i);
    }
  }

  lemma PowersOf256()
    ensures Power256(1) == 256 && Power256(2) == TWO_TO_THE_16
    ensures Power256(4) == TWO_TO_THE_32 && Power256(8) == TWO_TO_THE_64
  {
    assert Power256(3) == 256 * Power256(2);
    assert Power256(5) == 256 * Power256(4);
    assert Power256(7) == 256 * (256 * Power256(5));
  }

  lemma {:induction false} TimesMonotonic(a: nat, b: nat, d: nat)
    ensures a < b ==> a * d + d <= b * d
  {
    if a < b {
      TimesMonotonic(a, b - 1, d);
      assert b * d == (b - 1) * d + d;
    }
  }

  lemma DivisionIsUnique(n: nat, d: nat, q: nat, r: nat)
    requires d > 0 && n == q * d + r && r < d
    ensures n / d == q && n % d == r
  {
    TimesMonotonic(n / d, q, d);
    TimesMonotonic(q, n / d, d);
  }
}
