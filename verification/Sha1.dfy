/** SHA-1: the definition of FIPS 180-4, and the byte-at-a-time computation of the program. */
module Sha1 {
  import opened Bytes
  import opened Seqs

  type word = bv32

  /** The 32-bit word with the k low bits of n. */
  function Bits(n: nat, k: nat): word {
    if k == 0 then 0 else (Bits(n / 2, k - 1) << 1) | (if n % 2 == 0 then 0 else 1)
  }

  function Widen(b: byte): word {
    Bits(b, 8)
  }

  datatype Registers = Registers(a: word, b: word, c: word, d: word, e: word)

  /** FIPS 180-4, section 5.3.1. */
  const INITIAL := Registers(0x67452301, 0xEFCDAB89, 0x98BADCFE, 0x10325476, 0xC3D2E1F0)

  // ----- FIPS 180-4, sections 3.2, 4.1.1 and 4.2.1

  function Rotl1(x: word): word { (x << 1) | (x >> 31) }

  function Rotl5(x: word): word { (x << 5) | (x >> 27) }

  function Rotl30(x: word): word { (x << 30) | (x >> 2) }

  function F(t: nat, x: word, y: word, z: word): word {
    if t < 20 then (x & y) ^ (!x & z)
    else if t < 40 then x ^ y ^ z
    else if t < 60 then (x & y) ^ (x & z) ^ (y & z)
    else x ^ y ^ z
  }

  function K(t: nat): word {
    if t < 20 then 0x5A827999 else if t < 40 then 0x6ED9EBA1 else if t < 60 then 0x8F1BBCDC else 0xCA62C1D6
  }

  /** Addition modulo 2^32. */
  function Plus(x: word, y: word): word { x + y }

  // ----- FIPS 180-4, section 6.1.2

  function Join(p: word, q: word, r: word, s: word): word {
    (p << 24) | (q << 16) | (r << 8) | s
  }

  function Word(block: seq<byte>, t: nat): word
    requires |block| == 64 && t < 16
  {
    Join(Widen(block[4 * t]), Widen(block[4 * t + 1]), Widen(block[4 * t + 2]), Widen(block[4 * t + 3]))
  }

  function Schedule(block: seq<byte>, t: nat): word
    requires |block| == 64
  {
    if t < 16 then Word(block, t)
    else Rotl1(Schedule(block, t - 3) ^ Schedule(block, t - 8) ^ Schedule(block, t - 14) ^ Schedule(block, t - 16))
  }

  function Round(r: Registers, t: nat, w: word): Registers {
    Registers(Plus(Plus(Plus(Plus(Rotl5(r.a), F(t, r.b, r.c, r.d)), r.e), K(t)), w), r.a, Rotl30(r.b), r.c, r.d)
  }

  function Rounds(block: seq<byte>, r: Registers, n: nat): Registers
    requires |block| == 64
  {
    if n == 0 then r else Round(Rounds(block, r, n - 1), n - 1, Schedule(block, n - 1))
  }

  function Add(r: Registers, s: Registers): Registers {
    Registers(Plus(r.a, s.a), Plus(r.b, s.b), Plus(r.c, s.c), Plus(r.d, s.d), Plus(r.e, s.e))
  }

  /** The fold of the compression function over the blocks of a padded message. */
  function Hash(m: seq<byte>): Registers
    requires |m| % 64 == 0
  {
    if |m| == 0 then INITIAL
    else
      var h, block := Hash(m[..|m| - 64]), m[|m| - 64..];
      Add(h, Rounds(block, h, 80))
  }

  // ----- FIPS 180-4, section 5.1.1

  function Zeros(n: nat): (s: seq<byte>)
    ensures |s| == n
  {
    seq(n, _ => 0)
  }

  function PadZeros(n: nat): nat {
    (55 - n as int) % 64
  }

  function Pad(m: seq<byte>): seq<byte> {
    m + [0x80] + Zeros(PadZeros(|m|)) + ToBigEndian(8 * |m|, 8)
  }

  /** The number of zero bytes is the least that leaves room for the length in the last block. */
  lemma PadZerosIsLeast(n: nat, k: nat)
    ensures (n + 1 + PadZeros(n)) % 64 == 56
    ensures (n + 1 + k) % 64 == 56 ==> PadZeros(n) <= k
  {
  }

  lemma PadZerosFrom(n: nat)
    ensures var r := (n + 1) % 64; PadZeros(n) == if r > 56 then 120 - r else 56 - r
  {
  }

  // ----- What the definitions mean

  lemma OneMoreBit(x: word, bit: nat)
    requires x as int < 128 && bit < 2
    ensures ((x << 1) | (if bit == 0 then 0 else 1)) as int == 2 * (x as int) + bit
  {
  }

  lemma PowersToByte(k: nat)
    requires 0 < k <= 8
    ensures Power2(k) == 2 * Power2(k - 1) && Power2(k - 1) <= 128
  {
    assert Power2(4) == 2 * (2 * (2 * (2 * Power2(0)))) && Power2(7) == 2 * (2 * (2 * Power2(4)));
  }

  lemma {:induction false} BitsValue(n: nat, k: nat)
    requires n < Power2(k) && k <= 8
    ensures Bits(n, k) as int == n
  {
    if k > 0 {
      PowersToByte(k);
      hide Power2;
      BitsValue(n / 2, k - 1);
      OneMoreBit(Bits(n / 2, k - 1), n % 2);
    }
  }

  lemma WidenValue(b: byte)
    ensures Widen(b) as int == b
  {
    assert Power2(8) == 256;
    BitsValue(b, 8);
  }

  /** The constants are the square roots of 2, 3, 5 and 10, times 2^30, rounded down. */
  lemma ConstantsAreRoots(t: nat)
    ensures t < 20 ==> K(t) == 0x5A827999
    ensures 20 <= t < 40 ==> K(t) == 0x6ED9EBA1
    ensures 40 <= t < 60 ==> K(t) == 0x8F1BBCDC
    ensures 60 <= t ==> K(t) == 0xCA62C1D6
    ensures 0x5A827999 * 0x5A827999 <= 0x1000_0000_0000_0000 * 2 < 0x5A82799A * 0x5A82799A
    ensures 0x6ED9EBA1 * 0x6ED9EBA1 <= 0x1000_0000_0000_0000 * 3 < 0x6ED9EBA2 * 0x6ED9EBA2
    ensures 0x8F1BBCDC * 0x8F1BBCDC <= 0x1000_0000_0000_0000 * 5 < 0x8F1BBCDD * 0x8F1BBCDD
    ensures 0xCA62C1D6 * 0xCA62C1D6 <= 0x1000_0000_0000_0000 * 10 < 0xCA62C1D7 * 0xCA62C1D7
  {
  }

  lemma RotationsAre(x: word)
    ensures Rotl1(x) == x.RotateLeft(1) && Rotl5(x) == x.RotateLeft(5) && Rotl30(x) == x.RotateLeft(30)
  {
  }

  /** In the first rounds ones of x choose y and zeros choose z; in the third twenty two equal words outvote
      the other; in the rest two equal words cancel. */
  lemma FunctionsAre(t: nat, x: word, y: word)
    ensures t < 20 ==> F(t, 0xFFFF_FFFF, x, y) == x && F(t, 0, x, y) == y && F(t, x, y, y) == y
    ensures 40 <= t < 60 ==> F(t, x, x, y) == x && F(t, x, y, x) == x && F(t, y, x, x) == x
    ensures 20 <= t < 40 || 60 <= t ==> F(t, x, x, y) == y && F(t, x, y, x) == y && F(t, y, x, x) == y
  {
  }

  // ----- The forms the program uses

  lemma RotateForms(x: word)
    ensures (x << 1) ^ (x >> 31) == Rotl1(x)
    ensures (x << 5) ^ (x >> 27) == Rotl5(x)
    ensures (x << 30) ^ (x >> 2) == Rotl30(x)
  {
  }

  function ProgramF(i: nat, b: word, c: word, d: word): word {
    if i < 20 then (b & c) | (!b & d)
    else if i < 40 then b ^ c ^ d
    else if i < 60 then (b & c) | (b & d) | (c & d)
    else b ^ c ^ d
  }

  lemma FForms(i: nat, b: word, c: word, d: word)
    ensures ProgramF(i, b, c, d) == F(i, b, c, d)
  {
    assert (b & c) | (!b & d) == (b & c) ^ (!b & d);
    assert (b & c) | (b & d) | (c & d) == (b & c) ^ (b & d) ^ (c & d);
  }

  /** The block buffer begins with these bytes, one to a word. */
  ghost predicate Mirrors(block: seq<word>, bytes: seq<byte>) {
    |bytes| <= |block| && forall i :: 0 <= i < |bytes| ==> block[i] == Widen(bytes[i])
  }

  lemma MirrorsAppend(block: seq<word>, bytes: seq<byte>, x: byte)
    requires Mirrors(block, bytes) && |bytes| < |block|
    ensures Mirrors(block[|bytes| := Widen(x)], bytes + [x])
  {
  }

  /** The hash of the whole blocks of a prefix of the stream, and the bytes after them. */
  function Absorbed(m: seq<byte>): Registers {
    Hash(m[..|m| - |m| % 64])
  }

  function Waiting(m: seq<byte>): (s: seq<byte>)
    ensures |s| == |m| % 64
  {
    m[|m| - |m| % 64..]
  }

  lemma OneMoreByte(m: seq<byte>, x: byte)
    ensures |Waiting(m)| < 63 ==> Waiting(m + [x]) == Waiting(m) + [x] && Absorbed(m + [x]) == Absorbed(m)
    ensures |Waiting(m)| == 63 ==>
              var block := Waiting(m) + [x];
              Waiting(m + [x]) == [] && Absorbed(m + [x]) == Add(Absorbed(m), Rounds(block, Absorbed(m), 80))
  {
    hide Rounds, Add;
    var n, r := m + [x], |m| % 64;
    if r == 63 {
      assert |n| % 64 == 0 && n[..|n|] == n;
      assert n[|n| - 64..] == Waiting(m) + [x] && n[..|n| - 64] == m[..|m| - 63];
    } else {
      assert |n| % 64 == r + 1;
      assert n[..|n| - (r + 1)] == m[..|m| - r];
    }
  }

  lemma RoundForms(i: nat, r: Registers, w: word)
    ensures Round(r, i, w)
         == Registers(Plus(Plus(Plus(Plus((r.a << 5) ^ (r.a >> 27), ProgramF(i, r.b, r.c, r.d)), r.e), K(i)), w), r.a,
                      (r.b << 30) ^ (r.b >> 2), r.c, r.d)
  {
    RotateForms(r.a);
    RotateForms(r.b);
    FForms(i, r.b, r.c, r.d);
  }

  method EightyRounds(a0: word, b0: word, c0: word, d0: word, e0: word, w: seq<word>, ghost bytes: seq<byte>)
    returns (a: word, b: word, c: word, d: word, e: word)
    requires |w| == 80 && |bytes| == 64 && forall i :: 0 <= i < 80 ==> w[i] == Schedule(bytes, i)
    ensures Registers(a, b, c, d, e) == Rounds(bytes, Registers(a0, b0, c0, d0, e0), 80)
  {
    a, b, c, d, e := a0, b0, c0, d0, e0;
    for i := 0 to 80
      invariant Registers(a, b, c, d, e) == Rounds(bytes, Registers(a0, b0, c0, d0, e0), i)
    {
      RoundForms(i, Registers(a, b, c, d, e), w[i]);
      var temp := Plus(Plus(Plus(Plus((a << 5) ^ (a >> 27), ProgramF(i, b, c, d)), e), K(i)), w[i]);
      e := d;
      d := c;
      c := (b << 30) ^ (b >> 2);
      b := a;
      a := temp;
    }
  }

  class Stream {
    const digest: array<word>
    const block: array<word>
    var blockByteIndex: nat
    var byteCount: nat
    ghost var consumed: seq<byte>

    ghost function Digest(): Registers
      requires digest.Length == 5
      reads digest
    {
      Registers(digest[0], digest[1], digest[2], digest[3], digest[4])
    }

    /** The digest covers the whole blocks consumed; the rest waits in the block buffer. */
    ghost predicate Valid()
      reads this, digest, block
    {
      && digest.Length == 5 && block.Length == 64 && digest != block
      && byteCount == |consumed|
      && blockByteIndex == |Waiting(consumed)|
      && Digest() == Absorbed(consumed)
      && Mirrors(block[..], Waiting(consumed))
    }

    constructor ()
      ensures Valid() && consumed == []
      ensures fresh(digest) && fresh(block)
    {
      digest := new word[5];
      block := new word[64](_ => 0);
      blockByteIndex, byteCount, consumed := 0, 0, [];
      new;
      digest[0], digest[1], digest[2], digest[3], digest[4] :=
        0x67452301, 0xEFCDAB89, 0x98BADCFE, 0x10325476, 0xC3D2E1F0;
    }

    /** Expands the block into the eighty words of the message schedule. */
    method Expand(ghost bytes: seq<byte>) returns (w: array<word>)
      requires block.Length == 64 && |bytes| == 64
      requires Mirrors(block[..], bytes)
      ensures fresh(w) && w.Length == 80
      ensures forall i :: 0 <= i < 80 ==> w[i] == Schedule(bytes, i)
    {
      hide Widen, Rotl1;
      w := new word[80];
      for i := 0 to 16
        invariant forall j :: 0 <= j < i ==> w[j] == Schedule(bytes, j)
      {
        w[i] := (block[i * 4 + 0] << 24) | (block[i * 4 + 1] << 16) | (block[i * 4 + 2] << 8) | block[i * 4 + 3];
        assert w[i] == Word(bytes, i);
      }
      for i := 16 to 80
        invariant forall j :: 0 <= j < i ==> w[j] == Schedule(bytes, j)
      {
        var x := w[i - 3] ^ w[i - 8] ^ w[i - 14] ^ w[i - 16];
        RotateForms(x);
        w[i] := (x << 1) ^ (x >> 31);
        assert w[i] == Schedule(bytes, i);
      }
    }

    /** Folds the full block buffer into the digest. */
    method Compress(ghost bytes: seq<byte>)
      requires digest.Length == 5 && block.Length == 64 && digest != block && |bytes| == 64
      requires Mirrors(block[..], bytes)
      modifies digest
      ensures Digest() == Add(old(Digest()), Rounds(bytes, old(Digest()), 80))
    {
      var w := Expand(bytes);
      var a, b, c, d, e := EightyRounds(digest[0], digest[1], digest[2], digest[3], digest[4], w[..], bytes);
      digest[0] := Plus(digest[0], a);
      digest[1] := Plus(digest[1], b);
      digest[2] := Plus(digest[2], c);
      digest[3] := Plus(digest[3], d);
      digest[4] := Plus(digest[4], e);
    }

    method Store(input: byte)
      requires Valid() && blockByteIndex < 64
      modifies this`blockByteIndex, this`byteCount, block
      ensures blockByteIndex == old(blockByteIndex) + 1 && byteCount == old(byteCount) + 1
      ensures Mirrors(block[..], Waiting(consumed) + [input])
    {
      ghost var words := block[..][blockByteIndex := Widen(input)];
      MirrorsAppend(block[..], Waiting(consumed), input);
      block[blockByteIndex] := Widen(input);
      assert block[..] == words;
      blockByteIndex := blockByteIndex + 1;
      byteCount := byteCount + 1;
    }

    method Next(input: byte)
      requires Valid()
      modifies this, digest, block
      ensures Valid() && consumed == old(consumed) + [input]
      ensures blockByteIndex == if old(blockByteIndex) == 63 then 0 else old(blockByteIndex) + 1
    {
      OneMoreByte(consumed, input);
      hide Hash, Rounds, Waiting, Absorbed, Add, Widen;
      ghost var bytes := Waiting(consumed) + [input];
      Store(input);
      blockByteIndex := blockByteIndex % 64;
      if blockByteIndex == 0 {
        Compress(bytes);
      }
      consumed := consumed + [input];
    }
  }

  /** The padding the program feeds: only the low 32 bits of the length are written. */
  function ProgramPad(m: seq<byte>): seq<byte> {
    m + [0x80] + Zeros(PadZeros(|m|)) + ToBigEndian(8 * |m| % TWO_TO_THE_32, 8)
  }

  lemma ProgramPadParts(m: seq<byte>)
    ensures ProgramPad(m) == m + [0x80] + Zeros(PadZeros(|m|)) + ToBigEndian(8 * |m| % TWO_TO_THE_32, 8)
  {
  }

  lemma PaddedBlocks(m: seq<byte>)
    ensures |ProgramPad(m)| % 64 == 0 && |Pad(m)| % 64 == 0
  {
    PadZerosIsLeast(|m|, 0);
    RoomForLength(|m| + 1 + PadZeros(|m|));
    assert |Pad(m)| == |ProgramPad(m)| == (|m| + 1 + PadZeros(|m|)) + 8;
  }

  lemma RoomForLength(n: nat)
    requires n % 64 == 56
    ensures (n + 8) % 64 == 0
  {
  }

  lemma WholeBlocks(m: seq<byte>)
    requires |m| % 64 == 0
    ensures Absorbed(m) == Hash(m)
  {
    assert m[..|m|] == m;
  }

  lemma LengthFieldIff(n: nat)
    requires n < TWO_TO_THE_64
    ensures ToBigEndian(n % TWO_TO_THE_32, 8) == ToBigEndian(n, 8) <==> n < TWO_TO_THE_32
  {
    PowersOf256();
    hide ToBigEndian, FromBigEndian, Power256;
    BigEndianRoundTrip(n % TWO_TO_THE_32, 8);
    BigEndianRoundTrip(n, 8);
  }

  /** The length field is right exactly for messages under 2^29 bytes. */
  lemma PadIff(m: seq<byte>)
    requires |m| < 0x2000_0000_0000_0000
    ensures ProgramPad(m) == Pad(m) <==> |m| < 0x2000_0000
  {
    LengthFieldIff(8 * |m|);
    SameTail(m + [0x80] + Zeros(PadZeros(|m|)), ToBigEndian(8 * |m| % TWO_TO_THE_32, 8), ToBigEndian(8 * |m|, 8));
  }

  /** SHA-1 of the input; `fed` is the padded stream that was hashed, a whole number of blocks. */
  method Sha1(input: seq<byte>) returns (digest: Registers, ghost fed: seq<byte>)
    requires |input| < 0x2000_0000_0000_0000
    ensures fed == ProgramPad(input) && |fed| % 64 == 0 && digest == Hash(fed)
    ensures fed == Pad(input) <==> |input| < 0x2000_0000
    ensures |Pad(input)| % 64 == 0
    ensures |input| < 0x2000_0000 ==> digest == Hash(Pad(input))
  {
    hide Hash, Absorbed, Waiting, PadZeros, Zeros, ToBigEndian, Mirrors, ProgramPad, Pad;
    var s := new Stream();
    FeedInput(s, input);
    var b := s.byteCount * 8;
    FeedPadding(s);
    FeedLength(s, b);
    fed := s.consumed;
    assert fed == ProgramPad(input) by { ProgramPadParts(input); }
    PadIff(input);
    PaddedBlocks(input);
    WholeBlocks(fed);
    digest := Registers(s.digest[0], s.digest[1], s.digest[2], s.digest[3], s.digest[4]);
  }

  method FeedInput(s: Stream, input: seq<byte>)
    requires s.Valid() && s.consumed == []
    modifies s, s.digest, s.block
    ensures s.Valid() && s.consumed == input
  {
    hide Absorbed, Waiting, Mirrors;
    for i := 0 to |input|
      invariant s.Valid() && s.consumed == input[..i]
    {
      s.Next(input[i]);
      assert input[..i + 1] == input[..i] + [input[i]];
    }
    assert input[..|input|] == input;
  }

  /** The first loop of zeros, taken when the length no longer fits the block. */
  method ZerosToBlockEnd(s: Stream)
    requires s.Valid() && 56 < s.blockByteIndex < 64
    modifies s, s.digest, s.block
    ensures s.Valid() && s.blockByteIndex == 0
    ensures s.consumed == old(s.consumed) + Zeros(64 - old(s.blockByteIndex))
  {
    hide Absorbed, Waiting, Mirrors;
    ghost var head, from := s.consumed, s.blockByteIndex;
    ghost var zeros := [];
    while s.blockByteIndex != 0
      invariant s.Valid() && s.consumed == head + zeros
      invariant zeros == Zeros(|zeros|)
      invariant s.blockByteIndex == 0 || from <= s.blockByteIndex < 64
      invariant |zeros| == (if s.blockByteIndex == 0 then 64 else s.blockByteIndex) - from
      decreases if s.blockByteIndex == 0 then 0 else 64 - s.blockByteIndex
    {
      s.Next(0);
      Associative(head, zeros, [0]);
      zeros := zeros + [0];
    }
  }

  /** The second loop of zeros. */
  method ZerosToLength(s: Stream)
    requires s.Valid() && s.blockByteIndex <= 56
    modifies s, s.digest, s.block
    ensures s.Valid() && s.blockByteIndex == 56
    ensures s.consumed == old(s.consumed) + Zeros(56 - old(s.blockByteIndex))
  {
    hide Absorbed, Waiting, Mirrors;
    ghost var head, from := s.consumed, s.blockByteIndex;
    ghost var zeros := [];
    while s.blockByteIndex < 56
      invariant s.Valid() && s.consumed == head + zeros
      invariant zeros == Zeros(|zeros|)
      invariant s.blockByteIndex <= 56 && |zeros| == s.blockByteIndex - from
    {
      s.Next(0);
      Associative(head, zeros, [0]);
      zeros := zeros + [0];
    }
  }

  lemma ZerosAdd(head: seq<byte>, a: nat, b: nat)
    ensures head + Zeros(a) + Zeros(b) == head + Zeros(a + b)
  {
  }

  /** The byte 0x80 and the zeros. */
  method FeedPadding(s: Stream)
    requires s.Valid() && s.blockByteIndex == |s.consumed| % 64
    modifies s, s.digest, s.block
    ensures s.Valid() && s.consumed == old(s.consumed) + [0x80] + Zeros(PadZeros(|old(s.consumed)|))
  {
    hide Absorbed, Waiting, Mirrors;
    PadZerosFrom(|s.consumed|);
    s.Next(0x80);
    ghost var head := s.consumed;
    if s.blockByteIndex > 56 {
      ghost var first := 64 - s.blockByteIndex;
      ZerosToBlockEnd(s);
      ZerosAdd(head, first, 56);
    }
    ZerosToLength(s);
  }

  /** Eight bytes, the first four of them zero. */
  method FeedLength(s: Stream, b: nat)
    requires s.Valid()
    modifies s, s.digest, s.block
    ensures s.Valid() && s.consumed == old(s.consumed) + ToBigEndian(b % TWO_TO_THE_32, 8)
  {
    hide Absorbed, Waiting, Mirrors;
    var length: seq<byte> := [0, 0, 0, 0, b / 0x100_0000 % 256, b / 0x1_0000 % 256, b / 0x100 % 256, b % 256];
    LengthBytes(b, length);
    for i := 0 to 8
      invariant s.Valid() && s.consumed == old(s.consumed) + length[..i]
    {
      s.Next(length[i]);
    }
  }

  lemma LengthBytes(b: nat, length: seq<byte>)
    requires length == [0, 0, 0, 0, b / 0x100_0000 % 256, b / 0x1_0000 % 256, b / 0x100 % 256, b % 256]
    ensures length == ToBigEndian(b % TWO_TO_THE_32, 8)
  {
    var n := b % TWO_TO_THE_32;
    LengthDigits(b / TWO_TO_THE_32, n);
    DigitsJoin(n);
  }

  lemma DigitsJoin(n: nat)
    requires n / 256 / 256 / 256 < 256
    ensures ToBigEndian(n, 8)
         == [0, 0, 0, 0, n / 256 / 256 / 256, n / 256 / 256 % 256, n / 256 % 256, n % 256]
  {
    var n1, n2, n3 := n / 256, n / 256 / 256, n / 256 / 256 / 256;
    assert ToBigEndian(n3 / 256, 4) == ToBigEndian(0, 4) == [0, 0, 0, 0];
    assert ToBigEndian(n, 8) == ToBigEndian(n1, 7) + [n % 256];
    assert ToBigEndian(n1, 7) == ToBigEndian(n2, 6) + [n1 % 256];
    assert ToBigEndian(n2, 6) == ToBigEndian(n3, 5) + [n2 % 256];
    assert ToBigEndian(n3, 5) == ToBigEndian(n3 / 256, 4) + [n3 % 256];
  }

  lemma LengthDigits(q: nat, n: nat)
    requires n < TWO_TO_THE_32
    ensures var b := q * TWO_TO_THE_32 + n;
            && b % 256 == n % 256 && b / 0x100 % 256 == n / 256 % 256
            && b / 0x1_0000 % 256 == n / 256 / 256 % 256 && b / 0x100_0000 % 256 == n / 256 / 256 / 256
            && n / 256 / 256 / 256 < 256
  {
    var b := q * TWO_TO_THE_32 + n;
    DivisionIsUnique(b, 0x100, q * 0x100_0000 + n / 0x100, n % 0x100);
    DivisionIsUnique(b, 0x1_0000, q * 0x1_0000 + n / 0x1_0000, n % 0x1_0000);
    DivisionIsUnique(b, 0x100_0000, q * 0x100 + n / 0x100_0000, n % 0x100_0000);
    assert n / 0x1_0000 == n / 256 / 256;
    assert n / 0x100_0000 == n / 256 / 256 / 256;
  }
}
