/** The answer to a WebSocket client's key (RFC 6455, section 4.2.2). */
module SecKey {
  import opened Bytes
  import opened Text
  import opened Sha1
  import Base64

  /** The octets of 258EAFA5-E914-47DA-95CA-C5AB0DC85B11. */
  const GUID: seq<byte> := [
    0x32, 0x35, 0x38, 0x45, 0x41, 0x46, 0x41, 0x35, 0x2D, 0x45, 0x39, 0x31, 0x34, 0x2D, 0x34, 0x37,
    0x44, 0x41, 0x2D, 0x39, 0x35, 0x43, 0x41, 0x2D, 0x43, 0x35, 0x41, 0x42, 0x30, 0x44, 0x43, 0x38,
    0x35, 0x42, 0x31, 0x31
  ]

  /** Byte k of a word, from the least significant one. */
  function ByteOf(w: word, k: nat): byte {
    var shifted := if k == 0 then w else if k == 1 then w >> 8 else if k == 2 then w >> 16 else w >> 24;
    ((shifted & 0xFF) as bv8) as int
  }

  /** A word as it lies in the memory of a little-endian machine. */
  function InMemory(w: word): seq<byte> {
    [ByteOf(w, 0), ByteOf(w, 1), ByteOf(w, 2), ByteOf(w, 3)]
  }

  function ByteSwap(w: word): word {
    (w << 24) | ((w << 8) & 0xFF_0000) | ((w >> 8) & 0xFF00) | (w >> 24)
  }

  /** A word in network order. */
  function NetworkOrder(w: word): seq<byte> {
    [ByteOf(w, 3), ByteOf(w, 2), ByteOf(w, 1), ByteOf(w, 0)]
  }

  lemma SwapMovesBytes(w: word, k: nat)
    requires k < 4
    ensures ByteOf(ByteSwap(w), k) == ByteOf(w, 3 - k)
  {
    var s := ByteSwap(w);
    if k == 0 {
      assert s & 0xFF == (w >> 24) & 0xFF;
    } else if k == 1 {
      assert (s >> 8) & 0xFF == (w >> 16) & 0xFF;
    } else if k == 2 {
      assert (s >> 16) & 0xFF == (w >> 8) & 0xFF;
    } else {
      assert (s >> 24) & 0xFF == w & 0xFF;
    }
  }

  lemma SwappedIsNetworkOrder(w: word)
    ensures InMemory(ByteSwap(w)) == NetworkOrder(w)
  {
    hide ByteSwap, ByteOf;
    SwapMovesBytes(w, 0);
    SwapMovesBytes(w, 1);
    SwapMovesBytes(w, 2);
    SwapMovesBytes(w, 3);
  }

  /** The words of a block are its bytes in network order (FIPS 180-4, section 3.1). */
  lemma WordsAreInNetworkOrder(block: seq<byte>, t: nat)
    requires |block| == 64 && t < 16
    ensures NetworkOrder(Word(block, t)) == block[4 * t..4 * t + 4]
  {
    hide ByteOf, Join, Widen;
    var k := 4 * t;
    WidenValue(block[k]);
    WidenValue(block[k + 1]);
    WidenValue(block[k + 2]);
    WidenValue(block[k + 3]);
    JoinedOctets(Widen(block[k]), Widen(block[k + 1]), Widen(block[k + 2]), Widen(block[k + 3]));
  }

  lemma JoinedOctets(p: word, q: word, r: word, s: word)
    requires p as int < 256 && q as int < 256 && r as int < 256 && s as int < 256
    ensures NetworkOrder(Join(p, q, r, s)) == [p as int, q as int, r as int, s as int]
  {
    hide Join;
    LowOctet(p);
    LowOctet(q);
    LowOctet(r);
    LowOctet(s);
    JoinedBits(p, q, r, s);
  }

  lemma LowOctet(w: word)
    requires w as int < 256
    ensures ((w & 0xFF) as bv8) as int == w as int && w <= 0xFF && w & 0xFF == w
  {
  }

  lemma JoinedBits(p: word, q: word, r: word, s: word)
    requires p <= 0xFF && q <= 0xFF && r <= 0xFF && s <= 0xFF
    ensures Join(p, q, r, s) >> 24 == p && (Join(p, q, r, s) >> 16) & 0xFF == q
    ensures (Join(p, q, r, s) >> 8) & 0xFF == r && Join(p, q, r, s) & 0xFF == s
  {
  }

  lemma GuidOfTheStandard()
    ensures |GUID| == 36
    ensures forall i :: 0 <= i < 36 ==> GUID[i] == "258EAFA5-E914-47DA-95CA-C5AB0DC85B11"[i] as int
  {
  }

  /** The first digest, as it lies in memory: the digits counted up, counted down, and a tail. */
  lemma InitialOctets()
    ensures InMemory(INITIAL.a) + InMemory(INITIAL.b)
         == seq(8, i requires 0 <= i < 8 => 0x01 + 0x22 * i)
    ensures InMemory(INITIAL.c) + InMemory(INITIAL.d)
         == seq(8, i requires 0 <= i < 8 => 0xFE - 0x22 * i)
    ensures InMemory(INITIAL.e) == [0xF0, 0xE1, 0xD2, 0xC3]
  {
  }

  /** Words in order, each in network order. */
  function Octets(ws: seq<word>): (s: seq<byte>)
    ensures |s| == 4 * |ws|
  {
    if |ws| == 0 then [] else Octets(ws[..|ws| - 1]) + NetworkOrder(ws[|ws| - 1])
  }

  /** The digest as FIPS 180-4 writes it. */
  function DigestOctets(d: Registers): (s: seq<byte>)
    ensures |s| == 20
  {
    Octets([d.a, d.b, d.c, d.d, d.e])
  }

  /** The digest of "abc" as FIPS 180-2, appendix A.1, writes it. */
  lemma OctetsOfAbc()
    ensures DigestOctets(Registers(0xA9993E36, 0x4706816A, 0xBA3E2571, 0x7850C26C, 0x9CD0D89D))
         == [0xA9, 0x99, 0x3E, 0x36, 0x47, 0x06, 0x81, 0x6A, 0xBA, 0x3E, 0x25, 0x71,
             0x78, 0x50, 0xC2, 0x6C, 0x9C, 0xD0, 0xD8, 0x9D]
  {
    hide Octets, NetworkOrder;
    FiveWords(0xA9993E36, 0x4706816A, 0xBA3E2571, 0x7850C26C, 0x9CD0D89D);
    WordsOfAbc();
  }

  lemma FiveWords(a: word, b: word, c: word, d: word, e: word)
    ensures Octets([a, b, c, d, e])
         == NetworkOrder(a) + NetworkOrder(b) + NetworkOrder(c) + NetworkOrder(d) + NetworkOrder(e)
  {
    hide NetworkOrder;
    assert Octets([a]) == NetworkOrder(a) by { assert [a][..0] == []; }
    assert [a, b][..1] == [a] && [a, b, c][..2] == [a, b] && [a, b, c, d][..3] == [a, b, c];
    assert [a, b, c, d, e][..4] == [a, b, c, d];
    assert Octets([a, b]) == Octets([a]) + NetworkOrder(b);
    assert Octets([a, b, c]) == Octets([a, b]) + NetworkOrder(c);
    assert Octets([a, b, c, d]) == Octets([a, b, c]) + NetworkOrder(d);
  }

  lemma WordsOfAbc()
    ensures NetworkOrder(0xA9993E36) == [0xA9, 0x99, 0x3E, 0x36]
    ensures NetworkOrder(0x4706816A) == [0x47, 0x06, 0x81, 0x6A]
    ensures NetworkOrder(0xBA3E2571) == [0xBA, 0x3E, 0x25, 0x71]
    ensures NetworkOrder(0x7850C26C) == [0x78, 0x50, 0xC2, 0x6C]
    ensures NetworkOrder(0x9CD0D89D) == [0x9C, 0xD0, 0xD8, 0x9D]
  {
  }

  method EncodeInNetworkOrder(d: Registers) returns (result: seq<schar>)
    ensures result == Base64.Rfc4648(DigestOctets(d))
  {
    hide InMemory, NetworkOrder, ByteSwap;
    var elems := [d.a, d.b, d.c, d.d, d.e];
    var octets: seq<byte> := [];
    for i := 0 to 5
      invariant octets == Octets(elems[..i])
    {
      SwappedIsNetworkOrder(elems[i]);
      assert elems[..i + 1] == elems[..i] + [elems[i]];
      octets := octets + InMemory(ByteSwap(elems[i]));
    }
    assert elems[..5] == elems;
    var encoded := Base64.Encode(octets);
    result := encoded.value;
  }

  /** Twenty-eight characters that spell the SHA-1 digest of the key and the GUID. */
  method GetHashedSecKey(key: seq<byte>) returns (result: seq<schar>)
    requires |key| + 36 < 0x2000_0000
    ensures |result| == 28
    ensures |Pad(key + GUID)| % 64 == 0 && result == Base64.Rfc4648(DigestOctets(Hash(Pad(key + GUID))))
    ensures Base64.Decode(result) == DigestOctets(Hash(Pad(key + GUID)))
  {
    hide Hash, Pad, DigestOctets, Base64.Rfc4648, Base64.Decode;
    var digest, fed := Sha1.Sha1(key + GUID);
    result := EncodeInNetworkOrder(digest);
    Base64.RfcSize(DigestOctets(digest));
    Base64.DecodeRfc4648(DigestOctets(digest));
  }
}
