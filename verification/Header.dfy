/** The WebSocket frame header (RFC 6455, section 5.2), read from the bytes that carry it. */
module Header {
  import opened Bytes

  const MAX_HEADER_SIZE: nat := 14
  const OPCODE_TEXT: byte := 1
  const OPCODE_BINARY: byte := 2

  predicate Masked(raw: seq<byte>)
    requires |raw| >= 2
  {
    raw[1] >= 128
  }

  function Opcode(raw: seq<byte>): byte
    requires |raw| >= 2
  {
    raw[0] % 16
  }

  /** The seven-bit length; 126 and 127 announce an extended length. */
  function LengthField(raw: seq<byte>): byte
    requires |raw| >= 2
  {
    raw[1] % 128
  }

  function HeaderSize(raw: seq<byte>): nat
    requires |raw| >= 2
  {
    if LengthField(raw) < 126 then if Masked(raw) then 6 else 2
    else if LengthField(raw) == 126 then if Masked(raw) then 8 else 4
    else if Masked(raw) then 14 else 10
  }

  function ExtendedLength(raw: seq<byte>): nat
    requires |raw| >= 2 && LengthField(raw) >= 126 && |raw| >= HeaderSize(raw)
  {
    if LengthField(raw) == 126 then FromBigEndian(raw[2..4]) else FromBigEndian(raw[2..10])
  }

  function PayloadSize(raw: seq<byte>): nat
    requires |raw| >= 2 && |raw| >= HeaderSize(raw)
  {
    if LengthField(raw) < 126 then LengthField(raw) else ExtendedLength(raw)
  }

  function MaskingKey(raw: seq<byte>): (key: seq<byte>)
    requires |raw| >= 2 && |raw| >= HeaderSize(raw)
    ensures |key| == 4
  {
    if !Masked(raw) then [0, 0, 0, 0] else raw[HeaderSize(raw) - 4..HeaderSize(raw)]
  }

  /** How many bytes the decoder waits for before it reads a header. */
  function Threshold(raw: seq<byte>): nat
    requires |raw| >= 2
  {
    if LengthField(raw) < 126 then 6 else 14
  }

  predicate IsComplete(raw: seq<byte>) {
    |raw| >= 2 && |raw| >= Threshold(raw)
  }

  /** The length form RFC 6455 prescribes: the shortest one that holds n. */
  function LengthClass(n: nat): byte {
    if n < 126 then n else if n < TWO_TO_THE_16 then 126 else 127
  }

  function LengthBytes(n: nat): nat {
    if n < 126 then 0 else if n < TWO_TO_THE_16 then 2 else 8
  }

  /** Every field of a header depends on its first HeaderSize bytes only. */
  lemma PrefixDecides(raw: seq<byte>, more: seq<byte>)
    requires |raw| >= 2 && |raw| >= HeaderSize(raw) && raw <= more
    ensures HeaderSize(more) == HeaderSize(raw) && PayloadSize(more) == PayloadSize(raw)
    ensures MaskingKey(more) == MaskingKey(raw) && Opcode(more) == Opcode(raw)
  {
    assert raw[1] == more[1] && raw[0] == more[0];
    var h := HeaderSize(raw);
    assert raw[..h] == more[..h];
    if LengthField(raw) == 126 {
      assert raw[2..4] == raw[..h][2..4] == more[2..4];
    } else if LengthField(raw) == 127 {
      assert raw[2..10] == raw[..h][2..10] == more[2..10];
    }
    if Masked(raw) {
      assert raw[h - 4..h] == raw[..h][h - 4..h] == more[h - 4..h];
    }
  }

  /** A header as RFC 6455, section 5.2, lays it out: flags and opcode, mask bit and shortest length,
      extended length in network order, masking key. */
  function Layout(first: byte, masked: bool, n: nat, key: seq<byte>): seq<byte> {
    [first, LengthClass(n) + if masked then 128 else 0] + ToBigEndian(n, LengthBytes(n)) + if masked then key else []
  }

  /** The accessors read the layout of the standard, whatever follows it. */
  lemma LayoutIsRead(first: byte, masked: bool, n: nat, key: seq<byte>, rest: seq<byte>)
    requires n < TWO_TO_THE_64 && |key| == 4
    ensures var head := Layout(first, masked, n, key);
            var raw := head + rest;
            && |head| == HeaderSize(raw) && Masked(raw) == masked && Opcode(raw) == first % 16
            && PayloadSize(raw) == n && MaskingKey(raw) == if masked then key else [0, 0, 0, 0]
  {
    var k := LengthBytes(n);
    var length, tail := ToBigEndian(n, k), if masked then key else [];
    var raw := Layout(first, masked, n, key) + rest;
    assert raw[0] == first && raw[1] == LengthClass(n) + if masked then 128 else 0;
    assert raw[2..2 + k] == length;
    assert raw[2 + k..2 + k + |tail|] == tail;
    if n >= 126 {
      PowersOf256();
      BigEndianRoundTrip(n, k);
    }
  }

  /** No header that announces the same size is shorter. */
  lemma LayoutIsShortest(raw: seq<byte>, first: byte, key: seq<byte>)
    requires |raw| >= 2 && |raw| >= HeaderSize(raw) && |key| == 4
    ensures |Layout(first, Masked(raw), PayloadSize(raw), key)| <= HeaderSize(raw)
  {
    PowersOf256();
    if LengthField(raw) == 126 {
      FromBigEndianBound(raw[2..4]);
    }
  }
}
