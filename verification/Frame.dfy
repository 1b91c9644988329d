/** Frames under construction: a header written in place, and views of the bytes to send. */
module Frame {
  import opened Bytes
  import opened Header
  import FrameDecoder

  /** A buffer handed to the socket: a region of an array that may still change, or constant text. */
  datatype View = Region(a: array<byte>, start: nat, len: nat) | Text(bytes: seq<byte>) {
    function Size(): nat {
      if Region? then len else |bytes|
    }

    ghost predicate InBounds() {
      Region? ==> start + len <= a.Length
    }
  }

  ghost function Objects(views: seq<View>): set<object> {
    set v | v in views && v.Region? :: v.a
  }

  ghost predicate AllInBounds(views: seq<View>) {
    forall v <- views :: v.InBounds()
  }

  ghost function Read(v: View): (s: seq<byte>)
    requires v.InBounds()
    reads if v.Region? then {v.a} else {}
    ensures |s| == v.Size()
  {
    if v.Region? then v.a[v.start..v.start + v.len] else v.bytes
  }

  /** What the socket sends: the bytes the views show, in order. */
  ghost function Gather(views: seq<View>): seq<byte>
    requires AllInBounds(views)
    reads Objects(views)
  {
    if |views| == 0 then [] else Read(views[0]) + Gather(views[1..])
  }

  function TotalSize(views: seq<View>): nat {
    if |views| == 0 then 0 else views[0].Size() + TotalSize(views[1..])
  }

  lemma {:induction false} GatherAppend(a: seq<View>, b: seq<View>)
    requires AllInBounds(a) && AllInBounds(b)
    ensures AllInBounds(a + b) && Gather(a + b) == Gather(a) + Gather(b)
    ensures TotalSize(a + b) == TotalSize(a) + TotalSize(b)
  {
    if |a| == 0 {
      assert a + b == b;
    } else {
      var rest := a[1..] + b;
      assert (a + b)[1..] == rest;
      GatherAppend(a[1..], b);
      assert Gather(a + b) == Read(a[0]) + Gather(rest);
    }
  }

  lemma TotalSizeOfTwo(a: View, b: View)
    ensures TotalSize([a]) == a.Size() && TotalSize([a, b]) == a.Size() + b.Size()
  {
    assert [a, b][1..] == [b] && [a][1..] == [] && [b][1..] == [];
    assert TotalSize([b]) == b.Size();
  }

  lemma {:induction false} GatherSize(views: seq<View>)
    requires AllInBounds(views)
    ensures |Gather(views)| == TotalSize(views)
  {
    if |views| > 0 {
      GatherSize(views[1..]);
    }
  }

  lemma LengthWritten(raw: seq<byte>, size: nat)
    requires |raw| == MAX_HEADER_SIZE && size < TWO_TO_THE_64 && LengthField(raw) == LengthClass(size)
    requires raw[2..2 + LengthBytes(size)] == ToBigEndian(size, LengthBytes(size))
    ensures PayloadSize(raw) == size
  {
    if size >= 126 {
      PowersOf256();
      BigEndianRoundTrip(size, LengthBytes(size));
    }
  }

  /** The bytes of the header are those of RFC 6455, section 5.2. */
  lemma WrittenAsLaidOut(raw: seq<byte>, first: byte, size: nat)
    requires |raw| == MAX_HEADER_SIZE && size < TWO_TO_THE_64 && raw[0] == first && !Masked(raw)
    requires LengthField(raw) == LengthClass(size)
    requires raw[2..2 + LengthBytes(size)] == ToBigEndian(size, LengthBytes(size))
    ensures raw[..HeaderSize(raw)] == Layout(first, false, size, [])
  {
    assert raw[..HeaderSize(raw)] == [raw[0], raw[1]] + raw[2..2 + LengthBytes(size)];
  }

  class Frame {
    const raw: array<byte>
    var buffers: seq<View>

    ghost predicate Valid()
      reads this, raw
    {
      && raw.Length == MAX_HEADER_SIZE
      && !Masked(raw[..])
      && |buffers| >= 1 && AllInBounds(buffers)
      && buffers[0].Region? && buffers[0].a == raw && buffers[0].start == 0
      && buffers[0].len in {2, 4, 10} && buffers[0].len <= HeaderSize(raw[..])
      && (forall v <- buffers[1..] :: v.Region? ==> v.a != raw)
      && TotalSize(buffers[1..]) < TWO_TO_THE_64
      && PayloadSize(raw[..]) == TotalSize(buffers[1..])
      && LengthField(raw[..]) == LengthClass(TotalSize(buffers[1..]))
    }

    method SetFin(set_: bool)
      requires raw.Length == MAX_HEADER_SIZE
      modifies raw
      ensures raw[0] >= 128 <==> set_
      ensures raw[0] % 128 == old(raw[0]) % 128 && raw[1..] == old(raw[1..])
    {
      raw[0] := if set_ then raw[0] % 128 + 128 else raw[0] % 128;
    }

    method SetOpcode(code: byte)
      requires raw.Length == MAX_HEADER_SIZE && code < 16
      modifies raw
      ensures Opcode(raw[..]) == code
      ensures raw[0] / 16 == old(raw[0]) / 16 && raw[1..] == old(raw[1..])
    {
      raw[0] := raw[0] / 16 * 16 + code;
    }

    /** Writes the length in its shortest form. The last iteration writes one byte past the field,
        with an unspecified value. */
    method SetPayloadSize(size: nat)
      requires raw.Length == MAX_HEADER_SIZE && size < TWO_TO_THE_64
      modifies raw
      ensures raw[0] == old(raw[0]) && (Masked(raw[..]) <==> old(Masked(raw[..])))
      ensures LengthField(raw[..]) == LengthClass(size)
      ensures raw[2..2 + LengthBytes(size)] == ToBigEndian(size, LengthBytes(size))
      ensures PayloadSize(raw[..]) == size
    {
      raw[1] := raw[1] / 128 * 128 + LengthClass(size);
      var len := LengthBytes(size);
      ghost var first, second := raw[0], raw[1];
      for i := 0 to len + 1
        invariant raw[0] == first && raw[1] == second
        invariant forall j :: 0 <= j < i && j < len ==> raw[2 + j] == ToBigEndian(size, len)[j]
      {
        if i < len {
          BigEndianByte(size, len, i);
          raw[2 + i] := ShiftRight(size, len - i - 1) % 256;
        } else {
          var unspecified: byte := *;
          raw[2 + i] := unspecified;
        }
      }
      forall j | 0 <= j < len ensures raw[2..2 + len][j] == ToBigEndian(size, len)[j] {
        assert raw[2..2 + len][j] == raw[2 + j];
      }
      assert raw[2..2 + len] == ToBigEndian(size, len);
      assert raw[..][2..2 + len] == raw[2..2 + len];
      LengthWritten(raw[..], size);
    }

    constructor FromText(text: seq<byte>)
      requires |text| < TWO_TO_THE_64
      ensures Valid() && fresh(raw)
      ensures Opcode(raw[..]) == OPCODE_TEXT && raw[..HeaderSize(raw[..])] == Layout(0x81, false, |text|, [])
      ensures buffers[0].len == HeaderSize(raw[..]) && buffers[1..] == [Text(text)]
    {
      raw := new byte[MAX_HEADER_SIZE](_ => 0);
      buffers := [];
      new;
      SetFin(true);
      SetOpcode(OPCODE_TEXT);
      SetPayloadSize(|text|);
      WrittenAsLaidOut(raw[..], 0x81, |text|);
      var size := HeaderSize(raw[..]);
      buffers := [Region(raw, 0, size)];
      buffers := buffers + [Text(text)];
    }

    constructor FromBinary(head: View, next: View)
      requires head.InBounds() && next.InBounds() && head.Size() + next.Size() < TWO_TO_THE_64
      ensures Valid() && fresh(raw)
      ensures Opcode(raw[..]) == OPCODE_BINARY && raw[..HeaderSize(raw[..])] == Layout(0x82, false, head.Size() + next.Size(), [])
      ensures buffers[0].len == HeaderSize(raw[..])
      ensures buffers[1..] == if next.Size() == 0 then [head] else [head, next]
    {
      raw := new byte[MAX_HEADER_SIZE](_ => 0);
      buffers := [];
      new;
      hide Layout, Gather;
      SetFin(true);
      SetOpcode(OPCODE_BINARY);
      SetPayloadSize(head.Size() + next.Size());
      WrittenAsLaidOut(raw[..], 0x82, head.Size() + next.Size());
      var size := HeaderSize(raw[..]);
      buffers := [Region(raw, 0, size)];
      buffers := buffers + [head];
      if next.Size() != 0 {
        buffers := buffers + [next];
      }
      TotalSizeOfTwo(head, next);
    }

    /** Appends a view and grows the length in the header; buffers[0] keeps its first length. */
    method AddBuffer(view: View) returns (size: nat)
      requires Valid() && view.InBounds() && (view.Region? ==> view.a != raw)
      requires TotalSize(buffers[1..]) + view.Size() < TWO_TO_THE_64
      modifies this, raw
      ensures Valid() && size == view.Size()
      ensures buffers == old(buffers) + [view]
      ensures Opcode(raw[..]) == old(Opcode(raw[..]))
    {
      ghost var before := buffers;
      SetPayloadSize(PayloadSize(raw[..]) + view.Size());
      buffers := buffers + [view];
      GatherAppend(before[1..], [view]);
      assert buffers[1..] == before[1..] + [view];
      return view.Size();
    }
  }

  /** The peer's view of a frame read in one piece: complete, with this payload and opcode. */
  ghost predicate Received(wire: seq<byte>, payload: seq<byte>, opcode: byte) {
    var (d, done) := FrameDecoder.Step(FrameDecoder.FRESH, wire);
    done && d.payload == payload && d.payloadSize == |payload| && d.opcode == opcode
  }

  lemma UnmaskedIsPlain(data: seq<byte>, offset: nat)
    ensures FrameDecoder.Unmask(data, [0, 0, 0, 0], offset) == data
  {
    forall i | 0 <= i < |data| ensures FrameDecoder.Unmask(data, [0, 0, 0, 0], offset)[i] == data[i] {
      XorZero(data[i]);
    }
  }

  /** An unmasked frame whose first buffer shows h bytes of its header is read back in one piece
      if and only if h is still the size of that header and the payload has at least four bytes. */
  lemma ReceivedIff(raw: seq<byte>, h: nat, payload: seq<byte>)
    requires |raw| == MAX_HEADER_SIZE && !Masked(raw) && h in {2, 4, 10} && h <= HeaderSize(raw)
    requires PayloadSize(raw) == |payload| && LengthField(raw) == LengthClass(|payload|)
    ensures Received(raw[..h] + payload, payload, Opcode(raw)) <==> h == HeaderSize(raw) && |payload| >= 4
  {
    var wire := raw[..h] + payload;
    assert wire[0] == raw[0] && wire[1] == raw[1];
    if h == HeaderSize(raw) {
      PrefixDecides(raw[..h], raw);
      PrefixDecides(raw[..h], wire);
      assert wire[h..][..|payload|] == payload;
      UnmaskedIsPlain(payload, 0);
    } else {
      assert |FrameDecoder.Step(FrameDecoder.FRESH, wire).0.payload| < |payload|;
    }
  }

  /** The same for a frame object: the socket sends Gather(buffers). */
  lemma FrameReceivedIff(frame: Frame)
    requires frame.Valid()
    ensures var payload := Gather(frame.buffers[1..]);
            Gather(frame.buffers) == frame.raw[..frame.buffers[0].len] + payload &&
            (Received(Gather(frame.buffers), payload, Opcode(frame.raw[..]))
             <==> frame.buffers[0].len == HeaderSize(frame.raw[..]) && |payload| >= 4)
  {
    var payload := Gather(frame.buffers[1..]);
    GatherSize(frame.buffers[1..]);
    var h := frame.buffers[0].len;
    assert frame.raw[..][..h] == frame.raw[0..h] == Read(frame.buffers[0]);
    ReceivedIff(frame.raw[..], h, payload);
  }
}
