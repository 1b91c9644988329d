/** Calling a JavaScript function, from its arguments to what the peer decodes. */
module JsFunction {
  import opened Bytes
  import opened Header
  import opened Messages
  import opened Frame
  import Frames = Frame
  import opened FunctionCall
  import FrameDecoder
  import Peer

  /** What the peer obtains from the bytes of a connection, when it expects these parameter types. Overrun stands
      for a read of bytes nobody has put anywhere. */
  datatype Delivery = Nothing | Overrun | Called(name: seq<byte>, args: seq<Value>, rest: seq<byte>)

  /** One read of a whole frame, then dispatch on the command, the function name, and the parameters. `beyond` is
      what lies in memory behind the message. */
  function Receive(wire: seq<byte>, types: seq<Type>, beyond: seq<byte>): Delivery {
    var (d, done) := FrameDecoder.Step(FrameDecoder.FRESH, wire);
    if !done || d.opcode != OPCODE_BINARY then Nothing else Dispatch(d.payload, types, beyond)
  }

  /** The size the message announces is not compared with the size it has. */
  function Dispatch(message: seq<byte>, types: seq<Type>, beyond: seq<byte>): Delivery {
    if |message| < HEAD_SIZE || message[0] != CALL_FUNCTION then Nothing
    else
      var all, size := message + beyond, FromLittleEndian(message[4..8]);
      if |all| < HEAD_SIZE + size then Overrun
      else DecodeCall(all[HEAD_SIZE..HEAD_SIZE + size], types)
  }

  function DecodeCall(data: seq<byte>, types: seq<Type>): Delivery {
    match Decode(TString, Str([]), data)
    case Ok(Str(name), args) =>
      (match DecodeAll(types, Defaults(types), args)
       case Ok(values, rest) => Called(name, values, rest)
       case OutOfBounds => Overrun
       case _ => Nothing)
    case OutOfBounds => Overrun
    case _ => Nothing
  }

  lemma {:induction false} ShortIsRepresentable(v: Value)
    requires |Encode(v)| < 256
    ensures Representable(v)
    decreases v, 1
  {
    if v.Tup? {
      ShortAreRepresentable(v.elems);
    }
  }

  lemma {:induction false} ShortAreRepresentable(vs: seq<Value>)
    requires |EncodeAll(vs)| < 256
    ensures RepresentableAll(vs) && |vs| <= |EncodeAll(vs)|
    decreases vs, 0
  {
    if |vs| > 0 {
      ShortIsRepresentable(vs[0]);
      ShortAreRepresentable(vs[1..]);
    }
  }

  /** The body of a call and what stands behind it: name and arguments come back, with just this left, unless an
      argument is a boolean. */
  lemma BodyDecodes(name: seq<byte>, args: seq<Value>, stray: seq<byte>)
    requires |Encode(Str(name)) + EncodeAll(args)| < 256
    ensures var r := DecodeCall(Encode(Str(name)) + EncodeAll(args) + stray, TypesOf(args));
            && (r == Called(name, ReceivedAll(args), stray) <==> HaveNoBool(args))
            && (stray != [] ==> r != Called(name, ReceivedAll(args), []))
  {
    hide Decode, DecodeAll, Encode, EncodeAll, Representable, RepresentableAll, HaveNoBool, ReceivedAll;
    var data := Encode(Str(name)) + EncodeAll(args) + stray;
    assert data == Encode(Str(name)) + (EncodeAll(args) + stray);
    ShortIsRepresentable(Str(name));
    ShortAreRepresentable(args);
    NameComesBack(name, EncodeAll(args) + stray);
    RoundTripAllIff(args, Defaults(TypesOf(args)), stray);
    if !HaveNoBool(args) {
      BoolsStick(args, Defaults(TypesOf(args)), EncodeAll(args) + stray, stray);
    }
  }

  lemma NameComesBack(name: seq<byte>, rest: seq<byte>)
    requires Representable(Str(name))
    ensures Decode(TString, Str([]), Encode(Str(name)) + rest) == Ok(Str(name), rest)
  {
    RoundTripIff(Str(name), Str([]), rest);
  }

  /** A body that is cut off does not come back to its end. */
  lemma CutBodyDecodes(name: seq<byte>, args: seq<Value>, data: seq<byte>, more: seq<byte>)
    requires |Encode(Str(name)) + EncodeAll(args)| < 256
    requires data + more == Encode(Str(name)) + EncodeAll(args) && more != []
    ensures DecodeCall(data, TypesOf(args)) != Called(name, ReceivedAll(args), [])
  {
    hide Decode, DecodeAll, Encode, EncodeAll, Representable, RepresentableAll, ReceivedAll;
    ShortIsRepresentable(Str(name));
    ShortAreRepresentable(args);
    NameComesBack(name, EncodeAll(args));
    DecodeExtends(TString, Str([]), data, more);
    var first := Decode(TString, Str([]), data);
    if first.Ok? {
      PartIsNotTheWhole(args, Defaults(TypesOf(args)), first.rest, more);
    }
  }

  /** A call message, by the size it announces. */
  lemma DispatchIff(head: seq<byte>, name: seq<byte>, args: seq<Value>, beyond: seq<byte>)
    requires |head| == HEAD_SIZE && head[0] == CALL_FUNCTION
    requires |Encode(Str(name)) + EncodeAll(args)| < 256
    ensures var body, size := Encode(Str(name)) + EncodeAll(args), FromLittleEndian(head[4..8]);
            var r := Dispatch(head + body, TypesOf(args), beyond);
            && (r == Called(name, ReceivedAll(args), []) <==> size == |body| && HaveNoBool(args))
            && (|body| <= size <= |body| + |beyond| ==>
                  (r == Called(name, ReceivedAll(args), beyond[..size - |body|]) <==> HaveNoBool(args)))
  {
    hide DecodeCall, Encode, EncodeAll, HaveNoBool, ReceivedAll, FromLittleEndian;
    var body, size := Encode(Str(name)) + EncodeAll(args), FromLittleEndian(head[4..8]);
    var message := head + body;
    var all := message + beyond;
    assert message[4..8] == head[4..8] && message[0] == head[0];
    if size < |body| {
      assert all[HEAD_SIZE..HEAD_SIZE + size] == body[..size];
      CutBodyDecodes(name, args, body[..size], body[size..]);
    } else if size <= |body| + |beyond| {
      assert all[HEAD_SIZE..HEAD_SIZE + size] == body + beyond[..size - |body|];
      BodyDecodes(name, args, beyond[..size - |body|]);
    }
  }

  /** A message whose length outgrew the two header bytes sent is never dispatched as a call. */
  lemma LongMessageIsLost(raw: seq<byte>, message: seq<byte>, types: seq<Type>, beyond: seq<byte>)
    requires |raw| == MAX_HEADER_SIZE && !Masked(raw) && LengthField(raw) >= 126
    requires |message| > 125 && message[2] != CALL_FUNCTION && message[8] != CALL_FUNCTION
    ensures Receive(raw[..2] + message, types, beyond) == Nothing
  {
    var wire := raw[..2] + message;
    assert wire[1] == raw[1];
    var (d, done) := FrameDecoder.Step(FrameDecoder.FRESH, wire);
    if |d.payload| > 0 {
      assert d.payload[0] == Xor(wire[HeaderSize(wire)], 0);
      XorZero(wire[HeaderSize(wire)]);
      assert d.payload[0] == message[2] || d.payload[0] == message[8];
    }
  }

  class JsFunction {
    const name: seq<byte>
    const command: FunctionCall

    constructor (functionName: seq<byte>)
      ensures name == functionName && fresh(command) && fresh(command.head) && fresh(command.buffer)
      ensures command.Valid() && command.encodeBufferIndex == 0 && command.ParametersDataSize() == 0
    {
      name := functionName;
      command := new FunctionCall();
    }

    ghost function Parameters(args: seq<Value>): seq<Value> {
      [Str(name)] + args
    }

    /** The state a call begins in: nothing counted, and a frame that shows the message header. */
    ghost predicate Opened(p: Progress, frame: Frame)
      reads command, command.head, frame, frame.raw
    {
      && command.CanEncodeInto(frame)
      && |p.buffers| > 0 && p.buffers[1..] == [Region(command.head, 0, HEAD_SIZE)]
      && frame.buffers[0] == p.buffers[0] && frame.buffers[0].len == 2
      && TotalSize(p.buffers[1..]) == HEAD_SIZE
      && p.count == 0
    }

    method Open() returns (frame: Frame, ghost p: Progress)
      requires command.Valid()
      modifies command.head
      ensures fresh(frame) && fresh(frame.raw) && Opened(p, frame) && p == command.Now(frame)
      ensures |p.scratch| == command.encodeBufferIndex && p.dataSize == old(command.ParametersDataSize())
    {
      command.SetParametersCount(0);
      frame := new Frame.FromBinary(Region(command.head, 0, HEAD_SIZE), Text([]));
      p := command.Now(frame);
      SizeOfOne(Region(command.head, 0, HEAD_SIZE));
    }

    /** Encodes the name, then the arguments. */
    method EncodeCall(args: seq<Value>, frame: Frame, ghost p: Progress) returns (inside: bool)
      requires Opened(p, frame) && p == command.Now(frame)
      requires HEAD_SIZE + |EncodeAll(Parameters(args))| < TWO_TO_THE_64
      modifies command, command.head, command.buffer, frame, frame.raw
      ensures inside <==> |p.scratch| + |ScratchAll(Parameters(args))| <= 1024
      ensures inside ==> Opened(p, frame) && command.Now(frame) == AfterAll(p, Parameters(args), command.buffer)
    {
      ghost var params, start := Parameters(args), command.encodeBufferIndex;
      assert params[0] == Str(name) && params[1..] == args;
      ViewsOfAllUnfold(params, command.buffer, start);
      inside := command.EncodeParameter(Str(name), frame);
      if !inside {
        return;
      }
      ViewsAdd(p.buffers, Str(name), command.buffer, start);
      assert |command.Now(frame).scratch| == command.encodeBufferIndex == start + |Scratch(Str(name))|;
      inside := command.EncodeParameters(args, frame);
      if inside {
        AfterThenAll(p, params, command.buffer);
        assert frame.buffers[0] == p.buffers[0];
      }
    }

    /** Composes and sends a call; `frame` is what the link is given, unless the call leaves the scratch buffer.
        The data size in the message adds to what earlier calls of the same object have left there; the peer
        then finds as many stray bytes behind the arguments. */
    method Invoke(args: seq<Value>) returns (inside: bool, frame: Frame)
      requires command.Valid()
      requires HEAD_SIZE + |EncodeAll(Parameters(args))| < TWO_TO_THE_64
      modifies command, command.head, command.buffer
      ensures inside <==> old(command.encodeBufferIndex) + |ScratchAll(Parameters(args))| <= 1024
      ensures inside ==> command.CanEncodeInto(frame) && fresh(frame) && fresh(frame.raw)
      ensures inside ==> command.encodeBufferIndex == old(command.encodeBufferIndex) + |ScratchAll(Parameters(args))|
      ensures inside ==> command.ParametersCount() == NodesAll(Parameters(args)) % 256
      ensures inside ==>
                command.ParametersDataSize()
                == (old(command.ParametersDataSize()) + |EncodeAll(Parameters(args))|) % TWO_TO_THE_32
      ensures inside ==> PayloadSize(frame.raw[..]) == HEAD_SIZE + |EncodeAll(Parameters(args))|
      ensures inside ==>
                Gather(frame.buffers) == frame.raw[..2] + (command.head[..] + EncodeAll(Parameters(args)))
      ensures inside ==>
                var left, size := old(command.ParametersDataSize()), |EncodeAll(Parameters(args))|;
                forall beyond: seq<byte> ::
                  Arrives(Gather(frame.buffers), name, args, size, left, beyond)
      ensures inside ==> IsRead(command.head[..], Parameters(args), old(command.ParametersDataSize()))
    {
      hide Encode, EncodeAll, Receive, ReceivedAll, HaveNoBool, TypesOf, Scratch, ScratchAll, ViewsOfAll, NodesAll, Gather;
      hide Arrives, IsRead;
      FromLittleEndianBound(command.head[4..8]);
      PowersOf256();
      ghost var p;
      frame, p := Open();
      inside := EncodeCall(args, frame, p);
      if !inside {
        return;
      }
      assert |command.Now(frame).scratch| == command.encodeBufferIndex;
      Composed(p, command, frame, Parameters(args));
      forall beyond: seq<byte>
        ensures Arrives(Gather(frame.buffers), name, args, |EncodeAll(Parameters(args))|, p.dataSize, beyond)
      {
        DeliveredIff(command, frame, name, args, p.dataSize, beyond);
      }
      assert command.head[..][4..8] == command.head[4..8];
      CallIsRead(command.head[..], Parameters(args), p.dataSize);
    }
  }

  /** What becomes of a call with so many bytes of parameters, when earlier calls have left a size: exactly the
      name and the arguments arrive, with nothing left over, if and only if nothing was left, the message fits
      the two-byte header that was sent, and no argument holds a boolean; and when something was left, the same
      conditions let them arrive with as many stray bytes behind them. */
  ghost predicate Arrives(
    wire: seq<byte>, name: seq<byte>, args: seq<Value>, size: nat, left: nat, beyond: seq<byte>)
  {
    var r := Receive(wire, TypesOf(args), beyond);
    && (r == Called(name, ReceivedAll(args), []) <==> left == 0 && HEAD_SIZE + size <= 125 && HaveNoBool(args))
    && (HEAD_SIZE + size <= 125 && left + size < TWO_TO_THE_32 && left <= |beyond| ==>
          (r == Called(name, ReceivedAll(args), beyond[..left]) <==> HaveNoBool(args)))
  }

  /** What a peer makes of a call message that keeps to the table of coded types: it understands the name and
      every argument as it was, booleans and exceptions included, if and only if nothing was left by earlier
      calls, every length fits its field, and the message counts the parameters alone. */
  ghost predicate IsRead(head: seq<byte>, params: seq<Value>, left: nat) {
    left + |EncodeAll(params)| < TWO_TO_THE_32 ==>
      (Peer.ReadCall(head + EncodeAll(params)) == Peer.Understood(params, [])
       <==> left == 0 && RepresentableAll(params) && NodesAll(params) % 256 == |params|)
  }

  lemma CallIsRead(head: seq<byte>, params: seq<Value>, left: nat)
    requires |head| == HEAD_SIZE && head[0] == CALL_FUNCTION && head[1] == NodesAll(params) % 256
    requires FromLittleEndian(head[4..8]) == (left + |EncodeAll(params)|) % TWO_TO_THE_32
    ensures IsRead(head, params, left)
  {
    hide EncodeAll, NodesAll, RepresentableAll, Peer.ReadCall, FromLittleEndian;
    if left + |EncodeAll(params)| < TWO_TO_THE_32 {
      Peer.CallIsReadIff(head, params);
    }
  }

  lemma Composed(p: Progress, command: FunctionCall, frame: Frame, params: seq<Value>)
    requires command.CanEncodeInto(frame) && command.Now(frame) == AfterAll(p, params, command.buffer)
    requires |p.buffers| > 0 && p.buffers[1..] == [Region(command.head, 0, HEAD_SIZE)]
    requires frame.buffers[0] == p.buffers[0] && frame.buffers[0].len == 2
    ensures Gather(frame.buffers) == frame.raw[..2] + (command.head[..] + EncodeAll(params))
    ensures Gather(frame.buffers[1..]) == command.head[..] + EncodeAll(params)
    ensures PayloadSize(frame.raw[..]) == HEAD_SIZE + |EncodeAll(params)|
  {
    var start, n := |p.scratch|, |ScratchAll(params)|;
    var head, views := [Region(command.head, 0, HEAD_SIZE)], ViewsOfAll(params, command.buffer, start);
    assert command.buffer[start..start + n] == command.buffer[..command.encodeBufferIndex][start..start + n];
    assert Holds(command.buffer, start, ScratchAll(params));
    ViewsOfAllShowEncoding(params, command.buffer, start);
    ShowsOne(head[0]);
    assert Read(head[0]) == command.head[0..HEAD_SIZE] == command.head[..];
    assert frame.buffers[1..] == head + views;
    ShowsBoth(frame.buffers[1..], command.head[..] + EncodeAll(params), head, views, command.head[..], EncodeAll(params));
    GatherSize(frame.buffers[1..]);
    assert Read(frame.buffers[0]) == frame.raw[0..2] == frame.raw[..2];
  }

  lemma ReceiveDispatches(wire: seq<byte>, message: seq<byte>, types: seq<Type>, beyond: seq<byte>)
    requires Frames.Received(wire, message, OPCODE_BINARY)
    ensures Receive(wire, types, beyond) == Dispatch(message, types, beyond)
  {
  }

  /** Reading a message with an eight-byte header and this body, short enough for the header bytes sent. */
  lemma ShortDelivery(raw: seq<byte>, head: seq<byte>, name: seq<byte>, args: seq<Value>, beyond: seq<byte>)
    requires |raw| == MAX_HEADER_SIZE && !Masked(raw) && Opcode(raw) == OPCODE_BINARY
    requires |head| == HEAD_SIZE && head[0] == CALL_FUNCTION
    requires var n := |Encode(Str(name)) + EncodeAll(args)|;
             HEAD_SIZE + n <= 125 && PayloadSize(raw) == HEAD_SIZE + n && LengthField(raw) == HEAD_SIZE + n
    ensures var message := head + (Encode(Str(name)) + EncodeAll(args));
            Receive(raw[..2] + message, TypesOf(args), beyond) == Dispatch(message, TypesOf(args), beyond)
  {
    hide Dispatch, Encode, EncodeAll;
    var message := head + (Encode(Str(name)) + EncodeAll(args));
    ReceivedIff(raw, 2, message);
    ReceiveDispatches(raw[..2] + message, message, TypesOf(args), beyond);
  }

  /** The sum of the sizes, in its field, is the size of this call exactly when nothing was left. */
  lemma LeftOver(left: nat, n: nat)
    requires left < TWO_TO_THE_32 && n < TWO_TO_THE_32
    ensures (left + n) % TWO_TO_THE_32 == n <==> left == 0
    ensures left + n < TWO_TO_THE_32 ==> (left + n) % TWO_TO_THE_32 == left + n
  {
  }

  /** Sixteen-bit and longer lengths do not fit the header bytes sent, whatever the message; and the size left by
      earlier calls shifts the end of the data. */
  lemma MessageDelivery(
    raw: seq<byte>, head: seq<byte>, name: seq<byte>, args: seq<Value>, left: nat, beyond: seq<byte>)
    requires |raw| == MAX_HEADER_SIZE && !Masked(raw) && Opcode(raw) == OPCODE_BINARY
    requires |head| == HEAD_SIZE && head[0] == CALL_FUNCTION && head[2] == 0 && left < TWO_TO_THE_32
    requires var body := Encode(Str(name)) + EncodeAll(args);
             && FromLittleEndian(head[4..8]) == (left + |body|) % TWO_TO_THE_32
             && PayloadSize(raw) == HEAD_SIZE + |body| && LengthField(raw) == LengthClass(HEAD_SIZE + |body|)
    ensures var body := Encode(Str(name)) + EncodeAll(args);
            Arrives(raw[..2] + (head + body), name, args, |body|, left, beyond)
  {
    hide Receive, Dispatch, ReceivedAll, HaveNoBool, Encode, EncodeAll, PayloadSize, TypesOf, FromLittleEndian;
    var body := Encode(Str(name)) + EncodeAll(args);
    if HEAD_SIZE + |body| <= 125 {
      ShortDelivery(raw, head, name, args, beyond);
      DispatchIff(head, name, args, beyond);
      LeftOver(left, |body|);
    } else {
      BodyTag(name, args);
      assert (head + body)[8] == body[0];
      LongMessageIsLost(raw, head + body, TypesOf(args), beyond);
    }
  }

  lemma BodyTag(name: seq<byte>, args: seq<Value>)
    ensures var body := Encode(Str(name)) + EncodeAll(args); |body| > 0 && body[0] != CALL_FUNCTION
  {
    assert Encode(Str(name))[0] == Prefix(Str(name))[0];
  }

  /** What becomes of the frame a call hands over. */
  lemma DeliveredIff(
    command: FunctionCall, frame: Frame, name: seq<byte>, args: seq<Value>, left: nat, beyond: seq<byte>)
    requires command.CanEncodeInto(frame) && frame.buffers[0].len == 2 && left < TWO_TO_THE_32
    requires command.ParametersDataSize() == (left + |EncodeAll([Str(name)] + args)|) % TWO_TO_THE_32
    requires Gather(frame.buffers[1..]) == command.head[..] + EncodeAll([Str(name)] + args)
    ensures Arrives(Gather(frame.buffers), name, args, |EncodeAll([Str(name)] + args)|, left, beyond)
  {
    hide Arrives;
    var params := [Str(name)] + args;
    assert params[0] == Str(name) && params[1..] == args;
    assert EncodeAll(params) == Encode(Str(name)) + EncodeAll(args);
    GatherSize(frame.buffers[1..]);
    FrameReceivedIff(frame);
    assert command.head[..][4..8] == command.head[4..8];
    MessageDelivery(frame.raw[..], command.head[..], name, args, left, beyond);
    assert frame.raw[..][..2] == frame.raw[..2];
  }
}
