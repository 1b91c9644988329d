/** The read loop of a WebSocket: chunks in, messages out. */
module WebSocketSession {
  import opened Bytes
  import opened Seqs
  import opened Header
  import opened FrameDecoder
  import opened ChunkInvariance

  const OPCODE_CLOSE: byte := 8

  /** A call of one of the three handlers. `past` is how many bytes behind those held the span shows. */
  datatype Notice =
    TextMessage(text: seq<byte>, past: nat) | BinaryMessage(data: seq<byte>, past: nat) | CloseNotice

  datatype Session = Session(decoder: State, started: bool, notices: seq<Notice>)

  /** What a complete frame leads to; frames of other types are passed over. */
  function NoticesOf(opcode: byte, payload: seq<byte>, past: nat): seq<Notice> {
    if opcode == OPCODE_TEXT then [TextMessage(payload, past)]
    else if opcode == OPCODE_BINARY then [BinaryMessage(payload, past)]
    else if opcode == OPCODE_CLOSE then [CloseNotice]
    else []
  }

  function Rest(d: State): State {
    d.(stage := Starting, header := [], payload := [])
  }

  lemma HeldWithinSize(d: State, chunk: seq<byte>)
    requires Ready(d) && Step(d, chunk).1
    ensures var next := Step(d, chunk).0; |next.payload| <= next.payloadSize
  {
  }

  /** The completion of one read. The handlers see as many bytes as the frame announced. */
  function OnRead(s: Session, chunk: seq<byte>): Session
    requires Ready(s.decoder)
  {
    var (next, done) := Step(s.decoder, chunk);
    if !done then s.(decoder := next)
    else
      HeldWithinSize(s.decoder, chunk);
      var past := next.payloadSize - |next.payload|;
      Session(Rest(next), s.started && next.opcode != OPCODE_CLOSE,
              s.notices + NoticesOf(next.opcode, next.payload, past))
  }

  /** Reads one after the other; a stopped session has closed its socket, and no read delivers any more. */
  function OnReadAll(s: Session, chunks: seq<seq<byte>>): (r: Session)
    requires Ready(s.decoder)
    ensures Ready(r.decoder)
    decreases |chunks|
  {
    if |chunks| == 0 || !s.started then s
    else
      StepKeepsReady(s.decoder, chunks[0]);
      OnReadAll(OnRead(s, chunks[0]), chunks[1..])
  }

  class WebSocket {
    const decoder: Decoder
    var started: bool
    ghost var notices: seq<Notice>

    ghost predicate Valid()
      reads this, decoder, decoder.headerBuffer
    {
      decoder.Valid() && Ready(decoder.Abstract())
    }

    ghost function Now(): Session
      requires Valid()
      reads this, decoder, decoder.headerBuffer
    {
      Session(decoder.Abstract(), started, notices)
    }

    constructor ()
      ensures Valid() && fresh(decoder) && fresh(decoder.headerBuffer)
      ensures Now() == Session(FRESH, true, [])
    {
      decoder := new Decoder();
      started, notices := true, [];
    }

    method ReadCompleted(chunk: seq<byte>)
      requires Valid()
      modifies this, decoder, decoder.headerBuffer
      ensures Valid() && Now() == OnRead(old(Now()), chunk)
    {
      hide Step;
      var done := decoder.Parse(chunk);
      if done {
        HeldWithinSize(old(decoder.Abstract()), chunk);
        var past := decoder.payloadSize - |decoder.payloadBuffer|;
        notices := notices + NoticesOf(decoder.frameType, decoder.payloadBuffer, past);
        if decoder.frameType == OPCODE_CLOSE {
          started := false;
        }
        decoder.Reset();
      }
    }
  }

  // ----- Bytes behind a frame, and bytes missing from it

  /** A chunk that completes a frame with its whole payload has the same effect with any bytes behind it. */
  lemma TrailingBytesAreLost(d: State, chunk: seq<byte>, behind: seq<byte>)
    requires Ready(d) && Step(d, chunk).1 && |Step(d, chunk).0.payload| == Step(d, chunk).0.payloadSize
    ensures Step(d, chunk + behind) == Step(d, chunk)
  {
    var all := chunk + behind;
    match d.stage
    case Starting => WholeStart(d, chunk, behind);
    case PartialHeader => WholeHeader(d, chunk, behind);
    case DecodingPayload =>
      var n := d.payloadSize - |d.payload|;
      assert all[..Min(n, |all|)] == chunk[..Min(n, |chunk|)];
  }

  lemma WholeStart(d: State, chunk: seq<byte>, behind: seq<byte>)
    requires Ready(d) && d.stage == Starting && Step(d, chunk).1
    ensures Step(d, chunk + behind) == Step(d, chunk)
  {
    var all := chunk + behind;
    assert IsComplete(chunk) && all[1] == chunk[1];
    var h := HeaderSize(chunk);
    DropFromBoth(chunk, behind, h);
    hide PayloadSize, MaskingKey, Opcode, Unmask;
    SameRest(d, chunk, all, chunk[h..], behind);
  }

  lemma WholeHeader(d: State, chunk: seq<byte>, behind: seq<byte>)
    requires Ready(d) && d.stage == PartialHeader && Step(d, chunk).1
    ensures Step(d, chunk + behind) == Step(d, chunk)
  {
    var all, n := chunk + behind, HeaderTake(d.header, chunk);
    assert d.header + all == (d.header + chunk) + behind;
    DropFromBoth(chunk, behind, n);
    assert all[..n] == chunk[..n];
    if |d.header + chunk| >= 2 {
      assert (d.header + chunk)[1] == (d.header + all)[1] == (d.header + chunk[..n])[1];
    }
    assert HeaderTake(d.header, all) == n;
    var header := d.header + chunk[..n];
    SameRest(d.(header := header), header, header, chunk[n..], behind);
  }

  lemma SameRest(d: State, raw: seq<byte>, more: seq<byte>, rest: seq<byte>, behind: seq<byte>)
    requires |raw| >= 2 && |raw| >= HeaderSize(raw) && raw <= more && Begin(d, raw, rest).1
    ensures HeaderSize(more) == HeaderSize(raw) && Begin(d, more, rest + behind) == Begin(d, raw, rest)
  {
    PrefixDecides(raw, more);
    var size := PayloadSize(raw);
    assert (rest + behind)[..Min(|rest + behind|, size)] == rest[..Min(|rest|, size)];
  }

  /** A call completes a frame before its payload is there if and only if a chunk is at least as long as what
      is missing after it, but not as long as what is missing before it. */
  lemma CompletesEarlyIff(d: State, chunk: seq<byte>)
    requires Ready(d)
    ensures var (next, done) := Step(d, chunk);
            done && |next.payload| < next.payloadSize <==>
              d.stage == DecodingPayload && |chunk| < d.payloadSize - |d.payload| <= 2 * |chunk|
  {
  }

  /** Whatever the read: at most one handler is called, and it is shown as many bytes as the frame announced,
      those held and those behind them. */
  lemma SpanIsWhole(s: Session, chunk: seq<byte>)
    requires Ready(s.decoder)
    ensures var (next, done) := Step(s.decoder, chunk);
            var r := OnRead(s, chunk);
            && (r.notices == s.notices || (done && r.notices == s.notices + [r.notices[|s.notices|]]))
            && (|r.notices| > |s.notices| && next.opcode == 1 ==>
                  r.notices[|s.notices|] == TextMessage(next.payload, next.payloadSize - |next.payload|))
            && (|r.notices| > |s.notices| && next.opcode == 2 ==>
                  r.notices[|s.notices|] == BinaryMessage(next.payload, next.payloadSize - |next.payload|))
            && (done && next.opcode in {1, 2, 8} ==> |r.notices| == |s.notices| + 1)
  {
    hide Step;
    var (next, done) := Step(s.decoder, chunk);
    assert s.notices + [] == s.notices;
  }

  // ----- A stream of frames

  /** A frame as it was sent, as the network cut it, and the bytes that came with its last chunk. */
  datatype Transfer = Transfer(wire: seq<byte>, chunks: seq<seq<byte>>, behind: seq<byte>)

  ghost predicate Regular(t: Transfer) {
    MaskedFrame(t.wire) && Splits(t.chunks, t.wire) && Guard(t.chunks, t.wire)
  }

  ghost predicate AllRegular(ts: seq<Transfer>) {
    forall t <- ts :: Regular(t)
  }

  /** What the reads of one transfer deliver. */
  function Arriving(t: Transfer): seq<seq<byte>> {
    if |t.chunks| == 0 then [] else t.chunks[..|t.chunks| - 1] + [t.chunks[|t.chunks| - 1] + t.behind]
  }

  function Chunks(ts: seq<Transfer>): seq<seq<byte>> {
    if |ts| == 0 then [] else Arriving(ts[0]) + Chunks(ts[1..])
  }

  ghost predicate Closes(t: Transfer)
    requires Regular(t)
  {
    Opcode(t.wire) == OPCODE_CLOSE
  }

  /** What the sender meant: the messages of its frames, unmasked, in order, up to the first close frame. */
  ghost function Sent(ts: seq<Transfer>): seq<Notice>
    requires AllRegular(ts)
  {
    if |ts| == 0 then []
    else
      assert Regular(ts[0]);
      NoticesOf(Opcode(ts[0].wire), Plain(ts[0].wire), 0) + if Closes(ts[0]) then [] else Sent(ts[1..])
  }

  lemma {:induction false} ReadsCompose(s: Session, a: seq<seq<byte>>, b: seq<seq<byte>>)
    requires Ready(s.decoder)
    ensures OnReadAll(s, a + b) == OnReadAll(OnReadAll(s, a), b)
    decreases |a|
  {
    hide OnRead, Step, Ready;
    if |a| == 0 {
      assert a + b == b;
    } else if s.started {
      assert (a + b)[0] == a[0] && (a + b)[1..] == a[1..] + b;
      OnReadKeepsReady(s, a[0]);
      ReadsCompose(OnRead(s, a[0]), a[1..], b);
    }
  }

  lemma OnReadKeepsReady(s: Session, chunk: seq<byte>)
    requires Ready(s.decoder)
    ensures Ready(OnRead(s, chunk).decoder)
  {
    hide Step;
    StepKeepsReady(s.decoder, chunk);
  }

  /** The session follows the decoder up to the chunk that completes a frame, whatever comes with it. */
  lemma {:induction false} FollowsDecoder(s: Session, t: Transfer)
    requires s.started && Ready(s.decoder)
    requires var o := Feed(s.decoder, t.chunks);
             o.Complete? && o.unread == 0 && |o.state.payload| == o.state.payloadSize
    ensures var d := Feed(s.decoder, t.chunks).state;
            OnReadAll(s, Arriving(t))
            == Session(Rest(d), d.opcode != OPCODE_CLOSE, s.notices + NoticesOf(d.opcode, d.payload, 0))
    decreases |t.chunks|
  {
    hide Step, NoticesOf;
    StepKeepsReady(s.decoder, t.chunks[0]);
    var (next, done) := Step(s.decoder, t.chunks[0]);
    var rest := Transfer(t.wire, t.chunks[1..], t.behind);
    if done {
      assert rest.chunks == [];
      TrailingBytesAreLost(s.decoder, t.chunks[0], t.behind);
      assert Arriving(t) == [t.chunks[0] + t.behind];
      OneRead(s, t.chunks[0] + t.behind);
    } else {
      assert Arriving(t)[0] == t.chunks[0] && Arriving(t)[1..] == Arriving(rest);
      FollowsDecoder(OnRead(s, t.chunks[0]), rest);
    }
  }

  lemma OneRead(s: Session, chunk: seq<byte>)
    requires s.started && Ready(s.decoder)
    ensures OnReadAll(s, [chunk]) == OnRead(s, chunk)
  {
    hide OnRead;
    OnReadKeepsReady(s, chunk);
    assert OnReadAll(OnRead(s, chunk), [chunk][1..]) == OnRead(s, chunk);
  }

  /** Any number of frames, each cut within the guard, each begun by a read of its own, and whatever comes
      behind them: the handlers are called with exactly the messages of these frames, unmasked and in order, up
      to the first close frame, which stops the session; without one the session is ready for the next frame. */
  lemma {:induction false} EveryFrameIsDelivered(s: Session, ts: seq<Transfer>)
    requires Rested(s.decoder) && s.started && AllRegular(ts)
    ensures Ready(s.decoder)
    ensures var r := OnReadAll(s, Chunks(ts));
            && Rested(r.decoder) && r.notices == s.notices + Sent(ts)
            && (r.started <==> forall t <- ts :: !Closes(t))
    decreases |ts|
  {
    hide OnRead, Step, Feed, Plain, NoticesOf, Guard, Splits;
    assert Ready(s.decoder);
    if |ts| == 0 {
      assert s.notices + [] == s.notices;
    } else {
      var t := ts[0];
      assert Regular(t);
      Single(s, t);
      var next := OnReadAll(s, Arriving(t));
      ReadsCompose(s, Arriving(t), Chunks(ts[1..]));
      var own := NoticesOf(Opcode(t.wire), Plain(t.wire), 0);
      if Closes(t) {
        assert own + [] == own;
      } else {
        EveryFrameIsDelivered(next, ts[1..]);
        Associative(s.notices, own, Sent(ts[1..]));
        assert forall u :: u in ts <==> u == t || u in ts[1..];
      }
    }
  }

  lemma Single(s: Session, t: Transfer)
    requires Rested(s.decoder) && s.started && Regular(t)
    ensures Ready(s.decoder)
    ensures var r := OnReadAll(s, Arriving(t));
            && Rested(r.decoder) && (r.started <==> !Closes(t))
            && r.notices == s.notices + NoticesOf(Opcode(t.wire), Plain(t.wire), 0)
  {
    hide OnRead, OnReadAll, Step, Feed, Plain, NoticesOf, Guard, Splits;
    DeliversIffGuard(s.decoder, t.wire, t.chunks);
    FollowsDecoder(s, t);
  }

  /** On the bytes of the wire: which handler a frame reaches, by the low four bits of its first byte, and with
      which octets. */
  lemma ByOpcode(s: Session, t: Transfer)
    requires Rested(s.decoder) && s.started && Regular(t)
    ensures Ready(s.decoder)
    ensures var w, h := t.wire, HeaderSize(t.wire);
            var octets := seq(|w| - h, i requires 0 <= i < |w| - h => Xor(w[h + i], w[h - 4 + i % 4]));
            var r := OnReadAll(s, Arriving(t));
            && (w[0] % 16 == 1 ==> r.notices == s.notices + [TextMessage(octets, 0)])
            && (w[0] % 16 == 2 ==> r.notices == s.notices + [BinaryMessage(octets, 0)])
            && (w[0] % 16 == 8 ==> r.notices == s.notices + [CloseNotice])
            && (w[0] % 16 !in {1, 2, 8} ==> r.notices == s.notices)
            && (r.started <==> w[0] % 16 != 8)
  {
    hide OnReadAll, Guard, Splits;
    Single(s, t);
    assert s.notices + [] == s.notices;
    var w, h := t.wire, HeaderSize(t.wire);
    assert Plain(w) == seq(|w| - h, i requires 0 <= i < |w| - h => Xor(w[h + i], w[h - 4 + i % 4]));
  }

  // ----- Reads that hold several frames

  /** A frame as a client makes it. */
  datatype Message = Message(first: byte, key: seq<byte>, payload: seq<byte>)

  predicate Sendable(m: Message) {
    |m.key| == 4 && |m.payload| < TWO_TO_THE_64
  }

  predicate AllSendable(ms: seq<Message>) {
    forall m <- ms :: Sendable(m)
  }

  function Wire(m: Message): seq<byte>
    requires Sendable(m)
  {
    ClientFrame(m.first, m.key, m.payload)
  }

  function WireOf(ms: seq<Message>): seq<byte>
    requires AllSendable(ms)
  {
    if |ms| == 0 then [] else Wire(ms[0]) + WireOf(ms[1..])
  }

  predicate IsClose(m: Message) {
    m.first % 16 == OPCODE_CLOSE
  }

  function NoticeOf(m: Message): seq<Notice> {
    NoticesOf(m.first % 16, m.payload, 0)
  }

  function NoticesOfAll(ms: seq<Message>): seq<Notice> {
    if |ms| == 0 then [] else NoticeOf(ms[0]) + NoticesOfAll(ms[1..])
  }

  /** One read holds one or more whole frames. */
  predicate Coalesced(batches: seq<seq<Message>>) {
    forall ms <- batches :: ms != [] && AllSendable(ms)
  }

  function Wires(batches: seq<seq<Message>>): seq<seq<byte>>
    requires Coalesced(batches)
  {
    if |batches| == 0 then []
    else
      assert batches[0] in batches;
      [WireOf(batches[0])] + Wires(batches[1..])
  }

  /** The first frame of each read, up to the first of them that closes. */
  function FirstOnes(batches: seq<seq<Message>>): seq<Notice>
    requires Coalesced(batches)
  {
    if |batches| == 0 then []
    else
      assert batches[0] in batches;
      NoticeOf(batches[0][0]) + if IsClose(batches[0][0]) then [] else FirstOnes(batches[1..])
  }

  /** A frame in one piece, with more frames behind it. */
  lemma FirstOfRead(s: Session, ms: seq<Message>)
    requires Rested(s.decoder) && s.started && AllSendable(ms) && ms != []
    ensures Ready(s.decoder)
    ensures var r := OnRead(s, WireOf(ms));
            Rested(r.decoder) && (r.started <==> !IsClose(ms[0])) && r.notices == s.notices + NoticeOf(ms[0])
  {
    hide Step, Feed, NoticesOf, OnRead, MaskedWith;
    var m := ms[0];
    assert m in ms;
    var w := Wire(m);
    assert Concat([w]) == w + Concat([w][1..]) == w;
    LayoutIsRead(m.first, true, |m.payload|, m.key, MaskedWith(m.key, m.payload));
    assert Splits([w], w) && Guard([w], w);
    assert MaskedFrame(w);
    var t := Transfer(w, [w], WireOf(ms[1..]));
    ClientFrameDelivered(s.decoder, m.first, m.key, m.payload, [w]);
    FollowsDecoder(s, t);
    assert Arriving(t) == [WireOf(ms)];
    OneRead(s, WireOf(ms));
  }

  /** Reads that each hold whole frames: exactly the first frame of each is delivered. */
  lemma {:induction false} FirstOnesAreDelivered(s: Session, batches: seq<seq<Message>>)
    requires Rested(s.decoder) && s.started && Coalesced(batches)
    ensures Ready(s.decoder) && OnReadAll(s, Wires(batches)).notices == s.notices + FirstOnes(batches)
    decreases |batches|
  {
    hide Step, OnRead, NoticesOf, WireOf;
    assert Ready(s.decoder);
    if |batches| > 0 {
      assert batches[0] in batches;
      FirstOfRead(s, batches[0]);
      var next := OnRead(s, WireOf(batches[0]));
      assert Wires(batches)[1..] == Wires(batches[1..]);
      if next.started {
        FirstOnesAreDelivered(next, batches[1..]);
        Associative(s.notices, NoticeOf(batches[0][0]), FirstOnes(batches[1..]));
      } else {
        assert NoticeOf(batches[0][0]) + [] == NoticeOf(batches[0][0]);
      }
    } else {
      assert s.notices + [] == s.notices;
    }
  }

  /** RFC 6455, section 5.5.1: nothing is sent behind a close frame. */
  predicate CloseIsLast(ms: seq<Message>) {
    forall i :: 0 <= i < |ms| - 1 ==> !IsClose(ms[i])
  }

  /** Every frame that is not the first of its read is one the session passes over. */
  predicate OnlySilentBehind(batches: seq<seq<Message>>) {
    forall ms <- batches :: forall j :: 1 <= j < |ms| ==> NoticeOf(ms[j]) == []
  }

  lemma {:induction false} NoticesAppend(a: seq<Message>, b: seq<Message>)
    ensures NoticesOfAll(a + b) == NoticesOfAll(a) + NoticesOfAll(b)
  {
    hide NoticeOf;
    if |a| == 0 {
      assert a + b == b;
    } else {
      assert (a + b)[1..] == a[1..] + b;
      NoticesAppend(a[1..], b);
    }
  }

  lemma {:induction false} SilentIff(ms: seq<Message>)
    ensures NoticesOfAll(ms) == [] <==> forall j :: 0 <= j < |ms| ==> NoticeOf(ms[j]) == []
  {
    hide NoticeOf;
    if |ms| > 0 {
      SilentIff(ms[1..]);
      assert forall j :: 1 <= j < |ms| ==> ms[1..][j - 1] == ms[j];
    }
  }

  /** What is received is as long as what is sent if and only if only silent frames are lost, and then it is
      the same. */
  lemma {:induction false} FirstOnesIff(batches: seq<seq<Message>>)
    requires Coalesced(batches) && CloseIsLast(Concat(batches))
    ensures |FirstOnes(batches)| <= |NoticesOfAll(Concat(batches))|
    ensures |FirstOnes(batches)| == |NoticesOfAll(Concat(batches))| <==> OnlySilentBehind(batches)
    ensures OnlySilentBehind(batches) ==> FirstOnes(batches) == NoticesOfAll(Concat(batches))
    decreases |batches|
  {
    hide NoticeOf, IsClose;
    if |batches| > 0 {
      var ms, rest := batches[0], Concat(batches[1..]);
      assert ms in batches && Concat(batches) == ms + rest;
      NoticesAppend(ms, rest);
      LastBehind(ms, rest);
      assert NoticesOfAll(ms) == NoticeOf(ms[0]) + NoticesOfAll(ms[1..]);
      SilentIff(ms[1..]);
      assert forall j :: 1 <= j < |ms| ==> ms[1..][j - 1] == ms[j];
      SplitSilent(batches);
      SomethingBehind(batches[1..]);
      FirstOnesIff(batches[1..]);
    }
  }

  lemma SplitSilent(batches: seq<seq<Message>>)
    requires |batches| > 0
    ensures OnlySilentBehind(batches) <==>
            (forall j :: 1 <= j < |batches[0]| ==> NoticeOf(batches[0][j]) == []) && OnlySilentBehind(batches[1..])
  {
    hide NoticeOf;
    assert forall ms :: ms in batches <==> ms == batches[0] || ms in batches[1..];
  }

  lemma LastBehind(ms: seq<Message>, rest: seq<Message>)
    requires CloseIsLast(ms + rest) && ms != []
    ensures CloseIsLast(rest) && (IsClose(ms[0]) ==> |ms| == 1 && rest == [])
  {
    hide IsClose;
    forall i | 0 <= i < |rest| - 1 ensures !IsClose(rest[i]) {
      assert (ms + rest)[|ms| + i] == rest[i];
    }
    assert (ms + rest)[0] == ms[0];
  }

  lemma SomethingBehind(batches: seq<seq<Message>>)
    requires Coalesced(batches)
    ensures |batches| > 0 ==> Concat(batches) != []
  {
    if |batches| > 0 {
      assert batches[0] in batches;
    }
  }

  /** For a client that sends nothing behind a close frame, and reads that each hold whole frames: the messages
      received are those sent if and only if every frame that shares a read with an earlier one is of a type
      the session passes over. */
  lemma AllAreReceivedIff(s: Session, batches: seq<seq<Message>>)
    requires Rested(s.decoder) && s.started && Coalesced(batches) && CloseIsLast(Concat(batches))
    ensures Ready(s.decoder)
    ensures OnReadAll(s, Wires(batches)).notices == s.notices + NoticesOfAll(Concat(batches)) <==> OnlySilentBehind(batches)
  {
    hide OnReadAll, Wires, FirstOnes, NoticesOfAll, OnlySilentBehind;
    FirstOnesAreDelivered(s, batches);
    FirstOnesIff(batches);
    SameTail(s.notices, FirstOnes(batches), NoticesOfAll(Concat(batches)));
  }
}
