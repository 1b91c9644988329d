/** When does the frame decoder deliver a masked frame that the network has cut into chunks? */
module ChunkInvariance {
  import opened Bytes
  import opened Seqs
  import opened Header
  import opened FrameDecoder

  /** What feeding chunk after chunk leads to; feeding stops at the first call that returns true. */
  datatype Outcome = Pending(state: State) | Complete(state: State, unread: nat)

  function Feed(d: State, chunks: seq<seq<byte>>): Outcome
    requires Ready(d)
    decreases |chunks|
  {
    if |chunks| == 0 then Pending(d)
    else
      var (next, done) := Step(d, chunks[0]);
      if done then Complete(next, |chunks| - 1) else Feed(next, chunks[1..])
  }

  /** A whole masked frame, as a client must send it (RFC 6455, section 5.1). */
  ghost predicate MaskedFrame(w: seq<byte>) {
    |w| >= 2 && Masked(w) && |w| >= HeaderSize(w) && |w| == HeaderSize(w) + PayloadSize(w)
  }

  /** What the sender masked, on the bytes of the wire: octet i of the payload was combined with octet i mod 4 of
      the key, the last four bytes of the header (RFC 6455, section 5.3). */
  function Plain(w: seq<byte>): (plain: seq<byte>)
    requires MaskedFrame(w)
    ensures |plain| == PayloadSize(w)
  {
    var h := HeaderSize(w);
    seq(|w| - h, i requires 0 <= i < |w| - h => Xor(w[h + i], w[h - 4 + i % 4]))
  }

  lemma PlainIsUnmasked(w: seq<byte>)
    requires MaskedFrame(w)
    ensures Plain(w) == Unmask(w[HeaderSize(w)..], MaskingKey(w), 0)
  {
    var h, key, plain := HeaderSize(w), MaskingKey(w), Unmask(w[HeaderSize(w)..], MaskingKey(w), 0);
    forall i | 0 <= i < |w| - h ensures plain[i] == Xor(w[h + i], w[h - 4 + i % 4]) {
      assert key[i % 4] == w[h - 4 + i % 4] && w[h..][i] == w[h + i];
    }
  }

  ghost predicate Splits(chunks: seq<seq<byte>>, w: seq<byte>) {
    |chunks| > 0 && Concat(chunks) == w && chunks[|chunks| - 1] != []
  }

  /** `parse` first returned true at the last chunk, holding the opcode and the unmasked payload. */
  ghost predicate Delivers(o: Outcome, w: seq<byte>)
    requires MaskedFrame(w)
  {
    && o.Complete? && o.unread == 0
    && o.state.payload == Plain(w) && o.state.payloadSize == PayloadSize(w) && o.state.opcode == Opcode(w)
  }

  /** Once the header is in, every chunk but the last is shorter than what is missing after it. */
  ghost predicate Smooth(chunks: seq<seq<byte>>, received: nat, w: seq<byte>)
    requires |w| >= 2
  {
    |chunks| <= 1 ||
    ((received >= Threshold(w) ==> 2 * |chunks[0]| < |w| - received) &&
     Smooth(chunks[1..], received + |chunks[0]|, w))
  }

  /** The exact guard: a sixteen-bit length must arrive with all fourteen bytes the decoder waits for. */
  ghost predicate Guard(chunks: seq<seq<byte>>, w: seq<byte>)
    requires |w| >= 2 && |chunks| > 0
  {
    (LengthField(w) == 126 ==> |chunks[0]| >= 14) && Smooth(chunks, 0, w)
  }

  /** The payload has been unmasked from `start` up to the k bytes received. */
  ghost predicate Reading(d: State, w: seq<byte>, start: nat, k: nat)
    requires MaskedFrame(w)
  {
    && d.stage == DecodingPayload
    && HeaderSize(w) <= start <= k <= |w|
    && d.payloadSize == PayloadSize(w) && d.opcode == Opcode(w) && d.mask == MaskingKey(w)
    && d.payload == Unmask(w[start..k], MaskingKey(w), 0)
  }

  lemma UnmaskAppend(a: seq<byte>, b: seq<byte>, key: seq<byte>, offset: nat)
    requires |key| == 4
    ensures Unmask(a + b, key, offset) == Unmask(a, key, offset) + Unmask(b, key, offset + |a|)
  {
  }

  lemma ReadMore(d: State, w: seq<byte>, start: nat, k: nat, chunk: seq<byte>)
    requires MaskedFrame(w) && Reading(d, w, start, k) && k + |chunk| <= |w| && chunk == w[k..k + |chunk|]
    ensures Ready(d) && Reading(Step(d, chunk).0, w, start, k + |chunk|)
    ensures Step(d, chunk).1 <==> 2 * |chunk| >= PayloadSize(w) - (k - start)
  {
    assert chunk[..|chunk|] == chunk;
    assert w[start..k] + chunk == w[start..k + |chunk|];
    UnmaskAppend(w[start..k], chunk, MaskingKey(w), 0);
  }

  lemma FirstPart(chunks: seq<seq<byte>>, w: seq<byte>, k: nat)
    requires k <= |w| && Splits(chunks, w[k..])
    ensures k + |chunks[0]| <= |w| && chunks[0] == w[k..k + |chunks[0]|]
    ensures |chunks| == 1 ==> k + |chunks[0]| == |w| && chunks[0] != []
    ensures |chunks| > 1 ==> Splits(chunks[1..], w[k + |chunks[0]|..]) && k + |chunks[0]| < |w|
  {
    var rest := Concat(chunks[1..]);
    assert w[k..] == chunks[0] + rest;
    assert w[k + |chunks[0]|..] == w[k..][|chunks[0]|..] == rest;
    if |chunks| > 1 {
      var init, last := chunks[1..|chunks| - 1], chunks[|chunks| - 1..];
      ConcatAppend(init, last);
      assert init + last == chunks[1..];
      assert Concat(last) == last[0] + Concat(last[1..]);
      assert |rest| > 0;
    }
  }

  lemma {:induction false} ReadAll(d: State, w: seq<byte>, k: nat, chunks: seq<seq<byte>>)
    requires MaskedFrame(w) && Threshold(w) <= k <= |w| && Reading(d, w, HeaderSize(w), k)
    requires Splits(chunks, w[k..])
    ensures Ready(d) && (Delivers(Feed(d, chunks), w) <==> Smooth(chunks, k, w))
    decreases |chunks|
  {
    PlainIsUnmasked(w);
    hide Plain;
    FirstPart(chunks, w, k);
    var n := |chunks[0]|;
    ReadMore(d, w, HeaderSize(w), k, chunks[0]);
    if |chunks| == 1 {
      assert w[HeaderSize(w)..k + n] == w[HeaderSize(w)..];
    } else if 2 * n < |w| - k {
      ReadAll(Step(d, chunks[0]).0, w, k + n, chunks[1..]);
    }
  }

  /** Payload bytes swallowed by the header buffer are lost for good. */
  lemma {:induction false} ReadLate(d: State, w: seq<byte>, start: nat, k: nat, chunks: seq<seq<byte>>)
    requires MaskedFrame(w) && HeaderSize(w) < start && Reading(d, w, start, k)
    requires Splits(chunks, w[k..])
    ensures Ready(d) && !Delivers(Feed(d, chunks), w)
    decreases |chunks|
  {
    FirstPart(chunks, w, k);
    ReadMore(d, w, start, k, chunks[0]);
    var (next, done) := Step(d, chunks[0]);
    assert |next.payload| < PayloadSize(w);
    if !done && |chunks| > 1 {
      ReadLate(next, w, start, k + |chunks[0]|, chunks[1..]);
    }
  }

  /** A complete header followed by the bytes of the frame up to k. */
  lemma BeginReads(d: State, w: seq<byte>, start: nat, k: nat, raw: seq<byte>)
    requires MaskedFrame(w) && HeaderSize(w) <= start <= k <= |w|
    requires |raw| >= HeaderSize(w) && raw <= w
    ensures |raw| >= 2 && HeaderSize(raw) == HeaderSize(w) && |raw| >= HeaderSize(raw)
    ensures var (next, done) := Begin(d, raw, w[start..k]);
            && (done <==> k - start == PayloadSize(w))
            && (!done ==> Reading(next, w, start, k))
            && next.payloadSize == PayloadSize(w) && next.opcode == Opcode(w)
            && next.payload == Unmask(w[start..k], MaskingKey(w), 0)
  {
    assert raw[1] == w[1];
    PrefixDecides(raw, w);
    assert w[start..k][..k - start] == w[start..k];
  }

  ghost predicate Gathering(d: State, w: seq<byte>, k: nat)
    requires MaskedFrame(w)
  {
    && k < Threshold(w) && k <= |w|
    && d.stage == PartialHeader && d.header == w[..k] && d.payload == []
  }

  lemma GatherStep(d: State, w: seq<byte>, k: nat, chunk: seq<byte>)
    requires MaskedFrame(w) && Gathering(d, w, k) && k + |chunk| <= |w| && chunk == w[k..k + |chunk|]
    ensures Ready(d)
    ensures k + |chunk| < Threshold(w) ==> !Step(d, chunk).1 && Gathering(Step(d, chunk).0, w, k + |chunk|)
    ensures k + |chunk| >= Threshold(w) ==>
      var T := Threshold(w);
      var d' := d.(header := w[..T]);
      HeaderSize(w[..T]) <= T && Step(d, chunk) == Begin(d', w[..T], w[T..k + |chunk|])
  {
    var T, n := Threshold(w), HeaderTake(d.header, chunk);
    assert d.header + chunk == w[..k + |chunk|];
    assert d.header + chunk[..n] == w[..k + n];
    if k + |chunk| >= T {
      assert n == T - k && chunk[n..] == w[T..k + |chunk|];
    }
  }

  /** The chunk that completes a buffered header: what follows is read from the threshold on. */
  lemma HeaderBuffered(d: State, w: seq<byte>, k: nat, chunks: seq<seq<byte>>)
    requires MaskedFrame(w) && Threshold(w) <= k <= |w| && HeaderSize(w[..Threshold(w)]) <= Threshold(w)
    requires |chunks| == 0 <==> k == |w|
    requires |chunks| > 0 ==> Splits(chunks, w[k..])
    ensures var (next, done) := Begin(d, w[..Threshold(w)], w[Threshold(w)..k]);
            && (done ==> |chunks| == 0)
            && (!done ==> Ready(next))
            && (Delivers(if done then Complete(next, 0) else Feed(next, chunks), w)
                <==> LengthField(w) != 126 && Smooth(chunks, k, w))
  {
    PlainIsUnmasked(w);
    hide Plain;
    var T := Threshold(w);
    BeginReads(d, w, T, k, w[..T]);
    var (next, done) := Begin(d, w[..T], w[T..k]);
    if |chunks| == 0 {
      assert LengthField(w) != 126 ==> w[T..k] == w[HeaderSize(w)..];
    } else if LengthField(w) != 126 {
      ReadAll(next, w, k, chunks);
    } else {
      ReadLate(next, w, T, k, chunks);
    }
  }

  lemma {:induction false} Buffering(d: State, w: seq<byte>, k: nat, chunks: seq<seq<byte>>)
    requires MaskedFrame(w) && Gathering(d, w, k) && Splits(chunks, w[k..])
    ensures Ready(d)
    ensures Delivers(Feed(d, chunks), w) <==> LengthField(w) != 126 && Smooth(chunks, k, w)
    decreases |chunks|
  {
    FirstPart(chunks, w, k);
    var T, k' := Threshold(w), k + |chunks[0]|;
    GatherStep(d, w, k, chunks[0]);
    if k' >= T {
      HeaderBuffered(d.(header := w[..T]), w, k', chunks[1..]);
    } else if |chunks| > 1 {
      Buffering(Step(d, chunks[0]).0, w, k', chunks[1..]);
    }
  }

  /** Between frames: what the decoder remembers of the frame before does not matter. */
  ghost predicate Rested(d: State) {
    d.stage == Starting && d.header == [] && d.payload == []
  }

  /** However the network cuts a masked frame, the decoder delivers it, at its last chunk and
      not before, if and only if the cut satisfies the guard. */
  lemma DeliversIffGuard(d: State, w: seq<byte>, chunks: seq<seq<byte>>)
    requires Rested(d) && MaskedFrame(w) && Splits(chunks, w)
    ensures Delivers(Feed(d, chunks), w) <==> Guard(chunks, w)
  {
    PlainIsUnmasked(w);
    hide Plain;
    assert w[0..] == w;
    FirstPart(chunks, w, 0);
    var c := chunks[0];
    var (next, done) := Step(d, c);
    if |c| >= 2 {
      assert c[1] == w[1];
    }
    if IsComplete(c) {
      assert c[HeaderSize(c)..] == w[HeaderSize(w)..|c|];
      BeginReads(d, w, HeaderSize(w), |c|, c);
      if |chunks| == 1 {
        assert w[HeaderSize(w)..|c|] == w[HeaderSize(w)..];
      } else {
        ReadAll(next, w, |c|, chunks[1..]);
      }
    } else {
      assert c == w[..|c|];
      if |chunks| > 1 {
        Buffering(next, w, |c|, chunks[1..]);
      }
    }
  }

  /** A frame that arrives in one piece is delivered when its header form fits what the decoder waits for. */
  lemma WholeFrame(d: State, w: seq<byte>)
    requires Rested(d) && MaskedFrame(w)
    ensures Delivers(Feed(d, [w]), w) <==> (LengthField(w) == 126 ==> |w| >= 14)
  {
    assert Concat([w]) == w + Concat([w][1..]) == w;
    DeliversIffGuard(d, w, [w]);
  }

  /** Delivery undoes masking: a payload masked by the client comes back as it was. */
  lemma MaskingRoundTrip(plain: seq<byte>, key: seq<byte>, offset: nat)
    requires |key| == 4
    ensures Unmask(Unmask(plain, key, offset), key, offset) == plain
  {
    forall i | 0 <= i < |plain| ensures Unmask(Unmask(plain, key, offset), key, offset)[i] == plain[i] {
      XorTwice(plain[i], key[(offset + i) % 4]);
    }
  }

  /** The payload as a client masks it: RFC 6455, section 5.3. */
  function MaskedWith(key: seq<byte>, payload: seq<byte>): (octets: seq<byte>)
    requires |key| == 4
    ensures |octets| == |payload|
  {
    seq(|payload|, i requires 0 <= i < |payload| => Xor(payload[i], key[i % 4]))
  }

  /** What a client sends for a payload: RFC 6455, section 5.2. */
  function ClientFrame(first: byte, key: seq<byte>, payload: seq<byte>): seq<byte>
    requires |key| == 4
  {
    Layout(first, true, |payload|, key) + MaskedWith(key, payload)
  }

  /** From the client's payload to the decoder's: delivered as it was, with its opcode, if and only if the
      cut satisfies the guard. */
  lemma ClientFrameDelivered(d: State, first: byte, key: seq<byte>, payload: seq<byte>, chunks: seq<seq<byte>>)
    requires Rested(d) && |key| == 4 && |payload| < TWO_TO_THE_64
    requires Splits(chunks, ClientFrame(first, key, payload))
    ensures var w := ClientFrame(first, key, payload);
            var o := Feed(d, chunks);
            |w| >= 2 &&
            (o.Complete? && o.unread == 0 && o.state.payload == payload && o.state.payloadSize == |payload|
             && o.state.opcode == first % 16
             <==> Guard(chunks, w))
  {
    var w := ClientFrame(first, key, payload);
    assert MaskedWith(key, payload) == Unmask(payload, key, 0);
    LayoutIsRead(first, true, |payload|, key, Unmask(payload, key, 0));
    PlainIsUnmasked(w);
    assert w[HeaderSize(w)..] == Unmask(payload, key, 0);
    MaskingRoundTrip(payload, key, 0);
    DeliversIffGuard(d, w, chunks);
  }
}
