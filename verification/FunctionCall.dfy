/** Composing a call: parameters are encoded through a scratch buffer and collected as views in a frame. */
module FunctionCall {
  import opened Bytes
  import opened Seqs
  import opened Messages
  import opened Frame
  import Header

  const SCRATCH_SIZE: nat := 1024
  const HEAD_SIZE: nat := 8
  const CALL_FUNCTION: byte := 3

  /** The views registered for a value whose scratch bytes begin at `start`. */
  function ViewsOf(v: Value, buffer: array<byte>, start: nat): seq<View>
    decreases v, 1
  {
    [Region(buffer, start, |Prefix(v)|)] +
    match v
    case Str(t) => [Text(t)]
    case Exc(t) => [Text(t)]
    case Tup(elems) => ViewsOfAll(elems, buffer, start + |Prefix(v)|)
    case _ => []
  }

  function ViewsOfAll(vs: seq<Value>, buffer: array<byte>, start: nat): seq<View>
    decreases vs, 0
  {
    if |vs| == 0 then []
    else ViewsOf(vs[0], buffer, start) + ViewsOfAll(vs[1..], buffer, start + |Scratch(vs[0])|)
  }

  /** Regions of one buffer, in ascending order and without overlap, between lo and hi. */
  ghost predicate Ascending(views: seq<View>, buffer: array<byte>, lo: nat, hi: nat) {
    && (forall v <- views :: v.Region? ==> v.a == buffer && lo <= v.start && v.start + v.len <= hi)
    && (forall i, j :: 0 <= i < j < |views| && views[i].Region? && views[j].Region?
                       ==> views[i].start + views[i].len <= views[j].start)
  }

  lemma AscendingAppend(all: seq<View>, a: seq<View>, b: seq<View>, buffer: array<byte>, lo: nat, mid: nat, hi: nat)
    requires lo <= mid <= hi && Ascending(a, buffer, lo, mid) && Ascending(b, buffer, mid, hi) && all == a + b
    ensures Ascending(all, buffer, lo, hi)
  {
  }

  /** The scratch regions of a value are pairwise disjoint and lie in its own part of the buffer. */
  lemma {:induction false} ViewsAreDisjoint(v: Value, buffer: array<byte>, start: nat)
    ensures Ascending(ViewsOf(v, buffer, start), buffer, start, start + |Scratch(v)|)
    decreases v, 1
  {
    if v.Tup? {
      var mid := start + |Prefix(v)|;
      ViewsOfAllAreDisjoint(v.elems, buffer, mid);
      AscendingAppend(ViewsOf(v, buffer, start), [Region(buffer, start, |Prefix(v)|)], ViewsOfAll(v.elems, buffer, mid),
                      buffer, start, mid, start + |Scratch(v)|);
    }
  }

  lemma {:induction false} ViewsOfAllAreDisjoint(vs: seq<Value>, buffer: array<byte>, start: nat)
    ensures Ascending(ViewsOfAll(vs, buffer, start), buffer, start, start + |ScratchAll(vs)|)
    decreases vs, 0
  {
    if |vs| > 0 {
      var mid, hi := start + |Scratch(vs[0])|, start + |ScratchAll(vs)|;
      var a, b := ViewsOf(vs[0], buffer, start), ViewsOfAll(vs[1..], buffer, mid);
      ViewsAreDisjoint(vs[0], buffer, start);
      ViewsOfAllAreDisjoint(vs[1..], buffer, mid);
      ViewsOfAllUnfold(vs, buffer, start);
      AscendingAppend(ViewsOfAll(vs, buffer, start), a, b, buffer, start, mid, hi);
    }
  }

  lemma {:induction false} SizesAdd(a: seq<View>, b: seq<View>)
    ensures TotalSize(a + b) == TotalSize(a) + TotalSize(b)
  {
    if |a| == 0 {
      assert a + b == b;
    } else {
      assert (a + b)[1..] == a[1..] + b;
      SizesAdd(a[1..], b);
    }
  }

  lemma SizeOfOne(v: View)
    ensures TotalSize([v]) == v.Size()
  {
    assert [v][1..] == [];
  }

  lemma {:induction false} ViewsSize(v: Value, buffer: array<byte>, start: nat)
    ensures TotalSize(ViewsOf(v, buffer, start)) == |Encode(v)|
    decreases v, 1
  {
    var first := Region(buffer, start, |Prefix(v)|);
    SizeOfOne(first);
    if v.Str? || v.Exc? {
      SizeOfOne(Text(InPlace(v)));
      SizesAdd([first], [Text(InPlace(v))]);
    } else if v.Tup? {
      ViewsOfAllSize(v.elems, buffer, start + |Prefix(v)|);
      SizesAdd([first], ViewsOfAll(v.elems, buffer, start + |Prefix(v)|));
    } else {
      SizesAdd([first], []);
    }
  }

  lemma {:induction false} ViewsOfAllSize(vs: seq<Value>, buffer: array<byte>, start: nat)
    ensures TotalSize(ViewsOfAll(vs, buffer, start)) == |EncodeAll(vs)|
    decreases vs, 0
  {
    if |vs| > 0 {
      ViewsSize(vs[0], buffer, start);
      ViewsOfAllSize(vs[1..], buffer, start + |Scratch(vs[0])|);
      SizesAdd(ViewsOf(vs[0], buffer, start), ViewsOfAll(vs[1..], buffer, start + |Scratch(vs[0])|));
    }
  }

  ghost predicate Holds(buffer: array<byte>, start: nat, bytes: seq<byte>)
    reads buffer
  {
    start + |bytes| <= buffer.Length && buffer[start..start + |bytes|] == bytes
  }

  lemma HoldsParts(buffer: array<byte>, start: nat, all: seq<byte>, a: seq<byte>, b: seq<byte>)
    requires Holds(buffer, start, all) && all == a + b
    ensures Holds(buffer, start, a) && Holds(buffer, start + |a|, b)
  {
    var s := buffer[start..start + |all|];
    assert buffer[start..start + |a|] == s[..|a|] == a;
    assert buffer[start + |a|..start + |all|] == s[|a|..] == b;
  }

  /** The views are live and what they show is `bytes`. */
  ghost predicate Shows(views: seq<View>, bytes: seq<byte>)
    reads Objects(views)
  {
    AllInBounds(views) && Gather(views) == bytes
  }

  lemma ShowsOne(v: View)
    requires v.InBounds()
    ensures Shows([v], Read(v))
  {
    assert Gather([v]) == Read(v) + Gather([v][1..]);
  }

  lemma ShowsBoth(all: seq<View>, bytes: seq<byte>, a: seq<View>, b: seq<View>, x: seq<byte>, y: seq<byte>)
    requires Shows(a, x) && Shows(b, y) && all == a + b && bytes == x + y
    ensures Shows(all, bytes)
  {
    GatherAppend(a, b);
  }

  /** Views registered before their bytes were written show, once they are, the encoding of the value. */
  lemma {:induction false} ViewsShowEncoding(v: Value, buffer: array<byte>, start: nat)
    requires Holds(buffer, start, Scratch(v))
    ensures Shows(ViewsOf(v, buffer, start), Encode(v))
    decreases v, 1
  {
    var p, more := Prefix(v), if v.Tup? then ScratchAll(v.elems) else [];
    assert Scratch(v) == p + more;
    HoldsParts(buffer, start, Scratch(v), p, more);
    var first := Region(buffer, start, |p|);
    ShowsOne(first);
    if v.Tup? {
      var rest := ViewsOfAll(v.elems, buffer, start + |p|);
      ViewsOfAllShowEncoding(v.elems, buffer, start + |p|);
      ShowsBoth(ViewsOf(v, buffer, start), Encode(v), [first], rest, p, EncodeAll(v.elems));
    } else if v.Str? || v.Exc? {
      ShowsOne(Text(InPlace(v)));
      ShowsBoth(ViewsOf(v, buffer, start), Encode(v), [first], [Text(InPlace(v))], p, InPlace(v));
    } else {
      assert ViewsOf(v, buffer, start) == [first] && Encode(v) == p;
    }
  }

  lemma {:induction false} ViewsOfAllShowEncoding(vs: seq<Value>, buffer: array<byte>, start: nat)
    requires Holds(buffer, start, ScratchAll(vs))
    ensures Shows(ViewsOfAll(vs, buffer, start), EncodeAll(vs))
    decreases vs, 0
  {
    if |vs| > 0 {
      var v, rest, mid := vs[0], vs[1..], start + |Scratch(vs[0])|;
      HoldsParts(buffer, start, ScratchAll(vs), Scratch(v), ScratchAll(rest));
      ViewsShowEncoding(v, buffer, start);
      ViewsOfAllShowEncoding(rest, buffer, mid);
      ViewsOfAllShowBoth(vs, buffer, start, v, rest, mid);
    }
  }

  lemma ViewsOfAllShowBoth(vs: seq<Value>, buffer: array<byte>, start: nat, v: Value, rest: seq<Value>, mid: nat)
    requires |vs| > 0 && v == vs[0] && rest == vs[1..] && mid == start + |Scratch(v)|
    requires Shows(ViewsOf(v, buffer, start), Encode(v)) && Shows(ViewsOfAll(rest, buffer, mid), EncodeAll(rest))
    ensures Shows(ViewsOfAll(vs, buffer, start), EncodeAll(vs))
  {
    ShowsBoth(ViewsOfAll(vs, buffer, start), EncodeAll(vs), ViewsOf(v, buffer, start), ViewsOfAll(rest, buffer, mid),
              Encode(v), EncodeAll(rest));
  }

  lemma ViewsOfAllUnfold(vs: seq<Value>, buffer: array<byte>, start: nat)
    requires |vs| > 0
    ensures ViewsOfAll(vs, buffer, start)
         == ViewsOf(vs[0], buffer, start) + ViewsOfAll(vs[1..], buffer, start + |Scratch(vs[0])|)
    ensures EncodeAll(vs) == Encode(vs[0]) + EncodeAll(vs[1..])
    ensures ScratchAll(vs) == Scratch(vs[0]) + ScratchAll(vs[1..])
  {
  }

  /** How far a call has been composed. `scratch` is the part of the scratch buffer in use. */
  datatype Progress = Progress(buffers: seq<View>, scratch: seq<byte>, count: nat, dataSize: nat)

  /** Encoding a value appends its views and its scratch bytes, so that no byte under an earlier view
      changes, and counts its nodes and its encoded bytes in the width of their fields. */
  function After(p: Progress, v: Value, buffer: array<byte>): Progress {
    Progress(p.buffers + ViewsOf(v, buffer, |p.scratch|), p.scratch + Scratch(v),
             (p.count + Nodes(v)) % 256, (p.dataSize + |Encode(v)|) % TWO_TO_THE_32)
  }

  function AfterPrefix(p: Progress, v: Value, buffer: array<byte>): Progress {
    Progress(p.buffers + [Region(buffer, |p.scratch|, |Prefix(v)|)], p.scratch + Prefix(v),
             (p.count + 1) % 256, (p.dataSize + |Prefix(v)|) % TWO_TO_THE_32)
  }

  function AfterAll(p: Progress, vs: seq<Value>, buffer: array<byte>): Progress {
    Progress(p.buffers + ViewsOfAll(vs, buffer, |p.scratch|), p.scratch + ScratchAll(vs),
             (p.count + NodesAll(vs)) % 256, (p.dataSize + |EncodeAll(vs)|) % TWO_TO_THE_32)
  }

  lemma CountWraps(a: nat, x: nat, y: nat)
    ensures ((a + x) % 256 + y) % 256 == (a + (x + y)) % 256
  {
  }

  lemma SizeWraps(a: nat, x: nat, y: nat)
    ensures ((a + x) % TWO_TO_THE_32 + y) % TWO_TO_THE_32 == (a + (x + y)) % TWO_TO_THE_32
  {
  }

  lemma SizeAdds(a: nat, x: nat)
    ensures (a + x % TWO_TO_THE_32) % TWO_TO_THE_32 == (a + x) % TWO_TO_THE_32
  {
  }

  lemma SizeFits(size: nat)
    requires size < TWO_TO_THE_32
    ensures FromLittleEndian(ToLittleEndian(size, 4)) == size
  {
    PowersOf256();
    LittleEndianRoundTrip(size, 4);
  }

  lemma AfterThenAll(p: Progress, vs: seq<Value>, buffer: array<byte>)
    requires |vs| > 0
    ensures AfterAll(After(p, vs[0], buffer), vs[1..], buffer) == AfterAll(p, vs, buffer)
  {
    var start := |p.scratch|;
    Associative(p.buffers, ViewsOf(vs[0], buffer, start), ViewsOfAll(vs[1..], buffer, start + |Scratch(vs[0])|));
    Associative(p.scratch, Scratch(vs[0]), ScratchAll(vs[1..]));
    CountWraps(p.count, Nodes(vs[0]), NodesAll(vs[1..]));
    SizeWraps(p.dataSize, |Encode(vs[0])|, |EncodeAll(vs[1..])|);
  }

  class FunctionCall {
    const head: array<byte>
    const buffer: array<byte>
    var encodeBufferIndex: nat

    ghost predicate Valid()
      reads this, head
    {
      && head.Length == HEAD_SIZE && buffer.Length == SCRATCH_SIZE && head != buffer
      && encodeBufferIndex <= SCRATCH_SIZE
      && head[0] == CALL_FUNCTION && head[2] == 0 && head[3] == 0
    }

    ghost predicate CanEncodeInto(frame: Frame)
      reads this, head, frame, frame.raw
    {
      && Valid() && frame.Valid()
      && frame.raw != head && frame.raw != buffer
      && Header.Opcode(frame.raw[..]) == Header.OPCODE_BINARY
    }

    ghost function Now(frame: Frame): Progress
      requires Valid()
      reads this, head, buffer, frame
    {
      Progress(frame.buffers, buffer[..encodeBufferIndex], ParametersCount(), ParametersDataSize())
    }

    constructor ()
      ensures Valid() && fresh(head) && fresh(buffer)
      ensures encodeBufferIndex == 0 && ParametersCount() == 0 && ParametersDataSize() == 0
    {
      head := new byte[HEAD_SIZE](i => if i == 0 then CALL_FUNCTION else 0);
      buffer := new byte[SCRATCH_SIZE](_ => 0);
      encodeBufferIndex := 0;
      new;
      assert head[4..8] == ToLittleEndian(0, 4);
      PowersOf256();
      LittleEndianRoundTrip(0, 4);
    }

    function ParametersCount(): byte
      requires head.Length == HEAD_SIZE
      reads head
    {
      head[1]
    }

    function ParametersDataSize(): nat
      requires head.Length == HEAD_SIZE
      reads head
    {
      FromLittleEndian(head[4..8])
    }

    method SetParametersCount(count: byte)
      requires Valid()
      modifies head
      ensures Valid() && ParametersCount() == count && ParametersDataSize() == old(ParametersDataSize())
    {
      head[1] := count;
      assert head[4..8] == old(head[4..8]);
    }

    method SetPayloadSize(bytes: seq<byte>)
      requires Valid() && |bytes| == 4
      modifies head
      ensures Valid() && head[4..8] == bytes && ParametersCount() == old(ParametersCount())
    {
      forall i | 0 <= i < 4 {
        head[4 + i] := bytes[i];
      }
      assert head[4..8] == bytes;
    }

    /** Adds to the data size, modulo 2^32. */
    method IncrementPayloadSize(value: nat)
      requires Valid()
      modifies head
      ensures Valid() && ParametersCount() == old(ParametersCount())
      ensures ParametersDataSize() == (old(ParametersDataSize()) + value) % TWO_TO_THE_32
    {
      var size := (ParametersDataSize() + value % TWO_TO_THE_32) % TWO_TO_THE_32;
      SizeFits(size);
      SizeAdds(ParametersDataSize(), value);
      SetPayloadSize(ToLittleEndian(size, 4));
    }

    /** Registers the next bytes of the scratch buffer as a view of the frame, then writes them; `inside` is
        false when they pass the end of the buffer, and nothing is known from then on. */
    method EncodePrefix(bytes: seq<byte>, frame: Frame) returns (inside: bool)
      requires CanEncodeInto(frame)
      requires TotalSize(frame.buffers[1..]) + |bytes| < TWO_TO_THE_64
      modifies this, head, buffer, frame, frame.raw
      ensures inside <==> old(encodeBufferIndex) + |bytes| <= 1024
      ensures inside ==>
                && CanEncodeInto(frame)
                && var p := old(Now(frame));
                   Now(frame) == Progress(p.buffers + [Region(buffer, |p.scratch|, |bytes|)], p.scratch + bytes,
                                          p.count, (p.dataSize + |bytes|) % TWO_TO_THE_32)
    {
      var start := encodeBufferIndex;
      if start + |bytes| > SCRATCH_SIZE {
        return false;
      }
      var size := frame.AddBuffer(Region(buffer, start, |bytes|));
      forall i | 0 <= i < |bytes| {
        buffer[start + i] := bytes[i];
      }
      encodeBufferIndex := start + |bytes|;
      assert buffer[..encodeBufferIndex] == old(buffer[..encodeBufferIndex]) + bytes;
      IncrementPayloadSize(|bytes|);
      inside := true;
    }

    /** Registers bytes the caller keeps. */
    method EncodeInPlace(text: seq<byte>, frame: Frame)
      requires CanEncodeInto(frame)
      requires TotalSize(frame.buffers[1..]) + |text| < TWO_TO_THE_64
      modifies head, frame, frame.raw
      ensures CanEncodeInto(frame)
      ensures var p := old(Now(frame));
              Now(frame) == p.(buffers := p.buffers + [Text(text)], dataSize := (p.dataSize + |text|) % TWO_TO_THE_32)
    {
      var size := frame.AddBuffer(Text(text));
      IncrementPayloadSize(|text|);
    }

    /** What every kind of parameter begins with. */
    method EncodeNode(v: Value, frame: Frame) returns (inside: bool)
      requires CanEncodeInto(frame)
      requires TotalSize(frame.buffers[1..]) + |Prefix(v)| < TWO_TO_THE_64
      modifies this, head, buffer, frame, frame.raw
      ensures inside <==> old(encodeBufferIndex) + |Prefix(v)| <= 1024
      ensures inside ==>
                && CanEncodeInto(frame) && Now(frame) == AfterPrefix(old(Now(frame)), v, buffer)
                && TotalSize(frame.buffers[1..]) == old(TotalSize(frame.buffers[1..])) + |Prefix(v)|
    {
      ghost var p := Now(frame);
      SetParametersCount((ParametersCount() + 1) % 256);
      inside := EncodePrefix(Prefix(v), frame);
      if inside {
        PrefixAdds(p.buffers, frame.buffers, v, buffer, |p.scratch|);
      }
    }

    method EncodeParameter(v: Value, frame: Frame) returns (inside: bool)
      requires CanEncodeInto(frame)
      requires TotalSize(frame.buffers[1..]) + |Encode(v)| < TWO_TO_THE_64
      modifies this, head, buffer, frame, frame.raw
      ensures inside <==> old(encodeBufferIndex) + |Scratch(v)| <= 1024
      ensures inside ==> CanEncodeInto(frame) && Now(frame) == After(old(Now(frame)), v, buffer)
      decreases v, 1
    {
      ghost var p := Now(frame);
      SizesOfParts(v);
      hide ViewsOf, ViewsOfAll, Encode, EncodeAll, Scratch, ScratchAll, After, AfterAll, Prefix, InPlace;
      inside := EncodeNode(v, frame);
      if !inside {
        return;
      }
      assert encodeBufferIndex == |Now(frame).scratch| == |p.scratch| + |Prefix(v)|;
      if v.Tup? {
        inside := EncodeParameters(v.elems, frame);
        TupleAfter(p, v.elems, buffer);
      } else if v.Str? || v.Exc? {
        EncodeInPlace(InPlace(v), frame);
        TextAfter(p, v, buffer);
      } else {
        LeafAfter(p, v, buffer);
      }
    }

    /** The parameters of a call, or the elements of a tuple, in order. */
    method EncodeParameters(vs: seq<Value>, frame: Frame) returns (inside: bool)
      requires CanEncodeInto(frame)
      requires TotalSize(frame.buffers[1..]) + |EncodeAll(vs)| < TWO_TO_THE_64
      modifies this, head, buffer, frame, frame.raw
      ensures inside <==> old(encodeBufferIndex) + |ScratchAll(vs)| <= 1024
      ensures inside ==> CanEncodeInto(frame) && Now(frame) == AfterAll(old(Now(frame)), vs, buffer)
      decreases vs, 0
    {
      ghost var p := Now(frame);
      if |vs| > 0 {
        inside := EncodeParameter(vs[0], frame);
        if !inside {
          return;
        }
        ViewsAdd(p.buffers, vs[0], buffer, |p.scratch|);
        AfterThenAll(p, vs, buffer);
        assert encodeBufferIndex == |Now(frame).scratch| == |p.scratch| + |Scratch(vs[0])|;
        inside := EncodeParameters(vs[1..], frame);
      } else {
        FromLittleEndianBound(head[4..8]);
        PowersOf256();
        assert p.buffers + [] == p.buffers && p.scratch + [] == p.scratch;
        inside := true;
      }
    }
  }

  // ----- Room in the scratch buffer

  /** The calls of one object, whose index is never reset, each stay inside the buffer. */
  predicate InTurn(start: nat, calls: seq<seq<Value>>)
    decreases |calls|
  {
    |calls| > 0 ==>
      start + |ScratchAll(calls[0])| <= SCRATCH_SIZE && InTurn(start + |ScratchAll(calls[0])|, calls[1..])
  }

  function TotalScratch(calls: seq<seq<Value>>): nat {
    if |calls| == 0 then 0 else |ScratchAll(calls[0])| + TotalScratch(calls[1..])
  }

  /** All calls of an object stay inside the buffer if and only if their scratch bytes fit it together. */
  lemma {:induction false} InTurnIff(start: nat, calls: seq<seq<Value>>)
    requires start <= 1024
    ensures InTurn(start, calls) <==> start + TotalScratch(calls) <= 1024
    decreases |calls|
  {
    hide ScratchAll;
    if |calls| > 0 && start + |ScratchAll(calls[0])| <= SCRATCH_SIZE {
      InTurnIff(start + |ScratchAll(calls[0])|, calls[1..]);
    }
  }

  /** A call has a name, which takes at least two of the bytes: the calls of an object are numbered. */
  lemma {:induction false} ObjectsRunOut(calls: seq<seq<Value>>)
    requires forall i :: 0 <= i < |calls| ==> |calls[i]| > 0 && calls[i][0].Str?
    ensures 2 * |calls| <= TotalScratch(calls)
    ensures |calls| > 512 ==> !InTurn(0, calls)
    decreases |calls|
  {
    if |calls| > 0 {
      assert |ScratchAll(calls[0])| >= |Scratch(calls[0][0])| >= 2;
      ObjectsRunOut(calls[1..]);
    }
    InTurnIff(0, calls);
  }

  /** One call with a hundred and fourteen numbers does not fit a buffer nothing was written to. */
  lemma ManyNumbersDoNotFit(name: seq<byte>, images: seq<Image>)
    requires |images| >= 114
    ensures |ScratchAll([Str(name)] + Numbers(images))| > 1024
  {
    var params := [Str(name)] + Numbers(images);
    assert params[0] == Str(name) && params[1..] == Numbers(images);
    NumbersScratch(images);
  }

  function Numbers(images: seq<Image>): seq<Value> {
    if |images| == 0 then [] else [Num(images[0])] + Numbers(images[1..])
  }

  lemma {:induction false} NumbersScratch(images: seq<Image>)
    ensures |ScratchAll(Numbers(images))| == 9 * |images|
  {
    if |images| > 0 {
      NumbersScratch(images[1..]);
      assert Numbers(images)[1..] == Numbers(images[1..]);
    }
  }

  lemma TailSize(buffers: seq<View>, more: seq<View>)
    requires |buffers| > 0
    ensures TotalSize((buffers + more)[1..]) == TotalSize(buffers[1..]) + TotalSize(more)
  {
    SizesAdd(buffers[1..], more);
    assert (buffers + more)[1..] == buffers[1..] + more;
  }

  lemma ViewsAdd(buffers: seq<View>, v: Value, buffer: array<byte>, start: nat)
    requires |buffers| > 0
    ensures TotalSize((buffers + ViewsOf(v, buffer, start))[1..]) == TotalSize(buffers[1..]) + |Encode(v)|
  {
    ViewsSize(v, buffer, start);
    TailSize(buffers, ViewsOf(v, buffer, start));
  }

  lemma PrefixAdds(before: seq<View>, after: seq<View>, v: Value, buffer: array<byte>, start: nat)
    requires |before| > 0 && after == before + [Region(buffer, start, |Prefix(v)|)]
    ensures TotalSize(after[1..]) == TotalSize(before[1..]) + |Prefix(v)|
  {
    SizeOfOne(Region(buffer, start, |Prefix(v)|));
    TailSize(before, [Region(buffer, start, |Prefix(v)|)]);
  }

  lemma SizesOfParts(v: Value)
    ensures |Encode(v)| == |Prefix(v)| + if v.Tup? then |EncodeAll(v.elems)| else |InPlace(v)|
    ensures |Scratch(v)| == |Prefix(v)| + if v.Tup? then |ScratchAll(v.elems)| else 0
  {
  }

  lemma LeafAfter(p: Progress, v: Value, buffer: array<byte>)
    requires v.Num? || v.Bool?
    ensures After(p, v, buffer) == AfterPrefix(p, v, buffer)
  {
  }

  lemma TextAfter(p: Progress, v: Value, buffer: array<byte>)
    requires v.Str? || v.Exc?
    ensures var q := AfterPrefix(p, v, buffer);
            After(p, v, buffer) == q.(buffers := q.buffers + [Text(InPlace(v))],
                                      dataSize := (q.dataSize + |InPlace(v)|) % TWO_TO_THE_32)
  {
    Associative(p.buffers, [Region(buffer, |p.scratch|, |Prefix(v)|)], [Text(InPlace(v))]);
    SizeWraps(p.dataSize, |Prefix(v)|, |InPlace(v)|);
  }

  lemma TupleAfter(p: Progress, elems: seq<Value>, buffer: array<byte>)
    ensures AfterAll(AfterPrefix(p, Tup(elems), buffer), elems, buffer) == After(p, Tup(elems), buffer)
  {
    var v, start := Tup(elems), |p.scratch|;
    Associative(p.buffers, [Region(buffer, start, |Prefix(v)|)], ViewsOfAll(elems, buffer, start + |Prefix(v)|));
    Associative(p.scratch, Prefix(v), ScratchAll(elems));
    CountWraps(p.count, 1, NodesAll(elems));
    SizeWraps(p.dataSize, |Prefix(v)|, |EncodeAll(elems)|);
  }
}
