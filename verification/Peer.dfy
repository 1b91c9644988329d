/** The other end of the wire: parameters as the table of coded types describes them, booleans and exceptions
    included, whatever the decoder of the program makes of them. */
module Peer {
  import opened Bytes
  import opened Seqs
  import opened Messages

  /** What the peer understands, and what follows it. */
  datatype Reading<+T> = Understood(value: T, rest: seq<byte>) | Garbled

  /** A number of several bytes, the low one first. */
  function Wide(low: nat, high: nat): nat {
    low + 256 * high
  }

  function Text(data: seq<byte>, start: nat, size: nat, isException: bool): (r: Reading<Value>)
    requires start > 0
    ensures r.Understood? ==> |r.rest| < |data|
  {
    if |data| < start + size then Garbled
    else
      var text := data[start..start + size];
      Understood(if isException then Exc(text) else Str(text), data[start + size..])
  }

  function AsTuple(r: Reading<seq<Value>>): Reading<Value> {
    match r
    case Understood(vs, rest) => Understood(Tup(vs), rest)
    case Garbled => Garbled
  }

  /** A parameter that is no tuple: its code, then one byte of size, or two with the low one first, or eight bytes. */
  function Leaf(data: seq<byte>): (r: Reading<Value>)
    ensures r.Understood? ==> |r.rest| < |data|
  {
    if |data| == 0 then Garbled
    else if data[0] == 1 then Understood(Bool(true), data[1..])
    else if data[0] == 2 then Understood(Bool(false), data[1..])
    else if data[0] == 3 then if |data| < 9 then Garbled else Understood(Num(data[1..9]), data[9..])
    else if data[0] == 4 then if |data| < 2 then Garbled else Text(data, 2, data[1], false)
    else if data[0] == 5 then if |data| < 3 then Garbled else Text(data, 3, Wide(data[1], data[2]), false)
    else if data[0] == 6 then if |data| < 3 then Garbled else Text(data, 3, Wide(data[1], data[2]), true)
    else Garbled
  }

  function Prepend(v: Value, r: Reading<seq<Value>>): Reading<seq<Value>> {
    match r
    case Understood(vs, rest) => Understood([v] + vs, rest)
    case Garbled => Garbled
  }

  /** So many parameters, one after the other. Code 18 and a number of elements announce a tuple. */
  function ReadAll(n: nat, data: seq<byte>): (r: Reading<seq<Value>>)
    ensures r.Understood? ==> |r.rest| <= |data|
    decreases |data|, n
  {
    if n == 0 then Understood([], data)
    else if |data| >= 2 && data[0] == 18 then
      match ReadAll(data[1], data[2..])
      case Understood(vs, rest) => Prepend(Tup(vs), ReadAll(n - 1, rest))
      case Garbled => Garbled
    else
      match Leaf(data)
      case Understood(v, rest) => Prepend(v, ReadAll(n - 1, rest))
      case Garbled => Garbled
  }

  /** One parameter. */
  function Read(data: seq<byte>): Reading<Value> {
    if |data| >= 2 && data[0] == 18 then AsTuple(ReadAll(data[1], data[2..])) else Leaf(data)
  }

  lemma OneAndTheRest(n: nat, data: seq<byte>)
    requires n > 0
    ensures ReadAll(n, data) ==
            match Read(data) {
              case Understood(v, rest) => Prepend(v, ReadAll(n - 1, rest))
              case Garbled => Garbled
            }
  {
    hide Leaf;
  }

  lemma {:induction false} ReadAllSize(n: nat, data: seq<byte>)
    ensures var r := ReadAll(n, data); r.Understood? ==> |r.value| == n
    decreases n
  {
    hide Read;
    if n > 0 {
      OneAndTheRest(n, data);
      var r := Read(data);
      if r.Understood? {
        ReadAllSize(n - 1, r.rest);
      }
    }
  }

  // ----- What the program sends

  /** Understood as it was meant, or not understood so. */
  ghost predicate Carries<T>(r: Reading<T>, v: T, tail: seq<byte>, fits: bool) {
    if fits then r == Understood(v, tail) else r.Understood? ==> r.value != v
  }

  lemma OneByteMore(s: seq<byte>)
    requires |s| > 0
    ensures FromLittleEndian(s) == Wide(s[0], FromLittleEndian(s[1..]))
    ensures FromLittleEndian([]) == 0
  {
  }

  lemma TwoBytes(n: nat)
    ensures var s := ToLittleEndian(n % TWO_TO_THE_16, 2); Wide(s[0], s[1]) == n % TWO_TO_THE_16
  {
    hide ToLittleEndian, FromLittleEndian;
    var s := ToLittleEndian(n % TWO_TO_THE_16, 2);
    PowersOf256();
    LittleEndianRoundTrip(n % TWO_TO_THE_16, 2);
    assert s[1..][1..] == [];
    OneByteMore(s);
    OneByteMore(s[1..]);
  }

  lemma ReadsText(v: Value, tail: seq<byte>)
    requires v.Str? || v.Exc?
    ensures Carries(Read(Encode(v) + tail), v, tail, Representable(v))
  {
    hide ToLittleEndian;
    var prefix, t := Prefix(v), InPlace(v);
    var n := |t| % TWO_TO_THE_16;
    var data := Encode(v) + tail;
    assert data == prefix + (t + tail);
    assert data[0] == prefix[0] && data[1] == prefix[1];
    TwoBytes(|t|);
    assert |prefix| == 3 ==> data[2] == prefix[2];
    assert data[|prefix|..|prefix| + n] == t[..n];
    if n == |t| {
      assert t[..n] == t && data[|prefix| + n..] == tail;
    }
  }

  lemma ReadsLeaf(v: Value, tail: seq<byte>)
    requires !v.Tup?
    ensures Carries(Read(Encode(v) + tail), v, tail, Representable(v))
  {
    var data := Encode(v) + tail;
    if v.Num? {
      assert data[1..9] == v.image && data[9..] == tail;
    } else if v.Bool? {
      assert data[1..] == tail;
    } else {
      ReadsText(v, tail);
    }
  }

  lemma Opens(elems: seq<Value>, tail: seq<byte>)
    ensures Read(Encode(Tup(elems)) + tail) == AsTuple(ReadAll(|elems| % 256, EncodeAll(elems) + tail))
  {
    hide EncodeAll, ReadAll;
    var data := Encode(Tup(elems)) + tail;
    assert data[2..] == EncodeAll(elems) + tail;
  }

  lemma TupleCarries(r: Reading<seq<Value>>, elems: seq<Value>, tail: seq<byte>)
    requires |elems| < 256 ==> Carries(r, elems, tail, RepresentableAll(elems))
    requires r.Understood? ==> |r.value| == |elems| % 256
    ensures Carries(AsTuple(r), Tup(elems), tail, Representable(Tup(elems)))
  {
    hide RepresentableAll;
  }

  lemma ReadsTuple(elems: seq<Value>, tail: seq<byte>)
    requires |elems| < 256 ==>
               Carries(ReadAll(|elems|, EncodeAll(elems) + tail), elems, tail, RepresentableAll(elems))
    ensures Carries(Read(Encode(Tup(elems)) + tail), Tup(elems), tail, Representable(Tup(elems)))
  {
    hide Read, ReadAll, Encode, EncodeAll, Representable, RepresentableAll, Carries, AsTuple;
    var n, data := |elems| % 256, EncodeAll(elems) + tail;
    Opens(elems, tail);
    ReadAllSize(n, data);
    TupleCarries(ReadAll(n, data), elems, tail);
  }

  lemma {:induction false} Reads(v: Value, tail: seq<byte>)
    ensures Carries(Read(Encode(v) + tail), v, tail, Representable(v))
    decreases v, 1
  {
    hide Read, ReadAll, Encode, EncodeAll, Representable, RepresentableAll;
    if v.Tup? {
      if |v.elems| < 256 {
        ReadsAll(v.elems, tail);
      }
      ReadsTuple(v.elems, tail);
    } else {
      ReadsLeaf(v, tail);
    }
  }

  lemma NothingToRead(data: seq<byte>)
    ensures ReadAll(0, data) == Understood([], data)
  {
  }

  lemma {:induction false} ReadsAll(vs: seq<Value>, tail: seq<byte>)
    ensures Carries(ReadAll(|vs|, EncodeAll(vs) + tail), vs, tail, RepresentableAll(vs))
    decreases vs, 0
  {
    hide Read, Encode, ReadAll;
    if |vs| == 0 {
      NothingToRead(tail);
      assert EncodeAll(vs) + tail == tail;
    } else {
      var more := EncodeAll(vs[1..]) + tail;
      EncodeAllShape(vs, tail);
      OneAndTheRest(|vs|, Encode(vs[0]) + more);
      Reads(vs[0], more);
      ReadsAll(vs[1..], tail);
      assert vs == [vs[0]] + vs[1..];
    }
  }

  /** The peer understands every parameter exactly as it was, with whatever follows it left, if and only if its
      lengths fit the fields that carry them. */
  lemma ReadsIff(v: Value, tail: seq<byte>)
    ensures Read(Encode(v) + tail) == Understood(v, tail) <==> Representable(v)
  {
    Reads(v, tail);
  }

  lemma ReadsAllIff(vs: seq<Value>, tail: seq<byte>)
    ensures ReadAll(|vs|, EncodeAll(vs) + tail) == Understood(vs, tail) <==> RepresentableAll(vs)
  {
    ReadsAll(vs, tail);
  }

  // ----- A call

  /** A call message: the command 3, the number of parameters, two unused bytes, four bytes of size with the low
      one first, and so many bytes of parameters. */
  function ReadCall(message: seq<byte>): Reading<seq<Value>> {
    if |message| < 8 || message[0] != 3 then Garbled
    else
      var size := Wide(message[4], Wide(message[5], Wide(message[6], message[7])));
      if |message| - 8 < size then Garbled else ReadAll(message[1], message[8..8 + size])
  }

  /** The encoder counts a tuple and its elements, so that the count is the number of parameters if and only if
      every tuple among them is empty. */
  lemma {:induction false} CountsAloneIff(vs: seq<Value>)
    ensures NodesAll(vs) >= |vs|
    ensures NodesAll(vs) == |vs| <==> forall v <- vs :: v.Tup? ==> v.elems == []
    decreases vs, 0
  {
    if |vs| > 0 {
      CountsAloneIff(vs[1..]);
      assert vs == [vs[0]] + vs[1..];
      if vs[0].Tup? {
        CountsAloneIff(vs[0].elems);
      }
    }
  }

  lemma CallOpens(head: seq<byte>, body: seq<byte>)
    requires |head| == 8 && head[0] == 3
    ensures var size := FromLittleEndian(head[4..8]);
            && (size == |body| ==> ReadCall(head + body) == ReadAll(head[1], body))
            && (size > |body| ==> ReadCall(head + body) == Garbled)
  {
    hide ReadAll, FromLittleEndian, Wide;
    var message := head + body;
    assert message[..8] == head && message[8..] == body;
    FourBytes(head[4..8]);
    SizeField(head, message);
    assert message[8..8 + |body|] == body;
  }

  lemma SizeField(head: seq<byte>, message: seq<byte>)
    requires |head| == 8 && |message| >= 8 && message[..8] == head
    ensures head[4..8] == [message[4], message[5], message[6], message[7]]
    ensures message[0] == head[0] && message[1] == head[1]
  {
  }

  /** The peer reads as many parameters as the message counts, and the encoder counts the elements of a tuple as
      well as the tuple: the parameters of a call are understood, with nothing left, if and only if their lengths
      fit, the message announces no more than their size, and its count, modulo 256, is that of the parameters
      alone. */
  lemma CallIsReadIff(head: seq<byte>, params: seq<Value>)
    requires |head| == 8 && head[0] == 3 && head[1] == NodesAll(params) % 256
    requires FromLittleEndian(head[4..8]) >= |EncodeAll(params)|
    ensures ReadCall(head + EncodeAll(params)) == Understood(params, [])
            <==> FromLittleEndian(head[4..8]) == |EncodeAll(params)|
                 && RepresentableAll(params) && NodesAll(params) % 256 == |params|
  {
    hide *;
    CallOpens(head, EncodeAll(params));
    assert EncodeAll(params) + [] == EncodeAll(params);
    ReadsAllIff(params, []);
    ReadAllSize(head[1], EncodeAll(params));
  }

  lemma FourBytes(s: seq<byte>)
    requires |s| == 4
    ensures FromLittleEndian(s) == Wide(s[0], Wide(s[1], Wide(s[2], s[3])))
  {
    hide FromLittleEndian;
    assert s[1..][1..] == s[2..] && s[2..][1..] == s[3..] && s[3..][1..] == [];
    OneByteMore(s);
    OneByteMore(s[1..]);
    OneByteMore(s[2..]);
    OneByteMore(s[3..]);
  }
}
