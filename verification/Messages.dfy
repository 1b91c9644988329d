/** The tagged code in which WebFront and its JavaScript client exchange parameters. */
module Messages {
  import opened Bytes
  import opened Seqs

  /** The eight bytes of an IEEE 754 number. */
  type Image = s: seq<byte> | |s| == 8 witness [0, 0, 0, 0, 0, 0, 0, 0]

  datatype Value = Str(text: seq<byte>) | Num(image: Image) | Bool(flag: bool) | Exc(what: seq<byte>)
                 | Tup(elems: seq<Value>)

  /** The C++ types a parameter is decoded into. */
  datatype Type = TString | TNumber | TBool | TTuple(elems: seq<Type>)

  const TRUE: byte := 1
  const FALSE: byte := 2
  const NUMBER: byte := 3
  const SMALL_STRING: byte := 4
  const STRING: byte := 5
  const EXCEPTION: byte := 6
  const TUPLE: byte := 18

  // ----- Encoding

  /** What the encoder puts in its scratch buffer for the node itself: the tag, then the size or the number. */
  function Prefix(v: Value): seq<byte> {
    match v
    case Str(t) => if |t| < 256 then [SMALL_STRING, |t|] else [STRING] + ToLittleEndian(|t| % TWO_TO_THE_16, 2)
    case Num(image) => [NUMBER] + image
    case Bool(flag) => [if flag then TRUE else FALSE]
    case Exc(t) => [EXCEPTION] + ToLittleEndian(|t| % TWO_TO_THE_16, 2)
    case Tup(elems) => [TUPLE, |elems| % 256]
  }

  /** The bytes sent in place, from where the caller keeps them. */
  function InPlace(v: Value): seq<byte> {
    match v
    case Str(t) => t
    case Exc(t) => t
    case _ => []
  }

  function Encode(v: Value): (s: seq<byte>)
    ensures |s| >= |Prefix(v)| >= 1
    decreases v, 1
  {
    Prefix(v) + if v.Tup? then EncodeAll(v.elems) else InPlace(v)
  }

  function EncodeAll(vs: seq<Value>): seq<byte>
    decreases vs, 0
  {
    if |vs| == 0 then [] else Encode(vs[0]) + EncodeAll(vs[1..])
  }

  // ----- Decoding

  datatype Result<+T> = Ok(value: T, rest: seq<byte>) | Throw | OutOfBounds

  function Default(ty: Type): Value
    decreases ty, 1
  {
    match ty
    case TString => Str([])
    case TNumber => Num([0, 0, 0, 0, 0, 0, 0, 0])
    case TBool => Bool(false)
    case TTuple(elems) => Tup(Defaults(elems))
  }

  function Defaults(tys: seq<Type>): (vs: seq<Value>)
    ensures |vs| == |tys|
    decreases tys, 0
  {
    if |tys| == 0 then [] else [Default(tys[0])] + Defaults(tys[1..])
  }

  function DecodeText(data: seq<byte>, start: nat, size: nat): Result<Value> {
    if |data| < start + size then Throw else Ok(Str(data[start..start + size]), data[start + size..])
  }

  /** A number other than plus or minus zero. */
  predicate NonZero(image: Image) {
    image[..7] != [0, 0, 0, 0, 0, 0, 0] || image[7] % 128 != 0
  }

  /** The parameters a tuple's elements are decoded into. */
  function Olds(tys: seq<Type>, param: Value): (olds: seq<Value>)
    ensures |olds| == |tys|
  {
    if param.Tup? && |param.elems| == |tys| then param.elems else Defaults(tys)
  }

  function Tuple(r: Result<seq<Value>>): Result<Value> {
    match r
    case Ok(vs, rest) => Ok(Tup(vs), rest)
    case Throw => Throw
    case OutOfBounds => OutOfBounds
  }

  /** Decodes a parameter of type `ty` that held `param`. Where the tag does not suit the type the
      parameter keeps its value; where the tag is unknown it becomes the default; both consume nothing. */
  function Decode(ty: Type, param: Value, data: seq<byte>): Result<Value>
    decreases ty, 1
  {
    if |data| == 0 then Throw
    else if data[0] == SMALL_STRING then
      if !ty.TString? then Ok(param, data)
      else if |data| < 2 then OutOfBounds
      else DecodeText(data, 2, data[1])
    else if data[0] == STRING || data[0] == EXCEPTION then
      if !ty.TString? then Ok(param, data)
      else if |data| < 3 then OutOfBounds
      else DecodeText(data, 3, FromLittleEndian(data[1..3]))
    else if data[0] == NUMBER then
      if !ty.TNumber? && !ty.TBool? then Ok(param, data)
      else if |data| < 9 then Throw
      else Ok(if ty.TNumber? then Num(data[1..9]) else Bool(NonZero(data[1..9])), data[9..])
    else if data[0] == TUPLE then
      if !ty.TTuple? then Throw
      else if |data| < 2 then OutOfBounds
      else if |ty.elems| != data[1] then Throw
      else Tuple(DecodeAll(ty.elems, Olds(ty.elems, param), data[2..]))
    else Ok(Default(ty), data)
  }

  function DecodeAll(tys: seq<Type>, params: seq<Value>, data: seq<byte>): (r: Result<seq<Value>>)
    requires |tys| == |params|
    ensures r.Ok? ==> |r.value| == |tys|
    decreases tys, 0
  {
    if |tys| == 0 then Ok([], data)
    else
      match Decode(tys[0], params[0], data)
      case Throw => Throw
      case OutOfBounds => OutOfBounds
      case Ok(v, rest) =>
        match DecodeAll(tys[1..], params[1..], rest)
        case Ok(vs, last) => Ok([v] + vs, last)
        case Throw => Throw
        case OutOfBounds => OutOfBounds
  }

  // ----- Round trip

  function TypeOf(v: Value): Type
    decreases v, 1
  {
    match v
    case Str(_) => TString
    case Exc(_) => TString
    case Num(_) => TNumber
    case Bool(_) => TBool
    case Tup(elems) => TTuple(TypesOf(elems))
  }

  function TypesOf(vs: seq<Value>): (tys: seq<Type>)
    ensures |tys| == |vs|
    decreases vs, 0
  {
    if |vs| == 0 then [] else [TypeOf(vs[0])] + TypesOf(vs[1..])
  }

  /** What the receiver should hold: an exception arrives as its text. */
  function Received(v: Value): Value
    decreases v, 1
  {
    match v
    case Exc(t) => Str(t)
    case Tup(elems) => Tup(ReceivedAll(elems))
    case _ => v
  }

  function ReceivedAll(vs: seq<Value>): (ws: seq<Value>)
    ensures |ws| == |vs|
    decreases vs, 0
  {
    if |vs| == 0 then [] else [Received(vs[0])] + ReceivedAll(vs[1..])
  }

  /** The lengths fit the fields that carry them. */
  predicate Representable(v: Value)
    decreases v, 1
  {
    match v
    case Str(t) => |t| < TWO_TO_THE_16
    case Exc(t) => |t| < TWO_TO_THE_16
    case Tup(elems) => |elems| < 256 && RepresentableAll(elems)
    case _ => true
  }

  predicate RepresentableAll(vs: seq<Value>)
    decreases vs, 0
  {
    |vs| == 0 || (Representable(vs[0]) && RepresentableAll(vs[1..]))
  }

  predicate HasNoBool(v: Value)
    decreases v, 1
  {
    match v
    case Bool(_) => false
    case Tup(elems) => HaveNoBool(elems)
    case _ => true
  }

  predicate HaveNoBool(vs: seq<Value>)
    decreases vs, 0
  {
    |vs| == 0 || (HasNoBool(vs[0]) && HaveNoBool(vs[1..]))
  }

  // ----- Decoding arbitrary bytes

  predicate HasType(v: Value, ty: Type)
    decreases ty, 1
  {
    match ty
    case TString => v.Str?
    case TNumber => v.Num?
    case TBool => v.Bool?
    case TTuple(elems) => v.Tup? && HaveTypes(v.elems, elems)
  }

  predicate HaveTypes(vs: seq<Value>, tys: seq<Type>)
    decreases tys, 0
  {
    |vs| == |tys| && (|tys| > 0 ==> HasType(vs[0], tys[0]) && HaveTypes(vs[1..], tys[1..]))
  }

  /** What is left of the data is the end of it. */
  predicate EndsWith(data: seq<byte>, rest: seq<byte>) {
    |rest| <= |data| && rest == data[|data| - |rest|..]
  }

  lemma EndOfEnd(a: seq<byte>, b: seq<byte>, c: seq<byte>)
    requires EndsWith(a, b) && EndsWith(b, c)
    ensures EndsWith(a, c)
  {
  }

  lemma {:induction false} DefaultHasType(ty: Type)
    ensures HasType(Default(ty), ty)
    decreases ty, 1
  {
    if ty.TTuple? {
      DefaultsHaveTypes(ty.elems);
    }
  }

  lemma {:induction false} DefaultsHaveTypes(tys: seq<Type>)
    ensures HaveTypes(Defaults(tys), tys)
    decreases tys, 0
  {
    if |tys| > 0 {
      DefaultHasType(tys[0]);
      DefaultsHaveTypes(tys[1..]);
      assert Defaults(tys)[1..] == Defaults(tys[1..]);
    }
  }

  /** Whatever the bytes are, decoding leaves an end of the data. */
  lemma {:induction false} DecodeLeavesAnEnd(ty: Type, param: Value, data: seq<byte>)
    ensures var r := Decode(ty, param, data); r.Ok? ==> EndsWith(data, r.rest)
    decreases ty, 1
  {
    if |data| >= 2 && data[0] == TUPLE && ty.TTuple? && |ty.elems| == data[1] {
      DecodeAllLeavesAnEnd(ty.elems, Olds(ty.elems, param), data[2..]);
      var r := DecodeAll(ty.elems, Olds(ty.elems, param), data[2..]);
      if r.Ok? {
        EndOfEnd(data, data[2..], r.rest);
      }
    } else {
      hide DecodeAll, Olds;
    }
  }

  lemma {:induction false} DecodeAllLeavesAnEnd(tys: seq<Type>, params: seq<Value>, data: seq<byte>)
    requires |tys| == |params|
    ensures var r := DecodeAll(tys, params, data); r.Ok? ==> EndsWith(data, r.rest)
    decreases tys, 0
  {
    hide Decode;
    if |tys| > 0 {
      DecodeLeavesAnEnd(tys[0], params[0], data);
      var first := Decode(tys[0], params[0], data);
      if first.Ok? {
        DecodeAllLeavesAnEnd(tys[1..], params[1..], first.rest);
        var others := DecodeAll(tys[1..], params[1..], first.rest);
        if others.Ok? {
          EndOfEnd(data, first.rest, others.rest);
        }
      }
    }
  }

  /** Whatever the bytes are, a parameter keeps its type. */
  lemma {:induction false} DecodeKeepsTypes(ty: Type, param: Value, data: seq<byte>)
    requires HasType(param, ty)
    ensures var r := Decode(ty, param, data);
            r.Ok? ==> HasType(r.value, ty) && EndsWith(data, r.rest)
    decreases ty, 1
  {
    DefaultHasType(ty);
    DecodeLeavesAnEnd(ty, param, data);
    if |data| >= 2 && data[0] == TUPLE && ty.TTuple? && |ty.elems| == data[1] {
      HaveTypesSize(param.elems, ty.elems);
      DecodeAllKeepsTypes(ty.elems, param.elems, data[2..]);
    } else {
      hide DecodeAll, Olds;
    }
  }

  lemma HaveTypesSize(vs: seq<Value>, tys: seq<Type>)
    requires HaveTypes(vs, tys)
    ensures |vs| == |tys|
  {
  }

  lemma {:induction false} DecodeAllKeepsTypes(tys: seq<Type>, params: seq<Value>, data: seq<byte>)
    requires HaveTypes(params, tys) && |tys| == |params|
    ensures var r := DecodeAll(tys, params, data);
            r.Ok? ==> HaveTypes(r.value, tys)
    decreases tys, 0
  {
    hide Decode;
    if |tys| > 0 {
      DecodeKeepsTypes(tys[0], params[0], data);
      var first := Decode(tys[0], params[0], data);
      if first.Ok? {
        DecodeAllKeepsTypes(tys[1..], params[1..], first.rest);
        var others := DecodeAll(tys[1..], params[1..], first.rest);
        if others.Ok? {
          assert ([first.value] + others.value)[1..] == others.value;
        }
      }
    }
  }

  // ----- What a tag does to a parameter

  /** A tag that does not suit the type: a string or a number leaves the parameter as it was, a tuple is refused;
      and any other tag, that of a boolean included, makes it the default. In no case is anything consumed. */
  lemma UnsuitedTag(ty: Type, param: Value, data: seq<byte>)
    requires |data| > 0
    ensures data[0] in {4, 5, 6} && !ty.TString? ==> Decode(ty, param, data) == Ok(param, data)
    ensures data[0] == 3 && (ty.TString? || ty.TTuple?) ==> Decode(ty, param, data) == Ok(param, data)
    ensures data[0] == 18 && !ty.TTuple? ==> Decode(ty, param, data) == Throw
    ensures data[0] !in {3, 4, 5, 6, 18} ==>
              && Decode(ty, param, data).Ok? && Decode(ty, param, data).rest == data
              && (ty.TBool? ==> Decode(ty, param, data).value == Bool(false))
              && (ty.TString? ==> Decode(ty, param, data).value == Str([]))
              && (ty.TNumber? ==> Decode(ty, param, data).value == Num([0, 0, 0, 0, 0, 0, 0, 0]))
  {
    hide DecodeAll, Olds, FromLittleEndian;
  }

  /** A suitable tag with too little data behind its size, or a tuple of another size, is refused. */
  lemma RefusedData(ty: Type, param: Value, data: seq<byte>)
    ensures data == [] ==> Decode(ty, param, data) == Throw
    ensures ty.TString? && |data| >= 2 && data[0] == 4 && |data| - 2 < data[1] ==> Decode(ty, param, data) == Throw
    ensures ty.TString? && |data| >= 3 && data[0] in {5, 6} && |data| < 3 + FromLittleEndian(data[1..3]) ==>
              Decode(ty, param, data) == Throw
    ensures (ty.TNumber? || ty.TBool?) && 0 < |data| < 9 && data[0] == 3 ==> Decode(ty, param, data) == Throw
    ensures ty.TTuple? && |data| >= 2 && data[0] == 18 && data[1] != |ty.elems| ==> Decode(ty, param, data) == Throw
  {
    hide DecodeAll, Olds, FromLittleEndian;
  }

  /** A boolean parameter is read from a number, and is false for the two zeros alone. */
  lemma BoolFromNumber(param: Value, image: Image, tail: seq<byte>)
    ensures var r := Decode(TBool, param, [3] + image + tail);
            && r.Ok? && r.rest == tail && r.value.Bool?
            && (!r.value.flag <==> image == [0, 0, 0, 0, 0, 0, 0, 0] || image == [0, 0, 0, 0, 0, 0, 0, 128])
  {
    var data := [3] + image + tail;
    assert data[1..9] == image && data[9..] == tail;
    assert image == image[..7] + [image[7]];
  }

  // ----- Reads past the end of the data

  /** Data that a size field is read past: a tag that promises more than there is. */
  predicate Stub(data: seq<byte>) {
    || (|data| == 1 && (data[0] == SMALL_STRING || data[0] == TUPLE))
    || (1 <= |data| <= 2 && (data[0] == STRING || data[0] == EXCEPTION))
  }

  /** A parameter that is no tuple is read past the end of its data if and only if it is a string and the data
      is a tag without its size: the size of the data is compared after the size field has been read. */
  lemma LeafOutOfBoundsIff(ty: Type, param: Value, data: seq<byte>)
    requires !ty.TTuple?
    ensures Decode(ty, param, data) == OutOfBounds <==>
            ty.TString? && (data == [SMALL_STRING]
                            || (1 <= |data| <= 2 && (data[0] == STRING || data[0] == EXCEPTION)))
  {
    hide DecodeAll, FromLittleEndian;
  }

  /** Any parameter: a read past the end happens only at an end of the data that is a stub. */
  lemma {:induction false} OutOfBoundsAtStub(ty: Type, param: Value, data: seq<byte>) returns (rest: seq<byte>)
    requires Decode(ty, param, data) == OutOfBounds
    ensures EndsWith(data, rest) && Stub(rest)
    decreases ty, 1
  {
    if |data| >= 2 && data[0] == TUPLE && ty.TTuple? {
      rest := SomeOutOfBoundsAtStub(ty.elems, Olds(ty.elems, param), data[2..]);
      EndOfEnd(data, data[2..], rest);
    } else {
      hide DecodeAll, Olds, FromLittleEndian;
      rest := data;
    }
  }

  lemma {:induction false} SomeOutOfBoundsAtStub(tys: seq<Type>, params: seq<Value>, data: seq<byte>)
    returns (rest: seq<byte>)
    requires |tys| == |params| && DecodeAll(tys, params, data) == OutOfBounds
    ensures EndsWith(data, rest) && Stub(rest)
    decreases tys, 0
  {
    hide Decode;
    var first := Decode(tys[0], params[0], data);
    if first.Ok? {
      DecodeLeavesAnEnd(tys[0], params[0], data);
      rest := SomeOutOfBoundsAtStub(tys[1..], params[1..], first.rest);
      EndOfEnd(data, first.rest, rest);
    } else {
      rest := OutOfBoundsAtStub(tys[0], params[0], data);
    }
  }

  lemma LittleEndian16(n: nat, data: seq<byte>)
    requires |data| >= 3 && data[1..3] == ToLittleEndian(n % TWO_TO_THE_16, 2)
    ensures FromLittleEndian(data[1..3]) == n % TWO_TO_THE_16
  {
    PowersOf256();
    LittleEndianRoundTrip(n % TWO_TO_THE_16, 2);
  }

  lemma TextFollows(prefix: seq<byte>, t: seq<byte>, tail: seq<byte>, n: nat)
    requires n <= |t|
    ensures DecodeText(prefix + t + tail, |prefix|, n) == Ok(Str(t[..n]), t[n..] + tail)
  {
    var data, p := prefix + t + tail, |prefix|;
    assert data[p..p + n] == t[..n];
    assert data[p + n..] == t[n..] + tail;
  }

  lemma TextRoundTrip(v: Value, param: Value, tail: seq<byte>)
    requires v.Str? || v.Exc?
    ensures var t := InPlace(v);
            var n := |t| % TWO_TO_THE_16;
            Decode(TString, param, Encode(v) + tail) == Ok(Str(t[..n]), t[n..] + tail)
  {
    var data, t := Encode(v) + tail, InPlace(v);
    var n, prefix := |t| % TWO_TO_THE_16, Prefix(v);
    assert data == prefix + t + tail;
    TextFollows(prefix, t, tail, n);
    assert data[0] == prefix[0] && data[1] == prefix[1];
    if v.Exc? || |t| >= 256 {
      assert |prefix| == 3 && data[2] == prefix[2];
      assert data[1..3] == prefix[1..] == ToLittleEndian(n, 2);
      LittleEndian16(|t|, data);
    }
  }

  lemma WholeText(t: seq<byte>, tail: seq<byte>)
    requires |t| % TWO_TO_THE_16 == |t|
    ensures t[..|t|] == t && t[|t|..] + tail == tail
  {
  }

  /** Nothing is consumed once a boolean is at the front. */
  ghost predicate Stuck(rest: seq<byte>, tail: seq<byte>) {
    |rest| > |tail| && (rest[0] == TRUE || rest[0] == FALSE)
  }

  lemma {:induction false} StuckStays(tys: seq<Type>, params: seq<Value>, data: seq<byte>, tail: seq<byte>)
    requires |tys| == |params| && Stuck(data, tail)
    ensures DecodeAll(tys, params, data).Ok? && DecodeAll(tys, params, data).rest == data
  {
    if |tys| > 0 {
      StuckStays(tys[1..], params[1..], data, tail);
    }
  }

  /** Decoding does what the receiver hopes for, or shows that it does not. */
  ghost predicate Faithful<T>(r: Result<T>, expected: T, tail: seq<byte>, deliverable: bool) {
    if deliverable then r == Ok(expected, tail)
    else r.Ok? ==> r.value != expected || Stuck(r.rest, tail)
  }

  lemma LeafDecodes(v: Value, param: Value, tail: seq<byte>)
    requires !v.Tup?
    ensures Faithful(Decode(TypeOf(v), param, Encode(v) + tail), Received(v), tail, Representable(v) && HasNoBool(v))
  {
    var data := Encode(v) + tail;
    if v.Num? {
      assert data[1..9] == v.image && data[9..] == tail;
    } else if !v.Bool? {
      TextRoundTrip(v, param, tail);
      if |InPlace(v)| < TWO_TO_THE_16 {
        WholeText(InPlace(v), tail);
      }
    }
  }

  lemma TupleOpens(elems: seq<Value>, param: Value, tail: seq<byte>)
    ensures var tys := TypesOf(elems);
            Decode(TTuple(tys), param, Encode(Tup(elems)) + tail) ==
            if |elems| < 256 then Tuple(DecodeAll(tys, Olds(tys, param), EncodeAll(elems) + tail)) else Throw
  {
    EncodeShape(Tup(elems), tail);
    var body := EncodeAll(elems) + tail;
    assert ([TUPLE, |elems| % 256] + body)[2..] == body;
  }

  lemma {:induction false} DecodeEncode(v: Value, param: Value, tail: seq<byte>)
    ensures Faithful(Decode(TypeOf(v), param, Encode(v) + tail), Received(v), tail, Representable(v) && HasNoBool(v))
    decreases v, 1
  {
    if v.Tup? {
      TupleOpens(v.elems, param, tail);
      DecodeEncodeAll(v.elems, Olds(TypesOf(v.elems), param), tail);
    } else {
      LeafDecodes(v, param, tail);
    }
  }

  lemma {:induction false} DecodeEncodeAll(vs: seq<Value>, params: seq<Value>, tail: seq<byte>)
    requires |vs| == |params|
    ensures Faithful(DecodeAll(TypesOf(vs), params, EncodeAll(vs) + tail), ReceivedAll(vs), tail,
                     RepresentableAll(vs) && HaveNoBool(vs))
    decreases vs, 0
  {
    if |vs| == 0 {
      assert EncodeAll(vs) + tail == tail;
    } else {
      var more := EncodeAll(vs[1..]) + tail;
      assert EncodeAll(vs) + tail == Encode(vs[0]) + more;
      var tys := TypesOf(vs);
      assert tys[0] == TypeOf(vs[0]) && tys[1..] == TypesOf(vs[1..]);
      DecodeEncode(vs[0], params[0], more);
      DecodeEncodeAll(vs[1..], params[1..], tail);
      var r := Decode(tys[0], params[0], Encode(vs[0]) + more);
      if r.Ok? && Stuck(r.rest, more) {
        StuckStays(tys[1..], params[1..], r.rest, more);
      }
      assert ReceivedAll(vs)[0] == Received(vs[0]) && ReceivedAll(vs)[1..] == ReceivedAll(vs[1..]);
    }
  }

  /** A parameter comes back, leaving exactly what followed it, if and only if its lengths fit and it
      holds no boolean: `decodeParameter` never consumes a boolean. */
  lemma RoundTripIff(v: Value, param: Value, tail: seq<byte>)
    ensures Decode(TypeOf(v), param, Encode(v) + tail) == Ok(Received(v), tail)
            <==> Representable(v) && HasNoBool(v)
  {
    DecodeEncode(v, param, tail);
  }

  lemma RoundTripAllIff(vs: seq<Value>, params: seq<Value>, tail: seq<byte>)
    requires |vs| == |params|
    ensures DecodeAll(TypesOf(vs), params, EncodeAll(vs) + tail) == Ok(ReceivedAll(vs), tail)
            <==> RepresentableAll(vs) && HaveNoBool(vs)
  {
    DecodeEncodeAll(vs, params, tail);
  }

  // ----- Decoding a part of an encoding

  /** Decoding is local: bytes appended to the data stand at the end of what is left, and change nothing else. */
  lemma {:induction false} DecodeExtends(ty: Type, param: Value, data: seq<byte>, more: seq<byte>)
    ensures var r := Decode(ty, param, data);
            r.Ok? ==> Decode(ty, param, data + more) == Ok(r.value, r.rest + more)
    decreases ty, 1
  {
    var all := data + more;
    if |data| >= 2 && data[0] == TUPLE && ty.TTuple? {
      assert all[2..] == data[2..] + more;
      DecodeAllExtends(ty.elems, Olds(ty.elems, param), data[2..], more);
    } else {
      hide DecodeAll, Olds;
      if |data| >= 3 {
        assert all[1..3] == data[1..3];
      }
      if |data| >= 9 {
        assert all[1..9] == data[1..9] && all[9..] == data[9..] + more;
      }
      if |data| >= 2 {
        TextExtends(data, 2, data[1], more);
      }
      if |data| >= 3 {
        TextExtends(data, 3, FromLittleEndian(data[1..3]), more);
      }
    }
  }

  lemma TextExtends(data: seq<byte>, start: nat, size: nat, more: seq<byte>)
    ensures var r := DecodeText(data, start, size);
            r.Ok? ==> DecodeText(data + more, start, size) == Ok(r.value, r.rest + more)
  {
    var all := data + more;
    if |data| >= start + size {
      assert all[start..start + size] == data[start..start + size];
      assert all[start + size..] == data[start + size..] + more;
    }
  }

  lemma {:induction false} DecodeAllExtends(tys: seq<Type>, params: seq<Value>, data: seq<byte>, more: seq<byte>)
    requires |tys| == |params|
    ensures var r := DecodeAll(tys, params, data);
            r.Ok? ==> DecodeAll(tys, params, data + more) == Ok(r.value, r.rest + more)
    decreases tys, 0
  {
    hide Decode;
    if |tys| > 0 {
      DecodeExtends(tys[0], params[0], data, more);
      var first := Decode(tys[0], params[0], data);
      if first.Ok? {
        DecodeAllExtends(tys[1..], params[1..], first.rest, more);
      }
    }
  }

  /** The decoder does not get past a boolean. */
  predicate AtBool(data: seq<byte>) {
    |data| > 0 && (data[0] == TRUE || data[0] == FALSE)
  }

  lemma {:induction false} BoolStaysAll(tys: seq<Type>, params: seq<Value>, data: seq<byte>)
    requires |tys| == |params| && AtBool(data)
    ensures DecodeAll(tys, params, data).Ok? && DecodeAll(tys, params, data).rest == data
    decreases |tys|
  {
    if |tys| > 0 {
      BoolStaysAll(tys[1..], params[1..], data);
    }
  }

  lemma BehindTwo(data: seq<byte>, head: seq<byte>, rest: seq<byte>)
    requires |head| == 2 && |data| >= 2 && data <= head + rest
    ensures data[0] == head[0] && data[1] == head[1] && data[2..] <= rest
  {
    assert (head + rest)[2..] == rest && data[2..] == (head + rest)[..|data|][2..];
  }

  lemma TupleBegins(elems: seq<Value>, data: seq<byte>, tail: seq<byte>)
    requires |elems| < 256 && |data| >= 2 && data <= Encode(Tup(elems)) + tail
    ensures data[0] == TUPLE && data[1] == |elems| && data[2..] <= EncodeAll(elems) + tail
  {
    var head, rest := [TUPLE, |elems|], EncodeAll(elems) + tail;
    TupleShape(elems, tail);
    hide *;
    BehindTwo(data, head, rest);
  }

  lemma TupleShape(elems: seq<Value>, tail: seq<byte>)
    requires |elems| < 256
    ensures Encode(Tup(elems)) + tail == [TUPLE, |elems|] + (EncodeAll(elems) + tail)
  {
    hide EncodeAll, Encode, ToLittleEndian;
    EncodeShape(Tup(elems), tail);
    assert Prefix(Tup(elems)) == [TUPLE, |elems|] && Tail(Tup(elems)) == EncodeAll(elems);
  }

  lemma BoolBegins(flag: bool, data: seq<byte>, tail: seq<byte>)
    requires |data| > 0 && data <= Encode(Bool(flag)) + tail
    ensures AtBool(data)
  {
    assert data[0] == (Encode(Bool(flag)) + tail)[0];
  }

  /** Decoding a beginning of the encoding of a value with a boolean ends at one, if it ends. */
  lemma {:induction false} BoolSticks(v: Value, param: Value, data: seq<byte>, tail: seq<byte>)
    requires Representable(v) && !HasNoBool(v) && data <= Encode(v) + tail
    ensures var r := Decode(TypeOf(v), param, data); r.Ok? ==> AtBool(r.rest)
    decreases v, 1
  {
    hide DecodeAll, EncodeAll, Encode, TypesOf;
    if v.Tup? && |data| >= 2 {
      TupleBegins(v.elems, data, tail);
      BoolsStick(v.elems, Olds(TypesOf(v.elems), param), data[2..], tail);
    } else if v.Tup? && |data| == 1 {
      assert data[0] == (Encode(v) + tail)[0] == TUPLE by { EncodeShape(v, tail); }
    } else if v.Bool? && |data| > 0 {
      BoolBegins(v.flag, data, tail);
    }
  }

  lemma {:induction false} BoolsStick(vs: seq<Value>, params: seq<Value>, data: seq<byte>, tail: seq<byte>)
    requires RepresentableAll(vs) && !HaveNoBool(vs) && |params| == |TypesOf(vs)| && data <= EncodeAll(vs) + tail
    ensures var r := DecodeAll(TypesOf(vs), params, data); r.Ok? ==> AtBool(r.rest)
    decreases vs, 0
  {
    hide Decode, Encode;
    var v, rest := vs[0], EncodeAll(vs[1..]) + tail;
    EncodeAllShape(vs, tail);
    var r := Decode(TypeOf(v), params[0], data);
    if r.Ok? {
      if HasNoBool(v) {
        FirstIsWhole(v, params[0], data, rest);
        BoolsStick(vs[1..], params[1..], r.rest, tail);
      } else {
        BoolSticks(v, params[0], data, rest);
        BoolStaysAll(TypesOf(vs)[1..], params[1..], r.rest);
      }
    }
  }

  /** A parameter that is decoded from a part of the data is the whole one. */
  lemma FirstIsWhole(v: Value, param: Value, data: seq<byte>, rest: seq<byte>)
    requires Representable(v) && HasNoBool(v) && data <= Encode(v) + rest && Decode(TypeOf(v), param, data).Ok?
    ensures Decode(TypeOf(v), param, data).rest <= rest
  {
    hide Decode, Encode;
    var all := Encode(v) + rest;
    var more := all[|data|..];
    assert all == data + more;
    DecodeExtends(TypeOf(v), param, data, more);
    RoundTripIff(v, param, rest);
  }

  /** No proper beginning of the encoding of a list is decoded to its end. */
  lemma PartIsNotTheWhole(vs: seq<Value>, params: seq<Value>, data: seq<byte>, more: seq<byte>)
    requires RepresentableAll(vs) && |params| == |vs| && data + more == EncodeAll(vs) && more != []
    ensures var r := DecodeAll(TypesOf(vs), params, data); r.Ok? ==> r.rest != []
  {
    hide DecodeAll, EncodeAll, Encode;
    assert EncodeAll(vs) + [] == EncodeAll(vs);
    if HaveNoBool(vs) {
      DecodeAllExtends(TypesOf(vs), params, data, more);
      RoundTripAllIff(vs, params, []);
    } else {
      BoolsStick(vs, params, data, []);
    }
  }

  /** Parameters that arrive whole, then the tag of a string without its size: the decoder reads past the end. */
  lemma {:induction false} CutShort(vs: seq<Value>, params: seq<Value>, stub: seq<byte>)
    requires RepresentableAll(vs) && HaveNoBool(vs) && |params| == |vs| + 1
    requires stub == [SMALL_STRING] || (1 <= |stub| <= 2 && (stub[0] == STRING || stub[0] == EXCEPTION))
    ensures DecodeAll(TypesOf(vs) + [TString], params, EncodeAll(vs) + stub) == OutOfBounds
    decreases |vs|
  {
    hide Decode, Encode;
    var tys := TypesOf(vs) + [TString];
    if |vs| == 0 {
      assert EncodeAll(vs) + stub == stub;
      LeafOutOfBoundsIff(TString, params[0], stub);
    } else {
      EncodeAllShape(vs, stub);
      RoundTripIff(vs[0], params[0], EncodeAll(vs[1..]) + stub);
      assert tys[0] == TypeOf(vs[0]) && tys[1..] == TypesOf(vs[1..]) + [TString];
      CutShort(vs[1..], params[1..], stub);
    }
  }

  /** The same inside a tuple. */
  lemma TupleCutShort(vs: seq<Value>, param: Value, stub: seq<byte>)
    requires RepresentableAll(vs) && HaveNoBool(vs) && |vs| < 255
    requires stub == [SMALL_STRING] || (1 <= |stub| <= 2 && (stub[0] == STRING || stub[0] == EXCEPTION))
    ensures Decode(TTuple(TypesOf(vs) + [TString]), param, [TUPLE, |vs| + 1] + EncodeAll(vs) + stub) == OutOfBounds
  {
    var tys, data := TypesOf(vs) + [TString], [TUPLE, |vs| + 1] + EncodeAll(vs) + stub;
    assert data[2..] == EncodeAll(vs) + stub;
    CutShort(vs, Olds(tys, param), stub);
  }

  lemma SameTag(v: Value, w: Value)
    requires Prefix(v)[0] == Prefix(w)[0]
    ensures |Prefix(v)| == |Prefix(w)|
    ensures v.Str? == w.Str? && v.Num? == w.Num? && v.Bool? == w.Bool? && v.Exc? == w.Exc?
    ensures v.Str? ==> (|v.text| < 256 <==> |w.text| < 256)
  {
  }

  lemma SameSize(m: nat, n: nat)
    requires m < TWO_TO_THE_16 && n < TWO_TO_THE_16
    requires ToLittleEndian(m % TWO_TO_THE_16, 2) == ToLittleEndian(n % TWO_TO_THE_16, 2)
    ensures m == n
  {
    PowersOf256();
    assert m % TWO_TO_THE_16 == m && n % TWO_TO_THE_16 == n;
    LittleEndianRoundTrip(m, 2);
    LittleEndianRoundTrip(n, 2);
  }

  lemma PrefixDecides(v: Value, w: Value)
    requires Representable(v) && Representable(w) && Prefix(v) == Prefix(w)
    ensures v.Str? == w.Str? && v.Num? == w.Num? && v.Bool? == w.Bool? && v.Exc? == w.Exc?
    ensures |InPlace(v)| == |InPlace(w)|
    ensures v.Tup? ==> |v.elems| == |w.elems|
    ensures v.Num? || v.Bool? ==> v == w
  {
    SameTag(v, w);
    if v.Num? {
      assert v.image == Prefix(v)[1..] == Prefix(w)[1..] == w.image;
    } else if v.Exc? || (v.Str? && |v.text| >= 256) {
      var m, n := |InPlace(v)|, |InPlace(w)|;
      assert Prefix(v)[1..] == ToLittleEndian(m % TWO_TO_THE_16, 2);
      assert Prefix(w)[1..] == ToLittleEndian(n % TWO_TO_THE_16, 2);
      SameSize(m, n);
    }
  }

  lemma SamePrefix(v: Value, w: Value, a: seq<byte>, b: seq<byte>)
    requires Prefix(v) + a == Prefix(w) + b
    ensures Prefix(v) == Prefix(w) && a == b
  {
    var all := Prefix(v) + a;
    assert all[0] == Prefix(v)[0] && all[0] == (Prefix(w) + b)[0] == Prefix(w)[0];
    SameTag(v, w);
    SameText(Prefix(v), Prefix(w), a, b);
  }

  function Tail(v: Value): seq<byte> {
    if v.Tup? then EncodeAll(v.elems) else InPlace(v)
  }

  lemma EncodeShape(v: Value, s: seq<byte>)
    ensures Encode(v) + s == Prefix(v) + (Tail(v) + s)
  {
    Associative(Prefix(v), Tail(v), s);
  }

  lemma EncodeAllShape(vs: seq<Value>, s: seq<byte>)
    requires |vs| > 0
    ensures EncodeAll(vs) + s == Encode(vs[0]) + (EncodeAll(vs[1..]) + s)
  {
    Associative(Encode(vs[0]), EncodeAll(vs[1..]), s);
  }

  lemma SameText(a: seq<byte>, b: seq<byte>, s: seq<byte>, t: seq<byte>)
    requires |a| == |b| && a + s == b + t
    ensures a == b && s == t
  {
    assert a == (a + s)[..|a|] && b == (b + t)[..|a|];
    assert s == (a + s)[|a|..] && t == (b + t)[|a|..];
  }

  lemma {:induction false} SelfDelimiting(v: Value, w: Value, s: seq<byte>, t: seq<byte>)
    requires Representable(v) && Representable(w)
    requires Encode(v) + s == Encode(w) + t
    ensures v == w && s == t
    decreases v, 1
  {
    EncodeShape(v, s);
    EncodeShape(w, t);
    SamePrefix(v, w, Tail(v) + s, Tail(w) + t);
    PrefixDecides(v, w);
    if v.Tup? {
      SelfDelimitingAll(v.elems, w.elems, s, t);
    } else {
      SameText(InPlace(v), InPlace(w), s, t);
    }
  }

  lemma {:induction false} SelfDelimitingAll(vs: seq<Value>, ws: seq<Value>, s: seq<byte>, t: seq<byte>)
    requires RepresentableAll(vs) && RepresentableAll(ws) && |vs| == |ws|
    requires EncodeAll(vs) + s == EncodeAll(ws) + t
    ensures vs == ws && s == t
    decreases vs, 0
  {
    if |vs| == 0 {
      assert s == EncodeAll(vs) + s && t == EncodeAll(ws) + t;
    } else {
      EncodeAllShape(vs, s);
      EncodeAllShape(ws, t);
      SelfDelimiting(vs[0], ws[0], EncodeAll(vs[1..]) + s, EncodeAll(ws[1..]) + t);
      SelfDelimitingAll(vs[1..], ws[1..], s, t);
      assert vs == [vs[0]] + vs[1..] && ws == [ws[0]] + ws[1..];
    }
  }

  /** Two parameter lists with the same encoding are the same list. */
  lemma {:induction false} EncodingIsInjective(vs: seq<Value>, ws: seq<Value>)
    requires RepresentableAll(vs) && RepresentableAll(ws)
    requires EncodeAll(vs) == EncodeAll(ws)
    ensures vs == ws
  {
    if |vs| > 0 && |ws| > 0 {
      SelfDelimiting(vs[0], ws[0], EncodeAll(vs[1..]), EncodeAll(ws[1..]));
      EncodingIsInjective(vs[1..], ws[1..]);
    }
  }

  /** The scratch bytes of a value: everything that is not sent in place. */
  function Scratch(v: Value): seq<byte>
    decreases v, 1
  {
    Prefix(v) + if v.Tup? then ScratchAll(v.elems) else []
  }

  function ScratchAll(vs: seq<Value>): seq<byte>
    decreases vs, 0
  {
    if |vs| == 0 then [] else Scratch(vs[0]) + ScratchAll(vs[1..])
  }

  lemma {:induction false} ScratchFits(v: Value)
    ensures |Scratch(v)| <= |Encode(v)|
    decreases v, 1
  {
    if v.Tup? {
      ScratchAllFits(v.elems);
    }
  }

  lemma {:induction false} ScratchAllFits(vs: seq<Value>)
    ensures |ScratchAll(vs)| <= |EncodeAll(vs)|
    decreases vs, 0
  {
    if |vs| > 0 {
      ScratchFits(vs[0]);
      ScratchAllFits(vs[1..]);
    }
  }

  /** The number of value nodes, tuples included. */
  function Nodes(v: Value): nat
    decreases v, 1
  {
    1 + if v.Tup? then NodesAll(v.elems) else 0
  }

  function NodesAll(vs: seq<Value>): nat
    decreases vs, 0
  {
    if |vs| == 0 then 0 else Nodes(vs[0]) + NodesAll(vs[1..])
  }
}
