/** Percent-encoding of URIs (RFC 3986, sections 2.1 and 2.3). */
module Percent {
  import opened Options
  import opened Seqs
  import opened Text

  const PERCENT: schar := 37
  const PLUS: schar := 43

  predicate IsAscii(s: seq<schar>) {
    forall i :: 0 <= i < |s| ==> s[i] >= 0
  }

  predicate IsUnreserved(c: schar) {
    IsDigit(c) || IsUpper(c) || IsLower(c) || c == '-' as int || c == '_' as int || c == '.' as int || c == '~' as int
  }

  /** RFC 3986, section 2.3: letters, digits, hyphen, full stop, underscore and tilde. */
  lemma UnreservedAre(c: schar)
    ensures IsUnreserved(c) <==> 48 <= c <= 57 || 65 <= c <= 90 || 97 <= c <= 122 || c in {45, 46, 95, 126}
  {
  }

  predicate IsHexDigit(c: schar) {
    IsDigit(c) || 'A' as int <= c <= 'F' as int || 'a' as int <= c <= 'f' as int
  }

  function HexDigit(n: nat): (c: schar)
    requires n < 16
    ensures IsHexDigit(c) && !IsLower(c)
  {
    if n < 10 then '0' as int + n else 'A' as int + n - 10
  }

  function HexValue(c: schar): (n: nat)
    requires IsHexDigit(c)
    ensures n < 16
  {
    if IsDigit(c) then c - '0' as int
    else if 'A' as int <= c <= 'F' as int then c - 'A' as int + 10
    else c - 'a' as int + 10
  }

  lemma HexRoundTrip(n: nat)
    requires n < 16
    ensures HexValue(HexDigit(n)) == n
  {
  }

  /** The digits of RFC 3986, section 2.1, in either case. */
  lemma HexDigitsAre(n: nat)
    requires n < 16
    ensures HexDigit(n) == "0123456789ABCDEF"[n] as int
    ensures IsHexDigit("0123456789abcdef"[n] as int) && HexValue("0123456789abcdef"[n] as int) == n
  {
  }

  /** The signed character of an unsigned byte. */
  function AsChar(n: nat): schar
    requires n < 256
  {
    if n < 128 then n else n - 256
  }

  function EncodeChar(c: schar): seq<schar>
    requires c >= 0
  {
    if IsUnreserved(c) then [c] else [PERCENT, HexDigit(c / 16), HexDigit(c % 16)]
  }

  function Encode(s: seq<schar>): seq<schar>
    requires IsAscii(s)
  {
    if |s| == 0 then [] else EncodeChar(s[0]) + Encode(s[1..])
  }

  predicate StartsTriplet(s: seq<schar>) {
    |s| >= 3 && s[0] == PERCENT && IsHexDigit(s[1]) && IsHexDigit(s[2])
  }

  function Decode(s: seq<schar>): seq<schar> {
    if |s| == 0 then []
    else if StartsTriplet(s) then [AsChar(HexValue(s[1]) * 16 + HexValue(s[2]))] + Decode(s[3..])
    else [if s[0] == PLUS then SPACE else s[0]] + Decode(s[1..])
  }

  /** Unreserved characters and upper-case percent triplets only. */
  predicate IsCanonical(s: seq<schar>) {
    |s| == 0 ||
    (if s[0] == PERCENT then StartsTriplet(s) && !IsLower(s[1]) && !IsLower(s[2]) && IsCanonical(s[3..])
     else IsUnreserved(s[0]) && IsCanonical(s[1..]))
  }

  lemma DecodeEncodeChar(c: schar, more: seq<schar>)
    requires c >= 0
    ensures Decode(EncodeChar(c) + more) == [c] + Decode(more)
  {
    var all := EncodeChar(c) + more;
    if IsUnreserved(c) {
      assert all[0] == c && all[1..] == more;
    } else {
      HexRoundTrip(c / 16);
      HexRoundTrip(c % 16);
      assert all[0] == PERCENT && all[1] == HexDigit(c / 16) && all[2] == HexDigit(c % 16) && all[3..] == more;
    }
  }

  /** Whatever follows, decoding gives back what was encoded and goes on from there. */
  lemma {:induction false} DecodeEncode(s: seq<schar>, t: seq<schar>)
    requires IsAscii(s)
    ensures Decode(Encode(s) + t) == s + Decode(t)
  {
    if |s| == 0 {
      assert Encode(s) + t == t && s + Decode(t) == Decode(t);
    } else {
      var more := Encode(s[1..]) + t;
      Associative(EncodeChar(s[0]), Encode(s[1..]), t);
      DecodeEncode(s[1..], t);
      DecodeEncodeChar(s[0], more);
      Associative([s[0]], s[1..], Decode(t));
      assert s == [s[0]] + s[1..];
    }
  }

  lemma {:induction false} EncodeIsCanonical(s: seq<schar>)
    requires IsAscii(s)
    ensures IsCanonical(Encode(s)) && |s| <= |Encode(s)| <= 3 * |s|
  {
    if |s| > 0 {
      var c, e := s[0], Encode(s);
      EncodeIsCanonical(s[1..]);
      if IsUnreserved(c) {
        assert e[1..] == Encode(s[1..]);
      } else {
        assert e[3..] == Encode(s[1..]);
      }
    }
  }

  /** A triplet, with digits in either case, stands for the character with that code, whatever follows. */
  lemma TripletDecodes(high: nat, low: nat, more: seq<schar>)
    requires high < 16 && low < 16
    ensures var c := if high < 8 then 16 * high + low else 16 * high + low - 256;
            && Decode([37, HexDigit(high), HexDigit(low)] + more) == [c] + Decode(more)
            && Decode([37, LowerHex(high), LowerHex(low)] + more) == [c] + Decode(more)
  {
    HexRoundTrip(high);
    HexRoundTrip(low);
    assert ([37, HexDigit(high), HexDigit(low)] + more)[3..] == more;
    assert ([37, LowerHex(high), LowerHex(low)] + more)[3..] == more;
  }

  /** A plus sign stands for a space, and every other character but the percent sign for itself. */
  lemma OtherCharDecodes(c: schar, more: seq<schar>)
    requires c != 37
    ensures Decode([c] + more) == [if c == 43 then 32 else c] + Decode(more)
  {
    assert ([c] + more)[1..] == more;
  }

  function LowerHex(n: nat): schar
    requires n < 16
  {
    if n < 10 then 48 + n else 87 + n
  }

  /** Decoding never lengthens a text, and shortens it exactly when it holds a triplet. */
  predicate HasTriplet(s: seq<schar>) {
    |s| > 0 && (StartsTriplet(s) || HasTriplet(s[1..]))
  }

  lemma {:induction false} DecodeSize(s: seq<schar>)
    ensures |Decode(s)| <= |s|
    ensures |Decode(s)| == |s| <==> !HasTriplet(s)
  {
    if |s| > 0 {
      DecodeSize(s[1..]);
      if StartsTriplet(s) {
        DecodeSize(s[3..]);
      }
    }
  }

  lemma {:induction false} DecodeIsIdentityIff(s: seq<schar>)
    ensures Decode(s) == s <==> !HasTriplet(s) && PLUS !in s
  {
    DecodeSize(s);
    if |s| > 0 && !StartsTriplet(s) {
      DecodeIsIdentityIff(s[1..]);
      assert s == [s[0]] + s[1..];
      if Decode(s) == s {
        assert Decode(s[1..]) == Decode(s)[1..] == s[1..];
      }
    }
  }

  /** None stands for an index outside the table of digits, which every negative character leads to. */
  method EncodeUri(uri: seq<schar>) returns (encoded: Option<seq<schar>>)
    ensures encoded.Some? <==> IsAscii(uri)
    ensures encoded.Some? ==> encoded.value == Encode(uri)
  {
    var text: seq<schar> := [];
    for i := 0 to |uri|
      invariant IsAscii(uri[..i])
      invariant IsAscii(uri) ==> text + Encode(uri[i..]) == Encode(uri)
    {
      var c := uri[i];
      ghost var before := text;
      if IsUnreserved(c) {
        text := text + [c];
      } else {
        if c / 16 < 0 {
          return None;
        }
        text := text + [PERCENT];
        text := text + [HexDigit(c / 16)];
        text := text + [HexDigit(c % 16)];
      }
      assert uri[..i + 1] == uri[..i] + [c];
      assert text == before + EncodeChar(c);
      if IsAscii(uri) {
        EncodeNext(before, uri, i);
      }
    }
    assert uri[..|uri|] == uri;
    assert IsAscii(uri) ==> Encode(uri[|uri|..]) == [];
    encoded := Some(text);
  }

  lemma EncodeNext(before: seq<schar>, uri: seq<schar>, i: nat)
    requires i < |uri| && IsAscii(uri)
    ensures before + EncodeChar(uri[i]) + Encode(uri[i + 1..]) == before + Encode(uri[i..])
  {
    assert uri[i..][1..] == uri[i + 1..];
    assert Encode(uri[i..]) == EncodeChar(uri[i]) + Encode(uri[i + 1..]);
  }

  lemma DecodeNext(before: seq<schar>, uri: seq<schar>, i: nat)
    requires i < |uri|
    ensures StartsTriplet(uri[i..]) <==>
            i + 3 <= |uri| && uri[i] == PERCENT && IsHexDigit(uri[i + 1]) && IsHexDigit(uri[i + 2])
    ensures StartsTriplet(uri[i..]) ==>
            before + [AsChar(HexValue(uri[i + 1]) * 16 + HexValue(uri[i + 2]))] + Decode(uri[i + 3..])
            == before + Decode(uri[i..])
    ensures !StartsTriplet(uri[i..]) ==>
            before + [if uri[i] == PLUS then SPACE else uri[i]] + Decode(uri[i + 1..]) == before + Decode(uri[i..])
  {
    var s := uri[i..];
    assert s[0] == uri[i] && s[1..] == uri[i + 1..];
    if i + 3 <= |uri| {
      assert s[1] == uri[i + 1] && s[2] == uri[i + 2] && s[3..] == uri[i + 3..];
    }
  }

  method DecodeUri(uri: seq<schar>) returns (decoded: seq<schar>)
    ensures decoded == Decode(uri)
  {
    decoded := [];
    var index := 0;
    while index < |uri|
      invariant index <= |uri|
      invariant decoded + Decode(uri[index..]) == Decode(uri)
    {
      DecodeNext(decoded, uri, index);
      if uri[index] == PERCENT {
        if index + 3 <= |uri| && IsHexDigit(uri[index + 1]) && IsHexDigit(uri[index + 2]) {
          decoded := decoded + [AsChar(HexValue(uri[index + 1]) * 16 + HexValue(uri[index + 2]))];
          index := index + 2;
        } else {
          decoded := decoded + [uri[index]];
        }
      } else if uri[index] == PLUS {
        decoded := decoded + [SPACE];
      } else {
        decoded := decoded + [uri[index]];
      }
      index := index + 1;
    }
    assert Decode(uri[|uri|..]) == [];
  }
}
