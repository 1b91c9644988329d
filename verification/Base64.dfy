/** Base64 (RFC 4648, section 4): the definition, its inverse, and the encoder of the program. */
module Base64 {
  import opened Options
  import opened Bytes
  import opened Seqs
  import opened Text

  const PAD: schar := 61

  /** The symbol of a six-bit value. */
  function Symbol(v: nat): (c: schar)
    requires v < 64
    ensures c != PAD
  {
    if v < 26 then 'A' as int + v
    else if v < 52 then 'a' as int + v - 26
    else if v < 62 then '0' as int + v - 52
    else if v == 62 then '+' as int else '/' as int
  }

  function SymbolValue(c: schar): (v: nat)
    ensures v < 64
  {
    if IsUpper(c) then c - 'A' as int
    else if IsLower(c) then c - 'a' as int + 26
    else if IsDigit(c) then c - '0' as int + 52
    else if c == '+' as int then 62 else 63
  }

  /** Sextet k, from the left, of a group of three octets read as one 24-bit number. */
  function Sextet(a: byte, b: byte, c: byte, k: nat): (v: nat)
    requires k < 4
    ensures v < 64
  {
    var n := (a * 256 + b) * 256 + c;
    if k == 3 then n % 64 else if k == 2 then n / 64 % 64 else if k == 1 then n / 64 / 64 % 64
    else n / 64 / 64 / 64
  }

  function Group(a: byte, b: byte, c: byte): (g: seq<schar>)
    ensures |g| == 4
  {
    [Symbol(Sextet(a, b, c, 0)), Symbol(Sextet(a, b, c, 1)), Symbol(Sextet(a, b, c, 2)), Symbol(Sextet(a, b, c, 3))]
  }

  /** The symbols of the first three octets; an incomplete group is filled with zero bits and padded. */
  function FirstGroup(s: seq<byte>): (g: seq<schar>)
    requires |s| > 0
    ensures |g| == 4
  {
    if |s| == 1 then Group(s[0], 0, 0)[..2] + [PAD, PAD]
    else if |s| == 2 then Group(s[0], s[1], 0)[..3] + [PAD]
    else Group(s[0], s[1], s[2])
  }

  /** RFC 4648, section 4. */
  function Rfc4648(s: seq<byte>): seq<schar> {
    if |s| == 0 then [] else FirstGroup(s) + Rfc4648(s[Min(3, |s|)..])
  }

  /** The octets of four six-bit values. */
  function GroupOctets(p: nat, q: nat, r: nat, t: nat): (octets: seq<byte>)
    requires p < 64 && q < 64 && r < 64 && t < 64
    ensures |octets| == 3
  {
    [p * 4 + q / 16, q % 16 * 16 + r / 4, r % 4 * 64 + t]
  }

  function DecodeGroup(g: seq<schar>): seq<byte> {
    if |g| != 4 then []
    else
      var octets := GroupOctets(SymbolValue(g[0]), SymbolValue(g[1]), SymbolValue(g[2]), SymbolValue(g[3]));
      if g[2] == PAD then octets[..1] else if g[3] == PAD then octets[..2] else octets
  }

  /** Group by group. */
  function ByGroups(f: seq<schar> -> seq<byte>, s: seq<schar>): seq<byte> {
    if |s| < 4 then [] else f(s[..4]) + ByGroups(f, s[4..])
  }

  function Decode(s: seq<schar>): seq<byte> {
    ByGroups(DecodeGroup, s)
  }

  lemma SymbolRoundTrip(v: nat)
    requires v < 64
    ensures SymbolValue(Symbol(v)) == v
  {
  }

  /** How the program cuts sextets out of octets. */
  lemma SextetsByShifts(a: byte, b: byte, c: byte)
    ensures Sextet(a, b, c, 0) == a / 4
    ensures Sextet(a, b, c, 1) == a % 4 * 16 + b / 16
    ensures Sextet(a, b, c, 2) == b % 16 * 4 + c / 64
    ensures Sextet(a, b, c, 3) == c % 64
  {
    var n, m, l := (a * 256 + b) * 256 + c, a * 1024 + b * 4 + c / 64, a * 16 + b / 16;
    DivisionIsUnique(n, 64, m, c % 64);
    DivisionIsUnique(m, 64, l, b % 16 * 4 + c / 64);
    DivisionIsUnique(l, 64, a / 4, a % 4 * 16 + b / 16);
  }

  /** Test vectors of RFC 4648, section 10. */
  lemma VectorsOfTheStandard()
    ensures Rfc4648(Codes("f")) == Codes("Zg==") && Rfc4648(Codes("fo")) == Codes("Zm8=")
  {
  }

  /** Another one, and the last two symbols of table 1. */
  lemma MoreVectors()
    ensures Rfc4648(Codes("foo")) == Codes("Zm9v") && Rfc4648([0xFB, 0xFF]) == Codes("+/8=")
  {
  }

  lemma OctetsBySextets(a: byte, b: byte, c: byte, p: nat, q: nat, r: nat, t: nat)
    requires p == a / 4 && q == a % 4 * 16 + b / 16 && t < 64
    requires r < 64
    ensures GroupOctets(p, q, r, t)[0] == a
    ensures r / 4 == b % 16 ==> GroupOctets(p, q, r, t)[1] == b
    ensures r == b % 16 * 4 + c / 64 && t == c % 64 ==> GroupOctets(p, q, r, t)[2] == c
  {
  }

  lemma {:induction false} RfcSize(s: seq<byte>)
    ensures |Rfc4648(s)| == 4 * ((|s| + 2) / 3)
  {
    if |s| > 3 {
      RfcSize(s[3..]);
      assert (|s| + 2) / 3 == (|s| - 3 + 2) / 3 + 1;
    } else if |s| > 0 {
      assert Rfc4648(s[|s|..]) == [];
    }
  }

  /** The function undoes every group. */
  ghost predicate Undoes(f: seq<schar> -> seq<byte>) {
    forall t: seq<byte> :: |t| > 0 ==> f(FirstGroup(t)) == t[..Min(3, |t|)]
  }

  lemma PeelGroup(f: seq<schar> -> seq<byte>, s: seq<byte>)
    requires |s| > 0
    ensures var m := Min(3, |s|);
            ByGroups(f, Rfc4648(s)) == f(FirstGroup(s)) + ByGroups(f, Rfc4648(s[m..]))
  {
    hide FirstGroup;
    var head, tail := FirstGroup(s), Rfc4648(s[Min(3, |s|)..]);
    assert Rfc4648(s) == head + tail;
    assert (head + tail)[..4] == head && (head + tail)[4..] == tail;
  }

  lemma {:induction false} ByGroupsReads(f: seq<schar> -> seq<byte>, s: seq<byte>)
    requires Undoes(f)
    ensures ByGroups(f, Rfc4648(s)) == s
  {
    if |s| > 0 {
      hide FirstGroup, ByGroups, Rfc4648;
      var m := Min(3, |s|);
      ByGroupsReads(f, s[m..]);
      PeelGroup(f, s);
      assert f(FirstGroup(s)) == s[..m];
      assert s == s[..m] + s[m..];
    }
  }

  /** The encoding can be read back, whatever its padding. */
  lemma DecodeRfc4648(s: seq<byte>)
    ensures Decode(Rfc4648(s)) == s
  {
    forall t: seq<byte> | |t| > 0 ensures DecodeGroup(FirstGroup(t)) == t[..Min(3, |t|)] {
      FirstGroupDecodes(t);
    }
    ByGroupsReads(DecodeGroup, s);
  }

  lemma FirstGroupDecodes(s: seq<byte>)
    requires |s| > 0
    ensures DecodeGroup(FirstGroup(s)) == s[..Min(3, |s|)]
  {
    GroupDecodes(s[0], if |s| > 1 then s[1] else 0, if |s| > 2 then s[2] else 0);
  }

  lemma GroupDecodes(a: byte, b: byte, c: byte)
    ensures DecodeGroup(Group(a, b, c)) == [a, b, c]
    ensures c == 0 ==> DecodeGroup(Group(a, b, c)[..3] + [PAD]) == [a, b]
    ensures b == 0 && c == 0 ==> DecodeGroup(Group(a, b, c)[..2] + [PAD, PAD]) == [a]
  {
    var p, q, r, t := Sextet(a, b, c, 0), Sextet(a, b, c, 1), Sextet(a, b, c, 2), Sextet(a, b, c, 3);
    SymbolRoundTrip(p);
    SymbolRoundTrip(q);
    SymbolRoundTrip(r);
    SymbolRoundTrip(t);
    SextetsByShifts(a, b, c);
    OctetsBySextets(a, b, c, p, q, r, t);
    OctetsBySextets(a, b, c, p, q, r, SymbolValue(PAD));
    OctetsBySextets(a, b, c, p, q, SymbolValue(PAD), SymbolValue(PAD));
  }

  lemma NextGroup(before: seq<schar>, after: seq<schar>, input: seq<byte>, i: nat)
    requires i + 3 <= |input|
    requires var a, b, c := input[i], input[i + 1], input[i + 2];
             after == before + [Symbol(a / 4), Symbol(a % 4 * 16 + b / 16), Symbol(b % 16 * 4 + c / 64), Symbol(c % 64)]
    ensures after + Rfc4648(input[i + 3..]) == before + Rfc4648(input[i..])
  {
    var s := input[i..];
    assert s[0] == input[i] && s[1] == input[i + 1] && s[2] == input[i + 2] && s[3..] == input[i + 3..];
    SextetsByShifts(s[0], s[1], s[2]);
    Associative(before, FirstGroup(s), Rfc4648(s[3..]));
  }

  /** One iteration of the loop over whole groups. */
  method EncodeGroup(input: seq<byte>, i: nat, output: array<schar>, coded: nat)
    requires i + 3 <= |input| && coded + 4 <= output.Length
    modifies output
    ensures output[..coded + 4] + Rfc4648(input[i + 3..]) == old(output[..coded]) + Rfc4648(input[i..])
    ensures forall k :: coded + 4 <= k < output.Length ==> output[k] == old(output[k])
  {
    ghost var before := output[..coded];
    Write(output, coded, Symbol(input[i] / 4), Symbol(input[i] % 4 * 16 + input[i + 1] / 16),
          Symbol(input[i + 1] % 16 * 4 + input[i + 2] / 64), Symbol(input[i + 2] % 64));
    NextGroup(before, output[..coded + 4], input, i);
  }

  /** Writes the whole groups through the iterator. */
  method EncodeGroups(input: seq<byte>, output: array<schar>) returns (coded: nat, i: nat)
    requires |input| >= 2 && output.Length == 4 * (|input| + 2) / 3
    modifies output
    ensures i % 3 == 0 && |input| - 2 <= i <= |input| && 3 * coded == 4 * i
    ensures output[..coded] + Rfc4648(input[i..]) == Rfc4648(input)
    ensures forall k :: coded <= k < output.Length ==> output[k] == old(output[k])
  {
    hide *;
    coded, i := 0, 0;
    assert output[..coded] + Rfc4648(input[i..]) == Rfc4648(input) by {
      assert input[0..] == input;
    }
    while i < |input| - 2
      invariant i % 3 == 0 && i <= |input| && 3 * coded == 4 * i
      invariant output[..coded] + Rfc4648(input[i..]) == Rfc4648(input)
      invariant forall k :: coded <= k < output.Length ==> output[k] == old(output[k])
    {
      EncodeGroup(input, i, output, coded);
      coded, i := coded + 4, i + 3;
    }
  }

  /** Writes what is left of the input, padded. */
  method EncodeRest(rest: seq<byte>, output: array<schar>, coded: nat)
    requires 1 <= |rest| <= 2 && coded + 4 <= output.Length
    modifies output
    ensures output[..coded + 4] == old(output[..coded]) + Rfc4648(rest)
    ensures forall k :: coded + 4 <= k < output.Length ==> output[k] == old(output[k])
  {
    SextetsByShifts(rest[0], if |rest| == 2 then rest[1] else 0, 0);
    assert Rfc4648(rest[|rest|..]) == [] && Rfc4648(rest) == FirstGroup(rest) + [];
    if |rest| == 1 {
      Write(output, coded, Symbol(rest[0] / 4), Symbol(rest[0] % 4 * 16), PAD, PAD);
    } else {
      Write(output, coded, Symbol(rest[0] / 4), Symbol(rest[0] % 4 * 16 + rest[1] / 16), Symbol(rest[1] % 16 * 4), PAD);
    }
  }

  /** Four characters through the iterator. */
  method Write(output: array<schar>, coded: nat, p: schar, q: schar, r: schar, t: schar)
    requires coded + 4 <= output.Length
    modifies output
    ensures output[..coded + 4] == old(output[..coded]) + [p, q, r, t]
    ensures forall k :: coded + 4 <= k < output.Length ==> output[k] == old(output[k])
  {
    output[coded] := p;
    output[coded + 1] := q;
    output[coded + 2] := r;
    output[coded + 3] := t;
  }

  /** An input of two bytes or more. */
  method EncodeAll(input: seq<byte>) returns (result: seq<schar>)
    requires |input| >= 2
    ensures result == if |input| % 3 == 0 then Rfc4648(input) + [0] else Rfc4648(input)
  {
    var output := new schar[4 * (|input| + 2) / 3](_ => 0);
    var coded, i := EncodeGroups(input, output);
    if i < |input| {
      EncodeRest(input[i..], output, coded);
      coded := coded + 4;
    }
    RfcSize(input);
    assert output[..coded] == Rfc4648(input) by {
      assert i == |input| ==> input[i..] == [] && Rfc4648(input[i..]) == [];
    }
    hide *;
    ghost var n := |input|;
    TailOf(output, coded, n);
    result := output[..coded] + if coded != output.Length then output[coded + 1..] else [];
  }

  /** What is left in the buffer behind the encoding, and behind the character erased. */
  lemma TailOf(output: array<schar>, coded: nat, n: nat)
    requires output.Length == 4 * (n + 2) / 3 && coded == 4 * ((n + 2) / 3)
    requires forall k :: coded <= k < output.Length ==> output[k] == 0
    ensures coded <= output.Length
    ensures n % 3 == 0 ==> coded + 2 == output.Length && output[coded + 1..] == [0]
    ensures n % 3 != 0 ==> output.Length <= coded + 1
  {
    BufferSize(n);
  }

  /** The allocation, and the size of the encoding. */
  lemma BufferSize(n: nat)
    ensures 4 * (n + 2) / 3 == 4 * ((n + 2) / 3) + if n % 3 == 0 then 2 else if n % 3 == 1 then 0 else 1
  {
    var q, r := n / 3, n % 3;
    DivisionIsUnique(n + 2, 3, if r == 0 then q else q + 1, if r == 0 then 2 else r - 1);
    DivisionIsUnique(4 * (n + 2), 3, 4 * q + if r == 0 then 2 else if r == 1 then 4 else 5,
                     if r == 0 then 2 else if r == 1 then 0 else 1);
  }

  /** The bound of the loop over whole groups, in the arithmetic of size_t. */
  function GroupsBound(n: nat): nat {
    (n - 2) % TWO_TO_THE_64
  }

  /** The encoder meets RFC 4648 if and only if the input is not a whole number of groups: otherwise its
      buffer is two characters too long and a null character stays at the end. No write leaves the buffer.
      None stands for a read behind the input, which happens exactly when it has fewer than two bytes: the
      bound of the loop wraps around. */
  method Encode(input: seq<byte>) returns (result: Option<seq<schar>>)
    ensures result.None? <==> |input| < 2
    ensures result.Some? ==> result.value == if |input| % 3 == 0 then Rfc4648(input) + [0] else Rfc4648(input)
  {
    if |input| < 3 && 0 < GroupsBound(|input|) {
      return None;
    }
    var text := EncodeAll(input);
    result := Some(text);
  }
}
