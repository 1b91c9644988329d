/** The status a completed request is answered with. */
module RequestHandler {
  import opened Options
  import opened Text
  import opened Request
  import Percent

  const SWITCHING_PROTOCOLS: nat := 101
  const OK: nat := 200
  const BAD_REQUEST: nat := 400
  const NOT_FOUND: nat := 404
  const NOT_IMPLEMENTED: nat := 501
  const VARIANT_ALSO_NEGOTIATES: nat := 506

  const CONNECTION: Chars := [67, 111, 110, 110, 101, 99, 116, 105, 111, 110]
  const UPGRADE: Chars := [85, 112, 103, 114, 97, 100, 101]
  const LOWER_UPGRADE: Chars := [117, 112, 103, 114, 97, 100, 101]
  const WEBSOCKET: Chars := [119, 101, 98, 115, 111, 99, 107, 101, 116]
  /** Sec-WebSocket-Key */
  const WEBSOCKET_KEY: Chars :=
    [83, 101, 99, 45, 87, 101, 98, 83, 111, 99, 107, 101, 116, 45, 75, 101, 121]
  /** Accept-Encoding */
  const ACCEPT_ENCODING: Chars := [65, 99, 99, 101, 112, 116, 45, 69, 110, 99, 111, 100, 105, 110, 103]

  // ----- Headers

  function Upper(c: schar): schar {
    if IsLower(c) then c - 32 else c
  }

  predicate SameLetters(a: Chars, b: Chars) {
    |a| == |b| && forall i :: 0 <= i < |a| ==> Upper(a[i]) == Upper(b[i])
  }

  predicate MatchesAt(text: Chars, pattern: Chars, i: nat) {
    i < |text| && i + |pattern| <= |text| && SameLetters(text[i..i + |pattern|], pattern)
  }

  predicate Contains(text: Chars, pattern: Chars) {
    exists i :: 0 <= i < |text| && MatchesAt(text, pattern, i)
  }

  predicate HeadersContain(hs: seq<Header>, name: Chars, text: Chars) {
    exists k :: 0 <= k < |hs| && SameLetters(hs[k].name, name) && Contains(hs[k].value, text)
  }

  predicate HasHeader(hs: seq<Header>, name: Chars) {
    exists k :: 0 <= k < |hs| && SameLetters(hs[k].name, name)
  }

  /** The first header of a name. */
  method GetHeaderValue(hs: seq<Header>, name: Chars) returns (value: Option<Chars>)
    ensures value.Some? <==> HasHeader(hs, name)
    ensures value.Some? ==> exists k :: 0 <= k < |hs| && SameLetters(hs[k].name, name) && hs[k].value == value.value
                                        && forall j :: 0 <= j < k ==> !SameLetters(hs[j].name, name)
  {
    for k := 0 to |hs|
      invariant forall j :: 0 <= j < k ==> !SameLetters(hs[j].name, name)
    {
      if SameLetters(hs[k].name, name) {
        return Some(hs[k].value);
      }
    }
    value := None;
  }

  predicate IsUpgradeRequest(hs: seq<Header>, protocol: Chars) {
    HeadersContain(hs, CONNECTION, LOWER_UPGRADE) && HeadersContain(hs, UPGRADE, protocol)
  }

  // ----- The answer

  /** A file on the server, with the name of its encoding, empty for none. */
  datatype Entry = Entry(encoding: Chars)

  predicate AcceptableUri(uri: Chars) {
    uri != [] && uri[0] == '/' as int && forall i :: 0 <= i < |uri| - 1 ==> !(uri[i] == DOT && uri[i + 1] == DOT)
  }

  /** The client asks to leave HTTP in the way the program understands. */
  predicate AsksForWebSocket(r: Fields) {
    && AcceptableUri(Percent.Decode(r.uri)) && r.verb.Get?
    && IsUpgradeRequest(r.headers, WEBSOCKET) && HasHeader(r.headers, WEBSOCKET_KEY)
  }

  /** `open` stands for the file provider, from decoded URIs. */
  function StatusOf(r: Fields, open: Chars -> Option<Entry>): nat {
    var uri := Percent.Decode(r.uri);
    if !AcceptableUri(uri) then BAD_REQUEST
    else
      match r.verb
      case Get =>
        if IsUpgradeRequest(r.headers, WEBSOCKET) && HasHeader(r.headers, WEBSOCKET_KEY) then SWITCHING_PROTOCOLS
        else if open(uri).None? then NOT_FOUND
        else if open(uri).value.encoding != [] && !HeadersContain(r.headers, ACCEPT_ENCODING, open(uri).value.encoding)
          then VARIANT_ALSO_NEGOTIATES
        else OK
      case Head => if open(uri).None? then NOT_FOUND else OK
      case _ => NOT_IMPLEMENTED
  }

  lemma SwitchesIff(r: Fields, open: Chars -> Option<Entry>)
    ensures StatusOf(r, open) == SWITCHING_PROTOCOLS <==> AsksForWebSocket(r)
  {
  }

  // ----- What the statuses mean

  /** The words of the protocol (RFC 6455, section 4.2.1; RFC 7231, section 5.3.4). */
  lemma WordsOfTheProtocol()
    ensures CONNECTION == Codes("Connection") && UPGRADE == Codes("Upgrade")
    ensures LOWER_UPGRADE == Codes("upgrade") && WEBSOCKET == Codes("websocket")
    ensures WEBSOCKET_KEY == Codes("Sec-WebSocket-Key") && ACCEPT_ENCODING == Codes("Accept-Encoding")
  {
  }

  /** Names and words are compared letter by letter, in any case. */
  lemma SameLettersIff(a: Chars, b: Chars)
    ensures SameLetters(a, b) <==>
            && |a| == |b|
            && forall i :: 0 <= i < |a| ==> a[i] == b[i] || (IsUpper(a[i]) && b[i] == a[i] + 32)
                                            || (IsUpper(b[i]) && a[i] == b[i] + 32)
  {
  }

  /** A word is contained if and only if a part of the text spells it, in any case. */
  lemma ContainsIff(text: Chars, word: Chars)
    requires word != []
    ensures Contains(text, word) <==>
            exists before, part, behind :: text == before + part + behind && SameLetters(part, word)
  {
    hide SameLetters;
    if Contains(text, word) {
      var i :| 0 <= i < |text| && MatchesAt(text, word, i);
      assert text == text[..i] + text[i..i + |word|] + text[i + |word|..];
    }
    if before, part, behind :| text == before + part + behind && SameLetters(part, word) {
      SameSize(part, word);
      assert text[|before|..|before| + |word|] == part;
      assert MatchesAt(text, word, |before|);
    }
  }

  lemma SameSize(a: Chars, b: Chars)
    requires SameLetters(a, b)
    ensures |a| == |b|
  {
  }

  /** One character of the text as it was received: a triplet, or any other character. */
  function Behind(s: Chars): (rest: Chars)
    requires s != []
    ensures |rest| < |s|
  {
    if Percent.StartsTriplet(s) then s[3..] else s[1..]
  }

  /** A full stop, as it is or as %2E. */
  predicate BeginsWithDot(s: Chars) {
    s != [] && (s[0] == 46 || (|s| >= 3 && s[0] == 37 && s[1] == 50 && (s[2] == 69 || s[2] == 101)))
  }

  predicate HasTwoDots(s: Chars)
    decreases |s|
  {
    s != [] && ((BeginsWithDot(s) && BeginsWithDot(Behind(s))) || HasTwoDots(Behind(s)))
  }

  /** A slash, as it is or as %2F. */
  predicate BeginsWithSlash(s: Chars) {
    s != [] && (s[0] == 47 || (|s| >= 3 && s[0] == 37 && s[1] == 50 && (s[2] == 70 || s[2] == 102)))
  }

  lemma FirstDecoded(s: Chars)
    requires s != []
    ensures Percent.Decode(s) == [Percent.Decode(s)[0]] + Percent.Decode(Behind(s))
    ensures Percent.Decode(s)[0] == 46 <==> BeginsWithDot(s)
    ensures Percent.Decode(s)[0] == 47 <==> BeginsWithSlash(s)
  {
  }

  predicate DotsAt(u: Chars, i: nat) {
    i + 1 < |u| && u[i] == 46 && u[i + 1] == 46
  }

  lemma {:induction false} TwoDotsDecoded(s: Chars)
    ensures HasTwoDots(s) <==> exists i :: DotsAt(Percent.Decode(s), i)
    decreases |s|
  {
    hide Percent.Decode, Percent.StartsTriplet;
    NothingDecoded(s);
    if s != [] {
      var u, rest := Percent.Decode(s), Percent.Decode(Behind(s));
      FirstDecoded(s);
      TwoDotsDecoded(Behind(s));
      NothingDecoded(Behind(s));
      if Behind(s) != [] {
        FirstDecoded(Behind(s));
      }
      assert forall i: nat :: DotsAt(u, i + 1) <==> DotsAt(rest, i);
      assert DotsAt(u, 0) <==> BeginsWithDot(s) && BeginsWithDot(Behind(s));
      if i: nat :| DotsAt(u, i) {
        assert i > 0 ==> DotsAt(rest, i - 1);
      }
      if HasTwoDots(Behind(s)) {
        var i: nat :| DotsAt(rest, i);
        assert DotsAt(u, i + 1);
      }
    }
  }

  lemma NothingDecoded(s: Chars)
    ensures Percent.Decode(s) == [] <==> s == []
  {
  }

  /** Refused as it was received: without a slash at its beginning, or with two full stops in a row. */
  predicate Refused(uri: Chars) {
    !BeginsWithSlash(uri) || HasTwoDots(uri)
  }

  lemma RefusedIff(uri: Chars)
    ensures AcceptableUri(Percent.Decode(uri)) <==> !Refused(uri)
  {
    hide Percent.Decode, HasTwoDots;
    var u := Percent.Decode(uri);
    NothingDecoded(uri);
    if uri != [] {
      FirstDecoded(uri);
    }
    TwoDotsDecoded(uri);
    assert (exists i :: DotsAt(u, i)) <==> exists i :: 0 <= i < |u| - 1 && u[i] == DOT && u[i + 1] == DOT by {
      assert forall i: nat :: i < |u| - 1 && u[i] == DOT && u[i + 1] == DOT <==> DotsAt(u, i);
    }
  }

  predicate Asks(r: Fields) {
    && r.verb == Get
    && HeadersContain(r.headers, Codes("Connection"), Codes("upgrade"))
    && HeadersContain(r.headers, Codes("Upgrade"), Codes("websocket"))
    && HasHeader(r.headers, Codes("Sec-WebSocket-Key"))
  }

  /** The file's encoding is named by no Accept-Encoding header. */
  predicate Unreadable(r: Fields, file: Entry) {
    file.encoding != [] && !HeadersContain(r.headers, Codes("Accept-Encoding"), file.encoding)
  }

  /** When a request may be answered with a status; the file is that of the decoded URI. */
  predicate Deserves(r: Fields, open: Chars -> Option<Entry>, code: nat) {
    var file := open(Percent.Decode(r.uri));
    if code == 400 then Refused(r.uri)
    else
      && !Refused(r.uri)
      && if code == 101 then Asks(r)
         else
           && !Asks(r)
           && if code == 501 then r.verb != Get && r.verb != Head
              else
                && (r.verb == Get || r.verb == Head)
                && if code == 404 then file.None?
                   else
                     && file.Some?
                     && if code == 506 then r.verb == Get && Unreadable(r, file.value)
                        else code == 200 && (r.verb == Get ==> !Unreadable(r, file.value))
  }

  /** Every request is answered with the one status it deserves: 400 if and only if its URI is refused as
      received, 101 if and only if it asks for the protocol, 501 for any method but GET and HEAD, 404 for a file
      that is not there, 506 for one in an encoding the client does not name, and 200 for any other. */
  lemma StatusIff(r: Fields, open: Chars -> Option<Entry>, code: nat)
    ensures StatusOf(r, open) == code <==> Deserves(r, open, code)
  {
    hide Percent.Decode, HeadersContain, HasHeader, Refused, AcceptableUri;
    RefusedIff(r.uri);
    WordsOfTheProtocol();
  }
}
