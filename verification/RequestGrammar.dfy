/** The language the request machine accepts, and what it reads from each of its texts. */
module RequestGrammar {
  import opened Text
  import opened Request

  /** A continuation line: white space, then text that does not begin with more of it. */
  datatype Fold = Fold(lws: Chars, text: Chars)

  datatype HeaderText = HeaderText(name: Chars, value: Chars, folds: seq<Fold>)

  datatype RequestText =
    RequestText(verb: Chars, uri: Chars, major: Chars, minor: Chars, headers: seq<HeaderText>)

  const HTTP_: Chars := [72, 84, 84, 80, 47] // HTTP/
  const CRLF: Chars := [CR, LF]

  // ----- The texts

  predicate Digits(s: Chars) {
    s != [] && forall i :: 0 <= i < |s| ==> IsDigit(s[i])
  }

  predicate White(s: Chars) {
    s != [] && forall i :: 0 <= i < |s| ==> IsWhite(s[i])
  }

  predicate WellFormedFold(f: Fold) {
    White(f.lws) && NoControls(f.text) && (f.text == [] || f.text[0] != SPACE)
  }

  predicate WellFormedHeader(h: HeaderText) {
    Token(h.name) && NoControls(h.value) && forall i :: 0 <= i < |h.folds| ==> WellFormedFold(h.folds[i])
  }

  predicate WellFormedHeaders(hs: seq<HeaderText>) {
    forall i :: 0 <= i < |hs| ==> WellFormedHeader(hs[i])
  }

  predicate WellFormed(t: RequestText) {
    Token(t.verb) && CleanUri(t.uri) && Digits(t.major) && Digits(t.minor) && WellFormedHeaders(t.headers)
  }

  function UnparseFolds(fs: seq<Fold>): Chars {
    if |fs| == 0 then [] else UnparseFolds(fs[..|fs| - 1]) + CRLF + fs[|fs| - 1].lws + fs[|fs| - 1].text
  }

  /** Header field without its line end. */
  function Unclosed(h: HeaderText): Chars {
    h.name + [COLON, SPACE] + h.value + UnparseFolds(h.folds)
  }

  function UnparseHeaders(hs: seq<HeaderText>): Chars {
    if |hs| == 0 then [] else UnparseHeaders(hs[..|hs| - 1]) + Unclosed(hs[|hs| - 1]) + CRLF
  }

  function RequestLine(t: RequestText): Chars {
    t.verb + [SPACE] + t.uri + [SPACE] + HTTP_ + t.major + [DOT] + t.minor + CRLF
  }

  function Unparse(t: RequestText): Chars {
    RequestLine(t) + UnparseHeaders(t.headers) + CRLF
  }

  // ----- Their meaning

  function Number(digits: Chars): int {
    if |digits| == 0 then 0 else Number(digits[..|digits| - 1]) * 10 + digits[|digits| - 1] - '0' as int
  }

  /** A folded value: the white space and the line ends are gone, nothing takes their place. */
  function Folded(value: Chars, fs: seq<Fold>): Chars {
    if |fs| == 0 then value else Folded(value, fs[..|fs| - 1]) + fs[|fs| - 1].text
  }

  function HeaderOf(h: HeaderText): Header {
    Header(h.name, Folded(h.value, h.folds))
  }

  function HeadersOf(hs: seq<HeaderText>): seq<Header> {
    if |hs| == 0 then [] else HeadersOf(hs[..|hs| - 1]) + [HeaderOf(hs[|hs| - 1])]
  }

  function Meaning(t: RequestText): Fields {
    Fields(Completed, VerbOf(t.verb), t.uri, Number(t.major), Number(t.minor), HeadersOf(t.headers))
  }

  // ----- Every text is read

  lemma {:induction false} FeedMethod(m: Machine, s: Chars)
    requires m.status.More? && m.req.state.Method? && forall i :: 0 <= i < |s| ==> IsTokenChar(s[i])
    ensures Feed(m, s) == m.(buffer := m.buffer + s)
    decreases |s|
  {
    hide IsTokenChar;
    if |s| == 0 {
      assert m.buffer + s == m.buffer;
    } else {
      TokenCharsAreNot(s[0]);
      FeedMethod(m.(buffer := m.buffer + [s[0]]), s[1..]);
      assert m.buffer + [s[0]] + s[1..] == m.buffer + s;
    }
  }

  lemma TokenCharsAreNot(c: schar)
    ensures IsTokenChar(c) ==> c != SPACE && c != COLON && c != CR && c != TAB && !IsCtrl(c) && !IsWhite(c)
    ensures !IsCtrl(c) ==> c != CR && c != LF && c != TAB
    ensures IsDigit(c) ==> c != DOT && c != CR
    ensures IsWhite(c) ==> c != CR && !IsTokenChar(c)
  {
  }

  lemma {:induction false} FeedUri(m: Machine, s: Chars)
    requires m.status.More? && m.req.state.Uri? && CleanUri(s)
    ensures Feed(m, s) == m.(req := m.req.(uri := m.req.uri + s))
    decreases |s|
  {
    hide IsCtrl;
    if |s| == 0 {
      assert m.req.uri + s == m.req.uri;
    } else {
      FeedUri(m.(req := m.req.(uri := m.req.uri + [s[0]])), s[1..]);
      assert m.req.uri + [s[0]] + s[1..] == m.req.uri + s;
    }
  }

  lemma FeedHttp(m: Machine)
    requires m.status.More? && m.req.state.VersionH?
    ensures Feed(m, HTTP_) == m.(req := m.req.(state := VersionMajorStart, major := 0, minor := 0))
  {
    hide Feed;
    var m1, m2, m3, m4 := Go(m, VersionT1), Go(m, VersionT2), Go(m, VersionP), Go(m, VersionSlash);
    FeedNext(m, HTTP_);
    FeedNext(m1, HTTP_[1..]);
    FeedNext(m2, HTTP_[2..]);
    FeedNext(m3, HTTP_[3..]);
    FeedNext(m4, HTTP_[4..]);
    assert HTTP_[1..][1..] == HTTP_[2..] && HTTP_[2..][1..] == HTTP_[3..] && HTTP_[3..][1..] == HTTP_[4..];
    assert HTTP_[4..][1..] == [];
    FeedNothing(m.(req := m.req.(state := VersionMajorStart, major := 0, minor := 0)));
  }

  lemma FeedNext(m: Machine, s: Chars)
    requires HasBack(m.req) && m.status.More? && |s| > 0
    ensures Feed(m, s) == Feed(Step(m, s[0]), s[1..])
  {
  }

  lemma FeedNothing(m: Machine)
    requires HasBack(m.req)
    ensures Feed(m, []) == m
  {
  }

  lemma {:induction false} FeedMajor(m: Machine, s: Chars)
    requires m.status.More? && m.req.state.VersionMajorStart? && m.req.major == 0 && Digits(s)
    ensures Feed(m, s) == m.(req := m.req.(state := VersionMajor, major := Number(s)))
    decreases |s|
  {
    hide Feed, IsDigit;
    var init, c := s[..|s| - 1], s[|s| - 1];
    assert s == init + [c];
    TokenCharsAreNot(c);
    FeedInChunks(m, init, [c]);
    FeedNothing(m);
    if |init| > 0 {
      FeedMajor(m, init);
    } else {
      assert init == [];
    }
    FeedOne(Feed(m, init), c);
  }

  lemma {:induction false} FeedMinor(m: Machine, s: Chars)
    requires m.status.More? && m.req.state.VersionMinorStart? && m.req.minor == 0 && Digits(s)
    ensures Feed(m, s) == m.(req := m.req.(state := VersionMinor, minor := Number(s)))
    decreases |s|
  {
    hide Feed, IsDigit;
    var init, c := s[..|s| - 1], s[|s| - 1];
    assert s == init + [c];
    TokenCharsAreNot(c);
    FeedInChunks(m, init, [c]);
    FeedNothing(m);
    if |init| > 0 {
      FeedMinor(m, init);
    } else {
      assert init == [];
    }
    FeedOne(Feed(m, init), c);
  }

  lemma FeedThen(m: Machine, a: Chars, c: schar)
    requires HasBack(m.req) && Feed(m, a).status.More?
    ensures Feed(m, a + [c]) == Step(Feed(m, a), c)
  {
    hide Feed, Step;
    FeedInChunks(m, a, [c]);
    FeedOne(Feed(m, a), c);
  }

  /** The machine after the request line, whatever it was before. */
  function AfterLine(t: RequestText): Fields {
    Fields(HeaderLineStart, VerbOf(t.verb), t.uri, Number(t.major), Number(t.minor), [])
  }

  lemma FeedRequestLine(m: Machine, t: RequestText)
    requires IsFresh(m) && WellFormed(t)
    ensures Feed(m, RequestLine(t)) == Machine(AfterLine(t), t.verb, More)
  {
    hide Feed, IsTokenChar, IsCtrl, IsDigit, VerbOf, Number, NoControls;
    var a := FeedMethodAndUri(m, t);
    var text := t.verb + [SPACE] + t.uri + [SPACE];
    FeedInChunks(m, text, HTTP_);
    FeedHttp(a);
    var m5 := a.(req := a.req.(state := VersionMajorStart, major := 0, minor := 0));
    FeedInChunks(m, text + HTTP_, t.major);
    FeedMajor(m5, t.major);
    FeedThen(m, text + HTTP_ + t.major, DOT);
    var m7 := m5.(req := m5.req.(state := VersionMinorStart, major := Number(t.major)));
    FeedInChunks(m, text + HTTP_ + t.major + [DOT], t.minor);
    FeedMinor(m7, t.minor);
    FeedThen(m, text + HTTP_ + t.major + [DOT] + t.minor, CR);
    FeedThen(m, text + HTTP_ + t.major + [DOT] + t.minor + [CR], LF);
    assert RequestLine(t) == text + HTTP_ + t.major + [DOT] + t.minor + [CR] + [LF];
  }

  lemma FeedMethodAndUri(m: Machine, t: RequestText) returns (r: Machine)
    requires IsFresh(m) && WellFormed(t)
    ensures r == Feed(m, t.verb + [SPACE] + t.uri + [SPACE])
    ensures r == m.(req := m.req.(state := VersionH, verb := VerbOf(t.verb), uri := t.uri), buffer := t.verb)
  {
    hide Feed, IsTokenChar, IsCtrl, VerbOf;
    r := Feed(m, t.verb + [SPACE] + t.uri + [SPACE]);
    FeedNext(m, t.verb);
    var m1 := m.(req := m.req.(state := Method), buffer := t.verb[..1]);
    FeedMethod(m1, t.verb[1..]);
    assert t.verb[..1] + t.verb[1..] == t.verb && t.verb[..1] == [t.verb[0]];
    FeedThen(m, t.verb, SPACE);
    var m2 := m.(req := m.req.(state := Uri, verb := VerbOf(t.verb)), buffer := t.verb);
    FeedInChunks(m, t.verb + [SPACE], t.uri);
    FeedUri(m2, t.uri);
    assert [] + t.uri == t.uri;
    FeedThen(m, t.verb + [SPACE] + t.uri, SPACE);
  }

  function With(m: Machine, s: State, hs: seq<Header>): Machine {
    m.(req := m.req.(state := s, headers := hs))
  }

  lemma {:induction false} FeedName(m: Machine, hs: seq<Header>, h: Header, s: Chars)
    requires m.status.More? && m.req.state.HeaderName? && m.req.headers == hs + [h]
    requires forall i :: 0 <= i < |s| ==> IsTokenChar(s[i])
    ensures Feed(m, s) == With(m, HeaderName, hs + [h.(name := h.name + s)])
    decreases |s|
  {
    hide IsTokenChar;
    if |s| == 0 {
      assert h.name + s == h.name;
    } else {
      TokenCharsAreNot(s[0]);
      assert (hs + [h])[..|hs|] == hs;
      var next := h.(name := h.name + [s[0]]);
      FeedName(With(m, HeaderName, hs + [next]), hs, next, s[1..]);
      assert h.name + [s[0]] + s[1..] == h.name + s;
    }
  }

  lemma {:induction false} FeedValue(m: Machine, hs: seq<Header>, h: Header, s: Chars)
    requires m.status.More? && m.req.state.HeaderValue? && m.req.headers == hs + [h] && NoControls(s)
    ensures Feed(m, s) == With(m, HeaderValue, hs + [h.(value := h.value + s)])
    decreases |s|
  {
    hide IsCtrl;
    if |s| == 0 {
      assert h.value + s == h.value;
    } else {
      TokenCharsAreNot(s[0]);
      assert (hs + [h])[..|hs|] == hs;
      var next := h.(value := h.value + [s[0]]);
      FeedValue(With(m, HeaderValue, hs + [next]), hs, next, s[1..]);
      assert h.value + [s[0]] + s[1..] == h.value + s;
    }
  }

  lemma {:induction false} FeedLws(m: Machine, s: Chars)
    requires m.status.More? && m.req.state.HeaderLws? && m.req.headers != []
    requires forall i :: 0 <= i < |s| ==> IsWhite(s[i])
    ensures Feed(m, s) == m
    decreases |s|
  {
    hide IsWhite;
    if |s| > 0 {
      TokenCharsAreNot(s[0]);
      FeedLws(m, s[1..]);
    }
  }

  /** The states a header field ends in: behind its value, or behind white space nothing follows. */
  predicate AtFieldEnd(m: Machine, hs: seq<Header>, h: Header) {
    && m.status.More? && (m.req.state.HeaderValue? || m.req.state.HeaderLws?) && m.req.headers == hs + [h]
  }

  lemma FeedFold(m: Machine, hs: seq<Header>, h: Header, f: Fold) returns (r: Machine)
    requires AtFieldEnd(m, hs, h) && WellFormedFold(f)
    ensures r == Feed(m, CRLF + f.lws + f.text)
    ensures AtFieldEnd(r, hs, h.(value := h.value + f.text))
    ensures r == With(m, r.req.state, r.req.headers)
  {
    hide Feed, IsCtrl, IsWhite, IsTokenChar;
    FeedLineEnd(m, hs, h);
    var m2 := With(m, HeaderLineStart, hs + [h]);
    TokenCharsAreNot(f.lws[0]);
    FeedNext(m2, f.lws);
    var m3 := With(m, HeaderLws, hs + [h]);
    FeedLws(m3, f.lws[1..]);
    FeedInChunks(m, CRLF, f.lws);
    FeedInChunks(m, CRLF + f.lws, f.text);
    if f.text == [] {
      FeedNothing(m3);
      assert h.value + f.text == h.value;
    } else {
      FeedAfterLws(m3, hs, h, f.text);
    }
    r := Feed(m, CRLF + f.lws + f.text);
  }

  lemma FeedLineEnd(m: Machine, hs: seq<Header>, h: Header)
    requires AtFieldEnd(m, hs, h)
    ensures Feed(m, CRLF) == With(m, HeaderLineStart, hs + [h])
  {
    hide Feed;
    FeedNext(m, CRLF);
    assert CRLF[1..] == [LF];
    FeedOne(With(m, Newline2, hs + [h]), LF);
  }

  lemma FeedAfterLws(m: Machine, hs: seq<Header>, h: Header, s: Chars)
    requires m.status.More? && m.req.state.HeaderLws? && m.req.headers == hs + [h]
    requires s != [] && NoControls(s) && s[0] != SPACE
    ensures Feed(m, s) == With(m, HeaderValue, hs + [h.(value := h.value + s)])
  {
    hide Feed, IsCtrl;
    TokenCharsAreNot(s[0]);
    FeedNext(m, s);
    assert (hs + [h])[..|hs|] == hs;
    var next := h.(value := h.value + [s[0]]);
    FeedValue(With(m, HeaderValue, hs + [next]), hs, next, s[1..]);
    assert h.value + [s[0]] + s[1..] == h.value + s;
  }

  lemma {:induction false} FeedFolds(m: Machine, hs: seq<Header>, h: Header, fs: seq<Fold>) returns (r: Machine)
    requires AtFieldEnd(m, hs, h) && forall i :: 0 <= i < |fs| ==> WellFormedFold(fs[i])
    ensures r == Feed(m, UnparseFolds(fs))
    ensures AtFieldEnd(r, hs, h.(value := Folded(h.value, fs)))
    ensures r == With(m, r.req.state, r.req.headers)
    decreases |fs|
  {
    hide Feed, WellFormedFold;
    if |fs| == 0 {
      FeedNothing(m);
      r := m;
    } else {
      var f := fs[|fs| - 1];
      var a := UnparseFolds(fs[..|fs| - 1]);
      r := FeedFolds(m, hs, h, fs[..|fs| - 1]);
      FeedInChunks(m, a, CRLF + f.lws + f.text);
      assert a + (CRLF + f.lws + f.text) == UnparseFolds(fs);
      r := FeedFold(r, hs, h.(value := Folded(h.value, fs[..|fs| - 1])), f);
    }
  }

  lemma FeedUnclosed(m: Machine, hs: seq<Header>, h: HeaderText) returns (r: Machine)
    requires m.status.More? && m.req.state.HeaderLineStart? && m.req.headers == hs && WellFormedHeader(h)
    ensures r == Feed(m, Unclosed(h))
    ensures AtFieldEnd(r, hs, HeaderOf(h))
    ensures r == With(m, r.req.state, r.req.headers)
  {
    hide Feed, IsTokenChar, IsCtrl, WellFormedFold, UnparseFolds, Folded;
    var first := Header(h.name[..1], []);
    TokenCharsAreNot(h.name[0]);
    FeedNext(m, h.name);
    assert h.name[..1] == [h.name[0]] && h.name[..1] + h.name[1..] == h.name;
    FeedName(With(m, HeaderName, hs + [first]), hs, first, h.name[1..]);
    FeedThen(m, h.name, COLON);
    FeedThen(m, h.name + [COLON], SPACE);
    var named := Header(h.name, []);
    assert h.name + [COLON] + [SPACE] == h.name + [COLON, SPACE];
    FeedInChunks(m, h.name + [COLON, SPACE], h.value);
    FeedValue(With(m, HeaderValue, hs + [named]), hs, named, h.value);
    assert [] + h.value == h.value;
    FeedInChunks(m, h.name + [COLON, SPACE] + h.value, UnparseFolds(h.folds));
    r := FeedFolds(With(m, HeaderValue, hs + [Header(h.name, h.value)]), hs, Header(h.name, h.value), h.folds);
  }

  lemma {:induction false} FeedHeaders(m: Machine, hs: seq<HeaderText>)
    requires m.status.More? && m.req.state.HeaderLineStart? && m.req.headers == [] && WellFormedHeaders(hs)
    ensures Feed(m, UnparseHeaders(hs)) == With(m, HeaderLineStart, HeadersOf(hs))
    decreases |hs|
  {
    hide Feed, WellFormedHeader, Unclosed, HeaderOf;
    if |hs| == 0 {
      FeedNothing(m);
    } else {
      var init, h := hs[..|hs| - 1], hs[|hs| - 1];
      FeedHeaders(m, init);
      var m1 := With(m, HeaderLineStart, HeadersOf(init));
      FeedInChunks(m, UnparseHeaders(init), Unclosed(h));
      var m2 := FeedUnclosed(m1, HeadersOf(init), h);
      FeedInChunks(m, UnparseHeaders(init) + Unclosed(h), CRLF);
      FeedLineEnd(m2, HeadersOf(init), HeaderOf(h));
    }
  }

  /** A text of the grammar, without its last character, leaves the machine wanting more; with it, the
      request is complete and holds what the text says. */
  lemma UnparseIsRead(m: Machine, t: RequestText)
    requires IsFresh(m) && WellFormed(t)
    ensures |Unparse(t)| > 0 && Feed(m, Unparse(t)[..|Unparse(t)| - 1]).status.More?
    ensures Feed(m, Unparse(t)) == Machine(Meaning(t), t.verb, Done)
  {
    hide Feed, WellFormed, RequestLine, UnparseHeaders, VerbOf, Number, HeadersOf;
    var line := RequestLine(t);
    FeedRequestLine(m, t);
    FeedInChunks(m, line, UnparseHeaders(t.headers));
    var m1 := Machine(AfterLine(t), t.verb, More);
    WellFormedParts(t);
    FeedHeaders(m1, t.headers);
    var text := line + UnparseHeaders(t.headers);
    FeedThen(m, text, CR);
    FeedThen(m, text + [CR], LF);
    assert text + [CR] + [LF] == Unparse(t);
    assert Unparse(t)[..|Unparse(t)| - 1] == text + [CR];
  }

  lemma WellFormedParts(t: RequestText)
    requires WellFormed(t)
    ensures WellFormedHeaders(t.headers)
  {
  }

  // ----- A request of the grammar

  /** A request with a folded header, as it is sent and as it is read. */
  const EXAMPLE := RequestText(GET, [47, 97], [49], [49, 48], [HeaderText([72], [120], [Fold([32, 9], [121])])])

  lemma ExampleIsRead(m: Machine)
    requires IsFresh(m)
    ensures var r := Feed(m, Codes("GET /a HTTP/1.10\r\nH: x\r\n \ty\r\n\r\n"));
            r.status.Done? && r.req == Fields(Completed, Get, Codes("/a"), 1, 10, [Header(Codes("H"), Codes("xy"))])
  {
    hide Feed, IsTokenChar, VerbOf;
    var t, h, f := EXAMPLE, EXAMPLE.headers[0], EXAMPLE.headers[0].folds[0];
    ExampleIsWellFormed();
    ExampleIsSpelled();
    ExampleMeans();
    UnparseIsRead(m, t);
  }

  lemma ExampleIsWellFormed()
    ensures WellFormed(EXAMPLE)
  {
    TokenCharsAre(71);
    TokenCharsAre(69);
    TokenCharsAre(84);
    TokenCharsAre(72);
  }

  lemma ExampleIsSpelled()
    ensures Unparse(EXAMPLE) == Codes("GET /a HTTP/1.10\r\nH: x\r\n \ty\r\n\r\n")
  {
    hide RequestLine, UnparseHeaders;
    LineIsSpelled();
    HeaderIsSpelled();
    assert Codes("GET /a HTTP/1.10\r\n") + Codes("H: x\r\n \ty\r\n") + CRLF
        == Codes("GET /a HTTP/1.10\r\nH: x\r\n \ty\r\n\r\n");
  }

  lemma LineIsSpelled()
    ensures RequestLine(EXAMPLE) == Codes("GET /a HTTP/1.10\r\n")
  {
  }

  lemma HeaderIsSpelled()
    ensures UnparseHeaders(EXAMPLE.headers) == Codes("H: x\r\n \ty\r\n")
  {
    var t, h := EXAMPLE, EXAMPLE.headers[0];
    assert UnparseFolds(h.folds) == UnparseFolds([]) + CRLF + h.folds[0].lws + h.folds[0].text;
    assert UnparseHeaders(t.headers) == UnparseHeaders([]) + Unclosed(h) + CRLF;
  }

  lemma ExampleMeans()
    ensures Meaning(EXAMPLE) == Fields(Completed, Get, Codes("/a"), 1, 10, [Header(Codes("H"), Codes("xy"))])
  {
    var t, h := EXAMPLE, EXAMPLE.headers[0];
    hide VerbOf;
    VerbIffName(GET, Get);
    assert h.folds[..0] == [] && t.headers[..0] == [] && [49][..0] == [];
    assert h.name == Codes("H") && h.value == [120] && h.folds[0].text == [121];
    assert Folded(h.value, h.folds) == Folded(h.value, []) + h.folds[0].text;
    assert [120] + [121] == Codes("xy");
    assert HeadersOf(t.headers) == HeadersOf([]) + [HeaderOf(h)] == [Header(Codes("H"), Codes("xy"))];
    assert Number([49]) == Number([]) * 10 + 1;
    assert Number([49, 48]) == Number([49, 48][..1]) * 10 + 0 && [49, 48][..1] == [49];
    assert t.uri == Codes("/a");
  }
}
