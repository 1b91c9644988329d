/** Whatever the request machine accepts is a text of the grammar: an invariant that follows, character by
    character, the part of the text already read. */
module RequestSoundness {
  import opened Text
  import opened Request
  import opened RequestGrammar

  const NO_HEADER := HeaderText([], [], [])

  /** What has been read up to a state inside the request line. */
  function LineSoFar(s: State, t: RequestText): Chars {
    var start := t.verb + [SPACE] + t.uri + [SPACE];
    match s
    case MethodStart => []
    case Method => t.verb
    case Uri => t.verb + [SPACE] + t.uri
    case VersionH => start
    case VersionT1 => start + HTTP_[..1]
    case VersionT2 => start + HTTP_[..2]
    case VersionP => start + HTTP_[..3]
    case VersionSlash => start + HTTP_[..4]
    case VersionMajorStart => start + HTTP_
    case VersionMajor => start + HTTP_ + t.major
    case VersionMinorStart => start + HTTP_ + t.major + [DOT]
    case VersionMinor => start + HTTP_ + t.major + [DOT] + t.minor
    case Newline1 => start + HTTP_ + t.major + [DOT] + t.minor + [CR]
    case _ => []
  }

  function Rank(s: State): nat {
    match s
    case MethodStart => 0
    case Method => 1
    case Uri => 2
    case VersionH => 3
    case VersionT1 => 4
    case VersionT2 => 5
    case VersionP => 6
    case VersionSlash => 7
    case VersionMajorStart => 8
    case VersionMajor => 9
    case VersionMinorStart => 10
    case VersionMinor => 11
    case Newline1 => 12
    case _ => 13
  }

  /** The parts of the request line already read are well formed and stored. */
  predicate LineStored(r: Fields, buffer: Chars, t: RequestText) {
    var k := Rank(r.state);
    && (k >= 1 ==> Token(t.verb)) && (k == 1 ==> buffer == t.verb) && (k >= 2 ==> r.verb == VerbOf(t.verb))
    && r.uri == t.uri && CleanUri(t.uri) && (k < 2 ==> t.uri == [])
    && (k == 8 ==> r.major == 0) && (8 <= k <= 10 ==> r.minor == 0)
    && (k >= 9 ==> Digits(t.major) && r.major == Number(t.major))
    && (k >= 11 ==> Digits(t.minor) && r.minor == Number(t.minor))
  }

  predicate InLine(m: Machine, text: Chars, t: RequestText) {
    && m.status.More? && Rank(m.req.state) <= 12
    && LineStored(m.req, m.buffer, t) && t.headers == [] && m.req.headers == []
    && text == LineSoFar(m.req.state, t)
  }

  lemma Appending(s: Chars, c: schar)
    ensures Number(s + [c]) == Number(s) * 10 + c - '0' as int
    ensures (s == [] || Digits(s)) && IsDigit(c) ==> Digits(s + [c])
    ensures (s == [] || Token(s)) && IsTokenChar(c) ==> Token(s + [c])
    ensures (s == [] || White(s)) && IsWhite(c) ==> White(s + [c])
    ensures NoControls(s) && !IsCtrl(c) ==> NoControls(s + [c])
    ensures CleanUri(s) && !IsCtrl(c) && c != SPACE ==> CleanUri(s + [c])
  {
    hide IsTokenChar, IsDigit, IsCtrl, IsWhite;
    assert (s + [c])[..|s|] == s;
  }

  lemma InMethod(m: Machine, text: Chars, t: RequestText, c: schar) returns (u: RequestText)
    requires InLine(m, text, t) && Rank(m.req.state) <= 1 && !Step(m, c).status.Bad?
    ensures InLine(Step(m, c), text + [c], u)
  {
    hide IsTokenChar, IsCtrl, IsDigit, VerbOf, Number, Digits, CleanUri;
    Appending(t.verb, c);
    if m.req.state.MethodStart? {
      Appending([], c);
      assert [] + [c] == [c];
      u := t.(verb := [c]);
    } else if c == SPACE {
      assert t.verb + [SPACE] + [] == t.verb + [SPACE];
      u := t;
    } else {
      u := t.(verb := t.verb + [c]);
    }
  }

  lemma InUri(m: Machine, text: Chars, t: RequestText, c: schar) returns (u: RequestText)
    requires InLine(m, text, t) && m.req.state.Uri? && !Step(m, c).status.Bad?
    ensures InLine(Step(m, c), text + [c], u)
  {
    hide IsTokenChar, IsCtrl, IsDigit, VerbOf, Number, Digits, CleanUri, Token;
    Appending(t.uri, c);
    if c == SPACE {
      u := t;
    } else {
      u := t.(uri := t.uri + [c]);
      assert t.verb + [SPACE] + u.uri == t.verb + [SPACE] + t.uri + [c];
    }
  }

  lemma InHttp(m: Machine, text: Chars, t: RequestText, c: schar)
    requires InLine(m, text, t) && 3 <= Rank(m.req.state) <= 7 && !Step(m, c).status.Bad?
    ensures InLine(Step(m, c), text + [c], t)
  {
    hide IsTokenChar, IsCtrl, IsDigit, VerbOf, Number, Digits, CleanUri, Token;
    var k := Rank(m.req.state) - 3;
    var start := t.verb + [SPACE] + t.uri + [SPACE];
    assert text == start + HTTP_[..k];
    assert c == HTTP_[k];
    assert HTTP_[..k] + [c] == HTTP_[..k + 1];
    assert start + HTTP_[..k] + [c] == start + HTTP_[..k + 1];
    assert HTTP_[..5] == HTTP_;
  }

  lemma InMajor(m: Machine, text: Chars, t: RequestText, c: schar) returns (u: RequestText)
    requires InLine(m, text, t) && 8 <= Rank(m.req.state) <= 9 && !Step(m, c).status.Bad?
    ensures InLine(Step(m, c), text + [c], u)
  {
    hide IsTokenChar, IsCtrl, IsDigit, VerbOf, Number, Digits, CleanUri, Token;
    var start := t.verb + [SPACE] + t.uri + [SPACE] + HTTP_;
    if m.req.state.VersionMajorStart? {
      Appending([], c);
      assert [] + [c] == [c];
      NumberOfNothing();
      u := t.(major := [c]);
    } else if c == DOT {
      u := t;
    } else {
      Appending(t.major, c);
      u := t.(major := t.major + [c]);
      assert start + u.major == start + t.major + [c];
    }
  }

  lemma NumberOfNothing()
    ensures Number([]) == 0
  {
  }

  lemma InMinor(m: Machine, text: Chars, t: RequestText, c: schar) returns (u: RequestText)
    requires InLine(m, text, t) && 10 <= Rank(m.req.state) <= 11 && !Step(m, c).status.Bad?
    ensures InLine(Step(m, c), text + [c], u)
  {
    hide IsTokenChar, IsCtrl, IsDigit, VerbOf, Number, Digits, CleanUri, Token;
    var start := t.verb + [SPACE] + t.uri + [SPACE] + HTTP_ + t.major + [DOT];
    if m.req.state.VersionMinorStart? {
      Appending([], c);
      assert [] + [c] == [c];
      NumberOfNothing();
      u := t.(minor := [c]);
    } else if c == CR {
      u := t;
    } else {
      Appending(t.minor, c);
      u := t.(minor := t.minor + [c]);
      assert start + u.minor == start + t.minor + [c];
    }
  }

  // ----- Headers

  /** The request line is complete and stored, and so are the closed headers. */
  predicate LineDone(r: Fields, t: RequestText) {
    && WellFormed(t) && r.verb == VerbOf(t.verb) && r.uri == t.uri
    && r.major == Number(t.major) && r.minor == Number(t.minor)
  }

  function Before(t: RequestText): Chars {
    RequestLine(t) + UnparseHeaders(t.headers)
  }

  predicate LastFoldIs(h: HeaderText, empty: bool) {
    h.folds != [] && (h.folds[|h.folds| - 1].text == [] <==> empty)
  }

  /** `open` is the header being read, in the states that have one. */
  predicate InHeaders(m: Machine, text: Chars, t: RequestText, open: HeaderText) {
    var r := m.req;
    && LineDone(r, t)
    && match r.state
       case HeaderLineStart => m.status.More? && text == Before(t) && r.headers == HeadersOf(t.headers)
       case HeaderName => m.status.More? && Token(open.name) && open == HeaderText(open.name, [], [])
                          && text == Before(t) + open.name
                          && r.headers == HeadersOf(t.headers) + [Header(open.name, [])]
       case SpaceBeforeHeaderValue => m.status.More? && Token(open.name) && open == HeaderText(open.name, [], [])
                                      && text == Before(t) + open.name + [COLON]
                                      && r.headers == HeadersOf(t.headers) + [Header(open.name, [])]
       case HeaderValue => m.status.More? && WellFormedHeader(open) && (open.folds == [] || LastFoldIs(open, false))
                           && text == Before(t) + Unclosed(open)
                           && r.headers == HeadersOf(t.headers) + [HeaderOf(open)]
       case HeaderLws => m.status.More? && WellFormedHeader(open) && LastFoldIs(open, true)
                         && text == Before(t) + Unclosed(open)
                         && r.headers == HeadersOf(t.headers) + [HeaderOf(open)]
       case Newline2 => m.status.More? && WellFormedHeader(open)
                        && text == Before(t) + Unclosed(open) + [CR]
                        && r.headers == HeadersOf(t.headers) + [HeaderOf(open)]
       case Newline3 => m.status.More? && text == Before(t) + [CR] && r.headers == HeadersOf(t.headers)
       case Completed => m.status.Done? && text == Unparse(t) && r.headers == HeadersOf(t.headers)
       case _ => false
  }

  lemma AtNewline1(m: Machine, text: Chars, t: RequestText, c: schar)
    requires InLine(m, text, t) && m.req.state.Newline1? && !Step(m, c).status.Bad?
    ensures InHeaders(Step(m, c), text + [c], t, NO_HEADER)
  {
    hide VerbOf, Number, Digits, CleanUri, Token;
    assert [CR] + [LF] == CRLF;
    assert text + [c] == RequestLine(t) + [];
  }

  lemma CloseHeader(t: RequestText, open: HeaderText)
    requires WellFormed(t) && WellFormedHeader(open)
    ensures var u := t.(headers := t.headers + [open]);
            && WellFormed(u) && Before(u) == Before(t) + Unclosed(open) + CRLF
            && HeadersOf(u.headers) == HeadersOf(t.headers) + [HeaderOf(open)]
  {
    hide VerbOf, Number, Digits, CleanUri, Token, WellFormedHeader, Unclosed, HeaderOf;
    var u := t.(headers := t.headers + [open]);
    assert u.headers[..|t.headers|] == t.headers;
    assert RequestLine(u) == RequestLine(t);
    SeqAssociative(RequestLine(t), UnparseHeaders(t.headers), Unclosed(open), CRLF);
  }

  lemma SeqAssociative(a: Chars, b: Chars, c: Chars, d: Chars)
    ensures a + (b + c + d) == a + b + c + d
  {
  }

  /** The last header is opened again by white space at the beginning of a line. */
  lemma OpenAgain(t: RequestText, c: schar) returns (u: RequestText, open: HeaderText)
    requires WellFormed(t) && t.headers != [] && IsWhite(c)
    ensures WellFormed(u) && u == t.(headers := t.headers[..|t.headers| - 1])
    ensures WellFormedHeader(open) && LastFoldIs(open, true)
    ensures Before(u) + Unclosed(open) == Before(t) + [c]
    ensures HeadersOf(u.headers) + [HeaderOf(open)] == HeadersOf(t.headers)
  {
    hide VerbOf, Number, Digits, CleanUri, Token;
    var n := |t.headers| - 1;
    var last := t.headers[n];
    u := t.(headers := t.headers[..n]);
    open := last.(folds := last.folds + [Fold([c], [])]);
    AddFold(last, Fold([c], []));
    assert RequestLine(u) == RequestLine(t);
    assert WellFormedHeader(last);
    assert HeaderOf(last).value + [] == HeaderOf(last).value;
    calc {
      Before(u) + Unclosed(open);
      RequestLine(t) + UnparseHeaders(u.headers) + (Unclosed(last) + CRLF + [c] + []);
      RequestLine(t) + (UnparseHeaders(u.headers) + Unclosed(last) + CRLF) + [c];
    }
  }

  lemma AddFold(h: HeaderText, f: Fold)
    requires WellFormedHeader(h) && WellFormedFold(f)
    ensures var g := h.(folds := h.folds + [f]);
            && WellFormedHeader(g) && Unclosed(g) == Unclosed(h) + CRLF + f.lws + f.text
            && HeaderOf(g) == Header(h.name, HeaderOf(h).value + f.text)
  {
    hide WellFormedFold, Token, NoControls;
    var g := h.(folds := h.folds + [f]);
    assert g.folds[..|h.folds|] == h.folds;
    var front := h.name + [COLON, SPACE] + h.value;
    assert front + (UnparseFolds(h.folds) + CRLF + f.lws + f.text)
        == front + UnparseFolds(h.folds) + CRLF + f.lws + f.text;
  }

  /** The last fold gives way to another one. */
  lemma ReplaceLastFold(h: HeaderText, f1: Fold) returns (g: HeaderText, front: Chars, value: Chars)
    requires WellFormedHeader(h) && h.folds != [] && WellFormedFold(f1)
    ensures var f := h.folds[|h.folds| - 1];
            && Unclosed(h) == front + f.lws + f.text && HeaderOf(h) == Header(h.name, value + f.text)
    ensures WellFormedHeader(g) && g.folds != [] && g.folds[|g.folds| - 1] == f1
    ensures Unclosed(g) == front + f1.lws + f1.text && HeaderOf(g) == Header(h.name, value + f1.text)
  {
    hide Unclosed, HeaderOf, Token, NoControls, WellFormedFold;
    var n := |h.folds| - 1;
    var base, f := h.(folds := h.folds[..n]), h.folds[n];
    assert base.folds + [f] == h.folds;
    AddFold(base, f);
    AddFold(base, f1);
    g := h.(folds := base.folds + [f1]);
    front, value := Unclosed(base) + CRLF, HeaderOf(base).value;
  }

  lemma WhiteLoop(h: HeaderText, c: schar) returns (g: HeaderText)
    requires WellFormedHeader(h) && LastFoldIs(h, true) && IsWhite(c)
    ensures WellFormedHeader(g) && LastFoldIs(g, true) && HeaderOf(g) == HeaderOf(h)
    ensures Unclosed(g) == Unclosed(h) + [c]
  {
    hide Unclosed, HeaderOf, Token, NoControls, IsWhite;
    var f := h.folds[|h.folds| - 1];
    Appending(f.lws, c);
    var front, value;
    g, front, value := ReplaceLastFold(h, Fold(f.lws + [c], f.text));
    assert front + (f.lws + [c]) + [] == front + f.lws + [] + [c];
  }

  lemma UnfoldedHeader(h: HeaderText)
    requires h.folds == []
    ensures Unclosed(h) == h.name + [COLON, SPACE] + h.value && HeaderOf(h) == Header(h.name, h.value)
  {
    assert Unclosed(h) == h.name + [COLON, SPACE] + h.value + [];
  }

  /** A character of the value, behind the folds read so far. */
  lemma ValueLoop(h: HeaderText, c: schar) returns (g: HeaderText)
    requires WellFormedHeader(h) && !IsCtrl(c)
    requires h.folds == [] || LastFoldIs(h, false) || (LastFoldIs(h, true) && c != SPACE)
    ensures WellFormedHeader(g) && (g.folds == [] || LastFoldIs(g, false))
    ensures HeaderOf(g) == Header(h.name, HeaderOf(h).value + [c])
    ensures Unclosed(g) == Unclosed(h) + [c]
  {
    hide Token, NoControls, IsWhite, IsCtrl, Unclosed, HeaderOf;
    if h.folds == [] {
      Appending(h.value, c);
      g := h.(value := h.value + [c]);
      UnfoldedHeader(h);
      UnfoldedHeader(g);
      assert h.name + [COLON, SPACE] + g.value == h.name + [COLON, SPACE] + h.value + [c];
    } else {
      var f := h.folds[|h.folds| - 1];
      Appending(f.text, c);
      var front, value;
      g, front, value := ReplaceLastFold(h, Fold(f.lws, f.text + [c]));
      assert front + f.lws + (f.text + [c]) == front + f.lws + f.text + [c];
      assert value + (f.text + [c]) == value + f.text + [c];
    }
  }

  lemma AtLineStart(m: Machine, text: Chars, t: RequestText, open: HeaderText, c: schar)
    returns (u: RequestText, next: HeaderText)
    requires InHeaders(m, text, t, open) && m.req.state.HeaderLineStart? && !Step(m, c).status.Bad?
    ensures InHeaders(Step(m, c), text + [c], u, next)
  {
    hide IsTokenChar, IsCtrl, VerbOf, Number, WellFormed, Before, HeadersOf, WellFormedHeader, Unclosed, HeaderOf;
    TokenCharsAreNot(c);
    u, next := t, NO_HEADER;
    if c == CR {
    } else if m.req.headers != [] && IsWhite(c) {
      NoHeaders(t);
      u, next := OpenAgain(t, c);
    } else {
      Appending([], c);
      assert [] + [c] == [c];
      next := HeaderText([c], [], []);
    }
  }

  lemma NoHeaders(t: RequestText)
    ensures HeadersOf(t.headers) != [] ==> t.headers != []
  {
  }

  lemma InName(m: Machine, text: Chars, t: RequestText, open: HeaderText, c: schar) returns (next: HeaderText)
    requires InHeaders(m, text, t, open) && !Step(m, c).status.Bad?
    requires m.req.state.HeaderName? || m.req.state.SpaceBeforeHeaderValue?
    ensures InHeaders(Step(m, c), text + [c], t, next)
  {
    hide IsTokenChar, IsCtrl, VerbOf, Number, WellFormed, Before, HeadersOf;
    TokenCharsAreNot(c);
    next := open;
    var hs := HeadersOf(t.headers);
    assert (hs + [Header(open.name, [])])[..|hs|] == hs;
    if m.req.state.SpaceBeforeHeaderValue? {
      assert open.name + [COLON, SPACE] + [] + [] == open.name + [COLON] + [SPACE];
    } else if c != COLON {
      Appending(open.name, c);
      next := open.(name := open.name + [c]);
      assert Before(t) + next.name == Before(t) + open.name + [c];
    }
  }

  lemma InValue(m: Machine, text: Chars, t: RequestText, open: HeaderText, c: schar) returns (next: HeaderText)
    requires InHeaders(m, text, t, open) && !Step(m, c).status.Bad?
    requires m.req.state.HeaderValue? || m.req.state.HeaderLws?
    ensures InHeaders(Step(m, c), text + [c], t, next)
  {
    hide IsTokenChar, IsCtrl, VerbOf, Number, WellFormed, Before, HeadersOf, WellFormedHeader, Unclosed, HeaderOf;
    next := open;
    var hs := HeadersOf(t.headers);
    assert (hs + [HeaderOf(open)])[..|hs|] == hs;
    if c == CR {
    } else if m.req.state.HeaderLws? && IsWhite(c) {
      next := WhiteLoop(open, c);
    } else {
      next := ValueLoop(open, c);
      HeaderOfName(open);
    }
  }

  lemma HeaderOfName(h: HeaderText)
    ensures HeaderOf(h).name == h.name
  {
  }

  lemma AtNewline(m: Machine, text: Chars, t: RequestText, open: HeaderText, c: schar) returns (u: RequestText)
    requires InHeaders(m, text, t, open) && !Step(m, c).status.Bad?
    requires m.req.state.Newline2? || m.req.state.Newline3?
    ensures InHeaders(Step(m, c), text + [c], u, NO_HEADER)
  {
    hide VerbOf, Number, WellFormed, HeadersOf, WellFormedHeader, Unclosed, HeaderOf, RequestLine, UnparseHeaders;
    u := t;
    if m.req.state.Newline2? {
      u := t.(headers := t.headers + [open]);
      CloseHeader(t, open);
      assert Before(t) + Unclosed(open) + [CR] + [LF] == Before(t) + Unclosed(open) + CRLF;
    } else {
      assert Before(t) + [CR] + [LF] == Before(t) + CRLF;
    }
  }

  // ----- Runs

  predicate Follows(m: Machine, text: Chars, t: RequestText, open: HeaderText) {
    InLine(m, text, t) || InHeaders(m, text, t, open)
  }

  lemma StepFollows(m: Machine, text: Chars, t: RequestText, open: HeaderText, c: schar)
    returns (u: RequestText, next: HeaderText)
    requires HasBack(m.req) && m.status.More? && Follows(m, text, t, open) && !Step(m, c).status.Bad?
    ensures Follows(Step(m, c), text + [c], u, next)
  {
    hide Step, InLine, InHeaders;
    next := open;
    match m.req.state
    case MethodStart | Method => RankOf(m, text, t, open); u := InMethod(m, text, t, c);
    case Uri => RankOf(m, text, t, open); u := InUri(m, text, t, c);
    case VersionH | VersionT1 | VersionT2 | VersionP | VersionSlash =>
      RankOf(m, text, t, open);
      InHttp(m, text, t, c);
      u := t;
    case VersionMajorStart | VersionMajor => RankOf(m, text, t, open); u := InMajor(m, text, t, c);
    case VersionMinorStart | VersionMinor => RankOf(m, text, t, open); u := InMinor(m, text, t, c);
    case Newline1 =>
      RankOf(m, text, t, open);
      AtNewline1(m, text, t, c);
      u, next := t, NO_HEADER;
    case HeaderLineStart => RankOf(m, text, t, open); u, next := AtLineStart(m, text, t, open, c);
    case HeaderName | SpaceBeforeHeaderValue =>
      RankOf(m, text, t, open);
      next := InName(m, text, t, open, c);
      u := t;
    case HeaderValue | HeaderLws =>
      RankOf(m, text, t, open);
      next := InValue(m, text, t, open, c);
      u := t;
    case Newline2 | Newline3 =>
      RankOf(m, text, t, open);
      u := AtNewline(m, text, t, open, c);
      next := NO_HEADER;
    case Completed => RankOf(m, text, t, open);
  }

  lemma RankOf(m: Machine, text: Chars, t: RequestText, open: HeaderText)
    requires Follows(m, text, t, open) && m.status.More?
    ensures Rank(m.req.state) <= 12 ==> InLine(m, text, t)
    ensures Rank(m.req.state) > 12 ==> InHeaders(m, text, t, open) && !m.req.state.Completed?
  {
    hide LineDone, LineStored, LineSoFar, Before, Unparse;
  }

  /** The part of the input the machine took, and the text it has followed. */
  lemma {:induction false} FeedFollows(m: Machine, input: Chars) returns (n: nat, t: RequestText, open: HeaderText)
    requires IsFresh(m)
    ensures !Feed(m, input).status.Bad? ==>
              && n <= |input| && Feed(m, input[..n]) == Feed(m, input) && Follows(Feed(m, input), input[..n], t, open)
              && (Feed(m, input).status.More? ==> n == |input|)
    decreases |input|
  {
    hide Feed, Step, Follows;
    if |input| == 0 {
      FeedNothing(m);
      n, t, open := 0, RequestText([], [], [], [], []), NO_HEADER;
      FreshFollows(m, t, open);
      assert input[..n] == [];
    } else {
      var init, c := input[..|input| - 1], input[|input| - 1];
      assert input == init + [c];
      FeedInChunks(m, init, [c]);
      n, t, open := FeedFollows(m, init);
      var a := Feed(m, init);
      if a.status.More? {
        FeedOne(a, c);
        if !Step(a, c).status.Bad? {
          assert init[..n] == init && input[..|input|] == input;
          t, open := StepFollows(a, init, t, open, c);
          n := |input|;
        }
      } else {
        Latched(a, [c]);
        if a.status.Done? {
          assert input[..n] == init[..n];
        }
      }
    }
  }

  lemma FreshFollows(m: Machine, t: RequestText, open: HeaderText)
    requires IsFresh(m) && t == RequestText([], [], [], [], [])
    ensures Follows(m, [], t, open)
  {
  }

  lemma Latched(m: Machine, s: Chars)
    requires HasBack(m.req) && !m.status.More?
    ensures Feed(m, s) == m
  {
  }

  lemma DoneIsUnparsed(m: Machine, text: Chars, t: RequestText, open: HeaderText)
    requires Follows(m, text, t, open) && m.status.Done?
    ensures WellFormed(t) && text == Unparse(t) && m.req == Meaning(t)
  {
    hide WellFormed, Unparse, HeadersOf, Number, VerbOf, LineStored, LineSoFar, Before;
  }

  // ----- No state is a dead end

  /** A character that takes the machine nearer to the end of the request. */
  function Onward(s: State): schar {
    match s
    case MethodStart => 'G' as int
    case Method => SPACE
    case Uri => SPACE
    case VersionH => 'H' as int
    case VersionT1 => 'T' as int
    case VersionT2 => 'T' as int
    case VersionP => 'P' as int
    case VersionSlash => '/' as int
    case VersionMajorStart => '1' as int
    case VersionMajor => DOT
    case VersionMinorStart => '0' as int
    case VersionMinor => CR
    case Newline1 => LF
    case HeaderLineStart => CR
    case HeaderLws => CR
    case HeaderName => COLON
    case SpaceBeforeHeaderValue => SPACE
    case HeaderValue => CR
    case Newline2 => LF
    case Newline3 => LF
    case Completed => LF
  }

  function Distance(s: State): nat {
    match s
    case MethodStart => 20
    case Method => 19
    case Uri => 18
    case VersionH => 17
    case VersionT1 => 16
    case VersionT2 => 15
    case VersionP => 14
    case VersionSlash => 13
    case VersionMajorStart => 12
    case VersionMajor => 11
    case VersionMinorStart => 10
    case VersionMinor => 9
    case Newline1 => 8
    case HeaderName => 7
    case SpaceBeforeHeaderValue => 6
    case HeaderValue => 5
    case HeaderLws => 5
    case Newline2 => 4
    case HeaderLineStart => 3
    case Newline3 => 2
    case Completed => 1
  }

  lemma OneOnward(m: Machine)
    requires HasBack(m.req) && m.status.More?
    ensures var n := Step(m, Onward(m.req.state));
            n.status.Done? || (n.status.More? && Distance(n.req.state) < Distance(m.req.state))
  {
    hide VerbOf;
  }

  lemma {:induction false} CanComplete(m: Machine) returns (rest: Chars)
    requires HasBack(m.req) && m.status.More?
    ensures rest != [] && Feed(m, rest).status.Done?
    decreases Distance(m.req.state)
  {
    hide Feed, Step;
    var c := Onward(m.req.state);
    OneOnward(m);
    var n := Step(m, c);
    if n.status.Done? {
      FeedOne(m, c);
      rest := [c];
    } else {
      var more := CanComplete(n);
      rest := [c] + more;
      FeedOne(m, c);
      FeedInChunks(m, [c], more);
    }
  }

  // ----- Soundness and completeness

  ghost predicate Begins(input: Chars) {
    exists t :: WellFormed(t) && Unparse(t) <= input
  }

  ghost predicate CanContinue(input: Chars) {
    exists t :: WellFormed(t) && input < Unparse(t)
  }

  /** On every input: the request completes if and only if the input begins with a text of the grammar, and
      the fields are those this text assigns; more input is wanted if and only if the input is a proper
      beginning of one; every other input is refused. */
  lemma AcceptsExactlyTheGrammar(m: Machine, input: Chars)
    requires IsFresh(m)
    ensures Feed(m, input).status.Done? <==> Begins(input)
    ensures forall t :: WellFormed(t) && Unparse(t) <= input ==> Feed(m, input).req == Meaning(t)
    ensures Feed(m, input).status.More? <==> CanContinue(input)
    ensures Feed(m, input).status.Bad? <==> !Begins(input) && !CanContinue(input)
  {
    hide Feed, Step, WellFormed, Unparse, Meaning;
    forall t | WellFormed(t) && Unparse(t) <= input
      ensures Feed(m, input).req == Meaning(t) && Feed(m, input).status.Done?
    {
      UnparseIsRead(m, t);
      PrefixDecides(m, Unparse(t), input);
    }
    forall t | WellFormed(t) && input < Unparse(t) ensures Feed(m, input).status.More? {
      UnparseIsRead(m, t);
      var text := Unparse(t);
      assert input <= text[..|text| - 1];
      PrefixDecides(m, input, text[..|text| - 1]);
    }
    var r := Feed(m, input);
    if r.status.Done? {
      var n, t, open := FeedFollows(m, input);
      DoneIsUnparsed(r, input[..n], t, open);
      assert WellFormed(t) && Unparse(t) <= input;
    } else if r.status.More? {
      var rest := CanComplete(r);
      FeedInChunks(m, input, rest);
      var n, t, open := FeedFollows(m, input + rest);
      DoneIsUnparsed(Feed(m, input + rest), (input + rest)[..n], t, open);
      TakenBeyond(m, input, rest, n);
      assert WellFormed(t) && input < Unparse(t);
    }
  }

  /** A completed or refused beginning decides; a beginning of an unfinished input is unfinished. */
  lemma PrefixDecides(m: Machine, a: Chars, input: Chars)
    requires HasBack(m.req) && a <= input
    ensures !Feed(m, a).status.More? ==> Feed(m, input) == Feed(m, a)
    ensures Feed(m, input).status.More? ==> Feed(m, a).status.More?
  {
    hide Feed;
    assert input == a + input[|a|..];
    FeedInChunks(m, a, input[|a|..]);
    if !Feed(m, a).status.More? {
      Latched(Feed(m, a), input[|a|..]);
    }
  }

  lemma TakenBeyond(m: Machine, input: Chars, rest: Chars, n: nat)
    requires HasBack(m.req) && n <= |input + rest| && Feed(m, input).status.More?
    requires Feed(m, (input + rest)[..n]).status.Done?
    ensures input < (input + rest)[..n]
  {
    hide Feed;
    if n <= |input| {
      assert (input + rest)[..n] == input[..n];
      PrefixDecides(m, input[..n], input);
    } else {
      assert (input + rest)[..n][..|input|] == input;
    }
  }
}
