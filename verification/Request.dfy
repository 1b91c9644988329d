/** The character machine that reads an HTTP request, resumable at any byte (RFC 1945, sections 4.2 and 5.1). */
module Request {
  import opened Options
  import opened Text

  datatype State =
    | MethodStart | Method | Uri
    | VersionH | VersionT1 | VersionT2 | VersionP | VersionSlash
    | VersionMajorStart | VersionMajor | VersionMinorStart | VersionMinor
    | Newline1 | HeaderLineStart | HeaderLws | HeaderName | SpaceBeforeHeaderValue | HeaderValue
    | Newline2 | Newline3 | Completed

  datatype Verb = Connect | Delete | Get | Head | Options | Patch | Post | Put | Trace | Undefined

  datatype Header = Header(name: Chars, value: Chars)

  datatype Fields = Fields(state: State, verb: Verb, uri: Chars, major: int, minor: int, headers: seq<Header>)

  datatype Status = More | Done | Bad

  /** One request together with the static buffer and what the last call reported: more input wanted,
      completed, or the exception for a bad request. */
  datatype Machine = Machine(req: Fields, buffer: Chars, status: Status)

  // ----- Character classes

  predicate IsChar(c: schar) {
    c >= 0
  }

  predicate IsCtrl(c: schar) {
    0 <= c <= 31 || c == 127
  }

  predicate IsSpecial(c: schar) {
    c in [40, 41, 60, 62, 64, 44, 59, 58, 92, 34, 47, 91, 93, 63, 61, 123, 125, 32, 9]
  }

  predicate IsTokenChar(c: schar) {
    IsChar(c) && !IsCtrl(c) && !IsSpecial(c)
  }

  predicate IsWhite(c: schar) {
    c == SPACE || c == TAB
  }

  const DOT: schar := 46

  /** The method names, in the order of the enumeration. */
  const CONNECT: Chars := [67, 79, 78, 78, 69, 67, 84]
  const DELETE: Chars := [68, 69, 76, 69, 84, 69]
  const GET: Chars := [71, 69, 84]
  const HEAD: Chars := [72, 69, 65, 68]
  const OPTIONS: Chars := [79, 80, 84, 73, 79, 78, 83]
  const PATCH: Chars := [80, 65, 84, 67, 72]
  const POST: Chars := [80, 79, 83, 84]
  const PUT: Chars := [80, 85, 84]
  const TRACE: Chars := [84, 82, 65, 67, 69]

  function VerbOf(name: Chars): Verb {
    if name == CONNECT then Connect
    else if name == DELETE then Delete
    else if name == GET then Get
    else if name == HEAD then Head
    else if name == OPTIONS then Options
    else if name == PATCH then Patch
    else if name == POST then Post
    else if name == PUT then Put
    else if name == TRACE then Trace
    else Undefined
  }

  const METHOD_NAMES: seq<Chars> := [CONNECT, DELETE, GET, HEAD, OPTIONS, PATCH, POST, PUT, TRACE]

  /** The name of a method that has one. */
  function NameOf(v: Verb): Chars
    requires v != Undefined
  {
    match v
    case Connect => CONNECT
    case Delete => DELETE
    case Get => GET
    case Head => HEAD
    case Options => OPTIONS
    case Patch => PATCH
    case Post => POST
    case Put => PUT
    case Trace => TRACE
  }

  /** The conversion from the index of a name. */
  function VerbAt(index: nat): Verb {
    if index == 0 then Connect
    else if index == 1 then Delete
    else if index == 2 then Get
    else if index == 3 then Head
    else if index == 4 then Options
    else if index == 5 then Patch
    else if index == 6 then Post
    else if index == 7 then Put
    else if index == 8 then Trace
    else Undefined
  }

  /** The place of a method in the enumeration; the last one has no name. */
  function IndexOf(v: Verb): nat {
    match v
    case Connect => 0
    case Delete => 1
    case Get => 2
    case Head => 3
    case Options => 4
    case Patch => 5
    case Post => 6
    case Put => 7
    case Trace => 8
    case Undefined => 9
  }

  /** No two names are the same, so the table is searched in any order. */
  lemma VerbOfName(index: nat)
    requires index < |METHOD_NAMES|
    ensures VerbOf(METHOD_NAMES[index]) == VerbAt(index)
    ensures NameOf(VerbAt(index)) == METHOD_NAMES[index]
  {
    assert CONNECT[0] != OPTIONS[0] && GET[0] != PUT[0] && HEAD[0] != POST[0] && PATCH[0] != TRACE[0];
    assert |CONNECT| == |OPTIONS| == 7 && |DELETE| == 6 && |PATCH| == |TRACE| == 5 && |HEAD| == |POST| == 4;
  }

  /** A method is recognised by its own name only. */
  lemma VerbIffName(name: Chars, v: Verb)
    requires v != Undefined
    ensures VerbOf(name) == v <==> name == NameOf(v)
  {
    for index := 0 to |METHOD_NAMES|
      invariant forall j :: 0 <= j < index ==> VerbOf(METHOD_NAMES[j]) == VerbAt(j) != Undefined
    {
      VerbOfName(index);
    }
    assert METHOD_NAMES[0] == CONNECT && METHOD_NAMES[1] == DELETE && METHOD_NAMES[2] == GET;
    assert METHOD_NAMES[3] == HEAD && METHOD_NAMES[4] == OPTIONS && METHOD_NAMES[5] == PATCH;
    assert METHOD_NAMES[6] == POST && METHOD_NAMES[7] == PUT && METHOD_NAMES[8] == TRACE;
  }

  /** Looking up the name of the method read from a text stays in the table if and only if the text is one
      of the names; it then gives back the text. */
  lemma LookupInTableIff(name: Chars)
    ensures IndexOf(VerbOf(name)) < |METHOD_NAMES| <==> name in METHOD_NAMES
    ensures name in METHOD_NAMES ==> METHOD_NAMES[IndexOf(VerbOf(name))] == name
  {
    if name in METHOD_NAMES {
      var index :| 0 <= index < |METHOD_NAMES| && METHOD_NAMES[index] == name;
      VerbOfName(index);
    } else {
      assert METHOD_NAMES[0] == CONNECT && METHOD_NAMES[1] == DELETE && METHOD_NAMES[2] == GET;
      assert METHOD_NAMES[3] == HEAD && METHOD_NAMES[4] == OPTIONS && METHOD_NAMES[5] == PATCH;
      assert METHOD_NAMES[6] == POST && METHOD_NAMES[7] == PUT && METHOD_NAMES[8] == TRACE;
    }
  }

  /** The methods of section 4 of RFC 7231 and of RFC 5789, by their names. */
  lemma MethodsByName()
    ensures VerbOf(Codes("CONNECT")) == Connect && VerbOf(Codes("DELETE")) == Delete && VerbOf(Codes("GET")) == Get
    ensures VerbOf(Codes("HEAD")) == Head && VerbOf(Codes("OPTIONS")) == Verb.Options && VerbOf(Codes("PATCH")) == Patch
    ensures VerbOf(Codes("POST")) == Post && VerbOf(Codes("PUT")) == Put && VerbOf(Codes("TRACE")) == Trace
    ensures METHOD_NAMES == [Codes("CONNECT"), Codes("DELETE"), Codes("GET"), Codes("HEAD"), Codes("OPTIONS"),
                             Codes("PATCH"), Codes("POST"), Codes("PUT"), Codes("TRACE")]
  {
    assert CONNECT == Codes("CONNECT") && DELETE == Codes("DELETE") && GET == Codes("GET");
    assert HEAD == Codes("HEAD") && OPTIONS == Codes("OPTIONS") && PATCH == Codes("PATCH");
    assert POST == Codes("POST") && PUT == Codes("PUT") && TRACE == Codes("TRACE");
    VerbIffName(CONNECT, Connect);
    VerbIffName(DELETE, Delete);
    VerbIffName(GET, Get);
    VerbIffName(HEAD, Head);
    VerbIffName(OPTIONS, Verb.Options);
    VerbIffName(PATCH, Patch);
    VerbIffName(POST, Post);
    VerbIffName(PUT, Put);
    VerbIffName(TRACE, Trace);
  }

  method GetMethodFromString(text: Chars) returns (verb: Verb)
    ensures verb == VerbOf(text)
  {
    for index := 0 to |METHOD_NAMES|
      invariant forall j :: 0 <= j < index ==> METHOD_NAMES[j] != text
    {
      if METHOD_NAMES[index] == text {
        VerbOfName(index);
        return VerbAt(index);
      }
    }
    assert text != METHOD_NAMES[0] && text != METHOD_NAMES[1] && text != METHOD_NAMES[2];
    assert text != METHOD_NAMES[3] && text != METHOD_NAMES[4] && text != METHOD_NAMES[5];
    assert text != METHOD_NAMES[6] && text != METHOD_NAMES[7] && text != METHOD_NAMES[8];
    verb := Undefined;
  }

  /** The token characters one by one, as section 3.2.6 of RFC 7230 lists them. */
  lemma TokenCharsAre(c: schar)
    ensures IsTokenChar(c) <==>
            || IsUpper(c) || IsLower(c) || IsDigit(c)
            || c in [33, 35, 36, 37, 38, 39, 42, 43, 45, 46, 94, 95, 96, 124, 126]
  {
  }

  // ----- One character

  /** Where the code takes the last header, there is one. */
  predicate HasBack(r: Fields) {
    r.state in {HeaderLws, HeaderName, SpaceBeforeHeaderValue, HeaderValue} ==> r.headers != []
  }

  function AppendName(hs: seq<Header>, c: schar): (r: seq<Header>)
    requires hs != []
    ensures r != []
  {
    var h := hs[|hs| - 1];
    hs[..|hs| - 1] + [h.(name := h.name + [c])]
  }

  function AppendValue(hs: seq<Header>, c: schar): (r: seq<Header>)
    requires hs != []
    ensures r != []
  {
    var h := hs[|hs| - 1];
    hs[..|hs| - 1] + [h.(value := h.value + [c])]
  }

  function Go(m: Machine, s: State): Machine {
    m.(req := m.req.(state := s))
  }

  function Throw(m: Machine): Machine {
    m.(status := Bad)
  }

  /** The state changes before the condition is examined. */
  function SetState(m: Machine, bad: bool, s: State): Machine {
    if bad then Throw(Go(m, s)) else Go(m, s)
  }

  function Step(m: Machine, c: schar): (next: Machine)
    requires HasBack(m.req)
    ensures HasBack(next.req)
  {
    var r := m.req;
    match r.state
    case MethodStart => var n := SetState(m, !IsTokenChar(c), Method); if n.status.Bad? then n else n.(buffer := [c])
    case Method =>
      if c == SPACE then Go(m, Uri).(req := r.(state := Uri, verb := VerbOf(m.buffer)))
      else if !IsTokenChar(c) then Throw(m)
      else m.(buffer := m.buffer + [c])
    case Uri =>
      if c == SPACE then Go(m, VersionH)
      else if IsCtrl(c) then Throw(m)
      else m.(req := r.(uri := r.uri + [c]))
    case VersionH => SetState(m, c != 'H' as int, VersionT1)
    case VersionT1 => SetState(m, c != 'T' as int, VersionT2)
    case VersionT2 => SetState(m, c != 'T' as int, VersionP)
    case VersionP => SetState(m, c != 'P' as int, VersionSlash)
    case VersionSlash =>
      var n := SetState(m, c != '/' as int, VersionMajorStart);
      if n.status.Bad? then n else n.(req := n.req.(major := 0, minor := 0))
    case VersionMajorStart =>
      var n := SetState(m, !IsDigit(c), VersionMajor);
      if n.status.Bad? then n else n.(req := n.req.(major := r.major * 10 + c - '0' as int))
    case VersionMajor =>
      if c == DOT then Go(m, VersionMinorStart)
      else if IsDigit(c) then m.(req := r.(major := r.major * 10 + c - '0' as int))
      else Throw(m)
    case VersionMinorStart =>
      var n := SetState(m, !IsDigit(c), VersionMinor);
      if n.status.Bad? then n else n.(req := n.req.(minor := r.minor * 10 + c - '0' as int))
    case VersionMinor =>
      if c == CR then Go(m, Newline1)
      else if IsDigit(c) then m.(req := r.(minor := r.minor * 10 + c - '0' as int))
      else Throw(m)
    case Newline1 => SetState(m, c != LF, HeaderLineStart)
    case HeaderLineStart =>
      if c == CR then Go(m, Newline3)
      else if r.headers != [] && IsWhite(c) then Go(m, HeaderLws)
      else if !IsTokenChar(c) then Throw(m)
      else m.(req := r.(state := HeaderName, headers := r.headers + [Header([c], [])]))
    case HeaderLws =>
      if c == CR then Go(m, Newline2)
      else if IsWhite(c) then m
      else if IsCtrl(c) then Throw(m)
      else m.(req := r.(state := HeaderValue, headers := AppendValue(r.headers, c)))
    case HeaderName =>
      if c == COLON then Go(m, SpaceBeforeHeaderValue)
      else if !IsTokenChar(c) then Throw(m)
      else m.(req := r.(headers := AppendName(r.headers, c)))
    case SpaceBeforeHeaderValue => SetState(m, c != SPACE, HeaderValue)
    case HeaderValue =>
      if c == CR then Go(m, Newline2)
      else if IsCtrl(c) then Throw(m)
      else m.(req := r.(headers := AppendValue(r.headers, c)))
    case Newline2 => SetState(m, c != LF, HeaderLineStart)
    case Newline3 => if c == LF then Go(m, Completed).(status := Done) else Throw(m)
    case Completed => m.(status := Done)
  }

  // ----- Any number of characters

  /** The machine takes characters while it wants more. */
  function Feed(m: Machine, input: Chars): (r: Machine)
    requires HasBack(m.req)
    ensures HasBack(r.req)
    decreases |input|
  {
    if |input| == 0 || !m.status.More? then m else Feed(Step(m, input[0]), input[1..])
  }

  /** Reading resumes at any byte: the chunks do not matter. */
  lemma {:induction false} FeedInChunks(m: Machine, a: Chars, b: Chars)
    requires HasBack(m.req)
    ensures Feed(m, a + b) == Feed(Feed(m, a), b)
    decreases |a|
  {
    hide Step, HasBack;
    if |a| == 0 {
      assert a + b == b;
    } else if m.status.More? {
      assert (a + b)[0] == a[0] && (a + b)[1..] == a[1..] + b;
      FeedInChunks(Step(m, a[0]), a[1..], b);
    }
  }

  lemma FeedOne(m: Machine, c: schar)
    requires HasBack(m.req) && m.status.More?
    ensures Feed(m, [c]) == Step(m, c)
  {
    hide Step;
    assert [c][1..] == [];
  }

  /** A request before its first character; its method and its version are not initialised. */
  predicate IsFresh(m: Machine) {
    m.status.More? && m.req.state.MethodStart? && m.req.uri == [] && m.req.headers == []
  }

  // ----- What never enters a field

  predicate Token(s: Chars) {
    s != [] && forall i :: 0 <= i < |s| ==> IsTokenChar(s[i])
  }

  predicate NoControls(s: Chars) {
    forall i :: 0 <= i < |s| ==> !IsCtrl(s[i])
  }

  predicate CleanHeaders(hs: seq<Header>) {
    forall i :: 0 <= i < |hs| ==> Token(hs[i].name) && NoControls(hs[i].value)
  }

  predicate CleanUri(s: Chars) {
    NoControls(s) && SPACE !in s
  }

  predicate Clean(r: Fields) {
    CleanUri(r.uri) && CleanHeaders(r.headers)
  }

  lemma UriStaysClean(s: Chars, c: schar)
    requires CleanUri(s)
    ensures !IsCtrl(c) && c != SPACE ==> CleanUri(s + [c])
  {
    hide IsCtrl;
  }

  lemma HeadersStayClean(hs: seq<Header>, c: schar)
    requires CleanHeaders(hs)
    ensures IsTokenChar(c) ==> CleanHeaders(hs + [Header([c], [])])
    ensures hs != [] && IsTokenChar(c) ==> CleanHeaders(AppendName(hs, c))
    ensures hs != [] && !IsCtrl(c) ==> CleanHeaders(AppendValue(hs, c))
  {
    hide IsTokenChar, IsCtrl;
  }

  lemma StepKeepsClean(m: Machine, c: schar)
    requires HasBack(m.req) && Clean(m.req)
    ensures Clean(Step(m, c).req)
  {
    hide IsSpecial, IsCtrl, IsTokenChar, VerbOf, IsWhite, IsDigit, CleanUri, CleanHeaders, AppendName, AppendValue;
    HeadersStayClean(m.req.headers, c);
    UriStaysClean(m.req.uri, c);
  }

  /** However the input is cut off or refused: no control character in the URI or in a header, and every
      header name is a token. */
  lemma {:induction false} FeedKeepsClean(m: Machine, input: Chars)
    requires HasBack(m.req) && Clean(m.req)
    ensures Clean(Feed(m, input).req)
    decreases |input|
  {
    hide Step, HasBack, Clean;
    if |input| > 0 && m.status.More? {
      StepKeepsClean(m, input[0]);
      FeedKeepsClean(Step(m, input[0]), input[1..]);
    }
  }

  // ----- The object

  /** The static variable every request writes its method into. */
  class Shared {
    var buffer: Chars

    constructor ()
      ensures buffer == []
    {
      buffer := [];
    }
  }

  class Reader {
    const shared: Shared
    var state: State
    var verb: Verb
    var uri: Chars
    var major: int
    var minor: int
    var headers: seq<Header>

    ghost function Now(): Fields
      reads this
    {
      Fields(state, verb, uri, major, minor, headers)
    }

    constructor (shared: Shared)
      ensures this.shared == shared && IsFresh(Machine(Now(), shared.buffer, More))
    {
      this.shared := shared;
      state, uri, headers := MethodStart, [], [];
      verb, major, minor := *, *, *;
    }

    /** None stands for an index outside the table of names. */
    method GetMethodName() returns (name: Option<Chars>)
      ensures name.Some? <==> IndexOf(verb) < |METHOD_NAMES|
      ensures name.Some? ==> verb != Undefined && name.value == NameOf(verb)
    {
      var index := IndexOf(verb);
      if index >= |METHOD_NAMES| {
        return None;
      }
      name := Some(METHOD_NAMES[index]);
    }

    /** Neither completed nor thrown stands for returning false. */
    method CompleteRequest(c: schar) returns (status: Status)
      requires HasBack(Now())
      modifies this, shared
      ensures Machine(Now(), shared.buffer, status) == Step(old(Machine(Now(), shared.buffer, More)), c)
    {
      hide IsSpecial, IsCtrl, IsChar, VerbOf;
      status := More;
      match state
      case MethodStart =>
        state := Method;
        if !IsChar(c) || IsCtrl(c) || IsSpecial(c) { return Bad; }
        shared.buffer := [c];
      case Method =>
        if c == SPACE {
          state := Uri;
          verb := GetMethodFromString(shared.buffer);
        } else if !IsChar(c) || IsCtrl(c) || IsSpecial(c) {
          return Bad;
        } else {
          shared.buffer := shared.buffer + [c];
        }
      case Uri =>
        if c == SPACE {
          state := VersionH;
        } else if IsCtrl(c) {
          return Bad;
        } else {
          uri := uri + [c];
        }
      case VersionH => state := VersionT1; if c != 'H' as int { return Bad; }
      case VersionT1 => state := VersionT2; if c != 'T' as int { return Bad; }
      case VersionT2 => state := VersionP; if c != 'T' as int { return Bad; }
      case VersionP => state := VersionSlash; if c != 'P' as int { return Bad; }
      case VersionSlash =>
        state := VersionMajorStart;
        if c != '/' as int { return Bad; }
        major, minor := 0, 0;
      case VersionMajorStart =>
        state := VersionMajor;
        if !IsDigit(c) { return Bad; }
        major := major * 10 + c - '0' as int;
      case VersionMajor =>
        if c == DOT {
          state := VersionMinorStart;
        } else if IsDigit(c) {
          major := major * 10 + c - '0' as int;
        } else {
          return Bad;
        }
      case VersionMinorStart =>
        state := VersionMinor;
        if !IsDigit(c) { return Bad; }
        minor := minor * 10 + c - '0' as int;
      case VersionMinor =>
        if c == CR {
          state := Newline1;
        } else if IsDigit(c) {
          minor := minor * 10 + c - '0' as int;
        } else {
          return Bad;
        }
      case Newline1 => state := HeaderLineStart; if c != LF { return Bad; }
      case HeaderLineStart =>
        if c == CR {
          state := Newline3;
        } else if headers != [] && (c == SPACE || c == TAB) {
          state := HeaderLws;
        } else if !IsChar(c) || IsCtrl(c) || IsSpecial(c) {
          return Bad;
        } else {
          headers := headers + [Header([], [])];
          assert headers[..|headers| - 1] == old(headers) && [] + [c] == [c];
          headers := AppendName(headers, c);
          state := HeaderName;
        }
      case HeaderLws =>
        if c == CR {
          state := Newline2;
        } else if c == SPACE || c == TAB {
        } else if IsCtrl(c) {
          return Bad;
        } else {
          state := HeaderValue;
          headers := AppendValue(headers, c);
        }
      case HeaderName =>
        if c == COLON {
          state := SpaceBeforeHeaderValue;
        } else if !IsChar(c) || IsCtrl(c) || IsSpecial(c) {
          return Bad;
        } else {
          headers := AppendName(headers, c);
        }
      case SpaceBeforeHeaderValue => state := HeaderValue; if c != SPACE { return Bad; }
      case HeaderValue =>
        if c == CR {
          state := Newline2;
        } else if IsCtrl(c) {
          return Bad;
        } else {
          headers := AppendValue(headers, c);
        }
      case Newline2 => state := HeaderLineStart; if c != LF { return Bad; }
      case Newline3 =>
        if c != LF { return Bad; }
        state := Completed;
        return Done;
      case Completed => return Done;
    }

    /** The loop over one chunk; what follows the end of the request in the chunk is dropped. */
    method ParseSomeData(chunk: Chars) returns (status: Status)
      requires HasBack(Now())
      modifies this, shared
      ensures Machine(Now(), shared.buffer, status) == Feed(old(Machine(Now(), shared.buffer, More)), chunk)
    {
      hide Step, HasBack;
      var i := 0;
      status := More;
      ghost var start := Machine(Now(), shared.buffer, More);
      while i < |chunk|
        invariant i <= |chunk| && status.More? && HasBack(Now())
        invariant Feed(start, chunk) == Feed(Machine(Now(), shared.buffer, More), chunk[i..])
      {
        ghost var m := Machine(Now(), shared.buffer, More);
        assert chunk[i..][0] == chunk[i] && chunk[i..][1..] == chunk[i + 1..];
        status := CompleteRequest(chunk[i]);
        i := i + 1;
        if !status.More? {
          return;
        }
      }
    }
  }
}
