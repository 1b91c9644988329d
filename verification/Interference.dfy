/** What a connection answers when other requests write the static buffer at any time. */
module Interference {
  import opened Options
  import opened Text
  import opened Request
  import opened RequestGrammar
  import opened RequestSoundness
  import opened RequestHandler
  import opened Connection
  import Percent
  import S = SharedBuffer

  /** The request of a connection as a machine that has not been answered. */
  function Reader(c: Conn): Machine {
    Machine(c.req, c.buffer, More)
  }

  function ButVerb(r: Fields): Fields {
    r.(verb := Undefined)
  }

  // ----- Up to the method

  /** What the machine alone makes of the input, and where the connection is with it, up to the method. */
  predicate Follows(c: Conn, m: Machine, h: Handler) {
    match Answer(c.log)
    case None =>
      if c.fault then m.status.Done? && ButVerb(c.req) == ButVerb(m.req) && IndexOf(c.req.verb) >= |METHOD_NAMES|
      else S.SameButMethod(Reader(c), m)
    case Some(code) =>
      && !c.fault && !m.status.More?
      && (m.status.Bad? ==> code == BAD_REQUEST)
      && (m.status.Done? ==>
            ButVerb(c.req) == ButVerb(m.req) && IndexOf(c.req.verb) < |METHOD_NAMES| && code == h(c.req))
  }

  lemma ResponseFollows(c: Conn, m: Machine, code: nat, h: Handler)
    requires Answer(c.log) == None && !m.status.More? && !c.fault
    requires m.status.Bad? ==> code == BAD_REQUEST
    requires m.status.Done? ==>
               ButVerb(c.req) == ButVerb(m.req) && IndexOf(c.req.verb) < |METHOD_NAMES| && code == h(c.req)
    ensures var w := Write(c.(response := code)); Follows(w, m, h) && Follows(w.(protocol := HttpUpgrading), m, h)
  {
    AnswerAppend(c.log, WriteIssued(code));
  }

  lemma ReadOnFollows(c: Conn, m: Machine, h: Handler)
    requires Answer(c.log) == None && !c.fault && S.SameButMethod(Reader(c), m)
    ensures Follows(Read(c), m, h)
  {
    AnswerAppend(c.log, ReadIssued);
  }

  lemma ReadFollows(c: Conn, m: Machine, n: nat, ec: Error, chunk: Chars, h: Handler)
    requires HasBack(c.req) && HasBack(m.req) && Reading(c, n) && ReadOp in c.pending && Follows(c, m, h)
    ensures Follows(Apply(c, ReadDone(ec, chunk), h), if ec.NoError? then Feed(m, chunk) else m, h)
  {
    hide Feed, HasBack, Main, Reads, Write, Read;
    NoAnswerYet(c.log, n);
    match ec
    case NoError =>
      S.FeedSameButMethod(Reader(c), m, chunk);
      FeedCompletes(Reader(c), chunk);
      var alone, r := Feed(m, chunk), Feed(Reader(c), chunk);
      var parsed := c.(pending := c.pending - multiset{ReadOp}, req := r.req, buffer := r.buffer);
      if r.status.Done? && IndexOf(r.req.verb) >= |METHOD_NAMES| {
        assert Follows(parsed.(fault := true), alone, h);
      } else if r.status.More? {
        hide Follows, Answer;
        ReadOnFollows(parsed, alone, h);
      } else {
        hide Follows, Answer;
        ResponseFollows(parsed, alone, if r.status.Done? then h(r.req) else BAD_REQUEST, h);
      }
    case OperationAborted =>
    case OtherError => AnswerAppend(c.log, Stopped);
  }

  lemma OtherEventFollows(c: Conn, m: Machine, e: Event, h: Handler)
    requires HasBack(c.req) && Follows(c, m, h) && !e.ReadDone?
    ensures Follows(Apply(c, e, h), m, h)
  {
    hide Follows, S.SameButMethod;
    match e
    case Start => SilentFollows(c, Read(c), m, ReadIssued, h);
    case StopAll => SilentFollows(c, Act(c, Stopped), m, Stopped, h);
    case BufferWritten(text) => BufferFollows(c, text, m, h);
    case WriteDone(ec) =>
      var idle := c.(pending := c.pending - multiset{WriteOp});
      if c.protocol.HttpUpgrading? {
        SilentFollows(c, Act(idle, Upgraded).(protocol := WebSocket), m, Upgraded, h);
        SameLogFollows(c, idle.(protocol := WebSocket), m, h);
      } else {
        SameLogFollows(c, idle, m, h);
        SilentFollows(c, Act(idle, Stopped), m, Stopped, h);
        SilentFollows(c, Act(idle, ShutDown), m, ShutDown, h);
        SilentFollows(Act(idle, ShutDown), Act(Act(idle, ShutDown), Stopped), m, Stopped, h);
      }
  }

  /** An action that is no response does not matter. */
  lemma SilentFollows(c: Conn, d: Conn, m: Machine, a: Action, h: Handler)
    requires Follows(c, m, h) && !a.WriteIssued?
    requires d.log == c.log + [a] && d.req == c.req && d.buffer == c.buffer && d.fault == c.fault
    ensures Follows(d, m, h)
  {
    AnswerAppend(c.log, a);
  }

  lemma SameLogFollows(c: Conn, d: Conn, m: Machine, h: Handler)
    requires Follows(c, m, h) && d.log == c.log && d.req == c.req && d.buffer == c.buffer && d.fault == c.fault
    ensures Follows(d, m, h)
  {
  }

  lemma BufferFollows(c: Conn, text: Chars, m: Machine, h: Handler)
    requires Follows(c, m, h)
    ensures Follows(c.(buffer := text), m, h)
  {
  }

  lemma {:induction false} RunFollows(c: Conn, es: seq<Event>, h: Handler)
    requires IsNew(c) && Possible(c, es, h)
    ensures Follows(RunAll(c, es, h), Feed(Reader(c), Received(es)), h)
  {
    hide Feed, Apply, Follows, Shape;
    var m := Reader(c);
    if |es| == 0 {
      FeedNothing(m);
      NewFollows(c, h);
    } else {
      var init, e := es[..|es| - 1], es[|es| - 1];
      RunFollows(c, init, h);
      var r := RunAll(c, init, h);
      if e.ReadDone? {
        var n := RunKeepsShape(c, init, h);
        var _ := ReadKeepsShape(r, n, Wrote(init), e.ec, e.chunk, h);
        FeedInChunks(m, Received(init), if e.ec.NoError? then e.chunk else []);
        FeedNothing(Feed(m, Received(init)));
        ReadFollows(r, Feed(m, Received(init)), n, e.ec, e.chunk, h);
      } else {
        assert Received(es) == Received(init) + [] == Received(init);
        OtherEventFollows(r, Feed(m, Received(init)), e, h);
      }
    }
  }

  lemma NewFollows(c: Conn, h: Handler)
    requires IsNew(c)
    ensures Follows(c, Reader(c), h)
  {
  }

  /** A request whose method has been misread as v. */
  function Misread(t: RequestText, v: Verb): Fields {
    Meaning(t).(verb := v)
  }

  /** On every run, whatever other requests write: nothing as long as the input can still become a request; 400
      to every input that neither is nor becomes one; and to a request the handler's answer to exactly this
      request but for its method, or the lookup of a name outside the table when the method is read as none. */
  lemma AnswersUpToTheMethod(c: Conn, es: seq<Event>, h: Handler)
    requires IsNew(c) && Possible(c, es, h)
    ensures var r, input := RunAll(c, es, h), Received(es);
            var a := Answer(r.log);
            && (CanContinue(input) ==> a == None && !r.fault)
            && (!Begins(input) && !CanContinue(input) ==> a == Some(BAD_REQUEST) && !r.fault)
            && (forall t :: WellFormed(t) && Unparse(t) <= input ==>
                  && r.req == Misread(t, r.req.verb)
                  && (r.fault <==> r.req.verb == Undefined)
                  && a == if r.fault then None else Some(h(Misread(t, r.req.verb))))
  {
    hide Feed, RunAll, Possible, Received, WellFormed, Unparse, Meaning, IndexOf;
    RunFollows(c, es, h);
    var r, input, m := RunAll(c, es, h), Received(es), Feed(Reader(c), Received(es));
    AcceptsExactlyTheGrammar(Reader(c), input);
    Unnamed(r.req.verb);
    forall t | WellFormed(t) && Unparse(t) <= input
      ensures m.status.Done? && m.req == Meaning(t)
    {
      assert Begins(input);
    }
    DoneFollows(r, m, h);
  }

  /** With the program's own handler, on every run: whatever is answered is deserved by the request the input
      begins with, read with some method, or is 400 to an input that begins with none and cannot become one. */
  lemma EveryAnswerIsDeserved(c: Conn, es: seq<Event>, open: Chars -> Option<Entry>)
    requires IsNew(c) && Possible(c, es, r => StatusOf(r, open))
    ensures var input, a := Received(es), Answer(RunAll(c, es, r => StatusOf(r, open)).log);
            a.Some? ==>
              || (a == Some(400) && !Begins(input) && !CanContinue(input))
              || exists t, v :: WellFormed(t) && Unparse(t) <= input && v != Undefined
                                && Deserves(Misread(t, v), open, a.value)
  {
    hide RunAll, Possible, Received, WellFormed, Unparse, Misread, Deserves;
    var h := r => StatusOf(r, open);
    AnswersUpToTheMethod(c, es, h);
    var r := RunAll(c, es, h);
    if Answer(r.log).Some? && Begins(Received(es)) {
      var t :| WellFormed(t) && Unparse(t) <= Received(es);
      StatusIff(Misread(t, r.req.verb), open, Answer(r.log).value);
    }
  }

  lemma Unnamed(v: Verb)
    ensures IndexOf(v) >= |METHOD_NAMES| <==> v == Undefined
  {
  }

  lemma DoneFollows(c: Conn, m: Machine, h: Handler)
    requires Follows(c, m, h)
    ensures m.status.Done? ==>
              && c.req == m.req.(verb := c.req.verb) && (c.fault <==> IndexOf(c.req.verb) >= |METHOD_NAMES|)
              && Answer(c.log) == if c.fault then None else Some(h(c.req))
    ensures m.status.Bad? ==> Answer(c.log) == Some(BAD_REQUEST) && !c.fault
    ensures m.status.More? ==> Answer(c.log) == None && !c.fault
  {
    assert m.req.(verb := c.req.verb) == ButVerb(m.req).(verb := c.req.verb);
    assert c.req == ButVerb(c.req).(verb := c.req.verb);
  }

  // ----- The method

  /** What is issued for an input, and whether a name is looked up outside the table. */
  function Outcome(c: Conn): (Option<nat>, bool) {
    (Answer(c.log), c.fault)
  }

  /** The same for the machine alone. */
  function AloneOutcome(m: Machine, h: Handler): (Option<nat>, bool) {
    match m.status
    case More => (None, false)
    case Bad => (Some(BAD_REQUEST), false)
    case Done => if IndexOf(m.req.verb) >= |METHOD_NAMES| then (None, true) else (Some(h(m.req)), false)
  }

  lemma ReadOutcome(c: Conn, n: nat, chunk: Chars, h: Handler)
    requires HasBack(c.req) && Reading(c, n) && ReadOp in c.pending
    ensures Outcome(Apply(c, ReadDone(NoError, chunk), h)) == AloneOutcome(Feed(Reader(c), chunk), h)
  {
    hide Feed, HasBack, Main, Reads;
    NoAnswerYet(c.log, n);
    FeedCompletes(Reader(c), chunk);
    var r := Feed(Reader(c), chunk);
    AnswerAppend(c.log, ReadIssued);
    AnswerAppend(c.log, WriteIssued(BAD_REQUEST));
    AnswerAppend(c.log, WriteIssued(h(r.req)));
  }

  /** A chunk that completes both requests, with different methods. */
  lemma TellingChunk(x: Machine, alone: Machine) returns (chunk: Chars)
    requires HasBack(x.req) && HasBack(alone.req) && S.SameButMethod(x, alone) && x.status.More?
    requires !S.MethodIsRight(x, alone)
    ensures Feed(x, chunk).status.Done? && Feed(alone, chunk).status.Done?
    ensures Feed(x, chunk).req.verb != Feed(alone, chunk).req.verb
  {
    hide Feed, HasBack, VerbOf, S.BeginsName;
    var start: Chars := [];
    if x.req.state.Method? {
      var b := S.TellingRest(x.buffer, alone.buffer);
      MethodRead(x, b);
      MethodRead(alone, b);
      start := b + [SPACE];
    } else {
      FeedNothing(x);
      FeedNothing(alone);
    }
    var y, z := Feed(x, start), Feed(alone, start);
    S.FeedSameButMethod(x, alone, start);
    var rest := CanComplete(y);
    FeedInChunks(x, start, rest);
    FeedInChunks(alone, start, rest);
    S.FeedSameButMethod(y, z, rest);
    PastStays(y, rest);
    PastStays(z, rest);
    chunk := start + rest;
  }

  lemma MethodRead(m: Machine, b: Chars)
    requires m.status.More? && m.req.state.Method? && (b == [] || Token(b))
    ensures var r := Feed(m, b + [SPACE]); r.status.More? && S.Past(r) && r.req.verb == VerbOf(m.buffer + b)
  {
    hide Feed, IsTokenChar, VerbOf;
    FeedMethod(m, b);
    FeedThen(m, b, SPACE);
  }

  /** Behind its method a request keeps it. */
  lemma {:induction false} PastStays(m: Machine, s: Chars)
    requires HasBack(m.req) && S.Past(m)
    ensures Feed(m, s).req.verb == m.req.verb
    decreases |s|
  {
    hide Step, HasBack;
    if |s| > 0 && m.status.More? {
      StepKeepsOwnVerb(m, s[0]);
      PastStays(Step(m, s[0]), s[1..]);
    }
  }

  lemma StepKeepsOwnVerb(m: Machine, c: schar)
    requires HasBack(m.req) && S.Past(m)
    ensures Step(m, c).req.verb == m.req.verb && S.Past(Step(m, c))
  {
    hide Step;
    S.StepKeepsVerb(m, m.req.verb, c);
    assert m.req.(verb := m.req.verb) == m.req;
  }

  /** A read that any run has left outstanding: whatever it delivers and whatever the handler is, the outcome
      is that of the request alone if and only if its method is right, or, inside its method, if and only if
      the static buffer holds what has been read of it or neither begins the name of a method. */
  lemma OutcomeAsIfAloneIff(c: Conn, es: seq<Event>, h: Handler)
    requires IsNew(c) && Possible(c, es, h)
    ensures var r, alone := RunAll(c, es, h), Feed(Reader(c), Received(es));
            ReadOp in r.pending ==>
              ((forall chunk: Chars, g: Handler ::
                  Outcome(Apply(r, ReadDone(NoError, chunk), g)) == AloneOutcome(Feed(alone, chunk), g))
               <==> S.MethodIsRight(Reader(r), alone))
  {
    hide Feed, RunAll, Possible, Received, Outcome, AloneOutcome, Apply, S.MethodIsRight, S.SameButMethod;
    var r, alone := RunAll(c, es, h), Feed(Reader(c), Received(es));
    if ReadOp !in r.pending {
      return;
    }
    var n := RunKeepsShape(c, es, h);
    OnlyReading(r, n, Wrote(es));
    RunFollows(c, es, h);
    NoAnswerYet(r.log, n);
    forall chunk: Chars, g: Handler
      ensures Outcome(Apply(r, ReadDone(NoError, chunk), g)) == AloneOutcome(Feed(Reader(r), chunk), g)
    {
      ReadOutcome(r, n, chunk, g);
    }
    S.ContinuationsIff(Reader(r), alone);
    if S.MethodIsRight(Reader(r), alone) {
      forall chunk: Chars, g: Handler
        ensures AloneOutcome(Feed(Reader(r), chunk), g) == AloneOutcome(Feed(alone, chunk), g)
      {
        S.FeedSameButMethod(Reader(r), alone, chunk);
        SameOutcome(Feed(Reader(r), chunk), Feed(alone, chunk), g);
      }
    } else {
      SameStatus(Reader(r), alone);
      var chunk := TellingChunk(Reader(r), alone);
      var g := TellingHandler(Feed(Reader(r), chunk), Feed(alone, chunk));
      assert Outcome(Apply(r, ReadDone(NoError, chunk), g)) != AloneOutcome(Feed(alone, chunk), g);
    }
  }

  lemma SameStatus(x: Machine, y: Machine)
    requires S.SameButMethod(x, y)
    ensures x.status == y.status
  {
  }

  lemma SameOutcome(x: Machine, y: Machine, g: Handler)
    requires S.SameButMethod(x, y) && x.req == y.req
    ensures AloneOutcome(x, g) == AloneOutcome(y, g)
  {
  }

  lemma TellingHandler(x: Machine, y: Machine) returns (g: Handler)
    requires x.status.Done? && y.status.Done? && x.req.verb != y.req.verb
    ensures AloneOutcome(x, g) != AloneOutcome(y, g)
  {
    var v := x.req.verb;
    g := (r: Fields) => if r.verb == v then OK else NOT_FOUND;
  }

  // ----- Upgrades

  /** On every run: a socket is handed over only if the input begins with a request of the grammar that, but
      for its method, asks for the WebSocket protocol; undisturbed, its method is GET too. */
  lemma UpgradeIsAskedForButTheMethod(c: Conn, es: seq<Event>, open: Chars -> Option<Entry>)
    requires IsNew(c) && Possible(c, es, r => StatusOf(r, open))
    ensures var r := RunAll(c, es, req => StatusOf(req, open));
            Upgraded in r.log ==>
              && Answer(r.log) == Some(SWITCHING_PROTOCOLS)
              && exists t :: WellFormed(t) && Unparse(t) <= Received(es) && AsksForWebSocket(Misread(t, Get))
                             && (Undisturbed(c, es, req => StatusOf(req, open)) ==> t.verb == GET)
  {
    hide Feed, RunAll, Possible, Undisturbed, Received, WellFormed, Unparse, Meaning, Answer, AsksForWebSocket;
    var h := r => StatusOf(r, open);
    var r := RunAll(c, es, h);
    if Upgraded in r.log {
      HandedOverIff(c, es, h);
      AnswersUpToTheMethod(c, es, h);
      var t :| WellFormed(t) && Unparse(t) <= Received(es);
      SwitchesIff(Misread(t, r.req.verb), open);
      AsksWithGet(Misread(t, r.req.verb));
      if Undisturbed(c, es, h) {
        UpgradeIsAskedFor(c, es, open);
        var u :| WellFormed(u) && Unparse(u) <= Received(es) && u.verb == GET && AsksForWebSocket(Meaning(u));
        AsksWithGet(Meaning(u));
        assert Misread(u, Get) == Meaning(u);
      }
    }
  }

  lemma AsksWithGet(r: Fields)
    requires AsksForWebSocket(r)
    ensures r.verb == Get
  {
  }

  /** The upgrade request with a method of its own, FT. */
  const FT_REQUEST := UPGRADE_REQUEST.(verb := [70, 84])

  /** The run in which another request writes GE into the static buffer while this one has read F. */
  function DisturbedRun(): seq<Event> {
    [Start, ReadDone(NoError, [70]), BufferWritten([71, 69]), ReadDone(NoError, Unparse(FT_REQUEST)[1..]),
     WriteDone(NoError)]
  }

  function AfterVerb(t: RequestText): Chars {
    [SPACE] + t.uri + [SPACE] + HTTP_ + t.major + [DOT] + t.minor + CRLF + UnparseHeaders(t.headers) + CRLF
  }

  lemma UnparseSplits(t: RequestText)
    ensures Unparse(t) == t.verb + AfterVerb(t)
  {
  }

  /** Both texts go on in the same way behind what is in the static buffer. */
  lemma FtRequest()
    ensures WellFormed(FT_REQUEST) && FT_REQUEST.verb != GET
    ensures |Unparse(FT_REQUEST)| > 0
    ensures Unparse(FT_REQUEST) == [70] + Unparse(FT_REQUEST)[1..]
    ensures Unparse(UPGRADE_REQUEST) == [71, 69] + Unparse(FT_REQUEST)[1..]
  {
    hide AfterVerb, Unparse, Token;
    UpgradeRequestIsWellFormed();
    UnparseSplits(FT_REQUEST);
    UnparseSplits(UPGRADE_REQUEST);
    WordsAreTokens(FT_REQUEST.verb);
    SameBehind();
    var tail := AfterVerb(UPGRADE_REQUEST);
    assert [70, 84] + tail == [70] + ([84] + tail);
    assert GET + tail == [71, 69] + ([84] + tail);
    assert Unparse(FT_REQUEST)[1..] == [84] + tail;
  }

  lemma SameBehind()
    ensures AfterVerb(FT_REQUEST) == AfterVerb(UPGRADE_REQUEST)
  {
  }

  lemma OneMoreEvent(c: Conn, es: seq<Event>, e: Event, h: Handler)
    requires HasBack(c.req)
    ensures RunAll(c, es + [e], h) == Apply(RunAll(c, es, h), e, h)
    ensures Possible(c, es + [e], h) <==> Possible(c, es, h) && Enabled(RunAll(c, es, h), e)
    ensures Received(es + [e]) == Received(es) + if e.ReadDone? && e.ec.NoError? then e.chunk else []
  {
    hide Apply, Enabled;
    assert (es + [e])[..|es|] == es;
  }

  /** Up to the second read: GE is where F was. */
  lemma DisturbedStart(c: Conn, h: Handler)
    requires IsNew(c)
    ensures var es := [Start, ReadDone(NoError, [70]), BufferWritten([71, 69])];
            var r := RunAll(c, es, h);
            && Possible(c, es, h) && Received(es) == [70]
            && r.protocol.Http? && r.pending == multiset{ReadOp} && !r.fault && r.wired == c.wired
            && Reader(r) == Feed(Reader(c), [71, 69])
  {
    hide Feed, RunAll, Possible, Received, OnRead;
    MethodOf70(Reader(c));
    FirstCharacter(c, h);
    var one, two := [Start], [Start, ReadDone(NoError, [70])];
    EmptyRun(c, h);
    OneMoreEvent(c, [], Start, h);
    assert [] + [Start] == one;
    OneMoreEvent(c, one, ReadDone(NoError, [70]), h);
    assert one + [ReadDone(NoError, [70])] == two;
    OneMoreEvent(c, two, BufferWritten([71, 69]), h);
    assert two + [BufferWritten([71, 69])] == [Start, ReadDone(NoError, [70]), BufferWritten([71, 69])];
  }

  lemma FirstCharacter(c: Conn, h: Handler)
    requires IsNew(c)
    ensures var r := Apply(Read(c), ReadDone(NoError, [70]), h);
            && r.protocol.Http? && r.pending == multiset{ReadOp} && !r.fault && r.wired == c.wired
            && Reader(r) == Feed(Reader(c), [70])
  {
    hide Feed;
    MethodOf70(Reader(c));
    assert Read(c).pending - multiset{ReadOp} == multiset{};
    assert Reader(Read(c)) == Reader(c);
  }

  lemma EmptyRun(c: Conn, h: Handler)
    requires HasBack(c.req)
    ensures RunAll(c, [], h) == c && Possible(c, [], h) && Received([]) == []
  {
  }

  lemma MethodOf70(m: Machine)
    requires IsFresh(m)
    ensures Feed(m, [70]) == m.(req := m.req.(state := Method), buffer := [70])
    ensures Feed(m, [71, 69]) == m.(req := m.req.(state := Method), buffer := [71, 69])
  {
    hide Feed, IsTokenChar;
    WordsAreTokens([70]);
    WordsAreTokens([71, 69]);
    S.MethodTurn(m, [70]);
    S.MethodTurn(m, [71, 69]);
  }

  /** A socket is handed over although the input begins with no GET request. */
  lemma UpgradeWithoutGet(c: Conn, open: Chars -> Option<Entry>)
    requires IsNew(c) && c.wired
    ensures var h := r => StatusOf(r, open);
            var es := DisturbedRun();
            && Possible(c, es, h) && Upgraded in RunAll(c, es, h).log
            && Begins(Received(es)) && forall t :: WellFormed(t) && Unparse(t) <= Received(es) ==> t.verb != GET
  {
    hide Feed, Unparse, Possible, RunAll, Received, WellFormed, Meaning, IsUpgradeRequest, HasHeader, IndexOf;
    var h := r => StatusOf(r, open);
    FtRequest();
    var rest := Unparse(FT_REQUEST)[1..];
    var three := [Start, ReadDone(NoError, [70]), BufferWritten([71, 69])];
    DisturbedStart(c, h);
    FeedInChunks(Reader(c), [71, 69], rest);
    UpgradeRequestIsWellFormed();
    UnparseIsRead(Reader(c), UPGRADE_REQUEST);
    UpgradeRequestIsAnswered(open);
    NamedInTable(UPGRADE_REQUEST);
    CompletedMeaning(UPGRADE_REQUEST);
    var four := three + [ReadDone(NoError, rest)];
    OneMoreEvent(c, three, ReadDone(NoError, rest), h);
    OneMoreEvent(c, four, WriteDone(NoError), h);
    assert four + [WriteDone(NoError)] == DisturbedRun();
    assert Received(four) + [] == Received(four) == Unparse(FT_REQUEST);
    NoGetBegins(Reader(c));
  }

  lemma UpgradeRequestIsAnswered(open: Chars -> Option<Entry>)
    ensures StatusOf(Meaning(UPGRADE_REQUEST), open) == SWITCHING_PROTOCOLS
  {
    hide IsUpgradeRequest, HasHeader, Meaning;
    UpgradeRequestMeans();
    UpgradeHeadersAsk();
    assert Percent.Decode([47]) == [47] + Percent.Decode([]);
  }

  lemma NoGetBegins(m: Machine)
    requires IsFresh(m)
    ensures Begins(Unparse(FT_REQUEST))
    ensures forall t :: WellFormed(t) && Unparse(t) <= Unparse(FT_REQUEST) ==> t.verb != GET
  {
    hide Feed, Unparse, WellFormed, Meaning;
    var input := Unparse(FT_REQUEST);
    FtRequest();
    AcceptsExactlyTheGrammar(m, input);
    assert WellFormed(FT_REQUEST) && Unparse(FT_REQUEST) <= input;
    GetMeaning(FT_REQUEST);
    forall t | WellFormed(t) && Unparse(t) <= input ensures t.verb != GET {
      GetMeaning(t);
    }
  }

  lemma GetMeaning(t: RequestText)
    ensures Meaning(t).verb == Get <==> t.verb == GET
  {
    VerbIffName(t.verb, Get);
  }
}
