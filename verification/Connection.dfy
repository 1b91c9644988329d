/** One connection of the HTTP server: asynchronous reads and writes, and the change of protocol. */
module Connection {
  import opened Options
  import opened Text
  import opened Request
  import opened RequestGrammar
  import opened RequestSoundness
  import opened RequestHandler
  import Percent
  import SharedBuffer

  datatype Protocol = Http | HttpUpgrading | WebSocket

  datatype Op = ReadOp | WriteOp

  datatype Error = NoError | OperationAborted | OtherError

  /** What the connection does that others can see; Warned is the branch for a read that completes when the
      connection has left HTTP. */
  datatype Action = ReadIssued | WriteIssued(code: nat) | Upgraded | ShutDown | Stopped | Warned

  type Handler = Fields -> nat

  /** `wired` says whether the server has an upgrade handler to pass the socket to; `fault` records that the
      name of a method was read outside the table, after which nothing is known. */
  datatype Conn = Conn(
    protocol: Protocol, req: Fields, buffer: Chars, response: nat, pending: multiset<Op>, log: seq<Action>,
    wired: bool, fault: bool)

  function Act(c: Conn, a: Action): Conn {
    c.(log := c.log + [a])
  }

  function Read(c: Conn): Conn {
    Act(c, ReadIssued).(pending := c.pending + multiset{ReadOp})
  }

  function Write(c: Conn): Conn {
    Act(c, WriteIssued(c.response)).(pending := c.pending + multiset{WriteOp})
  }

  /** The completion handler of a read. The name of the method is looked up before the request is
      handled, and the response is on its way before the protocol changes. */
  function OnRead(c: Conn, ec: Error, chunk: Chars, h: Handler): Conn
    requires HasBack(c.req)
  {
    match ec
    case NoError =>
      if c.protocol.Http? then
        var m := Feed(Machine(c.req, c.buffer, More), chunk);
        var c := c.(req := m.req, buffer := m.buffer);
        if m.status.Bad? then Write(c.(response := BAD_REQUEST))
        else if m.req.state.Completed? then
          if IndexOf(m.req.verb) >= |METHOD_NAMES| then c.(fault := true)
          else
            var c := Write(c.(response := h(m.req)));
            if c.response == SWITCHING_PROTOCOLS then c.(protocol := HttpUpgrading) else c
        else Read(c)
      else Act(c, Warned)
    case OperationAborted => c
    case OtherError => Act(c, Stopped)
  }

  /** The completion handler of a write. An upgrade takes place whether or not the write succeeded. */
  function OnWrite(c: Conn, ec: Error): Conn {
    if c.protocol.HttpUpgrading? then
      var c := c.(protocol := WebSocket);
      if c.wired then Act(c, Upgraded) else c
    else
      match ec
      case NoError => Act(Act(c, ShutDown), Stopped)
      case OperationAborted => c
      case OtherError => Act(c, Stopped)
  }

  // ----- The object

  class Link {
    const reader: Reader
    const wired: bool
    var protocol: Protocol
    var response: nat
    ghost var pending: multiset<Op>
    ghost var log: seq<Action>
    ghost var fault: bool

    ghost function Now(): Conn
      reads this, reader, reader.shared
    {
      Conn(protocol, reader.Now(), reader.shared.buffer, response, pending, log, wired, fault)
    }

    constructor (reader: Reader, wired: bool)
      ensures this.reader == reader
      ensures Now() == Conn(Http, reader.Now(), reader.shared.buffer, response, multiset{}, [], wired, false)
    {
      this.reader, this.wired := reader, wired;
      protocol, response := Http, *;
      pending, log, fault := multiset{}, [], false;
    }

    /** Other members of the socket's life are only recorded. */
    ghost method Record(a: Action)
      modifies this
      ensures Now() == Act(old(Now()), a)
      ensures protocol == old(protocol) && response == old(response) && pending == old(pending)
    {
      log := log + [a];
    }

    method Start()
      modifies this
      ensures Now() == Read(old(Now()))
    {
      IssueRead();
    }

    method Stop()
      modifies this
      ensures Now() == Act(old(Now()), Stopped)
    {
      Record(Stopped);
    }

    method IssueRead()
      modifies this
      ensures Now() == Read(old(Now()))
      ensures protocol == old(protocol) && response == old(response)
    {
      pending, log := pending + multiset{ReadOp}, log + [ReadIssued];
    }

    method IssueWrite()
      modifies this
      ensures Now() == Write(old(Now()))
      ensures protocol == old(protocol) && response == old(response)
    {
      pending, log := pending + multiset{WriteOp}, log + [WriteIssued(response)];
    }

    method ReadCompleted(ec: Error, chunk: Chars, h: Handler)
      requires HasBack(reader.Now())
      modifies this, reader, reader.shared
      ensures Now() == OnRead(old(Now()), ec, chunk, h)
    {
      hide Feed, HasBack;
      if ec.NoError? {
        match protocol
        case Http =>
          var status := reader.ParseSomeData(chunk);
          if status.Bad? {
            response := BAD_REQUEST;
            IssueWrite();
          } else if reader.state.Completed? {
            var name := reader.GetMethodName();
            if name.None? {
              fault := true;
              return;
            }
            var request := Fields(reader.state, reader.verb, reader.uri, reader.major, reader.minor, reader.headers);
            response := h(request);
            IssueWrite();
            if response == SWITCHING_PROTOCOLS {
              protocol := HttpUpgrading;
            }
          } else {
            IssueRead();
          }
        case _ => Record(Warned);
      } else if !ec.OperationAborted? {
        Record(Stopped);
      }
    }

    method WriteCompleted(ec: Error)
      modifies this
      ensures Now() == OnWrite(old(Now()), ec)
    {
      if protocol.HttpUpgrading? {
        protocol := WebSocket;
        if wired {
          Record(Upgraded);
        }
      } else {
        if ec.NoError? {
          Record(ShutDown);
        }
        if !ec.OperationAborted? {
          Record(Stopped);
        }
      }
    }
  }

  /** The connections of a server that are open. */
  class Connections {
    var members: set<Link>

    constructor ()
      ensures members == {}
    {
      members := {};
    }

    method Start(link: Link)
      modifies this, link
      ensures members == old(members) + {link} && link.Now() == Read(old(link.Now()))
    {
      members := members + {link};
      link.Start();
    }

    method Stop(link: Link)
      modifies this, link
      ensures members == old(members) - {link} && link.Now() == Act(old(link.Now()), Stopped)
    {
      members := members - {link};
      link.Stop();
    }

    /** Every open connection is stopped once, and no other one is touched. */
    method StopAll()
      modifies this, members
      ensures members == {}
      ensures forall l :: l in old(members) ==> l.log == old(l.log) + [Stopped] && l.pending == old(l.pending)
    {
      var rest := members;
      while rest != {}
        invariant members == old(members) && rest <= members
        invariant forall l :: l in members ==>
                    l.pending == old(l.pending) && l.log == if l in rest then old(l.log) else old(l.log) + [Stopped]
        decreases |rest|
      {
        var link :| link in rest;
        assert link.Now().log == link.log && link.Now().pending == link.pending;
        link.Stop();
        assert link.log == link.Now().log && link.pending == link.Now().pending;
        rest := rest - {link};
      }
      members := {};
    }
  }

  // ----- Runs

  /** What happens to a connection: the start, completions of its own operations, a server that stops all
      connections, other requests that write the static buffer. */
  datatype Event = Start | ReadDone(ec: Error, chunk: Chars) | WriteDone(ec: Error) | StopAll | BufferWritten(text: Chars)

  predicate Enabled(c: Conn, e: Event) {
    !c.fault &&
    match e
    case Start => c.log == []
    case ReadDone(_, _) => ReadOp in c.pending
    case WriteDone(_) => WriteOp in c.pending
    case StopAll => c.log != []
    case BufferWritten(_) => true
  }

  function Apply(c: Conn, e: Event, h: Handler): (r: Conn)
    requires HasBack(c.req)
    ensures HasBack(r.req)
  {
    match e
    case Start => Read(c)
    case ReadDone(ec, chunk) => OnRead(c.(pending := c.pending - multiset{ReadOp}), ec, chunk, h)
    case WriteDone(ec) => OnWrite(c.(pending := c.pending - multiset{WriteOp}), ec)
    case StopAll => Act(c, Stopped)
    case BufferWritten(text) => c.(buffer := text)
  }

  function RunAll(c: Conn, es: seq<Event>, h: Handler): (r: Conn)
    requires HasBack(c.req)
    ensures HasBack(r.req)
  {
    if |es| == 0 then c else Apply(RunAll(c, es[..|es| - 1], h), es[|es| - 1], h)
  }

  /** Operations complete only when they are outstanding, and after the call that issued them. */
  predicate Possible(c: Conn, es: seq<Event>, h: Handler)
    requires HasBack(c.req)
  {
    |es| > 0 ==> Possible(c, es[..|es| - 1], h) && Enabled(RunAll(c, es[..|es| - 1], h), es[|es| - 1])
  }

  predicate IsNew(c: Conn) {
    && c.protocol.Http? && c.pending == multiset{} && c.log == [] && !c.fault
    && IsFresh(Machine(c.req, c.buffer, More))
  }

  // ----- The shape of every run

  /** The log without the closing of the socket. */
  function Main(log: seq<Action>): seq<Action> {
    if |log| == 0 then []
    else
      var last := log[|log| - 1];
      Main(log[..|log| - 1]) + if last.ShutDown? || last.Stopped? then [] else [last]
  }

  function Reads(n: nat): seq<Action> {
    seq(n, i => ReadIssued)
  }

  /** Some reads, nothing else. */
  predicate Reading(c: Conn, n: nat) {
    && Main(c.log) == Reads(n) && c.protocol.Http? && !c.req.state.Completed? && !c.fault
    && (c.pending == multiset{} || (c.pending == multiset{ReadOp} && n > 0))
  }

  /** Some reads and one response on its way. */
  predicate Answering(c: Conn, n: nat) {
    && Main(c.log) == Reads(n) + [WriteIssued(c.response)] && c.pending == multiset{WriteOp}
    && c.protocol == (if c.response == SWITCHING_PROTOCOLS then HttpUpgrading else Http) && !c.fault
  }

  /** Some reads and one response that is no longer on its way and does not change the protocol. */
  predicate Answered(c: Conn, n: nat) {
    && Main(c.log) == Reads(n) + [WriteIssued(c.response)] && c.pending == multiset{}
    && c.response != SWITCHING_PROTOCOLS && c.protocol.Http? && !c.fault
  }

  function HandedOver(c: Conn): seq<Action> {
    if c.wired then [Upgraded] else []
  }

  /** Some reads, one 101, and the upgrade. */
  predicate Switched(c: Conn, n: nat) {
    && Main(c.log) == Reads(n) + [WriteIssued(SWITCHING_PROTOCOLS)] + HandedOver(c)
    && c.pending == multiset{} && c.protocol.WebSocket? && c.response == SWITCHING_PROTOCOLS && !c.fault
  }

  /** Some reads, and the lookup of a name that is not in the table. */
  predicate Faulted(c: Conn, n: nat) {
    && Main(c.log) == Reads(n) && c.protocol.Http? && c.pending == multiset{} && c.fault
    && c.req.state.Completed? && IndexOf(c.req.verb) >= |METHOD_NAMES|
  }

  /** Where a run can be, before and after a write has completed. */
  predicate Shape(c: Conn, n: nat, wrote: bool) {
    if wrote then Answered(c, n) || Switched(c, n) else Reading(c, n) || Answering(c, n) || Faulted(c, n)
  }

  lemma MainAppend(log: seq<Action>, a: Action)
    ensures Main(log + [a]) == Main(log) + if a.ShutDown? || a.Stopped? then [] else [a]
  {
    assert (log + [a])[..|log|] == log;
  }

  lemma OneMoreRead(n: nat)
    ensures Reads(n) + [ReadIssued] == Reads(n + 1)
  {
  }

  lemma {:induction false} MainIsInLog(log: seq<Action>, a: Action)
    requires !a.ShutDown? && !a.Stopped?
    ensures a in log <==> a in Main(log)
  {
    if |log| > 0 {
      var init, last := log[..|log| - 1], log[|log| - 1];
      assert log == init + [last];
      MainIsInLog(init, a);
    }
  }

  lemma CompletedIsDone(m: Machine, c: schar)
    requires HasBack(m.req) && m.status.More? && !m.req.state.Completed?
    ensures Step(m, c).req.state.Completed? <==> Step(m, c).status.Done?
  {
    hide VerbOf, IsTokenChar, IsCtrl, IsWhite, IsDigit, AppendName, AppendValue;
  }

  lemma {:induction false} FeedCompletes(m: Machine, s: Chars)
    requires HasBack(m.req) && m.status.More? && !m.req.state.Completed?
    ensures Feed(m, s).req.state.Completed? <==> Feed(m, s).status.Done?
    decreases |s|
  {
    hide Step, HasBack;
    if |s| > 0 {
      CompletedIsDone(m, s[0]);
      if Step(m, s[0]).status.More? {
        FeedCompletes(Step(m, s[0]), s[1..]);
      }
    }
  }

  lemma OnlyReading(c: Conn, n: nat, wrote: bool)
    requires Shape(c, n, wrote) && ReadOp in c.pending
    ensures Reading(c, n) && !wrote && c.pending - multiset{ReadOp} == multiset{}
  {
    hide Main, Reads;
  }

  lemma OnlyAnswering(c: Conn, n: nat, wrote: bool)
    requires Shape(c, n, wrote) && WriteOp in c.pending
    ensures Answering(c, n) && !wrote && c.pending - multiset{WriteOp} == multiset{}
  {
    hide Main, Reads;
  }

  lemma IssuesRead(c: Conn, n: nat)
    requires Reading(c, n) && c.pending == multiset{}
    ensures Reading(Read(c), n + 1)
  {
    hide Main, Reads;
    MainAppend(c.log, ReadIssued);
    OneMoreRead(n);
  }

  lemma ReadKeepsShape(c: Conn, n: nat, wrote: bool, ec: Error, chunk: Chars, h: Handler) returns (k: nat)
    requires HasBack(c.req) && Shape(c, n, wrote) && ReadOp in c.pending
    ensures Shape(Apply(c, ReadDone(ec, chunk), h), k, wrote)
    ensures Reading(c, n) && !wrote
  {
    hide Feed, HasBack, Main, Reads, Read, Write;
    OnlyReading(c, n, wrote);
    var idle := c.(pending := c.pending - multiset{ReadOp});
    k := n;
    match ec
    case NoError =>
      var m := Feed(Machine(c.req, c.buffer, More), chunk);
      var parsed := idle.(req := m.req, buffer := m.buffer);
      if m.status.Bad? {
        ResponseAfter(idle, parsed, n, BAD_REQUEST);
      } else if m.req.state.Completed? && IndexOf(m.req.verb) >= |METHOD_NAMES| {
        assert Faulted(parsed.(fault := true), n);
      } else if m.req.state.Completed? {
        ResponseAfter(idle, parsed, n, h(m.req));
      } else {
        assert Reading(parsed, n);
        IssuesRead(parsed, n);
        k := n + 1;
      }
    case OperationAborted =>
    case OtherError => MainAppend(c.log, Stopped);
  }

  lemma ResponseAfter(idle: Conn, parsed: Conn, n: nat, code: nat)
    requires Reading(idle, n) && idle.pending == multiset{}
    requires parsed == idle.(req := parsed.req, buffer := parsed.buffer)
    ensures var w := Write(parsed.(response := code));
            && (code != SWITCHING_PROTOCOLS ==> Answering(w, n))
            && (code == SWITCHING_PROTOCOLS ==> Answering(w.(protocol := HttpUpgrading), n))
            && w.response == code
  {
    hide Main, Reads;
    MainAppend(idle.log, WriteIssued(code));
  }

  lemma WriteKeepsShape(c: Conn, n: nat, wrote: bool, ec: Error, h: Handler)
    requires HasBack(c.req) && Shape(c, n, wrote) && WriteOp in c.pending
    ensures Shape(Apply(c, WriteDone(ec), h), n, true)
  {
    OnlyAnswering(c, n, wrote);
    hide HasBack, Main, Reads, Shape;
    var r := Apply(c, WriteDone(ec), h);
    MainAppend(c.log, Upgraded);
    MainAppend(c.log, ShutDown);
    MainAppend(c.log + [ShutDown], Stopped);
    MainAppend(c.log, Stopped);
    assert Answered(r, n) || Switched(r, n);
    DoneShape(r, n);
  }

  lemma DoneShape(c: Conn, n: nat)
    requires Answered(c, n) || Switched(c, n)
    ensures Shape(c, n, true)
  {
  }

  lemma StopKeepsShape(c: Conn, n: nat, wrote: bool)
    requires Shape(c, n, wrote)
    ensures Shape(Act(c, Stopped), n, wrote)
  {
    hide Main, Reads;
    MainAppend(c.log, Stopped);
  }

  lemma StartKeepsShape(c: Conn, n: nat, wrote: bool)
    requires Shape(c, n, wrote) && c.log == [] && !c.fault
    ensures Reading(Read(c), n + 1) && !wrote
  {
    OneMoreRead(n);
    MainAppend(c.log, ReadIssued);
  }

  lemma EventKeepsShape(c: Conn, n: nat, wrote: bool, e: Event, h: Handler) returns (k: nat)
    requires HasBack(c.req) && Shape(c, n, wrote) && Enabled(c, e)
    ensures Shape(Apply(c, e, h), k, wrote || e.WriteDone?)
  {
    hide Feed, HasBack, Main, Reads;
    k := n;
    match e
    case Start =>
      StartKeepsShape(c, n, wrote);
      k := n + 1;
    case ReadDone(ec, chunk) => k := ReadKeepsShape(c, n, wrote, ec, chunk, h);
    case WriteDone(ec) => WriteKeepsShape(c, n, wrote, ec, h);
    case StopAll => StopKeepsShape(c, n, wrote);
    case BufferWritten(_) =>
  }

  /** A write has completed. */
  predicate Wrote(es: seq<Event>) {
    |es| > 0 && (Wrote(es[..|es| - 1]) || es[|es| - 1].WriteDone?)
  }

  lemma {:induction false} WroteMeans(es: seq<Event>)
    ensures Wrote(es) <==> exists e :: e in es && e.WriteDone?
  {
    if |es| > 0 {
      var init, last := es[..|es| - 1], es[|es| - 1];
      assert es == init + [last];
      WroteMeans(init);
    }
  }

  lemma {:induction false} RunKeepsShape(c: Conn, es: seq<Event>, h: Handler) returns (n: nat)
    requires IsNew(c) && Possible(c, es, h)
    ensures Shape(RunAll(c, es, h), n, Wrote(es)) && RunAll(c, es, h).wired == c.wired
  {
    hide Apply, Shape, Enabled;
    if |es| == 0 {
      NewShape(c);
      n := 0;
    } else {
      var init, e := es[..|es| - 1], es[|es| - 1];
      n := RunKeepsShape(c, init, h);
      WiredStays(RunAll(c, init, h), e, h);
      n := EventKeepsShape(RunAll(c, init, h), n, Wrote(init), e, h);
    }
  }

  lemma NewShape(c: Conn)
    requires IsNew(c)
    ensures Shape(c, 0, false)
  {
  }

  lemma WiredStays(c: Conn, e: Event, h: Handler)
    requires HasBack(c.req)
    ensures Apply(c, e, h).wired == c.wired
  {
    hide Feed, HasBack;
  }

  /** On every run: never two operations at once; first reads, then at most one response and no read behind
      it, then at most one upgrade, behind a 101 only; the branch for a read outside HTTP is never taken. A
      run that looks up a name outside the table has done nothing but read. */
  lemma Lifecycle(c: Conn, es: seq<Event>, h: Handler)
    requires IsNew(c) && Possible(c, es, h)
    ensures var r := RunAll(c, es, h);
            && |r.pending| <= 1 && Warned !in r.log
            && exists n :: Shape(r, n, Wrote(es))
  {
    hide RunAll, Possible, Reads;
    var n := RunKeepsShape(c, es, h);
    var r := RunAll(c, es, h);
    MainIsInLog(r.log, Warned);
    NoWarning(n);
  }

  lemma NoWarning(n: nat)
    ensures Warned !in Reads(n) && Upgraded !in Reads(n)
  {
  }

  function Progress(p: Protocol): nat {
    match p
    case Http => 0
    case HttpUpgrading => 1
    case WebSocket => 2
  }

  /** The protocol only moves on, one step at a time. */
  lemma ProtocolAdvances(c: Conn, e: Event, h: Handler)
    requires HasBack(c.req) && Enabled(c, e) && exists n, wrote :: Shape(c, n, wrote)
    ensures Progress(c.protocol) <= Progress(Apply(c, e, h).protocol) <= Progress(c.protocol) + 1
  {
    hide Feed, HasBack, Main, Reads, Shape;
    var n, wrote :| Shape(c, n, wrote);
    if e.ReadDone? {
      OnlyReading(c, n, wrote);
    } else if e.WriteDone? {
      OnlyAnswering(c, n, wrote);
    }
  }

  predicate Aborted(e: Event) {
    (e.ReadDone? || e.WriteDone?) && e.ec.OperationAborted?
  }

  /** A connection with nothing outstanding is not forgotten: it has not started, it was stopped, its socket was
      handed over, it faulted, one of its operations was aborted, or it switched to a protocol nobody handles. */
  lemma {:induction false} NoneForgotten(c: Conn, es: seq<Event>, h: Handler)
    requires IsNew(c) && Possible(c, es, h)
    ensures var r := RunAll(c, es, h);
            r.pending == multiset{} ==>
              || r.log == [] || Stopped in r.log || Upgraded in r.log || r.fault
              || (exists e :: e in es && Aborted(e))
              || (!c.wired && Answer(r.log) == Some(SWITCHING_PROTOCOLS) && r.protocol.WebSocket?)
  {
    hide Shape, Apply, Enabled;
    if |es| > 0 {
      var init, e := es[..|es| - 1], es[|es| - 1];
      NoneForgotten(c, init, h);
      var n := RunKeepsShape(c, init, h);
      var last := RunAll(c, init, h);
      assert e in es && forall d :: d in init ==> d in es;
      EventForgetsNot(last, n, Wrote(init), e, h);
      var k := RunKeepsShape(c, es, h);
      SwitchedSays(RunAll(c, es, h), k, Wrote(es));
    }
  }

  /** What a connection that has left HTTP has done. */
  lemma SwitchedSays(c: Conn, n: nat, wrote: bool)
    requires Shape(c, n, wrote)
    ensures c.protocol.WebSocket? ==>
              Answer(c.log) == Some(SWITCHING_PROTOCOLS) && (c.wired ==> Upgraded in c.log)
  {
    if c.protocol.WebSocket? {
      AnswerOf(c.log, n, SWITCHING_PROTOCOLS, HandedOver(c));
      MainIsInLog(c.log, Upgraded);
    }
  }

  lemma EventForgetsNot(c: Conn, n: nat, wrote: bool, e: Event, h: Handler)
    requires HasBack(c.req) && Shape(c, n, wrote) && Enabled(c, e)
    ensures !c.fault
    ensures var r := Apply(c, e, h);
            r.pending == multiset{} ==>
              || Stopped in r.log || r.protocol.WebSocket? || r.fault || Aborted(e)
              || (c.pending == multiset{} && r.log == c.log && r.protocol == c.protocol)
  {
    hide Feed, HasBack, Main, Reads;
    if e.ReadDone? {
      OnlyReading(c, n, wrote);
    } else if e.WriteDone? {
      OnlyAnswering(c, n, wrote);
    }
  }

  // ----- What is answered

  /** The status of the response issued, if any. */
  function Answer(log: seq<Action>): Option<nat> {
    if |log| == 0 then None
    else if log[|log| - 1].WriteIssued? then Some(log[|log| - 1].code)
    else Answer(log[..|log| - 1])
  }

  /** Everything the reads have delivered. */
  function Received(es: seq<Event>): Chars {
    if |es| == 0 then []
    else
      var e := es[|es| - 1];
      Received(es[..|es| - 1]) + if e.ReadDone? && e.ec.NoError? then e.chunk else []
  }

  /** No other request writes the static buffer while this one is suspended inside its method. */
  predicate Undisturbed(c: Conn, es: seq<Event>, h: Handler)
    requires HasBack(c.req)
  {
    |es| > 0 ==>
      && Undisturbed(c, es[..|es| - 1], h)
      && (es[|es| - 1].BufferWritten? ==> !RunAll(c, es[..|es| - 1], h).req.state.Method?)
  }

  /** What the machine alone makes of the input, and where the connection is with it. */
  predicate Agrees(c: Conn, m: Machine, h: Handler) {
    match Answer(c.log)
    case None =>
      if c.fault then m.status.Done? && IndexOf(m.req.verb) >= |METHOD_NAMES|
      else m.status.More? && c.req == m.req && (m.req.state.Method? ==> c.buffer == m.buffer)
    case Some(code) =>
      && !c.fault && !m.status.More? && (m.status.Done? ==> IndexOf(m.req.verb) < |METHOD_NAMES|)
      && code == if m.status.Done? then h(m.req) else BAD_REQUEST
  }

  lemma AnswerAppend(log: seq<Action>, a: Action)
    ensures Answer(log + [a]) == if a.WriteIssued? then Some(a.code) else Answer(log)
  {
    assert (log + [a])[..|log|] == log;
  }

  lemma {:induction false} NoAnswerYet(log: seq<Action>, n: nat)
    requires Main(log) == Reads(n)
    ensures Answer(log) == None
    decreases |log|
  {
    if |log| > 0 {
      var init, last := log[..|log| - 1], log[|log| - 1];
      assert log == init + [last];
      if last.ShutDown? || last.Stopped? {
        NoAnswerYet(init, n);
      } else {
        assert Main(log)[|Main(log)| - 1] == last;
        assert Main(init) == Reads(n)[..n - 1] == Reads(n - 1);
        NoAnswerYet(init, n - 1);
      }
    }
  }

  lemma ResponseAgrees(c: Conn, m: Machine, code: nat, h: Handler)
    requires Answer(c.log) == None && !m.status.More? && !c.fault
    requires m.status.Done? ==> IndexOf(m.req.verb) < |METHOD_NAMES|
    requires code == if m.status.Done? then h(m.req) else BAD_REQUEST
    ensures var w := Write(c.(response := code)); Agrees(w, m, h) && Agrees(w.(protocol := HttpUpgrading), m, h)
  {
    AnswerAppend(c.log, WriteIssued(code));
  }

  lemma ReadOnAgrees(c: Conn, m: Machine, h: Handler)
    requires Answer(c.log) == None && !c.fault && m.status.More? && c.req == m.req
    requires m.req.state.Method? ==> c.buffer == m.buffer
    ensures Agrees(Read(c), m, h)
  {
    AnswerAppend(c.log, ReadIssued);
  }

  lemma ReadAgrees(c: Conn, m: Machine, n: nat, ec: Error, chunk: Chars, h: Handler)
    requires HasBack(c.req) && HasBack(m.req) && Reading(c, n) && ReadOp in c.pending && Agrees(c, m, h)
    ensures Agrees(Apply(c, ReadDone(ec, chunk), h), if ec.NoError? then Feed(m, chunk) else m, h)
  {
    hide Feed, HasBack, Main, Reads, Write, Read;
    NoAnswerYet(c.log, n);
    match ec
    case NoError =>
      SharedBuffer.FeedAndBuffer(m, c.buffer, chunk);
      assert m.(buffer := c.buffer) == Machine(c.req, c.buffer, More);
      FeedCompletes(m, chunk);
      var alone, r := Feed(m, chunk), Feed(Machine(c.req, c.buffer, More), chunk);
      var parsed := c.(pending := c.pending - multiset{ReadOp}, req := r.req, buffer := r.buffer);
      if r.status.Done? && IndexOf(r.req.verb) >= |METHOD_NAMES| {
        assert Agrees(parsed.(fault := true), alone, h);
      } else if r.status.More? {
        hide Agrees, Answer;
        ReadOnAgrees(parsed, alone, h);
      } else {
        hide Agrees, Answer;
        ResponseAgrees(parsed, alone, if r.status.Done? then h(r.req) else BAD_REQUEST, h);
      }
    case OperationAborted =>
    case OtherError => AnswerAppend(c.log, Stopped);
  }

  lemma OtherEventAgrees(c: Conn, m: Machine, e: Event, h: Handler)
    requires HasBack(c.req) && Agrees(c, m, h) && !e.ReadDone?
    requires e.BufferWritten? ==> !c.req.state.Method?
    ensures Agrees(Apply(c, e, h), m, h)
  {
    hide Feed, HasBack;
    AnswerAppend(c.log, ReadIssued);
    AnswerAppend(c.log, Upgraded);
    AnswerAppend(c.log, ShutDown);
    AnswerAppend(c.log + [ShutDown], Stopped);
    AnswerAppend(c.log, Stopped);
  }

  lemma {:induction false} RunAgrees(c: Conn, es: seq<Event>, h: Handler)
    requires IsNew(c) && Possible(c, es, h) && Undisturbed(c, es, h)
    ensures Agrees(RunAll(c, es, h), Feed(Machine(c.req, c.buffer, More), Received(es)), h)
  {
    hide Feed, Apply, Agrees, Shape;
    var m := Machine(c.req, c.buffer, More);
    if |es| == 0 {
      FeedNothing(m);
      NewAgrees(c, h);
    } else {
      var init, e := es[..|es| - 1], es[|es| - 1];
      RunAgrees(c, init, h);
      var r := RunAll(c, init, h);
      if e.ReadDone? {
        var n := RunKeepsShape(c, init, h);
        var _ := ReadKeepsShape(r, n, Wrote(init), e.ec, e.chunk, h);
        FeedInChunks(m, Received(init), if e.ec.NoError? then e.chunk else []);
        FeedNothing(Feed(m, Received(init)));
        ReadAgrees(r, Feed(m, Received(init)), n, e.ec, e.chunk, h);
      } else {
        assert Received(es) == Received(init) + [] == Received(init);
        OtherEventAgrees(r, Feed(m, Received(init)), e, h);
      }
    }
  }

  lemma NewAgrees(c: Conn, h: Handler)
    requires IsNew(c)
    ensures Agrees(c, Machine(c.req, c.buffer, More), h)
  {
  }

  /** The input begins with a request whose method has no name in the table. */
  ghost predicate BeginsUnnamed(input: Chars) {
    exists t :: WellFormed(t) && Unparse(t) <= input && t.verb !in METHOD_NAMES
  }

  /** Whatever the chunks and the other events are: no response as long as the input can still become a
      request; the handler's answer to exactly the request the input begins with, if its method is one of the
      nine names; 400 to every other input. The name is looked up outside the table exactly for a request with
      any other method. */
  lemma AnswersExactly(c: Conn, es: seq<Event>, h: Handler)
    requires IsNew(c) && Possible(c, es, h) && Undisturbed(c, es, h)
    ensures var r, input := RunAll(c, es, h), Received(es);
            var a := Answer(r.log);
            && (r.fault <==> BeginsUnnamed(input))
            && (a == None <==> CanContinue(input) || BeginsUnnamed(input))
            && (forall t :: WellFormed(t) && Unparse(t) <= input && t.verb in METHOD_NAMES ==> a == Some(h(Meaning(t))))
            && (!Begins(input) && !CanContinue(input) ==> a == Some(BAD_REQUEST))
  {
    hide Feed, RunAll, Possible, Undisturbed, Received, WellFormed, Unparse, Meaning;
    RunAgrees(c, es, h);
    var input, m := Received(es), Feed(Machine(c.req, c.buffer, More), Received(es));
    AcceptsExactlyTheGrammar(Machine(c.req, c.buffer, More), input);
    forall t | WellFormed(t) && Unparse(t) <= input
      ensures m.status.Done? && m.req == Meaning(t) && (IndexOf(m.req.verb) < |METHOD_NAMES| <==> t.verb in METHOD_NAMES)
    {
      assert Begins(input);
      NamedInTable(t);
    }
  }

  /** With the program's own handler, undisturbed: every request of the grammar with a named method is answered
      with the one status it deserves, and every other input that cannot become a request with 400. */
  lemma StatusesExactly(c: Conn, es: seq<Event>, open: Chars -> Option<Entry>)
    requires IsNew(c) && Possible(c, es, r => StatusOf(r, open)) && Undisturbed(c, es, r => StatusOf(r, open))
    ensures var input, a := Received(es), Answer(RunAll(c, es, r => StatusOf(r, open)).log);
            && (forall t :: WellFormed(t) && Unparse(t) <= input && t.verb in METHOD_NAMES ==>
                  a.Some? && Deserves(Meaning(t), open, a.value))
            && (!Begins(input) && !CanContinue(input) ==> a == Some(400))
  {
    hide RunAll, Possible, Undisturbed, Received, WellFormed, Unparse, Meaning, Deserves;
    var h := r => StatusOf(r, open);
    AnswersExactly(c, es, h);
    forall t | WellFormed(t) && Unparse(t) <= Received(es) && t.verb in METHOD_NAMES
      ensures Deserves(Meaning(t), open, h(Meaning(t)))
    {
      StatusIff(Meaning(t), open, h(Meaning(t)));
    }
  }

  lemma NamedInTable(t: RequestText)
    ensures IndexOf(Meaning(t).verb) < |METHOD_NAMES| <==> t.verb in METHOD_NAMES
  {
    LookupInTableIff(t.verb);
  }

  /** FOO / HTTP/1.0 */
  const UNKNOWN_METHOD := RequestText([70, 79, 79], [47], [49], [48], [])

  /** A first read that holds a whole request with a method of its own faults. */
  lemma UnknownMethodFaults(c: Conn, h: Handler)
    requires IsNew(c)
    ensures var es := [Start, ReadDone(NoError, Unparse(UNKNOWN_METHOD))];
            Possible(c, es, h) && RunAll(c, es, h).fault
  {
    hide Feed, Unparse, WellFormed, Meaning;
    var es := [Start, ReadDone(NoError, Unparse(UNKNOWN_METHOD))];
    UnknownMethod();
    NamedInTable(UNKNOWN_METHOD);
    CompletedMeaning(UNKNOWN_METHOD);
    UnparseIsRead(Machine(c.req, c.buffer, More), UNKNOWN_METHOD);
    TwoEvents(c, es, h);
  }

  predicate Wordy(s: Chars) {
    s != [] && forall i :: 0 <= i < |s| ==> IsUpper(s[i]) || IsLower(s[i]) || s[i] == 45
  }

  lemma WordsAreTokens(s: Chars)
    requires Wordy(s)
    ensures Token(s) && NoControls(s)
  {
    hide IsTokenChar, IsCtrl;
    forall i | 0 <= i < |s| ensures IsTokenChar(s[i]) && !IsCtrl(s[i]) {
      TokenCharsAre(s[i]);
      TokenCharsAreNot(s[i]);
    }
  }

  lemma UnknownMethod()
    ensures WellFormed(UNKNOWN_METHOD) && UNKNOWN_METHOD.verb !in METHOD_NAMES
  {
    WordsAreTokens(UNKNOWN_METHOD.verb);
    hide Token;
    NotAName(UNKNOWN_METHOD.verb);
  }

  lemma NotAName(s: Chars)
    requires |s| == 3 && s[0] == 70
    ensures s !in METHOD_NAMES
  {
    assert GET[0] == 71 && PUT[0] == 80;
  }

  lemma CompletedMeaning(t: RequestText)
    ensures Meaning(t).state.Completed?
  {
  }

  lemma TwoEvents(c: Conn, es: seq<Event>, h: Handler)
    requires HasBack(c.req) && |es| == 2
    ensures RunAll(c, es, h) == Apply(Apply(c, es[0], h), es[1], h)
    ensures Possible(c, es, h) <==> Enabled(c, es[0]) && Enabled(Apply(c, es[0], h), es[1])
  {
    hide Apply, Enabled;
    assert es[..1][..0] == [] && es[..|es| - 1] == es[..1];
    assert RunAll(c, es[..1], h) == Apply(RunAll(c, es[..1][..0], h), es[0], h);
    assert Possible(c, es[..1], h) == (Possible(c, es[..1][..0], h) && Enabled(RunAll(c, es[..1][..0], h), es[0]));
  }

  lemma {:induction false} AnswerOf(log: seq<Action>, n: nat, code: nat, more: seq<Action>)
    requires Main(log) == Reads(n) + [WriteIssued(code)] + more && forall i :: 0 <= i < |more| ==> !more[i].WriteIssued?
    ensures Answer(log) == Some(code)
    decreases |log|
  {
    hide Reads;
    var init, last := log[..|log| - 1], log[|log| - 1];
    assert log == init + [last];
    if last.ShutDown? || last.Stopped? {
      AnswerOf(init, n, code, more);
    } else {
      assert last == Main(log)[|Main(log)| - 1];
      if |more| > 0 {
        assert last == more[|more| - 1];
        assert Main(init) == Main(log)[..|Main(log)| - 1] == Reads(n) + [WriteIssued(code)] + more[..|more| - 1];
        AnswerOf(init, n, code, more[..|more| - 1]);
      }
    }
  }

  /** The socket is handed over only if the client has sent, as the beginning of its input, a request of the
      grammar that asks for the WebSocket protocol; and then the 101 has gone out before. */
  lemma UpgradeIsAskedFor(c: Conn, es: seq<Event>, open: Chars -> Option<Entry>)
    requires IsNew(c) && Possible(c, es, r => StatusOf(r, open)) && Undisturbed(c, es, r => StatusOf(r, open))
    ensures var r := RunAll(c, es, req => StatusOf(req, open));
            Upgraded in r.log ==>
              && Answer(r.log) == Some(SWITCHING_PROTOCOLS)
              && exists t :: WellFormed(t) && Unparse(t) <= Received(es) && t.verb == GET && AsksForWebSocket(Meaning(t))
  {
    hide Feed, RunAll, Possible, Undisturbed, Received, WellFormed, Unparse, Meaning, Reads, AsksForWebSocket;
    var h := r => StatusOf(r, open);
    var n := RunKeepsShape(c, es, h);
    var r := RunAll(c, es, h);
    MainIsInLog(r.log, Upgraded);
    NoWarning(n);
    if Upgraded in r.log {
      AnswerOf(r.log, n, SWITCHING_PROTOCOLS, HandedOver(r));
      AnswersExactly(c, es, h);
      var t :| WellFormed(t) && Unparse(t) <= Received(es);
      SwitchesIff(Meaning(t), open);
      AsksByName(t);
    }
  }

  /** A socket is handed over if and only if a write has completed, with whatever error, behind a 101 on a
      connection with an upgrade handler. */
  lemma HandedOverIff(c: Conn, es: seq<Event>, h: Handler)
    requires IsNew(c) && Possible(c, es, h)
    ensures var r := RunAll(c, es, h);
            Upgraded in r.log <==>
              c.wired && Answer(r.log) == Some(SWITCHING_PROTOCOLS) && exists e :: e in es && e.WriteDone?
  {
    hide RunAll, Possible, Reads, Main, Answer;
    var n := RunKeepsShape(c, es, h);
    var r := RunAll(c, es, h);
    WroteMeans(es);
    MainIsInLog(r.log, Upgraded);
    NoWarning(n);
    if Answered(r, n) || Answering(r, n) {
      AnswerOf(r.log, n, r.response, []);
    } else if Switched(r, n) {
      AnswerOf(r.log, n, SWITCHING_PROTOCOLS, HandedOver(r));
    }
  }

  /** What follows a response: behind a 101 the socket is handed over and nothing else happens to it; behind any
      other response it is shut down, if it could be written, and then closed, unless the write was aborted. */
  lemma AfterTheResponse(c: Conn, es: seq<Event>, h: Handler, ec: Error)
    requires IsNew(c) && Possible(c, es, h)
    ensures var r := RunAll(c, es, h);
            var log := Apply(r, WriteDone(ec), h).log;
            WriteOp in r.pending ==>
              && Answer(r.log).Some?
              && log == r.log +
                        if Answer(r.log) == Some(101) then if c.wired then [Upgraded] else []
                        else if ec == NoError then [ShutDown, Stopped]
                        else if ec == OtherError then [Stopped] else []
  {
    hide RunAll, Possible, Reads, Main, Answer;
    var n := RunKeepsShape(c, es, h);
    var r := RunAll(c, es, h);
    if WriteOp !in r.pending {
      return;
    }
    OnlyAnswering(r, n, Wrote(es));
    AnswerOf(r.log, n, r.response, []);
    assert (r.log + [ShutDown]) + [Stopped] == r.log + [ShutDown, Stopped];
    assert r.log + [] == r.log;
  }

  /** A connection shuts its socket down if and only if it has written a response other than 101. */
  lemma {:induction false} ShutDownIff(c: Conn, es: seq<Event>, h: Handler)
    requires IsNew(c) && Possible(c, es, h)
    ensures var r := RunAll(c, es, h);
            ShutDown in r.log <==> WriteDone(NoError) in es && Answer(r.log) != Some(101)
  {
    hide Apply, Shape, Enabled, Answer;
    if |es| > 0 {
      var init, e := es[..|es| - 1], es[|es| - 1];
      assert es == init + [e];
      ShutDownIff(c, init, h);
      var r := RunAll(c, init, h);
      var n := RunKeepsShape(c, init, h);
      WroteMeans(init);
      if e.WriteDone? {
        NotWrittenYet(r, n, Wrote(init), e);
        AfterTheResponse(c, init, h, e.ec);
        SameAnswer(r.log, Apply(r, e, h).log);
      } else {
        OtherEventsGoOn(r, n, Wrote(init), e, h);
      }
    }
  }

  lemma NotWrittenYet(c: Conn, n: nat, wrote: bool, e: Event)
    requires Shape(c, n, wrote) && e.WriteDone? && Enabled(c, e)
    ensures WriteOp in c.pending && !wrote
  {
    hide Main, Reads;
    OnlyAnswering(c, n, wrote);
  }

  /** Of all the other events only a read can lead to a response, and it comes before any write. */
  lemma OtherEventsGoOn(c: Conn, n: nat, wrote: bool, e: Event, h: Handler)
    requires HasBack(c.req) && Shape(c, n, wrote) && Enabled(c, e) && !e.WriteDone?
    ensures var r := Apply(c, e, h);
            && (ShutDown in r.log <==> ShutDown in c.log)
            && (Answer(r.log) == Answer(c.log) || !wrote)
  {
    hide Feed, HasBack, Main, Reads, Answer;
    if e.ReadDone? {
      OnlyReading(c, n, wrote);
    }
    AnswerAppend(c.log, ReadIssued);
    AnswerAppend(c.log, Stopped);
  }

  lemma SameAnswer(log: seq<Action>, more: seq<Action>)
    requires log <= more && |more| <= |log| + 2
    requires forall i :: |log| <= i < |more| ==> !more[i].WriteIssued?
    ensures Answer(more) == Answer(log)
  {
    if |more| == |log| + 2 {
      AnswerAppend(more[..|log| + 1], more[|log| + 1]);
      assert more == more[..|log| + 1] + [more[|log| + 1]] && more[..|log| + 1] == log + [more[|log|]];
      AnswerAppend(log, more[|log|]);
    } else if |more| == |log| + 1 {
      assert more == log + [more[|log|]];
      AnswerAppend(log, more[|log|]);
    } else {
      assert more == log;
    }
  }

  /** A read has failed, but for an abort. */
  predicate ReadFailed(es: seq<Event>) {
    |es| > 0 && (ReadFailed(es[..|es| - 1]) || (es[|es| - 1].ReadDone? && es[|es| - 1].ec.OtherError?))
  }

  /** A connection closes its socket if and only if the server stops all connections, a read has failed, or a
      write behind any response but 101 has ended, in each case but for an abort. */
  lemma {:induction false} StoppedIff(c: Conn, es: seq<Event>, h: Handler)
    requires IsNew(c) && Possible(c, es, h)
    ensures var r := RunAll(c, es, h);
            Stopped in r.log <==>
              || StopAll in es || ReadFailed(es)
              || ((WriteDone(NoError) in es || WriteDone(OtherError) in es) && Answer(r.log) != Some(101))
  {
    hide Apply, Shape, Enabled, Answer;
    if |es| > 0 {
      var init, e := es[..|es| - 1], es[|es| - 1];
      assert es == init + [e];
      StoppedIff(c, init, h);
      var r := RunAll(c, init, h);
      var n := RunKeepsShape(c, init, h);
      WroteMeans(init);
      if e.WriteDone? {
        NotWrittenYet(r, n, Wrote(init), e);
        AfterTheResponse(c, init, h, e.ec);
        SameAnswer(r.log, Apply(r, e, h).log);
      } else {
        OtherEventsGoOn(r, n, Wrote(init), e, h);
        OtherEventsStop(r, n, Wrote(init), e, h);
      }
    }
  }

  lemma OtherEventsStop(c: Conn, n: nat, wrote: bool, e: Event, h: Handler)
    requires HasBack(c.req) && Shape(c, n, wrote) && Enabled(c, e) && !e.WriteDone?
    ensures Stopped in Apply(c, e, h).log <==>
            Stopped in c.log || e == StopAll || (e.ReadDone? && e.ec.OtherError?)
  {
    hide Feed, HasBack, Main, Reads;
    if e.ReadDone? {
      OnlyReading(c, n, wrote);
    }
  }

  /** The run in which the 101 cannot be written: the socket is handed over all the same. */
  lemma UpgradeDespiteWriteError(c: Conn, t: RequestText, h: Handler)
    requires IsNew(c) && c.wired && WellFormed(t) && t.verb in METHOD_NAMES && h(Meaning(t)) == SWITCHING_PROTOCOLS
    ensures var es := [Start, ReadDone(NoError, Unparse(t)), WriteDone(OtherError)];
            Possible(c, es, h) && Upgraded in RunAll(c, es, h).log
  {
    hide Feed, Unparse, WellFormed, Meaning;
    var es := [Start, ReadDone(NoError, Unparse(t)), WriteDone(OtherError)];
    NamedInTable(t);
    CompletedMeaning(t);
    UnparseIsRead(Machine(c.req, c.buffer, More), t);
    assert es[..2] == [Start, ReadDone(NoError, Unparse(t))];
    TwoEvents(c, es[..2], h);
  }

  /** GET / HTTP/1.1, with Connection: upgrade, Upgrade: websocket and a key. */
  const UPGRADE_REQUEST := RequestText(GET, [47], [49], [49], [
    HeaderText(CONNECTION, LOWER_UPGRADE, []), HeaderText(UPGRADE, WEBSOCKET, []), HeaderText(WEBSOCKET_KEY, [120], [])])

  const UPGRADE_HEADERS := [Header(CONNECTION, LOWER_UPGRADE), Header(UPGRADE, WEBSOCKET), Header(WEBSOCKET_KEY, [120])]

  lemma WordyHeader(name: Chars, value: Chars)
    requires Wordy(name) && Wordy(value)
    ensures WellFormedHeader(HeaderText(name, value, []))
  {
    WordsAreTokens(name);
    WordsAreTokens(value);
  }

  lemma SlashAndOne()
    ensures CleanUri([47]) && Digits([49])
  {
  }

  lemma UpgradeRequestIsWellFormed()
    ensures WellFormed(UPGRADE_REQUEST) && UPGRADE_REQUEST.verb in METHOD_NAMES
  {
    assert GET == METHOD_NAMES[2];
    WordsAreTokens(GET);
    WordyHeader(CONNECTION, LOWER_UPGRADE);
    WordyHeader(UPGRADE, WEBSOCKET);
    WordyHeader(WEBSOCKET_KEY, [120]);
    SlashAndOne();
    hide WellFormedHeader, Token, CleanUri, Digits;
  }

  lemma UpgradeRequestMeans()
    ensures Meaning(UPGRADE_REQUEST) == Fields(Completed, Get, [47], 1, 1, UPGRADE_HEADERS)
  {
    var hs := UPGRADE_REQUEST.headers;
    assert hs[..2][..1][..0] == [] && hs[..2][..1] == [hs[0]] && hs[..2] == [hs[0], hs[1]];
    assert HeadersOf(hs[..2][..1]) == [] + [HeaderOf(hs[0])];
    assert HeadersOf(hs[..2]) == HeadersOf(hs[..2][..1]) + [HeaderOf(hs[1])];
    assert HeadersOf(hs) == HeadersOf(hs[..2]) + [HeaderOf(hs[2])];
    assert Number([49]) == Number([]) * 10 + 1;
  }

  lemma WholeValueContains(text: Chars)
    requires text != []
    ensures Contains(text, text)
  {
    assert text[0..0 + |text|] == text;
    assert MatchesAt(text, text, 0);
  }

  lemma UpgradeHeadersAsk()
    ensures IsUpgradeRequest(UPGRADE_HEADERS, WEBSOCKET) && HasHeader(UPGRADE_HEADERS, WEBSOCKET_KEY)
  {
    hide Contains;
    var hs := UPGRADE_HEADERS;
    WholeValueContains(LOWER_UPGRADE);
    WholeValueContains(WEBSOCKET);
    assert SameLetters(hs[0].name, CONNECTION) && SameLetters(hs[1].name, UPGRADE) && SameLetters(hs[2].name, WEBSOCKET_KEY);
  }

  /** So it happens: a client asks for the upgrade, and the answer cannot be written to it. */
  lemma UpgradeRequestFails(c: Conn, open: Chars -> Option<Entry>)
    requires IsNew(c) && c.wired
    ensures var es := [Start, ReadDone(NoError, Unparse(UPGRADE_REQUEST)), WriteDone(OtherError)];
            var h := r => StatusOf(r, open);
            Possible(c, es, h) && Upgraded in RunAll(c, es, h).log
  {
    hide Unparse, Possible, RunAll, WellFormed, IsUpgradeRequest, HasHeader;
    UpgradeRequestIsWellFormed();
    UpgradeRequestMeans();
    UpgradeHeadersAsk();
    assert Percent.Decode([47]) == [47] + Percent.Decode([]);
    UpgradeDespiteWriteError(c, UPGRADE_REQUEST, r => StatusOf(r, open));
  }

  lemma AsksByName(t: RequestText)
    requires AsksForWebSocket(Meaning(t))
    ensures t.verb == GET
  {
    VerbIffName(t.verb, Get);
  }
}
