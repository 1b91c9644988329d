/** Any number of requests, read in turns, that keep the method being read in one static variable. */
module SharedBuffer {
  import opened Text
  import opened Request
  import opened RequestGrammar

  /** Every connection has its request; a request that completed or threw is not fed any more. */
  datatype World = World(reqs: seq<Fields>, statuses: seq<Status>, buffer: Chars)

  datatype Turn = Turn(id: nat, chunk: Chars)

  predicate Valid(w: World) {
    |w.reqs| == |w.statuses| && forall j :: 0 <= j < |w.reqs| ==> HasBack(w.reqs[j])
  }

  function Take(w: World, e: Turn): (r: World)
    requires Valid(w) && e.id < |w.reqs|
    ensures Valid(r) && |r.reqs| == |w.reqs|
  {
    var m := Feed(Machine(w.reqs[e.id], w.buffer, w.statuses[e.id]), e.chunk);
    World(w.reqs[e.id := m.req], w.statuses[e.id := m.status], m.buffer)
  }

  predicate Ids(w: World, es: seq<Turn>) {
    forall k :: 0 <= k < |es| ==> es[k].id < |w.reqs|
  }

  function Run(w: World, es: seq<Turn>): (r: World)
    requires Valid(w) && Ids(w, es)
    ensures Valid(r) && |r.reqs| == |w.reqs|
    decreases |es|
  {
    if |es| == 0 then w else Run(Take(w, es[0]), es[1..])
  }

  /** What one request is fed over the whole run. */
  function Input(es: seq<Turn>, i: nat): Chars {
    if |es| == 0 then [] else (if es[0].id == i then es[0].chunk else []) + Input(es[1..], i)
  }

  /** The request is suspended inside its method: the static variable holds the beginning of it. */
  predicate InMethod(w: World, j: nat)
    requires Valid(w) && j < |w.reqs|
  {
    w.statuses[j].More? && w.reqs[j].state.Method?
  }

  /** A request about to write the static variable finds no other one suspended inside its method. */
  predicate Considerate(w: World, e: Turn)
    requires Valid(w) && e.id < |w.reqs|
  {
    w.statuses[e.id].More? && (w.reqs[e.id].state.MethodStart? || w.reqs[e.id].state.Method?) ==>
      forall j :: 0 <= j < |w.reqs| && j != e.id ==> !InMethod(w, j)
  }

  predicate AllConsiderate(w: World, es: seq<Turn>)
    requires Valid(w) && Ids(w, es)
    decreases |es|
  {
    |es| > 0 ==> Considerate(w, es[0]) && AllConsiderate(Take(w, es[0]), es[1..])
  }

  // ----- What the static variable means to one request

  lemma StepAndBuffer(m: Machine, b: Chars, c: schar)
    requires HasBack(m.req) && !m.req.state.Method?
    ensures var x, y := Step(m, c), Step(m.(buffer := b), c);
            x.req == y.req && x.status == y.status && (x.req.state.Method? && x.status.More? ==> x.buffer == y.buffer)
    ensures !m.req.state.MethodStart? ==> (var x := Step(m, c); x.buffer == m.buffer && Past(x))
  {
    hide VerbOf, IsTokenChar, IsCtrl, IsWhite, IsDigit, AppendName, AppendValue;
    if !m.req.state.MethodStart? {
      StepPast(m, b, c);
    }
  }

  /** The method has been read. */
  predicate Past(m: Machine) {
    !m.req.state.MethodStart? && !m.req.state.Method?
  }

  lemma StepPast(m: Machine, b: Chars, c: schar)
    requires HasBack(m.req) && Past(m)
    ensures Step(m.(buffer := b), c) == Step(m, c).(buffer := b)
    ensures Step(m, c).buffer == m.buffer && Past(Step(m, c))
  {
    hide VerbOf, IsTokenChar, IsCtrl, IsWhite, IsDigit, AppendName, AppendValue;
    match m.req.state
    case Uri =>
    case VersionH =>
    case VersionT1 =>
    case VersionT2 =>
    case VersionP =>
    case VersionSlash =>
    case VersionMajorStart =>
    case VersionMajor =>
    case VersionMinorStart =>
    case VersionMinor =>
    case Newline1 =>
    case HeaderLineStart =>
    case HeaderLws =>
    case HeaderName =>
    case SpaceBeforeHeaderValue =>
    case HeaderValue =>
    case Newline2 =>
    case Newline3 =>
    case Completed =>
  }

  /** Outside its method a request does not depend on the static variable, and past it does not write it. */
  lemma {:induction false} FeedAndBuffer(m: Machine, b: Chars, s: Chars)
    requires HasBack(m.req) && (!m.req.state.Method? || !m.status.More? || m.buffer == b)
    ensures var x, y := Feed(m, s), Feed(m.(buffer := b), s);
            x.req == y.req && x.status == y.status && (x.req.state.Method? && x.status.More? ==> x.buffer == y.buffer)
    ensures !(m.status.More? && (m.req.state.MethodStart? || m.req.state.Method?)) ==> Feed(m, s).buffer == m.buffer
    decreases |s|
  {
    hide Step, HasBack;
    if |s| > 0 && m.status.More? && !(m.req.state.Method? && m.buffer == b) {
      StepAndBuffer(m, b, s[0]);
      FeedAndBuffer(Step(m, s[0]), Step(m.(buffer := b), s[0]).buffer, s[1..]);
    } else if m.buffer == b {
      assert m.(buffer := b) == m;
    }
  }

  // ----- Non-interference

  /** `own` is what the static variable would hold if the request were alone. */
  predicate Private(w: World, own: seq<Chars>)
    requires Valid(w)
  {
    |own| == |w.reqs| && forall j :: 0 <= j < |own| ==> InMethod(w, j) ==> own[j] == w.buffer
  }

  function Alone(w: World, own: seq<Chars>, i: nat): Machine
    requires Valid(w) && |own| == |w.reqs| && i < |own|
  {
    Machine(w.reqs[i], own[i], w.statuses[i])
  }

  lemma TurnKeepsPrivate(w: World, own: seq<Chars>, e: Turn) returns (next: seq<Chars>)
    requires Valid(w) && e.id < |w.reqs| && Private(w, own) && Considerate(w, e)
    ensures Private(Take(w, e), next)
    ensures Alone(Take(w, e), next, e.id) == Feed(Alone(w, own, e.id), e.chunk)
    ensures forall j :: 0 <= j < |own| && j != e.id ==> Alone(Take(w, e), next, j) == Alone(w, own, j)
  {
    hide Feed;
    var m := Machine(w.reqs[e.id], w.buffer, w.statuses[e.id]);
    assert m.(buffer := own[e.id]) == Alone(w, own, e.id);
    FeedAndBuffer(m, own[e.id], e.chunk);
    next := own[e.id := Feed(Alone(w, own, e.id), e.chunk).buffer];
    forall j | 0 <= j < |own| && InMethod(Take(w, e), j) ensures next[j] == Take(w, e).buffer {
      assert j != e.id ==> InMethod(w, j);
    }
  }

  /** However the turns are interleaved: as long as each is considerate, every request ends exactly as if it
      had been fed its own input, in one piece, with a variable of its own. */
  lemma {:induction false} EachAsIfAlone(w: World, own: seq<Chars>, es: seq<Turn>, i: nat)
    requires Valid(w) && Ids(w, es) && Private(w, own) && AllConsiderate(w, es) && i < |w.reqs|
    ensures Run(w, es).reqs[i] == Feed(Alone(w, own, i), Input(es, i)).req
    ensures Run(w, es).statuses[i] == Feed(Alone(w, own, i), Input(es, i)).status
    decreases |es|
  {
    hide Feed, Take, Considerate, Private;
    PrivateSize(w, own);
    if |es| == 0 {
      FeedNothing(Alone(w, own, i));
    } else {
      var next := TurnKeepsPrivate(w, own, es[0]);
      PrivateSize(Take(w, es[0]), next);
      EachAsIfAlone(Take(w, es[0]), next, es[1..], i);
      if es[0].id == i {
        FeedInChunks(Alone(w, own, i), es[0].chunk, Input(es[1..], i));
      } else {
        assert [] + Input(es[1..], i) == Input(es[1..], i);
      }
    }
  }

  lemma PrivateSize(w: World, own: seq<Chars>)
    requires Valid(w) && Private(w, own)
    ensures |own| == |w.reqs|
  {
  }

  // ----- What no interleaving changes

  /** One request of the world, as a machine of its own. */
  function Now(w: World, i: nat): Machine
    requires Valid(w) && i < |w.reqs|
  {
    Machine(w.reqs[i], w.buffer, w.statuses[i])
  }

  /** The same but for the static variable and for a method that has been read. */
  predicate SameButMethod(x: Machine, y: Machine) {
    && x.status == y.status && x.req.(verb := Undefined) == y.req.(verb := Undefined)
    && (!Past(x) ==> x.req == y.req)
  }

  lemma StepSameButMethod(x: Machine, y: Machine, c: schar)
    requires HasBack(x.req) && HasBack(y.req) && SameButMethod(x, y)
    ensures SameButMethod(Step(x, c), Step(y, c))
  {
    hide VerbOf, IsTokenChar, IsCtrl, IsWhite, IsDigit, AppendName, AppendValue;
    if Past(x) {
      StepKeepsVerb(x, y.req.verb, c);
      StepPast(x.(req := y.req), y.buffer, c);
    }
  }

  lemma StepKeepsVerb(m: Machine, v: Verb, c: schar)
    requires HasBack(m.req) && Past(m)
    ensures var r := m.req.(verb := v);
            HasBack(r) && Step(m.(req := r), c) == Step(m, c).(req := Step(m, c).req.(verb := v)) && Past(Step(m, c))
  {
    hide VerbOf, IsTokenChar, IsCtrl, IsWhite, IsDigit, AppendName, AppendValue;
    match m.req.state
    case Uri =>
    case VersionH =>
    case VersionT1 =>
    case VersionT2 =>
    case VersionP =>
    case VersionSlash =>
    case VersionMajorStart =>
    case VersionMajor =>
    case VersionMinorStart =>
    case VersionMinor =>
    case Newline1 =>
    case HeaderLineStart =>
    case HeaderLws =>
    case HeaderName =>
    case SpaceBeforeHeaderValue =>
    case HeaderValue =>
    case Newline2 =>
    case Newline3 =>
    case Completed =>
  }

  lemma {:induction false} FeedSameButMethod(x: Machine, y: Machine, s: Chars)
    requires HasBack(x.req) && HasBack(y.req) && SameButMethod(x, y)
    ensures SameButMethod(Feed(x, s), Feed(y, s))
    decreases |s|
  {
    hide Step, HasBack, Past;
    if |s| > 0 && x.status.More? {
      StepSameButMethod(x, y, s[0]);
      FeedSameButMethod(Step(x, s[0]), Step(y, s[0]), s[1..]);
    }
  }

  /** However the turns are interleaved, considerate or not: every request ends with the status and with all
      the fields it would have alone, but for its method. */
  lemma {:induction false} AllButTheMethod(w: World, y: Machine, es: seq<Turn>, i: nat)
    requires Valid(w) && Ids(w, es) && i < |w.reqs| && HasBack(y.req) && SameButMethod(Now(w, i), y)
    ensures SameButMethod(Now(Run(w, es), i), Feed(y, Input(es, i)))
    decreases |es|
  {
    hide Feed, HasBack, Past;
    if |es| == 0 {
      FeedNothing(y);
    } else {
      var next := Take(w, es[0]);
      if es[0].id == i {
        FeedSameButMethod(Now(w, i), y, es[0].chunk);
        FeedInChunks(y, es[0].chunk, Input(es[1..], i));
        AllButTheMethod(next, Feed(y, es[0].chunk), es[1..], i);
      } else {
        assert [] + Input(es[1..], i) == Input(es[1..], i);
        assert next.reqs[i] == w.reqs[i] && next.statuses[i] == w.statuses[i];
        OtherBuffer(Now(w, i), y, next.buffer);
        AllButTheMethod(next, y, es[1..], i);
      }
    }
  }

  lemma OtherBuffer(x: Machine, y: Machine, b: Chars)
    requires SameButMethod(x, y)
    ensures SameButMethod(x.(buffer := b), y)
  {
  }

  // ----- When the method is right

  predicate BeginsName(x: Chars) {
    exists n :: n in METHOD_NAMES && x <= n
  }

  lemma NamesAreTokens(n: Chars)
    requires n in METHOD_NAMES
    ensures Token(n)
  {
    hide IsTokenChar;
    var index :| 0 <= index < |METHOD_NAMES| && METHOD_NAMES[index] == n;
    forall k | 0 <= k < |n| ensures IsTokenChar(n[k]) {
      UpperCaseNames(index);
      TokenCharsAre(n[k]);
    }
    UpperCaseNames(index);
  }

  lemma UpperCaseNames(index: nat)
    requires index < |METHOD_NAMES|
    ensures METHOD_NAMES[index] != [] && forall k :: 0 <= k < |METHOD_NAMES[index]| ==> IsUpper(METHOD_NAMES[index][k])
  {
    assert METHOD_NAMES[0] == CONNECT && METHOD_NAMES[1] == DELETE && METHOD_NAMES[2] == GET;
    assert METHOD_NAMES[3] == HEAD && METHOD_NAMES[4] == OPTIONS && METHOD_NAMES[5] == PATCH;
    assert METHOD_NAMES[6] == POST && METHOD_NAMES[7] == PUT && METHOD_NAMES[8] == TRACE;
  }

  /** A name is told from every other text. */
  lemma NameIsTold(n: Chars, other: Chars)
    requires n in METHOD_NAMES && other != n
    ensures VerbOf(other) != VerbOf(n)
  {
    hide VerbOf, IndexOf;
    LookupInTableIff(n);
    LookupInTableIff(other);
  }

  lemma SameHeads(x: Chars, y: Chars, b: Chars)
    ensures x + b == y + b ==> x == y
  {
    if x + b == y + b {
      assert x == (x + b)[..|x|] && y == (y + b)[..|y|];
    }
  }

  /** A rest that tells two beginnings of a method apart. */
  lemma TellingRest(x: Chars, y: Chars) returns (b: Chars)
    requires x != y && (BeginsName(x) || BeginsName(y))
    ensures VerbOf(x + b) != VerbOf(y + b) && (b == [] || Token(b))
  {
    hide VerbOf, IsTokenChar;
    var first, second := if BeginsName(x) then x else y, if BeginsName(x) then y else x;
    var n :| n in METHOD_NAMES && first <= n;
    b := n[|first|..];
    assert first + b == n;
    SameHeads(first, second, b);
    NameIsTold(n, second + b);
    NamesAreTokens(n);
  }

  lemma BeginsFurther(x: Chars, b: Chars)
    ensures BeginsName(x + b) ==> BeginsName(x)
  {
    if BeginsName(x + b) {
      var n :| n in METHOD_NAMES && x + b <= n;
      assert x <= n;
    }
  }

  lemma NoNameBegun(x: Chars, b: Chars)
    requires !BeginsName(x)
    ensures VerbOf(x + b) == Undefined && !BeginsName(x + b)
  {
    hide VerbOf;
    BeginsFurther(x, b);
    LookupInTableIff(x + b);
    assert x + b <= x + b;
  }

  /** Two beginnings of a method end in the same method, whatever follows, if and only if they are the same
      or neither is the beginning of a name. */
  lemma SameMethodIff(x: Chars, y: Chars)
    ensures (forall b :: VerbOf(x + b) == VerbOf(y + b)) <==> x == y || (!BeginsName(x) && !BeginsName(y))
  {
    hide VerbOf, BeginsName;
    if !BeginsName(x) && !BeginsName(y) {
      forall b ensures VerbOf(x + b) == VerbOf(y + b) {
        NoNameBegun(x, b);
        NoNameBegun(y, b);
      }
    } else if x != y {
      var b := TellingRest(x, y);
    }
  }

  /** The rest of the method, when neither beginning is that of a name. */
  lemma {:induction false} FeedNoName(x: Machine, y: Machine, s: Chars)
    requires x.req == y.req && x.status == y.status && x.req.state.Method?
    requires !BeginsName(x.buffer) && !BeginsName(y.buffer)
    ensures Feed(x, s).req == Feed(y, s).req
    decreases |s|
  {
    hide VerbOf, IsTokenChar, BeginsName;
    if |s| > 0 && x.status.More? {
      NoNameBegun(x.buffer, [s[0]]);
      NoNameBegun(y.buffer, [s[0]]);
      NoNameBegun(x.buffer, []);
      NoNameBegun(y.buffer, []);
      assert x.buffer + [] == x.buffer && y.buffer + [] == y.buffer;
      if s[0] != SPACE && IsTokenChar(s[0]) {
        FeedNoName(Step(x, s[0]), Step(y, s[0]), s[1..]);
      } else {
        var next := Step(x, s[0]);
        assert Step(y, s[0]) == next.(buffer := y.buffer);
        FeedAndBuffer(next, y.buffer, s[1..]);
      }
    }
  }

  /** Where a request that is like another one but for its method and the static variable goes on like it. */
  predicate MethodIsRight(x: Machine, alone: Machine) {
    if x.status.More? && x.req.state.Method? then
      x.buffer == alone.buffer || (!BeginsName(x.buffer) && !BeginsName(alone.buffer))
    else x.req.verb == alone.req.verb
  }

  lemma ContinuationsIff(x: Machine, alone: Machine)
    requires HasBack(x.req) && HasBack(alone.req) && SameButMethod(x, alone)
    ensures (forall s :: Feed(x, s).req == Feed(alone, s).req) <==> MethodIsRight(x, alone)
  {
    hide Feed, HasBack, BeginsName, VerbOf;
    FeedNothing(x);
    FeedNothing(alone);
    if MethodIsRight(x, alone) {
      assert x.req == alone.req;
      forall s ensures Feed(x, s).req == Feed(alone, s).req {
        assert x.(buffer := alone.buffer) == alone;
        if x.status.More? && x.req.state.Method? && x.buffer != alone.buffer {
          FeedNoName(x, alone, s);
        } else {
          FeedAndBuffer(x, alone.buffer, s);
        }
      }
    } else if x.status.More? && x.req.state.Method? {
      var b := TellingRest(x.buffer, alone.buffer);
      RestOfMethod(x, b);
      RestOfMethod(alone, b);
    }
  }

  /** After any turns of any requests: whatever one of them is fed from then on, it goes on exactly as if it
      had been alone, if and only if its method is right, or, when it is suspended inside its method, if and
      only if the static variable holds what it has read or neither begins the name of a method. */
  lemma AsIfAloneIff(w: World, own: Chars, es: seq<Turn>, i: nat)
    requires Valid(w) && Ids(w, es) && i < |w.reqs|
    ensures var r := Run(w, es);
            var alone := Feed(Now(w, i).(buffer := own), Input(es, i));
            (forall s :: Take(r, Turn(i, s)).reqs[i] == Feed(alone, s).req) <==> MethodIsRight(Now(r, i), alone)
  {
    hide Feed, HasBack, MethodIsRight, SameButMethod, Run, Input;
    var y := Now(w, i).(buffer := own);
    SameAsItself(Now(w, i), own);
    AllButTheMethod(w, y, es, i);
    var r, alone := Run(w, es), Feed(y, Input(es, i));
    ContinuationsIff(Now(r, i), alone);
    forall s ensures Take(r, Turn(i, s)).reqs[i] == Feed(Now(r, i), s).req {
    }
  }

  lemma SameAsItself(m: Machine, b: Chars)
    ensures SameButMethod(m, m.(buffer := b))
  {
  }

  /** Without the guard: a request suspended after `a` goes on with the method another one has begun. Its
      method is the right one if and only if the mixture happens to name it too. */
  lemma MethodsMix(w: World, a: Chars, c: Chars, b: Chars)
    requires Valid(w) && |w.reqs| == 2
    requires IsFresh(Machine(w.reqs[0], w.buffer, w.statuses[0]))
    requires IsFresh(Machine(w.reqs[1], w.buffer, w.statuses[1]))
    requires Token(a) && Token(c) && (b == [] || Token(b))
    ensures var es := [Turn(0, a), Turn(1, c), Turn(0, b + [SPACE])];
            && !AllConsiderate(w, es)
            && Run(w, es).reqs[0].verb == VerbOf(c + b)
            && Feed(Machine(w.reqs[0], w.buffer, w.statuses[0]), Input(es, 0)).req.verb == VerbOf(a + b)
  {
    hide Feed, VerbOf, IsTokenChar, Run, Input;
    var es := [Turn(0, a), Turn(1, c), Turn(0, b + [SPACE])];
    var m0 := Machine(w.reqs[0], w.buffer, w.statuses[0]);
    MethodTurn(m0, a);
    var w1 := Take(w, es[0]);
    var m1 := Machine(w1.reqs[1], w1.buffer, w1.statuses[1]);
    MethodTurn(m1, c);
    var w2 := Take(w1, es[1]);
    RestOfMethod(Machine(w2.reqs[0], w2.buffer, w2.statuses[0]), b);
    ThreeTurns(w, es);
    assert InMethod(w1, 0) && !Considerate(w1, es[1]);
    FeedInChunks(m0, a, b + [SPACE]);
    RestOfMethod(Feed(m0, a), b);
  }

  lemma ThreeTurns(w: World, es: seq<Turn>)
    requires Valid(w) && |w.reqs| == 2 && |es| == 3 && es[0].id == es[2].id == 0 && es[1].id == 1
    ensures Run(w, es) == Take(Take(Take(w, es[0]), es[1]), es[2])
    ensures Input(es, 0) == es[0].chunk + es[2].chunk
    ensures AllConsiderate(w, es) ==> Considerate(Take(w, es[0]), es[1])
  {
    hide Feed, Considerate, Take;
    var w1 := Take(w, es[0]);
    var w2 := Take(w1, es[1]);
    assert es[1..][0] == es[1] && es[1..][1..][0] == es[2];
    assert Run(w1, es[1..]) == Run(w2, es[1..][1..]);
    assert Run(w2, es[1..][1..]) == Take(w2, es[2]);
    assert Input(es[1..][1..], 0) == es[2].chunk + Input(es[1..][1..][1..], 0);
    assert es[2].chunk + [] == es[2].chunk;
    assert Input(es[1..], 0) == [] + Input(es[1..][1..], 0);
    assert [] + es[2].chunk == es[2].chunk;
    assert Input(es, 0) == es[0].chunk + Input(es[1..], 0);
    assert AllConsiderate(w, es) ==> AllConsiderate(w1, es[1..]);
  }

  lemma MethodTurn(m: Machine, a: Chars)
    requires IsFresh(m) && Token(a)
    ensures Feed(m, a) == m.(req := m.req.(state := Method), buffer := a)
  {
    hide Feed, IsTokenChar, VerbOf;
    FeedNext(m, a);
    FeedMethod(m.(req := m.req.(state := Method), buffer := a[..1]), a[1..]);
    assert a[..1] + a[1..] == a && a[..1] == [a[0]];
  }

  lemma RestOfMethod(m: Machine, b: Chars)
    requires m.status.More? && m.req.state.Method? && (b == [] || Token(b))
    ensures Feed(m, b + [SPACE]).req.verb == VerbOf(m.buffer + b)
  {
    hide Feed, IsTokenChar, VerbOf;
    FeedMethod(m, b);
    FeedThen(m, b, SPACE);
  }
}
