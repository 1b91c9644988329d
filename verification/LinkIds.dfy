/** Allocation of link identifiers when a connection is upgraded to a web socket. */
module LinkIds {

  const ID_COUNT: nat := 0x1_0000

  type LinkId = i: int | 0 <= i < 0x1_0000

  datatype Link = Link(id: LinkId, socket: nat)

  datatype State = State(links: map<LinkId, Link>, counter: LinkId)

  datatype Event = Upgraded(socket: nat) | Closed(id: LinkId)

  /** The identifier tried by iteration k of the allocation loop. */
  function Tried(counter: LinkId, k: nat): LinkId {
    (counter + k) % ID_COUNT
  }

  ghost predicate HasRoom(s: State) {
    |s.links.Keys| < ID_COUNT
  }

  /** The loop stops at iteration k: the first one whose identifier is free. */
  ghost predicate StopsAt(s: State, k: nat) {
    Tried(s.counter, k) !in s.links && forall j: nat :: j < k ==> Tried(s.counter, j) in s.links
  }

  ghost function Below(n: nat): (s: set<int>)
    ensures |s| == n && forall i :: i in s <==> 0 <= i < n
  {
    if n == 0 then {} else Below(n - 1) + {n - 1}
  }

  lemma SubsetSize(s: set<int>, t: set<int>)
    requires s <= t
    ensures |s| <= |t|
  {
    assert t * s == s;
    assert |t| == |t - s| + |t * s|;
  }

  lemma TriedCoversAll(counter: LinkId, id: LinkId) returns (k: nat)
    ensures k < ID_COUNT && Tried(counter, k) == id
  {
    k := (id + ID_COUNT - counter) % ID_COUNT;
  }

  lemma FreeIdExists(s: State) returns (k: nat)
    requires HasRoom(s)
    ensures k < ID_COUNT && Tried(s.counter, k) !in s.links
  {
    var all, used := Below(ID_COUNT), set i: int | i in s.links.Keys;
    assert used == s.links.Keys by {
      assert forall i: LinkId :: i in s.links.Keys <==> i in used;
    }
    if all <= used {
      SubsetSize(all, used);
      assert false;
    }
    var id: LinkId :| id in all && id !in used;
    k := TriedCoversAll(s.counter, id);
  }

  lemma {:induction false} FirstFree(s: State, bound: nat) returns (k: nat)
    requires Tried(s.counter, bound) !in s.links
    ensures k <= bound && StopsAt(s, k)
    decreases bound
  {
    if j: nat :| j < bound && Tried(s.counter, j) !in s.links {
      k := FirstFree(s, j);
    } else {
      k := bound;
    }
  }

  /** The allocation loop terminates if and only if fewer than 65536 links are live. */
  lemma AllocationTerminatesIff(s: State)
    ensures (exists k: nat :: StopsAt(s, k)) <==> HasRoom(s)
  {
    if HasRoom(s) {
      var bound := FreeIdExists(s);
      var k := FirstFree(s, bound);
    } else {
      var all := Below(ID_COUNT);
      var used := set i: int | i in s.links.Keys;
      assert used == s.links.Keys by {
        assert forall i: LinkId :: i in s.links.Keys <==> i in used;
      }
      FullSubset(used, all);
      forall k: nat ensures !StopsAt(s, k) {
        assert Tried(s.counter, k) in all;
      }
    }
  }

  lemma FullSubset(s: set<int>, t: set<int>)
    requires s <= t && |s| >= |t|
    ensures s == t
  {
    forall x | x in t ensures x in s {
      if x !in s {
        SubsetSize(s, t - {x});
        assert false;
      }
    }
  }

  /** The effect of an event. An upgrade takes the first free identifier from the counter on. */
  ghost predicate Next(s: State, e: Event, s': State) {
    match e
    case Upgraded(socket) =>
      exists k: nat :: StopsAt(s, k) &&
        var id := Tried(s.counter, k);
        s' == State(s.links[id := Link(id, socket)], (id + 1) % ID_COUNT)
    case Closed(id) => s' == State(s.links - {id}, s.counter)
  }

  class WebFront {
    var webLinks: map<LinkId, Link>
    var idsCounter: LinkId

    ghost function Now(): State
      reads this
    {
      State(webLinks, idsCounter)
    }

    constructor ()
      ensures Now() == State(map[], 0)
    {
      webLinks, idsCounter := map[], 0;
    }

    method OnUpgrade(socket: nat, isWebSocket: bool)
      requires HasRoom(Now())
      modifies this
      ensures !isWebSocket ==> Now() == old(Now())
      ensures isWebSocket ==> Next(old(Now()), Upgraded(socket), Now())
    {
      if isWebSocket {
        ghost var s, k := Now(), 0;
        ghost var bound := FreeIdExists(s);
        var inserted := false;
        while !inserted
          invariant !inserted ==> k <= bound && Now() == s.(counter := Tried(s.counter, k))
          invariant !inserted ==> forall j: nat :: j < k ==> Tried(s.counter, j) in s.links
          invariant inserted ==> Next(s, Upgraded(socket), Now())
          decreases !inserted, if inserted then 0 else bound - k
        {
          if idsCounter !in webLinks {
            assert StopsAt(s, k);
            webLinks := webLinks[idsCounter := Link(idsCounter, socket)];
            inserted := true;
          }
          idsCounter := (idsCounter + 1) % ID_COUNT;
          k := k + 1;
        }
      }
    }

    method OnClosed(id: LinkId)
      modifies this
      ensures Next(old(Now()), Closed(id), Now())
      ensures webLinks.Keys == old(webLinks.Keys) - {id} && idsCounter == old(idsCounter)
      ensures forall other <- webLinks :: webLinks[other] == old(webLinks)[other]
    {
      webLinks := webLinks - {id};
    }
  }

  /** A run: each event leads from one state to the next. */
  ghost predicate IsRun(states: seq<State>, events: seq<Event>) {
    && |states| == |events| + 1
    && states[0] == State(map[], 0)
    && forall i :: 0 <= i < |events| ==> Next(states[i], events[i], states[i + 1])
  }

  /** In every run each link's own identifier is its key, so the handlers that carry the identifier
      reach the link itself, and no two live links share one. */
  lemma {:induction false} KeysAreIds(states: seq<State>, events: seq<Event>, i: nat)
    requires IsRun(states, events) && i < |states|
    ensures forall id <- states[i].links :: states[i].links[id].id == id
  {
    if i > 0 {
      KeysAreIds(states, events, i - 1);
      assert Next(states[i - 1], events[i - 1], states[i]);
    }
  }

  /** A link is neither replaced nor altered by anything but the closing of its own identifier. */
  lemma {:induction false} LinksAreStable(states: seq<State>, events: seq<Event>, i: nat, j: nat, id: LinkId)
    requires IsRun(states, events) && i <= j < |states|
    requires id in states[i].links
    requires forall k :: i <= k < j ==> events[k] != Closed(id)
    ensures id in states[j].links && states[j].links[id] == states[i].links[id]
  {
    if i < j {
      LinksAreStable(states, events, i, j - 1, id);
      assert Next(states[j - 1], events[j - 1], states[j]);
    }
  }

  /** How far an identifier is from the counter, counting up. */
  function Ahead(counter: LinkId, id: LinkId): nat {
    (id - counter) % 0x1_0000
  }

  /** An upgrade gives its socket to a link of its own, under the free identifier that is reached first when
      counting up from the counter: what was live stays as it was, one link is new. */
  lemma UpgradeAddsOne(s: State, socket: nat, s': State) returns (id: LinkId)
    requires Next(s, Upgraded(socket), s')
    ensures id !in s.links && s'.links == s.links[id := Link(id, socket)] && |s'.links| == |s.links| + 1
    ensures forall other: LinkId :: Ahead(s.counter, other) < Ahead(s.counter, id) ==> other in s.links
    ensures s'.counter == if id == 0xFFFF then 0 else id + 1
  {
    hide Tried, Ahead;
    var k: nat :| StopsAt(s, k) && s' == State(s.links[Tried(s.counter, k) := Link(Tried(s.counter, k), socket)],
                                                (Tried(s.counter, k) + 1) % ID_COUNT);
    id := Tried(s.counter, k);
    assert s'.links.Keys == s.links.Keys + {id};
    ReachedFirst(s, k);
    NextCounter(id);
  }

  lemma ReachedFirst(s: State, k: nat)
    requires StopsAt(s, k)
    ensures forall other: LinkId :: Ahead(s.counter, other) < Ahead(s.counter, Tried(s.counter, k)) ==> other in s.links
  {
    hide Tried, Ahead;
    forall other: LinkId | Ahead(s.counter, other) < Ahead(s.counter, Tried(s.counter, k)) ensures other in s.links {
      TriedWithin(s.counter, k);
      TriedReaches(s.counter, other);
    }
  }

  lemma NextCounter(id: LinkId)
    ensures (id + 1) % ID_COUNT == if id == 0xFFFF then 0 else id + 1
  {
  }

  lemma TriedReaches(counter: LinkId, other: LinkId)
    ensures Tried(counter, Ahead(counter, other)) == other
  {
  }

  lemma TriedWithin(counter: LinkId, k: nat)
    ensures Ahead(counter, Tried(counter, k)) <= k
  {
  }

  /** A closing takes its own link away and nothing else; the identifier is free again. */
  lemma ClosingRemovesOne(s: State, id: LinkId, s': State)
    requires Next(s, Closed(id), s')
    ensures s'.links.Keys == s.links.Keys - {id} && s'.counter == s.counter
    ensures forall other <- s'.links :: s'.links[other] == s.links[other]
    ensures id in s.links ==> |s'.links| == |s.links| - 1 && HasRoom(s')
  {
    if id in s.links {
      assert s.links.Keys == s'.links.Keys + {id};
      SizeWithinIds(s.links.Keys);
    }
  }

  lemma SizeWithinIds(ids: set<LinkId>)
    ensures |ids| <= ID_COUNT
  {
    var used := set i: int | i in ids;
    assert used == ids by {
      assert forall i: LinkId :: i in ids <==> i in used;
    }
    SubsetSize(used, Below(ID_COUNT));
  }

  /** The identifier an upgrade is given: the first free one from the counter on. */
  ghost predicate GivenAt(states: seq<State>, events: seq<Event>, k: nat, id: LinkId) {
    && k < |events| && k < |states| && events[k].Upgraded?
    && exists q: nat :: StopsAt(states[k], q) && id == Tried(states[k].counter, q)
  }

  /** The last event that gave this identifier out is event k. */
  ghost predicate GivenLast(states: seq<State>, events: seq<Event>, i: nat, k: nat, id: LinkId) {
    k < i <= |events| && GivenAt(states, events, k, id) && forall j :: k < j < i ==> events[j] != Closed(id)
  }

  /** On every run an identifier is live if and only if an upgrade gave it out and it has not been closed since;
      its link is then that upgrade's. */
  lemma {:induction false} LiveIff(states: seq<State>, events: seq<Event>, i: nat, id: LinkId)
    requires IsRun(states, events) && i < |states|
    ensures id in states[i].links <==> exists k: nat :: GivenLast(states, events, i, k, id)
    ensures forall k: nat :: GivenLast(states, events, i, k, id) ==>
              id in states[i].links && states[i].links[id] == Link(id, events[k].socket)
  {
    if i > 0 {
      LiveIff(states, events, i - 1, id);
      var s, e, s' := states[i - 1], events[i - 1], states[i];
      assert Next(s, e, s');
      forall k: nat | GivenLast(states, events, i, k, id)
        ensures id in s'.links && s'.links[id] == Link(id, events[k].socket)
      {
        if k < i - 1 {
          assert GivenLast(states, events, i - 1, k, id);
          StaysOn(s, e, s', id);
        } else {
          GivenIsLive(s, e, s', id);
        }
      }
      if id in s'.links {
        if id in s.links {
          var k: nat :| GivenLast(states, events, i - 1, k, id);
          assert GivenLast(states, events, i, k, id);
        } else {
          NewIsGiven(s, e, s', id);
          assert GivenLast(states, events, i, i - 1, id);
        }
      }
    }
  }

  lemma StaysOn(s: State, e: Event, s': State, id: LinkId)
    requires Next(s, e, s') && id in s.links && e != Closed(id)
    ensures id in s'.links && s'.links[id] == s.links[id]
  {
  }

  lemma {:induction false} FirstIsUnique(s: State, p: nat, q: nat)
    requires StopsAt(s, p) && StopsAt(s, q)
    ensures p == q
  {
  }

  lemma GivenIsLive(s: State, e: Event, s': State, id: LinkId)
    requires Next(s, e, s') && e.Upgraded? && exists q: nat :: StopsAt(s, q) && id == Tried(s.counter, q)
    ensures id in s'.links && s'.links[id] == Link(id, e.socket)
  {
    var p: nat :| StopsAt(s, p) && s' == State(s.links[Tried(s.counter, p) := Link(Tried(s.counter, p), e.socket)],
                                                (Tried(s.counter, p) + 1) % ID_COUNT);
    var q: nat :| StopsAt(s, q) && id == Tried(s.counter, q);
    FirstIsUnique(s, p, q);
  }

  lemma NewIsGiven(s: State, e: Event, s': State, id: LinkId)
    requires Next(s, e, s') && id !in s.links && id in s'.links
    ensures e.Upgraded? && exists q: nat :: StopsAt(s, q) && id == Tried(s.counter, q)
  {
  }
}
