/** The worker pool, as interleaved steps of any number of workers, producers and the destructor.
    A step is one read or write of shared state; the mutex is the only thing that excludes others. */
module ThreadPool {
  import opened Options

  /** Where a worker is in its loop. From Check to Release it holds the mutex. */
  datatype Pc = Top | Acquire | Check | Waiting | Test | Pop | Release | Decide | Run | Done

  /** The local variable `task`, with the position of that task in the order of enqueueing. */
  datatype Local<T> = Local(task: T, ticket: nat)

  /** The variable keeps its value from one iteration to the next; `current` tells whether this
      iteration has taken it from the queue and not yet decided about it. */
  datatype Worker<T> = Worker(pc: Pc, local: Option<Local<T>>, current: bool)

  datatype Fate = Held(worker: nat) | Ran | Dropped(worker: nat)

  /** The shared state, and the history: every task enqueued, what became of those taken from the
      queue, the tickets run and the tasks actually executed, in order. `fault` records a read of an
      empty queue or a call of an empty function. */
  datatype State<T> = State(running: bool, lock: Option<nat>, queue: seq<T>, workers: seq<Worker<T>>,
                            enqueued: seq<T>, fates: seq<Fate>, ran: seq<nat>, executed: seq<T>, fault: bool)

  datatype Label<T> = Work(i: nat) | Enqueue(task: T) | Stop

  function Init<T>(n: nat): State<T> {
    State(true, None, [], seq(n, _ => Worker(Top, None, false)), [], [], [], [], false)
  }

  predicate Enabled<T>(s: State<T>, l: Label<T>) {
    match l
    case Work(i) =>
      i < |s.workers| && s.workers[i].pc != Done &&
      (s.workers[i].pc == Acquire || s.workers[i].pc == Waiting ==> s.lock == None)
    case Enqueue(_) => s.lock == None
    case Stop => true
  }

  function Goto<T>(s: State<T>, i: nat, pc: Pc): State<T>
    requires i < |s.workers|
  {
    s.(workers := s.workers[i := s.workers[i].(pc := pc)])
  }

  function TakeFront<T>(s: State<T>, i: nat): State<T>
    requires i < |s.workers| && |s.queue| > 0
  {
    s.(queue := s.queue[1..], fates := s.fates + [Held(i)],
       workers := s.workers[i := Worker(Release, Some(Local(s.queue[0], |s.fates|)), true)])
  }

  function Drop<T>(s: State<T>, i: nat): State<T>
    requires i < |s.workers|
  {
    var w := s.workers[i];
    s.(workers := s.workers[i := w.(pc := Top, current := false)],
       fates := if w.current && w.local.Some? && w.local.value.ticket < |s.fates|
                then s.fates[w.local.value.ticket := Dropped(i)] else s.fates)
  }

  function Execute<T>(s: State<T>, i: nat): State<T>
    requires i < |s.workers| && s.workers[i].local.Some?
  {
    var w := s.workers[i];
    var ticket := w.local.value.ticket;
    s.(workers := s.workers[i := w.(pc := Top, current := false)],
       ran := s.ran + [ticket], executed := s.executed + [w.local.value.task],
       fates := if ticket < |s.fates| then s.fates[ticket := Ran] else s.fates)
  }

  function WorkerStep<T>(s: State<T>, i: nat): State<T>
    requires Enabled(s, Work(i))
  {
    match s.workers[i].pc
    case Top => Goto(s, i, if s.running then Acquire else Done)
    case Acquire => Goto(s.(lock := Some(i)), i, Check)
    case Check => if |s.queue| == 0 && s.running then Goto(s.(lock := None), i, Waiting) else Goto(s, i, Test)
    case Waiting => Goto(s.(lock := Some(i)), i, Check)
    case Test => Goto(s, i, if s.running then Pop else Release)
    case Pop => if |s.queue| == 0 then s.(fault := true) else TakeFront(s, i)
    case Release => Goto(s.(lock := None), i, Decide)
    case Decide => if s.running then Goto(s, i, Run) else Drop(s, i)
    case Run => if s.workers[i].local.None? then s.(fault := true) else Execute(s, i)
    case Done => s
  }

  function Step<T>(s: State<T>, l: Label<T>): State<T>
    requires Enabled(s, l)
  {
    match l
    case Work(i) => WorkerStep(s, i)
    case Enqueue(task) => s.(queue := s.queue + [task], enqueued := s.enqueued + [task])
    case Stop => s.(running := false)
  }

  /** The states reached by an interleaving. */
  ghost predicate Reaches<T(!new)>(n: nat, labels: seq<Label<T>>, s: State<T>)
    decreases |labels|
  {
    if |labels| == 0 then s == Init(n)
    else
      var last := |labels| - 1;
      exists before: State<T> :: Reaches(n, labels[..last], before) && Enabled(before, labels[last])
                                 && s == Step(before, labels[last])
  }

  predicate Holding(pc: Pc) {
    pc == Check || pc == Test || pc == Pop || pc == Release
  }

  // ----- The invariant

  /** The queue is what has been enqueued and not yet taken, in order. */
  ghost predicate Fifo<T>(s: State<T>) {
    |s.fates| <= |s.enqueued| && s.queue == s.enqueued[|s.fates|..]
  }

  ghost predicate Exclusive<T>(s: State<T>) {
    && (s.lock.Some? ==> s.lock.value < |s.workers|)
    && forall i :: 0 <= i < |s.workers| ==> (Holding(s.workers[i].pc) <==> s.lock == Some(i))
  }

  /** Because `running` only falls, a worker about to pop finds a task, and one that has not popped
      will not run. */
  ghost predicate LocalFacts<T>(s: State<T>, w: Worker<T>) {
    && (w.pc == Test ==> |s.queue| > 0 || !s.running)
    && (w.pc == Pop ==> |s.queue| > 0)
    && (w.pc == Run ==> w.current)
    && ((w.pc == Release || w.pc == Decide) && !w.current ==> !s.running)
    && (w.current ==> w.pc == Release || w.pc == Decide || w.pc == Run)
  }

  ghost predicate Guarded<T>(s: State<T>) {
    forall i :: 0 <= i < |s.workers| ==> LocalFacts(s, s.workers[i])
  }

  /** The ledger and the workers agree on who holds what. */
  ghost predicate Ledger<T>(s: State<T>) {
    && (forall i :: 0 <= i < |s.workers| && s.workers[i].current ==>
          && s.workers[i].local.Some?
          && s.workers[i].local.value.ticket < |s.fates|
          && s.fates[s.workers[i].local.value.ticket] == Held(i)
          && s.workers[i].local.value.ticket < |s.enqueued|
          && s.workers[i].local.value.task == s.enqueued[s.workers[i].local.value.ticket])
    && (forall t :: 0 <= t < |s.fates| && s.fates[t].Held? ==>
          && s.fates[t].worker < |s.workers|
          && s.workers[s.fates[t].worker].current
          && s.workers[s.fates[t].worker].local.Some?
          && s.workers[s.fates[t].worker].local.value.ticket == t)
  }

  /** Only a worker that is leaving has dropped a task, and only one. */
  ghost predicate Drops<T>(s: State<T>) {
    && (forall t :: 0 <= t < |s.fates| && s.fates[t].Dropped? ==>
          && !s.running && s.fates[t].worker < |s.workers|
          && (s.workers[s.fates[t].worker].pc == Top || s.workers[s.fates[t].worker].pc == Done))
    && (forall t, u :: 0 <= t < u < |s.fates| && s.fates[t].Dropped? ==> s.fates[u] != s.fates[t])
  }

  /** The tickets run are those the ledger says, each once, and the tasks executed are theirs. */
  ghost predicate Runs<T>(s: State<T>) {
    && |s.executed| == |s.ran|
    && (forall k :: 0 <= k < |s.ran| ==>
          s.ran[k] < |s.fates| && s.fates[s.ran[k]] == Ran && s.ran[k] < |s.enqueued| &&
          s.executed[k] == s.enqueued[s.ran[k]])
    && (forall j, k :: 0 <= j < k < |s.ran| ==> s.ran[j] != s.ran[k])
    && (forall t :: 0 <= t < |s.fates| && s.fates[t] == Ran ==> t in s.ran)
  }

  ghost predicate Inv<T>(s: State<T>) {
    && !s.fault && Fifo(s) && Exclusive(s) && Guarded(s) && Ledger(s) && Drops(s) && Runs(s)
  }

  lemma InitHolds<T>(n: nat)
    ensures Inv(Init<T>(n))
  {
  }

  // Steps that only move a worker, and perhaps the mutex.

  lemma LockKeeps<T>(s: State<T>, i: nat)
    requires Inv(s) && Enabled(s, Work(i))
    requires var pc := s.workers[i].pc; pc == Acquire || pc == Waiting
    ensures Inv(WorkerStep(s, i))
  {
    var s' := WorkerStep(s, i);
    assert LocalFacts(s, s.workers[i]);
    assert Guarded(s') by {
      forall j | 0 <= j < |s'.workers| ensures LocalFacts(s', s'.workers[j]) {
        assert LocalFacts(s, s.workers[j]);
      }
    }
  }

  lemma CheckKeeps<T>(s: State<T>, i: nat)
    requires Inv(s) && Enabled(s, Work(i))
    requires s.workers[i].pc == Check
    ensures Inv(WorkerStep(s, i))
  {
    var s' := WorkerStep(s, i);
    assert LocalFacts(s, s.workers[i]);
    assert Guarded(s') by {
      forall j | 0 <= j < |s'.workers| ensures LocalFacts(s', s'.workers[j]) {
        assert LocalFacts(s, s.workers[j]);
      }
    }
  }

  lemma ReleaseKeeps<T>(s: State<T>, i: nat)
    requires Inv(s) && Enabled(s, Work(i))
    requires s.workers[i].pc == Release
    ensures Inv(WorkerStep(s, i))
  {
    var s' := WorkerStep(s, i);
    assert LocalFacts(s, s.workers[i]);
    assert Guarded(s') by {
      forall j | 0 <= j < |s'.workers| ensures LocalFacts(s', s'.workers[j]) {
        assert LocalFacts(s, s.workers[j]);
      }
    }
  }

  lemma TestKeeps<T>(s: State<T>, i: nat)
    requires Inv(s) && Enabled(s, Work(i))
    requires var pc := s.workers[i].pc; pc == Top || pc == Test
    ensures Inv(WorkerStep(s, i))
  {
    var s' := WorkerStep(s, i);
    assert LocalFacts(s, s.workers[i]);
    assert Guarded(s') by {
      forall j | 0 <= j < |s'.workers| ensures LocalFacts(s', s'.workers[j]) {
        assert LocalFacts(s, s.workers[j]);
      }
    }
  }

  lemma PopKeeps<T>(s: State<T>, i: nat)
    requires Inv(s) && Enabled(s, Work(i)) && s.workers[i].pc == Pop
    ensures Inv(WorkerStep(s, i))
  {
    hide Ledger, Drops, Runs;
    var s' := WorkerStep(s, i);
    assert LocalFacts(s, s.workers[i]);
    assert s.queue[1..] == s.enqueued[|s.fates| + 1..];
    PopKeepsTasks(s, i);
    assert Guarded(s') by {
      forall j | 0 <= j < |s'.workers| ensures LocalFacts(s', s'.workers[j]) {
        assert LocalFacts(s, s.workers[j]);
      }
    }
  }

  lemma PopKeepsTasks<T>(s: State<T>, i: nat)
    requires Fifo(s) && Ledger(s) && Drops(s) && Runs(s)
    requires i < |s.workers| && s.workers[i].pc == Pop && !s.workers[i].current && |s.queue| > 0
    ensures var s' := TakeFront(s, i); Ledger(s') && Drops(s') && Runs(s')
  {
    var s' := TakeFront(s, i);
    assert Ledger(s') by { hide Drops, Runs; }
    assert Drops(s') by { hide Fifo, Ledger, Runs; }
    assert Runs(s') by { hide Drops, Ledger; }
  }

  lemma DecideKeeps<T>(s: State<T>, i: nat)
    requires Inv(s) && Enabled(s, Work(i)) && s.workers[i].pc == Decide
    ensures Inv(WorkerStep(s, i))
  {
    hide Ledger, Drops, Runs;
    var s' := WorkerStep(s, i);
    assert LocalFacts(s, s.workers[i]);
    if s.running {
      MoveKeepsTasks(s, i, Run);
    } else {
      DropKeepsTasks(s, i);
    }
    assert Guarded(s') by {
      forall j | 0 <= j < |s'.workers| ensures LocalFacts(s', s'.workers[j]) {
        assert LocalFacts(s, s.workers[j]);
      }
    }
  }

  lemma MoveKeepsTasks<T>(s: State<T>, i: nat, pc: Pc)
    requires Ledger(s) && Drops(s) && Runs(s) && i < |s.workers|
    requires s.workers[i].pc != Top && s.workers[i].pc != Done
    ensures var s' := Goto(s, i, pc); Ledger(s') && Drops(s') && Runs(s')
  {
  }

  lemma DropKeepsTasks<T>(s: State<T>, i: nat)
    requires Ledger(s) && Drops(s) && Runs(s) && i < |s.workers| && s.workers[i].pc == Decide && !s.running
    ensures var s' := Drop(s, i); Ledger(s') && Drops(s') && Runs(s')
  {
    var s' := Drop(s, i);
    assert Ledger(s') by { hide Drops, Runs; }
    assert Drops(s') by { hide Runs; }
    assert Runs(s') by { hide Drops; }
  }

  lemma RunKeeps<T>(s: State<T>, i: nat)
    requires Inv(s) && Enabled(s, Work(i)) && s.workers[i].pc == Run
    ensures Inv(WorkerStep(s, i))
  {
    var s' := WorkerStep(s, i);
    assert LocalFacts(s, s.workers[i]);
    assert s.workers[i].current && s.workers[i].local.Some?;
    hide Ledger, Drops, Runs;
    RunKeepsTasks(s, i);
    assert Guarded(s') by {
      forall j | 0 <= j < |s'.workers| ensures LocalFacts(s', s'.workers[j]) {
        assert LocalFacts(s, s.workers[j]);
      }
    }
  }

  lemma RunKeepsTasks<T>(s: State<T>, i: nat)
    requires Ledger(s) && Drops(s) && Runs(s)
    requires i < |s.workers| && s.workers[i].pc == Run && s.workers[i].current && s.workers[i].local.Some?
    ensures var s' := Execute(s, i); Ledger(s') && Drops(s') && Runs(s')
  {
    var s' := Execute(s, i);
    assert Ledger(s') by { hide Drops, Runs; }
    assert Drops(s') by { hide Runs; }
    assert Runs(s') by { hide Drops; }
  }

  lemma OutsideKeeps<T>(s: State<T>, l: Label<T>)
    requires Inv(s) && Enabled(s, l) && !l.Work?
    ensures Inv(Step(s, l))
  {
    var s' := Step(s, l);
    assert Guarded(s') by {
      forall j | 0 <= j < |s'.workers| ensures LocalFacts(s', s'.workers[j]) {
        assert LocalFacts(s, s.workers[j]);
      }
    }
  }

  lemma StepKeeps<T>(s: State<T>, l: Label<T>)
    requires Inv(s) && Enabled(s, l)
    ensures Inv(Step(s, l)) && |Step(s, l).workers| == |s.workers|
  {
    match l
    case Work(i) =>
      match s.workers[i].pc {
        case Top => TestKeeps(s, i);
        case Acquire => LockKeeps(s, i);
        case Check => CheckKeeps(s, i);
        case Waiting => LockKeeps(s, i);
        case Test => TestKeeps(s, i);
        case Pop => PopKeeps(s, i);
        case Release => ReleaseKeeps(s, i);
        case Decide => DecideKeeps(s, i);
        case Run => RunKeeps(s, i);
      }
    case _ => OutsideKeeps(s, l);
  }

  /** Every state of every interleaving, for any number of workers. No step of it reads the front of
      an empty queue or calls an empty function. */
  lemma {:induction false} ReachableInv<T(!new)>(n: nat, labels: seq<Label<T>>, s: State<T>)
    requires Reaches(n, labels, s)
    ensures Inv(s) && |s.workers| == n && !s.fault
    decreases |labels|
  {
    if |labels| == 0 {
      InitHolds<T>(n);
    } else {
      var last := |labels| - 1;
      var before: State<T> :| Reaches(n, labels[..last], before) && Enabled(before, labels[last])
                              && s == Step(before, labels[last]);
      ReachableInv(n, labels[..last], before);
      hide Step, Fifo, Exclusive, Guarded, Ledger, Drops, Runs;
      StepKeeps(before, labels[last]);
    }
  }

  // ----- What the invariant means for the tasks

  ghost function Holders<T>(s: State<T>, t: nat): set<nat> {
    set i: nat | i < |s.workers| && s.workers[i].current && s.workers[i].local.Some?
                 && s.workers[i].local.value.ticket == t
  }

  ghost function Droppers<T>(s: State<T>, t: nat): set<nat> {
    set i: nat | i < |s.workers| && t < |s.fates| && s.fates[t] == Dropped(i)
  }

  lemma {:induction false} DistinctOccursOnce(s: seq<nat>, x: nat)
    requires forall j, k :: 0 <= j < k < |s| ==> s[j] != s[k]
    ensures multiset(s)[x] == if x in s then 1 else 0
  {
    if |s| > 0 {
      var init := s[..|s| - 1];
      assert s == init + [s[|s| - 1]];
      DistinctOccursOnce(init, x);
    }
  }

  /** Every task ever enqueued is in exactly one place: the queue, the hands of one worker, the log of
      tasks run, where it occurs once, or dropped by one worker at stop. */
  lemma EachTaskInOnePlace<T(!new)>(n: nat, labels: seq<Label<T>>, s: State<T>, t: nat)
    requires Reaches(n, labels, s) && t < |s.enqueued|
    ensures (if |s.fates| <= t then 1 else 0) + |Holders(s, t)| + multiset(s.ran)[t] + |Droppers(s, t)| == 1
    ensures |s.fates| <= t ==> t - |s.fates| < |s.queue| && s.queue[t - |s.fates|] == s.enqueued[t]
    ensures Droppers(s, t) != {} ==> !s.running
  {
    ReachableInv(n, labels, s);
    DistinctOccursOnce(s.ran, t);
    if t < |s.fates| {
      match s.fates[t]
      case Held(i) =>
        assert Holders(s, t) == {i};
        assert Droppers(s, t) == {};
      case Dropped(i) =>
        assert Droppers(s, t) == {i};
        assert Holders(s, t) == {};
      case Ran =>
        assert Droppers(s, t) == {};
        assert Holders(s, t) == {};
    } else {
      assert Droppers(s, t) == {};
      assert Holders(s, t) == {};
    }
  }

  /** Tasks leave the queue in the order they were enqueued, and what a worker runs is the task its
      last pop took, never the one its variable kept from before. */
  lemma TakenInOrder<T(!new)>(n: nat, labels: seq<Label<T>>, s: State<T>, i: nat)
    requires Reaches(n, labels, s) && Enabled(s, Work(i))
    ensures s.workers[i].pc == Pop ==>
              |s.fates| < |s.enqueued| &&
              WorkerStep(s, i).workers[i].local == Some(Local(s.enqueued[|s.fates|], |s.fates|))
    ensures s.workers[i].pc == Run ==>
              && s.workers[i].local.Some?
              && var ticket := s.workers[i].local.value.ticket;
              && ticket < |s.enqueued| && ticket !in s.ran
              && WorkerStep(s, i).executed == s.executed + [s.enqueued[ticket]]
  {
    ReachableInv(n, labels, s);
    assert LocalFacts(s, s.workers[i]);
  }

  ghost function DroppedTickets<T>(s: State<T>): set<nat> {
    set t: nat | t < |s.fates| && s.fates[t].Dropped?
  }

  /** A worker drops at most one task, so that a pool of n workers drops at most n. */
  lemma DropsAreBounded<T(!new)>(n: nat, labels: seq<Label<T>>, s: State<T>)
    requires Reaches(n, labels, s)
    ensures |DroppedTickets(s)| <= n
    ensures forall t, u :: 0 <= t < u < |s.fates| && s.fates[t].Dropped? && s.fates[u].Dropped?
                           ==> s.fates[t].worker != s.fates[u].worker
  {
    ReachableInv(n, labels, s);
    DroppedBelow(s, DroppedTickets(s), n);
  }

  lemma {:induction false} DroppedBelow<T>(s: State<T>, tickets: set<nat>, n: nat)
    requires forall t <- tickets :: t < |s.fates| && s.fates[t].Dropped? && s.fates[t].worker < n
    requires forall t, u :: 0 <= t < u < |s.fates| && s.fates[t].Dropped? ==> s.fates[u] != s.fates[t]
    ensures |tickets| <= n
  {
    if n == 0 {
      assert tickets == {};
    } else if t :| t in tickets && s.fates[t].worker == n - 1 {
      DroppedBelow(s, tickets - {t}, n - 1);
    } else {
      DroppedBelow(s, tickets, n - 1);
    }
  }

  /** Once every worker has left its loop no task is in hand: each was run, dropped, or never taken. */
  lemma AfterShutdown<T(!new)>(n: nat, labels: seq<Label<T>>, s: State<T>, t: nat)
    requires Reaches(n, labels, s) && t < |s.fates|
    requires forall w <- s.workers :: w.pc == Done
    ensures s.fates[t] == Ran || s.fates[t].Dropped?
    ensures n > 0 ==> Stop in labels
  {
    ReachableInv(n, labels, s);
    DoneOnlyAfterStop(n, labels, s);
    if n > 0 {
      assert s.workers[0] in s.workers;
    }
    forall i | 0 <= i < |s.workers| ensures !s.workers[i].current {
      assert s.workers[i] in s.workers && LocalFacts(s, s.workers[i]);
    }
  }

  // ----- Progress

  /** The pool runs until it is stopped, and a worker leaves its loop only after that. */
  lemma {:induction false} DoneOnlyAfterStop<T(!new)>(n: nat, labels: seq<Label<T>>, s: State<T>)
    requires Reaches(n, labels, s)
    ensures s.running <==> Stop !in labels
    ensures (exists i :: 0 <= i < |s.workers| && s.workers[i].pc == Done) ==> Stop in labels
    decreases |labels|
  {
    if |labels| > 0 {
      var last := |labels| - 1;
      var before: State<T> :| Reaches(n, labels[..last], before) && Enabled(before, labels[last])
                              && s == Step(before, labels[last]);
      DoneOnlyAfterStop(n, labels[..last], before);
      assert labels == labels[..last] + [labels[last]];
      hide Enabled, Step;
      if before.running {
        StaysBusy(before, labels[last]);
      }
      if !before.running {
        StaysStopped(before, labels[last]);
      }
    }
  }

  /** The pool runs and every worker is in its loop. */
  predicate Busy<T>(s: State<T>) {
    s.running && forall i :: 0 <= i < |s.workers| ==> s.workers[i].pc != Done
  }

  lemma StaysBusy<T>(s: State<T>, l: Label<T>)
    requires Enabled(s, l) && Busy(s)
    ensures Busy(Step(s, l)) <==> l != Stop
    ensures Step(s, l).running <==> l != Stop
  {
  }

  lemma StaysStopped<T>(s: State<T>, l: Label<T>)
    requires Enabled(s, l) && !s.running
    ensures !Step(s, l).running
  {
  }

  /** Steps one after the other. */
  predicate Path<T(==)>(s: State<T>, labels: seq<Label<T>>, end: State<T>)
    decreases |labels|
  {
    if |labels| == 0 then end == s else Enabled(s, labels[0]) && Path(Step(s, labels[0]), labels[1..], end)
  }

  lemma {:induction false} PathsCompose<T>(s: State<T>, a: seq<Label<T>>, mid: State<T>, b: seq<Label<T>>, end: State<T>)
    requires Path(s, a, mid) && Path(mid, b, end)
    ensures Path(s, a + b, end)
    decreases |a|
  {
    hide Step, Enabled;
    if |a| == 0 {
      assert a + b == b;
    } else {
      assert (a + b)[0] == a[0] && (a + b)[1..] == a[1..] + b;
      PathsCompose(Step(s, a[0]), a[1..], mid, b, end);
    }
  }

  lemma {:induction false} ReachesAlong<T(!new)>(
    n: nat, labels: seq<Label<T>>, s: State<T>, more: seq<Label<T>>, end: State<T>)
    requires Reaches(n, labels, s) && Path(s, more, end)
    ensures Reaches(n, labels + more, end)
    decreases |more|
  {
    hide Step, Enabled;
    if |more| == 0 {
      assert labels + more == labels;
    } else {
      var next := labels + [more[0]];
      assert next[..|labels|] == labels;
      assert Reaches(n, next, Step(s, more[0]));
      ReachesAlong(n, next, Step(s, more[0]), more[1..], end);
      assert next + more[1..] == labels + more;
    }
  }

  lemma OneStepMore<T>(s: State<T>, l: Label<T>, labels: seq<Label<T>>, end: State<T>)
    requires Enabled(s, l) && Path(Step(s, l), labels, end)
    ensures Path(s, [l] + labels, end)
  {
    assert ([l] + labels)[1..] == labels;
  }

  function Alone<T>(i: nat, k: nat): seq<Label<T>> {
    if k == 0 then [] else [Work(i)] + Alone(i, k - 1)
  }

  /** One iteration of a worker that nobody interrupts: eight steps, every one of them possible, take the front
      task from the queue and execute exactly that one; the mutex is free again. */
  lemma OneIteration<T>(s: State<T>, i: nat)
    requires i < |s.workers| && s.workers[i].pc == Top && s.running && s.lock == None && |s.queue| > 0
    ensures var end := Served(s, i);
            && Path(s, Alone(i, 8), end)
            && end.queue == s.queue[1..] && end.executed == s.executed + [s.queue[0]] && end.ran == s.ran + [|s.fates|]
            && end.fates == s.fates + [Ran] && end.lock == None && end.running
            && end.enqueued == s.enqueued && end.fault == s.fault
            && end.workers == s.workers[i := end.workers[i]] && end.workers[i].pc == Top
  {
    FourSteps(s, i);
    FourMore(Popping(s, i), i);
    hide Served, Popping, Path, Alone;
    PathsCompose(s, Alone(i, 4), Popping(s, i), Alone(i, 4), Served(s, i));
    AloneAdds<T>(i, 4, 4);
    ServedState(s, i);
  }

  /** Before the pop, with the mutex. */
  function Popping<T>(s: State<T>, i: nat): State<T>
    requires i < |s.workers|
  {
    Goto(s.(lock := Some(i)), i, Pop)
  }

  /** With the task in hand and the mutex released. */
  function Taken<T>(s: State<T>, i: nat): State<T>
    requires i < |s.workers| && |s.queue| > 0
  {
    Goto(TakeFront(s, i).(lock := None), i, Decide)
  }

  /** Back at the top, the task run. */
  function Served<T>(s: State<T>, i: nat): State<T>
    requires i < |s.workers| && |s.queue| > 0
  {
    Execute(Goto(Taken(Popping(s, i), i), i, Run), i)
  }

  lemma ServedState<T>(s: State<T>, i: nat)
    requires i < |s.workers| && |s.queue| > 0
    ensures var end := Served(s, i);
            && end.queue == s.queue[1..] && end.executed == s.executed + [s.queue[0]] && end.ran == s.ran + [|s.fates|]
            && end.fates == s.fates + [Ran] && end.lock == None && end.running == s.running
            && end.enqueued == s.enqueued && end.fault == s.fault
            && end.workers == s.workers[i := end.workers[i]] && end.workers[i].pc == Top
  {
  }

  lemma {:induction false} AloneAdds<T>(i: nat, a: nat, b: nat)
    ensures Alone<T>(i, a) + Alone<T>(i, b) == Alone<T>(i, a + b)
  {
    if a == 0 {
      assert Alone<T>(i, a) + Alone<T>(i, b) == Alone<T>(i, b);
    } else {
      AloneAdds<T>(i, a - 1, b);
      assert ([Work(i)] + Alone<T>(i, a - 1)) + Alone<T>(i, b) == [Work(i)] + (Alone<T>(i, a - 1) + Alone<T>(i, b));
    }
  }

  /** Up to the pop. */
  lemma FourSteps<T>(s: State<T>, i: nat)
    requires i < |s.workers| && s.workers[i].pc == Top && s.running && s.lock == None && |s.queue| > 0
    ensures Path(s, Alone(i, 4), Popping(s, i))
  {
    var s1 := Goto(s, i, Acquire);
    var s2 := Goto(s.(lock := Some(i)), i, Check);
    var s3 := Goto(s.(lock := Some(i)), i, Test);
    var s4 := Popping(s, i);
    assert Enabled(s, Work(i)) && Step(s, Work(i)) == s1;
    assert Enabled(s1, Work(i)) && Step(s1, Work(i)) == s2;
    assert Enabled(s2, Work(i)) && Step(s2, Work(i)) == s3;
    assert Enabled(s3, Work(i)) && Step(s3, Work(i)) == s4;
    hide Step, Enabled, Goto, Popping;
    FourPath(s, s1, s2, s3, s4, i);
  }

  lemma FourPath<T>(s: State<T>, s1: State<T>, s2: State<T>, s3: State<T>, s4: State<T>, i: nat)
    requires Enabled(s, Work(i)) && Step(s, Work(i)) == s1 && Enabled(s1, Work(i)) && Step(s1, Work(i)) == s2
    requires Enabled(s2, Work(i)) && Step(s2, Work(i)) == s3 && Enabled(s3, Work(i)) && Step(s3, Work(i)) == s4
    ensures Path(s, Alone(i, 4), s4)
  {
    hide Step, Enabled;
    OneStepMore(s3, Work(i), Alone(i, 0), s4);
    OneStepMore(s2, Work(i), Alone(i, 1), s4);
    OneStepMore(s1, Work(i), Alone(i, 2), s4);
    OneStepMore(s, Work(i), Alone(i, 3), s4);
  }

  /** From the pop on. */
  lemma FourMore<T>(s: State<T>, i: nat)
    requires i < |s.workers| && s.workers[i].pc == Pop && s.running && s.lock == Some(i) && |s.queue| > 0
    ensures Path(s, Alone(i, 4), Execute(Goto(Taken(s, i), i, Run), i))
  {
    var s1 := TakeFront(s, i);
    var s2 := Taken(s, i);
    var s3 := Goto(s2, i, Run);
    assert s3.workers[i].local == Some(Local(s.queue[0], |s.fates|));
    hide Path, Alone;
    FourPath(s, s1, s2, s3, Execute(s3, i), i);
  }

  // ----- Every task can be run

  predicate OnlyWork<T>(labels: seq<Label<T>>) {
    forall i :: 0 <= i < |labels| ==> labels[i].Work?
  }

  /** How far a worker that finds a task is from taking it. */
  function Distance(pc: Pc): nat {
    match pc
    case Pop => 1
    case Test => 2
    case Check => 3
    case Acquire => 4
    case Waiting => 4
    case Top => 5
    case Run => 6
    case Decide => 7
    case Release => 8
    case Done => 0
  }

  /** Steps of the workers alone, in a pool that runs; no task is added. */
  ghost predicate Leads<T>(s: State<T>, labels: seq<Label<T>>, end: State<T>) {
    && Path(s, labels, end) && OnlyWork(labels) && Inv(end) && Busy(end)
    && end.enqueued == s.enqueued && |end.workers| == |s.workers|
  }

  lemma LeadsOn<T>(s: State<T>, a: seq<Label<T>>, mid: State<T>, b: seq<Label<T>>, end: State<T>)
    requires Leads(s, a, mid) && Leads(mid, b, end)
    ensures Leads(s, a + b, end)
  {
    hide Path, Inv;
    PathsCompose(s, a, mid, b, end);
  }

  lemma OneWorkerStep<T>(s: State<T>, i: nat)
    requires Inv(s) && Busy(s) && Enabled(s, Work(i))
    ensures Leads(s, [Work(i)], WorkerStep(s, i))
  {
    StepKeeps(s, Work(i));
    StaysBusy(s, Work(i));
    hide Inv;
    OneStepMore(s, Work(i), [], WorkerStep(s, i));
    var one: seq<Label<T>> := [Work(i)];
    assert one + [] == one;
  }

  /** The worker that holds the mutex can give it back. */
  lemma {:induction false} Unlock<T>(s: State<T>) returns (labels: seq<Label<T>>, end: State<T>)
    requires Inv(s) && Busy(s)
    ensures Leads(s, labels, end) && end.lock == None && |end.queue| <= |s.queue|
    decreases if s.lock.None? then 0 else if s.workers[s.lock.value].pc == Release then 1
              else 1 + Distance(s.workers[s.lock.value].pc)
  {
    if s.lock == None {
      labels, end := [], s;
    } else {
      var i := s.lock.value;
      assert Holding(s.workers[i].pc);
      OneWorkerStep(s, i);
      var rest;
      rest, end := Unlock(WorkerStep(s, i));
      hide Inv, Path;
      LeadsOn(s, [Work(i)], WorkerStep(s, i), rest, end);
      labels := [Work(i)] + rest;
    }
  }

  /** Worker 0 can take the next task. */
  lemma {:induction false} Serve<T>(s: State<T>) returns (labels: seq<Label<T>>, end: State<T>)
    requires Inv(s) && Busy(s) && |s.workers| > 0 && |s.queue| > 0 && (s.lock == None || s.lock == Some(0))
    ensures Leads(s, labels, end) && |end.queue| < |s.queue|
    decreases Distance(s.workers[0].pc)
  {
    assert LocalFacts(s, s.workers[0]);
    OneWorkerStep(s, 0);
    var next := WorkerStep(s, 0);
    if s.workers[0].pc == Pop {
      labels, end := [Work(0)], next;
    } else {
      var rest;
      rest, end := Serve(next);
      hide Inv, Path;
      LeadsOn(s, [Work(0)], next, rest, end);
      labels := [Work(0)] + rest;
    }
  }

  /** The queue can be emptied. */
  lemma {:induction false} Empty<T>(s: State<T>) returns (labels: seq<Label<T>>, end: State<T>)
    requires Inv(s) && Busy(s) && |s.workers| > 0
    ensures Leads(s, labels, end) && end.queue == [] && end.lock == None
    decreases |s.queue|
  {
    hide Inv, Path;
    labels, end := Unlock(s);
    if end.queue != [] {
      var mid := end;
      var served, after := Serve(mid);
      var rest, last := Empty(after);
      LeadsOn(mid, served, after, rest, last);
      LeadsOn(s, labels, mid, served + rest, last);
      labels, end := labels + (served + rest), last;
    }
  }

  /** The workers that still hold a task can run it. */
  lemma {:induction false} Finish<T>(s: State<T>, i: nat) returns (labels: seq<Label<T>>, end: State<T>)
    requires Inv(s) && Busy(s) && i <= |s.workers| && s.queue == [] && s.lock == None
    requires forall j :: 0 <= j < i ==> !s.workers[j].current
    ensures Leads(s, labels, end) && end.queue == []
    ensures forall j :: 0 <= j < |end.workers| ==> !end.workers[j].current
    decreases |s.workers| - i, if i < |s.workers| then Distance(s.workers[i].pc) else 0
  {
    if i == |s.workers| {
      labels, end := [], s;
    } else if !s.workers[i].current {
      labels, end := Finish(s, i + 1);
    } else {
      assert LocalFacts(s, s.workers[i]);
      assert s.workers[i].pc == Decide || s.workers[i].pc == Run;
      OneWorkerStep(s, i);
      var next := WorkerStep(s, i);
      var rest;
      rest, end := Finish(next, i);
      hide Inv, Path;
      LeadsOn(s, [Work(i)], next, rest, end);
      labels := [Work(i)] + rest;
    }
  }

  /** No run gets stuck before the stop: whatever the interleaving was, the workers alone can go on until every
      task enqueued has been run, each exactly once. */
  lemma EveryTaskCanBeRun<T(!new)>(n: nat, labels: seq<Label<T>>, s: State<T>)
    returns (more: seq<Label<T>>, end: State<T>)
    requires Reaches(n, labels, s) && Stop !in labels && n > 0
    ensures OnlyWork(more) && Reaches(n, labels + more, end)
    ensures end.queue == [] && end.enqueued == s.enqueued
    ensures forall t :: 0 <= t < |s.enqueued| ==> multiset(end.ran)[t] == 1
  {
    ReachableInv(n, labels, s);
    DoneOnlyAfterStop(n, labels, s);
    var a, mid := Empty(s);
    var b, last := Finish(mid, 0);
    assert Leads(s, a + b, last) by {
      hide Inv, Path;
      LeadsOn(s, a, mid, b, last);
    }
    more, end := a + b, last;
    ReachesAlong(n, labels, s, more, end);
    forall t | 0 <= t < |end.enqueued| ensures multiset(end.ran)[t] == 1 {
      DistinctOccursOnce(end.ran, t);
    }
  }

  // ----- After the stop

  /** How many steps at most a worker still takes after the stop. */
  function StepsLeft(pc: Pc): nat {
    match pc
    case Done => 0
    case Top => 1
    case Run => 2
    case Decide => 2
    case Release => 3
    case Pop => 4
    case Test => 4
    case Check => 5
    case Acquire => 6
    case Waiting => 6
  }

  function AllStepsLeft<T>(workers: seq<Worker<T>>): nat {
    if |workers| == 0 then 0 else AllStepsLeft(workers[..|workers| - 1]) + StepsLeft(workers[|workers| - 1].pc)
  }

  lemma {:induction false} OneAdvances<T>(workers: seq<Worker<T>>, i: nat, w: Worker<T>)
    requires i < |workers| && StepsLeft(w.pc) < StepsLeft(workers[i].pc)
    ensures AllStepsLeft(workers[i := w]) < AllStepsLeft(workers)
  {
    var last := |workers| - 1;
    if i < last {
      OneAdvances(workers[..last], i, w);
      assert workers[i := w][..last] == workers[..last][i := w];
    } else {
      assert workers[i := w][..last] == workers[..last];
    }
  }

  lemma {:induction false} AtMostSixEach<T>(workers: seq<Worker<T>>)
    ensures AllStepsLeft(workers) <= 6 * |workers|
  {
    if |workers| > 0 {
      AtMostSixEach(workers[..|workers| - 1]);
    }
  }

  function WorkIn<T>(labels: seq<Label<T>>): nat {
    if |labels| == 0 then 0 else (if labels[0].Work? then 1 else 0) + WorkIn(labels[1..])
  }

  lemma WorkerNears<T>(s: State<T>, i: nat)
    requires Inv(s) && !s.running && Enabled(s, Work(i))
    ensures AllStepsLeft(WorkerStep(s, i).workers) < AllStepsLeft(s.workers)
  {
    hide Fifo, Ledger, Drops, Runs, AllStepsLeft;
    var s' := WorkerStep(s, i);
    assert LocalFacts(s, s.workers[i]);
    assert s.workers[i].pc == Run ==> s.workers[i].local.Some? by { RunHasTask(s, i); }
    assert s'.workers == s.workers[i := s'.workers[i]];
    OneAdvances(s.workers, i, s'.workers[i]);
  }

  lemma RunHasTask<T>(s: State<T>, i: nat)
    requires Inv(s) && i < |s.workers|
    ensures s.workers[i].pc == Run ==> s.workers[i].local.Some?
  {
    assert LocalFacts(s, s.workers[i]);
  }

  lemma NearsTheEnd<T>(s: State<T>, l: Label<T>)
    requires Inv(s) && !s.running && Enabled(s, l)
    ensures var s' := Step(s, l);
            && AllStepsLeft(s'.workers) + (if l.Work? then 1 else 0) <= AllStepsLeft(s.workers)
            && |s'.workers| == |s.workers|
            && forall i :: 0 <= i < |s.workers| && s'.workers[i].pc == Run ==> s.workers[i].pc == Run
  {
    hide Inv, AllStepsLeft;
    if l.Work? {
      WorkerNears(s, l.i);
    }
  }

  lemma {:induction false} WorkIsBounded<T>(s: State<T>, labels: seq<Label<T>>, end: State<T>)
    requires Inv(s) && !s.running && Path(s, labels, end)
    ensures Inv(end) && !end.running && |end.workers| == |s.workers|
    ensures WorkIn(labels) + AllStepsLeft(end.workers) <= AllStepsLeft(s.workers)
    ensures forall i :: 0 <= i < |s.workers| && end.workers[i].pc == Run ==> s.workers[i].pc == Run
    decreases |labels|
  {
    if |labels| > 0 {
      hide Inv, Step, Enabled, AllStepsLeft;
      var next := Step(s, labels[0]);
      StepKeeps(s, labels[0]);
      StaysStopped(s, labels[0]);
      NearsTheEnd(s, labels[0]);
      WorkIsBounded(next, labels[1..], end);
    }
  }

  lemma HolderCanStep<T>(s: State<T>)
    requires Inv(s) && s.lock.Some?
    ensures Enabled(s, Work(s.lock.value))
  {
    assert Holding(s.workers[s.lock.value].pc);
  }

  /** Once the pool is stopped no task is begun, and whatever the interleaving is the workers take at most six
      steps each; when none of them can take one, all have left their loops. */
  lemma ShutdownEnds<T(!new)>(n: nat, before: seq<Label<T>>, s: State<T>, after: seq<Label<T>>, end: State<T>)
    requires Reaches(n, before, s) && Stop in before && Path(s, after, end)
    ensures WorkIn(after) <= 6 * n
    ensures |s.workers| == |end.workers| == n
    ensures forall i :: 0 <= i < n && end.workers[i].pc == Run ==> s.workers[i].pc == Run
    ensures (forall i: nat :: !Enabled(end, Work(i))) ==> forall w <- end.workers :: w.pc == Done
  {
    ReachableInv(n, before, s);
    DoneOnlyAfterStop(n, before, s);
    WorkIsBounded(s, after, end);
    AtMostSixEach(s.workers);
    hide Path, WorkIn;
    if forall i: nat :: !Enabled(end, Work(i)) {
      if end.lock.Some? {
        HolderCanStep(end);
      }
      forall w | w in end.workers ensures w.pc == Done {
        var i: nat :| i < |end.workers| && end.workers[i] == w;
        assert !Enabled(end, Work(i));
      }
    }
  }
}
