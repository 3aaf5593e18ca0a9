// The TCP receiver's threads; a section under a mutex is one step.
module TcpPool {

  datatype Listener = Reading | Got(ticket: nat) | Exited

  datatype Worker = Idle | Holding(ticket: nat) | Gone

  datatype Destructor = NotCalled | Stopping | ListenerJoined | PoolStopping | Finished

  /** Buffers are named by the order of receipt. */
  datatype System = System(
    received: nat,              // buffers received so far
    listener: Listener,
    tasks: seq<nat>,            // task_queue_
    workers: seq<Worker>,       // the thread pool
    messages: seq<nat>,         // messages_
    delivered: seq<nat>,        // returned by new_message, in order
    stopThread: bool, stopPool: bool, destructor: Destructor)

  datatype Action =
    | Receive | Emplace | LeaveLoop
    | Take(w: nat) | Run(w: nat) | Return(w: nat)
    | NewMessage
    | Stop | JoinListener | StopPool | JoinWorkers

  function Start(poolSize: nat): System {
    System(0, Reading, [], seq(poolSize, i => Idle), [], [], false, false, NotCalled)
  }

  predicate Enabled(s: System, a: Action) {
    match a
    case Receive => s.listener == Reading
    case Emplace => s.listener.Got?
    case LeaveLoop => s.listener == Reading && s.stopThread
    case Take(w) => w < |s.workers| && s.workers[w] == Idle && s.tasks != []
    case Run(w) => w < |s.workers| && s.workers[w].Holding?
    case Return(w) => w < |s.workers| && s.workers[w] == Idle && s.stopPool && s.tasks == []
    case NewMessage => s.messages != []
    case Stop => s.destructor == NotCalled
    case JoinListener => s.destructor == Stopping && s.listener == Exited
    case StopPool => s.destructor == ListenerJoined
    case JoinWorkers => s.destructor == PoolStopping && forall w :: 0 <= w < |s.workers| ==> s.workers[w] == Gone
  }

  function Step(s: System, a: Action): System
    requires Enabled(s, a)
  {
    match a
    case Receive => s.(listener := Got(s.received), received := s.received + 1)
    case Emplace => s.(listener := Reading, tasks := s.tasks + [s.listener.ticket])
    case LeaveLoop => s.(listener := Exited)
    case Take(w) => s.(workers := s.workers[w := Holding(s.tasks[0])], tasks := s.tasks[1..])
    case Run(w) => s.(workers := s.workers[w := Idle], messages := s.messages + [s.workers[w].ticket])
    case Return(w) => s.(workers := s.workers[w := Gone])
    case NewMessage => s.(messages := s.messages[1..], delivered := s.delivered + [s.messages[0]])
    case Stop => s.(stopThread := true, destructor := Stopping)
    case JoinListener => s.(destructor := ListenerJoined)
    case StopPool => s.(stopPool := true, destructor := PoolStopping)
    case JoinWorkers => s.(destructor := Finished)
  }

  predicate IsRun(s: System, actions: seq<Action>)
    decreases |actions|
  {
    actions == [] || (Enabled(s, actions[0]) && IsRun(Step(s, actions[0]), actions[1..]))
  }

  function Final(s: System, actions: seq<Action>): System
    requires IsRun(s, actions)
    decreases |actions|
  {
    if actions == [] then s else Final(Step(s, actions[0]), actions[1..])
  }

  // Where the buffers are.

  function InHand(w: Worker): multiset<nat> {
    if w.Holding? then multiset{w.ticket} else multiset{}
  }

  function InHands(workers: seq<Worker>): multiset<nat> {
    if workers == [] then multiset{} else InHands(workers[..|workers| - 1]) + InHand(workers[|workers| - 1])
  }

  function AtListener(l: Listener): multiset<nat> {
    if l.Got? then multiset{l.ticket} else multiset{}
  }

  /** Every place a received buffer can be in. */
  function Places(s: System): multiset<nat> {
    AtListener(s.listener) + multiset(s.tasks) + InHands(s.workers) + multiset(s.messages) + multiset(s.delivered)
  }

  function Tickets(n: nat): seq<nat> {
    if n == 0 then [] else Tickets(n - 1) + [n - 1]
  }

  lemma AddBoth(a: multiset<nat>, b: multiset<nat>, c: multiset<nat>, d: multiset<nat>, x: multiset<nat>)
    requires a + b == c + d
    ensures a + x + b == c + x + d
  {
    assert a + x + b == (a + b) + x && c + x + d == (c + d) + x;
  }

  lemma HandsOf(front: seq<Worker>, last: Worker)
    ensures InHands(front + [last]) == InHands(front) + InHand(last)
  {
    assert (front + [last])[..|front|] == front;
  }

  lemma {:induction false} HandsUpdate(workers: seq<Worker>, w: nat, after: Worker)
    requires w < |workers|
    ensures InHands(workers[w := after]) + InHand(workers[w]) == InHands(workers) + InHand(after)
    decreases |workers|
  {
    var front, last := workers[..|workers| - 1], workers[|workers| - 1];
    assert workers == front + [last];
    HandsOf(front, last);
    if w == |front| {
      assert workers[w := after] == front + [after];
      HandsOf(front, after);
      SwapLast(InHands(front), InHand(after), InHand(last));
    } else {
      assert workers[w := after] == front[w := after] + [last];
      HandsOf(front[w := after], last);
      HandsUpdate(front, w, after);
      AddBoth(InHands(front[w := after]), InHand(workers[w]), InHands(front), InHand(after), InHand(last));
    }
  }

  lemma SwapLast(a: multiset<nat>, x: multiset<nat>, y: multiset<nat>)
    ensures a + x + y == a + y + x
  {
  }

  /** Each buffer is in exactly one place, and the stop sequence goes in order. */
  predicate Invariant(s: System) {
    Places(s) == multiset(Tickets(s.received)) && Flags(s)
  }

  predicate Flags(s: System) {
    && (s.stopThread <==> s.destructor != NotCalled)
    && (s.stopPool <==> s.destructor == PoolStopping || s.destructor == Finished)
    && (s.destructor == ListenerJoined || s.stopPool ==> s.listener == Exited)
    && (s.listener == Exited ==> s.stopThread)
    && (forall w :: 0 <= w < |s.workers| && s.workers[w] == Gone ==> s.stopPool && s.tasks == [])
    && (s.destructor == Finished ==> forall w :: 0 <= w < |s.workers| ==> s.workers[w] == Gone)
  }

  function Five(l: multiset<nat>, t: multiset<nat>, h: multiset<nat>, m: multiset<nat>, d: multiset<nat>): multiset<nat> {
    l + t + h + m + d
  }

  /** Something moves from one place to the next. */
  lemma Moved(l: multiset<nat>, t: multiset<nat>, h: multiset<nat>, m: multiset<nat>, d: multiset<nat>, x: multiset<nat>)
    ensures Five(l + x, t, h, m, d) == Five(l, t, h, m, d) + x
    ensures Five(l, t + x, h, m, d) == Five(l, t, h, m, d) + x
    ensures Five(l, t, h + x, m, d) == Five(l, t, h, m, d) + x
    ensures Five(l, t, h, m + x, d) == Five(l, t, h, m, d) + x
    ensures Five(l, t, h, m, d + x) == Five(l, t, h, m, d) + x
  {
  }

  lemma FirstOut(s: seq<nat>)
    requires s != []
    ensures multiset(s) == multiset(s[1..]) + multiset{s[0]}
  {
    assert s == [s[0]] + s[1..];
  }

  lemma NoneAdded(a: multiset<nat>)
    ensures a + multiset{} == a && multiset{} + a == a
  {
  }

  lemma TakeConserves(s: System, w: nat)
    requires Enabled(s, Take(w))
    ensures Places(Step(s, Take(w))) == Places(s)
  {
    var l, m, d := AtListener(s.listener), multiset(s.messages), multiset(s.delivered);
    var h, x := InHands(s.workers), multiset{s.tasks[0]};
    FirstOut(s.tasks);
    HandsUpdate(s.workers, w, Holding(s.tasks[0]));
    NoneAdded(InHands(s.workers[w := Holding(s.tasks[0])]));
    Moved(l, multiset(s.tasks[1..]), h, m, d, x);
  }

  lemma RunConserves(s: System, w: nat)
    requires Enabled(s, Run(w))
    ensures Places(Step(s, Run(w))) == Places(s)
  {
    var l, t, m, d := AtListener(s.listener), multiset(s.tasks), multiset(s.messages), multiset(s.delivered);
    HandsUpdate(s.workers, w, Idle);
    NoneAdded(InHands(s.workers));
    Moved(l, t, InHands(s.workers[w := Idle]), m, d, multiset{s.workers[w].ticket});
  }

  lemma ReturnConserves(s: System, w: nat)
    requires Enabled(s, Return(w))
    ensures Places(Step(s, Return(w))) == Places(s)
  {
    HandsUpdate(s.workers, w, Gone);
    NoneAdded(InHands(s.workers[w := Gone]));
    NoneAdded(InHands(s.workers));
  }

  lemma EndsConserve(s: System, a: Action)
    requires (a == Emplace || a == NewMessage) && Enabled(s, a)
    ensures Places(Step(s, a)) == Places(s)
  {
    var l, t, h, m, d := AtListener(s.listener), multiset(s.tasks), InHands(s.workers), multiset(s.messages), multiset(s.delivered);
    if a == Emplace {
      NoneAdded(l);
      Moved(multiset{}, t, h, m, d, l);
    } else {
      FirstOut(s.messages);
      Moved(l, t, h, multiset(s.messages[1..]), d, multiset{s.messages[0]});
    }
  }

  lemma ReceiveAdds(s: System)
    requires Enabled(s, Receive)
    ensures Places(Step(s, Receive)) == Places(s) + multiset{s.received}
  {
    NoneAdded(multiset{s.received});
    Moved(multiset{}, multiset(s.tasks), InHands(s.workers), multiset(s.messages), multiset(s.delivered), multiset{s.received});
  }

  lemma PlacesConserved(s: System, a: Action)
    requires Enabled(s, a)
    ensures Places(Step(s, a)) == if a == Receive then Places(s) + multiset{s.received} else Places(s)
  {
    match a
    case Receive => ReceiveAdds(s);
    case Emplace => EndsConserve(s, a);
    case Take(w) => TakeConserves(s, w);
    case Run(w) => RunConserves(s, w);
    case Return(w) => ReturnConserves(s, w);
    case NewMessage => EndsConserve(s, a);
    case _ =>
  }

  lemma NextTicket(n: nat)
    ensures multiset(Tickets(n + 1)) == multiset(Tickets(n)) + multiset{n}
  {
    assert Tickets(n + 1) == Tickets(n) + [n];
  }

  lemma StepKeepsPlaces(s: System, a: Action)
    requires Places(s) == multiset(Tickets(s.received)) && Enabled(s, a)
    ensures Places(Step(s, a)) == multiset(Tickets(Step(s, a).received))
  {
    PlacesConserved(s, a);
    NextTicket(s.received);
  }

  lemma StepKeepsFlags(s: System, a: Action)
    requires Flags(s) && Enabled(s, a)
    ensures Flags(Step(s, a))
  {
  }

  lemma StepKeepsInvariant(s: System, a: Action)
    requires Invariant(s) && Enabled(s, a)
    ensures Invariant(Step(s, a))
  {
    StepKeepsPlaces(s, a);
    StepKeepsFlags(s, a);
  }

  /** What every step keeps holds at the end of every run. */
  lemma {:induction false} Always(s: System, actions: seq<Action>, inv: System -> bool)
    requires inv(s) && IsRun(s, actions)
    requires forall x, a :: inv(x) && Enabled(x, a) ==> inv(Step(x, a))
    ensures inv(Final(s, actions))
    decreases |actions|
  {
    if actions != [] {
      Always(Step(s, actions[0]), actions[1..], inv);
    }
  }

  lemma {:induction false} NobodyHolds(n: nat)
    ensures InHands(seq(n, i => Idle)) == multiset{}
  {
    if n > 0 {
      assert seq(n, i => Idle)[..n - 1] == seq(n - 1, i => Idle);
      NobodyHolds(n - 1);
    }
  }

  lemma InvariantAlways(s: System, actions: seq<Action>)
    requires Invariant(s) && IsRun(s, actions)
    ensures Invariant(Final(s, actions)) && |Final(s, actions).workers| == |s.workers|
  {
    var inv := (x: System) => Invariant(x) && |x.workers| == |s.workers|;
    forall x, a | inv(x) && Enabled(x, a)
      ensures inv(Step(x, a))
    {
      StepKeepsInvariant(x, a);
    }
    Always(s, actions, inv);
  }

  lemma StartInvariant(poolSize: nat)
    ensures Invariant(Start(poolSize))
  {
    NobodyHolds(poolSize);
  }

  /** In every interleaving each received buffer is in exactly one place. */
  lemma NothingLostOrDuplicated(poolSize: nat, actions: seq<Action>)
    requires IsRun(Start(poolSize), actions)
    ensures var s := Final(Start(poolSize), actions); Places(s) == multiset(Tickets(s.received))
  {
    StartInvariant(poolSize);
    InvariantAlways(Start(poolSize), actions);
  }

  lemma {:induction false} NobodyLeftHolds(workers: seq<Worker>)
    requires forall w :: 0 <= w < |workers| ==> workers[w] == Gone
    ensures InHands(workers) == multiset{}
  {
    if workers != [] {
      NobodyLeftHolds(workers[..|workers| - 1]);
    }
  }

  /** After the destructor's stop sequence everything received was handed over or waits to be fetched. */
  lemma StopSequenceDrains(poolSize: nat, actions: seq<Action>)
    requires poolSize > 0 && IsRun(Start(poolSize), actions)
    requires Final(Start(poolSize), actions).destructor == Finished
    ensures var s := Final(Start(poolSize), actions);
            s.tasks == [] && multiset(s.messages) + multiset(s.delivered) == multiset(Tickets(s.received))
  {
    var s := Final(Start(poolSize), actions);
    StartInvariant(poolSize);
    InvariantAlways(Start(poolSize), actions);
    assert s.workers[0] == Gone;
    NobodyLeftHolds(s.workers);
  }

  /** Before the destructor is called the listener and all workers are there. */
  lemma NobodyLeavesEarly(poolSize: nat, actions: seq<Action>)
    requires IsRun(Start(poolSize), actions)
    ensures var s := Final(Start(poolSize), actions);
            s.destructor == NotCalled ==> s.listener != Exited && forall w :: 0 <= w < |s.workers| ==> s.workers[w] != Gone
  {
    StartInvariant(poolSize);
    InvariantAlways(Start(poolSize), actions);
  }

  const WITHOUT_WORKERS := [Receive, Emplace, Stop, LeaveLoop, JoinListener, StopPool, JoinWorkers]

  /** An empty pool is the exception: the stop sequence ends with the buffer still in task_queue_. */
  lemma NoWorkersLeaveTasks()
    ensures IsRun(Start(0), WITHOUT_WORKERS)
    ensures var s := Final(Start(0), WITHOUT_WORKERS); s.destructor == Finished && s.tasks == [0]
  {
  }

  // The stop sequence gets there.

  function Effort(w: Worker): nat {
    match w
    case Holding(_) => 2
    case Idle => 1
    case Gone => 0
  }

  function Efforts(workers: seq<Worker>): nat {
    if workers == [] then 0 else Efforts(workers[..|workers| - 1]) + Effort(workers[|workers| - 1])
  }

  lemma {:induction false} EffortsUpdate(workers: seq<Worker>, w: nat, after: Worker)
    requires w < |workers|
    ensures Efforts(workers[w := after]) + Effort(workers[w]) == Efforts(workers) + Effort(after)
  {
    var last := |workers| - 1;
    var front := workers[..last];
    if w == last {
      assert workers[w := after][..last] == front;
    } else {
      assert workers[w := after][..last] == front[w := after];
      EffortsUpdate(front, w, after);
    }
  }

  /** What is left to do once the pool is told to stop. */
  function Remaining(s: System): nat {
    2 * |s.tasks| + Efforts(s.workers)
  }

  predicate IsWorkerStep(a: Action) {
    a.Take? || a.Run? || a.Return?
  }

  lemma WorkerStepIsProgress(s: System, a: Action)
    requires Enabled(s, a) && IsWorkerStep(a)
    ensures Remaining(Step(s, a)) < Remaining(s)
  {
    EffortsUpdate(s.workers, a.w, Step(s, a).workers[a.w]);
  }

  /** While the pool stops, some worker can always go on, every worker step is progress and nothing undoes it. */
  lemma PoolStops(s: System)
    requires Invariant(s) && s.destructor == PoolStopping
    ensures (exists a :: IsWorkerStep(a) && Enabled(s, a)) || Enabled(s, JoinWorkers)
    ensures forall a :: Enabled(s, a) && IsWorkerStep(a) ==> Remaining(Step(s, a)) < Remaining(s)
    ensures forall a :: Enabled(s, a) && !IsWorkerStep(a) ==> Remaining(Step(s, a)) == Remaining(s)
  {
    SomeoneCanGoOn(s);
    forall a | Enabled(s, a)
      ensures IsWorkerStep(a) ==> Remaining(Step(s, a)) < Remaining(s)
      ensures !IsWorkerStep(a) ==> Remaining(Step(s, a)) == Remaining(s)
    {
      if IsWorkerStep(a) {
        WorkerStepIsProgress(s, a);
      } else {
        OtherStepUndoesNothing(s, a);
      }
    }
  }

  lemma SomeoneCanGoOn(s: System)
    requires Invariant(s) && s.destructor == PoolStopping
    ensures (exists a :: IsWorkerStep(a) && Enabled(s, a)) || Enabled(s, JoinWorkers)
  {
    if !Enabled(s, JoinWorkers) {
      var w :| 0 <= w < |s.workers| && s.workers[w] != Gone;
      WorkerCanGoOn(s, w);
    }
  }

  lemma OtherStepUndoesNothing(s: System, a: Action)
    requires Invariant(s) && s.destructor == PoolStopping && Enabled(s, a) && !IsWorkerStep(a)
    ensures Remaining(Step(s, a)) == Remaining(s)
  {
  }

  lemma WorkerCanGoOn(s: System, w: nat)
    requires s.stopPool && w < |s.workers| && s.workers[w] != Gone
    ensures exists a :: IsWorkerStep(a) && Enabled(s, a)
  {
    var a := if s.workers[w].Holding? then Run(w) else if s.tasks != [] then Take(w) else Return(w);
    assert IsWorkerStep(a) && Enabled(s, a);
  }

  // Order.

  function HandOf(s: System): seq<nat> {
    if s.workers != [] && s.workers[0].Holding? then [s.workers[0].ticket] else []
  }

  function ListenerOf(s: System): seq<nat> {
    if s.listener.Got? then [s.listener.ticket] else []
  }

  /** With one worker the buffers stand in one line. */
  predicate InLine(s: System) {
    Line(s.delivered, s.messages, HandOf(s), s.tasks, ListenerOf(s)) == Tickets(s.received)
  }

  function Line(d: seq<nat>, m: seq<nat>, h: seq<nat>, t: seq<nat>, l: seq<nat>): seq<nat> {
    d + m + h + t + l
  }

  lemma LineMoves(d: seq<nat>, m: seq<nat>, h: seq<nat>, t: seq<nat>, l: seq<nat>)
    ensures m != [] ==> Line(d + [m[0]], m[1..], h, t, l) == Line(d, m, h, t, l)
    ensures Line(d, m + h, [], t, l) == Line(d, m, h, t, l)
    ensures t != [] ==> Line(d, m, [t[0]], t[1..], l) == Line(d, m, [], t, l)
    ensures Line(d, m, h, t + l, []) == Line(d, m, h, t, l)
  {
    if m != [] {
      assert m == [m[0]] + m[1..];
    }
    if t != [] {
      assert t == [t[0]] + t[1..];
    }
  }

  lemma WorkerStepKeepsLine(s: System, a: Action)
    requires InLine(s) && |s.workers| <= 1 && Enabled(s, a) && IsWorkerStep(a)
    ensures InLine(Step(s, a))
  {
    LineMoves(s.delivered, s.messages, HandOf(s), s.tasks, ListenerOf(s));
    assert a.w == 0;
  }

  lemma StepKeepsLine(s: System, a: Action)
    requires InLine(s) && |s.workers| <= 1 && Enabled(s, a)
    ensures InLine(Step(s, a))
  {
    if IsWorkerStep(a) {
      WorkerStepKeepsLine(s, a);
    } else {
      LineMoves(s.delivered, s.messages, HandOf(s), s.tasks, ListenerOf(s));
      var before := s.delivered + s.messages + HandOf(s) + s.tasks;
      assert before + [] == before;
    }
  }

  lemma LineAlways(s: System, actions: seq<Action>)
    requires InLine(s) && |s.workers| <= 1 && IsRun(s, actions)
    ensures InLine(Final(s, actions))
  {
    var inv := (x: System) => InLine(x) && |x.workers| <= 1;
    forall x, a | inv(x) && Enabled(x, a)
      ensures inv(Step(x, a))
    {
      StepKeepsLine(x, a);
    }
    Always(s, actions, inv);
  }

  /** Two buffers, two workers, the second faster than the first. */
  const BOTH_TAKEN := [Receive, Emplace, Receive, Emplace, Take(0), Take(1)]
  const OVERTAKING := [Run(1), Run(0), NewMessage, NewMessage]

  ghost predicate DeliversInOrder(poolSize: nat) {
    forall actions :: IsRun(Start(poolSize), actions) ==>
      Final(Start(poolSize), actions).delivered <= Tickets(Final(Start(poolSize), actions).received)
  }

  lemma {:induction false} RunConcat(s: System, first: seq<Action>, second: seq<Action>)
    requires IsRun(s, first) && IsRun(Final(s, first), second)
    ensures IsRun(s, first + second) && Final(s, first + second) == Final(Final(s, first), second)
    decreases |first|
  {
    if first == [] {
      assert first + second == second;
    } else {
      assert (first + second)[1..] == first[1..] + second;
      RunConcat(Step(s, first[0]), first[1..], second);
    }
  }

  lemma BothTaken(poolSize: nat)
    requires poolSize >= 2
    ensures IsRun(Start(poolSize), BOTH_TAKEN)
    ensures var s := Final(Start(poolSize), BOTH_TAKEN);
            && s.received == 2 && s.listener == Reading && s.tasks == [] && s.messages == [] && s.delivered == []
            && |s.workers| == poolSize && s.workers[0] == Holding(0) && s.workers[1] == Holding(1)
  {
  }

  lemma Overtaken(poolSize: nat)
    requires poolSize >= 2
    ensures IsRun(Start(poolSize), BOTH_TAKEN + OVERTAKING)
    ensures var s := Final(Start(poolSize), BOTH_TAKEN + OVERTAKING); s.delivered == [1, 0] && s.received == 2
  {
    BothTaken(poolSize);
    RunConcat(Start(poolSize), BOTH_TAKEN, OVERTAKING);
  }

  /** Delivery order is receive order in every interleaving exactly for a pool of at most one worker. */
  lemma OrderedIffOneWorker(poolSize: nat)
    ensures DeliversInOrder(poolSize) <==> poolSize <= 1
  {
    if poolSize <= 1 {
      forall actions | IsRun(Start(poolSize), actions)
        ensures Final(Start(poolSize), actions).delivered <= Tickets(Final(Start(poolSize), actions).received)
      {
        LineAlways(Start(poolSize), actions);
        var s := Final(Start(poolSize), actions);
        assert Tickets(s.received) == s.delivered + (s.messages + HandOf(s) + s.tasks + ListenerOf(s));
      }
    } else {
      Overtaken(poolSize);
      var s := Final(Start(poolSize), BOTH_TAKEN + OVERTAKING);
      assert Tickets(2) == [0, 1];
      assert s.delivered[0] != Tickets(2)[0];
    }
  }
}
