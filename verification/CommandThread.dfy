/** The command queue of core/rtw_cmd.c as a transition system.

    Any number of callers run `rtw_enqueue_cmd` (and, when they asked for it, the
    wait-for-acknowledgement path of `rtw_startbss_cmd`) against the single consumer
    `rtw_cmd_thread`.  Every access to shared memory is a step of its own, so a run is an
    arbitrary interleaving.  A step that touches a dead stack frame or freed memory raises
    the `fault` flag of the state. */
module CommandThread {

  /** One call of `rtw_enqueue_cmd`, and the command object it carries. */
  type Pid = nat

  datatype Memory = Live | Freed
  datatype Status = Submitted | Done(ok: bool)

  /** Where a caller is.  `Admitted`: past the filter.  `Inserted`: queue lock released, `up` still to
      come.  `Leaving`: about to release the mutex.  `Returned`: its stack frame is dead. */
  datatype CallPc = Starting | Admitted | Inserted | Waiting | WantMutex | Holding | Leaving | Returned

  /** A caller with its stack object (`status`, `completed`) and its command object
      (`sctx`: the pointer into the stack frame is set; `memory`). */
  datatype Call = Call(pc: CallPc, waits: bool, oversize: bool,
                       status: Status, completed: bool,
                       sctx: bool, memory: Memory)

  /** Where the thread is.  `Woken` and `Next`: about to look at the stop flags; `Checking` and `Taking`: past
      them, about to look at the queue. */
  datatype ThreadPc =
    | AtDown | Woken | Checking | Next | Taking
    | Processing(cmd: Pid) | WantsMutex(cmd: Pid, res: bool)
    | Testing(cmd: Pid, res: bool) | Writing(cmd: Pid, res: bool) | Signalling(cmd: Pid)
    | Clearing(cmd: Pid) | Unlocking(cmd: Pid) | Finishing(cmd: Pid)
    | Draining | Exited
  {
    predicate Busy() {
      Processing? || WantsMutex? || Testing? || Writing? || Signalling? || Clearing? || Unlocking? || Finishing?
    }

    predicate InMutex() {
      Testing? || Writing? || Signalling? || Clearing? || Unlocking?
    }
  }

  datatype Owner = Nobody | Thread | Caller(pid: Pid)

  /** `stopReq` is `stop_req`; `stopped` stands for `bDriverStopped` and `bSurpriseRemoved`, which are set and
      cleared without an `up`.  `inserted`, `dispatched` and `drained` record what was put on the queue, handed to a handler and
      thrown away at shutdown, each in order. */
  datatype State = State(calls: map<Pid, Call>, queue: seq<Pid>, sem: nat, mutex: Owner, thread: ThreadPc,
                         stopReq: bool, stopped: bool, fault: bool,
                         inserted: seq<Pid>, dispatched: seq<Pid>, drained: seq<Pid>)

  datatype Action =
    | Begin(p: Pid, waits: bool, oversize: bool)
    | Filter(p: Pid, pass: bool)
    | Insert(p: Pid)
    | Up(p: Pid)
    | Wake(p: Pid)
    | Timeout(p: Pid)
    | Lock(p: Pid)
    | Cancel(p: Pid)
    | Unlock(p: Pid)
    | RequestStop
    | SetStopped(on: bool)
    | Down
    | Interrupted
    | TestStop
    | CheckQueue
    | TestStopped
    | Dequeue
    | Process(ok: bool)
    | ThreadLock
    | TestSctx
    | WriteStatus
    | Signal
    | ClearSctx
    | ThreadUnlock
    | FreeCmd
    | DrainOne
  {
    predicate ByCaller() {
      Filter? || Insert? || Up? || Wake? || Timeout? || Lock? || Cancel? || Unlock?
    }

    /** The environment shuts the thread down, or interrupts its wait. */
    predicate Stops() {
      RequestStop? || SetStopped? || Interrupted?
    }

    predicate ByThread() {
      !ByCaller() && !Stops() && !Begin?
    }
  }

  const INITIAL := State(map[], [], 0, Nobody, AtDown, false, false, false, [], [], [])

  predicate At(s: State, p: Pid, pc: CallPc) {
    p in s.calls && s.calls[p].pc == pc
  }

  /** The stack frame that holds the completion object is gone once the caller has returned. */
  predicate FrameLive(c: Call) {
    c.pc != Returned
  }

  predicate Enabled(s: State, a: Action) {
    match a
    case Begin(p, _, _) => p !in s.calls
    case Filter(p, _) => At(s, p, Starting)
    case Insert(p) => At(s, p, Admitted)
    case Up(p) => At(s, p, Inserted)
    case Wake(p) => At(s, p, Waiting) && s.calls[p].completed
    case Timeout(p) => At(s, p, Waiting)
    case Lock(p) => At(s, p, WantMutex) && s.mutex == Nobody
    case Cancel(p) => At(s, p, Holding)
    case Unlock(p) => At(s, p, Leaving)
    case RequestStop => !s.stopReq
    case SetStopped(_) => true
    case Down => s.thread.AtDown? && s.sem > 0
    case Interrupted => s.thread.AtDown?
    case TestStop => s.thread.Woken?
    case CheckQueue => s.thread.Checking?
    case TestStopped => s.thread.Next?
    case Dequeue => s.thread.Taking?
    case Process(_) => s.thread.Processing?
    case ThreadLock => s.thread.WantsMutex? && s.mutex == Nobody
    case TestSctx => s.thread.Testing? && s.thread.cmd in s.calls
    case WriteStatus => s.thread.Writing? && s.thread.cmd in s.calls
    case Signal => s.thread.Signalling? && s.thread.cmd in s.calls
    case ClearSctx => s.thread.Clearing? && s.thread.cmd in s.calls
    case ThreadUnlock => s.thread.Unlocking?
    case FreeCmd => s.thread.Finishing? && s.thread.cmd in s.calls
    case DrainOne => s.thread.Draining? && (s.queue == [] || s.queue[0] in s.calls)
  }

  function SetCall(s: State, p: Pid, c: Call): State {
    s.(calls := s.calls[p := c])
  }

  /** The caller and its command after a step of its own. */
  function NextCall(c: Call, a: Action): Call
    requires a.ByCaller()
  {
    match a
    case Filter(_, pass) =>
      // a rejected command is freed on the spot and the call fails without waiting
      if pass then c.(pc := Admitted) else c.(pc := Returned, memory := Freed)
    case Insert(_) => c.(pc := Inserted)
    case Up(_) => c.(pc := if c.waits then Waiting else Returned)
    case Wake(_) => c.(pc := WantMutex)
    case Timeout(_) => c.(pc := WantMutex)
    case Lock(_) => c.(pc := Holding)
    case Cancel(_) => if c.status.Submitted? then c.(pc := Leaving, sctx := false) else c.(pc := Leaving)
    case Unlock(_) => c.(pc := Returned)
  }

  function CallerStep(s: State, a: Action): State
    requires a.ByCaller() && Enabled(s, a)
  {
    var c := s.calls[a.p];
    // an oversized command is not queued, yet the insertion still reports success
    var queued := a.Insert? && !c.oversize;
    s.(calls := s.calls[a.p := NextCall(c, a)],
       queue := if queued then s.queue + [a.p] else s.queue,
       inserted := if queued then s.inserted + [a.p] else s.inserted,
       sem := if a.Up? then s.sem + 1 else s.sem,
       mutex := if a.Lock? then Caller(a.p) else if a.Unlock? then Nobody else s.mutex,
       fault := s.fault || (a.Cancel? && c.status.Submitted? && c.memory.Freed?))
  }

  function ThreadStep(s: State, a: Action): State
    requires !a.ByCaller() && !a.Begin? && Enabled(s, a)
  {
    match a
    case RequestStop => s.(stopReq := true, sem := s.sem + 1)
    case SetStopped(on) => s.(stopped := on)
    case Down => s.(sem := s.sem - 1, thread := Woken)
    case Interrupted => s.(thread := Draining)
    case TestStop => s.(thread := if s.stopped || s.stopReq then Draining else Checking)
    case CheckQueue => s.(thread := if s.queue == [] then AtDown else Next)
    case TestStopped => s.(thread := if s.stopped then Draining else Taking)
    case Dequeue =>
      if s.queue == [] then s.(thread := AtDown)
      else s.(thread := Processing(s.queue[0]), queue := s.queue[1..], dispatched := s.dispatched + [s.queue[0]])
    case Process(ok) => s.(thread := WantsMutex(s.thread.cmd, ok))
    case ThreadLock => s.(thread := Testing(s.thread.cmd, s.thread.res), mutex := Thread)
    case TestSctx =>
      var c := s.calls[s.thread.cmd];
      s.(thread := if c.sctx then Writing(s.thread.cmd, s.thread.res) else Unlocking(s.thread.cmd),
         fault := s.fault || c.memory.Freed?)
    case WriteStatus =>
      var c := s.calls[s.thread.cmd];
      SetCall(s, s.thread.cmd, c.(status := Done(s.thread.res)))
        .(thread := Signalling(s.thread.cmd), fault := s.fault || !FrameLive(c))
    case Signal =>
      var c := s.calls[s.thread.cmd];
      SetCall(s, s.thread.cmd, c.(completed := true))
        .(thread := Clearing(s.thread.cmd), fault := s.fault || !FrameLive(c))
    case ClearSctx =>
      var c := s.calls[s.thread.cmd];
      SetCall(s, s.thread.cmd, c.(sctx := false))
        .(thread := Unlocking(s.thread.cmd), fault := s.fault || c.memory.Freed?)
    case ThreadUnlock => s.(thread := Finishing(s.thread.cmd), mutex := Nobody)
    case FreeCmd =>
      var c := s.calls[s.thread.cmd];
      SetCall(s, s.thread.cmd, c.(memory := Freed)).(thread := Next, fault := s.fault || c.memory.Freed?)
    case DrainOne =>
      if s.queue == [] then s.(thread := Exited)
      else
        var c := s.calls[s.queue[0]];
        SetCall(s, s.queue[0], c.(memory := Freed))
          .(queue := s.queue[1..], drained := s.drained + [s.queue[0]], fault := s.fault || c.memory.Freed?)
  }

  function Step(s: State, a: Action): State
    requires Enabled(s, a)
  {
    if a.Begin? then SetCall(s, a.p, Call(Starting, a.waits, a.oversize, Submitted, false, a.waits, Live))
    else if a.ByCaller() then CallerStep(s, a)
    else ThreadStep(s, a)
  }

  /** From `s` the steps `acts` are possible one after the other. */
  predicate CanRun(s: State, acts: seq<Action>)
    decreases |acts|
  {
    acts == [] || (Enabled(s, acts[0]) && CanRun(Step(s, acts[0]), acts[1..]))
  }

  function Run(s: State, acts: seq<Action>): State
    requires CanRun(s, acts)
    decreases |acts|
  {
    if acts == [] then s else Run(Step(s, acts[0]), acts[1..])
  }

  /** The caller no longer depends on the command: it never waited, the thread has written its status,
      or it has cleared the pointer itself. */
  predicate Settled(c: Call) {
    !c.waits || c.status.Done? || c.pc.Leaving? || c.pc.Returned?
  }

  /** The step is not the shutdown drain throwing away a command whose caller is still waiting for it. */
  predicate Gentle(s: State, a: Action) {
    a.DrainOne? && s.queue != [] && s.queue[0] in s.calls ==> Settled(s.calls[s.queue[0]])
  }

  predicate GentleRun(s: State, acts: seq<Action>)
    requires CanRun(s, acts)
    decreases |acts|
  {
    acts == [] || (Gentle(s, acts[0]) && GentleRun(Step(s, acts[0]), acts[1..]))
  }

  predicate Distinct(q: seq<Pid>) {
    forall i, j :: 0 <= i < j < |q| ==> q[i] != q[j]
  }

  /** How many queued commands belong to callers that have already done their `up`. */
  function Posted(calls: map<Pid, Call>, q: seq<Pid>): nat {
    if q == [] then 0
    else (if q[0] in calls && !calls[q[0]].pc.Inserted? then 1 else 0) + Posted(calls, q[1..])
  }

  /** The memory-safety invariant of one call. */
  predicate CallOk(s: State, p: Pid)
    requires p in s.calls
  {
    var c := s.calls[p];
    && (c.pc.Starting? || c.pc.Admitted? ==> p !in s.inserted && c.memory.Live? && c.status.Submitted? && c.sctx == c.waits)
    && (c.pc.Waiting? || c.pc.WantMutex? || c.pc.Holding? || c.pc.Leaving? ==> c.waits)
    && (c.sctx ==> c.waits)
    && (c.waits && !c.sctx ==> Settled(c))
    && ((c.pc.Leaving? || c.pc.Returned?) && c.memory.Live? ==> !c.sctx)
    && (c.status.Done? && c.sctx && c.memory.Live? ==> s.thread == Signalling(p) || s.thread == Clearing(p))
    && ((c.pc.Holding? || c.pc.Leaving?) <==> s.mutex == Caller(p))
    && (c.memory.Freed? ==> p !in s.queue && (s.thread.Busy() ==> s.thread.cmd != p))
  }

  predicate Queued(s: State) {
    && (forall p | p in s.queue :: p in s.inserted && p in s.calls)
    && (forall p | p in s.inserted :: p in s.calls)
  }

  predicate ThreadOk(s: State) {
    && (s.thread.Busy() ==> s.thread.cmd in s.calls && s.thread.cmd in s.inserted && s.thread.cmd !in s.queue)
    && (s.thread.InMutex() <==> s.mutex.Thread?)
    && (s.mutex.Caller? ==> s.mutex.pid in s.calls)
    && (s.thread.Writing? || s.thread.Signalling? || s.thread.Clearing? ==> s.calls[s.thread.cmd].sctx)
    && (s.thread.Signalling? || s.thread.Clearing? ==> s.calls[s.thread.cmd].status.Done?)
    && (s.thread.Unlocking? || s.thread.Finishing? ==> !s.calls[s.thread.cmd].sctx)
  }

  /** What every step keeps, whether or not the shutdown drain is gentle. */
  predicate Shape(s: State) {
    (forall p | p in s.calls :: CallOk(s, p)) && Queued(s) && ThreadOk(s)
  }

  /** Queue discipline: nothing is lost, duplicated or reordered, and a thread about to block finds at
      least one unit of the semaphore for every queued command whose caller has posted it. */
  predicate Fifo(s: State) {
    && s.inserted == s.dispatched + s.drained + s.queue
    && Distinct(s.inserted)
    && (!s.thread.Draining? && !s.thread.Exited? ==> s.drained == [])
    && (s.thread.AtDown? ==> Posted(s.calls, s.queue) <= s.sem)
  }

  predicate Safe(s: State) {
    && !s.fault
    && (forall p | p in s.calls && s.calls[p].memory.Freed? :: Settled(s.calls[p]))
  }

  predicate Inv(s: State) {
    Shape(s) && Fifo(s) && Safe(s)
  }

  // ----- one step keeps the invariants

  /** What the insertion does to the queue, as far as membership goes. */
  predicate Enlarged(s: State, t: State, p: Pid) {
    && (forall q :: q in t.queue ==> q in s.queue || q == p)
    && (forall q :: q in t.inserted ==> q in s.inserted || q == p)
    && (forall q :: q in s.inserted ==> q in t.inserted)
    && (p in t.queue ==> p in t.inserted)
  }

  lemma InsertEnlarges(s: State, a: Action)
    requires a.Insert? && Enabled(s, a) && Queued(s)
    ensures var t := Step(s, a);
            && Enlarged(s, t, a.p) && t.thread == s.thread && t.mutex == s.mutex
            && t.calls == s.calls[a.p := s.calls[a.p].(pc := Inserted)]
  {
    var t := Step(s, a);
    if !s.calls[a.p].oversize {
      assert t.inserted[|s.inserted|] == a.p;
      assert forall q :: q in s.inserted ==> q in s.inserted + [a.p];
    }
  }

  lemma InsertCallOk(s: State, t: State, i: Pid, p: Pid)
    requires At(s, i, Admitted) && p in s.calls && CallOk(s, i) && CallOk(s, p) && ThreadOk(s)
    requires Enlarged(s, t, i) && t.thread == s.thread && t.mutex == s.mutex
    requires t.calls == s.calls[i := s.calls[i].(pc := Inserted)]
    ensures CallOk(t, p)
  {
  }

  lemma InsertKeepsShape(s: State, a: Action)
    requires Shape(s) && a.Insert? && Enabled(s, a)
    ensures Shape(Step(s, a))
  {
    var t := Step(s, a);
    InsertEnlarges(s, a);
    forall p | p in t.calls ensures CallOk(t, p) {
      InsertCallOk(s, t, a.p, p);
    }
    assert CallOk(s, a.p);
  }

  lemma CallerKeepsShape(s: State, a: Action)
    requires Shape(s) && a.ByCaller() && Enabled(s, a)
    ensures Shape(Step(s, a))
  {
    if a.Insert? {
      InsertKeepsShape(s, a);
    } else {
      var t := Step(s, a);
      assert CallOk(s, a.p);
      CallerStaysOk(s, a);
      CallerCallOk(s, a);
      forall p | p in t.calls ensures CallOk(t, p) {
        if p != a.p {
          OtherCallOk(s, a, p);
        }
      }
    }
  }

  lemma CallerStaysOk(s: State, a: Action)
    requires Queued(s) && ThreadOk(s) && a.ByCaller() && !a.Insert? && Enabled(s, a) && CallOk(s, a.p)
    ensures var t := Step(s, a); Queued(t) && ThreadOk(t) && t.calls.Keys == s.calls.Keys
  {
    var t := Step(s, a);
    assert t.queue == s.queue && t.inserted == s.inserted && t.thread == s.thread;
  }

  lemma CallerCallOk(s: State, a: Action)
    requires ThreadOk(s) && a.ByCaller() && !a.Insert? && Enabled(s, a) && CallOk(s, a.p)
    requires a.p in s.queue ==> a.p in s.inserted
    ensures CallOk(Step(s, a), a.p)
  {
  }

  /** Neither the mutex nor anything else of another call changes hands. */
  lemma OtherCallOk(s: State, a: Action, p: Pid)
    requires a.ByCaller() && !a.Insert? && Enabled(s, a) && p in s.calls && p != a.p && CallOk(s, a.p) && CallOk(s, p)
    ensures p in Step(s, a).calls && CallOk(Step(s, a), p)
  {
    var t := Step(s, a);
    assert t.calls[p] == s.calls[p];
    assert t.mutex == Caller(p) <==> s.mutex == Caller(p);
  }

  /** A step that leaves the calls, the queue and the mutex alone, on the way from one command to the next. */
  lemma IdleCallOk(s: State, t: State, p: Pid)
    requires p in s.calls && CallOk(s, p) && t.calls == s.calls
    requires t.queue == s.queue && t.inserted == s.inserted && t.mutex == s.mutex
    requires t.thread == s.thread || (!s.thread.Busy() && !t.thread.Busy())
    ensures CallOk(t, p)
  {
  }

  lemma BeginCallOk(s: State, a: Action, p: Pid)
    requires Queued(s) && ThreadOk(s) && a.Begin? && Enabled(s, a) && p in Step(s, a).calls && (p in s.calls ==> CallOk(s, p))
    ensures CallOk(Step(s, a), p)
  {
  }

  /** From the handler to the release of the mutex. */
  lemma ServingCallOk(s: State, a: Action, p: Pid)
    requires ThreadOk(s) && Enabled(s, a) && p in s.calls && CallOk(s, p)
    requires a.Process? || a.ThreadLock? || a.TestSctx? || a.ThreadUnlock?
    requires s.thread.Busy() ==> CallOk(s, s.thread.cmd)
    ensures CallOk(Step(s, a), p)
  {
  }

  /** Completion, and the end of the command. */
  lemma CompletingCallOk(s: State, a: Action, p: Pid)
    requires ThreadOk(s) && Enabled(s, a) && p in s.calls && CallOk(s, p)
    requires a.WriteStatus? || a.Signal? || a.ClearSctx? || a.FreeCmd?
    ensures CallOk(Step(s, a), p)
  {
  }

  predicate PopsQueue(s: State, a: Action) {
    (a.Dequeue? || a.DrainOne?) && s.queue != []
  }

  /** The steps of the thread that leave the queue alone, and the birth of a call. */
  lemma ThreadCallOk(s: State, a: Action, p: Pid)
    requires Queued(s) && ThreadOk(s) && (p in s.calls ==> CallOk(s, p)) && (s.thread.Busy() ==> CallOk(s, s.thread.cmd))
    requires !a.ByCaller() && Enabled(s, a) && p in Step(s, a).calls && !PopsQueue(s, a)
    ensures CallOk(Step(s, a), p)
  {
    if a.Begin? {
      BeginCallOk(s, a, p);
    } else {
      if a.Process? || a.ThreadLock? || a.TestSctx? || a.ThreadUnlock? {
        ServingCallOk(s, a, p);
      } else if a.WriteStatus? || a.Signal? || a.ClearSctx? || a.FreeCmd? {
        CompletingCallOk(s, a, p);
      } else {
        IdleCallOk(s, Step(s, a), p);
      }
    }
  }

  lemma ThreadStaysOk(s: State, a: Action)
    requires Shape(s) && !a.ByCaller() && Enabled(s, a) && !PopsQueue(s, a)
    ensures Queued(Step(s, a)) && ThreadOk(Step(s, a))
  {
    ThreadKeepsQueued(s, a);
    if a.Process? || a.ThreadLock? || a.TestSctx? || a.ThreadUnlock? {
      ServingStaysOk(s, a);
    } else if a.WriteStatus? || a.Signal? || a.ClearSctx? || a.FreeCmd? {
      assert CallOk(s, s.thread.cmd);
      CompletingStaysOk(s, a);
    } else {
      IdleStaysOk(s, a);
    }
  }

  lemma ThreadKeepsQueued(s: State, a: Action)
    requires Queued(s) && ThreadOk(s) && !a.ByCaller() && Enabled(s, a) && !PopsQueue(s, a)
    ensures Queued(Step(s, a))
  {
    var t := Step(s, a);
    assert t.queue == s.queue && t.inserted == s.inserted && forall p :: p in s.calls ==> p in t.calls;
  }

  lemma ServingStaysOk(s: State, a: Action)
    requires ThreadOk(s) && Enabled(s, a)
    requires a.Process? || a.ThreadLock? || a.TestSctx? || a.ThreadUnlock?
    ensures ThreadOk(Step(s, a))
  {
  }

  lemma CompletingStaysOk(s: State, a: Action)
    requires ThreadOk(s) && Enabled(s, a)
    requires a.WriteStatus? || a.Signal? || a.ClearSctx? || a.FreeCmd?
    ensures ThreadOk(Step(s, a))
  {
  }

  lemma IdleStaysOk(s: State, a: Action)
    requires ThreadOk(s) && Enabled(s, a) && !a.ByCaller() && !PopsQueue(s, a)
    requires !(a.Process? || a.ThreadLock? || a.TestSctx? || a.ThreadUnlock?)
    requires !(a.WriteStatus? || a.Signal? || a.ClearSctx? || a.FreeCmd?)
    ensures ThreadOk(Step(s, a))
  {
  }

  /** Taking the head off the queue, to serve it or to throw it away. */
  lemma PopCallOk(s: State, a: Action, p: Pid)
    requires Enabled(s, a) && PopsQueue(s, a) && p in s.calls && s.queue[0] in s.calls && CallOk(s, p)
    requires s.queue[0] !in s.queue[1..] && s.queue[0] in s.inserted
    ensures CallOk(Step(s, a), p)
  {
    assert forall q :: q in s.queue[1..] ==> q in s.queue;
    assert s.queue[0] in s.queue;
  }

  lemma PopStaysOk(s: State, a: Action)
    requires Shape(s) && Enabled(s, a) && Fifo(s) && PopsQueue(s, a)
    ensures Queued(Step(s, a)) && ThreadOk(Step(s, a))
  {
    HeadIsFresh(s);
    assert s.queue[0] in s.queue;
    forall p | p in s.queue[1..] ensures p in s.inserted && p in s.calls {
      assert p in s.queue;
    }
  }

  lemma ThreadKeepsShape(s: State, a: Action)
    requires Shape(s) && !a.ByCaller() && Enabled(s, a) && Fifo(s)
    ensures Shape(Step(s, a))
  {
    var t := Step(s, a);
    forall p | p in t.calls ensures CallOk(t, p) {
      if PopsQueue(s, a) {
        HeadIsFresh(s);
        assert s.queue[0] in s.queue;
        assert CallOk(s, p);
        PopCallOk(s, a, p);
      } else {
        assert p in s.calls ==> CallOk(s, p);
        assert s.thread.Busy() ==> CallOk(s, s.thread.cmd);
        ThreadCallOk(s, a, p);
      }
    }
    if PopsQueue(s, a) {
      PopStaysOk(s, a);
    } else {
      ThreadStaysOk(s, a);
    }
  }

  lemma HeadIsFresh(s: State)
    requires Fifo(s) && s.queue != []
    ensures s.queue[0] !in s.queue[1..] && s.queue[0] !in s.dispatched && s.queue[0] !in s.drained
  {
    var n := |s.dispatched| + |s.drained|;
    assert s.inserted[n] == s.queue[0];
    forall i | 0 <= i < |s.queue| - 1 ensures s.queue[1..][i] != s.queue[0] {
      assert s.inserted[n + 1 + i] == s.queue[1..][i];
    }
    forall i | 0 <= i < |s.dispatched| ensures s.dispatched[i] != s.queue[0] {
      assert s.inserted[i] == s.dispatched[i];
    }
    forall i | 0 <= i < |s.drained| ensures s.drained[i] != s.queue[0] {
      assert s.inserted[|s.dispatched| + i] == s.drained[i];
    }
  }

  lemma {:induction false} PostedFrame(calls: map<Pid, Call>, p: Pid, c: Call, q: seq<Pid>)
    requires p in calls && Distinct(q)
    ensures Posted(calls[p := c], q) ==
            Posted(calls, q) + (if p in q then (if c.pc.Inserted? then 0 else 1) - (if calls[p].pc.Inserted? then 0 else 1) else 0)
  {
    if q != [] {
      assert forall i :: 0 <= i < |q| - 1 ==> q[1..][i] == q[i + 1];
      PostedFrame(calls, p, c, q[1..]);
    }
  }

  lemma {:induction false} PostedNew(calls: map<Pid, Call>, p: Pid, c: Call, q: seq<Pid>)
    requires p !in q
    ensures Posted(calls[p := c], q) == Posted(calls, q)
  {
    if q != [] {
      PostedNew(calls, p, c, q[1..]);
    }
  }

  lemma {:induction false} PostedAppend(calls: map<Pid, Call>, q: seq<Pid>, p: Pid)
    ensures Posted(calls, q + [p]) == Posted(calls, q) + Posted(calls, [p])
  {
    if q == [] {
      assert q + [p] == [p];
    } else {
      assert (q + [p])[1..] == q[1..] + [p];
      PostedAppend(calls, q[1..], p);
    }
  }

  lemma CallerKeepsFifo(s: State, a: Action)
    requires Shape(s) && Fifo(s) && a.ByCaller() && Enabled(s, a)
    ensures Fifo(Step(s, a))
  {
    assert CallOk(s, a.p);
    QueueDistinct(s);
    PostedFrame(s.calls, a.p, Step(s, a).calls[a.p], s.queue);
    if a.Insert? {
      InsertKeepsFifo(s, a);
    } else {
      OtherKeepsFifo(s, a);
    }
  }

  lemma QueueDistinct(s: State)
    requires Fifo(s)
    ensures Distinct(s.queue)
  {
    var n := |s.dispatched| + |s.drained|;
    assert forall i :: 0 <= i < |s.queue| ==> s.inserted[n + i] == s.queue[i];
  }

  lemma InsertKeepsFifo(s: State, a: Action)
    requires Fifo(s) && Queued(s) && a.Insert? && Enabled(s, a) && a.p !in s.inserted
    requires Posted(Step(s, a).calls, s.queue) == Posted(s.calls, s.queue)
    ensures Fifo(Step(s, a))
  {
    var t := Step(s, a);
    if !s.calls[a.p].oversize {
      PostedAppend(t.calls, s.queue, a.p);
      assert t.inserted == s.dispatched + s.drained + t.queue;
    }
  }

  lemma OtherKeepsFifo(s: State, a: Action)
    requires Fifo(s) && a.ByCaller() && !a.Insert? && Enabled(s, a)
    requires Posted(Step(s, a).calls, s.queue) <= Posted(s.calls, s.queue) + if a.Up? then 1 else 0
    ensures Fifo(Step(s, a))
  {
    var t := Step(s, a);
    assert t.queue == s.queue && t.inserted == s.inserted && t.dispatched == s.dispatched && t.drained == s.drained;
  }

  lemma ThreadKeepsFifo(s: State, a: Action)
    requires Shape(s) && Fifo(s) && !a.ByCaller() && Enabled(s, a)
    ensures Fifo(Step(s, a))
  {
    if a.Begin? {
      assert a.p !in s.queue;
      PostedNew(s.calls, a.p, Step(s, a).calls[a.p], s.queue);
    } else if PopsQueue(s, a) {
      PopKeepsFifo(s, a);
    } else {
      StayingKeepsFifo(s, a);
    }
  }

  lemma PopKeepsFifo(s: State, a: Action)
    requires Fifo(s) && Enabled(s, a) && PopsQueue(s, a)
    ensures Fifo(Step(s, a))
  {
    var p, rest := s.queue[0], s.queue[1..];
    assert s.queue == [p] + rest;
    if a.Dequeue? {
      assert s.dispatched + s.drained + s.queue == (s.dispatched + [p]) + [] + rest;
    } else {
      assert s.dispatched + s.drained + s.queue == s.dispatched + (s.drained + [p]) + rest;
    }
  }

  lemma StayingKeepsFifo(s: State, a: Action)
    requires Fifo(s) && !a.ByCaller() && !a.Begin? && Enabled(s, a) && !PopsQueue(s, a)
    ensures Fifo(Step(s, a))
  {
    var t := Step(s, a);
    assert t.queue == s.queue && t.inserted == s.inserted && t.dispatched == s.dispatched && t.drained == s.drained;
    if !a.WriteStatus? && !a.Signal? && !a.ClearSctx? && !a.FreeCmd? {
      assert t.calls == s.calls;
    }
  }

  lemma CallerStepIsSafe(s: State, a: Action)
    requires Inv(s) && Enabled(s, a) && a.ByCaller()
    ensures Safe(Step(s, a))
  {
    assert CallOk(s, a.p);
  }

  lemma GentleStepIsSafe(s: State, a: Action)
    requires Inv(s) && Enabled(s, a) && Gentle(s, a)
    ensures Safe(Step(s, a))
  {
    if a.ByCaller() {
      CallerStepIsSafe(s, a);
    } else {
      if s.thread.Busy() {
        assert CallOk(s, s.thread.cmd);
      }
      if s.queue != [] {
        assert s.queue[0] in s.queue;
        assert CallOk(s, s.queue[0]);
      }
      ThreadStepIsSafe(s, a);
    }
  }

  lemma ThreadStepIsSafe(s: State, a: Action)
    requires ThreadOk(s) && Safe(s) && Enabled(s, a) && Gentle(s, a) && !a.ByCaller()
    requires s.thread.Busy() ==> CallOk(s, s.thread.cmd)
    requires s.queue != [] ==> s.queue[0] in s.queue && s.queue[0] in s.calls && CallOk(s, s.queue[0])
    ensures Safe(Step(s, a))
  {
    if a.FreeCmd? || a.DrainOne? {
      FreeingIsSafe(s, a);
    }
  }

  lemma FreeingIsSafe(s: State, a: Action)
    requires ThreadOk(s) && Safe(s) && Enabled(s, a) && Gentle(s, a) && (a.FreeCmd? || a.DrainOne?)
    requires s.thread.Busy() ==> CallOk(s, s.thread.cmd)
    requires s.queue != [] ==> s.queue[0] in s.queue && s.queue[0] in s.calls && CallOk(s, s.queue[0])
    ensures Safe(Step(s, a))
  {
    forall p | p in s.calls && p in Step(s, a).calls && Step(s, a).calls[p].memory.Freed? ensures Settled(Step(s, a).calls[p]) {
      assert s.calls[p].memory.Freed? ==> Settled(s.calls[p]);
    }
  }

  lemma StepKeepsInv(s: State, a: Action)
    requires Inv(s) && Enabled(s, a) && Gentle(s, a)
    ensures Inv(Step(s, a))
  {
    GentleStepIsSafe(s, a);
    if a.ByCaller() {
      CallerKeepsShape(s, a);
      CallerKeepsFifo(s, a);
    } else {
      ThreadKeepsShape(s, a);
      ThreadKeepsFifo(s, a);
    }
  }

  lemma {:induction false} RunKeepsInv(s: State, acts: seq<Action>)
    requires Inv(s) && CanRun(s, acts) && GentleRun(s, acts)
    ensures Inv(Run(s, acts))
    decreases |acts|
  {
    if acts != [] {
      StepKeepsInv(s, acts[0]);
      RunKeepsInv(Step(s, acts[0]), acts[1..]);
    }
  }

  lemma StepKeepsFifo(s: State, a: Action)
    requires Shape(s) && Fifo(s) && Enabled(s, a)
    ensures Shape(Step(s, a)) && Fifo(Step(s, a))
  {
    if a.ByCaller() {
      CallerKeepsShape(s, a);
      CallerKeepsFifo(s, a);
    } else {
      ThreadKeepsShape(s, a);
      ThreadKeepsFifo(s, a);
    }
  }

  /** Queue discipline does not depend on how the shutdown goes. */
  lemma {:induction false} RunKeepsFifo(s: State, acts: seq<Action>)
    requires Shape(s) && Fifo(s) && CanRun(s, acts)
    ensures Shape(Run(s, acts)) && Fifo(Run(s, acts))
    decreases |acts|
  {
    if acts != [] {
      StepKeepsFifo(s, acts[0]);
      RunKeepsFifo(Step(s, acts[0]), acts[1..]);
    }
  }

  // ----- main results

  /** No interleaving touches a dead stack frame or a freed command, as long as the shutdown drain
      does not throw away a command somebody is waiting for. */
  lemma NoDanglingAccess(acts: seq<Action>)
    requires CanRun(INITIAL, acts) && GentleRun(INITIAL, acts)
    ensures !Run(INITIAL, acts).fault
  {
    RunKeepsInv(INITIAL, acts);
  }

  /** Every command put on the queue is dispatched, drained or still queued, exactly once and in
      insertion order; only a thread that is shutting down drains. */
  lemma InsertedOnceInOrder(acts: seq<Action>)
    requires CanRun(INITIAL, acts)
    ensures var s := Run(INITIAL, acts);
            && s.inserted == s.dispatched + s.drained + s.queue
            && Distinct(s.inserted)
            && (!s.thread.Draining? && !s.thread.Exited? ==> s.drained == [])
  {
    RunKeepsFifo(INITIAL, acts);
  }

  lemma {:induction false} NonePosted(calls: map<Pid, Call>, q: seq<Pid>, p: Pid)
    requires Posted(calls, q) == 0 && p in q && p in calls
    ensures calls[p].pc.Inserted?
  {
    if p != q[0] {
      NonePosted(calls, q[1..], p);
    }
  }

  /** No lost wakeup: when the thread is blocked, whatever is queued still has its `up` to come. */
  lemma NoLostWakeup(acts: seq<Action>, p: Pid)
    requires CanRun(INITIAL, acts)
    requires var s := Run(INITIAL, acts); s.thread.AtDown? && s.sem == 0 && p in s.queue
    ensures At(Run(INITIAL, acts), p, Inserted)
  {
    RunKeepsFifo(INITIAL, acts);
    var s := Run(INITIAL, acts);
    NonePosted(s.calls, s.queue, p);
  }

  /** The thread's own steps up to the next time it takes a command off a queue that is not empty. */
  function ThreadDistance(pc: ThreadPc): nat {
    match pc
    case Processing(_) => 13
    case WantsMutex(_, _) => 12
    case Testing(_, _) => 11
    case Writing(_, _) => 10
    case Signalling(_) => 9
    case Clearing(_) => 8
    case Unlocking(_) => 7
    case Finishing(_) => 6
    case AtDown => 5
    case Woken => 4
    case Checking => 3
    case Next => 2
    case Taking => 1
    case _ => 0
  }

  /** Nobody has asked the thread to stop. */
  predicate Running(s: State) {
    !s.stopReq && !s.stopped && !s.thread.Draining? && !s.thread.Exited?
  }

  function ThreadSteps(acts: seq<Action>): nat {
    if acts == [] then 0 else (if acts[0].ByThread() then 1 else 0) + ThreadSteps(acts[1..])
  }

  lemma CallerKeepsQueue(s: State, a: Action)
    requires Running(s) && Enabled(s, a) && (a.ByCaller() || a.Begin?)
    ensures var t := Step(s, a); Running(t) && t.thread == s.thread && s.queue <= t.queue
  {
  }

  lemma ThreadNears(s: State, a: Action)
    requires Running(s) && s.queue != [] && Enabled(s, a) && a.ByThread() && !a.Dequeue?
    ensures var t := Step(s, a); Running(t) && t.queue == s.queue && ThreadDistance(t.thread) < ThreadDistance(s.thread)
  {
  }

  /** In every run in which nobody stops the thread, whatever the callers do between its steps, it dispatches
      what is queued in order, the next command at least every thirteen of its own steps. */
  lemma {:induction false} QueueIsServed(s: State, acts: seq<Action>, k: nat)
    requires Running(s) && CanRun(s, acts) && k < |s.queue| && forall a | a in acts :: !a.Stops()
    requires ThreadSteps(acts) >= ThreadDistance(s.thread) + 13 * k
    ensures s.queue[k] in Run(s, acts).dispatched
    decreases |acts|
  {
    if acts != [] {
      var a, t, rest := acts[0], Step(s, acts[0]), acts[1..];
      assert a in acts;
      if a.Dequeue? {
        assert t.dispatched[|s.dispatched|] == s.queue[0];
        if k == 0 {
          DispatchedStays(t, rest, s.queue[0]);
        } else {
          QueueIsServed(t, rest, k - 1);
        }
      } else {
        if a.ByThread() {
          ThreadNears(s, a);
        } else {
          CallerKeepsQueue(s, a);
        }
        QueueIsServed(t, rest, k);
      }
    }
  }

  lemma {:induction false} DispatchedStays(s: State, acts: seq<Action>, p: Pid)
    requires CanRun(s, acts) && p in s.dispatched
    ensures p in Run(s, acts).dispatched
    decreases |acts|
  {
    if acts != [] {
      DispatchedStays(Step(s, acts[0]), acts[1..], p);
    }
  }

  function ServiceAction(s: State): Action {
    match s.thread
    case Processing(_) => Process(true)
    case WantsMutex(_, _) =>
      if s.mutex.Caller? && s.mutex.pid in s.calls && s.calls[s.mutex.pid].pc.Holding? then Cancel(s.mutex.pid)
      else if s.mutex.Caller? then Unlock(s.mutex.pid) else ThreadLock
    case Testing(_, _) => TestSctx
    case Writing(_, _) => WriteStatus
    case Signalling(_) => Signal
    case Clearing(_) => ClearSctx
    case Unlocking(_) => ThreadUnlock
    case Finishing(_) => FreeCmd
    case AtDown => Down
    case Woken => TestStop
    case Checking => CheckQueue
    case Next => TestStopped
    case _ => Dequeue
  }

  lemma {:induction false} SomePosted(calls: map<Pid, Call>, q: seq<Pid>, p: Pid)
    requires p in q && p in calls && !calls[p].pc.Inserted?
    ensures Posted(calls, q) >= 1
  {
    if p != q[0] {
      SomePosted(calls, q[1..], p);
    }
  }

  /** And the thread is never stuck while a command whose caller has done its `up` is queued: it has a step to
      take, or a caller that holds the mutex has one towards releasing it. */
  lemma NeverStuck(s: State, p: Pid)
    requires Shape(s) && Fifo(s) && Running(s) && p in s.queue && !At(s, p, Inserted)
    ensures var a := ServiceAction(s);
            Enabled(s, a) && (a.ByThread() || (s.mutex.Caller? && a.p == s.mutex.pid && (a.Cancel? || a.Unlock?)))
  {
    if s.thread.WantsMutex? && s.mutex.Caller? {
      assert CallOk(s, s.mutex.pid);
    } else {
      SomePosted(s.calls, s.queue, p);
    }
  }

  // ----- what the callers are told

  /** What has happened in a run so far: what the handlers returned, and which callers have given up on a command
      that had no status yet. */
  datatype History = History(results: map<Pid, bool>, cancelled: set<Pid>)

  const NOTHING := History(map[], {})

  function Noted(s: State, a: Action, h: History): History
    requires Enabled(s, a)
  {
    if a.Process? then h.(results := h.results[s.thread.cmd := a.ok])
    else if a.Cancel? && s.calls[a.p].status.Submitted? then h.(cancelled := h.cancelled + {a.p})
    else h
  }

  function Recorded(s: State, acts: seq<Action>, h: History): History
    requires CanRun(s, acts)
    decreases |acts|
  {
    if acts == [] then h else Recorded(Step(s, acts[0]), acts[1..], Noted(s, acts[0], h))
  }

  /** Call `p` has been told what happened to its command. */
  predicate Told(s: State, h: History, p: Pid)
    requires p in s.calls
  {
    var c := s.calls[p];
    && (c.status.Done? <==> c.completed || s.thread == Signalling(p))
    && (c.completed ==> s.thread != Signalling(p))
    && (c.status.Done? ==> p in h.results && c.status == Done(h.results[p]))
    && (p in h.cancelled ==> c.status.Submitted? && !c.sctx && (c.pc.Leaving? || c.pc.Returned?))
    && (c.waits && !c.sctx ==> c.status.Done? || p in h.cancelled)
    && (p in s.dispatched ==> c.memory.Freed? || (s.thread.Busy() && s.thread.cmd == p))
    && (p in s.dispatched && c.memory.Freed? ==> !c.sctx)
    && (p in s.drained ==> c.memory.Freed?)
  }

  /** The thread carries the result of its handler until it is written. */
  predicate Carried(s: State, h: History) {
    && (s.thread.WantsMutex? || s.thread.Testing? || s.thread.Writing? ==>
          s.thread.cmd in h.results && h.results[s.thread.cmd] == s.thread.res)
    && (s.thread.Signalling? ==> s.thread.cmd in h.results)
    && (s.thread.Processing? ==> s.thread.cmd !in h.results)
    && (forall p | p in h.results :: p in s.dispatched)
    && (forall p | p in h.cancelled :: p in s.calls)
    && (s.thread.Busy() ==> s.thread.cmd in s.dispatched)
  }

  predicate Chronicle(s: State, h: History) {
    (forall p | p in s.calls :: Told(s, h, p)) && Carried(s, h)
  }

  lemma CallerKeepsTold(s: State, a: Action, h: History, p: Pid)
    requires a.ByCaller() && Enabled(s, a) && p in s.calls && CallOk(s, p) && ThreadOk(s) && Carried(s, h)
    requires Told(s, h, p) && (p in s.dispatched || p in s.drained ==> p in s.inserted)
    ensures Told(Step(s, a), Noted(s, a, h), p)
  {
    if p == a.p {
      OwnStepKeepsTold(s, a, h);
    } else {
      OtherStepKeepsTold(s, a, h, p);
    }
  }

  lemma OwnStepKeepsTold(s: State, a: Action, h: History)
    requires a.ByCaller() && Enabled(s, a) && CallOk(s, a.p) && ThreadOk(s) && Told(s, h, a.p)
    requires a.p in s.dispatched || a.p in s.drained ==> a.p in s.inserted
    ensures Told(Step(s, a), Noted(s, a, h), a.p)
  {
    var t, g := Step(s, a), Noted(s, a, h);
    assert t.thread == s.thread && t.dispatched == s.dispatched && t.drained == s.drained && g.results == h.results;
    assert t.calls[a.p] == NextCall(s.calls[a.p], a);
    if a.Cancel? && s.calls[a.p].status.Submitted? {
      assert g.cancelled == h.cancelled + {a.p};
    } else {
      assert g == h;
    }
  }

  lemma OtherStepKeepsTold(s: State, a: Action, h: History, p: Pid)
    requires a.ByCaller() && Enabled(s, a) && p in s.calls && p != a.p && Told(s, h, p)
    ensures Told(Step(s, a), Noted(s, a, h), p)
  {
    var t, g := Step(s, a), Noted(s, a, h);
    assert t.calls[p] == s.calls[p] && t.thread == s.thread && t.dispatched == s.dispatched && t.drained == s.drained;
    assert g.results == h.results && (p in g.cancelled <==> p in h.cancelled);
  }

  lemma CallerKeepsCarried(s: State, a: Action, h: History)
    requires a.ByCaller() && Enabled(s, a) && Carried(s, h)
    ensures Carried(Step(s, a), Noted(s, a, h))
  {
  }

  lemma IdleKeepsTold(s: State, t: State, h: History, p: Pid)
    requires p in s.calls && Told(s, h, p) && t.calls == s.calls && t.dispatched == s.dispatched && t.drained == s.drained
    requires t.thread == s.thread || (!s.thread.Busy() && !t.thread.Busy())
    ensures Told(t, h, p)
  {
  }

  lemma BeginKeepsTold(s: State, a: Action, h: History, p: Pid)
    requires Queued(s) && Fifo(s) && Carried(s, h) && ThreadOk(s) && a.Begin? && Enabled(s, a) && p in Step(s, a).calls
    requires p in s.calls ==> Told(s, h, p)
    ensures Told(Step(s, a), h, p)
  {
    if p == a.p {
      assert p !in s.inserted;
      assert p in s.dispatched || p in s.drained ==> p in s.dispatched + s.drained + s.queue;
    }
  }

  lemma ServingKeepsTold(s: State, a: Action, h: History, p: Pid)
    requires ThreadOk(s) && Carried(s, h) && Enabled(s, a) && p in s.calls && Told(s, h, p) && CallOk(s, p)
    requires a.Process? || a.ThreadLock? || a.TestSctx? || a.ThreadUnlock?
    ensures Told(Step(s, a), Noted(s, a, h), p)
  {
  }

  lemma CompletingKeepsTold(s: State, a: Action, h: History, p: Pid)
    requires ThreadOk(s) && Carried(s, h) && Enabled(s, a) && p in s.calls && Told(s, h, p) && CallOk(s, p)
    requires a.WriteStatus? || a.Signal? || a.ClearSctx? || a.FreeCmd?
    requires s.thread.cmd in s.calls && CallOk(s, s.thread.cmd)
    ensures Told(Step(s, a), h, p)
  {
  }

  lemma PopKeepsTold(s: State, a: Action, h: History, p: Pid)
    requires ThreadOk(s) && Enabled(s, a) && PopsQueue(s, a) && p in s.calls && s.queue[0] in s.calls && Told(s, h, p)
    requires s.queue[0] !in s.dispatched && s.queue[0] !in s.drained && CallOk(s, s.queue[0])
    ensures Told(Step(s, a), h, p)
  {
    var t := Step(s, a);
    assert s.queue[0] in s.queue;
    assert forall q :: q in t.dispatched ==> q in s.dispatched || q == s.queue[0];
    assert forall q :: q in t.drained ==> q in s.drained || q == s.queue[0];
  }

  /** A step with a command in hand. */
  predicate Serves(a: Action) {
    a.Process? || a.ThreadLock? || a.TestSctx? || a.ThreadUnlock? || a.WriteStatus? || a.Signal? || a.ClearSctx? || a.FreeCmd?
  }

  lemma ServiceKeepsTold(s: State, a: Action, h: History, p: Pid)
    requires ThreadOk(s) && Carried(s, h) && Serves(a) && Enabled(s, a)
    requires p in s.calls && p in Step(s, a).calls && Told(s, h, p) && CallOk(s, p)
    requires s.thread.cmd in s.calls && CallOk(s, s.thread.cmd)
    ensures Told(Step(s, a), Noted(s, a, h), p)
  {
    if a.Process? || a.ThreadLock? || a.TestSctx? || a.ThreadUnlock? {
      ServingKeepsTold(s, a, h, p);
    } else {
      CompletingKeepsTold(s, a, h, p);
    }
  }

  lemma QuietIsIdle(s: State, a: Action, h: History)
    requires !a.ByCaller() && !a.Begin? && !Serves(a) && !PopsQueue(s, a) && Enabled(s, a)
    ensures var t := Step(s, a);
            && t.calls == s.calls && t.dispatched == s.dispatched && t.drained == s.drained && Noted(s, a, h) == h
            && (t.thread == s.thread || (!s.thread.Busy() && !t.thread.Busy()))
  {
  }

  lemma IdleStepKeepsTold(s: State, a: Action, h: History, p: Pid)
    requires !a.ByCaller() && !a.Begin? && !Serves(a) && !PopsQueue(s, a) && Enabled(s, a)
    requires p in s.calls && p in Step(s, a).calls && Told(s, h, p)
    ensures Told(Step(s, a), Noted(s, a, h), p)
  {
    QuietIsIdle(s, a, h);
    IdleKeepsTold(s, Step(s, a), h, p);
  }

  lemma ThreadKeepsCarried(s: State, a: Action, h: History)
    requires Fifo(s) && ThreadOk(s) && Carried(s, h) && !a.ByCaller() && Enabled(s, a)
    ensures Carried(Step(s, a), Noted(s, a, h))
  {
    if Serves(a) {
      ServingKeepsCarried(s, a, h);
    } else if a.Dequeue? && s.queue != [] {
      HeadIsFresh(s);
      TakingKeepsCarried(s, a, h);
    } else {
      RestKeepsCarried(s, a, h);
    }
  }

  lemma ServingKeepsCarried(s: State, a: Action, h: History)
    requires ThreadOk(s) && Carried(s, h) && Serves(a) && Enabled(s, a)
    ensures Carried(Step(s, a), Noted(s, a, h))
  {
    var t := Step(s, a);
    assert t.dispatched == s.dispatched && forall p :: p in s.calls ==> p in t.calls;
  }

  lemma RestKeepsCarried(s: State, a: Action, h: History)
    requires Carried(s, h) && !a.ByCaller() && !Serves(a) && !(a.Dequeue? && s.queue != []) && Enabled(s, a)
    ensures Carried(Step(s, a), h)
  {
    var t := Step(s, a);
    assert t.dispatched == s.dispatched && forall p :: p in s.calls ==> p in t.calls;
    assert t.thread == s.thread || !t.thread.Busy();
  }

  lemma TakingKeepsCarried(s: State, a: Action, h: History)
    requires Carried(s, h) && a.Dequeue? && Enabled(s, a) && s.queue != [] && s.queue[0] !in s.dispatched
    ensures Carried(Step(s, a), h)
  {
    assert Step(s, a).dispatched[|s.dispatched|] == s.queue[0];
  }

  lemma {:induction false} RunKeepsChronicle(s: State, acts: seq<Action>, h: History)
    requires Shape(s) && Fifo(s) && Chronicle(s, h) && CanRun(s, acts)
    ensures Shape(Run(s, acts)) && Chronicle(Run(s, acts), Recorded(s, acts, h))
    decreases |acts|
  {
    if acts != [] {
      var a := acts[0];
      StepKeepsFifo(s, a);
      StepKeepsChronicle(s, a, h);
      RunKeepsChronicle(Step(s, a), acts[1..], Noted(s, a, h));
    }
  }

  lemma StepKeepsChronicle(s: State, a: Action, h: History)
    requires Shape(s) && Fifo(s) && Chronicle(s, h) && Enabled(s, a)
    ensures Chronicle(Step(s, a), Noted(s, a, h))
  {
    if a.ByCaller() {
      CallerKeepsChronicle(s, a, h);
    } else if a.Begin? {
      BeginKeepsChronicle(s, a, h);
    } else {
      ThreadKeepsChronicle(s, a, h);
    }
  }

  lemma CallerKeepsChronicle(s: State, a: Action, h: History)
    requires Shape(s) && Fifo(s) && Chronicle(s, h) && Enabled(s, a) && a.ByCaller()
    ensures Chronicle(Step(s, a), Noted(s, a, h))
  {
    forall p | p in Step(s, a).calls ensures Told(Step(s, a), Noted(s, a, h), p) {
      assert Told(s, h, p) && CallOk(s, p);
      assert p in s.dispatched || p in s.drained ==> p in s.dispatched + s.drained + s.queue;
      CallerKeepsTold(s, a, h, p);
    }
    CallerKeepsCarried(s, a, h);
  }

  lemma BeginKeepsChronicle(s: State, a: Action, h: History)
    requires Shape(s) && Fifo(s) && Chronicle(s, h) && Enabled(s, a) && a.Begin?
    ensures Chronicle(Step(s, a), h)
  {
    forall p | p in Step(s, a).calls ensures Told(Step(s, a), h, p) {
      assert p in s.calls ==> Told(s, h, p);
      BeginKeepsTold(s, a, h, p);
    }
    ThreadKeepsCarried(s, a, h);
  }

  lemma ThreadKeepsChronicle(s: State, a: Action, h: History)
    requires Shape(s) && Fifo(s) && Chronicle(s, h) && Enabled(s, a) && !a.ByCaller() && !a.Begin?
    ensures Chronicle(Step(s, a), Noted(s, a, h))
  {
    forall p | p in Step(s, a).calls ensures Told(Step(s, a), Noted(s, a, h), p) {
      ThreadKeepsTold(s, a, h, p);
    }
    ThreadKeepsCarried(s, a, h);
  }

  lemma ThreadKeepsTold(s: State, a: Action, h: History, p: Pid)
    requires Shape(s) && Fifo(s) && Chronicle(s, h) && Enabled(s, a) && !a.ByCaller() && !a.Begin? && p in Step(s, a).calls
    ensures Told(Step(s, a), Noted(s, a, h), p)
  {
    StillCalled(s, a);
    assert Told(s, h, p);
    if Serves(a) {
      assert CallOk(s, p) && CallOk(s, s.thread.cmd);
      ServiceKeepsTold(s, a, h, p);
    } else if PopsQueue(s, a) {
      PopStepKeepsTold(s, a, h, p);
    } else {
      IdleStepKeepsTold(s, a, h, p);
    }
  }

  lemma StillCalled(s: State, a: Action)
    requires Enabled(s, a) && !a.ByCaller() && !a.Begin? && ThreadOk(s)
    ensures forall p :: p in Step(s, a).calls ==> p in s.calls
  {
  }

  lemma PopStepKeepsTold(s: State, a: Action, h: History, p: Pid)
    requires Shape(s) && Fifo(s) && PopsQueue(s, a) && Enabled(s, a) && p in s.calls && Told(s, h, p) && p in Step(s, a).calls
    ensures Told(Step(s, a), Noted(s, a, h), p)
  {
    HeadIsFresh(s);
    assert s.queue[0] in s.queue;
    assert CallOk(s, s.queue[0]);
    PopKeepsTold(s, a, h, p);
  }

  /** A call has a status exactly if it is completed, or the thread is just about to complete it. */
  lemma DoneIffCompleted(acts: seq<Action>, p: Pid)
    requires CanRun(INITIAL, acts) && p in Run(INITIAL, acts).calls
    ensures var s := Run(INITIAL, acts);
            s.calls[p].status.Done? <==> s.calls[p].completed || s.thread == Signalling(p)
  {
    RunKeepsChronicle(INITIAL, acts, NOTHING);
    assert Told(Run(INITIAL, acts), Recorded(INITIAL, acts, NOTHING), p);
  }

  /** Once its command has been dispatched and freed, a caller that wanted to wait has been completed with what
      the handler returned, exactly if it had not given up before there was a status. */
  lemma CompletedIffNotCancelled(acts: seq<Action>, p: Pid)
    requires CanRun(INITIAL, acts)
    requires var s := Run(INITIAL, acts); p in s.calls && s.calls[p].waits && p in s.dispatched && s.calls[p].memory.Freed?
    ensures var c, h := Run(INITIAL, acts).calls[p], Recorded(INITIAL, acts, NOTHING);
            && (c.completed <==> p !in h.cancelled)
            && (c.completed ==> p in h.results && c.status == Done(h.results[p]))
  {
    RunKeepsChronicle(INITIAL, acts, NOTHING);
    var s, h := Run(INITIAL, acts), Recorded(INITIAL, acts, NOTHING);
    assert Told(s, h, p) && CallOk(s, p);
    FreedIsTold(s, h, p);
  }

  lemma FreedIsTold(s: State, h: History, p: Pid)
    requires p in s.calls && Told(s, h, p) && CallOk(s, p) && s.calls[p].waits && p in s.dispatched && s.calls[p].memory.Freed?
    ensures var c := s.calls[p];
            (c.completed <==> p !in h.cancelled) && (c.completed ==> p in h.results && c.status == Done(h.results[p]))
  {
  }

  /** Every command taken off the queue is freed, unless the thread is still at it; the drained ones without
      their callers being told. */
  lemma TakenIsFreed(acts: seq<Action>, p: Pid)
    requires CanRun(INITIAL, acts) && p in Run(INITIAL, acts).calls
    ensures var s := Run(INITIAL, acts);
            && (p in s.dispatched ==> s.calls[p].memory.Freed? || (s.thread.Busy() && s.thread.cmd == p))
            && (p in s.drained ==> s.calls[p].memory.Freed? && !s.calls[p].completed && s.calls[p].status.Submitted?)
  {
    RunKeepsChronicle(INITIAL, acts, NOTHING);
    RunKeepsFifo(INITIAL, acts);
    var s, h := Run(INITIAL, acts), Recorded(INITIAL, acts, NOTHING);
    assert Told(s, h, p);
    if p in s.drained {
      DrainedNotDispatched(s, p);
      NotDispatched(s, h, p);
    }
  }

  lemma NotDispatched(s: State, h: History, p: Pid)
    requires p in s.calls && Told(s, h, p) && Carried(s, h) && p !in s.dispatched
    ensures s.calls[p].status.Submitted? && !s.calls[p].completed
  {
  }

  lemma DrainedNotDispatched(s: State, p: Pid)
    requires Fifo(s) && p in s.drained
    ensures p !in s.dispatched
  {
    var j :| 0 <= j < |s.drained| && s.drained[j] == p;
    assert s.inserted[|s.dispatched| + j] == p;
    forall i | 0 <= i < |s.dispatched| ensures s.dispatched[i] != p {
      assert s.inserted[i] == s.dispatched[i];
    }
  }

  // ----- stopping

  /** A thread that nobody stops goes on serving. */
  lemma {:induction false} StaysRunning(s: State, acts: seq<Action>)
    requires Running(s) && CanRun(s, acts) && forall a | a in acts :: !a.Stops()
    ensures Running(Run(s, acts))
    decreases |acts|
  {
    if acts != [] {
      assert acts[0] in acts;
      StepStaysRunning(s, acts[0]);
      StaysRunning(Step(s, acts[0]), acts[1..]);
    }
  }

  lemma StepStaysRunning(s: State, a: Action)
    requires Running(s) && Enabled(s, a) && !a.Stops()
    ensures Running(Step(s, a))
  {
  }

  function Ups(acts: seq<Action>): nat {
    if acts == [] then 0 else (if acts[0].Up? || acts[0].RequestStop? then 1 else 0) + Ups(acts[1..])
  }

  function Downs(acts: seq<Action>): nat {
    if acts == [] then 0 else (if acts[0].Down? then 1 else 0) + Downs(acts[1..])
  }

  /** The semaphore counts the `up`s of callers and of the stop request against the thread's `down`s. */
  lemma {:induction false} SemaphoreCounts(s: State, acts: seq<Action>)
    requires CanRun(s, acts)
    ensures Run(s, acts).sem + Downs(acts) == s.sem + Ups(acts)
    decreases |acts|
  {
    if acts != [] {
      StepCounts(s, acts[0]);
      SemaphoreCounts(Step(s, acts[0]), acts[1..]);
    }
  }

  lemma StepCounts(s: State, a: Action)
    requires Enabled(s, a)
    ensures Step(s, a).sem + (if a.Down? then 1 else 0) == s.sem + if a.Up? || a.RequestStop? then 1 else 0
  {
  }

  /** Left alone, a thread that drains throws away the whole queue in order, and then exits. */
  lemma {:induction false} DrainEmpties(s: State, acts: seq<Action>)
    requires s.thread.Draining? && CanRun(s, acts) && |acts| == |s.queue| + 1 && forall a | a in acts :: a.DrainOne?
    ensures var t := Run(s, acts); t.thread.Exited? && t.queue == [] && t.drained == s.drained + s.queue
    decreases |acts|
  {
    assert acts[0] in acts;
    if s.queue != [] {
      DrainEmpties(Step(s, acts[0]), acts[1..]);
      assert s.drained + s.queue == (s.drained + [s.queue[0]]) + s.queue[1..];
    } else {
      assert acts[1..] == [];
    }
  }

  /** A thread asked to stop never blocks: the `up` of the request is left for it. */
  predicate StopPosted(s: State) {
    s.stopReq ==> s.sem > 0 || s.thread.Woken? || s.thread.Draining? || s.thread.Exited?
  }

  lemma {:induction false} RunKeepsStopPosted(s: State, acts: seq<Action>)
    requires StopPosted(s) && CanRun(s, acts)
    ensures StopPosted(Run(s, acts))
    decreases |acts|
  {
    if acts != [] {
      StepKeepsStopPosted(s, acts[0]);
      RunKeepsStopPosted(Step(s, acts[0]), acts[1..]);
    }
  }

  lemma StepKeepsStopPosted(s: State, a: Action)
    requires StopPosted(s) && Enabled(s, a)
    ensures StopPosted(Step(s, a))
  {
  }

  lemma StopIsNotLost(acts: seq<Action>)
    requires CanRun(INITIAL, acts) && Run(INITIAL, acts).stopReq && Run(INITIAL, acts).thread.AtDown?
    ensures Enabled(Run(INITIAL, acts), Down)
  {
    RunKeepsStopPosted(INITIAL, acts);
  }

  predicate OutOfService(s: State) {
    s.thread.AtDown? || s.thread.Woken? || s.thread.Draining? || s.thread.Exited?
  }

  /** Once it waits for the semaphore a thread asked to stop dispatches nothing any more. */
  lemma {:induction false} StopEndsService(s: State, acts: seq<Action>)
    requires s.stopReq && OutOfService(s) && CanRun(s, acts)
    ensures Run(s, acts).dispatched == s.dispatched && OutOfService(Run(s, acts))
    decreases |acts|
  {
    if acts != [] {
      StepStaysStopped(s, acts[0]);
      StopEndsService(Step(s, acts[0]), acts[1..]);
    }
  }

  lemma StepStaysStopped(s: State, a: Action)
    requires s.stopReq && OutOfService(s) && Enabled(s, a)
    ensures var t := Step(s, a); t.stopReq && OutOfService(t) && t.dispatched == s.dispatched
  {
  }

  /** While the driver is stopped at most one more command is dispatched: the one the thread was about to take. */
  lemma {:induction false} StoppedServesOneMore(s: State, acts: seq<Action>)
    requires s.stopped && CanRun(s, acts) && forall a | a in acts :: !a.SetStopped?
    ensures |Run(s, acts).dispatched| <= |s.dispatched| + if s.thread.Taking? then 1 else 0
    decreases |acts|
  {
    if acts != [] {
      assert acts[0] in acts;
      StepWhileStopped(s, acts[0]);
      StoppedServesOneMore(Step(s, acts[0]), acts[1..]);
    }
  }

  lemma StepWhileStopped(s: State, a: Action)
    requires s.stopped && Enabled(s, a) && !a.SetStopped?
    ensures var t := Step(s, a);
            t.stopped && |t.dispatched| + (if t.thread.Taking? then 1 else 0) <= |s.dispatched| + if s.thread.Taking? then 1 else 0
  {
  }

  // ----- the shutdown drain

  lemma RunOne(s: State, a: Action, rest: seq<Action>)
    requires Enabled(s, a) && CanRun(Step(s, a), rest)
    ensures CanRun(s, [a] + rest) && Run(s, [a] + rest) == Run(Step(s, a), rest)
    ensures !a.DrainOne? && GentleRun(Step(s, a), rest) ==> GentleRun(s, [a] + rest)
  {
    assert ([a] + rest)[1..] == rest;
  }

  /** What a caller of a freed command, or whoever keeps it from the mutex, does next. */
  function CallerAction(s: State, p: Pid): Action
    requires p in s.calls
  {
    var pc := s.calls[p].pc;
    if pc.Inserted? then Up(p) else if pc.Waiting? then Timeout(p) else if pc.Holding? then Cancel(p)
    else if s.mutex == Nobody then Lock(p)
    else if s.mutex.Caller? && At(s, s.mutex.pid, Holding) then Cancel(s.mutex.pid)
    else if s.mutex.Caller? then Unlock(s.mutex.pid) else Lock(p)
  }

  function CallerDistance(s: State, p: Pid): nat
    requires p in s.calls
  {
    (match s.calls[p].pc case Inserted => 20 case Waiting => 10 case WantMutex => 5 case _ => 0) +
    (if s.mutex.Caller? then (if At(s, s.mutex.pid, Holding) then 2 else 1) else 0)
  }

  predicate Stranded(s: State, p: Pid) {
    && s.thread.Draining? && p in s.calls && s.calls[p].memory.Freed? && !Settled(s.calls[p])
    && !s.calls[p].pc.Starting? && !s.calls[p].pc.Admitted?
  }

  lemma CallerAdvances(s: State, p: Pid)
    requires ThreadOk(s) && Stranded(s, p) && CallOk(s, p) && (s.mutex.Caller? ==> CallOk(s, s.mutex.pid))
    ensures var a := CallerAction(s, p);
            && Enabled(s, a) && a.ByCaller()
            && if s.calls[p].pc.Holding? then Step(s, a).fault
               else Stranded(Step(s, a), p) && CallerDistance(Step(s, a), p) < CallerDistance(s, p)
  {
    if CallerAction(s, p).p != p {
      HolderLeaves(s, p);
    }
  }

  /** Another caller in the mutex moves on towards releasing it. */
  lemma HolderLeaves(s: State, p: Pid)
    requires ThreadOk(s) && Stranded(s, p) && s.mutex.Caller? && CallOk(s, s.mutex.pid)
    requires CallerAction(s, p).p == s.mutex.pid != p && !s.calls[p].pc.Holding?
    ensures var a := CallerAction(s, p);
            && Enabled(s, a) && a.ByCaller()
            && Stranded(Step(s, a), p) && CallerDistance(Step(s, a), p) < CallerDistance(s, p)
  {
  }

  /** A caller waiting for a freed command can go on to write into it. */
  lemma {:induction false} StrandedCallerFaults(s: State, p: Pid) returns (acts: seq<Action>)
    requires Shape(s) && Stranded(s, p)
    ensures CanRun(s, acts) && GentleRun(s, acts) && Run(s, acts).fault
    decreases CallerDistance(s, p)
  {
    assert CallOk(s, p);
    if s.mutex.Caller? {
      assert CallOk(s, s.mutex.pid);
    }
    CallerAdvances(s, p);
    var a := CallerAction(s, p);
    var rest := [];
    if !s.calls[p].pc.Holding? {
      CallerKeepsShape(s, a);
      rest := StrandedCallerFaults(Step(s, a), p);
    }
    RunOne(s, a, rest);
    acts := [a] + rest;
  }

  /** The drain of the head is harmless in every continuation exactly when its caller no longer depends
      on it: the shutdown path frees without completing. */
  lemma DrainIsSafeIffSettled(s: State)
    requires Inv(s) && Enabled(s, DrainOne) && s.queue != []
    ensures (forall acts :: CanRun(Step(s, DrainOne), acts) && GentleRun(Step(s, DrainOne), acts)
                            ==> !Run(Step(s, DrainOne), acts).fault)
            <==> Settled(s.calls[s.queue[0]])
  {
    var p, t := s.queue[0], Step(s, DrainOne);
    assert p in s.queue;
    assert CallOk(s, p);
    if Settled(s.calls[p]) {
      StepKeepsInv(s, DrainOne);
      forall acts | CanRun(t, acts) && GentleRun(t, acts) ensures !Run(t, acts).fault {
        RunKeepsInv(t, acts);
      }
    } else {
      ThreadKeepsShape(s, DrainOne);
      var acts := StrandedCallerFaults(t, p);
    }
  }

  lemma {:induction false} RunJoin(s: State, a: seq<Action>, b: seq<Action>)
    requires CanRun(s, a) && CanRun(Run(s, a), b)
    ensures CanRun(s, a + b) && Run(s, a + b) == Run(Run(s, a), b)
    decreases |a|
  {
    if a == [] {
      assert a + b == b;
    } else {
      RunJoin(Step(s, a[0]), a[1..], b);
      assert (a + b)[1..] == a[1..] + b;
    }
  }

  /** A command queued by a caller that wants to wait for it, before its `up`. */
  const QUEUED := State(map[0 := Call(Inserted, true, false, Submitted, false, true, Live)], [0], 0, Nobody, AtDown,
                        false, false, false, [0], [], [])
  /** The same after an interrupted thread has thrown it away. */
  const THROWN := State(map[0 := Call(Inserted, true, false, Submitted, false, true, Freed)], [], 0, Nobody, Draining,
                        false, false, false, [0], [], [0])

  /** And after the wait has timed out. */
  const TIMED_OUT := State(map[0 := Call(WantMutex, true, false, Submitted, false, true, Freed)], [], 1, Nobody, Draining,
                           false, false, false, [0], [], [0])

  lemma ToQueued()
    ensures var acts := [Begin(0, true, false), Filter(0, true), Insert(0)];
            CanRun(INITIAL, acts) && Run(INITIAL, acts) == QUEUED
  {
    var s1 := Step(INITIAL, Begin(0, true, false));
    var s2 := Step(s1, Filter(0, true));
    assert Step(s2, Insert(0)) == QUEUED;
    RunOne(s2, Insert(0), []);
    RunOne(s1, Filter(0, true), [Insert(0)]);
    RunOne(INITIAL, Begin(0, true, false), [Filter(0, true), Insert(0)]);
  }

  lemma ToThrown()
    ensures CanRun(QUEUED, [Interrupted, DrainOne]) && Run(QUEUED, [Interrupted, DrainOne]) == THROWN
  {
    var s := Step(QUEUED, Interrupted);
    assert Step(s, DrainOne) == THROWN;
    RunOne(s, DrainOne, []);
    RunOne(QUEUED, Interrupted, [DrainOne]);
  }

  lemma ToTimeout()
    ensures CanRun(THROWN, [Up(0), Timeout(0)]) && Run(THROWN, [Up(0), Timeout(0)]) == TIMED_OUT
  {
    var s := Step(THROWN, Up(0));
    assert Step(s, Timeout(0)) == TIMED_OUT;
    RunOne(s, Timeout(0), []);
    RunOne(THROWN, Up(0), [Timeout(0)]);
  }

  lemma ToFault()
    ensures CanRun(TIMED_OUT, [Lock(0), Cancel(0)]) && Run(TIMED_OUT, [Lock(0), Cancel(0)]).fault
  {
    var s := Step(TIMED_OUT, Lock(0));
    assert Step(s, Cancel(0)).fault;
    RunOne(s, Cancel(0), []);
    RunOne(TIMED_OUT, Lock(0), [Cancel(0)]);
  }

  /** The fault of the shutdown is reached: a caller gives up on a command that the drain has freed, and
      writes into it. */
  lemma DrainFaults()
    ensures var acts := [Begin(0, true, false), Filter(0, true), Insert(0)] + [Interrupted, DrainOne]
                        + [Up(0), Timeout(0)] + [Lock(0), Cancel(0)];
            CanRun(INITIAL, acts) && Run(INITIAL, acts).fault
  {
    var a, b := [Begin(0, true, false), Filter(0, true), Insert(0)], [Interrupted, DrainOne];
    var c, d := [Up(0), Timeout(0)], [Lock(0), Cancel(0)];
    ToQueued();
    ToThrown();
    ToTimeout();
    ToFault();
    RunJoin(INITIAL, a, b);
    RunJoin(INITIAL, a + b, c);
    RunJoin(INITIAL, a + b + c, d);
  }

  // ----- oversized commands

  /** An oversized command past the queueing step: reported as queued, but nowhere on the queue. */
  predicate Leaked(s: State, p: Pid) {
    && p in s.calls && s.calls[p].oversize && s.calls[p].memory.Live?
    && !s.calls[p].pc.Starting? && !s.calls[p].pc.Admitted?
    && p !in s.inserted
  }

  lemma CallerKeepsLeaked(s: State, a: Action, p: Pid)
    requires Leaked(s, p) && Enabled(s, a) && a.ByCaller()
    ensures Leaked(Step(s, a), p)
  {
    if a.Insert? {
      assert p in s.inserted + [a.p] ==> p in s.inserted;
    } else {
      assert Step(s, a).inserted == s.inserted;
    }
  }

  lemma StepKeepsLeaked(s: State, a: Action, p: Pid)
    requires Shape(s) && Leaked(s, p) && Enabled(s, a)
    ensures Leaked(Step(s, a), p)
  {
    if a.ByCaller() {
      CallerKeepsLeaked(s, a, p);
    } else if a.DrainOne? && s.queue != [] {
      assert s.queue[0] in s.queue;
    } else {
      assert Step(s, a).inserted == s.inserted;
    }
  }

  /** Such a command is never dispatched, drained or freed, although its caller was told `_SUCCESS`. */
  lemma {:induction false} OversizedIsLeaked(s: State, acts: seq<Action>, p: Pid)
    requires Shape(s) && Fifo(s) && CanRun(s, acts) && Leaked(s, p)
    ensures Leaked(Run(s, acts), p)
    ensures p !in Run(s, acts).dispatched && p !in Run(s, acts).drained
    decreases |acts|
  {
    if acts == [] {
      assert forall q :: q in s.dispatched || q in s.drained ==> q in s.inserted;
    } else {
      StepKeepsFifo(s, acts[0]);
      StepKeepsLeaked(s, acts[0], p);
      OversizedIsLeaked(Step(s, acts[0]), acts[1..], p);
    }
  }

  /** A command past the queueing step whose call was not refused. */
  predicate Accepted(s: State, p: Pid) {
    && p in s.calls && !s.calls[p].pc.Starting? && !s.calls[p].pc.Admitted?
    && (s.calls[p].memory.Live? || p in s.inserted)
  }

  /** Only oversized commands miss the queue. */
  predicate Logged(s: State) {
    forall p | p in s.calls :: Accepted(s, p) ==> (p in s.inserted <==> !s.calls[p].oversize)
  }

  lemma CallerKeepsLogged(s: State, a: Action)
    requires Shape(s) && Logged(s) && a.ByCaller() && Enabled(s, a)
    ensures Logged(Step(s, a))
  {
    var t := Step(s, a);
    assert CallOk(s, a.p);
    forall p | Accepted(t, p) ensures p in t.inserted <==> !t.calls[p].oversize {
      if a.Insert? {
        assert s.calls[a.p].oversize || t.inserted[|s.inserted|] == a.p;
        assert p in t.inserted <==> p in s.inserted || (p == a.p && !s.calls[a.p].oversize);
      }
      assert p != a.p ==> Accepted(s, p);
      assert p == a.p && !a.Filter? && !a.Insert? ==> Accepted(s, p);
    }
  }

  lemma ThreadKeepsLogged(s: State, a: Action)
    requires Shape(s) && Logged(s) && !a.ByCaller() && Enabled(s, a)
    ensures Logged(Step(s, a))
  {
    var t := Step(s, a);
    assert t.inserted == s.inserted;
    forall p | Accepted(t, p) ensures p in t.inserted <==> !t.calls[p].oversize {
      assert Accepted(s, p);
    }
  }

  lemma {:induction false} RunKeepsLogged(s: State, acts: seq<Action>)
    requires Shape(s) && Fifo(s) && Logged(s) && CanRun(s, acts)
    ensures Logged(Run(s, acts))
    decreases |acts|
  {
    if acts != [] {
      StepKeepsFifo(s, acts[0]);
      if acts[0].ByCaller() {
        CallerKeepsLogged(s, acts[0]);
      } else {
        ThreadKeepsLogged(s, acts[0]);
      }
      RunKeepsLogged(Step(s, acts[0]), acts[1..]);
    }
  }

  /** Of the commands whose callers were told that they are queued exactly the oversized ones are leaked; any
      other has been dispatched or drained, or is still queued. */
  lemma LeakedIffOversized(acts: seq<Action>, p: Pid)
    requires CanRun(INITIAL, acts) && Accepted(Run(INITIAL, acts), p)
    ensures var s := Run(INITIAL, acts);
            && (Leaked(s, p) <==> s.calls[p].oversize)
            && (!s.calls[p].oversize <==> p in s.dispatched || p in s.drained || p in s.queue)
  {
    RunKeepsFifo(INITIAL, acts);
    RunKeepsLogged(INITIAL, acts);
    var s := Run(INITIAL, acts);
    assert p in s.inserted <==> p in s.dispatched || p in s.drained || p in s.queue;
  }

  /** A command becomes such a one: its caller returns, and the command is nowhere. */
  lemma OversizedReturns()
    ensures var acts := [Begin(0, false, true), Filter(0, true), Insert(0), Up(0)];
            CanRun(INITIAL, acts) && Leaked(Run(INITIAL, acts), 0) && At(Run(INITIAL, acts), 0, Returned)
  {
    var s1 := Step(INITIAL, Begin(0, false, true));
    var s2 := Step(s1, Filter(0, true));
    var s3 := Step(s2, Insert(0));
    RunOne(s3, Up(0), []);
    RunOne(s2, Insert(0), [Up(0)]);
    RunOne(s1, Filter(0, true), [Insert(0), Up(0)]);
    RunOne(INITIAL, Begin(0, false, true), [Filter(0, true), Insert(0), Up(0)]);
  }
}
