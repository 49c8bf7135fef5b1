/** The serial executor: tasks pushed on a blocking queue, and a drain handed to a thread pool by whoever sets
    the running flag. Every access to shared state is one step of some thread; steps interleave freely. */
module SerialExecutor {

  type Tid = nat

  datatype Task = Task(key: nat, id: nat)

  /** Where a thread stands. A call nested in a running task counts as a thread of its own. */
  datatype Pc =
    | Idle
    | Starting                  // start() has set started, not yet stored stopped
    | Stopping                  // stop() has set stopped, not yet stopped the queue
    | Asking(asked: Task)          // submit() has seen started, not yet loaded stopped
    | Submitting(given: Task)      // submit() passed its check
    | Scheduling                // about to try to set running
    | Won                       // has set running, about to hand a drain to the pool
    | Refused                   // the pool threw, about to clear running
    | Draining                  // about to pop
    | Busy(task: Task)             // runs a task
    | Emptied                   // popped nothing, about to clear running
    | Cleared                   // about to look whether the queue is empty
    | NotEmpty                  // about to look whether the executor is stopped
  {
    /** Between setting the running flag and clearing it. */
    predicate Owns() {
      Won? || Refused? || InDrain()
    }

    predicate InDrain() {
      Draining? || Busy? || Emptied?
    }

    /** On its way to schedule(). */
    predicate OnTheWay() {
      Scheduling? || Cleared? || NotEmpty?
    }
  }

  /** `pooled` drains are accepted and not begun. `pushed`, `begun` and `done` record tasks in the order these
      things happened to them; `dropped` says that the last hand-over was lost with tasks waiting, either because
      the pool refused it or because start() stored over a stop(). */
  datatype Shared = Shared(
    capacity: nat, queue: seq<Task>, queueStopped: bool,
    started: bool, stopped: bool, running: bool, pooled: nat,
    pushed: seq<Task>, begun: seq<Task>, done: seq<Task>, dropped: bool)

  datatype State = State(sh: Shared, pcs: map<Tid, Pc>) {
    function At(t: Tid): Pc {
      if t in pcs then pcs[t] else Idle
    }
  }

  function Init(capacity: nat): State {
    State(Shared(capacity, [], false, false, false, false, 0, [], [], [], false), map[])
  }

  datatype What = CallStart | CallStop | CallSubmit(task: Task) | PoolRuns | PoolRefuses | Continue

  datatype Event = Event(t: Tid, what: What)

  predicate Can(sh: Shared, pc: Pc, what: What) {
    match what
    case CallStart => pc.Idle?
    case CallStop => pc.Idle?
    case CallSubmit(_) => pc.Idle?
    case PoolRuns => pc.Idle? && sh.pooled > 0
    case PoolRefuses => pc.Won?
    case Continue =>
      && !pc.Idle?
      && (pc.Submitting? ==> sh.queueStopped || sh.capacity == 0 || |sh.queue| < sh.capacity)
  }

  /** One atomic access by a thread. */
  function Act(sh: Shared, pc: Pc, what: What): (Shared, Pc)
    requires Can(sh, pc, what)
  {
    match what
    case CallStart => if sh.started then (sh, Idle) else (sh.(started := true), Starting)
    case CallStop => if sh.stopped then (sh, Idle) else (sh.(stopped := true), Stopping)
    case CallSubmit(task) => if sh.started then (sh, Asking(task)) else (sh, Idle)
    case PoolRuns => (sh.(pooled := sh.pooled - 1), Draining)
    case PoolRefuses => (sh, Refused)
    case Continue => Proceed(sh, pc)
  }

  function Proceed(sh: Shared, pc: Pc): (Shared, Pc)
    requires Can(sh, pc, Continue)
  {
    match pc
    case Starting =>
      (sh.(stopped := false, dropped := sh.dropped || (sh.stopped && sh.queue != [] && !sh.running)), Idle)
    case Stopping => (sh.(queueStopped := true), Idle)
    case Asking(task) => (sh, if sh.stopped then Idle else Submitting(task))
    case Submitting(task) =>
      if sh.queueStopped then (sh, Idle)
      else (sh.(queue := sh.queue + [task], pushed := sh.pushed + [task]), Scheduling)
    case Scheduling => if sh.running then (sh, Idle) else (sh.(running := true, dropped := false), Won)
    case Won => (sh.(pooled := sh.pooled + 1), Idle)
    case Refused => (sh.(running := false, dropped := sh.queue != []), Idle)
    case Draining =>
      if sh.queue == [] then (sh, Emptied)
      else (sh.(queue := sh.queue[1..], begun := sh.begun + [sh.queue[0]]), Busy(sh.queue[0]))
    case Busy(task) => (sh.(done := sh.done + [task]), Draining)
    case Emptied => (sh.(running := false), Cleared)
    case Cleared => (sh, if sh.queue == [] then Idle else NotEmpty)
    case NotEmpty => (sh, if sh.stopped then Idle else Scheduling)
  }

  predicate Enabled(s: State, e: Event) {
    Can(s.sh, s.At(e.t), e.what)
  }

  function Step(s: State, e: Event): State
    requires Enabled(s, e)
  {
    var (sh, pc) := Act(s.sh, s.At(e.t), e.what);
    State(sh, s.pcs[e.t := pc])
  }

  // ----- what every step keeps -----

  /** The running flag is a token: it is set exactly while one thread owns it or one drain waits in the pool. */
  ghost predicate Token(s: State) {
    && (forall t, u :: s.At(t).Owns() && s.At(u).Owns() ==> t == u)
    && s.sh.pooled <= 1
    && (forall t :: s.At(t).Owns() ==> s.sh.pooled == 0)
    && (s.sh.running <==> s.sh.pooled == 1 || exists t :: s.At(t).Owns())
  }

  /** Tasks begin in the order they were pushed, and each begins only when those before it are done. */
  ghost predicate Serial(s: State) {
    && s.sh.begun + s.sh.queue == s.sh.pushed
    && (s.sh.begun == s.sh.done || exists t :: s.At(t).Busy? && s.sh.begun == s.sh.done + [s.At(t).task])
    && (forall t :: s.At(t).Busy? ==> s.sh.begun == s.sh.done + [s.At(t).task])
  }

  ghost predicate Stranded(s: State) {
    s.sh.queue != [] && !s.sh.running && !s.sh.stopped && forall t :: !s.At(t).OnTheWay()
  }

  /** A hand-over is lost exactly where somebody waits in vain. */
  ghost predicate Handed(s: State) {
    (Stranded(s) ==> s.sh.dropped) && (s.sh.dropped ==> s.sh.queue != [] && !s.sh.running)
  }

  ghost predicate Inv(s: State) {
    Token(s) && Serial(s) && Handed(s)
  }

  ghost predicate Moved(s: State, r: State, t: Tid) {
    forall u :: u != t ==> r.At(u) == s.At(u)
  }

  lemma StepIs(s: State, e: Event)
    requires Enabled(s, e)
    ensures var r := Step(s, e);
            (r.sh, r.At(e.t)) == Act(s.sh, s.At(e.t), e.what) && Moved(s, r, e.t)
  {
    hide Act;
    hide Can;
  }

  /** The flag is passed on in one of five ways. */
  lemma ActToken(sh: Shared, pc: Pc, what: What)
    requires Can(sh, pc, what) && (pc.Owns() ==> sh.running)
    ensures var (sh', pc') := Act(sh, pc, what);
            || (pc'.Owns() == pc.Owns() && sh'.running == sh.running && sh'.pooled == sh.pooled)
            || (pc'.Owns() && !sh.running && sh'.running && sh'.pooled == sh.pooled)
            || (pc'.Owns() && sh'.running == sh.running && sh'.pooled == sh.pooled - 1)
            || (pc.Owns() && !pc'.Owns() && !sh'.running && sh'.pooled == sh.pooled)
            || (pc.Owns() && !pc'.Owns() && sh'.running == sh.running && sh'.pooled == sh.pooled + 1)
  {
  }

  lemma TokenSame(s: State, r: State, t: Tid)
    requires Token(s) && Moved(s, r, t) && r.At(t).Owns() == s.At(t).Owns()
    requires r.sh.running == s.sh.running && r.sh.pooled == s.sh.pooled
    ensures Token(r)
  {
    forall u ensures r.At(u).Owns() == s.At(u).Owns() {
    }
  }

  lemma TokenTaken(s: State, r: State, t: Tid)
    requires Token(s) && Moved(s, r, t) && r.At(t).Owns() && r.sh.running
    requires (!s.sh.running && r.sh.pooled == s.sh.pooled) || (s.sh.pooled > 0 && r.sh.pooled == s.sh.pooled - 1)
    ensures Token(r)
  {
    forall u ensures r.At(u).Owns() <==> u == t {
      assert !s.At(u).Owns();
    }
  }

  lemma TokenGiven(s: State, r: State, t: Tid)
    requires Token(s) && s.At(t).Owns() && Moved(s, r, t) && !r.At(t).Owns()
    requires (!r.sh.running && r.sh.pooled == s.sh.pooled) || (r.sh.running && r.sh.pooled == s.sh.pooled + 1)
    ensures Token(r)
  {
    forall u ensures !r.At(u).Owns() {
      assert s.At(u).Owns() ==> u == t;
    }
  }

  lemma TokenKeeps(s: State, e: Event)
    requires Enabled(s, e) && Token(s)
    ensures Token(Step(s, e))
  {
    var r, t := Step(s, e), e.t;
    assert s.At(t).Owns() ==> s.sh.running;
    assert s.sh.pooled > 0 ==> s.sh.running;
    hide Token;
    StepIs(s, e);
    ActToken(s.sh, s.At(t), e.what);
    hide Act;
    hide Can;
    hide Step;
    hide Moved;
    if r.At(t).Owns() == s.At(t).Owns() && r.sh.running == s.sh.running && r.sh.pooled == s.sh.pooled {
      TokenSame(s, r, t);
    } else if r.At(t).Owns() {
      TokenTaken(s, r, t);
    } else {
      TokenGiven(s, r, t);
    }
  }

  /** Either no task begins or ends, or one begins, or the running one ends. */
  lemma ActSerial(sh: Shared, pc: Pc, what: What)
    requires Can(sh, pc, what) && sh.begun + sh.queue == sh.pushed
    ensures var (sh', pc') := Act(sh, pc, what);
            && sh'.begun + sh'.queue == sh'.pushed
            && (|| (!pc.Busy? && !pc'.Busy? && sh'.begun == sh.begun && sh'.done == sh.done)
                || (pc.Draining? && pc'.Busy? && sh'.begun == sh.begun + [pc'.task] && sh'.done == sh.done)
                || (pc.Busy? && pc'.Draining? && sh'.begun == sh.begun && sh'.done == sh.done + [pc.task]))
  {
    if what.Continue? && pc.Submitting? {
      assert sh.begun + (sh.queue + [pc.given]) == (sh.begun + sh.queue) + [pc.given];
    } else if what.Continue? && pc.Draining? && sh.queue != [] {
      assert sh.begun + sh.queue == (sh.begun + [sh.queue[0]]) + sh.queue[1..];
    }
  }

  lemma SerialSame(s: State, r: State, t: Tid)
    requires Serial(s) && Moved(s, r, t) && !s.At(t).Busy? && !r.At(t).Busy?
    requires r.sh.begun == s.sh.begun && r.sh.done == s.sh.done && r.sh.begun + r.sh.queue == r.sh.pushed
    ensures Serial(r)
  {
    forall u ensures r.At(u).Busy? == s.At(u).Busy? && (r.At(u).Busy? ==> r.At(u) == s.At(u)) {
    }
  }

  lemma SerialPop(s: State, r: State, t: Tid)
    requires Token(s) && Serial(s) && s.At(t).Draining? && Moved(s, r, t) && r.At(t).Busy?
    requires r.sh.begun == s.sh.begun + [r.At(t).task] && r.sh.done == s.sh.done
    requires r.sh.begun + r.sh.queue == r.sh.pushed
    ensures Serial(r)
  {
    forall u ensures !s.At(u).Busy? && (r.At(u).Busy? <==> u == t) {
      assert s.At(u).Busy? ==> s.At(u).Owns() && s.At(t).Owns();
    }
  }

  lemma SerialDone(s: State, r: State, t: Tid)
    requires Token(s) && Serial(s) && s.At(t).Busy? && Moved(s, r, t) && !r.At(t).Busy?
    requires r.sh.begun == s.sh.begun && r.sh.done == s.sh.done + [s.At(t).task]
    requires r.sh.begun + r.sh.queue == r.sh.pushed
    ensures Serial(r)
  {
    forall u ensures !r.At(u).Busy? {
      assert s.At(u).Busy? ==> s.At(u).Owns() && s.At(t).Owns();
    }
  }

  lemma SerialKeeps(s: State, e: Event)
    requires Enabled(s, e) && Token(s) && Serial(s)
    ensures Serial(Step(s, e))
  {
    hide Token;
    var r, t := Step(s, e), e.t;
    assert s.sh.begun + s.sh.queue == s.sh.pushed;
    hide Serial;
    StepIs(s, e);
    ActSerial(s.sh, s.At(t), e.what);
    hide Act;
    hide Can;
    hide Step;
    hide Moved;
    if s.At(t).Busy? {
      SerialDone(s, r, t);
    } else if r.At(t).Busy? {
      SerialPop(s, r, t);
    } else {
      SerialSame(s, r, t);
    }
  }

  /** Whoever leaves a waiting task with the flag clear is still on its way, unless a hand-over is lost. */
  lemma ActHandOver(sh: Shared, pc: Pc, what: What)
    requires Can(sh, pc, what) && (pc.Owns() ==> sh.running) && (sh.pooled > 0 ==> sh.running)
    ensures var (sh', pc') := Act(sh, pc, what);
            sh'.queue != [] && !sh'.running && !sh'.stopped && !sh'.dropped && !pc'.OnTheWay() ==>
              !pc.OnTheWay() && sh.queue != [] && !sh.running && !sh.stopped && !sh.dropped
  {
  }

  lemma ActDropped(sh: Shared, pc: Pc, what: What)
    requires Can(sh, pc, what) && (pc.Owns() ==> sh.running) && (sh.dropped ==> sh.queue != [] && !sh.running)
    ensures var sh' := Act(sh, pc, what).0; sh'.dropped ==> sh'.queue != [] && !sh'.running
  {
  }

  lemma HandOverKeeps(s: State, e: Event)
    requires Enabled(s, e) && Token(s) && Handed(s)
    ensures Handed(Step(s, e))
  {
    var r, t := Step(s, e), e.t;
    assert s.At(t).Owns() ==> s.sh.running;
    assert s.sh.pooled > 0 ==> s.sh.running;
    hide Token;
    StepIs(s, e);
    ActHandOver(s.sh, s.At(t), e.what);
    ActDropped(s.sh, s.At(t), e.what);
    hide Act;
    hide Can;
    hide Step;
    if s.sh.queue != [] && !s.sh.running && !s.sh.stopped && !s.sh.dropped {
      var u :| s.At(u).OnTheWay();
      assert u == t || r.At(u).OnTheWay();
    }
    assert r.At(t).OnTheWay() || !r.At(t).OnTheWay();
  }

  lemma StepKeeps(s: State, e: Event)
    requires Enabled(s, e) && Inv(s)
    ensures Inv(Step(s, e))
  {
    hide Token;
    hide Serial;
    hide Handed;
    TokenKeeps(s, e);
    SerialKeeps(s, e);
    HandOverKeeps(s, e);
  }

  // ----- what each call comes to -----

  /** A submission goes on past its three checks, and only then is its task pushed: the executor was started, it is not
      stopped, and its queue is not. The flags change in start() and stop() alone. */
  lemma CallsExactly(sh: Shared, pc: Pc, what: What)
    requires Can(sh, pc, what)
    ensures var (sh', pc') := Act(sh, pc, what);
            && (pc'.Asking? <==> what.CallSubmit? && sh.started) && (pc'.Asking? ==> pc'.asked == what.task)
            && (pc'.Submitting? <==> what.Continue? && pc.Asking? && !sh.stopped)
            && (pc'.Submitting? ==> pc'.given == pc.asked)
            && sh'.pushed == (if what.Continue? && pc.Submitting? && !sh.queueStopped then sh.pushed + [pc.given]
                              else sh.pushed)
            && sh'.started == (sh.started || what.CallStart?)
            && sh'.stopped == (what.CallStop? || (sh.stopped && !(what.Continue? && pc.Starting?)))
            && sh'.queueStopped == (sh.queueStopped || (what.Continue? && pc.Stopping?))
            && (pc'.Starting? <==> what.CallStart? && !sh.started)
            && (pc'.Stopping? <==> what.CallStop? && !sh.stopped)
  {
  }

  /** A drain takes the next task while there is one, and clears the flag only when there is none. Whoever pushed a task
      tries to set the flag next, and so does a drain that cleared it, if it then finds a task and no stop. */
  lemma DrainsExactly(sh: Shared, pc: Pc, what: What)
    requires Can(sh, pc, what)
    ensures var (sh', pc') := Act(sh, pc, what);
            && sh'.begun == (if what.Continue? && pc.Draining? && sh.queue != [] then sh.begun + [sh.queue[0]]
                             else sh.begun)
            && (pc'.Busy? <==> what.Continue? && pc.Draining? && sh.queue != [])
            && (pc'.Emptied? <==> what.Continue? && pc.Draining? && sh.queue == [])
            && (pc'.Cleared? <==> what.Continue? && pc.Emptied?)
            && (pc'.NotEmpty? <==> what.Continue? && pc.Cleared? && sh.queue != [])
            && (pc'.Scheduling? <==> what.Continue? && ((pc.Submitting? && !sh.queueStopped)
                                                        || (pc.NotEmpty? && !sh.stopped)))
            && (pc'.Won? <==> what.Continue? && pc.Scheduling? && !sh.running)
            && sh'.pooled == (if what.Continue? && pc.Won? then sh.pooled + 1
                              else if what.PoolRuns? then sh.pooled - 1 else sh.pooled)
  {
  }

  /** A submission waits if and only if the queue is full, has a limit and is not stopped. */
  lemma WaitsExactly(sh: Shared, pc: Pc)
    ensures Can(sh, pc, Continue) <==>
            !pc.Idle? && !(pc.Submitting? && !sh.queueStopped && 0 < sh.capacity <= |sh.queue|)
  {
  }

  // ----- runs -----

  predicate Possible(s: State, es: seq<Event>)
    decreases |es|
  {
    es == [] || (Enabled(s, es[0]) && Possible(Step(s, es[0]), es[1..]))
  }

  function Run(s: State, es: seq<Event>): State
    requires Possible(s, es)
    decreases |es|
  {
    if es == [] then s else Run(Step(s, es[0]), es[1..])
  }

  lemma {:induction false} RunKeeps(s: State, es: seq<Event>)
    requires Inv(s) && Possible(s, es)
    ensures Inv(Run(s, es))
    decreases |es|
  {
    hide Inv;
    hide Step;
    if es != [] {
      StepKeeps(s, es[0]);
      RunKeeps(Step(s, es[0]), es[1..]);
    }
  }

  lemma Reached(capacity: nat, es: seq<Event>)
    requires Possible(Init(capacity), es)
    ensures Inv(Run(Init(capacity), es))
  {
    assert Inv(Init(capacity));
    RunKeeps(Init(capacity), es);
  }

  /** In every interleaving: at most one thread drains, tasks begin in push order, and a task begins only when
      every earlier one is done. */
  lemma OneAtATimeInOrder(capacity: nat, es: seq<Event>)
    requires Possible(Init(capacity), es)
    ensures var s := Run(Init(capacity), es);
            && (forall t, u :: s.At(t).InDrain() && s.At(u).InDrain() ==> t == u)
            && s.sh.begun <= s.sh.pushed && s.sh.pushed[|s.sh.begun|..] == s.sh.queue
            && s.sh.done <= s.sh.begun && |s.sh.begun| <= |s.sh.done| + 1
  {
    Reached(capacity, es);
  }

  /** Until a hand-over is lost, a waiting task always has a drain, or a thread on its way to schedule one. */
  lemma NoneStranded(capacity: nat, es: seq<Event>)
    requires Possible(Init(capacity), es) && !Run(Init(capacity), es).sh.dropped
    ensures var s := Run(Init(capacity), es);
            s.sh.queue != [] && !s.sh.stopped ==>
              s.sh.pooled > 0 || exists t :: s.At(t).Owns() || s.At(t).OnTheWay()
  {
    Reached(capacity, es);
    var s := Run(Init(capacity), es);
    if s.sh.queue != [] && !s.sh.stopped && s.sh.pooled == 0 {
      if s.sh.running {
        var t :| s.At(t).Owns();
        assert s.At(t).Owns() || s.At(t).OnTheWay();
      } else {
        var t :| s.At(t).OnTheWay();
        assert s.At(t).Owns() || s.At(t).OnTheWay();
      }
    }
  }

  /** Once every thread is idle and the pool is empty, every task ever accepted has run. */
  lemma QuietMeansDone(capacity: nat, es: seq<Event>)
    requires Possible(Init(capacity), es)
    ensures var s := Run(Init(capacity), es);
            !s.sh.dropped && !s.sh.stopped && s.sh.pooled == 0 && (forall t :: s.At(t).Idle?) ==>
              s.sh.done == s.sh.pushed
  {
    Reached(capacity, es);
    var s := Run(Init(capacity), es);
    if !s.sh.dropped && !s.sh.stopped && s.sh.pooled == 0 && forall t :: s.At(t).Idle? {
      assert forall t :: !s.At(t).Owns() && !s.At(t).Busy? && !s.At(t).OnTheWay();
      assert s.sh.queue == [];
      assert s.sh.begun + [] == s.sh.begun;
    }
  }

  /** The step loses a hand-over: with tasks waiting, the owner whose drain was refused clears the flag, or
      start() stores over a stop() that made the last drain leave. */
  predicate Loses(s: State, e: Event) {
    && e.what.Continue? && s.sh.queue != []
    && (s.At(e.t).Refused? || (s.At(e.t).Starting? && s.sh.stopped && !s.sh.running))
  }

  /** The step takes the flag to hand over a drain. */
  predicate Takes(s: State, e: Event) {
    e.what.Continue? && s.At(e.t).Scheduling? && !s.sh.running
  }

  /** Some step of the run lost a hand-over and no later one took the flag. */
  predicate LostLast(s: State, es: seq<Event>, lost: bool)
    requires Possible(s, es)
    decreases |es|
  {
    if es == [] then lost
    else
      LostLast(Step(s, es[0]), es[1..], if Loses(s, es[0]) then true else if Takes(s, es[0]) then false else lost)
  }

  lemma ActLoses(s: State, e: Event)
    requires Enabled(s, e) && (s.sh.dropped ==> s.sh.queue != [] && !s.sh.running)
    requires s.At(e.t).Owns() ==> s.sh.running
    ensures Step(s, e).sh.dropped == if Loses(s, e) then true else if Takes(s, e) then false else s.sh.dropped
  {
    StepIs(s, e);
    hide Step;
  }

  lemma {:induction false} DroppedIsLost(s: State, es: seq<Event>)
    requires Inv(s) && Possible(s, es)
    ensures Run(s, es).sh.dropped == LostLast(s, es, s.sh.dropped)
    decreases |es|
  {
    if es != [] {
      ActLoses(s, es[0]);
      StepKeeps(s, es[0]);
      hide Inv;
      hide Step;
      hide Loses;
      hide Takes;
      DroppedIsLost(Step(s, es[0]), es[1..]);
    }
  }

  /** Main result: exactly when a task is stranded. In every interleaving, tasks wait in an executor that is not
      stopped with no drain and nobody on the way to schedule one if and only if a hand-over was lost since the
      flag was last taken and nobody is on the way. */
  lemma StrandedExactly(capacity: nat, es: seq<Event>)
    requires Possible(Init(capacity), es)
    ensures var s := Run(Init(capacity), es);
            Stranded(s) <==> LostLast(Init(capacity), es, false) && !s.sh.stopped && forall t :: !s.At(t).OnTheWay()
  {
    Reached(capacity, es);
    assert Inv(Init(capacity));
    DroppedIsLost(Init(capacity), es);
  }

  /** Once every thread is idle and the pool is empty, an executor that is not stopped has run every task it ever
      accepted if and only if no hand-over was lost since the flag was last taken. */
  lemma QuietExactly(capacity: nat, es: seq<Event>)
    requires Possible(Init(capacity), es)
    ensures var s := Run(Init(capacity), es);
            !s.sh.stopped && s.sh.pooled == 0 && (forall t :: s.At(t).Idle?) ==>
              && (s.sh.queue == [] <==> !LostLast(Init(capacity), es, false))
              && (s.sh.done == s.sh.pushed <==> !LostLast(Init(capacity), es, false))
  {
    Reached(capacity, es);
    QuietMeansDone(capacity, es);
    assert Inv(Init(capacity));
    DroppedIsLost(Init(capacity), es);
    var s := Run(Init(capacity), es);
    if !s.sh.stopped && s.sh.pooled == 0 && forall t :: s.At(t).Idle? {
      assert forall t :: !s.At(t).Busy? && !s.At(t).OnTheWay() && !s.At(t).Owns();
      assert s.sh.begun == s.sh.done;
    }
  }

  /** The pool accepts every drain, and no start() stores over a stop(). */
  predicate Smooth(s: State, es: seq<Event>)
    requires Possible(s, es)
    decreases |es|
  {
    es == [] ||
    (!es[0].what.PoolRefuses? && !(es[0].what.Continue? && s.At(es[0].t).Starting? && s.sh.stopped)
     && Smooth(Step(s, es[0]), es[1..]))
  }

  lemma ActRefused(sh: Shared, pc: Pc, what: What)
    requires Can(sh, pc, what) && !what.PoolRefuses?
    ensures !Act(sh, pc, what).1.Refused?
  {
  }

  lemma {:induction false} SmoothLosesNothing(s: State, es: seq<Event>)
    requires Possible(s, es) && Smooth(s, es) && forall t :: !s.At(t).Refused?
    ensures !LostLast(s, es, false)
    decreases |es|
  {
    if es != [] {
      var r := Step(s, es[0]);
      StepIs(s, es[0]);
      ActRefused(s.sh, s.At(es[0].t), es[0].what);
      hide Step;
      hide Act;
      hide Can;
      forall t ensures !r.At(t).Refused? {
        assert t == es[0].t || r.At(t) == s.At(t);
      }
      SmoothLosesNothing(r, es[1..]);
    }
  }

  /** If the pool accepts every drain and no start() stores over a stop(), no accepted task is stranded in any
      interleaving, and a quiet executor that is not stopped has run them all. */
  lemma SmoothStrandsNothing(capacity: nat, es: seq<Event>)
    requires Possible(Init(capacity), es) && Smooth(Init(capacity), es)
    ensures !Stranded(Run(Init(capacity), es))
    ensures var s := Run(Init(capacity), es);
            !s.sh.stopped && s.sh.pooled == 0 && (forall t :: s.At(t).Idle?) ==> s.sh.done == s.sh.pushed
  {
    SmoothLosesNothing(Init(capacity), es);
    StrandedExactly(capacity, es);
    QuietExactly(capacity, es);
  }

  // ----- the two ways to lose a hand-over -----

  lemma {:induction false} RunOne(s: State, es: seq<Event>, e: Event)
    requires Possible(s, es) && Enabled(Run(s, es), e)
    ensures Possible(s, es + [e]) && Run(s, es + [e]) == Step(Run(s, es), e)
    decreases |es|
  {
    hide Enabled;
    hide Step;
    if es == [] {
      assert es + [e] == [e];
      assert Possible(Step(s, e), []);
    } else {
      assert (es + [e])[1..] == es[1..] + [e];
      RunOne(Step(s, es[0]), es[1..], e);
    }
  }

  predicate Accepting(es: seq<Event>) {
    forall i :: 0 <= i < |es| ==> !es[i].what.PoolRefuses?
  }

  lemma Nothing()
    ensures Possible(Init(0), []) && Run(Init(0), []) == Init(0) && Accepting([])
  {
  }

  lemma Extend(es: seq<Event>, t: Tid, what: What) returns (longer: seq<Event>, r: State)
    requires Possible(Init(0), es) && Can(Run(Init(0), es).sh, Run(Init(0), es).At(t), what)
    ensures Possible(Init(0), longer) && r == Run(Init(0), longer)
    ensures var s := Run(Init(0), es);
            (r.sh, r.At(t)) == Act(s.sh, s.At(t), what) && Moved(s, r, t)
    ensures Accepting(es) && !what.PoolRefuses? ==> Accepting(longer)
  {
    RunOne(Init(0), es, Event(t, what));
    longer := es + [Event(t, what)];
    r := Run(Init(0), longer);
    StepIs(Run(Init(0), es), Event(t, what));
  }

  /** When the pool refuses a drain, a submitted item can stay in the queue with nobody on the way. */
  lemma RefusalStrands(x: Task)
    ensures exists es :: Possible(Init(0), es) && Stranded(Run(Init(0), es))
  {
    hide Run;
    hide Possible;
    Nothing();
    var es, s := Extend([], 0, CallStart);
    es, s := Extend(es, 0, Continue);
    es, s := Extend(es, 0, CallSubmit(x));
    es, s := Extend(es, 0, Continue);
    es, s := Extend(es, 0, Continue);
    es, s := Extend(es, 0, Continue);
    es, s := Extend(es, 0, PoolRefuses);
    es, s := Extend(es, 0, Continue);
    assert Stranded(s);
  }

  /** When stop() falls between the two steps of start(), a task can stay in the queue of an executor that says
      it is not stopped, although the pool accepted every drain. */
  lemma RestartStrands(x: Task, y: Task)
    ensures exists es :: Possible(Init(0), es) && Accepting(es) && Stranded(Run(Init(0), es))
  {
    hide Run;
    hide Possible;
    hide Accepting;
    var es, s := SecondWaits(x, y);
    es, s := Extend(es, 3, CallStop);
    es, s := Extend(es, 2, Continue);
    es, s := Extend(es, 2, Continue);
    es, s := Extend(es, 2, Continue);
    assert s.At(2).Idle? && !s.sh.running && s.sh.stopped;
    es, s := Extend(es, 0, Continue);
    assert Stranded(s);
  }

  /** A second task is pushed before thread 2 clears the flag, so its submitter schedules nothing. */
  lemma SecondWaits(x: Task, y: Task) returns (es: seq<Event>, s: State)
    ensures Possible(Init(0), es) && Accepting(es) && s == Run(Init(0), es)
    ensures s.At(0).Starting? && s.At(2).Emptied? && s.sh.running && !s.sh.stopped && s.sh.queue == [y]
    ensures forall t :: t != 0 && t != 2 ==> s.At(t).Idle?
  {
    hide Run;
    hide Possible;
    hide Accepting;
    es, s := DrainedOnce(x);
    es, s := Extend(es, 1, CallSubmit(y));
    es, s := Extend(es, 1, Continue);
    es, s := Extend(es, 1, Continue);
    es, s := Extend(es, 1, Continue);
  }

  /** Thread 0 is inside start(); thread 2 has drained the one task and found the queue empty. */
  lemma DrainedOnce(x: Task) returns (es: seq<Event>, s: State)
    ensures Possible(Init(0), es) && Accepting(es) && s == Run(Init(0), es)
    ensures s.At(0).Starting? && s.At(2).Emptied? && s.sh.running && s.sh.started && !s.sh.stopped
    ensures s.sh.queue == [] && !s.sh.queueStopped && s.sh.capacity == 0 && s.sh.pooled == 0
    ensures forall t :: t != 0 && t != 2 ==> s.At(t).Idle?
  {
    hide Run;
    hide Possible;
    hide Accepting;
    Nothing();
    es, s := Extend([], 0, CallStart);
    es, s := Extend(es, 1, CallSubmit(x));
    es, s := Extend(es, 1, Continue);
    es, s := Extend(es, 1, Continue);
    es, s := Extend(es, 1, Continue);
    es, s := Extend(es, 1, Continue);
    assert s.At(1).Idle? && s.sh.pooled == 1 && s.sh.queue == [x];
    es, s := Extend(es, 2, PoolRuns);
    es, s := Extend(es, 2, Continue);
    es, s := Extend(es, 2, Continue);
    es, s := Extend(es, 2, Continue);
  }
}
