/** The asynchronous logger: producers number their items, then put them on a shared queue; one worker writes
    them batch by batch and publishes the number of the item it dealt with last. Every locked region and every
    atomic access is one step; steps interleave freely. */
module AsyncLogger {

  type Tid = nat

  datatype Item = Item(number: nat, flushOnly: bool)

  datatype Pc =
    | Idle
    | Numbering(flushOnly: bool)          // about to take a sequence number
    | Holding(item: Item, mark: nat)      // numbered when `mark` items had been enqueued
    | Waiting(target: nat, since: nat)    // flush() waits for its number

  datatype Worker = Resting | Writing | Publishing | Exited

  /** `queued` records every item ever put on the queue, in order, and `handled` those the worker has written
      (or, for a flush item, flushed). */
  datatype Shared = Shared(
    capacity: nat, blocking: bool, queue: seq<Item>, last: nat, processed: nat, stopping: bool, dropped: nat,
    worker: Worker, batch: seq<Item>, queued: seq<Item>, handled: seq<Item>)

  datatype State = State(sh: Shared, pcs: map<Tid, Pc>) {
    function At(t: Tid): Pc {
      if t in pcs then pcs[t] else Idle
    }
  }

  function Init(capacity: nat, blocking: bool): State {
    State(Shared(if capacity == 0 then 8192 else capacity, blocking, [], 0, 0, false, 0, Resting, [], [], []), map[])
  }

  datatype Event = CallLog(t: Tid) | CallFlush(t: Tid) | Continue(t: Tid) | Stop | Work

  predicate Enabled(s: State, e: Event) {
    match e
    case CallLog(t) => s.At(t).Idle?
    case CallFlush(t) => s.At(t).Idle?
    case Continue(t) => CanContinue(s.sh, s.At(t))
    case Stop => true
    case Work => CanWork(s.sh)
  }

  predicate CanContinue(sh: Shared, pc: Pc) {
    match pc
    case Idle => false
    case Numbering(_) => true
    case Holding(item, _) =>
      sh.stopping || |sh.queue| < sh.capacity || (!sh.blocking && !item.flushOnly)
    case Waiting(target, _) => sh.processed >= target
  }

  predicate CanWork(sh: Shared) {
    match sh.worker
    case Resting => sh.stopping || sh.queue != []
    case Writing => sh.batch != []
    case Publishing => sh.batch != []
    case Exited => false
  }

  /** A step of log() or flush() after the first check. */
  function Proceed(sh: Shared, pc: Pc): (Shared, Pc)
    requires CanContinue(sh, pc)
  {
    match pc
    case Numbering(flushOnly) =>
      (sh.(last := sh.last + 1), Holding(Item(sh.last + 1, flushOnly), |sh.queued|))
    case Holding(item, mark) =>
      if sh.stopping then (sh, Idle)
      else if |sh.queue| >= sh.capacity then (sh.(dropped := sh.dropped + 1), Idle)
      else
        (sh.(queue := sh.queue + [item], queued := sh.queued + [item]),
         if item.flushOnly then Waiting(item.number, mark) else Idle)
    case Waiting(_, _) => (sh, Idle)
  }

  /** A step of the worker: take the whole queue or leave, deal with one item, publish its number. */
  function Working(sh: Shared): Shared
    requires CanWork(sh)
  {
    match sh.worker
    case Resting =>
      if sh.stopping && sh.queue == [] then sh.(worker := Exited)
      else sh.(batch := sh.queue, queue := [], worker := Writing)
    case Writing => sh.(handled := sh.handled + [sh.batch[0]], worker := Publishing)
    case Publishing =>
      sh.(processed := sh.batch[0].number, batch := sh.batch[1..],
          worker := if |sh.batch| == 1 then Resting else Writing)
  }

  function Step(s: State, e: Event): State
    requires Enabled(s, e)
  {
    match e
    case CallLog(t) => s.(pcs := s.pcs[t := Numbering(false)])
    case CallFlush(t) => if s.sh.stopping then s else s.(pcs := s.pcs[t := Numbering(true)])
    case Continue(t) => var (sh, pc) := Proceed(s.sh, s.At(t)); State(sh, s.pcs[t := pc])
    case Stop => s.(sh := s.sh.(stopping := true))
    case Work => s.(sh := Working(s.sh))
  }

  // ----- what every step keeps -----

  /** Items leave the queue in the order they entered, and none is lost on the way. */
  ghost predicate Fifo(sh: Shared) {
    && sh.queued == Published(sh) + sh.batch + sh.queue
    && (sh.worker.Publishing? ==> sh.batch != [] && sh.handled == Published(sh) + [sh.batch[0]])
    && (!sh.worker.Publishing? ==> sh.handled == Published(sh))
    && (sh.worker.Writing? <==> sh.batch != [] && !sh.worker.Publishing?)
    && (sh.worker.Exited? ==> sh.stopping && sh.queue == [])
    && sh.processed == if Published(sh) == [] then 0 else Published(sh)[|Published(sh)| - 1].number
  }

  /** The items whose numbers have been published. */
  function Published(sh: Shared): seq<Item> {
    if sh.worker.Publishing? && sh.handled != [] then sh.handled[..|sh.handled| - 1] else sh.handled
  }

  /** Numbers taken later are greater than every number already on the queue. */
  ghost predicate Later(sh: Shared, number: nat, mark: nat) {
    0 < number <= sh.last && mark <= |sh.queued| && forall i :: 0 <= i < mark ==> sh.queued[i].number < number
  }

  ghost predicate Numbered(sh: Shared) {
    forall i :: 0 <= i < |sh.queued| ==> sh.queued[i].number <= sh.last
  }

  ghost predicate Waits(sh: Shared, pc: Pc) {
    match pc
    case Holding(item, mark) => Later(sh, item.number, mark)
    case Waiting(target, mark) => Later(sh, target, mark)
    case _ => true
  }

  ghost predicate Inv(s: State) {
    Fifo(s.sh) && Numbered(s.sh) && (s.sh.blocking ==> s.sh.dropped == 0) && forall t :: Waits(s.sh, s.At(t))
  }

  ghost predicate Grows(sh: Shared, sh': Shared) {
    sh.queued <= sh'.queued && sh.last <= sh'.last
  }

  lemma WaitsOn(sh: Shared, sh': Shared, pc: Pc)
    requires Waits(sh, pc) && Grows(sh, sh')
    ensures Waits(sh', pc)
  {
    if pc.Holding? || pc.Waiting? {
      var mark := if pc.Holding? then pc.mark else pc.since;
      assert forall i :: 0 <= i < mark ==> sh'.queued[i] == sh.queued[i];
    }
  }

  lemma TakeKeeps(sh: Shared)
    requires Fifo(sh) && CanWork(sh) && sh.worker.Resting?
    ensures Fifo(Working(sh))
  {
    assert Published(Working(sh)) == Published(sh) && sh.batch == [];
    assert Published(sh) + [] + sh.queue == Published(sh) + sh.queue + [];
  }

  lemma WriteKeeps(sh: Shared)
    requires Fifo(sh) && CanWork(sh) && sh.worker.Writing?
    ensures Fifo(Working(sh))
  {
    assert Published(Working(sh)) == Published(sh);
  }

  lemma PublishKeeps(sh: Shared)
    requires Fifo(sh) && CanWork(sh) && sh.worker.Publishing?
    ensures Fifo(Working(sh))
  {
    var p, r := Published(sh), Working(sh);
    assert Published(r) == sh.handled == p + [sh.batch[0]];
    assert p + sh.batch + sh.queue == (p + [sh.batch[0]]) + sh.batch[1..] + sh.queue;
    hide Published;
  }

  lemma WorkingKeeps(sh: Shared)
    requires Fifo(sh) && CanWork(sh)
    ensures Fifo(Working(sh)) && Grows(sh, Working(sh)) && Working(sh).queued == sh.queued
    ensures Working(sh).blocking == sh.blocking && Working(sh).dropped == sh.dropped
  {
    match sh.worker
    case Resting => TakeKeeps(sh);
    case Writing => WriteKeeps(sh);
    case Publishing => PublishKeeps(sh);
  }

  lemma ProceedKeeps(sh: Shared, pc: Pc)
    requires Fifo(sh) && Numbered(sh) && Waits(sh, pc) && CanContinue(sh, pc)
    ensures var (sh', pc') := Proceed(sh, pc);
            && Fifo(sh') && Numbered(sh') && Waits(sh', pc') && Grows(sh, sh')
            && sh'.blocking == sh.blocking && (sh.blocking ==> sh'.dropped == sh.dropped)
  {
    match pc
    case Holding(item, mark) =>
      QueuedFifo(sh, item);
      hide Fifo;
      hide Published;
    case _ =>
      NumberedFifo(sh);
      hide Fifo;
      hide Published;
  }

  lemma QueuedFifo(sh: Shared, item: Item)
    requires Fifo(sh)
    ensures !sh.stopping ==> Fifo(sh.(queue := sh.queue + [item], queued := sh.queued + [item]))
    ensures Fifo(sh.(dropped := sh.dropped + 1))
  {
    var p := Published(sh);
    assert Published(sh.(queue := sh.queue + [item], queued := sh.queued + [item])) == p;
    assert Published(sh.(dropped := sh.dropped + 1)) == p;
    assert p + sh.batch + (sh.queue + [item]) == p + sh.batch + sh.queue + [item];
    hide Published;
  }

  lemma NumberedFifo(sh: Shared)
    requires Fifo(sh)
    ensures Fifo(sh.(last := sh.last + 1))
  {
    assert Published(sh.(last := sh.last + 1)) == Published(sh);
    hide Published;
  }

  lemma StepKeeps(s: State, e: Event)
    requires Enabled(s, e) && Inv(s)
    ensures Inv(Step(s, e)) && Grows(s.sh, Step(s, e).sh) && Step(s, e).sh.blocking == s.sh.blocking
  {
    var r := Step(s, e);
    match e
    case Continue(t) =>
      ProceedKeeps(s.sh, s.At(t));
      hide Proceed;
      hide CanContinue;
      hide Fifo;
      hide Numbered;
      forall u ensures Waits(r.sh, r.At(u)) {
        if u != t {
          assert r.At(u) == s.At(u);
          WaitsOn(s.sh, r.sh, s.At(u));
        }
      }
    case Work =>
      WorkingKeeps(s.sh);
      hide Working;
      hide CanWork;
      hide Fifo;
      forall u ensures Waits(r.sh, r.At(u)) {
        WaitsOn(s.sh, r.sh, s.At(u));
      }
    case Stop =>
      assert Published(r.sh) == Published(s.sh);
      forall u ensures Waits(r.sh, r.At(u)) {
        WaitsOn(s.sh, r.sh, s.At(u));
      }
    case _ =>
      forall u ensures Waits(r.sh, r.At(u)) {
        assert u != e.t ==> r.At(u) == s.At(u);
      }
  }

  // ----- runs -----

  predicate Possible(s: State, es: seq<Event>)
    decreases |es|
  {
    es == [] || (Enabled(s, es[0]) && Possible(Step(s, es[0]), es[1..]))
  }

  function Run(s: State, es: seq<Event>): State
    requires Possible(s, es)
    decreases |es|
  {
    if es == [] then s else Run(Step(s, es[0]), es[1..])
  }

  lemma {:induction false} RunKeeps(s: State, es: seq<Event>)
    requires Inv(s) && Possible(s, es)
    ensures Inv(Run(s, es)) && Run(s, es).sh.blocking == s.sh.blocking
    decreases |es|
  {
    hide Inv;
    hide Step;
    if es != [] {
      StepKeeps(s, es[0]);
      RunKeeps(Step(s, es[0]), es[1..]);
    }
  }

  lemma Reached(capacity: nat, blocking: bool, es: seq<Event>)
    requires Possible(Init(capacity, blocking), es)
    ensures Inv(Run(Init(capacity, blocking), es)) && Run(Init(capacity, blocking), es).sh.blocking == blocking
  {
    RunKeeps(Init(capacity, blocking), es);
  }

  /** The flush barrier: in every interleaving, when flush() can return from its wait, the worker has dealt
      with every item that was on the queue before that flush took its number. */
  lemma FlushBarrier(capacity: nat, blocking: bool, es: seq<Event>, t: Tid)
    requires Possible(Init(capacity, blocking), es)
    ensures var s := Run(Init(capacity, blocking), es);
            s.At(t).Waiting? && Enabled(s, Continue(t)) ==>
              s.At(t).since <= |s.sh.queued| && s.sh.queued[..s.At(t).since] <= s.sh.handled
  {
    Reached(capacity, blocking, es);
    var s := Run(Init(capacity, blocking), es);
    if s.At(t).Waiting? && s.sh.processed >= s.At(t).target {
      assert Waits(s.sh, s.At(t));
      BarrierHolds(s.sh, s.At(t).target, s.At(t).since);
    }
  }

  lemma BarrierHolds(sh: Shared, target: nat, mark: nat)
    requires Fifo(sh) && Later(sh, target, mark) && sh.processed >= target
    ensures sh.queued[..mark] <= sh.handled
  {
    var p := Published(sh);
    assert p != [];
    assert sh.queued[|p| - 1] == p[|p| - 1];
    assert mark <= |p| - 1;
    assert sh.queued[..|p|] == p;
    assert p <= sh.handled;
    assert sh.queued[..mark] == p[..mark];
  }

  /** Items are dealt with in the order they were queued, a worker that has left has dealt with all, and with the
      blocking policy no record is dropped. */
  lemma NothingLost(capacity: nat, blocking: bool, es: seq<Event>)
    requires Possible(Init(capacity, blocking), es)
    ensures var sh := Run(Init(capacity, blocking), es).sh;
            && sh.handled <= sh.queued && (sh.worker.Exited? ==> sh.handled == sh.queued)
            && (blocking ==> sh.dropped == 0)
  {
    Reached(capacity, blocking, es);
    var sh := Run(Init(capacity, blocking), es).sh;
    assert sh.worker.Publishing? ==> sh.handled + sh.batch[1..] + sh.queue == Published(sh) + sh.batch + sh.queue;
  }

  // ----- what becomes of an item -----

  /** On the queue, dropped because the queue is full, or turned away by a stop. */
  datatype Fate = Queued | Dropped | Stopped

  function FateOf(sh: Shared): Fate {
    if sh.stopping then Stopped else if |sh.queue| < sh.capacity then Queued else Dropped
  }

  /** Every call of log() goes on to take a number, and a flush() does unless the logger is stopping; the number is one
      more than the last one taken. */
  lemma CallsExactly(s: State, t: Tid)
    ensures s.At(t).Idle? ==>
              && Step(s, CallLog(t)).At(t) == Numbering(false) && Step(s, CallLog(t)).sh == s.sh
              && Step(s, CallFlush(t)).At(t) == (if s.sh.stopping then Idle else Numbering(true))
              && Step(s, CallFlush(t)).sh == s.sh
    ensures s.At(t).Numbering? ==>
              && Enabled(s, Continue(t))
              && var r := Step(s, Continue(t));
                 && r.sh == s.sh.(last := s.sh.last + 1)
                 && r.At(t) == Holding(Item(r.sh.last, s.At(t).flushOnly), |s.sh.queued|)
  {
  }

  /** The step of a thread that holds an item. It waits exactly while the queue is full, the logger is not stopping,
      and the policy is to block or the item is a flush. Otherwise the item is queued, at the end, exactly if there
      is room and no stop, and dropped exactly if there is neither; a queued flush then waits for its number. */
  lemma HoldingExactly(s: State, t: Tid)
    requires s.At(t).Holding?
    ensures !Enabled(s, Continue(t)) <==>
              FateOf(s.sh).Dropped? && (s.sh.blocking || s.At(t).item.flushOnly)
    ensures Enabled(s, Continue(t)) ==>
              var r, item, fate := Step(s, Continue(t)), s.At(t).item, FateOf(s.sh);
              && r.sh.queue == s.sh.queue + (if fate.Queued? then [item] else [])
              && r.sh.queued == s.sh.queued + (if fate.Queued? then [item] else [])
              && r.sh.dropped == s.sh.dropped + (if fate.Dropped? then 1 else 0)
              && (r.At(t).Waiting? <==> fate.Queued? && item.flushOnly) && (r.At(t).Waiting? || r.At(t).Idle?)
              && (r.At(t).Waiting? ==> r.At(t).target == item.number)
  {
  }

  /** No other step queues or drops anything. */
  lemma OthersQueueNothing(s: State, e: Event)
    requires Enabled(s, e) && !(e.Continue? && s.At(e.t).Holding?)
    ensures var r := Step(s, e);
            && r.sh.queued == s.sh.queued && r.sh.dropped == s.sh.dropped && r.sh.capacity == s.sh.capacity
            && (r.sh.stopping <==> s.sh.stopping || e.Stop?)
  {
  }

  /** Every item that was let go of in a run, in order, with what became of it. */
  function LetGo(s: State, es: seq<Event>): seq<(Item, Fate)>
    requires Possible(s, es)
    decreases |es|
  {
    if es == [] then []
    else
      (if es[0].Continue? && s.At(es[0].t).Holding? then [(s.At(es[0].t).item, FateOf(s.sh))] else [])
      + LetGo(Step(s, es[0]), es[1..])
  }

  function WithFate(l: seq<(Item, Fate)>, fate: Fate): seq<Item> {
    if l == [] then [] else (if l[0].1 == fate then [l[0].0] else []) + WithFate(l[1..], fate)
  }

  lemma WithFateOne(item: Item, fate: Fate, l: seq<(Item, Fate)>, f: Fate)
    ensures WithFate([(item, fate)] + l, f) == (if fate == f then [item] else []) + WithFate(l, f)
  {
    assert ([(item, fate)] + l)[1..] == l;
  }

  /** Over every run, every item let go of is accounted for: those that met room are on the queue, in order, those
      that met a full queue are counted as dropped, and the others met a stop. */
  lemma {:induction false} Accounted(s: State, es: seq<Event>)
    requires Possible(s, es)
    ensures Run(s, es).sh.queued == s.sh.queued + WithFate(LetGo(s, es), Queued)
    ensures Run(s, es).sh.dropped == s.sh.dropped + |WithFate(LetGo(s, es), Dropped)|
    ensures |LetGo(s, es)| ==
              |WithFate(LetGo(s, es), Queued)| + |WithFate(LetGo(s, es), Dropped)| + |WithFate(LetGo(s, es), Stopped)|
    decreases |es|
  {
    if es == [] {
      assert s.sh.queued + [] == s.sh.queued;
    } else {
      var r, rest := Step(s, es[0]), es[1..];
      Accounted(r, rest);
      var more := LetGo(r, rest);
      if es[0].Continue? && s.At(es[0].t).Holding? {
        var item, fate := s.At(es[0].t).item, FateOf(s.sh);
        HoldingExactly(s, es[0].t);
        WithFateOne(item, fate, more, Queued);
        WithFateOne(item, fate, more, Dropped);
        WithFateOne(item, fate, more, Stopped);
        hide Step;
        hide WithFate;
        hide FateOf;
        assert LetGo(s, es) == [(item, fate)] + more;
      } else {
        OthersQueueNothing(s, es[0]);
        hide Step;
        hide WithFate;
        assert LetGo(s, es) == [] + more == more;
      }
    }
  }

  /** The worker, when it rests, takes everything that waits, and leaves exactly when it is told to stop and nothing
      waits; one at a time it deals with what it took, and publishes each number after dealing with its item. */
  lemma WorksExactly(sh: Shared)
    requires Fifo(sh)
    ensures CanWork(sh) <==> !sh.worker.Exited? && (sh.worker.Resting? ==> sh.stopping || sh.queue != [])
    ensures CanWork(sh) ==>
              var r := Working(sh);
              && (r.worker.Exited? <==> sh.worker.Resting? && sh.stopping && sh.queue == [])
              && (sh.worker.Resting? && sh.queue != [] ==> r.batch == sh.queue && r.queue == [])
              && r.handled == sh.handled + (if sh.worker.Writing? then [sh.batch[0]] else [])
              && r.processed == (if sh.worker.Publishing? then sh.handled[|sh.handled| - 1].number else sh.processed)
  {
  }

  // ----- what the barrier is not -----

  lemma {:induction false} RunOne(s: State, es: seq<Event>, e: Event)
    requires Possible(s, es) && Enabled(Run(s, es), e)
    ensures Possible(s, es + [e]) && Run(s, es + [e]) == Step(Run(s, es), e)
    decreases |es|
  {
    hide Enabled;
    hide Step;
    if es == [] {
      assert es + [e] == [e];
      assert Possible(Step(s, e), []);
    } else {
      assert (es + [e])[1..] == es[1..] + [e];
      RunOne(Step(s, es[0]), es[1..], e);
    }
  }

  lemma Extend(es: seq<Event>, e: Event) returns (longer: seq<Event>, r: State)
    requires Possible(Init(0, true), es) && Enabled(Run(Init(0, true), es), e)
    ensures Possible(Init(0, true), longer) && r == Run(Init(0, true), longer) == Step(Run(Init(0, true), es), e)
  {
    RunOne(Init(0, true), es, e);
    longer := es + [e];
    r := Run(Init(0, true), longer);
  }

  /** Numbers can enter the queue out of order, and flush() can return before the worker reaches the flush item
      it put there: a greater number was ahead of it. */
  lemma ReturnsBeforeItsOwnFlush()
    ensures exists es ::
              && Possible(Init(0, true), es)
              && var s := Run(Init(0, true), es);
                 s.At(0).Waiting? && Enabled(s, Continue(0)) && Item(s.At(0).target, true) !in s.sh.handled
  {
    hide Run;
    hide Possible;
    var es, s := OutOfOrder();
    es, s := Extend(es, Work);
    es, s := Extend(es, Work);
    es, s := Extend(es, Work);
    assert s.sh.handled == [Item(2, false)] && s.sh.processed == 2;
  }

  lemma OutOfOrder() returns (es: seq<Event>, s: State)
    ensures Possible(Init(0, true), es) && s == Run(Init(0, true), es)
    ensures s.sh.queue == [Item(2, false), Item(1, true)] && s.At(0) == Waiting(1, 0)
    ensures s.sh.worker.Resting? && s.sh.handled == []
  {
    hide Run;
    hide Possible;
    Nothing();
    es, s := Extend([], CallFlush(0));
    es, s := Extend(es, Continue(0));
    es, s := Extend(es, CallLog(1));
    es, s := Extend(es, Continue(1));
    es, s := Extend(es, Continue(1));
    es, s := Extend(es, Continue(0));
  }

  lemma Nothing()
    ensures Possible(Init(0, true), []) && Run(Init(0, true), []) == Init(0, true)
  {
  }
}
