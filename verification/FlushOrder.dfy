/** When a flush of the asynchronous logger waits for its own flush item, and when it can return before it. */
module FlushOrder {
  import opened AsyncLogger

  // ----- numbers are given out once -----

  ghost predicate DistinctNumbers(queued: seq<Item>) {
    forall i, j :: 0 <= i < j < |queued| ==> queued[i].number != queued[j].number
  }

  predicate Lacks(queued: seq<Item>, number: nat) {
    forall i :: 0 <= i < |queued| ==> queued[i].number != number
  }

  ghost predicate Has(queued: seq<Item>, item: Item) {
    exists pos :: 0 <= pos < |queued| && queued[pos] == item
  }

  /** A number is on the queue once, or with the one thread that took it; a waiting flush has queued its item. */
  ghost predicate Once(s: State) {
    && DistinctNumbers(s.sh.queued)
    && (forall t :: s.At(t).Holding? ==> Lacks(s.sh.queued, s.At(t).item.number))
    && (forall t, u :: s.At(t).Holding? && s.At(u).Holding? && s.At(t).item.number == s.At(u).item.number ==> t == u)
    && (forall t :: s.At(t).Waiting? ==> Has(s.sh.queued, Item(s.At(t).target, true)))
  }

  lemma HasOn(queued: seq<Item>, more: seq<Item>, item: Item)
    requires Has(queued, item)
    ensures Has(queued + more, item)
  {
    var pos :| 0 <= pos < |queued| && queued[pos] == item;
    assert (queued + more)[pos] == item;
  }

  lemma QueueOnce(s: State, r: State, t: Tid, item: Item)
    requires Once(s) && s.At(t).Holding? && s.At(t).item == item && r.sh.queued == s.sh.queued + [item]
    requires forall u :: u != t ==> r.At(u) == s.At(u)
    requires !r.At(t).Holding? && (r.At(t).Waiting? ==> Item(r.At(t).target, true) == item)
    ensures Once(r)
  {
    var q := r.sh.queued;
    assert q[|s.sh.queued|] == item;
    forall u | r.At(u).Waiting? ensures Has(q, Item(r.At(u).target, true)) {
      if u != t {
        HasOn(s.sh.queued, [item], Item(r.At(u).target, true));
      }
    }
  }

  lemma NumberOnce(s: State, r: State, t: Tid)
    requires Inv(s) && Once(s) && r.sh.queued == s.sh.queued && (forall u :: u != t ==> r.At(u) == s.At(u))
    requires r.At(t).Holding? && r.At(t).item.number == s.sh.last + 1
    ensures Once(r)
  {
    forall u | u != t && r.At(u).Holding? ensures r.At(u).item.number <= s.sh.last {
      assert Waits(s.sh, s.At(u));
    }
  }

  lemma OnceSame(s: State, r: State, t: Tid)
    requires Once(s) && r.sh.queued == s.sh.queued && (forall u :: u != t ==> r.At(u) == s.At(u))
    requires r.At(t) == s.At(t) || (!r.At(t).Holding? && !r.At(t).Waiting?)
    ensures Once(r)
  {
    forall u | r.At(u).Holding? || r.At(u).Waiting? ensures r.At(u) == s.At(u) {
    }
  }

  lemma OnceKeeps(s: State, e: Event)
    requires Enabled(s, e) && Inv(s) && Once(s)
    ensures Once(Step(s, e))
  {
    var r := Step(s, e);
    hide Once;
    match e
    case Continue(t) =>
      assert forall u :: u != t ==> r.At(u) == s.At(u);
      match s.At(t) {
        case Numbering(_) => NumberOnce(s, r, t);
        case Holding(item, _) =>
          hide Inv;
          if r.sh.queued != s.sh.queued {
            QueueOnce(s, r, t, item);
          } else {
            OnceSame(s, r, t);
          }
        case Waiting(_, _) =>
          hide Inv;
          OnceSame(s, r, t);
      }
    case Work =>
      WorkingKeeps(s.sh);
      OnceSame(s, r, 0);
    case Stop =>
      hide Inv;
      OnceSame(s, r, 0);
    case _ =>
      hide Inv;
      assert forall u :: u != e.t ==> r.At(u) == s.At(u);
      OnceSame(s, r, e.t);
  }

  lemma {:induction false} RunOnce(s: State, es: seq<Event>)
    requires Inv(s) && Once(s) && Possible(s, es)
    ensures Inv(Run(s, es)) && Once(Run(s, es))
    decreases |es|
  {
    hide Inv;
    hide Once;
    hide Step;
    if es != [] {
      StepKeeps(s, es[0]);
      OnceKeeps(s, es[0]);
      RunOnce(Step(s, es[0]), es[1..]);
    }
  }

  // ----- what grows -----

  ghost predicate Further(s: State, r: State) {
    && s.sh.queued <= r.sh.queued
    && |Published(s.sh)| <= |Published(r.sh)| && |s.sh.handled| <= |r.sh.handled|
  }

  lemma StepFurther(s: State, e: Event)
    requires Enabled(s, e) && Inv(s)
    ensures Further(s, Step(s, e))
  {
    StepKeeps(s, e);
  }

  lemma {:induction false} RunFurther(s: State, es: seq<Event>)
    requires Inv(s) && Possible(s, es)
    ensures Further(s, Run(s, es))
    decreases |es|
  {
    hide Inv;
    hide Step;
    if es != [] {
      StepKeeps(s, es[0]);
      StepFurther(s, es[0]);
      RunFurther(Step(s, es[0]), es[1..]);
    }
  }

  lemma HandledAre(sh: Shared)
    requires Fifo(sh)
    ensures |sh.handled| <= |sh.queued| && sh.handled == sh.queued[..|sh.handled|]
    ensures |Published(sh)| <= |sh.handled| && Published(sh) == sh.queued[..|Published(sh)|]
  {
    assert sh.worker.Publishing? ==> sh.handled + sh.batch[1..] + sh.queue == Published(sh) + sh.batch + sh.queue;
  }

  lemma InHandled(sh: Shared, pos: nat)
    requires Fifo(sh) && pos < |sh.queued|
    ensures pos < |sh.handled| ==> sh.queued[pos] in sh.handled
  {
    HandledAre(sh);
    assert pos < |sh.handled| ==> sh.handled[pos] == sh.queued[pos];
  }

  /** The number on show is that of the last item published. */
  lemma OnShow(sh: Shared, target: nat)
    requires Fifo(sh) && target > 0
    ensures sh.processed >= target <==>
              Published(sh) != [] && |Published(sh)| <= |sh.queued| && sh.queued[|Published(sh)| - 1].number >= target
  {
    HandledAre(sh);
  }

  // ----- waiting for one's own item -----

  /** Thread `t` waits in flush(), and its own item is at this place of the queue. */
  ghost predicate OwnAt(s: State, t: Tid, pos: nat) {
    s.At(t).Waiting? && pos < |s.sh.queued| && s.sh.queued[pos] == Item(s.At(t).target, true)
  }

  /** In every reachable state a waiting flush has its item on the queue, at one place. */
  lemma OwnExists(capacity: nat, blocking: bool, es: seq<Event>, t: Tid) returns (pos: nat)
    requires Possible(Init(capacity, blocking), es) && Run(Init(capacity, blocking), es).At(t).Waiting?
    ensures OwnAt(Run(Init(capacity, blocking), es), t, pos)
    ensures forall p :: OwnAt(Run(Init(capacity, blocking), es), t, p) ==> p == pos
  {
    ReachedOnce(capacity, blocking, es);
    var s := Run(Init(capacity, blocking), es);
    pos :| 0 <= pos < |s.sh.queued| && s.sh.queued[pos] == Item(s.At(t).target, true);
  }

  lemma ReachedOnce(capacity: nat, blocking: bool, es: seq<Event>)
    requires Possible(Init(capacity, blocking), es)
    ensures Inv(Run(Init(capacity, blocking), es)) && Once(Run(Init(capacity, blocking), es))
  {
    RunOnce(Init(capacity, blocking), es);
  }

  /** If no greater number is ahead of it, flush() returns only after its own item was dealt with. */
  lemma WaitsForItsOwn(capacity: nat, blocking: bool, es: seq<Event>, t: Tid, pos: nat)
    requires Possible(Init(capacity, blocking), es)
    ensures var s := Run(Init(capacity, blocking), es);
            && OwnAt(s, t, pos) && Enabled(s, Continue(t))
            && (forall i :: 0 <= i < pos ==> s.sh.queued[i].number <= s.At(t).target)
            ==> Item(s.At(t).target, true) in s.sh.handled
  {
    ReachedOnce(capacity, blocking, es);
    var s := Run(Init(capacity, blocking), es);
    if OwnAt(s, t, pos) && Enabled(s, Continue(t))
       && forall i :: 0 <= i < pos ==> s.sh.queued[i].number <= s.At(t).target {
      assert Waits(s.sh, s.At(t));
      OnShow(s.sh, s.At(t).target);
      HandledAre(s.sh);
      assert pos < |Published(s.sh)|;
      assert s.sh.handled[pos] == s.sh.queued[pos];
    }
  }

  // ----- returning before it -----

  /** The worker alone gets to having published exactly the first `n` items, and no more written. */
  lemma {:induction false} WorkTo(s: State, n: nat) returns (es: seq<Event>)
    requires Inv(s) && |Published(s.sh)| <= n <= |s.sh.queued| && (s.sh.worker.Publishing? ==> |Published(s.sh)| < n)
    ensures Possible(s, es) && (forall i :: 0 <= i < |es| ==> es[i].Work?)
    ensures var r := Run(s, es);
            r.pcs == s.pcs && r.sh.queued == s.sh.queued && |Published(r.sh)| == n && r.sh.handled == Published(r.sh)
    decreases n - |Published(s.sh)|, match s.sh.worker case Resting => 2 case Writing => 1 case _ => 0
  {
    if n == |Published(s.sh)| {
      es := [];
    } else {
      CanGoOn(s.sh);
      WorkCounts(s.sh);
      StepKeeps(s, Work);
      WorkingKeeps(s.sh);
      var rest := WorkTo(Step(s, Work), n);
      es := [Work] + rest;
      assert es[1..] == rest;
    }
  }

  lemma CanGoOn(sh: Shared)
    requires Fifo(sh) && |Published(sh)| < |sh.queued|
    ensures CanWork(sh) && !(sh.worker.Resting? && sh.queue == [])
  {
  }

  lemma WorkCounts(sh: Shared)
    requires Fifo(sh) && CanWork(sh) && !(sh.worker.Resting? && sh.queue == [])
    ensures var r := Working(sh);
            && |Published(r)| == |Published(sh)| + (if sh.worker.Publishing? then 1 else 0)
            && (sh.worker.Resting? ==> r.worker.Writing?) && (sh.worker.Writing? ==> r.worker.Publishing?)
            && (sh.worker.Publishing? ==> !r.worker.Publishing?)
  {
    WorkingKeeps(sh);
  }

  /** After this run the flush can return although its own item has not been dealt with. */
  ghost predicate EarlyAfter(s: State, t: Tid, es: seq<Event>) {
    && Possible(s, es) && s.At(t).Waiting?
    && var r := Run(s, es);
       r.At(t) == s.At(t) && Enabled(r, Continue(t)) && Item(s.At(t).target, true) !in r.sh.handled
  }

  /** A greater number is ahead of the flush's own item, and the worker has not gone past it. */
  ghost predicate Overtaken(s: State, t: Tid, pos: nat)
    requires OwnAt(s, t, pos)
  {
    && |s.sh.handled| <= pos
    && exists i :: 0 <= i < pos && |Published(s.sh)| - 1 <= i && s.sh.queued[i].number > s.At(t).target
  }

  lemma EarlyMeansOvertaken(s: State, t: Tid, pos: nat, es: seq<Event>)
    requires Inv(s) && Once(s) && OwnAt(s, t, pos) && EarlyAfter(s, t, es)
    ensures Overtaken(s, t, pos)
  {
    RunOnce(s, es);
    RunFurther(s, es);
    var r, target := Run(s, es), s.At(t).target;
    assert Waits(r.sh, r.At(t));
    OnShow(r.sh, target);
    HandledAre(r.sh);
    HandledAre(s.sh);
    assert r.sh.queued[pos] == s.sh.queued[pos];
    InHandled(r.sh, pos);
    var i := |Published(r.sh)| - 1;
    assert r.sh.queued[i] == s.sh.queued[i];
    assert s.sh.queued[i].number != target;
  }

  lemma OvertakenReturnsEarly(s: State, t: Tid, pos: nat) returns (es: seq<Event>)
    requires Inv(s) && Once(s) && OwnAt(s, t, pos) && Overtaken(s, t, pos)
    ensures EarlyAfter(s, t, es) && forall i :: 0 <= i < |es| ==> es[i].Work?
  {
    TargetPositive(s, t);
    Behind(s);
    hide Inv;
    hide Once;
    hide Run;
    hide Possible;
    hide Published;
    hide Enabled;
    var i :| 0 <= i < pos && |Published(s.sh)| - 1 <= i && s.sh.queued[i].number > s.At(t).target;
    if i == |Published(s.sh)| - 1 {
      es := [];
      Nowhere(s);
      ShowsEarly(s, s, t, pos, i);
    } else {
      es := WorkTo(s, i + 1);
      RunOnce(s, es);
      ShowsEarly(s, Run(s, es), t, pos, i);
    }
  }

  lemma TargetPositive(s: State, t: Tid)
    requires Inv(s) && s.At(t).Waiting?
    ensures s.At(t).target > 0
  {
    assert Waits(s.sh, s.At(t));
  }

  lemma Behind(s: State)
    requires Inv(s)
    ensures |Published(s.sh)| <= |s.sh.handled| <= |s.sh.queued|
    ensures s.sh.worker.Publishing? ==> |Published(s.sh)| < |s.sh.handled|
  {
    HandledAre(s.sh);
  }

  /** With a greater number the last one published, and the own item not dealt with, the flush can return. */
  lemma ShowsEarly(s: State, r: State, t: Tid, pos: nat, i: nat)
    requires Inv(r) && Once(s) && OwnAt(s, t, pos) && r.pcs == s.pcs && r.sh.queued == s.sh.queued
    requires i < pos && |Published(r.sh)| == i + 1 && |r.sh.handled| <= pos
    requires s.sh.queued[i].number > s.At(t).target > 0
    ensures r.At(t) == s.At(t) && Enabled(r, Continue(t)) && Item(s.At(t).target, true) !in r.sh.handled
  {
    OnShow(r.sh, s.At(t).target);
    NotAmong(s, r, t, pos);
  }

  lemma Nowhere(s: State)
    ensures Possible(s, []) && Run(s, []) == s
  {
  }

  lemma NotAmong(s: State, r: State, t: Tid, pos: nat)
    requires Inv(r) && Once(s) && OwnAt(s, t, pos) && r.sh.queued == s.sh.queued && |r.sh.handled| <= pos
    ensures Item(s.At(t).target, true) !in r.sh.handled
  {
    HandledAre(r.sh);
    forall k | 0 <= k < |r.sh.handled| ensures r.sh.handled[k] != Item(s.At(t).target, true) {
      assert r.sh.handled[k] == s.sh.queued[k];
    }
  }

  /** Exactly when: from a reachable state, flush() can still return before its own item is dealt with if and only
      if a greater number is ahead of that item and the worker has not gone past it; the worker's own steps then
      suffice. */
  lemma EarlyExactly(capacity: nat, blocking: bool, es: seq<Event>, t: Tid, pos: nat)
    requires Possible(Init(capacity, blocking), es) && OwnAt(Run(Init(capacity, blocking), es), t, pos)
    ensures var s := Run(Init(capacity, blocking), es);
            (exists more :: EarlyAfter(s, t, more)) <==> Overtaken(s, t, pos)
  {
    ReachedOnce(capacity, blocking, es);
    var s := Run(Init(capacity, blocking), es);
    if more :| EarlyAfter(s, t, more) {
      EarlyMeansOvertaken(s, t, pos, more);
    }
    if Overtaken(s, t, pos) {
      var more := OvertakenReturnsEarly(s, t, pos);
    }
  }

  // ----- returning at all -----

  ghost predicate OnlyWork(es: seq<Event>) {
    forall i :: 0 <= i < |es| ==> es[i].Work?
  }

  /** The worker's own steps let the flush return. */
  ghost predicate WorkReturns(s: State, t: Tid, es: seq<Event>) {
    && Possible(s, es) && OnlyWork(es)
    && var r := Run(s, es); r.At(t) == s.At(t) && Enabled(r, Continue(t))
  }

  /** A number at least the flush's own is on show, or still to be published. */
  ghost predicate StillToShow(s: State, target: nat) {
    exists i :: 0 <= i < |s.sh.queued| && |Published(s.sh)| - 1 <= i && s.sh.queued[i].number >= target
  }

  lemma {:induction false} WorkQueuesNothing(s: State, es: seq<Event>)
    requires Inv(s) && Possible(s, es) && OnlyWork(es)
    ensures Run(s, es).sh.queued == s.sh.queued && Run(s, es).pcs == s.pcs
    decreases |es|
  {
    if es != [] {
      StepKeeps(s, es[0]);
      WorkingKeeps(s.sh);
      hide Inv;
      WorkQueuesNothing(Step(s, es[0]), es[1..]);
    }
  }

  lemma ShownReturns(s: State, t: Tid) returns (es: seq<Event>)
    requires Inv(s) && s.At(t).Waiting? && StillToShow(s, s.At(t).target)
    ensures WorkReturns(s, t, es)
  {
    TargetPositive(s, t);
    Behind(s);
    var target := s.At(t).target;
    var i :| 0 <= i < |s.sh.queued| && |Published(s.sh)| - 1 <= i && s.sh.queued[i].number >= target;
    if i == |Published(s.sh)| - 1 {
      es := [];
      OnShow(s.sh, target);
    } else {
      hide Published;
      es := WorkTo(s, i + 1);
      RunKeeps(s, es);
      OnShow(Run(s, es).sh, target);
    }
  }

  lemma ReturnsShown(s: State, t: Tid, es: seq<Event>)
    requires Inv(s) && s.At(t).Waiting? && WorkReturns(s, t, es)
    ensures StillToShow(s, s.At(t).target)
  {
    TargetPositive(s, t);
    WorkQueuesNothing(s, es);
    RunKeeps(s, es);
    RunFurther(s, es);
    var r := Run(s, es);
    OnShow(r.sh, s.At(t).target);
    var i := |Published(r.sh)| - 1;
    assert |Published(s.sh)| - 1 <= i;
  }

  /** Exactly when the worker alone will let a waiting flush return: in every reachable state, if and only if the
      number on show, or one still to be published, is not less than its own. */
  lemma ReturnsExactly(capacity: nat, blocking: bool, before: seq<Event>, t: Tid)
    requires Possible(Init(capacity, blocking), before) && Run(Init(capacity, blocking), before).At(t).Waiting?
    ensures var s := Run(Init(capacity, blocking), before);
            (exists es :: WorkReturns(s, t, es)) <==> StillToShow(s, s.At(t).target)
  {
    Reached(capacity, blocking, before);
    var s := Run(Init(capacity, blocking), before);
    hide Run;
    hide Possible;
    hide Inv;
    hide StillToShow;
    if StillToShow(s, s.At(t).target) {
      var es := ShownReturns(s, t);
    }
    if es :| WorkReturns(s, t, es) {
      ReturnsShown(s, t, es);
    }
  }

  /** A flush numbered 2 is on the queue ahead of a record numbered 1. */
  lemma QueuedOutOfOrder() returns (es: seq<Event>, s: State)
    ensures Possible(Init(0, true), es) && s == Run(Init(0, true), es)
    ensures s.sh == Init(0, true).sh.(
              queue := [Item(2, true), Item(1, false)], queued := [Item(2, true), Item(1, false)], last := 2)
    ensures s.At(0) == Waiting(2, 0)
  {
    hide Run;
    hide Possible;
    Nothing();
    es, s := Extend([], CallLog(1));
    es, s := Extend(es, Continue(1));
    es, s := Extend(es, CallFlush(0));
    es, s := Extend(es, Continue(0));
    es, s := Extend(es, Continue(0));
    es, s := Extend(es, Continue(1));
  }

  /** A flush can wait for good: its item is queued ahead of a smaller number, both are dealt with before it looks,
      and the smaller number stays on show. */
  lemma FlushCanHang()
    ensures exists es ::
              && Possible(Init(0, true), es)
              && var s := Run(Init(0, true), es);
                 && s.At(0) == Waiting(2, 0) && Item(2, true) in s.sh.handled && !StillToShow(s, 2)
                 && s.sh.queue == [] && s.sh.worker.Resting?
  {
    hide Run;
    hide Possible;
    var es, s := QueuedOutOfOrder();
    es, s := Extend(es, Work);
    es, s := Extend(es, Work);
    es, s := Extend(es, Work);
    assert s.sh.batch == [Item(1, false)] && s.sh.handled == [Item(2, true)];
    es, s := Extend(es, Work);
    es, s := Extend(es, Work);
    assert s.sh.handled == [Item(2, true), Item(1, false)] && s.sh.queued == [Item(2, true), Item(1, false)];
    assert s.sh.handled[0] == Item(2, true);
  }
}
