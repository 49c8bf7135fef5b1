/** When the tasks waiting in a serial executor can still be run without a new submission. */
module ExecutorProgress {
  import opened SerialExecutor

  /** A drain waits in the pool or runs, or somebody is on the way to schedule one. An owner whose drain was refused
      does not count: it only clears the flag. */
  ghost predicate Attended(s: State) {
    || s.sh.queue == [] || s.sh.pooled > 0
    || exists t :: (s.At(t).Owns() && !s.At(t).Refused?) || s.At(t).OnTheWay()
  }

  /** This run pushes nothing, the pool accepts its drains, and it ends with every task done. */
  ghost predicate Completes(s: State, es: seq<Event>) {
    && Possible(s, es) && Accepting(es)
    && Run(s, es).sh.pushed == s.sh.pushed && Run(s, es).sh.done == s.sh.pushed
  }

  // ----- who attends gets it done -----

  lemma Prepend(s: State, e: Event, es: seq<Event>)
    requires Enabled(s, e) && !e.what.PoolRefuses? && Step(s, e).sh.pushed == s.sh.pushed
    requires Completes(Step(s, e), es)
    ensures Completes(s, [e] + es)
  {
    hide Step;
    hide Enabled;
    assert ([e] + es)[1..] == es;
  }

  lemma Over(s: State)
    requires Inv(s) && s.sh.queue == [] && forall t :: !s.At(t).Busy?
    ensures Completes(s, [])
  {
    assert s.sh.begun + [] == s.sh.begun;
  }

  /** A thread that drains runs all that waits. */
  lemma {:induction false} DrainsOut(s: State, t: Tid) returns (es: seq<Event>)
    requires Inv(s) && (s.At(t).Draining? || s.At(t).Busy?)
    ensures Completes(s, es)
    decreases |s.sh.queue|, if s.At(t).Busy? then 1 else 0
  {
    if s.At(t).Draining? && s.sh.queue == [] {
      OnlyOwner(s, t);
      Over(s);
      es := [];
    } else {
      var e := Event(t, Continue);
      StepIs(s, e);
      StepKeeps(s, e);
      hide Inv;
      hide Step;
      var rest := DrainsOut(Step(s, e), t);
      Prepend(s, e, rest);
      es := [e] + rest;
    }
  }

  lemma OnlyOwner(s: State, t: Tid)
    requires Token(s) && s.At(t).Owns() && !s.At(t).Busy?
    ensures forall u :: !s.At(u).Busy?
  {
    forall u ensures !s.At(u).Busy? {
      assert s.At(u).Busy? ==> s.At(u).Owns();
    }
  }

  /** Some thread is idle: only finitely many have called. */
  lemma SomeIdle(s: State) returns (t: Tid)
    ensures s.At(t).Idle?
  {
    t := Fresh(s.pcs.Keys);
  }

  lemma {:induction false} Fresh(ts: set<Tid>) returns (t: Tid)
    ensures t !in ts && forall u :: u in ts ==> u < t
    decreases |ts|
  {
    if ts == {} {
      t := 0;
    } else {
      var x :| x in ts;
      var y := Fresh(ts - {x});
      t := if x < y then y else x + 1;
      assert forall u :: u in ts ==> u == x || u in ts - {x};
    }
  }

  /** A drain in the pool runs all that waits. */
  lemma PooledCompletes(s: State) returns (es: seq<Event>)
    requires Inv(s) && s.sh.pooled > 0
    ensures Completes(s, es)
  {
    var t := SomeIdle(s);
    var e := Event(t, PoolRuns);
    StepIs(s, e);
    StepKeeps(s, e);
    hide Inv;
    hide Step;
    var rest := DrainsOut(Step(s, e), t);
    Prepend(s, e, rest);
    es := [e] + rest;
  }

  /** How many steps a thread that attends is away from handing over. */
  function Away(pc: Pc): nat {
    match pc
    case Emptied => 4
    case Cleared => 3
    case NotEmpty => 2
    case Scheduling => 1
    case _ => 0
  }

  /** A thread with the flag, or on its way while nobody has it, gets a drain going. */
  lemma {:induction false} HandsOver(s: State, t: Tid) returns (es: seq<Event>)
    requires Inv(s) && s.sh.queue != [] && !s.sh.stopped
    requires s.At(t).Won? || s.At(t).Emptied? || (s.At(t).OnTheWay() && !s.sh.running)
    ensures Completes(s, es)
    decreases Away(s.At(t))
  {
    var e := Event(t, Continue);
    StepIs(s, e);
    StepKeeps(s, e);
    hide Inv;
    hide Step;
    var rest;
    if s.At(t).Won? {
      rest := PooledCompletes(Step(s, e));
    } else {
      rest := HandsOver(Step(s, e), t);
    }
    Prepend(s, e, rest);
    es := [e] + rest;
  }

  /** The owner of the flag, if there is one, gets out of the way or gets a drain going. */
  lemma OwnerCompletes(s: State, t: Tid) returns (es: seq<Event>)
    requires Inv(s) && s.sh.queue != [] && !s.sh.stopped && s.At(t).Owns() && !s.At(t).Refused?
    ensures Completes(s, es)
  {
    if s.At(t).Won? || s.At(t).Emptied? {
      es := HandsOver(s, t);
    } else {
      es := DrainsOut(s, t);
    }
  }

  lemma OnTheWayCompletes(s: State, t: Tid) returns (es: seq<Event>)
    requires Inv(s) && s.sh.queue != [] && !s.sh.stopped && s.At(t).OnTheWay()
    ensures Completes(s, es)
  {
    if !s.sh.running {
      es := HandsOver(s, t);
    } else if s.sh.pooled > 0 {
      es := PooledCompletes(s);
    } else {
      var u :| s.At(u).Owns();
      if s.At(u).Refused? {
        var e := Event(u, Continue);
        StepIs(s, e);
        StepKeeps(s, e);
        hide Inv;
        hide Step;
        var rest := HandsOver(Step(s, e), t);
        Prepend(s, e, rest);
        es := [e] + rest;
      } else {
        es := OwnerCompletes(s, u);
      }
    }
  }

  lemma AttendedCompletes(s: State) returns (es: seq<Event>)
    requires Inv(s) && !s.sh.stopped && Attended(s)
    ensures Completes(s, es)
  {
    if t :| s.At(t).Busy? {
      es := DrainsOut(s, t);
    } else if s.sh.queue == [] {
      Over(s);
      es := [];
    } else if s.sh.pooled > 0 {
      es := PooledCompletes(s);
    } else if t :| s.At(t).OnTheWay() {
      es := OnTheWayCompletes(s, t);
    } else {
      var t :| s.At(t).Owns() && !s.At(t).Refused?;
      es := OwnerCompletes(s, t);
    }
  }

  // ----- otherwise nothing happens without a push -----

  lemma ActUnattended(sh: Shared, pc: Pc, what: What)
    requires Can(sh, pc, what) && sh.queue != [] && sh.pooled == 0
    requires !(pc.Owns() && !pc.Refused?) && !pc.OnTheWay()
    ensures var (sh', pc') := Act(sh, pc, what);
            sh.pushed < sh'.pushed ||
            (&& sh'.pushed == sh.pushed && sh'.queue == sh.queue && sh'.pooled == 0
             && !(pc'.Owns() && !pc'.Refused?) && !pc'.OnTheWay())
  {
  }

  lemma StepUnattended(s: State, e: Event)
    requires Enabled(s, e) && !Attended(s)
    ensures s.sh.pushed < Step(s, e).sh.pushed || (!Attended(Step(s, e)) && Step(s, e).sh.pushed == s.sh.pushed)
  {
    var r := Step(s, e);
    StepIs(s, e);
    ActUnattended(s.sh, s.At(e.t), e.what);
    hide Step;
    hide Act;
    hide Can;
    if r.sh.pushed == s.sh.pushed {
      forall t ensures !(r.At(t).Owns() && !r.At(t).Refused?) && !r.At(t).OnTheWay() {
        assert t == e.t || r.At(t) == s.At(t);
      }
    }
  }

  lemma ActPushed(sh: Shared, pc: Pc, what: What)
    requires Can(sh, pc, what)
    ensures sh.pushed <= Act(sh, pc, what).0.pushed
  {
  }

  lemma {:induction false} PushedGrows(s: State, es: seq<Event>)
    requires Possible(s, es)
    ensures s.sh.pushed <= Run(s, es).sh.pushed
    decreases |es|
  {
    if es != [] {
      StepIs(s, es[0]);
      ActPushed(s.sh, s.At(es[0].t), es[0].what);
      hide Step;
      hide Act;
      PushedGrows(Step(s, es[0]), es[1..]);
    }
  }

  lemma {:induction false} StaysUnattended(s: State, es: seq<Event>)
    requires Possible(s, es) && !Attended(s) && Run(s, es).sh.pushed == s.sh.pushed
    ensures !Attended(Run(s, es))
    decreases |es|
  {
    if es != [] {
      StepUnattended(s, es[0]);
      PushedGrows(Step(s, es[0]), es[1..]);
      hide Step;
      hide Attended;
      StaysUnattended(Step(s, es[0]), es[1..]);
    }
  }

  lemma UnattendedWaits(s: State)
    requires Inv(s) && !Attended(s)
    ensures s.sh.done != s.sh.pushed
  {
    assert |s.sh.begun + s.sh.queue| > |s.sh.begun| >= |s.sh.done|;
  }

  /** From every reachable state that is not stopped: every task pushed can be completed without another push and
      with the pool accepting every drain, if and only if the waiting tasks are attended to. */
  lemma CompletesExactly(capacity: nat, before: seq<Event>)
    requires Possible(Init(capacity), before) && !Run(Init(capacity), before).sh.stopped
    ensures var s := Run(Init(capacity), before);
            (exists es :: Completes(s, es)) <==> Attended(s)
  {
    Reached(capacity, before);
    var s := Run(Init(capacity), before);
    hide Run;
    hide Possible;
    if Attended(s) {
      var es := AttendedCompletes(s);
    }
    if es :| Completes(s, es) {
      if !Attended(s) {
        StaysUnattended(s, es);
        RunKeeps(s, es);
        UnattendedWaits(Run(s, es));
      }
    }
  }

  /** Not attended to is: stranded, or about to be, by an owner whose drain was refused. */
  lemma UnattendedMeans(s: State)
    requires Inv(s) && !s.sh.stopped
    ensures !Attended(s) <==>
              || Stranded(s)
              || (s.sh.queue != [] && (exists t :: s.At(t).Refused?) && forall t :: !s.At(t).OnTheWay())
  {
    if s.sh.running && s.sh.pooled == 0 {
      var t :| s.At(t).Owns();
    }
    if t :| s.At(t).Refused? {
      assert s.At(t).Owns();
    }
  }
}
