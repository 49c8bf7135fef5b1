/** Whole runs of the timer manager: registrations, cancellations and ticks in any order. */
module TimerRun {
  import opened TimerWheel
  import opened TimerManager

  datatype Op = Register(id: Id, timeout: nat) | Unregister(id: Id) | OneTick

  predicate Registrable(op: Op) {
    op.Register? ==> op.timeout < TWO32
  }

  predicate Touches(op: Op, id: Id) {
    !op.OneTick? && op.id == id
  }

  function Act(s: Schedule, op: Op): Schedule {
    match op
    case Register(id, timeout) => Add(s, id, timeout)
    case Unregister(id) => Cancel(s, id)
    case OneTick => Tick(s)
  }

  function After(s: Schedule, ops: seq<Op>): Schedule
    decreases |ops|
  {
    if ops == [] then s else After(Act(s, ops[0]), ops[1..])
  }

  /** The timers that fire in each tick of the run, tick by tick. */
  function Fires(s: Schedule, ops: seq<Op>): seq<set<Id>>
    decreases |ops|
  {
    if ops == [] then []
    else (if ops[0].OneTick? then [DueAt(s, s.now + 1)] else []) + Fires(Act(s, ops[0]), ops[1..])
  }

  /** A pending timer that the run leaves alone fires in the tick it is due and in no other. */
  lemma {:induction false} PendingFires(s: Schedule, ops: seq<Op>, id: Id, k: nat)
    requires id in s.due && s.now < s.due[id]
    requires forall i :: 0 <= i < |ops| ==> !Touches(ops[i], id)
    requires k < |Fires(s, ops)|
    ensures id in Fires(s, ops)[k] <==> s.now + k + 1 == s.due[id]
    decreases |ops|
  {
    var s1, rest := Act(s, ops[0]), ops[1..];
    assert !Touches(ops[0], id);
    if !ops[0].OneTick? {
      PendingFires(s1, rest, id, k);
    } else if k > 0 {
      if s.due[id] == s.now + 1 {
        AbsentNeverFires(s1, rest, id, k - 1);
      } else {
        PendingFires(s1, rest, id, k - 1);
      }
    }
  }

  lemma {:induction false} AbsentNeverFires(s: Schedule, ops: seq<Op>, id: Id, k: nat)
    requires id !in s.due
    requires forall i :: 0 <= i < |ops| ==> !Touches(ops[i], id)
    requires k < |Fires(s, ops)|
    ensures id !in Fires(s, ops)[k]
    decreases |ops|
  {
    assert !Touches(ops[0], id);
    if !ops[0].OneTick? {
      AbsentNeverFires(Act(s, ops[0]), ops[1..], id, k);
    } else if k > 0 {
      AbsentNeverFires(Act(s, ops[0]), ops[1..], id, k - 1);
    }
  }

  /** A timer registered with delay d and then left alone fires in the d-th tick after that (the first if d
      is 0) and in no other, whatever else is registered and cancelled meanwhile. */
  lemma FiresExactlyOnce(s: Schedule, id: Id, timeout: nat, ops: seq<Op>)
    requires forall i :: 0 <= i < |ops| ==> !Touches(ops[i], id)
    ensures forall k :: 0 <= k < |Fires(s, [Register(id, timeout)] + ops)| ==>
              (id in Fires(s, [Register(id, timeout)] + ops)[k] <==> k + 1 == timeout || (k == 0 && timeout == 0))
  {
    var all := [Register(id, timeout)] + ops;
    assert all[1..] == ops;
    assert Fires(s, all) == Fires(Add(s, id, timeout), ops);
    forall k | 0 <= k < |Fires(s, all)|
      ensures id in Fires(s, all)[k] <==> k + 1 == timeout || (k == 0 && timeout == 0)
    {
      PendingFires(Add(s, id, timeout), ops, id, k);
    }
  }

  /** A cancelled timer that is left alone does not fire. */
  lemma CancelledNeverFires(s: Schedule, id: Id, ops: seq<Op>)
    requires forall i :: 0 <= i < |ops| ==> !Touches(ops[i], id)
    ensures forall k :: 0 <= k < |Fires(s, [Unregister(id)] + ops)| ==> id !in Fires(s, [Unregister(id)] + ops)[k]
  {
    var all := [Unregister(id)] + ops;
    assert all[1..] == ops;
    assert Fires(s, all) == Fires(Cancel(s, id), ops);
    forall k | 0 <= k < |Fires(s, all)| ensures id !in Fires(s, all)[k] {
      AbsentNeverFires(Cancel(s, id), ops, id, k);
    }
  }

  lemma {:induction false} AfterOne(s: Schedule, ops: seq<Op>, op: Op)
    ensures After(s, ops + [op]) == Act(After(s, ops), op)
    ensures var t := After(s, ops);
            Fires(s, ops + [op]) == Fires(s, ops) + (if op.OneTick? then [DueAt(t, t.now + 1)] else [])
    decreases |ops|
  {
    if ops == [] {
      assert ops + [op] == [op];
      assert Fires(Act(s, op), []) == [];
    } else {
      assert (ops + [op])[1..] == ops[1..] + [op];
      AfterOne(Act(s, ops[0]), ops[1..], op);
    }
  }

  ghost predicate Matches(log: seq<seq<Id>>, fires: seq<set<Id>>) {
    |log| == |fires| && forall k :: 0 <= k < |log| ==> NoDup(log[k]) && (set x | x in log[k]) == fires[k]
  }

  /** The wheels carry out any run exactly as the schedule does: the same timers fire in the same ticks,
      each once. */
  method Run(mgr: TimerMgr, ops: seq<Op>) returns (log: seq<seq<Id>>)
    requires mgr.Valid() && forall i :: 0 <= i < |ops| ==> Registrable(ops[i])
    modifies mgr
    ensures mgr.Valid() && mgr.Abs() == After(old(mgr.Abs()), ops)
    ensures Matches(log, Fires(old(mgr.Abs()), ops))
  {
    hide Good;
    hide AllSettled;
    hide Dues;
    log := [];
    var i := 0;
    while i < |ops|
      invariant 0 <= i <= |ops| && mgr.Valid()
      invariant mgr.Abs() == After(old(mgr.Abs()), ops[..i])
      invariant Matches(log, Fires(old(mgr.Abs()), ops[..i]))
    {
      assert ops[..i + 1] == ops[..i] + [ops[i]];
      AfterOne(old(mgr.Abs()), ops[..i], ops[i]);
      match ops[i] {
        case Register(id, timeout) => mgr.RegisterTimer(id, timeout, mgr.lastTick);
        case Unregister(id) => var code := mgr.UnRegisterTimer(id);
        case OneTick =>
          var fired := mgr.TickInternal(mgr.lastTick + 1, mgr.lastTick + 1);
          log := log + fired;
      }
      i := i + 1;
    }
    assert ops[..i] == ops;
  }
}
