/** Tasks spread over serial executors by the hash of their key: tasks of one key begin in the order they were
    pushed, whatever the other keys and shards do. */
module ShardedExecutor {
  import opened SerialExecutor

  /** One state per shard; `log` records every push in the order it happened. */
  datatype Shards = Shards(at: seq<State>, log: seq<Task>)

  datatype Move = Move(shard: nat, event: Event)

  function ShardOf(hash: nat -> nat, count: nat, key: nat): (i: nat)
    requires count > 0
    ensures i < count
  {
    hash(key) % count
  }

  /** Two keys share a shard if and only if their hashes leave the same remainder; so every shard has its keys. */
  lemma SameShardExactly(hash: nat -> nat, count: nat, key: nat, other: nat)
    requires count > 0
    ensures ShardOf(hash, count, key) == ShardOf(hash, count, other) <==> (hash(key) - hash(other)) % count == 0
    ensures hash(key) < count ==> ShardOf(hash, count, key) == hash(key)
  {
    SameRemainder(hash(key), hash(other), count);
    if hash(key) < count {
      Quotient(hash(key), count, 0, hash(key));
    }
  }

  lemma Quotient(x: int, d: nat, q: int, r: nat)
    requires x == q * d + r && r < d
    ensures x / d == q && x % d == r
  {
    var e := q - x / d;
    assert e * d == x % d - r;
    if e != 0 {
      NoneBetween(e, d);
    }
  }

  lemma NoneBetween(e: int, d: nat)
    requires e != 0
    ensures e * d >= d || e * d + d <= 0
  {
    if e > 0 {
      assert (e - 1) * d >= 0;
    } else {
      assert (-e - 1) * d >= 0;
    }
  }

  lemma SameRemainder(x: nat, y: nat, d: nat)
    requires d > 0
    ensures x % d == y % d <==> (x - y) % d == 0
  {
    var p, q := x / d, y / d;
    assert x == p * d + x % d && y == q * d + y % d;
    if x % d == y % d {
      assert x - y == (p - q) * d;
      Quotient(x - y, d, p - q, 0);
    } else if x % d > y % d {
      assert x - y == (p - q) * d + (x % d - y % d);
      Quotient(x - y, d, p - q, x % d - y % d);
    } else {
      assert x - y == (p - q - 1) * d + (x % d - y % d + d);
      Quotient(x - y, d, p - q - 1, x % d - y % d + d);
    }
  }

  function Fresh(count: nat, capacity: nat): Shards {
    Shards(seq(count, i => Init(capacity)), [])
  }

  /** A submission goes to the shard of its key; everything else happens inside some shard. */
  predicate Allowed(hash: nat -> nat, s: Shards, m: Move) {
    && m.shard < |s.at| && Enabled(s.at[m.shard], m.event)
    && (m.event.what.CallSubmit? ==> m.shard == ShardOf(hash, |s.at|, m.event.what.task.key))
  }

  function Do(hash: nat -> nat, s: Shards, m: Move): Shards
    requires Allowed(hash, s, m)
  {
    var was := s.at[m.shard];
    var now := Step(was, m.event);
    Shards(s.at[m.shard := now], s.log + Added(was, now))
  }

  /** What a step of a shard pushed. */
  function Added(was: State, now: State): seq<Task> {
    if |now.sh.pushed| > |was.sh.pushed| then now.sh.pushed[|was.sh.pushed|..] else []
  }

  function ForShard(hash: nat -> nat, count: nat, log: seq<Task>, i: nat): seq<Task>
    requires count > 0
  {
    if log == [] then []
    else ForShard(hash, count, log[..|log| - 1], i) +
         (if ShardOf(hash, count, log[|log| - 1].key) == i then [log[|log| - 1]] else [])
  }

  function ForKey(log: seq<Task>, key: nat): seq<Task> {
    if log == [] then []
    else ForKey(log[..|log| - 1], key) + (if log[|log| - 1].key == key then [log[|log| - 1]] else [])
  }

  /** Every task a thread of shard `i` is about to push belongs there. */
  ghost predicate Bound(hash: nat -> nat, count: nat, s: State, i: nat)
    requires count > 0
  {
    forall t ::
      && (s.At(t).Asking? ==> ShardOf(hash, count, s.At(t).asked.key) == i)
      && (s.At(t).Submitting? ==> ShardOf(hash, count, s.At(t).given.key) == i)
  }

  ghost predicate Good(hash: nat -> nat, s: Shards) {
    && |s.at| > 0
    && forall i :: 0 <= i < |s.at| ==>
         && Inv(s.at[i]) && Bound(hash, |s.at|, s.at[i], i)
         && s.at[i].sh.pushed == ForShard(hash, |s.at|, s.log, i)
  }

  lemma StepPushes(hash: nat -> nat, count: nat, s: State, e: Event, i: nat)
    requires count > 0 && Enabled(s, e) && Bound(hash, count, s, i)
    requires e.what.CallSubmit? ==> ShardOf(hash, count, e.what.task.key) == i
    ensures var r := Step(s, e);
            && Bound(hash, count, r, i)
            && r.sh.pushed == s.sh.pushed + Added(s, r)
            && (Added(s, r) == [] || exists x :: Added(s, r) == [x] && ShardOf(hash, count, x.key) == i)
  {
    StepIs(s, e);
    CallsExactly(s.sh, s.At(e.t), e.what);
    hide Step;
    hide Act;
    hide Can;
    var r := Step(s, e);
    forall t ensures
        && (r.At(t).Asking? ==> ShardOf(hash, count, r.At(t).asked.key) == i)
        && (r.At(t).Submitting? ==> ShardOf(hash, count, r.At(t).given.key) == i)
    {
      assert t == e.t || r.At(t) == s.At(t);
    }
    if r.sh.pushed != s.sh.pushed {
      var x := s.At(e.t).given;
      assert Added(s, r) == [x];
    }
  }

  lemma ForShardOne(hash: nat -> nat, count: nat, log: seq<Task>, x: Task, i: nat)
    requires count > 0
    ensures ForShard(hash, count, log + [x], i)
         == ForShard(hash, count, log, i) + (if ShardOf(hash, count, x.key) == i then [x] else [])
  {
    assert (log + [x])[..|log|] == log;
  }

  lemma DoKeeps(hash: nat -> nat, s: Shards, m: Move)
    requires Good(hash, s) && Allowed(hash, s, m)
    ensures Good(hash, Do(hash, s, m))
  {
    var n, was := |s.at|, s.at[m.shard];
    StepPushes(hash, n, was, m.event, m.shard);
    StepKeeps(was, m.event);
    hide Step;
    hide Inv;
    hide Bound;
    hide ForShard;
    hide Enabled;
    var r := Do(hash, s, m);
    var added := Added(was, Step(was, m.event));
    hide Added;
    hide ShardOf;
    forall i | 0 <= i < n ensures r.at[i].sh.pushed == ForShard(hash, n, r.log, i) {
      if added != [] {
        var x :| added == [x] && ShardOf(hash, n, x.key) == m.shard;
        ForShardOne(hash, n, s.log, x, i);
      } else {
        assert s.log + added == s.log;
      }
    }
  }

  // ----- runs -----

  predicate Possible(hash: nat -> nat, s: Shards, ms: seq<Move>)
    decreases |ms|
  {
    ms == [] || (Allowed(hash, s, ms[0]) && Possible(hash, Do(hash, s, ms[0]), ms[1..]))
  }

  function Run(hash: nat -> nat, s: Shards, ms: seq<Move>): Shards
    requires Possible(hash, s, ms)
    decreases |ms|
  {
    if ms == [] then s else Run(hash, Do(hash, s, ms[0]), ms[1..])
  }

  lemma {:induction false} RunKeeps(hash: nat -> nat, s: Shards, ms: seq<Move>)
    requires Good(hash, s) && Possible(hash, s, ms)
    ensures Good(hash, Run(hash, s, ms)) && |Run(hash, s, ms).at| == |s.at|
    decreases |ms|
  {
    if ms != [] {
      DoKeeps(hash, s, ms[0]);
      assert |Do(hash, s, ms[0]).at| == |s.at|;
      hide Good;
      hide Do;
      RunKeeps(hash, Do(hash, s, ms[0]), ms[1..]);
    }
  }

  lemma {:induction false} KeyOfShard(hash: nat -> nat, count: nat, log: seq<Task>, key: nat)
    requires count > 0
    ensures ForKey(ForShard(hash, count, log, ShardOf(hash, count, key)), key) == ForKey(log, key)
    decreases |log|
  {
    if log != [] {
      var init, last, i := log[..|log| - 1], log[|log| - 1], ShardOf(hash, count, key);
      KeyOfShard(hash, count, init, key);
      var before := ForShard(hash, count, init, i);
      if ShardOf(hash, count, last.key) == i {
        assert (before + [last])[..|before|] == before;
        assert ForKey(before + [last], key) == ForKey(before, key) + (if last.key == key then [last] else []);
      } else {
        assert before + [] == before;
      }
    }
  }

  lemma {:induction false} KeyPrefix(a: seq<Task>, b: seq<Task>, key: nat)
    ensures ForKey(a, key) <= ForKey(a + b, key)
    decreases |b|
  {
    if b == [] {
      assert a + b == a;
    } else {
      var init := b[..|b| - 1];
      assert (a + b)[..|a + b| - 1] == a + init;
      KeyPrefix(a, init, key);
    }
  }

  /** No other shard is given a task of the key. */
  lemma {:induction false} KeyElsewhere(hash: nat -> nat, count: nat, log: seq<Task>, key: nat, i: nat)
    requires count > 0 && i != ShardOf(hash, count, key)
    ensures ForKey(ForShard(hash, count, log, i), key) == []
  {
    if log != [] {
      var before, last := ForShard(hash, count, log[..|log| - 1], i), log[|log| - 1];
      KeyElsewhere(hash, count, log[..|log| - 1], key, i);
      assert (before + [last])[..|before|] == before;
      assert before + [] == before;
    }
  }

  /** Per-key order: in every interleaving of every shard, those tasks of a key that have begun are, in order, a
      prefix of all tasks pushed with that key anywhere; the shard of the key runs one task at a time, and no other
      shard begins a task of the key. */
  lemma PerKeyOrder(hash: nat -> nat, count: nat, capacity: nat, ms: seq<Move>, key: nat)
    requires count > 0 && Possible(hash, Fresh(count, capacity), ms)
    ensures var s := Run(hash, Fresh(count, capacity), ms);
            && |s.at| == count
            && var own := s.at[ShardOf(hash, count, key)];
               && ForKey(own.sh.begun, key) <= ForKey(s.log, key)
               && (forall t, u :: own.At(t).InDrain() && own.At(u).InDrain() ==> t == u)
               && (forall i :: 0 <= i < count && i != ShardOf(hash, count, key) ==>
                     ForKey(s.at[i].sh.begun, key) == [])
  {
    var s0 := Fresh(count, capacity);
    assert Inv(Init(capacity));
    assert Good(hash, s0);
    RunKeeps(hash, s0, ms);
    hide Run;
    hide Possible;
    var s := Run(hash, s0, ms);
    var own := s.at[ShardOf(hash, count, key)];
    hide Bound;
    assert Inv(own);
    KeyOfShard(hash, count, s.log, key);
    KeyPrefix(own.sh.begun, own.sh.queue, key);
    forall i | 0 <= i < count && i != ShardOf(hash, count, key) ensures ForKey(s.at[i].sh.begun, key) == [] {
      assert Inv(s.at[i]);
      KeyElsewhere(hash, count, s.log, key, i);
      KeyPrefix(s.at[i].sh.begun, s.at[i].sh.queue, key);
    }
  }
}
