/** The least-recently-used discipline on a list of entries, most recent first. */
module Recency {

  datatype Option<T> = None | Some(value: T)

  datatype Entry<K, V> = Entry(key: K, val: V)

  datatype Op<K, V> = Put(key: K, val: V) | Get(key: K) | Remove(key: K) | PopLru | PopMru | Clear

  predicate Distinct<K(==), V>(l: seq<Entry<K, V>>) {
    forall i, j :: 0 <= i < j < |l| ==> l[i].key != l[j].key
  }

  function Find<K(==), V>(l: seq<Entry<K, V>>, key: K): Option<V> {
    if l == [] then None else if l[0].key == key then Some(l[0].val) else Find(l[1..], key)
  }

  function Without<K(==), V>(l: seq<Entry<K, V>>, key: K): seq<Entry<K, V>> {
    if l == [] then [] else if l[0].key == key then l[1..] else [l[0]] + Without(l[1..], key)
  }

  function Trim<K, V>(capacity: nat, l: seq<Entry<K, V>>): seq<Entry<K, V>> {
    if |l| > capacity then l[..capacity] else l
  }

  /** The list after an operation. */
  function Next<K(==), V>(capacity: nat, l: seq<Entry<K, V>>, op: Op<K, V>): seq<Entry<K, V>> {
    match op
    case Put(key, val) =>
      if Find(l, key).Some? then [Entry(key, val)] + Without(l, key) else Trim(capacity, [Entry(key, val)] + l)
    case Get(key) => if Find(l, key).Some? then [Entry(key, Find(l, key).value)] + Without(l, key) else l
    case Remove(key) => Without(l, key)
    case PopLru => if l == [] then [] else l[..|l| - 1]
    case PopMru => if l == [] then [] else l[1..]
    case Clear => []
  }

  function After<K(==), V>(capacity: nat, ops: seq<Op<K, V>>): seq<Entry<K, V>> {
    if ops == [] then [] else Next(capacity, After(capacity, ops[..|ops| - 1]), ops[|ops| - 1])
  }

  // ----- lists -----

  predicate Lacks<K(==), V>(l: seq<Entry<K, V>>, key: K) {
    forall i :: 0 <= i < |l| ==> l[i].key != key
  }

  lemma {:induction false} LacksFind<K, V>(l: seq<Entry<K, V>>, key: K)
    ensures Lacks(l, key) <==> Find(l, key).None?
  {
    if l != [] {
      LacksFind(l[1..], key);
      LacksCons(l, key);
    }
  }

  lemma LacksCons<K, V>(l: seq<Entry<K, V>>, key: K)
    requires l != []
    ensures Lacks(l, key) <==> l[0].key != key && Lacks(l[1..], key)
  {
    var rest := l[1..];
    assert forall i :: 0 <= i < |rest| ==> rest[i] == l[i + 1];
    if Lacks(rest, key) {
      assert forall i :: 1 <= i < |l| ==> l[i] == rest[i - 1];
    }
  }

  lemma DistinctCons<K, V>(l: seq<Entry<K, V>>)
    requires l != []
    ensures Distinct(l) <==> Distinct(l[1..]) && Lacks(l[1..], l[0].key)
  {
    var rest := l[1..];
    assert forall i :: 0 <= i < |rest| ==> rest[i] == l[i + 1];
    assert forall i :: 1 <= i < |l| ==> l[i] == rest[i - 1];
  }

  lemma {:induction false} WithoutLacks<K, V>(l: seq<Entry<K, V>>, key: K, other: K)
    requires Lacks(l, other)
    ensures Lacks(Without(l, key), other)
  {
    if l != [] {
      LacksCons(l, other);
      WithoutLacks(l[1..], key, other);
    }
  }

  lemma {:induction false} WithoutExact<K, V>(l: seq<Entry<K, V>>, key: K)
    requires Distinct(l)
    ensures Distinct(Without(l, key)) && Lacks(Without(l, key), key)
    ensures |Without(l, key)| == if Find(l, key).Some? then |l| - 1 else |l|
    ensures Find(l, key).None? ==> Without(l, key) == l
  {
    if l != [] {
      DistinctCons(l);
      WithoutExact(l[1..], key);
      WithoutLacks(l[1..], key, l[0].key);
      var w := Without(l[1..], key);
      if l[0].key != key {
        var r := [l[0]] + w;
        assert r[1..] == w;
        DistinctCons(r);
        LacksCons(r, key);
      }
    }
  }

  /** Removing a key leaves what is found under every other key. */
  lemma {:induction false} FindWithout<K, V>(l: seq<Entry<K, V>>, key: K, other: K)
    requires other != key
    ensures Find(Without(l, key), other) == Find(l, other)
  {
    if l != [] && l[0].key != key {
      FindWithout(l[1..], key, other);
      assert ([l[0]] + Without(l[1..], key))[1..] == Without(l[1..], key);
    }
  }

  lemma NextDistinct<K, V>(capacity: nat, l: seq<Entry<K, V>>, op: Op<K, V>)
    requires capacity > 0 && Distinct(l) && |l| <= capacity
    ensures Distinct(Next(capacity, l, op)) && |Next(capacity, l, op)| <= capacity
  {
    match op
    case Put(key, val) =>
      FrontDistinct(l, Entry(key, val));
      hide Without;
      hide Find;
    case Get(key) =>
      if Find(l, key).Some? {
        FrontDistinct(l, Entry(key, Find(l, key).value));
      }
    case Remove(key) => WithoutExact(l, key);
    case PopLru =>
    case PopMru =>
    case Clear =>
  }

  lemma FrontDistinct<K, V>(l: seq<Entry<K, V>>, e: Entry<K, V>)
    requires Distinct(l)
    ensures Distinct([e] + Without(l, e.key)) && (Find(l, e.key).None? ==> Distinct([e] + l))
    ensures |[e] + Without(l, e.key)| == if Find(l, e.key).Some? then |l| else |l| + 1
  {
    WithoutExact(l, e.key);
    hide Without;
    hide Find;
    var r := [e] + Without(l, e.key);
    assert r[1..] == Without(l, e.key);
    DistinctCons(r);
  }

  /** The key an operation takes out: the one removed, the last or first one popped, or the last one when a new key does
      not fit. */
  predicate TakesOut<K(==), V>(capacity: nat, l: seq<Entry<K, V>>, op: Op<K, V>, key: K) {
    match op
    case Put(k, _) => Find(l, k).None? && |l| >= capacity && l != [] && l[|l| - 1].key == key
    case Get(_) => false
    case Remove(k) => k == key
    case PopLru => l != [] && l[|l| - 1].key == key
    case PopMru => l != [] && l[0].key == key
    case Clear => true
  }

  lemma {:induction false} FindFront<K, V>(l: seq<Entry<K, V>>, key: K)
    requires l != [] && Distinct(l)
    ensures Find(l[..|l| - 1], key) == if l[|l| - 1].key == key then None else Find(l, key)
    decreases |l|
  {
    DistinctCons(l);
    if |l| > 1 {
      FindFront(l[1..], key);
      assert l[..|l| - 1][1..] == l[1..][..|l| - 2];
      assert l[1..][|l| - 2] == l[|l| - 1];
    }
  }

  /** What an operation changes in what is found: a put key is found with its value, the key taken out is not found, and
      every other key is found as before. */
  lemma NextFinds<K, V>(capacity: nat, l: seq<Entry<K, V>>, op: Op<K, V>, key: K)
    requires capacity > 0 && Distinct(l) && |l| <= capacity
    ensures Find(Next(capacity, l, op), key) ==
            if op.Put? && op.key == key then Some(op.val)
            else if TakesOut(capacity, l, op, key) then None else Find(l, key)
  {
    match op
    case Put(k, val) =>
      var e := Entry(k, val);
      assert ([e] + Without(l, k))[1..] == Without(l, k) && ([e] + l)[1..] == l;
      if key != k {
        FindWithout(l, k, key);
      }
      if Find(l, k).None? && |l| >= capacity {
        assert ([e] + l)[..capacity] == [e] + l[..|l| - 1];
        assert ([e] + l[..|l| - 1])[1..] == l[..|l| - 1];
        FindFront(l, key);
      }
    case Get(k) =>
      if Find(l, k).Some? {
        var e := Entry(k, Find(l, k).value);
        assert ([e] + Without(l, k))[1..] == Without(l, k);
        if key != k {
          FindWithout(l, k, key);
        }
      }
    case Remove(k) =>
      WithoutExact(l, k);
      LacksFind(Without(l, k), k);
      if key != k {
        FindWithout(l, k, key);
      }
    case PopLru =>
      if l != [] {
        FindFront(l, key);
      }
    case PopMru =>
      if l != [] {
        DistinctCons(l);
        LacksFind(l[1..], l[0].key);
      }
    case Clear =>
  }

  // ----- subsequences -----

  predicate Sub<T(==)>(s: seq<T>, l: seq<T>) {
    s == [] || (l != [] && if s[0] == l[0] then Sub(s[1..], l[1..]) else Sub(s, l[1..]))
  }

  lemma {:induction false} SubShorter<T>(s: seq<T>, l: seq<T>)
    requires Sub(s, l)
    ensures |s| <= |l|
  {
    if s != [] {
      SubShorter(if s[0] == l[0] then s[1..] else s, l[1..]);
    }
  }

  lemma {:induction false} SubLacks<K, V>(s: seq<Entry<K, V>>, l: seq<Entry<K, V>>, key: K)
    requires Sub(s, l) && Lacks(l, key)
    ensures Lacks(s, key)
  {
    if s != [] {
      LacksCons(l, key);
      LacksCons(s, key);
      SubLacks(if s[0] == l[0] then s[1..] else s, l[1..], key);
    }
  }

  lemma {:induction false} SubRefl<T>(s: seq<T>)
    ensures Sub(s, s)
  {
    if s != [] {
      SubRefl(s[1..]);
    }
  }

  lemma {:induction false} SubTail<T>(s: seq<T>, l: seq<T>)
    requires s != [] && Sub(s, l)
    ensures Sub(s[1..], l)
    decreases |l|
  {
    if s[0] == l[0] {
      SubDrop(s[1..], l);
    } else {
      SubTail(s, l[1..]);
      SubDrop(s[1..], l);
    }
  }

  /** A subsequence of the tail is one of the whole. */
  lemma {:induction false} SubDrop<T>(s: seq<T>, l: seq<T>)
    requires l != [] && Sub(s, l[1..])
    ensures Sub(s, l)
    decreases |l|, 0
  {
    if s != [] && s[0] == l[0] {
      SubTail(s, l[1..]);
    }
  }

  lemma {:induction false} SubInit<T>(s: seq<T>, l: seq<T>)
    requires s != [] && Sub(s, l)
    ensures Sub(s[..|s| - 1], l)
    decreases |l|
  {
    var s' := s[..|s| - 1];
    if s' != [] {
      if s[0] == l[0] {
        assert s'[1..] == s[1..][..|s| - 2];
        SubInit(s[1..], l[1..]);
      } else {
        SubInit(s, l[1..]);
      }
    }
  }

  /** Dropping the last of the larger list drops it from the smaller too. */
  lemma {:induction false} SubDropLast<T>(s: seq<T>, l: seq<T>)
    requires l != [] && Sub(s, l)
    ensures Sub(s, l[..|l| - 1]) || (s != [] && s[|s| - 1] == l[|l| - 1] && Sub(s[..|s| - 1], l[..|l| - 1]))
    decreases |l|
  {
    if s != [] && |l| > 1 {
      var t := l[..|l| - 1];
      assert t[1..] == l[1..][..|l| - 2];
      if s[0] == l[0] {
        SubDropLast(s[1..], l[1..]);
        if !Sub(s[1..], t[1..]) {
          assert |s| > 1;
          assert s[..|s| - 1][1..] == s[1..][..|s| - 2];
        }
      } else {
        SubDropLast(s, l[1..]);
      }
    }
  }

  lemma {:induction false} SubWithout<K, V>(s: seq<Entry<K, V>>, l: seq<Entry<K, V>>, key: K)
    requires Sub(s, l) && Distinct(s) && Distinct(l)
    ensures Sub(Without(s, key), Without(l, key))
    decreases |l|
  {
    if s != [] {
      DistinctCons(l);
      DistinctCons(s);
      hide Distinct;
      hide Lacks;
      var w := [l[0]] + Without(l[1..], key);
      assert w[1..] == Without(l[1..], key);
      if s[0] == l[0] {
        SubWithout(s[1..], l[1..], key);
        var v := [s[0]] + Without(s[1..], key);
        assert v[1..] == Without(s[1..], key);
      } else {
        SubWithout(s, l[1..], key);
        if l[0].key == key {
          SubLacks(s, l[1..], key);
          WithoutAbsent(s, key);
        } else {
          SubDrop(Without(s, key), w);
        }
      }
    }
  }

  lemma {:induction false} WithoutAbsent<K, V>(s: seq<Entry<K, V>>, key: K)
    requires Lacks(s, key)
    ensures Without(s, key) == s && Find(s, key).None?
  {
    if s != [] {
      LacksCons(s, key);
      WithoutAbsent(s[1..], key);
    }
  }

  /** Finding in the smaller list finds the same in the larger. */
  lemma {:induction false} SubFind<K, V>(s: seq<Entry<K, V>>, l: seq<Entry<K, V>>, key: K)
    requires Sub(s, l) && Distinct(l) && Find(s, key).Some?
    ensures Find(l, key) == Find(s, key)
    decreases |l|
  {
    DistinctCons(l);
    if s[0] != l[0] {
      SubFind(s, l[1..], key);
      LacksFind(l[1..], key);
    } else if s[0].key != key {
      SubFind(s[1..], l[1..], key);
    }
  }

  // ----- inclusion -----

  /** The list of a cache of capacity k against that of one of capacity m >= k. */
  ghost predicate Included<K, V>(k: nat, s: seq<Entry<K, V>>, m: nat, l: seq<Entry<K, V>>) {
    && 0 < k <= m && Distinct(s) && Distinct(l) && |s| <= k && |l| <= m
    && Sub(s, l) && |l| - |s| <= m - k
  }

  lemma IncludedPut<K, V>(k: nat, s: seq<Entry<K, V>>, m: nat, l: seq<Entry<K, V>>, e: Entry<K, V>)
    requires Included(k, s, m, l)
    ensures var op := Op.Put(e.key, e.val);
            Sub(Next(k, s, op), Next(m, l, op)) && |Next(m, l, op)| - |Next(k, s, op)| <= m - k
  {
    SubWithout(s, l, e.key);
    WithoutExact(s, e.key);
    WithoutExact(l, e.key);
    if Find(s, e.key).Some? {
      SubFind(s, l, e.key);
    }
    var a, b := Without(s, e.key), Without(l, e.key);
    hide Without;
    hide Find;
    hide Distinct;
    hide Lacks;
    SubFront(e, a, b);
    TrimmedSub(k, [e] + a, m, [e] + b);
  }

  lemma SubFront<T>(e: T, s: seq<T>, l: seq<T>)
    requires Sub(s, l)
    ensures Sub([e] + s, [e] + l)
  {
    assert ([e] + s)[1..] == s && ([e] + l)[1..] == l;
  }

  /** Evicting from both keeps the inclusion, because the larger list is full only if the smaller one is. */
  lemma TrimmedSub<K, V>(k: nat, s: seq<Entry<K, V>>, m: nat, l: seq<Entry<K, V>>)
    requires 0 < k <= m && Sub(s, l) && |s| <= k + 1 && |l| <= m + 1 && |l| - |s| <= m - k
    ensures Sub(Trim(k, s), Trim(m, l)) && |Trim(m, l)| - |Trim(k, s)| <= m - k
  {
    SubShorter(s, l);
    if |s| > k {
      assert s[..|s| - 1] == s[..k];
      if |l| > m {
        assert l[..|l| - 1] == l[..m];
        SubDropLast(s, l);
        if Sub(s, l[..m]) {
          SubInit(s, l[..m]);
        }
      } else {
        SubInit(s, l);
      }
    }
  }

  lemma IncludedGet<K, V>(k: nat, s: seq<Entry<K, V>>, m: nat, l: seq<Entry<K, V>>, key: K)
    requires Included(k, s, m, l)
    ensures var op := Op.Get(key);
            Sub(Next(k, s, op), Next(m, l, op)) && |Next(m, l, op)| - |Next(k, s, op)| <= m - k
  {
    SubWithout(s, l, key);
    WithoutExact(s, key);
    WithoutExact(l, key);
    if Find(s, key).Some? {
      SubFind(s, l, key);
      SubFront(Entry(key, Find(s, key).value), Without(s, key), Without(l, key));
    } else if Find(l, key).Some? {
      var r := [Entry(key, Find(l, key).value)] + Without(l, key);
      assert r[1..] == Without(l, key);
      SubDrop(s, r);
    }
  }

  lemma IncludedNext<K, V>(k: nat, s: seq<Entry<K, V>>, m: nat, l: seq<Entry<K, V>>, op: Op<K, V>)
    requires Included(k, s, m, l)
    ensures Included(k, Next(k, s, op), m, Next(m, l, op))
  {
    NextDistinct(k, s, op);
    NextDistinct(m, l, op);
    SubShorter(s, l);
    match op
    case Put(key, val) => IncludedPut(k, s, m, l, Entry(key, val));
    case Get(key) => IncludedGet(k, s, m, l, key);
    case Remove(key) =>
      SubWithout(s, l, key);
      WithoutExact(s, key);
      WithoutExact(l, key);
      if Find(s, key).Some? {
        SubFind(s, l, key);
      }
    case PopLru =>
      if l != [] {
        SubDropLast(s, l);
        if s != [] && Sub(s, l[..|l| - 1]) {
          SubInit(s, l[..|l| - 1]);
        }
      }
    case PopMru =>
      if s != [] && s[0] != l[0] {
        SubTail(s, l[1..]);
      }
    case Clear =>
  }

  /** Inclusion: after any one trace, the list of the smaller cache is a subsequence of that of the larger, and
      whatever the smaller finds the larger finds with the same value. */
  lemma {:induction false} Inclusion<K, V>(k: nat, m: nat, ops: seq<Op<K, V>>)
    requires 0 < k <= m
    ensures Included(k, After(k, ops), m, After(m, ops))
    ensures forall key :: Find(After(k, ops), key).Some? ==> Find(After(m, ops), key) == Find(After(k, ops), key)
  {
    hide Next;
    if ops != [] {
      Inclusion(k, m, ops[..|ops| - 1]);
      IncludedNext(k, After(k, ops[..|ops| - 1]), m, After(m, ops[..|ops| - 1]), ops[|ops| - 1]);
    }
    hide Find;
    forall key | Find(After(k, ops), key).Some? ensures Find(After(m, ops), key) == Find(After(k, ops), key) {
      SubFind(After(k, ops), After(m, ops), key);
    }
  }

  // ----- what the order means -----

  predicate Touches<K(==), V>(op: Op<K, V>, key: K) {
    (op.Put? || op.Get?) && op.key == key
  }

  /** When the key was last put or asked for; -1 if never. */
  function LastTouch<K(==), V>(ops: seq<Op<K, V>>, key: K): (t: int)
    ensures -1 <= t < |ops|
  {
    if ops == [] then -1
    else if Touches(ops[|ops| - 1], key) then |ops| - 1
    else LastTouch(ops[..|ops| - 1], key)
  }

  /** The value last put under the key. */
  function LastPut<K(==), V>(ops: seq<Op<K, V>>, key: K): Option<V> {
    if ops == [] then None
    else if ops[|ops| - 1].Put? && ops[|ops| - 1].key == key then Some(ops[|ops| - 1].val)
    else LastPut(ops[..|ops| - 1], key)
  }

  ghost predicate TouchedBefore<K, V>(l: seq<Entry<K, V>>, ops: seq<Op<K, V>>, t: int) {
    forall i :: 0 <= i < |l| ==> LastTouch(ops, l[i].key) < t
  }

  /** Entries are ordered by when they were last touched, and hold what was last put. */
  ghost predicate Faithful<K, V>(l: seq<Entry<K, V>>, ops: seq<Op<K, V>>) {
    l == [] ||
    (&& LastPut(ops, l[0].key) == Some(l[0].val)
     && TouchedBefore(l[1..], ops, LastTouch(ops, l[0].key)) && Faithful(l[1..], ops))
  }

  lemma {:induction false} FaithfulWithout<K, V>(l: seq<Entry<K, V>>, ops: seq<Op<K, V>>, key: K, t: int)
    requires Faithful(l, ops)
    ensures Faithful(Without(l, key), ops) && (TouchedBefore(l, ops, t) ==> TouchedBefore(Without(l, key), ops, t))
    decreases |l|
  {
    if l != [] {
      TouchedCons(l, ops, t);
      if l[0].key != key {
        FaithfulWithout(l[1..], ops, key, t);
        FaithfulWithout(l[1..], ops, key, LastTouch(ops, l[0].key));
        var r := [l[0]] + Without(l[1..], key);
        assert r[1..] == Without(l[1..], key);
        TouchedCons(r, ops, t);
      }
    }
  }

  lemma TouchedCons<K, V>(l: seq<Entry<K, V>>, ops: seq<Op<K, V>>, t: int)
    requires l != []
    ensures TouchedBefore(l, ops, t) <==> LastTouch(ops, l[0].key) < t && TouchedBefore(l[1..], ops, t)
  {
    hide LastTouch;
    var rest := l[1..];
    assert forall i :: 0 <= i < |rest| ==> rest[i] == l[i + 1];
    assert forall i :: 1 <= i < |l| ==> l[i] == rest[i - 1];
  }

  lemma {:induction false} FaithfulPrefix<K, V>(l: seq<Entry<K, V>>, ops: seq<Op<K, V>>, n: nat)
    requires Faithful(l, ops) && n <= |l|
    ensures Faithful(l[..n], ops)
    decreases |l|
  {
    if n > 0 {
      FaithfulPrefix(l[1..], ops, n - 1);
      assert l[..n][1..] == l[1..][..n - 1];
      var rest := l[1..];
      assert forall i :: 0 <= i < n - 1 ==> rest[..n - 1][i] == rest[i];
    }
  }

  /** An operation on a key that is not in the list changes nothing said about the list. */
  lemma {:induction false} FaithfulOn<K, V>(l: seq<Entry<K, V>>, ops: seq<Op<K, V>>, op: Op<K, V>)
    requires Faithful(l, ops) && (op.Put? || op.Get? ==> Lacks(l, op.key))
    ensures Faithful(l, ops + [op]) && TouchedBefore(l, ops + [op], |ops|)
    decreases |l|
  {
    assert (ops + [op])[..|ops|] == ops;
    forall i | 0 <= i < |l|
      ensures LastTouch(ops + [op], l[i].key) == LastTouch(ops, l[i].key)
      ensures LastPut(ops + [op], l[i].key) == LastPut(ops, l[i].key)
    {
    }
    if l != [] {
      if op.Put? || op.Get? {
        LacksCons(l, op.key);
      }
      FaithfulOn(l[1..], ops, op);
      var rest := l[1..];
      assert forall i :: 0 <= i < |rest| ==> rest[i] == l[i + 1];
    }
  }

  lemma FaithfulFront<K, V>(l: seq<Entry<K, V>>, ops: seq<Op<K, V>>, op: Op<K, V>, val: V)
    requires Faithful(l, ops) && (op.Put? || op.Get?) && Lacks(l, op.key)
    requires if op.Put? then val == op.val else LastPut(ops, op.key) == Some(val)
    ensures Faithful([Entry(op.key, val)] + l, ops + [op])
  {
    FaithfulOn(l, ops, op);
    assert (ops + [op])[..|ops|] == ops;
    assert ([Entry(op.key, val)] + l)[1..] == l;
  }

  lemma {:induction false} FaithfulFind<K, V>(l: seq<Entry<K, V>>, ops: seq<Op<K, V>>, key: K)
    requires Faithful(l, ops) && Find(l, key).Some?
    ensures LastPut(ops, key) == Find(l, key)
  {
    if l[0].key != key {
      FaithfulFind(l[1..], ops, key);
    }
  }

  lemma NextFaithful<K, V>(capacity: nat, l: seq<Entry<K, V>>, ops: seq<Op<K, V>>, op: Op<K, V>)
    requires Distinct(l) && Faithful(l, ops)
    ensures Faithful(Next(capacity, l, op), ops + [op])
  {
    match op
    case Put(key, val) =>
      WithoutExact(l, key);
      LacksFind(l, key);
      FaithfulWithout(l, ops, key, 0);
      var rest := if Find(l, key).Some? then Without(l, key) else l;
      FaithfulFront(rest, ops, op, val);
      if Find(l, key).None? && |l| + 1 > capacity {
        FaithfulPrefix([Entry(key, val)] + l, ops + [op], capacity);
      }
    case Get(key) =>
      LacksFind(l, key);
      if Find(l, key).Some? {
        WithoutExact(l, key);
        FaithfulWithout(l, ops, key, 0);
        FaithfulFind(l, ops, key);
        FaithfulFront(Without(l, key), ops, op, Find(l, key).value);
      } else {
        FaithfulOn(l, ops, op);
      }
    case Remove(key) =>
      FaithfulWithout(l, ops, key, 0);
      FaithfulOn(Without(l, key), ops, op);
    case PopLru =>
      if l != [] {
        FaithfulPrefix(l, ops, |l| - 1);
        FaithfulOn(l[..|l| - 1], ops, op);
      }
    case PopMru =>
      if l != [] {
        FaithfulOn(l[1..], ops, op);
      }
    case Clear =>
  }

  lemma {:induction false} FaithfulAt<K, V>(l: seq<Entry<K, V>>, ops: seq<Op<K, V>>, i: nat, j: nat)
    requires Faithful(l, ops) && i <= j < |l|
    ensures LastPut(ops, l[j].key) == Some(l[j].val)
    ensures i < j ==> LastTouch(ops, l[i].key) > LastTouch(ops, l[j].key)
    decreases i
  {
    if i > 0 {
      FaithfulAt(l[1..], ops, i - 1, j - 1);
    } else if j > 0 {
      assert l[1..][j - 1] == l[j];
      FaithfulLater(l, ops, j);
    }
  }

  lemma {:induction false} FaithfulLater<K, V>(l: seq<Entry<K, V>>, ops: seq<Op<K, V>>, j: nat)
    requires Faithful(l, ops) && j < |l|
    ensures LastPut(ops, l[j].key) == Some(l[j].val)
    decreases j
  {
    if j > 0 {
      FaithfulLater(l[1..], ops, j - 1);
    }
  }

  /** After any trace, the entries are ordered by when their key was last put or asked for, most recent first (so
      what is evicted or popped from the end is the least recently used), and each holds the value last put. */
  lemma {:induction false} OrderIsRecency<K, V>(capacity: nat, ops: seq<Op<K, V>>)
    requires capacity > 0
    ensures Faithful(After(capacity, ops), ops) && Distinct(After(capacity, ops)) && |After(capacity, ops)| <= capacity
    ensures forall i, j :: 0 <= i < j < |After(capacity, ops)| ==>
              LastTouch(ops, After(capacity, ops)[i].key) > LastTouch(ops, After(capacity, ops)[j].key)
    ensures forall i :: 0 <= i < |After(capacity, ops)| ==>
              LastPut(ops, After(capacity, ops)[i].key) == Some(After(capacity, ops)[i].val)
    decreases |ops|
  {
    hide Next;
    hide Faithful;
    if ops != [] {
      var init, last := ops[..|ops| - 1], ops[|ops| - 1];
      OrderIsRecency(capacity, init);
      NextDistinct(capacity, After(capacity, init), last);
      NextFaithful(capacity, After(capacity, init), init, last);
      assert init + [last] == ops;
    } else {
      NothingFaithful<K, V>();
    }
    var l := After(capacity, ops);
    forall i, j | 0 <= i <= j < |l|
      ensures i < j ==> LastTouch(ops, l[i].key) > LastTouch(ops, l[j].key)
      ensures LastPut(ops, l[j].key) == Some(l[j].val)
    {
      FaithfulAt(l, ops, i, j);
    }
  }

  lemma NothingFaithful<K, V>()
    ensures Faithful<K, V>([], [])
  {
  }
}
