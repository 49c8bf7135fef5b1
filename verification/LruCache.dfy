/** The cache itself: a list of nodes, most recent first, and an index from keys to nodes. */
module LruCache {
  import opened Recency

  type Node = nat

  predicate NoDup(items: seq<Node>) {
    forall i, j :: 0 <= i < j < |items| ==> items[i] != items[j]
  }

  predicate Stored<K, V>(items: seq<Node>, cells: map<Node, Entry<K, V>>) {
    forall n :: n in items ==> n in cells
  }

  ghost function Entries<K, V>(items: seq<Node>, cells: map<Node, Entry<K, V>>): (l: seq<Entry<K, V>>)
    requires Stored(items, cells)
    ensures |l| == |items|
  {
    if items == [] then [] else [cells[items[0]]] + Entries(items[1..], cells)
  }

  function Drop(items: seq<Node>, node: Node): seq<Node> {
    if items == [] then [] else if items[0] == node then items[1..] else [items[0]] + Drop(items[1..], node)
  }

  /** The index leads from the key of each node to that node, and to nothing else. */
  ghost predicate Leads<K, V>(items: seq<Node>, cells: map<Node, Entry<K, V>>, index: map<K, Node>)
    requires Stored(items, cells)
  {
    && (forall n {:trigger n in items} :: n in items ==> cells[n].key in index && index[cells[n].key] == n)
    && (forall key {:trigger key in index} :: key in index ==> index[key] in items && cells[index[key]].key == key)
  }

  /** List and index agree. */
  ghost predicate Agree<K, V>(items: seq<Node>, cells: map<Node, Entry<K, V>>, index: map<K, Node>) {
    Stored(items, cells) && NoDup(items) && |index| == |items| && Leads(items, cells, index)
  }

  lemma {:induction false} EntryAt<K, V>(items: seq<Node>, cells: map<Node, Entry<K, V>>, i: nat)
    requires Stored(items, cells) && i < |items|
    ensures Entries(items, cells)[i] == cells[items[i]]
  {
    if i > 0 {
      EntryAt(items[1..], cells, i - 1);
    }
  }

  lemma AgreeDistinct<K, V>(items: seq<Node>, cells: map<Node, Entry<K, V>>, index: map<K, Node>)
    requires Agree(items, cells, index)
    ensures Distinct(Entries(items, cells))
  {
    var l := Entries(items, cells);
    forall i, j | 0 <= i < j < |l| ensures l[i].key != l[j].key {
      EntryAt(items, cells, i);
      EntryAt(items, cells, j);
      assert items[i] != items[j];
    }
  }

  /** The index finds exactly the keys in the list, with their values. */
  lemma {:induction false} Lookup<K, V>(items: seq<Node>, cells: map<Node, Entry<K, V>>, index: map<K, Node>, key: K)
    requires Agree(items, cells, index)
    ensures Find(Entries(items, cells), key) == if key in index then Some(cells[index[key]].val) else None
  {
    var l := Entries(items, cells);
    AgreeDistinct(items, cells, index);
    if key in index {
      var i :| 0 <= i < |items| && items[i] == index[key];
      EntryAt(items, cells, i);
      FoundAt(l, i);
    } else {
      forall i | 0 <= i < |l| ensures l[i].key != key {
        EntryAt(items, cells, i);
      }
      LacksFind(l, key);
    }
  }

  lemma {:induction false} FoundAt<K, V>(l: seq<Entry<K, V>>, i: nat)
    requires Distinct(l) && i < |l|
    ensures Find(l, l[i].key) == Some(l[i].val)
  {
    if i > 0 {
      DistinctCons(l);
      assert l[1..][i - 1] == l[i];
      FoundAt(l[1..], i - 1);
    }
  }

  /** Unlinking a node removes its key from the list. */
  lemma {:induction false} DropEntry<K, V>(items: seq<Node>, cells: map<Node, Entry<K, V>>, node: Node)
    requires Stored(items, cells) && node in items && Distinct(Entries(items, cells))
    ensures Stored(Drop(items, node), cells)
    ensures Entries(Drop(items, node), cells) == Without(Entries(items, cells), cells[node].key)
  {
    var l := Entries(items, cells);
    if items[0] != node {
      DistinctCons(l);
      assert l[1..] == Entries(items[1..], cells);
      DropEntry(items[1..], cells, node);
      var i :| 0 <= i < |items[1..]| && items[1..][i] == node;
      EntryAt(items[1..], cells, i);
      var d := [items[0]] + Drop(items[1..], node);
      assert d[1..] == Drop(items[1..], node);
    }
  }

  lemma {:induction false} DropNodes(items: seq<Node>, node: Node)
    requires NoDup(items)
    ensures NoDup(Drop(items, node)) && |Drop(items, node)| == if node in items then |items| - 1 else |items|
    ensures forall x :: x in Drop(items, node) <==> x in items && x != node
  {
    if items != [] {
      DropNodes(items[1..], node);
      assert forall x :: x in items <==> x == items[0] || x in items[1..];
      assert items[0] !in items[1..];
      if items[0] != node {
        var d := [items[0]] + Drop(items[1..], node);
        assert forall x :: x in d <==> x == items[0] || x in Drop(items[1..], node);
      }
    }
  }

  lemma ConsNoDup(node: Node, items: seq<Node>)
    requires NoDup(items) && node !in items
    ensures NoDup([node] + items)
  {
    var r := [node] + items;
    assert forall i :: 1 <= i < |r| ==> r[i] == items[i - 1] && items[i - 1] in items;
  }

  lemma MapMinus<K, V>(m: map<K, V>, key: K)
    requires key in m
    ensures |m - {key}| == |m| - 1
  {
    assert (m - {key}).Keys == m.Keys - {key};
  }

  lemma MapPlus<K, V>(m: map<K, V>, key: K, val: V)
    requires key !in m
    ensures |m[key := val]| == |m| + 1
  {
    assert m[key := val].Keys == m.Keys + {key};
  }

  lemma Removed<K, V>(items: seq<Node>, cells: map<Node, Entry<K, V>>, index: map<K, Node>, node: Node)
    requires Agree(items, cells, index) && node in items
    ensures var key := cells[node].key;
            && Agree(Drop(items, node), cells, index - {key})
            && Entries(Drop(items, node), cells) == Without(Entries(items, cells), key)
  {
    AgreeDistinct(items, cells, index);
    DropEntry(items, cells, node);
    DropNodes(items, node);
    hide Drop;
    hide NoDup;
    hide Entries;
    hide Without;
    MapMinus(index, cells[node].key);
    LeadsRemoved(items, Drop(items, node), cells, index, node);
  }

  lemma LeadsRemoved<K, V>(
    items: seq<Node>, fewer: seq<Node>, cells: map<Node, Entry<K, V>>, index: map<K, Node>, node: Node)
    requires Stored(items, cells) && Leads(items, cells, index) && node in items
    requires forall x :: x in fewer <==> x in items && x != node
    ensures Stored(fewer, cells) && Leads(fewer, cells, index - {cells[node].key})
  {
  }

  lemma Fronted<K, V>(items: seq<Node>, cells: map<Node, Entry<K, V>>, index: map<K, Node>, node: Node)
    requires Agree(items, cells, index) && node in items
    ensures var r := [node] + Drop(items, node);
            && Agree(r, cells, index)
            && Entries(r, cells) == [cells[node]] + Without(Entries(items, cells), cells[node].key)
  {
    AgreeDistinct(items, cells, index);
    DropEntry(items, cells, node);
    DropNodes(items, node);
    var d := Drop(items, node);
    var r := [node] + d;
    assert r[1..] == d;
    ConsNoDup(node, d);
    hide Drop;
    hide NoDup;
    hide Without;
    assert forall x :: x in r <==> x == node || x in d;
    LeadsSame(items, r, cells, index);
  }

  lemma LeadsSame<K, V>(items: seq<Node>, other: seq<Node>, cells: map<Node, Entry<K, V>>, index: map<K, Node>)
    requires Stored(items, cells) && Leads(items, cells, index) && forall x :: x in other <==> x in items
    ensures Stored(other, cells) && Leads(other, cells, index)
  {
  }

  lemma {:induction false} EntriesSame<K, V>(
    items: seq<Node>, cells: map<Node, Entry<K, V>>, other: map<Node, Entry<K, V>>)
    requires Stored(items, cells) && Stored(items, other)
    requires forall n :: n in items ==> cells[n] == other[n]
    ensures Entries(items, cells) == Entries(items, other)
  {
    if items != [] {
      EntriesSame(items[1..], cells, other);
    }
  }

  /** Giving a node a new value under its key. */
  lemma Rewritten<K, V>(items: seq<Node>, cells: map<Node, Entry<K, V>>, index: map<K, Node>, key: K, val: V)
    requires Agree(items, cells, index) && key in index
    ensures var node := index[key];
            var now := cells[node := Entry(key, val)];
            && node in items && cells[node].key == key && Agree(items, now, index)
            && Without(Entries(items, now), key) == Without(Entries(items, cells), key)
  {
    var node := index[key];
    var now := cells[node := Entry(key, val)];
    AgreeDistinct(items, cells, index);
    AgreeDistinct(items, now, index);
    DropEntry(items, cells, node);
    DropEntry(items, now, node);
    DropNodes(items, node);
    var d := Drop(items, node);
    hide Drop;
    EntriesSame(d, cells, now);
  }

  lemma Inserted<K, V>(
    items: seq<Node>, cells: map<Node, Entry<K, V>>, index: map<K, Node>, node: Node, e: Entry<K, V>)
    requires Agree(items, cells, index) && node !in items && e.key !in index
    ensures var now := cells[node := e];
            && Agree([node] + items, now, index[e.key := node])
            && Entries([node] + items, now) == [e] + Entries(items, cells)
  {
    var now := cells[node := e];
    var r := [node] + items;
    EntriesSame(items, cells, now);
    assert r[1..] == items;
    assert Entries(r, now) == [e] + Entries(items, now);
    hide Entries;
    ConsNoDup(node, items);
    MapPlus(index, e.key, node);
    hide NoDup;
    assert forall x :: x in r <==> x == node || x in items;
    LeadsInserted(items, r, cells, index, node, e);
  }

  lemma LeadsInserted<K, V>(
    items: seq<Node>, more: seq<Node>, cells: map<Node, Entry<K, V>>, index: map<K, Node>, node: Node, e: Entry<K, V>)
    requires Stored(items, cells) && Leads(items, cells, index) && node !in items && e.key !in index
    requires forall x :: x in more <==> x == node || x in items
    ensures Stored(more, cells[node := e]) && Leads(more, cells[node := e], index[e.key := node])
  {
  }

  /** Unlinking the last node. */
  lemma {:induction false} DropLast(items: seq<Node>)
    requires items != [] && NoDup(items)
    ensures Drop(items, items[|items| - 1]) == items[..|items| - 1]
  {
    if |items| > 1 {
      assert items[1..][|items| - 2] == items[|items| - 1];
      DropLast(items[1..]);
      assert [items[0]] + items[1..][..|items| - 2] == items[..|items| - 1];
    }
  }

  lemma {:induction false} EntriesInit<K, V>(items: seq<Node>, cells: map<Node, Entry<K, V>>)
    requires items != [] && Stored(items, cells)
    ensures Entries(items[..|items| - 1], cells) == Entries(items, cells)[..|items| - 1]
  {
    if |items| > 1 {
      var rest := items[1..];
      EntriesInit(rest, cells);
      assert items[..|items| - 1][1..] == rest[..|rest| - 1];
      var l := Entries(rest, cells);
      assert ([cells[items[0]]] + l)[..|items| - 1] == [cells[items[0]]] + l[..|rest| - 1];
    }
  }

  lemma RemovedLast<K, V>(items: seq<Node>, cells: map<Node, Entry<K, V>>, index: map<K, Node>)
    requires Agree(items, cells, index) && items != []
    ensures var init := items[..|items| - 1];
            && Agree(init, cells, index - {cells[items[|items| - 1]].key})
            && Entries(init, cells) == Entries(items, cells)[..|items| - 1]
            && forall x :: x in init ==> x in items
  {
    Removed(items, cells, index, items[|items| - 1]);
    DropLast(items);
    EntriesInit(items, cells);
  }

  lemma RemovedFirst<K, V>(items: seq<Node>, cells: map<Node, Entry<K, V>>, index: map<K, Node>)
    requires Agree(items, cells, index) && items != []
    ensures items[0] in cells
            && Agree(items[1..], cells, index - {cells[items[0]].key})
            && Entries(items[1..], cells) == Entries(items, cells)[1..]
            && Entries(items, cells)[0] == cells[items[0]]
            && forall x :: x in items[1..] ==> x in items
  {
    Removed(items, cells, index, items[0]);
  }

  class Cache<K(==), V> {
    const capacity: nat
    var items: seq<Node>
    var cells: map<Node, Entry<K, V>>
    var index: map<K, Node>
    var next: Node

    ghost predicate Coherent()
      reads this
    {
      Agree(items, cells, index) && forall n :: n in items ==> n < next
    }

    ghost predicate Valid()
      reads this
    {
      Coherent() && 0 < capacity && |items| <= capacity
    }

    /** The entries, most recent first. */
    ghost function Contents(): (l: seq<Entry<K, V>>)
      reads this
      requires Coherent()
    {
      Entries(items, cells)
    }

    constructor (capacity: nat)
      requires capacity > 0
      ensures Valid() && Contents() == [] && this.capacity == capacity
    {
      this.capacity := capacity;
      items, cells, index, next := [], map[], map[], 0;
    }

    method Touch(node: Node)
      requires Coherent() && node in items
      modifies `items
      ensures Coherent() && |items| == |old(items)|
      ensures Contents() == [cells[node]] + Without(old(Contents()), cells[node].key)
    {
      Fronted(items, cells, index, node);
      DropNodes(items, node);
      if items[0] != node {
        var r := [node] + Drop(items, node);
        assert forall n :: n in r <==> n == node || n in Drop(items, node);
        items := r;
      } else {
        assert [node] + Drop(items, node) == items;
      }
    }

    /** Unlinks the least recent node. */
    method DropBack() returns (e: Entry<K, V>)
      requires Coherent() && items != []
      modifies `items, `index
      ensures Coherent() && |items| == |old(items)| - 1 && Contents() == old(Contents())[..|items|]
      ensures e == old(Contents())[|old(Contents())| - 1]
    {
      hide Leads;
      hide NoDup;
      hide Entries;
      var last := |items| - 1;
      EntryAt(items, cells, last);
      RemovedLast(items, cells, index);
      e := cells[items[last]];
      hide Agree;
      index := index - {e.key};
      items := items[..last];
    }

    /** Evicts least recent entries until the cache fits, and reports them, the least recent first. */
    method EvictIfNeeded() returns (evicted: seq<Entry<K, V>>)
      requires Coherent() && 0 < capacity
      modifies `items, `index
      ensures Valid() && Contents() == Trim(capacity, old(Contents()))
      ensures |evicted| + |Contents()| == |old(Contents())|
      ensures forall i :: 0 <= i < |evicted| ==> evicted[i] == old(Contents())[|old(Contents())| - 1 - i]
    {
      hide Entries;
      hide NoDup;
      hide Leads;
      hide Stored;
      ghost var was := Contents();
      evicted := [];
      while |index| > capacity
        invariant Coherent() && |evicted| + |items| == |was|
        invariant Contents() == was[..|items|] && (|was| > capacity ==> |items| >= capacity)
        invariant |was| <= capacity ==> |items| == |was|
        invariant forall i :: 0 <= i < |evicted| ==> evicted[i] == was[|was| - 1 - i]
        decreases |items|
      {
        var e := DropBack();
        evicted := evicted + [e];
      }
      assert was[..|was|] == was;
    }

    method Put(key: K, val: V) returns (evicted: seq<Entry<K, V>>)
      requires Valid()
      modifies `items, `cells, `index, `next
      ensures Valid() && Contents() == Next(capacity, old(Contents()), Op.Put(key, val))
      ensures evicted == if Find(old(Contents()), key).Some? || |old(Contents())| < capacity then []
                         else [old(Contents())[|old(Contents())| - 1]]
    {
      hide Entries;
      hide Without;
      hide Find;
      hide NoDup;
      hide Leads;
      Lookup(items, cells, index, key);
      if key in index {
        var node := index[key];
        Rewritten(items, cells, index, key, val);
        cells := cells[node := Entry(key, val)];
        Touch(node);
        return [];
      }
      Inserted(items, cells, index, next, Entry(key, val));
      items := [next] + items;
      cells := cells[next := Entry(key, val)];
      index := index[key := next];
      next := next + 1;
      evicted := EvictIfNeeded();
    }

    method Get(key: K) returns (r: Option<V>)
      requires Valid()
      modifies `items
      ensures Valid() && Contents() == Next(capacity, old(Contents()), Op.Get(key))
      ensures r == Find(old(Contents()), key)
    {
      hide Entries;
      Lookup(items, cells, index, key);
      if key !in index {
        return None;
      }
      Touch(index[key]);
      r := Some(cells[index[key]].val);
    }

    method Remove(key: K) returns (found: bool)
      requires Valid()
      modifies `items, `index
      ensures Valid() && Contents() == Next(capacity, old(Contents()), Op.Remove(key))
      ensures found == Find(old(Contents()), key).Some?
    {
      hide Entries;
      Lookup(items, cells, index, key);
      if key !in index {
        LacksFind(Contents(), key);
        WithoutAbsent(Contents(), key);
        return false;
      }
      Removed(items, cells, index, index[key]);
      DropNodes(items, index[key]);
      var r := Drop(items, index[key]);
      items := r;
      index := index - {key};
      found := true;
    }

    method PopLru() returns (r: Option<Entry<K, V>>)
      requires Valid()
      modifies `items, `index
      ensures Valid() && Contents() == Next(capacity, old(Contents()), Op.PopLru)
      ensures r == if old(Contents()) == [] then None else Some(old(Contents())[|old(Contents())| - 1])
    {
      if items == [] {
        return None;
      }
      var e := DropBack();
      r := Some(e);
    }

    method PopMru() returns (r: Option<Entry<K, V>>)
      requires Valid()
      modifies `items, `index
      ensures Valid() && Contents() == Next(capacity, old(Contents()), Op.PopMru)
      ensures r == if old(Contents()) == [] then None else Some(old(Contents())[0])
    {
      hide Agree;
      hide Entries;
      hide Find;
      hide Without;
      if items == [] {
        return None;
      }
      RemovedFirst(items, cells, index);
      r := Some(cells[items[0]]);
      index := index - {cells[items[0]].key};
      items := items[1..];
    }

    method ClearAll()
      requires Valid()
      modifies `items, `index
      ensures Valid() && Contents() == Next(capacity, old(Contents()), Op.Clear)
    {
      items, index := [], map[];
    }
  }

  /** A whole trace on a new cache. */
  method Replay<K(==), V>(capacity: nat, ops: seq<Op<K, V>>) returns (cache: Cache<K, V>)
    requires capacity > 0
    ensures fresh(cache) && cache.Valid() && cache.capacity == capacity && cache.Contents() == After(capacity, ops)
  {
    cache := new Cache(capacity);
    hide Next;
    hide Entries;
    for i := 0 to |ops|
      invariant cache.Valid() && cache.Contents() == After(capacity, ops[..i])
    {
      assert ops[..i + 1][..i] == ops[..i];
      match ops[i] {
        case Put(key, val) => var _ := cache.Put(key, val);
        case Get(key) => var _ := cache.Get(key);
        case Remove(key) => var _ := cache.Remove(key);
        case PopLru => var _ := cache.PopLru();
        case PopMru => var _ := cache.PopMru();
        case Clear => cache.ClearAll();
      }
    }
    assert ops[..|ops|] == ops;
  }
}
