/** Configuration values as a tree of objects and arrays addressed by dotted paths. */
module ConfigTree {

  const TWO64: nat := 0x1_0000_0000_0000_0000

  /** The longest a vector of values may be; resizing beyond it throws. Any size below 2^63 will do. */
  type VectorSize = n: nat | 0 < n < 0x8000_0000_0000_0000 witness 1

  const MAX_ITEMS: VectorSize

  datatype Option<T> = None | Some(value: T)

  datatype Value = Null | Scalar(n: int) | Arr(items: seq<Value>) | Obj(fields: map<string, Value>)

  // ----- segments -----

  predicate IsDigit(c: char) {
    '0' <= c <= '9'
  }

  predicate IsIndex(seg: string) {
    seg != "" && forall i :: 0 <= i < |seg| ==> IsDigit(seg[i])
  }

  /** The number a segment of digits stands for, modulo 2^64. */
  function ParseIndex(seg: string): (n: nat)
    requires forall i :: 0 <= i < |seg| ==> IsDigit(seg[i])
    ensures n < TWO64
  {
    if seg == "" then 0
    else (ParseIndex(seg[..|seg| - 1]) * 10 + (seg[|seg| - 1] as int - '0' as int)) % TWO64
  }

  function Digit(d: nat): (c: char)
    requires d < 10
    ensures IsDigit(c) && c as int - '0' as int == d
  {
    '0' + d as char
  }

  function Digits(n: nat): (s: string)
    ensures IsIndex(s)
  {
    if n < 10 then [Digit(n)] else Digits(n / 10) + [Digit(n % 10)]
  }

  lemma {:induction false} ParseDigits(n: nat)
    requires n < TWO64
    ensures ParseIndex(Digits(n)) == n
  {
    if n < 10 {
      assert ParseIndex("") == 0;
      assert Digits(n)[..0] == "";
    } else {
      ParseDigits(n / 10);
      assert Digits(n)[..|Digits(n)| - 1] == Digits(n / 10);
    }
  }

  /** An index without leading zeros. */
  predicate Canonical(seg: string) {
    IsIndex(seg) ==> seg == Digits(ParseIndex(seg))
  }

  // ----- paths -----

  function Find(path: string, from: nat): (pos: nat)
    requires from <= |path|
    ensures from <= pos <= |path|
    ensures pos < |path| ==> path[pos] == '.'
    ensures forall i :: from <= i < pos ==> path[i] != '.'
    decreases |path| - from
  {
    if from == |path| || path[from] == '.' then from else Find(path, from + 1)
  }

  function SplitFrom(path: string, begin: nat): (parts: seq<string>)
    requires begin <= |path|
    ensures parts != []
    decreases |path| - begin
  {
    var pos := Find(path, begin);
    if pos == |path| then [path[begin..]] else [path[begin..pos]] + SplitFrom(path, pos + 1)
  }

  function Split(path: string): seq<string> {
    if path == "" then [] else SplitFrom(path, 0)
  }

  predicate NoDots(seg: string) {
    forall i :: 0 <= i < |seg| ==> seg[i] != '.'
  }

  predicate Plain(segs: seq<string>) {
    forall i :: 0 <= i < |segs| ==> NoDots(segs[i])
  }

  function Joined(segs: seq<string>): string {
    if segs == [] then "" else if |segs| == 1 then segs[0] else segs[0] + "." + Joined(segs[1..])
  }

  lemma {:induction false} SplitPlain(path: string, begin: nat)
    requires begin <= |path|
    ensures Plain(SplitFrom(path, begin)) && Joined(SplitFrom(path, begin)) == path[begin..]
    decreases |path| - begin
  {
    var pos := Find(path, begin);
    SliceAtDot(path, begin, pos);
    hide Find;
    hide NoDots;
    hide Joined;
    if pos < |path| {
      SplitPlain(path, pos + 1);
      ConsJoined(path[begin..pos], SplitFrom(path, pos + 1));
    } else {
      OneJoined(path[begin..]);
    }
  }

  lemma SliceAtDot(path: string, begin: nat, pos: nat)
    requires begin <= pos <= |path| && (pos < |path| ==> path[pos] == '.')
    requires forall i :: begin <= i < pos ==> path[i] != '.'
    ensures NoDots(path[begin..pos]) && (pos == |path| ==> path[begin..pos] == path[begin..])
    ensures pos < |path| ==> path[begin..] == path[begin..pos] + "." + path[pos + 1..]
  {
  }

  lemma OneJoined(seg: string)
    ensures Joined([seg]) == seg
  {
  }

  lemma ConsJoined(seg: string, segs: seq<string>)
    requires NoDots(seg) && Plain(segs) && segs != []
    ensures Plain([seg] + segs) && Joined([seg] + segs) == seg + "." + Joined(segs)
  {
    assert ([seg] + segs)[1..] == segs;
  }

  lemma FindDot(seg: string, rest: string, pre: string)
    requires NoDots(seg)
    ensures Find(pre + seg + "." + rest, |pre|) == |pre| + |seg|
    ensures Find(pre + seg, |pre|) == |pre| + |seg|
  {
    var p := pre + seg + "." + rest;
    var pos := Find(p, |pre|);
    assert forall i :: |pre| <= i < |pre| + |seg| ==> p[i] == seg[i - |pre|];
    assert p[|pre| + |seg|] == '.';
    var q := pre + seg;
    assert forall i :: |pre| <= i < |q| ==> q[i] == seg[i - |pre|];
  }

  lemma {:induction false} SplitJoinedFrom(pre: string, segs: seq<string>)
    requires segs != [] && Plain(segs)
    ensures SplitFrom(pre + Joined(segs), |pre|) == segs
    decreases |segs|
  {
    hide SplitFrom;
    hide NoDots;
    if |segs| == 1 {
      SplitLast(pre, segs[0]);
      assert [segs[0]] == segs;
    } else {
      SplitFront(pre, segs[0], Joined(segs[1..]));
      SplitJoinedFrom(pre + segs[0] + ".", segs[1..]);
      assert [segs[0]] + segs[1..] == segs;
    }
  }

  lemma SplitLast(pre: string, seg: string)
    requires NoDots(seg)
    ensures SplitFrom(pre + seg, |pre|) == [seg]
  {
    hide Find;
    hide SplitFrom;
    FindDot(seg, "", pre);
    SplitStep(pre + seg, |pre|);
    assert (pre + seg)[|pre|..] == seg;
  }

  lemma SplitFront(pre: string, seg: string, rest: string)
    requires NoDots(seg)
    ensures SplitFrom(pre + (seg + "." + rest), |pre|) ==
              [seg] + SplitFrom((pre + seg + ".") + rest, |pre + seg + "."|)
  {
    hide Find;
    hide SplitFrom;
    FindDot(seg, rest, pre);
    Rebuild(pre, seg, rest);
    SplitStep(pre + seg + "." + rest, |pre|);
  }

  lemma SplitStep(path: string, begin: nat)
    requires begin <= |path|
    ensures var pos := Find(path, begin);
            SplitFrom(path, begin) ==
              if pos == |path| then [path[begin..]] else [path[begin..pos]] + SplitFrom(path, pos + 1)
  {
  }

  lemma Rebuild(pre: string, seg: string, rest: string)
    ensures pre + (seg + "." + rest) == pre + seg + "." + rest == (pre + seg + ".") + rest
    ensures |pre + seg + "."| == |pre| + |seg| + 1
    ensures (pre + seg + "." + rest)[|pre|..|pre| + |seg|] == seg
  {
  }

  /** Splitting undoes joining. */
  lemma SplitJoined(segs: seq<string>)
    requires Plain(segs) && Joined(segs) != ""
    ensures Split(Joined(segs)) == segs
  {
    SplitJoinedFrom("", segs);
    assert "" + Joined(segs) == Joined(segs);
  }

  /** Joining undoes splitting. */
  lemma JoinedSplit(path: string)
    ensures Plain(Split(path)) && Joined(Split(path)) == path
  {
    if path != "" {
      SplitPlain(path, 0);
    }
  }

  // ----- reading and writing -----

  function Child(v: Value, seg: string): Option<Value> {
    if IsIndex(seg) then
      if v.Arr? && ParseIndex(seg) < |v.items| then Some(v.items[ParseIndex(seg)]) else None
    else if v.Obj? && seg in v.fields then Some(v.fields[seg])
    else None
  }

  function GetAt(v: Value, segs: seq<string>): Option<Value>
    decreases |segs|
  {
    if segs == [] then Some(v)
    else match Child(v, segs[0])
      case None => None
      case Some(child) => GetAt(child, segs[1..])
  }

  function Get(root: Value, path: string): Option<Value> {
    GetAt(root, Split(path))
  }

  /** Cuts an array or grows it with nulls. */
  function Resized(items: seq<Value>, n: nat): (r: seq<Value>)
    ensures |r| == n
    ensures forall i :: 0 <= i < n ==> r[i] == if i < |items| then items[i] else Null
  {
    if |items| < n then items + seq(n - |items|, i => Null) else items[..n]
  }

  /** How an assignment ends: done, stopped by the length error of a vector with the tree as it was by then, or by
      a write past the end of an array. */
  datatype Outcome = Done(tree: Value) | Thrown(tree: Value) | Overrun

  function Items(v: Value): seq<Value> {
    if v.Arr? then v.items else []
  }

  /** Makes `v` the container the segment needs, throwing away one of the other kind, and puts a child in it. The
      length an array grows to is computed modulo 2^64. */
  function Put(v: Value, seg: string, child: Value): Outcome {
    if IsIndex(seg) then
      var i, items := ParseIndex(seg), Items(v);
      var n := (i + 1) % TWO64;
      if i < |items| then Done(Arr(items[i := child]))
      else if n > MAX_ITEMS then Thrown(Arr(items))
      else if i >= n then Overrun
      else Done(Arr(Resized(items, n)[i := child]))
    else
      Done(Obj((if v.Obj? then v.fields else map[])[seg := child]))
  }

  function Slot(v: Value, seg: string): Value {
    match Child(v, seg) case None => Null case Some(c) => c
  }

  /** The container is made ready before the assignment goes on below it. */
  function Assign(v: Value, segs: seq<string>, x: Value): Outcome
    decreases |segs|
  {
    if segs == [] then Done(x)
    else if !Put(v, segs[0], Null).Done? then Put(v, segs[0], Null)
    else match Assign(Slot(v, segs[0]), segs[1..], x)
      case Done(child) => Put(v, segs[0], child)
      case Thrown(child) => Thrown(Put(v, segs[0], child).tree)
      case Overrun => Overrun
  }

  function Set(root: Value, path: string, x: Value): Outcome {
    Assign(root, Split(path), x)
  }

  lemma {:induction false} ParseZero(seg: string)
    requires forall i :: 0 <= i < |seg| ==> IsDigit(seg[i])
    ensures forall i :: 0 <= i < |"0" + seg| ==> IsDigit(("0" + seg)[i])
    ensures ParseIndex("0" + seg) == ParseIndex(seg)
  {
    if seg == "" {
      assert "0" + seg == "0" && "0"[..0] == "";
    } else {
      ParseZero(seg[..|seg| - 1]);
      assert ("0" + seg)[..|seg|] == "0" + seg[..|seg| - 1];
    }
  }

  /** Digits are an index however they are written: zeros in front lead to the same element, in reading and in
      writing. */
  lemma ZeroInFront(v: Value, seg: string, child: Value)
    requires IsIndex(seg)
    ensures IsIndex("0" + seg) && Child(v, "0" + seg) == Child(v, seg) && Put(v, "0" + seg, child) == Put(v, seg, child)
  {
    ParseZero(seg);
    hide ParseIndex;
  }

  // ----- how a set ends -----

  /** Arrays are no longer than a vector can be, as in every program. */
  predicate Sized(v: Value) {
    match v
    case Obj(fields) => forall key :: key in fields ==> Sized(fields[key])
    case Arr(items) => |items| <= MAX_ITEMS && forall i :: 0 <= i < |items| ==> Sized(items[i])
    case _ => true
  }

  /** An index that a vector can have. */
  predicate Within(seg: string) {
    IsIndex(seg) ==> ParseIndex(seg) < MAX_ITEMS
  }

  predicate Reachable(segs: seq<string>) {
    forall i :: 0 <= i < |segs| ==> Within(segs[i])
  }

  /** The first index that no vector has is the greatest of all, whose successor wraps to 0. */
  predicate Overruns(segs: seq<string>) {
    segs != [] && if Within(segs[0]) then Overruns(segs[1..]) else ParseIndex(segs[0]) == TWO64 - 1
  }

  lemma PutEnds(v: Value, seg: string, child: Value)
    requires Sized(v)
    ensures Put(v, seg, child).Done? <==> Within(seg)
    ensures Put(v, seg, child).Overrun? <==> !Within(seg) && ParseIndex(seg) == TWO64 - 1
    ensures !Within(seg) ==> Put(v, seg, child) == Put(v, seg, Null)
    ensures Put(v, seg, child).Thrown? ==> Put(v, seg, child).tree == Arr(Items(v))
  {
    hide ParseIndex;
  }

  lemma ReachableFirst(segs: seq<string>)
    requires segs != []
    ensures Reachable(segs) <==> Within(segs[0]) && Reachable(segs[1..])
  {
    hide Within;
    assert forall i :: 0 <= i < |segs| - 1 ==> segs[1..][i] == segs[i + 1];
    assert forall i :: 1 <= i < |segs| ==> segs[i] == segs[1..][i - 1];
  }

  /** Exactly when an assignment is done, throws, or writes past an array: the first index that no vector has
      decides. */
  lemma {:induction false} AssignDefined(v: Value, segs: seq<string>, x: Value)
    requires Sized(v)
    ensures Assign(v, segs, x).Done? <==> Reachable(segs)
    ensures Assign(v, segs, x).Overrun? <==> Overruns(segs)
    decreases |segs|
  {
    if segs != [] {
      hide Within;
      hide Put;
      hide Reachable;
      ReachableFirst(segs);
      PutEnds(v, segs[0], Null);
      AssignDefined(Slot(v, segs[0]), segs[1..], x);
      match Assign(Slot(v, segs[0]), segs[1..], x)
      case Overrun =>
      case done => PutEnds(v, segs[0], done.tree);
    } else {
      assert Reachable(segs);
    }
  }

  lemma ChildPut(v: Value, seg: string, child: Value)
    ensures Put(v, seg, child).Done? ==> Child(Put(v, seg, child).tree, seg) == Some(child)
    ensures Put(v, seg, child).Thrown? ==> Child(Put(v, seg, child).tree, seg) == None
    ensures Put(v, seg, child).Done? <==> Put(v, seg, Null).Done?
  {
  }

  /** After an assignment, reading at or below the assigned path reads the assigned value. */
  lemma {:induction false} GetBelow(v: Value, segs: seq<string>, x: Value, more: seq<string>)
    requires Assign(v, segs, x).Done?
    ensures GetAt(Assign(v, segs, x).tree, segs + more) == GetAt(x, more)
    decreases |segs|
  {
    hide Put;
    hide Child;
    hide Slot;
    if segs == [] {
      assert segs + more == more;
    } else {
      GetBelow(Slot(v, segs[0]), segs[1..], x, more);
      ChildPut(v, segs[0], Assign(Slot(v, segs[0]), segs[1..], x).tree);
      assert (segs + more)[1..] == segs[1..] + more;
    }
  }

  lemma BelowThrows(v: Value, segs: seq<string>, x: Value)
    requires segs != [] && Assign(v, segs, x).Thrown? && Put(v, segs[0], Null).Done?
    ensures Assign(Slot(v, segs[0]), segs[1..], x).Thrown?
  {
    hide Put;
    hide Child;
    hide Slot;
    match Assign(Slot(v, segs[0]), segs[1..], x)
    case Done(child) => ChildPut(v, segs[0], child);
    case _ =>
  }

  /** After one that threw, reading the path finds nothing. */
  lemma {:induction false} GetThrown(v: Value, segs: seq<string>, x: Value)
    requires Assign(v, segs, x).Thrown?
    ensures GetAt(Assign(v, segs, x).tree, segs) == None
    decreases |segs|
  {
    hide Put;
    hide Child;
    hide Slot;
    ChildPut(v, segs[0], Null);
    if Put(v, segs[0], Null).Done? {
      BelowThrows(v, segs, x);
      GetThrown(Slot(v, segs[0]), segs[1..], x);
      ChildPut(v, segs[0], Assign(Slot(v, segs[0]), segs[1..], x).tree);
    }
  }

  /** Get after set, for every tree, path and value: get returns the value if and only if every index of the path
      is one that a vector can have; otherwise the set throws and get finds nothing, or, if the first index past
      the limit is 2^64 - 1, it writes past the end of an array. */
  lemma GetSet(root: Value, path: string, x: Value)
    requires Sized(root)
    ensures Set(root, path, x).Done? <==> Reachable(Split(path))
    ensures Set(root, path, x).Overrun? <==> Overruns(Split(path))
    ensures Set(root, path, x).Done? ==> Get(Set(root, path, x).tree, path) == Some(x)
    ensures Set(root, path, x).Thrown? ==> Get(Set(root, path, x).tree, path) == None
  {
    AssignDefined(root, Split(path), x);
    match Set(root, path, x)
    case Done(_) =>
      GetBelow(root, Split(path), x, []);
      assert Split(path) + [] == Split(path);
    case Thrown(_) => GetThrown(root, Split(path), x);
    case Overrun =>
  }

  lemma IndexPath(n: nat)
    requires n < TWO64
    ensures var path := Digits(n);
            IsIndex(path) && ParseIndex(path) == n && Split(path) == [path] && Plain([path])
  {
    var path := Digits(n);
    ParseDigits(n);
    assert forall i :: 0 <= i < |path| ==> IsDigit(path[i]);
    hide Digits;
    hide ParseIndex;
    OneJoined(path);
    assert Plain([path]);
    SplitJoined([path]);
  }

  /** The index 18446744073709551615 resizes the array to nothing and writes past its end. */
  lemma GreatestIndex(x: Value)
    ensures Set(Obj(map[]), Digits(TWO64 - 1), x) == Overrun
  {
    var path := Digits(TWO64 - 1);
    IndexPath(TWO64 - 1);
    hide Digits;
    hide ParseIndex;
    AssignDefined(Obj(map[]), [path], x);
    assert Overruns([path]);
  }

  /** The index 9223372036854775807 throws, and has by then made an empty array of the root. */
  lemma LongIndex(x: Value)
    ensures Set(Obj(map[]), Digits(TWO64 / 2 - 1), x) == Thrown(Arr([]))
  {
    IndexPath(TWO64 / 2 - 1);
    hide Digits;
    hide ParseIndex;
  }

  // ----- what a throw leaves behind -----

  /** How many segments come before the first index that no vector has. */
  function Stops(segs: seq<string>): (k: nat)
    ensures k <= |segs|
  {
    if segs == [] || !Within(segs[0]) then 0 else 1 + Stops(segs[1..])
  }

  /** The array found there, or an empty one. */
  function ArrayAt(v: Value, segs: seq<string>): Value {
    match GetAt(v, segs) case None => Arr([]) case Some(c) => Arr(Items(c))
  }

  lemma NullBelow(segs: seq<string>)
    ensures ArrayAt(Null, segs) == Arr([])
  {
    assert segs != [] ==> Child(Null, segs[0]) == None;
  }

  lemma ArrayBelow(v: Value, segs: seq<string>)
    requires segs != []
    ensures ArrayAt(v, segs) == ArrayAt(Slot(v, segs[0]), segs[1..])
  {
    if Child(v, segs[0]).None? {
      NullBelow(segs[1..]);
    }
  }

  /** A set that throws has set the array that would not grow, at the path up to it, and nothing else. */
  lemma {:induction false} ThrownIsArraySet(v: Value, segs: seq<string>, x: Value)
    requires Sized(v) && Assign(v, segs, x).Thrown?
    ensures var front := segs[..Stops(segs)];
            Assign(v, front, ArrayAt(v, front)) == Done(Assign(v, segs, x).tree)
    decreases |segs|
  {
    hide Within;
    hide Put;
    hide Child;
    hide Slot;
    hide ArrayAt;
    var front := segs[..Stops(segs)];
    PutEnds(v, segs[0], Null);
    if Within(segs[0]) {
      var rest := segs[1..];
      SlotSized(v, segs[0]);
      BelowThrows(v, segs, x);
      ThrownIsArraySet(Slot(v, segs[0]), rest, x);
      assert front[0] == segs[0] && front[1..] == rest[..Stops(rest)];
      ArrayBelow(v, front);
      PutEnds(v, segs[0], Assign(Slot(v, segs[0]), rest, x).tree);
    } else {
      assert front == [];
      ArrayHere(v);
    }
  }

  lemma ArrayHere(v: Value)
    ensures ArrayAt(v, []) == Arr(Items(v))
  {
  }

  lemma SlotSized(v: Value, seg: string)
    requires Sized(v)
    ensures Sized(Slot(v, seg))
  {
  }

  /** Two segments that select the same child. */
  predicate SameSlot(a: string, b: string) {
    if IsIndex(a) && IsIndex(b) then ParseIndex(a) == ParseIndex(b) else a == b
  }

  /** Neither path leads through the other's end. */
  predicate Apart(p: seq<string>, q: seq<string>) {
    p != [] && q != [] && (SameSlot(p[0], q[0]) ==> Apart(p[1..], q[1..]))
  }

  /** Where two paths part, both address an array or both an object. */
  predicate SameKind(p: seq<string>, q: seq<string>)
    requires Apart(p, q)
  {
    if SameSlot(p[0], q[0]) then SameKind(p[1..], q[1..]) else IsIndex(p[0]) == IsIndex(q[0])
  }

  lemma ChildElsewhere(v: Value, a: string, b: string, child: Value)
    requires Child(v, b).Some? && Put(v, a, child).Done?
    ensures Child(Put(v, a, child).tree, b) ==
              if SameSlot(a, b) then Some(child) else if IsIndex(a) == IsIndex(b) then Child(v, b) else None
  {
    if IsIndex(a) && IsIndex(b) {
      var i, j := ParseIndex(a), ParseIndex(b);
      hide ParseIndex;
      assert v.Arr? && j < |v.items|;
      assert i >= |v.items| ==> (i + 1) % TWO64 == i + 1;
    }
  }

  /** An assignment leaves a value elsewhere alone, if and only if the paths part inside one container kind;
      otherwise the container that held it was thrown away. */
  lemma {:induction false} SetElsewhere(v: Value, p: seq<string>, q: seq<string>, x: Value)
    requires Apart(p, q) && GetAt(v, q).Some? && Assign(v, p, x).Done?
    ensures GetAt(Assign(v, p, x).tree, q) == if SameKind(p, q) then GetAt(v, q) else None
    decreases |p|
  {
    var child := Slot(v, p[0]);
    ChildElsewhere(v, p[0], q[0], Assign(child, p[1..], x).tree);
    if SameSlot(p[0], q[0]) {
      assert Child(v, p[0]) == Child(v, q[0]);
      SetElsewhere(child, p[1..], q[1..], x);
    }
  }

  /** Setting "a.0" where `a` is an object throws away what was at "a.b". */
  lemma ContainerThrownAway(x: Value, y: Value)
    ensures var root := Obj(map["a" := Obj(map["b" := y])]);
            && GetAt(root, ["a", "b"]) == Some(y)
            && Assign(root, ["a", "0"], x).Done? && GetAt(Assign(root, ["a", "0"], x).tree, ["a", "b"]) == None
  {
    var root := Obj(map["a" := Obj(map["b" := y])]);
    var p, q := ["a", "0"], ["a", "b"];
    assert !IsDigit("a"[0]) && !IsDigit("b"[0]) && IsDigit("0"[0]);
    assert ParseIndex("") == 0;
    assert "0"[..0] == "" && ParseIndex("0") == 0;
    assert p[1..] == ["0"] && q[1..] == ["b"] && ["0"][1..] == [] && ["b"][1..] == [];
    assert GetAt(Obj(map["b" := y]), ["b"]) == Some(y);
    assert Assign(Obj(map["b" := y]), ["0"], x).Done?;
    SetElsewhere(root, p, q, x);
  }

  // ----- trees whose every node can be addressed -----

  /** Object keys are neither indices nor hold dots; arrays are no longer than a vector can be. */
  predicate Proper(v: Value) {
    match v
    case Obj(fields) => forall key :: key in fields ==> !IsIndex(key) && NoDots(key) && Proper(fields[key])
    case Arr(items) => |items| <= MAX_ITEMS && forall i :: 0 <= i < |items| ==> Proper(items[i])
    case _ => true
  }

  lemma ProperSized(v: Value)
    requires Proper(v)
    ensures Sized(v)
  {
    match v
    case Obj(fields) =>
      forall key | key in fields ensures Sized(fields[key]) {
        ProperSized(fields[key]);
      }
    case Arr(items) =>
      forall i | 0 <= i < |items| ensures Sized(items[i]) {
        ProperSized(items[i]);
      }
    case _ =>
  }

  lemma {:induction false} AssignProper(v: Value, segs: seq<string>, x: Value)
    requires Proper(v) && Proper(x) && Plain(segs) && !Assign(v, segs, x).Overrun?
    ensures Proper(Assign(v, segs, x).tree)
    decreases |segs|
  {
    if segs != [] {
      PutProper(v, segs[0], Null);
      if Put(v, segs[0], Null).Done? {
        ChildPut(v, segs[0], Assign(Slot(v, segs[0]), segs[1..], x).tree);
        AssignProper(Slot(v, segs[0]), segs[1..], x);
        PutProper(v, segs[0], Assign(Slot(v, segs[0]), segs[1..], x).tree);
      }
    }
  }

  lemma PutProper(v: Value, seg: string, child: Value)
    requires Proper(v) && Proper(child) && NoDots(seg)
    ensures !Put(v, seg, child).Overrun? ==> Proper(Put(v, seg, child).tree)
  {
    if IsIndex(seg) && Put(v, seg, child).Done? {
      var items := Put(v, seg, child).tree.items;
      hide ParseIndex;
      forall j | 0 <= j < |items| ensures Proper(items[j]) {
      }
    }
  }

  /** Whatever the path, and also if it throws, setting a proper value keeps every key and every array proper. */
  lemma SetProper(root: Value, path: string, x: Value)
    requires Proper(root) && Proper(x)
    ensures !Set(root, path, x).Overrun? ==> Proper(Set(root, path, x).tree)
  {
    JoinedSplit(path);
    if !Set(root, path, x).Overrun? {
      AssignProper(root, Split(path), x);
    }
  }

  // ----- an empty key at the root -----

  predicate HasChild(v: Value) {
    (v.Arr? && v.items != []) || (v.Obj? && v.fields != map[])
  }

  /** The root has an empty key with something below it: it is addressed by paths that begin with a dot. */
  predicate DotHidden(root: Value) {
    root.Obj? && "" in root.fields && HasChild(root.fields[""])
  }

  lemma {:induction false} ChildlessReads(v: Value, segs: seq<string>)
    requires !HasChild(v) && segs != []
    ensures GetAt(v, segs).None?
  {
  }

  /** A canonical segment that leads to some child. */
  lemma SomeChild(v: Value) returns (seg: string)
    requires Proper(v) && HasChild(v)
    ensures Child(v, seg).Some? && Canonical(seg) && NoDots(seg)
  {
    if v.Arr? {
      seg := Digits(0);
      ParseDigits(0);
    } else {
      seg :| seg in v.fields;
    }
  }

  predicate DotLed(path: string) {
    path != "" && path[0] == '.'
  }

  /** Something is hidden there exactly when some path that begins with a dot reads something. */
  lemma DotHiddenExactly(root: Value)
    requires Proper(root)
    ensures DotHidden(root) <==> exists path :: DotLed(path) && Get(root, path).Some?
  {
    if DotHidden(root) {
      var path := HiddenPath(root);
    }
    if path :| DotLed(path) && Get(root, path).Some? {
      DotLedSplit(path);
      if !HasChild(Slot(root, "")) {
        ChildlessReads(Slot(root, ""), Split(path)[1..]);
      }
    }
  }

  lemma HiddenPath(root: Value) returns (path: string)
    requires Proper(root) && DotHidden(root)
    ensures DotLed(path) && Get(root, path).Some? && Plain(Split(path)) && |Split(path)| == 2
    ensures Split(path)[0] == "" && Canonical(Split(path)[1])
  {
    var seg := SomeChild(root.fields[""]);
    var segs := ["", seg];
    assert segs[1..] == [seg] && [seg][1..] == [];
    path := "." + seg;
    assert Joined(segs) == path by {
      OneJoined(seg);
      assert "" + "." + seg == "." + seg;
    }
    SplitJoined(segs);
    assert GetAt(root.fields[""], [seg]).Some?;
  }

  lemma DotLedSplit(path: string)
    requires DotLed(path)
    ensures |Split(path)| > 1 && Split(path)[0] == ""
  {
    assert Find(path, 0) == 0;
    assert path[0..0] == "";
    SplitStep(path, 0);
  }
}
