/** The configuration object: the tree, and a cache that lists every node under its dotted path. */
module Configs {
  import opened ConfigTree

  // ----- what a flat listing holds -----

  predicate AllCanonical(segs: seq<string>) {
    forall i :: 0 <= i < |segs| ==> Canonical(segs[i])
  }

  /** The path a node is listed under leads to it without leading zeros. */
  ghost predicate Listed(v: Value, segs: seq<string>) {
    AllCanonical(segs) && GetAt(v, segs).Some?
  }

  /** Exactly the canonical paths that lead somewhere, each with what is there. */
  ghost predicate FlatExact(flat: map<string, Value>, root: Value) {
    && "" !in flat
    && forall path: string :: path != "" ==>
         && (path in flat <==> AllCanonical(Split(path)) && Get(root, path).Some?)
         && (path in flat ==> Get(root, path) == Some(flat[path]))
  }

  /** Segments of a path that can be told apart from its dotted form. */
  predicate Sound(segs: seq<string>) {
    Plain(segs) && (segs != [] ==> segs[0] != "")
  }

  function Dotted(path: string, seg: string): string {
    if path == "" then seg else path + "." + seg
  }

  lemma {:induction false} JoinedOne(segs: seq<string>, seg: string)
    requires segs != []
    ensures Joined(segs + [seg]) == Joined(segs) + "." + seg
  {
    if |segs| == 1 {
      assert (segs + [seg])[1..] == [seg];
    } else {
      assert (segs + [seg])[1..] == segs[1..] + [seg];
      JoinedOne(segs[1..], seg);
      var j := Joined(segs[1..]);
      assert segs[0] + "." + (j + "." + seg) == (segs[0] + "." + j) + "." + seg;
    }
  }

  lemma JoinedEmpty(segs: seq<string>)
    requires Sound(segs)
    ensures Joined(segs) == "" <==> segs == []
  {
  }

  lemma DottedIsJoined(pre: seq<string>, seg: string)
    requires Sound(pre) && NoDots(seg) && (pre == [] ==> seg != "")
    ensures Dotted(Joined(pre), seg) == Joined(pre + [seg]) && Sound(pre + [seg])
  {
    JoinedEmpty(pre);
    if pre == [] {
      assert pre + [seg] == [seg];
    } else {
      JoinedOne(pre, seg);
    }
  }

  /** Different segments give different dotted paths. */
  lemma JoinedInjective(a: seq<string>, b: seq<string>)
    requires Sound(a) && Sound(b) && Joined(a) == Joined(b)
    ensures a == b
  {
    JoinedEmpty(a);
    JoinedEmpty(b);
    if a != [] {
      SplitJoined(a);
      SplitJoined(b);
    }
  }

  lemma IndexPlain(seg: string)
    requires IsIndex(seg)
    ensures NoDots(seg) && seg != ""
  {
  }

  /** A root where nothing is hidden behind an empty key. */
  predicate Tame(v: Value) {
    Proper(v) && !DotHidden(v)
  }

  lemma {:induction false} ListedSound(v: Value, segs: seq<string>)
    requires Proper(v) && GetAt(v, segs).Some?
    ensures Plain(segs) && (Tame(v) && Joined(segs) != "" ==> Sound(segs))
    decreases |segs|
  {
    if segs != [] {
      if IsIndex(segs[0]) {
        IndexPlain(segs[0]);
      }
      ListedSound(Child(v, segs[0]).value, segs[1..]);
      assert forall i :: 1 <= i < |segs| ==> segs[i] == segs[1..][i - 1];
      if Tame(v) && segs[0] == "" && segs[1..] != [] {
        ChildlessReads(Child(v, "").value, segs[1..]);
      }
    }
  }

  // ----- listing a subtree -----

  /** A subtree at a path it can be told by. */
  ghost predicate Fit(v: Value, path: string, pre: seq<string>) {
    Proper(v) && Sound(pre) && path == Joined(pre) && (pre == [] ==> Tame(v))
  }

  ghost predicate Covers(flat: map<string, Value>, v: Value, pre: seq<string>) {
    forall l :: Listed(v, l) && Joined(pre + l) != "" ==>
      Joined(pre + l) in flat && Some(flat[Joined(pre + l)]) == GetAt(v, l)
  }

  ghost predicate FromTree(path: string, x: Value, v: Value, pre: seq<string>) {
    exists l :: Listed(v, l) && path == Joined(pre + l) != "" && GetAt(v, l) == Some(x)
  }

  ghost predicate OnlyAdds(flat: map<string, Value>, was: map<string, Value>, v: Value, pre: seq<string>) {
    forall path :: path in flat ==>
      (path in was && was[path] == flat[path]) || FromTree(path, flat[path], v, pre)
  }

  ghost predicate SameAt(flat: map<string, Value>, was: map<string, Value>, path: string) {
    (path in flat <==> path in was) && (path in flat ==> flat[path] == was[path])
  }

  /** Nothing outside the subtree is touched. */
  ghost predicate Elsewhere(flat: map<string, Value>, was: map<string, Value>, pre: seq<string>) {
    forall m :: Sound(m) && m != [] && !(pre <= m) ==> SameAt(flat, was, Joined(m))
  }

  lemma {:induction false} CoversOn(
    flat: map<string, Value>, next: map<string, Value>, v: Value, pre: seq<string>, other: seq<string>)
    requires Covers(flat, v, pre) && Elsewhere(next, flat, other) && Proper(v) && Sound(pre) && pre != []
    requires |pre| == |other| && pre != other
    ensures Covers(next, v, pre)
  {
    forall l | Listed(v, l) && Joined(pre + l) != ""
      ensures Joined(pre + l) in next && Some(next[Joined(pre + l)]) == GetAt(v, l)
    {
      ListedSound(v, l);
      var m := pre + l;
      assert m[..|pre|] == pre;
      assert !(other <= m);
      assert Sound(m);
      assert SameAt(next, flat, Joined(m));
    }
  }

  /** A child's listing is part of the parent's. */
  lemma ChildListed(v: Value, seg: string, l: seq<string>, pre: seq<string>)
    requires Child(v, seg).Some? && Canonical(seg) && Listed(Child(v, seg).value, l)
    ensures Listed(v, [seg] + l) && GetAt(v, [seg] + l) == GetAt(Child(v, seg).value, l)
    ensures (pre + [seg]) + l == pre + ([seg] + l)
  {
    assert ([seg] + l)[1..] == l;
  }

  lemma AddsOn(
    next: map<string, Value>, flat: map<string, Value>, was: map<string, Value>, v: Value, seg: string,
    pre: seq<string>)
    requires Child(v, seg).Some? && Canonical(seg) && OnlyAdds(flat, was, v, pre)
    requires OnlyAdds(next, flat, Child(v, seg).value, pre + [seg])
    ensures OnlyAdds(next, was, v, pre)
  {
    forall path | path in next
      ensures (path in was && was[path] == next[path]) || FromTree(path, next[path], v, pre)
    {
      if FromTree(path, next[path], Child(v, seg).value, pre + [seg]) {
        var l :| Listed(Child(v, seg).value, l) && path == Joined((pre + [seg]) + l)
                 && GetAt(Child(v, seg).value, l) == Some(next[path]);
        ChildListed(v, seg, l, pre);
        assert FromTree(path, next[path], v, pre);
      }
    }
  }

  lemma ElsewhereOn(
    next: map<string, Value>, flat: map<string, Value>, was: map<string, Value>, pre: seq<string>, seg: string)
    requires Elsewhere(flat, was, pre) && Elsewhere(next, flat, pre + [seg])
    ensures Elsewhere(next, was, pre)
  {
    forall m | Sound(m) && m != [] && !(pre <= m) ensures SameAt(next, was, Joined(m)) {
      assert !(pre + [seg] <= m);
      assert SameAt(flat, was, Joined(m)) && SameAt(next, flat, Joined(m));
    }
  }

  /** The node itself is listed unless it is the root. */
  lemma OwnEntry(was: map<string, Value>, v: Value, path: string, pre: seq<string>)
    requires Fit(v, path, pre)
    ensures var flat := if path != "" then was[path := v] else was;
            && (pre != [] ==> path in flat && flat[path] == v)
            && OnlyAdds(flat, was, v, pre) && Elsewhere(flat, was, pre)
  {
    JoinedEmpty(pre);
    var flat := if path != "" then was[path := v] else was;
    if path != "" {
      assert GetAt(v, []) == Some(v) && pre + [] == pre;
      assert Listed(v, []);
      assert FromTree(path, v, v, pre);
    }
    forall m | Sound(m) && m != [] && !(pre <= m) ensures SameAt(flat, was, Joined(m)) {
      if Joined(m) == path {
        JoinedInjective(m, pre);
      }
    }
  }

  /** Once the node and each child are listed, the subtree is. */
  lemma CoversAll(flat: map<string, Value>, v: Value, pre: seq<string>)
    requires pre != [] ==> Joined(pre) in flat && flat[Joined(pre)] == v
    requires forall seg :: Child(v, seg).Some? && Canonical(seg) ==> Covers(flat, Child(v, seg).value, pre + [seg])
    ensures Covers(flat, v, pre)
  {
    forall l | Listed(v, l) && Joined(pre + l) != ""
      ensures Joined(pre + l) in flat && Some(flat[Joined(pre + l)]) == GetAt(v, l)
    {
      if l == [] {
        assert pre + l == pre;
      } else {
        var child := Child(v, l[0]).value;
        assert Listed(child, l[1..]);
        assert (pre + [l[0]]) + l[1..] == pre + l;
        assert Covers(flat, child, pre + [l[0]]);
      }
    }
  }

  lemma ExactFromRoot(flat: map<string, Value>, root: Value)
    requires Tame(root) && Covers(flat, root, []) && OnlyAdds(flat, map[], root, [])
    ensures FlatExact(flat, root)
  {
    forall path | path in flat
      ensures path != "" && AllCanonical(Split(path)) && Get(root, path) == Some(flat[path])
    {
      var l :| Listed(root, l) && path == Joined([] + l) != "" && GetAt(root, l) == Some(flat[path]);
      assert [] + l == l;
      ListedSound(root, l);
      SplitJoined(l);
    }
    forall path: string | path != "" && AllCanonical(Split(path)) && Get(root, path).Some? ensures path in flat {
      JoinedSplit(path);
      assert Listed(root, Split(path)) && [] + Split(path) == Split(path);
    }
  }

  // ----- paths that begin with a dot -----

  ghost predicate NoDotLed(flat: map<string, Value>) {
    forall path :: path in flat ==> path != "" && !DotLed(path)
  }

  /** A listing without such paths is not exact for a root that hides something behind an empty key. */
  lemma HiddenNotListed(flat: map<string, Value>, root: Value)
    requires Proper(root) && DotHidden(root) && NoDotLed(flat)
    ensures !FlatExact(flat, root)
  {
    var path := HiddenPath(root);
    assert AllCanonical(Split(path)) by {
      assert Canonical("");
    }
    assert path !in flat;
  }

  /** What is hidden is listed without the dot. */
  ghost predicate Surfaces(flat: map<string, Value>, v: Value) {
    forall l :: Listed(v, l) && Joined(l) != "" ==> Joined(l) in flat
  }

  lemma CoversSurfaces(flat: map<string, Value>, v: Value)
    requires Covers(flat, v, [])
    ensures Surfaces(flat, v)
  {
    forall l | Listed(v, l) && Joined(l) != "" ensures Joined(l) in flat {
      assert [] + l == l;
    }
  }

  lemma SurfacesOn(flat: map<string, Value>, next: map<string, Value>, v: Value)
    requires Surfaces(flat, v) && flat.Keys <= next.Keys
    ensures Surfaces(next, v)
  {
    forall l | Listed(v, l) && Joined(l) != "" ensures Joined(l) in next {
      assert Joined(l) in flat.Keys;
    }
  }

  lemma DottedNotDotLed(path: string, seg: string)
    requires !DotLed(path) && NoDots(seg)
    ensures !DotLed(Dotted(path, seg))
  {
  }

  // ----- one listing, two trees -----

  /** A root without what is directly under an empty key: no path names that. */
  function Bare(v: Value): Value {
    if v.Obj? then Obj(v.fields - {""}) else v
  }

  /** The same children under every name, or none at all. */
  predicate Alike(a: Value, b: Value) {
    Bare(a) == Bare(b) || (!HasChild(Bare(a)) && !HasChild(Bare(b)))
  }

  lemma NamedPath(seg: string)
    requires seg != "" && NoDots(seg)
    ensures Split(seg) == [seg]
  {
    OneJoined(seg);
    SplitJoined([seg]);
  }

  /** Two trees with one exact listing have the same child under every name. */
  lemma SameChild(flat: map<string, Value>, a: Value, b: Value, seg: string)
    requires FlatExact(flat, a) && FlatExact(flat, b) && seg != "" && NoDots(seg) && Canonical(seg)
    ensures Child(a, seg) == Child(b, seg)
  {
    NamedPath(seg);
    GetOne(a, seg);
    GetOne(b, seg);
    hide Child;
    hide Canonical;
    assert AllCanonical(Split(seg));
  }

  lemma GetOne(v: Value, seg: string)
    ensures GetAt(v, [seg]) == Child(v, seg)
  {
    assert [seg][1..] == [];
    assert Child(v, seg).Some? ==> GetAt(Child(v, seg).value, []) == Child(v, seg);
  }

  lemma SameFields(flat: map<string, Value>, a: Value, b: Value)
    requires FlatExact(flat, a) && FlatExact(flat, b) && Proper(a) && Proper(b) && a.Obj? && HasChild(Bare(a))
    ensures Bare(a) == Bare(b)
  {
    hide FlatExact;
    var key :| key in a.fields && key != "";
    SameChild(flat, a, b, key);
    forall k | k != "" && (k in a.fields || k in b.fields)
      ensures k in a.fields && k in b.fields && a.fields[k] == b.fields[k]
    {
      SameChild(flat, a, b, k);
    }
    assert a.fields - {""} == b.fields - {""};
  }

  lemma SameItem(flat: map<string, Value>, a: Value, b: Value, i: nat)
    requires FlatExact(flat, a) && FlatExact(flat, b) && Proper(a) && a.Arr? && i < |a.items|
    ensures b.Arr? && i < |b.items| && a.items[i] == b.items[i]
  {
    ParseDigits(i);
    IndexPlain(Digits(i));
    SameChild(flat, a, b, Digits(i));
  }

  lemma SameItems(flat: map<string, Value>, a: Value, b: Value)
    requires FlatExact(flat, a) && FlatExact(flat, b) && Proper(a) && Proper(b) && a.Arr? && a.items != []
    ensures a == b
  {
    hide FlatExact;
    hide Proper;
    SameItem(flat, a, b, |a.items| - 1);
    SameItem(flat, b, a, |b.items| - 1);
    forall i | 0 <= i < |a.items| ensures a.items[i] == b.items[i] {
      SameItem(flat, a, b, i);
    }
  }

  lemma SameNamed(flat: map<string, Value>, a: Value, b: Value)
    requires FlatExact(flat, a) && FlatExact(flat, b) && Proper(a) && Proper(b) && HasChild(Bare(a))
    ensures Bare(a) == Bare(b)
  {
    if a.Obj? {
      SameFields(flat, a, b);
    } else {
      SameItems(flat, a, b);
    }
  }

  lemma AlikeReads(a: Value, b: Value, path: string)
    requires !DotHidden(a) && !DotHidden(b) && Alike(a, b) && path != ""
    ensures Get(a, path) == Get(b, path)
  {
    var segs := Split(path);
    SplitPlain(path, 0);
    if DotLed(path) {
      DotLedSplit(path);
      HiddenReads(a, segs);
      HiddenReads(b, segs);
    } else {
      FirstNamed(path);
      NamedReads(a, b, segs[0]);
    }
  }

  lemma FirstNamed(path: string)
    requires path != "" && !DotLed(path)
    ensures Split(path) != [] && Split(path)[0] != ""
  {
    SplitStep(path, 0);
  }

  lemma HiddenReads(v: Value, segs: seq<string>)
    requires !DotHidden(v) && |segs| > 1 && segs[0] == ""
    ensures GetAt(v, segs) == None
  {
    if Child(v, "").Some? {
      ChildlessReads(Child(v, "").value, segs[1..]);
    }
  }

  lemma NamedReads(a: Value, b: Value, seg: string)
    requires Alike(a, b) && seg != ""
    ensures Child(a, seg) == Child(b, seg)
  {
    NamedBare(a, seg);
    NamedBare(b, seg);
    hide Bare;
  }

  lemma NamedBare(v: Value, seg: string)
    requires seg != ""
    ensures Child(v, seg) == Child(Bare(v), seg)
  {
  }

  /** A listing that is exact for one tree is exact for another if and only if the other hides nothing and the two
      are alike. */
  lemma ListingTells(flat: map<string, Value>, a: Value, b: Value)
    requires Proper(a) && Proper(b) && NoDotLed(flat) && FlatExact(flat, a) && !DotHidden(a)
    ensures FlatExact(flat, b) <==> !DotHidden(b) && Alike(a, b)
  {
    if DotHidden(b) {
      HiddenNotListed(flat, b);
    } else if Alike(a, b) {
      forall path: string | path != "" ensures Get(a, path) == Get(b, path) {
        AlikeReads(a, b, path);
      }
    } else if FlatExact(flat, b) {
      if HasChild(Bare(a)) {
        SameNamed(flat, a, b);
      } else {
        SameNamed(flat, b, a);
      }
    }
  }

  // ----- the configuration object -----

  method SplitPath(path: string) returns (parts: seq<string>)
    ensures parts == Split(path)
  {
    parts := [];
    if path == "" {
      return;
    }
    var begin := 0;
    while true
      invariant 0 <= begin <= |path| && Split(path) == parts + SplitFrom(path, begin)
      decreases |path| - begin
    {
      var pos := Find(path, begin);
      if pos == |path| {
        parts := parts + [path[begin..]];
        return;
      }
      assert parts + ([path[begin..pos]] + SplitFrom(path, pos + 1))
          == (parts + [path[begin..pos]]) + SplitFrom(path, pos + 1);
      parts := parts + [path[begin..pos]];
      begin := pos + 1;
    }
  }

  class Config {
    var root: Value
    var flat: map<string, Value>
    var dirty: bool
    ghost var built: Value

    /** A cache that is not marked dirty lists the tree it was built from. */
    ghost predicate Valid()
      reads this
    {
      !dirty && Proper(built) ==> ListingOf(flat, built)
    }

    constructor ()
      ensures Valid() && root == Obj(map[]) && dirty
    {
      root, flat, dirty, built := Obj(map[]), map[], true, Obj(map[]);
    }

    method GetByPath(path: string) returns (r: Option<Value>)
      ensures r == Get(root, path)
    {
      var parts := SplitPath(path);
      var current := root;
      for i := 0 to |parts|
        invariant Get(root, path) == GetAt(current, parts[i..])
      {
        assert parts[i..][1..] == parts[i + 1..];
        match Child(current, parts[i]) {
          case None => return None;
          case Some(child) => current := child;
        }
      }
      r := Some(current);
    }

    /** The cache is marked dirty only by a set that is done; one that throws has changed the tree without that.
        Where the program writes past the end of an array the model goes no further. */
    method Set(path: string, value: Value) returns (r: Outcome)
      requires Valid() && Sized(root)
      modifies `root, `dirty
      ensures Valid() && r == ConfigTree.Set(old(root), path, value)
      ensures (r.Done? <==> Reachable(Split(path))) && (r.Overrun? <==> Overruns(Split(path)))
      ensures root == if r.Overrun? then old(root) else r.tree
      ensures dirty == (r.Done? || old(dirty))
      ensures r.Done? ==> Get(root, path) == Some(value)
      ensures r.Thrown? ==> Get(root, path) == None
    {
      GetSet(root, path, value);
      var parts := SplitPath(path);
      r := Assign(root, parts, value);
      match r {
        case Done(tree) => root, dirty := tree, true;
        case Thrown(tree) => root := tree;
        case Overrun =>
      }
    }

    /** The listing is that of the tree the cache was built from: of the tree as it stands, unless only throwing
        sets came since. It is exact for the tree as it stands if and only if that hides nothing behind an empty
        key and is like the one it was built from; where the latter hides something, only if. */
    method Values() returns (r: map<string, Value>)
      requires Valid()
      modifies `flat, `dirty, `built
      ensures Valid() && r == flat && !dirty && built == (if old(dirty) then root else old(built))
      ensures Proper(built) ==> (FlatExact(r, built) <==> !DotHidden(built)) && NoDotLed(r)
      ensures Proper(built) && Proper(root) ==> (FlatExact(r, root) ==> !DotHidden(root))
      ensures Proper(built) && Proper(root) && !DotHidden(built) ==>
                (FlatExact(r, root) <==> !DotHidden(root) && Alike(built, root))
      ensures Proper(built) && DotHidden(built) && Tame(built.fields[""]) ==> Surfaces(r, built.fields[""])
    {
      if dirty {
        flat, built := map[], root;
        FlattenInto(root, "", []);
        if Proper(root) {
          if DotHidden(root) {
            HiddenNotListed(flat, root);
          } else {
            assert Joined([]) == "";
            ExactFromRoot(flat, root);
          }
        }
        dirty := false;
      }
      r := flat;
      if Proper(built) && Proper(root) {
        if DotHidden(root) {
          HiddenNotListed(r, root);
        }
        if !DotHidden(built) {
          ListingTells(r, built, root);
        }
      }
    }

    method FlattenInto(v: Value, path: string, ghost pre: seq<string>)
      modifies `flat
      ensures Fit(v, path, pre) ==>
                Covers(flat, v, pre) && OnlyAdds(flat, old(flat), v, pre) && Elsewhere(flat, old(flat), pre)
      ensures path == "" && !HasChild(v) ==> flat == old(flat)
      ensures old(flat).Keys <= flat.Keys
      ensures Proper(v) && !DotLed(path) && NoDotLed(old(flat)) ==> NoDotLed(flat)
      ensures path == "" && DotHidden(v) && Tame(v.fields[""]) ==> Surfaces(flat, v.fields[""])
      decreases v, 1
    {
      ghost var was := flat;
      if path != "" {
        flat := flat[path := v];
      }
      if Fit(v, path, pre) {
        OwnEntry(was, v, path, pre);
      }
      hide Fit;
      hide Covers;
      hide OnlyAdds;
      hide Elsewhere;
      hide Surfaces;
      if v.Obj? {
        FlattenFields(v, path, pre, was);
      } else if v.Arr? {
        FlattenItems(v, path, pre, was);
      } else if Fit(v, path, pre) {
        CoversAll(flat, v, pre);
      }
    }

    method FlattenFields(v: Value, path: string, ghost pre: seq<string>, ghost was: map<string, Value>)
      requires v.Obj?
      requires Fit(v, path, pre) ==>
                 && (pre != [] ==> path in flat && flat[path] == v)
                 && OnlyAdds(flat, was, v, pre) && Elsewhere(flat, was, pre)
      modifies `flat
      ensures Fit(v, path, pre) ==>
                Covers(flat, v, pre) && OnlyAdds(flat, was, v, pre) && Elsewhere(flat, was, pre)
      ensures v.fields == map[] ==> flat == old(flat)
      ensures old(flat).Keys <= flat.Keys
      ensures Proper(v) && !DotLed(path) && NoDotLed(old(flat)) ==> NoDotLed(flat)
      ensures path == "" && DotHidden(v) && Tame(v.fields[""]) ==> Surfaces(flat, v.fields[""])
      decreases v, 0
    {
      hide Covers;
      hide OnlyAdds;
      hide Elsewhere;
      hide Fit;
      hide Finished;
      hide Canonical;
      hide Surfaces;
      hide NoDotLed;
      if Fit(v, path, pre) {
        NoneFinished(flat, v, pre);
        assert v.fields.Keys - v.fields.Keys == {};
        FitPath(v, path, pre);
      }
      AllFields(v);
      hide Child;
      var todo := v.fields.Keys;
      while todo != {}
        invariant todo <= v.fields.Keys
        invariant Fit(v, path, pre) ==>
                    && (pre != [] ==> path in flat && flat[path] == v)
                    && OnlyAdds(flat, was, v, pre) && Elsewhere(flat, was, pre)
                    && Finished(flat, v, pre, v.fields.Keys - todo)
        invariant v.fields == map[] ==> flat == old(flat)
        invariant old(flat).Keys <= flat.Keys
        invariant Proper(v) && !DotLed(path) && NoDotLed(old(flat)) ==> NoDotLed(flat)
        invariant path == "" && DotHidden(v) && Tame(v.fields[""]) && "" !in todo ==> Surfaces(flat, v.fields[""])
        decreases |todo|
      {
        var key :| key in todo;
        FlattenField(v, key, path, pre, was, v.fields.Keys - todo);
        assert v.fields.Keys - (todo - {key}) == v.fields.Keys - todo + {key};
        todo := todo - {key};
      }
      if Fit(v, path, pre) {
        assert v.fields.Keys - todo == v.fields.Keys;
        FinishedAll(flat, v, pre, v.fields.Keys);
      }
    }

    /** Lists what is under one key. */
    method FlattenField(
      v: Value, key: string, path: string, ghost pre: seq<string>, ghost was: map<string, Value>,
      ghost done: set<string>)
      requires v.Obj? && key in v.fields
      requires Fit(v, path, pre) ==>
                 && (pre != [] ==> path in flat && flat[path] == v)
                 && OnlyAdds(flat, was, v, pre) && Elsewhere(flat, was, pre) && Finished(flat, v, pre, done)
      modifies `flat
      ensures Fit(v, path, pre) ==>
                && (pre != [] ==> path in flat && flat[path] == v)
                && OnlyAdds(flat, was, v, pre) && Elsewhere(flat, was, pre) && Finished(flat, v, pre, done + {key})
      ensures old(flat).Keys <= flat.Keys
      ensures Proper(v) && !DotLed(path) && NoDotLed(old(flat)) ==> NoDotLed(flat)
      ensures path == "" && key == "" && Tame(v.fields[""]) ==> Surfaces(flat, v.fields[""])
      ensures path == "" && DotHidden(v) && old(Surfaces(flat, v.fields[""])) ==> Surfaces(flat, v.fields[""])
      decreases v, 0, 0
    {
      hide Covers;
      hide OnlyAdds;
      hide Elsewhere;
      hide Finished;
      hide Canonical;
      hide Surfaces;
      hide NoDotLed;
      ghost var before := flat;
      var child := v.fields[key];
      var under := Dotted(path, key);
      if Proper(v) && !DotLed(path) {
        DottedNotDotLed(path, key);
      }
      if Fit(v, path, pre) {
        FitPath(v, path, pre);
        JoinedEmpty(pre);
        if under != "" {
          FieldFits(v, path, pre, key);
        }
      }
      ghost var below := if under == "" then [] else pre + [key];
      FlattenInto(child, under, below);
      if Fit(v, path, pre) {
        if under == "" {
          EmptyKeyDone(flat, v, done);
        } else {
          ChildDone(flat, before, was, v, path, pre, key, done);
        }
      }
      if under == "" && Tame(child) {
        NothingJoined();
        assert Fit(child, under, []);
        CoversSurfaces(flat, child);
      }
      if path == "" && DotHidden(v) && old(Surfaces(flat, v.fields[""])) {
        SurfacesOn(before, flat, v.fields[""]);
      }
    }

    method FlattenItems(v: Value, path: string, ghost pre: seq<string>, ghost was: map<string, Value>)
      requires v.Arr?
      requires Fit(v, path, pre) ==>
                 && (pre != [] ==> path in flat && flat[path] == v)
                 && OnlyAdds(flat, was, v, pre) && Elsewhere(flat, was, pre)
      modifies `flat
      ensures Fit(v, path, pre) ==>
                Covers(flat, v, pre) && OnlyAdds(flat, was, v, pre) && Elsewhere(flat, was, pre)
      ensures v.items == [] ==> flat == old(flat)
      ensures old(flat).Keys <= flat.Keys
      ensures Proper(v) && !DotLed(path) && NoDotLed(old(flat)) ==> NoDotLed(flat)
      decreases v, 0
    {
      hide Covers;
      hide OnlyAdds;
      hide Elsewhere;
      hide Fit;
      hide Finished;
      hide Canonical;
      hide NoDotLed;
      if Fit(v, path, pre) {
        NoneFinished(flat, v, pre);
        assert Indices(0) == {};
        FitPath(v, path, pre);
      }
      AllIndices(v);
      hide Child;
      for i := 0 to |v.items|
        invariant Fit(v, path, pre) ==>
                    && (pre != [] ==> path in flat && flat[path] == v)
                    && OnlyAdds(flat, was, v, pre) && Elsewhere(flat, was, pre)
                    && Finished(flat, v, pre, Indices(i))
        invariant i == 0 ==> flat == old(flat)
        invariant old(flat).Keys <= flat.Keys
        invariant Proper(v) && !DotLed(path) && NoDotLed(old(flat)) ==> NoDotLed(flat)
      {
        ghost var before := flat;
        IndexPlain(Digits(i));
        if !DotLed(path) {
          DottedNotDotLed(path, Digits(i));
        }
        if Fit(v, path, pre) {
          ItemFits(v, path, pre, i);
        }
        FlattenInto(v.items[i], Dotted(path, Digits(i)), pre + [Digits(i)]);
        if Fit(v, path, pre) {
          ChildDone(flat, before, was, v, path, pre, Digits(i), Indices(i));
          assert Indices(i + 1) == Indices(i) + {Digits(i)};
        }
      }
      if Fit(v, path, pre) {
        FinishedAll(flat, v, pre, Indices(|v.items|));
      }
    }
  }

  /** The children under these segments are listed. */
  ghost predicate Finished(flat: map<string, Value>, v: Value, pre: seq<string>, segs: set<string>) {
    forall seg :: seg in segs && Child(v, seg).Some? ==> Covers(flat, Child(v, seg).value, pre + [seg])
  }

  ghost function Indices(n: nat): set<string> {
    if n == 0 then {} else Indices(n - 1) + {Digits(n - 1)}
  }

  lemma {:induction false} IndexListed(i: nat, n: nat)
    requires i < n
    ensures Digits(i) in Indices(n)
  {
    if i < n - 1 {
      IndexListed(i, n - 1);
    }
  }

  lemma ChildFits(v: Value, path: string, pre: seq<string>, seg: string)
    requires Fit(v, path, pre) && Child(v, seg).Some?
    ensures Proper(Child(v, seg).value) && NoDots(seg)
    ensures pre != [] || seg != "" ==> Sound(pre + [seg])
  {
    if IsIndex(seg) {
      IndexPlain(seg);
    }
    if pre != [] || seg != "" {
      DottedIsJoined(pre, seg);
    }
  }

  lemma FieldFits(v: Value, path: string, pre: seq<string>, key: string)
    requires v.Obj? && Fit(v, path, pre) && key in v.fields && (pre != [] || key != "")
    ensures Child(v, key) == Some(v.fields[key]) && Canonical(key)
    ensures Fit(v.fields[key], Dotted(path, key), pre + [key])
  {
    assert Child(v, key) == Some(v.fields[key]);
    ChildFits(v, path, pre, key);
    DottedIsJoined(pre, key);
  }

  lemma {:induction false} ItemFits(v: Value, path: string, pre: seq<string>, i: nat)
    requires v.Arr? && Fit(v, path, pre) && i < |v.items|
    ensures Child(v, Digits(i)) == Some(v.items[i]) && Canonical(Digits(i)) && Proper(v.items[i])
    ensures Fit(v.items[i], Dotted(path, Digits(i)), pre + [Digits(i)])
  {
    ParseDigits(i);
    IndexPlain(Digits(i));
    DottedIsJoined(pre, Digits(i));
  }

  /** Listing one more child. */
  lemma ChildDone(
    next: map<string, Value>, flat: map<string, Value>, was: map<string, Value>, v: Value, path: string,
    pre: seq<string>, seg: string, done: set<string>)
    requires Fit(v, path, pre) && Child(v, seg).Some? && Canonical(seg) && (pre != [] || seg != "")
    requires pre != [] ==> path in flat && flat[path] == v
    requires OnlyAdds(flat, was, v, pre) && Elsewhere(flat, was, pre) && Finished(flat, v, pre, done)
    requires Covers(next, Child(v, seg).value, pre + [seg])
    requires OnlyAdds(next, flat, Child(v, seg).value, pre + [seg]) && Elsewhere(next, flat, pre + [seg])
    ensures pre != [] ==> path in next && next[path] == v
    ensures OnlyAdds(next, was, v, pre) && Elsewhere(next, was, pre) && Finished(next, v, pre, done + {seg})
  {
    AddsOn(next, flat, was, v, seg, pre);
    ElsewhereOn(next, flat, was, pre, seg);
    if pre != [] {
      assert !(pre + [seg] <= pre);
      assert SameAt(next, flat, Joined(pre));
    }
    if pre == [] && Child(v, "").Some? {
      EmptyKeyCovers(next, v);
    }
    hide Child;
    hide Elsewhere;
    hide Covers;
    hide OnlyAdds;
    forall d | d in done + {seg} && Child(v, d).Some? ensures Covers(next, Child(v, d).value, pre + [d]) {
      ChildFits(v, path, pre, d);
      if d != seg && (pre != [] || d != "") {
        assert (pre + [d])[|pre|] != (pre + [seg])[|pre|];
        CoversOn(flat, next, Child(v, d).value, pre + [d], pre + [seg]);
      }
    }
  }

  /** Under an empty key at a tame root there is nothing to list. */
  lemma EmptyKeyCovers(flat: map<string, Value>, v: Value)
    requires Tame(v) && Child(v, "").Some?
    ensures !HasChild(Child(v, "").value) && Covers(flat, Child(v, "").value, [] + [""])
  {
    var child := Child(v, "").value;
    assert [] + [""] == [""];
    forall l | Listed(child, l) ensures Joined([""] + l) == "" {
      if l != [] {
        ChildlessReads(child, l);
      }
      assert [""] + [] == [""];
    }
  }

  lemma EmptyKeyDone(flat: map<string, Value>, v: Value, done: set<string>)
    requires v.Obj? && Tame(v) && "" in v.fields && Finished(flat, v, [], done)
    ensures Finished(flat, v, [], done + {""})
  {
    assert Child(v, "").Some?;
    EmptyKeyCovers(flat, v);
    hide Covers;
    hide Child;
  }

  lemma NothingJoined()
    ensures Joined([]) == "" && Sound([])
  {
  }

  lemma FinishedAll(flat: map<string, Value>, v: Value, pre: seq<string>, segs: set<string>)
    requires Finished(flat, v, pre, segs) && (pre != [] ==> Joined(pre) in flat && flat[Joined(pre)] == v)
    requires forall seg :: Child(v, seg).Some? && Canonical(seg) ==> seg in segs
    ensures Covers(flat, v, pre)
  {
    CoversAll(flat, v, pre);
  }

  lemma NoneFinished(flat: map<string, Value>, v: Value, pre: seq<string>)
    ensures Finished(flat, v, pre, {})
  {
  }

  lemma FitPath(v: Value, path: string, pre: seq<string>)
    requires Fit(v, path, pre)
    ensures path == Joined(pre)
  {
  }

  lemma AllFields(v: Value)
    requires v.Obj?
    ensures forall seg :: Child(v, seg).Some? && Canonical(seg) ==> seg in v.fields.Keys
  {
  }

  lemma AllIndices(v: Value)
    requires v.Arr?
    ensures forall seg :: Child(v, seg).Some? && Canonical(seg) ==> seg in Indices(|v.items|)
  {
    forall seg | Child(v, seg).Some? && Canonical(seg) ensures seg in Indices(|v.items|) {
      IndexListed(ParseIndex(seg), |v.items|);
    }
  }

  /** What a listing of this tree is: exact if and only if nothing is hidden, and then what is hidden surfaces. */
  ghost predicate ListingOf(flat: map<string, Value>, root: Value) {
    && (FlatExact(flat, root) <==> !DotHidden(root)) && NoDotLed(flat)
    && (DotHidden(root) && Tame(root.fields[""]) ==> Surfaces(flat, root.fields[""]))
  }

  // ----- trees built by set -----

  datatype Setting = Setting(path: string, value: Value)

  /** A configuration as its owner sees it: the tree, the tree the cache was built from, and the mark. */
  datatype Book = Book(root: Value, built: Value, dirty: bool)

  /** None where the program writes past the end of an array. */
  function SetBook(b: Book, s: Setting): Option<Book> {
    match ConfigTree.Set(b.root, s.path, s.value)
    case Done(tree) => Some(b.(root := tree, dirty := true))
    case Thrown(tree) => Some(b.(root := tree))
    case Overrun => None
  }

  function ListBook(b: Book): Book {
    if b.dirty then Book(b.root, b.root, false) else b
  }

  /** After a list of settings, with a listing after those numbered in `listed`. */
  function After(settings: seq<Setting>, listed: set<nat>): Option<Book> {
    if settings == [] then Some(Book(Obj(map[]), Obj(map[]), true))
    else
      var n := |settings| - 1;
      match After(settings[..n], listed)
      case None => None
      case Some(b) =>
        match SetBook(b, settings[n])
        case None => None
        case Some(c) => Some(if n in listed then ListBook(c) else c)
  }

  /** Values whose keys and arrays are proper, such as scalars. */
  predicate Usual(settings: seq<Setting>) {
    forall i :: 0 <= i < |settings| ==> Proper(settings[i].value)
  }

  /** No setting throws. */
  predicate AllReachable(settings: seq<Setting>) {
    forall i :: 0 <= i < |settings| ==> Reachable(Split(settings[i].path))
  }

  /** No setting writes past the end of an array. */
  predicate NoneOverruns(settings: seq<Setting>) {
    forall i :: 0 <= i < |settings| ==> !Overruns(Split(settings[i].path))
  }

  lemma LastSetting(settings: seq<Setting>)
    requires settings != []
    ensures var n := |settings| - 1;
            && (AllReachable(settings) <==> Reachable(Split(settings[n].path)) && AllReachable(settings[..n]))
            && (NoneOverruns(settings) <==> !Overruns(Split(settings[n].path)) && NoneOverruns(settings[..n]))
            && (Usual(settings) ==> Usual(settings[..n]) && Proper(settings[n].value))
  {
    hide Split;
    hide Reachable;
    hide Overruns;
    hide Proper;
    var init := settings[..|settings| - 1];
    assert forall i :: 0 <= i < |init| ==> init[i] == settings[i];
  }

  /** Settings with any paths, throwing ones among them, build proper trees, if and only if none writes past the end
      of an array; and if none throws, the cache is dirty or up to date. */
  lemma {:induction false} AfterProper(settings: seq<Setting>, listed: set<nat>)
    requires Usual(settings)
    ensures After(settings, listed).Some? <==> NoneOverruns(settings)
    ensures After(settings, listed).Some? ==>
              var b := After(settings, listed).value;
              Proper(b.root) && Proper(b.built) && (AllReachable(settings) ==> b.dirty || b.built == b.root)
  {
    hide Split;
    hide Reachable;
    hide Overruns;
    hide ConfigTree.Set;
    hide Get;
    if settings != [] {
      var init, last := settings[..|settings| - 1], settings[|settings| - 1];
      LastSetting(settings);
      hide AllReachable;
      hide NoneOverruns;
      hide Usual;
      AfterProper(init, listed);
      if After(init, listed).Some? {
        var root := After(init, listed).value.root;
        ProperSized(root);
        GetSet(root, last.path, last.value);
        SetProper(root, last.path, last.value);
      }
    }
  }

  /** Any mix of settings and listings. The last listing is that of the tree last rebuilt from; it is exact for the
      tree as it stands if and only if that hides nothing behind an empty key and is like the one rebuilt from.
      If no setting threw: if and only if no path that begins with a dot reads anything. */
  method Configure(settings: seq<Setting>, listed: set<nat>) returns (c: Config, values: map<string, Value>)
    requires Usual(settings) && NoneOverruns(settings)
    ensures fresh(c) && After(settings, listed).Some?
    ensures var b := ListBook(After(settings, listed).value);
            && c.root == b.root
            && (FlatExact(values, b.root) ==> !DotHidden(b.root))
            && (!DotHidden(b.built) ==> (FlatExact(values, b.root) <==> !DotHidden(b.root) && Alike(b.built, b.root)))
    ensures AllReachable(settings) ==>
              (FlatExact(values, c.root) <==> forall path :: DotLed(path) ==> Get(c.root, path).None?)
  {
    hide FlatExact;
    hide ListingOf;
    hide ConfigTree.Set;
    hide Split;
    hide Reachable;
    hide Overruns;
    hide Surfaces;
    hide Get;
    hide Proper;
    c := new Config();
    for i := 0 to |settings|
      invariant c.Valid() && After(settings[..i], listed).Some?
      invariant var b := After(settings[..i], listed).value;
                c.root == b.root && c.dirty == b.dirty && (!c.dirty ==> c.built == b.built)
    {
      assert settings[..i + 1][..i] == settings[..i];
      FrontUsual(settings, i);
      FrontUsual(settings, i + 1);
      AfterProper(settings[..i], listed);
      AfterProper(settings[..i + 1], listed);
      ProperSized(c.root);
      var r := c.Set(settings[i].path, settings[i].value);
      if i in listed {
        var _ := c.Values();
      }
    }
    assert settings[..|settings|] == settings;
    AfterProper(settings, listed);
    values := c.Values();
    DotHiddenExactly(c.root);
  }

  lemma FrontUsual(settings: seq<Setting>, i: nat)
    requires i <= |settings| && Usual(settings) && NoneOverruns(settings)
    ensures Usual(settings[..i]) && NoneOverruns(settings[..i])
  {
  }

  lemma DotX(x: Value)
    requires Proper(x)
    ensures var root := Obj(map["" := Obj(map["x" := x])]);
            && ConfigTree.Set(Obj(map[]), ".x", x) == Done(root)
            && Proper(root) && DotHidden(root) && Tame(root.fields[""]) && Listed(root.fields[""], ["x"])
            && Get(root, "x") == None && Get(root, ".x") == Some(x)
  {
    var inner, segs := Obj(map["x" := x]), ["", "x"];
    assert !IsDigit("x"[0]);
    assert segs[1..] == ["x"] && ["x"][1..] == [];
    assert Joined(segs) == ".x" by {
      OneJoined("x");
    }
    SplitJoined(segs);
    SplitJoined(["x"]);
    assert Assign(Null, ["x"], x) == Done(inner);
    assert GetAt(inner, ["x"]) == Some(x);
    assert inner.fields != map[] by {
      assert "x" in inner.fields;
    }
  }

  /** Setting ".x" makes an empty key at the root: the listing shows "x", where get finds nothing, and not ".x",
      where get finds the value. */
  method LeadingDot(x: Value) returns (c: Config, values: map<string, Value>)
    requires Proper(x)
    ensures fresh(c) && c.Valid() && !c.dirty && values == c.flat
    ensures c.root == Obj(map["" := Obj(map["x" := x])]) && Get(c.root, ".x") == Some(x) && ".x" !in values
    ensures "x" in values && Get(c.root, "x") == None && !FlatExact(values, c.root)
  {
    c := new Config();
    DotX(x);
    var _ := c.Set(".x", x);
    values := c.Values();
    OneJoined("x");
  }

  lemma TwoNamed(a: string, b: string)
    requires NoDots(a) && NoDots(b) && a != ""
    ensures Split(a + "." + b) == [a, b]
  {
    OneJoined(b);
    ConsJoined(a, [b]);
    assert [a] + [b] == [a, b];
    SplitJoined([a, b]);
  }

  lemma SetAB(x: Value)
    ensures ConfigTree.Set(Obj(map[]), "a.b", x) == Done(Obj(map["a" := Obj(map["b" := x])]))
    ensures Split("a.b") == ["a", "b"] && Get(Obj(map["a" := Obj(map["b" := x])]), "a.b") == Some(x)
    ensures Get(Obj(map["a" := Arr([])]), "a.b") == None
  {
    TwoNamed("a", "b");
    assert "a" + "." + "b" == "a.b";
    assert !IsDigit("a"[0]) && !IsDigit("b"[0]);
    assert ["a", "b"][1..] == ["b"] && ["b"][1..] == [];
    assert Assign(Null, ["b"], x) == Done(Obj(map["b" := x]));
    GetOne(Obj(map["b" := x]), "b");
    GetOne(Arr([]), "b");
  }

  lemma SetLong(x: Value, y: Value)
    ensures ConfigTree.Set(Obj(map["a" := Obj(map["b" := x])]), "a." + Digits(TWO64 / 2 - 1), y)
         == Thrown(Obj(map["a" := Arr([])]))
  {
    var index := Digits(TWO64 / 2 - 1);
    IndexPath(TWO64 / 2 - 1);
    IndexPlain(index);
    TwoNamed("a", index);
    hide Digits;
    hide ParseIndex;
    hide Split;
    assert !IsDigit("a"[0]);
    assert !IsIndex("a");
    hide IsIndex;
    assert "a" + "." + index == "a." + index;
    var inner := Obj(map["b" := x]);
    IndexThrows(inner, index, y);
    BelowNamed(Obj(map["a" := inner]), "a", inner, index, y);
    assert map["a" := inner]["a" := Arr([])] == map["a" := Arr([])];
  }

  lemma IndexThrows(v: Value, index: string, y: Value)
    requires v.Obj? && IsIndex(index) && ParseIndex(index) == TWO64 / 2 - 1
    ensures Assign(v, [index], y) == Thrown(Arr([]))
  {
  }

  lemma BelowNamed(v: Value, key: string, inner: Value, seg: string, y: Value)
    requires v.Obj? && key in v.fields && v.fields[key] == inner && !IsIndex(key) && Assign(inner, [seg], y).Thrown?
    ensures Assign(v, [key, seg], y) == Thrown(Obj(v.fields[key := Assign(inner, [seg], y).tree]))
  {
    assert [key, seg][1..] == [seg];
  }

  lemma NotAlike(x: Value)
    requires Proper(x)
    ensures var root, left := Obj(map["a" := Obj(map["b" := x])]), Obj(map["a" := Arr([])]);
            Proper(root) && Proper(left) && !DotHidden(root) && !DotHidden(left) && !Alike(root, left)
  {
    assert !IsDigit("a"[0]) && !IsDigit("b"[0]);
    var root, left := Obj(map["a" := Obj(map["b" := x])]), Obj(map["a" := Arr([])]);
    assert Bare(root).fields["a"] == Obj(map["b" := x]) && Bare(left).fields["a"] == Arr([]);
    assert Bare(left).fields != map[] by {
      assert "a" in Bare(left).fields;
    }
  }

  /** A set that throws after a listing: the next listing still shows "a.b", where get finds nothing, although no
      path begins with a dot. */
  method StaleListing(x: Value, y: Value) returns (c: Config, values: map<string, Value>)
    requires Proper(x)
    ensures fresh(c) && c.Valid() && !c.dirty && values == c.flat && c.root == Obj(map["a" := Arr([])])
    ensures "a.b" in values && Get(c.root, "a.b") == None
    ensures !FlatExact(values, c.root) && !DotHidden(c.root)
  {
    hide Digits;
    hide Split;
    hide ConfigTree.Set;
    hide Get;
    hide Alike;
    hide Surfaces;
    c := new Config();
    SetAB(x);
    SetLong(x, y);
    NotAlike(x);
    assert Canonical("a") && Canonical("b") by {
      assert !IsDigit("a"[0]) && !IsDigit("b"[0]);
    }
    var r := c.Set("a.b", x);
    values := c.Values();
    ProperSized(c.root);
    hide Proper;
    assert "a.b" in values;
    hide FlatExact;
    r := c.Set("a." + Digits(TWO64 / 2 - 1), y);
    values := c.Values();
  }
}
