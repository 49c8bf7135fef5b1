/** The timer manager: slot lists, positions and remainders updated in place by registration, cancellation
    and steps. It refines the schedule of TimerWheel.dfy: each timer fires in exactly the step that reaches
    the tick it is due, however often it moves between wheels. */
module TimerManager {
  import opened TimerWheel

  /** The list a timer is linked into. */
  datatype Where = Where(wheel: nat, slot: nat)

  datatype State = State(
    cur: seq<nat>, slots: map<Where, seq<Id>>, owner: map<Id, Where>, left: map<Id, nat>)

  predicate Real(at: Where) {
    at.wheel < WHEELS && at.slot < Count(at.wheel)
  }

  ghost predicate Shaped(s: State) {
    && |s.cur| == WHEELS
    && (forall w :: 0 <= w < WHEELS ==> s.cur[w] < Count(w))
    && (forall at :: Real(at) ==> at in s.slots)
  }

  ghost function ListAt(s: State, at: Where): seq<Id>
    requires Shaped(s) && Real(at)
  {
    s.slots[at]
  }

  predicate NoDup(l: seq<Id>) {
    forall i, j :: 0 <= i < j < |l| ==> l[i] != l[j]
  }

  /** A timer is in the list that owns it, once, and in no other. */
  ghost predicate Linked(s: State)
    requires Shaped(s)
  {
    && (forall id :: id in s.owner ==> Real(s.owner[id]) && id in s.left && id in ListAt(s, s.owner[id]))
    && (forall at, id {:trigger id in ListAt(s, at)} ::
          Real(at) && id in ListAt(s, at) ==> id in s.owner && s.owner[id] == at)
    && (forall at {:trigger NoDup(ListAt(s, at))} :: Real(at) ==> NoDup(ListAt(s, at)))
  }

  /** State in the middle of the step that reaches `t`, with `n` wheels dealt with; between steps `n` is 5. */
  ghost predicate Good(s: State, t: nat, n: nat) {
    && n <= WHEELS && (t > 0 || n == WHEELS)
    && Shaped(s) && Linked(s) && Showing(s.cur, t, n)
    && forall id :: id in s.owner && s.owner[id].wheel > 0 ==> s.left[id] < 2 * Base(s.owner[id].wheel)
  }

  ghost predicate Settled(s: State, id: Id)
    requires Shaped(s) && id in s.owner && Real(s.owner[id])
  {
    s.owner[id].slot != s.cur[s.owner[id].wheel]
  }

  /** No timer waits in a current slot. */
  ghost predicate AllSettled(s: State)
    requires Shaped(s) && Linked(s)
  {
    forall id :: id in s.owner ==> Settled(s, id)
  }

  ghost function Due(s: State, t: nat, n: nat, id: Id): nat
    requires Good(s, t, n) && id in s.owner
  {
    var at := s.owner[id];
    DueOf(TurnAt(t, n, at.wheel), at.wheel, at.slot, s.left[id])
  }

  ghost function Dues(s: State, t: nat, n: nat): map<Id, nat>
    requires Good(s, t, n)
  {
    map id | id in s.owner :: Due(s, t, n, id)
  }

  // ----- lists -----

  function Without(l: seq<Id>, id: Id): seq<Id> {
    if l == [] then [] else if l[0] == id then l[1..] else [l[0]] + Without(l[1..], id)
  }

  lemma WithoutExact(l: seq<Id>, id: Id)
    requires NoDup(l)
    ensures NoDup(Without(l, id))
    ensures forall x :: x in Without(l, id) <==> x in l && x != id
  {
    if l != [] {
      WithoutExact(l[1..], id);
      var r := Without(l, id);
      if l[0] != id {
        assert forall x :: x in r <==> x == l[0] || x in Without(l[1..], id);
        assert l[0] !in l[1..];
      } else {
        assert id !in l[1..];
      }
      assert forall x :: x in l <==> x == l[0] || x in l[1..];
    }
  }

  ghost function SetList(s: State, at: Where, l: seq<Id>): State
    requires Shaped(s) && Real(at)
  {
    s.(slots := s.slots[at := l])
  }

  ghost function Unlink(s: State, id: Id): State
    requires Shaped(s) && id in s.owner && Real(s.owner[id])
  {
    var at := s.owner[id];
    SetList(s, at, Without(ListAt(s, at), id)).(owner := s.owner - {id})
  }

  ghost function Link(s: State, id: Id, p: Place): State
    requires Shaped(s) && p.wheel < WHEELS && p.slot < Count(p.wheel)
  {
    var at := Where(p.wheel, p.slot);
    SetList(s, at, ListAt(s, at) + [id]).(owner := s.owner[id := at], left := s.left[id := p.left])
  }

  lemma UnlinkLinked(s: State, id: Id)
    requires Shaped(s) && Linked(s) && id in s.owner
    ensures Shaped(Unlink(s, id)) && Linked(Unlink(s, id))
  {
    hide Without;
    var at := s.owner[id];
    var r := Unlink(s, id);
    WithoutExact(ListAt(s, at), id);
    forall x: Where | Real(x)
      ensures ListAt(r, x) == if x == at then Without(ListAt(s, at), id) else ListAt(s, x)
    {
    }
    hide ListAt;
    hide NoDup;
    forall x: Where, y | Real(x) ensures y in ListAt(r, x) <==> y in r.owner && r.owner[y] == x {
    }
  }

  lemma LinkLinked(s: State, id: Id, p: Place)
    requires Shaped(s) && Linked(s) && id !in s.owner && p.wheel < WHEELS && p.slot < Count(p.wheel)
    ensures Shaped(Link(s, id, p)) && Linked(Link(s, id, p))
  {
    var at := Where(p.wheel, p.slot);
    var r := Link(s, id, p);
    assert id !in ListAt(s, at) && NoDup(ListAt(s, at));
    assert NoDup(ListAt(s, at) + [id]);
    forall x: Where | Real(x) ensures ListAt(r, x) == if x == at then ListAt(s, at) + [id] else ListAt(s, x) {
    }
    hide ListAt;
    forall x: Where, y | Real(x) ensures y in ListAt(r, x) <==> y in r.owner && r.owner[y] == x {
    }
  }

  /** A timer whose place and remainder are the same is due at the same tick. */
  lemma SameDue(s: State, r: State, t: nat, n: nat, id: Id)
    requires Good(s, t, n) && Good(r, t, n) && id in s.owner && id in r.owner
    requires s.owner[id] == r.owner[id] && s.left[id] == r.left[id]
    ensures Due(s, t, n, id) == Due(r, t, n, id)
  {
  }

  lemma UnlinkGood(s: State, t: nat, n: nat, id: Id)
    requires Good(s, t, n) && id in s.owner
    ensures Good(Unlink(s, id), t, n)
  {
    UnlinkLinked(s, id);
    hide Linked;
    hide Shaped;
    hide Without;
    hide Showing;
  }

  lemma LinkGood(s: State, t: nat, n: nat, id: Id, p: Place)
    requires Good(s, t, n) && id !in s.owner && p.wheel < WHEELS && p.slot < Count(p.wheel)
    requires p.wheel > 0 ==> p.left < 2 * Base(p.wheel)
    ensures Good(Link(s, id, p), t, n)
    ensures Due(Link(s, id, p), t, n, id) == DueOf(TurnAt(t, n, p.wheel), p.wheel, p.slot, p.left)
  {
    LinkLinked(s, id, p);
    hide Linked;
    hide Shaped;
    hide Showing;
  }

  lemma DuesWith(s: State, r: State, t: nat, n: nat, id: Id)
    requires Good(s, t, n) && Good(r, t, n) && id !in s.owner && r.owner.Keys == s.owner.Keys + {id}
    requires forall x :: x in s.owner ==> Due(r, t, n, x) == Due(s, t, n, x)
    ensures Dues(r, t, n) == Dues(s, t, n)[id := Due(r, t, n, id)]
  {
    hide Good;
    hide Due;
  }

  lemma DuesWithout(s: State, r: State, t: nat, n: nat, id: Id)
    requires Good(s, t, n) && Good(r, t, n) && r.owner.Keys == s.owner.Keys - {id}
    requires forall x :: x in r.owner ==> Due(r, t, n, x) == Due(s, t, n, x)
    ensures Dues(r, t, n) == Dues(s, t, n) - {id}
  {
    hide Good;
    hide Due;
  }

  lemma UnlinkKeeps(s: State, t: nat, n: nat, id: Id)
    requires Good(s, t, n) && id in s.owner
    ensures Good(Unlink(s, id), t, n) && Dues(Unlink(s, id), t, n) == Dues(s, t, n) - {id}
  {
    hide DueOf;
    hide TurnAt;
    hide Base;
    hide Without;
    UnlinkGood(s, t, n, id);
    var r := Unlink(s, id);
    assert forall x :: x in s.owner ==> x in s.left;
    hide Good;
    hide Linked;
    hide Showing;
    hide Due;
    forall x | x in r.owner ensures Due(r, t, n, x) == Due(s, t, n, x) {
      SameDue(s, r, t, n, x);
    }
    DuesWithout(s, r, t, n, id);
  }

  lemma LinkKeeps(s: State, t: nat, n: nat, id: Id, p: Place)
    requires Good(s, t, n) && id !in s.owner && p.wheel < WHEELS && p.slot < Count(p.wheel)
    requires p.wheel > 0 ==> p.left < 2 * Base(p.wheel)
    ensures Good(Link(s, id, p), t, n)
    ensures Dues(Link(s, id, p), t, n)
         == Dues(s, t, n)[id := DueOf(TurnAt(t, n, p.wheel), p.wheel, p.slot, p.left)]
  {
    hide DueOf;
    hide TurnAt;
    hide Base;
    LinkGood(s, t, n, id, p);
    var r := Link(s, id, p);
    assert forall x :: x in s.owner ==> x in s.left;
    hide Good;
    hide Linked;
    hide Showing;
    hide Due;
    forall x | x in s.owner ensures Due(r, t, n, x) == Due(s, t, n, x) {
      SameDue(s, r, t, n, x);
    }
    DuesWith(s, r, t, n, id);
  }

  // ----- wheels turning -----

  ghost function Turned(s: State, w: nat): State
    requires Shaped(s) && w < WHEELS
  {
    s.(cur := s.cur[w := (s.cur[w] + 1) % Count(w)])
  }

  lemma GapValue(turn: nat, w: nat, slot: nat)
    requires w < WHEELS && slot < Count(w)
    ensures var m := turn % Count(w);
            Gap(turn, w, slot) == if slot >= m then slot - m else slot + Count(w) - m
  {
  }

  lemma GapLess(turn: nat, w: nat, slot: nat)
    requires w < WHEELS && slot < Count(w) && slot != turn % Count(w)
    ensures Gap(turn + 1, w, slot) == Gap(turn, w, slot) - 1
  {
    hide Gap;
    ModNext(turn, w);
    GapValue(turn, w, slot);
    GapValue(turn + 1, w, slot);
  }

  lemma ModNext(turn: nat, w: nat)
    ensures var m := turn % Count(w); (turn + 1) % Count(w) == if m + 1 == Count(w) then 0 else m + 1
  {
  }

  lemma GapShrinks(turn: nat, w: nat, slot: nat, left: nat)
    requires w < WHEELS && slot < Count(w) && slot != turn % Count(w)
    ensures DueOf(turn + 1, w, slot, left) == DueOf(turn, w, slot, left)
  {
    hide Gap;
    hide Base;
    GapLess(turn, w, slot);
    assert turn + 1 + Gap(turn + 1, w, slot) == turn + Gap(turn, w, slot);
  }

  lemma TurnAdvances(t: nat, n: nat)
    requires t > 0 && n < WHEELS && t % Base(n) == 0
    ensures Turn(t, n) == Turn(t - 1, n) + 1 && Turn(t, n) * Base(n) == t
  {
  }

  lemma ModStep(turn: nat, w: nat)
    requires w < WHEELS
    ensures (turn + 1) % Count(w) == (turn % Count(w) + 1) % Count(w)
  {
  }

  /** Turning the next wheel moves no timer in time. */
  lemma TurnedKeeps(s: State, t: nat, n: nat)
    requires Good(s, t, n) && AllSettled(s) && n < WHEELS && t % Base(n) == 0
    ensures Good(Turned(s, n), t, n + 1) && Dues(Turned(s, n), t, n + 1) == Dues(s, t, n)
    ensures forall id :: id in s.owner ==>
              Settled(Turned(s, n), id) || s.owner[id] == Where(n, Turned(s, n).cur[n])
  {
    var r := Turned(s, n);
    TurnAdvances(t, n);
    ModStep(Turn(t - 1, n), n);
    forall w | 0 <= w < WHEELS ensures r.cur[w] == TurnAt(t, n + 1, w) % Count(w) {
    }
    assert Shaped(r);
    assert forall at :: Real(at) ==> ListAt(r, at) == ListAt(s, at);
    assert Linked(r);
    hide DueOf;
    forall id | id in s.owner ensures Due(r, t, n + 1, id) == Due(s, t, n, id) {
      var at := s.owner[id];
      assert Settled(s, id);
      if at.wheel == n {
        GapShrinks(Turn(t - 1, n), n, at.slot, s.left[id]);
      }
    }
  }

  lemma StepBegins(s: State, t: nat)
    requires Good(s, t, WHEELS)
    ensures Good(s, t + 1, 0) && Dues(s, t + 1, 0) == Dues(s, t, WHEELS)
  {
    hide DueOf;
    assert forall w :: 0 <= w < WHEELS ==> TurnAt(t + 1, 0, w) == TurnAt(t, WHEELS, w);
  }

  /** If the wheel just turned did not complete a round, the wheels above already show the new tick. */
  lemma StepEnds(s: State, t: nat, n: nat)
    requires Good(s, t, n) && t > 0 && (n < WHEELS ==> t % Base(n) != 0)
    ensures Good(s, t, WHEELS) && Dues(s, t, WHEELS) == Dues(s, t, n)
  {
    hide DueOf;
    forall w | 0 <= w < WHEELS ensures TurnAt(t, n, w) == TurnAt(t, WHEELS, w) {
      if n <= w {
        TurnSame(t, n, w);
      }
    }
  }

  lemma RoundComplete(s: State, t: nat, w: nat)
    requires Good(s, t, w + 1) && t > 0 && w + 1 < WHEELS && t % Base(w) == 0
    ensures s.cur[w] == 0 <==> t % Base(w + 1) == 0
  {
    Radix(t, w);
    if t % Base(w + 1) == 0 {
      ZeroProduct(s.cur[w], Base(w));
    }
  }

  /** A timer waiting in the slot just reached is due once its remainder has passed. */
  lemma DueInSlot(s: State, t: nat, w: nat, id: Id)
    requires Good(s, t, w + 1) && t > 0 && w < WHEELS && t % Base(w) == 0
    requires id in s.owner && s.owner[id] == Where(w, s.cur[w])
    ensures Due(s, t, w + 1, id) == t + (if w == 0 then 0 else s.left[id])
  {
    TurnAdvances(t, w);
    assert Gap(Turn(t, w), w, s.cur[w]) == 0;
  }

  /** Timers waiting in slots not yet reached are due later. */
  lemma SettledIsLater(s: State, t: nat)
    requires Good(s, t, WHEELS) && AllSettled(s)
    ensures forall id :: id in s.owner ==> Due(s, t, WHEELS, id) > t
  {
    forall id | id in s.owner ensures Due(s, t, WHEELS, id) > t {
      DueLater(s, t, id);
    }
  }

  lemma DueLater(s: State, t: nat, id: Id)
    requires Good(s, t, WHEELS) && id in s.owner && Settled(s, id)
    ensures Due(s, t, WHEELS, id) > t
  {
    var at := s.owner[id];
    var g := Gap(Turn(t, at.wheel), at.wheel, at.slot);
    GapValue(Turn(t, at.wheel), at.wheel, at.slot);
    hide Linked;
    hide Gap;
    hide Base;
    LaterTurn(t, at.wheel, g);
  }

  lemma LaterTurn(t: nat, w: nat, g: nat)
    requires w < WHEELS && g > 0
    ensures (Turn(t, w) + g) * Base(w) > t
  {
    var b := Base(w);
    assert t == b * (t / b) + t % b;
    assert (t / b + g) * b == b * (t / b) + g * b;
    assert g * b >= b;
  }

  // ----- the manager -----

  /** What the clock adds to a timeout at registration. */
  function Lagged(timeout: nat, lastTick: nat, now: nat): (d: nat)
    requires timeout < TWO32
    ensures d < TWO32
  {
    if lastTick > 0 && now > lastTick then (now - lastTick + timeout) % TWO32 else timeout
  }

  // ----- where one timer goes, whatever the lag -----

  /** Wheel, slot and remainder of every timer. */
  ghost function Places(s: State): map<Id, TimerWheel.Place> {
    map id | id in s.owner && id in s.left :: TimerWheel.Place.Place(s.owner[id].wheel, s.owner[id].slot, s.left[id])
  }

  datatype Fate = Fires | Waits(place: TimerWheel.Place)

  /** What emptying the slot that wheel `w` shows does to a timer. */
  function Passed(cur: seq<nat>, w: nat, p: TimerWheel.Place, lastTick: nat, now: nat): Fate
    requires |cur| == WHEELS && w < WHEELS
  {
    if p.wheel != w || p.slot != cur[w] then Waits(p)
    else if w == 0 || p.left == 0 then Fires
    else Waits(PlaceOf(cur, Delay(Lagged(p.left % TWO32, lastTick, now))))
  }

  /** The wheel advanced by one slot. */
  function Turn1(cur: seq<nat>, w: nat): (r: seq<nat>)
    requires |cur| == WHEELS && w < WHEELS
    ensures |r| == WHEELS
  {
    cur[w := (cur[w] + 1) % Count(w)]
  }

  /** What a step does to a timer, from wheel `w` on: a wheel that comes round turns the next one. */
  function StepFate(cur: seq<nat>, w: nat, p: TimerWheel.Place, lastTick: nat, now: nat): Fate
    requires |cur| == WHEELS && w < WHEELS
    decreases WHEELS - w
  {
    var turned := Turn1(cur, w);
    match Passed(turned, w, p, lastTick, now)
    case Fires => Fires
    case Waits(q) => if turned[w] == 0 && w + 1 < WHEELS then StepFate(turned, w + 1, q, lastTick, now) else Waits(q)
  }

  /** The wheels after a step. */
  function StepCur(cur: seq<nat>, w: nat): (r: seq<nat>)
    requires |cur| == WHEELS && w < WHEELS
    ensures |r| == WHEELS
    decreases WHEELS - w
  {
    var turned := Turn1(cur, w);
    if turned[w] == 0 && w + 1 < WHEELS then StepCur(turned, w + 1) else turned
  }

  /** The wheels after some steps, from the tick after `lastTick` on, and what has become of a timer by then. */
  function CurAfter(cur: seq<nat>, n: nat): (r: seq<nat>)
    requires |cur| == WHEELS
    ensures |r| == WHEELS
  {
    if n == 0 then cur else StepCur(CurAfter(cur, n - 1), 0)
  }

  function Journey(cur: seq<nat>, p: TimerWheel.Place, n: nat, lastTick: nat, now: nat): Fate
    requires |cur| == WHEELS
  {
    if n == 0 then Waits(p)
    else match Journey(cur, p, n - 1, lastTick, now)
      case Fires => Fires
      case Waits(q) => StepFate(CurAfter(cur, n - 1), 0, q, lastTick + n, now)
  }

  /** It fires in this step and in no other. */
  predicate FiresIn(cur: seq<nat>, p: TimerWheel.Place, i: nat, lastTick: nat, now: nat)
    requires |cur| == WHEELS
  {
    Journey(cur, p, i, lastTick, now).Waits? && Journey(cur, p, i + 1, lastTick, now).Fires?
  }

  ghost predicate OnJourney(
    cur: seq<nat>, start: map<Id, TimerWheel.Place>, n: nat, places: map<Id, TimerWheel.Place>, lastTick: nat, now: nat)
    requires |cur| == WHEELS
  {
    && places.Keys <= start.Keys
    && forall id :: id in start ==> Journey(cur, start[id], n, lastTick, now) == Now(places, id)
  }

  /** The lists of timers fired are exactly what each timer's own journey says. */
  ghost predicate FiredAsTold(
    cur: seq<nat>, start: map<Id, TimerWheel.Place>, fired: seq<seq<Id>>, lastTick: nat, now: nat)
    requires |cur| == WHEELS
  {
    forall i, id :: 0 <= i < |fired| && id in start ==>
      (id in fired[i] <==> FiresIn(cur, start[id], i, lastTick, now))
  }

  lemma JourneyBegins(cur: seq<nat>, start: map<Id, TimerWheel.Place>, lastTick: nat, now: nat)
    requires |cur| == WHEELS
    ensures OnJourney(cur, start, 0, start, lastTick, now) && FiredAsTold(cur, start, [], lastTick, now)
  {
  }

  lemma JourneyOn(
    cur: seq<nat>, start: map<Id, TimerWheel.Place>, fired: seq<seq<Id>>, was: map<Id, TimerWheel.Place>,
    more: seq<Id>, places: map<Id, TimerWheel.Place>, lastTick: nat, now: nat)
    requires |cur| == WHEELS
    requires OnJourney(cur, start, |fired|, was, lastTick, now) && FiredAsTold(cur, start, fired, lastTick, now)
    requires places.Keys == was.Keys - (set x | x in more) && (set x | x in more) <= was.Keys
    requires forall id :: id in was ==>
               StepFate(CurAfter(cur, |fired|), 0, was[id], lastTick + |fired| + 1, now) == Now(places, id)
    ensures OnJourney(cur, start, |fired| + 1, places, lastTick, now)
    ensures FiredAsTold(cur, start, fired + [more], lastTick, now)
  {
    hide StepFate;
    hide CurAfter;
    var n, all := |fired|, fired + [more];
    forall id | id in start
      ensures Journey(cur, start[id], n + 1, lastTick, now) == Now(places, id)
      ensures id in more <==> FiresIn(cur, start[id], n, lastTick, now)
    {
      assert id in more <==> id in was && id !in places;
    }
    hide Journey;
    hide FiresIn;
    forall i, id | 0 <= i < |all| && id in start ensures id in all[i] <==> FiresIn(cur, start[id], i, lastTick, now) {
      if i < n {
        assert all[i] == fired[i];
      }
    }
  }

  /** What is left to happen to a timer with wheel `w` next; nothing when all wheels are dealt with. */
  ghost function Rest(cur: seq<nat>, w: nat, places: map<Id, TimerWheel.Place>, id: Id, lastTick: nat, now: nat): Fate
    requires |cur| == WHEELS
  {
    if id !in places then Fires
    else if w < WHEELS then StepFate(cur, w, places[id], lastTick, now)
    else Waits(places[id])
  }

  ghost predicate Underway(
    fates: map<Id, Fate>, cur: seq<nat>, w: nat, places: map<Id, TimerWheel.Place>, lastTick: nat, now: nat)
    requires |cur| == WHEELS
  {
    places.Keys <= fates.Keys && forall id :: id in fates ==> fates[id] == Rest(cur, w, places, id, lastTick, now)
  }

  /** While the slot is emptied: each timer has been dealt with, or is still in it. */
  ghost predicate Passing(
    before: map<Id, TimerWheel.Place>, after: map<Id, TimerWheel.Place>, cur: seq<nat>, w: nat, lastTick: nat,
    now: nat)
    requires |cur| == WHEELS && w < WHEELS
  {
    && after.Keys <= before.Keys
    && forall id :: id in before ==>
         || (id in after && after[id] == before[id] && before[id].wheel == w && before[id].slot == cur[w])
         || Dealt(after, id, w, cur[w], Passed(cur, w, before[id], lastTick, now))
  }

  ghost predicate Dealt(after: map<Id, TimerWheel.Place>, id: Id, w: nat, slot: nat, fate: Fate) {
    match fate
    case Fires => id !in after
    case Waits(q) => id in after && after[id] == q && (q.wheel != w || q.slot != slot)
  }

  function Now(places: map<Id, TimerWheel.Place>, id: Id): Fate {
    if id in places then Waits(places[id]) else Fires
  }

  ghost function FatesOf(
    cur: seq<nat>, places: map<Id, TimerWheel.Place>, lastTick: nat, now: nat): (r: map<Id, Fate>)
    requires |cur| == WHEELS
    ensures Underway(r, cur, 0, places, lastTick, now)
  {
    map id | id in places :: StepFate(cur, 0, places[id], lastTick, now)
  }

  lemma FatesAre(cur: seq<nat>, places: map<Id, TimerWheel.Place>, lastTick: nat, now: nat)
    requires |cur| == WHEELS
    ensures FatesOf(cur, places, lastTick, now).Keys == places.Keys
    ensures forall id :: id in places ==>
              FatesOf(cur, places, lastTick, now)[id] == StepFate(cur, 0, places[id], lastTick, now)
  {
    hide StepFate;
  }

  lemma Underdone(
    fates: map<Id, Fate>, cur: seq<nat>, places: map<Id, TimerWheel.Place>, lastTick: nat, now: nat)
    requires |cur| == WHEELS && Underway(fates, cur, WHEELS, places, lastTick, now)
    ensures places.Keys <= fates.Keys && forall id :: id in fates ==> fates[id] == Now(places, id)
  {
  }

  lemma StepCurTurned(cur: seq<nat>, w: nat)
    requires |cur| == WHEELS && w < WHEELS
    ensures var turned := Turn1(cur, w);
            StepCur(cur, w) == if turned[w] == 0 && w + 1 < WHEELS then StepCur(turned, w + 1) else turned
  {
  }

  lemma PlacesTurned(s: State, w: nat)
    requires |s.cur| == WHEELS && w < WHEELS
    ensures Places(s.(cur := Turn1(s.cur, w))) == Places(s)
  {
  }

  lemma NoneThere(s: State, w: nat)
    requires Shaped(s) && Linked(s) && AllSettled(s) && w < WHEELS
    ensures forall id :: id in Places(s) ==> Places(s)[id].wheel != w || Places(s)[id].slot != s.cur[w]
  {
    forall id | id in Places(s) ensures Places(s)[id].wheel != w || Places(s)[id].slot != s.cur[w] {
      assert Settled(s, id);
    }
  }

  lemma PlacedDue(s: State, t: nat)
    requires Good(s, t, WHEELS)
    ensures Places(s).Keys == Dues(s, t, WHEELS).Keys
  {
  }

  /** All that is tracked while a slot is emptied. */
  ghost predicate Emptying(
    before: map<Id, nat>, places: map<Id, TimerWheel.Place>, t: nat, fired: seq<Id>, dues: map<Id, nat>, s: State,
    w: nat, lastTick: nat, now: nat)
    requires |s.cur| == WHEELS && w < WHEELS
  {
    && Progress(before, t, fired, dues, Lag(lastTick, now))
    && MovedAside(before, dues, s.owner, Where(w, s.cur[w]), Lag(lastTick, now))
    && Passing(places, Places(s), s.cur, w, lastTick, now)
  }

  lemma EmptyingFires(
    before: map<Id, nat>, places: map<Id, TimerWheel.Place>, t: nat, fired: seq<Id>, dues: map<Id, nat>, s: State,
    w: nat, lastTick: nat, now: nat, id: Id, r: State)
    requires |s.cur| == WHEELS && w < WHEELS && Emptying(before, places, t, fired, dues, s, w, lastTick, now)
    requires id in dues && dues[id] == t && id in s.owner && s.owner[id] == Where(w, s.cur[w])
    requires id in s.left && (w == 0 || s.left[id] == 0)
    requires r.cur == s.cur && r.owner == s.owner - {id} && Places(r) == Places(s) - {id}
    ensures Emptying(before, places, t, fired + [id], dues - {id}, r, w, lastTick, now)
  {
    var at, lag := Where(w, s.cur[w]), Lag(lastTick, now);
    PassingFires(places, Places(s), s.cur, w, lastTick, now, id);
    hide Passing;
    hide Places;
    KeysOf(before, t, fired, dues, lag);
    NotMoved(before, dues, s.owner, id, at, lag);
    FireOne(before, t, fired, dues, id, lag);
    AsideWithout(before, dues, s.owner, id, at, lag);
    hide Progress;
    hide MovedAside;
  }

  lemma EmptyingMoves(
    before: map<Id, nat>, places: map<Id, TimerWheel.Place>, t: nat, fired: seq<Id>, dues: map<Id, nat>, s: State,
    w: nat, lastTick: nat, now: nat, id: Id, rest: nat, due: nat, r: State)
    requires |s.cur| == WHEELS && w < WHEELS && Emptying(before, places, t, fired, dues, s, w, lastTick, now)
    requires id in dues && dues[id] == t + rest && id in s.owner && s.owner[id] == Where(w, s.cur[w])
    requires id in s.left && s.left[id] == rest && w > 0 && 0 < rest < TWO32
    requires Lag(lastTick, now) <= SMALL_LAG ==> due == t + rest + Lag(lastTick, now)
    requires id in r.owner && r.owner == (s.owner - {id})[id := r.owner[id]] && r.owner[id] != Where(w, s.cur[w])
    requires Lag(lastTick, now) <= SMALL_LAG ==> r.owner[id].wheel <= w
    requires var q := PlaceOf(s.cur, Delay(Lagged(rest, lastTick, now)));
             Places(r) == (Places(s) - {id})[id := q] && (q.wheel != w || q.slot != s.cur[w])
    requires r.cur == s.cur
    ensures Emptying(before, places, t, fired, (dues - {id})[id := due], r, w, lastTick, now)
  {
    var q := PlaceOf(s.cur, Delay(Lagged(rest, lastTick, now)));
    hide PlaceOf;
    hide Lagged;
    hide Progress;
    hide MovedAside;
    PassingMoves(places, Places(s), s.cur, w, lastTick, now, id, q);
    assert Places(s)[id := q] == (Places(s) - {id})[id := q];
    hide Passing;
    hide Places;
    TrackedMoves(before, t, fired, dues, s.owner, Where(w, s.cur[w]), Lag(lastTick, now), id, due, r.owner[id]);
  }

  lemma TrackedMoves(
    before: map<Id, nat>, t: nat, fired: seq<Id>, dues: map<Id, nat>, owner: map<Id, Where>, at: Where, lag: nat,
    id: Id, due: nat, to: Where)
    requires Progress(before, t, fired, dues, lag) && MovedAside(before, dues, owner, at, lag)
    requires id in dues && dues[id] > t && id in owner && owner[id] == at && to != at
    requires lag <= SMALL_LAG ==> due == dues[id] + lag && to.wheel <= at.wheel
    ensures Progress(before, t, fired, (dues - {id})[id := due], lag)
    ensures MovedAside(before, (dues - {id})[id := due], (owner - {id})[id := to], at, lag)
  {
    hide Progress;
    hide MovedAside;
    KeysOf(before, t, fired, dues, lag);
    NotMoved(before, dues, owner, id, at, lag);
    DelayOne(before, t, fired, dues, id, due, lag);
    AsideMoved(before, dues, owner, id, due, at, to, lag);
    assert owner[id := to] == (owner - {id})[id := to];
    assert dues[id := due] == (dues - {id})[id := due];
  }

  lemma PassingBegins(places: map<Id, TimerWheel.Place>, cur: seq<nat>, w: nat, lastTick: nat, now: nat)
    requires |cur| == WHEELS && w < WHEELS
    ensures Passing(places, places, cur, w, lastTick, now)
  {
    hide PlaceOf;
  }

  /** A timer taken off the slot has not been dealt with, so it is where it was. */
  lemma PassingTaken(
    before: map<Id, TimerWheel.Place>, after: map<Id, TimerWheel.Place>, cur: seq<nat>, w: nat, lastTick: nat,
    now: nat, id: Id)
    requires |cur| == WHEELS && w < WHEELS && Passing(before, after, cur, w, lastTick, now)
    requires id in after && after[id].wheel == w && after[id].slot == cur[w]
    ensures id in before && before[id] == after[id]
  {
    hide PlaceOf;
  }

  lemma PassingFires(
    before: map<Id, TimerWheel.Place>, after: map<Id, TimerWheel.Place>, cur: seq<nat>, w: nat, lastTick: nat,
    now: nat, id: Id)
    requires |cur| == WHEELS && w < WHEELS && Passing(before, after, cur, w, lastTick, now)
    requires id in after && after[id].wheel == w && after[id].slot == cur[w] && (w == 0 || after[id].left == 0)
    ensures Passing(before, after - {id}, cur, w, lastTick, now)
  {
    PassingTaken(before, after, cur, w, lastTick, now, id);
    assert Passed(cur, w, before[id], lastTick, now) == Fires;
    hide Passed;
  }

  lemma PassingMoves(
    before: map<Id, TimerWheel.Place>, after: map<Id, TimerWheel.Place>, cur: seq<nat>, w: nat, lastTick: nat,
    now: nat, id: Id, q: TimerWheel.Place)
    requires |cur| == WHEELS && w < WHEELS && Passing(before, after, cur, w, lastTick, now)
    requires id in after && after[id].wheel == w && after[id].slot == cur[w] && w > 0 && 0 < after[id].left < TWO32
    requires q == PlaceOf(cur, Delay(Lagged(after[id].left, lastTick, now))) && (q.wheel != w || q.slot != cur[w])
    ensures Passing(before, after[id := q], cur, w, lastTick, now)
  {
    hide PlaceOf;
    hide Lagged;
    PassingTaken(before, after, cur, w, lastTick, now, id);
    PassedMoves(cur, w, before[id], lastTick, now);
    hide Passed;
    forall x | x in before
      ensures || (x in after && x != id && after[x] == before[x] && before[x].wheel == w && before[x].slot == cur[w])
              || Dealt(after[id := q], x, w, cur[w], Passed(cur, w, before[x], lastTick, now))
    {
    }
  }

  lemma PassedMoves(cur: seq<nat>, w: nat, p: TimerWheel.Place, lastTick: nat, now: nat)
    requires |cur| == WHEELS && 0 < w < WHEELS && p.wheel == w && p.slot == cur[w] && 0 < p.left < TWO32
    ensures Passed(cur, w, p, lastTick, now) == Waits(PlaceOf(cur, Delay(Lagged(p.left, lastTick, now))))
  {
    hide PlaceOf;
    hide Lagged;
  }

  /** With the slot empty every timer has been dealt with, and the next wheel is up if this one came round. */
  lemma PassingEnds(
    fates: map<Id, Fate>, before: map<Id, TimerWheel.Place>, after: map<Id, TimerWheel.Place>, was: seq<nat>, w: nat,
    lastTick: nat, now: nat)
    requires |was| == WHEELS && w < WHEELS && Underway(fates, was, w, before, lastTick, now)
    requires var cur := Turn1(was, w);
             && Passing(before, after, cur, w, lastTick, now)
             && forall id :: id in after ==> after[id].wheel != w || after[id].slot != cur[w]
    ensures var cur := Turn1(was, w);
            Underway(fates, cur, if cur[w] == 0 then w + 1 else WHEELS, after, lastTick, now)
  {
    var cur := Turn1(was, w);
    forall id | id in fates
      ensures fates[id] == Rest(cur, if cur[w] == 0 then w + 1 else WHEELS, after, id, lastTick, now)
    {
      if id in before {
        assert Dealt(after, id, w, cur[w], Passed(cur, w, before[id], lastTick, now));
      }
      hide Passed;
    }
  }

  class TimerMgr {
    var cur: seq<nat>
    var slots: map<Where, seq<Id>>
    var owner: map<Id, Where>
    var left: map<Id, nat>
    var lastTick: nat
    ghost var elapsed: nat

    ghost function Value(): State
      reads this
    {
      State(cur, slots, owner, left)
    }

    ghost predicate Valid()
      reads this
    {
      Good(Value(), elapsed, WHEELS) && AllSettled(Value())
    }

    /** The schedule this state stands for. */
    ghost function Abs(): Schedule
      reads this
      requires Valid()
    {
      Schedule(elapsed, Dues(Value(), elapsed, WHEELS))
    }

    constructor (tick: nat)
      ensures Valid() && Abs() == Schedule(0, map[]) && lastTick == tick
    {
      cur := [0, 0, 0, 0, 0];
      slots := map w, k | 0 <= w < WHEELS && 0 <= k < Count(w) :: Where(w, k) := [];
      owner := map[];
      left := map[];
      lastTick := tick;
      elapsed := 0;
    }

    /** Wheel, slot and remainder for a delay, by shifting through the wheels. The remainder is an unsigned
        32-bit variable; no subtraction from it wraps. */
    method Locate(timeout: nat) returns (p: TimerWheel.Place)
      requires 0 < timeout < TWO32 && Shaped(Value())
      ensures p == PlaceOf(cur, timeout)
    {
      hide Base;
      hide WheelFor;
      hide Low;
      hide Count;
      hide Remainder;
      var w := 0;
      var offset := timeout;
      var rest := timeout;
      FirstWheel(timeout);
      while w + 1 < WHEELS && offset >= Count(w)
        invariant 0 <= w < WHEELS && Base(w) <= timeout
        invariant offset == timeout / Base(w)
        invariant rest == if w == 0 then timeout else timeout - (Base(w) - Low(cur, w))
      {
        var passed := Base(w) * (Count(w) - cur[w] - (if w == 0 then 0 else 1));
        NextWheel(timeout, w);
        PassWheel(cur, timeout, w, rest);
        rest := (rest - passed) % TWO32;
        offset := offset / Count(w);
        w := w + 1;
      }
      LastWheel(timeout, w);
      FinalRest(cur, timeout, w, rest);
      rest := (rest - Base(w) * (offset - 1)) % TWO32;
      p := TimerWheel.Place.Place(w, (offset + cur[w]) % Count(w), rest);
    }

    /** Links a timer for a delay, in the middle of a step or between steps. */
    method Enter(id: Id, delay: nat, ghost n: nat)
      requires Good(Value(), elapsed, n) && n > 0 && id !in owner && 0 < delay < TWO32
      modifies `slots, `owner, `left
      ensures Value() == Link(old(Value()), id, PlaceOf(cur, delay))
      ensures Good(Value(), elapsed, n) && Settled(Value(), id)
      ensures var p := PlaceOf(cur, delay);
              Dues(Value(), elapsed, n) == old(Dues(Value(), elapsed, n))[
                id := DueOf(TurnAt(elapsed, n, p.wheel), p.wheel, p.slot, p.left)]
    {
      hide DueOf;
      hide Base;
      hide Gap;
      hide Linked;
      hide Showing;
      hide TurnAt;
      hide Dues;
      var p := Locate(delay);
      hide PlaceOf;
      RegisteredMidStep(cur, elapsed, n, delay);
      LinkKeeps(Value(), elapsed, n, id, p);
      GapMeansSettled(cur, elapsed, n, p);
      left := left[id := p.left];
      var at := Where(p.wheel, p.slot);
      slots := slots[at := slots[at] + [id]];
      owner := owner[id := at];
    }

    method Detach(id: Id, ghost n: nat)
      requires Good(Value(), elapsed, n) && id in owner
      modifies `slots, `owner
      ensures Value() == Unlink(old(Value()), id) && Good(Value(), elapsed, n)
      ensures Dues(Value(), elapsed, n) == old(Dues(Value(), elapsed, n)) - {id}
    {
      UnlinkKeeps(Value(), elapsed, n, id);
      var at := owner[id];
      slots := slots[at := Without(slots[at], id)];
      owner := owner - {id};
    }

    method Place(id: Id, d: nat)
      requires Valid() && id !in owner && 0 < d < TWO32
      modifies `slots, `owner, `left
      ensures Valid() && elapsed == old(elapsed)
      ensures Abs().due == old(Abs()).due[id := elapsed + d]
    {
      RegisteredMidStep(cur, elapsed, WHEELS, d);
      hide DueOf;
      hide PlaceOf;
      hide Dues;
      hide Showing;
      Enter(id, d, WHEELS);
      LinkSettles(old(Value()), id, PlaceOf(cur, d));
    }

    lemma AbsKeys()
      requires Valid()
      ensures Abs().due.Keys == owner.Keys
    {
    }

    /** Between steps: the timer is due exactly `timeout` ticks after the clock's `now` (0 counts as 1),
        whether or not it was registered before, and no other timer is touched. */
    method RegisterTimer(id: Id, timeout: nat, now: nat)
      requires Valid() && timeout < TWO32
      modifies `slots, `owner, `left
      ensures Valid() && Abs() == Add(old(Abs()), id, Lagged(timeout, lastTick, now))
      ensures id in Abs().due
      ensures lastTick == 0 || now <= lastTick ==> Abs().due[id] == Abs().now + (if timeout == 0 then 1 else timeout)
      ensures 0 < lastTick < now && now - lastTick + timeout < TWO32 ==>
                Abs().due[id] == Abs().now + (now - lastTick) + timeout
    {
      hide Dues;
      hide Good;
      hide AllSettled;
      ghost var before := Abs();
      AbsKeys();
      if id in owner {
        var code := UnRegisterTimer(id);
        AbsKeys();
      }
      var d := Delay(Lagged(timeout, lastTick, now));
      Place(id, d);
      assert before.due[id := elapsed + d] == (before.due - {id})[id := elapsed + d];
    }

    method UnRegisterTimer(id: Id) returns (code: int)
      requires Valid()
      modifies `slots, `owner
      ensures Valid() && Abs() == Cancel(old(Abs()), id)
      ensures code == if id in old(Abs()).due then 0 else -1
    {
      if id !in owner {
        return -1;
      }
      Detach(id, WHEELS);
      code := 0;
    }

    /** Takes the first timer off the slot wheel `w` has just reached. */
    method Pop(w: nat) returns (id: Id)
      requires elapsed > 0 && w < WHEELS && Good(Value(), elapsed, w + 1) && elapsed % Base(w) == 0
      requires OthersSettled(Value(), Where(w, cur[w])) && slots[Where(w, cur[w])] != []
      modifies `slots, `owner
      ensures Good(Value(), elapsed, w + 1) && OthersSettled(Value(), Where(w, cur[w]))
      ensures id !in owner && id in left && (w > 0 ==> left[id] < 2 * Base(w))
      ensures id in old(owner) && old(owner)[id] == Where(w, cur[w]) && owner == old(owner) - {id}
      ensures var dues := old(Dues(Value(), elapsed, w + 1));
              && id in dues && dues[id] == elapsed + (if w == 0 then 0 else left[id])
              && Dues(Value(), elapsed, w + 1) == dues - {id}
      ensures |slots[Where(w, cur[w])]| < old(|slots[Where(w, cur[w])]|)
      ensures var places := old(Places(Value()));
              && id in places && places[id] == TimerWheel.Place.Place(w, cur[w], left[id])
              && Places(Value()) == places - {id}
    {
      hide DueOf;
      hide Base;
      hide Due;
      hide Linked;
      hide Showing;
      hide OthersSettled;
      hide TurnAt;
      hide Without;
      assert Real(Where(w, cur[w]));
      id := slots[Where(w, cur[w])][0];
      hide Good;
      PopFirst(Value(), elapsed, w);
      assert id in Dues(Value(), elapsed, w + 1);
      hide Dues;
      Detach(id, w + 1);
    }

    /** One timer of the slot fires if it has no time left, and otherwise moves to a finer slot. */
    method PopOne(
      w: nat, now: nat, already: seq<Id>, ghost before: map<Id, nat>, ghost places: map<Id, TimerWheel.Place>)
      returns (fired: seq<Id>)
      requires elapsed > 0 && w < WHEELS && Good(Value(), elapsed, w + 1) && elapsed % Base(w) == 0
      requires OthersSettled(Value(), Where(w, cur[w])) && slots[Where(w, cur[w])] != []
      requires Emptying(before, places, elapsed, already, Dues(Value(), elapsed, w + 1), Value(), w, lastTick, now)
      modifies `slots, `owner, `left
      ensures Good(Value(), elapsed, w + 1) && OthersSettled(Value(), Where(w, cur[w]))
      ensures Emptying(before, places, elapsed, fired, Dues(Value(), elapsed, w + 1), Value(), w, lastTick, now)
      ensures |slots[Where(w, cur[w])]| < old(|slots[Where(w, cur[w])]|)
    {
      hide Base;
      hide Due;
      hide Dues;
      hide Linked;
      hide Showing;
      hide OthersSettled;
      hide Emptying;
      hide Places;
      hide PlaceOf;
      hide Lagged;
      assert |cur| == WHEELS;
      hide Good;
      fired := already;
      ghost var dues, was := Dues(Value(), elapsed, w + 1), Value();
      var id := Pop(w);
      if w == 0 || left[id] == 0 {
        EmptyingFires(before, places, elapsed, fired, dues, was, w, lastTick, now, id, Value());
        fired := fired + [id];
      } else {
        ghost var rest := left[id];
        ghost var due := MoveOn(id, w, now);
        EmptyingMoves(before, places, elapsed, fired, dues, was, w, lastTick, now, id, rest, due, Value());
      }
    }

    /** A timer that moves on is linked into a slot that is not current. */
    method Requeue(id: Id, delay: nat, ghost w: nat)
      requires elapsed > 0 && w < WHEELS && Good(Value(), elapsed, w + 1) && OthersSettled(Value(), Where(w, cur[w]))
      requires id !in owner && 0 < delay < TWO32
      modifies `slots, `owner, `left
      ensures Good(Value(), elapsed, w + 1) && OthersSettled(Value(), Where(w, cur[w]))
      ensures var p := PlaceOf(cur, delay);
              Dues(Value(), elapsed, w + 1) == old(Dues(Value(), elapsed, w + 1))[
                id := DueOf(TurnAt(elapsed, w + 1, p.wheel), p.wheel, p.slot, p.left)]
      ensures slots[Where(w, cur[w])] == old(slots[Where(w, cur[w])])
      ensures var p := PlaceOf(cur, delay);
              owner == old(owner)[id := Where(p.wheel, p.slot)] && owner[id] != Where(w, cur[w])
      ensures Places(Value()) == old(Places(Value()))[id := PlaceOf(cur, delay)]
    {
      hide DueOf;
      hide Base;
      hide Dues;
      hide Due;
      hide Showing;
      hide TurnAt;
      hide PlaceOf;
      Enter(id, delay, w + 1);
      LinkOthers(old(Value()), id, PlaceOf(cur, delay), Where(w, cur[w]));
    }

    /** A timer with time left is registered again with that time, plus what the clock has run ahead. */
    method MoveOn(id: Id, ghost w: nat, now: nat) returns (ghost due: nat)
      requires elapsed > 0 && 0 < w < WHEELS && Good(Value(), elapsed, w + 1)
      requires OthersSettled(Value(), Where(w, cur[w]))
      requires id !in owner && id in left && 0 < left[id] < 2 * Base(w)
      modifies `slots, `owner, `left
      ensures Good(Value(), elapsed, w + 1) && OthersSettled(Value(), Where(w, cur[w]))
      ensures Dues(Value(), elapsed, w + 1) == old(Dues(Value(), elapsed, w + 1))[id := due]
      ensures Lag(lastTick, now) <= SMALL_LAG ==> due == elapsed + old(left[id]) + Lag(lastTick, now)
      ensures id in owner && owner == old(owner)[id := owner[id]] && owner[id] != Where(w, cur[w])
      ensures Lag(lastTick, now) <= SMALL_LAG ==> owner[id].wheel <= w
      ensures slots[Where(w, cur[w])] == old(slots[Where(w, cur[w])])
      ensures old(left[id]) < TWO32
      ensures var q := PlaceOf(cur, Delay(Lagged(old(left[id]), lastTick, now)));
              Places(Value()) == old(Places(Value()))[id := q] && (q.wheel != w || q.slot != cur[w])
    {
      hide DueOf;
      hide PlaceOf;
      hide Base;
      hide Dues;
      hide Due;
      hide Linked;
      hide Showing;
      hide OthersSettled;
      hide TurnAt;
      hide Gap;
      hide ListAt;
      Cascade(cur, elapsed, w, left[id], lastTick, now);
      hide Good;
      var delay := Delay(Lagged(left[id], lastTick, now));
      ghost var p := PlaceOf(cur, delay);
      due := DueOf(TurnAt(elapsed, w + 1, p.wheel), p.wheel, p.slot, p.left);
      Requeue(id, delay, w);
    }

    /** Empties the slot wheel `w` has just reached. */
    method Drain(w: nat, now: nat, already: seq<Id>, ghost before: map<Id, nat>) returns (fired: seq<Id>)
      requires elapsed > 0 && w < WHEELS && Good(Value(), elapsed, w + 1) && elapsed % Base(w) == 0
      requires OthersSettled(Value(), Where(w, cur[w]))
      requires Progress(before, elapsed, already, Dues(Value(), elapsed, w + 1), Lag(lastTick, now))
      requires MovedAside(before, Dues(Value(), elapsed, w + 1), owner, Where(w, cur[w]), Lag(lastTick, now))
      modifies `slots, `owner, `left
      ensures Good(Value(), elapsed, w + 1) && AllSettled(Value())
      ensures Emptying(
                before, old(Places(Value())), elapsed, fired, Dues(Value(), elapsed, w + 1), Value(), w, lastTick, now)
    {
      hide DueOf;
      hide Base;
      hide Dues;
      hide Due;
      hide Showing;
      hide OthersSettled;
      fired := already;
      ghost var places := Places(Value());
      PassingBegins(places, cur, w, lastTick, now);
      hide Places;
      hide Passing;
      hide Progress;
      hide MovedAside;
      assert Emptying(before, places, elapsed, fired, Dues(Value(), elapsed, w + 1), Value(), w, lastTick, now);
      hide Emptying;
      var at := Where(w, cur[w]);
      assert Real(at);
      while slots[at] != []
        invariant Good(Value(), elapsed, w + 1) && OthersSettled(Value(), at)
        invariant Emptying(before, places, elapsed, fired, Dues(Value(), elapsed, w + 1), Value(), w, lastTick, now)
        decreases |slots[at]|
      {
        fired := PopOne(w, now, fired, before, places);
      }
      EmptySettles(Value(), at);
    }

    /** Advances wheel `w` and empties the slot it reaches. */
    method TurnWheel(
      w: nat, now: nat, already: seq<Id>, ghost before: map<Id, nat>, ghost fates: map<Id, Fate>)
      returns (fired: seq<Id>)
      requires elapsed > 0 && w < WHEELS && Good(Value(), elapsed, w) && elapsed % Base(w) == 0
      requires Shaped(Value()) && Linked(Value()) && AllSettled(Value())
      requires Progress(before, elapsed, already, Dues(Value(), elapsed, w), Lag(lastTick, now))
      requires MovedBelow(before, Dues(Value(), elapsed, w), owner, w, Lag(lastTick, now))
      requires Underway(fates, cur, w, Places(Value()), lastTick, now)
      modifies `cur, `slots, `owner, `left
      ensures cur == Turn1(old(cur), w) && Good(Value(), elapsed, w + 1)
      ensures Shaped(Value()) && Linked(Value()) && AllSettled(Value())
      ensures Progress(before, elapsed, fired, Dues(Value(), elapsed, w + 1), Lag(lastTick, now))
      ensures MovedBelow(before, Dues(Value(), elapsed, w + 1), owner, w + 1, Lag(lastTick, now))
      ensures Underway(fates, cur, if cur[w] == 0 then w + 1 else WHEELS, Places(Value()), lastTick, now)
      ensures w + 1 < WHEELS ==> (cur[w] == 0 <==> elapsed % Base(w + 1) == 0)
    {
      hide Good;
      hide Dues;
      hide Due;
      hide Base;
      hide Linked;
      hide Showing;
      hide AllSettled;
      hide OthersSettled;
      hide Progress;
      hide MovedAside;
      hide MovedBelow;
      hide Places;
      hide Underway;
      hide Passing;
      TurnedOthers(Value(), elapsed, w);
      ghost var was, places := cur, Places(Value());
      PlacesTurned(Value(), w);
      cur := cur[w := (cur[w] + 1) % Count(w)];
      AsideBegins(before, Dues(Value(), elapsed, w + 1), owner, Where(w, cur[w]), Lag(lastTick, now));
      fired := Drain(w, now, already, before);
      AsideEnds(before, Dues(Value(), elapsed, w + 1), owner, Where(w, cur[w]), Lag(lastTick, now));
      GoodParts(Value(), elapsed, w + 1);
      NoneThere(Value(), w);
      PassingEnds(fates, places, Places(Value()), was, w, lastTick, now);
      if w + 1 < WHEELS {
        RoundComplete(Value(), elapsed, w);
      }
    }

    /** Advances the wheels that the new tick turns, one after the other. */
    method TurnWheels(now: nat, ghost before: map<Id, nat>, ghost fates: map<Id, Fate>) returns (fired: seq<Id>)
      requires elapsed > 0 && Good(Value(), elapsed, 0)
      requires Shaped(Value()) && Linked(Value()) && AllSettled(Value())
      requires before == Dues(Value(), elapsed, 0) && Underway(fates, cur, 0, Places(Value()), lastTick, now)
      modifies `cur, `slots, `owner, `left
      ensures |cur| == WHEELS == |old(cur)| && cur == StepCur(old(cur), 0)
      ensures Good(Value(), elapsed, WHEELS) && Shaped(Value()) && Linked(Value()) && AllSettled(Value())
      ensures Progress(before, elapsed, fired, Dues(Value(), elapsed, WHEELS), Lag(lastTick, now))
      ensures Underway(fates, cur, WHEELS, Places(Value()), lastTick, now)
    {
      hide Good;
      hide Dues;
      hide Due;
      hide Base;
      hide Linked;
      hide Showing;
      hide AllSettled;
      NoneFired(before, elapsed, Lag(lastTick, now));
      UnitBase(elapsed);
      NoneMoved(before, owner, Lag(lastTick, now));
      hide Progress;
      hide MovedBelow;
      hide Places;
      hide Underway;
      hide StepCur;
      hide Lag;
      fired := [];
      ghost var cur0 := cur;
      var w := 0;
      while w < WHEELS
        invariant |cur| == |cur0| == WHEELS && 0 <= w <= WHEELS
        invariant Good(Value(), elapsed, w) && Shaped(Value()) && Linked(Value()) && AllSettled(Value())
        invariant w < WHEELS ==> elapsed % Base(w) == 0
        invariant Progress(before, elapsed, fired, Dues(Value(), elapsed, w), Lag(lastTick, now))
        invariant MovedBelow(before, Dues(Value(), elapsed, w), owner, w, Lag(lastTick, now))
        invariant Underway(fates, cur, w, Places(Value()), lastTick, now)
        invariant StepCur(cur0, 0) == if w < WHEELS then StepCur(cur, w) else cur
      {
        StepCurTurned(cur, w);
        fired := TurnWheel(w, now, fired, before, fates);
        w := w + 1;
        if cur[w - 1] != 0 {
          break;
        }
      }
      StepEnds(Value(), elapsed, w);
    }

    /** One step, whatever the clock says: the timers due at the new tick fire, nothing fires twice, and a timer
        that did not fire is still pending. If the clock is not far ahead, no other timer fires, and the others
        keep the tick they are due or are put off once, by exactly the lag; in step, they keep it. Whatever the
        lag, what happens to a timer depends on its own place alone. */
    method Step(now: nat) returns (fired: seq<Id>)
      requires Valid()
      modifies `cur, `slots, `owner, `left, `elapsed
      ensures Valid() && Abs().now == old(Abs()).now + 1
      ensures NoDup(fired) && Abs().due.Keys == old(Abs()).due.Keys - (set x | x in fired)
      ensures DueAt(old(Abs()), old(Abs()).now + 1) <= (set x | x in fired) <= old(Abs()).due.Keys
      ensures Lag(lastTick, now) <= SMALL_LAG ==>
                && (set x | x in fired) == DueAt(old(Abs()), old(Abs()).now + 1)
                && PutOff(old(Abs()).due, Abs().due, Lag(lastTick, now))
      ensures InStep(lastTick, now) ==> Abs() == Tick(old(Abs()))
      ensures cur == StepCur(old(cur), 0) && Places(Value()).Keys == Abs().due.Keys
      ensures Places(Value()).Keys <= old(Places(Value())).Keys
      ensures forall id :: id in old(Places(Value())) ==>
                StepFate(old(cur), 0, old(Places(Value()))[id], lastTick, now) == Now(Places(Value()), id)
    {
      hide Good;
      hide Dues;
      hide Due;
      hide Linked;
      hide AllSettled;
      StepBegins(Value(), elapsed);
      GoodParts(Value(), elapsed, WHEELS);
      elapsed := elapsed + 1;
      ghost var before, places := Dues(Value(), elapsed, 0), Places(Value());
      FatesAre(cur, places, lastTick, now);
      hide Places;
      hide StepFate;
      hide FatesOf;
      hide Progress;
      hide PutOff;
      hide StepCur;
      fired := TurnWheels(now, before, FatesOf(cur, places, lastTick, now));
      Underdone(FatesOf(old(cur), places, lastTick, now), cur, Places(Value()), lastTick, now);
      hide Underway;
      PlacedDue(Value(), elapsed);
      Finished(Value(), elapsed, fired, before, Lag(lastTick, now));
    }

    /** One step of a tick. */
    method TickOnce(
      now: nat, ghost start: Schedule, ghost cur0: seq<nat>, ghost places0: map<Id, TimerWheel.Place>, ghost last0: nat,
      ghost fired: seq<seq<Id>>)
      returns (more: seq<Id>)
      requires Valid() && lastTick == last0 + |fired|
      requires Ticking(start, cur0, places0, last0, now, fired, Abs(), cur, Places(Value()))
      modifies this
      ensures Valid() && lastTick == old(lastTick) + 1
      ensures Ticking(start, cur0, places0, last0, now, fired + [more], Abs(), cur, Places(Value()))
    {
      hide Good;
      hide AllSettled;
      hide Dues;
      hide Ticking;
      hide Places;
      hide StepFate;
      hide StepCur;
      hide PutOff;
      hide DueAt;
      hide Tick;
      hide Linked;
      hide NoDup;
      hide Lag;
      hide InStep;
      GoodParts(Value(), elapsed, WHEELS);
      assert |cur| == WHEELS;
      hide Shaped;
      PlacedDue(Value(), elapsed);
      lastTick := lastTick + 1;
      ghost var at, was, wheels := Abs(), Places(Value()), cur;
      more := Step(now);
      TickingOn(start, cur0, places0, last0, now, fired, at, wheels, was, more, Abs(), cur, Places(Value()));
    }

    /** As many steps as the clock is ahead, each reading the clock at `now`. Whatever the lag, every timer that
        fires was pending and fires once, and the others stay pending. With a small lag none fires early, and
        none is put off more than once per step or by more than the lag. One step in step is exact. With any lag,
        each timer fires in the step its own place says, and in no other. */
    method TickInternal(curTick: nat, now: nat) returns (fired: seq<seq<Id>>)
      requires Valid()
      modifies this
      ensures Valid() && lastTick == (if curTick > old(lastTick) then curTick else old(lastTick))
      ensures |fired| == lastTick - old(lastTick) && Abs().now == old(Abs()).now + |fired|
      ensures OnceEach(old(Abs()).due.Keys, fired) && Abs().due.Keys == old(Abs()).due.Keys - AllOf(fired)
      ensures fired == [] ==> Abs() == old(Abs())
      ensures |old(cur)| == WHEELS && cur == CurAfter(old(cur), |fired|)
      ensures FiredAsTold(old(cur), old(Places(Value())), fired, old(lastTick), now)
      ensures OnJourney(old(cur), old(Places(Value())), |fired|, Places(Value()), old(lastTick), now)
      ensures var lag := Lag(old(lastTick) + 1, now);
              lag <= SMALL_LAG ==>
                && InTime(old(Abs()), fired, lag)
                && PutOffUpTo(old(Abs()).due, Abs().due, |fired| * lag)
      ensures |fired| == 1 && now <= curTick ==>
                && Abs() == Tick(old(Abs()))
                && NoDup(fired[0]) && (set x | x in fired[0]) == DueAt(old(Abs()), old(Abs()).now + 1)
    {
      hide Good;
      hide AllSettled;
      hide Dues;
      fired := [];
      ghost var start, cur0, places0, last0 := Abs(), cur, Places(Value()), lastTick;
      GoodParts(Value(), elapsed, WHEELS);
      PlacedDue(Value(), elapsed);
      TickingBegins(start, cur, places0, lastTick, now);
      hide Places;
      hide StepFate;
      hide StepCur;
      hide PutOff;
      hide DueAt;
      hide Tick;
      hide Ticking;
      if curTick > lastTick {
        var count := curTick - lastTick;
        while count > 0
          invariant 0 <= count && lastTick == curTick - count && Valid() && |fired| == lastTick - last0
          invariant Ticking(start, cur0, places0, last0, now, fired, Abs(), cur, Places(Value()))
        {
          var more := TickOnce(now, start, cur0, places0, last0, fired);
          fired := fired + [more];
          count := count - 1;
        }
      }
      TickingMeans(start, cur0, places0, last0, now, fired, Abs(), cur, Places(Value()));
      hide InTime;
      hide PutOffUpTo;
      hide OnceEach;
      hide AllOf;
      hide OnJourney;
      hide FiredAsTold;
      hide CurAfter;
      hide Lag;
    }
  }

  /** What is known after some steps of a tick. */
  ghost predicate Ticking(
    start: Schedule, cur0: seq<nat>, places0: map<Id, TimerWheel.Place>, last0: nat, now: nat, fired: seq<seq<Id>>,
    s: Schedule, cur: seq<nat>, places: map<Id, TimerWheel.Place>)
  {
    && |cur0| == WHEELS && cur == CurAfter(cur0, |fired|) && places.Keys == s.due.Keys
    && s.now == start.now + |fired| && (fired == [] ==> s == start)
    && OnceEach(start.due.Keys, fired) && s.due.Keys == start.due.Keys - AllOf(fired)
    && FiredAsTold(cur0, places0, fired, last0, now) && OnJourney(cur0, places0, |fired|, places, last0, now)
    && (Lag(last0 + 1, now) <= SMALL_LAG ==>
          && InTime(start, fired, Lag(last0 + 1, now))
          && PutOffUpTo(start.due, s.due, |fired| * Lag(last0 + 1, now)))
    && (|fired| == 1 && now <= last0 + 1 ==>
          s == Tick(start) && NoDup(fired[0]) && (set x | x in fired[0]) == DueAt(start, start.now + 1))
  }

  lemma TickingBegins(
    start: Schedule, cur: seq<nat>, places: map<Id, TimerWheel.Place>, lastTick: nat, now: nat)
    requires |cur| == WHEELS && places.Keys == start.due.Keys
    ensures Ticking(start, cur, places, lastTick, now, [], start, cur, places)
  {
    JourneyBegins(cur, places, lastTick, now);
    NoneLate(start, Lag(lastTick + 1, now));
    assert start.due.Keys - AllOf([]) == start.due.Keys;
  }

  lemma TickingOn(
    start: Schedule, cur0: seq<nat>, places0: map<Id, TimerWheel.Place>, last0: nat, now: nat, fired: seq<seq<Id>>,
    s: Schedule, cur: seq<nat>, places: map<Id, TimerWheel.Place>, more: seq<Id>, s': Schedule, cur': seq<nat>,
    places': map<Id, TimerWheel.Place>)
    requires Ticking(start, cur0, places0, last0, now, fired, s, cur, places)
    requires |cur| == WHEELS && cur' == StepCur(cur, 0) && places'.Keys == s'.due.Keys
    requires s'.now == s.now + 1 && NoDup(more) && s'.due.Keys == s.due.Keys - (set x | x in more)
    requires (set x | x in more) <= s.due.Keys
    requires forall id :: id in places ==> StepFate(cur, 0, places[id], last0 + |fired| + 1, now) == Now(places', id)
    requires Lag(last0 + |fired| + 1, now) <= SMALL_LAG ==>
               && (set x | x in more) == DueAt(s, s.now + 1)
               && PutOff(s.due, s'.due, Lag(last0 + |fired| + 1, now))
    requires InStep(last0 + |fired| + 1, now) ==> s' == Tick(s)
    ensures Ticking(start, cur0, places0, last0, now, fired + [more], s', cur', places')
  {
    hide StepFate;
    hide StepCur;
    JourneyOn(cur0, places0, fired, places, more, places', last0, now);
    OneMoreTick(start.due.Keys, fired, more);
    if Lag(last0 + 1, now) <= SMALL_LAG {
      OneMoreInTime(start, fired, s, more, s'.due, Lag(last0 + |fired| + 1, now), Lag(last0 + 1, now));
    }
    hide InTime;
    hide PutOffUpTo;
    hide PutOff;
    hide OnceEach;
    hide AllOf;
    hide OnJourney;
    hide FiredAsTold;
    hide DueAt;
    hide Tick;
  }

  lemma TickingMeans(
    start: Schedule, cur0: seq<nat>, places0: map<Id, TimerWheel.Place>, last0: nat, now: nat, fired: seq<seq<Id>>,
    s: Schedule, cur: seq<nat>, places: map<Id, TimerWheel.Place>)
    requires Ticking(start, cur0, places0, last0, now, fired, s, cur, places)
    ensures |cur0| == WHEELS && cur == CurAfter(cur0, |fired|)
    ensures s.now == start.now + |fired| && (fired == [] ==> s == start)
    ensures OnceEach(start.due.Keys, fired) && s.due.Keys == start.due.Keys - AllOf(fired)
    ensures FiredAsTold(cur0, places0, fired, last0, now) && OnJourney(cur0, places0, |fired|, places, last0, now)
    ensures Lag(last0 + 1, now) <= SMALL_LAG ==>
              && InTime(start, fired, Lag(last0 + 1, now))
              && PutOffUpTo(start.due, s.due, |fired| * Lag(last0 + 1, now))
    ensures |fired| == 1 && now <= last0 + 1 ==>
              s == Tick(start) && NoDup(fired[0]) && (set x | x in fired[0]) == DueAt(start, start.now + 1)
  {
  }

  // ----- bookkeeping of a step -----

  /** The clock is not ahead of the last tick, so that registering again adds no lag. */
  predicate InStep(lastTick: nat, now: nat) {
    lastTick == 0 || now <= lastTick
  }

  /** How far the clock has run ahead of the ticks counted, as a registration sees it. */
  function Lag(lastTick: nat, now: nat): nat {
    if InStep(lastTick, now) then 0 else now - lastTick
  }

  /** With no more lag than this, a timer that moves on never reaches a wheel that has yet to turn. */
  const SMALL_LAG: nat := 15872

  /** Of the timers pending when the step to `t` began, those in `fired` are gone and the others are pending;
      those due at `t` are gone or still due at `t`. With a small lag, only those due at `t` are gone and the
      others are due when they were, or later by the lag. */
  ghost predicate Progress(before: map<Id, nat>, t: nat, fired: seq<Id>, dues: map<Id, nat>, lag: nat) {
    && NoDup(fired)
    && (forall i :: 0 <= i < |fired| ==> fired[i] in before && (lag <= SMALL_LAG ==> before[fired[i]] == t))
    && dues.Keys == before.Keys - (set x | x in fired)
    && (forall id :: id in dues && before[id] == t ==> dues[id] == t)
    && (lag <= SMALL_LAG ==> PutOff(before, dues, lag))
  }

  /** Every timer still pending is due when it was, or later by the lag. */
  ghost predicate PutOff(before: map<Id, nat>, dues: map<Id, nat>, lag: nat) {
    forall id :: id in dues ==> id in before && (dues[id] == before[id] || dues[id] == before[id] + lag)
  }

  /** With a small lag, a timer that was put off is on a wheel already turned and not in the list at hand. */
  ghost predicate MovedAside(before: map<Id, nat>, dues: map<Id, nat>, owner: map<Id, Where>, at: Where, lag: nat) {
    lag <= SMALL_LAG ==>
      forall id :: id in dues && id in before && dues[id] != before[id] ==>
        id in owner && owner[id].wheel <= at.wheel && owner[id] != at
  }

  lemma KeysOf(before: map<Id, nat>, t: nat, fired: seq<Id>, dues: map<Id, nat>, lag: nat)
    requires Progress(before, t, fired, dues, lag)
    ensures dues.Keys <= before.Keys
  {
  }

  lemma NotMoved(
    before: map<Id, nat>, dues: map<Id, nat>, owner: map<Id, Where>, id: Id, at: Where, lag: nat)
    requires MovedAside(before, dues, owner, at, lag) && id in owner && owner[id] == at && id in dues && id in before
    ensures lag <= SMALL_LAG ==> dues[id] == before[id]
  {
  }

  lemma AsideWithout(
    before: map<Id, nat>, dues: map<Id, nat>, owner: map<Id, Where>, id: Id, at: Where, lag: nat)
    requires MovedAside(before, dues, owner, at, lag)
    ensures MovedAside(before, dues - {id}, owner - {id}, at, lag)
  {
  }

  lemma AsideMoved(
    before: map<Id, nat>, dues: map<Id, nat>, owner: map<Id, Where>, id: Id, due: nat, at: Where, to: Where, lag: nat)
    requires MovedAside(before, dues, owner, at, lag) && to != at && (lag <= SMALL_LAG ==> to.wheel <= at.wheel)
    ensures MovedAside(before, dues[id := due], owner[id := to], at, lag)
  {
  }

  /** With a small lag, a timer that was put off is on one of the first `n` wheels. */
  ghost predicate MovedBelow(before: map<Id, nat>, dues: map<Id, nat>, owner: map<Id, Where>, n: nat, lag: nat) {
    lag <= SMALL_LAG ==>
      forall id :: id in dues && id in before && dues[id] != before[id] ==> id in owner && owner[id].wheel < n
  }

  lemma NoneMoved(before: map<Id, nat>, owner: map<Id, Where>, lag: nat)
    ensures MovedBelow(before, before, owner, 0, lag)
  {
  }

  lemma AsideBegins(before: map<Id, nat>, dues: map<Id, nat>, owner: map<Id, Where>, at: Where, lag: nat)
    requires MovedBelow(before, dues, owner, at.wheel, lag)
    ensures MovedAside(before, dues, owner, at, lag)
  {
  }

  lemma AsideEnds(before: map<Id, nat>, dues: map<Id, nat>, owner: map<Id, Where>, at: Where, lag: nat)
    requires MovedAside(before, dues, owner, at, lag)
    ensures MovedBelow(before, dues, owner, at.wheel + 1, lag)
  {
  }

  lemma FireOne(before: map<Id, nat>, t: nat, fired: seq<Id>, dues: map<Id, nat>, id: Id, lag: nat)
    requires Progress(before, t, fired, dues, lag) && id in dues && dues[id] == t
    requires lag <= SMALL_LAG ==> dues[id] == before[id]
    ensures Progress(before, t, fired + [id], dues - {id}, lag)
  {
    assert (set x | x in fired + [id]) == (set x | x in fired) + {id};
  }

  /** A timer due later may be given any other time; with a small lag it is put off by the lag. */
  lemma DelayOne(
    before: map<Id, nat>, t: nat, fired: seq<Id>, dues: map<Id, nat>, id: Id, due: nat, lag: nat)
    requires Progress(before, t, fired, dues, lag) && id in dues && dues[id] > t
    requires lag <= SMALL_LAG ==> dues[id] == before[id] && due == dues[id] + lag
    ensures Progress(before, t, fired, (dues - {id})[id := due], lag)
  {
    assert (dues - {id})[id := due].Keys == dues.Keys;
  }

  lemma AllFired(before: map<Id, nat>, t: nat, fired: seq<Id>, dues: map<Id, nat>, lag: nat)
    requires Progress(before, t, fired, dues, lag) && forall id :: id in dues ==> dues[id] > t
    ensures (set id | id in before && before[id] == t) <= (set x | x in fired)
    ensures lag <= SMALL_LAG ==> (set x | x in fired) == (set id | id in before && before[id] == t)
    ensures lag == 0 ==> dues == before - set id | id in before && before[id] == t
  {
    var f := set x | x in fired;
    forall id | id in before && before[id] == t ensures id in f {
      assert id in f || id in dues;
    }
    if lag <= SMALL_LAG {
      forall id | id in f ensures id in before && before[id] == t {
        var i :| 0 <= i < |fired| && fired[i] == id;
      }
      assert f == set id | id in before && before[id] == t;
      assert dues.Keys == before.Keys - f;
    }
  }

  /** Every pending timer is settled or waits in this list. */
  ghost predicate OthersSettled(s: State, at: Where)
    requires Shaped(s) && Linked(s)
  {
    forall id :: id in s.owner ==> Settled(s, id) || s.owner[id] == at
  }

  lemma UnlinkOthers(s: State, id: Id, at: Where)
    requires Shaped(s) && Linked(s) && OthersSettled(s, at) && id in s.owner
    ensures Shaped(Unlink(s, id)) && Linked(Unlink(s, id)) && OthersSettled(Unlink(s, id), at)
  {
    UnlinkLinked(s, id);
    hide ListAt;
    hide Without;
    forall x | x in Unlink(s, id).owner ensures Settled(Unlink(s, id), x) || s.owner[x] == at {
      assert Settled(s, x) || s.owner[x] == at;
    }
  }

  lemma LinkOthers(s: State, id: Id, p: TimerWheel.Place, at: Where)
    requires Shaped(s) && Linked(s) && OthersSettled(s, at) && id !in s.owner
    requires p.wheel < WHEELS && p.slot < Count(p.wheel) && p.slot != s.cur[p.wheel]
    ensures Shaped(Link(s, id, p)) && Linked(Link(s, id, p)) && OthersSettled(Link(s, id, p), at)
  {
    LinkLinked(s, id, p);
    hide ListAt;
    var r := Link(s, id, p);
    forall x | x in r.owner ensures Settled(r, x) || r.owner[x] == at {
      if x != id {
        assert Settled(s, x) || s.owner[x] == at;
      }
    }
  }

  /** Taking the first timer off the slot just reached. */
  lemma PopFirst(s: State, t: nat, w: nat)
    requires t > 0 && w < WHEELS && Good(s, t, w + 1) && t % Base(w) == 0 && OthersSettled(s, Where(w, s.cur[w]))
    requires ListAt(s, Where(w, s.cur[w])) != []
    ensures var at := Where(w, s.cur[w]);
            var id := ListAt(s, at)[0];
            && id in s.owner && s.owner[id] == at && id in s.left
            && Due(s, t, w + 1, id) == t + (if w == 0 then 0 else s.left[id])
            && (w > 0 ==> s.left[id] < 2 * Base(w))
            && var r := Unlink(s, id);
               Good(r, t, w + 1) && OthersSettled(r, at) && |ListAt(r, at)| < |ListAt(s, at)|
               && Dues(r, t, w + 1) == Dues(s, t, w + 1) - {id}
  {
    var at := Where(w, s.cur[w]);
    assert Real(at);
    var id := ListAt(s, at)[0];
    assert id in ListAt(s, at);
    DueInSlot(s, t, w, id);
    UnlinkKeeps(s, t, w + 1, id);
    UnlinkOthers(s, id, at);
  }

  /** A timer that still has time left is registered again with that time plus the lag of the clock, in 32 bits. It
      is due after exactly that delay, or one slot of the next wheel earlier if that wheel is about to turn and the
      delay reaches it. So it stays due when it was if and only if there is no lag, or the next wheel is about to
      turn and the lag is one slot of it; or, where the sum wraps, if one tick was left. */
  lemma Cascade(cur: seq<nat>, t: nat, w: nat, left: nat, lastTick: nat, now: nat)
    requires t > 0 && 0 < w < WHEELS && Showing(cur, t, w + 1) && 0 < left < 2 * Base(w)
    ensures left < TWO32
    ensures var d := Delay(Lagged(left, lastTick, now));
            var p := PlaceOf(cur, d);
            var due := DueOf(TurnAt(t, w + 1, p.wheel), p.wheel, p.slot, p.left);
            var early := if w + 1 < WHEELS && d >= Base(w + 1) && t % Base(w + 1) == 0 then Base(w + 1) else 0;
            && due == t + d - early
            && (due == t + left <==> Unmoved(t, w, left, Lag(lastTick, now) % TWO32))
            && (Lag(lastTick, now) <= SMALL_LAG ==> due == t + left + Lag(lastTick, now) && p.wheel <= w)
  {
    CascadeSpan(w, left, lastTick, now);
    UnmovedExactly(t, w, left, lastTick, now);
    hide Unmoved;
    RegisteredMidStep(cur, t, w + 1, Delay(Lagged(left, lastTick, now)));
    assert PlaceOf(cur, Delay(Lagged(left, lastTick, now))).wheel == WheelFor(Delay(Lagged(left, lastTick, now)));
    hide Base;
    hide DueOf;
    hide PlaceOf;
    hide TurnAt;
    hide Showing;
    hide WheelFor;
    hide Lagged;
  }

  /** The lag, taken modulo 2^32, does not move a timer that cascades from wheel `w` at tick `t`. */
  predicate Unmoved(t: nat, w: nat, left: nat, lag: nat)
    requires 0 < w < WHEELS
  {
    if left + lag >= TWO32 then left == 1
    else lag == 0 || (w + 1 < WHEELS && t % Base(w + 1) == 0 && lag == Base(w + 1))
  }

  lemma UnmovedExactly(t: nat, w: nat, left: nat, lastTick: nat, now: nat)
    requires 0 < w < WHEELS && 0 < left < 2 * Base(w) && left < TWO32
    ensures var d := Delay(Lagged(left, lastTick, now));
            var early := if w + 1 < WHEELS && d >= Base(w + 1) && t % Base(w + 1) == 0 then Base(w + 1) else 0;
            d - early == left <==> Unmoved(t, w, left, Lag(lastTick, now) % TWO32)
  {
    var lag := Lag(lastTick, now);
    assert Lagged(left, lastTick, now) == (lag % TWO32 + left) % TWO32;
    var m := lag % TWO32;
    hide Lagged;
    assert 2 * Base(w) <= Base(w + 1);
    hide Base;
    if m + left >= TWO32 {
      assert (m + left) % TWO32 == m + left - TWO32;
    } else {
      assert (m + left) % TWO32 == m + left;
    }
  }

  lemma CascadeSpan(w: nat, left: nat, lastTick: nat, now: nat)
    requires 0 < w < WHEELS && 0 < left < 2 * Base(w)
    ensures left < TWO32
    ensures var d, lag := Delay(Lagged(left, lastTick, now)), Lag(lastTick, now);
            lag <= SMALL_LAG ==> d == left + lag < Base(w + 1) && WheelFor(d) <= w
  {
    assert 2 * Base(w) <= Base(w + 1) && left + SMALL_LAG < Base(w + 1);
    if Lag(lastTick, now) <= SMALL_LAG {
      WheelWithin(left + Lag(lastTick, now), w);
    }
  }

  lemma WheelWithin(d: nat, w: nat)
    requires w < WHEELS && 0 < d < TWO32 && d < Base(w + 1)
    ensures WheelFor(d) <= w
  {
  }

  /** Catching up one tick late, a timer with one tick left is moved to fire one tick late. */
  lemma CatchUpIsLate()
    ensures var cur := [0, 1, 0, 0, 0];
            && Showing(cur, 256, 2)
            && var p := PlaceOf(cur, Delay(Lagged(1, 300, 301)));
               DueOf(TurnAt(256, 2, p.wheel), p.wheel, p.slot, p.left) == 256 + 2 != 256 + 1
  {
    var cur: seq<nat> := [0, 1, 0, 0, 0];
    assert Showing(cur, 256, 2);
    Cascade(cur, 256, 1, 1, 300, 301);
  }

  /** Beyond a small lag it can also be early: with one tick left it is placed at the tick being dealt with. */
  lemma CatchUpIsEarly()
    ensures var cur := [0, 0, 0, 0, 0];
            && Showing(cur, 16384, 2) && Lag(16384, 32767) > SMALL_LAG
            && var p := PlaceOf(cur, Delay(Lagged(1, 16384, 32767)));
               DueOf(TurnAt(16384, 2, p.wheel), p.wheel, p.slot, p.left) == 16384 < 16384 + 1
  {
    var cur: seq<nat> := [0, 0, 0, 0, 0];
    assert Showing(cur, 16384, 2);
    Cascade(cur, 16384, 1, 1, 16384, 32767);
  }

  lemma GoodParts(s: State, t: nat, n: nat)
    requires Good(s, t, n)
    ensures Shaped(s) && Linked(s)
  {
  }

  lemma EmptySettles(s: State, at: Where)
    requires Shaped(s) && Linked(s) && Real(at) && OthersSettled(s, at) && ListAt(s, at) == []
    ensures AllSettled(s)
  {
    forall id | id in s.owner ensures Settled(s, id) {
      assert id !in ListAt(s, at);
    }
  }

  lemma NoneFired(before: map<Id, nat>, t: nat, lag: nat)
    ensures Progress(before, t, [], before, lag)
  {
    assert (set x: Id | x in []) == {};
  }

  lemma UnitBase(t: nat)
    ensures t % Base(0) == 0
  {
  }

  lemma TurnedOthers(s: State, t: nat, n: nat)
    requires Good(s, t, n) && Shaped(s) && Linked(s) && AllSettled(s) && n < WHEELS && t % Base(n) == 0
    ensures var r := Turned(s, n);
            && Good(r, t, n + 1) && Dues(r, t, n + 1) == Dues(s, t, n)
            && Shaped(r) && Linked(r) && OthersSettled(r, Where(n, r.cur[n]))
  {
    TurnedKeeps(s, t, n);
    hide DueOf;
    hide Base;
    var r := Turned(s, n);
    GoodParts(r, t, n + 1);
    forall id | id in r.owner ensures Settled(r, id) || r.owner[id] == Where(n, r.cur[n]) {
      assert id in s.owner;
    }
  }

  lemma Finished(s: State, t: nat, fired: seq<Id>, before: map<Id, nat>, lag: nat)
    requires Good(s, t, WHEELS) && AllSettled(s) && Progress(before, t, fired, Dues(s, t, WHEELS), lag)
    ensures NoDup(fired) && Dues(s, t, WHEELS).Keys == before.Keys - (set x | x in fired)
    ensures (set id | id in before && before[id] == t) <= (set x | x in fired) <= before.Keys
    ensures lag <= SMALL_LAG ==> (set x | x in fired) == (set id | id in before && before[id] == t)
    ensures lag <= SMALL_LAG ==> PutOff(before, Dues(s, t, WHEELS), lag)
    ensures lag == 0 ==> Dues(s, t, WHEELS) == before - set id | id in before && before[id] == t
  {
    SettledIsLater(s, t);
    hide Due;
    hide Good;
    AllFired(before, t, fired, Dues(s, t, WHEELS), lag);
    assert forall x :: x in fired ==> x in before;
  }

  // ----- several steps -----

  function AllOf(fired: seq<seq<Id>>): set<Id> {
    if fired == [] then {} else var last := fired[|fired| - 1]; AllOf(fired[..|fired| - 1]) + set x | x in last
  }

  /** Every timer of `pending` occurs at most once in the whole list, and no other timer occurs. */
  predicate OnceEach(pending: set<Id>, fired: seq<seq<Id>>) {
    fired == [] ||
    var init, last := fired[..|fired| - 1], fired[|fired| - 1];
    OnceEach(pending, init) && NoDup(last) && (set x | x in last) <= pending - AllOf(init)
  }

  lemma OneMoreTick(pending: set<Id>, fired: seq<seq<Id>>, more: seq<Id>)
    requires OnceEach(pending, fired) && NoDup(more) && (set x | x in more) <= pending - AllOf(fired)
    ensures OnceEach(pending, fired + [more])
    ensures AllOf(fired + [more]) == AllOf(fired) + set x | x in more
  {
    assert (fired + [more])[..|fired|] == fired;
  }

  /** Every timer fires at the tick it was due, or later by at most the lag for each step before. */
  ghost predicate InTime(s: Schedule, fired: seq<seq<Id>>, lag: nat) {
    forall i, j :: 0 <= i < |fired| && 0 <= j < |fired[i]| ==>
      fired[i][j] in s.due && s.due[fired[i][j]] <= s.now + i + 1 <= s.due[fired[i][j]] + i * lag
  }

  ghost predicate PutOffUpTo(before: map<Id, nat>, dues: map<Id, nat>, most: nat) {
    forall id :: id in dues ==> id in before && before[id] <= dues[id] <= before[id] + most
  }

  lemma NoneLate(s: Schedule, lag: nat)
    ensures InTime(s, [], lag) && PutOffUpTo(s.due, s.due, 0)
  {
  }

  lemma OneMoreInTime(
    s: Schedule, fired: seq<seq<Id>>, at: Schedule, more: seq<Id>, dues: map<Id, nat>, late: nat, lag: nat)
    requires InTime(s, fired, lag) && PutOffUpTo(s.due, at.due, |fired| * lag) && at.now == s.now + |fired|
    requires (set x | x in more) == DueAt(at, at.now + 1) && PutOff(at.due, dues, late) && late <= lag
    ensures InTime(s, fired + [more], lag) && PutOffUpTo(s.due, dues, |fired + [more]| * lag)
  {
    assert |fired + [more]| * lag == |fired| * lag + lag;
    MoreInTime(s, fired, at, more, lag);
    hide InTime;
    hide DueAt;
  }

  lemma MoreInTime(s: Schedule, fired: seq<seq<Id>>, at: Schedule, more: seq<Id>, lag: nat)
    requires InTime(s, fired, lag) && PutOffUpTo(s.due, at.due, |fired| * lag) && at.now == s.now + |fired|
    requires (set x | x in more) == DueAt(at, at.now + 1)
    ensures InTime(s, fired + [more], lag)
  {
    var all := fired + [more];
    forall j | 0 <= j < |more|
      ensures more[j] in s.due && s.due[more[j]] <= at.now + 1 <= s.due[more[j]] + |fired| * lag
    {
      assert more[j] in DueAt(at, at.now + 1);
    }
    forall i, j | 0 <= i < |all| && 0 <= j < |all[i]|
      ensures all[i][j] in s.due && s.due[all[i][j]] <= s.now + i + 1 <= s.due[all[i][j]] + i * lag
    {
      if i < |fired| {
        assert all[i] == fired[i];
      }
    }
  }

  lemma LinkSettles(s: State, id: Id, p: TimerWheel.Place)
    requires Shaped(s) && Linked(s) && AllSettled(s) && id !in s.owner
    requires p.wheel < WHEELS && p.slot < Count(p.wheel) && p.slot != s.cur[p.wheel]
    ensures Shaped(Link(s, id, p)) && Linked(Link(s, id, p)) && AllSettled(Link(s, id, p))
  {
    LinkLinked(s, id, p);
    hide ListAt;
    forall x | x in Link(s, id, p).owner ensures Settled(Link(s, id, p), x) {
      if x != id {
        assert Settled(s, x);
      }
    }
  }

  lemma FirstWheel(d: nat)
    ensures d / Base(0) == d && Base(0) == 1
  {
  }

  lemma NextWheel(d: nat, w: nat)
    requires w + 1 < WHEELS && d / Base(w) >= Count(w)
    ensures d / Base(w) / Count(w) == d / Base(w + 1) && Base(w + 1) <= d
  {
    Radix(d, w);
  }

  lemma LastWheel(d: nat, w: nat)
    requires w < WHEELS && 0 < d < TWO32 && Base(w) <= d && (w + 1 < WHEELS ==> d / Base(w) < Count(w))
    ensures WheelFor(d) == w && (w == 0 ==> Base(w) == 1) && Base(w) < TWO32
  {
  }

  lemma PassedTicks(w: nat, c: nat)
    requires w + 1 < WHEELS && c < Count(w)
    ensures Base(w) * (Count(w) - c - (if w == 0 then 0 else 1))
         == Base(w + 1) - (if w == 0 then 0 else Base(w)) - c * Base(w)
    ensures c * Base(w) >= 0 && Base(w + 1) < TWO32
  {
  }

  /** Passing wheel `w` leaves the delay less the time until the wheel above advances. */
  lemma PassWheel(cur: seq<nat>, d: nat, w: nat, rest: int)
    requires |cur| == WHEELS && w + 1 < WHEELS && forall v :: 0 <= v < WHEELS ==> cur[v] < Count(v)
    requires Base(w + 1) <= d < TWO32
    requires rest == if w == 0 then d else d - (Base(w) - Low(cur, w))
    ensures var r := rest - Base(w) * (Count(w) - cur[w] - (if w == 0 then 0 else 1));
            r == d - (Base(w + 1) - Low(cur, w + 1)) && 0 <= r < TWO32 && r % TWO32 == r
  {
    PassedTicks(w, cur[w]);
    LowBound(cur, w + 1);
    hide Base;
    assert Low(cur, w + 1) == Low(cur, w) + cur[w] * Base(w);
  }

  lemma FinalRest(cur: seq<nat>, d: nat, w: nat, rest: int)
    requires |cur| == WHEELS && w < WHEELS && forall v :: 0 <= v < WHEELS ==> cur[v] < Count(v)
    requires 0 < d < TWO32 && WheelFor(d) == w
    requires rest == if w == 0 then d else d - (Base(w) - Low(cur, w))
    ensures var r := rest - Base(w) * (d / Base(w) - 1);
            r == Remainder(cur, d) && 0 <= r < TWO32 && r % TWO32 == r
  {
    LowBound(cur, w);
    RestInSlot(d, Base(w));
    assert w == 0 ==> Base(w) == 1;
    assert 2 * Base(w) < TWO32;
    hide Base;
  }

  lemma LowBound(cur: seq<nat>, w: nat)
    requires |cur| == WHEELS && w < WHEELS && forall v :: 0 <= v < WHEELS ==> cur[v] < Count(v)
    ensures Low(cur, w) < Base(w)
  {
    if w > 0 {
      LowBound(cur, w - 1);
    }
  }

  lemma RestInSlot(d: nat, b: nat)
    requires b > 0
    ensures d - b * (d / b - 1) - b == d % b
    ensures b == 1 ==> d / b == d
  {
    DivMod(d, b);
  }

  lemma GapMeansSettled(cur: seq<nat>, t: nat, n: nat, p: Place)
    requires (t > 0 || n >= WHEELS) && Showing(cur, t, n) && p.wheel < WHEELS && p.slot < Count(p.wheel)
    requires Gap(TurnAt(t, n, p.wheel), p.wheel, p.slot) > 0
    ensures p.slot != cur[p.wheel]
  {
    hide TurnAt;
  }
}
