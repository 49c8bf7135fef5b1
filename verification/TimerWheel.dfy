/** Hierarchical timer wheel: five wheels of 256, 64, 64, 64 and 64 slots, the slots of each wheel spanning
    one turn of the wheel below. */
module TimerWheel {

  const WHEELS: nat := 5
  const TWO32: nat := 0x1_0000_0000

  type Id = nat

  /** Slots of wheel `w`. */
  function Count(w: nat): (n: nat)
    ensures n > 0
  {
    if w == 0 then 256 else 64
  }

  /** Ticks spanned by one slot of wheel `w`; one turn of the last wheel spans 2^32 ticks. */
  function Base(w: nat): (n: nat)
    requires w <= WHEELS
    ensures n > 0
  {
    if w == 0 then 1 else if w == 1 then 256 else if w == 2 then 16384
    else if w == 3 then 1048576 else if w == 4 then 67108864 else TWO32
  }

  // ----- what a timer wheel is for: a map from timers to the tick they are due -----

  /** `now` counts ticks; `due` gives the tick of every pending timer. */
  datatype Schedule = Schedule(now: nat, due: map<Id, nat>)

  /** A delay of 0 counts as 1. */
  function Delay(timeout: nat): (d: nat)
    ensures d > 0
  {
    if timeout == 0 then 1 else timeout
  }

  function Add(s: Schedule, id: Id, timeout: nat): Schedule {
    s.(due := s.due[id := s.now + Delay(timeout)])
  }

  function Cancel(s: Schedule, id: Id): Schedule {
    s.(due := s.due - {id})
  }

  function DueAt(s: Schedule, tick: nat): set<Id> {
    set id | id in s.due && s.due[id] == tick
  }

  function Tick(s: Schedule): Schedule {
    Schedule(s.now + 1, s.due - DueAt(s, s.now + 1))
  }

  // ----- place of a timer -----

  /** The wheel whose slots are the coarsest not longer than the delay. */
  function WheelFor(d: nat): (w: nat)
    requires 0 < d < TWO32
    ensures w < WHEELS && Base(w) <= d < Base(w + 1)
  {
    if d < 256 then 0 else if d < 16384 then 1 else if d < 1048576 then 2 else if d < 67108864 then 3 else 4
  }

  /** The position of wheel `w` at tick `e`, as the number of slots it has advanced since the start. */
  function Turn(e: nat, w: nat): nat
    requires w < WHEELS
  {
    e / Base(w)
  }

  /** How many slots lie between the current one and `slot`. */
  function Gap(turn: nat, w: nat, slot: nat): (g: nat)
    requires w < WHEELS && slot < Count(w)
    ensures g < Count(w)
  {
    (slot + Count(w) - turn % Count(w)) % Count(w)
  }

  /** When a timer at this place fires: its slot comes up, then its remainder passes. */
  function DueOf(turn: nat, w: nat, slot: nat, left: nat): nat
    requires w < WHEELS && slot < Count(w)
  {
    (turn + Gap(turn, w, slot)) * Base(w) + (if w == 0 then 0 else left)
  }

  datatype Place = Place(wheel: nat, slot: nat, left: nat)

  /** Ticks that the wheels below `w` show. */
  function Low(cur: seq<nat>, w: nat): nat
    requires w <= |cur| <= WHEELS
  {
    if w == 0 then 0 else Low(cur, w - 1) + cur[w - 1] * Base(w - 1)
  }

  /** The wheels show tick `e`, up to and including wheel `w`. */
  predicate Shows(cur: seq<nat>, e: nat, w: nat) {
    |cur| == WHEELS && forall v :: 0 <= v <= w < WHEELS ==> cur[v] == Turn(e, v) % Count(v)
  }

  /** Mixed radix: the wheels below `w` show the tick modulo what one slot of `w` spans. */
  lemma {:induction false} LowIsRemainder(cur: seq<nat>, e: nat, w: nat)
    requires w < WHEELS && Shows(cur, e, w)
    ensures Low(cur, w) == e % Base(w)
  {
    if w > 0 {
      assert Shows(cur, e, w - 1);
      LowIsRemainder(cur, e, w - 1);
      Radix(e, w - 1);
    }
  }

  lemma Radix(e: nat, w: nat)
    requires w + 1 < WHEELS
    ensures e % Base(w + 1) == e % Base(w) + Turn(e, w) % Count(w) * Base(w)
    ensures Turn(e, w + 1) == Turn(e, w) / Count(w)
  {
    if w == 0 {
    } else if w == 1 {
      var q := e / 256;
      assert e == 256 * q + e % 256;
      assert q == 64 * (q / 64) + q % 64;
      assert e / 16384 == q / 64;
    } else if w == 2 {
      var q := e / 16384;
      assert e == 16384 * q + e % 16384;
      assert q == 64 * (q / 64) + q % 64;
      assert e / 1048576 == q / 64;
    } else {
      var q := e / 1048576;
      assert e == 1048576 * q + e % 1048576;
      assert q == 64 * (q / 64) + q % 64;
      assert e / 67108864 == q / 64;
    }
  }

  /** What is left of the delay once the slot comes up: the part below one slot, plus what the lower wheels
      already show. On wheel 0 the source leaves 1 and never reads it. */
  function Remainder(cur: seq<nat>, d: nat): nat
    requires |cur| == WHEELS && 0 < d < TWO32
  {
    var w := WheelFor(d);
    if w == 0 then 1 else d % Base(w) + Low(cur, w)
  }

  function PlaceOf(cur: seq<nat>, d: nat): (p: Place)
    requires |cur| == WHEELS && 0 < d < TWO32
    ensures p.wheel < WHEELS && p.slot < Count(p.wheel)
  {
    var w := WheelFor(d);
    Place(w, (d / Base(w) + cur[w]) % Count(w), Remainder(cur, d))
  }

  /** With the wheels showing tick `e`, a timer of delay `d` is placed so that it is due at exactly `e + d`,
      and what remains after its slot comes up is (d mod base) + (e mod base). */
  lemma PlaceIsExact(cur: seq<nat>, e: nat, d: nat)
    requires 0 < d < TWO32 && Shows(cur, e, WheelFor(d))
    ensures var p := PlaceOf(cur, d);
            && DueOf(Turn(e, p.wheel), p.wheel, p.slot, p.left) == e + d
            && 0 < Gap(Turn(e, p.wheel), p.wheel, p.slot)
            && (p.wheel > 0 ==> p.left == d % Base(p.wheel) + e % Base(p.wheel))
  {
    var w := WheelFor(d);
    LowIsRemainder(cur, e, w);
    QuotientBounds(d, w);
    var b, q := Base(w), d / Base(w);
    GapBack(Turn(e, w), w, q);
    hide Base;
    hide WheelFor;
    hide Gap;
    hide Low;
    DivMod(d, b);
    DivMod(e, b);
    Distribute(b, q, Turn(e, w));
  }

  lemma DivMod(x: nat, b: nat)
    requires b > 0
    ensures x == b * (x / b) + x % b
  {
  }

  lemma Distribute(b: nat, q: nat, turn: nat)
    ensures (turn + q) * b == b * turn + b * q
  {
  }

  lemma GapBack(turn: nat, w: nat, q: nat)
    requires w < WHEELS && q < Count(w)
    ensures Gap(turn, w, (q + turn % Count(w)) % Count(w)) == q
  {
  }

  lemma QuotientBounds(d: nat, w: nat)
    requires w < WHEELS && Base(w) <= d < Base(w + 1)
    ensures 0 < d / Base(w) < Count(w)
  {
  }

  // ----- during a step -----

  /** In the middle of the step that reaches tick `t`, the first `n` wheels have been dealt with and show `t`;
      the others still show the tick before. */
  function TurnAt(t: nat, n: nat, w: nat): nat
    requires w < WHEELS && (t > 0 || w < n)
  {
    if w < n then Turn(t, w) else Turn(t - 1, w)
  }

  predicate Showing(cur: seq<nat>, t: nat, n: nat)
    requires t > 0 || n >= WHEELS
  {
    |cur| == WHEELS && forall w :: 0 <= w < WHEELS ==> cur[w] == TurnAt(t, n, w) % Count(w)
  }

  lemma TurnSame(t: nat, n: nat, v: nat)
    requires t > 0 && n <= v < WHEELS && t % Base(n) != 0
    ensures Turn(t - 1, v) == Turn(t, v)
  {
    if t % Base(v) == 0 {
      DividesUp(t, n, v);
    }
  }

  lemma DividesUp(t: nat, n: nat, v: nat)
    requires n <= v < WHEELS && t % Base(v) == 0
    ensures t % Base(n) == 0
    decreases v - n
  {
    if n < v {
      Radix(t, v - 1);
      assert t % Base(v - 1) == 0 by {
        assert Turn(t, v - 1) % Count(v - 1) * Base(v - 1) >= 0;
      }
      DividesUp(t, n, v - 1);
    }
  }

  lemma LowDigitsZero(t: nat, n: nat, v: nat)
    requires v < n < WHEELS && t % Base(n) == 0
    ensures Turn(t, v) % Count(v) == 0
  {
    DividesUp(t, v + 1, n);
    Radix(t, v);
    ZeroProduct(Turn(t, v) % Count(v), Base(v));
  }

  lemma TurnBefore(t: nat, n: nat, v: nat)
    requires t > 0 && n <= v < WHEELS && t % Base(n) == 0
    ensures t >= Base(n) && Turn(t - 1, v) == Turn(t - Base(n), v)
    decreases v - n
  {
    if n < v {
      TurnBefore(t, n, v - 1);
      Radix(t - 1, v - 1);
      Radix(t - Base(n), v - 1);
    }
  }

  /** The tick the wheels show as a whole while the first `n` have been advanced. */
  function Shown(t: nat, n: nat): int
    requires t > 0 && n <= WHEELS
  {
    if n < WHEELS && t % Base(n) == 0 then t - Base(n) else t
  }

  lemma ShownAbove(cur: seq<nat>, t: nat, n: nat, w: nat)
    requires t > 0 && 0 < n < WHEELS && w < WHEELS && Showing(cur, t, n)
    ensures Shown(t, n) >= 0 && Shows(cur, Shown(t, n), w)
    ensures n <= w ==> TurnAt(t, n, w) == Turn(Shown(t, n), w)
  {
    var e := Shown(t, n);
    if t % Base(n) == 0 {
      TurnBefore(t, n, n);
      assert e % Base(n) == 0 by {
        Multiple(t, n);
      }
    }
    forall v | 0 <= v <= w ensures cur[v] == Turn(e, v) % Count(v) && (n <= v ==> TurnAt(t, n, v) == Turn(e, v)) {
      if v < n {
        if t % Base(n) == 0 {
          LowDigitsZero(t, n, v);
          LowDigitsZero(e, n, v);
        }
      } else if t % Base(n) == 0 {
        TurnBefore(t, n, v);
      } else {
        TurnSame(t, n, v);
      }
    }
  }

  lemma Multiple(t: nat, n: nat)
    requires n < WHEELS && 0 < t && t % Base(n) == 0
    ensures t >= Base(n) && (t - Base(n)) % Base(n) == 0
  {
  }

  lemma ZeroProduct(a: nat, b: nat)
    requires a * b <= 0 && b > 0
    ensures a == 0
  {
  }

  /** A registration made while the first `n` wheels have been advanced (from a callback of wheel n-1):
      it is due at exactly `t + d` if and only if the delay stays within those wheels or wheel n is not itself
      about to advance. Otherwise it is due one slot of wheel n too early. */
  lemma RegisteredMidStep(cur: seq<nat>, t: nat, n: nat, d: nat)
    requires (t > 0 || n == WHEELS) && 0 < n <= WHEELS && 0 < d < TWO32 && Showing(cur, t, n)
    ensures var p := PlaceOf(cur, d);
            var due := DueOf(TurnAt(t, n, p.wheel), p.wheel, p.slot, p.left);
            var stale := n < WHEELS && d >= Base(n) && t % Base(n) == 0;
            && due == (if stale then t + d - Base(n) else t + d)
            && (due == t + d <==> !stale)
            && 0 < Gap(TurnAt(t, n, p.wheel), p.wheel, p.slot)
            && (p.wheel > 0 ==> p.left < 2 * Base(p.wheel))
  {
    var w := WheelFor(d);
    if w < n {
      assert Shows(cur, t, w);
      PlaceIsExact(cur, t, d);
    } else {
      ShownAbove(cur, t, n, w);
      PlaceIsExact(cur, Shown(t, n), d);
    }
    hide Base;
    hide Gap;
    hide Low;
    WheelBelow(d, n);
  }

  /** Registered from a callback of wheel 0 in the step that reaches tick 256, a delay of 256 is due at once. */
  lemma CallbackAfterWrap()
    ensures var cur := [0, 0, 0, 0, 0];
            && Showing(cur, 256, 1)
            && var p := PlaceOf(cur, 256);
               DueOf(TurnAt(256, 1, p.wheel), p.wheel, p.slot, p.left) == 256 != 256 + 256
  {
    var cur: seq<nat> := [0, 0, 0, 0, 0];
    assert Showing(cur, 256, 1);
    RegisteredMidStep(cur, 256, 1, 256);
  }

  lemma WheelBelow(d: nat, n: nat)
    requires 0 < d < TWO32 && 0 < n <= WHEELS
    ensures WheelFor(d) < n <==> d < Base(n)
  {
  }
}
