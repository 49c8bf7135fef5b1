/** When to call update: an update flushes at a time set by the one that flushed before it, and `check` tells how long
    nothing will happen. */
module KcpClock {
  import opened Words
  import opened KcpCore

  // ----- when an update flushes -----

  /** It is time to flush at `now`: nothing was flushed yet, the time set for it has come, or it is out of reach. */
  predicate Flushing(ctl: Control, now: nat) {
    !ctl.updated || TimeDiff(now, ctl.tsFlush) >= 0 || TimeDiff(now, ctl.tsFlush) < -10000
  }

  /** The next flush is set one interval after the last time set for it, while that is still ahead and was not missed
      by ten seconds; otherwise one interval from now. */
  function NextFlush(cfg: Config, ctl: Control, now: nat): nat {
    var late := TimeDiff(now, ctl.tsFlush);
    ((if ctl.updated && 0 <= late < Min(10000, cfg.interval) then ctl.tsFlush else now) + cfg.interval) % TWO32
  }

  /** An update sets the clock, and flushes exactly when it is time to; the time set next is then at most an interval
      ahead. An update that does not flush changes nothing but the clock, and puts nothing out. */
  lemma UpdateExactly(m: Numbering, cb: Cb, now: nat)
    requires 0 < cb.cfg.interval < TWO31
    ensures Update(m, cb, now) ==
            if Flushing(cb.ctl, now)
            then Flush(m, cb.(ctl := cb.ctl.(current := now, updated := true,
                                             tsFlush := NextFlush(cb.cfg, cb.ctl, now))))
            else Flushed(cb.(ctl := cb.ctl.(current := now)), [])
    ensures 0 < TimeDiff(NextFlush(cb.cfg, cb.ctl, now), now) <= cb.cfg.interval || !Flushing(cb.ctl, now)
  {
    TickExactly(cb.cfg, cb.ctl, now);
    NextAhead(cb.cfg, cb.ctl, now);
    hide Tick;
    hide Flush;
  }

  lemma TickExactly(cfg: Config, ctl: Control, now: nat)
    requires 0 < cfg.interval < TWO31
    ensures Tick(cfg, ctl, now).1 == Flushing(ctl, now)
    ensures var c := ctl.(current := now, updated := true);
            Tick(cfg, ctl, now).0 == if Flushing(ctl, now) then c.(tsFlush := NextFlush(cfg, ctl, now)) else c
  {
    NextAhead(cfg, ctl, now);
    hide TimeDiff;
  }

  lemma NextAhead(cfg: Config, ctl: Control, now: nat)
    requires 0 < cfg.interval < TWO31
    ensures TimeDiff(now, now) == 0 && TimeDiff(now, (now + cfg.interval) % TWO32) == 0 - cfg.interval
    ensures var t := ctl.tsFlush;
            TimeDiff(now, t) >= 0 ==> TimeDiff(now, (t + cfg.interval) % TWO32) == TimeDiff(now, t) - cfg.interval
    ensures Flushing(ctl, now) ==> 0 < TimeDiff(NextFlush(cfg, ctl, now), now) <= cfg.interval
  {
    SameTime(now);
    OneLater(now, now, cfg.interval);
    if 0 <= TimeDiff(now, ctl.tsFlush) {
      OneLater(now, ctl.tsFlush, cfg.interval);
    }
    hide TimeDiff;
  }

  lemma SameTime(t: nat)
    ensures TimeDiff(t % TWO32, t) == 0 && TimeDiff(t, t) == 0
  {
    var q := t / TWO32;
    assert t % TWO32 - t == 0 + TWO32 * -q;
    SignedUnique(t % TWO32 - t, 0, -q);
  }

  lemma OneLater(now: nat, t: nat, interval: nat)
    requires 0 < interval < TWO31 && 0 <= TimeDiff(now, t)
    ensures TimeDiff(now, (t + interval) % TWO32) == TimeDiff(now, t) - interval
    ensures TimeDiff(now, t) < interval ==> TimeDiff((t + interval) % TWO32, now) == interval - TimeDiff(now, t)
  {
    DiffSubAdd(Wrap32, now, t, interval);
    if TimeDiff(now, t) < interval {
      DiffRebase(Wrap32, now, now, (t + interval) % TWO32);
      DiffRebase(Wrap32, (t + interval) % TWO32, now, (t + interval) % TWO32);
    }
  }

  /** Once an update has flushed, one that comes an interval later, or longer, flushes again. */
  lemma FlushesOnTime(m: Numbering, cb: Cb, now: nat, later: nat)
    requires 0 < cb.cfg.interval < TWO31 && Flushing(cb.ctl, now) && TimeDiff(later, now) >= cb.cfg.interval
    ensures Flushing(Update(m, cb, now).cb.ctl, later)
  {
    UpdateExactly(m, cb, now);
    var next := NextFlush(cb.cfg, cb.ctl, now);
    var c := cb.(ctl := cb.ctl.(current := now, updated := true, tsFlush := next));
    FlushKeepsTime(m, c);
    DiffRebase(Wrap32, later, next, now);
    hide Flush;
    hide Update;
    hide NextFlush;
  }

  lemma FlushKeepsTime(m: Numbering, cb: Cb)
    ensures Flush(m, cb).cb.ctl.tsFlush == cb.ctl.tsFlush && Flush(m, cb).cb.ctl.updated == cb.ctl.updated
  {
    hide FillWindow;
    hide Transmit;
    hide Resent;
    hide Max;
    hide Config.Mss;
    hide Times;
  }

  // ----- when to call it again -----

  /** No segment waiting for its acknowledgement has had its time come at `now`. */
  predicate NoneOverdue(buf: seq<Out>, now: nat) {
    forall i :: 0 <= i < |buf| ==> TimeDiff(buf[i].resendts, now) > 0
  }

  /** `wait` milliseconds from `now` pass neither the time to flush, nor the time of a segment, nor an interval. */
  predicate NothingPassed(cfg: Config, buf: seq<Out>, ctl: Control, now: nat, wait: int) {
    && wait <= TimeDiff(ctl.tsFlush, now) && wait <= cfg.interval
    && forall i :: 0 <= i < |buf| ==> wait <= TimeDiff(buf[i].resendts, now)
  }

  /** The longest wait: one of those times comes then. */
  predicate LongestWait(cfg: Config, buf: seq<Out>, ctl: Control, now: nat, wait: int) {
    && NothingPassed(cfg, buf, ctl, now, wait)
    && (|| wait == TimeDiff(ctl.tsFlush, now) || wait == cfg.interval
        || exists i :: 0 <= i < |buf| && wait == TimeDiff(buf[i].resendts, now))
  }

  lemma BetweenThem(now: nat, t: nat, at: nat)
    requires 0 < TimeDiff(t, now) && 0 <= TimeDiff(at, now) < TimeDiff(t, now)
    ensures TimeDiff(at, t) == TimeDiff(at, now) - TimeDiff(t, now)
  {
    DiffRebase(Wrap32, at, t, now);
  }

  lemma BehindIsAhead(now: nat, t: nat)
    requires -TWO31 < TimeDiff(now, t) < 0
    ensures TimeDiff(t, now) == -TimeDiff(now, t)
  {
    DiffRebase(Wrap32, t, now, t);
  }

  lemma NotBefore(ctl: Control, now: nat, at: nat)
    requires !Flushing(ctl, now) && 0 <= TimeDiff(at, now) < TimeDiff(ctl.tsFlush, now)
    ensures !Flushing(ctl, at)
  {
    var t := ctl.tsFlush;
    DiffRebase(Wrap32, t, now, t);
    BetweenThem(now, t, at);
  }

  /** An update at the time told flushes if and only if that is the time set for a flush. A segment whose time comes
      first, or has come, is not sent before it: then the call told of puts nothing out. */
  lemma FlushesThen(ctl: Control, now: nat, at: nat)
    requires !Flushing(ctl, now) && 0 <= TimeDiff(at, now) <= TimeDiff(ctl.tsFlush, now)
    ensures Flushing(ctl, at) <==> TimeDiff(at, now) == TimeDiff(ctl.tsFlush, now)
  {
    BehindIsAhead(now, ctl.tsFlush);
    DiffRebase(Wrap32, at, ctl.tsFlush, now);
  }

  /** An instance: a segment was to be sent again at 225, the next flush is set for 300. At 250 the time told is at
      once, and an update then puts nothing out. */
  lemma CalledInVain(cfg: Config, o: Out)
    requires cfg.interval == 100 && o.resendts == 225
    ensures var ctl := NEW_CONTROL.(updated := true, current := 200, tsFlush := 300);
            var cb := Cb(cfg, Sender(o.sn, o.sn + 1, [], [o]), Receiver(0, [], [], []), ctl);
            && !NoneOverdue(cb.snd.buf, 250) && !Flushing(cb.ctl, 250)
            && Update(Unbounded, cb, 250) == Flushed(cb.(ctl := ctl.(current := 250)), [])
  {
    var ctl := NEW_CONTROL.(updated := true, current := 200, tsFlush := 300);
    var cb := Cb(cfg, Sender(o.sn, o.sn + 1, [], [o]), Receiver(0, [], [], []), ctl);
    assert TimeDiff(cb.snd.buf[0].resendts, 250) == -25;
    UpdateExactly(Unbounded, cb, 250);
    hide Update;
    hide Flush;
  }

  /** An update that does not flush leaves no trace that the next one would not wipe out. */
  lemma IdleUpdate(m: Numbering, cb: Cb, at: nat, later: nat)
    requires 0 < cb.cfg.interval < TWO31 && !Flushing(cb.ctl, at)
    ensures Update(m, cb, at).packets == [] && Update(m, Update(m, cb, at).cb, later) == Update(m, cb, later)
  {
    hide Flush;
    hide TimeDiff;
    UpdateExactly(m, cb, at);
    ClockForgets(cb.cfg, cb.ctl, at, later);
    hide Tick;
  }

  lemma ClockForgets(cfg: Config, ctl: Control, at: nat, later: nat)
    requires ctl.updated
    ensures Tick(cfg, ctl.(current := at), later) == Tick(cfg, ctl, later)
  {
    hide TimeDiff;
  }

  /** Until the time told by `check`, an update does nothing: it puts nothing out, and the update that comes then does
      the same as if this one had not been made. */
  lemma WaitingIsHarmless(m: Numbering, cb: Cb, now: nat, wait: int, at: nat, later: nat)
    requires 0 < cb.cfg.interval < TWO31 && !Flushing(cb.ctl, now)
    requires NothingPassed(cb.cfg, cb.snd.buf, cb.ctl, now, wait) && 0 <= TimeDiff(at, now) < wait
    ensures Update(m, cb, at).packets == [] && Update(m, Update(m, cb, at).cb, later) == Update(m, cb, later)
    ensures forall i :: 0 <= i < |cb.snd.buf| ==> TimeDiff(at, cb.snd.buf[i].resendts) < 0
  {
    hide Update;
    hide TimeDiff;
    NotBefore(cb.ctl, now, at);
    IdleUpdate(m, cb, at, later);
    forall i | 0 <= i < |cb.snd.buf| ensures TimeDiff(at, cb.snd.buf[i].resendts) < 0 {
      BetweenThem(now, cb.snd.buf[i].resendts, at);
    }
  }
}
