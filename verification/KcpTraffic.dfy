/** What a flush sends and when it will send again: how many numbers it gives out, which segments go out, how long each
    then waits, and what becomes of the windows. */
module KcpTraffic {
  import opened Words
  import opened KcpWire
  import opened KcpCore
  import opened KcpClock
  import opened KcpInvariants
  import opened KcpCalls
  import opened KcpProgress

  // ----- how many segments are outstanding -----

  /** The least of our own window, the peer's, and the congestion window if it is in use. */
  predicate LeastWindow(cfg: Config, ctl: Control, wnd: nat) {
    && wnd <= cfg.sndWnd && wnd <= ctl.rmtWnd && (cfg.nocwnd || wnd <= ctl.cwnd)
    && (wnd == cfg.sndWnd || wnd == ctl.rmtWnd || (!cfg.nocwnd && wnd == ctl.cwnd))
  }

  lemma {:induction false} FillExactly(snd: Sender, wnd: nat, ctl: Control)
    ensures var n := |FillWindow(Unbounded, snd, wnd, ctl).buf| - |snd.buf|;
            && n == Min(|snd.queue|, Max(0, snd.una + wnd - snd.nxt))
            && FillWindow(Unbounded, snd, wnd, ctl).nxt == snd.nxt + n
            && FillWindow(Unbounded, snd, wnd, ctl).queue == snd.queue[n..]
    decreases |snd.queue|
  {
    if snd.nxt < snd.una + wnd && snd.queue != [] {
      var o := Out(snd.nxt, snd.queue[0], ctl.current, ctl.rto, 0, 0);
      FillExactly(snd.(queue := snd.queue[1..], nxt := snd.nxt + 1, buf := snd.buf + [o]), wnd, ctl);
    }
  }

  /** A flush numbers as many queued segments as the least window leaves room for, and no more. */
  lemma NumbersExactly(cb: Cb) returns (wnd: nat)
    requires cb.ctl.updated
    ensures LeastWindow(cb.cfg, cb.ctl, wnd)
    ensures var n := Min(|cb.snd.queue|, Max(0, cb.snd.una + wnd - cb.snd.nxt));
            var t := Flush(Unbounded, cb).cb.snd;
            t.una == cb.snd.una && t.nxt == cb.snd.nxt + n && t.queue == cb.snd.queue[n..]
  {
    var ctl := ProbeTimer(cb.ctl);
    assert ctl.rmtWnd == cb.ctl.rmtWnd && ctl.cwnd == cb.ctl.cwnd;
    wnd := EffectiveWindow(cb.cfg, ctl);
    FillExactly(cb.snd, wnd, ctl);
    FillComplete(Unbounded, cb.snd, wnd, ctl);
    hide FillWindow;
    hide ProbeTimer;
    hide Transmit;
    hide AfterFlush;
  }

  /** A segment just numbered: due at once, never sent, overtaken by none. */
  function Fresh(sn: nat, frag: Frag, ctl: Control): Out {
    Out(sn, frag, ctl.current, ctl.rto, 0, 0)
  }

  /** Filling the window keeps the segments that are there and puts the queued ones behind them. */
  lemma {:induction false} NewSegments(snd: Sender, wnd: nat, ctl: Control, j: nat)
    requires j < |FillWindow(Unbounded, snd, wnd, ctl).buf|
    ensures j < |snd.buf| + |snd.queue|
    ensures FillWindow(Unbounded, snd, wnd, ctl).buf[j] ==
            if j < |snd.buf| then snd.buf[j] else Fresh(snd.nxt + j - |snd.buf|, snd.queue[j - |snd.buf|], ctl)
    decreases |snd.queue|
  {
    if snd.nxt < snd.una + wnd && snd.queue != [] {
      var o := Out(snd.nxt, snd.queue[0], ctl.current, ctl.rto, 0, 0);
      NewSegments(snd.(queue := snd.queue[1..], nxt := snd.nxt + 1, buf := snd.buf + [o]), wnd, ctl, j);
    }
  }

  // ----- what goes out -----

  /** A segment goes out if it never did, if its time has come, or if enough later ones were acknowledged before it
      and it was not sent too often for that. */
  lemma DueExactly(cfg: Config, ctl: Control, o: Out)
    requires o.fastack < 0xffff_ffff
    ensures Due(cfg, ctl, o) <==>
            || o.xmit == 0
            || TimeDiff(ctl.current, o.resendts) >= 0
            || (0 < cfg.fastresend <= o.fastack && (cfg.fastlimit <= 0 || o.xmit <= cfg.fastlimit))
  {
  }

  /** The question about the peer's window is due: it was told closed, and the time to ask has come. */
  predicate AskDue(ctl: Control) {
    ctl.rmtWnd == 0 && ctl.probeWait != 0 && TimeDiff(ctl.current, ctl.tsProbe) >= 0
  }

  predicate Says(ps: seq<Packet>, cmd: nat) {
    exists i :: 0 <= i < |ps| && ps[i].cmd == cmd
  }

  lemma {:induction false} OnlyData(cfg: Config, ctl: Control, wnd: nat, una: nat, buf: seq<Out>)
    ensures forall p :: p in Transmit(cfg, ctl, wnd, una, buf).packets ==> p.cmd == CMD_PUSH
    decreases |buf|
  {
    hide Why;
    hide Stamp;
    if buf != [] {
      OnlyData(cfg, ctl, wnd, una, buf[..|buf| - 1]);
    }
  }

  /** Every data segment is stamped with the clock of the flush that sends it. */
  lemma DataStamped(m: Numbering, cb: Cb, p: Packet)
    requires p in Flush(m, cb).packets && p.cmd == CMD_PUSH
    ensures p.ts == cb.ctl.current && p.una == cb.rcv.nxt && p.wnd == WndUnused(cb) % 65536
  {
    var ctl, wnd, snd := ProbeTimer(cb.ctl), WndUnused(cb) % 65536, Filled(m, cb);
    assert ctl.current == cb.ctl.current;
    TransmitExact(cb.cfg, ctl, wnd, cb.rcv.nxt, snd.buf, p);
    hide Transmit;
    hide FillWindow;
    hide ProbeTimer;
    hide AfterFlush;
    hide Stamp;
    hide Due;
  }

  /** A data segment below the end of the window is acknowledged once, echoing its stamp; nothing else adds or removes
      an acknowledgement. */
  lemma EchoesExactly(cb: Cb, p: Packet)
    ensures OnPacket(Unbounded, cb, p).rcv.acks ==
            cb.rcv.acks + if p.cmd == CMD_PUSH && p.sn < cb.rcv.nxt + cb.cfg.rcvWnd then [Ack(p.sn, p.ts)] else []
  {
    hide ParseUna;
    hide ParseAck;
    hide UpdateRtt;
    hide Insert;
    var acked := cb.rcv.(acks := cb.rcv.acks + [Ack(p.sn, p.ts)]);
    MoveExactly(Unbounded, acked.(buf := Insert(Unbounded, acked.buf, In(p.sn, Frag(p.frg, p.data)))), cb.cfg.rcvWnd);
    hide MoveReady;
    assert cb.rcv.acks + [] == cb.rcv.acks;
  }

  /** A flush first acknowledges every segment that waits for it, in the order they came, and then forgets them. It asks
      for the peer's window if and only if that is due, tells its own if and only if it was asked to, and leaves
      neither to be done again. Before the first update it does nothing. */
  lemma FlushSays(m: Numbering, cb: Cb)
    requires !cb.ctl.askSend
    ensures var f := Flush(m, cb);
            if !cb.ctl.updated then f == Flushed(cb, [])
            else
              && f.cb.rcv == cb.rcv.(acks := []) && |cb.rcv.acks| <= |f.packets|
              && (forall i :: 0 <= i < |f.packets| ==>
                    if i < |cb.rcv.acks|
                    then f.packets[i] == Packet(CMD_ACK, 0, WndUnused(cb) % 65536, cb.rcv.acks[i].ts,
                                                cb.rcv.acks[i].sn, cb.rcv.nxt, [])
                    else f.packets[i].cmd != CMD_ACK)
              && (Says(f.packets, CMD_WASK) <==> AskDue(cb.ctl))
              && (Says(f.packets, CMD_WINS) <==> cb.ctl.askTell)
              && !f.cb.ctl.askSend && !f.cb.ctl.askTell
  {
    if cb.ctl.updated {
      var ctl, wnd := ProbeTimer(cb.ctl), WndUnused(cb) % 65536;
      assert ctl.askSend == AskDue(cb.ctl) && ctl.askTell == cb.ctl.askTell;
      hide ProbeTimer;
      hide FillWindow;
      var snd := Filled(m, cb);
      var t := Transmit(cb.cfg, ctl, wnd, cb.rcv.nxt, snd.buf);
      OnlyData(cb.cfg, ctl, wnd, cb.rcv.nxt, snd.buf);
      hide Transmit;
      QuietAfter(cb.cfg, ctl, t, Max(0, Diff(m, snd.nxt, snd.una)), EffectiveWindow(cb.cfg, ctl));
      hide AfterFlush;
      SaysParts(AckPackets(cb.rcv, wnd), ProbePackets(ctl, cb.rcv, wnd), t.packets, ctl);
    }
  }

  lemma SaysParts(acks: seq<Packet>, probes: seq<Packet>, data: seq<Packet>, ctl: Control)
    requires forall i :: 0 <= i < |acks| ==> acks[i].cmd == CMD_ACK
    requires forall p :: p in data ==> p.cmd == CMD_PUSH
    requires |probes| == (if ctl.askSend then 1 else 0) + (if ctl.askTell then 1 else 0)
    requires ctl.askSend ==> probes[0].cmd == CMD_WASK
    requires ctl.askTell ==> probes[|probes| - 1].cmd == CMD_WINS
    ensures Says(acks + probes + data, CMD_WASK) <==> ctl.askSend
    ensures Says(acks + probes + data, CMD_WINS) <==> ctl.askTell
    ensures forall i :: |acks| <= i < |acks + probes + data| ==> (acks + probes + data)[i].cmd != CMD_ACK
  {
    var ps := acks + probes + data;
    forall i | 0 <= i < |ps|
      ensures ps[i].cmd == (if i < |acks| then CMD_ACK else if i < |acks + probes| then probes[i - |acks|].cmd
                            else CMD_PUSH)
    {
      if i >= |acks + probes| {
        assert ps[i] == data[i - |acks + probes|];
      }
    }
    if ctl.askSend {
      assert ps[|acks|].cmd == CMD_WASK;
    }
    if ctl.askTell {
      assert ps[|acks| + |probes| - 1].cmd == CMD_WINS;
    }
  }

  lemma QuietAfter(cfg: Config, ctl: Control, t: Transmission, inflight: nat, wnd: nat)
    ensures var c := AfterFlush(cfg, ctl.(askSend := false, askTell := false), t, inflight, wnd);
            !c.askSend && !c.askTell
  {
    hide Resent;
    hide Max;
    hide Config.Mss;
    hide Times;
  }

  /** Nobody asks but a flush, and a flush leaves nothing to be asked: between calls the flag is down. */
  lemma NeverLeftAsking(m: Numbering, cb: Cb, p: Packet, prevUna: nat, x: MaxAck, len: int)
    requires !cb.ctl.askSend
    ensures !OnPacket(m, cb, p).ctl.askSend && !Finish(m, cb, prevUna, x).ctl.askSend
    ensures !Recv(m, cb, len).cb.ctl.askSend
  {
    hide ParseUna;
    hide ParseAck;
    hide ParsePush;
    hide ParseFastack;
    hide MoveReady;
    hide PeekSize;
    hide MergeData;
    hide MergeCount;
    hide Max;
    hide Min;
    hide Times;
    hide Over;
  }

  // ----- how long until the next time -----

  /** While the peer's window is closed the time to ask again is set 7 seconds ahead at first, then half as long again
      each time, up to two minutes; it stays until it comes. An open window ends it. */
  lemma ProbeWaits(ctl: Control)
    requires ctl.probeWait == 0 || PROBE_INIT <= ctl.probeWait <= PROBE_LIMIT
    ensures var c := ProbeTimer(ctl);
            && c == ctl.(probeWait := c.probeWait, tsProbe := c.tsProbe, askSend := ctl.askSend || AskDue(ctl))
            && (ctl.rmtWnd != 0 ==> c.probeWait == 0)
            && (ctl.rmtWnd == 0 ==> PROBE_INIT <= c.probeWait <= PROBE_LIMIT)
            && (ctl.rmtWnd == 0 && (ctl.probeWait == 0 || AskDue(ctl)) ==>
                  TimeDiff(c.tsProbe, ctl.current) == c.probeWait)
            && (AskDue(ctl) && c.probeWait < PROBE_LIMIT ==> c.probeWait == ctl.probeWait + ctl.probeWait / 2)
            && (ctl.rmtWnd == 0 && ctl.probeWait != 0 && !AskDue(ctl) ==> c == ctl)
  {
    SameTime(ctl.current);
    var c := ProbeTimer(ctl);
    if ctl.rmtWnd == 0 && (ctl.probeWait == 0 || AskDue(ctl)) {
      DiffAdd(Wrap32, ctl.current, c.probeWait, ctl.current);
    }
    hide TimeDiff;
  }

  /** How long a segment waits after it went out now. */
  function Waits(o: Out, ctl: Control): int {
    TimeDiff(o.resendts, ctl.current)
  }

  lemma SetAhead(current: nat, wait: nat)
    requires wait < TWO31
    ensures TimeDiff((current + wait) % TWO32, current) == wait
  {
    SameTime(current);
    DiffAdd(Wrap32, current, wait, current);
  }

  /** Going out the first time, a segment waits for one timeout, and an eighth of it more unless `nodelay` is set. Every
      time its timeout passes it waits longer: by as much again, or, with `nodelay`, by half. Sent again early it waits
      as long as before, and the segments that overtook it are counted afresh. */
  lemma BacksOff(cfg: Config, ctl: Control, o: Out)
    requires o.rto < 0x2000_0000 && ctl.rto <= RTO_MAX && Due(cfg, ctl, o)
    ensures var t := Stamp(cfg, ctl, o);
            && t.sn == o.sn && t.frag == o.frag && t.xmit == o.xmit + 1
            && (o.xmit == 0 ==>
                  t.rto == ctl.rto && t.fastack == o.fastack
                  && Waits(t, ctl) == ctl.rto + (if cfg.nodelay == 0 then ctl.rto / 8 else 0))
            && (o.xmit > 0 && TimeDiff(ctl.current, o.resendts) >= 0 ==>
                  && Waits(t, ctl) == t.rto && t.fastack == o.fastack
                  && t.rto == o.rto + (if cfg.nodelay == 0 then Max(o.rto, ctl.rto)
                                       else (if cfg.nodelay < 2 then o.rto else ctl.rto) / 2))
            && (o.xmit > 0 && TimeDiff(ctl.current, o.resendts) < 0 ==>
                  Waits(t, ctl) == t.rto == o.rto && t.fastack == 0)
  {
    var t := Stamp(cfg, ctl, o);
    if o.xmit == 0 {
      SetAhead(ctl.current, ctl.rto + (if cfg.nodelay == 0 then ctl.rto / 8 else 0));
    } else if TimeDiff(ctl.current, o.resendts) >= 0 {
      TimedOut(cfg, ctl, o);
    } else {
      SetAhead(ctl.current, o.rto);
    }
    hide TimeDiff;
    hide Signed32;
    hide Half;
  }

  lemma TimedOut(cfg: Config, ctl: Control, o: Out)
    requires o.rto < 0x2000_0000 && ctl.rto <= RTO_MAX
    requires o.xmit > 0 && TimeDiff(ctl.current, o.resendts) >= 0
    ensures var t := Stamp(cfg, ctl, o);
            && t == o.(xmit := o.xmit + 1, rto := t.rto, resendts := t.resendts) && Waits(t, ctl) == t.rto
            && t.rto == o.rto + (if cfg.nodelay == 0 then Max(o.rto, ctl.rto)
                                 else (if cfg.nodelay < 2 then o.rto else ctl.rto) / 2)
  {
    var t := Stamp(cfg, ctl, o);
    var more := if cfg.nodelay == 0 then Max(o.rto, ctl.rto) else (if cfg.nodelay < 2 then o.rto else ctl.rto) / 2;
    assert Signed32(o.rto) == o.rto;
    hide Signed32;
    hide TimeDiff;
    SetAhead(ctl.current, o.rto + more);
    assert t.rto == o.rto + more;
  }

  function Distance(x: int, y: int): nat {
    if x >= y then x - y else y - x
  }

  /** The first sample is taken as it is. Each later one counts an eighth in the round-trip time, which stays between
      the last estimate and the sample, and its distance from that a quarter in the variation. The timeout is at least
      an interval, or four times the variation, longer than the round-trip time, within its limits. */
  lemma RttExactly(cfg: Config, ctl: Control, rtt: nat)
    requires cfg.minRto <= RTO_MAX
    ensures var c := UpdateRtt(cfg, ctl, rtt);
            && c == ctl.(srtt := c.srtt, rttval := c.rttval, rto := c.rto)
            && (ctl.srtt == 0 ==> c.srtt == rtt && 2 * c.rttval <= rtt <= 2 * c.rttval + 1)
            && (ctl.srtt > 0 ==>
                  && (8 * c.srtt <= 7 * ctl.srtt + rtt < 8 * c.srtt + 8 || (c.srtt == 1 && 7 * ctl.srtt + rtt < 8))
                  && Min(ctl.srtt, Max(1, rtt)) <= c.srtt <= Max(ctl.srtt, rtt)
                  && 4 * c.rttval <= 3 * ctl.rttval + Distance(rtt, ctl.srtt) < 4 * c.rttval + 4)
            && cfg.minRto <= c.rto <= RTO_MAX
            && (cfg.minRto < c.rto < RTO_MAX ==> c.rto == c.srtt + Max(cfg.interval, 4 * c.rttval))
            && (c.rto == cfg.minRto < RTO_MAX ==> c.srtt + Max(cfg.interval, 4 * c.rttval) <= cfg.minRto)
            && (c.rto == RTO_MAX > cfg.minRto ==> c.srtt + Max(cfg.interval, 4 * c.rttval) >= RTO_MAX)
  {
  }

  /** An acknowledgement that echoes a time not ahead of the clock is a sample of the round-trip time; no other segment
      touches the estimates. */
  lemma SamplesExactly(m: Numbering, cb: Cb, p: Packet)
    ensures var c, rtt := OnPacket(m, cb, p).ctl, TimeDiff(cb.ctl.current, p.ts);
            if p.cmd == CMD_ACK && rtt >= 0 then c == UpdateRtt(cb.cfg, cb.ctl.(rmtWnd := p.wnd), rtt)
            else (c.srtt, c.rttval, c.rto) == (cb.ctl.srtt, cb.ctl.rttval, cb.ctl.rto)
  {
    hide ParseUna;
    hide ParseAck;
    hide ParsePush;
    hide UpdateRtt;
  }

  // ----- the congestion window -----

  /** What happened to the segments of a flush: one went out early, one timed out, one went out too often. */
  lemma {:induction false} TransmitFlags(cfg: Config, ctl: Control, wnd: nat, una: nat, buf: seq<Out>)
    ensures var t := Transmit(cfg, ctl, wnd, una, buf);
            && (t.lost <==> exists i :: 0 <= i < |buf| && Why(cfg, ctl, buf[i]).Timeout?)
            && (t.change <==> exists i :: 0 <= i < |buf| && Why(cfg, ctl, buf[i]).Fast?)
            && (t.dead <==> exists i :: 0 <= i < |buf| && Due(cfg, ctl, buf[i]) && buf[i].xmit + 1 >= cfg.deadLink)
    decreases |buf|
  {
    if buf != [] {
      var n, init := |buf| - 1, buf[..|buf| - 1];
      TransmitFlags(cfg, ctl, wnd, una, init);
      OncePassed(cfg, ctl, buf[n]);
      hide Why;
      hide Stamp;
      assert forall i :: 0 <= i < n ==> init[i] == buf[i];
    }
  }

  lemma OncePassed(cfg: Config, ctl: Control, o: Out)
    ensures Due(cfg, ctl, o) ==> Stamp(cfg, ctl, o).xmit == o.xmit + 1
  {
  }

  /** A timeout closes the congestion window to one segment, an early retransmission to half of what was outstanding and
      the segments known to have arrived; otherwise it stays, at least one. */
  lemma ClosesOnLoss(cfg: Config, ctl: Control, t: Transmission, inflight: nat, wnd: nat)
    requires 0 < cfg.fastresend < TWO31 && inflight < TWO31
    ensures var c := AfterFlush(cfg, ctl, t, inflight, wnd);
            && c == ctl.(cwnd := c.cwnd, incr := c.incr, ssthresh := c.ssthresh, dead := ctl.dead || t.dead)
            && c.cwnd == (if t.lost then 1 else if t.change then Max(inflight / 2, 2) + cfg.fastresend
                          else Max(ctl.cwnd, 1))
            && c.ssthresh == (if t.lost then Max(wnd / 2, 2) else if t.change then Max(inflight / 2, 2)
                              else ctl.ssthresh)
  {
    hide Config.Mss;
    hide Times;
  }

  /** The congestion window is opened once for a datagram, and only if it released the oldest segment. */
  lemma OpensExactly(cb: Cb, prevUna: nat, x: MaxAck)
    ensures Finish(Unbounded, cb, prevUna, x).ctl ==
            if cb.snd.una > prevUna then Grow(cb.ctl, cb.cfg.Mss()) else cb.ctl
  {
    hide Grow;
    hide BumpFastack;
  }

  /** New acknowledgements open the congestion window by one segment while it is below the threshold, and never past
      the peer's window. */
  lemma OpensSlowly(ctl: Control, mss: nat)
    requires ctl.cwnd < TWO32 - 1
    ensures var c := Grow(ctl, mss);
            && c == ctl.(cwnd := c.cwnd, incr := c.incr)
            && (ctl.cwnd >= ctl.rmtWnd ==> c == ctl)
            && (ctl.cwnd < ctl.rmtWnd ==> c.cwnd <= ctl.rmtWnd)
            && (ctl.cwnd < ctl.rmtWnd && ctl.cwnd < ctl.ssthresh ==> c.cwnd == ctl.cwnd + 1)
  {
    hide Times;
    hide Over;
    hide Max;
  }
}
