/** What a sender knows of its peer's window: before anything was told, how far it can have come, and when an open
    window must have been told. */
module KcpWindow {
  import opened Words
  import opened KcpWire
  import opened KcpCore
  import opened KcpInvariants
  import opened KcpNetwork
  import opened KcpDelivery
  import opened KcpProgress
  import opened KcpRound
  import opened KcpChoice

  /** How many segments can be outstanding before the peer was heard of. */
  function FirstWindow(c: Config): nat {
    Min(c.sndWnd, if c.nocwnd then MAX_FRAGMENTS else 1)
  }

  // ----- before anything was heard -----

  /** A sender that has heard nothing. */
  ghost predicate Untouched(cb: Cb) {
    && cb.snd.una == 0 && cb.ctl.rmtWnd == MAX_FRAGMENTS && (cb.cfg.nocwnd || cb.ctl.cwnd <= 1)
    && cb.snd.nxt <= FirstWindow(cb.cfg) && NoneSkipped(cb.snd.buf)
  }

  predicate NoneSkipped(buf: seq<Out>) {
    forall i :: 0 <= i < |buf| ==> buf[i].fastack == 0
  }

  lemma {:induction false} FillWithin(snd: Sender, wnd: nat, ctl: Control, most: nat)
    requires snd.nxt <= most && snd.una + wnd <= most && NoneSkipped(snd.buf)
    ensures var t := FillWindow(Unbounded, snd, wnd, ctl);
            t.una == snd.una && t.nxt <= most && NoneSkipped(t.buf)
    decreases |snd.queue|
  {
    if snd.nxt < snd.una + wnd && snd.queue != [] {
      var o := Out(snd.nxt, snd.queue[0], ctl.current, ctl.rto, 0, 0);
      FillWithin(snd.(queue := snd.queue[1..], nxt := snd.nxt + 1, buf := snd.buf + [o]), wnd, ctl, most);
    }
  }

  lemma NotFast(cfg: Config, ctl: Control, o: Out)
    requires o.fastack == 0
    ensures !Why(cfg, ctl, o).Fast? && Stamp(cfg, ctl, o).fastack == 0
  {
    hide TimeDiff;
  }

  lemma {:induction false} TransmitSlow(cfg: Config, ctl: Control, wnd: nat, una: nat, buf: seq<Out>)
    requires NoneSkipped(buf)
    ensures var t := Transmit(cfg, ctl, wnd, una, buf); !t.change && NoneSkipped(t.buf)
    decreases |buf|
  {
    if buf != [] {
      TransmitSlow(cfg, ctl, wnd, una, buf[..|buf| - 1]);
      NotFast(cfg, ctl, buf[|buf| - 1]);
      hide Why;
      hide Stamp;
    }
  }

  lemma AfterFlushSlow(cfg: Config, ctl: Control, t: Transmission, inflight: nat, wnd: nat)
    requires !t.change && ctl.cwnd <= 1
    ensures AfterFlush(cfg, ctl, t, inflight, wnd).cwnd <= 1
  {
    hide Resent;
    hide Max;
    hide Config.Mss;
  }

  lemma FirstEffective(cfg: Config, ctl: Control)
    requires ctl.rmtWnd == MAX_FRAGMENTS && (cfg.nocwnd || ctl.cwnd <= 1)
    ensures EffectiveWindow(cfg, ProbeTimer(ctl)) <= FirstWindow(cfg) && ProbeTimer(ctl).cwnd == ctl.cwnd
    ensures cfg.nocwnd ==> EffectiveWindow(cfg, ProbeTimer(ctl)) == FirstWindow(cfg)
  {
  }

  lemma FlushUntouched(cb: Cb)
    requires Untouched(cb)
    ensures Untouched(Flush(Unbounded, cb).cb)
  {
    if cb.ctl.updated {
      FirstEffective(cb.cfg, cb.ctl);
      FlushKeepsControl(cb);
      hide ProbeTimer;
      var ctl, wnd := ProbeTimer(cb.ctl), EffectiveWindow(cb.cfg, ProbeTimer(cb.ctl));
      FillWithin(cb.snd, wnd, ctl, FirstWindow(cb.cfg));
      hide FillWindow;
      hide NoneSkipped;
      var snd := Filled(Unbounded, cb);
      TransmitSlow(cb.cfg, ctl, WndUnused(cb) % 65536, cb.rcv.nxt, snd.buf);
      var t := Transmit(cb.cfg, ctl, WndUnused(cb) % 65536, cb.rcv.nxt, snd.buf);
      hide Transmit;
      if !cb.cfg.nocwnd {
        AfterFlushSlow(cb.cfg, ctl.(askSend := false, askTell := false), t,
                       Max(0, Diff(Unbounded, snd.nxt, snd.una)), wnd);
      }
      hide AfterFlush;
      hide FirstWindow;
    }
  }

  lemma SenderUntouched(w: World<seq<Packet>>, ev: Event)
    requires w.ba == [] && Untouched(w.a.cb)
    ensures Untouched(StepA(w, ev).a.cb)
  {
    hide NoneSkipped;
    hide FirstWindow;
    hide Flush;
    hide Pack;
    hide FragCount;
    hide Fragments;
    hide MoveReady;
    hide MergeCount;
    hide PeekSize;
    match ev
    case DoFlush => FlushUntouched(w.a.cb);
    case DoUpdate(now) =>
      TickIs(w.a.cb.cfg, w.a.cb.ctl, now);
      hide Tick;
      FlushUntouched(w.a.cb.(ctl := Tick(w.a.cb.cfg, w.a.cb.ctl, now).0));
    case _ =>
  }

  /** Nothing was told, so nothing was heard. */
  ghost predicate Unheard(w: World<seq<Packet>>) {
    w.ba == [] ==> Untouched(w.a.cb)
  }

  lemma NetGrowing(w: World<seq<Packet>>, ev: Event)
    ensures var v := StepA(w, ev); w.ab <= v.ab && v.ba == w.ba && v.b == w.b
    ensures ev.DoSend? || ev.DoRecv? || ev.Deliver? ==> StepA(w, ev).ab == w.ab
  {
    hide InputPackets;
    hide Flush;
    hide Recv;
    hide Send;
    hide Pack;
  }

  lemma StepUnheard(w: World<seq<Packet>>, act: Action)
    requires Unheard(w)
    ensures Unheard(Step(w, act))
  {
    hide Untouched;
    if act.atB {
      NetGrowing(Flip(w), act.ev);
    } else {
      NetGrowing(w, act.ev);
      if w.ba == [] {
        SenderUntouched(w, act.ev);
      }
    }
    hide StepA;
  }

  lemma {:induction false} RunUnheard(w: World<seq<Packet>>, acts: seq<Action>)
    requires Unheard(w)
    ensures Unheard(RunWorld(w, acts))
  {
    hide Step;
    hide Unheard;
    if acts != [] {
      RunUnheard(w, acts[..|acts| - 1]);
      StepUnheard(RunWorld(w, acts[..|acts| - 1]), acts[|acts| - 1]);
    }
  }

  lemma StartUnheard(ca: Config, cb: Config)
    ensures Unheard(Start(ca, cb))
  {
  }

  // ----- an open window was told -----

  /** A datagram that tells an open window. */
  ghost predicate Opens(g: seq<Packet>) {
    g != [] && g[0].wnd > 0 && forall p :: p in g ==> p.wnd == g[0].wnd && p.una == g[0].una
  }

  ghost predicate OpenTold(net: seq<seq<Packet>>) {
    exists d :: 0 <= d < |net| && Opens(net[d])
  }

  /** The receive window's 16 bits are not used up by what can be outstanding at first. */
  predicate Narrow(ca: Config, cb: Config) {
    FirstWindow(ca) < cb.rcvWnd % 65536
  }

  /** Whatever was told first told an open window. */
  ghost predicate Heard(w: World<seq<Packet>>) {
    Unheard(w) && (w.ba != [] ==> OpenTold(w.ba))
  }

  lemma OpenTime(cb: Cb, most: nat)
    requires |cb.rcv.queue| <= most < cb.cfg.rcvWnd % 65536
    ensures WndUnused(cb) % 65536 > 0
  {
    var q, r := cb.cfg.rcvWnd / 65536, cb.cfg.rcvWnd % 65536;
    assert WndUnused(cb) == 65536 * q + (r - |cb.rcv.queue|);
  }

  lemma OpenStays(net: seq<seq<Packet>>, more: seq<seq<Packet>>)
    requires OpenTold(net) && net <= more
    ensures OpenTold(more)
  {
    var d :| 0 <= d < |net| && Opens(net[d]);
    assert more[d] == net[d];
  }

  /** The first flush there that puts anything out tells an open window. */
  lemma FirstTold(w: World<seq<Packet>>)
    requires WorldInv(w) && w.ab == [] && |w.a.cb.rcv.queue| < w.a.cb.cfg.rcvWnd % 65536
    ensures var v := StepA(w, DoFlush); v.ab != [] ==> OpenTold(v.ab)
  {
    hide WorldInv;
    AllSaid(w);
    OpenTime(w.a.cb, |w.a.cb.rcv.queue|);
    hide StepA;
    var v := StepA(w, DoFlush);
    if v.ab != [] {
      var g := v.ab[0];
      assert g[0] in g;
      assert Opens(g);
    }
  }

  lemma QueueSmall(w: World<seq<Packet>>)
    requires WorldInv(w)
    ensures |w.a.cb.rcv.queue| <= w.b.cb.snd.nxt
  {
    InOrderAt(w);
    ReceiverParts(w);
    hide WorldInv;
    hide FragsOf;
  }

  lemma ReceiverTells(w: World<seq<Packet>>, ev: Event)
    requires WorldInv(w) && Legal(Action(false, ev)) && w.ab == []
    requires |w.a.cb.rcv.queue| < w.a.cb.cfg.rcvWnd % 65536
    ensures StepA(w, ev).ab != [] ==> OpenTold(StepA(w, ev).ab)
  {
    hide WorldInv;
    hide OpenTold;
    match ev
    case DoFlush => FirstTold(w);
    case DoUpdate(now) =>
      TickIs(w.a.cb.cfg, w.a.cb.ctl, now);
      ControlFrame(w, Tick(w.a.cb.cfg, w.a.cb.ctl, now).0);
      hide Tick;
      FirstTold(Clocked(w, now));
      UpdateIs(w, now);
      hide StepA;
    case _ => NetGrowing(w, ev);
  }

  lemma StepHeard(w: World<seq<Packet>>, act: Action)
    requires WorldInv(w) && Legal(act) && Narrow(w.a.cb.cfg, w.b.cb.cfg) && Heard(w)
    ensures Heard(Step(w, act))
  {
    StepUnheard(w, act);
    FlipInv(w);
    hide WorldInv;
    hide Unheard;
    hide OpenTold;
    var x := if act.atB then Flip(w) else w;
    NetGrowing(x, act.ev);
    if w.ba != [] {
      hide StepA;
      OpenStays(w.ba, Step(w, act).ba);
    } else if act.atB {
      QueueSmall(Flip(w));
      UnheardNumbers(w);
      ReceiverTells(Flip(w), act.ev);
      hide StepA;
    } else {
      hide StepA;
    }
  }

  lemma UnheardNumbers(w: World<seq<Packet>>)
    requires Unheard(w) && w.ba == []
    ensures w.a.cb.snd.nxt <= FirstWindow(w.a.cb.cfg) && w.a.cb.ctl.rmtWnd == MAX_FRAGMENTS
  {
  }

  lemma {:induction false} RunHeard(w: World<seq<Packet>>, acts: seq<Action>)
    requires WorldInv(w) && Narrow(w.a.cb.cfg, w.b.cb.cfg) && Heard(w)
    requires forall i :: 0 <= i < |acts| ==> Legal(acts[i])
    ensures var v := RunWorld(w, acts);
            WorldInv(v) && Heard(v) && v.a.cb.cfg == w.a.cb.cfg && v.b.cb.cfg == w.b.cb.cfg
  {
    hide WorldInv;
    hide Heard;
    hide Step;
    if acts != [] {
      var u, act := RunWorld(w, acts[..|acts| - 1]), acts[|acts| - 1];
      RunHeard(w, acts[..|acts| - 1]);
      StepKeeps(u, act);
      StepHeard(u, act);
      ConfigsStay(u, act);
    }
  }

  lemma ConfigsStay(w: World<seq<Packet>>, act: Action)
    ensures Step(w, act).a.cb.cfg == w.a.cb.cfg && Step(w, act).b.cb.cfg == w.b.cb.cfg
  {
    var x := if act.atB then Flip(w) else w;
    if act.ev.DoSend? {
      hide FragCount;
      hide Fragments;
    } else {
      StepAOnward(x, act.ev);
      hide StepA;
    }
  }
}
