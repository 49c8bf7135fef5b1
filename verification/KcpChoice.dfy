/** What clock updates, deliveries and receives can be made to do, from any reachable state, when they are chosen for
    it: a segment gets through, a window is told, a number is given out. No clock is ever set back, and nothing is
    flushed but by an update. */
module KcpChoice {
  import opened Words
  import opened KcpWire
  import opened KcpCore
  import opened KcpClock
  import opened KcpInvariants
  import opened KcpNetwork
  import opened KcpDelivery
  import opened KcpRefinement
  import opened KcpProgress
  import opened KcpRound

  // ----- what every step but a send keeps -----

  /** Every message was accepted by send: it has fewer than 256 fragments. */
  ghost predicate Accepted(p: Peer) {
    forall i :: 0 <= i < |p.sent| ==> Acceptable(p.cb.cfg, |p.sent[i]|)
  }

  /** What holds in every reachable state. */
  ghost predicate Sane(w: World<seq<Packet>>) {
    WorldInv(w) && BothSettled(w) && Accepted(w.a) && Accepted(w.b)
  }

  lemma SendAccepts(p: Peer, msg: Message)
    requires Accepted(p)
    ensures Accepted(SendPeer(p, msg)) && SendPeer(p, msg).cb.cfg == p.cb.cfg
  {
    hide FragCount;
    hide Fragments;
  }

  lemma StepAccepts(w: World<seq<Packet>>, act: Action)
    requires Accepted(w.a) && Accepted(w.b)
    ensures Accepted(Step(w, act).a) && Accepted(Step(w, act).b)
  {
    var x := if act.atB then Flip(w) else w;
    if act.ev.DoSend? {
      SendAccepts(x.a, act.ev.msg);
      hide SendPeer;
    } else {
      StepAOnward(x, act.ev);
      hide StepA;
    }
    hide Acceptable;
  }

  lemma {:induction false} RunSane(ca: Config, cb: Config, acts: seq<Action>)
    requires Paired(ca, cb) && forall i :: 0 <= i < |acts| ==> Legal(acts[i])
    ensures Sane(RunWorld(Start(ca, cb), acts))
  {
    hide WorldInv;
    hide BothSettled;
    hide Accepted;
    RunWorldKeeps(ca, cb, acts);
    RunSettled(ca, cb, acts);
    RunAccepts(ca, cb, acts);
  }

  lemma {:induction false} RunAccepts(ca: Config, cb: Config, acts: seq<Action>)
    ensures Accepted(RunWorld(Start(ca, cb), acts).a) && Accepted(RunWorld(Start(ca, cb), acts).b)
  {
    if acts != [] {
      hide Accepted;
      hide Step;
      RunAccepts(ca, cb, acts[..|acts| - 1]);
      StepAccepts(RunWorld(Start(ca, cb), acts[..|acts| - 1]), acts[|acts| - 1]);
    }
  }

  ghost predicate PeerOnward(p: Peer, q: Peer) {
    && q.sent == p.sent && q.cb.cfg == p.cb.cfg
    && p.cb.rcv.nxt <= q.cb.rcv.nxt && p.cb.snd.nxt <= q.cb.snd.nxt
  }

  /** The same messages sent, and no number taken back at either end. */
  ghost predicate Onward(w: World<seq<Packet>>, v: World<seq<Packet>>) {
    Sane(v) && PeerOnward(w.a, v.a) && PeerOnward(w.b, v.b)
  }

  lemma {:induction false} MoveOnward(rcv: Receiver, wnd: nat)
    ensures rcv.nxt <= MoveReady(Unbounded, rcv, wnd).nxt
    decreases |rcv.buf|
  {
    if rcv.buf != [] && rcv.buf[0].sn == rcv.nxt && |rcv.queue| < wnd {
      MoveOnward(rcv.(buf := rcv.buf[1..], queue := rcv.queue + [rcv.buf[0]], nxt := rcv.nxt + 1), wnd);
    }
  }

  lemma {:induction false} FillOnward(snd: Sender, wnd: nat, ctl: Control)
    ensures snd.nxt <= FillWindow(Unbounded, snd, wnd, ctl).nxt
    ensures snd.nxt < snd.una + wnd && snd.queue != [] ==> snd.nxt < FillWindow(Unbounded, snd, wnd, ctl).nxt
    decreases |snd.queue|
  {
    if snd.nxt < snd.una + wnd && snd.queue != [] {
      var o := Out(snd.nxt, snd.queue[0], ctl.current, ctl.rto, 0, 0);
      FillOnward(snd.(queue := snd.queue[1..], nxt := snd.nxt + 1, buf := snd.buf + [o]), wnd, ctl);
    }
  }

  lemma OnPacketOnward(cb: Cb, p: Packet)
    ensures var r := OnPacket(Unbounded, cb, p);
            r.cfg == cb.cfg && cb.rcv.nxt <= r.rcv.nxt && r.snd.nxt == cb.snd.nxt
  {
    hide MoveReady;
    hide Insert;
    hide DropUna;
    hide RemoveSn;
    var acked := cb.rcv.(acks := cb.rcv.acks + [Ack(p.sn, p.ts)]);
    MoveOnward(acked.(buf := Insert(Unbounded, acked.buf, In(p.sn, Frag(p.frg, p.data)))), cb.cfg.rcvWnd);
  }

  lemma {:induction false} OnPacketsOnward(cb: Cb, ps: seq<Packet>)
    ensures var r := OnPackets(Unbounded, cb, ps);
            r.cfg == cb.cfg && cb.rcv.nxt <= r.rcv.nxt && r.snd.nxt == cb.snd.nxt
    decreases |ps|
  {
    hide OnPacket;
    if ps != [] {
      OnPacketOnward(cb, ps[0]);
      OnPacketsOnward(OnPacket(Unbounded, cb, ps[0]), ps[1..]);
    }
  }

  lemma FinishOnward(cb: Cb, prevUna: nat, x: MaxAck)
    ensures var r := Finish(Unbounded, cb, prevUna, x);
            r.cfg == cb.cfg && r.rcv == cb.rcv && r.snd.nxt == cb.snd.nxt
  {
    hide BumpFastack;
  }

  lemma FlushOnward(cb: Cb)
    ensures var r := Flush(Unbounded, cb).cb;
            r.cfg == cb.cfg && r.rcv.nxt == cb.rcv.nxt && cb.snd.nxt <= r.snd.nxt
  {
    hide FillWindow;
    hide Transmit;
    hide AfterFlush;
    hide ProbeTimer;
    if cb.ctl.updated {
      FillOnward(cb.snd, EffectiveWindow(cb.cfg, ProbeTimer(cb.ctl)), ProbeTimer(cb.ctl));
    }
  }

  lemma StepAOnward(w: World<seq<Packet>>, ev: Event)
    requires !ev.DoSend?
    ensures PeerOnward(w.a, StepA(w, ev).a) && StepA(w, ev).b == w.b
  {
    hide MoveReady;
    hide OnPackets;
    hide NoteAcks;
    hide Finish;
    hide Flush;
    hide Pack;
    match ev
    case DoRecv(len) =>
      var q := w.a.cb.rcv.queue;
      MoveOnward(w.a.cb.rcv.(queue := if len < 0 then q else q[MergeCount(q)..]), w.a.cb.cfg.rcvWnd);
    case Deliver(i) =>
      if i < |w.ba| {
        OnPacketsOnward(w.a.cb, w.ba[i]);
        FinishOnward(OnPackets(Unbounded, w.a.cb, w.ba[i]), w.a.cb.snd.una, NoteAcks(Unbounded, NoAck, w.ba[i]));
      }
    case DoFlush => FlushOnward(w.a.cb);
    case DoUpdate(now) => FlushOnward(w.a.cb.(ctl := Tick(w.a.cb.cfg, w.a.cb.ctl, now).0));
  }

  /** What a session does between two sends: it updates, takes datagrams in and receives. */
  predicate Plain(act: Action) {
    (act.ev.DoUpdate? || act.ev.Deliver? || act.ev.DoRecv?) && Legal(act)
  }

  predicate Quiet(acts: seq<Action>) {
    forall i :: 0 <= i < |acts| ==> Plain(acts[i])
  }

  lemma StepOnward(w: World<seq<Packet>>, act: Action)
    requires Sane(w) && !act.ev.DoSend? && Legal(act)
    ensures Onward(w, Step(w, act))
    ensures act.atB ==> Step(w, act).a == w.a
    ensures !act.atB ==> Step(w, act).b == w.b
  {
    hide WorldInv;
    hide BothSettled;
    StepKeeps(w, act);
    StepSettles(w, act);
    hide StepA;
    StepAOnward(if act.atB then Flip(w) else w, act.ev);
  }

  lemma OnwardOn(w: World<seq<Packet>>, u: World<seq<Packet>>, v: World<seq<Packet>>)
    requires Onward(w, u) && Onward(u, v)
    ensures Onward(w, v)
  {
    hide Sane;
  }

  // ----- runs -----

  function Actor<D>(w: World<D>, act: Action): Peer {
    if act.atB then w.b else w.a
  }

  /** An update does not set the clock of its endpoint back. */
  predicate Ahead<D>(w: World<D>, act: Action) {
    act.ev.DoUpdate? ==> TimeDiff(act.ev.now, Actor(w, act).cb.ctl.current) >= 0
  }

  ghost predicate Forwards(w: World<seq<Packet>>, acts: seq<Action>) {
    forall i :: 0 <= i < |acts| ==> Ahead(RunWorld(w, acts[..i]), acts[i])
  }

  lemma ForwardsOn(w: World<seq<Packet>>, x: seq<Action>, y: seq<Action>)
    requires Forwards(w, x) && Forwards(RunWorld(w, x), y)
    ensures Forwards(w, x + y)
  {
    hide Ahead;
    hide RunWorld;
    forall i | 0 <= i < |x + y| ensures Ahead(RunWorld(w, (x + y)[..i]), (x + y)[i]) {
      if i < |x| {
        assert (x + y)[..i] == x[..i];
      } else {
        assert (x + y)[..i] == x + y[..i - |x|];
        RunConcat(w, x, y[..i - |x|]);
      }
    }
  }

  /** These updates, arrivals and receives, none setting a clock back, lead from `w` to `v`. */
  ghost predicate Leads(w: World<seq<Packet>>, acts: seq<Action>, v: World<seq<Packet>>) {
    Quiet(acts) && Forwards(w, acts) && RunWorld(w, acts) == v && Onward(w, v)
  }

  lemma LeadsNowhere(w: World<seq<Packet>>)
    requires Sane(w)
    ensures Leads(w, [], w)
  {
    hide Sane;
  }

  lemma LeadsOne(w: World<seq<Packet>>, act: Action)
    requires Sane(w) && Plain(act) && Ahead(w, act)
    ensures Leads(w, [act], Step(w, act))
  {
    hide Sane;
    hide Step;
    hide Ahead;
    StepOnward(w, act);
    hide Onward;
    RunLast(w, [], act);
    assert [] + [act] == [act] && [act][..0] == [] && RunWorld(w, []) == w;
  }

  lemma LeadsOn(
    w: World<seq<Packet>>, x: seq<Action>, u: World<seq<Packet>>, y: seq<Action>, v: World<seq<Packet>>)
    requires Leads(w, x, u) && Leads(u, y, v)
    ensures Leads(w, x + y, v)
  {
    hide RunWorld;
    hide Onward;
    hide Forwards;
    RunConcat(w, x, y);
    OnwardOn(w, u, v);
    ForwardsOn(w, x, y);
  }

  // ----- flushing at a chosen time -----

  /** The clock of `a` read at `now`. */
  function Clocked(w: World<seq<Packet>>, now: nat): World<seq<Packet>> {
    w.(a := w.a.(cb := w.a.cb.(ctl := Tick(w.a.cb.cfg, w.a.cb.ctl, now).0)))
  }

  lemma ClockedSane(w: World<seq<Packet>>, now: nat)
    requires Sane(w) && now < TWO32
    ensures Sane(Clocked(w, now))
  {
    ControlFrame(w, Tick(w.a.cb.cfg, w.a.cb.ctl, now).0);
  }

  lemma TickIs(cfg: Config, ctl: Control, now: nat)
    ensures var c := Tick(cfg, ctl, now).0;
            c == ctl.(current := now, updated := true, tsFlush := c.tsFlush)
  {
  }

  /** An update sets the clock, and flushes when it is time to. */
  lemma UpdateIs(w: World<seq<Packet>>, now: nat)
    ensures StepA(w, DoUpdate(now)) ==
            if Flushing(w.a.cb.ctl, now) then StepA(Clocked(w, now), DoFlush) else Clocked(w, now)
  {
    hide Flush;
    hide Pack;
    NothingPacked(w.a.cb.cfg.mtu);
  }

  /** Once more, when the time to flush has come. */
  lemma UpdateThen(w: World<seq<Packet>>, now: nat, at: nat)
    requires !Flushing(w.a.cb.ctl, now) && at == w.a.cb.ctl.tsFlush % TWO32
    ensures 0 < TimeDiff(at, now) <= 10000 && Flushing(Clocked(w, now).a.cb.ctl, at)
    ensures Clocked(Clocked(w, now), at) == Clocked(w, at)
  {
    var t := w.a.cb.ctl.tsFlush;
    SameTime(t);
    DiffRebase(Wrap32, at, now, t);
  }

  /** An update flushes, or says when the next one will: at most ten seconds later. */
  lemma FlushHere(w: World<seq<Packet>>, now: nat) returns (acts: seq<Action>, at: nat)
    requires Sane(w) && now < TWO32 && TimeDiff(now, w.a.cb.ctl.current) >= 0
    ensures at < TWO32 && 0 <= TimeDiff(at, now) <= 10000
    ensures Leads(w, acts, Step(Clocked(w, at), Action(false, DoFlush)))
  {
    hide Sane;
    hide RunWorld;
    var first := Action(false, DoUpdate(now));
    LeadsOne(w, first);
    UpdateIs(w, now);
    hide StepA;
    acts, at := [first], now;
    SameTime(now);
    if !Flushing(w.a.cb.ctl, now) {
      at := w.a.cb.ctl.tsFlush % TWO32;
      UpdateThen(w, now, at);
      ClockedSane(w, now);
      TickIs(w.a.cb.cfg, w.a.cb.ctl, now);
      hide Tick;
      var u, second := Clocked(w, now), Action(false, DoUpdate(at));
      LeadsOne(u, second);
      UpdateIs(u, at);
      LeadsOn(w, acts, u, [second], Step(Clocked(w, at), Action(false, DoFlush)));
      acts := acts + [second];
    }
  }

  // ----- the other way round -----

  function Swap(acts: seq<Action>): (r: seq<Action>)
    ensures |r| == |acts|
  {
    seq(|acts|, i requires 0 <= i < |acts| => Action(!acts[i].atB, acts[i].ev))
  }

  lemma {:induction false} SwapRun(w: World<seq<Packet>>, acts: seq<Action>)
    ensures RunWorld(w, Swap(acts)) == Flip(RunWorld(Flip(w), acts))
    decreases |acts|
  {
    hide StepA;
    if acts != [] {
      SwapRun(w, acts[..|acts| - 1]);
      assert Swap(acts)[..|acts| - 1] == Swap(acts[..|acts| - 1]);
    }
  }

  lemma FlipSane(w: World<seq<Packet>>)
    requires Sane(w)
    ensures Sane(Flip(w))
  {
    hide WorldInv;
    FlipInv(w);
  }

  lemma SwapLeads(w: World<seq<Packet>>, acts: seq<Action>, v: World<seq<Packet>>)
    requires Leads(Flip(w), acts, v)
    ensures Leads(w, Swap(acts), Flip(v))
  {
    hide RunWorld;
    hide Sane;
    SwapRun(w, acts);
    FlipSane(v);
    SwapForwards(w, acts);
  }

  lemma SwapForwards(w: World<seq<Packet>>, acts: seq<Action>)
    requires Forwards(Flip(w), acts)
    ensures Forwards(w, Swap(acts))
  {
    hide RunWorld;
    forall i | 0 <= i < |acts| ensures Ahead(RunWorld(w, Swap(acts)[..i]), Swap(acts)[i]) {
      assert Swap(acts)[..i] == Swap(acts[..i]);
      SwapRun(w, acts[..i]);
      assert Ahead(RunWorld(Flip(w), acts[..i]), acts[i]);
    }
  }

  // ----- a segment is sent again -----

  /** A segment of the send buffer is due when its time has come. */
  lemma DueThen(w: World<seq<Packet>>, k: nat, now: nat)
    requires k < |w.a.cb.snd.buf|
    ensures var o := w.a.cb.snd.buf[k];
            var c := Clocked(w, now).a.cb;
            && k < |Filled(Unbounded, c).buf| && Filled(Unbounded, c).buf[k] == o
            && (TimeDiff(now, o.resendts) >= 0 ==> Due(c.cfg, ProbeTimer(c.ctl), o))
  {
    var c := Clocked(w, now).a.cb;
    TickIs(w.a.cb.cfg, w.a.cb.ctl, now);
    FillFront(c.snd, EffectiveWindow(c.cfg, ProbeTimer(c.ctl)), ProbeTimer(c.ctl));
    hide FillWindow;
    hide Tick;
    assert ProbeTimer(c.ctl).current == now;
    hide TimeDiff;
  }

  lemma {:induction false} FillFront(snd: Sender, wnd: nat, ctl: Control)
    ensures snd.buf <= FillWindow(Unbounded, snd, wnd, ctl).buf
    decreases |snd.queue|
  {
    if snd.nxt < snd.una + wnd && snd.queue != [] {
      var o := Out(snd.nxt, snd.queue[0], ctl.current, ctl.rto, 0, 0);
      FillFront(snd.(queue := snd.queue[1..], nxt := snd.nxt + 1, buf := snd.buf + [o]), wnd, ctl);
    }
  }

  /** A segment that goes out when `a` flushes arrives at `b`. */
  lemma ResendAt(w: World<seq<Packet>>, k: nat, flush: seq<Action>, at: nat)
    returns (acts: seq<Action>, v: World<seq<Packet>>)
    requires Sane(w) && k < |w.a.cb.snd.buf| && at < TWO32
    requires Leads(w, flush, Step(Clocked(w, at), Action(false, DoFlush)))
    requires Due(w.a.cb.cfg, ProbeTimer(Clocked(w, at).a.cb.ctl), w.a.cb.snd.buf[k])
    requires w.a.cb.snd.buf[k].sn < w.b.cb.rcv.nxt + w.b.cb.cfg.rcvWnd
    ensures Leads(w, acts, v) && Held(v.b.cb.rcv, w.a.cb.snd.buf[k].sn)
    ensures v.b.cb.rcv.acks != [] && v.b.got == w.b.got && v.ba == w.ba
  {
    hide Tick;
    hide Filled;
    hide Due;
    hide BothSettled;
    hide WorldInv;
    hide Accepted;
    hide Step;
    hide RunWorld;
    hide Held;
    hide TimeDiff;
    var c := Clocked(w, at);
    DueThen(w, k, at);
    TickIs(w.a.cb.cfg, w.a.cb.ctl, at);
    ClockedSane(w, at);
    var d := SegmentGetsThrough(c, k);
    var u := Step(c, Action(false, DoFlush));
    StepOnward(c, Action(false, DoFlush));
    LeadsOne(u, Action(true, Deliver(d)));
    v := Step(u, Action(true, Deliver(d)));
    GotSame(u, d);
    StepHere(c, DoFlush);
    LeadsOn(w, flush, u, [Action(true, Deliver(d))], v);
    acts := flush + [Action(true, Deliver(d))];
  }

  /** When to update at `cur`, so that the time `t` has come ten seconds later; when `t` is about half the number
      space away, so that it then lies ahead. */
  function Moment(cur: nat, t: nat): nat {
    var d := TimeDiff(cur, t);
    if 0 <= d < TWO31 - 10000 then cur else if -TWO31 < d < 0 then t % TWO32 else (cur + 20000) % TWO32
  }

  lemma MomentAhead(cur: nat, t: nat)
    requires cur < TWO32
    ensures Moment(cur, t) < TWO32 && TimeDiff(Moment(cur, t), cur) >= 0
  {
    SameTime(t);
    SameTime(cur);
    if -TWO31 < TimeDiff(cur, t) {
      DiffRebase(Wrap32, t % TWO32, cur, t);
    }
    DiffAdd(Wrap32, cur, 20000, cur);
  }

  lemma MomentComes(cur: nat, t: nat, at: nat)
    requires cur < TWO32 && 0 <= TimeDiff(at, Moment(cur, t)) <= 10000
    ensures TimeDiff(at, t) > -TWO31
    ensures -TWO31 < TimeDiff(cur, t) < 0 ==> TimeDiff(at, t) >= 0
  {
    var d, e, now := TimeDiff(cur, t), TimeDiff(at, Moment(cur, t)), Moment(cur, t);
    SameTime(t);
    if now == cur || now == t % TWO32 {
      DiffChain(Wrap32, at, now, t);
    } else {
      Halfway(cur, t, now, at);
    }
  }

  lemma Halfway(cur: nat, t: nat, now: nat, at: nat)
    requires TimeDiff(cur, t) >= TWO31 - 10000 || TimeDiff(cur, t) == -TWO31
    requires now == (cur + 20000) % TWO32 && 0 <= TimeDiff(at, now) <= 10000
    ensures TimeDiff(at, t) > -TWO31
  {
    var d, e := TimeDiff(cur, t), TimeDiff(at, now);
    var p := SignedQuotient(cur - t);
    var q := SignedQuotient(at - now);
    var r := (cur + 20000) / TWO32;
    hide Signed32;
    assert at - t == d + 20000 + e + TWO32 * (p + q - r);
    if d == -TWO31 {
      SignedUnique(at - t, d + 20000 + e, p + q - r);
    } else {
      SignedUnique(at - t, d + 20000 + e - TWO32, p + q - r + 1);
    }
  }

  /** A segment that is held back is not changed by a flush. */
  lemma {:induction false} TransmitAt(cfg: Config, ctl: Control, wnd: nat, una: nat, buf: seq<Out>, k: nat)
    requires k < |buf| && !Due(cfg, ctl, buf[k])
    ensures Transmit(cfg, ctl, wnd, una, buf).buf[k] == buf[k]
    decreases |buf|
  {
    hide Stamp;
    if k < |buf| - 1 {
      hide Due;
      TransmitAt(cfg, ctl, wnd, una, buf[..|buf| - 1], k);
    } else {
      StampHeld(cfg, ctl, buf[k]);
    }
  }

  lemma StampHeld(cfg: Config, ctl: Control, o: Out)
    requires !Due(cfg, ctl, o)
    ensures Stamp(cfg, ctl, o) == o
  {
  }

  lemma HeldBack(w: World<seq<Packet>>, k: nat, now: nat)
    requires k < |w.a.cb.snd.buf| && !Due(w.a.cb.cfg, ProbeTimer(Clocked(w, now).a.cb.ctl), w.a.cb.snd.buf[k])
    ensures var u := Step(Clocked(w, now), Action(false, DoFlush));
            && k < |u.a.cb.snd.buf| && u.a.cb.snd.buf[k] == w.a.cb.snd.buf[k]
            && u.b == w.b && u.ba == w.ba && u.a.cb.ctl.current == now
  {
    var c := Clocked(w, now).a.cb;
    DueThen(w, k, now);
    TickIs(w.a.cb.cfg, w.a.cb.ctl, now);
    hide Due;
    hide Tick;
    hide Pack;
    FlushKeepsControl(c);
    TransmitAt(c.cfg, ProbeTimer(c.ctl), WndUnused(c) % 65536, c.rcv.nxt, Filled(Unbounded, c).buf, k);
    hide Transmit;
    hide FillWindow;
    hide ProbeTimer;
    hide AfterFlush;
  }

  /** A segment inside the window gets through, whenever it was last sent; its acknowledgement waits there. */
  lemma Resend(w: World<seq<Packet>>, k: nat) returns (acts: seq<Action>, v: World<seq<Packet>>)
    requires Sane(w) && k < |w.a.cb.snd.buf|
    requires w.a.cb.snd.buf[k].sn < w.b.cb.rcv.nxt + w.b.cb.cfg.rcvWnd
    ensures Leads(w, acts, v) && Held(v.b.cb.rcv, w.a.cb.snd.buf[k].sn)
    ensures v.b.cb.rcv.acks != [] && v.b.got == w.b.got && v.ba == w.ba
  {
    hide Filled;
    hide BothSettled;
    hide WorldInv;
    hide Accepted;
    hide Step;
    hide RunWorld;
    hide Held;
    CurrentFits(w);
    var cur, t := w.a.cb.ctl.current, w.a.cb.snd.buf[k].resendts;
    MomentAhead(cur, t);
    var first, at := FlushHere(w, Moment(cur, t));
    MomentComes(cur, t, at);
    hide Tick;
    hide Due;
    DueThen(w, k, at);
    if Due(w.a.cb.cfg, ProbeTimer(Clocked(w, at).a.cb.ctl), w.a.cb.snd.buf[k]) {
      acts, v := ResendAt(w, k, first, at);
    } else {
      HeldBack(w, k, at);
      var u := Step(Clocked(w, at), Action(false, DoFlush));
      acts, v := ResendLater(u, k);
      LeadsOn(w, first, u, acts, v);
      acts := first + acts;
    }
  }

  /** A segment whose time lies ahead goes out when it has come. */
  lemma ResendLater(w: World<seq<Packet>>, k: nat) returns (acts: seq<Action>, v: World<seq<Packet>>)
    requires Sane(w) && k < |w.a.cb.snd.buf|
    requires -TWO31 < TimeDiff(w.a.cb.ctl.current, w.a.cb.snd.buf[k].resendts) < 0
    requires w.a.cb.snd.buf[k].sn < w.b.cb.rcv.nxt + w.b.cb.cfg.rcvWnd
    ensures Leads(w, acts, v) && Held(v.b.cb.rcv, w.a.cb.snd.buf[k].sn)
    ensures v.b.cb.rcv.acks != [] && v.b.got == w.b.got && v.ba == w.ba
  {
    hide Filled;
    hide BothSettled;
    hide WorldInv;
    hide Accepted;
    hide Step;
    hide RunWorld;
    hide Held;
    CurrentFits(w);
    var cur, t := w.a.cb.ctl.current, w.a.cb.snd.buf[k].resendts;
    MomentAhead(cur, t);
    var flush, at := FlushHere(w, Moment(cur, t));
    MomentComes(cur, t, at);
    hide Tick;
    hide Due;
    DueThen(w, k, at);
    acts, v := ResendAt(w, k, flush, at);
  }

  lemma GotSame(w: World<seq<Packet>>, d: nat)
    ensures Step(w, Action(true, Deliver(d))).b.got == w.b.got && Step(w, Action(true, Deliver(d))).ba == w.ba
  {
    hide InputPackets;
  }

  // ----- room at the receiver -----

  /** The queue at `b` is shorter than any receive window. */
  predicate Roomy(w: World<seq<Packet>>) {
    |w.b.cb.rcv.queue| < MAX_FRAGMENTS - 1 < w.b.cb.cfg.rcvWnd
  }

  /** The queue begins with the first fragment of the next message. */
  lemma HeadFragment(w: World<seq<Packet>>)
    requires WorldInv(w) && w.b.cb.rcv.queue != []
    ensures w.a.cb.cfg.Mss() > 0 && |w.b.got| < |w.a.sent|
    ensures w.b.cb.rcv.queue[0].frag.frg == FragCount(w.a.cb.cfg.Mss(), |w.a.sent[|w.b.got|]|) - 1
  {
    FlipInv(w);
    hide WorldInv;
    ReceiverParts(Flip(w));
    hide FragsOf;
    hide FragCount;
    var log := FragsOf(w.a.cb.cfg, w.a.sent);
    QueueFrags(w.b.cb.rcv, w.b.cb.cfg.rcvWnd, log, w.a.cb.snd.nxt);
    MoreToCome(w.a, w.b, log);
    NextFragments(w.a.cb.cfg, w.a.sent, |w.b.got|);
    assert w.b.cb.rcv.queue[0].frag == log[|FragsOf(w.a.cb.cfg, w.b.got)|];
  }

  /** Without a complete message in it, the queue holds fewer fragments than a message can have. */
  lemma IncompleteIsShort(w: World<seq<Packet>>)
    requires Sane(w) && PeekSize(w.b.cb.rcv.queue) < 0
    ensures Roomy(w)
  {
    var q := w.b.cb.rcv.queue;
    PeekIsMerged(q);
    EndsKept(w);
    hide WorldInv;
    hide PeekSize;
    if q != [] {
      HeadFragment(w);
      hide FragCount;
      assert Acceptable(w.a.cb.cfg, |w.a.sent[|w.b.got|]|);
    }
  }

  lemma ReceiveOne(w: World<seq<Packet>>)
    requires PeekSize(w.b.cb.rcv.queue) >= 0
    ensures var v := Step(w, Action(true, DoRecv(PeekSize(w.b.cb.rcv.queue))));
            && v.a == w.a && |v.b.got| == |w.b.got| + 1
            && v.b.cb.rcv.acks == w.b.cb.rcv.acks && v.ba == w.ba
  {
    var q := w.b.cb.rcv.queue;
    hide MergeData;
    PeekIsMerged(q);
    hide PeekSize;
    MoveAcks(Unbounded, w.b.cb.rcv.(queue := q[MergeCount(q)..]), w.b.cb.cfg.rcvWnd);
    hide MoveReady;
    hide MergeCount;
  }

  /** Receiving what is complete makes room. */
  lemma {:induction false} MakeRoom(w: World<seq<Packet>>) returns (acts: seq<Action>, v: World<seq<Packet>>)
    requires Sane(w)
    ensures Leads(w, acts, v) && Roomy(v) && v.a == w.a && v.ba == w.ba
    ensures PeekSize(v.b.cb.rcv.queue) < 0 && v.b.cb.rcv.acks == w.b.cb.rcv.acks
    decreases |w.a.sent| - |w.b.got|
  {
    hide WorldInv;
    hide BothSettled;
    hide PeekSize;
    hide Step;
    hide RunWorld;
    if PeekSize(w.b.cb.rcv.queue) < 0 {
      IncompleteIsShort(w);
      LeadsNowhere(w);
      acts, v := [], w;
    } else {
      var act := Action(true, DoRecv(PeekSize(w.b.cb.rcv.queue)));
      var u := Step(w, act);
      ReceiveOne(w);
      LeadsOne(w, act);
      FlipInv(u);
      GotPrefix(Flip(u));
      var rest;
      rest, v := MakeRoom(u);
      LeadsOn(w, [act], u, rest, v);
      acts := [act] + rest;
    }
  }

  // ----- a number is out: it arrives -----

  /** How far the two ends have come. */
  function Reach(w: World<seq<Packet>>): nat {
    w.a.cb.snd.nxt + w.b.cb.rcv.nxt
  }

  lemma OnwardReach(w: World<seq<Packet>>, v: World<seq<Packet>>)
    requires Onward(w, v)
    ensures Reach(w) <= Reach(v)
    ensures Reach(v) == Reach(w) ==> v.a.cb.snd.nxt == w.a.cb.snd.nxt && v.b.cb.rcv.nxt == w.b.cb.rcv.nxt
  {
    hide Sane;
  }

  /** With room, a receiver that holds the next number has moved on. */
  lemma HeldMovesOn(w: World<seq<Packet>>, v: World<seq<Packet>>)
    requires Sane(w) && Sane(v) && Roomy(w) && v.b.got == w.b.got && v.a.sent == w.a.sent
    requires v.b.cb.cfg == w.b.cb.cfg && v.a.cb.cfg == w.a.cb.cfg
    requires w.b.cb.rcv.nxt <= v.b.cb.rcv.nxt && Held(v.b.cb.rcv, w.b.cb.rcv.nxt)
    ensures w.b.cb.rcv.nxt < v.b.cb.rcv.nxt
  {
    FlipInv(w);
    FlipInv(v);
    hide WorldInv;
    hide FragsOf;
    InOrderAt(Flip(w));
    InOrderAt(Flip(v));
    ReceiverParts(Flip(v));
    hide RcvInv;
    hide ReceiverTrue;
    if v.b.cb.rcv.nxt == w.b.cb.rcv.nxt {
      NextFirst(v.b.cb.rcv, v.b.cb.cfg.rcvWnd);
    }
  }

  lemma NextArrives(w: World<seq<Packet>>) returns (acts: seq<Action>, v: World<seq<Packet>>)
    requires Sane(w) && Roomy(w) && InBuf(w.a.cb.snd, w.b.cb.rcv.nxt)
    ensures Leads(w, acts, v) && Reach(w) < Reach(v) && w.b.cb.rcv.nxt < v.b.cb.rcv.nxt
    ensures v.ba == w.ba && v.b.cb.rcv.acks != []
  {
    hide WorldInv;
    hide BothSettled;
    hide RunWorld;
    hide Held;
    var k :| 0 <= k < |w.a.cb.snd.buf| && w.a.cb.snd.buf[k].sn == w.b.cb.rcv.nxt;
    acts, v := Resend(w, k);
    HeldMovesOn(w, v);
  }

  // ----- what a flush says -----

  /** Something to say to the peer whether or not there is data. */
  predicate Talks(cb: Cb) {
    cb.rcv.acks != [] || cb.ctl.askTell
  }

  lemma TalkerSpeaks(cb: Cb)
    requires cb.ctl.updated && Talks(cb)
    ensures Flush(Unbounded, cb).packets != []
  {
    hide FillWindow;
    hide Transmit;
    hide AfterFlush;
    assert ProbeTimer(cb.ctl).askTell == cb.ctl.askTell;
    hide ProbeTimer;
  }

  /** Every segment tells the same window and the same next number. */
  lemma SaysWindow(cb: Cb)
    ensures forall p :: p in Flush(Unbounded, cb).packets ==>
              p.wnd == WndUnused(cb) % 65536 && p.una == cb.rcv.nxt
  {
    hide FillWindow;
    hide AfterFlush;
    hide ProbeTimer;
    hide Stamp;
    hide Due;
    if cb.ctl.updated {
      var ctl, wnd, snd := ProbeTimer(cb.ctl), WndUnused(cb) % 65536, Filled(Unbounded, cb);
      var t := Transmit(cb.cfg, ctl, wnd, cb.rcv.nxt, snd.buf);
      forall p | p in t.packets ensures p.wnd == wnd && p.una == cb.rcv.nxt {
        TransmitExact(cb.cfg, ctl, wnd, cb.rcv.nxt, snd.buf, p);
      }
      hide Transmit;
      assert Flush(Unbounded, cb).packets == AckPackets(cb.rcv, wnd) + ProbePackets(ctl, cb.rcv, wnd) + t.packets;
    }
  }

  /** A datagram just put out holds segments of the flush only, and at least one. */
  lemma NewDatagram(w: World<seq<Packet>>, d: nat)
    requires WorldInv(w) && |w.ab| <= d < |StepA(w, DoFlush).ab|
    ensures var g := StepA(w, DoFlush).ab[d];
            g != [] && forall p :: p in g ==> p in Flush(Unbounded, w.a.cb).packets
  {
    EndsKept(w);
    FlushedPackets(Unbounded, w.a.cb);
    hide WorldInv;
    hide EndpointInv;
    hide Flush;
    hide Pack;
    hide Concat;
    hide Encodable;
    var ps := Flush(Unbounded, w.a.cb).packets;
    PackExact(w.a.cb.cfg.mtu, ps);
    assert StepA(w, DoFlush).ab[d] in Pack(w.a.cb.cfg.mtu, ps);
  }

  // ----- what is heard -----

  lemma {:induction false} WindowHeard(cb: Cb, ps: seq<Packet>, wnd: nat)
    requires forall i :: 0 <= i < |ps| ==> ps[i].wnd == wnd
    ensures ps != [] || cb.ctl.rmtWnd == wnd ==> OnPackets(Unbounded, cb, ps).ctl.rmtWnd == wnd
    decreases |ps|
  {
    if ps != [] {
      PacketWindow(cb, ps[0]);
      hide OnPacket;
      WindowHeard(OnPacket(Unbounded, cb, ps[0]), ps[1..], wnd);
    }
  }

  lemma PacketWindow(cb: Cb, p: Packet)
    ensures OnPacket(Unbounded, cb, p).ctl.rmtWnd == p.wnd
    ensures p.cmd == CMD_WASK || cb.ctl.askTell ==> OnPacket(Unbounded, cb, p).ctl.askTell
  {
    hide ParseUna;
    hide ParseAck;
    hide ParsePush;
  }

  lemma {:induction false} QuestionHeard(cb: Cb, ps: seq<Packet>)
    ensures cb.ctl.askTell || (exists i :: 0 <= i < |ps| && ps[i].cmd == CMD_WASK) ==>
              OnPackets(Unbounded, cb, ps).ctl.askTell
    decreases |ps|
  {
    if ps != [] {
      PacketWindow(cb, ps[0]);
      hide OnPacket;
      QuestionHeard(OnPacket(Unbounded, cb, ps[0]), ps[1..]);
      if i :| 0 <= i < |ps| && ps[i].cmd == CMD_WASK {
        assert i > 0 ==> ps[1..][i - 1].cmd == CMD_WASK;
      }
    }
  }

  lemma FinishHeard(cb: Cb, prevUna: nat, x: MaxAck)
    ensures var r := Finish(Unbounded, cb, prevUna, x);
            r.ctl.rmtWnd == cb.ctl.rmtWnd && r.ctl.askTell == cb.ctl.askTell
  {
    hide ParseFastack;
  }

  lemma ReadBelow(w: World<seq<Packet>>, d: nat, una: nat)
    requires WorldInv(w) && d < |w.ba| && w.ba[d] != [] && forall p :: p in w.ba[d] ==> p.una == una
    ensures forall sn: nat :: sn < una ==> !InBuf(OnPackets(Unbounded, w.a.cb, w.ba[d]).snd, sn)
  {
    var ps := w.ba[d];
    InNetwork(w, d);
    assert ps[0].una == una;
    hide WorldInv;
    hide FragsOf;
    hide OnPacket;
    hide OnPackets;
    hide InBuf;
    hide Held;
    hide HoldsMore;
    OnPacketEffect(w, ps[0]);
    PacketStep(w, ps[0]);
    var u := w.(a := w.a.(cb := OnPacket(Unbounded, w.a.cb, ps[0])));
    OnPacketsEffect(u, ps[1..]);
    FirstPacket(w.a.cb, ps);
  }

  /** Whatever is below a number told has been released. */
  lemma ReleasedBelow(w: World<seq<Packet>>, d: nat, una: nat)
    requires WorldInv(w) && d < |w.ba| && w.ba[d] != [] && forall p :: p in w.ba[d] ==> p.una == una
    ensures forall sn: nat :: sn < una ==> !InBuf(StepA(w, Deliver(d)).a.cb.snd, sn)
  {
    hide WorldInv;
    hide OnPackets;
    hide Finish;
    hide NoteAcks;
    hide InBuf;
    ReadBelow(w, d, una);
    var ps := w.ba[d];
    forall sn: nat | sn < una ensures !InBuf(StepA(w, Deliver(d)).a.cb.snd, sn) {
      FinishInBuf(OnPackets(Unbounded, w.a.cb, ps), w.a.cb.snd.una, NoteAcks(Unbounded, NoAck, ps), sn);
    }
  }

  lemma FirstPacket(cb: Cb, ps: seq<Packet>)
    requires ps != []
    ensures OnPackets(Unbounded, cb, ps) == OnPackets(Unbounded, OnPacket(Unbounded, cb, ps[0]), ps[1..])
  {
    hide OnPacket;
  }

  lemma FinishInBuf(cb: Cb, prevUna: nat, x: MaxAck, sn: nat)
    ensures InBuf(Finish(Unbounded, cb, prevUna, x).snd, sn) ==> InBuf(cb.snd, sn)
  {
    var r := Finish(Unbounded, cb, prevUna, x);
    if x.MaxAck? {
      BumpSame(Unbounded, cb.snd.buf, x.sn);
    }
    hide BumpFastack;
    if k :| 0 <= k < |r.snd.buf| && r.snd.buf[k].sn == sn {
      assert cb.snd.buf[k].sn == sn;
    }
  }

  lemma Spoken(w: World<seq<Packet>>) returns (d: nat)
    requires WorldInv(w) && w.a.cb.ctl.updated && Talks(w.a.cb)
    ensures var g := StepA(w, DoFlush).ab;
            && |w.ab| <= d < |g| && g[d] != []
            && forall p :: p in g[d] ==> p.wnd == WndUnused(w.a.cb) % 65536 && p.una == w.a.cb.rcv.nxt
  {
    hide WorldInv;
    hide Flush;
    hide Pack;
    TalkerSpeaks(w.a.cb);
    SaysWindow(w.a.cb);
    d := Flushes(w, Flush(Unbounded, w.a.cb).packets[0]);
    NewDatagram(w, d);
  }

  lemma Listened(w: World<seq<Packet>>, d: nat, wnd: nat, una: nat)
    requires WorldInv(w) && d < |w.ba| && w.ba[d] != []
    requires forall p :: p in w.ba[d] ==> p.wnd == wnd && p.una == una
    ensures var v := Step(w, Action(false, Deliver(d)));
            v.a.cb.ctl.rmtWnd == wnd && forall sn: nat :: sn < una ==> !InBuf(v.a.cb.snd, sn)
  {
    hide WorldInv;
    hide OnPackets;
    hide NoteAcks;
    hide Finish;
    hide InBuf;
    ReleasedBelow(w, d, una);
    WindowHeard(w.a.cb, w.ba[d], wnd);
    FinishHeard(OnPackets(Unbounded, w.a.cb, w.ba[d]), w.a.cb.snd.una, NoteAcks(Unbounded, NoAck, w.ba[d]));
  }

  lemma CurrentFits(w: World<seq<Packet>>)
    requires WorldInv(w)
    ensures w.a.cb.ctl.current < TWO32 && w.b.cb.ctl.current < TWO32
  {
  }

  /** The other end tells its window and its next number. */
  lemma Hear(w: World<seq<Packet>>) returns (acts: seq<Action>, v: World<seq<Packet>>)
    requires Sane(w) && Talks(w.b.cb)
    ensures Leads(w, acts, v)
    ensures v.a.cb.ctl.rmtWnd == WndUnused(w.b.cb) % 65536
    ensures forall sn: nat :: sn < w.b.cb.rcv.nxt ==> !InBuf(v.a.cb.snd, sn)
    ensures v.b.got == w.b.got && w.ba <= v.ba && v.ba != [] && v.a.cb.snd.nxt == w.a.cb.snd.nxt
    ensures v.b.cb.rcv == w.b.cb.rcv.(acks := v.b.cb.rcv.acks)
    ensures forall i, p :: |w.ba| <= i < |v.ba| && p in v.ba[i] ==> p.wnd == WndUnused(w.b.cb) % 65536
  {
    hide WorldInv;
    hide BothSettled;
    hide RunWorld;
    hide Step;
    hide StepA;
    hide InBuf;
    CurrentFits(w);
    FlipSane(w);
    var x := Flip(w);
    SameTime(x.a.cb.ctl.current);
    var there, now := FlushHere(x, x.a.cb.ctl.current);
    var c := Clocked(x, now);
    ClockedSane(x, now);
    TickIs(x.a.cb.cfg, x.a.cb.ctl, now);
    hide Tick;
    var d := Spoken(c);
    StepHere(c, DoFlush);
    var u := Flip(Step(c, Action(false, DoFlush)));
    SwapLeads(w, there, Flip(u));
    AllSaid(c);
    Listened(u, d, WndUnused(w.b.cb) % 65536, w.b.cb.rcv.nxt);
    LeadsOne(u, Action(false, Deliver(d)));
    v := Step(u, Action(false, Deliver(d)));
    StepHere(u, Deliver(d));
    DeliverFrame(u, d);
    LeadsOn(w, Swap(there), u, [Action(false, Deliver(d))], v);
    acts := Swap(there) + [Action(false, Deliver(d))];
  }

  lemma DeliverFrame(w: World<seq<Packet>>, d: nat)
    ensures var v := StepA(w, Deliver(d));
            v.b == w.b && v.ba == w.ba && v.a.cb.snd.nxt == w.a.cb.snd.nxt
  {
    hide OnPackets;
    hide Finish;
    hide NoteAcks;
    if d < |w.ba| {
      OnPacketsOnward(w.a.cb, w.ba[d]);
      FinishOnward(OnPackets(Unbounded, w.a.cb, w.ba[d]), w.a.cb.snd.una, NoteAcks(Unbounded, NoAck, w.ba[d]));
    }
  }

  lemma FlushReceives(cb: Cb)
    ensures var r := Flush(Unbounded, cb).cb;
            r.cfg == cb.cfg && r.rcv == cb.rcv.(acks := r.rcv.acks)
  {
    hide FillWindow;
    hide Transmit;
    hide ProbeTimer;
    hide AfterFlush;
  }

  /** A flush adds datagrams that all tell the window, and gives out no message. */
  lemma AllSaid(w: World<seq<Packet>>)
    requires WorldInv(w)
    ensures var v := StepA(w, DoFlush);
            && w.ab <= v.ab && v.a.got == w.a.got && v.b == w.b && v.ba == w.ba
            && v.a.cb.rcv == w.a.cb.rcv.(acks := v.a.cb.rcv.acks)
            && (forall i :: |w.ab| <= i < |v.ab| ==> v.ab[i] != [])
            && forall i, p :: |w.ab| <= i < |v.ab| && p in v.ab[i] ==>
                 p.wnd == WndUnused(w.a.cb) % 65536 && p.una == w.a.cb.rcv.nxt
  {
    hide WorldInv;
    hide Flush;
    hide Pack;
    SaysWindow(w.a.cb);
    FlushReceives(w.a.cb);
    var v := StepA(w, DoFlush);
    forall i | |w.ab| <= i < |v.ab|
      ensures v.ab[i] != []
      ensures forall p :: p in v.ab[i] ==> p.wnd == WndUnused(w.a.cb) % 65536 && p.una == w.a.cb.rcv.nxt
    {
      NewDatagram(w, i);
    }
  }

  lemma StepHere(w: World<seq<Packet>>, ev: Event)
    ensures Step(w, Action(false, ev)) == StepA(w, ev)
  {
  }

  // ----- a closed window is asked about -----

  lemma AfterFlushKeeps(cfg: Config, ctl: Control, t: Transmission, inflight: nat, wnd: nat)
    ensures var c := AfterFlush(cfg, ctl, t, inflight, wnd);
            c == ctl.(cwnd := c.cwnd, incr := c.incr, ssthresh := c.ssthresh, dead := c.dead)
  {
    hide Resent;
    hide Max;
    hide Config.Mss;
    hide Times;
  }

  lemma AfterFlushOpens(cfg: Config, ctl: Control, t: Transmission, inflight: nat, wnd: nat)
    ensures AfterFlush(cfg, ctl, t, inflight, wnd).cwnd >= 1
  {
    hide Resent;
    hide Max;
    hide Config.Mss;
    hide Times;
  }

  /** What a flush does to the clock, window and probe state. */
  lemma FlushKeepsControl(cb: Cb)
    ensures var c := Flush(Unbounded, cb).cb.ctl;
            && c.rmtWnd == cb.ctl.rmtWnd && c.updated == cb.ctl.updated && c.current == cb.ctl.current
            && (cb.ctl.updated ==>
                  && c.cwnd >= 1
                  && c.probeWait == ProbeTimer(cb.ctl).probeWait && c.tsProbe == ProbeTimer(cb.ctl).tsProbe)
  {
    var ctl := ProbeTimer(cb.ctl);
    assert ctl.rmtWnd == cb.ctl.rmtWnd && ctl.updated == cb.ctl.updated && ctl.current == cb.ctl.current;
    hide ProbeTimer;
    hide FillWindow;
    hide Transmit;
    var snd := Filled(Unbounded, cb);
    var t := Transmit(cb.cfg, ctl, WndUnused(cb) % 65536, cb.rcv.nxt, snd.buf);
    var inflight := Max(0, Diff(Unbounded, snd.nxt, snd.una));
    AfterFlushKeeps(cb.cfg, ctl.(askSend := false, askTell := false), t, inflight, EffectiveWindow(cb.cfg, ctl));
    AfterFlushOpens(cb.cfg, ctl.(askSend := false, askTell := false), t, inflight, EffectiveWindow(cb.cfg, ctl));
    hide AfterFlush;
  }

  lemma ClosedWaits(ctl: Control)
    requires ctl.rmtWnd == 0
    ensures ProbeTimer(ctl).probeWait != 0
  {
  }

  /** When the time to ask has come, the question is among the packets. */
  lemma Asks(cb: Cb) returns (p: Packet)
    requires cb.ctl.updated && cb.ctl.rmtWnd == 0 && cb.ctl.probeWait != 0
    requires TimeDiff(cb.ctl.current, cb.ctl.tsProbe) >= 0
    ensures p in Flush(Unbounded, cb).packets && p.cmd == CMD_WASK
  {
    assert ProbeTimer(cb.ctl).askSend;
    hide ProbeTimer;
    hide FillWindow;
    hide Transmit;
    hide AfterFlush;
    p := ProbePackets(ProbeTimer(cb.ctl), cb.rcv, WndUnused(cb) % 65536)[0];
  }

  lemma QuestionArrives(w: World<seq<Packet>>, d: nat, p: Packet)
    requires d < |w.ab| && p in w.ab[d] && p.cmd == CMD_WASK
    ensures Step(w, Action(true, Deliver(d))).b.cb.ctl.askTell
  {
    hide OnPackets;
    hide NoteAcks;
    hide Finish;
    var ps := w.ab[d];
    var i :| 0 <= i < |ps| && ps[i] == p;
    QuestionHeard(w.b.cb, ps);
    FinishHeard(OnPackets(Unbounded, w.b.cb, ps), w.b.cb.snd.una, NoteAcks(Unbounded, NoAck, ps));
  }

  lemma AskAt(w: World<seq<Packet>>, flush: seq<Action>, at: nat)
    returns (acts: seq<Action>, v: World<seq<Packet>>)
    requires Sane(w) && w.a.cb.ctl.rmtWnd == 0 && w.a.cb.ctl.probeWait != 0
    requires at < TWO32 && TimeDiff(at, w.a.cb.ctl.tsProbe) >= 0
    requires Leads(w, flush, Step(Clocked(w, at), Action(false, DoFlush)))
    ensures Leads(w, acts, v) && Talks(v.b.cb) && v.b.got == w.b.got
  {
    hide WorldInv;
    hide BothSettled;
    hide Accepted;
    hide RunWorld;
    hide Step;
    hide StepA;
    hide TimeDiff;
    var c := Clocked(w, at);
    ClockedSane(w, at);
    TickIs(w.a.cb.cfg, w.a.cb.ctl, at);
    hide Tick;
    var p := Asks(c.a.cb);
    var d := Flushes(c, p);
    StepHere(c, DoFlush);
    var r := Step(c, Action(false, DoFlush));
    StepOnward(c, Action(false, DoFlush));
    QuestionArrives(r, d, p);
    GotSame(r, d);
    LeadsOne(r, Action(true, Deliver(d)));
    v := Step(r, Action(true, Deliver(d)));
    LeadsOn(w, flush, r, [Action(true, Deliver(d))], v);
    acts := flush + [Action(true, Deliver(d))];
  }

  lemma NotYet(ctl: Control)
    requires ctl.rmtWnd == 0 && ctl.probeWait != 0 && TimeDiff(ctl.current, ctl.tsProbe) < 0
    ensures ProbeTimer(ctl) == ctl
  {
  }

  /** A flush before the time to ask leaves that time alone. */
  lemma FlushEarly(w: World<seq<Packet>>, now: nat)
    requires w.a.cb.ctl.rmtWnd == 0 && w.a.cb.ctl.probeWait != 0 && TimeDiff(now, w.a.cb.ctl.tsProbe) < 0
    ensures var u := Step(Clocked(w, now), Action(false, DoFlush));
            && u.b == w.b && u.a.cb.ctl.rmtWnd == 0 && u.a.cb.ctl.probeWait != 0
            && u.a.cb.ctl.tsProbe == w.a.cb.ctl.tsProbe && u.a.cb.ctl.current == now
  {
    TickIs(w.a.cb.cfg, w.a.cb.ctl, now);
    hide Tick;
    hide Pack;
    FlushKeepsControl(Clocked(w, now).a.cb);
    NotYet(Clocked(w, now).a.cb.ctl);
    hide Flush;
  }

  /** A sender that was told a closed window asks about it: the other end will tell. */
  lemma AskWindow(w: World<seq<Packet>>) returns (acts: seq<Action>, v: World<seq<Packet>>)
    requires Sane(w) && w.a.cb.ctl.rmtWnd == 0
    ensures Leads(w, acts, v) && Talks(v.b.cb) && v.b.got == w.b.got
  {
    hide WorldInv;
    hide BothSettled;
    hide Accepted;
    hide RunWorld;
    hide Step;
    var first, u := TimerSet(w);
    CurrentFits(u);
    var cur, t := u.a.cb.ctl.current, u.a.cb.ctl.tsProbe;
    MomentAhead(cur, t);
    var second, at := FlushHere(u, Moment(cur, t));
    MomentComes(cur, t, at);
    var more;
    if TimeDiff(at, t) >= 0 {
      more, v := AskAt(u, second, at);
    } else {
      FlushEarly(u, at);
      var r := Step(Clocked(u, at), Action(false, DoFlush));
      more, v := AskLater(r);
      LeadsOn(u, second, r, more, v);
      more := second + more;
    }
    LeadsOn(w, first, u, more, v);
    acts := first + more;
  }

  /** A sender whose time to ask lies ahead asks when it has come. */
  lemma AskLater(w: World<seq<Packet>>) returns (acts: seq<Action>, v: World<seq<Packet>>)
    requires Sane(w) && w.a.cb.ctl.rmtWnd == 0 && w.a.cb.ctl.probeWait != 0
    requires -TWO31 < TimeDiff(w.a.cb.ctl.current, w.a.cb.ctl.tsProbe) < 0
    ensures Leads(w, acts, v) && Talks(v.b.cb) && v.b.got == w.b.got
  {
    hide WorldInv;
    hide BothSettled;
    hide Accepted;
    hide RunWorld;
    hide Step;
    CurrentFits(w);
    var cur, t := w.a.cb.ctl.current, w.a.cb.ctl.tsProbe;
    MomentAhead(cur, t);
    var flush, at := FlushHere(w, Moment(cur, t));
    MomentComes(cur, t, at);
    acts, v := AskAt(w, flush, at);
  }

  /** After a flush the time to ask is set. */
  lemma TimerSet(w: World<seq<Packet>>) returns (acts: seq<Action>, u: World<seq<Packet>>)
    requires Sane(w) && w.a.cb.ctl.rmtWnd == 0
    ensures Leads(w, acts, u) && u.b == w.b
    ensures u.a.cb.ctl.rmtWnd == 0 && u.a.cb.ctl.probeWait != 0
  {
    hide WorldInv;
    hide BothSettled;
    hide RunWorld;
    hide Flush;
    hide Pack;
    CurrentFits(w);
    SameTime(w.a.cb.ctl.current);
    var now;
    acts, now := FlushHere(w, w.a.cb.ctl.current);
    var c := Clocked(w, now);
    TickIs(w.a.cb.cfg, w.a.cb.ctl, now);
    hide Tick;
    FlushKeepsControl(c.a.cb);
    ClosedWaits(c.a.cb.ctl);
    u := Step(c, Action(false, DoFlush));
  }

  // ----- an open window gives out a number -----

  lemma FlushFills(cb: Cb)
    requires cb.ctl.updated && cb.snd.una == cb.snd.nxt && cb.snd.queue != []
    requires EffectiveWindow(cb.cfg, ProbeTimer(cb.ctl)) > 0
    ensures cb.snd.nxt < Flush(Unbounded, cb).cb.snd.nxt
  {
    hide ProbeTimer;
    hide Transmit;
    hide AfterFlush;
    FillOnward(cb.snd, EffectiveWindow(cb.cfg, ProbeTimer(cb.ctl)), ProbeTimer(cb.ctl));
    hide FillWindow;
  }

  lemma OpenWindow(cfg: Config, ctl: Control)
    requires cfg.sndWnd > 0 && ctl.rmtWnd > 0 && ctl.cwnd > 0
    ensures EffectiveWindow(cfg, ProbeTimer(ctl)) > 0
  {
  }

  /** Nothing is outstanding, something is queued, and the peer's window is open. */
  predicate Idles(cb: Cb) {
    cb.snd.una == cb.snd.nxt && cb.snd.queue != [] && cb.ctl.rmtWnd > 0 && cb.cfg.sndWnd > 0
  }

  lemma SenderParts(w: World<seq<Packet>>)
    requires WorldInv(w)
    ensures w.a.cb.cfg.Mss() > 0 && SndInv(Unbounded, w.a.cb.snd, w.a.cb.cfg.sndWnd)
    ensures SenderTrue(w.a.cb.snd, FragsOf(w.a.cb.cfg, w.a.sent))
    ensures w.b.cb.rcv.nxt <= w.a.cb.snd.nxt <= |FragsOf(w.a.cb.cfg, w.a.sent)|
    ensures NothingLost(w.a.cb.snd, w.b.cb.rcv)
  {
    hide FragsOf;
    hide Forward;
    hide Backward;
  }

  /** A flush gives out a number, or opens the congestion window for the next one. */
  lemma FlushIdle(w: World<seq<Packet>>) returns (acts: seq<Action>, v: World<seq<Packet>>)
    requires Sane(w) && Idles(w.a.cb)
    ensures Leads(w, acts, v)
    ensures Reach(w) < Reach(v) || (Idles(v.a.cb) && v.a.cb.ctl.cwnd > 0)
    ensures w.a.cb.ctl.cwnd > 0 ==> Reach(w) < Reach(v)
    ensures v.b == w.b && v.ba == w.ba
  {
    hide WorldInv;
    hide BothSettled;
    hide RunWorld;
    hide Flush;
    hide Pack;
    CurrentFits(w);
    SenderParts(w);
    EndsKept(w);
    SameTime(w.a.cb.ctl.current);
    var now;
    acts, now := FlushHere(w, w.a.cb.ctl.current);
    var c := Clocked(w, now);
    TickIs(w.a.cb.cfg, w.a.cb.ctl, now);
    ClockedSane(w, now);
    hide Tick;
    v := Step(c, Action(false, DoFlush));
    EndsKept(c);
    FlushKeepsControl(c.a.cb);
    FlushKeeps(Unbounded, c.a.cb);
    SenderParts(v);
    hide EndpointInv;
    hide FragsOf;
    hide SndInv;
    hide NothingLost;
    if w.a.cb.ctl.cwnd > 0 {
      OpenWindow(c.a.cb.cfg, c.a.cb.ctl);
      FlushFills(c.a.cb);
    }
  }

  lemma WindowOpens(w: World<seq<Packet>>) returns (acts: seq<Action>, v: World<seq<Packet>>)
    requires Sane(w) && Idles(w.a.cb)
    ensures Leads(w, acts, v) && Reach(w) < Reach(v) && v.b == w.b && v.ba == w.ba
  {
    hide WorldInv;
    hide BothSettled;
    hide RunWorld;
    acts, v := FlushIdle(w);
    if Reach(v) <= Reach(w) {
      var u := v;
      OnwardReach(w, u);
      var more;
      more, v := FlushIdle(u);
      LeadsOn(w, acts, u, more, v);
      acts := acts + more;
    }
  }
}
