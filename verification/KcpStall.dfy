/** Exactly when the transport can get stuck for good: for the receive windows whose low 16 bits are those of an
    incomplete message that can be outstanding at first. With that much in the queue the window is told as closed,
    and in every continuation no further message is given out. */
module KcpStall {
  import opened Words
  import opened KcpWire
  import opened KcpCore
  import opened KcpClock
  import opened KcpInvariants
  import opened KcpNetwork
  import opened KcpDelivery
  import opened KcpRefinement
  import opened KcpProgress
  import opened KcpRound
  import opened KcpChoice
  import opened KcpWindow
  import opened KcpLiveness

  ghost predicate ToldClosed(net: seq<seq<Packet>>) {
    forall i, p :: 0 <= i < |net| && p in net[i] ==> p.wnd == 0
  }

  /** The sender has nothing outstanding and was told a closed window; the receiver has no complete message, waits for
      nothing that was sent, and has never told anything but a closed window. */
  ghost predicate Stalled(w: World<seq<Packet>>) {
    && WorldInv(w) && ToldClosed(w.ba) && WndUnused(w.b.cb) % 65536 == 0
    && w.a.cb.ctl.rmtWnd == 0 && w.a.cb.snd.buf == [] && w.a.cb.snd.nxt == w.b.cb.rcv.nxt
    && PeekSize(w.b.cb.rcv.queue) < 0 && w.b.cb.rcv.buf == []
  }

  // ----- the sender -----

  /** What stays the same at the sender. */
  ghost predicate SenderStays(p: Peer, q: Peer) {
    q.cb.ctl.rmtWnd == 0 && q.cb.snd.buf == [] && q.cb.snd.nxt == p.cb.snd.nxt && q.cb.cfg == p.cb.cfg
  }

  lemma FlushClosed(cb: Cb)
    requires cb.ctl.rmtWnd == 0 && cb.snd.buf == [] && cb.snd.una == cb.snd.nxt
    ensures var r := Flush(Unbounded, cb).cb;
            r.ctl.rmtWnd == 0 && r.snd.buf == [] && r.snd.nxt == cb.snd.nxt && r.cfg == cb.cfg
  {
    if cb.ctl.updated {
      FlushKeepsControl(cb);
      assert ProbeTimer(cb.ctl).rmtWnd == 0;
      hide ProbeTimer;
      hide AfterFlush;
    }
  }

  lemma SenderWaits(w: World<seq<Packet>>, ev: Event)
    requires Stalled(w)
    ensures SenderStays(w.a, StepA(w, ev).a) && StepA(w, ev).b == w.b && StepA(w, ev).ba == w.ba
  {
    SenderParts(w);
    hide WorldInv;
    hide FragsOf;
    hide SenderTrue;
    hide NothingLost;
    hide MoveReady;
    hide Flush;
    hide Pack;
    hide OnPackets;
    hide Finish;
    hide NoteAcks;
    hide FragCount;
    hide Fragments;
    hide MergeCount;
    hide PeekSize;
    match ev
    case DoFlush => FlushClosed(w.a.cb);
    case DoUpdate(now) =>
      TickIs(w.a.cb.cfg, w.a.cb.ctl, now);
      FlushClosed(w.a.cb.(ctl := Tick(w.a.cb.cfg, w.a.cb.ctl, now).0));
    case Deliver(i) =>
      if i < |w.ba| {
        var ps, x := w.ba[i], NoteAcks(Unbounded, NoAck, w.ba[i]);
        var mid := OnPackets(Unbounded, w.a.cb, ps);
        StaysEmpty(w.a.cb, ps);
        WindowHeard(w.a.cb, ps, 0);
        OnPacketsOnward(w.a.cb, ps);
        FinishEmpty(mid, w.a.cb.snd.una, x);
        FinishHeard(mid, w.a.cb.snd.una, x);
        FinishOnward(mid, w.a.cb.snd.una, x);
      }
    case _ =>
  }

  // ----- the receiver, seen from its own side -----

  ghost predicate ReceiverStays(p: Peer, q: Peer) {
    && q.cb.rcv.queue == p.cb.rcv.queue && q.cb.rcv.buf == [] && q.cb.rcv.nxt == p.cb.rcv.nxt
    && q.got == p.got && q.cb.cfg == p.cb.cfg
  }

  lemma {:induction false} OldIgnored(cb: Cb, ps: seq<Packet>)
    requires forall i :: 0 <= i < |ps| && ps[i].cmd == CMD_PUSH ==> ps[i].sn < cb.rcv.nxt
    ensures var r := OnPackets(Unbounded, cb, ps);
            r.rcv.queue == cb.rcv.queue && r.rcv.buf == cb.rcv.buf && r.rcv.nxt == cb.rcv.nxt && r.cfg == cb.cfg
    decreases |ps|
  {
    if ps != [] {
      hide ParseUna;
      hide ParseAck;
      hide UpdateRtt;
      hide ParseData;
      OldIgnored(OnPacket(Unbounded, cb, ps[0]), ps[1..]);
    }
  }

  lemma MoreClosed(net: seq<seq<Packet>>, more: seq<seq<Packet>>)
    requires ToldClosed(net) && net <= more
    requires forall i, p :: |net| <= i < |more| && p in more[i] ==> p.wnd == 0
    ensures ToldClosed(more)
  {
    forall i, p | 0 <= i < |more| && p in more[i] ensures p.wnd == 0 {
      assert i < |net| ==> more[i] == net[i];
    }
  }

  lemma FlushTells(w: World<seq<Packet>>)
    requires WorldInv(w) && ToldClosed(w.ab) && WndUnused(w.a.cb) % 65536 == 0 && w.a.cb.rcv.buf == []
    ensures var v := StepA(w, DoFlush);
            ReceiverStays(w.a, v.a) && ToldClosed(v.ab) && v.b == w.b && v.ba == w.ba
  {
    hide WorldInv;
    hide ToldClosed;
    hide Pack;
    hide Flush;
    AllSaid(w);
    FlushReceives(w.a.cb);
    MoreClosed(w.ab, StepA(w, DoFlush).ab);
  }

  lemma ReceiverWaits(w: World<seq<Packet>>, ev: Event)
    requires Stalled(Flip(w)) && Legal(Action(false, ev))
    ensures var v := StepA(w, ev);
            ReceiverStays(w.a, v.a) && ToldClosed(v.ab) && v.b == w.b && v.ba == w.ba
  {
    FlipInv(Flip(w));
    hide WorldInv;
    hide ToldClosed;
    hide PeekSize;
    match ev
    case DoSend(msg) =>
      hide FragCount;
      hide Fragments;
    case DoRecv(len) =>
      hide MoveReady;
      hide MergeData;
    case DoFlush => FlushTells(w);
    case DoUpdate(now) => UpdateTells(w, now);
    case Deliver(i) =>
      if i < |w.ba| {
        ArrivesOld(w, i);
      }
  }

  lemma UpdateTells(w: World<seq<Packet>>, now: nat)
    requires WorldInv(w) && ToldClosed(w.ab) && WndUnused(w.a.cb) % 65536 == 0 && now < TWO32
    requires w.a.cb.rcv.buf == []
    ensures var v := StepA(w, DoUpdate(now));
            ReceiverStays(w.a, v.a) && ToldClosed(v.ab) && v.b == w.b && v.ba == w.ba
  {
    hide WorldInv;
    hide ToldClosed;
    hide StepA;
    TickIs(w.a.cb.cfg, w.a.cb.ctl, now);
    hide Tick;
    ControlFrame(w, Tick(w.a.cb.cfg, w.a.cb.ctl, now).0);
    UpdateIs(w, now);
    FlushTells(Clocked(w, now));
  }

  lemma ArrivesOld(w: World<seq<Packet>>, i: nat)
    requires WorldInv(w) && i < |w.ba| && w.b.cb.snd.nxt == w.a.cb.rcv.nxt
    requires w.a.cb.rcv.buf == []
    ensures ReceiverStays(w.a, StepA(w, Deliver(i)).a)
  {
    InNetwork(w, i);
    hide WorldInv;
    hide FragsOf;
    hide OnPackets;
    hide Finish;
    hide NoteAcks;
    var ps, x := w.ba[i], NoteAcks(Unbounded, NoAck, w.ba[i]);
    OldIgnored(w.a.cb, ps);
    FinishOnward(OnPackets(Unbounded, w.a.cb, ps), w.a.cb.snd.una, x);
  }

  // ----- for ever -----

  lemma StallStays(w: World<seq<Packet>>, act: Action)
    requires Stalled(w) && Legal(act)
    ensures Stalled(Step(w, act)) && Step(w, act).b.got == w.b.got
  {
    hide WorldInv;
    hide StepA;
    hide ToldClosed;
    hide PeekSize;
    StepKeeps(w, act);
    if act.atB {
      ReceiverWaits(Flip(w), act.ev);
      SenderSame(Flip(w), act.ev);
    } else {
      SenderWaits(w, act.ev);
    }
  }

  lemma SenderSame(w: World<seq<Packet>>, ev: Event)
    ensures StepA(w, ev).b == w.b
  {
    hide InputPackets;
    hide Flush;
    hide Recv;
    hide Send;
  }

  lemma {:induction false} StallsForever(w: World<seq<Packet>>, acts: seq<Action>)
    requires Stalled(w) && forall i :: 0 <= i < |acts| ==> Legal(acts[i])
    ensures Stalled(RunWorld(w, acts)) && RunWorld(w, acts).b.got == w.b.got
  {
    hide Stalled;
    hide Step;
    if acts != [] {
      StallsForever(w, acts[..|acts| - 1]);
      StallStays(RunWorld(w, acts[..|acts| - 1]), acts[|acts| - 1]);
    }
  }

  // ----- what is sent: as many single fragments as leave room for a part of one message -----

  function Fill(n: nat, x: Byte): seq<Message> {
    seq(n, _ => [x])
  }

  /** A message of `r + 1` fragments. */
  function Long(mss: nat, r: nat, x: Byte): Message {
    seq(r * mss + 1, _ => x)
  }

  lemma CountIs(mss: nat, len: nat, n: nat)
    requires mss > 0 && n > 0 && (n - 1) * mss < len <= n * mss
    ensures FragCount(mss, len) == n
  {
    var m := FragCount(mss, len);
    if m < n {
      MulMonotone(mss, m, n - 1);
    } else if n < m {
      MulMonotone(mss, n, m - 1);
    }
  }

  lemma LongCount(mss: nat, r: nat, x: Byte)
    requires mss > 0
    ensures |Long(mss, r, x)| == r * mss + 1 && FragCount(mss, r * mss + 1) == r + 1
  {
    assert (r + 1) * mss == r * mss + mss;
    CountIs(mss, r * mss + 1, r + 1);
  }

  lemma {:induction false} FillFragments(cfg: Config, n: nat, x: Byte)
    requires cfg.Mss() > 0
    ensures |FragsOf(cfg, Fill(n, x))| == n
  {
    if n > 0 {
      FillFragments(cfg, n - 1, x);
      assert Fill(n, x)[..n - 1] == Fill(n - 1, x);
      CountIs(cfg.Mss(), 1, 1);
    }
  }

  /** Just more than can be outstanding at first, ending in a message of `r + 1` fragments. */
  function Load(cfg: Config, r: nat, x: Byte): seq<Message>
    requires r <= FirstWindow(cfg)
  {
    Fill(FirstWindow(cfg) - r, x) + [Long(cfg.Mss(), r, x)]
  }

  lemma LoadFragments(cfg: Config, r: nat, x: Byte)
    requires cfg.Mss() > 0 && r < MAX_FRAGMENTS - 1 && r <= FirstWindow(cfg)
    ensures |FragsOf(cfg, Load(cfg, r, x))| == FirstWindow(cfg) + 1
    ensures forall i :: 0 <= i < |Load(cfg, r, x)| ==> Acceptable(cfg, |Load(cfg, r, x)[i]|)
  {
    var n := FirstWindow(cfg) - r;
    FillFragments(cfg, n, x);
    LongCount(cfg.Mss(), r, x);
    CountIs(cfg.Mss(), 1, 1);
    assert Load(cfg, r, x)[..n] == Fill(n, x);
  }

  function Sends(msgs: seq<Message>): (r: seq<Action>)
    ensures |r| == |msgs|
  {
    seq(|msgs|, i requires 0 <= i < |msgs| => Action(false, DoSend(msgs[i])))
  }

  /** Messages sent on a new connection, before anything else. */
  lemma {:induction false} SentAll(ca: Config, cb: Config, msgs: seq<Message>)
    requires ca.Mss() > 0 && forall i :: 0 <= i < |msgs| ==> Acceptable(ca, |msgs[i]|)
    ensures var w := RunWorld(Start(ca, cb), Sends(msgs));
            && w.a.sent == msgs && w.a.cb.cfg == ca && w.a.cb.ctl == NEW_CONTROL && w.b == Peer(Create(cb), [], [])
            && w.a.cb.snd.nxt == 0 && w.a.cb.snd.una == 0 && w.a.cb.snd.buf == [] && w.ba == []
    decreases |msgs|
  {
    if msgs != [] {
      var n := |msgs| - 1;
      SentAll(ca, cb, msgs[..n]);
      assert Sends(msgs)[..n] == Sends(msgs[..n]);
      assert msgs[n][..|msgs[n]|] == msgs[n];
      assert msgs[..n] + [msgs[n]] == msgs;
      hide FragCount;
      hide Fragments;
    }
  }

  lemma {:induction false} SendsCount(cfg: Config, msgs: seq<Message>)
    requires cfg.Mss() > 0
    ensures Segments(cfg, false, Sends(msgs)) == |FragsOf(cfg, msgs)| && Segments(cfg, true, Sends(msgs)) == 0
    decreases |msgs|
  {
    if msgs != [] {
      SendsCount(cfg, msgs[..|msgs| - 1]);
      assert Sends(msgs)[..|msgs| - 1] == Sends(msgs[..|msgs| - 1]);
      hide FragCount;
      hide Fragments;
    }
  }

  // ----- the first window arrives -----

  lemma RunUnheardLeads(w: World<seq<Packet>>, acts: seq<Action>, v: World<seq<Packet>>)
    requires Leads(w, acts, v) && Unheard(w)
    ensures Unheard(v)
  {
    hide RunWorld;
    hide Unheard;
    RunUnheard(w, acts);
  }

  /** A flush without congestion control fills the first window. */
  lemma FlushesWindow(cb: Cb)
    requires Untouched(cb) && cb.ctl.updated && cb.cfg.nocwnd
    ensures var s := Flush(Unbounded, cb).cb.snd; s.queue == [] || s.nxt >= FirstWindow(cb.cfg)
  {
    FirstEffective(cb.cfg, cb.ctl);
    hide ProbeTimer;
    FillComplete(Unbounded, cb.snd, EffectiveWindow(cb.cfg, ProbeTimer(cb.ctl)), ProbeTimer(cb.ctl));
    hide FillWindow;
    hide Transmit;
    hide AfterFlush;
    hide FirstWindow;
    hide EffectiveWindow;
  }

  /** Everything is numbered that can be outstanding at first. */
  lemma WindowFills(w: World<seq<Packet>>) returns (acts: seq<Action>, v: World<seq<Packet>>)
    requires Sane(w) && Unheard(w) && w.ba == [] && Idles(w.a.cb) && w.a.cb.cfg.Mss() > 0
    requires FirstWindow(w.a.cb.cfg) < |FragsOf(w.a.cb.cfg, w.a.sent)|
    ensures Leads(w, acts, v) && Unheard(v) && v.b == w.b && v.ba == []
    ensures v.a.cb.snd.nxt == FirstWindow(w.a.cb.cfg)
  {
    hide WorldInv;
    hide BothSettled;
    hide Accepted;
    hide RunWorld;
    hide FragsOf;
    hide Step;
    hide StepA;
    CurrentFits(w);
    if w.a.cb.cfg.nocwnd {
      SameTime(w.a.cb.ctl.current);
      var now;
      acts, now := FlushHere(w, w.a.cb.ctl.current);
      var c := Clocked(w, now);
      TickIs(w.a.cb.cfg, w.a.cb.ctl, now);
      hide Tick;
      v := Step(c, Action(false, DoFlush));
      FlushesWindow(c.a.cb);
      StepHere(c, DoFlush);
      FlushedSender(c);
    } else {
      acts, v := WindowOpens(w);
    }
    RunUnheardLeads(w, acts, v);
    SenderParts(v);
    hide SndInv;
    hide NothingLost;
    UnheardNumbers(v);
  }

  lemma FlushedSender(w: World<seq<Packet>>)
    ensures var v := StepA(w, DoFlush);
            v.a.cb.snd == Flush(Unbounded, w.a.cb).cb.snd && v.b == w.b && v.ba == w.ba
  {
    hide Flush;
    hide Pack;
  }

  /** What was numbered arrives, number by number, and nothing is told. */
  lemma {:induction false} WindowArrives(w: World<seq<Packet>>) returns (acts: seq<Action>, v: World<seq<Packet>>)
    requires Sane(w) && Unheard(w) && w.ba == [] && w.b.cb.rcv.acks != []
    requires w.a.cb.snd.nxt == FirstWindow(w.a.cb.cfg)
    ensures Leads(w, acts, v) && Unheard(v) && v.ba == [] && v.b.cb.rcv.acks != []
    ensures v.a.cb.snd.nxt == v.b.cb.rcv.nxt == FirstWindow(w.a.cb.cfg)
    decreases FirstWindow(w.a.cb.cfg) - w.b.cb.rcv.nxt
  {
    hide WorldInv;
    hide BothSettled;
    hide Accepted;
    hide RunWorld;
    hide FragsOf;
    hide Unheard;
    hide FirstWindow;
    SenderParts(w);
    hide SndInv;
    hide SenderTrue;
    hide NothingLost;
    if w.b.cb.rcv.nxt == w.a.cb.snd.nxt {
      LeadsNowhere(w);
      acts, v := [], w;
    } else {
      var u, more;
      acts, u := MakeRoom(w);
      if u.b.cb.rcv.nxt == w.b.cb.rcv.nxt {
        NextIsMissing(u.b.cb.rcv, u);
        var r;
        more, r := NextArrives(u);
        LeadsOn(w, acts, u, more, r);
        acts, u := acts + more, r;
      }
      RunUnheardLeads(w, acts, u);
      UnheardNumbers(u);
      SenderParts(u);
      more, v := WindowArrives(u);
      LeadsOn(w, acts, u, more, v);
      acts := acts + more;
    }
  }

  // ----- the window is told as closed -----

  /** How many fragments the first messages have. */
  lemma LoadFront(cfg: Config, r: nat, x: Byte, g: nat)
    requires cfg.Mss() > 0 && r < MAX_FRAGMENTS - 1 && r <= FirstWindow(cfg) && g <= FirstWindow(cfg) - r + 1
    ensures g < |Load(cfg, r, x)| ==> |FragsOf(cfg, Load(cfg, r, x)[..g])| == g && Load(cfg, r, x)[..g] == Fill(g, x)
    ensures g == |Load(cfg, r, x)| ==> |FragsOf(cfg, Load(cfg, r, x)[..g])| == FirstWindow(cfg) + 1
    ensures g + 1 < |Load(cfg, r, x)| ==> Load(cfg, r, x)[g] == [x]
  {
    LoadFragments(cfg, r, x);
    FillFragments(cfg, g, x);
    hide FragsOf;
    if g == |Load(cfg, r, x)| {
      assert Load(cfg, r, x)[..g] == Load(cfg, r, x);
    } else {
      assert Load(cfg, r, x)[..g] == Fill(g, x);
    }
  }

  /** With nothing complete left, all the single fragments were given out and `r` of the long message are queued. */
  lemma QueuedPart(w: World<seq<Packet>>, r: nat, x: Byte)
    requires Sane(w) && r < MAX_FRAGMENTS - 1 && r <= FirstWindow(w.a.cb.cfg) && w.a.sent == Load(w.a.cb.cfg, r, x)
    requires w.b.cb.rcv.nxt == FirstWindow(w.a.cb.cfg) && PeekSize(w.b.cb.rcv.queue) < 0
    ensures |w.b.cb.rcv.queue| == r && w.b.got == Fill(FirstWindow(w.a.cb.cfg) - r, x)
  {
    var cfg, q, g := w.a.cb.cfg, w.b.cb.rcv.queue, |w.b.got|;
    FlipInv(w);
    ReceiverParts(Flip(w));
    InOrderAt(Flip(w));
    GotPrefix(Flip(w));
    hide WorldInv;
    hide FragsOf;
    hide RcvInv;
    hide ReceiverTrue;
    LoadFront(cfg, r, x, g);
    PeekIsMerged(q);
    hide PeekSize;
    CountIs(cfg.Mss(), 1, 1);
    if q != [] {
      HeadFragment(w);
    }
    hide Fill;
    hide FragCount;
  }

  lemma BufferedBelowNext(rcv: Receiver, wnd: nat, log: seq<Frag>, n: nat)
    requires RcvInv(Unbounded, rcv, wnd) && ReceiverTrue(rcv, log, n)
    ensures rcv.buf != [] ==> rcv.nxt < n
  {
    if rcv.buf != [] {
      assert rcv.nxt <= rcv.buf[0].sn < n;
    }
  }

  lemma ClosedThen(cb: Cb, r: nat)
    requires cb.cfg.rcvWnd % 65536 == r == |cb.rcv.queue| && r < cb.cfg.rcvWnd
    ensures WndUnused(cb) % 65536 == 0
  {
    assert WndUnused(cb) == 65536 * (cb.cfg.rcvWnd / 65536);
  }

  /** The acknowledgement tells a closed window, and that is that. */
  lemma AckCloses(w: World<seq<Packet>>, r: nat) returns (acts: seq<Action>, v: World<seq<Packet>>)
    requires Sane(w) && w.ba == [] && w.b.cb.rcv.acks != [] && w.b.cb.rcv.nxt == w.a.cb.snd.nxt
    requires PeekSize(w.b.cb.rcv.queue) < 0 && Roomy(w)
    requires w.b.cb.cfg.rcvWnd % 65536 == r == |w.b.cb.rcv.queue|
    ensures Leads(w, acts, v) && Stalled(v) && v.b.got == w.b.got
  {
    hide WorldInv;
    hide BothSettled;
    hide Accepted;
    hide RunWorld;
    hide FragsOf;
    hide PeekSize;
    ClosedThen(w.b.cb, r);
    acts, v := Hear(w);
    SomeBelow(v);
    hide InBuf;
    FlipInv(v);
    ReceiverParts(Flip(v));
    BufferedBelowNext(v.b.cb.rcv, v.b.cb.cfg.rcvWnd, FragsOf(v.a.cb.cfg, v.a.sent), v.a.cb.snd.nxt);
  }

  // ----- all together -----

  predicate Lawful(acts: seq<Action>) {
    forall i :: 0 <= i < |acts| ==> Legal(acts[i])
  }

  lemma LawfulOn(x: seq<Action>, y: seq<Action>)
    ensures Lawful(x + y) <==> Lawful(x) && Lawful(y)
  {
    assert forall i :: 0 <= i < |x| ==> (x + y)[i] == x[i];
    assert forall i :: 0 <= i < |y| ==> (x + y)[|x| + i] == y[i];
  }

  /** The state after the messages were sent. */
  lemma Loaded(ca: Config, cb: Config, r: nat, x: Byte)
    requires Paired(ca, cb) && ca.sndWnd > 0 && r < MAX_FRAGMENTS - 1 && r <= FirstWindow(ca)
    ensures var w := RunWorld(Start(ca, cb), Sends(Load(ca, r, x)));
            && FewSegments(ca, cb, Sends(Load(ca, r, x)))
            && Sane(w) && Unheard(w) && w.ba == [] && Idles(w.a.cb) && w.a.sent == Load(ca, r, x)
            && w.a.cb.cfg == ca && w.b == Peer(Create(cb), [], [])
            && |FragsOf(ca, w.a.sent)| == FirstWindow(ca) + 1
  {
    var msgs := Load(ca, r, x);
    assert ca.Mss() > 0 && cb.Mss() > 0;
    LoadFragments(ca, r, x);
    SentAll(ca, cb, msgs);
    SendsCount(ca, msgs);
    SendsCount(cb, msgs);
    RunSane(ca, cb, Sends(msgs));
    hide FragsOf;
    hide RunWorld;
    hide Load;
    SenderParts(RunWorld(Start(ca, cb), Sends(msgs)));
    hide WorldInv;
  }

  /** The first window arrives, whatever is complete is given out, and nothing is told. */
  lemma FirstWindowArrives(w: World<seq<Packet>>) returns (acts: seq<Action>, v: World<seq<Packet>>)
    requires Sane(w) && Unheard(w) && w.ba == [] && Idles(w.a.cb) && w.a.cb.cfg.Mss() > 0
    requires FirstWindow(w.a.cb.cfg) < |FragsOf(w.a.cb.cfg, w.a.sent)|
    requires w.b.cb.rcv.queue == [] && w.b.cb.rcv.nxt == 0
    ensures Leads(w, acts, v) && v.ba == [] && v.b.cb.rcv.acks != [] && PeekSize(v.b.cb.rcv.queue) < 0 && Roomy(v)
    ensures v.b.cb.rcv.nxt == v.a.cb.snd.nxt == FirstWindow(w.a.cb.cfg)
  {
    hide WorldInv;
    hide BothSettled;
    hide Accepted;
    hide RunWorld;
    hide FragsOf;
    hide PeekSize;
    hide Unheard;
    var more, u;
    acts, u := WindowFills(w);
    WindowsGood(u);
    NextIsMissing(u.b.cb.rcv, u);
    more, v := NextArrives(u);
    LeadsOn(w, acts, u, more, v);
    acts, u := acts + more, v;
    RunUnheardLeads(w, acts, u);
    UnheardNumbers(u);
    hide FirstWindow;
    more, v := WindowArrives(u);
    LeadsOn(w, acts, u, more, v);
    acts, u := acts + more, v;
    more, v := MakeRoom(u);
    LeadsOn(w, acts, u, more, v);
    acts := acts + more;
    SenderParts(v);
  }

  lemma StallFrom(w: World<seq<Packet>>, r: nat, x: Byte) returns (acts: seq<Action>, v: World<seq<Packet>>)
    requires Sane(w) && Unheard(w) && w.ba == [] && Idles(w.a.cb) && w.a.cb.cfg.Mss() > 0
    requires FirstWindow(w.a.cb.cfg) < |FragsOf(w.a.cb.cfg, w.a.sent)|
    requires w.b.cb.rcv.queue == [] && w.b.cb.rcv.nxt == 0 && w.b.cb.cfg.rcvWnd % 65536 == r < MAX_FRAGMENTS - 1
    requires r <= FirstWindow(w.a.cb.cfg) && w.a.sent == Load(w.a.cb.cfg, r, x)
    ensures Quiet(acts) && RunWorld(w, acts) == v && Stalled(v) && v.a.sent == w.a.sent
    ensures v.b.got == Fill(FirstWindow(w.a.cb.cfg) - r, x)
  {
    hide WorldInv;
    hide BothSettled;
    hide Accepted;
    hide RunWorld;
    hide FragsOf;
    hide Load;
    hide Fill;
    hide PeekSize;
    hide Stalled;
    hide Unheard;
    hide FirstWindow;
    var first, u := FirstWindowArrives(w);
    QueuedPart(u, r, x);
    var second;
    second, v := AckCloses(u, r);
    LeadsOn(w, first, u, second, v);
    acts := first + second;
  }

  lemma StallReached(ca: Config, cb: Config, x: Byte) returns (acts: seq<Action>)
    requires Paired(ca, cb) && ca.sndWnd > 0 && Stallable(ca, cb)
    ensures FewSegments(ca, cb, acts)
    ensures var w, r := RunWorld(Start(ca, cb), acts), cb.rcvWnd % 65536;
            Stalled(w) && w.a.sent == Load(ca, r, x) && w.b.got == Fill(FirstWindow(ca) - r, x)
  {
    hide Sane;
    hide RunWorld;
    hide FragsOf;
    hide Load;
    hide Fill;
    hide Stalled;
    hide FewSegments;
    hide Unheard;
    hide FirstWindow;
    hide Idles;
    var r := cb.rcvWnd % 65536;
    var sends := Sends(Load(ca, r, x));
    MssGood(ca);
    Loaded(ca, cb, r, x);
    hide Paired;
    var rest, v := StallFrom(RunWorld(Start(ca, cb), sends), r, x);
    RunConcat(Start(ca, cb), sends, rest);
    FewSegmentsQuiet(ca, cb, sends, rest);
    acts := sends + rest;
  }

  lemma MssGood(cfg: Config)
    requires cfg.Good()
    ensures cfg.Mss() > 0
  {
  }

  lemma WindowsGood(w: World<seq<Packet>>)
    requires WorldInv(w)
    ensures MAX_FRAGMENTS <= w.b.cb.cfg.rcvWnd
  {
  }

  /** Where a stall is possible, for any byte: a run after which everything but the last message accepted has been
      given out, and the last one never will be, whatever happens next. */
  lemma WideWindowStalls(ca: Config, cb: Config, x: Byte) returns (acts: seq<Action>)
    requires Paired(ca, cb) && ca.sndWnd > 0 && Stallable(ca, cb)
    ensures FewSegments(ca, cb, acts) && RunWorld(Start(ca, cb), acts).a.sent == Load(ca, cb.rcvWnd % 65536, x)
    ensures forall more :: Lawful(more) ==>
              RunWorld(Start(ca, cb), acts + more).b.got == Fill(FirstWindow(ca) - cb.rcvWnd % 65536, x)
  {
    hide RunWorld;
    hide Stalled;
    hide Fill;
    hide Load;
    hide FewSegments;
    acts := StallReached(ca, cb, x);
    var got := Fill(FirstWindow(ca) - cb.rcvWnd % 65536, x);
    forall more | Lawful(more) ensures RunWorld(Start(ca, cb), acts + more).b.got == got {
      StallsForever(RunWorld(Start(ca, cb), acts), more);
      RunConcat(Start(ca, cb), acts, more);
    }
  }

  /** So does the program on bytes, for as long as few enough segments are sent. */
  lemma BytesStall(ca: Config, cb: Config, x: Byte) returns (acts: seq<Action>)
    requires Paired(ca, cb) && ca.sndWnd > 0 && Stallable(ca, cb)
    ensures FewSegments(ca, cb, acts) && ByteRun(Start(ca, cb), acts).a.sent == Load(ca, cb.rcvWnd % 65536, x)
    ensures forall more :: FewSegments(ca, cb, acts + more) ==>
              ByteRun(Start(ca, cb), acts + more).b.got == Fill(FirstWindow(ca) - cb.rcvWnd % 65536, x)
  {
    hide RunWorld;
    hide ByteRun;
    hide WorldInv;
    hide FragsOf;
    hide Fill;
    hide Load;
    acts := WideWindowStalls(ca, cb, x);
    Refined(ca, cb, acts);
    var got := Fill(FirstWindow(ca) - cb.rcvWnd % 65536, x);
    forall more | FewSegments(ca, cb, acts + more) ensures ByteRun(Start(ca, cb), acts + more).b.got == got {
      LawfulOn(acts, more);
      Refined(ca, cb, acts + more);
    }
  }

  /** Everything sent so far can still be given out by updates, arrivals and receives, no clock being set back. */
  ghost predicate CanFinish(ca: Config, cb: Config, acts: seq<Action>) {
    exists more :: Quiet(more) && Finishes(ca, cb, acts, more)
  }

  ghost predicate Finishes(ca: Config, cb: Config, acts: seq<Action>, more: seq<Action>) {
    && Forwards(RunWorld(Start(ca, cb), acts), more)
    && RunWorld(Start(ca, cb), acts + more).b.got == RunWorld(Start(ca, cb), acts).a.sent
  }

  /** Exactly when delivery always stays possible: for every two configurations that can talk to each other, from
      every reachable state everything sent can still be given out if and only if no stall is possible. */
  lemma NeverStuckExactly(ca: Config, cb: Config)
    requires Paired(ca, cb) && ca.sndWnd > 0
    ensures (forall acts :: Lawful(acts) ==> CanFinish(ca, cb, acts)) <==> !Stallable(ca, cb)
  {
    hide RunWorld;
    hide Forwards;
    hide Stallable;
    hide Fill;
    hide Load;
    if Stallable(ca, cb) {
      var acts := WideWindowStalls(ca, cb, 0);
      LoadIsMore(ca, cb);
      forall more | Quiet(more) ensures !Finishes(ca, cb, acts, more) {
      }
      assert Lawful(acts) && !CanFinish(ca, cb, acts);
    } else {
      forall acts | Lawful(acts) ensures CanFinish(ca, cb, acts) {
        var more := NeverStuck(ca, cb, acts);
        assert Finishes(ca, cb, acts, more);
      }
    }
  }

  lemma LoadIsMore(ca: Config, cb: Config)
    requires Stallable(ca, cb)
    ensures Load(ca, cb.rcvWnd % 65536, 0) != Fill(FirstWindow(ca) - cb.rcvWnd % 65536, 0)
  {
    var r := cb.rcvWnd % 65536;
    assert |Load(ca, r, 0)| == |Fill(FirstWindow(ca) - r, 0)| + 1;
  }
}
