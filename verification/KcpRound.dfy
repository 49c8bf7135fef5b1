/** One round without loss: endpoint `b` flushes, its datagrams arrive at `a`, and `a` receives. Then everything
    `b` has sent has been given out at `a`. */
module KcpRound {
  import opened Words
  import opened KcpWire
  import opened KcpCore
  import opened KcpInvariants
  import opened KcpNetwork
  import opened KcpDelivery
  import opened KcpRefinement
  import opened KcpProgress

  // ----- nothing ready is left waiting -----

  /** The next segment in order waits in the buffer only behind a full queue. */
  ghost predicate Settled(rcv: Receiver, wnd: nat) {
    rcv.buf != [] && rcv.buf[0].sn == rcv.nxt ==> |rcv.queue| >= wnd
  }

  lemma {:induction false} MoveSettles(rcv: Receiver, wnd: nat)
    ensures Settled(MoveReady(Unbounded, rcv, wnd), wnd)
    decreases |rcv.buf|
  {
    if rcv.buf != [] && rcv.buf[0].sn == rcv.nxt && |rcv.queue| < wnd {
      MoveSettles(rcv.(buf := rcv.buf[1..], queue := rcv.queue + [rcv.buf[0]], nxt := rcv.nxt + 1), wnd);
    }
  }

  lemma OnPacketSettles(cb: Cb, p: Packet)
    requires Settled(cb.rcv, cb.cfg.rcvWnd)
    ensures OnPacket(Unbounded, cb, p).cfg == cb.cfg && Settled(OnPacket(Unbounded, cb, p).rcv, cb.cfg.rcvWnd)
  {
    hide MoveReady;
    hide Insert;
    var seg := In(p.sn, Frag(p.frg, p.data));
    var acked := cb.rcv.(acks := cb.rcv.acks + [Ack(p.sn, p.ts)]);
    MoveSettles(acked.(buf := Insert(Unbounded, acked.buf, seg)), cb.cfg.rcvWnd);
  }

  lemma {:induction false} OnPacketsSettle(cb: Cb, ps: seq<Packet>)
    requires Settled(cb.rcv, cb.cfg.rcvWnd)
    ensures OnPackets(Unbounded, cb, ps).cfg == cb.cfg && Settled(OnPackets(Unbounded, cb, ps).rcv, cb.cfg.rcvWnd)
    decreases |ps|
  {
    hide OnPacket;
    hide Settled;
    if ps != [] {
      OnPacketSettles(cb, ps[0]);
      OnPacketsSettle(OnPacket(Unbounded, cb, ps[0]), ps[1..]);
    }
  }

  lemma StepASettles(w: World<seq<Packet>>, ev: Event)
    requires Settled(w.a.cb.rcv, w.a.cb.cfg.rcvWnd)
    ensures var v := StepA(w, ev);
            v.b == w.b && v.a.cb.cfg == w.a.cb.cfg && Settled(v.a.cb.rcv, v.a.cb.cfg.rcvWnd)
  {
    hide MoveReady;
    hide OnPackets;
    hide NoteAcks;
    hide Transmit;
    hide FillWindow;
    hide ProbeTimer;
    hide AfterFlush;
    hide Pack;
    match ev
    case DoRecv(len) =>
      var q := w.a.cb.rcv.queue;
      MoveSettles(w.a.cb.rcv.(queue := if len < 0 then q else q[MergeCount(q)..]), w.a.cb.cfg.rcvWnd);
    case Deliver(i) =>
      if i < |w.ba| {
        OnPacketsSettle(w.a.cb, w.ba[i]);
      }
    case _ =>
  }

  ghost predicate BothSettled(w: World<seq<Packet>>) {
    Settled(w.a.cb.rcv, w.a.cb.cfg.rcvWnd) && Settled(w.b.cb.rcv, w.b.cb.cfg.rcvWnd)
  }

  lemma StepSettles(w: World<seq<Packet>>, act: Action)
    requires BothSettled(w)
    ensures BothSettled(Step(w, act))
  {
    hide StepA;
    hide Settled;
    StepASettles(if act.atB then Flip(w) else w, act.ev);
  }

  /** In every run, at both ends. */
  lemma {:induction false} RunSettled(ca: Config, cb: Config, acts: seq<Action>)
    ensures BothSettled(RunWorld(Start(ca, cb), acts))
  {
    hide Step;
    if acts != [] {
      RunSettled(ca, cb, acts[..|acts| - 1]);
      StepSettles(RunWorld(Start(ca, cb), acts[..|acts| - 1]), acts[|acts| - 1]);
    }
  }

  // ----- arrival -----

  lemma RunLast(w: World<seq<Packet>>, acts: seq<Action>, act: Action)
    ensures RunWorld(w, acts + [act]) == Step(RunWorld(w, acts), act)
  {
    assert (acts + [act])[..|acts|] == acts;
  }

  lemma {:induction false} RunConcat(w: World<seq<Packet>>, x: seq<Action>, y: seq<Action>)
    ensures RunWorld(w, x + y) == RunWorld(RunWorld(w, x), y)
    decreases |y|
  {
    hide Step;
    if y == [] {
      assert x + y == x;
    } else {
      var init, last := y[..|y| - 1], y[|y| - 1];
      assert x + y == (x + init) + [last];
      RunConcat(w, x, init);
      RunLast(w, x + init, last);
    }
  }

  function Arrivals(from: nat, k: nat): seq<Action> {
    seq(k, (i: nat) => Action(false, Deliver(from + i)))
  }

  /** What deliveries at `a` leave alone, and that what `a` holds only grows. */
  ghost predicate Received(w: World<seq<Packet>>, v: World<seq<Packet>>) {
    && WorldInv(v) && BothSettled(v) && v.b == w.b && v.ba == w.ba
    && v.a.got == w.a.got && v.a.cb.cfg == w.a.cb.cfg && HoldsMore(w.a.cb.rcv, v.a.cb.rcv)
  }

  lemma ArrivalKeeps(w: World<seq<Packet>>, i: nat)
    requires WorldInv(w) && BothSettled(w) && i < |w.ba|
    ensures Received(w, StepA(w, Deliver(i)))
  {
    hide WorldInv;
    hide BothSettled;
    hide InputPackets;
    EventKeeps(w, Action(false, Deliver(i)));
    StepSettles(w, Action(false, Deliver(i)));
    ArrivalHolds(w, i);
  }

  lemma ArrivalHolds(w: World<seq<Packet>>, i: nat)
    requires WorldInv(w) && i < |w.ba|
    ensures var cb := InputPackets(Unbounded, w.a.cb, w.ba[i]);
            cb.cfg == w.a.cb.cfg && HoldsMore(w.a.cb.rcv, cb.rcv)
  {
    InNetwork(w, i);
    hide WorldInv;
    hide OnPackets;
    hide Finish;
    hide NoteAcks;
    hide FragsOf;
    hide HoldsMore;
    OnPacketsEffect(w, w.ba[i]);
    FinishUpdated(Unbounded, OnPackets(Unbounded, w.a.cb, w.ba[i]), w.a.cb.snd.una,
                  NoteAcks(Unbounded, NoAck, w.ba[i]));
    FinishCfg(OnPackets(Unbounded, w.a.cb, w.ba[i]), w.a.cb.snd.una, NoteAcks(Unbounded, NoAck, w.ba[i]));
  }

  lemma FinishCfg(cb: Cb, prevUna: nat, x: MaxAck)
    ensures Finish(Unbounded, cb, prevUna, x).cfg == cb.cfg
  {
  }

  /** Data segments of this datagram, numbered below `bound`, are held. */
  ghost predicate AllHeld(ps: seq<Packet>, rcv: Receiver, bound: nat) {
    forall j :: 0 <= j < |ps| && ps[j].cmd == CMD_PUSH && ps[j].sn < bound ==> Held(rcv, ps[j].sn)
  }

  lemma AllHeldOn(ps: seq<Packet>, r: Receiver, t: Receiver, bound: nat)
    requires AllHeld(ps, r, bound) && HoldsMore(r, t)
    ensures AllHeld(ps, t, bound)
  {
    hide Held;
  }

  lemma DatagramHeld(w: World<seq<Packet>>, i: nat, bound: nat)
    requires WorldInv(w) && i < |w.ba| && bound <= w.a.cb.rcv.nxt + w.a.cb.cfg.rcvWnd
    ensures AllHeld(w.ba[i], StepA(w, Deliver(i)).a.cb.rcv, bound)
  {
    DeliveryEffect(w, i);
    hide WorldInv;
    hide Held;
    hide StepA;
  }

  lemma ReceivedOn(w: World<seq<Packet>>, u: World<seq<Packet>>, v: World<seq<Packet>>)
    requires Received(w, u) && Received(u, v)
    ensures Received(w, v)
  {
    hide WorldInv;
    hide BothSettled;
    hide Held;
  }

  lemma {:induction false} ArriveAll(w: World<seq<Packet>>, from: nat, k: nat)
    requires WorldInv(w) && BothSettled(w) && from + k <= |w.ba|
    ensures var v := RunWorld(w, Arrivals(from, k));
            && Received(w, v)
            && forall i :: from <= i < from + k ==>
                 AllHeld(w.ba[i], v.a.cb.rcv, w.a.cb.rcv.nxt + w.a.cb.cfg.rcvWnd)
    decreases k
  {
    hide WorldInv;
    hide BothSettled;
    hide Held;
    hide AllHeld;
    if k > 0 {
      var u, v, bound := RunWorld(w, Arrivals(from, k - 1)), RunWorld(w, Arrivals(from, k)),
        w.a.cb.rcv.nxt + w.a.cb.cfg.rcvWnd;
      var last := from + (k - 1);
      ArriveAll(w, from, k - 1);
      assert Arrivals(from, k) == Arrivals(from, k - 1) + [Action(false, Deliver(last))];
      RunLast(w, Arrivals(from, k - 1), Action(false, Deliver(last)));
      assert v == StepA(u, Deliver(last));
      hide StepA;
      hide RunWorld;
      hide Arrivals;
      ArrivalKeeps(u, last);
      ReceivedOn(w, u, v);
      DatagramHeld(u, last, bound);
      forall i | from <= i < last ensures AllHeld(w.ba[i], v.a.cb.rcv, bound) {
        AllHeldOn(w.ba[i], u.a.cb.rcv, v.a.cb.rcv, bound);
      }
    }
  }

  /** When everything numbered is held and fits the window, everything is in order and nothing waits. */
  lemma AllInOrder(w: World<seq<Packet>>)
    requires WorldInv(w) && BothSettled(w)
    requires forall sn: nat :: sn < w.b.cb.snd.nxt ==> Held(w.a.cb.rcv, sn)
    requires w.b.cb.snd.nxt <= |FragsOf(w.b.cb.cfg, w.a.got)| + w.a.cb.cfg.rcvWnd
    ensures w.a.cb.rcv.nxt == w.b.cb.snd.nxt
  {
    hide FragsOf;
    hide Forward;
    hide Backward;
    var rcv := w.a.cb.rcv;
    assert rcv.nxt <= w.b.cb.snd.nxt && rcv.nxt == |FragsOf(w.b.cb.cfg, w.a.got)| + |rcv.queue|;
    if rcv.nxt < w.b.cb.snd.nxt {
      NextFirst(rcv, w.a.cb.cfg.rcvWnd);
    }
  }

  lemma NextFirst(rcv: Receiver, wnd: nat)
    requires RcvInv(Unbounded, rcv, wnd) && Held(rcv, rcv.nxt)
    ensures rcv.buf != [] && rcv.buf[0].sn == rcv.nxt
  {
    var i :| 0 <= i < |rcv.buf| && rcv.buf[i].sn == rcv.nxt;
    assert 0 <= Diff(Unbounded, rcv.buf[0].sn, rcv.nxt);
  }

  // ----- sending -----

  /** The window admits everything `b` has queued, and whatever `a` lacks of it is due. */
  ghost predicate ReadyToSend(cfg: Config, ctl: Control, filled: Sender, rcv: Receiver) {
    && filled.queue == []
    && forall k :: 0 <= k < |filled.buf| ==> Held(rcv, filled.buf[k].sn) || Due(cfg, ProbeTimer(ctl), filled.buf[k])
  }

  lemma FlushNumbers(w: World<seq<Packet>>)
    requires WorldInv(w) && w.b.cb.ctl.updated && Filled(Unbounded, w.b.cb).queue == []
    ensures var v := Step(w, Action(true, DoFlush));
            && v.a == w.a && v.ab == w.ab && v.b.sent == w.b.sent && v.b.cb.cfg == w.b.cb.cfg
            && WorldInv(v) && v.b.cb.snd.nxt == |FragsOf(w.b.cb.cfg, w.b.sent)|
            && SameSegments(Filled(Unbounded, w.b.cb).buf, v.b.cb.snd.buf) && |w.ba| <= |v.ba|
  {
    var cb := w.b.cb;
    hide WorldInv;
    StepKeeps(w, Action(true, DoFlush));
    var v := Step(w, Action(true, DoFlush));
    SentOut(v);
    hide FillWindow;
    hide Transmit;
    hide ProbeTimer;
    hide AfterFlush;
    hide Pack;
    hide FragsOf;
    TransmitSame(cb.cfg, ProbeTimer(cb.ctl), WndUnused(cb) % 65536, cb.rcv.nxt, Filled(Unbounded, cb).buf);
  }

  lemma SentOut(w: World<seq<Packet>>)
    requires WorldInv(w)
    ensures w.b.cb.snd.queue == [] ==> w.b.cb.snd.nxt == |FragsOf(w.b.cb.cfg, w.b.sent)|
    ensures w.b.cb.snd.nxt <= |FragsOf(w.b.cb.cfg, w.b.sent)|
  {
    hide FragsOf;
    hide EndpointInv;
  }

  /** After the flush, every number is held at `a` or travels in one of the new datagrams. */
  lemma HeldOrOnTheWay(w: World<seq<Packet>>, sn: nat) returns (d: nat, j: nat)
    requires WorldInv(w) && w.b.cb.ctl.updated && sn < |FragsOf(w.b.cb.cfg, w.b.sent)|
    requires ReadyToSend(w.b.cb.cfg, w.b.cb.ctl, Filled(Unbounded, w.b.cb), w.a.cb.rcv)
    ensures var v := Step(w, Action(true, DoFlush));
            || Held(w.a.cb.rcv, sn)
            || (|w.ba| <= d < |v.ba| && j < |v.ba[d]| && v.ba[d][j].cmd == CMD_PUSH && v.ba[d][j].sn == sn)
  {
    d, j := 0, 0;
    if !Held(w.a.cb.rcv, sn) {
      FlushNumbers(w);
      var v := Step(w, Action(true, DoFlush));
      LackedIsSent(v, sn);
      var filled := Filled(Unbounded, w.b.cb);
      hide Held;
      hide WorldInv;
      hide Filled;
      hide FragsOf;
      hide Due;
      hide Flush;
      hide Pack;
      var k :| 0 <= k < |v.b.cb.snd.buf| && v.b.cb.snd.buf[k].sn == sn;
      assert filled.buf[k].sn == sn;
      var p := DueGoesOut(w.b.cb, k);
      FlipInv(w);
      d := Flushes(Flip(w), p);
      j :| 0 <= j < |v.ba[d]| && v.ba[d][j] == p;
    }
  }

  lemma LackedIsSent(w: World<seq<Packet>>, sn: nat)
    requires WorldInv(w) && sn < w.b.cb.snd.nxt && !Held(w.a.cb.rcv, sn)
    ensures InBuf(w.b.cb.snd, sn)
  {
    hide FragsOf;
    hide EndpointInv;
    hide Held;
  }

  /** Flush, and deliver what it put out: the datagrams from `before` on, up to `after`. */
  function FlushAndArrive(before: nat, after: nat): seq<Action> {
    [Action(true, DoFlush)] + Arrivals(before, if after > before then after - before else 0)
  }

  function Exchange(w: World<seq<Packet>>): seq<Action> {
    FlushAndArrive(|w.ba|, |Step(w, Action(true, DoFlush)).ba|)
  }

  lemma ExchangeRuns(w: World<seq<Packet>>)
    requires |w.ba| <= |Step(w, Action(true, DoFlush)).ba|
    ensures var u := Step(w, Action(true, DoFlush));
            RunWorld(w, Exchange(w)) == RunWorld(u, Arrivals(|w.ba|, |u.ba| - |w.ba|))
  {
    hide Step;
    var u := Step(w, Action(true, DoFlush));
    RunFirst(w, Action(true, DoFlush), Arrivals(|w.ba|, |u.ba| - |w.ba|));
  }

  /** `b` can send all it has, and all that `a` has not given out fits its window. */
  ghost predicate Sendable(w: World<seq<Packet>>)
    requires w.b.cb.cfg.Mss() > 0
  {
    && w.b.cb.ctl.updated
    && ReadyToSend(w.b.cb.cfg, w.b.cb.ctl, Filled(Unbounded, w.b.cb), w.a.cb.rcv)
    && |FragsOf(w.b.cb.cfg, w.b.sent)| <= |FragsOf(w.b.cb.cfg, w.a.got)| + w.a.cb.cfg.rcvWnd
  }

  lemma ExchangeHolds(w: World<seq<Packet>>, sn: nat)
    requires WorldInv(w) && BothSettled(w) && Sendable(w) && sn < |FragsOf(w.b.cb.cfg, w.b.sent)|
    ensures Held(RunWorld(w, Exchange(w)).a.cb.rcv, sn)
  {
    hide WorldInv;
    hide FragsOf;
    hide Held;
    hide RunWorld;
    hide Filled;
    hide BothSettled;
    hide Exchange;
    hide Step;
    ReceiverParts(w);
    hide RcvInv;
    hide ReceiverTrue;
    FlushNumbers(w);
    hide SameSegments;
    hide ReadyToSend;
    StepSettles(w, Action(true, DoFlush));
    var u := Step(w, Action(true, DoFlush));
    ExchangeRuns(w);
    ArriveAll(u, |w.ba|, |u.ba| - |w.ba|);
    var d, j := HeldOrOnTheWay(w, sn);
    var v := RunWorld(w, Exchange(w));
    InOrderAt(w);
    if !Held(w.a.cb.rcv, sn) {
      assert AllHeld(u.ba[d], v.a.cb.rcv, u.a.cb.rcv.nxt + u.a.cb.cfg.rcvWnd);
    }
  }

  /** Everything `b` has sent is then in order at `a`. */
  lemma ExchangeArrives(w: World<seq<Packet>>)
    requires WorldInv(w) && BothSettled(w) && Sendable(w)
    ensures var v := RunWorld(w, Exchange(w));
            && WorldInv(v) && v.b.sent == w.b.sent && v.a.got == w.a.got
            && v.b.cb.cfg == w.b.cb.cfg && v.a.cb.rcv.nxt == |FragsOf(w.b.cb.cfg, w.b.sent)|
  {
    hide WorldInv;
    hide FragsOf;
    hide Held;
    hide RunWorld;
    hide Filled;
    hide BothSettled;
    hide Exchange;
    hide Step;
    ReceiverParts(w);
    hide RcvInv;
    hide ReceiverTrue;
    FlushNumbers(w);
    hide SameSegments;
    hide ReadyToSend;
    StepSettles(w, Action(true, DoFlush));
    var u := Step(w, Action(true, DoFlush));
    ExchangeRuns(w);
    hide AllHeld;
    ArriveAll(u, |w.ba|, |u.ba| - |w.ba|);
    var v := RunWorld(w, Exchange(w));
    forall sn: nat | sn < |FragsOf(w.b.cb.cfg, w.b.sent)| ensures Held(v.a.cb.rcv, sn) {
      ExchangeHolds(w, sn);
    }
    AllInOrder(v);
  }

  lemma InOrderAt(w: World<seq<Packet>>)
    requires WorldInv(w)
    ensures w.a.cb.rcv.nxt == |FragsOf(w.b.cb.cfg, w.a.got)| + |w.a.cb.rcv.queue|
  {
    hide FragsOf;
    hide EndpointInv;
  }

  // ----- receiving -----

  /** What waits in the buffer was given out after the next number. */
  lemma BufferedBelow(rcv: Receiver, wnd: nat, log: seq<Frag>, n: nat)
    requires RcvInv(Unbounded, rcv, wnd) && ReceiverTrue(rcv, log, n)
    ensures rcv.buf != [] ==> rcv.nxt < |log|
  {
    if rcv.buf != [] {
      assert rcv.nxt <= rcv.buf[0].sn < n;
    }
  }

  /** The fragments of the next message are those after the messages given out. */
  lemma NextFragments(cfg: Config, sent: seq<Message>, g: nat)
    requires cfg.Mss() > 0 && g < |sent|
    ensures var n, d := FragCount(cfg.Mss(), |sent[g]|), |FragsOf(cfg, sent[..g])|;
            d + n <= |FragsOf(cfg, sent)| && FragsOf(cfg, sent)[d].frg == n - 1
  {
    var mss, msg := cfg.Mss(), sent[g];
    FragsPrefix(cfg, sent, g);
    FragsPrefix(cfg, sent, g + 1);
    FirstFragment(mss, msg, FragCount(mss, |msg|));
    hide FragsOf;
    hide Fragments;
    hide FragCount;
    var front := FragsOf(cfg, sent[..g + 1]);
    assert front[|FragsOf(cfg, sent[..g])|] == FragsOf(cfg, sent)[|FragsOf(cfg, sent[..g])|];
  }

  lemma ReceiverParts(w: World<seq<Packet>>)
    requires WorldInv(w)
    ensures w.b.cb.cfg.Mss() > 0 && RcvInv(Unbounded, w.a.cb.rcv, w.a.cb.cfg.rcvWnd) && InOrder(w.b, w.a)
    ensures ReceiverTrue(w.a.cb.rcv, FragsOf(w.b.cb.cfg, w.b.sent), w.b.cb.snd.nxt)
  {
    hide FragsOf;
    hide Forward;
    hide Backward;
  }

  /** With everything in order, the next message is complete, and one call gives it out. */
  lemma NextComplete(w: World<seq<Packet>>)
    requires WorldInv(w) && |w.a.got| < |w.b.sent| && w.a.cb.rcv.nxt == |FragsOf(w.b.cb.cfg, w.b.sent)|
    ensures var q := w.a.cb.rcv.queue;
            q != [] && PeekSize(q) == |w.b.sent[|w.a.got|]| && MergeData(q) == w.b.sent[|w.a.got|]
  {
    ReceiverParts(w);
    hide WorldInv;
    hide FragsOf;
    hide FragCount;
    hide PeekSize;
    hide MergeData;
    var cfg, q, g := w.b.cb.cfg, w.a.cb.rcv.queue, |w.a.got|;
    NextFragments(cfg, w.b.sent, g);
    QueueFrags(w.a.cb.rcv, w.a.cb.cfg.rcvWnd, FragsOf(cfg, w.b.sent), w.b.cb.snd.nxt);
    hide RcvInv;
    hide ReceiverTrue;
    assert q[0].frag == FragsOf(cfg, w.b.sent)[|FragsOf(cfg, w.a.got)|];
    PeekIsMerged(q);
    NextMessage(w.b, w.a);
  }

  lemma OneReceive(w: World<seq<Packet>>)
    requires WorldInv(w) && |w.a.got| < |w.b.sent| && w.a.cb.rcv.nxt == |FragsOf(w.b.cb.cfg, w.b.sent)|
    ensures var v := Step(w, Action(false, DoRecv(|w.b.sent[|w.a.got|]|)));
            && WorldInv(v) && v.a.got == w.a.got + [w.b.sent[|w.a.got|]]
            && v.b == w.b && v.a.cb.rcv.nxt == w.a.cb.rcv.nxt
  {
    var len := |w.b.sent[|w.a.got|]|;
    NextComplete(w);
    ReceiverParts(w);
    BufferedBelow(w.a.cb.rcv, w.a.cb.cfg.rcvWnd, FragsOf(w.b.cb.cfg, w.b.sent), w.b.cb.snd.nxt);
    StepKeeps(w, Action(false, DoRecv(len)));
    hide WorldInv;
    hide FragsOf;
    hide PeekSize;
    hide MergeData;
    hide MergeCount;
  }

  /** Receives at `a` and nothing else. */
  predicate Receives(acts: seq<Action>) {
    forall i :: 0 <= i < |acts| ==> !acts[i].atB && acts[i].ev.DoRecv?
  }

  lemma {:induction false} ReceiveAll(w: World<seq<Packet>>) returns (acts: seq<Action>)
    requires WorldInv(w) && w.a.cb.rcv.nxt == |FragsOf(w.b.cb.cfg, w.b.sent)|
    ensures RunWorld(w, acts).a.got == w.b.sent && Receives(acts)
    decreases |w.b.sent| - |w.a.got|
  {
    hide WorldInv;
    hide FragsOf;
    hide Step;
    GotPrefix(w);
    ReceiverParts(w);
    hide RcvInv;
    hide ReceiverTrue;
    hide InOrder;
    if |w.a.got| == |w.b.sent| {
      acts := [];
      assert w.b.sent[..|w.a.got|] == w.b.sent;
    } else {
      var act := Action(false, DoRecv(|w.b.sent[|w.a.got|]|));
      OneReceive(w);
      hide RunWorld;
      var rest := ReceiveAll(Step(w, act));
      acts := [act] + rest;
      RunFirst(w, act, rest);
    }
  }

  lemma RunFirst(w: World<seq<Packet>>, act: Action, rest: seq<Action>)
    ensures RunWorld(w, [act] + rest) == RunWorld(Step(w, act), rest)
  {
    hide Step;
    RunConcat(w, [act], rest);
    RunLast(w, [], act);
    assert [] + [act] == [act];
  }

  lemma GotPrefix(w: World<seq<Packet>>)
    requires WorldInv(w)
    ensures |w.a.got| <= |w.b.sent| && w.a.got == w.b.sent[..|w.a.got|]
  {
    hide FragsOf;
    hide EndpointInv;
  }

  // ----- the round -----

  predicate SendsNothing(acts: seq<Action>) {
    forall i :: 0 <= i < |acts| ==> !acts[i].ev.DoSend? && !acts[i].ev.DoUpdate?
  }

  lemma RoundSendsNothing(before: nat, after: nat, rest: seq<Action>)
    requires Receives(rest)
    ensures SendsNothing(FlushAndArrive(before, after) + rest)
  {
  }

  /** From every reachable state of the model: if `b` can send all it has and it fits the other window, then a
      flush, the arrival of its datagrams and enough receives give out at `a` everything `b` has sent. */
  lemma RoundDelivers(ca: Config, cb: Config, acts: seq<Action>) returns (rest: seq<Action>)
    requires Paired(ca, cb) && (forall i :: 0 <= i < |acts| ==> Legal(acts[i]))
    requires var w := RunWorld(Start(ca, cb), acts); w.b.cb.cfg.Mss() > 0 && Sendable(w)
    ensures Receives(rest)
    ensures var w := RunWorld(Start(ca, cb), acts);
            RunWorld(Start(ca, cb), acts + (Exchange(w) + rest)).a.got == w.b.sent
  {
    var w := RunWorld(Start(ca, cb), acts);
    RunWorldKeeps(ca, cb, acts);
    RunSettled(ca, cb, acts);
    hide WorldInv;
    hide BothSettled;
    hide Sendable;
    hide FragsOf;
    hide RunWorld;
    hide Step;
    hide Exchange;
    hide Receives;
    ExchangeArrives(w);
    var v := RunWorld(w, Exchange(w));
    rest := ReceiveAll(v);
    RunConcat(Start(ca, cb), acts, Exchange(w) + rest);
    RunConcat(w, Exchange(w), rest);
  }

  // ----- the same on bytes -----

  lemma {:induction false} FewSegmentsMore(ca: Config, cb: Config, acts: seq<Action>, more: seq<Action>)
    requires FewSegments(ca, cb, acts) && SendsNothing(more)
    ensures FewSegments(ca, cb, acts + more)
    decreases |more|
  {
    hide FewSegments;
    hide RunWorld;
    hide Step;
    if more == [] {
      assert acts + more == acts;
    } else {
      var init, last := more[..|more| - 1], more[|more| - 1];
      FewSegmentsMore(ca, cb, acts, init);
      OneMore(ca, cb, acts + init, last);
      assert acts + more == acts + init + [last];
    }
  }

  lemma Refined(ca: Config, cb: Config, acts: seq<Action>)
    requires FewSegments(ca, cb, acts)
    ensures var w, v := RunWorld(Start(ca, cb), acts), ByteRun(Start(ca, cb), acts);
            && WorldInv(w) && v == Image(w) && w.a.cb.cfg == ca && w.b.cb.cfg == cb
            && |FragsOf(cb, w.b.sent)| + ca.rcvWnd <= TWO31
  {
    hide WorldInv;
    hide FragsOf;
    hide RunWorld;
    hide ByteRun;
    FewSegmentsFresh(ca, cb, acts);
    RunRefines(ca, cb, acts);
    RunWorldKeeps(ca, cb, acts);
    SentBound(ca, cb, acts);
  }

  lemma SameReady(w: World<seq<Packet>>)
    requires WorldInv(w) && |FragsOf(w.b.cb.cfg, w.b.sent)| + w.a.cb.cfg.rcvWnd <= TWO31
    requires ReadyToSend(w.b.cb.cfg, w.b.cb.ctl, Filled(Wrap32, WrapCb(w.b.cb)), WrapRcv(w.a.cb.rcv))
    ensures ReadyToSend(w.b.cb.cfg, w.b.cb.ctl, Filled(Unbounded, w.b.cb), w.a.cb.rcv)
  {
    EndsKept(w);
    FlipInv(w);
    hide WorldInv;
    hide EndpointInv;
    hide Filled;
    hide Held;
    hide FragsOf;
    hide Due;
    NumbersKept(Flip(w), 0);
    FilledWraps(w.b.cb);
    var filled := Filled(Unbounded, w.b.cb);
    forall k | 0 <= k < |filled.buf|
      ensures Held(w.a.cb.rcv, filled.buf[k].sn) || Due(w.b.cb.cfg, ProbeTimer(w.b.cb.ctl), filled.buf[k])
    {
      FilledNumbers(w.b.cb, k);
      NumbersKept(Flip(w), filled.buf[k].sn);
    }
  }

  /** The same of the program itself, in every run of few enough segments: a flush, the arrival of the datagrams it
      puts out and enough receives give out at `a` every message `b` has sent, byte for byte. */
  lemma BytesRoundDelivers(ca: Config, cb: Config, acts: seq<Action>) returns (rest: seq<Action>)
    requires FewSegments(ca, cb, acts)
    requires var w := ByteRun(Start(ca, cb), acts);
             && w.b.cb.ctl.updated && ReadyToSend(cb, w.b.cb.ctl, Filled(Wrap32, w.b.cb), w.a.cb.rcv)
             && |FragsOf(cb, w.b.sent)| <= |FragsOf(cb, w.a.got)| + ca.rcvWnd
    ensures Receives(rest)
    ensures var w, u := ByteRun(Start(ca, cb), acts), ByteRun(Start(ca, cb), acts + [Action(true, DoFlush)]);
            ByteRun(Start(ca, cb), acts + (FlushAndArrive(|w.ba|, |u.ba|) + rest)).a.got == w.b.sent
  {
    hide WorldInv;
    hide FragsOf;
    hide RunWorld;
    hide ByteRun;
    hide Filled;
    hide ReadyToSend;
    hide Receives;
    hide Step;
    hide FlushAndArrive;
    var flush := Action(true, DoFlush);
    Refined(ca, cb, acts);
    OneMore(ca, cb, acts, flush);
    Refined(ca, cb, acts + [flush]);
    var w := RunWorld(Start(ca, cb), acts);
    SameReady(w);
    rest := RoundDelivers(ca, cb, acts);
    hide FewSegments;
    RoundSendsNothing(|w.ba|, |Step(w, flush).ba|, rest);
    hide SendsNothing;
    FewSegmentsMore(ca, cb, acts, Exchange(w) + rest);
    Refined(ca, cb, acts + (Exchange(w) + rest));
  }
}
