/** What the transport gets done: every due segment goes out, every arrival is acknowledged, and one exchange
    of datagrams hands over and releases a segment. */
module KcpProgress {
  import opened Words
  import opened KcpWire
  import opened KcpCore
  import opened KcpInvariants
  import opened KcpNetwork
  import opened KcpDelivery
  import opened KcpRefinement

  // ----- sending -----

  /** Filling the window stops only at an empty queue or a full window. */
  lemma {:induction false} FillComplete(m: Numbering, snd: Sender, wnd: nat, ctl: Control)
    ensures var t := FillWindow(m, snd, wnd, ctl);
            t.una == snd.una && (t.queue == [] || Diff(m, t.nxt, Add(m, t.una, wnd)) >= 0)
    decreases |snd.queue|
  {
    hide Diff;
    hide Add;
    if Diff(m, snd.nxt, Add(m, snd.una, wnd)) < 0 && snd.queue != [] {
      var o := Out(snd.nxt, snd.queue[0], ctl.current, ctl.rto, 0, 0);
      FillComplete(m, snd.(queue := snd.queue[1..], nxt := Add(m, snd.nxt, 1), buf := snd.buf + [o]), wnd, ctl);
    }
  }

  /** A segment is due when it was never sent, its time has come, or enough later ones were acknowledged. */
  predicate Due(cfg: Config, ctl: Control, o: Out) {
    !Why(cfg, ctl, o).Hold?
  }

  /** Transmission sends the due segments and no others. */
  lemma {:induction false} TransmitExact(cfg: Config, ctl: Control, wnd: nat, una: nat, buf: seq<Out>, p: Packet)
    ensures p in Transmit(cfg, ctl, wnd, una, buf).packets <==>
              exists k :: 0 <= k < |buf| && Due(cfg, ctl, buf[k])
                          && p == DataPacket(Stamp(cfg, ctl, buf[k]), ctl, wnd, una)
    decreases |buf|
  {
    hide Why;
    hide Stamp;
    hide DataPacket;
    if buf != [] {
      var n := |buf| - 1;
      var init := buf[..n];
      TransmitExact(cfg, ctl, wnd, una, init, p);
      if k :| 0 <= k < |buf| && Due(cfg, ctl, buf[k]) && p == DataPacket(Stamp(cfg, ctl, buf[k]), ctl, wnd, una) {
        assert k < n ==> init[k] == buf[k];
      }
      if k :| 0 <= k < n && Due(cfg, ctl, init[k]) && p == DataPacket(Stamp(cfg, ctl, init[k]), ctl, wnd, una) {
        assert init[k] == buf[k];
      }
    }
  }

  lemma StampSame(cfg: Config, ctl: Control, o: Out)
    ensures Stamp(cfg, ctl, o).sn == o.sn && Stamp(cfg, ctl, o).frag == o.frag
  {
  }

  /** What a flush puts on the wire is in one of its datagrams. */
  lemma {:induction false} SomeGroup<T>(ss: seq<seq<T>>, x: T) returns (i: nat)
    requires x in Concat(ss)
    ensures i < |ss| && x in ss[i]
    decreases |ss|
  {
    var n := |ss| - 1;
    if x in ss[n] {
      i := n;
    } else {
      i := SomeGroup(ss[..n], x);
    }
  }

  lemma Flushes(w: World<seq<Packet>>, p: Packet) returns (d: nat)
    requires WorldInv(w) && p in Flush(Unbounded, w.a.cb).packets
    ensures var v := StepA(w, DoFlush); |w.ab| <= d < |v.ab| && p in v.ab[d]
  {
    hide Flush;
    hide Pack;
    hide Direction;
    FlushedPackets(Unbounded, w.a.cb);
    var ps := Flush(Unbounded, w.a.cb).packets;
    PackExact(w.a.cb.cfg.mtu, ps);
    var i := SomeGroup(Pack(w.a.cb.cfg.mtu, ps), p);
    d := |w.ab| + i;
  }

  /** Every due segment of the filled send buffer goes out, carrying its own fragment. */
  lemma DueGoesOut(cb: Cb, k: nat) returns (p: Packet)
    requires cb.ctl.updated && k < |Filled(Unbounded, cb).buf|
    requires Due(cb.cfg, ProbeTimer(cb.ctl), Filled(Unbounded, cb).buf[k])
    ensures p in Flush(Unbounded, cb).packets && p.cmd == CMD_PUSH && p.sn == Filled(Unbounded, cb).buf[k].sn
    ensures Frag(p.frg, p.data) == Filled(Unbounded, cb).buf[k].frag
  {
    hide Why;
    hide Stamp;
    hide Transmit;
    hide FillWindow;
    hide ProbeTimer;
    hide AfterFlush;
    var ctl := ProbeTimer(cb.ctl);
    var wnd := WndUnused(cb) % 65536;
    var buf := Filled(Unbounded, cb).buf;
    StampSame(cb.cfg, ctl, buf[k]);
    p := DataPacket(Stamp(cb.cfg, ctl, buf[k]), ctl, wnd, cb.rcv.nxt);
    TransmitExact(cb.cfg, ctl, wnd, cb.rcv.nxt, buf, p);
  }

  /** Every pending acknowledgement goes out. */
  lemma AckGoesOut(cb: Cb, i: nat) returns (p: Packet)
    requires cb.ctl.updated && i < |cb.rcv.acks|
    ensures p in Flush(Unbounded, cb).packets && p.cmd == CMD_ACK && p.sn == cb.rcv.acks[i].sn
  {
    hide Transmit;
    hide FillWindow;
    hide ProbeTimer;
    hide AfterFlush;
    p := AckPackets(cb.rcv, WndUnused(cb) % 65536)[i];
  }

  // ----- receiving -----

  ghost predicate AckPending(rcv: Receiver, sn: nat) {
    exists i :: 0 <= i < |rcv.acks| && rcv.acks[i].sn == sn
  }

  lemma {:induction false} MoveAcks(m: Numbering, rcv: Receiver, wnd: nat)
    ensures MoveReady(m, rcv, wnd).acks == rcv.acks
    decreases |rcv.buf|
  {
    hide Add;
    if rcv.buf != [] && rcv.buf[0].sn == rcv.nxt && |rcv.queue| < wnd {
      MoveAcks(m, rcv.(buf := rcv.buf[1..], queue := rcv.queue + [rcv.buf[0]], nxt := Add(m, rcv.nxt, 1)), wnd);
    }
  }

  /** Acknowledgements are only added, in order, and a segment below the window's end adds its own. */
  lemma OnPacketAcks(cb: Cb, p: Packet)
    ensures var r := OnPacket(Unbounded, cb, p);
            && cb.rcv.acks <= r.rcv.acks && r.cfg == cb.cfg && r.ctl.updated == cb.ctl.updated
            && (p.cmd == CMD_PUSH && p.sn < cb.rcv.nxt + cb.cfg.rcvWnd ==> AckPending(r.rcv, p.sn))
  {
    hide MoveReady;
    hide ParseUna;
    hide ParseAck;
    hide Insert;
    if p.cmd == CMD_PUSH && p.sn < cb.rcv.nxt + cb.cfg.rcvWnd {
      var acked := cb.rcv.(acks := cb.rcv.acks + [Ack(p.sn, p.ts)]);
      var seg := In(p.sn, Frag(p.frg, p.data));
      MoveAcks(Unbounded, acked.(buf := Insert(Unbounded, acked.buf, seg)), cb.cfg.rcvWnd);
      var r := OnPacket(Unbounded, cb, p).rcv;
      assert r.acks == acked.acks;
      assert r.acks[|cb.rcv.acks|].sn == p.sn;
    }
  }

  lemma PendingOn(r: Receiver, t: Receiver, sn: nat)
    requires r.acks <= t.acks && AckPending(r, sn)
    ensures AckPending(t, sn)
  {
    var i :| 0 <= i < |r.acks| && r.acks[i].sn == sn;
    assert t.acks[i].sn == sn;
  }

  lemma {:induction false} OnPacketsAcks(w: World<seq<Packet>>, ps: seq<Packet>, j: nat)
    requires WorldInv(w) && j <= |ps|
    requires forall i :: 0 <= i < |ps| ==>
               && Encodable(ps[i]) && BackwardTrue(ps[i], w.b.cb.rcv)
               && ForwardTrue(ps[i], FragsOf(w.b.cb.cfg, w.b.sent), w.b.cb.snd.nxt)
    ensures var r := OnPackets(Unbounded, w.a.cb, ps);
            && w.a.cb.rcv.acks <= r.rcv.acks && r.cfg == w.a.cb.cfg && r.ctl.updated == w.a.cb.ctl.updated
            && (j < |ps| && ps[j].cmd == CMD_PUSH && ps[j].sn < w.a.cb.rcv.nxt + r.cfg.rcvWnd ==>
                  AckPending(r.rcv, ps[j].sn))
    decreases |ps|
  {
    hide WorldInv;
    hide Encodable;
    hide BackwardTrue;
    hide ForwardTrue;
    hide OnPacket;
    hide Held;
    hide FragsOf;
    hide AckPending;
    if ps != [] {
      OnPacketEffect(w, ps[0]);
      OnPacketAcks(w.a.cb, ps[0]);
      PacketStep(w, ps[0]);
      var v := w.(a := w.a.(cb := OnPacket(Unbounded, w.a.cb, ps[0])));
      OnPacketsAcks(v, ps[1..], if j > 0 then j - 1 else |ps| - 1);
      var r := OnPackets(Unbounded, w.a.cb, ps);
      if j == 0 && ps[0].cmd == CMD_PUSH && ps[0].sn < w.a.cb.rcv.nxt + w.a.cb.cfg.rcvWnd {
        PendingOn(v.a.cb.rcv, r.rcv, ps[0].sn);
      }
    }
  }

  lemma FinishUpdated(m: Numbering, cb: Cb, prevUna: nat, x: MaxAck)
    ensures Finish(m, cb, prevUna, x).rcv == cb.rcv && Finish(m, cb, prevUna, x).ctl.updated == cb.ctl.updated
  {
  }

  /** A data segment inside the window is held and its acknowledgement waits to be sent. */
  lemma ArrivalAcked(w: World<seq<Packet>>, d: nat, p: Packet)
    requires WorldInv(w) && d < |w.ba| && p in w.ba[d]
    requires p.cmd == CMD_PUSH && p.sn < w.a.cb.rcv.nxt + w.a.cb.cfg.rcvWnd
    ensures var v := StepA(w, Deliver(d));
            Held(v.a.cb.rcv, p.sn) && AckPending(v.a.cb.rcv, p.sn) && v.a.cb.ctl.updated == w.a.cb.ctl.updated
  {
    InNetwork(w, d);
    DeliveryEffect(w, d);
    hide WorldInv;
    hide OnPackets;
    hide Finish;
    hide NoteAcks;
    hide FragsOf;
    var ps := w.ba[d];
    var j :| 0 <= j < |ps| && ps[j] == p;
    OnPacketsAcks(w, ps, j);
    FinishUpdated(Unbounded, OnPackets(Unbounded, w.a.cb, ps), w.a.cb.snd.una, NoteAcks(Unbounded, NoAck, ps));
  }

  // ----- one exchange -----

  /** Flush here, deliver there: from any reachable state, a due segment inside the other side's window is held
      there after one flush and one delivery, with its acknowledgement pending. */
  lemma SegmentGetsThrough(w: World<seq<Packet>>, k: nat) returns (d: nat)
    requires WorldInv(w) && w.a.cb.ctl.updated && k < |Filled(Unbounded, w.a.cb).buf|
    requires Due(w.a.cb.cfg, ProbeTimer(w.a.cb.ctl), Filled(Unbounded, w.a.cb).buf[k])
    requires Filled(Unbounded, w.a.cb).buf[k].sn < w.b.cb.rcv.nxt + w.b.cb.cfg.rcvWnd
    ensures var sn := Filled(Unbounded, w.a.cb).buf[k].sn;
            var v := Step(Step(w, Action(false, DoFlush)), Action(true, Deliver(d)));
            && WorldInv(v) && Held(v.b.cb.rcv, sn) && AckPending(v.b.cb.rcv, sn)
            && v.b.cb.ctl.updated == w.b.cb.ctl.updated
  {
    hide Filled;
    hide Due;
    hide Flush;
    hide Pack;
    hide WorldInv;
    var p := DueGoesOut(w.a.cb, k);
    d := Flushes(w, p);
    var w1 := Step(w, Action(false, DoFlush));
    StepKeeps(w, Action(false, DoFlush));
    StepKeeps(w1, Action(true, Deliver(d)));
    FlipInv(w1);
    ArrivalAcked(Flip(w1), d, p);
  }

  lemma AckReleasesIt(w: World<seq<Packet>>, e: nat, p: Packet)
    requires WorldInv(w) && e < |w.ba| && p in w.ba[e] && p.cmd == CMD_ACK
    ensures !InBuf(Step(w, Action(false, Deliver(e))).a.cb.snd, p.sn)
  {
    hide WorldInv;
    hide InBuf;
    hide Held;
    hide InputPackets;
    DeliveryEffect(w, e);
    var j :| 0 <= j < |w.ba[e]| && w.ba[e][j] == p;
  }

  /** Flush there, deliver here: a pending acknowledgement releases its segment. */
  lemma AckGetsBack(w: World<seq<Packet>>, sn: nat) returns (e: nat)
    requires WorldInv(w) && w.b.cb.ctl.updated && AckPending(w.b.cb.rcv, sn)
    ensures var v := Step(Step(w, Action(true, DoFlush)), Action(false, Deliver(e)));
            WorldInv(v) && !InBuf(v.a.cb.snd, sn)
  {
    hide WorldInv;
    hide InBuf;
    hide Flush;
    hide Pack;
    var i :| 0 <= i < |w.b.cb.rcv.acks| && w.b.cb.rcv.acks[i].sn == sn;
    var p := AckGoesOut(w.b.cb, i);
    FlipInv(w);
    e := Flushes(Flip(w), p);
    var w1 := Step(w, Action(true, DoFlush));
    assert e < |w1.ba| && p in w1.ba[e];
    hide Step;
    StepKeeps(w, Action(true, DoFlush));
    StepKeeps(w1, Action(false, Deliver(e)));
    AckReleasesIt(w1, e, p);
  }

  /** Progress: in every reachable state, four steps without loss (flush, deliver, flush back, deliver back) hand
      a due segment inside the window to the other side and release it here. */
  lemma RoundTripReleases(w: World<seq<Packet>>, k: nat) returns (d: nat, e: nat)
    requires WorldInv(w) && w.a.cb.ctl.updated && w.b.cb.ctl.updated && k < |Filled(Unbounded, w.a.cb).buf|
    requires Due(w.a.cb.cfg, ProbeTimer(w.a.cb.ctl), Filled(Unbounded, w.a.cb).buf[k])
    requires Filled(Unbounded, w.a.cb).buf[k].sn < w.b.cb.rcv.nxt + w.b.cb.cfg.rcvWnd
    ensures var sn := Filled(Unbounded, w.a.cb).buf[k].sn;
            var there := Step(Step(w, Action(false, DoFlush)), Action(true, Deliver(d)));
            var back := Step(Step(there, Action(true, DoFlush)), Action(false, Deliver(e)));
            Held(there.b.cb.rcv, sn) && !InBuf(back.a.cb.snd, sn) && WorldInv(back)
  {
    d := SegmentGetsThrough(w, k);
    var sn := Filled(Unbounded, w.a.cb).buf[k].sn;
    hide WorldInv;
    hide Step;
    hide Filled;
    var there := Step(Step(w, Action(false, DoFlush)), Action(true, Deliver(d)));
    e := AckGetsBack(there, sn);
  }

  // ----- the same on bytes -----

  /** Few enough segments that no number has wrapped. */
  predicate FewSegments(ca: Config, cb: Config, acts: seq<Action>) {
    && Paired(ca, cb) && (forall i :: 0 <= i < |acts| ==> Legal(acts[i]))
    && Segments(ca, false, acts) + cb.rcvWnd <= TWO31 && Segments(cb, true, acts) + ca.rcvWnd <= TWO31
  }

  lemma OneMore(ca: Config, cb: Config, acts: seq<Action>, x: Action)
    requires FewSegments(ca, cb, acts) && !x.ev.DoSend? && Legal(x)
    ensures FewSegments(ca, cb, acts + [x])
    ensures RunWorld(Start(ca, cb), acts + [x]) == Step(RunWorld(Start(ca, cb), acts), x)
  {
    hide Step;
    assert (acts + [x])[..|acts|] == acts;
  }

  lemma TwoMore(ca: Config, cb: Config, acts: seq<Action>, x: Action, y: Action)
    requires FewSegments(ca, cb, acts) && !x.ev.DoSend? && !y.ev.DoSend? && Legal(x) && Legal(y)
    ensures FewSegments(ca, cb, acts + [x, y])
    ensures RunWorld(Start(ca, cb), acts + [x, y]) == Step(Step(RunWorld(Start(ca, cb), acts), x), y)
  {
    hide Step;
    hide RunWorld;
    hide FewSegments;
    OneMore(ca, cb, acts, x);
    OneMore(ca, cb, acts + [x], y);
    assert acts + [x] + [y] == acts + [x, y];
  }

  /** With few segments the byte program is the image of the model, and holds the very same numbers. */
  lemma SameNumbers(ca: Config, cb: Config, acts: seq<Action>, sn: nat)
    requires FewSegments(ca, cb, acts) && sn < TWO32
    ensures var w, v := RunWorld(Start(ca, cb), acts), ByteRun(Start(ca, cb), acts);
            && WorldInv(w) && v == Image(w) && w.a.cb.cfg == ca && w.b.cb.cfg == cb
            && w.a.cb.snd.nxt <= TWO31 && v.b.cb.rcv.nxt == w.b.cb.rcv.nxt
            && (Held(v.b.cb.rcv, sn) <==> Held(w.b.cb.rcv, sn))
            && (InBuf(v.a.cb.snd, sn) <==> InBuf(w.a.cb.snd, sn))
  {
    FewSegmentsFresh(ca, cb, acts);
    RunRefines(ca, cb, acts);
    RunWorldKeeps(ca, cb, acts);
    SentBound(ca, cb, acts);
    NumbersKept(RunWorld(Start(ca, cb), acts), sn);
  }

  lemma NumbersKept(w: World<seq<Packet>>, sn: nat)
    requires WorldInv(w) && |FragsOf(w.a.cb.cfg, w.a.sent)| + w.b.cb.cfg.rcvWnd <= TWO31
    ensures w.a.cb.snd.nxt <= TWO31 && WrapRcv(w.b.cb.rcv).nxt == w.b.cb.rcv.nxt
    ensures Held(WrapRcv(w.b.cb.rcv), sn) <==> Held(w.b.cb.rcv, sn)
    ensures InBuf(WrapSnd(w.a.cb.snd), sn) <==> InBuf(w.a.cb.snd, sn)
  {
    hide FragsOf;
    hide Forward;
    hide Backward;
    hide InOrder;
    hide AcksTrue;
    hide NothingLost;
    hide RcvInv;
    hide SndInv;
    hide AllFit;
    var snd, rcv := w.a.cb.snd, w.b.cb.rcv;
    assert snd.nxt <= TWO31 && rcv.nxt <= snd.nxt;
    assert forall i :: 0 <= i < |rcv.buf| ==> WrapIns(rcv.buf)[i].sn == rcv.buf[i].sn;
    assert forall i :: 0 <= i < |snd.buf| ==> WrapOuts(snd.buf)[i].sn == snd.buf[i].sn;
  }

  lemma FilledNumbers(cb: Cb, k: nat)
    requires EndpointInv(Unbounded, cb) && cb.snd.nxt <= TWO31 && k < |Filled(Unbounded, cb).buf|
    ensures var o := Filled(Unbounded, cb).buf[k];
            && o.sn < TWO32 && k < |Filled(Wrap32, WrapCb(cb)).buf| && Filled(Wrap32, WrapCb(cb)).buf[k] == o
  {
    hide Filled;
    hide AllFit;
    hide RcvInv;
    FilledWraps(cb);
    FilledKeeps(Unbounded, cb);
    assert cb.snd.una <= TWO31 && cb.cfg.sndWnd < TWO31;
    assert Filled(Unbounded, cb).buf[k].sn < TWO32;
  }

  /** Progress of the program itself. In every run of few enough segments, a due segment inside the other side's
      window is held there after a flush and a delivery, and released here after a flush back and its delivery. */
  lemma BytesGetThrough(ca: Config, cb: Config, acts: seq<Action>, k: nat) returns (d: nat, e: nat)
    requires FewSegments(ca, cb, acts)
    requires var w := ByteRun(Start(ca, cb), acts);
             var buf := Filled(Wrap32, w.a.cb).buf;
             && w.a.cb.ctl.updated && w.b.cb.ctl.updated && k < |buf|
             && Due(ca, ProbeTimer(w.a.cb.ctl), buf[k]) && buf[k].sn < w.b.cb.rcv.nxt + cb.rcvWnd
    ensures var sn := Filled(Wrap32, ByteRun(Start(ca, cb), acts).a.cb).buf[k].sn;
            var there := acts + [Action(false, DoFlush), Action(true, Deliver(d))];
            var back := there + [Action(true, DoFlush), Action(false, Deliver(e))];
            Held(ByteRun(Start(ca, cb), there).b.cb.rcv, sn) && !InBuf(ByteRun(Start(ca, cb), back).a.cb.snd, sn)
  {
    hide WorldInv;
    hide Step;
    hide Filled;
    hide FewSegments;
    hide RunWorld;
    hide ByteRun;
    hide Held;
    hide InBuf;
    hide Due;
    var w := RunWorld(Start(ca, cb), acts);
    SameNumbers(ca, cb, acts, 0);
    EndsKept(w);
    FilledWraps(w.a.cb);
    FilledNumbers(w.a.cb, k);
    var sn := Filled(Unbounded, w.a.cb).buf[k].sn;
    d, e := RoundTripReleases(w, k);
    var there := acts + [Action(false, DoFlush), Action(true, Deliver(d))];
    TwoMore(ca, cb, acts, Action(false, DoFlush), Action(true, Deliver(d)));
    TwoMore(ca, cb, there, Action(true, DoFlush), Action(false, Deliver(e)));
    SameNumbers(ca, cb, there, sn);
    SameNumbers(ca, cb, there + [Action(true, DoFlush), Action(false, Deliver(e))], sn);
  }

  lemma EndsKept(w: World<seq<Packet>>)
    requires WorldInv(w)
    ensures EndpointInv(Unbounded, w.a.cb) && EndpointInv(Unbounded, w.b.cb)
  {
  }
}
