/** The transport never gets stuck: from every reachable state, clock updates, flushes, deliveries and receives can
    be chosen so that everything `a` has sent is given out at `b`; unless the receive window is one that its 16 bits
    tell as closed, with just what can be outstanding at first in the queue. */
module KcpLiveness {
  import opened Words
  import opened KcpWire
  import opened KcpCore
  import opened KcpInvariants
  import opened KcpNetwork
  import opened KcpDelivery
  import opened KcpRefinement
  import opened KcpProgress
  import opened KcpRound
  import opened KcpChoice
  import opened KcpWindow

  // ----- where a stall is possible -----

  /** The low 16 bits of the receive window are those of an incomplete message that can be outstanding at first. No
      receive window below 65536 is like this. */
  predicate Stallable(ca: Config, cb: Config) {
    cb.rcvWnd % 65536 < MAX_FRAGMENTS - 1 && cb.rcvWnd % 65536 <= FirstWindow(ca)
  }

  lemma SmallWindowsNeverStall(ca: Config, cb: Config)
    requires cb.Good() && cb.rcvWnd < 65536
    ensures !Stallable(ca, cb)
  {
  }

  ghost predicate Hopeful(w: World<seq<Packet>>) {
    && Sane(w) && w.a.cb.cfg.sndWnd > 0 && !Stallable(w.a.cb.cfg, w.b.cb.cfg)
    && (Narrow(w.a.cb.cfg, w.b.cb.cfg) ==> Heard(w))
  }

  lemma HopefulOn(w: World<seq<Packet>>, acts: seq<Action>, v: World<seq<Packet>>)
    requires Hopeful(w) && Leads(w, acts, v)
    ensures Hopeful(v)
  {
    hide WorldInv;
    hide BothSettled;
    hide Accepted;
    hide Heard;
    hide RunWorld;
    hide Stallable;
    hide Narrow;
    if Narrow(w.a.cb.cfg, w.b.cb.cfg) {
      RunHeard(w, acts);
    }
  }

  lemma ToldOpen(cb: Cb)
    requires cb.cfg.rcvWnd % 65536 >= MAX_FRAGMENTS - 1 > |cb.rcv.queue|
    ensures WndUnused(cb) % 65536 > 0
  {
    OpenTime(cb, |cb.rcv.queue|);
  }

  // ----- progress -----

  /** Everything numbered has arrived: with the window told, nothing is outstanding and something is queued. */
  lemma NothingOutstanding(w: World<seq<Packet>>)
    requires WorldInv(w) && w.b.cb.rcv.nxt == w.a.cb.snd.nxt < |FragsOf(w.a.cb.cfg, w.a.sent)|
    requires forall sn: nat :: sn < w.b.cb.rcv.nxt ==> !InBuf(w.a.cb.snd, sn)
    ensures w.a.cb.snd.buf == [] && w.a.cb.snd.una == w.a.cb.snd.nxt && w.a.cb.snd.queue != []
  {
    SenderParts(w);
    hide WorldInv;
    hide FragsOf;
    hide NothingLost;
    SomeBelow(w);
    hide InBuf;
  }

  lemma SomeBelow(w: World<seq<Packet>>)
    requires WorldInv(w)
    ensures w.a.cb.snd.buf != [] ==> exists sn: nat :: sn < w.a.cb.snd.nxt && InBuf(w.a.cb.snd, sn)
  {
    hide WorldInv;
    if w.a.cb.snd.buf != [] {
      AllBelow(w, 0);
      assert InBuf(w.a.cb.snd, w.a.cb.snd.buf[0].sn);
    }
  }

  lemma RoomyStays(w: World<seq<Packet>>, v: World<seq<Packet>>)
    requires Sane(w) && Onward(w, v) && Roomy(w) && v.b.got == w.b.got && v.b.cb.rcv.nxt == w.b.cb.rcv.nxt
    ensures Roomy(v)
  {
    FlipInv(w);
    FlipInv(v);
    hide WorldInv;
    InOrderAt(Flip(w));
    InOrderAt(Flip(v));
  }

  lemma {:induction false} StaysEmpty(cb: Cb, ps: seq<Packet>)
    requires cb.snd.buf == []
    ensures OnPackets(Unbounded, cb, ps).snd.buf == []
    decreases |ps|
  {
    if ps != [] {
      hide ParsePush;
      hide UpdateRtt;
      StaysEmpty(OnPacket(Unbounded, cb, ps[0]), ps[1..]);
    }
  }

  lemma FinishEmpty(cb: Cb, prevUna: nat, x: MaxAck)
    requires cb.snd.buf == []
    ensures Finish(Unbounded, cb, prevUna, x).snd.buf == []
  {
    hide Grow;
  }

  /** A datagram that told an open window is delivered again. */
  lemma Reopen(w: World<seq<Packet>>, d: nat) returns (acts: seq<Action>, v: World<seq<Packet>>)
    requires Sane(w) && d < |w.ba| && Opens(w.ba[d]) && w.a.cb.snd.buf == []
    requires w.b.cb.rcv.nxt == w.a.cb.snd.nxt && w.a.cb.cfg.Mss() > 0
    requires w.a.cb.snd.nxt < |FragsOf(w.a.cb.cfg, w.a.sent)|
    ensures Leads(w, acts, v) && v.a.cb.ctl.rmtWnd > 0 && v.b == w.b && v.a.cb.snd.nxt == w.a.cb.snd.nxt
    ensures v.a.cb.snd.una == v.a.cb.snd.nxt && v.a.cb.snd.queue != []
  {
    hide WorldInv;
    hide BothSettled;
    hide Accepted;
    hide RunWorld;
    hide FragsOf;
    var act := Action(false, Deliver(d));
    Listened(w, d, w.ba[d][0].wnd, w.ba[d][0].una);
    LeadsOne(w, act);
    DeliverFrame(w, d);
    StepHere(w, Deliver(d));
    EmptyAfter(w, d);
    hide StepA;
    hide Step;
    acts, v := [act], Step(w, act);
    SenderParts(v);
    hide NothingLost;
  }

  lemma EmptyAfter(w: World<seq<Packet>>, d: nat)
    requires w.a.cb.snd.buf == []
    ensures StepA(w, Deliver(d)).a.cb.snd.buf == []
  {
    hide OnPackets;
    hide NoteAcks;
    hide Finish;
    if d < |w.ba| {
      StaysEmpty(w.a.cb, w.ba[d]);
      FinishEmpty(OnPackets(Unbounded, w.a.cb, w.ba[d]), w.a.cb.snd.una, NoteAcks(Unbounded, NoAck, w.ba[d]));
    }
  }

  /** The window told is open, or an open one was told before; what has arrived is released: a number is given out. */
  lemma ToldAndOpen(w: World<seq<Packet>>) returns (acts: seq<Action>, v: World<seq<Packet>>)
    requires Hopeful(w) && Roomy(w) && Talks(w.b.cb)
    requires w.b.cb.rcv.nxt == w.a.cb.snd.nxt && w.a.cb.cfg.Mss() > 0
    requires w.a.cb.snd.nxt < |FragsOf(w.a.cb.cfg, w.a.sent)|
    ensures Leads(w, acts, v) && Reach(w) < Reach(v)
  {
    hide WorldInv;
    hide BothSettled;
    hide Accepted;
    hide RunWorld;
    hide FragsOf;
    hide InBuf;
    hide Opens;
    acts, v := Hear(w);
    OnwardReach(w, v);
    if Reach(v) == Reach(w) {
      var u := v;
      HopefulOn(w, acts, u);
      NothingOutstanding(u);
      var more;
      if u.a.cb.ctl.rmtWnd == 0 {
        if u.b.cb.cfg.rcvWnd % 65536 >= MAX_FRAGMENTS - 1 {
          ToldOpen(w.b.cb);
        }
        var d :| 0 <= d < |u.ba| && Opens(u.ba[d]);
        var r;
        more, r := Reopen(u, d);
        LeadsOn(w, acts, u, more, r);
        acts, u := acts + more, r;
      }
      more, v := WindowOpens(u);
      LeadsOn(w, acts, u, more, v);
      acts := acts + more;
    }
  }

  /** Everything numbered has arrived: another number is given out. */
  lemma NumberGivenOut(w: World<seq<Packet>>) returns (acts: seq<Action>, v: World<seq<Packet>>)
    requires Hopeful(w) && Roomy(w)
    requires w.b.cb.rcv.nxt == w.a.cb.snd.nxt && w.a.cb.cfg.Mss() > 0
    requires w.a.cb.snd.nxt < |FragsOf(w.a.cb.cfg, w.a.sent)|
    ensures Leads(w, acts, v) && Reach(w) < Reach(v)
  {
    hide WorldInv;
    hide BothSettled;
    hide Accepted;
    hide RunWorld;
    hide FragsOf;
    hide InBuf;
    hide Held;
    if w.a.cb.snd.buf == [] && w.a.cb.ctl.rmtWnd > 0 {
      NoneInBuf(w.a.cb.snd);
      NothingOutstanding(w);
      acts, v := WindowOpens(w);
    } else {
      if w.a.cb.snd.buf != [] {
        AllBelow(w, 0);
        acts, v := Resend(w, 0);
      } else {
        acts, v := AskWindow(w);
      }
      OnwardReach(w, v);
      if Reach(v) == Reach(w) {
        var u := v;
        RoomyStays(w, u);
        HopefulOn(w, acts, u);
        hide Hopeful;
        var more;
        more, v := ToldAndOpen(u);
        LeadsOn(w, acts, u, more, v);
        acts := acts + more;
      }
    }
  }

  lemma NoneInBuf(snd: Sender)
    requires snd.buf == []
    ensures forall sn: nat :: !InBuf(snd, sn)
  {
  }

  lemma AllBelow(w: World<seq<Packet>>, k: nat)
    requires WorldInv(w) && k < |w.a.cb.snd.buf|
    ensures w.a.cb.snd.buf[k].sn < w.a.cb.snd.nxt
  {
    SenderParts(w);
    hide WorldInv;
    hide FragsOf;
    var o := w.a.cb.snd.buf[k];
    assert Names(FragsOf(w.a.cb.cfg, w.a.sent), w.a.cb.snd.nxt, o.sn, o.frag);
  }

  /** As long as something is missing at `b`, the two ends can get further. */
  lemma Advance(w: World<seq<Packet>>) returns (acts: seq<Action>, v: World<seq<Packet>>)
    requires Hopeful(w) && w.a.cb.cfg.Mss() > 0
    requires w.b.cb.rcv.nxt < |FragsOf(w.a.cb.cfg, w.a.sent)|
    ensures Leads(w, acts, v) && Reach(w) < Reach(v)
  {
    hide WorldInv;
    hide BothSettled;
    hide RunWorld;
    hide FragsOf;
    hide InBuf;
    hide Held;
    acts, v := MakeRoom(w);
    OnwardReach(w, v);
    if Reach(v) == Reach(w) {
      var u := v;
      var more;
      HopefulOn(w, acts, u);
      SenderParts(u);
      NextIsMissing(u.b.cb.rcv, u);
      if u.b.cb.rcv.nxt < u.a.cb.snd.nxt {
        more, v := NextArrives(u);
      } else {
        more, v := NumberGivenOut(u);
      }
      LeadsOn(w, acts, u, more, v);
      acts := acts + more;
    }
  }

  /** The next number is not held where there is room, so the sender still has it. */
  lemma NextIsMissing(rcv: Receiver, w: World<seq<Packet>>)
    requires Sane(w) && Roomy(w) && rcv == w.b.cb.rcv
    ensures rcv.nxt < w.a.cb.snd.nxt ==> InBuf(w.a.cb.snd, rcv.nxt)
  {
    SenderParts(w);
    FlipInv(w);
    hide WorldInv;
    hide FragsOf;
    ReceiverParts(Flip(w));
    hide SndInv;
    hide SenderTrue;
    hide ReceiverTrue;
    if rcv.nxt < w.a.cb.snd.nxt && Held(rcv, rcv.nxt) {
      NextFirst(rcv, w.b.cb.cfg.rcvWnd);
    }
  }

  lemma {:induction false} AllArrive(w: World<seq<Packet>>) returns (acts: seq<Action>, v: World<seq<Packet>>)
    requires Hopeful(w) && w.a.cb.cfg.Mss() > 0
    ensures Leads(w, acts, v) && v.b.cb.rcv.nxt == |FragsOf(w.a.cb.cfg, w.a.sent)|
    decreases 2 * |FragsOf(w.a.cb.cfg, w.a.sent)| - Reach(w)
  {
    hide WorldInv;
    hide BothSettled;
    hide RunWorld;
    hide FragsOf;
    SenderParts(w);
    hide SndInv;
    hide SenderTrue;
    hide NothingLost;
    if w.b.cb.rcv.nxt == |FragsOf(w.a.cb.cfg, w.a.sent)| {
      LeadsNowhere(w);
      acts, v := [], w;
    } else {
      var u;
      acts, u := Advance(w);
      HopefulOn(w, acts, u);
      SenderParts(u);
      var more;
      more, v := AllArrive(u);
      LeadsOn(w, acts, u, more, v);
      acts := acts + more;
    }
  }

  /** Receives at `b`, once everything has arrived there. */
  lemma GiveOutAll(w: World<seq<Packet>>) returns (acts: seq<Action>)
    requires Sane(w) && w.a.cb.cfg.Mss() > 0 && w.b.cb.rcv.nxt == |FragsOf(w.a.cb.cfg, w.a.sent)|
    ensures Quiet(acts) && Forwards(w, acts) && RunWorld(w, acts).b.got == w.a.sent
  {
    hide WorldInv;
    hide FragsOf;
    hide RunWorld;
    FlipInv(w);
    var recvs := ReceiveAll(Flip(w));
    SwapRun(w, recvs);
    acts := Swap(recvs);
  }

  /** From every reachable state of the model, whatever was lost, delayed or repeated before, and whatever the clocks
      and windows stand at: updates that set no clock back, arrivals and receives can be chosen so that everything
      `a` has sent is given out at `b`. Nothing is flushed but by these updates. */
  lemma NeverStuck(ca: Config, cb: Config, acts: seq<Action>) returns (more: seq<Action>)
    requires Paired(ca, cb) && ca.sndWnd > 0 && !Stallable(ca, cb)
    requires forall i :: 0 <= i < |acts| ==> Legal(acts[i])
    ensures Quiet(more) && Forwards(RunWorld(Start(ca, cb), acts), more)
    ensures RunWorld(Start(ca, cb), acts + more).b.got == RunWorld(Start(ca, cb), acts).a.sent
  {
    hide WorldInv;
    hide BothSettled;
    hide Accepted;
    hide FragsOf;
    hide Heard;
    hide Stallable;
    RunSane(ca, cb, acts);
    SentBound(ca, cb, acts);
    StartInv(ca, cb);
    if Narrow(ca, cb) {
      StartHeard(ca, cb);
      RunHeard(Start(ca, cb), acts);
    }
    hide Narrow;
    hide RunWorld;
    hide Segments;
    hide Forwards;
    var w := RunWorld(Start(ca, cb), acts);
    var x, v := AllArrive(w);
    var y := GiveOutAll(v);
    more := x + y;
    RunConcat(w, x, y);
    ForwardsOn(w, x, y);
    RunConcat(Start(ca, cb), acts, more);
  }

  lemma StartHeard(ca: Config, cb: Config)
    ensures Heard(Start(ca, cb))
  {
    StartUnheard(ca, cb);
  }

  // ----- the same on bytes -----

  lemma {:induction false} FewSegmentsQuiet(ca: Config, cb: Config, acts: seq<Action>, more: seq<Action>)
    requires FewSegments(ca, cb, acts) && Quiet(more)
    ensures FewSegments(ca, cb, acts + more)
    decreases |more|
  {
    hide FewSegments;
    hide RunWorld;
    hide Step;
    if more == [] {
      assert acts + more == acts;
    } else {
      var init, last := more[..|more| - 1], more[|more| - 1];
      FewSegmentsQuiet(ca, cb, acts, init);
      OneMore(ca, cb, acts + init, last);
      assert acts + more == acts + init + [last];
    }
  }

  lemma FrontQuiet(more: seq<Action>, i: nat)
    requires Quiet(more) && i <= |more|
    ensures Quiet(more[..i])
  {
  }

  /** The clocks of the program are those of the model. */
  lemma BytesAhead(ca: Config, cb: Config, acts: seq<Action>, more: seq<Action>, i: nat)
    requires FewSegments(ca, cb, acts) && Quiet(more) && i < |more|
    requires Forwards(RunWorld(Start(ca, cb), acts), more)
    ensures Ahead(ByteRun(Start(ca, cb), acts + more[..i]), more[i])
  {
    FrontQuiet(more, i);
    hide WorldInv;
    hide FragsOf;
    hide RunWorld;
    hide ByteRun;
    hide Quiet;
    hide FewSegments;
    FewSegmentsQuiet(ca, cb, acts, more[..i]);
    Refined(ca, cb, acts + more[..i]);
    RunConcat(Start(ca, cb), acts, more[..i]);
    assert Ahead(RunWorld(RunWorld(Start(ca, cb), acts), more[..i]), more[i]);
  }

  /** The program itself never gets stuck, in every run of few enough segments. */
  lemma BytesNeverStuck(ca: Config, cb: Config, acts: seq<Action>) returns (more: seq<Action>)
    requires FewSegments(ca, cb, acts) && ca.sndWnd > 0 && !Stallable(ca, cb)
    ensures Quiet(more) && ByteRun(Start(ca, cb), acts + more).b.got == ByteRun(Start(ca, cb), acts).a.sent
    ensures forall i :: 0 <= i < |more| ==> Ahead(ByteRun(Start(ca, cb), acts + more[..i]), more[i])
  {
    hide WorldInv;
    hide FragsOf;
    hide RunWorld;
    hide ByteRun;
    hide Quiet;
    hide Forwards;
    hide Ahead;
    more := NeverStuck(ca, cb, acts);
    FewSegmentsQuiet(ca, cb, acts, more);
    Refined(ca, cb, acts);
    Refined(ca, cb, acts + more);
    forall i | 0 <= i < |more| ensures Ahead(ByteRun(Start(ca, cb), acts + more[..i]), more[i]) {
      BytesAhead(ca, cb, acts, more, i);
    }
  }
}
