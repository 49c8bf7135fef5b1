/** Every step of the two-endpoint system keeps the invariant, so in every run the messages received
    are a prefix of the messages sent. */
module KcpDelivery {
  import opened Words
  import opened KcpWire
  import opened KcpCore
  import opened KcpInvariants
  import opened KcpNetwork

  // ----- fragments put a message together again -----

  /** Merging the fragments of a message gives the message back, and takes exactly its fragments. */
  lemma {:induction false} MergeFragments(q: seq<In>, mss: nat, data: Message, count: nat)
    requires mss > 0 && 0 < count <= |q|
    requires count == FragCount(mss, |data|)
    requires forall i :: 0 <= i < count ==> q[i].frag == Fragments(mss, data, count)[i]
    ensures MergeCount(q) == count && MergeData(q) == data
    decreases count
  {
    var size := if |data| > mss then mss else |data|;
    assert q[0].frag == Frag(count - 1, data[..size]);
    if count == 1 {
      assert data[..size] == data;
    } else {
      var rest := data[size..];
      assert (|data| + mss - 1) / mss == (|rest| + mss - 1) / mss + 1 by {
        assert |data| + mss - 1 == (|rest| + mss - 1) + mss;
        DivStep(|rest| + mss - 1, mss);
      }
      if |rest| <= mss {
        DivOne(|rest|, mss);
      }
      forall i | 0 <= i < count - 1 ensures q[1..][i].frag == Fragments(mss, rest, count - 1)[i] {
        assert q[i + 1].frag == Fragments(mss, data, count)[i + 1];
      }
      MergeFragments(q[1..], mss, rest, count - 1);
      assert data == data[..size] + rest;
    }
  }

  lemma DivStep(x: nat, d: nat)
    requires d > 0
    ensures (x + d) / d == x / d + 1
  {
    assert x == d * (x / d) + x % d;
    assert x + d == d * (x / d + 1) + x % d;
    DivUnique(x + d, d, x / d + 1, x % d);
  }

  lemma DivUnique(x: nat, d: nat, q: nat, r: nat)
    requires d > 0 && x == d * q + r && r < d
    ensures x / d == q
  {
    var e := x / d;
    assert x == d * e + x % d;
    if e < q {
      MulMonotone(d, e + 1, q);
    } else if q < e {
      MulMonotone(d, q + 1, e);
    }
  }

  lemma MulMonotone(d: nat, a: nat, b: nat)
    requires a <= b
    ensures d * a <= d * b
  {
  }

  lemma DivOne(x: nat, d: nat)
    requires d > 0 && 0 < x <= d
    ensures (x + d - 1) / d == 1
  {
    DivUnique(x + d - 1, d, 1, x - 1);
  }

  lemma FragsPrefix(cfg: Config, msgs: seq<Message>, g: nat)
    requires cfg.Mss() > 0 && g <= |msgs|
    ensures FragsOf(cfg, msgs[..g]) <= FragsOf(cfg, msgs)
    ensures g < |msgs| ==>
              var mss := cfg.Mss();
              FragsOf(cfg, msgs[..g + 1])
              == FragsOf(cfg, msgs[..g]) + Fragments(mss, msgs[g], FragCount(mss, |msgs[g]|))
  {
    if g == |msgs| {
      assert msgs[..g] == msgs;
    } else {
      assert msgs[..g + 1][..g] == msgs[..g];
      var n := |msgs| - 1;
      FragsPrefix(cfg, msgs[..n], g);
      assert msgs[..n][..g] == msgs[..g];
    }
  }

  // ----- the log only grows -----

  lemma LogGrows(log: seq<Frag>, n: nat, log': seq<Frag>, n': nat, rcv: Receiver, net: seq<seq<Packet>>)
    requires log <= log' && n <= n' <= |log'|
    requires ReceiverTrue(rcv, log, n) && Forward(net, log, n)
    ensures ReceiverTrue(rcv, log', n') && Forward(net, log', n')
  {
    assert forall sn, f :: Names(log, n, sn, f) ==> Names(log', n', sn, f);
    forall g, p | g in net && p in g ensures Encodable(p) && ForwardTrue(p, log', n') {
      assert ForwardTrue(p, log, n);
    }
  }

  // ----- events at `a` -----

  lemma SendStep(w: World<seq<Packet>>, msg: Message)
    requires WorldInv(w)
    ensures WorldInv(StepA(w, DoSend(msg)))
  {
    hide EndpointInv;
    hide Direction;
    hide Fragments;
    SendKeeps(Unbounded, w.a.cb, msg, |msg|);
    if Acceptable(w.a.cb.cfg, |msg|) {
      assert msg[..|msg|] == msg;
      SendDirection(w.a, w.b, w.ab, w.ba, msg);
      SendFrame(w, SendPeer(w.a, msg));
    }
  }

  /** The new fragments go to the end of the log and of the queue. */
  lemma SendDirection(a: Peer, b: Peer, there: seq<seq<Packet>>, back: seq<seq<Packet>>, msg: Message)
    requires Direction(a, b, there, back) && Acceptable(a.cb.cfg, |msg|)
    ensures Direction(SendPeer(a, msg), b, there, back)
  {
    hide Fragments;
    hide Held;
    var mss := a.cb.cfg.Mss();
    var a' := SendPeer(a, msg);
    assert msg[..|msg|] == msg;
    var log := FragsOf(a.cb.cfg, a.sent);
    var frags := Fragments(mss, msg, FragCount(mss, |msg|));
    assert a'.sent[..|a.sent|] == a.sent;
    assert FragsOf(a.cb.cfg, a'.sent) == log + frags;
    hide FragsOf;
    assert (log + frags)[a.cb.snd.nxt..] == log[a.cb.snd.nxt..] + frags;
    LogGrows(log, a.cb.snd.nxt, log + frags, a.cb.snd.nxt, b.cb.rcv, there);
    assert b.got == a'.sent[..|b.got|];
  }

  /** `a` as the receiver of the other direction is not touched by its sending. */
  lemma SendFrame(w: World<seq<Packet>>, a': Peer)
    requires WorldInv(w) && a'.cb.rcv == w.a.cb.rcv && a'.got == w.a.got
    ensures Direction(w.b, a', w.ba, w.ab)
  {
  }

  lemma RecvStep(w: World<seq<Packet>>, len: int)
    requires WorldInv(w)
    ensures WorldInv(StepA(w, DoRecv(len)))
  {
    hide FragsOf;
    hide MoveReady;
    hide PeekSize;
    hide MergeData;
    hide MergeCount;
    var a := w.a;
    var q := a.cb.rcv.queue;
    var size := PeekSize(q);
    RecvKeeps(Unbounded, a.cb, len);
    if q != [] && 0 <= size <= (if len < 0 then -len else len) {
      var left := if len < 0 then q else q[MergeCount(q)..];
      var a' := RecvPeer(Unbounded, a, len);
      Remaining(a.cb.rcv, left, a.cb.cfg.rcvWnd, FragsOf(w.b.cb.cfg, w.b.sent), w.b.cb.snd.nxt);
      RecvInOrder(w, len);
      RecvSender(w, a');
      RecvFrame(w, a');
    }
  }

  lemma RecvInOrder(w: World<seq<Packet>>, len: int)
    requires WorldInv(w)
    requires var q := w.a.cb.rcv.queue; q != [] && 0 <= PeekSize(q) <= (if len < 0 then -len else len)
    ensures InOrder(w.b, RecvPeer(Unbounded, w.a, len))
  {
    hide MoveReady;
    hide PeekSize;
    hide MergeData;
    hide FragsOf;
    var a := w.a;
    var q := a.cb.rcv.queue;
    var left := if len < 0 then q else q[MergeCount(q)..];
    Remaining(a.cb.rcv, left, a.cb.cfg.rcvWnd, FragsOf(w.b.cb.cfg, w.b.sent), w.b.cb.snd.nxt);
    hide ReceiverTrue;
    hide HoldsMore;
    if len >= 0 {
      NextMessage(w.b, a);
      assert w.b.sent[..|a.got| + 1] == a.got + [w.b.sent[|a.got|]];
    }
  }

  lemma Remaining(rcv: Receiver, left: seq<In>, wnd: nat, log: seq<Frag>, n: nat)
    requires wnd < TWO31 && RcvInv(Unbounded, rcv, wnd) && ReceiverTrue(rcv, log, n) && AcksTrue(rcv)
    requires |left| <= |rcv.queue| && left == rcv.queue[|rcv.queue| - |left|..]
    ensures var t := MoveReady(Unbounded, rcv.(queue := left), wnd);
            && ReceiverTrue(t, log, n) && HoldsMore(rcv, t) && AcksTrue(t) && t.nxt - |t.queue| == rcv.nxt - |left|
  {
    var mid := rcv.(queue := left);
    assert RcvInv(Unbounded, mid, wnd);
    assert ReceiverTrue(mid, log, n);
    assert HoldsMore(rcv, mid);
    MoveTrue(mid, wnd, log, n);
  }

  lemma RecvSender(w: World<seq<Packet>>, a': Peer)
    requires WorldInv(w)
    requires ReceiverTrue(a'.cb.rcv, FragsOf(w.b.cb.cfg, w.b.sent), w.b.cb.snd.nxt)
    requires AcksTrue(a'.cb.rcv) && HoldsMore(w.a.cb.rcv, a'.cb.rcv) && InOrder(w.b, a')
    ensures Direction(w.b, a', w.ba, w.ab)
  {
    hide EndpointInv;
    hide FragsOf;
    LostMonotone(w.b.cb.snd, w.a.cb.rcv, a'.cb.rcv);
    forall g, p | g in w.ab && p in g ensures BackwardTrue(p, a'.cb.rcv) {
      assert BackwardTrue(p, w.a.cb.rcv);
    }
  }

  /** The next complete message in the queue is the next message accepted by the other side. */
  lemma NextMessage(s: Peer, r: Peer)
    requires s.cb.cfg.Mss() > 0 && RcvInv(Unbounded, r.cb.rcv, r.cb.cfg.rcvWnd)
    requires ReceiverTrue(r.cb.rcv, FragsOf(s.cb.cfg, s.sent), s.cb.snd.nxt) && InOrder(s, r)
    requires r.cb.rcv.queue != [] && PeekSize(r.cb.rcv.queue) >= 0
    ensures |r.got| < |s.sent| && MergeData(r.cb.rcv.queue) == s.sent[|r.got|]
    ensures |FragsOf(s.cb.cfg, r.got + [s.sent[|r.got|]])|
         == |FragsOf(s.cb.cfg, r.got)| + MergeCount(r.cb.rcv.queue)
  {
    hide MergeData;
    hide MergeCount;
    hide Fragments;
    hide FragsOf;
    var cfg := s.cb.cfg;
    var mss := cfg.Mss();
    var q := r.cb.rcv.queue;
    var log := FragsOf(cfg, s.sent);
    var g := |r.got|;
    var d := |FragsOf(cfg, r.got)|;
    QueueFrags(r.cb.rcv, r.cb.cfg.rcvWnd, log, s.cb.snd.nxt);
    hide RcvInv;
    hide ReceiverTrue;
    hide PeekSize;
    assert q[0].frag == log[d];
    MoreToCome(s, r, log);
    var msg := s.sent[g];
    var count := FragCount(mss, |msg|);
    var frags := Fragments(mss, msg, count);
    FragsPrefix(cfg, s.sent, g);
    FragsPrefix(cfg, s.sent, g + 1);
    assert s.sent[..g + 1] == r.got + [msg];
    assert FragsOf(cfg, r.got + [msg]) == FragsOf(cfg, r.got) + frags;
    forall i | 0 <= i < count && i < |q| ensures q[i].frag == frags[i] {
      assert frags[i] == FragsOf(cfg, r.got + [msg])[d + i] == log[d + i];
    }
    FirstFragment(mss, msg, count);
    assert q[0].frag == frags[0];
    EnoughQueued(q, count);
    MergeFragments(q, mss, msg, count);
  }

  lemma EnoughQueued(q: seq<In>, count: nat)
    requires q != [] && PeekSize(q) >= 0 && count > 0 && q[0].frag.frg == count - 1
    ensures count <= |q|
  {
  }

  lemma MoreToCome(s: Peer, r: Peer, log: seq<Frag>)
    requires s.cb.cfg.Mss() > 0 && InOrder(s, r) && log == FragsOf(s.cb.cfg, s.sent)
    requires |FragsOf(s.cb.cfg, r.got)| < |log|
    ensures |r.got| < |s.sent|
  {
    assert s.sent[..|s.sent|] == s.sent;
  }

  lemma FirstFragment(mss: nat, data: Message, count: nat)
    requires count > 0
    ensures Fragments(mss, data, count)[0].frg == count - 1
  {
  }

  lemma QueueFrags(rcv: Receiver, wnd: nat, log: seq<Frag>, n: nat)
    requires RcvInv(Unbounded, rcv, wnd) && ReceiverTrue(rcv, log, n) && rcv.nxt >= |rcv.queue|
    ensures forall i :: 0 <= i < |rcv.queue| ==>
              var k := rcv.nxt - |rcv.queue| + i; k < |log| && rcv.queue[i].frag == log[k]
  {
    forall i | 0 <= i < |rcv.queue|
      ensures var k := rcv.nxt - |rcv.queue| + i; k < |log| && rcv.queue[i].frag == log[k]
    {
      assert Names(log, n, rcv.queue[i].sn, rcv.queue[i].frag);
    }
  }

  lemma RecvFrame(w: World<seq<Packet>>, a': Peer)
    requires WorldInv(w) && a'.cb.cfg == w.a.cb.cfg && a'.cb.snd == w.a.cb.snd && a'.sent == w.a.sent
    ensures Direction(a', w.b, w.ab, w.ba)
  {
  }

  /** Each segment flushed carries what its number names, and acknowledges only what is held here. */
  lemma FlushTrue(a: Peer, log: seq<Frag>)
    requires a.cb.ctl.updated && EndpointInv(Unbounded, a.cb) && AcksTrue(a.cb.rcv)
    requires SenderTrue(Filled(Unbounded, a.cb), log)
    ensures forall p :: p in Flush(Unbounded, a.cb).packets ==>
              && Encodable(p) && OVERHEAD + |p.data| <= a.cb.cfg.mtu
              && ForwardTrue(p, log, Filled(Unbounded, a.cb).nxt) && BackwardTrue(p, a.cb.rcv)
  {
    hide FillWindow;
    hide ProbeTimer;
    hide Transmit;
    hide AfterFlush;
    hide Held;
    var cb := a.cb;
    var ctl := ProbeTimer(cb.ctl);
    var wnd := WndUnused(cb) % 65536;
    var snd := Filled(Unbounded, cb);
    var t := Transmit(cb.cfg, ctl, wnd, cb.rcv.nxt, snd.buf);
    FlushedPackets(Unbounded, cb);
    hide EndpointInv;
    hide Encodable;
    TransmitSame(cb.cfg, ctl, wnd, cb.rcv.nxt, snd.buf);
    forall p | p in Flush(Unbounded, cb).packets
      ensures ForwardTrue(p, log, snd.nxt) && BackwardTrue(p, cb.rcv)
    {
      assert GoodPacket(Unbounded, cb, p);
      if p in t.packets {
        var i :| 0 <= i < |snd.buf| && p == DataPacket(snd.buf[i], ctl, wnd, cb.rcv.nxt);
        assert Names(log, snd.nxt, snd.buf[i].sn, snd.buf[i].frag);
      } else if p in AckPackets(cb.rcv, wnd) {
        var i :| 0 <= i < |cb.rcv.acks| && p == AckPackets(cb.rcv, wnd)[i];
        assert Held(cb.rcv, cb.rcv.acks[i].sn);
      } else {
        assert p in ProbePackets(ctl, cb.rcv, wnd);
      }
    }
  }

  /** More datagrams in the network, each of them truthful. */
  lemma NetGrows(net: seq<seq<Packet>>, mtu: nat, ps: seq<Packet>, log: seq<Frag>, n: nat, rcv: Receiver)
    requires Forward(net, log, n) && Backward(net, rcv)
    requires forall p :: p in ps ==>
               Encodable(p) && OVERHEAD + |p.data| <= mtu && ForwardTrue(p, log, n) && BackwardTrue(p, rcv)
    ensures Forward(net + Pack(mtu, ps), log, n) && Backward(net + Pack(mtu, ps), rcv)
  {
    hide Pack;
    hide BackwardTrue;
    hide Encodable;
    PackExact(mtu, ps);
    var net' := net + Pack(mtu, ps);
    forall g, p | g in net' && p in g
      ensures Encodable(p) && ForwardTrue(p, log, n) && BackwardTrue(p, rcv)
    {
      if g !in net {
        assert p in ps;
      }
    }
  }

  lemma FlushStep(w: World<seq<Packet>>)
    requires WorldInv(w)
    ensures WorldInv(StepA(w, DoFlush))
  {
    var f := Flush(Unbounded, w.a.cb);
    if w.a.cb.ctl.updated {
      FlushForward(w);
      FlushFrame(w, f.cb, w.ab + Pack(w.a.cb.cfg.mtu, f.packets));
      hide Direction;
      hide EndpointInv;
      hide Flush;
      hide Pack;
    } else {
      assert Pack(w.a.cb.cfg.mtu, []) == [];
      assert w.ab + [] == w.ab;
    }
  }

  lemma FlushForward(w: World<seq<Packet>>)
    requires WorldInv(w) && w.a.cb.ctl.updated
    ensures var cb, f := w.a.cb, Flush(Unbounded, w.a.cb);
            && EndpointInv(Unbounded, f.cb) && f.cb.cfg == cb.cfg && f.cb.rcv == cb.rcv.(acks := [])
            && Backward(w.ab + Pack(cb.cfg.mtu, f.packets), cb.rcv)
            && Direction(w.a.(cb := f.cb), w.b, w.ab + Pack(cb.cfg.mtu, f.packets), w.ba)
  {
    hide FillWindow;
    hide ProbeTimer;
    hide Transmit;
    hide AfterFlush;
    hide Pack;
    hide FragsOf;
    hide SenderTrue;
    hide ReceiverTrue;
    hide NothingLost;
    hide Forward;
    hide Backward;
    hide AcksTrue;
    var a := w.a;
    var f := Flush(Unbounded, a.cb);
    var log := FragsOf(a.cb.cfg, a.sent);
    var ctl := ProbeTimer(a.cb.ctl);
    var wnd := WndUnused(a.cb) % 65536;
    var snd := Filled(Unbounded, a.cb);
    var t := Transmit(a.cb.cfg, ctl, wnd, a.cb.rcv.nxt, snd.buf);
    FlushKeeps(Unbounded, a.cb);
    FillTrue(a.cb, log, w.b.cb.rcv);
    FlushTrue(a, log);
    hide EndpointInv;
    TransmitSame(a.cb.cfg, ctl, wnd, a.cb.rcv.nxt, snd.buf);
    SameTrue(snd, t.buf, log, w.b.cb.rcv);
    LogGrows(log, a.cb.snd.nxt, log, snd.nxt, w.b.cb.rcv, w.ab);
    NetGrows(w.ab, a.cb.cfg.mtu, f.packets, log, snd.nxt, a.cb.rcv);
  }

  /** Clearing the acknowledgement list does not change what is held. */
  lemma FlushFrame(w: World<seq<Packet>>, cb: Cb, net: seq<seq<Packet>>)
    requires WorldInv(w) && cb.rcv == w.a.cb.rcv.(acks := []) && Backward(net, w.a.cb.rcv)
    ensures Direction(w.b, w.a.(cb := cb), w.ba, net)
  {
    assert forall sn: nat :: Held(w.a.cb.rcv, sn) <==> Held(cb.rcv, sn);
    forall g, p | g in net && p in g ensures BackwardTrue(p, cb.rcv) {
      assert BackwardTrue(p, w.a.cb.rcv);
    }
  }

  lemma UpdateStep(w: World<seq<Packet>>, now: nat)
    requires WorldInv(w) && now < TWO32
    ensures WorldInv(StepA(w, DoUpdate(now)))
  {
    hide Flush;
    hide Pack;
    var (ctl, due) := Tick(w.a.cb.cfg, w.a.cb.ctl, now);
    var w1 := w.(a := w.a.(cb := w.a.cb.(ctl := ctl)));
    ControlFrame(w, ctl);
    if due {
      FlushStep(w1);
      assert StepA(w, DoUpdate(now)) == StepA(w1, DoFlush);
    } else {
      NothingPacked(w.a.cb.cfg.mtu);
      assert StepA(w, DoUpdate(now)) == w1;
    }
  }

  lemma NothingPacked(mtu: nat)
    ensures Pack(mtu, []) == []
  {
  }

  lemma ControlFrame(w: World<seq<Packet>>, ctl: Control)
    requires WorldInv(w) && ctl.current < TWO32
    ensures WorldInv(w.(a := w.a.(cb := w.a.cb.(ctl := ctl))))
  {
  }

  // ----- a datagram arrives at `a` -----

  lemma PacketStep(w: World<seq<Packet>>, p: Packet)
    requires WorldInv(w) && Encodable(p)
    requires ForwardTrue(p, FragsOf(w.b.cb.cfg, w.b.sent), w.b.cb.snd.nxt) && BackwardTrue(p, w.b.cb.rcv)
    ensures WorldInv(w.(a := w.a.(cb := OnPacket(Unbounded, w.a.cb, p))))
  {
    hide ParsePush;
    hide ParseUna;
    hide ParseAck;
    hide FragsOf;
    var a := w.a;
    var cb := OnPacket(Unbounded, a.cb, p);
    var log := FragsOf(a.cb.cfg, a.sent);
    OnPacketKeeps(Unbounded, a.cb, p);
    ParseUnaTrue(a.cb.snd, p.una, log, w.b.cb.rcv);
    var s := ParseUna(Unbounded, a.cb.snd, p.una);
    assert s.nxt == a.cb.snd.nxt by {
      ParseUnaKeeps(Unbounded, a.cb.snd, p.una, a.cb.cfg.sndWnd);
    }
    if p.cmd == CMD_ACK {
      ParseAckTrue(s, p.sn, log, w.b.cb.rcv);
    } else if p.cmd == CMD_PUSH {
      PushTrue(a.cb.rcv, a.cb.cfg.rcvWnd, p, FragsOf(w.b.cb.cfg, w.b.sent), w.b.cb.snd.nxt);
    }
    hide EndpointInv;
    DeliverSender(w, cb);
    DeliverReceiver(w, cb);
  }

  lemma DeliverSender(w: World<seq<Packet>>, cb: Cb)
    requires WorldInv(w) && cb.cfg == w.a.cb.cfg && cb.snd.nxt == w.a.cb.snd.nxt
    requires SenderTrue(cb.snd, FragsOf(cb.cfg, w.a.sent)) && NothingLost(cb.snd, w.b.cb.rcv)
    ensures Direction(w.a.(cb := cb), w.b, w.ab, w.ba)
  {
    hide EndpointInv;
  }

  lemma DeliverReceiver(w: World<seq<Packet>>, cb: Cb)
    requires WorldInv(w)
    requires ReceiverTrue(cb.rcv, FragsOf(w.b.cb.cfg, w.b.sent), w.b.cb.snd.nxt)
    requires AcksTrue(cb.rcv) && HoldsMore(w.a.cb.rcv, cb.rcv)
    requires cb.rcv.nxt - |cb.rcv.queue| == w.a.cb.rcv.nxt - |w.a.cb.rcv.queue|
    ensures Direction(w.b, w.a.(cb := cb), w.ba, w.ab)
  {
    RecvSender(w, w.a.(cb := cb));
  }

  lemma {:induction false} PacketsStep(w: World<seq<Packet>>, ps: seq<Packet>)
    requires WorldInv(w)
    requires forall i :: 0 <= i < |ps| ==>
               && Encodable(ps[i]) && BackwardTrue(ps[i], w.b.cb.rcv)
               && ForwardTrue(ps[i], FragsOf(w.b.cb.cfg, w.b.sent), w.b.cb.snd.nxt)
    ensures WorldInv(w.(a := w.a.(cb := OnPackets(Unbounded, w.a.cb, ps))))
    decreases |ps|
  {
    hide WorldInv;
    hide Encodable;
    hide BackwardTrue;
    hide OnPacket;
    if ps == [] {
      assert w.(a := w.a.(cb := w.a.cb)) == w;
    } else {
      PacketStep(w, ps[0]);
      PacketsStep(w.(a := w.a.(cb := OnPacket(Unbounded, w.a.cb, ps[0]))), ps[1..]);
    }
  }

  lemma FinishStep(w: World<seq<Packet>>, prevUna: nat, x: MaxAck)
    requires WorldInv(w)
    ensures WorldInv(w.(a := w.a.(cb := Finish(Unbounded, w.a.cb, prevUna, x))))
  {
    hide Finish;
    var cb := Finish(Unbounded, w.a.cb, prevUna, x);
    FinishKeeps(Unbounded, w.a.cb, prevUna, x);
    SameTrue(w.a.cb.snd, cb.snd.buf, FragsOf(w.a.cb.cfg, w.a.sent), w.b.cb.rcv);
    DeliverSender(w, cb);
    assert forall sn: nat :: Held(w.a.cb.rcv, sn) ==> Held(cb.rcv, sn);
    DeliverReceiver(w, cb);
  }

  lemma DeliverStep(w: World<seq<Packet>>, i: nat)
    requires WorldInv(w)
    ensures WorldInv(StepA(w, Deliver(i)))
  {
    hide FragsOf;
    if i < |w.ba| {
      var ps := w.ba[i];
      InNetwork(w, i);
      hide WorldInv;
      hide OnPackets;
      hide Finish;
      hide NoteAcks;
      PacketsStep(w, ps);
      var w1 := w.(a := w.a.(cb := OnPackets(Unbounded, w.a.cb, ps)));
      FinishStep(w1, w.a.cb.snd.una, NoteAcks(Unbounded, NoAck, ps));
      assert StepA(w, Deliver(i)) == w1.(a := w1.a.(cb := InputPackets(Unbounded, w.a.cb, ps)));
    }
  }

  lemma InNetwork(w: World<seq<Packet>>, i: nat)
    requires WorldInv(w) && i < |w.ba|
    ensures forall j :: 0 <= j < |w.ba[i]| ==>
              && Encodable(w.ba[i][j]) && BackwardTrue(w.ba[i][j], w.b.cb.rcv)
              && ForwardTrue(w.ba[i][j], FragsOf(w.b.cb.cfg, w.b.sent), w.b.cb.snd.nxt)
  {
    hide EndpointInv;
    hide FragsOf;
    var ps := w.ba[i];
    forall j | 0 <= j < |ps|
      ensures && Encodable(ps[j]) && BackwardTrue(ps[j], w.b.cb.rcv)
              && ForwardTrue(ps[j], FragsOf(w.b.cb.cfg, w.b.sent), w.b.cb.snd.nxt)
    {
      assert ps in w.ba && ps[j] in ps;
    }
  }

  // ----- every run -----

  lemma EventKeeps(w: World<seq<Packet>>, act: Action)
    requires WorldInv(w) && Legal(act)
    ensures WorldInv(StepA(w, act.ev))
  {
    hide WorldInv;
    hide StepA;
    match act.ev
    case DoSend(msg) => SendStep(w, msg);
    case DoRecv(len) => RecvStep(w, len);
    case DoFlush => FlushStep(w);
    case DoUpdate(now) => UpdateStep(w, now);
    case Deliver(i) => DeliverStep(w, i);
  }

  lemma StepKeeps(w: World<seq<Packet>>, act: Action)
    requires WorldInv(w) && Legal(act)
    ensures WorldInv(Step(w, act))
  {
    hide WorldInv;
    hide StepA;
    if act.atB {
      FlipInv(w);
      EventKeeps(Flip(w), act);
      FlipInv(StepA(Flip(w), act.ev));
    } else {
      EventKeeps(w, act);
    }
  }

  lemma FlipInv(w: World<seq<Packet>>)
    requires WorldInv(w)
    ensures WorldInv(Flip(w))
  {
    hide EndpointInv;
    hide Direction;
  }

  function RunWorld(w: World<seq<Packet>>, acts: seq<Action>): World<seq<Packet>> {
    if acts == [] then w else Step(RunWorld(w, acts[..|acts| - 1]), acts[|acts| - 1])
  }

  lemma StartInv(ca: Config, cb: Config)
    requires Paired(ca, cb)
    ensures WorldInv(Start(ca, cb))
  {
  }

  lemma {:induction false} RunWorldKeeps(ca: Config, cb: Config, acts: seq<Action>)
    requires Paired(ca, cb)
    requires forall i :: 0 <= i < |acts| ==> Legal(acts[i])
    ensures WorldInv(RunWorld(Start(ca, cb), acts))
    decreases |acts|
  {
    hide WorldInv;
    if acts == [] {
      StartInv(ca, cb);
    } else {
      RunWorldKeeps(ca, cb, acts[..|acts| - 1]);
      StepKeeps(RunWorld(Start(ca, cb), acts[..|acts| - 1]), acts[|acts| - 1]);
    }
  }

  // ----- delivery has its effect -----

  /** What a sender still keeps is part of what it kept. */
  ghost predicate KeepsLess(s: Sender, t: Sender) {
    forall sn: nat :: InBuf(t, sn) ==> InBuf(s, sn)
  }

  /** After `una`, exactly the segments not before it are kept. */
  lemma UnaReleases(snd: Sender, una: nat, wnd: nat)
    requires SndInv(Unbounded, snd, wnd)
    ensures forall sn: nat :: InBuf(ParseUna(Unbounded, snd, una), sn) <==> InBuf(snd, sn) && sn >= una
  {
    var t := ParseUna(Unbounded, snd, una);
    var k := DropUnaSuffix(Unbounded, snd.buf, una);
    forall sn: nat ensures InBuf(t, sn) <==> InBuf(snd, sn) && sn >= una {
      if InBuf(t, sn) {
        var i :| 0 <= i < |t.buf| && t.buf[i].sn == sn;
        assert snd.buf[i + k].sn == sn && snd.buf[k].sn <= sn;
      }
      if InBuf(snd, sn) && sn >= una {
        var i :| 0 <= i < |snd.buf| && snd.buf[i].sn == sn;
        assert t.buf[i - k].sn == sn;
      }
    }
  }

  ghost predicate HasSn(buf: seq<Out>, sn: nat) {
    exists i :: 0 <= i < |buf| && buf[i].sn == sn
  }

  lemma HasSnFront(buf: seq<Out>, sn: nat)
    requires buf != []
    ensures HasSn(buf, sn) <==> buf[0].sn == sn || HasSn(buf[1..], sn)
  {
    if HasSn(buf, sn) {
      var i :| 0 <= i < |buf| && buf[i].sn == sn;
      if i > 0 {
        assert buf[1..][i - 1].sn == sn;
      }
    }
    if HasSn(buf[1..], sn) {
      var i :| 0 <= i < |buf[1..]| && buf[1..][i].sn == sn;
      assert buf[i + 1].sn == sn;
    }
  }

  lemma RemoveEffect(buf: seq<Out>, sn: nat, x: nat)
    requires forall i, j :: 0 <= i < j < |buf| ==> buf[i].sn < buf[j].sn
    ensures HasSn(RemoveSn(Unbounded, buf, sn), x) <==> HasSn(buf, x) && x != sn
  {
    if buf != [] {
      HasSnFront(buf, x);
      RemoveEffect(buf[1..], sn, x);
      if sn > buf[0].sn {
        var r := [buf[0]] + RemoveSn(Unbounded, buf[1..], sn);
        HasSnFront(r, x);
        assert r[1..] == RemoveSn(Unbounded, buf[1..], sn);
      }
    }
  }

  /** An acknowledged segment is released, and no other. */
  lemma AckReleases(snd: Sender, sn: nat, wnd: nat)
    requires SndInv(Unbounded, snd, wnd)
    ensures forall x: nat :: InBuf(ParseAck(Unbounded, snd, sn), x) <==> InBuf(snd, x) && x != sn
  {
    forall i, j | 0 <= i < j < |snd.buf| ensures snd.buf[i].sn < snd.buf[j].sn {
      assert Diff(Unbounded, snd.buf[i].sn, snd.una) < Diff(Unbounded, snd.buf[j].sn, snd.una);
    }
    var t := ParseAck(Unbounded, snd, sn);
    forall x: nat ensures InBuf(t, x) <==> InBuf(snd, x) && x != sn {
      RemoveEffect(snd.buf, sn, x);
      assert InBuf(t, x) <==> HasSn(t.buf, x);
      assert InBuf(snd, x) <==> HasSn(snd.buf, x);
    }
  }

  /** A data segment inside the window is held afterwards, and acknowledged. */
  lemma PushHeld(rcv: Receiver, wnd: nat, p: Packet, log: seq<Frag>, n: nat)
    requires wnd < TWO31 && RcvInv(Unbounded, rcv, wnd) && ReceiverTrue(rcv, log, n)
    requires Encodable(p) && Names(log, n, p.sn, Frag(p.frg, p.data)) && p.sn < rcv.nxt + wnd
    ensures var t := ParsePush(Unbounded, rcv, wnd, p);
            Held(t, p.sn) && t.acks == rcv.acks + [Ack(p.sn, p.ts)]
  {
    hide MoveReady;
    hide Insert;
    hide RcvOrdered;
    var acked := rcv.(acks := rcv.acks + [Ack(p.sn, p.ts)]);
    if p.sn >= rcv.nxt {
      var seg := In(p.sn, Frag(p.frg, p.data));
      InsertKeeps(Unbounded, rcv.buf, rcv.nxt, wnd, seg);
      InsertTrue(acked, wnd, seg, log, n);
      MoveTrue(acked.(buf := Insert(Unbounded, acked.buf, seg)), wnd, log, n);
    }
  }

  lemma OnPacketEffect(w: World<seq<Packet>>, p: Packet)
    requires WorldInv(w) && Encodable(p)
    requires ForwardTrue(p, FragsOf(w.b.cb.cfg, w.b.sent), w.b.cb.snd.nxt) && BackwardTrue(p, w.b.cb.rcv)
    ensures var cb := OnPacket(Unbounded, w.a.cb, p);
            && HoldsMore(w.a.cb.rcv, cb.rcv) && KeepsLess(w.a.cb.snd, cb.snd) && cb.cfg == w.a.cb.cfg
            && (p.cmd == CMD_PUSH && p.sn < w.a.cb.rcv.nxt + cb.cfg.rcvWnd ==> Held(cb.rcv, p.sn))
            && (p.cmd == CMD_ACK ==> !InBuf(cb.snd, p.sn))
            && forall sn: nat :: sn < p.una ==> !InBuf(cb.snd, sn)
  {
    hide ParsePush;
    hide ParseUna;
    hide ParseAck;
    hide FragsOf;
    hide Held;
    hide InBuf;
    var a := w.a.cb;
    var s := ParseUna(Unbounded, a.snd, p.una);
    UnaReleases(a.snd, p.una, a.cfg.sndWnd);
    ParseUnaKeeps(Unbounded, a.snd, p.una, a.cfg.sndWnd);
    if p.cmd == CMD_ACK {
      AckReleases(s, p.sn, a.cfg.sndWnd);
    } else if p.cmd == CMD_PUSH {
      PushTrue(a.rcv, a.cfg.rcvWnd, p, FragsOf(w.b.cb.cfg, w.b.sent), w.b.cb.snd.nxt);
      if p.sn < a.rcv.nxt + a.cfg.rcvWnd {
        PushHeld(a.rcv, a.cfg.rcvWnd, p, FragsOf(w.b.cb.cfg, w.b.sent), w.b.cb.snd.nxt);
      }
    }
  }

  /** Whatever a datagram carries takes effect when it is processed, wherever in the datagram it is. */
  lemma {:induction false} OnPacketsEffect(w: World<seq<Packet>>, ps: seq<Packet>)
    requires WorldInv(w)
    requires forall i :: 0 <= i < |ps| ==>
               && Encodable(ps[i]) && BackwardTrue(ps[i], w.b.cb.rcv)
               && ForwardTrue(ps[i], FragsOf(w.b.cb.cfg, w.b.sent), w.b.cb.snd.nxt)
    ensures var cb := OnPackets(Unbounded, w.a.cb, ps);
            && HoldsMore(w.a.cb.rcv, cb.rcv) && KeepsLess(w.a.cb.snd, cb.snd) && cb.cfg == w.a.cb.cfg
            && forall i :: 0 <= i < |ps| ==>
                 && (ps[i].cmd == CMD_PUSH && ps[i].sn < w.a.cb.rcv.nxt + cb.cfg.rcvWnd ==> Held(cb.rcv, ps[i].sn))
                 && (ps[i].cmd == CMD_ACK ==> !InBuf(cb.snd, ps[i].sn))
    decreases |ps|
  {
    hide WorldInv;
    hide Encodable;
    hide BackwardTrue;
    hide ForwardTrue;
    hide OnPacket;
    hide Held;
    hide InBuf;
    if ps != [] {
      OnPacketEffect(w, ps[0]);
      PacketStep(w, ps[0]);
      var v := w.(a := w.a.(cb := OnPacket(Unbounded, w.a.cb, ps[0])));
      OnPacketsEffect(v, ps[1..]);
      var cb := OnPackets(Unbounded, w.a.cb, ps);
      forall i | 0 <= i < |ps|
        ensures ps[i].cmd == CMD_PUSH && ps[i].sn < w.a.cb.rcv.nxt + cb.cfg.rcvWnd ==> Held(cb.rcv, ps[i].sn)
        ensures ps[i].cmd == CMD_ACK ==> !InBuf(cb.snd, ps[i].sn)
      {
        if i > 0 {
          assert ps[i] == ps[1..][i - 1];
        }
      }
    }
  }

  /** Delivery is not idle: when a datagram arrives at `a`, every data segment of it inside the receive
      window is held afterwards, and every segment it acknowledges has been released. */
  lemma DeliveryEffect(w: World<seq<Packet>>, i: nat)
    requires WorldInv(w) && i < |w.ba|
    ensures var v := StepA(w, Deliver(i));
            forall j :: 0 <= j < |w.ba[i]| ==>
              var p := w.ba[i][j];
              && (p.cmd == CMD_PUSH && p.sn < w.a.cb.rcv.nxt + w.a.cb.cfg.rcvWnd ==> Held(v.a.cb.rcv, p.sn))
              && (p.cmd == CMD_ACK ==> !InBuf(v.a.cb.snd, p.sn))
  {
    var ps := w.ba[i];
    forall j | 0 <= j < |ps|
      ensures && Encodable(ps[j]) && BackwardTrue(ps[j], w.b.cb.rcv)
              && ForwardTrue(ps[j], FragsOf(w.b.cb.cfg, w.b.sent), w.b.cb.snd.nxt)
    {
      assert ps in w.ba && ps[j] in ps;
    }
    hide OnPackets;
    hide Finish;
    hide NoteAcks;
    OnPacketsEffect(w, ps);
    PacketsStep(w, ps);
    var mid := OnPackets(Unbounded, w.a.cb, ps);
    var cb := InputPackets(Unbounded, w.a.cb, ps);
    FinishKeeps(Unbounded, mid, w.a.cb.snd.una, NoteAcks(Unbounded, NoAck, ps));
    hide WorldInv;
    forall sn: nat | InBuf(cb.snd, sn) ensures InBuf(mid.snd, sn) {
      var k :| 0 <= k < |cb.snd.buf| && cb.snd.buf[k].sn == sn;
      assert mid.snd.buf[k].sn == sn;
    }
  }
}
