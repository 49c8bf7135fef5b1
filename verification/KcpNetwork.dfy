/** Two endpoints joined by a network that may lose, duplicate, delay and reorder datagrams.

    Here sequence numbers are unbounded and datagrams are lists of segments; KcpRefinement.dfy carries
    the results over to 32-bit numbers and bytes.
 */
module KcpNetwork {
  import opened Words
  import opened KcpWire
  import opened KcpCore
  import opened KcpInvariants

  type Message = seq<Byte>

  /** An endpoint with what its application has handed over and what it has been given. */
  datatype Peer = Peer(cb: Cb, sent: seq<Message>, got: seq<Message>)

  /** `ab` and `ba` hold every datagram ever put out. Delivery does not remove one: it may be delivered
      never, once or many times, in any order. */
  datatype World<D> = World(a: Peer, b: Peer, ab: seq<D>, ba: seq<D>)

  function Flip<D>(w: World<D>): World<D> {
    World(w.b, w.a, w.ba, w.ab)
  }

  datatype Event =
    | DoSend(msg: Message)
    | DoRecv(len: int)
    | DoFlush
    | DoUpdate(now: nat)
    | Deliver(i: nat)

  /** An event at endpoint `a`, or at endpoint `b`. */
  datatype Action = Action(atB: bool, ev: Event)

  predicate Legal(act: Action) {
    act.ev.DoUpdate? ==> act.ev.now < TWO32
  }

  function SendPeer(p: Peer, msg: Message): Peer {
    if p.cb.cfg.Mss() == 0 then p
    else
      var r := Send(p.cb, msg, |msg|);
      Peer(r.cb, if r.code == 0 then p.sent + [msg] else p.sent, p.got)
  }

  function RecvPeer(m: Numbering, p: Peer, len: int): Peer {
    var r := Recv(m, p.cb, len);
    Peer(r.cb, p.sent, if len >= 0 && r.code >= 0 then p.got + [r.data] else p.got)
  }

  function StepA(w: World<seq<Packet>>, ev: Event): World<seq<Packet>> {
    match ev
    case DoSend(msg) => w.(a := SendPeer(w.a, msg))
    case DoRecv(len) => w.(a := RecvPeer(Unbounded, w.a, len))
    case DoFlush =>
      var f := Flush(Unbounded, w.a.cb);
      w.(a := w.a.(cb := f.cb), ab := w.ab + Pack(w.a.cb.cfg.mtu, f.packets))
    case DoUpdate(now) =>
      var f := Update(Unbounded, w.a.cb, now);
      w.(a := w.a.(cb := f.cb), ab := w.ab + Pack(w.a.cb.cfg.mtu, f.packets))
    case Deliver(i) =>
      if i < |w.ba| then w.(a := w.a.(cb := InputPackets(Unbounded, w.a.cb, w.ba[i]))) else w
  }

  function Step(w: World<seq<Packet>>, act: Action): World<seq<Packet>> {
    if act.atB then Flip(StepA(Flip(w), act.ev)) else StepA(w, act.ev)
  }

  function Start<D>(ca: Config, cb: Config): World<D> {
    World(Peer(Create(ca), [], []), Peer(Create(cb), [], []), [], [])
  }

  // ----- one direction: from sender `s` to receiver `r` -----

  /** All fragments of the messages accepted, in order. Sequence number `k` names the k-th. */
  function FragsOf(cfg: Config, msgs: seq<Message>): seq<Frag>
    requires cfg.Mss() > 0
  {
    if msgs == [] then []
    else
      var last := msgs[|msgs| - 1];
      FragsOf(cfg, msgs[..|msgs| - 1]) + Fragments(cfg.Mss(), last, FragCount(cfg.Mss(), |last|))
  }

  /** Number `sn` has been given out and names this fragment. */
  predicate Names(log: seq<Frag>, n: nat, sn: nat, f: Frag) {
    sn < n <= |log| && log[sn] == f
  }

  ghost predicate SenderTrue(snd: Sender, log: seq<Frag>) {
    && snd.nxt <= |log| && snd.queue == log[snd.nxt..]
    && forall i :: 0 <= i < |snd.buf| ==> Names(log, snd.nxt, snd.buf[i].sn, snd.buf[i].frag)
  }

  ghost predicate ReceiverTrue(rcv: Receiver, log: seq<Frag>, n: nat) {
    && rcv.nxt <= n <= |log|
    && (forall i :: 0 <= i < |rcv.buf| ==> Names(log, n, rcv.buf[i].sn, rcv.buf[i].frag))
    && (forall i :: 0 <= i < |rcv.queue| ==> Names(log, n, rcv.queue[i].sn, rcv.queue[i].frag))
  }

  /** The receiver has the segment: delivered, queued, or buffered out of order. */
  ghost predicate Held(rcv: Receiver, sn: nat) {
    sn < rcv.nxt || exists i :: 0 <= i < |rcv.buf| && rcv.buf[i].sn == sn
  }

  /** A segment travelling with the data: what it carries is what its number names. */
  predicate ForwardTrue(p: Packet, log: seq<Frag>, n: nat) {
    p.cmd == CMD_PUSH ==> Names(log, n, p.sn, Frag(p.frg, p.data))
  }

  /** A segment travelling against the data: everything it acknowledges is held. */
  ghost predicate BackwardTrue(p: Packet, rcv: Receiver) {
    p.una <= rcv.nxt && (p.cmd == CMD_ACK ==> Held(rcv, p.sn))
  }

  ghost predicate AcksTrue(rcv: Receiver) {
    forall i :: 0 <= i < |rcv.acks| ==> Held(rcv, rcv.acks[i].sn)
  }

  /** No premature release: a number given out and no longer in the send buffer is held by the receiver. */
  ghost predicate NothingLost(snd: Sender, rcv: Receiver) {
    forall sn :: 0 <= sn < snd.nxt && !Held(rcv, sn) ==> InBuf(snd, sn)
  }

  ghost predicate InBuf(snd: Sender, sn: nat) {
    exists i :: 0 <= i < |snd.buf| && snd.buf[i].sn == sn
  }

  /** The messages given out are the first ones accepted, and exactly their fragments have left the queue. */
  ghost predicate InOrder(s: Peer, r: Peer)
    requires s.cb.cfg.Mss() > 0
  {
    && |r.got| <= |s.sent| && r.got == s.sent[..|r.got|]
    && r.cb.rcv.nxt == |FragsOf(s.cb.cfg, r.got)| + |r.cb.rcv.queue|
  }

  ghost predicate Forward(net: seq<seq<Packet>>, log: seq<Frag>, n: nat) {
    forall g, p :: g in net && p in g ==> Encodable(p) && ForwardTrue(p, log, n)
  }

  ghost predicate Backward(net: seq<seq<Packet>>, rcv: Receiver) {
    forall g, p :: g in net && p in g ==> BackwardTrue(p, rcv)
  }

  ghost predicate Direction(s: Peer, r: Peer, there: seq<seq<Packet>>, back: seq<seq<Packet>>) {
    && s.cb.cfg.Mss() > 0
    && var log := FragsOf(s.cb.cfg, s.sent);
    && SenderTrue(s.cb.snd, log)
    && ReceiverTrue(r.cb.rcv, log, s.cb.snd.nxt)
    && AcksTrue(r.cb.rcv)
    && NothingLost(s.cb.snd, r.cb.rcv)
    && InOrder(s, r)
    && Forward(there, log, s.cb.snd.nxt)
    && Backward(back, r.cb.rcv)
  }

  /** Endpoints of one conversation. A window's worth of unacknowledged data beyond a full receive window
      stays within half the number space. */
  predicate Paired(x: Config, y: Config) {
    && x.Good() && y.Good() && x.conv == y.conv && x.token == y.token
    && x.sndWnd + y.rcvWnd < TWO31 && y.sndWnd + x.rcvWnd < TWO31
  }

  ghost predicate WorldInv(w: World<seq<Packet>>) {
    && EndpointInv(Unbounded, w.a.cb) && EndpointInv(Unbounded, w.b.cb)
    && Paired(w.a.cb.cfg, w.b.cb.cfg)
    && Direction(w.a, w.b, w.ab, w.ba)
    && Direction(w.b, w.a, w.ba, w.ab)
  }

  // ----- what the receiver's own operations keep -----

  /** `t` follows `r` in a receiver's life: it holds no less. */
  ghost predicate HoldsMore(r: Receiver, t: Receiver) {
    r.nxt <= t.nxt && forall sn: nat :: Held(r, sn) ==> Held(t, sn)
  }

  lemma MoveTrue(rcv: Receiver, wnd: nat, log: seq<Frag>, n: nat)
    requires wnd < TWO31 && RcvInv(Unbounded, rcv, wnd) && ReceiverTrue(rcv, log, n)
    ensures var t := MoveReady(Unbounded, rcv, wnd);
            && RcvInv(Unbounded, t, wnd) && ReceiverTrue(t, log, n) && HoldsMore(rcv, t)
            && t.acks == rcv.acks && t.nxt - |t.queue| == rcv.nxt - |rcv.queue|
            && t.nxt - rcv.nxt <= |rcv.buf|
  {
    hide RcvInv;
    hide MoveReady;
    var t := MoveReady(Unbounded, rcv, wnd);
    var k := MoveKeeps(Unbounded, rcv, wnd);
    forall sn: nat | Held(rcv, sn) ensures Held(t, sn) {
      if sn >= t.nxt {
        var i :| 0 <= i < |rcv.buf| && rcv.buf[i].sn == sn;
        assert i >= k;
        assert t.buf[i - k].sn == sn;
      }
    }
    if k > 0 {
      assert rcv.buf[k - 1].sn == rcv.nxt + (k - 1);
    }
  }

  lemma InsertTrue(rcv: Receiver, wnd: nat, seg: In, log: seq<Frag>, n: nat)
    requires ReceiverTrue(rcv, log, n) && Names(log, n, seg.sn, seg.frag)
    ensures var t := rcv.(buf := Insert(Unbounded, rcv.buf, seg));
            ReceiverTrue(t, log, n) && HoldsMore(rcv, t) && Held(t, seg.sn)
  {
    var k := InsertAt(Unbounded, rcv.buf, seg.sn);
    var t := rcv.(buf := Insert(Unbounded, rcv.buf, seg));
    if k > 0 && rcv.buf[k - 1].sn == seg.sn {
    } else {
      assert t.buf[k] == seg;
      forall i | 0 <= i < |t.buf|
        ensures t.buf[i] == if i < k then rcv.buf[i] else if i == k then seg else rcv.buf[i - 1]
      {
      }
      forall sn: nat | Held(rcv, sn) ensures Held(t, sn) {
        if sn >= rcv.nxt {
          var i :| 0 <= i < |rcv.buf| && rcv.buf[i].sn == sn;
          assert t.buf[if i < k then i else i + 1].sn == sn;
        }
      }
    }
  }

  lemma PushTrue(rcv: Receiver, wnd: nat, p: Packet, log: seq<Frag>, n: nat)
    requires wnd < TWO31 && RcvInv(Unbounded, rcv, wnd) && ReceiverTrue(rcv, log, n) && AcksTrue(rcv)
    requires Encodable(p) && Names(log, n, p.sn, Frag(p.frg, p.data))
    ensures var t := ParsePush(Unbounded, rcv, wnd, p);
            && ReceiverTrue(t, log, n) && HoldsMore(rcv, t) && AcksTrue(t)
            && t.nxt - |t.queue| == rcv.nxt - |rcv.queue|
  {
    hide MoveReady;
    hide Insert;
    hide RcvOrdered;
    if p.sn < rcv.nxt + wnd {
      var acked := rcv.(acks := rcv.acks + [Ack(p.sn, p.ts)]);
      assert forall sn: nat :: Held(rcv, sn) ==> Held(acked, sn);
      if p.sn >= rcv.nxt {
        var seg := In(p.sn, Frag(p.frg, p.data));
        var ins := acked.(buf := Insert(Unbounded, acked.buf, seg));
        InsertKeeps(Unbounded, rcv.buf, rcv.nxt, wnd, seg);
        InsertTrue(acked, wnd, seg, log, n);
        MoveTrue(ins, wnd, log, n);
      }
    }
  }

  // ----- what the sender's own operations keep -----

  lemma ParseUnaTrue(snd: Sender, una: nat, log: seq<Frag>, rcv: Receiver)
    requires SenderTrue(snd, log) && NothingLost(snd, rcv) && una <= rcv.nxt
    ensures SenderTrue(ParseUna(Unbounded, snd, una), log) && NothingLost(ParseUna(Unbounded, snd, una), rcv)
  {
    var t := ParseUna(Unbounded, snd, una);
    var k := DropUnaSuffix(Unbounded, snd.buf, una);
    forall sn | 0 <= sn < snd.nxt && !Held(rcv, sn) ensures InBuf(t, sn) {
      assert InBuf(snd, sn);
      var i :| 0 <= i < |snd.buf| && snd.buf[i].sn == sn;
      assert t.buf[i - k].sn == sn;
    }
  }

  lemma ParseAckTrue(snd: Sender, sn: nat, log: seq<Frag>, rcv: Receiver)
    requires SenderTrue(snd, log) && NothingLost(snd, rcv) && Held(rcv, sn)
    ensures SenderTrue(ParseAck(Unbounded, snd, sn), log) && NothingLost(ParseAck(Unbounded, snd, sn), rcv)
  {
    var t := ParseAck(Unbounded, snd, sn);
    var k := RemoveSnOne(Unbounded, snd.buf, sn);
    if InFlight(Unbounded, snd, sn) && k < |snd.buf| {
      hide Held;
      CutAt(snd.buf, k);
      assert t.buf == snd.buf[..k] + snd.buf[k + 1..];
      hide RemoveSn;
      forall x | 0 <= x < snd.nxt && !Held(rcv, x) ensures InBuf(t, x) {
        assert InBuf(snd, x);
        var i :| 0 <= i < |snd.buf| && snd.buf[i].sn == x;
        assert t.buf[if i < k then i else i - 1].sn == x;
      }
    } else {
      forall x | 0 <= x < snd.nxt && !Held(rcv, x) ensures InBuf(t, x) {
        assert InBuf(snd, x);
        var i :| 0 <= i < |snd.buf| && snd.buf[i].sn == x;
        assert t.buf[i].sn == x;
      }
    }
  }

  lemma CutAt(buf: seq<Out>, k: nat)
    requires k < |buf|
    ensures var t := buf[..k] + buf[k + 1..];
            forall i :: 0 <= i < |t| ==> t[i] == if i < k then buf[i] else buf[i + 1]
  {
  }

  lemma SameTrue(snd: Sender, buf: seq<Out>, log: seq<Frag>, rcv: Receiver)
    requires SenderTrue(snd, log) && NothingLost(snd, rcv) && SameSegments(snd.buf, buf)
    ensures SenderTrue(snd.(buf := buf), log) && NothingLost(snd.(buf := buf), rcv)
  {
    forall sn | 0 <= sn < snd.nxt && !Held(rcv, sn) ensures InBuf(snd.(buf := buf), sn) {
      assert InBuf(snd, sn);
      var i :| 0 <= i < |snd.buf| && snd.buf[i].sn == sn;
      assert buf[i].sn == sn;
    }
  }

  lemma LostMonotone(snd: Sender, r: Receiver, t: Receiver)
    requires NothingLost(snd, r) && HoldsMore(r, t)
    ensures NothingLost(snd, t)
  {
  }

  /** Filling the window numbers the next fragments of the log. */
  lemma FillTrue(cb: Cb, log: seq<Frag>, rcv: Receiver)
    requires EndpointInv(Unbounded, cb) && SenderTrue(cb.snd, log) && NothingLost(cb.snd, rcv)
    ensures var t := Filled(Unbounded, cb);
            SenderTrue(t, log) && NothingLost(t, rcv) && t.nxt >= cb.snd.nxt
  {
    hide FillWindow;
    hide ProbeTimer;
    var snd := cb.snd;
    var ctl := ProbeTimer(cb.ctl);
    var t := Filled(Unbounded, cb);
    var k := FillKeeps(Unbounded, snd, EffectiveWindow(cb.cfg, ctl), cb.cfg.sndWnd, ctl);
    assert snd.queue[k..] == log[t.nxt..];
    forall i | 0 <= i < |t.buf| ensures Names(log, t.nxt, t.buf[i].sn, t.buf[i].frag) {
      if i < |snd.buf| {
        assert t.buf[i] == t.buf[..|snd.buf|][i];
      }
    }
    forall sn | 0 <= sn < t.nxt && !Held(rcv, sn) ensures InBuf(t, sn) {
      if sn < snd.nxt {
        assert InBuf(snd, sn);
        var i :| 0 <= i < |snd.buf| && snd.buf[i].sn == sn;
        assert t.buf[..|snd.buf|][i].sn == sn;
        assert t.buf[i].sn == sn;
      } else {
        assert t.buf[|snd.buf| + (sn - snd.nxt)].sn == sn;
      }
    }
  }
}
