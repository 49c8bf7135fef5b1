/** The program's 32-bit numbers and byte datagrams against the unbounded model.

    As long as no datagram is delivered after the numbers in it have fallen half the number space behind,
    a run of the program is, step by step, the image of a run of the unbounded model.
 */
module KcpRefinement {
  import opened Words
  import opened KcpWire
  import opened KcpCore
  import opened KcpInvariants
  import opened KcpNetwork
  import opened KcpDelivery

  // ----- cutting numbers to 32 bits -----

  function WrapOuts(s: seq<Out>): (r: seq<Out>)
    ensures |r| == |s|
  {
    seq(|s|, i requires 0 <= i < |s| => s[i].(sn := s[i].sn % TWO32))
  }

  function WrapIns(s: seq<In>): (r: seq<In>)
    ensures |r| == |s|
  {
    seq(|s|, i requires 0 <= i < |s| => s[i].(sn := s[i].sn % TWO32))
  }

  function WrapAcks(s: seq<Ack>): (r: seq<Ack>)
    ensures |r| == |s|
  {
    seq(|s|, i requires 0 <= i < |s| => s[i].(sn := s[i].sn % TWO32))
  }

  function WrapSnd(s: Sender): Sender {
    Sender(s.una % TWO32, s.nxt % TWO32, s.queue, WrapOuts(s.buf))
  }

  function WrapRcv(r: Receiver): Receiver {
    Receiver(r.nxt % TWO32, WrapIns(r.buf), WrapIns(r.queue), WrapAcks(r.acks))
  }

  function WrapCb(cb: Cb): Cb {
    Cb(cb.cfg, WrapSnd(cb.snd), WrapRcv(cb.rcv), cb.ctl)
  }

  /** Within half the number space of each other. */
  predicate Near(x: int, y: int) {
    -TWO31 <= x - y < TWO31
  }

  // ----- the sending half -----

  lemma DropUnaWraps(buf: seq<Out>, una: nat)
    requires forall i :: 0 <= i < |buf| ==> Near(una, buf[i].sn)
    ensures DropUna(Wrap32, WrapOuts(buf), una % TWO32) == WrapOuts(DropUna(Unbounded, buf, una))
  {
    if buf != [] {
      DiffWraps(una, buf[0].sn);
      if una > buf[0].sn {
        DropUnaWraps(buf[1..], una);
        assert WrapOuts(buf)[1..] == WrapOuts(buf[1..]);
      }
    }
  }

  lemma {:induction false} RemoveSnWraps(buf: seq<Out>, sn: nat)
    requires forall i :: 0 <= i < |buf| ==> Near(sn, buf[i].sn)
    ensures RemoveSn(Wrap32, WrapOuts(buf), sn % TWO32) == WrapOuts(RemoveSn(Unbounded, buf, sn))
  {
    if buf != [] {
      DiffWraps(sn, buf[0].sn);
      assert WrapOuts(buf)[1..] == WrapOuts(buf[1..]);
      if sn > buf[0].sn {
        RemoveSnWraps(buf[1..], sn);
        var r := RemoveSn(Unbounded, buf[1..], sn);
        assert WrapOuts([buf[0]] + r) == [WrapOuts(buf)[0]] + WrapOuts(r);
      }
    }
  }

  lemma BumpWraps(buf: seq<Out>, sn: nat)
    requires forall i :: 0 <= i < |buf| ==> Near(sn, buf[i].sn)
    ensures BumpFastack(Wrap32, WrapOuts(buf), sn % TWO32) == WrapOuts(BumpFastack(Unbounded, buf, sn))
  {
    hide Signed32;
    if buf != [] {
      DiffWraps(sn, buf[0].sn);
      assert WrapOuts(buf)[1..] == WrapOuts(buf[1..]);
      if sn >= buf[0].sn {
        BumpWraps(buf[1..], sn);
        var o := if sn == buf[0].sn then buf[0] else buf[0].(fastack := buf[0].fastack + 1);
        var r := BumpFastack(Unbounded, buf[1..], sn);
        assert WrapOuts([o] + r) == [o.(sn := o.sn % TWO32)] + WrapOuts(r);
      }
    }
  }

  /** Everything a sender compares `x` with is near it. */
  ghost predicate NearSender(x: nat, snd: Sender) {
    Near(x, snd.una) && Near(x, snd.nxt) && forall i :: 0 <= i < |snd.buf| ==> Near(x, snd.buf[i].sn)
  }

  lemma SenderSpan(snd: Sender, wnd: nat, x: nat)
    requires wnd < TWO31 && SndInv(Unbounded, snd, wnd)
    requires snd.nxt - TWO31 <= x <= snd.nxt
    ensures NearSender(x, snd)
  {
  }

  lemma ParseUnaWraps(snd: Sender, una: nat)
    requires NearSender(una, snd)
    ensures ParseUna(Wrap32, WrapSnd(snd), una % TWO32) == WrapSnd(ParseUna(Unbounded, snd, una))
  {
    DropUnaWraps(snd.buf, una);
  }

  lemma ParseAckWraps(snd: Sender, sn: nat)
    requires NearSender(sn, snd)
    ensures ParseAck(Wrap32, WrapSnd(snd), sn % TWO32) == WrapSnd(ParseAck(Unbounded, snd, sn))
  {
    DiffWraps(sn, snd.una);
    DiffWraps(sn, snd.nxt);
    RemoveSnWraps(snd.buf, sn);
  }

  lemma ParseFastackWraps(snd: Sender, sn: nat)
    requires NearSender(sn, snd)
    ensures ParseFastack(Wrap32, WrapSnd(snd), sn % TWO32) == WrapSnd(ParseFastack(Unbounded, snd, sn))
  {
    DiffWraps(sn, snd.una);
    DiffWraps(sn, snd.nxt);
    BumpWraps(snd.buf, sn);
  }

  lemma FillWraps(snd: Sender, wnd: nat, max: nat, ctl: Control)
    requires wnd <= max < TWO31 && SndInv(Unbounded, snd, max)
    ensures FillWindow(Wrap32, WrapSnd(snd), wnd, ctl) == WrapSnd(FillWindow(Unbounded, snd, wnd, ctl))
    decreases |snd.queue|
  {
    hide WrapOuts;
    RoomWraps(snd, wnd, max);
    if snd.nxt < snd.una + wnd && snd.queue != [] {
      FillOne(Unbounded, snd, max, ctl);
      var o := Out(snd.nxt, snd.queue[0], ctl.current, ctl.rto, 0, 0);
      var s := snd.(queue := snd.queue[1..], nxt := snd.nxt + 1, buf := snd.buf + [o]);
      AddWraps(snd.nxt, 1);
      hide SndInv;
      hide Diff;
      hide Add;
      WrapOutsOne(snd.buf, o);
      FillOnce(Unbounded, snd, wnd, ctl);
      FillOnce(Wrap32, WrapSnd(snd), wnd, ctl);
      hide FillWindow;
      FillWraps(s, wnd, max, ctl);
    }
  }

  lemma RoomWraps(snd: Sender, wnd: nat, max: nat)
    requires wnd <= max < TWO31 && SndInv(Unbounded, snd, max)
    ensures Diff(Wrap32, snd.nxt % TWO32, Add(Wrap32, snd.una % TWO32, wnd)) == snd.nxt - (snd.una + wnd)
    ensures Diff(Unbounded, snd.nxt, Add(Unbounded, snd.una, wnd)) == snd.nxt - (snd.una + wnd)
    ensures Diff(Unbounded, snd.nxt, snd.una) == snd.nxt - snd.una && Add(Unbounded, snd.nxt, 1) == snd.nxt + 1
  {
    hide Signed32;
    AddWraps(snd.una, wnd);
    DiffWraps(snd.nxt, snd.una + wnd);
  }

  lemma FillOnce(m: Numbering, snd: Sender, wnd: nat, ctl: Control)
    requires Diff(m, snd.nxt, Add(m, snd.una, wnd)) < 0 && snd.queue != []
    ensures FillWindow(m, snd, wnd, ctl) == FillWindow(m,
              snd.(queue := snd.queue[1..], nxt := Add(m, snd.nxt, 1),
                   buf := snd.buf + [Out(snd.nxt, snd.queue[0], ctl.current, ctl.rto, 0, 0)]), wnd, ctl)
  {
  }

  lemma WrapOutsOne(buf: seq<Out>, o: Out)
    ensures WrapOuts(buf + [o]) == WrapOuts(buf) + [o.(sn := o.sn % TWO32)]
  {
  }

  lemma StampWraps(cfg: Config, ctl: Control, o: Out, sn: nat)
    ensures Why(cfg, ctl, o.(sn := sn)) == Why(cfg, ctl, o)
    ensures Stamp(cfg, ctl, o.(sn := sn)) == Stamp(cfg, ctl, o).(sn := sn)
    ensures Stamp(cfg, ctl, o).sn == o.sn
  {
  }

  lemma {:induction false} TransmitWraps(cfg: Config, ctl: Control, wnd: nat, una: nat, buf: seq<Out>)
    ensures var t := Transmit(cfg, ctl, wnd, una, buf);
            Transmit(cfg, ctl, wnd, una % TWO32, WrapOuts(buf))
            == t.(buf := WrapOuts(t.buf), packets := OnWireAll(t.packets))
  {
    hide Stamp;
    hide Why;
    if buf == [] {
      assert OnWireAll([]) == [];
    } else {
      var n := |buf| - 1;
      TransmitWraps(cfg, ctl, wnd, una, buf[..n]);
      assert WrapOuts(buf)[..n] == WrapOuts(buf[..n]);
      assert WrapOuts(buf)[n] == buf[n].(sn := buf[n].sn % TWO32);
      var t0 := Transmit(cfg, ctl, wnd, una, buf[..n]);
      var o := Stamp(cfg, ctl, buf[n]);
      StampWraps(cfg, ctl, buf[n], buf[n].sn % TWO32);
      hide WrapOuts;
      hide OnWireAll;
      WrapOutsOne(t0.buf, o);
      OnWireOne(t0.packets, DataPacket(o, ctl, wnd, una));
    }
  }

  lemma OnWireOne(ps: seq<Packet>, p: Packet)
    ensures OnWireAll(ps + [p]) == OnWireAll(ps) + [OnWire(p)]
  {
  }

  // ----- the receiving half -----

  lemma InsertWraps(buf: seq<In>, seg: In)
    requires forall i :: 0 <= i < |buf| ==> Near(seg.sn, buf[i].sn)
    ensures Insert(Wrap32, WrapIns(buf), seg.(sn := seg.sn % TWO32)) == WrapIns(Insert(Unbounded, buf, seg))
  {
    InsertAtWraps(buf, seg.sn);
    var k := InsertAt(Unbounded, buf, seg.sn);
    if k > 0 {
      DiffWraps(seg.sn, buf[k - 1].sn);
    }
    assert WrapIns(buf[..k] + [seg] + buf[k..])
        == WrapIns(buf)[..k] + [seg.(sn := seg.sn % TWO32)] + WrapIns(buf)[k..];
  }

  lemma InsertAtWraps(buf: seq<In>, sn: nat)
    requires forall i :: 0 <= i < |buf| ==> Near(sn, buf[i].sn)
    ensures InsertAt(Wrap32, WrapIns(buf), sn % TWO32) == InsertAt(Unbounded, buf, sn)
  {
    if buf != [] {
      var n := |buf| - 1;
      DiffWraps(sn, buf[n].sn);
      InsertAtWraps(buf[..n], sn);
      assert WrapIns(buf)[..n] == WrapIns(buf[..n]);
    }
  }

  lemma MoveWraps(rcv: Receiver, wnd: nat)
    requires wnd < TWO31 && RcvInv(Unbounded, rcv, wnd)
    ensures MoveReady(Wrap32, WrapRcv(rcv), wnd) == WrapRcv(MoveReady(Unbounded, rcv, wnd))
    decreases |rcv.buf|
  {
    hide Signed32;
    if rcv.buf != [] {
      DiffWraps(rcv.buf[0].sn, rcv.nxt);
      if rcv.buf[0].sn == rcv.nxt && |rcv.queue| < wnd {
        var s := rcv.(buf := rcv.buf[1..], queue := rcv.queue + [rcv.buf[0]], nxt := rcv.nxt + 1);
        MoveOneKeeps(Unbounded, rcv, wnd);
        AddWraps(rcv.nxt, 1);
        WrapInsMoved(rcv.buf, rcv.queue);
        MoveOnce(Unbounded, rcv, wnd);
        MoveOnce(Wrap32, WrapRcv(rcv), wnd);
        hide MoveReady;
        hide RcvInv;
        hide WrapIns;
        MoveWraps(s, wnd);
      }
    }
  }

  lemma WrapInsMoved(buf: seq<In>, queue: seq<In>)
    requires buf != []
    ensures WrapIns(buf)[1..] == WrapIns(buf[1..])
    ensures WrapIns(queue + [buf[0]]) == WrapIns(queue) + [WrapIns(buf)[0]]
  {
  }

  lemma PushWraps(rcv: Receiver, wnd: nat, p: Packet)
    requires wnd < TWO31 && RcvInv(Unbounded, rcv, wnd) && Encodable(p)
    requires Near(p.sn, rcv.nxt) && Near(p.sn, rcv.nxt + wnd)
    ensures ParsePush(Wrap32, WrapRcv(rcv), wnd, OnWire(p)) == WrapRcv(ParsePush(Unbounded, rcv, wnd, p))
  {
    hide MoveReady;
    hide Insert;
    DiffWraps(p.sn, rcv.nxt);
    DiffWraps(p.sn, rcv.nxt + wnd);
    AddWraps(rcv.nxt, wnd);
    if p.sn < rcv.nxt + wnd {
      var acked := rcv.(acks := rcv.acks + [Ack(p.sn, p.ts)]);
      assert WrapAcks(acked.acks) == WrapAcks(rcv.acks) + [Ack(p.sn % TWO32, p.ts)];
      if p.sn >= rcv.nxt {
        var seg := In(p.sn, Frag(p.frg, p.data));
        InsertWraps(rcv.buf, seg);
        InsertKeeps(Unbounded, rcv.buf, rcv.nxt, wnd, seg);
        MoveWraps(acked.(buf := Insert(Unbounded, acked.buf, seg)), wnd);
      }
    }
  }

  lemma MergeWraps(q: seq<In>)
    ensures MergeCount(WrapIns(q)) == MergeCount(q) && MergeData(WrapIns(q)) == MergeData(q)
    ensures SumLengths(WrapIns(q)) == SumLengths(q)
  {
    if q != [] {
      MergeWraps(q[1..]);
      assert WrapIns(q)[1..] == WrapIns(q[1..]);
    }
  }

  lemma RecvWraps(cb: Cb, len: int)
    requires EndpointInv(Unbounded, cb)
    ensures var r := Recv(Unbounded, cb, len);
            Recv(Wrap32, WrapCb(cb), len) == r.(cb := WrapCb(r.cb))
  {
    hide MoveReady;
    var q := cb.rcv.queue;
    MergeWraps(q);
    assert PeekSize(WrapIns(q)) == PeekSize(q);
    var left := if len < 0 then q else q[MergeCount(q)..];
    assert WrapIns(left) == if len < 0 then WrapIns(q) else WrapIns(q)[MergeCount(q)..];
    assert RcvInv(Unbounded, cb.rcv.(queue := left), cb.cfg.rcvWnd);
    MoveWraps(cb.rcv.(queue := left), cb.cfg.rcvWnd);
  }

  // ----- flushing -----

  lemma AckPacketsWrap(rcv: Receiver, wnd: nat)
    ensures AckPackets(WrapRcv(rcv), wnd) == OnWireAll(AckPackets(rcv, wnd))
  {
  }

  lemma ProbePacketsWrap(ctl: Control, rcv: Receiver, wnd: nat)
    ensures ProbePackets(ctl, WrapRcv(rcv), wnd) == OnWireAll(ProbePackets(ctl, rcv, wnd))
  {
  }

  lemma OnWireAppend(x: seq<Packet>, y: seq<Packet>)
    ensures OnWireAll(x + y) == OnWireAll(x) + OnWireAll(y)
  {
  }

  lemma FilledWraps(cb: Cb)
    requires EndpointInv(Unbounded, cb)
    ensures Filled(Wrap32, WrapCb(cb)) == WrapSnd(Filled(Unbounded, cb))
  {
    FillWraps(cb.snd, EffectiveWindow(cb.cfg, ProbeTimer(cb.ctl)), cb.cfg.sndWnd, ProbeTimer(cb.ctl));
  }

  lemma FlushWraps(cb: Cb)
    requires EndpointInv(Unbounded, cb)
    ensures var f := Flush(Unbounded, cb);
            Flush(Wrap32, WrapCb(cb)) == Flushed(WrapCb(f.cb), OnWireAll(f.packets))
  {
    hide FillWindow;
    hide ProbeTimer;
    hide Transmit;
    hide AfterFlush;
    hide AckPackets;
    hide ProbePackets;
    hide WrapOuts;
    hide WrapIns;
    hide Diff;
    hide OnWireAll;
    if cb.ctl.updated {
      var ctl := ProbeTimer(cb.ctl);
      var wnd := WndUnused(cb) % 65536;
      var cwnd := EffectiveWindow(cb.cfg, ctl);
      var snd := Filled(Unbounded, cb);
      FilledWraps(cb);
      FilledKeeps(Unbounded, cb);
      InflightWraps(snd, cb.cfg.sndWnd);
      hide SndInv;
      hide EndpointInv;
      hide AllFit;
      var t := Transmit(cb.cfg, ctl, wnd, cb.rcv.nxt, snd.buf);
      TransmitWraps(cb.cfg, ctl, wnd, cb.rcv.nxt, snd.buf);
      var u := Transmit(cb.cfg, ctl, wnd, cb.rcv.nxt % TWO32, WrapOuts(snd.buf));
      AfterFlushSame(cb.cfg, ctl.(askSend := false, askTell := false), t, u,
                     Max(0, Diff(Unbounded, snd.nxt, snd.una)), cwnd);
      AckPacketsWrap(cb.rcv, wnd);
      ProbePacketsWrap(ctl, cb.rcv, wnd);
      OnWireAppend(AckPackets(cb.rcv, wnd), ProbePackets(ctl, cb.rcv, wnd));
      OnWireAppend(AckPackets(cb.rcv, wnd) + ProbePackets(ctl, cb.rcv, wnd), t.packets);
      assert WrapAcks([]) == [];
    } else {
      OnWireNone();
    }
  }

  lemma OnWireNone()
    ensures OnWireAll([]) == []
  {
  }

  lemma InflightWraps(snd: Sender, wnd: nat)
    requires wnd < TWO31 && SndInv(Unbounded, snd, wnd)
    ensures Diff(Wrap32, snd.nxt % TWO32, snd.una % TWO32) == Diff(Unbounded, snd.nxt, snd.una)
  {
    DiffWraps(snd.nxt, snd.una);
  }

  lemma UpdateWraps(cb: Cb, now: nat)
    requires EndpointInv(Unbounded, cb) && now < TWO32
    ensures var f := Update(Unbounded, cb, now);
            Update(Wrap32, WrapCb(cb), now) == Flushed(WrapCb(f.cb), OnWireAll(f.packets))
  {
    hide Flush;
    var (ctl, due) := Tick(cb.cfg, cb.ctl, now);
    if due {
      FlushWraps(cb.(ctl := ctl));
    } else {
      assert OnWireAll([]) == [];
    }
  }

  // ----- bytes -----

  lemma ByteWraps(l: nat)
    ensures l % TWO32 % 256 == l % 256
    ensures l % TWO32 / 256 % 256 == l / 256 % 256
    ensures l % TWO32 / 65536 % 256 == l / 65536 % 256
    ensures l % TWO32 / 16777216 % 256 == l / 16777216 % 256
  {
    var r, h := l % TWO32, l / TWO32;
    assert l == r + TWO32 * h;
    LowByte(r, h);
    SecondByte(r, h);
    ThirdByte(r, h);
    FourthByte(r, h);
  }

  lemma LowByte(r: nat, h: nat)
    ensures (r + TWO32 * h) % 256 == r % 256
  {
    DivPlus(r, 16777216 * h, 256);
  }

  lemma SecondByte(r: nat, h: nat)
    ensures (r + TWO32 * h) / 256 % 256 == r / 256 % 256
  {
    DivPlus(r, 16777216 * h, 256);
    DivPlus(r / 256, 65536 * h, 256);
  }

  lemma ThirdByte(r: nat, h: nat)
    ensures (r + TWO32 * h) / 65536 % 256 == r / 65536 % 256
  {
    DivPlus(r, 65536 * h, 65536);
    DivPlus(r / 65536, 256 * h, 256);
  }

  lemma FourthByte(r: nat, h: nat)
    ensures (r + TWO32 * h) / 16777216 % 256 == r / 16777216 % 256
  {
    DivPlus(r, 256 * h, 16777216);
    DivPlus(r / 16777216, h, 256);
  }

  lemma DivPlus(r: nat, k: nat, d: nat)
    requires d > 0
    ensures (r + d * k) / d == r / d + k && (r + d * k) % d == r % d
  {
    var x := r + d * k;
    var e := x / d - r / d - k;
    assert x == d * (x / d) + x % d;
    assert r == d * (r / d) + r % d;
    assert d * e == r % d - x % d;
    assert e >= 1 ==> d * e >= d;
    assert e <= -1 ==> d * e + d <= 0;
  }

  lemma Put32Wraps(l: nat, rest: seq<Byte>)
    ensures Put32(l % TWO32, rest) == Put32(l, rest)
  {
    ByteWraps(l);
  }

  lemma EncodeWraps(conv: nat, token: nat, p: Packet, rest: seq<Byte>)
    ensures Encode(conv, token, OnWire(p), rest) == Encode(conv, token, p, rest)
  {
    hide Put8;
    hide Put16;
    hide Put32;
    var h1 := Put32(|p.data|, p.data + rest);
    Put32Wraps(p.una, h1);
    Put32Wraps(p.sn, Put32(p.una, h1));
  }

  lemma EncodeAllWraps(conv: nat, token: nat, ps: seq<Packet>)
    ensures EncodeAll(conv, token, OnWireAll(ps)) == EncodeAll(conv, token, ps)
    decreases |ps|
  {
    hide Encode;
    if ps != [] {
      EncodeAllWraps(conv, token, ps[1..]);
      assert OnWireAll(ps)[1..] == OnWireAll(ps[1..]);
      EncodeWraps(conv, token, ps[0], EncodeAll(conv, token, ps[1..]));
    }
  }

  function OnWireGroups(gs: seq<seq<Packet>>): (r: seq<seq<Packet>>)
    ensures |r| == |gs|
  {
    seq(|gs|, i requires 0 <= i < |gs| => OnWireAll(gs[i]))
  }

  function OnWirePacker(k: Packer): Packer {
    Packer(OnWireGroups(k.sent), OnWireAll(k.filling))
  }

  lemma SizeWraps(ps: seq<Packet>)
    ensures Size(OnWireAll(ps)) == Size(ps)
  {
    if ps != [] {
      SizeWraps(ps[1..]);
      assert OnWireAll(ps)[1..] == OnWireAll(ps[1..]);
    }
  }

  lemma EmitWraps(k: Packer)
    ensures Emit(OnWirePacker(k)) == OnWirePacker(Emit(k))
  {
    if k.filling != [] {
      assert OnWireGroups(k.sent + [k.filling]) == OnWireGroups(k.sent) + [OnWireAll(k.filling)];
      assert OnWireAll([]) == [];
    }
  }

  lemma PutAllWraps(mtu: nat, ps: seq<Packet>)
    ensures PutAll(mtu, EMPTY_PACKER, OnWireAll(ps)) == OnWirePacker(PutAll(mtu, EMPTY_PACKER, ps))
    decreases |ps|
  {
    if ps == [] {
      assert OnWirePacker(EMPTY_PACKER) == EMPTY_PACKER;
    } else {
      var n := |ps| - 1;
      PutAllWraps(mtu, ps[..n]);
      assert OnWireAll(ps)[..n] == OnWireAll(ps[..n]);
      var k := PutAll(mtu, EMPTY_PACKER, ps[..n]);
      EmitWraps(k);
      SizeWraps(k.filling);
      var room := if Size(k.filling) + OVERHEAD + |ps[n].data| > mtu then Emit(k) else k;
      OnWireAppend(room.filling, [ps[n]]);
      assert OnWireAll([ps[n]]) == [OnWire(ps[n])];
    }
  }

  lemma PackWraps(mtu: nat, conv: nat, token: nat, ps: seq<Packet>)
    ensures EncodeGroups(conv, token, Pack(mtu, OnWireAll(ps))) == EncodeGroups(conv, token, Pack(mtu, ps))
  {
    PutAllWraps(mtu, ps);
    EmitWraps(PutAll(mtu, EMPTY_PACKER, ps));
    var gs := Pack(mtu, ps);
    assert Pack(mtu, OnWireAll(ps)) == OnWireGroups(gs);
    forall i | 0 <= i < |gs| ensures EncodeAll(conv, token, OnWireGroups(gs)[i]) == EncodeAll(conv, token, gs[i]) {
      EncodeAllWraps(conv, token, gs[i]);
    }
  }

  // ----- a datagram arrives -----

  /** How far the network may delay a segment: the numbers in it are compared with current ones, so they
      must not have fallen half the number space behind. */
  predicate FreshPacket(p: Packet, sentHere: nat, sentThere: nat, wnd: nat) {
    && p.una + TWO31 >= sentHere
    && (p.cmd == CMD_ACK ==> p.sn + TWO31 >= sentHere)
    && (p.cmd == CMD_PUSH ==> p.sn + TWO31 >= sentThere + wnd)
  }

  predicate FreshAt(w: World<seq<Packet>>, p: Packet) {
    FreshPacket(p, w.a.cb.snd.nxt, w.b.cb.snd.nxt, w.a.cb.cfg.rcvWnd)
  }

  ghost predicate TruthfulAt(w: World<seq<Packet>>, p: Packet)
    requires WorldInv(w)
  {
    && Encodable(p) && BackwardTrue(p, w.b.cb.rcv)
    && ForwardTrue(p, FragsOf(w.b.cb.cfg, w.b.sent), w.b.cb.snd.nxt)
  }

  /** The sender is never more than its window ahead of what the receiver can still hold. */
  lemma SenderAhead(snd: Sender, sndWnd: nat, rcv: Receiver, rcvWnd: nat)
    requires SndInv(Unbounded, snd, sndWnd) && RcvInv(Unbounded, rcv, rcvWnd) && NothingLost(snd, rcv)
    ensures snd.nxt <= rcv.nxt + rcvWnd + sndWnd
  {
    var x := rcv.nxt + rcvWnd;
    if x < snd.nxt {
      assert !Held(rcv, x);
      assert InBuf(snd, x);
    }
  }

  lemma HeldBelow(rcv: Receiver, log: seq<Frag>, n: nat, sn: nat)
    requires ReceiverTrue(rcv, log, n) && Held(rcv, sn)
    ensures sn < n
  {
    if sn >= rcv.nxt {
      var i :| 0 <= i < |rcv.buf| && rcv.buf[i].sn == sn;
      assert Names(log, n, rcv.buf[i].sn, rcv.buf[i].frag);
    }
  }

  lemma PacketWraps(w: World<seq<Packet>>, p: Packet)
    requires WorldInv(w) && TruthfulAt(w, p) && FreshAt(w, p)
    ensures OnPacket(Wrap32, WrapCb(w.a.cb), OnWire(p)) == WrapCb(OnPacket(Unbounded, w.a.cb, p))
  {
    hide ParseUna;
    hide ParseAck;
    hide ParsePush;
    hide FragsOf;
    hide WrapSnd;
    hide WrapRcv;
    hide TimeDiff;
    hide UpdateRtt;
    var a := w.a.cb;
    SenderSpan(a.snd, a.cfg.sndWnd, p.una);
    ParseUnaWraps(a.snd, p.una);
    ParseUnaKeeps(Unbounded, a.snd, p.una, a.cfg.sndWnd);
    var s := ParseUna(Unbounded, a.snd, p.una);
    if p.cmd == CMD_ACK {
      HeldBelow(w.b.cb.rcv, FragsOf(a.cfg, w.a.sent), a.snd.nxt, p.sn);
      SenderSpan(s, a.cfg.sndWnd, p.sn);
      ParseAckWraps(s, p.sn);
    } else if p.cmd == CMD_PUSH {
      SenderAhead(w.b.cb.snd, w.b.cb.cfg.sndWnd, a.rcv, a.cfg.rcvWnd);
      PushWraps(a.rcv, a.cfg.rcvWnd, p);
    }
  }

  lemma {:induction false} PacketsWrap(w: World<seq<Packet>>, ps: seq<Packet>)
    requires WorldInv(w)
    requires forall i :: 0 <= i < |ps| ==> TruthfulAt(w, ps[i]) && FreshAt(w, ps[i])
    ensures OnPackets(Wrap32, WrapCb(w.a.cb), OnWireAll(ps)) == WrapCb(OnPackets(Unbounded, w.a.cb, ps))
    ensures var v := w.(a := w.a.(cb := OnPackets(Unbounded, w.a.cb, ps)));
            WorldInv(v) && v.a.cb.cfg == w.a.cb.cfg && Advanced(Unbounded, w.a.cb.snd, v.a.cb.snd)
    decreases |ps|
  {
    hide OnPacket;
    hide WorldInv;
    hide WrapCb;
    hide Advanced;
    if ps == [] {
      AdvancedSelf(w.a.cb.snd);
      assert w.(a := w.a.(cb := w.a.cb)) == w;
    } else {
      PacketWraps(w, ps[0]);
      PacketAdvances(w, ps[0]);
      var v := w.(a := w.a.(cb := OnPacket(Unbounded, w.a.cb, ps[0])));
      forall i | 0 <= i < |ps[1..]| ensures TruthfulAt(v, ps[1..][i]) && FreshAt(v, ps[1..][i]) {
        assert TruthfulAt(w, ps[i + 1]);
      }
      PacketsWrap(v, ps[1..]);
      assert OnWireAll(ps)[1..] == OnWireAll(ps[1..]);
      AdvancedChain(w.a.cb.snd, v.a.cb.snd, OnPackets(Unbounded, v.a.cb, ps[1..]).snd);
    }
  }

  lemma AdvancedSelf(s: Sender)
    ensures Advanced(Unbounded, s, s)
  {
  }

  lemma AdvancedChain(r: Sender, s: Sender, t: Sender)
    requires Advanced(Unbounded, r, s) && Advanced(Unbounded, s, t)
    ensures Advanced(Unbounded, r, t)
  {
  }

  lemma PacketAdvances(w: World<seq<Packet>>, p: Packet)
    requires WorldInv(w) && TruthfulAt(w, p)
    ensures var cb := OnPacket(Unbounded, w.a.cb, p);
            && WorldInv(w.(a := w.a.(cb := cb)))
            && cb.cfg == w.a.cb.cfg && cb.snd.nxt == w.a.cb.snd.nxt && Advanced(Unbounded, w.a.cb.snd, cb.snd)
  {
    PacketStep(w, p);
    OnPacketKeeps(Unbounded, w.a.cb, p);
  }

  function WrapAck(x: MaxAck): MaxAck {
    match x
    case NoAck => NoAck
    case MaxAck(sn) => MaxAck(sn % TWO32)
  }

  /** The acknowledgements of one datagram are near each other, so their maximum is the same. */
  lemma NoteAcksWraps(x: MaxAck, ps: seq<Packet>, n: nat)
    requires x.MaxAck? ==> n - TWO31 <= x.sn < n
    requires forall i :: 0 <= i < |ps| && ps[i].cmd == CMD_ACK ==> n - TWO31 <= ps[i].sn < n
    ensures NoteAcks(Wrap32, WrapAck(x), OnWireAll(ps)) == WrapAck(NoteAcks(Unbounded, x, ps))
    ensures var y := NoteAcks(Unbounded, x, ps); y.MaxAck? ==> n - TWO31 <= y.sn < n
    decreases |ps|
  {
    if ps != [] {
      if ps[0].cmd == CMD_ACK && x.MaxAck? {
        DiffWraps(ps[0].sn, x.sn);
      }
      var y := if ps[0].cmd == CMD_ACK then NoteAck(Unbounded, x, ps[0].sn) else x;
      assert OnWireAll(ps)[1..] == OnWireAll(ps[1..]);
      NoteAcksWraps(y, ps[1..], n);
    }
  }

  lemma FinishWraps(cb: Cb, prevUna: nat, x: MaxAck)
    requires EndpointInv(Unbounded, cb)
    requires Near(cb.snd.una, prevUna)
    requires x.MaxAck? ==> cb.snd.nxt - TWO31 <= x.sn < cb.snd.nxt
    ensures Finish(Wrap32, WrapCb(cb), prevUna % TWO32, WrapAck(x)) == WrapCb(Finish(Unbounded, cb, prevUna, x))
  {
    hide ParseFastack;
    hide Grow;
    DiffWraps(cb.snd.una, prevUna);
    if x.MaxAck? {
      SenderSpan(cb.snd, cb.cfg.sndWnd, x.sn);
      ParseFastackWraps(cb.snd, x.sn);
      assert ParseFastack(Unbounded, cb.snd, x.sn).una == cb.snd.una by {
        FastackUna(cb.snd, x.sn);
      }
    }
  }

  lemma FastackUna(snd: Sender, sn: nat)
    ensures ParseFastack(Unbounded, snd, sn).una == snd.una
  {
  }

  lemma InputWraps(w: World<seq<Packet>>, ps: seq<Packet>)
    requires WorldInv(w)
    requires forall i :: 0 <= i < |ps| ==> TruthfulAt(w, ps[i]) && FreshAt(w, ps[i])
    ensures var cfg := w.a.cb.cfg;
            Input(WrapCb(w.a.cb), EncodeAll(cfg.conv, cfg.token, ps)).cb
            == WrapCb(InputPackets(Unbounded, w.a.cb, ps))
  {
    hide OnPackets;
    hide NoteAcks;
    hide Finish;
    hide EncodeAll;
    hide Parse;
    hide FragsOf;
    var cb := w.a.cb;
    if ps == [] {
      InputNothing(cb);
    } else {
      ParseEncodeAll(cb.cfg.conv, cb.cfg.token, ps);
      SizeOne(ps);
      var n := cb.snd.nxt;
      forall i | 0 <= i < |ps| && ps[i].cmd == CMD_ACK ensures n - TWO31 <= ps[i].sn < n {
        assert TruthfulAt(w, ps[i]) && FreshAt(w, ps[i]);
        HeldBelow(w.b.cb.rcv, FragsOf(cb.cfg, w.a.sent), n, ps[i].sn);
      }
      NoteAcksWraps(NoAck, ps, n);
      PacketsWrap(w, ps);
      var mid := OnPackets(Unbounded, cb, ps);
      assert Near(mid.snd.una, cb.snd.una);
      FinishWraps(mid, cb.snd.una, NoteAcks(Unbounded, NoAck, ps));
    }
  }

  lemma SizeOne(ps: seq<Packet>)
    requires ps != []
    ensures Size(ps) >= OVERHEAD
  {
  }

  lemma InputNothing(cb: Cb)
    ensures InputPackets(Unbounded, cb, []) == cb
    ensures Input(WrapCb(cb), EncodeAll(cb.cfg.conv, cb.cfg.token, [])).cb == WrapCb(cb)
  {
  }

  // ----- the program: two endpoints exchanging bytes -----

  function Emitted(p: Peer, f: Flushed): seq<seq<Byte>> {
    EncodeGroups(p.cb.cfg.conv, p.cb.cfg.token, Pack(p.cb.cfg.mtu, f.packets))
  }

  function ByteStepA(w: World<seq<Byte>>, ev: Event): World<seq<Byte>> {
    match ev
    case DoSend(msg) => w.(a := SendPeer(w.a, msg))
    case DoRecv(len) => w.(a := RecvPeer(Wrap32, w.a, len))
    case DoFlush =>
      var f := Flush(Wrap32, w.a.cb);
      w.(a := w.a.(cb := f.cb), ab := w.ab + Emitted(w.a, f))
    case DoUpdate(now) =>
      var f := Update(Wrap32, w.a.cb, now);
      w.(a := w.a.(cb := f.cb), ab := w.ab + Emitted(w.a, f))
    case Deliver(i) =>
      if i < |w.ba| then w.(a := w.a.(cb := Input(w.a.cb, w.ba[i]).cb)) else w
  }

  function ByteStep(w: World<seq<Byte>>, act: Action): World<seq<Byte>> {
    if act.atB then Flip(ByteStepA(Flip(w), act.ev)) else ByteStepA(w, act.ev)
  }

  function ByteRun(w: World<seq<Byte>>, acts: seq<Action>): World<seq<Byte>> {
    if acts == [] then w else ByteStep(ByteRun(w, acts[..|acts| - 1]), acts[|acts| - 1])
  }

  function WrapPeer(p: Peer): Peer {
    p.(cb := WrapCb(p.cb))
  }

  /** The bytes and 32-bit numbers that a state of the unbounded model stands for. */
  function Image(w: World<seq<Packet>>): World<seq<Byte>> {
    var cfg := w.a.cb.cfg;
    World(WrapPeer(w.a), WrapPeer(w.b),
          EncodeGroups(cfg.conv, cfg.token, w.ab), EncodeGroups(cfg.conv, cfg.token, w.ba))
  }

  predicate FreshDelivery(w: World<seq<Packet>>, ev: Event) {
    ev.Deliver? && ev.i < |w.ba| ==> forall j :: 0 <= j < |w.ba[ev.i]| ==> FreshAt(w, w.ba[ev.i][j])
  }

  predicate Fresh(w: World<seq<Packet>>, act: Action) {
    FreshDelivery(if act.atB then Flip(w) else w, act.ev)
  }

  /** No datagram is delivered after its numbers have fallen half the number space behind. */
  predicate FreshRun(w: World<seq<Packet>>, acts: seq<Action>) {
    acts == []
    || (FreshRun(w, acts[..|acts| - 1]) && Fresh(RunWorld(w, acts[..|acts| - 1]), acts[|acts| - 1]))
  }

  lemma GroupsAppend(conv: nat, token: nat, x: seq<seq<Packet>>, y: seq<seq<Packet>>)
    ensures EncodeGroups(conv, token, x + y) == EncodeGroups(conv, token, x) + EncodeGroups(conv, token, y)
  {
  }

  lemma FlushedImage(w: World<seq<Packet>>, f: Flushed)
    requires WorldInv(w) && f.cb.cfg == w.a.cb.cfg
    ensures var v := w.(a := w.a.(cb := f.cb), ab := w.ab + Pack(w.a.cb.cfg.mtu, f.packets));
            var c := Image(w);
            Image(v) == c.(a := c.a.(cb := WrapCb(f.cb)),
                           ab := c.ab + Emitted(c.a, Flushed(WrapCb(f.cb), OnWireAll(f.packets))))
  {
    hide Pack;
    hide WrapSnd;
    hide WrapRcv;
    var cfg := w.a.cb.cfg;
    PackWraps(cfg.mtu, cfg.conv, cfg.token, f.packets);
    GroupsAppend(cfg.conv, cfg.token, w.ab, Pack(cfg.mtu, f.packets));
  }

  lemma SendRefines(w: World<seq<Packet>>, msg: Message)
    requires WorldInv(w)
    ensures ByteStepA(Image(w), DoSend(msg)) == Image(StepA(w, DoSend(msg)))
  {
    hide Fragments;
    hide WorldInv;
    hide WrapOuts;
    hide WrapRcv;
    hide EncodeGroups;
  }

  lemma RecvRefines(w: World<seq<Packet>>, len: int)
    requires WorldInv(w)
    ensures ByteStepA(Image(w), DoRecv(len)) == Image(StepA(w, DoRecv(len)))
  {
    hide Direction;
    hide Recv;
    hide WrapCb;
    hide EncodeGroups;
    RecvWraps(w.a.cb, len);
    RecvCfg(w.a.cb, len);
    WrapCfg(w.a.cb);
  }

  lemma FlushRefines(w: World<seq<Packet>>)
    requires WorldInv(w)
    ensures ByteStepA(Image(w), DoFlush) == Image(StepA(w, DoFlush))
  {
    hide Direction;
    hide Flush;
    hide WrapCb;
    hide EncodeGroups;
    hide Pack;
    FlushWraps(w.a.cb);
    FlushCfg(w.a.cb);
    FlushedImage(w, Flush(Unbounded, w.a.cb));
  }

  lemma UpdateRefines(w: World<seq<Packet>>, now: nat)
    requires WorldInv(w) && now < TWO32
    ensures ByteStepA(Image(w), DoUpdate(now)) == Image(StepA(w, DoUpdate(now)))
  {
    hide Direction;
    hide Update;
    hide WrapCb;
    hide EncodeGroups;
    hide Pack;
    UpdateWraps(w.a.cb, now);
    UpdateCfg(w.a.cb, now);
    FlushedImage(w, Update(Unbounded, w.a.cb, now));
  }

  lemma DeliverRefines(w: World<seq<Packet>>, i: nat)
    requires WorldInv(w) && FreshDelivery(w, Deliver(i))
    ensures ByteStepA(Image(w), Deliver(i)) == Image(StepA(w, Deliver(i)))
  {
    hide Input;
    hide InputPackets;
    hide WrapCb;
    hide EncodeAll;
    if i < |w.ba| {
      var ps := w.ba[i];
      forall j | 0 <= j < |ps| ensures TruthfulAt(w, ps[j]) {
        assert ps in w.ba && ps[j] in ps;
      }
      hide WorldInv;
      InputWraps(w, ps);
      InputCfg(w.a.cb, ps);
    }
  }

  lemma StepARefines(w: World<seq<Packet>>, ev: Event)
    requires WorldInv(w) && FreshDelivery(w, ev) && (ev.DoUpdate? ==> ev.now < TWO32)
    ensures ByteStepA(Image(w), ev) == Image(StepA(w, ev))
  {
    hide ByteStepA;
    hide StepA;
    hide WorldInv;
    match ev
    case DoSend(msg) => SendRefines(w, msg);
    case DoRecv(len) => RecvRefines(w, len);
    case DoFlush => FlushRefines(w);
    case DoUpdate(now) => UpdateRefines(w, now);
    case Deliver(i) => DeliverRefines(w, i);
  }

  lemma WrapCfg(cb: Cb)
    ensures WrapCb(cb).cfg == cb.cfg
  {
  }

  lemma RecvCfg(cb: Cb, len: int)
    ensures Recv(Unbounded, cb, len).cb.cfg == cb.cfg
  {
  }

  lemma OnPacketsCfg(cb: Cb, ps: seq<Packet>)
    ensures OnPackets(Unbounded, cb, ps).cfg == cb.cfg
    decreases |ps|
  {
    if ps != [] {
      OnPacketsCfg(OnPacket(Unbounded, cb, ps[0]), ps[1..]);
    }
  }

  lemma InputCfg(cb: Cb, ps: seq<Packet>)
    ensures InputPackets(Unbounded, cb, ps).cfg == cb.cfg
  {
    OnPacketsCfg(cb, ps);
  }

  lemma FlushCfg(cb: Cb)
    ensures Flush(Unbounded, cb).cb.cfg == cb.cfg
  {
  }

  lemma UpdateCfg(cb: Cb, now: nat)
    ensures Update(Unbounded, cb, now).cb.cfg == cb.cfg
  {
  }

  lemma FlipImage(w: World<seq<Packet>>)
    requires Paired(w.a.cb.cfg, w.b.cb.cfg)
    ensures Image(Flip(w)) == Flip(Image(w))
  {
  }

  lemma StepRefines(w: World<seq<Packet>>, act: Action)
    requires WorldInv(w) && Fresh(w, act) && Legal(act)
    ensures ByteStep(Image(w), act) == Image(Step(w, act))
  {
    hide Image;
    hide ByteStepA;
    hide StepA;
    if act.atB {
      FlipInv(w);
      FlipImage(w);
      StepARefines(Flip(w), act.ev);
      StepKeeps(w, act);
      FlipImage(StepA(Flip(w), act.ev));
    } else {
      StepARefines(w, act.ev);
    }
  }

  /** The program refines the unbounded model over whole runs. */
  lemma {:induction false} RunRefines(ca: Config, cb: Config, acts: seq<Action>)
    requires Paired(ca, cb)
    requires forall i :: 0 <= i < |acts| ==> Legal(acts[i])
    requires FreshRun(Start(ca, cb), acts)
    ensures ByteRun(Start(ca, cb), acts) == Image(RunWorld(Start(ca, cb), acts))
    decreases |acts|
  {
    hide WorldInv;
    hide ByteStep;
    hide Step;
    hide Fresh;
    if acts == [] {
      StartImage(ca, cb);
    } else {
      var before := acts[..|acts| - 1];
      RunRefines(ca, cb, before);
      RunWorldKeeps(ca, cb, before);
      StepRefines(RunWorld(Start(ca, cb), before), acts[|acts| - 1]);
    }
  }

  lemma StartImage(ca: Config, cb: Config)
    ensures Image(Start(ca, cb)) == Start(ca, cb)
  {
  }

  // ----- the promises of the protocol -----

  /** In every run of two endpoints over a lossy, duplicating, reordering network, each side has been given
      a prefix, byte for byte and in order, of the messages the other side's send accepted. */
  lemma {:induction false} ReliableDelivery(ca: Config, cb: Config, acts: seq<Action>)
    requires Paired(ca, cb)
    requires forall i :: 0 <= i < |acts| ==> Legal(acts[i])
    requires FreshRun(Start(ca, cb), acts)
    ensures var w := ByteRun(Start(ca, cb), acts); w.b.got <= w.a.sent && w.a.got <= w.b.sent
  {
    hide Paired;
    RunRefines(ca, cb, acts);
    RunWorldKeeps(ca, cb, acts);
    InvDelivers(RunWorld(Start(ca, cb), acts));
  }

  lemma InvDelivers(w: World<seq<Packet>>)
    requires WorldInv(w)
    ensures w.b.got <= w.a.sent && w.a.got <= w.b.sent
  {
  }

  /** In every reachable state, each number given out and missing from the send buffer is at the peer:
      delivered, queued or buffered. The 32-bit state is the image of the state this is said of. */
  lemma {:induction false} NoPrematureRelease(ca: Config, cb: Config, acts: seq<Action>)
    requires Paired(ca, cb)
    requires forall i :: 0 <= i < |acts| ==> Legal(acts[i])
    requires FreshRun(Start(ca, cb), acts)
    ensures var v := RunWorld(Start(ca, cb), acts);
            && ByteRun(Start(ca, cb), acts) == Image(v)
            && NothingLost(v.a.cb.snd, v.b.cb.rcv) && NothingLost(v.b.cb.snd, v.a.cb.rcv)
  {
    hide Paired;
    RunRefines(ca, cb, acts);
    RunWorldKeeps(ca, cb, acts);
    InvReleases(RunWorld(Start(ca, cb), acts));
  }

  lemma InvReleases(w: World<seq<Packet>>)
    requires WorldInv(w)
    ensures NothingLost(w.a.cb.snd, w.b.cb.rcv) && NothingLost(w.b.cb.snd, w.a.cb.rcv)
  {
  }

  // ----- a bound a caller can check -----

  /** How many segments the messages of a run can need in one direction. */
  function Segments(cfg: Config, atB: bool, acts: seq<Action>): nat
    requires cfg.Mss() > 0
  {
    if acts == [] then 0
    else
      var act := acts[|acts| - 1];
      Segments(cfg, atB, acts[..|acts| - 1])
      + (if act.atB == atB && act.ev.DoSend? then FragCount(cfg.Mss(), |act.ev.msg|) else 0)
  }

  lemma {:induction false} SentBound(ca: Config, cb: Config, acts: seq<Action>)
    requires Paired(ca, cb)
    requires forall i :: 0 <= i < |acts| ==> Legal(acts[i])
    ensures var w := RunWorld(Start(ca, cb), acts);
            && w.a.cb.cfg == ca && w.b.cb.cfg == cb
            && |FragsOf(ca, w.a.sent)| <= Segments(ca, false, acts)
            && |FragsOf(cb, w.b.sent)| <= Segments(cb, true, acts)
    decreases |acts|
  {
    if acts != [] {
      var before := acts[..|acts| - 1];
      var act := acts[|acts| - 1];
      SentBound(ca, cb, before);
      var w := RunWorld(Start(ca, cb), before);
      hide FragCount;
      StepSent(if act.atB then Flip(w) else w, act.ev);
    }
  }

  lemma StepSent(w: World<seq<Packet>>, ev: Event)
    requires w.a.cb.cfg.Mss() > 0
    ensures var v := StepA(w, ev);
            && v.a.cb.cfg == w.a.cb.cfg && v.b == w.b
            && |FragsOf(v.a.cb.cfg, v.a.sent)| <= |FragsOf(w.a.cb.cfg, w.a.sent)|
               + (if ev.DoSend? then FragCount(w.a.cb.cfg.Mss(), |ev.msg|) else 0)
  {
    hide Flush;
    hide Update;
    hide InputPackets;
    hide Recv;
    FlushCfg(w.a.cb);
    match ev
    case DoSend(msg) =>
      assert (w.a.sent + [msg])[..|w.a.sent|] == w.a.sent;
    case DoRecv(len) => RecvCfg(w.a.cb, len);
    case DoFlush =>
    case DoUpdate(now) => UpdateCfg(w.a.cb, now);
    case Deliver(i) =>
      if i < |w.ba| {
        InputCfg(w.a.cb, w.ba[i]);
      }
  }

  lemma SmallIsFresh(w: World<seq<Packet>>, act: Action)
    requires WorldInv(w)
    requires w.a.cb.snd.nxt + w.b.cb.cfg.rcvWnd <= TWO31 && w.b.cb.snd.nxt + w.a.cb.cfg.rcvWnd <= TWO31
    ensures Fresh(w, act)
  {
  }

  lemma {:induction false} FewSegmentsFresh(ca: Config, cb: Config, acts: seq<Action>)
    requires Paired(ca, cb)
    requires forall i :: 0 <= i < |acts| ==> Legal(acts[i])
    requires Segments(ca, false, acts) + cb.rcvWnd <= TWO31 && Segments(cb, true, acts) + ca.rcvWnd <= TWO31
    ensures FreshRun(Start(ca, cb), acts)
    decreases |acts|
  {
    hide Fresh;
    if acts != [] {
      var before := acts[..|acts| - 1];
      FewSegmentsFresh(ca, cb, before);
      RunWorldKeeps(ca, cb, before);
      SentBound(ca, cb, before);
      SmallIsFresh(RunWorld(Start(ca, cb), before), acts[|acts| - 1]);
    }
  }

  /** Fewer than 2^31 segments per direction (less one window): then any delay, loss and repetition is harmless. */
  lemma ReliableDeliveryBounded(ca: Config, cb: Config, acts: seq<Action>)
    requires Paired(ca, cb)
    requires forall i :: 0 <= i < |acts| ==> Legal(acts[i])
    requires Segments(ca, false, acts) + cb.rcvWnd <= TWO31 && Segments(cb, true, acts) + ca.rcvWnd <= TWO31
    ensures var w := ByteRun(Start(ca, cb), acts); w.b.got <= w.a.sent && w.a.got <= w.b.sent
  {
    FewSegmentsFresh(ca, cb, acts);
    ReliableDelivery(ca, cb, acts);
  }

  // ----- stale segments -----

  /** What a receiver holds, in order. */
  function Stored(rcv: Receiver): seq<In> {
    rcv.queue + rcv.buf
  }

  /** The segment is taken in, at some place behind the queue, and nothing else changes. */
  ghost predicate Files(rcv: Receiver, seg: In, after: Receiver) {
    exists k | |rcv.queue| <= k <= |Stored(rcv)| :: Stored(after) == Stored(rcv)[..k] + [seg] + Stored(rcv)[k..]
  }

  lemma MovedStored(rcv: Receiver, t: Receiver, k: nat)
    requires k <= |rcv.buf| && t.buf == rcv.buf[k..] && t.queue == rcv.queue + rcv.buf[..k]
    ensures Stored(t) == Stored(rcv)
  {
    assert rcv.buf == rcv.buf[..k] + rcv.buf[k..];
  }

  lemma InsertStored(m: Numbering, rcv: Receiver, wnd: nat, seg: In)
    requires wnd < TWO31 && RcvOrdered(m, rcv.buf, rcv.nxt, wnd)
    requires Word(m, seg.sn) && 0 <= Diff(m, seg.sn, rcv.nxt) < wnd
    ensures var after := rcv.(buf := Insert(m, rcv.buf, seg));
            if exists i :: 0 <= i < |rcv.buf| && rcv.buf[i].sn == seg.sn then after == rcv else Files(rcv, seg, after)
  {
    hide Diff;
    var buf, k := rcv.buf, InsertAt(m, rcv.buf, seg.sn);
    InsertAtPlace(m, buf, seg.sn);
    if i :| 0 <= i < |buf| && buf[i].sn == seg.sn {
      DiffRebase(m, seg.sn, buf[k - 1].sn, rcv.nxt);
      DiffZero(m, seg.sn, buf[k - 1].sn);
      assert i <= k - 1;
    } else {
      InsertedStored(rcv.queue, buf, k, seg);
      assert |rcv.queue| <= |rcv.queue| + k <= |Stored(rcv)|;
    }
  }

  lemma InsertedStored(queue: seq<In>, buf: seq<In>, k: nat, seg: In)
    requires k <= |buf|
    ensures queue + (buf[..k] + [seg] + buf[k..]) ==
              (queue + buf)[..|queue| + k] + [seg] + (queue + buf)[|queue| + k..]
  {
  }

  /** A data segment is filed if and only if its number lies in the window and is not in the buffer; otherwise the
      receiver holds what it held. */
  lemma PushFiles(m: Numbering, rcv: Receiver, wnd: nat, p: Packet)
    requires wnd < TWO31 && RcvInv(m, rcv, wnd) && Encodable(p) && Word(m, p.sn)
    ensures var after := ParsePush(m, rcv, wnd, p);
            if 0 <= Diff(m, p.sn, rcv.nxt) < wnd && forall i :: 0 <= i < |rcv.buf| ==> rcv.buf[i].sn != p.sn
            then Files(rcv, In(p.sn, Frag(p.frg, p.data)), after)
            else Stored(after) == Stored(rcv)
  {
    hide Diff;
    hide Add;
    hide MoveReady;
    hide Insert;
    hide Files;
    var d, seg := Diff(m, p.sn, rcv.nxt), In(p.sn, Frag(p.frg, p.data));
    if d >= 0 {
      PushedFar(m, p.sn, rcv.nxt, wnd);
      if d < wnd {
        var acked := rcv.(acks := rcv.acks + [Ack(p.sn, p.ts)]);
        assert RcvInv(m, acked, wnd);
        InsertStored(m, rcv, wnd, seg);
        InsertKeeps(m, rcv.buf, rcv.nxt, wnd, seg);
        var filed := acked.(buf := Insert(m, rcv.buf, seg));
        var k := MoveKeeps(m, filed, wnd);
        MovedStored(filed, MoveReady(m, filed, wnd), k);
        SameStored(rcv, seg, rcv.(buf := filed.buf), MoveReady(m, filed, wnd));
      }
    }
  }

  lemma SameStored(rcv: Receiver, seg: In, x: Receiver, y: Receiver)
    requires Stored(x) == Stored(y)
    ensures Files(rcv, seg, x) <==> Files(rcv, seg, y)
  {
  }

  lemma PushedFar(m: Numbering, sn: nat, nxt: nat, wnd: nat)
    requires wnd < TWO31 && 0 <= Diff(m, sn, nxt)
    ensures Diff(m, sn, Add(m, nxt, wnd)) >= 0 <==> Diff(m, sn, nxt) >= wnd
  {
    if m.Wrap32? {
      DiffSubAdd(m, sn, nxt, wnd);
    }
  }

  lemma WrapRcvKeeps(rcv: Receiver, wnd: nat)
    requires wnd < TWO31 && RcvInv(Unbounded, rcv, wnd)
    ensures RcvInv(Wrap32, WrapRcv(rcv), wnd)
    ensures forall i :: 0 <= i < |rcv.buf| ==> WrapRcv(rcv).buf[i].sn == rcv.buf[i].sn % TWO32
  {
    hide Diff;
    var r := WrapRcv(rcv);
    forall i | 0 <= i < |rcv.buf| ensures Diff(Wrap32, r.buf[i].sn, r.nxt) == Diff(Unbounded, rcv.buf[i].sn, rcv.nxt) {
      UnboundedDiff(rcv.buf[i].sn, rcv.nxt);
      DiffWraps(rcv.buf[i].sn, rcv.nxt);
    }
    forall i | 0 <= i < |rcv.queue|
      ensures Diff(Wrap32, r.nxt, r.queue[i].sn) == Diff(Unbounded, rcv.nxt, rcv.queue[i].sn)
    {
      UnboundedDiff(rcv.nxt, rcv.queue[i].sn);
      DiffWraps(rcv.nxt, rcv.queue[i].sn);
    }
  }

  lemma UnboundedDiff(x: nat, y: nat)
    ensures Diff(Unbounded, x, y) == x - y
  {
  }

  /** A number `age` behind looks like one in the window if and only if `age` is a whole lap, or less than one
      window short of it. */
  lemma StaleLooksNew(sn: nat, nxt: nat, wnd: nat)
    requires wnd < TWO31
    ensures var age := (nxt - sn) % TWO32;
            0 <= Diff(Wrap32, sn % TWO32, nxt % TWO32) < wnd <==> wnd > 0 && (age == 0 || age > TWO32 - wnd)
  {
    var q := (nxt - sn) / TWO32;
    var age := (nxt - sn) % TWO32;
    var r := if age <= TWO31 then -age else TWO32 - age;
    var x := sn % TWO32 - nxt % TWO32;
    assert x == r + TWO32 * ((x - r) / TWO32);
    SignedUnique(x, r, (x - r) / TWO32);
  }

  /** Exactly which old segments the program takes for new ones. A segment numbered below `nxt` never changes what
      the unbounded receiver holds; the 32-bit receiver files it if and only if its age, modulo 2^32, is zero or
      within one window of a whole lap, and no buffered segment has the same 32 bits. */
  lemma StaleFiledExactly(rcv: Receiver, wnd: nat, p: Packet)
    requires 0 < wnd < TWO31 && RcvInv(Unbounded, rcv, wnd) && p.sn < rcv.nxt && Encodable(OnWire(p))
    ensures var age, wire := (rcv.nxt - p.sn) % TWO32, OnWire(p);
            var seg, after := In(wire.sn, Frag(p.frg, p.data)), ParsePush(Wrap32, WrapRcv(rcv), wnd, wire);
            && Stored(ParsePush(Unbounded, rcv, wnd, p)) == Stored(rcv)
            && (if (age == 0 || age > TWO32 - wnd) &&
                   forall i :: 0 <= i < |rcv.buf| ==> rcv.buf[i].sn % TWO32 != p.sn % TWO32
                then Files(WrapRcv(rcv), seg, after)
                else Stored(after) == Stored(WrapRcv(rcv)))
  {
    hide ParsePush;
    hide Diff;
    hide Stored;
    hide Files;
    WrapRcvKeeps(rcv, wnd);
    StaleLooksNew(p.sn, rcv.nxt, wnd);
    OldDropped(rcv, wnd, p);
    PushFiles(Wrap32, WrapRcv(rcv), wnd, OnWire(p));
  }

  lemma OldDropped(rcv: Receiver, wnd: nat, p: Packet)
    requires p.sn < rcv.nxt
    ensures Stored(ParsePush(Unbounded, rcv, wnd, p)) == Stored(rcv)
  {
  }

  /** A data segment delayed by the whole number space is taken for a new one. */
  lemma StaleSegmentAccepted(wnd: nat, data: seq<Byte>)
    requires 0 < wnd < TWO31
    ensures var rcv := Receiver(TWO32, [], [], []);
            var p := Packet(CMD_PUSH, 0, 0, 0, 0, 0, data);
            && ParsePush(Unbounded, rcv, wnd, p).queue == []
            && ParsePush(Wrap32, WrapRcv(rcv), wnd, OnWire(p)).queue == [In(0, Frag(0, data))]
  {
    var rcv := Receiver(0, [], [], [Ack(0, 0)]);
    var p := Packet(CMD_PUSH, 0, 0, 0, 0, 0, data);
    var seg := In(0, Frag(0, data));
    var start: Receiver := Receiver(TWO32, [], [], []);
    assert WrapRcv(start) == Receiver(0, [], [], []) && OnWire(p) == p;
    assert [] + [Ack(0, 0)] == [Ack(0, 0)];
    assert InsertAt(Wrap32, [], 0) == 0;
    assert Insert(Wrap32, [], seg) == [seg];
    MoveOnce(Wrap32, rcv.(buf := [seg]), wnd);
    assert [] + [seg] == [seg] && [seg][1..] == [];
    assert MoveReady(Wrap32, rcv.(buf := [seg]), wnd) == Receiver(1, [], [seg], [Ack(0, 0)]);
  }
}
