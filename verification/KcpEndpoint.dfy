/** The control block as an object that its operations update in place, each proved equal to the
    corresponding function of KcpCore in 32-bit numbers. */
module KcpEndpoint {
  import opened Words
  import opened KcpWire
  import opened KcpCore
  import opened KcpClock
  import opened KcpInvariants

  function Bumped(o: Out, sn: nat): Out {
    if sn == o.sn then o else o.(fastack := o.fastack + 1)
  }

  lemma BumpStep(buf: seq<Out>, i: nat, sn: nat)
    requires i <= |buf|
    ensures if i == |buf| || Diff(Wrap32, sn, buf[i].sn) < 0 then BumpFastack(Wrap32, buf[i..], sn) == buf[i..]
            else BumpFastack(Wrap32, buf[i..], sn) == [Bumped(buf[i], sn)] + BumpFastack(Wrap32, buf[i + 1..], sn)
  {
    if i < |buf| {
      assert buf[i..][1..] == buf[i + 1..];
    }
  }

  lemma CutStep(mss: nat, buffer: seq<Byte>, len: nat, at: nat, count: nat)
    requires at <= len <= |buffer| && count > 0
    ensures var size := if len - at > mss then mss else len - at;
            Fragments(mss, buffer[..len][at..], count)
            == [Frag(count - 1, buffer[at..at + size])] + Fragments(mss, buffer[..len][at + size..], count - 1)
  {
    var size := if len - at > mss then mss else len - at;
    assert buffer[..len][at..][..size] == buffer[at..at + size];
    assert buffer[..len][at..][size..] == buffer[..len][at + size..];
  }

  lemma CutNone(mss: nat, data: seq<Byte>)
    ensures Fragments(mss, data, 0) == []
  {
  }

  /** One pass of the parse loop, seen from the segments still to come. */
  lemma InputPass(cb: Cb, x: MaxAck, conv: nat, token: nat, data: seq<Byte>, p: Packet, rest: seq<Byte>)
    requires ReadFront(conv, token, data) == Segment(p, rest)
    ensures var l, r := Parse(conv, token, data), Parse(conv, token, rest);
            && l.code == r.code
            && OnPackets(Wrap32, cb, l.segments) == OnPackets(Wrap32, KcpCore.OnPacket(Wrap32, cb, p), r.segments)
            && NoteAcks(Wrap32, x, l.segments)
               == NoteAcks(Wrap32, if p.cmd == CMD_ACK then NoteAck(Wrap32, x, p.sn) else x, r.segments)
  {
    hide ReadFront;
    hide KcpCore.OnPacket;
    ParseStep(conv, token, data, p, rest);
    var l := Parse(conv, token, data).segments;
    assert l[0] == p && l[1..] == Parse(conv, token, rest).segments;
  }

  /** What is left to do after some passes still leads to the result for the whole datagram. */
  ghost predicate Remaining(start: Cb, all: Parsed, cb: Cb, x: MaxAck, left: Parsed) {
    && left.code == all.code
    && OnPackets(Wrap32, cb, left.segments) == OnPackets(Wrap32, start, all.segments)
    && NoteAcks(Wrap32, x, left.segments) == NoteAcks(Wrap32, NoAck, all.segments)
  }

  lemma StopsThere(conv: nat, token: nat, data: seq<Byte>)
    ensures var f := ReadFront(conv, token, data);
            && (f.Done? ==> Parse(conv, token, data) == Parsed([], 0))
            && (f.Reject? ==> Parse(conv, token, data) == Parsed([], f.code) && f.code != 0)
  {
  }

  class Endpoint {
    const cfg: Config

    var sndUna: nat
    var sndNxt: nat
    var sndQueue: seq<Frag>
    var sndBuf: seq<Out>

    var rcvNxt: nat
    var rcvBuf: seq<In>
    var rcvQueue: seq<In>
    var ackList: seq<Ack>

    var nsndQue: nat
    var nsndBuf: nat
    var nrcvQue: nat
    var nrcvBuf: nat

    var ctl: Control

    /** The control block as a value. */
    ghost function Value(): Cb
      reads this
    {
      Cb(cfg, Sender(sndUna, sndNxt, sndQueue, sndBuf), Receiver(rcvNxt, rcvBuf, rcvQueue, ackList), ctl)
    }

    ghost predicate Counted()
      reads this
    {
      nsndQue == |sndQueue| && nsndBuf == |sndBuf| && nrcvQue == |rcvQueue| && nrcvBuf == |rcvBuf|
    }

    /** The counters equal the queue lengths, and the invariants of both halves hold. */
    ghost predicate Valid()
      reads this
    {
      Counted() && EndpointInv(Wrap32, Value())
    }

    constructor (cfg: Config)
      requires cfg.Good()
      ensures Valid() && Value() == Create(cfg)
    {
      this.cfg := cfg;
      sndUna, sndNxt, sndQueue, sndBuf := 0, 0, [], [];
      rcvNxt, rcvBuf, rcvQueue, ackList := 0, [], [], [];
      nsndQue, nsndBuf, nrcvQue, nrcvBuf := 0, 0, 0, 0;
      ctl := NEW_CONTROL;
    }

    // ----- application side -----

    method Send(buffer: seq<Byte>, len: int) returns (code: int)
      requires Valid() && len <= |buffer|
      modifies `sndQueue, `nsndQue
      ensures Valid() && SendResult(code, Value()) == KcpCore.Send(old(Value()), buffer, len)
    {
      SendKeeps(Wrap32, Value(), buffer, len);
      if len < 0 {
        return -1;
      }
      var mss := cfg.Mss();
      var count := if len <= mss then 1 else (len + mss - 1) / mss;
      if count >= MAX_FRAGMENTS {
        return -2;
      }
      Cut(buffer, len, count);
      code := 0;
    }

    /** The loop that cuts a message into pieces. */
    method Cut(buffer: seq<Byte>, len: nat, count: nat)
      requires Counted() && len <= |buffer|
      modifies `sndQueue, `nsndQue
      ensures Counted() && sndQueue == old(sndQueue) + Fragments(cfg.Mss(), buffer[..len], count)
    {
      hide Fragments;
      var mss := cfg.Mss();
      ghost var data := buffer[..len];
      CutNone(mss, []);
      var at := 0;
      var i := 0;
      assert data[at..] == data;
      while i < count
        invariant 0 <= i <= count && 0 <= at <= len
        invariant sndQueue + Fragments(mss, data[at..], count - i) == old(sndQueue) + Fragments(mss, data, count)
        invariant nsndQue == |sndQueue|
      {
        var size := if len - at > mss then mss else len - at;
        var piece := Frag(count - i - 1, buffer[at..at + size]);
        CutStep(mss, buffer, len, at, count - i);
        ghost var later := Fragments(mss, data[at + size..], count - i - 1);
        assert sndQueue + ([piece] + later) == (sndQueue + [piece]) + later;
        sndQueue := sndQueue + [piece];
        nsndQue := nsndQue + 1;
        at := at + size;
        i := i + 1;
      }
      CutNone(mss, data[at..]);
    }

    /** Size of the next message, or -1 if none is complete. */
    method PeekSize() returns (size: int)
      requires Valid()
      ensures size == KcpCore.PeekSize(rcvQueue)
    {
      if rcvQueue == [] {
        return -1;
      }
      if rcvQueue[0].frag.frg == 0 {
        return |rcvQueue[0].frag.data|;
      }
      if nrcvQue < rcvQueue[0].frag.frg + 1 {
        return -1;
      }
      size := 0;
      var i := 0;
      while i < |rcvQueue|
        invariant 0 <= i <= |rcvQueue|
        invariant size + SumLengths(rcvQueue[i..]) == SumLengths(rcvQueue)
      {
        assert rcvQueue[i..][1..] == rcvQueue[i + 1..];
        size := size + |rcvQueue[i].frag.data|;
        if rcvQueue[i].frag.frg == 0 {
          break;
        }
        i := i + 1;
      }
    }

    /** The loop that moves ready segments from the buffer to the queue. */
    method MoveReady()
      requires Counted()
      modifies `rcvBuf, `nrcvBuf, `rcvQueue, `nrcvQue, `rcvNxt
      ensures Counted()
      ensures Value() == old(Value()).(rcv := KcpCore.MoveReady(Wrap32, old(Value()).rcv, cfg.rcvWnd))
    {
      while rcvBuf != []
        invariant Counted()
        invariant KcpCore.MoveReady(Wrap32, Value().rcv, cfg.rcvWnd)
               == KcpCore.MoveReady(Wrap32, old(Value()).rcv, cfg.rcvWnd)
        decreases |rcvBuf|
      {
        if rcvBuf[0].sn == rcvNxt && nrcvQue < cfg.rcvWnd {
          var seg := rcvBuf[0];
          rcvBuf := rcvBuf[1..];
          nrcvBuf := nrcvBuf - 1;
          rcvQueue := rcvQueue + [seg];
          nrcvQue := nrcvQue + 1;
          rcvNxt := Add(Wrap32, rcvNxt, 1);
        } else {
          break;
        }
      }
    }

    /** Takes (or, with a negative `len`, peeks at) the next message. The merged length always equals the
        size announced by PeekSize. */
    method Recv(len: int) returns (code: int, data: seq<Byte>)
      requires Valid()
      modifies `rcvBuf, `nrcvBuf, `rcvQueue, `nrcvQue, `rcvNxt, `ctl
      ensures Valid() && RecvResult(code, data, Value()) == KcpCore.Recv(Wrap32, old(Value()), len)
      ensures code >= 0 ==> code == |data|
    {
      RecvKeeps(Wrap32, Value(), len);
      PeekIsMerged(rcvQueue);
      hide EndpointInv;
      hide KcpCore.PeekSize;
      hide KcpCore.MoveReady;
      hide MergeData;
      hide MergeCount;
      data := [];
      if rcvQueue == [] {
        return -1, [];
      }
      var room := if len < 0 then -len else len;
      var size := PeekSize();
      if size < 0 {
        return -2, [];
      }
      if size > room {
        return -3, [];
      }
      data := Take(len < 0);
      code := |data|;
    }

    /** Joins the next message and moves what is ready behind it; a window that opens again is to be told. */
    method Take(peek: bool) returns (data: seq<Byte>)
      requires Counted()
      modifies `rcvBuf, `nrcvBuf, `rcvQueue, `nrcvQue, `rcvNxt, `ctl
      ensures Counted() && data == MergeData(old(rcvQueue))
      ensures var cb, q := old(Value()), old(rcvQueue);
              var left := if peek then q else q[MergeCount(q)..];
              var rcv := KcpCore.MoveReady(Wrap32, cb.rcv.(queue := left), cfg.rcvWnd);
              var opens := |q| >= cfg.rcvWnd && |rcv.queue| < cfg.rcvWnd;
              Value() == cb.(rcv := rcv, ctl := if opens then cb.ctl.(askTell := true) else cb.ctl)
    {
      hide KcpCore.MoveReady;
      hide MergeData;
      hide MergeCount;
      var recover := nrcvQue >= cfg.rcvWnd;
      data := Merge(peek);
      MoveReady();
      if nrcvQue < cfg.rcvWnd && recover {
        ctl := ctl.(askTell := true);
      }
    }

    /** The loop that puts the pieces of the next message together, taking them off the queue unless peeking. */
    method Merge(peek: bool) returns (data: seq<Byte>)
      requires Counted()
      modifies `rcvQueue, `nrcvQue
      ensures Counted() && data == MergeData(old(rcvQueue))
      ensures rcvQueue == if peek then old(rcvQueue) else old(rcvQueue)[MergeCount(old(rcvQueue))..]
    {
      var q := rcvQueue;
      data := [];
      var i := 0;
      var more := true;
      assert q[i..] == q;
      while more && i < |q|
        invariant 0 <= i <= |q|
        invariant more ==> data + MergeData(q[i..]) == MergeData(q) && i + MergeCount(q[i..]) == MergeCount(q)
        invariant !more ==> data == MergeData(q) && i == MergeCount(q)
        invariant rcvQueue == if peek then q else q[i..]
        invariant nrcvQue == |rcvQueue|
      {
        assert q[i..][1..] == q[i + 1..];
        assert data + (q[i].frag.data + MergeData(q[i + 1..])) == (data + q[i].frag.data) + MergeData(q[i + 1..]);
        data := data + q[i].frag.data;
        if !peek {
          rcvQueue := rcvQueue[1..];
          nrcvQue := nrcvQue - 1;
        }
        more := q[i].frag.frg != 0;
        i := i + 1;
      }
    }

    // ----- acknowledgements -----

    method ParseUna(una: nat)
      requires Counted()
      modifies `sndBuf, `nsndBuf
      ensures Counted()
      ensures Value() == old(Value()).(snd := old(Value()).snd.(buf := DropUna(Wrap32, old(sndBuf), una)))
    {
      while sndBuf != []
        invariant Counted()
        invariant DropUna(Wrap32, sndBuf, una) == DropUna(Wrap32, old(sndBuf), una)
        decreases |sndBuf|
      {
        if Diff(Wrap32, una, sndBuf[0].sn) > 0 {
          sndBuf := sndBuf[1..];
          nsndBuf := nsndBuf - 1;
        } else {
          break;
        }
      }
    }

    method ShrinkBuf()
      requires Counted()
      modifies `sndUna
      ensures Counted() && Value() == old(Value()).(snd := Shrink(old(Value()).snd))
    {
      if sndBuf != [] {
        sndUna := sndBuf[0].sn;
      } else {
        sndUna := sndNxt;
      }
    }

    method ParseAck(sn: nat)
      requires Counted()
      modifies `sndBuf, `nsndBuf
      ensures Counted()
      ensures Value() == old(Value()).(snd :=
                if InFlight(Wrap32, old(Value()).snd, sn)
                then old(Value()).snd.(buf := RemoveSn(Wrap32, old(sndBuf), sn)) else old(Value()).snd)
    {
      hide Diff;
      if Diff(Wrap32, sn, sndUna) < 0 || Diff(Wrap32, sn, sndNxt) >= 0 {
        return;
      }
      var i := 0;
      while i < |sndBuf|
        invariant 0 <= i <= |sndBuf|
        invariant sndBuf == old(sndBuf) && nsndBuf == |sndBuf|
        invariant RemoveSn(Wrap32, sndBuf, sn) == sndBuf[..i] + RemoveSn(Wrap32, sndBuf[i..], sn)
      {
        if sn == sndBuf[i].sn {
          assert sndBuf[i..][1..] == sndBuf[i + 1..];
          sndBuf := sndBuf[..i] + sndBuf[i + 1..];
          nsndBuf := nsndBuf - 1;
          return;
        }
        if Diff(Wrap32, sn, sndBuf[i].sn) < 0 {
          break;
        }
        assert sndBuf[i..][1..] == sndBuf[i + 1..];
        PassOne(sndBuf, i, RemoveSn(Wrap32, sndBuf[i + 1..], sn));
        i := i + 1;
      }
      assert sndBuf[..i] + sndBuf[i..] == sndBuf;
    }

    method ParseFastack(sn: nat)
      requires Counted()
      modifies `sndBuf
      ensures Counted()
      ensures Value() == old(Value()).(snd := KcpCore.ParseFastack(Wrap32, old(Value()).snd, sn))
    {
      hide BumpFastack;
      if Diff(Wrap32, sn, sndUna) < 0 || Diff(Wrap32, sn, sndNxt) >= 0 {
        return;
      }
      ghost var buf := sndBuf;
      var i := 0;
      assert buf[i..] == buf;
      while i < |sndBuf|
        invariant 0 <= i <= |sndBuf| == |buf|
        invariant sndBuf[i..] == buf[i..]
        invariant BumpFastack(Wrap32, buf, sn) == sndBuf[..i] + BumpFastack(Wrap32, buf[i..], sn)
      {
        BumpStep(buf, i, sn);
        assert sndBuf[i] == sndBuf[i..][0] == buf[i];
        if Diff(Wrap32, sn, sndBuf[i].sn) < 0 {
          break;
        }
        ghost var before := sndBuf;
        if sn != sndBuf[i].sn {
          sndBuf := sndBuf[i := sndBuf[i].(fastack := sndBuf[i].fastack + 1)];
        }
        assert sndBuf[i + 1..] == before[i..][1..] == buf[i + 1..];
        assert sndBuf[..i + 1] == before[..i] + [Bumped(buf[i], sn)];
        i := i + 1;
      }
      BumpStep(buf, i, sn);
      assert sndBuf[..i] + sndBuf[i..] == sndBuf;
    }

    // ----- data -----

    method ParseData(seg: In)
      requires Counted()
      modifies `rcvBuf, `nrcvBuf, `rcvQueue, `nrcvQue, `rcvNxt
      ensures Counted()
      ensures Value() == old(Value()).(rcv := KcpCore.ParseData(Wrap32, old(Value()).rcv, cfg.rcvWnd, seg))
    {
      if Diff(Wrap32, seg.sn, Add(Wrap32, rcvNxt, cfg.rcvWnd)) >= 0 || Diff(Wrap32, seg.sn, rcvNxt) < 0 {
        return;
      }
      hide Signed32;
      var p := |rcvBuf|;
      assert rcvBuf[..p] == rcvBuf;
      var repeated := false;
      while p > 0
        invariant 0 <= p <= |rcvBuf|
        invariant InsertAt(Wrap32, rcvBuf, seg.sn) == InsertAt(Wrap32, rcvBuf[..p], seg.sn)
        invariant !repeated
      {
        assert rcvBuf[..p][..p - 1] == rcvBuf[..p - 1];
        if rcvBuf[p - 1].sn == seg.sn {
          repeated := true;
          break;
        }
        if Diff(Wrap32, seg.sn, rcvBuf[p - 1].sn) > 0 {
          break;
        }
        p := p - 1;
      }
      if !repeated {
        rcvBuf := rcvBuf[..p] + [seg] + rcvBuf[p..];
        nrcvBuf := nrcvBuf + 1;
      }
      assert rcvBuf == Insert(Wrap32, old(rcvBuf), seg);
      MoveReady();
    }

    // ----- a datagram -----

    /** The effect of one segment of a datagram. */
    method OnPacket(p: Packet)
      requires Valid() && Encodable(p) && p.sn < TWO32
      modifies this
      ensures Valid() && Value() == KcpCore.OnPacket(Wrap32, old(Value()), p)
    {
      OnPacketKeeps(Wrap32, Value(), p);
      ctl := ctl.(rmtWnd := p.wnd);
      ParseUna(p.una);
      ShrinkBuf();
      if p.cmd == CMD_ACK {
        var rtt := TimeDiff(ctl.current, p.ts);
        if rtt >= 0 {
          ctl := UpdateRtt(cfg, ctl, rtt);
        }
        ParseAck(p.sn);
        ShrinkBuf();
      } else if p.cmd == CMD_PUSH {
        if Diff(Wrap32, p.sn, Add(Wrap32, rcvNxt, cfg.rcvWnd)) < 0 {
          ackList := ackList + [Ack(p.sn, p.ts)];
          if Diff(Wrap32, p.sn, rcvNxt) >= 0 {
            ParseData(In(p.sn, Frag(p.frg, p.data)));
          }
        }
      } else if p.cmd == CMD_WASK {
        ctl := ctl.(askTell := true);
      }
    }

    /** Any bytes may arrive. */
    method Input(data: seq<Byte>) returns (code: int)
      requires Valid()
      modifies this
      ensures Valid() && InputResult(code, Value()) == KcpCore.Input(old(Value()), data)
    {
      hide Parse;
      hide OnPackets;
      hide NoteAcks;
      hide Counted;
      var prevUna := sndUna;
      if |data| < OVERHEAD {
        return -1;
      }
      InputKeeps(Value(), data);
      hide EndpointInv;
      var maxAck;
      code, maxAck := ParseLoop(data);
      if code != 0 {
        return;
      }
      Finish(prevUna, maxAck);
    }

    /** The loop over the segments of a datagram. */
    method ParseLoop(data: seq<Byte>) returns (code: int, maxAck: MaxAck)
      requires Valid()
      modifies this
      ensures Valid()
      ensures var all := Parse(cfg.conv, cfg.token, data);
              && code == all.code
              && Value() == OnPackets(Wrap32, old(Value()), all.segments)
              && (code == 0 ==> maxAck == NoteAcks(Wrap32, NoAck, all.segments))
    {
      hide Parse;
      hide ReadFront;
      hide KcpCore.OnPacket;
      hide EndpointInv;
      hide Encodable;
      ghost var start, all := Value(), Parse(cfg.conv, cfg.token, data);
      maxAck := NoAck;
      var rest := data;
      var front := ReadFront(cfg.conv, cfg.token, rest);
      while front.Segment?
        invariant Valid()
        invariant front == ReadFront(cfg.conv, cfg.token, rest)
        invariant Remaining(start, all, Value(), maxAck, Parse(cfg.conv, cfg.token, rest))
        decreases |rest|
      {
        InputPass(Value(), maxAck, cfg.conv, cfg.token, rest, front.p, front.rest);
        OnPacket(front.p);
        if front.p.cmd == CMD_ACK {
          maxAck := NoteAck(Wrap32, maxAck, front.p.sn);
        }
        rest := front.rest;
        front := ReadFront(cfg.conv, cfg.token, rest);
      }
      StopsThere(cfg.conv, cfg.token, rest);
      code := if front.Reject? then front.code else 0;
    }

    /** After a datagram read to its end: fast acknowledgement counts and window growth. */
    method Finish(prevUna: nat, maxAck: MaxAck)
      requires Valid()
      modifies this
      ensures Valid() && Value() == KcpCore.Finish(Wrap32, old(Value()), prevUna, maxAck)
    {
      FinishKeeps(Wrap32, Value(), prevUna, maxAck);
      hide EndpointInv;
      if maxAck.MaxAck? {
        ParseFastack(maxAck.sn);
      }
      if Diff(Wrap32, sndUna, prevUna) > 0 {
        ctl := Grow(ctl, cfg.Mss());
      }
    }

    // ----- flushing -----

    /** The loop that numbers queued segments while the window has room. */
    method FillWindow(wnd: nat)
      requires Counted()
      modifies `sndQueue, `nsndQue, `sndBuf, `nsndBuf, `sndNxt
      ensures Counted()
      ensures Value() == old(Value()).(snd := KcpCore.FillWindow(Wrap32, old(Value()).snd, wnd, ctl))
    {
      while Diff(Wrap32, sndNxt, Add(Wrap32, sndUna, wnd)) < 0
        invariant Counted()
        invariant KcpCore.FillWindow(Wrap32, Value().snd, wnd, ctl)
               == KcpCore.FillWindow(Wrap32, old(Value()).snd, wnd, ctl)
        decreases |sndQueue|
      {
        if sndQueue == [] {
          break;
        }
        var o := Out(sndNxt, sndQueue[0], ctl.current, ctl.rto, 0, 0);
        sndQueue := sndQueue[1..];
        sndBuf := sndBuf + [o];
        nsndQue := nsndQue - 1;
        nsndBuf := nsndBuf + 1;
        sndNxt := Add(Wrap32, sndNxt, 1);
      }
    }

    /** Writes the acknowledgements, oldest first; also returns the last number and stamp written. */
    method WriteAcks(wnd: nat) returns (out: seq<seq<Byte>>, buffer: seq<Byte>, sn: nat, ts: nat)
      ensures Written(cfg, AckPackets(Value().rcv, wnd), out, buffer)
      ensures LastAck(Value().rcv, rcvNxt, sn, ts)
    {
      out, buffer, sn, ts := [], [], 0, 0;
      ghost var all := AckPackets(Value().rcv, wnd);
      WrittenNone(cfg);
      assert all[..0] == [];
      var i := 0;
      while i < |ackList|
        invariant 0 <= i <= |ackList|
        invariant Written(cfg, all[..i], out, buffer)
        invariant (sn, ts) == if i == 0 then (0, 0) else (ackList[i - 1].sn, ackList[i - 1].ts)
      {
        sn, ts := ackList[i].sn, ackList[i].ts;
        out, buffer := Write(cfg, all[..i], out, buffer, Packet(CMD_ACK, 0, wnd, ts, sn, rcvNxt, []));
        assert all[..i + 1] == all[..i] + [all[i]];
        i := i + 1;
      }
      assert all[..i] == all;
    }

    method WriteProbes(wnd: nat, sn: nat, ts: nat, ghost before: seq<Packet>,
                       out: seq<seq<Byte>>, buffer: seq<Byte>)
      returns (out': seq<seq<Byte>>, buffer': seq<Byte>)
      requires Written(cfg, before, out, buffer)
      ensures forall rcv: Receiver | LastAck(rcv, rcvNxt, sn, ts) ::
                Written(cfg, before + ProbePackets(ctl, rcv, wnd), out', buffer')
    {
      hide Written;
      out', buffer' := out, buffer;
      ghost var ps := before;
      if ctl.askSend {
        var p := Packet(CMD_WASK, 0, wnd, ts, sn, rcvNxt, []);
        out', buffer' := Write(cfg, ps, out', buffer', p);
        ps := ps + [p];
      }
      if ctl.askTell {
        var p := Packet(CMD_WINS, 0, wnd, ts, sn, rcvNxt, []);
        out', buffer' := Write(cfg, ps, out', buffer', p);
        ps := ps + [p];
      }
      forall rcv: Receiver | LastAck(rcv, rcvNxt, sn, ts) ensures ps == before + ProbePackets(ctl, rcv, wnd) {
      }
    }

    /** One pass over the send buffer. */
    method WriteData(wnd: nat, ghost before: seq<Packet>, out: seq<seq<Byte>>, buffer: seq<Byte>)
      returns (out': seq<seq<Byte>>, buffer': seq<Byte>, change: bool, lost: bool, dead: bool)
      requires Written(cfg, before, out, buffer)
      modifies `sndBuf
      ensures var t := Transmit(cfg, ctl, wnd, rcvNxt, old(sndBuf));
              && sndBuf == t.buf && (change, lost, dead) == (t.change, t.lost, t.dead)
              && Written(cfg, before + t.packets, out', buffer')
    {
      hide Transmit;
      hide Stamp;
      hide Why;
      hide Written;
      hide DataPacket;
      TransmitNone(cfg, ctl, wnd, rcvNxt);
      out', buffer', change, lost, dead := out, buffer, false, false, false;
      ghost var buf := sndBuf;
      assert buf[..0] == [] && before + [] == before;
      var i := 0;
      while i < |sndBuf|
        invariant 0 <= i <= |sndBuf| == |buf|
        invariant sndBuf[i..] == buf[i..]
        invariant var t := Transmit(cfg, ctl, wnd, rcvNxt, buf[..i]);
                  && sndBuf[..i] == t.buf && (change, lost, dead) == (t.change, t.lost, t.dead)
                  && Written(cfg, before + t.packets, out', buffer')
      {
        ghost var t := Transmit(cfg, ctl, wnd, rcvNxt, buf[..i]);
        TransmitStep(cfg, ctl, wnd, rcvNxt, buf, i);
        assert sndBuf[i] == sndBuf[i..][0] == buf[i];
        var why := Why(cfg, ctl, sndBuf[i]);
        var o := Stamp(cfg, ctl, sndBuf[i]);
        ghost var prev := sndBuf;
        sndBuf := sndBuf[i := o];
        assert sndBuf[..i + 1] == prev[..i] + [o];
        assert sndBuf[i + 1..] == prev[i..][1..] == buf[i + 1..];
        if !why.Hold? {
          var p := DataPacket(o, ctl, wnd, rcvNxt);
          out', buffer' := Write(cfg, before + t.packets, out', buffer', p);
          assert before + t.packets + [p] == before + (t.packets + [p]);
          dead := dead || o.xmit >= cfg.deadLink;
        }
        change := change || why.Fast?;
        lost := lost || why.Timeout?;
        i := i + 1;
      }
      assert buf[..i] == buf && sndBuf[..i] == sndBuf;
    }

    /** Everything that is due goes out: acknowledgements, window probes, new and overdue data. */
    method Flush() returns (out: seq<seq<Byte>>)
      requires Valid()
      modifies this
      ensures Valid()
      ensures var f := KcpCore.Flush(Wrap32, old(Value()));
              Value() == f.cb && out == EncodeGroups(cfg.conv, cfg.token, Pack(cfg.mtu, f.packets))
    {
      hide KcpCore.FillWindow;
      hide ProbeTimer;
      hide Transmit;
      hide AfterFlush;
      hide AckPackets;
      hide ProbePackets;
      hide Diff;
      hide Written;
      hide Pack;
      hide EncodeGroups;
      FlushKeeps(Wrap32, Value());
      hide EndpointInv;
      if !ctl.updated {
        NothingWritten(cfg);
        return [];
      }
      ghost var cb0 := Value();
      var wnd := (if nrcvQue < cfg.rcvWnd then cfg.rcvWnd - nrcvQue else 0) % 65536;
      ghost var written := AckPackets(Value().rcv, wnd);
      var buffer, sn, ts;
      out, buffer, sn, ts := WriteAcks(wnd);
      ackList := [];
      ctl := ProbeTimer(ctl);
      out, buffer := WriteProbes(wnd, sn, ts, written, out, buffer);
      written := written + ProbePackets(ctl, cb0.rcv, wnd);
      var cwnd := EffectiveWindow(cfg, ctl);
      FillWindow(cwnd);
      ghost var filled := sndBuf;
      var change, lost, dead;
      out, buffer, change, lost, dead := WriteData(wnd, written, out, buffer);
      ghost var t := Transmit(cfg, ctl, wnd, rcvNxt, filled);
      out := Close(cfg, written + t.packets, out, buffer);
      var inflight := Max(0, Diff(Wrap32, sndNxt, sndUna));
      var calm := ctl.(askSend := false, askTell := false);
      AfterFlushSame(cfg, calm, t, Transmission([], [], change, lost, dead), inflight, cwnd);
      ctl := AfterFlush(cfg, calm, Transmission([], [], change, lost, dead), inflight, cwnd);
    }

    method Update(now: nat) returns (out: seq<seq<Byte>>)
      requires Valid() && now < TWO32
      modifies this
      ensures Valid()
      ensures var f := KcpCore.Update(Wrap32, old(Value()), now);
              Value() == f.cb && out == EncodeGroups(cfg.conv, cfg.token, Pack(cfg.mtu, f.packets))
    {
      hide KcpCore.Flush;
      hide Pack;
      hide EncodeGroups;
      var due := Advance(now);
      if due {
        out := Flush();
      } else {
        NothingWritten(cfg);
        out := [];
      }
    }

    /** Sets the clock, and tells whether it is time to flush. */
    method Advance(now: nat) returns (due: bool)
      modifies `ctl
      ensures (ctl, due) == Tick(cfg, old(ctl), now)
    {
      hide TimeDiff;
      ctl := ctl.(current := now);
      if !ctl.updated {
        ctl := ctl.(updated := true, tsFlush := now);
      }
      var slap := TimeDiff(now, ctl.tsFlush);
      if slap >= 10000 || slap < -10000 {
        ctl := ctl.(tsFlush := now);
        slap := 0;
      }
      if slap >= 0 {
        ctl := ctl.(tsFlush := (ctl.tsFlush + cfg.interval) % TWO32);
        if TimeDiff(now, ctl.tsFlush) >= 0 {
          ctl := ctl.(tsFlush := (now + cfg.interval) % TWO32);
        }
      }
      due := slap >= 0;
    }

    /** When update should be called again, if nothing is sent or taken in before. */
    method Check(now: nat) returns (when: nat)
      requires Valid() && now < TWO32 && 0 < cfg.interval < TWO31
      ensures when < TWO32
      ensures when == now <==> Flushing(ctl, now) || !NoneOverdue(sndBuf, now)
      ensures when != now ==> TimeDiff(when, now) > 0 && LongestWait(cfg, sndBuf, ctl, now, TimeDiff(when, now))
    {
      if !ctl.updated {
        return now;
      }
      var slap := TimeDiff(now, ctl.tsFlush);
      if slap >= 10000 || slap < -10000 || slap >= 0 {
        return now;
      }
      var packet := NextResend(sndBuf, now);
      if packet == 0 {
        return now;
      }
      var flush := TimeDiff(ctl.tsFlush, now);
      BehindIsAhead(now, ctl.tsFlush);
      var wait := Min(if packet < flush then packet else flush, cfg.interval);
      DiffAdd(Wrap32, now, wait, now);
      when := (now + wait) % TWO32;
    }
  }

  /** How long until the first of these segments is to be sent again, or 0 if one is overdue. */
  method NextResend(buf: seq<Out>, now: nat) returns (wait: int)
    ensures 0 <= wait < TWO31 && (wait == 0 <==> !NoneOverdue(buf, now))
    ensures wait > 0 ==> forall i :: 0 <= i < |buf| ==> wait <= TimeDiff(buf[i].resendts, now)
    ensures 0 < wait < TWO31 - 1 ==> exists i :: 0 <= i < |buf| && wait == TimeDiff(buf[i].resendts, now)
  {
    wait := TWO31 - 1;
    var i := 0;
    while i < |buf|
      invariant 0 <= i <= |buf| && 0 < wait < TWO31
      invariant forall j :: 0 <= j < i ==> wait <= TimeDiff(buf[j].resendts, now)
      invariant wait == TWO31 - 1 || exists j :: 0 <= j < i && wait == TimeDiff(buf[j].resendts, now)
    {
      var diff := TimeDiff(buf[i].resendts, now);
      if diff <= 0 {
        return 0;
      }
      wait := Min(wait, diff);
      i := i + 1;
    }
  }

  // ----- writing datagrams -----

  /** The number and stamp of the last pending acknowledgement, or 0. */
  predicate LastAck(rcv: Receiver, nxt: nat, sn: nat, ts: nat) {
    && rcv.nxt == nxt
    && (sn, ts) == if rcv.acks == [] then (0, 0) else (rcv.acks[|rcv.acks| - 1].sn, rcv.acks[|rcv.acks| - 1].ts)
  }

  /** After these packets, `out` has been handed over and `buffer` is being filled. */
  ghost predicate Written(cfg: Config, ps: seq<Packet>, out: seq<seq<Byte>>, buffer: seq<Byte>) {
    var k := PutAll(cfg.mtu, EMPTY_PACKER, ps);
    out == EncodeGroups(cfg.conv, cfg.token, k.sent) && buffer == EncodeAll(cfg.conv, cfg.token, k.filling)
  }

  lemma WrittenNone(cfg: Config)
    ensures Written(cfg, [], [], [])
  {
  }

  lemma NothingWritten(cfg: Config)
    ensures EncodeGroups(cfg.conv, cfg.token, Pack(cfg.mtu, [])) == []
  {
  }

  lemma SizeZero(ps: seq<Packet>)
    ensures Size(ps) == 0 <==> ps == []
  {
  }

  /** Hands the buffer over unless it is empty. */
  method Output(out: seq<seq<Byte>>, buffer: seq<Byte>) returns (out': seq<seq<Byte>>)
    ensures out' == if |buffer| == 0 then out else out + [buffer]
  {
    out' := if |buffer| == 0 then out else out + [buffer];
  }

  lemma EmitWritten(cfg: Config, k: Packer)
    ensures var b := EncodeAll(cfg.conv, cfg.token, k.filling);
            EncodeGroups(cfg.conv, cfg.token, Emit(k).sent) ==
              EncodeGroups(cfg.conv, cfg.token, k.sent) + (if |b| == 0 then [] else [b])
  {
    SizeZero(k.filling);
  }

  /** Appends a segment, first handing the buffer over if the segment would not fit. */
  method Write(cfg: Config, ghost ps: seq<Packet>, out: seq<seq<Byte>>, buffer: seq<Byte>, p: Packet)
    returns (out': seq<seq<Byte>>, buffer': seq<Byte>)
    requires Written(cfg, ps, out, buffer)
    ensures Written(cfg, ps + [p], out', buffer')
  {
    hide Encode;
    ghost var k := PutAll(cfg.mtu, EMPTY_PACKER, ps);
    EmitWritten(cfg, k);
    assert (ps + [p])[..|ps|] == ps;
    out', buffer' := out, buffer;
    if |buffer| + OVERHEAD + |p.data| > cfg.mtu {
      out' := Output(out, buffer);
      EncodeAllAppend(cfg.conv, cfg.token, [], p);
      SizeZero(k.filling);
      buffer' := [];
    } else {
      EncodeAllAppend(cfg.conv, cfg.token, k.filling, p);
    }
    buffer' := buffer' + Encode(cfg.conv, cfg.token, p, []);
  }

  method Close(cfg: Config, ghost ps: seq<Packet>, out: seq<seq<Byte>>, buffer: seq<Byte>)
    returns (out': seq<seq<Byte>>)
    requires Written(cfg, ps, out, buffer)
    ensures out' == EncodeGroups(cfg.conv, cfg.token, Pack(cfg.mtu, ps))
  {
    EmitWritten(cfg, PutAll(cfg.mtu, EMPTY_PACKER, ps));
    out' := Output(out, buffer);
  }

  lemma TransmitStep(cfg: Config, ctl: Control, wnd: nat, una: nat, buf: seq<Out>, i: nat)
    requires i < |buf|
    ensures var t := Transmit(cfg, ctl, wnd, una, buf[..i]);
            var o := Stamp(cfg, ctl, buf[i]);
            var why := Why(cfg, ctl, buf[i]);
            Transmit(cfg, ctl, wnd, una, buf[..i + 1]) == Transmission(
              t.buf + [o],
              if why.Hold? then t.packets else t.packets + [DataPacket(o, ctl, wnd, una)],
              t.change || why.Fast?, t.lost || why.Timeout?, t.dead || (!why.Hold? && o.xmit >= cfg.deadLink))
  {
    assert buf[..i + 1][..i] == buf[..i];
  }

  lemma TransmitNone(cfg: Config, ctl: Control, wnd: nat, una: nat)
    ensures Transmit(cfg, ctl, wnd, una, []) == Transmission([], [], false, false, false)
  {
  }

  lemma PassOne(buf: seq<Out>, i: nat, rest: seq<Out>)
    requires i < |buf|
    ensures buf[..i] + ([buf[i]] + rest) == buf[..i + 1] + rest
  {
  }
}
