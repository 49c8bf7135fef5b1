/** What send, recv and input answer, and what they change, case by case. */
module KcpCalls {
  import opened Words
  import opened KcpWire
  import opened KcpCore
  import opened KcpInvariants

  // ----- send -----

  function Joined(fs: seq<Frag>): seq<Byte> {
    if fs == [] then [] else fs[0].data + Joined(fs[1..])
  }

  /** Pieces of `data`: numbered down to 0, every one but the last full, and the last one empty only if all is. */
  predicate CutUp(mss: nat, data: seq<Byte>, fs: seq<Frag>) {
    && fs != [] && Joined(fs) == data
    && (forall i :: 0 <= i < |fs| ==> fs[i].frg == |fs| - 1 - i)
    && (forall i :: 0 <= i < |fs| - 1 ==> |fs[i].data| == mss)
    && |fs[|fs| - 1].data| <= mss && (|fs| > 1 ==> fs[|fs| - 1].data != [])
  }

  lemma {:induction false} FragmentsCutUp(mss: nat, data: seq<Byte>, count: nat)
    requires count > 0 && ((count - 1) * mss < |data| <= count * mss || (data == [] && count == 1))
    ensures CutUp(mss, data, Fragments(mss, data, count))
    decreases count
  {
    if count == 1 {
      assert data[..|data|] == data && data[|data|..] == [];
      assert Fragments(mss, data, 1) == [Frag(0, data)];
      assert Joined([Frag(0, data)][1..]) == [];
    } else {
      OnePieceLess(mss, |data|, count);
      var size := if |data| > mss then mss else |data|;
      var rest := data[size..];
      FragmentsCutUp(mss, rest, count - 1);
      var fs, more := Fragments(mss, data, count), Fragments(mss, rest, count - 1);
      assert fs[1..] == more && data == data[..size] + rest;
      forall i | 0 <= i < |fs|
        ensures fs[i].frg == |fs| - 1 - i && (i < |fs| - 1 ==> |fs[i].data| == mss)
      {
        assert i > 0 ==> fs[i] == more[i - 1];
      }
      assert fs[|fs| - 1] == more[|more| - 1];
    }
  }

  lemma OnePieceLess(mss: nat, len: nat, count: nat)
    requires count > 1 && (count - 1) * mss < len <= count * mss
    ensures mss < len && (count - 2) * mss < len - mss <= (count - 1) * mss
  {
    assert (count - 1) * mss == (count - 2) * mss + mss && count * mss == (count - 1) * mss + mss;
  }

  lemma AcceptableLength(cfg: Config, len: nat)
    requires cfg.Mss() > 0
    ensures Acceptable(cfg, len) <==> len <= (MAX_FRAGMENTS - 1) * cfg.Mss()
  {
    var mss, n := cfg.Mss(), FragCount(cfg.Mss(), len);
    if n <= MAX_FRAGMENTS - 1 {
      TimesUp(n, MAX_FRAGMENTS - 1, mss);
    } else {
      TimesUp(MAX_FRAGMENTS - 1, n - 1, mss);
    }
  }

  lemma TimesUp(x: nat, y: nat, z: nat)
    requires x <= y
    ensures x * z <= y * z
  {
  }

  /** A message is refused if and only if its length is negative or more than 255 full pieces; a refusal changes
      nothing. Otherwise its pieces, and nothing else, are put at the end of the send queue. */
  lemma SendExactly(cb: Cb, buffer: seq<Byte>, len: int)
    requires len <= |buffer| && cb.cfg.Mss() > 0
    ensures var r := Send(cb, buffer, len);
            && r.code == (if len < 0 then -1 else if len > (MAX_FRAGMENTS - 1) * cb.cfg.Mss() then -2 else 0)
            && (r.code < 0 ==> r.cb == cb)
            && (r.code == 0 ==>
                  && cb.snd.queue <= r.cb.snd.queue
                  && CutUp(cb.cfg.Mss(), buffer[..len], r.cb.snd.queue[|cb.snd.queue|..])
                  && r.cb == cb.(snd := cb.snd.(queue := r.cb.snd.queue)))
  {
    if len >= 0 {
      AcceptableLength(cb.cfg, len);
      var mss := cb.cfg.Mss();
      hide FragCount;
      hide Fragments;
      hide CutUp;
      if Acceptable(cb.cfg, len) {
        var frags := Fragments(mss, buffer[..len], FragCount(mss, len));
        FragmentsCutUp(mss, buffer[..len], FragCount(mss, len));
        assert (cb.snd.queue + frags)[|cb.snd.queue|..] == frags;
      }
    }
  }

  // ----- recv -----

  /** The first fragment queued has all its companions behind it. */
  predicate HasMessage(q: seq<In>) {
    q != [] && q[0].frag.frg < |q|
  }

  /** Segments move from the buffer to the queue in order, until one is missing or the queue is full. */
  lemma {:induction false} MoveExactly(m: Numbering, rcv: Receiver, wnd: nat)
    ensures var t := MoveReady(m, rcv, wnd);
            && t.queue + t.buf == rcv.queue + rcv.buf && rcv.queue <= t.queue && t.acks == rcv.acks
            && (t.buf == [] || t.buf[0].sn != t.nxt || |t.queue| >= wnd)
            && (t.queue != rcv.queue ==> t.queue[|t.queue| - 1].sn == rcv.buf[|t.queue| - |rcv.queue| - 1].sn)
    decreases |rcv.buf|
  {
    if rcv.buf != [] && rcv.buf[0].sn == rcv.nxt && |rcv.queue| < wnd {
      var s := rcv.(buf := rcv.buf[1..], queue := rcv.queue + [rcv.buf[0]], nxt := Add(m, rcv.nxt, 1));
      MoveExactly(m, s, wnd);
      var t := MoveReady(m, rcv, wnd);
      assert s.queue + s.buf == rcv.queue + rcv.buf;
      hide MoveReady;
      hide Add;
    }
  }

  /** recv answers -1 on an empty queue, -2 while fragments are missing, -3 when the room is too small, and then changes
      nothing; otherwise it hands out the fragments joined. They leave the queue unless the length is negative, what is
      ready moves up behind them, and the window is to be told if the queue was full and is no longer. */
  lemma RecvExactly(m: Numbering, cb: Cb, len: int)
    ensures var r, q, data := Recv(m, cb, len), cb.rcv.queue, MergeData(cb.rcv.queue);
            && r.code == (if q == [] then -1 else if !HasMessage(q) then -2
                          else if |data| > (if len < 0 then -len else len) then -3 else |data|)
            && (r.code < 0 ==> r.cb == cb && r.data == [])
            && (r.code >= 0 ==>
                  && r.data == data
                  && r.cb.rcv.queue + r.cb.rcv.buf == (if len < 0 then q else q[MergeCount(q)..]) + cb.rcv.buf
                  && r.cb.cfg == cb.cfg && r.cb.snd == cb.snd && r.cb.rcv.acks == cb.rcv.acks
                  && r.cb.ctl == cb.ctl.(askTell := cb.ctl.askTell
                       || (|q| >= cb.cfg.rcvWnd && |r.cb.rcv.queue| < cb.cfg.rcvWnd)))
  {
    var q := cb.rcv.queue;
    PeekIsMerged(q);
    MoveExactly(m, cb.rcv.(queue := if len < 0 then q else q[MergeCount(q)..]), cb.cfg.rcvWnd);
    hide MoveReady;
    hide MergeData;
    hide MergeCount;
    hide PeekSize;
  }

  // ----- input -----

  /** What one segment tells: its window, and whether the other end asks for ours. The round-trip estimates alone may
      change besides. */
  lemma PacketTells(m: Numbering, cb: Cb, p: Packet)
    ensures var c := OnPacket(m, cb, p).ctl;
            c == cb.ctl.(rmtWnd := p.wnd, askTell := cb.ctl.askTell || p.cmd == CMD_WASK,
                         srtt := c.srtt, rttval := c.rttval, rto := c.rto)
  {
    hide ParseUna;
    hide ParseAck;
    hide ParsePush;
    hide Max;
    hide Min;
  }

  predicate Asked(ps: seq<Packet>) {
    exists i :: 0 <= i < |ps| && ps[i].cmd == CMD_WASK
  }

  /** A datagram leaves the window its last segment told, and asks for ours if and only if one of them did. */
  lemma {:induction false} InputTells(m: Numbering, cb: Cb, ps: seq<Packet>)
    ensures var c := OnPackets(m, cb, ps).ctl;
            c == cb.ctl.(rmtWnd := if ps == [] then cb.ctl.rmtWnd else ps[|ps| - 1].wnd,
                         askTell := cb.ctl.askTell || Asked(ps), srtt := c.srtt, rttval := c.rttval, rto := c.rto)
    decreases |ps|
  {
    if ps != [] {
      PacketTells(m, cb, ps[0]);
      hide OnPacket;
      InputTells(m, OnPacket(m, cb, ps[0]), ps[1..]);
      assert Asked(ps) <==> ps[0].cmd == CMD_WASK || Asked(ps[1..]) by {
        if i :| 0 <= i < |ps| && ps[i].cmd == CMD_WASK {
          assert i > 0 ==> ps[1..][i - 1].cmd == CMD_WASK;
        }
        if j :| 0 <= j < |ps[1..]| && ps[1..][j].cmd == CMD_WASK {
          assert ps[j + 1].cmd == CMD_WASK;
        }
      }
      hide Asked;
    }
  }

  /** The greatest number acknowledged by a datagram, if any is. */
  predicate Greatest(x: MaxAck, ps: seq<Packet>) {
    match x
    case NoAck => forall i :: 0 <= i < |ps| ==> ps[i].cmd != CMD_ACK
    case MaxAck(sn) =>
      && (exists i :: 0 <= i < |ps| && ps[i].cmd == CMD_ACK && ps[i].sn == sn)
      && forall i :: 0 <= i < |ps| && ps[i].cmd == CMD_ACK ==> ps[i].sn <= sn
  }

  lemma {:induction false} NoteAcksOn(m: Numbering, x: MaxAck, ps: seq<Packet>, p: Packet)
    ensures NoteAcks(m, x, ps + [p]) ==
            var y := NoteAcks(m, x, ps); if p.cmd == CMD_ACK then NoteAck(m, y, p.sn) else y
    decreases |ps|
  {
    hide NoteAck;
    if ps == [] {
      assert ps + [p] == [p] && [p][1..] == [];
    } else {
      assert (ps + [p])[1..] == ps[1..] + [p];
      NoteAcksOn(m, if ps[0].cmd == CMD_ACK then NoteAck(m, x, ps[0].sn) else x, ps[1..], p);
    }
  }

  lemma {:induction false} NoteAcksGreatest(ps: seq<Packet>)
    ensures Greatest(NoteAcks(Unbounded, NoAck, ps), ps)
    decreases |ps|
  {
    if ps != [] {
      var init, p := ps[..|ps| - 1], ps[|ps| - 1];
      assert ps == init + [p];
      NoteAcksGreatest(init);
      NoteAcksOn(Unbounded, NoAck, init, p);
      var x := NoteAcks(Unbounded, NoAck, init);
      hide NoteAcks;
      if x.MaxAck? {
        var i :| 0 <= i < |init| && init[i].cmd == CMD_ACK && init[i].sn == x.sn;
        assert ps[i] == init[i];
      }
      assert ps[|ps| - 1] == p;
    }
  }

  lemma {:induction false} BumpExactly(buf: seq<Out>, sn: nat)
    requires forall i, j :: 0 <= i < j < |buf| ==> buf[i].sn < buf[j].sn
    ensures forall i :: 0 <= i < |buf| ==>
              BumpFastack(Unbounded, buf, sn)[i] ==
              buf[i].(fastack := buf[i].fastack + if buf[i].sn < sn then 1 else 0)
    decreases |buf|
  {
    if buf != [] && sn >= buf[0].sn {
      BumpExactly(buf[1..], sn);
      forall i | 0 <= i < |buf|
        ensures BumpFastack(Unbounded, buf, sn)[i] ==
                buf[i].(fastack := buf[i].fastack + if buf[i].sn < sn then 1 else 0)
      {
        assert i > 0 ==> buf[1..][i - 1] == buf[i];
      }
    }
  }

  /** Of the segments still waiting after a datagram, exactly those below the greatest number it acknowledged, if that
      number is outstanding, count one more that overtook them. Nothing else changes in them. */
  lemma SkippedExactly(cb: Cb, prevUna: nat, ps: seq<Packet>)
    requires SndInv(Unbounded, cb.snd, cb.cfg.sndWnd)
    ensures var x, t := NoteAcks(Unbounded, NoAck, ps), Finish(Unbounded, cb, prevUna, NoteAcks(Unbounded, NoAck, ps));
            && Greatest(x, ps) && t.snd == cb.snd.(buf := t.snd.buf) && |t.snd.buf| == |cb.snd.buf|
            && forall i :: 0 <= i < |cb.snd.buf| ==>
                 var o := cb.snd.buf[i];
                 t.snd.buf[i] == o.(fastack := o.fastack +
                   if x.MaxAck? && cb.snd.una <= x.sn < cb.snd.nxt && o.sn < x.sn then 1 else 0)
  {
    NoteAcksGreatest(ps);
    var x := NoteAcks(Unbounded, NoAck, ps);
    hide NoteAcks;
    hide Greatest;
    hide Grow;
    if x.MaxAck? {
      BumpExactly(cb.snd.buf, x.sn);
    }
    hide BumpFastack;
  }
}
