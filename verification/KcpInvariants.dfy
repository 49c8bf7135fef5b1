/** What every operation keeps, for arbitrary calls and arbitrary (even malformed) datagrams,
    in either numbering. */
module KcpInvariants {
  import opened Words
  import opened KcpWire
  import opened KcpCore

  // ----- the sending half -----

  /** The send buffer is strictly increasing within [una, nxt), and the window is respected. */
  ghost predicate SndOrdered(m: Numbering, snd: Sender, wnd: nat) {
    && Word(m, snd.una) && Word(m, snd.nxt)
    && 0 <= Diff(m, snd.nxt, snd.una) <= wnd
    && (forall i :: 0 <= i < |snd.buf| ==>
          Word(m, snd.buf[i].sn) && 0 <= Diff(m, snd.buf[i].sn, snd.una) < Diff(m, snd.nxt, snd.una))
    && (forall i, j :: 0 <= i < j < |snd.buf| ==>
          Diff(m, snd.buf[i].sn, snd.una) < Diff(m, snd.buf[j].sn, snd.una))
  }

  /** Moreover `una` is the head of the buffer, or `nxt` when the buffer is empty. */
  ghost predicate SndInv(m: Numbering, snd: Sender, wnd: nat) {
    && SndOrdered(m, snd, wnd)
    && snd.una == (if snd.buf == [] then snd.nxt else snd.buf[0].sn)
  }

  /** From `s` to `t` the window's base moved forward, its end stayed. */
  ghost predicate Advanced(m: Numbering, s: Sender, t: Sender) {
    && t.nxt == s.nxt && t.queue == s.queue
    && 0 <= Diff(m, t.una, s.una)
    && Diff(m, t.nxt, t.una) == Diff(m, s.nxt, s.una) - Diff(m, t.una, s.una)
  }

  lemma AdvancedTwice(m: Numbering, r: Sender, s: Sender, t: Sender, wnd: nat)
    requires wnd < TWO31 && SndOrdered(m, r, wnd) && SndOrdered(m, s, wnd) && SndOrdered(m, t, wnd)
    requires Advanced(m, r, s) && Advanced(m, s, t)
    ensures Advanced(m, r, t)
  {
    hide Diff;
    DiffChain(m, t.una, s.una, r.una);
  }

  lemma ShrinkKeeps(m: Numbering, snd: Sender, wnd: nat)
    requires wnd < TWO31 && SndOrdered(m, snd, wnd)
    ensures SndInv(m, Shrink(snd), wnd) && Advanced(m, snd, Shrink(snd))
  {
    hide Diff;
    var t := Shrink(snd);
    DiffRebase(m, snd.nxt, t.una, snd.una);
    forall i | 0 <= i < |snd.buf|
      ensures Diff(m, snd.buf[i].sn, t.una) == Diff(m, snd.buf[i].sn, snd.una) - Diff(m, t.una, snd.una)
    {
      DiffRebase(m, snd.buf[i].sn, t.una, snd.una);
    }
    DiffZero(m, t.una, t.una);
  }

  /** Exactly a prefix of segments before `una` is dropped. */
  lemma DropUnaSuffix(m: Numbering, buf: seq<Out>, una: nat) returns (k: nat)
    ensures k <= |buf| && DropUna(m, buf, una) == buf[k..]
    ensures forall i :: 0 <= i < k ==> Diff(m, una, buf[i].sn) > 0
    ensures k < |buf| ==> Diff(m, una, buf[k].sn) <= 0
  {
    hide Diff;
    if buf != [] && Diff(m, una, buf[0].sn) > 0 {
      var k' := DropUnaSuffix(m, buf[1..], una);
      k := k' + 1;
      assert buf[1..][k'..] == buf[k..];
      forall i | 0 <= i < k ensures Diff(m, una, buf[i].sn) > 0 {
        if i > 0 {
          assert buf[i] == buf[1..][i - 1];
        }
      }
      assert k < |buf| ==> buf[k] == buf[1..][k'];
    } else {
      k := 0;
    }
  }

  /** At most one segment is removed, and only the one acknowledged. */
  lemma RemoveSnOne(m: Numbering, buf: seq<Out>, sn: nat) returns (k: nat)
    ensures k <= |buf|
    ensures k == |buf| ==> RemoveSn(m, buf, sn) == buf
    ensures k < |buf| ==> buf[k].sn == sn && RemoveSn(m, buf, sn) == buf[..k] + buf[k + 1..]
  {
    hide Diff;
    if buf == [] || (sn != buf[0].sn && Diff(m, sn, buf[0].sn) < 0) {
      k := |buf|;
    } else if sn == buf[0].sn {
      k := 0;
    } else {
      var k' := RemoveSnOne(m, buf[1..], sn);
      k := k' + 1;
      if k < |buf| {
        CutInTail(buf, k');
      }
    }
  }

  lemma CutInTail(buf: seq<Out>, k: nat)
    requires k + 1 < |buf|
    ensures [buf[0]] + (buf[1..][..k] + buf[1..][k + 1..]) == buf[..k + 1] + buf[k + 2..]
  {
  }

  lemma ParseUnaKeeps(m: Numbering, snd: Sender, una: nat, wnd: nat)
    requires wnd < TWO31 && SndOrdered(m, snd, wnd)
    ensures SndInv(m, ParseUna(m, snd, una), wnd) && Advanced(m, snd, ParseUna(m, snd, una))
  {
    hide Diff;
    var k := DropUnaSuffix(m, snd.buf, una);
    var s := snd.(buf := snd.buf[k..]);
    ShrinkKeeps(m, s, wnd);
  }

  lemma WithoutOne(m: Numbering, snd: Sender, k: nat, wnd: nat)
    requires SndOrdered(m, snd, wnd) && k < |snd.buf|
    ensures SndOrdered(m, snd.(buf := snd.buf[..k] + snd.buf[k + 1..]), wnd)
  {
    hide Diff;
    var b := snd.buf[..k] + snd.buf[k + 1..];
    forall i | 0 <= i < |b| ensures b[i] == if i < k then snd.buf[i] else snd.buf[i + 1] {
    }
  }

  lemma RemoveKeeps(m: Numbering, snd: Sender, sn: nat, wnd: nat)
    requires SndOrdered(m, snd, wnd)
    ensures SndOrdered(m, snd.(buf := RemoveSn(m, snd.buf, sn)), wnd)
  {
    hide Diff;
    hide SndOrdered;
    var k := RemoveSnOne(m, snd.buf, sn);
    if k < |snd.buf| {
      WithoutOne(m, snd, k, wnd);
    } else {
      assert snd.(buf := snd.buf) == snd;
    }
  }

  lemma ParseAckKeeps(m: Numbering, snd: Sender, sn: nat, wnd: nat)
    requires wnd < TWO31 && SndOrdered(m, snd, wnd)
    ensures SndInv(m, ParseAck(m, snd, sn), wnd) && Advanced(m, snd, ParseAck(m, snd, sn))
  {
    hide Diff;
    RemoveKeeps(m, snd, sn, wnd);
    var s := if InFlight(m, snd, sn) then snd.(buf := RemoveSn(m, snd.buf, sn)) else snd;
    ShrinkKeeps(m, s, wnd);
  }

  /** Same segments, possibly different retransmission state. */
  ghost predicate SameSegments(a: seq<Out>, b: seq<Out>) {
    |a| == |b| && forall i :: 0 <= i < |a| ==> a[i].sn == b[i].sn && a[i].frag == b[i].frag
  }

  lemma BumpSame(m: Numbering, buf: seq<Out>, sn: nat)
    ensures SameSegments(buf, BumpFastack(m, buf, sn))
  {
    if buf != [] && Diff(m, sn, buf[0].sn) >= 0 {
      BumpSame(m, buf[1..], sn);
      forall i | 0 <= i < |buf|
        ensures buf[i].sn == BumpFastack(m, buf, sn)[i].sn && buf[i].frag == BumpFastack(m, buf, sn)[i].frag
      {
        if i > 0 {
          assert buf[i] == buf[1..][i - 1];
        }
      }
    }
  }

  /** What a pass over the send buffer emits: data segments of that buffer, and nothing else. */
  lemma TransmitSame(cfg: Config, ctl: Control, wnd: nat, una: nat, buf: seq<Out>)
    ensures var t := Transmit(cfg, ctl, wnd, una, buf);
            && SameSegments(buf, t.buf)
            && forall p :: p in t.packets ==> exists i :: 0 <= i < |buf| && p == DataPacket(buf[i], ctl, wnd, una)
  {
    if buf != [] {
      var n := |buf| - 1;
      TransmitSame(cfg, ctl, wnd, una, buf[..n]);
      var t := Transmit(cfg, ctl, wnd, una, buf);
      forall p | p in t.packets ensures exists i :: 0 <= i < |buf| && p == DataPacket(buf[i], ctl, wnd, una) {
        if p in Transmit(cfg, ctl, wnd, una, buf[..n]).packets {
          var i :| 0 <= i < n && p == DataPacket(buf[..n][i], ctl, wnd, una);
          assert p == DataPacket(buf[i], ctl, wnd, una);
        } else {
          assert p == DataPacket(buf[n], ctl, wnd, una);
        }
      }
    }
  }

  lemma FillOne(m: Numbering, snd: Sender, wnd: nat, ctl: Control)
    requires wnd < TWO31 && SndInv(m, snd, wnd)
    requires Diff(m, snd.nxt, snd.una) < wnd && snd.queue != []
    ensures var o := Out(snd.nxt, snd.queue[0], ctl.current, ctl.rto, 0, 0);
            SndInv(m, snd.(queue := snd.queue[1..], nxt := Add(m, snd.nxt, 1), buf := snd.buf + [o]), wnd)
  {
    hide Diff;
    DiffAdd(m, snd.nxt, 1, snd.una);
    if snd.buf == [] {
      DiffZero(m, snd.nxt, snd.una);
    }
  }

  /** Numbering new segments: they leave the queue in order and take consecutive numbers. */
  lemma {:induction false} FillKeeps(m: Numbering, snd: Sender, wnd: nat, max: nat, ctl: Control) returns (k: nat)
    requires wnd <= max < TWO31 && SndInv(m, snd, max)
    ensures var t := FillWindow(m, snd, wnd, ctl);
            && SndInv(m, t, max) && t.una == snd.una
            && k <= |snd.queue| && t.queue == snd.queue[k..] && t.nxt == Add(m, snd.nxt, k)
            && |t.buf| == |snd.buf| + k && t.buf[..|snd.buf|] == snd.buf
            && forall j :: |snd.buf| <= j < |t.buf| ==>
                 t.buf[j].sn == Add(m, snd.nxt, j - |snd.buf|) && t.buf[j].frag == snd.queue[j - |snd.buf|]
    decreases |snd.queue|
  {
    hide Diff;
    hide Add;
    AddAdd(m, snd.nxt, 0, 0);
    DiffSubAdd(m, snd.nxt, snd.una, wnd);
    hide SndInv;
    if Diff(m, snd.nxt, Add(m, snd.una, wnd)) < 0 && snd.queue != [] {
      var o := Out(snd.nxt, snd.queue[0], ctl.current, ctl.rto, 0, 0);
      var s := snd.(queue := snd.queue[1..], nxt := Add(m, snd.nxt, 1), buf := snd.buf + [o]);
      FillOne(m, snd, max, ctl);
      assert s.una == snd.una;
      var k' := FillKeeps(m, s, wnd, max, ctl);
      k := k' + 1;
      AddAdd(m, snd.nxt, 1, k');
      var t := FillWindow(m, snd, wnd, ctl);
      assert t.buf[..|snd.buf|] == t.buf[..|s.buf|][..|snd.buf|];
      assert t.buf[|snd.buf|] == t.buf[..|s.buf|][|snd.buf|];
      forall j | |snd.buf| <= j < |t.buf|
        ensures t.buf[j].sn == Add(m, snd.nxt, j - |snd.buf|) && t.buf[j].frag == snd.queue[j - |snd.buf|]
      {
        if j > |snd.buf| {
          AddAdd(m, snd.nxt, 1, j - |s.buf|);
        }
      }
    } else {
      k := 0;
    }
  }

  // ----- the receiving half -----

  /** The buffer is strictly increasing within [nxt, nxt + wnd); the queue holds the numbers just before `nxt`. */
  ghost predicate RcvInv(m: Numbering, rcv: Receiver, wnd: nat) {
    && Word(m, rcv.nxt)
    && RcvOrdered(m, rcv.buf, rcv.nxt, wnd)
    && (forall i :: 0 <= i < |rcv.acks| ==> Word(m, rcv.acks[i].sn) && rcv.acks[i].ts < TWO32)
    && |rcv.queue| <= wnd
    && (forall i :: 0 <= i < |rcv.queue| ==>
          && Word(m, rcv.queue[i].sn) && rcv.queue[i].frag.frg < 256
          && Diff(m, rcv.nxt, rcv.queue[i].sn) == |rcv.queue| - i)
  }

  ghost predicate RcvOrdered(m: Numbering, buf: seq<In>, nxt: nat, wnd: nat) {
    && (forall i :: 0 <= i < |buf| ==>
          Word(m, buf[i].sn) && buf[i].frag.frg < 256 && 0 <= Diff(m, buf[i].sn, nxt) < wnd)
    && (forall i, j :: 0 <= i < j < |buf| ==> Diff(m, buf[i].sn, nxt) < Diff(m, buf[j].sn, nxt))
  }

  lemma InsertAtPlace(m: Numbering, buf: seq<In>, sn: nat)
    ensures var k := InsertAt(m, buf, sn);
            && (k > 0 ==> buf[k - 1].sn == sn || Diff(m, sn, buf[k - 1].sn) > 0)
            && forall i :: k <= i < |buf| ==> buf[i].sn != sn && Diff(m, sn, buf[i].sn) <= 0
  {
    hide Diff;
    if buf != [] {
      InsertAtPlace(m, buf[..|buf| - 1], sn);
    }
  }

  lemma InsertKeeps(m: Numbering, buf: seq<In>, nxt: nat, wnd: nat, seg: In)
    requires wnd < TWO31 && RcvOrdered(m, buf, nxt, wnd)
    requires Word(m, seg.sn) && 0 <= Diff(m, seg.sn, nxt) < wnd && seg.frag.frg < 256
    ensures RcvOrdered(m, Insert(m, buf, seg), nxt, wnd)
  {
    hide Diff;
    var k := InsertAt(m, buf, seg.sn);
    InsertAtPlace(m, buf, seg.sn);
    if !(k > 0 && buf[k - 1].sn == seg.sn) {
      forall i | 0 <= i < |buf|
        ensures Diff(m, seg.sn, buf[i].sn) == Diff(m, seg.sn, nxt) - Diff(m, buf[i].sn, nxt)
        ensures Diff(m, seg.sn, buf[i].sn) == 0 ==> seg.sn == buf[i].sn
      {
        DiffRebase(m, seg.sn, buf[i].sn, nxt);
        DiffZero(m, seg.sn, buf[i].sn);
      }
      forall i | k <= i < |buf| ensures Diff(m, seg.sn, nxt) < Diff(m, buf[i].sn, nxt) {
      }
      forall i | 0 <= i < k ensures Diff(m, buf[i].sn, nxt) < Diff(m, seg.sn, nxt) {
        assert Diff(m, buf[i].sn, nxt) <= Diff(m, buf[k - 1].sn, nxt);
      }
      PlaceOrdered(m, buf, k, seg, nxt, wnd);
    }
  }

  lemma PlaceOrdered(m: Numbering, buf: seq<In>, k: nat, seg: In, nxt: nat, wnd: nat)
    requires k <= |buf| && RcvOrdered(m, buf, nxt, wnd) && RcvOrdered(m, [seg], nxt, wnd)
    requires forall i :: 0 <= i < k ==> Diff(m, buf[i].sn, nxt) < Diff(m, seg.sn, nxt)
    requires forall i :: k <= i < |buf| ==> Diff(m, seg.sn, nxt) < Diff(m, buf[i].sn, nxt)
    ensures RcvOrdered(m, buf[..k] + [seg] + buf[k..], nxt, wnd)
  {
    hide Diff;
    var r := buf[..k] + [seg] + buf[k..];
    forall i | 0 <= i < |r| ensures r[i] == if i < k then buf[i] else if i == k then seg else buf[i - 1] {
    }
    assert [seg][0] == seg;
  }

  lemma MoveOneKeeps(m: Numbering, rcv: Receiver, wnd: nat)
    requires wnd < TWO31 && RcvInv(m, rcv, wnd)
    requires rcv.buf != [] && rcv.buf[0].sn == rcv.nxt && |rcv.queue| < wnd
    ensures RcvInv(m,
              rcv.(buf := rcv.buf[1..], queue := rcv.queue + [rcv.buf[0]], nxt := Add(m, rcv.nxt, 1)), wnd)
  {
    hide Diff;
    var n' := Add(m, rcv.nxt, 1);
    DiffZero(m, rcv.nxt, rcv.nxt);
    forall i | 0 <= i < |rcv.buf| - 1
      ensures Diff(m, rcv.buf[1..][i].sn, n') == Diff(m, rcv.buf[i + 1].sn, rcv.nxt) - 1
    {
      assert Diff(m, rcv.buf[0].sn, rcv.nxt) < Diff(m, rcv.buf[i + 1].sn, rcv.nxt);
      DiffSubAdd(m, rcv.buf[i + 1].sn, rcv.nxt, 1);
    }
    var q := rcv.queue + [rcv.buf[0]];
    forall i | 0 <= i < |q| ensures Diff(m, n', q[i].sn) == |q| - i {
      DiffAdd(m, rcv.nxt, 1, q[i].sn);
    }
  }

  /** Moving ready segments: the queue grows by exactly the segments the buffer loses, numbered on from `nxt`. */
  lemma MoveKeeps(m: Numbering, rcv: Receiver, wnd: nat) returns (k: nat)
    requires wnd < TWO31 && RcvInv(m, rcv, wnd)
    ensures var t := MoveReady(m, rcv, wnd);
            && RcvInv(m, t, wnd) && t.acks == rcv.acks
            && k <= |rcv.buf| && t.buf == rcv.buf[k..] && t.queue == rcv.queue + rcv.buf[..k]
            && t.nxt == Add(m, rcv.nxt, k)
            && forall i :: 0 <= i < k ==> rcv.buf[i].sn == Add(m, rcv.nxt, i)
    decreases |rcv.buf|
  {
    hide Diff;
    hide Add;
    assert Word(m, rcv.nxt);
    hide RcvInv;
    AddAdd(m, rcv.nxt, 0, 0);
    if rcv.buf != [] && rcv.buf[0].sn == rcv.nxt && |rcv.queue| < wnd {
      var s := rcv.(buf := rcv.buf[1..], queue := rcv.queue + [rcv.buf[0]], nxt := Add(m, rcv.nxt, 1));
      MoveOneKeeps(m, rcv, wnd);
      var k' := MoveKeeps(m, s, wnd);
      k := k' + 1;
      AddAdd(m, rcv.nxt, 1, k');
      MoveOnce(m, rcv, wnd);
      hide MoveReady;
      TakeFront(rcv.queue, rcv.buf, k');
      forall i | 0 <= i < k ensures rcv.buf[i].sn == Add(m, rcv.nxt, i) {
        if i > 0 {
          assert rcv.buf[i] == s.buf[i - 1];
          AddAdd(m, rcv.nxt, 1, i - 1);
        }
      }
    } else {
      k := 0;
    }
  }

  lemma MoveOnce(m: Numbering, rcv: Receiver, wnd: nat)
    requires rcv.buf != [] && rcv.buf[0].sn == rcv.nxt && |rcv.queue| < wnd
    ensures MoveReady(m, rcv, wnd) == MoveReady(m,
              rcv.(buf := rcv.buf[1..], queue := rcv.queue + [rcv.buf[0]], nxt := Add(m, rcv.nxt, 1)), wnd)
  {
  }

  lemma TakeFront(queue: seq<In>, buf: seq<In>, k: nat)
    requires k + 1 <= |buf|
    ensures (queue + [buf[0]]) + buf[1..][..k] == queue + buf[..k + 1]
    ensures buf[1..][k..] == buf[k + 1..]
  {
  }

  lemma ParseDataKeeps(m: Numbering, rcv: Receiver, wnd: nat, seg: In)
    requires wnd < TWO31 && RcvInv(m, rcv, wnd) && Word(m, seg.sn) && seg.frag.frg < 256
    ensures RcvInv(m, ParseData(m, rcv, wnd, seg), wnd)
  {
    if !(Diff(m, seg.sn, Add(m, rcv.nxt, wnd)) >= 0 || Diff(m, seg.sn, rcv.nxt) < 0) {
      DiffSubAdd(m, seg.sn, rcv.nxt, wnd);
      InsertKeeps(m, rcv.buf, rcv.nxt, wnd, seg);
      var k := MoveKeeps(m, rcv.(buf := Insert(m, rcv.buf, seg)), wnd);
    }
  }

  lemma ParsePushKeeps(m: Numbering, rcv: Receiver, wnd: nat, p: Packet)
    requires wnd < TWO31 && RcvInv(m, rcv, wnd) && Encodable(p) && Word(m, p.sn)
    ensures RcvInv(m, ParsePush(m, rcv, wnd, p), wnd)
  {
    ParseDataKeeps(m, rcv.(acks := rcv.acks + [Ack(p.sn, p.ts)]), wnd, In(p.sn, Frag(p.frg, p.data)));
  }

  // ----- a whole endpoint -----

  /** Every piece fits one datagram, and its index fits one byte. */
  predicate Fits(cfg: Config, f: Frag) {
    |f.data| <= cfg.Mss() && f.frg < MAX_FRAGMENTS - 1
  }

  ghost predicate AllFit(cfg: Config, snd: Sender) {
    && (forall i :: 0 <= i < |snd.queue| ==> Fits(cfg, snd.queue[i]))
    && (forall i :: 0 <= i < |snd.buf| ==> Fits(cfg, snd.buf[i].frag))
  }

  ghost predicate EndpointInv(m: Numbering, cb: Cb) {
    && cb.cfg.Good()
    && cb.ctl.current < TWO32
    && AllFit(cb.cfg, cb.snd)
    && SndInv(m, cb.snd, cb.cfg.sndWnd)
    && RcvInv(m, cb.rcv, cb.cfg.rcvWnd)
  }

  lemma ParseUnaFits(m: Numbering, cfg: Config, snd: Sender, una: nat)
    requires AllFit(cfg, snd)
    ensures AllFit(cfg, ParseUna(m, snd, una))
  {
    var k := DropUnaSuffix(m, snd.buf, una);
  }

  lemma ParseAckFits(m: Numbering, cfg: Config, snd: Sender, sn: nat)
    requires AllFit(cfg, snd)
    ensures AllFit(cfg, ParseAck(m, snd, sn))
  {
    var k := RemoveSnOne(m, snd.buf, sn);
  }

  lemma FragmentsFit(cfg: Config, data: seq<Byte>, count: nat)
    requires count < MAX_FRAGMENTS
    ensures forall i :: 0 <= i < count ==> Fits(cfg, Fragments(cfg.Mss(), data, count)[i])
    decreases count
  {
    if count > 0 {
      var size := if |data| > cfg.Mss() then cfg.Mss() else |data|;
      FragmentsFit(cfg, data[size..], count - 1);
    }
  }

  lemma OnPacketKeeps(m: Numbering, cb: Cb, p: Packet)
    requires EndpointInv(m, cb) && Encodable(p) && Word(m, p.sn)
    ensures EndpointInv(m, OnPacket(m, cb, p)) && Advanced(m, cb.snd, OnPacket(m, cb, p).snd)
  {
    hide Diff;
    var wnd := cb.cfg.sndWnd;
    ParseUnaKeeps(m, cb.snd, p.una, wnd);
    ParseUnaFits(m, cb.cfg, cb.snd, p.una);
    ParseAckFits(m, cb.cfg, ParseUna(m, cb.snd, p.una), p.sn);
    var s := ParseUna(m, cb.snd, p.una);
    ParseAckKeeps(m, s, p.sn, wnd);
    AdvancedTwice(m, cb.snd, s, ParseAck(m, s, p.sn), wnd);
    ParsePushKeeps(m, cb.rcv, cb.cfg.rcvWnd, p);
  }

  lemma {:induction false} OnPacketsKeep(m: Numbering, cb: Cb, ps: seq<Packet>)
    requires EndpointInv(m, cb) && forall p :: p in ps ==> Encodable(p) && Word(m, p.sn)
    ensures EndpointInv(m, OnPackets(m, cb, ps)) && Advanced(m, cb.snd, OnPackets(m, cb, ps).snd)
    decreases |ps|
  {
    if ps == [] {
      DiffZero(m, cb.snd.una, cb.snd.una);
    } else {
      var next := OnPacket(m, cb, ps[0]);
      OnPacketKeeps(m, cb, ps[0]);
      OnPacketsKeep(m, next, ps[1..]);
      AdvancedTwice(m, cb.snd, next.snd, OnPackets(m, next, ps[1..]).snd, cb.cfg.sndWnd);
    }
  }

  lemma FinishKeeps(m: Numbering, cb: Cb, prevUna: nat, x: MaxAck)
    requires EndpointInv(m, cb)
    ensures var r := Finish(m, cb, prevUna, x);
            EndpointInv(m, r) && r.rcv == cb.rcv && r.cfg == cb.cfg
            && r.snd == cb.snd.(buf := r.snd.buf) && SameSegments(cb.snd.buf, r.snd.buf)
  {
    if x.MaxAck? {
      BumpSame(m, cb.snd.buf, x.sn);
    }
  }

  lemma {:induction false} ParsedWords(conv: nat, token: nat, data: seq<Byte>)
    ensures forall p :: p in Parse(conv, token, data).segments ==> Encodable(p) && p.sn < TWO32 && p.una < TWO32
    decreases |data|
  {
    var f := ReadFront(conv, token, data);
    if f.Segment? {
      ParsedWords(conv, token, f.rest);
    }
  }

  /** Any bytes whatsoever: the invariants survive, and `una` does not move back. */
  lemma InputKeeps(cb: Cb, data: seq<Byte>)
    requires EndpointInv(Wrap32, cb)
    ensures EndpointInv(Wrap32, Input(cb, data).cb) && Diff(Wrap32, Input(cb, data).cb.snd.una, cb.snd.una) >= 0
  {
    if |data| >= OVERHEAD {
      var ps := Parse(cb.cfg.conv, cb.cfg.token, data).segments;
      ParsedWords(cb.cfg.conv, cb.cfg.token, data);
      OnPacketsKeep(Wrap32, cb, ps);
      FinishKeeps(Wrap32, OnPackets(Wrap32, cb, ps), cb.snd.una, NoteAcks(Wrap32, NoAck, ps));
    }
  }

  /** A datagram of another conversation or of another token is refused with its own code, and nothing is changed. */
  lemma ForeignRefused(cb: Cb, conv: nat, token: nat, ps: seq<Packet>)
    requires conv < TWO32 && token < TWO32 && ps != [] && Encodable(ps[0])
    requires conv != cb.cfg.conv || token != cb.cfg.token
    ensures Input(cb, EncodeAll(conv, token, ps)) == InputResult(if conv != cb.cfg.conv then -1 else -4, cb)
  {
    var p, rest := ps[0], EncodeAll(conv, token, ps[1..]);
    EncodeIsHeader(conv, token, p, rest);
    ReadFrontExactly(cb.cfg.conv, cb.cfg.token, conv, token, p, |p.data|, p.data + rest);
    hide Encode;
    hide Header;
    hide ReadFront;
    assert OnPackets(Wrap32, cb, []) == cb;
  }

  /** A header of this conversation whose length is past the end, or whose command is unknown, is refused with its own
      code; what came before it in the datagram has taken effect, without the closing step. */
  lemma BadHeaderRefused(cb: Cb, ps: seq<Packet>, p: Packet, len: nat, tail: seq<Byte>)
    requires cb.cfg.conv < TWO32 && cb.cfg.token < TWO32 && forall i :: 0 <= i < |ps| ==> Encodable(ps[i])
    requires p.cmd < 256 && p.frg < 256 && p.wnd < 65536 && p.ts < TWO32 && len < TWO32
    requires len > |tail| || len >= TWO31 || !KnownCmd(p.cmd)
    ensures var data := EncodeAll(cb.cfg.conv, cb.cfg.token, ps) + Header(cb.cfg.conv, cb.cfg.token, p, len, tail);
            Input(cb, data) ==
              InputResult(if len > |tail| || len >= TWO31 then -2 else -3, OnPackets(Wrap32, cb, OnWireAll(ps)))
  {
    var conv, token := cb.cfg.conv, cb.cfg.token;
    ReadFrontExactly(conv, token, conv, token, p, len, tail);
    ParseUpTo(conv, token, ps, Header(conv, token, p, len, tail));
    hide Header;
    hide ReadFront;
    hide Parse;
    hide EncodeAll;
    hide OnPackets;
    hide KnownCmd;
  }

  /** Fewer bytes than a header: refused when that is all, ignored behind whole segments. */
  lemma ShortTail(cb: Cb, ps: seq<Packet>, tail: seq<Byte>)
    requires cb.cfg.conv < TWO32 && cb.cfg.token < TWO32 && forall i :: 0 <= i < |ps| ==> Encodable(ps[i])
    requires |tail| < OVERHEAD
    ensures Input(cb, EncodeAll(cb.cfg.conv, cb.cfg.token, ps) + tail) ==
              if ps == [] then InputResult(-1, cb) else InputResult(0, InputPackets(Wrap32, cb, OnWireAll(ps)))
  {
    ParseUpTo(cb.cfg.conv, cb.cfg.token, ps, tail);
    hide Parse;
    hide InputPackets;
    hide OnPackets;
  }

  lemma SendKeeps(m: Numbering, cb: Cb, buffer: seq<Byte>, len: int)
    requires EndpointInv(m, cb) && len <= |buffer|
    ensures EndpointInv(m, Send(cb, buffer, len).cb)
  {
    if len >= 0 && Acceptable(cb.cfg, len) {
      FragmentsFit(cb.cfg, buffer[..len], FragCount(cb.cfg.Mss(), len));
    }
  }

  /** Adding up lengths and joining the data stop at the same segment. */
  lemma {:induction false} SumIsMerged(q: seq<In>)
    ensures SumLengths(q) == |MergeData(q)|
  {
    if q != [] && q[0].frag.frg != 0 {
      SumIsMerged(q[1..]);
    }
  }

  /** A size is announced exactly when the first fragment's companions are queued, and it is then the length of
      what recv puts together, whatever is queued. */
  lemma PeekIsMerged(q: seq<In>)
    ensures PeekSize(q) >= 0 <==> q != [] && q[0].frag.frg < |q|
    ensures PeekSize(q) >= 0 ==> PeekSize(q) == |MergeData(q)|
  {
    SumIsMerged(q);
  }

  /** What recv returns is the length of the data it hands over, never more than the room offered. */
  lemma RecvLength(m: Numbering, cb: Cb, len: int)
    ensures var r := Recv(m, cb, len);
            r.code >= 0 ==> r.code == |r.data| <= (if len < 0 then -len else len) && r.data == MergeData(cb.rcv.queue)
  {
    PeekIsMerged(cb.rcv.queue);
  }

  lemma RecvKeeps(m: Numbering, cb: Cb, len: int)
    requires EndpointInv(m, cb)
    ensures EndpointInv(m, Recv(m, cb, len).cb)
  {
    var q := cb.rcv.queue;
    var left := if len < 0 then q else q[MergeCount(q)..];
    var k := MoveKeeps(m, cb.rcv.(queue := left), cb.cfg.rcvWnd);
  }

  lemma SameKeeps(m: Numbering, cfg: Config, snd: Sender, buf: seq<Out>, wnd: nat)
    requires SndInv(m, snd, wnd) && AllFit(cfg, snd) && SameSegments(snd.buf, buf)
    ensures SndInv(m, snd.(buf := buf), wnd) && AllFit(cfg, snd.(buf := buf))
  {
    hide Diff;
  }

  lemma FlushControl(cfg: Config, ctl: Control, t: Transmission, inflight: nat, wnd: nat)
    ensures ProbeTimer(ctl).current == ctl.current
    ensures AfterFlush(cfg, ctl, t, inflight, wnd).current == ctl.current
  {
  }

  lemma AfterFlushSame(cfg: Config, ctl: Control, t: Transmission, u: Transmission, inflight: nat, wnd: nat)
    requires t.change == u.change && t.lost == u.lost && t.dead == u.dead
    ensures AfterFlush(cfg, ctl, t, inflight, wnd) == AfterFlush(cfg, ctl, u, inflight, wnd)
  {
  }

  /** The send buffer a flush transmits from. */
  function Filled(m: Numbering, cb: Cb): Sender {
    FillWindow(m, cb.snd, EffectiveWindow(cb.cfg, ProbeTimer(cb.ctl)), ProbeTimer(cb.ctl))
  }

  lemma FilledKeeps(m: Numbering, cb: Cb)
    requires EndpointInv(m, cb)
    ensures SndInv(m, Filled(m, cb), cb.cfg.sndWnd) && AllFit(cb.cfg, Filled(m, cb))
    ensures Filled(m, cb).una == cb.snd.una
  {
    hide Diff;
    hide Add;
    hide FillWindow;
    hide ProbeTimer;
    var ctl := ProbeTimer(cb.ctl);
    var k := FillKeeps(m, cb.snd, EffectiveWindow(cb.cfg, ctl), cb.cfg.sndWnd, ctl);
    var t := Filled(m, cb);
    forall i | 0 <= i < |t.buf| ensures Fits(cb.cfg, t.buf[i].frag) {
      if i < |cb.snd.buf| {
        assert t.buf[i] == t.buf[..|cb.snd.buf|][i];
      }
    }
  }

  lemma FlushKeeps(m: Numbering, cb: Cb)
    requires EndpointInv(m, cb)
    ensures EndpointInv(m, Flush(m, cb).cb) && Flush(m, cb).cb.snd.una == cb.snd.una
  {
    if cb.ctl.updated {
      hide Diff;
      hide FillWindow;
      hide ProbeTimer;
      hide Transmit;
      hide AfterFlush;
      FilledKeeps(m, cb);
      var ctl := ProbeTimer(cb.ctl);
      var snd := Filled(m, cb);
      var t := Transmit(cb.cfg, ctl, WndUnused(cb) % 65536, cb.rcv.nxt, snd.buf);
      TransmitSame(cb.cfg, ctl, WndUnused(cb) % 65536, cb.rcv.nxt, snd.buf);
      SameKeeps(m, cb.cfg, snd, t.buf, cb.cfg.sndWnd);
      var inflight := Max(0, Diff(m, snd.nxt, snd.una));
      FlushControl(cb.cfg, ctl.(askSend := false, askTell := false), t, inflight, EffectiveWindow(cb.cfg, ctl));
      FlushControl(cb.cfg, cb.ctl, t, 0, 0);
    }
  }

  lemma DataPacketGood(m: Numbering, cb: Cb, snd: Sender, i: nat, wnd: nat)
    requires EndpointInv(m, cb) && SndInv(m, snd, cb.cfg.sndWnd) && AllFit(cb.cfg, snd)
    requires i < |snd.buf| && wnd < 65536
    ensures GoodPacket(m, cb, DataPacket(snd.buf[i], ProbeTimer(cb.ctl), wnd, cb.rcv.nxt))
  {
    FlushControl(cb.cfg, cb.ctl, Transmission([], [], false, false, false), 0, 0);
  }

  /** Can be encoded, fits one datagram, and tells the peer what is next here. */
  predicate GoodPacket(m: Numbering, cb: Cb, p: Packet) {
    Encodable(p) && OVERHEAD + |p.data| <= cb.cfg.mtu && Word(m, p.sn) && p.una == cb.rcv.nxt
  }

  /** Every segment a flush emits can be encoded and fits one datagram. */
  lemma FlushedPackets(m: Numbering, cb: Cb)
    requires EndpointInv(m, cb)
    ensures forall p :: p in Flush(m, cb).packets ==> GoodPacket(m, cb, p)
  {
    if cb.ctl.updated {
      hide Diff;
      hide FillWindow;
      hide ProbeTimer;
      hide Transmit;
      hide AfterFlush;
      hide AllFit;
      FilledKeeps(m, cb);
      var ctl := ProbeTimer(cb.ctl);
      var wnd := WndUnused(cb) % 65536;
      var snd := Filled(m, cb);
      var t := Transmit(cb.cfg, ctl, wnd, cb.rcv.nxt, snd.buf);
      TransmitSame(cb.cfg, ctl, wnd, cb.rcv.nxt, snd.buf);
      forall p | p in t.packets ensures GoodPacket(m, cb, p) {
        var i :| 0 <= i < |snd.buf| && p == DataPacket(snd.buf[i], ctl, wnd, cb.rcv.nxt);
        DataPacketGood(m, cb, snd, i, wnd);
      }
      forall p | p in AckPackets(cb.rcv, wnd) ensures GoodPacket(m, cb, p) {
      }
      forall p | p in ProbePackets(ctl, cb.rcv, wnd) ensures GoodPacket(m, cb, p) {
      }
      assert Flush(m, cb).packets == AckPackets(cb.rcv, wnd) + ProbePackets(ctl, cb.rcv, wnd) + t.packets;
    }
  }

  lemma GroupRoundTrip(conv: nat, token: nat, g: seq<Packet>)
    requires conv < TWO32 && token < TWO32
    requires forall p :: p in g ==> Encodable(p) && p.sn < TWO32 && p.una < TWO32
    ensures Parse(conv, token, EncodeAll(conv, token, g)) == Parsed(g, 0)
  {
    hide Parse;
    hide EncodeAll;
    forall i | 0 <= i < |g| ensures Encodable(g[i]) && OnWire(g[i]) == g[i] {
      assert g[i] in g;
    }
    ParseEncodeAll(conv, token, g);
    assert OnWireAll(g) == g;
  }

  /** The datagrams a flush puts out: within the mtu, and read back by the peer's parse loop as exactly
      the segments written, in order, with nothing left over. */
  lemma FlushRoundTrip(cb: Cb)
    requires EndpointInv(Wrap32, cb)
    ensures var ps := Flush(Wrap32, cb).packets;
            var groups := Pack(cb.cfg.mtu, ps);
            && Concat(groups) == ps
            && forall g :: g in groups ==>
                 && |EncodeAll(cb.cfg.conv, cb.cfg.token, g)| <= cb.cfg.mtu
                 && Parse(cb.cfg.conv, cb.cfg.token, EncodeAll(cb.cfg.conv, cb.cfg.token, g)) == Parsed(g, 0)
  {
    hide Flush;
    hide Parse;
    hide Pack;
    hide Concat;
    hide Encodable;
    var ps := Flush(Wrap32, cb).packets;
    FlushedPackets(Wrap32, cb);
    PackExact(cb.cfg.mtu, ps);
    forall g | g in Pack(cb.cfg.mtu, ps)
      ensures Parse(cb.cfg.conv, cb.cfg.token, EncodeAll(cb.cfg.conv, cb.cfg.token, g)) == Parsed(g, 0)
    {
      GroupRoundTrip(cb.cfg.conv, cb.cfg.token, g);
    }
  }

  // ----- every run of one endpoint -----

  datatype Call =
    | CallSend(buffer: seq<Byte>, len: int)
    | CallRecv(len: int)
    | CallInput(data: seq<Byte>)
    | CallFlush
    | CallUpdate(now: nat)

  /** Timestamps passed in are 32-bit numbers. */
  predicate LegalCall(c: Call) {
    c.CallUpdate? ==> c.now < TWO32
  }

  function Apply(cb: Cb, c: Call): Cb {
    match c
    case CallSend(buffer, len) => if len <= |buffer| && cb.cfg.Mss() > 0 then Send(cb, buffer, len).cb else cb
    case CallRecv(len) => Recv(Wrap32, cb, len).cb
    case CallInput(data) => Input(cb, data).cb
    case CallFlush => Flush(Wrap32, cb).cb
    case CallUpdate(now) => Update(Wrap32, cb, now).cb
  }

  function Run(cb: Cb, calls: seq<Call>): Cb {
    if calls == [] then cb else Apply(Run(cb, calls[..|calls| - 1]), calls[|calls| - 1])
  }

  lemma ApplyKeeps(cb: Cb, c: Call)
    requires EndpointInv(Wrap32, cb) && LegalCall(c)
    ensures EndpointInv(Wrap32, Apply(cb, c)) && Diff(Wrap32, Apply(cb, c).snd.una, cb.snd.una) >= 0
  {
    match c
    case CallSend(buffer, len) =>
      if len <= |buffer| {
        SendKeeps(Wrap32, cb, buffer, len);
      }
    case CallRecv(len) => RecvKeeps(Wrap32, cb, len);
    case CallInput(data) => InputKeeps(cb, data);
    case CallFlush => FlushKeeps(Wrap32, cb);
    case CallUpdate(now) => FlushKeeps(Wrap32, cb.(ctl := Tick(cb.cfg, cb.ctl, now).0));
  }

  /** In every run of calls, with arbitrary datagrams, the 32-bit invariants hold after every call. */
  lemma {:induction false} RunKeeps(cfg: Config, calls: seq<Call>)
    requires cfg.Good() && forall i :: 0 <= i < |calls| ==> LegalCall(calls[i])
    ensures EndpointInv(Wrap32, Run(Create(cfg), calls))
    ensures calls != [] ==>
              Diff(Wrap32, Run(Create(cfg), calls).snd.una, Run(Create(cfg), calls[..|calls| - 1]).snd.una) >= 0
    decreases |calls|
  {
    if calls != [] {
      RunKeeps(cfg, calls[..|calls| - 1]);
      ApplyKeeps(Run(Create(cfg), calls[..|calls| - 1]), calls[|calls| - 1]);
    }
  }

  /** A full receive queue always holds a whole message: 256 segments outnumber every fragment index. */
  lemma FullQueueDelivers(m: Numbering, cb: Cb)
    requires EndpointInv(m, cb) && |cb.rcv.queue| >= cb.cfg.rcvWnd
    ensures PeekSize(cb.rcv.queue) >= 0
  {
    assert cb.rcv.queue[0].frag.frg < 256;
  }
}
