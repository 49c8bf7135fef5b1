/** The control block of one transport endpoint as a value, and each of its operations as a function.

    The class in KcpEndpoint.dfy updates the control block in place and is proved equal to these functions.
 */
module KcpCore {
  import opened Words
  import opened KcpWire

  const MAX_FRAGMENTS: nat := 256
  const RTO_MAX: nat := 60000
  const PROBE_INIT: nat := 7000
  const PROBE_LIMIT: nat := 120000
  const THRESH_MIN: nat := 2
  const MTU_MIN: nat := 50

  datatype Config = Config(
    conv: nat, token: nat, mtu: nat, sndWnd: nat, rcvWnd: nat, interval: nat,
    nodelay: nat, fastresend: int, fastlimit: int, nocwnd: bool, deadLink: nat, minRto: nat)
  {
    function Mss(): nat {
      if mtu < OVERHEAD then 0 else mtu - OVERHEAD
    }

    /** What ikcp_setmtu and ikcp_wndsize enforce, and windows small enough for the wrapped comparison. */
    predicate Good() {
      && conv < TWO32 && token < TWO32
      && MTU_MIN <= mtu < TWO31
      && sndWnd < TWO31
      && MAX_FRAGMENTS <= rcvWnd < TWO31
    }
  }

  /** A piece of a message: `frg` pieces of the same message follow it. */
  datatype Frag = Frag(frg: nat, data: seq<Byte>)

  /** A numbered segment waiting for its acknowledgement. */
  datatype Out = Out(sn: nat, frag: Frag, resendts: nat, rto: nat, fastack: nat, xmit: nat)

  /** A segment received. */
  datatype In = In(sn: nat, frag: Frag)

  datatype Ack = Ack(sn: nat, ts: nat)

  datatype Sender = Sender(una: nat, nxt: nat, queue: seq<Frag>, buf: seq<Out>)

  datatype Receiver = Receiver(nxt: nat, buf: seq<In>, queue: seq<In>, acks: seq<Ack>)

  /** Clock, round-trip, window and probe state. It steers when segments are sent, never what they hold. */
  datatype Control = Control(
    current: nat, updated: bool, tsFlush: nat, tsProbe: nat, probeWait: nat,
    askSend: bool, askTell: bool, rmtWnd: nat, cwnd: nat, incr: nat, ssthresh: nat,
    srtt: nat, rttval: nat, rto: nat, dead: bool)

  datatype Cb = Cb(cfg: Config, snd: Sender, rcv: Receiver, ctl: Control)

  const NEW_CONTROL: Control :=
    Control(0, false, 100, 0, 0, false, false, MAX_FRAGMENTS, 0, 0, THRESH_MIN, 0, 0, 200, false)

  function Create(cfg: Config): Cb {
    Cb(cfg, Sender(0, 0, [], []), Receiver(0, [], [], []), NEW_CONTROL)
  }

  function TimeDiff(later: nat, earlier: nat): int {
    Diff(Wrap32, later, earlier)
  }

  function Min(a: int, b: int): int {
    if a <= b then a else b
  }

  function Max(a: int, b: int): int {
    if a >= b then a else b
  }

  /** The product in 32 bits. */
  function Times(x: nat, y: nat): (r: nat)
    ensures r < TWO32
  {
    x * y % TWO32
  }

  /** The quotient, or 0 where there is none. */
  function Over(x: nat, y: nat): nat {
    if y == 0 then 0 else x / y
  }

  // ----- sending a message -----

  function FragCount(mss: nat, len: nat): (n: nat)
    requires mss > 0
    ensures n > 0
    ensures (n - 1) * mss < len <= n * mss || (len == 0 && n == 1)
  {
    if len <= mss then 1 else (len + mss - 1) / mss
  }

  /** Cuts `data` into `count` pieces of at most `mss` bytes, counting down. */
  function Fragments(mss: nat, data: seq<Byte>, count: nat): (r: seq<Frag>)
    ensures |r| == count
    decreases count
  {
    if count == 0 then []
    else
      var size := if |data| > mss then mss else |data|;
      [Frag(count - 1, data[..size])] + Fragments(mss, data[size..], count - 1)
  }

  predicate Acceptable(cfg: Config, len: nat) {
    cfg.Mss() > 0 && FragCount(cfg.Mss(), len) < MAX_FRAGMENTS
  }

  datatype SendResult = SendResult(code: int, cb: Cb)

  function Send(cb: Cb, buffer: seq<Byte>, len: int): SendResult
    requires len <= |buffer| && cb.cfg.Mss() > 0
  {
    if len < 0 then SendResult(-1, cb)
    else if !Acceptable(cb.cfg, len) then SendResult(-2, cb)
    else
      var mss := cb.cfg.Mss();
      var frags := Fragments(mss, buffer[..len], FragCount(mss, len));
      SendResult(0, cb.(snd := cb.snd.(queue := cb.snd.queue + frags)))
  }

  // ----- receiving a message -----

  /** How many segments at the front of `q` one call takes: up to the first with index 0. */
  function MergeCount(q: seq<In>): (n: nat)
    ensures n <= |q|
  {
    if q == [] then 0 else if q[0].frag.frg == 0 then 1 else 1 + MergeCount(q[1..])
  }

  function MergeData(q: seq<In>): seq<Byte> {
    if q == [] then []
    else if q[0].frag.frg == 0 then q[0].frag.data
    else q[0].frag.data + MergeData(q[1..])
  }

  /** Lengths added up to and including the first segment with index 0. */
  function SumLengths(q: seq<In>): nat {
    if q == [] then 0 else |q[0].frag.data| + (if q[0].frag.frg == 0 then 0 else SumLengths(q[1..]))
  }

  function PeekSize(q: seq<In>): int {
    if q == [] then -1
    else if q[0].frag.frg == 0 then |q[0].frag.data|
    else if |q| < q[0].frag.frg + 1 then -1
    else SumLengths(q)
  }

  /** Moves segments that are next in order from the buffer to the queue while the queue has room. */
  function MoveReady(m: Numbering, rcv: Receiver, wnd: nat): Receiver
    decreases |rcv.buf|
  {
    if rcv.buf != [] && rcv.buf[0].sn == rcv.nxt && |rcv.queue| < wnd then
      MoveReady(m,
        rcv.(buf := rcv.buf[1..], queue := rcv.queue + [rcv.buf[0]], nxt := Add(m, rcv.nxt, 1)), wnd)
    else rcv
  }

  datatype RecvResult = RecvResult(code: int, data: seq<Byte>, cb: Cb)

  /** A negative `len` peeks: the message stays in the queue. */
  function Recv(m: Numbering, cb: Cb, len: int): RecvResult {
    var q := cb.rcv.queue;
    var size := PeekSize(q);
    if q == [] then RecvResult(-1, [], cb)
    else if size < 0 then RecvResult(-2, [], cb)
    else if size > (if len < 0 then -len else len) then RecvResult(-3, [], cb)
    else
      var left := if len < 0 then q else q[MergeCount(q)..];
      var rcv := MoveReady(m, cb.rcv.(queue := left), cb.cfg.rcvWnd);
      var recover := |q| >= cb.cfg.rcvWnd && |rcv.queue| < cb.cfg.rcvWnd;
      var ctl := if recover then cb.ctl.(askTell := true) else cb.ctl;
      RecvResult(size, MergeData(q), cb.(rcv := rcv, ctl := ctl))
  }

  // ----- acknowledgements -----

  /** Drops the segments before `una` from the front. */
  function DropUna(m: Numbering, buf: seq<Out>, una: nat): seq<Out> {
    if buf != [] && Diff(m, una, buf[0].sn) > 0 then DropUna(m, buf[1..], una) else buf
  }

  function Shrink(snd: Sender): Sender {
    snd.(una := if snd.buf == [] then snd.nxt else snd.buf[0].sn)
  }

  function RemoveSn(m: Numbering, buf: seq<Out>, sn: nat): seq<Out> {
    if buf == [] then []
    else if sn == buf[0].sn then buf[1..]
    else if Diff(m, sn, buf[0].sn) < 0 then buf
    else [buf[0]] + RemoveSn(m, buf[1..], sn)
  }

  predicate InFlight(m: Numbering, snd: Sender, sn: nat) {
    Diff(m, sn, snd.una) >= 0 && Diff(m, sn, snd.nxt) < 0
  }

  function ParseUna(m: Numbering, snd: Sender, una: nat): Sender {
    Shrink(snd.(buf := DropUna(m, snd.buf, una)))
  }

  function ParseAck(m: Numbering, snd: Sender, sn: nat): Sender {
    Shrink(if InFlight(m, snd, sn) then snd.(buf := RemoveSn(m, snd.buf, sn)) else snd)
  }

  /** Counts one more later acknowledgement for every segment before `sn`. */
  function BumpFastack(m: Numbering, buf: seq<Out>, sn: nat): (r: seq<Out>)
    ensures |r| == |buf|
  {
    if buf == [] || Diff(m, sn, buf[0].sn) < 0 then buf
    else
      var o := if sn == buf[0].sn then buf[0] else buf[0].(fastack := buf[0].fastack + 1);
      [o] + BumpFastack(m, buf[1..], sn)
  }

  function ParseFastack(m: Numbering, snd: Sender, sn: nat): Sender {
    if InFlight(m, snd, sn) then snd.(buf := BumpFastack(m, snd.buf, sn)) else snd
  }

  /** Smoothed round-trip time and the retransmission timeout derived from it. */
  function UpdateRtt(cfg: Config, ctl: Control, rtt: nat): Control {
    var delta := if rtt >= ctl.srtt then rtt - ctl.srtt else ctl.srtt - rtt;
    var rttval := if ctl.srtt == 0 then rtt / 2 else (3 * ctl.rttval + delta) / 4;
    var srtt := if ctl.srtt == 0 then rtt else Max(1, (7 * ctl.srtt + rtt) / 8);
    var rto := srtt + Max(cfg.interval, 4 * rttval);
    ctl.(srtt := srtt, rttval := rttval, rto := Min(Max(cfg.minRto, rto), RTO_MAX))
  }

  // ----- data -----

  /** Scans back from the end: the place just after the last segment numbered `sn` or before. */
  function InsertAt(m: Numbering, buf: seq<In>, sn: nat): (k: nat)
    ensures k <= |buf|
  {
    if buf == [] then 0
    else
      var last := buf[|buf| - 1];
      if last.sn == sn || Diff(m, sn, last.sn) > 0 then |buf| else InsertAt(m, buf[..|buf| - 1], sn)
  }

  /** Puts `seg` at its place in the ordered buffer; a repeated number is dropped. */
  function Insert(m: Numbering, buf: seq<In>, seg: In): seq<In> {
    var k := InsertAt(m, buf, seg.sn);
    if k > 0 && buf[k - 1].sn == seg.sn then buf else buf[..k] + [seg] + buf[k..]
  }

  function ParseData(m: Numbering, rcv: Receiver, wnd: nat, seg: In): Receiver {
    if Diff(m, seg.sn, Add(m, rcv.nxt, wnd)) >= 0 || Diff(m, seg.sn, rcv.nxt) < 0 then rcv
    else MoveReady(m, rcv.(buf := Insert(m, rcv.buf, seg)), wnd)
  }

  /** A data segment below the window's end is acknowledged, and kept if it is not old. */
  function ParsePush(m: Numbering, rcv: Receiver, wnd: nat, p: Packet): Receiver {
    if Diff(m, p.sn, Add(m, rcv.nxt, wnd)) >= 0 then rcv
    else
      var acked := rcv.(acks := rcv.acks + [Ack(p.sn, p.ts)]);
      if Diff(m, p.sn, rcv.nxt) >= 0 then ParseData(m, acked, wnd, In(p.sn, Frag(p.frg, p.data))) else acked
  }

  // ----- a datagram -----

  /** The largest sequence number acknowledged by the datagram so far. */
  datatype MaxAck = NoAck | MaxAck(sn: nat)

  function NoteAck(m: Numbering, x: MaxAck, sn: nat): MaxAck {
    if x.MaxAck? && Diff(m, sn, x.sn) <= 0 then x else MaxAck(sn)
  }

  function OnPacket(m: Numbering, cb: Cb, p: Packet): Cb {
    var snd := ParseUna(m, cb.snd, p.una);
    var ctl := cb.ctl.(rmtWnd := p.wnd);
    if p.cmd == CMD_ACK then
      var rtt := TimeDiff(ctl.current, p.ts);
      cb.(snd := ParseAck(m, snd, p.sn), ctl := if rtt >= 0 then UpdateRtt(cb.cfg, ctl, rtt) else ctl)
    else if p.cmd == CMD_PUSH then
      cb.(snd := snd, rcv := ParsePush(m, cb.rcv, cb.cfg.rcvWnd, p), ctl := ctl)
    else
      cb.(snd := snd, ctl := if p.cmd == CMD_WASK then ctl.(askTell := true) else ctl)
  }

  function OnPackets(m: Numbering, cb: Cb, ps: seq<Packet>): Cb
    decreases |ps|
  {
    if ps == [] then cb else OnPackets(m, OnPacket(m, cb, ps[0]), ps[1..])
  }

  function NoteAcks(m: Numbering, x: MaxAck, ps: seq<Packet>): MaxAck
    decreases |ps|
  {
    if ps == [] then x
    else NoteAcks(m, if ps[0].cmd == CMD_ACK then NoteAck(m, x, ps[0].sn) else x, ps[1..])
  }

  /** Congestion window growth after new data was acknowledged. */
  function Grow(ctl: Control, mss: nat): Control {
    if ctl.cwnd >= ctl.rmtWnd then ctl
    else
      var grown :=
        if ctl.cwnd < ctl.ssthresh then ctl.(cwnd := (ctl.cwnd + 1) % TWO32, incr := (ctl.incr + mss) % TWO32)
        else
          var incr0 := Max(ctl.incr, mss);
          var incr := (incr0 + Over(Times(mss, mss), incr0) + mss / 16) % TWO32;
          ctl.(incr := incr,
            cwnd := if Times(ctl.cwnd + 1, mss) <= incr
                    then Over((incr + mss + TWO32 - 1) % TWO32, if mss > 0 then mss else 1) else ctl.cwnd);
      if grown.cwnd > ctl.rmtWnd then grown.(cwnd := ctl.rmtWnd, incr := Times(ctl.rmtWnd, mss)) else grown
  }

  function Finish(m: Numbering, cb: Cb, prevUna: nat, x: MaxAck): Cb {
    var snd := if x.MaxAck? then ParseFastack(m, cb.snd, x.sn) else cb.snd;
    var ctl := if Diff(m, snd.una, prevUna) > 0 then Grow(cb.ctl, cb.cfg.Mss()) else cb.ctl;
    cb.(snd := snd, ctl := ctl)
  }

  function InputPackets(m: Numbering, cb: Cb, ps: seq<Packet>): Cb {
    Finish(m, OnPackets(m, cb, ps), cb.snd.una, NoteAcks(m, NoAck, ps))
  }

  datatype InputResult = InputResult(code: int, cb: Cb)

  /** Segments before a rejected header have taken effect; the closing step is then skipped. */
  function Input(cb: Cb, data: seq<Byte>): InputResult {
    if |data| < OVERHEAD then InputResult(-1, cb)
    else
      var parsed := Parse(cb.cfg.conv, cb.cfg.token, data);
      if parsed.code == 0 then InputResult(0, InputPackets(Wrap32, cb, parsed.segments))
      else InputResult(parsed.code, OnPackets(Wrap32, cb, parsed.segments))
  }

  // ----- flushing -----

  function WndUnused(cb: Cb): nat {
    if |cb.rcv.queue| < cb.cfg.rcvWnd then cb.cfg.rcvWnd - |cb.rcv.queue| else 0
  }

  function AckPackets(rcv: Receiver, wnd: nat): (r: seq<Packet>)
    ensures |r| == |rcv.acks|
  {
    seq(|rcv.acks|, i requires 0 <= i < |rcv.acks| =>
      Packet(CMD_ACK, 0, wnd, rcv.acks[i].ts, rcv.acks[i].sn, rcv.nxt, []))
  }

  /** While the peer's window is closed, asks for it at growing intervals. */
  function ProbeTimer(ctl: Control): Control {
    if ctl.rmtWnd != 0 then ctl.(tsProbe := 0, probeWait := 0)
    else if ctl.probeWait == 0 then
      ctl.(probeWait := PROBE_INIT, tsProbe := (ctl.current + PROBE_INIT) % TWO32)
    else if TimeDiff(ctl.current, ctl.tsProbe) >= 0 then
      var wait := Max(ctl.probeWait, PROBE_INIT);
      var next := Min(wait + wait / 2, PROBE_LIMIT);
      ctl.(probeWait := next, tsProbe := (ctl.current + next) % TWO32, askSend := true)
    else ctl
  }

  /** The probe segments carry the number and stamp of the last acknowledgement written, or 0. */
  function ProbePackets(ctl: Control, rcv: Receiver, wnd: nat): seq<Packet> {
    var (sn, ts) := if rcv.acks == [] then (0, 0) else
                      (rcv.acks[|rcv.acks| - 1].sn, rcv.acks[|rcv.acks| - 1].ts);
    (if ctl.askSend then [Packet(CMD_WASK, 0, wnd, ts, sn, rcv.nxt, [])] else [])
    + (if ctl.askTell then [Packet(CMD_WINS, 0, wnd, ts, sn, rcv.nxt, [])] else [])
  }

  function EffectiveWindow(cfg: Config, ctl: Control): (w: nat)
    ensures w <= cfg.sndWnd
  {
    var w := Min(cfg.sndWnd, ctl.rmtWnd);
    if cfg.nocwnd then w else Min(ctl.cwnd, w)
  }

  /** Numbers segments from the queue while the window has room. */
  function FillWindow(m: Numbering, snd: Sender, wnd: nat, ctl: Control): Sender
    decreases |snd.queue|
  {
    if Diff(m, snd.nxt, Add(m, snd.una, wnd)) < 0 && snd.queue != [] then
      FillWindow(m,
        snd.(queue := snd.queue[1..], nxt := Add(m, snd.nxt, 1),
             buf := snd.buf + [Out(snd.nxt, snd.queue[0], ctl.current, ctl.rto, 0, 0)]),
        wnd, ctl)
    else snd
  }

  datatype Reason = Hold | First | Timeout | Fast

  function Resent(cfg: Config): nat {
    if cfg.fastresend > 0 then cfg.fastresend else 0xffff_ffff
  }

  function Why(cfg: Config, ctl: Control, o: Out): Reason {
    if o.xmit == 0 then First
    else if TimeDiff(ctl.current, o.resendts) >= 0 then Timeout
    else if o.fastack >= Resent(cfg) && (o.xmit <= cfg.fastlimit || cfg.fastlimit <= 0) then Fast
    else Hold
  }

  /** C division truncates toward zero. */
  function Half(x: int): int {
    if x >= 0 then x / 2 else -((-x) / 2)
  }

  function Stamp(cfg: Config, ctl: Control, o: Out): Out {
    match Why(cfg, ctl, o)
    case Hold => o
    case First =>
      var rtomin := if cfg.nodelay == 0 then ctl.rto / 8 else 0;
      o.(xmit := 1, rto := ctl.rto, resendts := (ctl.current + ctl.rto + rtomin) % TWO32)
    case Timeout =>
      var rto :=
        if cfg.nodelay == 0 then (o.rto + Max(o.rto, ctl.rto)) % TWO32
        else (o.rto + Half(if cfg.nodelay < 2 then Signed32(o.rto) else ctl.rto)) % TWO32;
      o.(xmit := o.xmit + 1, rto := rto, resendts := (ctl.current + rto) % TWO32)
    case Fast =>
      o.(xmit := o.xmit + 1, fastack := 0, resendts := (ctl.current + o.rto) % TWO32)
  }

  datatype Transmission = Transmission(buf: seq<Out>, packets: seq<Packet>, change: bool, lost: bool, dead: bool)

  function DataPacket(o: Out, ctl: Control, wnd: nat, una: nat): Packet {
    Packet(CMD_PUSH, o.frag.frg, wnd, ctl.current, o.sn, una, o.frag.data)
  }

  /** One pass over the send buffer: which segments go out, and what they carry. */
  function Transmit(cfg: Config, ctl: Control, wnd: nat, una: nat, buf: seq<Out>): (t: Transmission)
    ensures |t.buf| == |buf|
  {
    if buf == [] then Transmission([], [], false, false, false)
    else
      var t := Transmit(cfg, ctl, wnd, una, buf[..|buf| - 1]);
      var o := Stamp(cfg, ctl, buf[|buf| - 1]);
      var why := Why(cfg, ctl, buf[|buf| - 1]);
      Transmission(
        t.buf + [o],
        if why.Hold? then t.packets else t.packets + [DataPacket(o, ctl, wnd, una)],
        t.change || why.Fast?, t.lost || why.Timeout?, t.dead || (!why.Hold? && o.xmit >= cfg.deadLink))
  }

  /** Congestion state after a flush: shrink on fast retransmission, restart on a timeout. */
  function AfterFlush(cfg: Config, ctl: Control, t: Transmission, inflight: nat, wnd: nat): Control {
    var c1 :=
      if !t.change then ctl
      else
        var thresh := Max(inflight / 2, THRESH_MIN);
        var cwnd := (thresh + Resent(cfg)) % TWO32;
        ctl.(ssthresh := thresh, cwnd := cwnd, incr := Times(cwnd, cfg.Mss()));
    var c2 := if t.lost then c1.(ssthresh := Max(wnd / 2, THRESH_MIN), cwnd := 1, incr := cfg.Mss()) else c1;
    var c3 := if c2.cwnd < 1 then c2.(cwnd := 1, incr := cfg.Mss()) else c2;
    c3.(dead := c3.dead || t.dead)
  }

  datatype Flushed = Flushed(cb: Cb, packets: seq<Packet>)

  function Flush(m: Numbering, cb: Cb): Flushed {
    if !cb.ctl.updated then Flushed(cb, [])
    else
      var wnd := WndUnused(cb) % 65536;
      var ctl := ProbeTimer(cb.ctl);
      var cwnd := EffectiveWindow(cb.cfg, ctl);
      var snd := FillWindow(m, cb.snd, cwnd, ctl);
      var t := Transmit(cb.cfg, ctl, wnd, cb.rcv.nxt, snd.buf);
      var inflight := Max(0, Diff(m, snd.nxt, snd.una));
      var ctl' := AfterFlush(cb.cfg, ctl.(askSend := false, askTell := false), t, inflight, cwnd);
      Flushed(
        Cb(cb.cfg, snd.(buf := t.buf), cb.rcv.(acks := []), ctl'),
        AckPackets(cb.rcv, wnd) + ProbePackets(ctl, cb.rcv, wnd) + t.packets)
  }

  /** The clock part of ikcp_update: the new control state, and whether a flush is due. */
  function Tick(cfg: Config, ctl: Control, now: nat): (Control, bool) {
    var ts0 := if ctl.updated then ctl.tsFlush else now;
    var slap0 := TimeDiff(now, ts0);
    var far := slap0 >= 10000 || slap0 < -10000;
    var ts1 := if far then now else ts0;
    var due := far || slap0 >= 0;
    var next := (ts1 + cfg.interval) % TWO32;
    var ts2 := if !due then ts1 else if TimeDiff(now, next) >= 0 then (now + cfg.interval) % TWO32 else next;
    (ctl.(current := now, updated := true, tsFlush := ts2), due)
  }

  function Update(m: Numbering, cb: Cb, now: nat): Flushed {
    var (ctl, due) := Tick(cb.cfg, cb.ctl, now);
    if due then Flush(m, cb.(ctl := ctl)) else Flushed(cb.(ctl := ctl), [])
  }
}
