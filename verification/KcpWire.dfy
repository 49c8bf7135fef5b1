/** The datagram format: little-endian segment headers of 28 bytes, each followed by its payload,
    packed back to back into datagrams of at most `mtu` bytes. */
module KcpWire {
  import opened Words

  const CMD_PUSH: nat := 81
  const CMD_ACK: nat := 82
  const CMD_WASK: nat := 83
  const CMD_WINS: nat := 84
  const OVERHEAD: nat := 28

  /** One segment on the wire. `sn` and `una` may be unbounded; the encoding keeps their low 32 bits. */
  datatype Packet = Packet(cmd: nat, frg: nat, wnd: nat, ts: nat, sn: nat, una: nat, data: seq<Byte>)

  predicate KnownCmd(cmd: nat) {
    cmd == CMD_PUSH || cmd == CMD_ACK || cmd == CMD_WASK || cmd == CMD_WINS
  }

  // ----- integers: each writer is given the bytes that follow, each reader returns them -----

  function Put8(c: nat, rest: seq<Byte>): (r: seq<Byte>)
    ensures |r| == 1 + |rest|
  {
    [c % 256] + rest
  }

  function Put16(w: nat, rest: seq<Byte>): (r: seq<Byte>)
    ensures |r| == 2 + |rest|
  {
    [w % 256, w / 256 % 256] + rest
  }

  function Put32(l: nat, rest: seq<Byte>): (r: seq<Byte>)
    ensures |r| == 4 + |rest|
  {
    [l % 256, l / 256 % 256, l / 65536 % 256, l / 16777216 % 256] + rest
  }

  function Get8(s: seq<Byte>): (r: (nat, seq<Byte>))
    requires |s| >= 1
    ensures r.0 < 256 && |r.1| == |s| - 1
  {
    (s[0], s[1..])
  }

  function Get16(s: seq<Byte>): (r: (nat, seq<Byte>))
    requires |s| >= 2
    ensures r.0 < 65536 && |r.1| == |s| - 2
  {
    var lo: nat, hi: nat := s[0], s[1];
    (lo + 256 * hi, s[2..])
  }

  function Get32(s: seq<Byte>): (r: (nat, seq<Byte>))
    requires |s| >= 4
    ensures r.0 < TWO32 && |r.1| == |s| - 4
  {
    var b0: nat, b1: nat, b2: nat, b3: nat := s[0], s[1], s[2], s[3];
    (b0 + 256 * b1 + 65536 * b2 + 16777216 * b3, s[4..])
  }

  lemma Get8Put8(c: nat, rest: seq<Byte>)
    ensures Get8(Put8(c, rest)) == (c % 256, rest)
  {
    assert Put8(c, rest)[1..] == rest;
  }

  lemma Get16Put16(w: nat, rest: seq<Byte>)
    ensures Get16(Put16(w, rest)) == (w % 65536, rest)
  {
    assert Put16(w, rest)[2..] == rest;
  }

  lemma Get32Put32(l: nat, rest: seq<Byte>)
    ensures Get32(Put32(l, rest)) == (l % TWO32, rest)
  {
    assert Put32(l, rest)[4..] == rest;
    FourBytes(l);
  }

  lemma FourBytes(l: nat)
    ensures l % 256 + 256 * (l / 256 % 256) + 65536 * (l / 65536 % 256) + 16777216 * (l / 16777216 % 256) == l % TWO32
  {
    var q1, q2, q3 := l / 256, l / 65536, l / 16777216;
    assert q2 == q1 / 256 && q3 == q2 / 256;
    assert l == l % 256 + 256 * (q1 % 256) + 65536 * (q2 % 256) + 16777216 * q3;
    assert l / TWO32 == q3 / 256;
  }

  // ----- segments -----

  /** A segment's header and payload, followed by `rest`. */
  function Encode(conv: nat, token: nat, p: Packet, rest: seq<Byte>): (r: seq<Byte>)
    ensures |r| == OVERHEAD + |p.data| + |rest|
  {
    Put32(conv, Put32(token, Put8(p.cmd, Put8(p.frg, Put16(p.wnd,
      Put32(p.ts, Put32(p.sn, Put32(p.una, Put32(|p.data|, p.data + rest)))))))))
  }

  function EncodeAll(conv: nat, token: nat, ps: seq<Packet>): (r: seq<Byte>)
    ensures |r| == Size(ps)
  {
    if ps == [] then [] else Encode(conv, token, ps[0], EncodeAll(conv, token, ps[1..]))
  }

  function Size(ps: seq<Packet>): nat {
    if ps == [] then 0 else OVERHEAD + |ps[0].data| + Size(ps[1..])
  }

  /** A list of datagrams as bytes. */
  function EncodeGroups(conv: nat, token: nat, gs: seq<seq<Packet>>): (r: seq<seq<Byte>>)
    ensures |r| == |gs|
  {
    seq(|gs|, i requires 0 <= i < |gs| => EncodeAll(conv, token, gs[i]))
  }

  lemma SizeAppend(ps: seq<Packet>, p: Packet)
    ensures Size(ps + [p]) == Size(ps) + OVERHEAD + |p.data|
  {
    if ps != [] {
      SizeAppend(ps[1..], p);
      assert (ps + [p])[1..] == ps[1..] + [p];
    }
  }

  lemma PutAppend(x: nat, rest: seq<Byte>, tail: seq<Byte>)
    ensures Put8(x, rest) + tail == Put8(x, rest + tail)
    ensures Put16(x, rest) + tail == Put16(x, rest + tail)
    ensures Put32(x, rest) + tail == Put32(x, rest + tail)
  {
  }

  lemma EncodeAppend(conv: nat, token: nat, p: Packet, rest: seq<Byte>, tail: seq<Byte>)
    ensures Encode(conv, token, p, rest) + tail == Encode(conv, token, p, rest + tail)
  {
    var b := p.data + rest;
    assert b + tail == p.data + (rest + tail);
    var h1 := Put32(|p.data|, b);
    PutAppend(|p.data|, b, tail);
    var h2 := Put32(p.una, h1);
    PutAppend(p.una, h1, tail);
    var h3 := Put32(p.sn, h2);
    PutAppend(p.sn, h2, tail);
    var h4 := Put32(p.ts, h3);
    PutAppend(p.ts, h3, tail);
    var h5 := Put16(p.wnd, h4);
    PutAppend(p.wnd, h4, tail);
    var h6 := Put8(p.frg, h5);
    PutAppend(p.frg, h5, tail);
    var h7 := Put8(p.cmd, h6);
    PutAppend(p.cmd, h6, tail);
    var h8 := Put32(token, h7);
    PutAppend(token, h7, tail);
    PutAppend(conv, h8, tail);
  }

  /** Writing a segment after the ones already in the datagram. */
  lemma {:induction false} EncodeAllAppend(conv: nat, token: nat, ps: seq<Packet>, p: Packet)
    ensures EncodeAll(conv, token, ps + [p]) == EncodeAll(conv, token, ps) + Encode(conv, token, p, [])
    decreases |ps|
  {
    if ps == [] {
      assert (ps + [p])[1..] == [];
    } else {
      EncodeAllAppend(conv, token, ps[1..], p);
      assert (ps + [p])[1..] == ps[1..] + [p];
      EncodeAppend(conv, token, ps[0], EncodeAll(conv, token, ps[1..]), Encode(conv, token, p, []));
    }
  }

  /** What one pass of the parse loop finds at the front of the remaining bytes. */
  datatype Front =
    | Done
    | Reject(code: int)
    | Segment(p: Packet, rest: seq<Byte>)

  function ReadFront(conv: nat, token: nat, data: seq<Byte>): (f: Front)
    ensures f.Segment? ==> |f.rest| + OVERHEAD + |f.p.data| == |data|
    ensures f.Segment? ==> Encodable(f.p) && f.p.sn < TWO32 && f.p.una < TWO32
  {
    if |data| < OVERHEAD then Done
    else
      var (c, d) := Get32(data);
      if c != conv then Reject(-1)
      else
        var (tok, d) := Get32(d);
        var (cmd, d) := Get8(d);
        var (frg, d) := Get8(d);
        var (wnd, d) := Get16(d);
        var (ts, d) := Get32(d);
        var (sn, d) := Get32(d);
        var (una, d) := Get32(d);
        var (len, d) := Get32(d);
        if |d| < len || len >= TWO31 then Reject(-2)
        else if tok != token then Reject(-4)
        else if !KnownCmd(cmd) then Reject(-3)
        else Segment(Packet(cmd, frg, wnd, ts, sn, una, d[..len]), d[len..])
  }

  /** All segments of a datagram up to its end (code 0) or up to the first rejected header. */
  datatype Parsed = Parsed(segments: seq<Packet>, code: int)

  function Parse(conv: nat, token: nat, data: seq<Byte>): Parsed
    decreases |data|
  {
    match ReadFront(conv, token, data)
    case Done => Parsed([], 0)
    case Reject(code) => Parsed([], code)
    case Segment(p, rest) =>
      var more := Parse(conv, token, rest);
      Parsed([p] + more.segments, more.code)
  }

  /** A packet as it comes back from the wire. */
  function OnWire(p: Packet): Packet {
    p.(sn := p.sn % TWO32, una := p.una % TWO32)
  }

  function OnWireAll(ps: seq<Packet>): (r: seq<Packet>)
    ensures |r| == |ps|
  {
    seq(|ps|, i requires 0 <= i < |ps| => OnWire(ps[i]))
  }

  /** Every other field fits its place in the header. `wnd` is cut to 16 bits by the sender. */
  predicate Encodable(p: Packet) {
    KnownCmd(p.cmd) && p.frg < 256 && p.wnd < 65536 && p.ts < TWO32 && |p.data| < TWO31
  }

  /** A header with any command and any length, followed by `tail`. */
  function Header(conv: nat, token: nat, p: Packet, len: nat, tail: seq<Byte>): (r: seq<Byte>)
    ensures |r| == OVERHEAD + |tail|
  {
    Put32(conv, Put32(token, Put8(p.cmd, Put8(p.frg, Put16(p.wnd,
      Put32(p.ts, Put32(p.sn, Put32(p.una, Put32(len, tail)))))))))
  }

  /** Exactly what the reader makes of a header, whoever wrote it: a foreign conversation, a length past the end, a
      foreign token and an unknown command are refused, in this order, each with its own code. */
  lemma ReadFrontExactly(conv: nat, token: nat, conv': nat, token': nat, p: Packet, len: nat, tail: seq<Byte>)
    requires conv' < TWO32 && token' < TWO32 && len < TWO32
    requires p.cmd < 256 && p.frg < 256 && p.wnd < 65536 && p.ts < TWO32
    ensures ReadFront(conv, token, Header(conv', token', p, len, tail)) ==
              if conv' != conv then Reject(-1)
              else if len > |tail| || len >= TWO31 then Reject(-2)
              else if token' != token then Reject(-4)
              else if !KnownCmd(p.cmd) then Reject(-3)
              else Segment(OnWire(p).(data := tail[..len]), tail[len..])
  {
    hide Put8;
    hide Put16;
    hide Put32;
    hide Get8;
    hide Get16;
    hide Get32;
    hide KnownCmd;
    var h1 := Put32(len, tail);
    Get32Put32(len, tail);
    var h2 := Put32(p.una, h1);
    Get32Put32(p.una, h1);
    var h3 := Put32(p.sn, h2);
    Get32Put32(p.sn, h2);
    var h4 := Put32(p.ts, h3);
    Get32Put32(p.ts, h3);
    var h5 := Put16(p.wnd, h4);
    Get16Put16(p.wnd, h4);
    var h6 := Put8(p.frg, h5);
    Get8Put8(p.frg, h5);
    var h7 := Put8(p.cmd, h6);
    Get8Put8(p.cmd, h6);
    var h8 := Put32(token', h7);
    Get32Put32(token', h7);
    Get32Put32(conv', h8);
  }

  lemma EncodeIsHeader(conv: nat, token: nat, p: Packet, rest: seq<Byte>)
    ensures Encode(conv, token, p, rest) == Header(conv, token, p, |p.data|, p.data + rest)
  {
  }

  /** Reading the front of an encoded packet gives the packet and exactly the bytes after it. */
  lemma ReadFrontEncode(conv: nat, token: nat, p: Packet, rest: seq<Byte>)
    requires conv < TWO32 && token < TWO32 && Encodable(p)
    ensures ReadFront(conv, token, Encode(conv, token, p, rest)) == Segment(OnWire(p), rest)
  {
    EncodeIsHeader(conv, token, p, rest);
    hide Encode;
    hide Header;
    hide ReadFront;
    ReadFrontExactly(conv, token, conv, token, p, |p.data|, p.data + rest);
    var b := p.data + rest;
    assert b[..|p.data|] == p.data && b[|p.data|..] == rest;
  }

  /** Any bytes long enough begin with some header, so that the reader is determined on all of them. */
  lemma SomeHeader(data: seq<Byte>) returns (conv: nat, token: nat, p: Packet, len: nat)
    requires |data| >= OVERHEAD
    ensures conv < TWO32 && token < TWO32 && len < TWO32
    ensures p.cmd < 256 && p.frg < 256 && p.wnd < 65536 && p.ts < TWO32
    ensures data == Header(conv, token, p, len, data[OVERHEAD..])
  {
    conv := Get32(data).0;
    token := Get32(data[4..]).0;
    var cmd, frg, wnd := Get8(data[8..]).0, Get8(data[9..]).0, Get16(data[10..]).0;
    var ts, sn, una := Get32(data[12..]).0, Get32(data[16..]).0, Get32(data[20..]).0;
    len := Get32(data[24..]).0;
    p := Packet(cmd, frg, wnd, ts, sn, una, []);
    Put32Get32(data[24..]);
    Put32Get32(data[20..]);
    Put32Get32(data[16..]);
    Put32Get32(data[12..]);
    Put16Get16(data[10..]);
    Put8Get8(data[9..]);
    Put8Get8(data[8..]);
    Put32Get32(data[4..]);
    Put32Get32(data);
    hide Put8;
    hide Put16;
    hide Put32;
    hide Get8;
    hide Get16;
    hide Get32;
    Slices(data);
  }

  lemma Slices(data: seq<Byte>)
    requires |data| >= OVERHEAD
    ensures data[4..][4..] == data[8..] && data[8..][1..] == data[9..] && data[9..][1..] == data[10..]
    ensures data[10..][2..] == data[12..] && data[12..][4..] == data[16..] && data[16..][4..] == data[20..]
    ensures data[20..][4..] == data[24..] && data[24..][4..] == data[OVERHEAD..]
  {
  }

  lemma Put8Get8(s: seq<Byte>)
    requires |s| >= 1
    ensures Put8(Get8(s).0, s[1..]) == s
  {
  }

  lemma Put16Get16(s: seq<Byte>)
    requires |s| >= 2
    ensures Put16(Get16(s).0, s[2..]) == s
  {
  }

  lemma Put32Get32(s: seq<Byte>)
    requires |s| >= 4
    ensures Put32(Get32(s).0, s[4..]) == s
  {
    var b0: nat, b1: nat, b2: nat, b3: nat := s[0], s[1], s[2], s[3];
    var l := b0 + 256 * b1 + 65536 * b2 + 16777216 * b3;
    assert l / 256 == b1 + 256 * b2 + 65536 * b3;
    assert l / 65536 == b2 + 256 * b3;
    assert l / 16777216 == b3;
  }

  lemma ParseEmpty(conv: nat, token: nat)
    ensures Parse(conv, token, []) == Parsed([], 0)
  {
  }

  lemma ParseStep(conv: nat, token: nat, data: seq<Byte>, p: Packet, rest: seq<Byte>)
    requires ReadFront(conv, token, data) == Segment(p, rest)
    ensures Parse(conv, token, data)
         == Parsed([p] + Parse(conv, token, rest).segments, Parse(conv, token, rest).code)
  {
  }

  /** The parse loop reads a datagram back as exactly the segments packed into it, none left over. */
  lemma {:induction false} ParseEncodeAll(conv: nat, token: nat, ps: seq<Packet>)
    requires conv < TWO32 && token < TWO32
    requires forall i :: 0 <= i < |ps| ==> Encodable(ps[i])
    ensures Parse(conv, token, EncodeAll(conv, token, ps)) == Parsed(OnWireAll(ps), 0)
    decreases |ps|
  {
    hide Encode;
    hide Parse;
    hide ReadFront;
    if ps == [] {
      ParseEmpty(conv, token);
      assert OnWireAll(ps) == [];
    } else {
      var rest := EncodeAll(conv, token, ps[1..]);
      ReadFrontEncode(conv, token, ps[0], rest);
      ParseStep(conv, token, Encode(conv, token, ps[0], rest), OnWire(ps[0]), rest);
      ParseEncodeAll(conv, token, ps[1..]);
      assert OnWireAll(ps) == [OnWire(ps[0])] + OnWireAll(ps[1..]);
    }
  }

  lemma ParseStops(conv: nat, token: nat, tail: seq<Byte>)
    requires !ReadFront(conv, token, tail).Segment?
    ensures Parse(conv, token, tail) ==
              Parsed([], match ReadFront(conv, token, tail) case Reject(code) => code case _ => 0)
  {
    hide ReadFront;
  }

  /** Segments of this conversation, followed by bytes at which the reader stops: the segments are read, and the code
      is that of the stop. Fewer bytes than a header are a stop without an error. */
  lemma {:induction false} ParseUpTo(conv: nat, token: nat, ps: seq<Packet>, tail: seq<Byte>)
    requires conv < TWO32 && token < TWO32 && forall i :: 0 <= i < |ps| ==> Encodable(ps[i])
    requires !ReadFront(conv, token, tail).Segment?
    ensures Parse(conv, token, EncodeAll(conv, token, ps) + tail) ==
              Parsed(OnWireAll(ps), match ReadFront(conv, token, tail) case Reject(code) => code case _ => 0)
    decreases |ps|
  {
    hide Encode;
    hide Parse;
    hide ReadFront;
    if ps == [] {
      assert EncodeAll(conv, token, ps) + tail == tail;
      ParseStops(conv, token, tail);
      assert OnWireAll(ps) == [];
    } else {
      var rest := EncodeAll(conv, token, ps[1..]);
      EncodeAppend(conv, token, ps[0], rest, tail);
      ReadFrontEncode(conv, token, ps[0], rest + tail);
      ParseStep(conv, token, Encode(conv, token, ps[0], rest + tail), OnWire(ps[0]), rest + tail);
      ParseUpTo(conv, token, ps[1..], tail);
      assert OnWireAll(ps) == [OnWire(ps[0])] + OnWireAll(ps[1..]);
    }
  }

  // ----- packing into datagrams -----

  /** Datagrams handed to the output so far, and the one being filled. */
  datatype Packer = Packer(sent: seq<seq<Packet>>, filling: seq<Packet>)

  const EMPTY_PACKER: Packer := Packer([], [])

  /** Hands over the datagram being filled unless it is empty. */
  function Emit(k: Packer): Packer {
    if k.filling == [] then k else Packer(k.sent + [k.filling], [])
  }

  function Put(mtu: nat, k: Packer, p: Packet): Packer {
    var room := if Size(k.filling) + OVERHEAD + |p.data| > mtu then Emit(k) else k;
    room.(filling := room.filling + [p])
  }

  function PutAll(mtu: nat, k: Packer, ps: seq<Packet>): Packer {
    if ps == [] then k else Put(mtu, PutAll(mtu, k, ps[..|ps| - 1]), ps[|ps| - 1])
  }

  function Pack(mtu: nat, ps: seq<Packet>): seq<seq<Packet>> {
    Emit(PutAll(mtu, EMPTY_PACKER, ps)).sent
  }

  function Concat<T>(ss: seq<seq<T>>): seq<T> {
    if ss == [] then [] else Concat(ss[..|ss| - 1]) + ss[|ss| - 1]
  }

  ghost predicate WellPacked(mtu: nat, k: Packer, ps: seq<Packet>) {
    && Concat(k.sent) + k.filling == ps
    && Size(k.filling) <= mtu
    && forall g :: g in k.sent ==> g != [] && Size(g) <= mtu
  }

  lemma EmitKeeps(mtu: nat, k: Packer, ps: seq<Packet>)
    requires WellPacked(mtu, k, ps)
    ensures WellPacked(mtu, Emit(k), ps) && Emit(k).filling == []
  {
    if k.filling != [] {
      assert Emit(k).sent[..|k.sent|] == k.sent;
    }
  }

  lemma PutKeeps(mtu: nat, k: Packer, ps: seq<Packet>, p: Packet)
    requires WellPacked(mtu, k, ps)
    requires OVERHEAD + |p.data| <= mtu
    ensures WellPacked(mtu, Put(mtu, k, p), ps + [p])
  {
    var room := if Size(k.filling) + OVERHEAD + |p.data| > mtu then Emit(k) else k;
    EmitKeeps(mtu, k, ps);
    PutOne(mtu, room, ps, p);
    hide WellPacked;
    hide Emit;
  }

  lemma PutOne(mtu: nat, k: Packer, ps: seq<Packet>, p: Packet)
    requires WellPacked(mtu, k, ps) && Size(k.filling) + OVERHEAD + |p.data| <= mtu
    ensures WellPacked(mtu, k.(filling := k.filling + [p]), ps + [p])
  {
    SizeAppend(k.filling, p);
    hide Concat;
    hide Size;
    Grouped(Concat(k.sent), k.filling, [p]);
  }

  lemma Grouped<T>(x: seq<T>, y: seq<T>, z: seq<T>)
    ensures x + (y + z) == x + y + z
  {
  }

  lemma {:induction false} PutAllKeeps(mtu: nat, ps: seq<Packet>)
    requires forall p :: p in ps ==> OVERHEAD + |p.data| <= mtu
    ensures WellPacked(mtu, PutAll(mtu, EMPTY_PACKER, ps), ps)
    decreases |ps|
  {
    if ps != [] {
      var n := |ps| - 1;
      PutAllKeeps(mtu, ps[..n]);
      PutKeeps(mtu, PutAll(mtu, EMPTY_PACKER, ps[..n]), ps[..n], ps[n]);
      assert ps == ps[..n] + [ps[n]];
    }
  }

  /** Datagram `g` was closed because the first segment of `h` did not fit it. */
  predicate DidNotFit(mtu: nat, g: seq<Packet>, h: seq<Packet>) {
    h == [] || Size(g) + OVERHEAD + |h[0].data| > mtu
  }

  /** Every datagram was closed for want of room. */
  ghost predicate Greedy(mtu: nat, k: Packer) {
    && (forall i :: 0 <= i < |k.sent| - 1 ==> DidNotFit(mtu, k.sent[i], k.sent[i + 1]))
    && (k.sent != [] ==> k.filling != [] && DidNotFit(mtu, k.sent[|k.sent| - 1], k.filling))
  }

  lemma {:induction false} PutAllGreedy(mtu: nat, ps: seq<Packet>)
    ensures Greedy(mtu, PutAll(mtu, EMPTY_PACKER, ps))
    decreases |ps|
  {
    hide Size;
    if ps != [] {
      PutAllGreedy(mtu, ps[..|ps| - 1]);
    }
  }

  /** A new datagram is begun only when the next segment does not fit the one being filled. */
  lemma PackGreedy(mtu: nat, ps: seq<Packet>, i: nat)
    requires i + 1 < |Pack(mtu, ps)|
    ensures DidNotFit(mtu, Pack(mtu, ps)[i], Pack(mtu, ps)[i + 1])
  {
    PutAllGreedy(mtu, ps);
    hide PutAll;
    hide DidNotFit;
  }

  /** Packing loses nothing, reorders nothing, emits no empty datagram and respects the mtu. */
  lemma PackExact(mtu: nat, ps: seq<Packet>)
    requires forall p :: p in ps ==> OVERHEAD + |p.data| <= mtu
    ensures Concat(Pack(mtu, ps)) == ps
    ensures forall g :: g in Pack(mtu, ps) ==> g != [] && Size(g) <= mtu
    ensures forall g, p :: g in Pack(mtu, ps) && p in g ==> p in ps
  {
    PutAllKeeps(mtu, ps);
    var k := PutAll(mtu, EMPTY_PACKER, ps);
    EmitKeeps(mtu, k, ps);
    forall g, p | g in Emit(k).sent && p in g ensures p in ps {
      InConcat(Emit(k).sent, g, p);
    }
  }

  lemma InConcat<T>(ss: seq<seq<T>>, s: seq<T>, x: T)
    requires s in ss && x in s
    ensures x in Concat(ss)
  {
    if s != ss[|ss| - 1] {
      InConcat(ss[..|ss| - 1], s, x);
    }
  }
}
