/** Length-prefixed frames on a byte stream: encoding, decoding and what is decoded when the stream arrives in
    pieces. */
module Framing {
  import opened Words

  type Bytes = seq<Byte>

  const TWO64: nat := 0x1_0000_0000_0000_0000

  /** What an unsigned 64-bit variable keeps of a number. */
  function Word64(x: nat): (r: nat)
    ensures r < TWO64 && (x < TWO64 ==> r == x) && (TWO64 <= x < 2 * TWO64 ==> r == x - TWO64)
  {
    x % TWO64
  }

  datatype Mode = PayloadOnly | WholeFrame

  datatype Codec = Codec(width: nat, mode: Mode, maxFrame: nat) {
    predicate Valid() {
      (width == 1 || width == 2 || width == 4 || width == 8) && 0 < maxFrame < TWO64
    }
  }

  // ----- big-endian numbers -----

  function Pow256(n: nat): (p: nat)
    ensures p > 0
  {
    if n == 0 then 1 else 256 * Pow256(n - 1)
  }

  function Big(n: nat, v: nat): (s: Bytes)
    ensures |s| == n
  {
    if n == 0 then [] else Big(n - 1, v / 256) + [v % 256]
  }

  function Num(s: Bytes): nat {
    if s == [] then 0 else Num(s[..|s| - 1]) * 256 + s[|s| - 1]
  }

  lemma {:induction false} NumBig(n: nat, v: nat)
    requires v < Pow256(n)
    ensures Num(Big(n, v)) == v
  {
    if n > 0 {
      NumBig(n - 1, v / 256);
      assert Big(n, v)[..n - 1] == Big(n - 1, v / 256);
    }
  }

  lemma {:induction false} NumBound(s: Bytes)
    ensures Num(s) < Pow256(|s|)
  {
    if s != [] {
      NumBound(s[..|s| - 1]);
    }
  }

  // ----- frames -----

  /** The number written in the length field. */
  function LengthOf(c: Codec, payload: Bytes): nat {
    if c.mode.PayloadOnly? then |payload| else |payload| + c.width
  }

  /** What encode() accepts: the length fits its field and the frame the configured maximum. */
  predicate Encodable(c: Codec, payload: Bytes) {
    LengthOf(c, payload) < Pow256(c.width) && |payload| + c.width <= c.maxFrame
  }

  function Encode(c: Codec, payload: Bytes): Bytes {
    Big(c.width, LengthOf(c, payload)) + payload
  }

  datatype Decoded =
    | NeedMore
    | BadLength
    | TooLong
    | Thrown                            // the frame length wrapped round, and reading the payload throws
    | Frame(payload: Bytes, rest: Bytes)

  /** One attempt to decode; the frame length is computed modulo 2^64. A buffer holds fewer than 2^63 bytes, so
      a payload length that wrapped is always past its end. */
  function Decode(c: Codec, s: Bytes): Decoded
    requires c.Valid()
  {
    if |s| < c.width then NeedMore
    else
      var encoded := Num(s[..c.width]);
      if c.mode.WholeFrame? && encoded < c.width then BadLength
      else
        var frame := if c.mode.PayloadOnly? then Word64(encoded + c.width) else encoded;
        var payload := if c.mode.PayloadOnly? then encoded else encoded - c.width;
        if frame > c.maxFrame then TooLong
        else if |s| < frame then NeedMore
        else if frame < payload then Thrown
        else Frame(s[c.width..c.width + payload], s[c.width + payload..])
  }

  lemma DecodeEncode(c: Codec, payload: Bytes, more: Bytes)
    requires c.Valid() && Encodable(c, payload)
    ensures Decode(c, Encode(c, payload) + more) == Frame(payload, more)
  {
    var s := Encode(c, payload) + more;
    NumBig(c.width, LengthOf(c, payload));
    assert s[..c.width] == Big(c.width, LengthOf(c, payload));
    assert s[c.width..c.width + |payload|] == payload;
    assert s[c.width + |payload|..] == more;
  }

  /** A proper prefix of a frame is never decoded, and never refused. */
  lemma PrefixWaits(c: Codec, payload: Bytes, k: nat)
    requires c.Valid() && Encodable(c, payload) && k < |Encode(c, payload)|
    ensures Decode(c, Encode(c, payload)[..k]) == NeedMore
  {
    if k >= c.width {
      NumBig(c.width, LengthOf(c, payload));
      assert Encode(c, payload)[..k][..c.width] == Big(c.width, LengthOf(c, payload));
    }
  }

  /** Decoding throws if and only if an 8-byte payload length wraps the frame length to at most the maximum. */
  lemma ThrowsExactly(c: Codec, s: Bytes)
    requires c.Valid()
    ensures Decode(c, s) == Thrown <==>
              && c.width == 8 && c.mode.PayloadOnly? && |s| >= 8
              && Num(s[..8]) >= TWO64 - 8 && Num(s[..8]) + 8 - TWO64 <= c.maxFrame
  {
    if |s| >= c.width {
      NumBound(s[..c.width]);
      Powers();
    }
  }

  // ----- exactly which answer -----

  /** The length field is there, and means nothing: a whole frame shorter than its own length field. */
  predicate BadField(c: Codec, s: Bytes) {
    c.mode.WholeFrame? && |s| >= c.width && Num(s[..c.width]) < c.width
  }

  /** The length of the whole frame as the program computes it, modulo 2^64. */
  function Announced(c: Codec, s: Bytes): nat
    requires |s| >= c.width
  {
    if c.mode.WholeFrame? then Num(s[..c.width]) else (Num(s[..c.width]) + c.width) % TWO64
  }

  /** The length of the payload. */
  function Inside(c: Codec, s: Bytes): nat
    requires |s| >= c.width && !BadField(c, s)
  {
    if c.mode.WholeFrame? then Num(s[..c.width]) - c.width else Num(s[..c.width])
  }

  predicate Oversized(c: Codec, s: Bytes) {
    |s| >= c.width && !BadField(c, s) && Announced(c, s) > c.maxFrame
  }

  predicate Incomplete(c: Codec, s: Bytes) {
    |s| < c.width || (!BadField(c, s) && |s| < Announced(c, s) <= c.maxFrame)
  }

  /** A whole frame is there, and no longer than the maximum. */
  predicate Complete(c: Codec, s: Bytes) {
    |s| >= c.width && !BadField(c, s) && c.width + Inside(c, s) <= |s| && c.width + Inside(c, s) <= c.maxFrame
  }

  /** Exactly when each answer is given, by mode, width, maximum and the number in the length field. */
  lemma DecodeExactly(c: Codec, s: Bytes)
    requires c.Valid()
    ensures Decode(c, s) == BadLength <==> BadField(c, s)
    ensures Decode(c, s) == TooLong <==> Oversized(c, s)
    ensures Decode(c, s) == NeedMore <==> Incomplete(c, s)
    ensures Decode(c, s).Frame? <==> Complete(c, s)
    ensures Decode(c, s).Frame? ==>
              var d := Decode(c, s);
              && |d.payload| == Inside(c, s) && c.width + |d.payload| <= c.maxFrame
              && s == s[..c.width] + d.payload + d.rest
  {
    if |s| >= c.width {
      NumBound(s[..c.width]);
      Powers();
    }
    hide Num;
    hide Pow256;
  }

  lemma {:induction false} BigNum(s: Bytes)
    ensures Big(|s|, Num(s)) == s
  {
    if s != [] {
      BigNum(s[..|s| - 1]);
      assert s == s[..|s| - 1] + [s[|s| - 1]];
    }
  }

  /** Encoding undoes decoding: what is read as a frame is the encoding of its payload, byte for byte. */
  lemma EncodeDecode(c: Codec, s: Bytes)
    requires c.Valid() && Decode(c, s).Frame?
    ensures var d := Decode(c, s); Encodable(c, d.payload) && s == Encode(c, d.payload) + d.rest
  {
    DecodeExactly(c, s);
    NumBound(s[..c.width]);
    BigNum(s[..c.width]);
    hide Decode;
    hide Num;
    hide Big;
    hide Pow256;
  }

  /** Encoding refuses a payload if and only if no bytes whatever decode to it. */
  lemma EncodableExactly(c: Codec, payload: Bytes)
    requires c.Valid()
    ensures Encodable(c, payload) <==> exists s :: Decode(c, s).Frame? && Decode(c, s).payload == payload
  {
    if Encodable(c, payload) {
      DecodeEncode(c, payload, []);
    }
    if s :| Decode(c, s).Frame? && Decode(c, s).payload == payload {
      EncodeDecode(c, s);
    }
  }

  lemma Powers()
    ensures Pow256(1) == 0x100 && Pow256(2) == 0x1_0000 && Pow256(4) == 0x1_0000_0000 && Pow256(8) == TWO64
  {
    assert Pow256(3) == 0x100_0000;
    assert Pow256(5) == 0x100_0000_0000;
    assert Pow256(6) == 0x1_0000_0000_0000;
    assert Pow256(7) == 0x100_0000_0000_0000;
  }

  /** More bytes never change an answer other than NeedMore. */
  lemma DecodeStable(c: Codec, s: Bytes, more: Bytes)
    requires c.Valid() && !Decode(c, s).NeedMore?
    ensures Decode(c, s + more) ==
              match Decode(c, s)
              case Frame(payload, rest) => Frame(payload, rest + more)
              case other => other
  {
    hide Num;
    hide Word64;
    PrefixSame(s, more, c.width);
    if Decode(c, s).Frame? {
      SlicesSame(s, more, c.width, c.width + |Decode(c, s).payload|);
    }
  }

  lemma PrefixSame(s: Bytes, more: Bytes, k: nat)
    requires k <= |s|
    ensures (s + more)[..k] == s[..k]
  {
  }

  lemma SlicesSame(s: Bytes, more: Bytes, i: nat, j: nat)
    requires i <= j <= |s|
    ensures (s + more)[i..j] == s[i..j] && (s + more)[j..] == s[j..] + more
  {
  }

  // ----- draining -----

  /** Everything decoded from `s` until more is needed, decoding throws, or it stops for good. */
  datatype Drained = Drained(payloads: seq<Bytes>, rest: Bytes, stop: Decoded)

  function Behind(payloads: seq<Bytes>, d: Drained): Drained {
    d.(payloads := payloads + d.payloads)
  }

  function Drain(c: Codec, s: Bytes): (d: Drained)
    requires c.Valid()
    ensures !d.stop.Frame? && |d.rest| <= |s|
    decreases |s|
  {
    match Decode(c, s)
    case Frame(payload, rest) =>
      FrameShortens(c, s);
      Behind([payload], Drain(c, rest))
    case Thrown => Drained([], s[c.width..], Thrown)
    case stop => Drained([], s, stop)
  }

  lemma FrameShortens(c: Codec, s: Bytes)
    requires c.Valid() && Decode(c, s).Frame?
    ensures |Decode(c, s).rest| < |s|
  {
  }

  /** A piece is appended to what was left over. Once decoding has stopped no more is read: a refused frame closes
      the connection, and a throw leaves the event loop, which cannot be entered again. */
  function Feed(c: Codec, d: Drained, piece: Bytes): Drained
    requires c.Valid() && !d.stop.Frame?
  {
    if d.stop.NeedMore? then Behind(d.payloads, Drain(c, d.rest + piece)) else d
  }

  function FeedAll(c: Codec, pieces: seq<Bytes>): (d: Drained)
    requires c.Valid()
    ensures !d.stop.Frame?
  {
    if pieces == [] then Drained([], [], NeedMore)
    else Feed(c, FeedAll(c, pieces[..|pieces| - 1]), pieces[|pieces| - 1])
  }

  function Join(pieces: seq<Bytes>): Bytes {
    if pieces == [] then [] else Join(pieces[..|pieces| - 1]) + pieces[|pieces| - 1]
  }

  /** Draining a longer stream continues where the shorter one stopped. */
  lemma {:induction false} DrainMore(c: Codec, s: Bytes, more: Bytes)
    requires c.Valid()
    ensures var d := Drain(c, s);
            var e := Drain(c, s + more);
            if d.stop.NeedMore? then
              e == Behind(d.payloads, Drain(c, d.rest + more))
            else
              e.payloads == d.payloads && e.stop == d.stop
    decreases |s|
  {
    hide Decode;
    match Decode(c, s)
    case Frame(payload, rest) =>
      DecodeStable(c, s, more);
      FrameShortens(c, s);
      DrainMore(c, rest, more);
      BehindBehind([payload], Drain(c, rest).payloads, Drain(c, Drain(c, rest).rest + more));
    case NeedMore =>
      BehindNone(Drain(c, s + more));
    case _ =>
      DecodeStable(c, s, more);
  }

  /** However a stream, well formed or not, is cut into pieces, the same payloads come out in the same order,
      decoding stops for the same reason, and the same bytes are left over. */
  lemma {:induction false} ChunkingIndependent(c: Codec, pieces: seq<Bytes>)
    requires c.Valid()
    ensures var d := FeedAll(c, pieces);
            var e := Drain(c, Join(pieces));
            && d.payloads == e.payloads && d.stop == e.stop
            && (d.stop.NeedMore? ==> d.rest == e.rest)
  {
    if pieces == [] {
      assert Decode(c, []) == NeedMore;
    } else {
      var before, last := pieces[..|pieces| - 1], pieces[|pieces| - 1];
      ChunkingIndependent(c, before);
      DrainMore(c, Join(before), last);
    }
  }

  // ----- a caller of the codec that catches -----

  /** Nothing has been refused. */
  predicate Open(d: Drained) {
    d.stop.NeedMore? || d.stop.Thrown?
  }

  /** A piece is appended to what was left over, behind a length field that threw. */
  function Resume(c: Codec, d: Drained, piece: Bytes): Drained
    requires c.Valid() && !d.stop.Frame?
  {
    if Open(d) then Behind(d.payloads, Drain(c, d.rest + piece)) else d
  }

  function ResumeAll(c: Codec, pieces: seq<Bytes>): (d: Drained)
    requires c.Valid()
    ensures !d.stop.Frame?
  {
    if pieces == [] then Drained([], [], NeedMore)
    else Resume(c, ResumeAll(c, pieces[..|pieces| - 1]), pieces[|pieces| - 1])
  }

  /** Decoding that carries on behind a length field that threw. */
  function Through(c: Codec, s: Bytes): (d: Drained)
    requires c.Valid()
    ensures !d.stop.Frame? && !d.stop.Thrown?
    decreases |s|
  {
    match Decode(c, s)
    case Frame(payload, rest) =>
      FrameShortens(c, s);
      Behind([payload], Through(c, rest))
    case Thrown => Through(c, s[c.width..])
    case stop => Drained([], s, stop)
  }

  lemma FieldShortens(c: Codec, s: Bytes, more: Bytes)
    requires c.Valid() && Decode(c, s).Thrown?
    ensures c.width <= |s| && (s + more)[c.width..] == s[c.width..] + more
  {
  }

  /** Draining, and later carrying on with what is left and what comes after, is carrying on all the way. */
  lemma {:induction false} DrainThrough(c: Codec, s: Bytes, more: Bytes)
    requires c.Valid()
    ensures var d := Drain(c, s);
            var e := Through(c, s + more);
            if Open(d) then e == Behind(d.payloads, Through(c, d.rest + more))
            else e.payloads == d.payloads && e.stop == d.stop
    decreases |s|
  {
    hide Decode;
    match Decode(c, s)
    case Frame(payload, rest) =>
      DecodeStable(c, s, more);
      FrameShortens(c, s);
      DrainThrough(c, rest, more);
      var d := Drain(c, rest);
      BehindBehind([payload], d.payloads, Through(c, d.rest + more));
    case NeedMore =>
      BehindNone(Through(c, s + more));
    case Thrown =>
      DecodeStable(c, s, more);
      FieldShortens(c, s, more);
      BehindNone(Through(c, s[c.width..] + more));
    case _ =>
      DecodeStable(c, s, more);
  }

  lemma BehindBehind(x: seq<Bytes>, y: seq<Bytes>, d: Drained)
    ensures Behind(x, Behind(y, d)) == Behind(x + y, d)
  {
    assert x + (y + d.payloads) == (x + y) + d.payloads;
  }

  lemma BehindNone(d: Drained)
    ensures Behind([], d) == d
  {
    assert [] + d.payloads == d.payloads;
  }

  /** For a caller that catches, whatever the pieces and whatever throws: what has come out so far, followed by what
      carrying on gives on the bytes left over and those still to come, is what the whole stream gives. */
  lemma {:induction false} ThrowsOnlyPostpone(c: Codec, pieces: seq<Bytes>, more: Bytes)
    requires c.Valid()
    ensures var d := ResumeAll(c, pieces);
            var e := Through(c, Join(pieces) + more);
            if Open(d) then e == Behind(d.payloads, Through(c, d.rest + more))
            else e.payloads == d.payloads && e.stop == d.stop
    decreases |pieces|
  {
    hide Through;
    hide Drain;
    if pieces == [] {
      BehindNone(Through(c, more));
      assert [] + more == more;
    } else {
      var before, last := pieces[..|pieces| - 1], pieces[|pieces| - 1];
      var d := ResumeAll(c, before);
      assert Join(pieces) + more == Join(before) + (last + more);
      ThrowsOnlyPostpone(c, before, last + more);
      if Open(d) {
        assert d.rest + (last + more) == (d.rest + last) + more;
        DrainThrough(c, d.rest + last, more);
        var e := Drain(c, d.rest + last);
        BehindBehind(d.payloads, e.payloads, Through(c, e.rest + more));
      }
    }
  }

  /** For such a caller, at least what a connection gets of the stream, and at most what carrying on gives; nothing
      differs until something throws. */
  lemma ChunkingBounds(c: Codec, pieces: seq<Bytes>)
    requires c.Valid()
    ensures FeedAll(c, pieces).payloads <= ResumeAll(c, pieces).payloads <= Through(c, Join(pieces)).payloads
    ensures !FeedAll(c, pieces).stop.Thrown? ==> ResumeAll(c, pieces) == FeedAll(c, pieces)
  {
    hide Through;
    hide Drain;
    FedAndResumed(c, pieces);
    ThrowsOnlyPostpone(c, pieces, []);
    assert Join(pieces) + [] == Join(pieces);
  }

  lemma {:induction false} FedAndResumed(c: Codec, pieces: seq<Bytes>)
    requires c.Valid()
    ensures FeedAll(c, pieces).payloads <= ResumeAll(c, pieces).payloads
    ensures !FeedAll(c, pieces).stop.Thrown? ==> ResumeAll(c, pieces) == FeedAll(c, pieces)
  {
    hide Drain;
    if pieces != [] {
      FedAndResumed(c, pieces[..|pieces| - 1]);
    }
  }

  /** A length of 2^64 - 1 throws, and holds back the frame behind it: for good on a connection, until another piece
      arrives for a caller that catches. */
  lemma ThrowHoldsBack()
    ensures var c, bad := Codec(8, PayloadOnly, 1024), [255, 255, 255, 255, 255, 255, 255, 255];
            var good := Encode(c, [7]);
            && Decode(c, bad) == Thrown
            && FeedAll(c, [bad, good]).payloads == []
            && ResumeAll(c, [bad + good]).payloads == [] && ResumeAll(c, [bad, good]).payloads == [[7]]
  {
    var c, bad: Bytes := Codec(8, PayloadOnly, 1024), [255, 255, 255, 255, 255, 255, 255, 255];
    var good := Encode(c, [7]);
    AllOnes();
    ThrowsExactly(c, bad);
    assert bad[..8] == bad;
    DecodeStable(c, bad, good);
    Powers();
    DecodeEncode(c, [7], []);
    assert good + [] == good;
    hide Decode;
    hide Encode;
    FedOne(c, bad + good);
    FedOne(c, bad);
    assert [bad, good][..1] == [bad];
    assert bad[8..] + good == good;
    assert Drain(c, good) == Behind([[7]], Drain(c, []));
    NothingDrained(c);
  }

  lemma AllOnes()
    ensures Num([255, 255, 255, 255, 255, 255, 255, 255]) == TWO64 - 1
  {
    NumOnes(8);
    Powers();
    assert seq(8, _ => 255) == [255, 255, 255, 255, 255, 255, 255, 255];
  }

  lemma {:induction false} NumOnes(n: nat)
    ensures Num(seq(n, _ => 255)) == Pow256(n) - 1
  {
    if n > 0 {
      NumOnes(n - 1);
      assert seq(n, _ => 255)[..n - 1] == seq(n - 1, _ => 255);
    }
  }

  lemma FedOne(c: Codec, piece: Bytes)
    requires c.Valid()
    ensures FeedAll(c, [piece]) == Drain(c, piece) && ResumeAll(c, [piece]) == Drain(c, piece)
  {
    assert [piece][..0] == [] && [] + piece == piece;
    BehindNone(Drain(c, piece));
  }

  lemma NothingDrained(c: Codec)
    requires c.Valid()
    ensures Drain(c, []) == Drained([], [], NeedMore)
  {
    assert Decode(c, []) == NeedMore;
  }

  function EncodeAll(c: Codec, payloads: seq<Bytes>): Bytes {
    if payloads == [] then [] else Encode(c, payloads[0]) + EncodeAll(c, payloads[1..])
  }

  predicate AllEncodable(c: Codec, payloads: seq<Bytes>) {
    forall i :: 0 <= i < |payloads| ==> Encodable(c, payloads[i])
  }

  lemma {:induction false} DrainEncoded(c: Codec, payloads: seq<Bytes>)
    requires c.Valid() && AllEncodable(c, payloads)
    ensures Drain(c, EncodeAll(c, payloads)) == Drained(payloads, [], NeedMore)
    decreases |payloads|
  {
    if payloads == [] {
      assert Decode(c, []) == NeedMore;
    } else {
      hide Decode;
      hide Encode;
      DecodeEncode(c, payloads[0], EncodeAll(c, payloads[1..]));
      DrainEncoded(c, payloads[1..]);
      assert [payloads[0]] + payloads[1..] == payloads;
    }
  }

  /** Main result: however the encodings of any payloads are cut into pieces, draining after each piece gives
      exactly those payloads in order, never an error, and leaves nothing over. */
  lemma FramingTransparent(c: Codec, payloads: seq<Bytes>, pieces: seq<Bytes>)
    requires c.Valid() && AllEncodable(c, payloads) && Join(pieces) == EncodeAll(c, payloads)
    ensures FeedAll(c, pieces) == Drained(payloads, [], NeedMore)
  {
    DrainEncoded(c, payloads);
    ChunkingIndependent(c, pieces);
  }
}
