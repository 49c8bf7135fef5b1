/** The growable byte buffer, and the codec working on it in place. */
module Buffers {
  import opened Words
  import opened Framing

  const CHEAP_PREPEND: nat := 8

  /** No array is this long: asking for one throws. */
  const LIMIT: nat := TWO64 / 2

  /** The guard that decides whether moving the readable bytes to the front makes room, with the unsigned
      64-bit subtraction of the program. */
  predicate MovingSuffices(size: nat, reader: nat, writer: nat, len: nat)
    requires reader <= writer <= size
  {
    (size - writer + reader - CHEAP_PREPEND) % TWO64 >= len
  }

  /** The guard is right about every length if and only if at least eight bytes are not readable: otherwise
      its subtraction wraps. Bytes put in front of the reserve are what can break this. */
  lemma GuardExact(size: nat, reader: nat, writer: nat)
    requires reader <= writer <= size < TWO64
    ensures (forall len: nat ::
               MovingSuffices(size, reader, writer, len) <==> CHEAP_PREPEND + (writer - reader) + len <= size)
            <==> size - (writer - reader) >= CHEAP_PREPEND
  {
    if size - (writer - reader) < CHEAP_PREPEND {
      assert MovingSuffices(size, reader, writer, 0);
    }
  }

  /** Moving the readable bytes behind the reserve would write past the end of the array, and the wrapped guard
      lets it happen. */
  predicate Overruns(size: nat, reader: nat, writer: nat, len: nat)
    requires reader <= writer <= size
  {
    CHEAP_PREPEND + (writer - reader) > size && len <= TWO64 + size - (writer - reader) - CHEAP_PREPEND
  }

  /** Moving does not help, and the array to grow to, its size computed modulo 2^64, would reach the limit. */
  predicate Refused(size: nat, reader: nat, writer: nat, len: nat)
    requires reader <= writer <= size
  {
    && !MovingSuffices(size, reader, writer, len)
    && (size * 2 >= LIMIT || (CHEAP_PREPEND + (writer - reader) + len) % TWO64 >= LIMIT)
  }

  /** Eight readable bytes fill the array: the guard claims there is room for any length. */
  lemma GuardWraps(len: nat)
    requires len < TWO64 - 8
    ensures MovingSuffices(8, 0, 8, len) && CHEAP_PREPEND + (8 - 0) + len > 8
  {
  }

  lemma GuardMeans(size: nat, reader: nat, writer: nat, len: nat)
    requires reader <= writer <= size < LIMIT
    ensures MovingSuffices(size, reader, writer, len) <==>
              || CHEAP_PREPEND + (writer - reader) + len <= size
              || Overruns(size, reader, writer, len)
  {
  }

  /** What making room comes to: done, refused because no array is that long, or a write past the array's end. */
  datatype Room = Made | NoMemory | Overrun

  class Buffer {
    var data: array<Byte>
    var reader: nat
    var writer: nat

    ghost predicate Valid()
      reads this
    {
      reader <= writer <= data.Length < LIMIT && CHEAP_PREPEND <= data.Length
    }

    ghost function Contents(): (s: Bytes)
      reads this, data
      requires Valid()
    {
      data[reader..writer]
    }

    constructor (initialSize: nat)
      requires CHEAP_PREPEND + initialSize < LIMIT
      ensures Valid() && fresh(data) && Contents() == []
      ensures data.Length == CHEAP_PREPEND + initialSize && reader == CHEAP_PREPEND
    {
      data := new Byte[CHEAP_PREPEND + initialSize](i => 0);
      reader, writer := CHEAP_PREPEND, CHEAP_PREPEND;
    }

    method Retrieve(len: nat)
      requires Valid()
      modifies `reader, `writer
      ensures Valid() && Contents() == if len < |old(Contents())| then old(Contents())[len..] else []
      ensures old(reader) >= CHEAP_PREPEND ==> reader >= CHEAP_PREPEND
    {
      if len < writer - reader {
        reader := reader + len;
      } else {
        reader, writer := CHEAP_PREPEND, CHEAP_PREPEND;
      }
    }

    method RetrieveAsString(len: nat) returns (ok: bool, s: Bytes)
      requires Valid()
      modifies `reader, `writer
      ensures Valid() && ok == (len <= |old(Contents())|)
      ensures ok ==> old(Contents()) == s + Contents() && |s| == len
      ensures !ok ==> Contents() == old(Contents())
      ensures old(reader) >= CHEAP_PREPEND ==> reader >= CHEAP_PREPEND
    {
      if len > writer - reader {
        return false, [];
      }
      s := data[reader..reader + len];
      ok := true;
      ghost var was := Contents();
      assert s == was[..len];
      Retrieve(len);
      assert was == was[..len] + was[len..];
    }

    /** Makes room for `len` more bytes by moving the readable bytes to the front, or by growing. It overruns the
        array exactly where the guard wraps, fails only where an array would reach the limit, and claims to have
        made room that is not there exactly for lengths that no array has. */
    method MakeSpace(len: nat) returns (r: Room)
      requires Valid() && data.Length - writer < len < TWO64
      modifies this, data
      ensures Valid() && Contents() == old(Contents())
      ensures r == Overrun <==> old(Overruns(data.Length, reader, writer, len))
      ensures r == Made ==> reader == CHEAP_PREPEND && (data.Length - writer >= len <==> len < LIMIT)
      ensures data.Length <= old(data.Length) || data.Length <= 2 * (CHEAP_PREPEND + |Contents()| + len)
      ensures r == NoMemory <==> old(Refused(data.Length, reader, writer, len))
      ensures r != Made ==> data == old(data)
      ensures data == old(data) || fresh(data)
    {
      var readable := writer - reader;
      if readable == 0 {
        reader, writer := CHEAP_PREPEND, CHEAP_PREPEND;
        if data.Length - writer >= len {
          return Made;
        }
      }
      GuardMeans(data.Length, reader, writer, len);
      if MovingSuffices(data.Length, reader, writer, len) {
        if CHEAP_PREPEND + readable > data.Length {
          return Overrun;
        }
        Compact(readable);
        return Made;
      }
      r := Grow(readable, len);
    }

    method Grow(readable: nat, len: nat) returns (r: Room)
      requires Valid() && readable == writer - reader
      requires len < TWO64 && data.Length < CHEAP_PREPEND + readable + len
      requires CHEAP_PREPEND + readable <= 2 * data.Length
      modifies this
      ensures Valid() && Contents() == old(Contents()) && r != Overrun
      ensures r == Made ==> reader == CHEAP_PREPEND && (data.Length - writer >= len <==> len < LIMIT)
      ensures data.Length <= old(data.Length) || data.Length <= 2 * (CHEAP_PREPEND + |Contents()| + len)
      ensures r == NoMemory <==>
                old(data.Length * 2 >= LIMIT || (CHEAP_PREPEND + readable + len) % TWO64 >= LIMIT)
      ensures r != Made ==> data == old(data)
      ensures data == old(data) || fresh(data)
    {
      var least := (CHEAP_PREPEND + readable + len) % TWO64;
      var newSize := if data.Length * 2 >= least then data.Length * 2 else least;
      if newSize >= LIMIT {
        return NoMemory;
      }
      var grown := new Byte[newSize](i => 0);
      forall i | CHEAP_PREPEND <= i < CHEAP_PREPEND + readable {
        grown[i] := data[reader + i - CHEAP_PREPEND];
      }
      Moved(data[..], grown[..], reader, readable);
      data := grown;
      reader, writer := CHEAP_PREPEND, CHEAP_PREPEND + readable;
      r := Made;
    }

    method Compact(readable: nat)
      requires Valid() && readable == writer - reader && CHEAP_PREPEND + readable <= data.Length
      modifies `reader, `writer, data
      ensures Valid() && Contents() == old(Contents()) && reader == CHEAP_PREPEND
    {
      ghost var was := data[..];
      forall i | CHEAP_PREPEND <= i < CHEAP_PREPEND + readable {
        data[i] := data[reader + i - CHEAP_PREPEND];
      }
      Moved(was, data[..], reader, readable);
      reader, writer := CHEAP_PREPEND, CHEAP_PREPEND + readable;
    }

    method EnsureWritable(len: nat) returns (r: Room)
      requires Valid() && len < TWO64
      modifies this, data
      ensures Valid() && Contents() == old(Contents())
      ensures r == Overrun <==> old(data.Length - writer < len && Overruns(data.Length, reader, writer, len))
      ensures r == Made ==> (data.Length - writer >= len <==> len < LIMIT)
      ensures r == Made && old(reader) >= CHEAP_PREPEND ==> reader >= CHEAP_PREPEND
      ensures data.Length <= old(data.Length) || data.Length <= 2 * (CHEAP_PREPEND + |Contents()| + len)
      ensures r == NoMemory <==> old(data.Length - writer < len && Refused(data.Length, reader, writer, len))
      ensures r != Made ==> data == old(data)
      ensures data == old(data) || fresh(data)
      ensures old(data.Length - writer) >= len ==> r == Made && data == old(data) && writer == old(writer)
    {
      r := Made;
      if data.Length - writer < len {
        r := MakeSpace(len);
      }
    }

    /** A string of 2^63 bytes or more does not exist; it is refused here. */
    method Append(s: Bytes) returns (r: Room)
      requires Valid()
      modifies this, data
      ensures Valid() && Contents() == if r == Made then old(Contents()) + s else old(Contents())
      ensures r == Overrun <==>
                old(|s| < LIMIT && data.Length - writer < |s| && Overruns(data.Length, reader, writer, |s|))
      ensures r == NoMemory <==>
                || |s| >= LIMIT
                || old(data.Length - writer < |s| && Refused(data.Length, reader, writer, |s|))
      ensures r == Made && old(reader) >= CHEAP_PREPEND ==> reader >= CHEAP_PREPEND
      ensures data.Length <= old(data.Length) || data.Length <= 2 * (CHEAP_PREPEND + |old(Contents())| + |s|)
      ensures r != Made ==> data == old(data)
      ensures data == old(data) || fresh(data)
      ensures old(data.Length - writer) >= |s| ==> r == Made && data == old(data) && writer == old(writer) + |s|
    {
      if |s| == 0 {
        assert old(Contents()) + s == old(Contents());
        return Made;
      }
      if |s| >= LIMIT {
        return NoMemory;
      }
      r := EnsureWritable(|s|);
      if r != Made {
        return;
      }
      ghost var was := data[..];
      forall i | writer <= i < writer + |s| {
        data[i] := s[i - writer];
      }
      Written(was, data[..], reader, writer, s);
      writer := writer + |s|;
    }

    /** Puts bytes in front of the readable ones, into the reserve, if they fit. */
    method Prepend(s: Bytes) returns (ok: bool)
      requires Valid()
      modifies `reader, data
      ensures Valid() && ok == (|s| <= old(reader)) && reader == old(reader) - (if ok then |s| else 0)
      ensures Contents() == if ok then s + old(Contents()) else old(Contents())
    {
      if |s| > reader {
        return false;
      }
      ghost var was := data[..];
      var front := reader - |s|;
      forall i | front <= i < reader {
        data[i] := s[i - front];
      }
      InFront(was, data[..], front, reader, writer, s);
      reader := front;
      ok := true;
    }
  }

  lemma InFront(was: Bytes, now: Bytes, front: nat, reader: nat, writer: nat, s: Bytes)
    requires front + |s| == reader <= writer <= |now| == |was|
    requires forall i :: reader <= i < writer ==> now[i] == was[i]
    requires forall i :: front <= i < reader ==> now[i] == s[i - front]
    ensures now[front..writer] == s + was[reader..writer]
  {
  }

  lemma Moved(was: Bytes, now: Bytes, reader: nat, readable: nat)
    requires reader + readable <= |was| && CHEAP_PREPEND + readable <= |now|
    requires forall i :: CHEAP_PREPEND <= i < CHEAP_PREPEND + readable ==> now[i] == was[reader + i - CHEAP_PREPEND]
    ensures now[CHEAP_PREPEND..CHEAP_PREPEND + readable] == was[reader..reader + readable]
  {
  }

  lemma Written(was: Bytes, now: Bytes, reader: nat, writer: nat, s: Bytes)
    requires reader <= writer && writer + |s| <= |now| == |was|
    requires forall i :: 0 <= i < writer ==> now[i] == was[i]
    requires forall i :: writer <= i < writer + |s| ==> now[i] == s[i - writer]
    ensures now[reader..writer + |s|] == was[reader..writer] + s
  {
  }

  // ----- the codec on a buffer -----

  datatype Encoding = Appended | LengthError | NoRoom

  /** A buffer filled to its end, the reserve included, overruns its array on the next append. */
  method PrependThenAppend(b: Byte) returns (buffer: Buffer, r: Room)
    ensures fresh(buffer) && buffer.Valid() && r == Overrun
    ensures buffer.data.Length == 8 && buffer.reader == 0 && buffer.writer == 8
    ensures buffer.Contents() == [b, b, b, b, b, b, b, b] && Overruns(8, buffer.reader, buffer.writer, 1)
  {
    buffer := new Buffer(0);
    var ok := buffer.Prepend([b, b, b, b, b, b, b, b]);
    r := buffer.Append([b]);
  }

  /** Asking for 2^64 - 1 bytes grows the buffer, reports nothing and makes no such room. */
  method WrappedRequest() returns (buffer: Buffer, r: Room)
    ensures fresh(buffer) && buffer.Valid() && r == Made && buffer.Contents() == []
    ensures buffer.data.Length - buffer.writer < TWO64 - 1
  {
    buffer := new Buffer(1024);
    r := buffer.EnsureWritable(TWO64 - 1);
  }

  /** The checks made before a payload is encoded, and the number its length field will hold. */
  method CheckLength(c: Codec, payload: Bytes) returns (ok: bool, encodedLength: nat)
    requires c.Valid() && |payload| + c.width < TWO64
    ensures ok <==> Encodable(c, payload)
    ensures encodedLength == LengthOf(c, payload)
  {
    Powers();
    var frameLength := |payload| + c.width;
    encodedLength := if c.mode.PayloadOnly? then |payload| else frameLength;
    var largest := match c.width
      case 1 => 0xFF
      case 2 => 0xFFFF
      case 4 => 0xFFFF_FFFF
      case _ => TWO64 - 1;
    ok := encodedLength <= largest && frameLength <= c.maxFrame;
  }

  /** There is no room for this many bytes and none can be made. */
  ghost predicate NoRoomFor(b: Buffer, len: nat)
    requires b.Valid()
    reads b
  {
    || len >= LIMIT
    || (b.data.Length - b.writer < len
        && (Overruns(b.data.Length, b.reader, b.writer, len) || Refused(b.data.Length, b.reader, b.writer, len)))
  }

  lemma RoomInFront(size: nat, reader: nat, writer: nat, len: nat)
    requires CHEAP_PREPEND <= reader <= writer <= size
    requires size < LIMIT / 2 && CHEAP_PREPEND + (writer - reader) + len < LIMIT
    ensures !Overruns(size, reader, writer, len) && !Refused(size, reader, writer, len)
  {
  }

  /** Appends one frame, or refuses the payload and leaves the buffer's contents alone. */
  method EncodeTo(c: Codec, payload: Bytes, out: Buffer) returns (r: Encoding)
    requires c.Valid() && out.Valid() && |payload| + c.width < TWO64
    modifies out, out.data
    ensures out.Valid() && (out.data == old(out.data) || fresh(out.data))
    ensures r == LengthError <==> !Encodable(c, payload)
    ensures r == NoRoom <==> Encodable(c, payload) && old(NoRoomFor(out, |payload| + c.width))
    ensures old(out.reader) >= CHEAP_PREPEND && old(out.data.Length) + |payload| < LIMIT / 8 ==> r != NoRoom
    ensures out.Contents() == old(out.Contents()) + (if r == Appended then Encode(c, payload) else [])
  {
    hide Pow256;
    hide Big;
    hide Overruns;
    hide Refused;
    ghost var was := out.Contents();
    assert was + [] == was;
    var ok, encodedLength := CheckLength(c, payload);
    if !ok {
      return LengthError;
    }
    if |payload| + c.width >= LIMIT {
      return NoRoom;
    }
    if out.reader >= CHEAP_PREPEND && out.data.Length + |payload| < LIMIT / 8 {
      RoomInFront(out.data.Length, out.reader, out.writer, |payload| + c.width);
    }
    var room := out.EnsureWritable(|payload| + c.width);
    if room != Made {
      return NoRoom;
    }
    WriteFrame(out, Big(c.width, encodedLength), payload);
    assert was + Big(c.width, encodedLength) + payload == was + Encode(c, payload);
    r := Appended;
  }

  /** Both parts of a frame, where there is room for them. */
  method WriteFrame(out: Buffer, field: Bytes, payload: Bytes)
    requires out.Valid() && out.data.Length - out.writer >= |field| + |payload|
    modifies out, out.data
    ensures out.Valid() && out.data == old(out.data) && out.Contents() == old(out.Contents()) + field + payload
  {
    hide Overruns;
    hide Refused;
    var room := out.Append(field);
    room := out.Append(payload);
  }

  datatype Status = Ok | NeedMoreData | InvalidLength | ExceedMaxFrameLength | OutOfRange

  function StatusOf(d: Decoded): Status {
    match d
    case NeedMore => NeedMoreData
    case BadLength => InvalidLength
    case TooLong => ExceedMaxFrameLength
    case Thrown => OutOfRange
    case Frame(_, _) => Ok
  }

  /** What the bytes at the front amount to, without consuming any. */
  method Examine(c: Codec, buffer: Buffer) returns (status: Status, payloadLength: nat)
    requires c.Valid() && buffer.Valid()
    ensures var d := Decode(c, buffer.Contents());
            && (status == Ok <==> d.Frame? || d.Thrown?)
            && (status != Ok ==> status == StatusOf(d))
            && (status == Ok ==> |buffer.Contents()| >= c.width)
            && (d.Thrown? ==> |buffer.Contents()| < c.width + payloadLength)
            && (d.Frame? ==> && |buffer.Contents()| >= c.width + payloadLength
                             && d.payload == buffer.Contents()[c.width..c.width + payloadLength]
                             && d.rest == buffer.Contents()[c.width + payloadLength..])
  {
    ghost var s := buffer.Contents();
    payloadLength := 0;
    if buffer.writer - buffer.reader < c.width {
      return NeedMoreData, 0;
    }
    var encodedLength := Num(buffer.data[buffer.reader..buffer.reader + c.width]);
    assert s[..c.width] == buffer.data[buffer.reader..buffer.reader + c.width];
    NumBound(s[..c.width]);
    Powers();
    hide Num;
    hide Pow256;
    hide Word64;
    var frameLength;
    if c.mode.PayloadOnly? {
      payloadLength := encodedLength;
      frameLength := Word64(payloadLength + c.width);
    } else {
      frameLength := encodedLength;
      if frameLength < c.width {
        return InvalidLength, 0;
      }
      payloadLength := frameLength - c.width;
    }
    if frameLength > c.maxFrame {
      return ExceedMaxFrameLength, 0;
    }
    if buffer.writer - buffer.reader < frameLength {
      return NeedMoreData, 0;
    }
    status := Ok;
  }

  /** One attempt to take a frame off the front. Nothing is consumed unless a frame is returned, except that a
      wrapped length has eaten its length field when the read throws. */
  method TryDecode(c: Codec, buffer: Buffer) returns (status: Status, payload: Bytes)
    requires c.Valid() && buffer.Valid()
    modifies buffer`reader, buffer`writer
    ensures buffer.Valid() && status == StatusOf(Decode(c, old(buffer.Contents())))
    ensures status == Ok <==> Complete(c, old(buffer.Contents()))
    ensures status == NeedMoreData <==> Incomplete(c, old(buffer.Contents()))
    ensures status == InvalidLength <==> BadField(c, old(buffer.Contents()))
    ensures status == ExceedMaxFrameLength <==> Oversized(c, old(buffer.Contents()))
    ensures status == Ok ==> c.width + |payload| <= c.maxFrame
    ensures status == Ok ==>
              var d := Decode(c, old(buffer.Contents())); payload == d.payload && buffer.Contents() == d.rest
    ensures old(buffer.reader) >= CHEAP_PREPEND ==> buffer.reader >= CHEAP_PREPEND
    ensures status == OutOfRange ==>
              c.width <= |old(buffer.Contents())| && buffer.Contents() == old(buffer.Contents())[c.width..]
    ensures status != Ok && status != OutOfRange ==> buffer.Contents() == old(buffer.Contents())
  {
    hide Decode;
    ghost var s := buffer.Contents();
    DecodeExactly(c, s);
    hide Complete;
    hide Incomplete;
    hide BadField;
    hide Oversized;
    var payloadLength;
    payload := [];
    status, payloadLength := Examine(c, buffer);
    if status != Ok {
      return;
    }
    buffer.Retrieve(c.width);
    assert buffer.Contents() == s[c.width..];
    var ok;
    ok, payload := buffer.RetrieveAsString(payloadLength);
    if !ok {
      return OutOfRange, [];
    }
    SplitFrame(s, c.width, payload, buffer.Contents());
  }

  lemma SplitFrame(s: Bytes, width: nat, payload: Bytes, rest: Bytes)
    requires width <= |s| && s[width..] == payload + rest
    ensures payload == s[width..width + |payload|] && rest == s[width + |payload|..]
  {
    assert s[width..][..|payload|] == payload;
    assert s[width..][|payload|..] == rest;
  }

  /** Takes every complete frame off the front, until more bytes are needed, decoding throws or it stops for good. */
  method HandleCodecMessages(c: Codec, buffer: Buffer) returns (payloads: seq<Bytes>, status: Status)
    requires c.Valid() && buffer.Valid()
    modifies buffer`reader, buffer`writer
    ensures buffer.Valid() && (old(buffer.reader) >= CHEAP_PREPEND ==> buffer.reader >= CHEAP_PREPEND)
    ensures var d := Drain(c, old(buffer.Contents()));
            && payloads == d.payloads && status == StatusOf(d.stop) && status != Ok
            && (status == NeedMoreData || status == OutOfRange ==> buffer.Contents() == d.rest)
  {
    hide Decode;
    ghost var whole := Drain(c, buffer.Contents());
    payloads := [];
    BehindNone(whole);
    while true
      invariant buffer.Valid() && (old(buffer.reader) >= CHEAP_PREPEND ==> buffer.reader >= CHEAP_PREPEND)
      invariant whole == Behind(payloads, Drain(c, buffer.Contents()))
      decreases |buffer.Contents()|
    {
      ghost var s := buffer.Contents();
      var payload;
      status, payload := TryDecode(c, buffer);
      if status != Ok {
        assert payloads + [] == payloads;
        return;
      }
      FrameShortens(c, s);
      BehindBehind(payloads, [payload], Drain(c, buffer.Contents()));
      payloads := payloads + [payload];
    }
  }

  lemma {:induction false} JoinedFront(pieces: seq<Bytes>, i: nat)
    requires i <= |pieces|
    ensures |Join(pieces[..i])| <= |Join(pieces)|
    decreases |pieces|
  {
    if i == |pieces| {
      assert pieces[..i] == pieces;
    } else {
      assert pieces[..|pieces| - 1][..i] == pieces[..i];
      JoinedFront(pieces[..|pieces| - 1], i);
    }
  }

  /** What is left over is no longer than what came in. */
  lemma {:induction false} LeftOver(c: Codec, pieces: seq<Bytes>)
    requires c.Valid()
    ensures |FeedAll(c, pieces).rest| <= |Join(pieces)|
  {
    if pieces != [] {
      hide Drain;
      LeftOver(c, pieces[..|pieces| - 1]);
    }
  }

  /** One piece is appended, and the frames then complete are taken. */
  method ReceivePiece(c: Codec, buffer: Buffer, piece: Bytes)
    returns (complete: bool, payloads: seq<Bytes>, status: Status)
    requires c.Valid() && buffer.Valid() && buffer.reader >= CHEAP_PREPEND
    modifies buffer, buffer.data
    ensures buffer.Valid() && (buffer.data == old(buffer.data) || fresh(buffer.data))
    ensures old(buffer.data.Length) < LIMIT / 2 && CHEAP_PREPEND + |old(buffer.Contents())| + |piece| < LIMIT / 2 ==>
              complete
    ensures || buffer.data.Length <= old(buffer.data.Length)
            || buffer.data.Length <= 2 * (CHEAP_PREPEND + |old(buffer.Contents())| + |piece|)
    ensures complete ==>
              var d := Drain(c, old(buffer.Contents()) + piece);
              && buffer.reader >= CHEAP_PREPEND && payloads == d.payloads && status == StatusOf(d.stop) && status != Ok
              && (status == NeedMoreData ==> buffer.Contents() == d.rest)
  {
    hide Drain;
    if buffer.data.Length < LIMIT / 2 && CHEAP_PREPEND + |buffer.Contents()| + |piece| < LIMIT / 2 {
      RoomInFront(buffer.data.Length, buffer.reader, buffer.writer, |piece|);
    }
    var room := buffer.Append(piece);
    if room != Made {
      return false, [], NeedMoreData;
    }
    payloads, status := HandleCodecMessages(c, buffer);
    complete := true;
  }

  /** A connection that receives the pieces one by one and drains its buffer after each, through every
      compaction and growth of the buffer, until decoding stops. A stream of less than 2^60 bytes never fails to
      find room. */
  method Receive(c: Codec, pieces: seq<Bytes>) returns (complete: bool, payloads: seq<Bytes>, status: Status)
    requires c.Valid()
    ensures |Join(pieces)| < LIMIT / 8 ==> complete
    ensures complete ==> payloads == FeedAll(c, pieces).payloads && status == StatusOf(FeedAll(c, pieces).stop)
    ensures complete ==> payloads == Drain(c, Join(pieces)).payloads
    ensures forall sent :: complete && AllEncodable(c, sent) && Join(pieces) == EncodeAll(c, sent) ==>
              payloads == sent && status == NeedMoreData
  {
    hide Drain;
    hide Overruns;
    hide Refused;
    hide AllEncodable;
    hide EncodeAll;
    var buffer := new Buffer(1024);
    payloads, status, complete := [], NeedMoreData, true;
    var i := 0;
    while i < |pieces| && status == NeedMoreData
      invariant 0 <= i <= |pieces| && buffer.Valid() && fresh(buffer) && fresh(buffer.data)
      invariant buffer.reader >= CHEAP_PREPEND && buffer.data.Length <= 2048 + 2 * |Join(pieces)|
      invariant var d := FeedAll(c, pieces[..i]);
                && payloads == d.payloads && status == StatusOf(d.stop)
                && (status == NeedMoreData ==> buffer.Contents() == d.rest)
      invariant status != Ok
    {
      assert pieces[..i + 1][..i] == pieces[..i];
      JoinedFront(pieces, i);
      JoinedFront(pieces, i + 1);
      LeftOver(c, pieces[..i]);
      var more;
      complete, more, status := ReceivePiece(c, buffer, pieces[i]);
      if !complete {
        return;
      }
      payloads := payloads + more;
      i := i + 1;
    }
    Concluded(c, pieces, i);
  }

  lemma Concluded(c: Codec, pieces: seq<Bytes>, i: nat)
    requires c.Valid() && i <= |pieces| && (i < |pieces| ==> !FeedAll(c, pieces[..i]).stop.NeedMore?)
    ensures FeedAll(c, pieces) == FeedAll(c, pieces[..i])
    ensures FeedAll(c, pieces).payloads == Drain(c, Join(pieces)).payloads
    ensures forall sent :: AllEncodable(c, sent) && Join(pieces) == EncodeAll(c, sent) ==>
              FeedAll(c, pieces) == Drained(sent, [], NeedMore)
  {
    Ignored(c, pieces, i);
    ChunkingIndependent(c, pieces);
    hide FeedAll;
    hide Drain;
    hide AllEncodable;
    forall sent | AllEncodable(c, sent) && Join(pieces) == EncodeAll(c, sent)
      ensures FeedAll(c, pieces) == Drained(sent, [], NeedMore)
    {
      FramingTransparent(c, sent, pieces);
    }
  }

  /** Once decoding has stopped, further pieces change nothing. */
  lemma Ignored(c: Codec, pieces: seq<Bytes>, i: nat)
    requires c.Valid() && i <= |pieces| && (i < |pieces| ==> !FeedAll(c, pieces[..i]).stop.NeedMore?)
    ensures FeedAll(c, pieces) == FeedAll(c, pieces[..i])
    decreases |pieces|
  {
    if i == |pieces| {
      assert pieces[..i] == pieces;
    } else {
      assert pieces[..|pieces| - 1][..i] == pieces[..i];
      Ignored(c, pieces[..|pieces| - 1], i);
    }
  }
}
