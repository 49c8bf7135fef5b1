/** Frames sent through one connection and decoded at the other end of the byte stream. */
module FramedStream {
  import F = Framing
  import T = TcpOutput

  /** Whatever prefix of the encoded payloads has arrived, in whatever pieces, a prefix of the payloads has been
      decoded, and never an error. */
  lemma PrefixDecodes(c: F.Codec, payloads: seq<F.Bytes>, pieces: seq<F.Bytes>)
    requires c.Valid() && F.AllEncodable(c, payloads) && F.Join(pieces) <= F.EncodeAll(c, payloads)
    ensures var d := F.FeedAll(c, pieces); d.payloads <= payloads && d.stop == F.NeedMore
  {
    hide F.Decode;
    hide F.Drain;
    hide F.FeedAll;
    hide F.Join;
    hide F.EncodeAll;
    var got, whole := F.Join(pieces), F.EncodeAll(c, payloads);
    F.DrainEncoded(c, payloads);
    F.DrainMore(c, got, whole[|got|..]);
    assert got + whole[|got|..] == whole;
    F.ChunkingIndependent(c, pieces);
  }

  /** End to end: if the in-loop sends of a run are the frames of some payloads, the kernel delivers some prefix
      of what it took, and the receiver gets it in any pieces, then the receiver has decoded a prefix of those
      payloads; and all of them once everything handed over has arrived and nothing waits. */
  lemma EndToEnd(
    c: F.Codec, payloads: seq<F.Bytes>, limit: nat, es: seq<T.Event>, pieces: seq<F.Bytes>)
    requires c.Valid() && F.AllEncodable(c, payloads) && T.Sent(es) == F.EncodeAll(c, payloads)
    requires var s := T.Run(T.Established(limit, T.CloseConnection), es);
             !s.phase.Disconnected? && F.Join(pieces) <= s.handed
    ensures var d := F.FeedAll(c, pieces);
            var s := T.Run(T.Established(limit, T.CloseConnection), es);
            && d.payloads <= payloads && d.stop == F.NeedMore
            && (F.Join(pieces) == s.handed && !s.writing ==> d.payloads == payloads && d.rest == [])
  {
    var s := T.Run(T.Established(limit, T.CloseConnection), es);
    T.NothingLost(limit, es);
    PrefixDecodes(c, payloads, pieces);
    if F.Join(pieces) == s.handed && !s.writing {
      assert s.handed + [] == s.handed;
      F.FramingTransparent(c, payloads, pieces);
    }
  }
}
