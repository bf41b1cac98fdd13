/**
 From fields to fields: messages packed by Pack, sent as one byte stream, cut by the network,
 reassembled by the receiver, and unpacked.
 */
module EndToEnd {
  import opened Common
  import opened Wire
  import opened Packet
  import opened Framing
  import ProtoLink
  import SwitchedOrder
  import ReadLoop
  import Packets

  datatype Message = Message(svid: Int16, uri: Int16, fields: seq<Field>)

  predicate Sendable(m: Message) {
    0 <= m.svid && 0 <= m.uri && AllFit(m.fields) && HEAD + |EncodeAll(m.fields)| <= PACK_SIZE
  }

  predicate AllSendable(ms: seq<Message>) {
    forall i :: 0 <= i < |ms| ==> Sendable(ms[i])
  }

  function Packed(m: Message): seq<Byte>
    requires Sendable(m)
  {
    PacketBytes(m.svid, m.uri, m.fields)
  }

  function Stream(ms: seq<Message>): seq<seq<Byte>>
    requires AllSendable(ms)
  {
    if ms == [] then [] else Stream(ms[..|ms| - 1]) + [Packed(ms[|ms| - 1])]
  }

  /** The receiver reads back the message: its fields, and nothing after them. */
  ghost predicate Understood(m: Message, p: seq<Byte>) {
    && HEAD <= |p|
    && Int16At(p, 4) == m.svid && Int16At(p, 6) == m.uri
    && DecodeAll(Kinds(m.fields), p, Int32At(p, 0), HEAD) == Some(Read(m.fields, |p|))
  }

  /** What Pack builds is what the framing expects, and Unpack undoes it. */
  lemma PackedIsWhole(m: Message)
    requires Sendable(m)
    ensures WholePacket(Packed(m)) && |Packed(m)| >= HEAD && Understood(m, Packed(m))
    ensures IntOf(Big, Packed(m)[4..8]) == m.svid * 0x1_0000 + m.uri
  {
    hide EncodeAll, DecodeAll, Kinds, Bytes16, Bytes32, Int16At, Int32At;
    var p := Packed(m);
    PacketRoundTrip(m.svid, m.uri, m.fields);
    SecondInt(m.svid, m.uri, |p|, EncodeAll(m.fields));
  }

  lemma SecondInt(svid: Int16, uri: Int16, len: Int32, body: seq<Byte>)
    requires 0 <= svid && 0 <= uri
    ensures Int32At((Header(len, svid, uri) + body)[4..8], 0) == svid * 0x1_0000 + uri
  {
    hide Int32At, Bytes32, Bytes16;
    var id := svid * 0x1_0000 + uri;
    Packets.JavaUri(svid, uri);
    assert (Header(len, svid, uri) + body)[4..8] == Bytes32(id);
    Int32RoundTrip(Bytes32(id), 0, id);
  }

  lemma {:induction false} StreamPackets(ms: seq<Message>)
    requires AllSendable(ms)
    ensures |Stream(ms)| == |ms| && WholePackets(Stream(ms))
    ensures forall i :: 0 <= i < |ms| ==> Stream(ms)[i] == Packed(ms[i])
  {
    hide Packed, WholePacket, Sendable;
    if ms != [] {
      StreamPackets(ms[..|ms| - 1]);
      PackedIsWhole(ms[|ms| - 1]);
    }
  }

  lemma {:induction false} BytesAt(fs: seq<Frame>, i: nat)
    requires i < |fs|
    ensures |Bytes(fs)| == |fs| && Bytes(fs)[i] == fs[i].bytes
  {
    if i > 0 {
      BytesAt(fs[1..], i - 1);
    } else if |fs| > 1 {
      BytesAt(fs[1..], 0);
    }
  }

  lemma {:induction false} BytesLength(fs: seq<Frame>)
    ensures |Bytes(fs)| == |fs|
  {
    if fs != [] {
      BytesLength(fs[1..]);
    }
  }

  /** The frames are the messages' packets, except that a last one of at most two body bytes may be missing. */
  lemma FramesAreMessages(ms: seq<Message>, fs: seq<Frame>, i: nat)
    requires AllSendable(ms) && Bytes(fs) == Due(Stream(ms)) && i < |ms|
    requires i == |ms| - 1 ==> |Packed(ms[i])| > 10
    ensures i < |fs| <= |ms| && fs[i].bytes == Packed(ms[i])
  {
    hide Packed, Sendable, WholePacket;
    StreamPackets(ms);
    BytesLength(fs);
    BytesAt(fs, i);
  }

  /** The uri the link hands on is the second int of the packet. */
  lemma UrisAreRead(ps: seq<seq<Byte>>, chunks: seq<seq<Byte>>, i: nat)
    requires WholePackets(ps) && Flat(chunks) == Flat(ps)
    ensures var fs := ProtoLink.Run(Big, ProtoLink.NewLink, chunks).frames;
            i < |fs| && |fs[i].bytes| >= 8 ==> fs[i].uri == IntOf(Big, fs[i].bytes[4..8])
  {
    hide Parse, ProtoLink.Run, WholePackets, IntOf;
    var fs := ProtoLink.Run(Big, ProtoLink.NewLink, chunks).frames;
    ParsePackets(ps);
    SettledNothing(Big);
    assert [] + Flat(chunks) == Flat(ps);
    CutIndependence(Big, [], chunks);
    ProtoLink.RunIsArrive(ProtoLink.NewLink, chunks);
    assert fs == Parse(Big, Flat(ps)).frames;
    if i < |fs| && |fs[i].bytes| >= 8 {
      FrameUris(Big, Flat(ps), i);
    }
  }

  /**
   However the stream of a sequence of messages is cut, the client's link hands on the messages in
   order, each with its own service and uri and decoding to its own fields; only a last message of
   at most two body bytes may still be waiting. This is so if shuffer() keeps big-endian, and for
   the order it does set if it is not called too early.
   */
  lemma ClientUnderstands(shuffled: ByteOrder, ms: seq<Message>, chunks: seq<seq<Byte>>, i: nat)
    requires AllSendable(ms) && Flat(chunks) == Flat(Stream(ms)) && i < |ms|
    requires i == |ms| - 1 ==> |Packed(ms[i])| > 10
    requires shuffled == Big || (TcpChunks(chunks) && !SwitchedOrder.Switches(ProtoLink.NewLink, chunks))
    ensures var fs := ProtoLink.Run(shuffled, ProtoLink.NewLink, chunks).frames;
            && i < |fs| <= |ms|
            && fs[i].uri == ms[i].svid * 0x1_0000 + ms[i].uri
            && Understood(ms[i], fs[i].bytes)
  {
    hide Packed, ProtoLink.Run, WholePackets, WholePacket, Understood, IntOf, Sendable, SwitchedOrder.Switches, Due;
    var ps := Stream(ms);
    StreamPackets(ms);
    SwitchedOrder.PacketsDelivered(shuffled, ps, chunks);
    var fs := ProtoLink.Run(shuffled, ProtoLink.NewLink, chunks).frames;
    FramesAreMessages(ms, fs, i);
    PackedIsWhole(ms[i]);
    UrisAreRead(ps, chunks, i);
  }

  /** The servers' read loop does as well, as long as every message is packed in under 128 bytes. */
  lemma ServerUnderstands(ms: seq<Message>, chunks: seq<seq<Byte>>, i: nat)
    requires AllSendable(ms) && Flat(chunks) == Flat(Stream(ms)) && i < |ms|
    requires ReadLoop.Short(Stream(ms))
    ensures var handled := ReadLoop.DrainAll([], chunks).handled;
            |handled| == |ms| && Understood(ms[i], handled[i])
  {
    hide Packed, WholePacket, Understood, Sendable;
    StreamPackets(ms);
    ReadLoop.ShortPacketsExactly(Stream(ms), chunks);
    PackedIsWhole(ms[i]);
  }

  /** The packet of a login, as Pack and the Android client build it. */
  function Login(uid: Int32, passport: seq<Byte>, password: seq<Byte>): (m: Message)
    requires HEAD + 8 + |passport| + |password| <= PACK_SIZE
    ensures Sendable(m) && |Packed(m)| == HEAD + 8 + |passport| + |password|
  {
    Message(Packets.SVID_LOGIN, Packets.URI_LOGIN_REQ, Packets.LoginFields(uid, passport, password))
  }

  /**
   A real packet that stops a server for good: any login whose passport and password make it 256
   bytes long, such as a passport of 240 letters.
   */
  lemma LoginThatNeverEnds(uid: Int32, passport: seq<Byte>, password: seq<Byte>, t: seq<Byte>)
    requires |passport| + |password| == 240
    ensures var p := Packed(Login(uid, passport, password));
            ReadLoop.DrainAll([], [p + t]) == ReadLoop.Drained([], p + t, ReadLoop.Spins)
  {
    hide Packed, Sendable, ReadLoop.Drain;
    var p := Packed(Login(uid, passport, password));
    PackedIsWhole(Login(uid, passport, password));
    ReadLoop.SpinsAt256(p, t);
    assert [] + (p + t) == p + t;
  }

  /** And one that the client never sees: a twenty-byte packet whose first fifteen bytes come alone. */
  lemma LoginCutAndLost(uid: Int32, passport: seq<Byte>, password: seq<Byte>)
    requires |passport| + |password| == 4
    ensures var p := Packed(Login(uid, passport, password));
            && |p| == 20
            && Bytes(ProtoLink.Run(Little, ProtoLink.NewLink, [p[..15], p[15..]]).frames) != [p]
  {
    hide Packed, Sendable, ProtoLink.Run;
    PackedIsWhole(Login(uid, passport, password));
    SwitchedOrder.SplitExactly(Packed(Login(uid, passport, password)), 15);
  }
}
