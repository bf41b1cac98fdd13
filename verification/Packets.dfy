/**
 Packets of include/protocol that exercise every kind of field, and the login request as the
 Android client writes it. Each packet names its fields once; its marshall and unmarshall are
 proved to write and read exactly those, so PacketRoundTrip applies to it.
 */
module Packets {
  import opened Common
  import opened Wire
  import opened Packet

  const SVID_LOGIN := 10
  const URI_LOGIN_REQ := 1

  lemma {:induction false} EncodePrefix(fs: seq<Field>, i: nat)
    requires i < |fs| && AllFit(fs)
    ensures EncodeAll(fs[..i + 1]) == EncodeAll(fs[..i]) + Encode(fs[i])
    ensures |EncodeAll(fs[..i + 1])| <= |EncodeAll(fs)|
    decreases |fs| - i
  {
    assert fs[..i + 1][..i] == fs[..i];
    if i + 1 < |fs| {
      EncodePrefix(fs, i + 1);
    } else {
      assert fs[..i + 1] == fs;
    }
  }

  /** Pushing field i after the fields before it extends the encoding by that field. */
  lemma WriteField(b: seq<Byte>, pos: nat, fs: seq<Field>, i: nat)
    requires i < |fs| && AllFit(fs) && pos + |EncodeAll(fs)| <= |b|
    ensures |EncodeAll(fs[..i + 1])| == |EncodeAll(fs[..i])| + |Encode(fs[i])| <= |EncodeAll(fs)|
    ensures Overwrite(Overwrite(b, pos, EncodeAll(fs[..i])), pos + |EncodeAll(fs[..i])|, Encode(fs[i])) ==
            Overwrite(b, pos, EncodeAll(fs[..i + 1]))
    ensures EncodeAll(fs[..0]) == [] && Overwrite(b, pos, []) == b && fs[..|fs|] == fs
  {
    hide Encode;
    EncodePrefix(fs, i);
    OverwriteTwice(b, pos, EncodeAll(fs[..i]), Encode(fs[i]));
  }

  /** Popping field i after the fields before it. */
  lemma {:induction false} ReadField(ks: seq<Kind>, b: seq<Byte>, limit: int, pos: nat, i: nat)
    requires i < |ks| && DecodeAll(ks, b, limit, pos).Some?
    ensures DecodeAll(ks[..0], b, limit, pos) == Some(Read([], pos)) && ks[..|ks|] == ks
    ensures var r := DecodeAll(ks[..i], b, limit, pos);
            && r.Some?
            && var f := Decode(ks[i], b, limit, r.value.next);
            && f.Some?
            && DecodeAll(ks[..i + 1], b, limit, pos) == Some(Read(r.value.value + [f.value.value], f.value.next))
  {
    if i + 1 < |ks| {
      var front := ks[..|ks| - 1];
      ReadField(front, b, limit, pos, i);
      assert front[..i] == ks[..i] && front[..i + 1] == ks[..i + 1];
    } else {
      assert ks[..i + 1] == ks;
    }
  }

  lemma EncodedInt(v: Int32)
    ensures Encode(I32(v)) == Bytes32(v)
  {
  }

  lemma EncodedString(s: seq<Byte>)
    requires Fits(Str(s))
    ensures Encode(Str(s)) == BytesOfString(s) && |Encode(Str(s))| == 2 + |s|
  {
  }

  lemma EncodedInts(xs: seq<Int32>)
    requires Fits(Ints(xs))
    ensures Encode(Ints(xs)) == BytesOfCountedInts(xs)
  {
  }

  lemma EncodedUsers(us: seq<User>)
    requires Fits(Users(us))
    ensures Encode(Users(us)) == BytesOfCountedUsers(us)
  {
  }

  class PLoginReq {
    var uid: Int32
    var passport: seq<Byte>
    var password: seq<Byte>

    constructor ()
      ensures uid == 0 && passport == [] && password == []
    {
      uid, passport, password := 0, [], [];
    }

    function Fields(): seq<Field>
      reads this
    {
      [I32(uid), Str(passport), Str(password)]
    }

    static const KINDS := [KI32, KStr, KStr]

    method Marshall(pk: Pack)
      requires pk.Valid() && AllFit(Fields()) && pk.pos + |EncodeAll(Fields())| <= PACK_SIZE
      modifies pk`pos, pk.buf
      ensures pk.Valid() && pk.pos == old(pk.pos) + |EncodeAll(Fields())|
      ensures pk.buf[..] == Overwrite(old(pk.buf[..]), old(pk.pos), EncodeAll(Fields()))
    {
      hide Encode, EncodeAll, Overwrite, BytesOfString, BytesOfCountedUsers;
      ghost var b, at, fs := pk.buf[..], pk.pos, Fields();
      WriteField(b, at, fs, 0);
      EncodedInt(uid);
      pk.PushInt32(uid);
      assert pk.buf[..] == Overwrite(b, at, EncodeAll(fs[..1]));
      WriteField(b, at, fs, 1);
      EncodedString(passport);
      pk.PushString(passport);
      assert pk.buf[..] == Overwrite(b, at, EncodeAll(fs[..2]));
      WriteField(b, at, fs, 2);
      EncodedString(password);
      pk.PushString(password);
    }

    method Unmarshall(up: Unpack)
      requires DecodeAll(KINDS, up.buf, up.len, up.pos).Some?
      modifies this, up`pos
      ensures DecodeAll(KINDS, up.buf, up.len, old(up.pos)) == Some(Read(Fields(), up.pos))
    {
      ghost var at, got := up.pos, [];
      ReadField(KINDS, up.buf, up.len, at, 0);
      uid := up.PopInt32();
      got := got + [I32(uid)];
      assert DecodeAll(KINDS[..1], up.buf, up.len, at) == Some(Read(got, up.pos));
      ReadField(KINDS, up.buf, up.len, at, 1);
      passport := up.PopString();
      got := got + [Str(passport)];
      assert DecodeAll(KINDS[..2], up.buf, up.len, at) == Some(Read(got, up.pos));
      ReadField(KINDS, up.buf, up.len, at, 2);
      password := up.PopString();
      got := got + [Str(password)];
      assert DecodeAll(KINDS[..3], up.buf, up.len, at) == Some(Read(got, up.pos));
      assert got == Fields();
    }
  }

  class PSyncUidsReq {
    var adds: seq<Int32>
    var removes: seq<Int32>

    constructor ()
      ensures adds == [] && removes == []
    {
      adds, removes := [], [];
    }

    function Fields(): seq<Field>
      reads this
    {
      [Ints(adds), Ints(removes)]
    }

    static const KINDS := [KInts, KInts]

    method Marshall(pk: Pack)
      requires pk.Valid() && AllFit(Fields()) && pk.pos + |EncodeAll(Fields())| <= PACK_SIZE
      modifies pk`pos, pk.buf
      ensures pk.Valid() && pk.pos == old(pk.pos) + |EncodeAll(Fields())|
      ensures pk.buf[..] == Overwrite(old(pk.buf[..]), old(pk.pos), EncodeAll(Fields()))
    {
      hide Encode, EncodeAll, Overwrite, BytesOfString, BytesOfCountedUsers;
      ghost var b, at, fs := pk.buf[..], pk.pos, Fields();
      WriteField(b, at, fs, 0);
      EncodedInts(adds);
      pk.PushInts(adds);
      assert pk.buf[..] == Overwrite(b, at, EncodeAll(fs[..1]));
      WriteField(b, at, fs, 1);
      EncodedInts(removes);
      pk.PushInts(removes);
    }

    /** The vectors are appended to, not cleared: a fresh packet is needed for each message. */
    method Unmarshall(up: Unpack)
      requires DecodeAll(KINDS, up.buf, up.len, up.pos).Some?
      modifies this, up`pos
      ensures exists a, r ::
                && DecodeAll(KINDS, up.buf, up.len, old(up.pos)) == Some(Read([Ints(a), Ints(r)], up.pos))
                && adds == old(adds) + a && removes == old(removes) + r
    {
      ghost var at, got := up.pos, [];
      ReadField(KINDS, up.buf, up.len, at, 0);
      var a := up.PopInts();
      adds := adds + a;
      got := got + [Ints(a)];
      assert DecodeAll(KINDS[..1], up.buf, up.len, at) == Some(Read(got, up.pos));
      ReadField(KINDS, up.buf, up.len, at, 1);
      var r := up.PopInts();
      removes := removes + r;
      got := got + [Ints(r)];
      assert DecodeAll(KINDS[..2], up.buf, up.len, at) == Some(Read(got, up.pos));
      assert got == [Ints(a), Ints(r)];
    }
  }

  class PMPJoinRes {
    var res: Int32
    var sid: Int32
    var uid: Int32
    var onlineUsers: seq<User>

    constructor ()
      ensures res == 0 && sid == 0 && uid == 0 && onlineUsers == []
    {
      res, sid, uid, onlineUsers := 0, 0, 0, [];
    }

    function Fields(): seq<Field>
      reads this
    {
      [I32(res), I32(sid), I32(uid), Users(onlineUsers)]
    }

    static const KINDS := [KI32, KI32, KI32, KUsers]

    method Marshall(pk: Pack)
      requires pk.Valid() && AllFit(Fields()) && pk.pos + |EncodeAll(Fields())| <= PACK_SIZE
      modifies pk`pos, pk.buf
      ensures pk.Valid() && pk.pos == old(pk.pos) + |EncodeAll(Fields())|
      ensures pk.buf[..] == Overwrite(old(pk.buf[..]), old(pk.pos), EncodeAll(Fields()))
    {
      hide Encode, EncodeAll, Overwrite, BytesOfString, BytesOfCountedUsers;
      ghost var b, at, fs := pk.buf[..], pk.pos, Fields();
      WriteField(b, at, fs, 0);
      EncodedInt(res);
      pk.PushInt32(res);
      assert pk.buf[..] == Overwrite(b, at, EncodeAll(fs[..1]));
      WriteField(b, at, fs, 1);
      EncodedInt(sid);
      pk.PushInt32(sid);
      assert pk.buf[..] == Overwrite(b, at, EncodeAll(fs[..2]));
      WriteField(b, at, fs, 2);
      EncodedInt(uid);
      pk.PushInt32(uid);
      assert pk.buf[..] == Overwrite(b, at, EncodeAll(fs[..3]));
      WriteField(b, at, fs, 3);
      EncodedUsers(onlineUsers);
      pk.PushUsers(onlineUsers);
    }

    /** The vector of users is appended to. */
    method Unmarshall(up: Unpack)
      requires DecodeAll(KINDS, up.buf, up.len, up.pos).Some?
      modifies this, up`pos
      ensures exists us ::
                && DecodeAll(KINDS, up.buf, up.len, old(up.pos)) ==
                   Some(Read([I32(res), I32(sid), I32(uid), Users(us)], up.pos))
                && onlineUsers == old(onlineUsers) + us
    {
      ghost var at, got := up.pos, [];
      ReadField(KINDS, up.buf, up.len, at, 0);
      res := up.PopInt32();
      got := got + [I32(res)];
      assert DecodeAll(KINDS[..1], up.buf, up.len, at) == Some(Read(got, up.pos));
      ReadField(KINDS, up.buf, up.len, at, 1);
      sid := up.PopInt32();
      got := got + [I32(sid)];
      assert DecodeAll(KINDS[..2], up.buf, up.len, at) == Some(Read(got, up.pos));
      ReadField(KINDS, up.buf, up.len, at, 2);
      uid := up.PopInt32();
      got := got + [I32(uid)];
      assert DecodeAll(KINDS[..3], up.buf, up.len, at) == Some(Read(got, up.pos));
      ReadField(KINDS, up.buf, up.len, at, 3);
      var us := up.PopUsers();
      onlineUsers := onlineUsers + us;
      got := got + [Users(us)];
      assert DecodeAll(KINDS[..4], up.buf, up.len, at) == Some(Read(got, up.pos));
      assert got == [I32(res), I32(sid), I32(uid), Users(us)];
    }
  }

  // ---------------------------------------------------------------- from sender to receiver

  /** Packs what has been marshalled, hands the bytes to a receiver, and reads the head. */
  method Deliver(pk: Pack, ghost b: seq<Byte>, ghost fs: seq<Field>) returns (up: Unpack)
    requires pk.Valid() && AllFit(fs) && HEAD + |EncodeAll(fs)| == pk.pos
    requires |b| == PACK_SIZE && pk.buf[..] == Overwrite(b, HEAD, EncodeAll(fs))
    modifies pk, pk.buf
    ensures fresh(up) && up.svid == pk.svid == old(pk.svid) && up.uri == pk.uri == old(pk.uri)
    ensures up.len == |up.buf| && up.buf == PacketBytes(pk.svid, pk.uri, fs)
    ensures DecodeAll(Kinds(fs), up.buf, up.len, up.pos) == Some(Read(fs, up.len))
  {
    hide EncodeAll, DecodeAll, Kinds, Overwrite, Int32At, Int16At;
    OverwriteBody(b, HEAD, EncodeAll(fs));
    assert pk.buf[HEAD..pk.pos] == pk.buf[..][HEAD..pk.pos];
    pk.Finish();
    PacketRoundTrip(pk.svid, pk.uri, fs);
    up := new Unpack(pk.buf[..pk.len]);
    up.PopHead();
  }

  lemma KindsOfTwo(a: Field, b: Field)
    ensures Kinds([a, b]) == [KindOf(a), KindOf(b)]
  {
    KindsStep([a, b]);
    KindsStep([a]);
    assert [a, b][..1] == [a] && [a][..0] == [];
    assert Kinds([a, b]) == Kinds([a]) + [KindOf(b)] && Kinds([a]) == Kinds([]) + [KindOf(a)];
  }

  lemma KindsOfThree(a: Field, b: Field, c: Field)
    ensures Kinds([a, b, c]) == [KindOf(a), KindOf(b), KindOf(c)]
  {
    KindsOfTwo(a, b);
    assert [a, b, c][..2] == [a, b];
  }

  lemma KindsOfFour(a: Field, b: Field, c: Field, d: Field)
    ensures Kinds([a, b, c, d]) == [KindOf(a), KindOf(b), KindOf(c), KindOf(d)]
  {
    KindsOfThree(a, b, c);
    assert [a, b, c, d][..3] == [a, b, c];
  }

  /** A login sent is the login received. */
  method LoginReceived(req: PLoginReq) returns (got: PLoginReq)
    requires AllFit(req.Fields()) && HEAD + |EncodeAll(req.Fields())| <= PACK_SIZE
    ensures fresh(got) && got.uid == req.uid && got.passport == req.passport && got.password == req.password
  {
    hide EncodeAll, DecodeAll, Kinds, Overwrite, AllFit;
    var pk := new Pack(SVID_LOGIN, URI_LOGIN_REQ);
    ghost var b := pk.buf[..];
    req.Marshall(pk);
    var up := Deliver(pk, b, req.Fields());
    KindsOfThree(I32(req.uid), Str(req.passport), Str(req.password));
    got := new PLoginReq();
    got.Unmarshall(up);
    assert got.Fields() == req.Fields();
    assert got.Fields()[0] == req.Fields()[0] && got.Fields()[1] == req.Fields()[1] && got.Fields()[2] == req.Fields()[2];
  }

  /** The ids added and the ids removed arrive as such. */
  method SyncUidsReceived(req: PSyncUidsReq, svid: Int16, uri: Int16) returns (got: PSyncUidsReq)
    requires AllFit(req.Fields()) && HEAD + |EncodeAll(req.Fields())| <= PACK_SIZE
    ensures fresh(got) && got.adds == req.adds && got.removes == req.removes
  {
    hide EncodeAll, DecodeAll, Kinds, Overwrite, AllFit;
    var pk := new Pack(svid, uri);
    ghost var b := pk.buf[..];
    req.Marshall(pk);
    var up := Deliver(pk, b, req.Fields());
    KindsOfTwo(Ints(req.adds), Ints(req.removes));
    got := new PSyncUidsReq();
    ghost var fs := req.Fields();
    ghost var at := up.pos;
    got.Unmarshall(up);
    assert fs[0] == Ints(req.adds) && fs[1] == Ints(req.removes);
    ghost var a, r :| DecodeAll(PSyncUidsReq.KINDS, up.buf, up.len, at) == Some(Read([Ints(a), Ints(r)], up.pos))
                      && got.adds == [] + a && got.removes == [] + r;
    assert [Ints(a), Ints(r)][0] == fs[0] && [Ints(a), Ints(r)][1] == fs[1];
  }

  /** The result, the session, the user and every user online arrive as sent. */
  method JoinReceived(req: PMPJoinRes, svid: Int16, uri: Int16) returns (got: PMPJoinRes)
    requires AllFit(req.Fields()) && HEAD + |EncodeAll(req.Fields())| <= PACK_SIZE
    ensures fresh(got) && got.res == req.res && got.sid == req.sid && got.uid == req.uid && got.onlineUsers == req.onlineUsers
  {
    hide EncodeAll, DecodeAll, Kinds, Overwrite, AllFit;
    var pk := new Pack(svid, uri);
    ghost var b := pk.buf[..];
    req.Marshall(pk);
    var up := Deliver(pk, b, req.Fields());
    KindsOfFour(I32(req.res), I32(req.sid), I32(req.uid), Users(req.onlineUsers));
    got := new PMPJoinRes();
    ghost var fs := req.Fields();
    ghost var at := up.pos;
    got.Unmarshall(up);
    ghost var us :| DecodeAll(PMPJoinRes.KINDS, up.buf, up.len, at) ==
                    Some(Read([I32(got.res), I32(got.sid), I32(got.uid), Users(us)], up.pos))
                    && got.onlineUsers == [] + us;
    ghost var gs := [I32(got.res), I32(got.sid), I32(got.uid), Users(us)];
    assert gs[0] == fs[0] && gs[1] == fs[1] && gs[2] == fs[2] && gs[3] == fs[3];
  }

  // ---------------------------------------------------------------- the Java client

  const PROTO_PACKET_SIZE := 8 * 1024

  /** A Java String of ASCII characters, or null. */
  type JavaString = s: Option<seq<Byte>> | s.Some? ==> forall i :: 0 <= i < |s.value| ==> s.value[i] < 128
    witness None

  /** The C++ string a Java string stands for: null is sent as the empty string. */
  function Native(s: JavaString): seq<Byte> {
    if s.None? then [] else s.value
  }

  class ProtoPacket {
    const buffer: array<Byte>
    var position: nat
    var len: int
    var uri: Int32

    ghost predicate Valid()
      reads this
    {
      buffer.Length == PROTO_PACKET_SIZE && position <= PROTO_PACKET_SIZE
    }

    constructor ()
      ensures Valid() && fresh(buffer) && position == HEAD
    {
      buffer := new Byte[PROTO_PACKET_SIZE];
      position, len, uri := HEAD, 0, 0;
    }

    /** ByteBuffer.putInt at an index, which leaves the position alone. */
    method PutInt(index: nat, val: Int32)
      requires Valid() && index + 4 <= PROTO_PACKET_SIZE
      modifies buffer
      ensures buffer[..] == Overwrite(old(buffer[..]), index, Bytes32(val))
    {
      var s := Bytes32(val);
      forall i | 0 <= i < 4 {
        buffer[index + i] := s[i];
      }
    }

    method PushInt(val: Int32)
      requires Valid() && position + 4 <= PROTO_PACKET_SIZE
      modifies this`position, buffer
      ensures Valid() && position == old(position) + 4
      ensures buffer[..] == Overwrite(old(buffer[..]), old(position), Bytes32(val))
    {
      PutInt(position, val);
      position := position + 4;
    }

    method PutShort(val: Int16)
      requires Valid() && position + 2 <= PROTO_PACKET_SIZE
      modifies this`position, buffer
      ensures Valid() && position == old(position) + 2
      ensures buffer[..] == Overwrite(old(buffer[..]), old(position), Bytes16(val))
    {
      var s := Bytes16(val);
      buffer[position] := s[0];
      buffer[position + 1] := s[1];
      position := position + 2;
    }

    method PushString16(val: JavaString)
      requires Valid() && position + 2 + |Native(val)| <= PROTO_PACKET_SIZE
      modifies this`position, buffer
      ensures Valid() && position == old(position) + 2 + |Native(val)|
      ensures buffer[..] == Overwrite(old(buffer[..]), old(position), BytesOfString(Native(val)))
    {
      if val.None? {
        PutShort(0);
        assert BytesOfString([]) == Bytes16(0);
        return;
      }
      PutShort(|val.value|);
      ghost var mid := buffer[..];
      if |val.value| > 0 {
        forall i | 0 <= i < |val.value| {
          buffer[position + i] := val.value[i];
        }
        position := position + |val.value|;
      }
      assert buffer[..] == Overwrite(mid, old(position) + 2, val.value);
      OverwriteTwice(old(buffer[..]), old(position), Bytes16(|val.value|), val.value);
    }

    method Marshall() returns (data: seq<Byte>)
      requires Valid() && HEAD <= position
      modifies this`len, this`position, buffer
      ensures data == Bytes32(old(position)) + Bytes32(uri) + old(buffer[HEAD..position])
    {
      len := position;
      ghost var before := buffer[..];
      PutInt(0, len);
      PutInt(4, uri);
      OverwriteJavaHeader(before, len, uri);
      data := buffer[..len];
      position := len;
    }
  }

  lemma OverwriteJavaHeader(b: seq<Byte>, len: Int32, uri: Int32)
    requires HEAD <= len <= |b|
    ensures Overwrite(Overwrite(b, 0, Bytes32(len)), 4, Bytes32(uri))[..len] == Bytes32(len) + Bytes32(uri) + b[HEAD..len]
  {
    OverwriteTwice(b, 0, Bytes32(len), Bytes32(uri));
  }

  /** The client's uri is the service in the high half and the uri in the low half. */
  lemma JavaUri(svid: Int16, uri: Int16)
    requires 0 <= svid && 0 <= uri
    ensures Bytes32(svid * 0x1_0000 + uri) == Bytes16(svid) + Bytes16(uri)
  {
    var n := svid * 0x1_0000 + uri;
    BigEndianOfFour(n);
    BigEndianOfTwo(svid);
    BigEndianOfTwo(uri);
    assert n / 256 / 256 == svid && n / 256 % 256 == uri / 256 % 256 && n % 256 == uri % 256;
  }

  function LoginFields(uid: Int32, passport: seq<Byte>, password: seq<Byte>): (fs: seq<Field>)
    requires HEAD + 8 + |passport| + |password| <= PACK_SIZE
    ensures AllFit(fs) && |EncodeAll(fs)| == 8 + |passport| + |password|
  {
    var fs := [I32(uid), Str(passport), Str(password)];
    EncodePrefix(fs, 2);
    EncodePrefix(fs, 1);
    EncodePrefix(fs, 0);
    assert fs[..3] == fs;
    fs
  }

  lemma SamePacket(uid: Int32, passport: seq<Byte>, password: seq<Byte>, data: seq<Byte>)
    requires HEAD + 8 + |passport| + |password| <= PACK_SIZE
    requires var body := EncodeAll(LoginFields(uid, passport, password));
             data == Bytes32(HEAD + |body|) + Bytes32(SVID_LOGIN * 0x1_0000 + URI_LOGIN_REQ) + body
    ensures data == PacketBytes(SVID_LOGIN, URI_LOGIN_REQ, LoginFields(uid, passport, password))
  {
    JavaUri(SVID_LOGIN, URI_LOGIN_REQ);
  }

  /**
   PLoginReq.marshall of the Android client writes, byte for byte, the packet a C++ Pack with
   service 10 and uri 1 holds for the same login (CppLogin), so the server reads the same fields.
   */
  method JavaLogin(uid: Int32, passport: JavaString, password: JavaString) returns (data: seq<Byte>)
    requires HEAD + 8 + |Native(passport)| + |Native(password)| <= PACK_SIZE
    ensures data == PacketBytes(SVID_LOGIN, URI_LOGIN_REQ, LoginFields(uid, Native(passport), Native(password)))
  {
    hide Encode, EncodeAll, Overwrite, BytesOfString;
    var packet := new ProtoPacket();
    packet.uri := SVID_LOGIN * 0x1_0000 + URI_LOGIN_REQ;
    ghost var b, fs := packet.buffer[..], LoginFields(uid, Native(passport), Native(password));
    WriteField(b, HEAD, fs, 0);
    EncodedInt(uid);
    packet.PushInt(uid);
    assert packet.buffer[..] == Overwrite(b, HEAD, EncodeAll(fs[..1]));
    WriteField(b, HEAD, fs, 1);
    EncodedString(Native(passport));
    packet.PushString16(passport);
    assert packet.buffer[..] == Overwrite(b, HEAD, EncodeAll(fs[..2]));
    WriteField(b, HEAD, fs, 2);
    EncodedString(Native(password));
    packet.PushString16(password);
    OverwriteBody(b, HEAD, EncodeAll(fs));
    assert packet.buffer[HEAD..packet.position] == packet.buffer[..][HEAD..packet.position];
    data := packet.Marshall();
    SamePacket(uid, Native(passport), Native(password), data);
  }

  /** The same login as a C++ sender packs it: a Pack with service 10 and uri 1, marshalled into and finished. */
  method CppLogin(req: PLoginReq) returns (pk: Pack)
    requires HEAD + 8 + |req.passport| + |req.password| <= PACK_SIZE
    ensures fresh(pk) && fresh(pk.buf) && pk.Valid() && HEAD <= pk.len <= PACK_SIZE
    ensures pk.buf[..pk.len] == PacketBytes(SVID_LOGIN, URI_LOGIN_REQ, LoginFields(req.uid, req.passport, req.password))
  {
    hide Encode, EncodeAll, Overwrite, BytesOfString;
    pk := new Pack(SVID_LOGIN, URI_LOGIN_REQ);
    ghost var b, fs := pk.buf[..], LoginFields(req.uid, req.passport, req.password);
    req.Marshall(pk);
    OverwriteBody(b, HEAD, EncodeAll(fs));
    assert pk.buf[HEAD..pk.pos] == pk.buf[..][HEAD..pk.pos];
    pk.Finish();
  }

  /** So the server's Unpack finds the login's own fields, and nothing after them. */
  lemma JavaLoginUnderstood(uid: Int32, passport: seq<Byte>, password: seq<Byte>)
    requires HEAD + 8 + |passport| + |password| <= PACK_SIZE
    ensures var fs := LoginFields(uid, passport, password);
            var p := PacketBytes(SVID_LOGIN, URI_LOGIN_REQ, fs);
            DecodeAll(PLoginReq.KINDS, p, Int32At(p, 0), HEAD) == Some(Read(fs, |p|))
  {
    hide Encode, EncodeAll, Decode, DecodeAll;
    var fs := LoginFields(uid, passport, password);
    PacketRoundTrip(SVID_LOGIN, URI_LOGIN_REQ, fs);
    KindsStep(fs);
    KindsStep(fs[..2]);
    KindsStep(fs[..1]);
    assert fs[..2][..1] == fs[..1];
    assert Kinds(fs) == PLoginReq.KINDS;
  }

  /** An Android login read by the server: the three fields it was made of. */
  method JavaLoginReceived(uid: Int32, passport: JavaString, password: JavaString) returns (got: PLoginReq)
    requires HEAD + 8 + |Native(passport)| + |Native(password)| <= PACK_SIZE
    ensures fresh(got) && got.uid == uid && got.passport == Native(passport) && got.password == Native(password)
  {
    hide EncodeAll, DecodeAll, Kinds, Int32At, Int16At;
    var data := JavaLogin(uid, passport, password);
    ghost var fs := LoginFields(uid, Native(passport), Native(password));
    PacketRoundTrip(SVID_LOGIN, URI_LOGIN_REQ, fs);
    JavaLoginUnderstood(uid, Native(passport), Native(password));
    var up := new Unpack(data);
    up.PopHead();
    got := new PLoginReq();
    got.Unmarshall(up);
    assert got.Fields() == fs;
    assert got.Fields()[0] == fs[0] && got.Fields()[1] == fs[1] && got.Fields()[2] == fs[2];
    LoginFieldsAre(uid, Native(passport), Native(password));
  }

  lemma LoginFieldsAre(uid: Int32, passport: seq<Byte>, password: seq<Byte>)
    requires HEAD + 8 + |passport| + |password| <= PACK_SIZE
    ensures var fs := LoginFields(uid, passport, password);
            |fs| == 3 && fs[0] == I32(uid) && fs[1] == Str(passport) && fs[2] == Str(password)
  {
  }
}
