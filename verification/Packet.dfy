/**
 Pack and Unpack of include/core/packet.h: an 8096-byte buffer written and read through a cursor,
 and the packets that drive it. Also the Java encoder of the Android client.
 */
module Packet {
  import opened Common
  import opened Wire

  /** b with the bytes from pos on replaced by s. */
  function Overwrite(b: seq<Byte>, pos: nat, s: seq<Byte>): (r: seq<Byte>)
    requires pos + |s| <= |b|
    ensures |r| == |b|
  {
    b[..pos] + s + b[pos + |s|..]
  }

  /** Writing s and then t is writing s + t. */
  lemma OverwriteTwice(b: seq<Byte>, pos: nat, s: seq<Byte>, t: seq<Byte>)
    requires pos + |s| + |t| <= |b|
    ensures Overwrite(Overwrite(b, pos, s), pos + |s|, t) == Overwrite(b, pos, s + t)
  {
    var c := Overwrite(b, pos, s);
    assert c[..pos + |s|] == b[..pos] + s;
    assert c[pos + |s| + |t|..] == b[pos + |s| + |t|..];
  }

  lemma OverwriteBody(b: seq<Byte>, pos: nat, s: seq<Byte>)
    requires pos + |s| <= |b|
    ensures Overwrite(b, pos, s)[pos..pos + |s|] == s
  {
  }

  /** One more record after a count and the records before it. */
  lemma OverwriteNext(b: seq<Byte>, pos: nat, count: seq<Byte>, done: seq<Byte>, next: seq<Byte>)
    requires pos + |count| + |done| + |next| <= |b|
    ensures Overwrite(Overwrite(b, pos, count + done), pos + |count| + |done|, next) ==
            Overwrite(b, pos, count + (done + next))
  {
    OverwriteTwice(b, pos, count + done, next);
    assert count + (done + next) == (count + done) + next;
  }

  lemma OverwriteHeader(b: seq<Byte>, len: Int32, svid: Int16, uri: Int16)
    requires HEAD <= len <= |b|
    ensures Overwrite(Overwrite(Overwrite(b, 0, Bytes32(len)), 4, Bytes16(svid)), 6, Bytes16(uri))[..len] ==
            Header(len, svid, uri) + b[HEAD..len]
  {
    OverwriteTwice(b, 0, Bytes32(len), Bytes16(svid));
    OverwriteTwice(b, 0, Bytes32(len) + Bytes16(svid), Bytes16(uri));
    assert Bytes32(len) + Bytes16(svid) + Bytes16(uri) == Header(len, svid, uri);
  }

  lemma BigEndianOfFour(n: nat)
    ensures BigEndian(n, 4) == [(n / 256 / 256 / 256 % 256) as Byte, (n / 256 / 256 % 256) as Byte,
                                (n / 256 % 256) as Byte, (n % 256) as Byte]
  {
    assert BigEndian(n / 256 / 256, 2) == BigEndian(n / 256 / 256 / 256, 1) + [(n / 256 / 256 % 256) as Byte];
  }

  lemma BigEndianOfTwo(n: nat)
    ensures BigEndian(n, 2) == [(n / 256 % 256) as Byte, (n % 256) as Byte]
  {
  }

  // ---------------------------------------------------------------- whole packets

  /** The 8-byte header: total length, service id, uri. */
  function Header(len: Int32, svid: Int16, uri: Int16): (s: seq<Byte>)
    ensures |s| == HEAD
  {
    Bytes32(len) + (Bytes16(svid) + Bytes16(uri))
  }

  function PacketBytes(svid: Int16, uri: Int16, fs: seq<Field>): (s: seq<Byte>)
    requires AllFit(fs) && HEAD + |EncodeAll(fs)| <= PACK_SIZE
    ensures |s| == HEAD + |EncodeAll(fs)|
  {
    Header(HEAD + |EncodeAll(fs)|, svid, uri) + EncodeAll(fs)
  }

  /**
   What Unpack finds in a packet that Pack built: its own length in the first four bytes, then
   the service and uri, then every field, with nothing left over.
   */
  lemma PacketRoundTrip(svid: Int16, uri: Int16, fs: seq<Field>)
    requires AllFit(fs) && HEAD + |EncodeAll(fs)| <= PACK_SIZE
    ensures var p := PacketBytes(svid, uri, fs);
            && Int32At(p, 0) == |p|
            && Int16At(p, 4) == svid && Int16At(p, 6) == uri
            && DecodeAll(Kinds(fs), p, Int32At(p, 0), HEAD) == Some(Read(fs, |p|))
  {
    var p, body := PacketBytes(svid, uri, fs), EncodeAll(fs);
    var ids := Bytes16(svid) + Bytes16(uri);
    assert Holds(p, 0, p);
    HoldsSplit(p, 0, Header(|p|, svid, uri), body);
    HoldsSplit(p, 0, Bytes32(|p|), ids);
    HoldsSplit(p, 4, Bytes16(svid), Bytes16(uri));
    Int32RoundTrip(p, 0, |p|);
    Int16RoundTrip(p, 4, svid);
    Int16RoundTrip(p, 6, uri);
    RoundTrip(fs, p, |p|, HEAD);
  }

  // ---------------------------------------------------------------- writer

  class Pack {
    const buf: array<Byte>
    var len: int
    var pos: nat
    var svid: Int16
    var uri: Int16

    ghost predicate Valid()
      reads this
    {
      buf.Length == PACK_SIZE && pos <= PACK_SIZE
    }

    constructor (svid: Int16, uri: Int16)
      ensures Valid() && fresh(buf) && pos == HEAD && this.svid == svid && this.uri == uri
    {
      buf := new Byte[PACK_SIZE];
      len, pos := 0, HEAD;
      this.svid, this.uri := svid, uri;
    }

    method Reset()
      modifies this`len, this`pos
      ensures len == 0 && pos == HEAD
    {
      len, pos := 0, HEAD;
    }

    method PushInt32(val: Int32)
      requires Valid() && pos + 4 <= PACK_SIZE
      modifies this`pos, buf
      ensures Valid() && pos == old(pos) + 4
      ensures buf[..] == Overwrite(old(buf[..]), old(pos), Bytes32(val))
    {
      var n := Unsigned(val);
      BigEndianOfFour(n);
      buf[pos], pos := (n / 256 / 256 / 256 % 256) as Byte, pos + 1;
      buf[pos], pos := (n / 256 / 256 % 256) as Byte, pos + 1;
      buf[pos], pos := (n / 256 % 256) as Byte, pos + 1;
      buf[pos], pos := (n % 256) as Byte, pos + 1;
    }

    method PushInt16(val: Int16)
      requires Valid() && pos + 2 <= PACK_SIZE
      modifies this`pos, buf
      ensures Valid() && pos == old(pos) + 2
      ensures buf[..] == Overwrite(old(buf[..]), old(pos), Bytes16(val))
    {
      var n := if val < 0 then val + 0x1_0000 else val;
      BigEndianOfTwo(n);
      buf[pos], pos := (n / 256 % 256) as Byte, pos + 1;
      buf[pos], pos := (n % 256) as Byte, pos + 1;
    }

    method PushInt8(val: Byte)
      requires Valid() && pos + 1 <= PACK_SIZE
      modifies this`pos, buf
      ensures Valid() && pos == old(pos) + 1
      ensures buf[..] == Overwrite(old(buf[..]), old(pos), [val])
    {
      buf[pos], pos := val, pos + 1;
    }

    method PushString(val: seq<Byte>)
      requires Valid() && pos + 2 + |val| <= PACK_SIZE
      modifies this`pos, buf
      ensures Valid() && pos == old(pos) + 2 + |val|
      ensures buf[..] == Overwrite(old(buf[..]), old(pos), BytesOfString(val))
    {
      PushInt16(|val|);
      ghost var mid := buf[..];
      if |val| > 0 {
        forall i | 0 <= i < |val| {
          buf[pos + i] := val[i];
        }
        pos := pos + |val|;
      }
      assert buf[..] == Overwrite(mid, old(pos) + 2, val);
      OverwriteTwice(old(buf[..]), old(pos), Bytes16(|val|), val);
    }

    /** The counted list of ints of PSyncUidsReq and Packet::marshallList. */
    method PushInts(xs: seq<Int32>)
      requires Valid() && |xs| <= MAX_COUNT && pos + |BytesOfCountedInts(xs)| <= PACK_SIZE
      modifies this`pos, buf
      ensures Valid() && pos == old(pos) + |BytesOfCountedInts(xs)|
      ensures buf[..] == Overwrite(old(buf[..]), old(pos), BytesOfCountedInts(xs))
    {
      PushInt16(|xs|);
      ghost var count := Bytes16(|xs|);
      for i := 0 to |xs|
        invariant Valid() && pos == old(pos) + 2 + |BytesOfInts(xs[..i])|
        invariant buf[..] == Overwrite(old(buf[..]), old(pos), count + BytesOfInts(xs[..i]))
      {
        IntsPrefix(xs, i);
        PushInt32(xs[i]);
        OverwriteNext(old(buf[..]), old(pos), count, BytesOfInts(xs[..i]), Bytes32(xs[i]));
      }
      assert xs[..|xs|] == xs;
    }

    /** UserMiniInfo::marshallList */
    method PushUsers(us: seq<User>)
      requires Valid() && Fits(Users(us)) && pos + |BytesOfCountedUsers(us)| <= PACK_SIZE
      modifies this`pos, buf
      ensures Valid() && pos == old(pos) + |BytesOfCountedUsers(us)|
      ensures buf[..] == Overwrite(old(buf[..]), old(pos), BytesOfCountedUsers(us))
    {
      hide BytesOfUser;
      PushInt16(|us|);
      ghost var count := Bytes16(|us|);
      for i := 0 to |us|
        invariant Valid() && pos == old(pos) + 2 + |BytesOfUsers(us[..i])|
        invariant buf[..] == Overwrite(old(buf[..]), old(pos), count + BytesOfUsers(us[..i]))
      {
        UsersPrefix(us, i);
        PushUser(us[i]);
        OverwriteNext(old(buf[..]), old(pos), count, BytesOfUsers(us[..i]), BytesOfUser(us[i]));
      }
      assert us[..|us|] == us;
    }

    /** UserMiniInfo::marshall */
    method PushUser(u: User)
      requires Valid() && |u.nickname| <= MAX_COUNT && pos + |BytesOfUser(u)| <= PACK_SIZE
      modifies this`pos, buf
      ensures Valid() && pos == old(pos) + |BytesOfUser(u)|
      ensures buf[..] == Overwrite(old(buf[..]), old(pos), BytesOfUser(u))
    {
      PushInt32(u.uid);
      PushString(u.nickname);
      OverwriteTwice(old(buf[..]), old(pos), Bytes32(u.uid), BytesOfString(u.nickname));
    }

    /**
     pack(): the header goes in last, over the first eight bytes; the body is untouched. So when the
     body encodes some fields, the buffer ends up holding the packet of those fields.
     */
    method Finish()
      requires Valid() && HEAD <= pos
      modifies this`len, this`pos, buf
      ensures Valid() && len == pos == old(pos)
      ensures buf[..len] == Header(old(pos), svid, uri) + old(buf[HEAD..pos])
      ensures forall fs :: AllFit(fs) && EncodeAll(fs) == old(buf[HEAD..pos]) ==> buf[..len] == PacketBytes(svid, uri, fs)
    {
      hide EncodeAll, AllFit;
      len := pos;
      ghost var before := buf[..];
      pos := 0;
      PushInt32(len);
      PushInt16(svid);
      PushInt16(uri);
      OverwriteHeader(before, len, svid, uri);
      pos := len;
    }
  }

  lemma {:induction false} IntsPrefix(xs: seq<Int32>, i: nat)
    requires i < |xs|
    ensures BytesOfInts(xs[..i + 1]) == BytesOfInts(xs[..i]) + Bytes32(xs[i])
    ensures |BytesOfInts(xs[..i + 1])| <= |BytesOfInts(xs)|
    decreases |xs| - i
  {
    assert xs[..i + 1][..i] == xs[..i];
    if i + 1 < |xs| {
      IntsPrefix(xs, i + 1);
    } else {
      assert xs[..i + 1] == xs;
    }
  }

  lemma {:induction false} UsersPrefix(us: seq<User>, i: nat)
    requires i < |us| && UsersFit(us)
    ensures BytesOfUsers(us[..i + 1]) == BytesOfUsers(us[..i]) + BytesOfUser(us[i])
    ensures |BytesOfUsers(us[..i + 1])| <= |BytesOfUsers(us)|
    decreases |us| - i
  {
    assert us[..i + 1][..i] == us[..i];
    if i + 1 < |us| {
      UsersPrefix(us, i + 1);
    } else {
      assert us[..i + 1] == us;
    }
  }

  // ---------------------------------------------------------------- reader

  class Unpack {
    const buf: seq<Byte>
    var len: int
    var pos: nat
    var svid: Int16
    var uri: Int16

    constructor (buf: seq<Byte>)
      ensures this.buf == buf && len == |buf| && pos == 0
    {
      this.buf := buf;
      len, pos := |buf|, 0;
      svid, uri := 0, 0;
    }

    method PopHead()
      requires pos + HEAD <= |buf|
      modifies this
      ensures len == Int32At(buf, old(pos)) && pos == old(pos) + HEAD
      ensures svid == Int16At(buf, old(pos) + 4) && uri == Int16At(buf, old(pos) + 6)
    {
      len := PopInt32();
      svid := PopInt16();
      uri := PopInt16();
    }

    method PopInt32() returns (v: Int32)
      requires pos + 4 <= |buf|
      modifies this`pos
      ensures v == Int32At(buf, old(pos)) && pos == old(pos) + 4
    {
      var b1, b2, b3, b4 := buf[pos] as int, buf[pos + 1] as int, buf[pos + 2] as int, buf[pos + 3] as int;
      assert NatAt(buf, pos, 4) == NatAt(buf, pos, 2) * 256 * 256 + b3 * 256 + b4;
      var n := ((b1 * 256 + b2) * 256 + b3) * 256 + b4;
      v := if n < 0x8000_0000 then n else n - 0x1_0000_0000;
      pos := pos + 4;
    }

    method PopInt16() returns (v: Int16)
      requires pos + 2 <= |buf|
      modifies this`pos
      ensures v == Int16At(buf, old(pos)) && pos == old(pos) + 2
    {
      var n := buf[pos] as int * 256 + buf[pos + 1] as int;
      assert NatAt(buf, pos, 2) == NatAt(buf, pos, 1) * 256 + buf[pos + 1] as int;
      v := if n < 0x8000 then n else n - 0x1_0000;
      pos := pos + 2;
    }

    method PopInt8() returns (v: Byte)
      requires pos + 1 <= |buf|
      modifies this`pos
      ensures v == buf[old(pos)] && pos == old(pos) + 1
    {
      v := buf[pos];
      pos := pos + 1;
    }

    method PopString() returns (s: seq<Byte>)
      requires StringAt(buf, len, pos).Some?
      modifies this`pos
      ensures StringAt(buf, len, old(pos)) == Some(Read(s, pos))
    {
      var n := PopInt16();
      if n > len - pos {
        return [];
      }
      s := buf[pos..pos + n];
      pos := pos + n;
    }

    method PopInts() returns (xs: seq<Int32>)
      requires CountedIntsAt(buf, pos).Some?
      modifies this`pos
      ensures CountedIntsAt(buf, old(pos)) == Some(Read(xs, pos))
    {
      var n := PopInt16();
      xs := [];
      var i := 0;
      while i < n
        invariant 0 <= i <= Max(n, 0)
        invariant IntsAt(buf, old(pos) + 2, i) == Some(Read(xs, pos))
      {
        IntsAtPrefix(buf, old(pos) + 2, i + 1, n);
        var v := PopInt32();
        xs := xs + [v];
        i := i + 1;
      }
    }

    method PopUser() returns (u: User)
      requires UserAt(buf, len, pos).Some?
      modifies this`pos
      ensures UserAt(buf, len, old(pos)) == Some(Read(u, pos))
    {
      var uid := PopInt32();
      var nickname := PopString();
      u := User(uid, nickname);
    }

    method PopUsers() returns (us: seq<User>)
      requires CountedUsersAt(buf, len, pos).Some?
      modifies this`pos
      ensures CountedUsersAt(buf, len, old(pos)) == Some(Read(us, pos))
    {
      var n := PopInt16();
      us := [];
      var i := 0;
      while i < n
        invariant 0 <= i <= n
        invariant UsersAt(buf, len, old(pos) + 2, i) == Some(Read(us, pos))
      {
        UsersAtPrefix(buf, len, old(pos) + 2, i + 1, n);
        var u := PopUser();
        us := us + [u];
        i := i + 1;
      }
    }
  }

  lemma {:induction false} IntsAtPrefix(b: seq<Byte>, pos: nat, i: nat, n: nat)
    requires i <= n && IntsAt(b, pos, n).Some?
    ensures IntsAt(b, pos, i).Some?
  {
    if i < n {
      IntsAtPrefix(b, pos, i, n - 1);
    }
  }

  lemma {:induction false} UsersAtPrefix(b: seq<Byte>, limit: int, pos: nat, i: nat, n: nat)
    requires i <= n && UsersAt(b, limit, pos, n).Some?
    ensures UsersAt(b, limit, pos, i).Some?
  {
    if i < n {
      UsersAtPrefix(b, limit, pos, i, n - 1);
    }
  }
}
