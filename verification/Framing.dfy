/**
 What a byte stream means as a sequence of packets: the reference parse that the client's
 ProtoLink must agree with however the network cuts the stream.
 */
module Framing {
  import opened Common
  import opened Wire

  datatype ByteOrder = Big | Little

  /** What the handler is given: the packet's second int, and all of its bytes. */
  datatype Frame = Frame(uri: Int32, bytes: seq<Byte>)

  const MAX_FRAME := 1024 * 1024 * 8

  function IntOf(o: ByteOrder, w: seq<Byte>): Int32
    requires |w| == 4
  {
    if o.Big? then Int32At(w, 0) else Int32At([w[3], w[2], w[1], w[0]], 0)
  }

  function HeaderAt(o: ByteOrder, s: seq<Byte>): Int32
    requires |s| >= 4
  {
    IntOf(o, s[..4])
  }

  function UriAt(o: ByteOrder, s: seq<Byte>): Int32
    requires |s| >= 8
  {
    IntOf(o, s[4..8])
  }

  predicate BadHeader(h: Int32) {
    h > MAX_FRAME || h <= 0
  }

  /** The frames of a stream, the bytes after the last of them, and whether those were discarded. */
  datatype Parsed = Parsed(frames: seq<Frame>, rest: seq<Byte>, reset: bool) {
    /** What stays buffered. */
    function Kept(): seq<Byte> {
      if reset then [] else rest
    }
  }

  function Parse(o: ByteOrder, s: seq<Byte>): Parsed
    decreases |s|
  {
    if |s| <= 10 then Parsed([], s, false)
    else
      var h := HeaderAt(o, s);
      if BadHeader(h) then Parsed([], s, true)
      else if h > |s| then Parsed([], s, false)
      else
        var p := Parse(o, s[h..]);
        Parsed([Frame(UriAt(o, s), s[..h])] + p.frames, p.rest, p.reset)
  }

  predicate Ready(o: ByteOrder, s: seq<Byte>) {
    |s| > 10 && !BadHeader(HeaderAt(o, s)) && HeaderAt(o, s) <= |s|
  }

  /** One step of Parse, where a whole frame is at the front and where none is. */
  lemma ParseStep(o: ByteOrder, s: seq<Byte>)
    ensures Ready(o, s) ==>
              var h := HeaderAt(o, s);
              var p := Parse(o, s[h..]);
              Parse(o, s) == Parsed([Frame(UriAt(o, s), s[..h])] + p.frames, p.rest, p.reset)
    ensures !Ready(o, s) ==> Parse(o, s) == Parsed([], s, |s| > 10 && BadHeader(HeaderAt(o, s)))
  {
  }

  function Flat(ss: seq<seq<Byte>>): seq<Byte> {
    if ss == [] then [] else ss[0] + Flat(ss[1..])
  }

  function Bytes(fs: seq<Frame>): seq<seq<Byte>> {
    if fs == [] then [] else [fs[0].bytes] + Bytes(fs[1..])
  }

  lemma {:induction false} FlatAppend(a: seq<seq<Byte>>, b: seq<seq<Byte>>)
    ensures Flat(a + b) == Flat(a) + Flat(b)
  {
    if a == [] {
      assert a + b == b;
    } else {
      assert (a + b)[1..] == a[1..] + b;
      FlatAppend(a[1..], b);
    }
  }

  lemma {:induction false} BytesAppend(a: seq<Frame>, b: seq<Frame>)
    ensures Bytes(a + b) == Bytes(a) + Bytes(b)
  {
    if a == [] {
      assert a + b == b;
    } else {
      assert (a + b)[1..] == a[1..] + b;
      BytesAppend(a[1..], b);
    }
  }

  lemma FlatCons(f: Frame, fs: seq<Frame>, rest: seq<Byte>)
    ensures Flat(Bytes([f] + fs)) + rest == f.bytes + (Flat(Bytes(fs)) + rest)
  {
    assert ([f] + fs)[1..] == fs;
    assert Bytes([f] + fs)[1..] == Bytes(fs);
  }

  /** Nothing is lost or invented: frames, then unread bytes, are the stream. */
  lemma {:induction false} ParseConserves(o: ByteOrder, s: seq<Byte>)
    ensures Flat(Bytes(Parse(o, s).frames)) + Parse(o, s).rest == s
    ensures Parse(o, s).reset ==> |Parse(o, s).rest| > 10
    decreases |s|
  {
    hide HeaderAt, UriAt, Parse;
    ParseStep(o, s);
    if Ready(o, s) {
      var h := HeaderAt(o, s);
      ParseConserves(o, s[h..]);
      FlatCons(Frame(UriAt(o, s), s[..h]), Parse(o, s[h..]).frames, Parse(o, s[h..]).rest);
      assert s == s[..h] + s[h..];
    }
  }

  /** More bytes never change the frames already found. */
  lemma {:induction false} ParseAppend(o: ByteOrder, s: seq<Byte>, t: seq<Byte>)
    ensures var p := Parse(o, s);
            Parse(o, s + t) ==
            if p.reset then Parsed(p.frames, p.rest + t, true)
            else var q := Parse(o, p.rest + t);
                 Parsed(p.frames + q.frames, q.rest, q.reset)
    decreases |s|
  {
    hide IntOf, Parse;
    ParseStep(o, s);
    if |s| > 10 {
      assert (s + t)[..4] == s[..4] && (s + t)[4..8] == s[4..8];
    }
    if Ready(o, s) {
      var h := HeaderAt(o, s);
      assert (s + t)[h..] == s[h..] + t && (s + t)[..h] == s[..h];
      ParseStep(o, s + t);
      ParseAppend(o, s[h..], t);
    } else if Parse(o, s).reset {
      ParseStep(o, s + t);
    }
  }

  // ---------------------------------------------------------------- arriving in pieces

  datatype Arrived = Arrived(frames: seq<Frame>, kept: seq<Byte>)

  function Outcome(p: Parsed): Arrived {
    Arrived(p.frames, p.Kept())
  }

  /** Parsing each chunk as it arrives, behind the bytes kept from before. */
  function Arrive(o: ByteOrder, kept: seq<Byte>, chunks: seq<seq<Byte>>): Arrived
    decreases |chunks|
  {
    if chunks == [] then Arrived([], kept)
    else
      var p := Parse(o, kept + chunks[0]);
      var q := Arrive(o, p.Kept(), chunks[1..]);
      Arrived(p.frames + q.frames, q.kept)
  }

  /** Bytes that Parse leaves alone: it would have taken a frame, or reset, before stopping. */
  ghost predicate Settled(o: ByteOrder, s: seq<Byte>) {
    Parse(o, s) == Parsed([], s, false)
  }

  lemma {:induction false} ParseSettles(o: ByteOrder, s: seq<Byte>)
    ensures Settled(o, Parse(o, s).Kept())
    decreases |s|
  {
    if |s| > 10 && !BadHeader(HeaderAt(o, s)) && HeaderAt(o, s) <= |s| {
      ParseSettles(o, s[HeaderAt(o, s)..]);
    }
  }

  /** However a stream with only good headers is cut, the same frames come out. */
  lemma {:induction false} CutIndependence(o: ByteOrder, kept: seq<Byte>, chunks: seq<seq<Byte>>)
    requires Settled(o, kept) && !Parse(o, kept + Flat(chunks)).reset
    ensures Arrive(o, kept, chunks) == Outcome(Parse(o, kept + Flat(chunks)))
    decreases |chunks|
  {
    if chunks == [] {
      assert kept + Flat(chunks) == kept;
    } else {
      var s, t := kept + chunks[0], Flat(chunks[1..]);
      assert kept + Flat(chunks) == s + t;
      ParseAppend(o, s, t);
      ParseSettles(o, s);
      CutIndependence(o, Parse(o, s).Kept(), chunks[1..]);
    }
  }

  lemma {:induction false} ArriveAppend(o: ByteOrder, kept: seq<Byte>, a: seq<seq<Byte>>, b: seq<seq<Byte>>)
    ensures var p := Arrive(o, kept, a);
            var q := Arrive(o, p.kept, b);
            Arrive(o, kept, a + b) == Arrived(p.frames + q.frames, q.kept)
    decreases |a|
  {
    hide Parse;
    if a == [] {
      assert a + b == b;
    } else {
      assert (a + b)[1..] == a[1..] + b;
      ArriveAppend(o, Parse(o, kept + a[0]).Kept(), a[1..], b);
    }
  }

  // ---------------------------------------------------------------- exactly when the cut does not matter

  /** The largest chunk a TCP read hands over. */
  const MAX_CHUNK := 128 * 1024

  predicate TcpChunks(chunks: seq<seq<Byte>>) {
    forall i :: 0 <= i < |chunks| ==> |chunks[i]| <= MAX_CHUNK
  }

  ghost predicate SameHoweverCut(o: ByteOrder, s: seq<Byte>) {
    forall chunks :: TcpChunks(chunks) && Flat(chunks) == s ==> Arrive(o, [], chunks) == Outcome(Parse(o, s))
  }

  function Singles(s: seq<Byte>): (chunks: seq<seq<Byte>>)
    ensures TcpChunks(chunks) && Flat(chunks) == s
  {
    if s == [] then [] else [[s[0]]] + Singles(s[1..])
  }

  lemma HeaderOfLonger(o: ByteOrder, q: seq<Byte>, b: Byte)
    requires |q| >= 4
    ensures HeaderAt(o, q + [b]) == HeaderAt(o, q)
  {
    assert (q + [b])[..4] == q[..4];
  }

  /** Once a frame is under way it is either still buffered at the end or has been delivered. */
  lemma {:induction false} UnderWay(o: ByteOrder, q: seq<Byte>, t: seq<Byte>)
    requires |q| > 10 && !BadHeader(HeaderAt(o, q)) && HeaderAt(o, q) > |q|
    ensures Arrive(o, q, Singles(t)) != Arrived([], [])
    decreases |t|
  {
    if t != [] {
      HeaderOfLonger(o, q, t[0]);
      assert Singles(t)[0] == [t[0]] && Singles(t)[1..] == Singles(t[1..]);
      if HeaderAt(o, q) > |q| + 1 {
        UnderWay(o, q + [t[0]], t[1..]);
      }
    }
  }

  /** Byte by byte, a stream that leaves no trace was discarded eleven bytes at a time. */
  lemma {:induction false} TracelessLength(o: ByteOrder, q: seq<Byte>, t: seq<Byte>)
    requires |q| <= 10 && Arrive(o, q, Singles(t)) == Arrived([], [])
    ensures (|q| + |t|) % 11 == 0
    decreases |t|
  {
    hide HeaderAt, UriAt, Parse, Arrive;
    if t == [] {
      assert Arrive(o, q, Singles(t)) == Arrived([], q) by {
        ArriveSingle(o, q, t);
      }
    } else {
      var q1 := q + [t[0]];
      ArriveSingle(o, q, t);
      ParseStep(o, q1);
      if |q1| <= 10 {
        TracelessLength(o, q1, t[1..]);
      } else if BadHeader(HeaderAt(o, q1)) {
        TracelessLength(o, [], t[1..]);
      } else if HeaderAt(o, q1) > 11 {
        UnderWay(o, q1, t[1..]);
      }
    }
  }

  lemma ArriveSingle(o: ByteOrder, q: seq<Byte>, t: seq<Byte>)
    ensures t == [] ==> Arrive(o, q, Singles(t)) == Arrived([], q)
    ensures t != [] ==>
              var p := Parse(o, q + [t[0]]);
              var a := Arrive(o, p.Kept(), Singles(t[1..]));
              Arrive(o, q, Singles(t)) == Arrived(p.frames + a.frames, a.kept)
  {
    hide Parse;
    if t != [] {
      assert Singles(t)[0] == [t[0]] && Singles(t)[1..] == Singles(t[1..]);
    }
  }

  lemma {:induction false} ResetHeader(o: ByteOrder, s: seq<Byte>)
    requires Parse(o, s).reset
    ensures |Parse(o, s).rest| > 10 && BadHeader(HeaderAt(o, Parse(o, s).rest))
    decreases |s|
  {
    hide HeaderAt, UriAt;
    var h := HeaderAt(o, s);
    if !BadHeader(h) {
      ResetHeader(o, s[h..]);
    }
  }

  /** Up to ten bytes past the last good frame, the bad header is not yet looked at. */
  lemma {:induction false} BeforeReset(o: ByteOrder, s: seq<Byte>, k: nat)
    requires Parse(o, s).reset && |Parse(o, s).rest| > 10 && k == |s| - |Parse(o, s).rest| + 10
    ensures Parse(o, s[..k]) == Parsed(Parse(o, s).frames, Parse(o, s).rest[..10], false)
    decreases |s|
  {
    hide IntOf;
    var h := HeaderAt(o, s);
    if BadHeader(h) {
      assert s[..k] == Parse(o, s).rest[..10];
    } else {
      ParseConserves(o, s[h..]);
      BeforeReset(o, s[h..], k - h);
      assert s[..k][h..] == s[h..][..k - h];
      assert s[..k][..4] == s[..4] && s[..k][4..8] == s[4..8] && s[..k][..h] == s[..h];
    }
  }

  /** The chunk that completes the bad header, and up to one byte more, vanishes with it. */
  lemma AtReset(o: ByteOrder, r: seq<Byte>, n: nat)
    requires |r| >= 10 + n && n >= 1 && BadHeader(HeaderAt(o, r))
    ensures Parse(o, r[..10] + r[10..10 + n]) == Parsed([], r[..10 + n], true)
  {
    assert r[..10] + r[10..10 + n] == r[..10 + n];
    assert r[..10 + n][..4] == r[..4];
  }

  /**
   A cut that shows a reset: everything up to the tenth byte of the bad packet byte by byte,
   then a chunk of n bytes that brings the reset on, then the rest byte by byte.
   */
  lemma CutAtReset(o: ByteOrder, s: seq<Byte>, n: nat) returns (chunks: seq<seq<Byte>>)
    requires Parse(o, s).reset && 1 <= n <= 2 && |Parse(o, s).rest| >= 10 + n
    ensures TcpChunks(chunks) && Flat(chunks) == s
    ensures var tail := Arrive(o, [], Singles(Parse(o, s).rest[10 + n..]));
            Arrive(o, [], chunks) == Arrived(Parse(o, s).frames + tail.frames, tail.kept)
  {
    hide Parse, HeaderAt, Arrive, Flat;
    var r := Parse(o, s).rest;
    ParseConserves(o, s);
    var k := |s| - |r| + 10;
    var before, chunk, after := s[..k], r[10..10 + n], r[10 + n..];
    BeforeReset(o, s, k);
    ResetHeader(o, s);
    AtReset(o, r, n);
    SameUnderThisCut(o, before, Singles(before));
    chunks := Singles(before) + ([chunk] + Singles(after));
    ArriveAcrossReset(o, Singles(before), chunk, Singles(after));
    FlatAcross(Singles(before), chunk, Singles(after));
    assert s == before + (chunk + after);
  }

  lemma ArriveAcrossReset(o: ByteOrder, front: seq<seq<Byte>>, chunk: seq<Byte>, back: seq<seq<Byte>>)
    requires var p := Parse(o, Arrive(o, [], front).kept + chunk);
             p.reset && p.frames == []
    ensures var tail := Arrive(o, [], back);
            Arrive(o, [], front + ([chunk] + back)) == Arrived(Arrive(o, [], front).frames + tail.frames, tail.kept)
  {
    hide Parse;
    ArriveAppend(o, [], front, [chunk] + back);
    assert ([chunk] + back)[1..] == back;
  }

  lemma FlatAcross(front: seq<seq<Byte>>, chunk: seq<Byte>, back: seq<seq<Byte>>)
    ensures Flat(front + ([chunk] + back)) == Flat(front) + (chunk + Flat(back))
  {
    FlatAppend(front, [chunk] + back);
    assert ([chunk] + back)[1..] == back;
  }

  lemma SettledNothing(o: ByteOrder)
    ensures Settled(o, [])
  {
  }

  /**
   The exact condition: a stream gives the same frames and the same buffered bytes under every
   cut into TCP chunks if and only if no bad header is met in it, or the one that is met is
   discovered with the very last byte.
   */
  lemma CutIndependentExactly(o: ByteOrder, s: seq<Byte>)
    ensures SameHoweverCut(o, s) <==> !Parse(o, s).reset || |Parse(o, s).rest| == 11
  {
    hide Parse;
    ParseConserves(o, s);
    if !Parse(o, s).reset || |Parse(o, s).rest| == 11 {
      forall chunks | TcpChunks(chunks) && Flat(chunks) == s
        ensures Arrive(o, [], chunks) == Outcome(Parse(o, s))
      {
        SameUnderThisCut(o, s, chunks);
      }
    } else {
      var cut := TellingCut(o, s);
    }
  }

  lemma SameUnderThisCut(o: ByteOrder, s: seq<Byte>, chunks: seq<seq<Byte>>)
    requires !Parse(o, s).reset || |Parse(o, s).rest| == 11
    requires Flat(chunks) == s
    ensures Arrive(o, [], chunks) == Outcome(Parse(o, s))
  {
    hide Parse;
    SettledNothing(o);
    assert [] + Flat(chunks) == s;
    if Parse(o, s).reset {
      LastByteReset(o, [], chunks);
    } else {
      CutIndependence(o, [], chunks);
    }
  }

  lemma TellingCut(o: ByteOrder, s: seq<Byte>) returns (cut: seq<seq<Byte>>)
    requires Parse(o, s).reset && |Parse(o, s).rest| > 11
    ensures TcpChunks(cut) && Flat(cut) == s && Arrive(o, [], cut) != Outcome(Parse(o, s))
  {
    hide Parse, Arrive, Flat, Singles;
    cut := CutAtReset(o, s, 1);
    if Arrive(o, [], cut) == Outcome(Parse(o, s)) {
      Traceless(o, Parse(o, s), cut, 1);
      cut := CutAtReset(o, s, 2);
      if Arrive(o, [], cut) == Outcome(Parse(o, s)) {
        Traceless(o, Parse(o, s), cut, 2);
      }
    }
  }

  lemma Traceless(o: ByteOrder, p: Parsed, chunks: seq<seq<Byte>>, n: nat)
    requires p.reset && |p.rest| >= 10 + n && Arrive(o, [], chunks) == Outcome(p)
    requires var tail := Arrive(o, [], Singles(p.rest[10 + n..]));
             Arrive(o, [], chunks) == Arrived(p.frames + tail.frames, tail.kept)
    ensures (|p.rest| - 10 - n) % 11 == 0
  {
    hide Parse;
    var tail := Arrive(o, [], Singles(p.rest[10 + n..]));
    assert |p.frames + tail.frames| == |p.frames| + |tail.frames|;
    TracelessLength(o, [], p.rest[10 + n..]);
  }

  /** The bad header needs its eleventh byte, so nothing can follow the reset. */
  lemma {:induction false} LastByteReset(o: ByteOrder, kept: seq<Byte>, chunks: seq<seq<Byte>>)
    requires Settled(o, kept)
    requires Parse(o, kept + Flat(chunks)).reset && |Parse(o, kept + Flat(chunks)).rest| == 11
    ensures Arrive(o, kept, chunks) == Outcome(Parse(o, kept + Flat(chunks)))
    decreases |chunks|
  {
    assert kept + [] == kept;
    if chunks != [] {
      var s, t := kept + chunks[0], Flat(chunks[1..]);
      assert kept + Flat(chunks) == s + t;
      ParseAppend(o, s, t);
      ParseSettles(o, s);
      ParseConserves(o, s);
      if Parse(o, s).reset {
        assert t == [];
        assert Parse(o, [] + t) == Parsed([], [], false);
        CutIndependence(o, [], chunks[1..]);
      } else {
        LastByteReset(o, Parse(o, s).Kept(), chunks[1..]);
      }
    }
  }

  /** The bytes of a stream that begins with a zero length, met in one read, are all discarded. */
  lemma ArriveZero(o: ByteOrder, a: seq<Byte>, chunks: seq<seq<Byte>>)
    requires |a| > 10 && a[0] == a[1] == a[2] == a[3] == 0
    ensures Arrive(o, [], [a] + chunks) == Arrive(o, [], chunks)
  {
    hide Parse;
    assert [] + a == a && ([a] + chunks)[1..] == chunks;
    ZeroHeader(o, a);
    assert [] + Arrive(o, [], chunks).frames == Arrive(o, [], chunks).frames;
  }

  /** Every frame handed on is as long as its own first four bytes say, and between 1 byte and 8 MiB. */
  lemma {:induction false} FramesAreWhole(o: ByteOrder, s: seq<Byte>, i: nat)
    requires i < |Parse(o, s).frames|
    ensures var b := Parse(o, s).frames[i].bytes;
            1 <= |b| <= 8388608 && (|b| >= 4 ==> |b| == IntOf(o, b[..4]))
    decreases |s|
  {
    hide IntOf, Parse, UriAt;
    ParseStep(o, s);
    var h := HeaderAt(o, s);
    if i > 0 {
      FramesAreWhole(o, s[h..], i - 1);
    } else if h >= 4 {
      assert s[..h][..4] == s[..4];
    }
  }

  /** And a stream is dropped exactly where a length is not in that range. */
  lemma {:induction false} DroppedWhereBad(o: ByteOrder, s: seq<Byte>)
    ensures var p := Parse(o, s);
            p.reset <==> |p.rest| > 10 && (HeaderAt(o, p.rest) <= 0 || HeaderAt(o, p.rest) > 8388608)
    ensures !Parse(o, s).reset && |Parse(o, s).rest| > 10 ==> HeaderAt(o, Parse(o, s).rest) > |Parse(o, s).rest|
    decreases |s|
  {
    hide HeaderAt, UriAt, Parse;
    ParseStep(o, s);
    if Ready(o, s) {
      DroppedWhereBad(o, s[HeaderAt(o, s)..]);
    }
  }

  /**
   A stream that shows the cut: eleven zero bytes and one more. Read at once they are discarded
   together; read apart, the last byte stays, in front of whatever comes next.
   */
  lemma ResetShowsTheCut(o: ByteOrder, a: seq<Byte>, b: seq<Byte>)
    requires a == [0, 0, 0, 0, 0, 0, 0, 0, 0, 0, 0] && b == [0]
    ensures Arrive(o, [], [a + b]) == Arrived([], [])
    ensures Arrive(o, [], [a, b]) == Arrived([], b)
  {
    hide Parse;
    ArriveZero(o, a + b, []);
    ArriveZero(o, a, [b]);
    assert [a + b] + [] == [a + b] && [a] + [b] == [a, b];
    assert [] + b == b && [b][1..] == [];
    ParseStep(o, b);
  }

  lemma ZeroHeader(o: ByteOrder, s: seq<Byte>)
    requires |s| > 10 && s[0] == s[1] == s[2] == s[3] == 0
    ensures Parse(o, s) == Parsed([], s, true)
  {
    var w: seq<Byte> := [0, 0, 0, 0];
    assert s[..4] == w && [w[3], w[2], w[1], w[0]] == w;
    assert NatAt(w, 0, 1) == 0 && NatAt(w, 0, 2) == 0 && NatAt(w, 0, 3) == 0;
  }

  // ---------------------------------------------------------------- streams of whole packets

  /** What Pack produces: 8 to 8096 bytes that begin with their own length. */
  predicate WholePacket(p: seq<Byte>) {
    HEAD <= |p| <= PACK_SIZE && Int32At(p, 0) == |p|
  }

  predicate WholePackets(ps: seq<seq<Byte>>) {
    forall i :: 0 <= i < |ps| ==> WholePacket(ps[i])
  }

  /** A final packet of ten bytes or fewer is not looked at until more bytes follow it. */
  predicate Withheld(ps: seq<seq<Byte>>) {
    ps != [] && |ps[|ps| - 1]| <= 10
  }

  /** What a peer that packs with Pack must see handed on. */
  function Due(ps: seq<seq<Byte>>): seq<seq<Byte>> {
    if Withheld(ps) then ps[..|ps| - 1] else ps
  }

  lemma {:induction false} PacketHeader(s: seq<Byte>, k: nat, n: nat)
    requires k <= n <= |s|
    ensures NatAt(s, 0, k) == NatAt(s[..n], 0, k)
  {
    if k > 0 {
      PacketHeader(s, k - 1, n);
    }
  }

  lemma HeaderOfPacket(p: seq<Byte>, t: seq<Byte>)
    requires |p| >= 8
    ensures HeaderAt(Big, p + t) == Int32At(p, 0)
  {
    assert (p + t)[..4] == p[..4];
    PacketHeader(p, 4, 4);
  }

  lemma DueCons(ps: seq<seq<Byte>>)
    requires ps != [] && |Flat(ps)| > 10
    ensures Due(ps) == [ps[0]] + Due(ps[1..])
  {
    hide Flat;
    if |ps| == 1 {
      OnePacket(ps);
    } else {
      var n, rest := |ps| - 1, ps[1..];
      assert rest[n - 1] == ps[n];
      assert ps == [ps[0]] + rest && ps[..n] == [ps[0]] + rest[..n - 1];
    }
  }

  lemma OnePacket(ps: seq<seq<Byte>>)
    requires |ps| == 1
    ensures Flat(ps) == ps[0] && ps == [ps[0]] && ps[1..] == []
  {
    assert Flat(ps) == ps[0] + [];
  }

  /** What a stream of packets leaves in the buffer. */
  function Held(ps: seq<seq<Byte>>): seq<Byte> {
    if Withheld(ps) then ps[|ps| - 1] else []
  }

  lemma HeldCons(ps: seq<seq<Byte>>)
    requires ps != [] && |Flat(ps)| > 10
    ensures Held(ps) == Held(ps[1..])
  {
    hide Flat;
    if |ps| == 1 {
      OnePacket(ps);
    }
  }

  lemma SeveralPackets(ps: seq<seq<Byte>>)
    requires WholePackets(ps) && |ps| > 1
    ensures |Flat(ps)| >= 2 * HEAD
  {
    assert ps[1..][0] == ps[1];
    assert |Flat(ps[1..])| >= |ps[1]|;
  }

  /** Ten bytes hold at most one packet. */
  lemma FewBytes(ps: seq<seq<Byte>>)
    requires WholePackets(ps) && |Flat(ps)| <= 10
    ensures Due(ps) == [] && Held(ps) == Flat(ps)
  {
    if |ps| == 1 {
      OnePacket(ps);
    } else if |ps| > 1 {
      SeveralPackets(ps);
      assert false;
    }
  }

  lemma {:induction false} ParsePackets(ps: seq<seq<Byte>>)
    requires WholePackets(ps)
    ensures var p := Parse(Big, Flat(ps));
            && !p.reset
            && Bytes(p.frames) == Due(ps)
            && p.rest == Held(ps)
    decreases |ps|
  {
    hide HeaderAt, UriAt, Parse, Due, Held;
    var s := Flat(ps);
    ParseStep(Big, s);
    if |s| <= 10 {
      FewBytes(ps);
    } else {
      var p, t := ps[0], Flat(ps[1..]);
      HeaderOfPacket(p, t);
      assert s[..|p|] == p && s[|p|..] == t;
      ParsePackets(ps[1..]);
      DueCons(ps);
      HeldCons(ps);
      BytesCons(Frame(UriAt(Big, s), p), Parse(Big, t).frames);
    }
  }

  lemma BytesCons(f: Frame, fs: seq<Frame>)
    ensures Bytes([f] + fs) == [f.bytes] + Bytes(fs)
  {
    assert ([f] + fs)[1..] == fs;
  }

  /** The uri handed on with a frame of at least eight bytes is the frame's own second int. */
  lemma {:induction false} FrameUris(o: ByteOrder, s: seq<Byte>, i: nat)
    requires i < |Parse(o, s).frames| && |Parse(o, s).frames[i].bytes| >= 8
    ensures Parse(o, s).frames[i].uri == IntOf(o, Parse(o, s).frames[i].bytes[4..8])
    decreases |s|
  {
    hide IntOf, Parse, HeaderAt;
    ParseStep(o, s);
    var h := HeaderAt(o, s);
    if i > 0 {
      FrameUris(o, s[h..], i - 1);
    } else {
      assert s[..h][4..8] == s[4..8];
    }
  }

  /**
   Packets built by Pack, concatenated and cut anywhere, come out whole and in order. Only a
   last packet of at most ten bytes stays buffered.
   */
  lemma PacketsSurviveAnyCut(ps: seq<seq<Byte>>, chunks: seq<seq<Byte>>)
    requires WholePackets(ps) && Flat(chunks) == Flat(ps)
    ensures var a := Arrive(Big, [], chunks);
            && Bytes(a.frames) == Due(ps)
            && a.kept == Held(ps)
  {
    ParsePackets(ps);
    assert [] + Flat(chunks) == Flat(ps);
    CutIndependence(Big, [], chunks);
  }
}
