/**
 What the byte order that shuffer() sets does to a stream of packets. Every sender writes
 big-endian and a new link reads big-endian, but the buffer shuffer() allocates is little-endian,
 so from its first call on the link misreads every length.
 */
module SwitchedOrder {
  import opened Common
  import opened Wire
  import opened Framing
  import opened ProtoLink

  // ---------------------------------------------------------------- when the order is switched too early

  /** From the head of the receive loop: the rest of the loop, then the reads still to come. */
  function Continue(shuffled: ByteOrder, l: Link, chunks: seq<seq<Byte>>): Step {
    var d := Drain(shuffled, l);
    var r := Run(shuffled, d.link, chunks);
    Step(r.link, d.frames + r.frames, d.reset || r.reset)
  }

  /**
   Whether shuffer() is called while more than ten bytes of the stream are still to be handed on:
   the guards of its two calls in the loop, a packet that is not complete and an offset past
   10000, met from the head of the loop on a link that has kept the first byte order.
   */
  predicate Switches(l: Link, chunks: seq<seq<Byte>>)
    decreases |chunks|, |l.pending|
  {
    if |l.pending| <= 10 then chunks != [] && Switches(Received(Big, l, chunks[0]), chunks[1..])
    else
      var h := HeaderAt(Big, l.pending);
      if BadHeader(h) then
        chunks != [] && Switches(Received(Big, l.(start := 0, pending := []), chunks[0]), chunks[1..])
      else if h > |l.pending| then true
      else if h < |l.pending| && l.start + h > COMPACT_AT then |l.pending| - h + |Flat(chunks)| > 10
      else Switches(AfterFrame(Big, l, h), chunks)
  }

  lemma ContinueStops(shuffled: ByteOrder, l: Link, chunks: seq<seq<Byte>>)
    requires Drain(shuffled, l).frames == []
    ensures chunks == [] ==> Continue(shuffled, l, chunks).frames == []
                             && Continue(shuffled, l, chunks).link == Drain(shuffled, l).link
    ensures chunks != [] ==>
              var c := Continue(shuffled, Received(shuffled, Drain(shuffled, l).link, chunks[0]), chunks[1..]);
              Continue(shuffled, l, chunks).frames == c.frames && Continue(shuffled, l, chunks).link == c.link
  {
    hide Drain, Received;
  }

  lemma ContinueFrame(shuffled: ByteOrder, l: Link, chunks: seq<seq<Byte>>)
    requires |l.pending| > 10 && !BadHeader(HeaderAt(l.order, l.pending)) && HeaderAt(l.order, l.pending) <= |l.pending|
    ensures var h := HeaderAt(l.order, l.pending);
            var c := Continue(shuffled, AfterFrame(shuffled, l, h), chunks);
            && Continue(shuffled, l, chunks).frames == [Frame(UriAt(l.order, l.pending), l.pending[..h])] + c.frames
            && Continue(shuffled, l, chunks).link == c.link
  {
    hide HeaderAt, UriAt, Run, AfterFrame, Received;
  }

  /** Ten bytes or fewer are not looked at, in either order. */
  lemma {:induction false} Quiet(shuffled: ByteOrder, l: Link, chunks: seq<seq<Byte>>)
    requires |l.pending| + |Flat(chunks)| <= 10
    ensures Continue(shuffled, l, chunks).frames == []
    ensures Continue(shuffled, l, chunks).link.pending == l.pending + Flat(chunks)
    decreases |chunks|
  {
    ContinueStops(shuffled, l, chunks);
    if chunks != [] {
      Quiet(shuffled, Received(shuffled, l, chunks[0]), chunks[1..]);
      assert (l.pending + chunks[0]) + Flat(chunks[1..]) == l.pending + Flat(chunks);
    }
  }

  /** A link that is never switched does what one that keeps big-endian does, on any stream. */
  lemma {:induction false} UnswitchedIsBig(l: Link, chunks: seq<seq<Byte>>)
    requires LoopBounds(l) && l.order == Big && TcpChunks(chunks) && !Switches(l, chunks)
    ensures Continue(Little, l, chunks).frames == Continue(Big, l, chunks).frames
    ensures Continue(Little, l, chunks).link.pending == Continue(Big, l, chunks).link.pending
    decreases |chunks|, |l.pending|
  {
    hide HeaderAt, UriAt, Continue, LoopBounds;
    var h := if |l.pending| > 10 then HeaderAt(Big, l.pending) else 0;
    if |l.pending| <= 10 || BadHeader(h) {
      UnswitchedStop(l, chunks);
    } else {
      ContinueFrame(Little, l, chunks);
      ContinueFrame(Big, l, chunks);
      if h < |l.pending| && l.start + h > COMPACT_AT {
        Quiet(Little, AfterFrame(Little, l, h), chunks);
        Quiet(Big, AfterFrame(Big, l, h), chunks);
      } else {
        AfterFrameBounds(Big, l, h);
        UnswitchedIsBig(AfterFrame(Big, l, h), chunks);
      }
    }
  }

  /** Between two reads of a link that has not been switched there is room for the next one. */
  lemma RoomForRead(l: Link, chunk: seq<Byte>)
    requires LoopBounds(l) && |l.pending| <= 10 && |chunk| <= MAX_CHUNK
    ensures Received(Little, l, chunk) == Received(Big, l, chunk) == l.(pending := l.pending + chunk)
    ensures LoopBounds(Received(Big, l, chunk))
  {
  }

  lemma UnswitchedStop(l: Link, chunks: seq<seq<Byte>>)
    requires LoopBounds(l) && l.order == Big && TcpChunks(chunks) && !Switches(l, chunks)
    requires |l.pending| <= 10 || BadHeader(HeaderAt(Big, l.pending))
    ensures Continue(Little, l, chunks).frames == Continue(Big, l, chunks).frames
    ensures Continue(Little, l, chunks).link.pending == Continue(Big, l, chunks).link.pending
    decreases |chunks|, |l.pending|, 0
  {
    hide HeaderAt, UriAt, Continue, Received;
    ContinueStops(Little, l, chunks);
    ContinueStops(Big, l, chunks);
    if chunks != [] {
      var m := if |l.pending| <= 10 then l else l.(start := 0, pending := []);
      RoomForRead(m, chunks[0]);
      UnswitchedIsBig(Received(Big, m, chunks[0]), chunks[1..]);
    }
  }

  /** A length up to 8096, read in the wrong order, is too large, negative, or at least 65536. */
  lemma MisreadLength(s: seq<Byte>)
    requires |s| >= 4 && 0 < HeaderAt(Big, s) <= PACK_SIZE
    ensures BadHeader(HeaderAt(Little, s)) || HeaderAt(Little, s) >= 0x1_0000
  {
    var w := s[..4];
    var v := [w[3], w[2], w[1], w[0]];
    FourBytes(w);
    FourBytes(v);
    assert w[0] == 0 && w[1] == 0 && w[2] as int * 256 + w[3] as int == HeaderAt(Big, s);
  }

  lemma FourBytes(w: seq<Byte>)
    requires |w| == 4
    ensures NatAt(w, 0, 4) == w[0] as int * 0x100_0000 + w[1] as int * 0x1_0000 + w[2] as int * 0x100 + w[3] as int
  {
    assert NatAt(w, 0, 2) == NatAt(w, 0, 1) * 256 + w[1] as int;
    assert NatAt(w, 0, 3) == NatAt(w, 0, 2) * 256 + w[2] as int;
  }

  /** The frames of q, which has arrived, and of the chunks after it. */
  function Onward(o: ByteOrder, q: seq<Byte>, chunks: seq<seq<Byte>>): seq<Frame> {
    Parse(o, q).frames + Arrive(o, Parse(o, q).Kept(), chunks).frames
  }

  lemma ContinueIsOnward(l: Link, chunks: seq<seq<Byte>>)
    ensures Continue(l.order, l, chunks).frames == Onward(l.order, l.pending, chunks)
  {
    hide Drain, Parse, Run, Arrive;
    DrainIsParse(l);
    RunIsArrive(Drain(l.order, l).link, chunks);
  }

  /** Frames never hold more bytes than arrived. */
  lemma {:induction false} ArriveLength(o: ByteOrder, kept: seq<Byte>, chunks: seq<seq<Byte>>)
    ensures |Flat(Bytes(Arrive(o, kept, chunks).frames))| <= |kept| + |Flat(chunks)|
    decreases |chunks|
  {
    hide Parse;
    if chunks != [] {
      var p := Parse(o, kept + chunks[0]);
      var q := Arrive(o, p.Kept(), chunks[1..]);
      ParseConserves(o, kept + chunks[0]);
      ArriveLength(o, p.Kept(), chunks[1..]);
      BytesAppend(p.frames, q.frames);
      FlatAppend(Bytes(p.frames), Bytes(q.frames));
    }
  }

  /** What a link that has been switched does with whole packets: nothing, too much, or a reset. */
  ghost predicate Loses(fs: seq<Frame>, n: nat) {
    || fs == []
    || |fs[0].bytes| >= 0x1_0000
    || |Flat(Bytes(fs))| + 10 < n
  }

  lemma SameHeader(o: ByteOrder, q: seq<Byte>, t: seq<Byte>)
    requires |q| >= 4
    ensures HeaderAt(o, q + t) == HeaderAt(o, q)
  {
    assert (q + t)[..4] == q[..4];
  }

  lemma {:induction false} MisreadOnward(q: seq<Byte>, chunks: seq<seq<Byte>>)
    requires var s := q + Flat(chunks);
             |s| > 10 && (BadHeader(HeaderAt(Little, s)) || HeaderAt(Little, s) >= 0x1_0000)
    ensures Loses(Onward(Little, q, chunks), |q + Flat(chunks)|)
    decreases |chunks|
  {
    hide HeaderAt, UriAt, Parse;
    ParseStep(Little, q);
    if |q| > 10 {
      SameHeader(Little, q, Flat(chunks));
    }
    if |q| > 10 && BadHeader(HeaderAt(Little, q)) {
      ArriveLength(Little, [], chunks);
      assert Onward(Little, q, chunks) == Arrive(Little, [], chunks).frames;
    } else if !Ready(Little, q) && chunks != [] {
      assert q + Flat(chunks) == (q + chunks[0]) + Flat(chunks[1..]);
      MisreadOnward(q + chunks[0], chunks[1..]);
      assert Onward(Little, q, chunks) == Onward(Little, q + chunks[0], chunks[1..]);
    }
  }

  /**
   Nor does it recover: a switched link with more than ten bytes of whole packets ahead of it hands
   on no frame at all, or first one of at least 65536 bytes, or loses at least eleven bytes.
   */
  lemma SwitchedLoses(l: Link, chunks: seq<seq<Byte>>, ps: seq<seq<Byte>>)
    requires l.order == Little && WholePackets(ps)
    requires l.pending + Flat(chunks) == Flat(ps) && |Flat(ps)| > 10
    ensures Loses(Continue(Little, l, chunks).frames, |Flat(ps)|)
    ensures Bytes(Continue(Little, l, chunks).frames) != Due(ps)
  {
    hide Continue, HeaderAt, Onward;
    HeaderOfPacket(ps[0], Flat(ps[1..]));
    MisreadLength(Flat(ps));
    MisreadOnward(l.pending, chunks);
    ContinueIsOnward(l, chunks);
    LosesNotDue(Continue(Little, l, chunks).frames, ps);
  }

  lemma LosesNotDue(fs: seq<Frame>, ps: seq<seq<Byte>>)
    requires WholePackets(ps) && |Flat(ps)| > 10 && Loses(fs, |Flat(ps)|)
    ensures Bytes(fs) != Due(ps)
  {
    if Withheld(ps) {
      var n := |ps| - 1;
      assert ps == ps[..n] + [ps[n]] && [ps[n]][1..] == [];
      FlatAppend(ps[..n], [ps[n]]);
      assert Flat([ps[n]]) == ps[n] + [];
    }
  }

  /** A stream of whole packets that is switched on the way is not all handed on. */
  lemma {:induction false} SwitchLoses(l: Link, chunks: seq<seq<Byte>>, ps: seq<seq<Byte>>)
    requires LoopBounds(l) && l.order == Big && TcpChunks(chunks) && WholePackets(ps)
    requires l.pending + Flat(chunks) == Flat(ps) && Switches(l, chunks)
    ensures Bytes(Continue(Little, l, chunks).frames) != Due(ps)
    decreases |chunks|, |l.pending|
  {
    hide HeaderAt, UriAt, Continue, LoopBounds, Due, Loses, Received, Bytes;
    if |l.pending| <= 10 {
      ContinueStops(Little, l, chunks);
      RoomForRead(l, chunks[0]);
      assert (l.pending + chunks[0]) + Flat(chunks[1..]) == Flat(ps);
      SwitchLoses(Received(Big, l, chunks[0]), chunks[1..], ps);
    } else {
      FrontPacket(l.pending, Flat(chunks), ps);
      var h := |ps[0]|;
      if h > |l.pending| {
        IncompleteLoses(l, chunks, ps);
      } else {
        FirstHandedOn(l, chunks, ps);
        if h < |l.pending| && l.start + h > COMPACT_AT {
          SwitchedLoses(AfterFrame(Little, l, h), chunks, ps[1..]);
        } else {
          AfterFrameBounds(Little, l, h);
          SwitchLoses(AfterFrame(Little, l, h), chunks, ps[1..]);
        }
      }
    }
  }

  lemma FirstHandedOn(l: Link, chunks: seq<seq<Byte>>, ps: seq<seq<Byte>>)
    requires l.order == Big && WholePackets(ps) && l.pending + Flat(chunks) == Flat(ps)
    requires |l.pending| > 10 && ps != [] && |ps[0]| <= |l.pending|
    ensures var next := AfterFrame(Little, l, |ps[0]|);
            && next.pending + Flat(chunks) == Flat(ps[1..])
            && (Bytes(Continue(Little, l, chunks).frames) == Due(ps)
                <==> Bytes(Continue(Little, next, chunks).frames) == Due(ps[1..]))
  {
    hide HeaderAt, UriAt, Continue, Due, Bytes;
    FrontPacket(l.pending, Flat(chunks), ps);
    ContinueFrame(Little, l, chunks);
    BytesCons(Frame(UriAt(Big, l.pending), ps[0]), Continue(Little, AfterFrame(Little, l, |ps[0]|), chunks).frames);
    DueCons(ps);
    SameTail(ps[0], Bytes(Continue(Little, AfterFrame(Little, l, |ps[0]|), chunks).frames), Due(ps[1..]));
  }

  lemma SameTail<T>(x: T, a: seq<T>, b: seq<T>)
    ensures [x] + a == [x] + b <==> a == b
  {
    assert ([x] + a)[1..] == a && ([x] + b)[1..] == b;
  }

  lemma FrontPacket(q: seq<Byte>, t: seq<Byte>, ps: seq<seq<Byte>>)
    requires WholePackets(ps) && q + t == Flat(ps) && |q| > 10
    ensures ps != [] && HeaderAt(Big, q) == |ps[0]| && WholePackets(ps[1..])
    ensures |ps[0]| <= |q| ==> q[..|ps[0]|] == ps[0] && q[|ps[0]|..] + t == Flat(ps[1..])
  {
    hide HeaderAt;
    HeaderOfPacket(ps[0], Flat(ps[1..]));
    SameHeader(Big, q, t);
    var n := |ps[0]|;
    if n <= |q| {
      assert q[..n] == Flat(ps)[..n] == ps[0];
      assert q[n..] + t == Flat(ps)[n..] == Flat(ps[1..]);
    }
  }

  lemma IncompleteLoses(l: Link, chunks: seq<seq<Byte>>, ps: seq<seq<Byte>>)
    requires l.order == Big && WholePackets(ps) && l.pending + Flat(chunks) == Flat(ps)
    requires |l.pending| > 10 && !BadHeader(HeaderAt(Big, l.pending)) && HeaderAt(Big, l.pending) > |l.pending|
    ensures Bytes(Continue(Little, l, chunks).frames) != Due(ps)
  {
    hide HeaderAt, UriAt, Continue, Due, Loses;
    FrontPacket(l.pending, Flat(chunks), ps);
    assert |Flat(ps)| >= |ps[0]|;
    ContinueStops(Little, l, chunks);
    var m := Received(Little, Drain(Little, l).link, chunks[0]);
    assert (l.pending + chunks[0]) + Flat(chunks[1..]) == Flat(ps);
    SwitchedLoses(m, chunks[1..], ps);
  }

  lemma FromNewLink(shuffled: ByteOrder, chunks: seq<seq<Byte>>)
    ensures Continue(shuffled, NewLink, chunks).frames == Run(shuffled, NewLink, chunks).frames
    ensures Continue(shuffled, NewLink, chunks).link == Run(shuffled, NewLink, chunks).link
  {
    hide Run;
    assert Drain(shuffled, NewLink) == Step(NewLink, [], false);
  }

  /**
   Packets built by Pack, concatenated and cut anywhere, are handed on whole and in order, and only
   a final packet of at most ten bytes is left in the buffer. This holds of a link whose shuffer()
   keeps big-endian, and of the code as written when shuffer() is not called too early.
   */
  lemma PacketsDelivered(shuffled: ByteOrder, ps: seq<seq<Byte>>, chunks: seq<seq<Byte>>)
    requires WholePackets(ps) && Flat(chunks) == Flat(ps)
    requires shuffled == Big || (TcpChunks(chunks) && !Switches(NewLink, chunks))
    ensures var r := Run(shuffled, NewLink, chunks);
            && Bytes(r.frames) == Due(ps)
            && r.link.pending == Held(ps)
    ensures Run(shuffled, NewLink, chunks).frames == Run(Big, NewLink, chunks).frames
  {
    hide Run, Continue, Switches;
    RunIsArrive(NewLink, chunks);
    PacketsSurviveAnyCut(ps, chunks);
    if shuffled == Little {
      UnswitchedIsBig(NewLink, chunks);
      FromNewLink(Big, chunks);
      FromNewLink(Little, chunks);
    }
  }

  /**
   The code as written, on every stream of whole packets and every cut of it into TCP reads: all
   packets are handed on if and only if shuffer() is not called while more than ten bytes of the
   stream are still to be handed on.
   */
  lemma AsWrittenExactly(ps: seq<seq<Byte>>, chunks: seq<seq<Byte>>)
    requires WholePackets(ps) && TcpChunks(chunks) && Flat(chunks) == Flat(ps)
    ensures Bytes(Run(Little, NewLink, chunks).frames) == Due(ps) <==> !Switches(NewLink, chunks)
  {
    hide Run, Continue, Switches;
    if Switches(NewLink, chunks) {
      assert [] + Flat(chunks) == Flat(ps);
      SwitchLoses(NewLink, chunks, ps);
      FromNewLink(Little, chunks);
    } else {
      PacketsDelivered(Little, ps, chunks);
    }
  }

  /** For one packet in two reads: the first read must hold at most ten bytes of it, or all of it. */
  lemma SplitExactly(p: seq<Byte>, k: nat)
    requires WholePacket(p) && 10 < |p| && k <= |p|
    ensures Bytes(Run(Little, NewLink, [p[..k], p[k..]]).frames) == [p] <==> k <= 10 || k == |p|
  {
    hide Run;
    var a, b := p[..k], p[k..];
    TwoReads(a, b);
    OnePacket([p]);
    assert a + b == p;
    AsWrittenExactly([p], [a, b]);
    HeaderOfPacket(p, []);
    assert p + [] == p && [] + a == a && a + b == p;
    SplitSwitches(p, k);
  }

  lemma TwoReads(a: seq<Byte>, b: seq<Byte>)
    ensures Flat([a, b]) == a + b
  {
    assert [a, b][1..] == [b];
    OnePacket([b]);
  }

  lemma SplitSwitches(p: seq<Byte>, k: nat)
    requires WholePacket(p) && 10 < |p| && k <= |p|
    ensures Switches(NewLink, [p[..k], p[k..]]) <==> 10 < k < |p|
  {
    hide HeaderAt;
    var a, b := p[..k], p[k..];
    assert [a, b][1..] == [b] && [b][1..] == [] && [] + a == a && [] + b == b && a + b == p;
    HeaderOfPacket(p, []);
    assert p + [] == p;
    var l := NewLink.(pending := a);
    assert Switches(NewLink, [a, b]) == Switches(l, [b]);
    assert !Switches(NewLink, []) && !Switches(NewLink, [[]]);
    if k > 10 {
      SameHeader(Big, a, b);
      if k == |p| {
        assert a == p && b == [] && AfterFrame(Big, l, k) == NewLink;
      }
    } else {
      assert Switches(l, [b]) == Switches(NewLink.(pending := p), []);
      assert AfterFrame(Big, NewLink.(pending := p), |p|) == NewLink;
    }
  }

  // ---------------------------------------------------------------- every cut, as written

  /** The code as written hands the packets on however TCP cuts them. */
  ghost predicate DeliveredUnderEveryCut(ps: seq<seq<Byte>>) {
    forall chunks :: TcpChunks(chunks) && Flat(chunks) == Flat(ps) ==> Bytes(Run(Little, NewLink, chunks).frames) == Due(ps)
  }

  /** A packet that can be waited for with more than ten of its bytes buffered. */
  predicate Waitable(ps: seq<seq<Byte>>) {
    exists i :: 0 <= i < |ps| && |ps[i]| > 11
  }

  /** After n bytes and i packets the offset can be past the compaction mark with more than ten bytes to come. */
  predicate Boundary(n: nat, ps: seq<seq<Byte>>, i: nat)
    requires i <= |ps|
  {
    n + |Flat(ps[..i])| > COMPACT_AT && |Flat(ps[i..])| > 10
  }

  predicate Compactable(n: nat, ps: seq<seq<Byte>>) {
    exists i :: 0 <= i <= |ps| && Boundary(n, ps, i)
  }

  lemma BoundaryShift(ps: seq<seq<Byte>>, i: nat)
    requires 1 <= i <= |ps|
    ensures |Flat(ps[..i])| == |ps[0]| + |Flat(ps[1..][..i - 1])|
    ensures ps[1..][i - 1..] == ps[i..]
  {
    assert ps[..i][1..] == ps[1..][..i - 1];
  }

  lemma {:induction false} SuffixLength(ps: seq<seq<Byte>>, i: nat)
    requires i <= |ps|
    ensures |Flat(ps[i..])| <= |Flat(ps)|
    ensures i < |ps| ==> |ps[i]| <= |Flat(ps)|
  {
    if i > 0 {
      SuffixLength(ps[1..], i - 1);
      assert ps[1..][i - 1..] == ps[i..];
    } else {
      assert ps[0..] == ps;
    }
  }

  lemma BoundaryNext(n: nat, ps: seq<seq<Byte>>, i: nat)
    requires 1 <= i <= |ps|
    ensures Boundary(n, ps, i) <==> Boundary(n + |ps[0]|, ps[1..], i - 1)
    ensures Boundary(n, ps, i) ==> |Flat(ps[1..])| > 10
    ensures n + |ps[0]| > COMPACT_AT && |Flat(ps[1..])| > 10 ==> Boundary(n, ps, 1)
  {
    hide Flat;
    BoundaryShift(ps, i);
    BoundaryShift(ps, 1);
    SuffixLength(ps[1..], i - 1);
  }

  lemma NoFirstBoundary(n: nat, ps: seq<seq<Byte>>)
    requires n <= COMPACT_AT
    ensures !Boundary(n, ps, 0)
  {
    assert ps[..0] == [];
  }

  lemma CompactableNext(n: nat, ps: seq<seq<Byte>>)
    requires ps != [] && n <= COMPACT_AT && Compactable(n, ps)
    ensures Compactable(n + |ps[0]|, ps[1..])
    ensures |Flat(ps[1..])| > 10
  {
    hide Flat, Boundary;
    var i :| 0 <= i <= |ps| && Boundary(n, ps, i);
    NoFirstBoundary(n, ps);
    BoundaryNext(n, ps, i);
  }

  lemma BoundaryPassed(n: nat, ps: seq<seq<Byte>>)
    requires ps != [] && !Compactable(n, ps)
    ensures !Compactable(n + |ps[0]|, ps[1..])
    ensures n + |ps[0]| > COMPACT_AT ==> |Flat(ps[1..])| <= 10
  {
    hide Flat, Boundary;
    BoundaryNext(n, ps, 1);
    if Compactable(n + |ps[0]|, ps[1..]) {
      var j :| 0 <= j <= |ps| - 1 && Boundary(n + |ps[0]|, ps[1..], j);
      BoundaryNext(n, ps, j + 1);
    }
  }

  lemma {:induction false} NeverSwitches(l: Link, chunks: seq<seq<Byte>>, ps: seq<seq<Byte>>, n: nat)
    requires LoopBounds(l) && l.order == Big && TcpChunks(chunks) && WholePackets(ps)
    requires l.pending + Flat(chunks) == Flat(ps) && l.start <= n
    requires !Waitable(ps) && !Compactable(n, ps)
    ensures !Switches(l, chunks)
    decreases |chunks|, |l.pending|
  {
    hide HeaderAt, LoopBounds, Received, Compactable;
    if |l.pending| <= 10 {
      if chunks != [] {
        RoomForRead(l, chunks[0]);
        assert (l.pending + chunks[0]) + Flat(chunks[1..]) == Flat(ps);
        NeverSwitches(Received(Big, l, chunks[0]), chunks[1..], ps, n);
      }
    } else {
      FrontPacket(l.pending, Flat(chunks), ps);
      var h := |ps[0]|;
      BoundaryPassed(n, ps);
      AfterFrameBounds(Big, l, h);
      if !(h < |l.pending| && l.start + h > COMPACT_AT) {
        NeverSwitches(AfterFrame(Big, l, h), chunks, ps[1..], n + h);
      }
    }
  }

  /** Byte by byte, the eleventh byte of a longer packet switches the order. */
  lemma {:induction false} SinglesSwitch(l: Link, t: seq<Byte>, ps: seq<seq<Byte>>)
    requires LoopBounds(l) && l.order == Big && |l.pending| <= 10 && WholePackets(ps)
    requires l.pending + t == Flat(ps) && Waitable(ps)
    ensures Switches(l, Singles(t))
    decreases |t|
  {
    hide HeaderAt, LoopBounds, Received, AfterFrame, Waitable, Flat;
    WaitableLength(ps);
    var m := Received(Big, l, [t[0]]);
    RoomForRead(l, [t[0]]);
    assert Singles(t)[0] == [t[0]] && Singles(t)[1..] == Singles(t[1..]);
    assert m.pending + t[1..] == Flat(ps);
    if |m.pending| <= 10 {
      SinglesSwitch(m, t[1..], ps);
    } else {
      FrontPacket(m.pending, t[1..], ps);
      var h := |ps[0]|;
      if h <= 11 {
        WaitableNext(ps);
        AfterFrameBounds(Big, m, h);
        AfterFrameKeeps(m, h);
        if !(h < |m.pending| && m.start + h > COMPACT_AT) {
          SinglesSwitch(AfterFrame(Big, m, h), t[1..], ps[1..]);
        }
      }
    }
  }

  lemma WaitableNext(ps: seq<seq<Byte>>)
    requires Waitable(ps) && |ps[0]| <= 11
    ensures Waitable(ps[1..]) && |Flat(ps[1..])| > 11
  {
    var i :| 0 <= i < |ps| && |ps[i]| > 11;
    assert ps[1..][i - 1] == ps[i];
    WaitableLength(ps[1..]);
  }

  lemma AfterFrameKeeps(l: Link, h: nat)
    requires h <= |l.pending| && l.order == Big
    ensures AfterFrame(Big, l, h).order == Big && AfterFrame(Big, l, h).pending == l.pending[h..]
  {
  }

  lemma WaitableLength(ps: seq<seq<Byte>>)
    requires Waitable(ps)
    ensures |Flat(ps)| > 11
  {
    var i :| 0 <= i < |ps| && |ps[i]| > 11;
    SuffixLength(ps, i);
  }

  /** Read in one piece, a long run of short packets brings the compaction on. */
  lemma {:induction false} CompactionSwitches(l: Link, chunks: seq<seq<Byte>>, ps: seq<seq<Byte>>)
    requires l.order == Big && l.start <= COMPACT_AT && WholePackets(ps)
    requires l.pending + Flat(chunks) == Flat(ps) && !Waitable(ps) && Compactable(l.start, ps)
    requires Flat(chunks) == [] || l.start + |l.pending| > COMPACT_AT + 32
    ensures Switches(l, chunks)
    decreases |l.pending|
  {
    hide HeaderAt, Compactable;
    assert ps != [] by {
      NothingCompactable(l.start);
    }
    CompactableNext(l.start, ps);
    SuffixLength(ps, 1);
    FrontPacket(l.pending, Flat(chunks), ps);
    var h := |ps[0]|;
    if l.start + h <= COMPACT_AT {
      assert ps[1..] != [];
      CompactionSwitches(AfterFrame(Big, l, h), chunks, ps[1..]);
    }
  }

  lemma NothingCompactable(n: nat)
    ensures !Compactable(n, [])
  {
  }

  /**
   Which packets the code as written hands on however TCP cuts them: exactly those sequences in
   which no packet is longer than eleven bytes, and none ends past the compaction offset with more
   than ten bytes behind it.
   */
  lemma EveryCutExactly(ps: seq<seq<Byte>>)
    requires WholePackets(ps)
    ensures DeliveredUnderEveryCut(ps) <==> !Waitable(ps) && !Compactable(0, ps)
  {
    hide Run, Switches, Waitable, Compactable;
    var s := Flat(ps);
    if Waitable(ps) {
      assert [] + s == s;
      SinglesSwitch(NewLink, s, ps);
      AsWrittenExactly(ps, Singles(s));
    } else if Compactable(0, ps) {
      OnePieceSwitches(ps);
    } else {
      forall chunks | TcpChunks(chunks) && Flat(chunks) == s
        ensures Bytes(Run(Little, NewLink, chunks).frames) == Due(ps)
      {
        assert [] + Flat(chunks) == Flat(ps);
        NeverSwitches(NewLink, chunks, ps, 0);
        AsWrittenExactly(ps, chunks);
      }
    }
  }

  lemma OnePieceSwitches(ps: seq<seq<Byte>>)
    requires WholePackets(ps) && !Waitable(ps) && Compactable(0, ps)
    ensures !DeliveredUnderEveryCut(ps)
  {
    hide Run, Waitable, Compactable, Due, Boundary;
    var s := Flat(ps);
    var m := if |s| <= MAX_CHUNK then |s| else MAX_CHUNK;
    var chunks := [s[..m]] + Singles(s[m..]);
    assert chunks[1..] == Singles(s[m..]) && s[..m] + s[m..] == s && [] + s[..m] == s[..m];
    RoomForRead(NewLink, s[..m]);
    CompactionSwitches(NewLink.(pending := s[..m]), Singles(s[m..]), ps);
    AsWrittenExactly(ps, chunks);
  }
}
