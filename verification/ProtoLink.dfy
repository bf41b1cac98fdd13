/**
 The Android client's receive path: ProtoLink.onData reassembles packets in a ByteBuffer that
 it slides through, compacts and grows.

 A new link reads headers big-endian, but every buffer that shuffer() allocates is little-endian.
 The order that shuffer() sets is therefore a parameter here: Little is the code as written, Big
 is the order every sender uses. What holds of the code as written is stated for any order.
 */
module ProtoLink {
  import opened Common
  import opened Wire
  import opened Framing

  const PROTO_TCP_BUFFER_SIZE := 256 * 1024
  const COMPACT_AT := 10000
  const CAPACITY_LIMIT := 2 * (MAX_FRAME + MAX_CHUNK)

  // ---------------------------------------------------------------- the link as a value

  datatype Link = Link(order: ByteOrder, start: nat, capacity: nat, pending: seq<Byte>)

  const NewLink := Link(Big, 0, PROTO_TCP_BUFFER_SIZE, [])

  /** What one run of the receive loop does. */
  datatype Step = Step(link: Link, frames: seq<Frame>, reset: bool)

  function Received(shuffled: ByteOrder, l: Link, chunk: seq<Byte>): Link {
    if l.capacity - l.start - |l.pending| < |chunk| then Link(shuffled, 0, l.capacity * 2, l.pending + chunk)
    else l.(pending := l.pending + chunk)
  }

  function AfterFrame(shuffled: ByteOrder, l: Link, h: nat): Link
    requires h <= |l.pending|
  {
    var rest := l.pending[h..];
    if rest == [] then l.(start := 0, pending := [])
    else if l.start + h > COMPACT_AT then Link(shuffled, 0, Max(|rest|, l.capacity), rest)
    else l.(start := l.start + h, pending := rest)
  }

  function Drain(shuffled: ByteOrder, l: Link): Step
    decreases |l.pending|
  {
    if |l.pending| <= 10 then Step(l, [], false)
    else
      var h := HeaderAt(l.order, l.pending);
      if BadHeader(h) then Step(l.(start := 0, pending := []), [], true)
      else if h > |l.pending| then Step(Link(shuffled, 0, Max(h, l.capacity), l.pending), [], false)
      else
        var d := Drain(shuffled, AfterFrame(shuffled, l, h));
        d.(frames := [Frame(UriAt(l.order, l.pending), l.pending[..h])] + d.frames)
  }

  function Feed(shuffled: ByteOrder, l: Link, chunk: seq<Byte>): Step {
    Drain(shuffled, Received(shuffled, l, chunk))
  }

  function Run(shuffled: ByteOrder, l: Link, chunks: seq<seq<Byte>>): Step
    decreases |chunks|
  {
    if chunks == [] then Step(l, [], false)
    else
      var f := Feed(shuffled, l, chunks[0]);
      var r := Run(shuffled, f.link, chunks[1..]);
      Step(r.link, f.frames + r.frames, f.reset || r.reset)
  }

  // ---------------------------------------------------------------- bounds

  /** Holds at every head of the receive loop: the offset is small and everything fits. */
  predicate LoopBounds(l: Link) {
    && PROTO_TCP_BUFFER_SIZE <= l.capacity < CAPACITY_LIMIT
    && l.start <= COMPACT_AT
    && l.start + |l.pending| <= l.capacity
  }

  /** Holds between two calls: what is left over is tiny, or is at the front and incomplete. */
  predicate Bounds(l: Link) {
    LoopBounds(l) && (|l.pending| <= 10 || (l.start == 0 && |l.pending| < MAX_FRAME))
  }

  lemma ReceivedBounds(shuffled: ByteOrder, l: Link, chunk: seq<Byte>)
    requires Bounds(l) && |chunk| <= MAX_CHUNK
    ensures LoopBounds(Received(shuffled, l, chunk))
    ensures Received(shuffled, l, chunk).capacity >= l.capacity
  {
  }

  lemma {:induction false} DrainBounds(shuffled: ByteOrder, l: Link)
    requires LoopBounds(l)
    ensures Bounds(Drain(shuffled, l).link)
    ensures Drain(shuffled, l).link.capacity >= l.capacity
    decreases |l.pending|
  {
    hide HeaderAt, UriAt;
    if |l.pending| > 10 {
      var h := HeaderAt(l.order, l.pending);
      if !BadHeader(h) && h <= |l.pending| {
        DrainBounds(shuffled, AfterFrame(shuffled, l, h));
      }
    }
  }

  /**
   Over every run of TCP reads from a new link, whatever the bytes and whichever order shuffer()
   sets: offset and fill stay inside the buffer, and the capacity never shrinks and stays under
   a fixed limit, so doubling it cannot overflow.
   */
  lemma {:induction false} RunBounds(shuffled: ByteOrder, l: Link, chunks: seq<seq<Byte>>)
    requires Bounds(l) && TcpChunks(chunks)
    ensures Bounds(Run(shuffled, l, chunks).link)
    ensures l.capacity <= Run(shuffled, l, chunks).link.capacity < CAPACITY_LIMIT
    ensures 2 * CAPACITY_LIMIT < 0x8000_0000
    ensures Run(shuffled, l, chunks).link.start <= 10000
    ensures Run(shuffled, l, chunks).link.capacity < 2 * (8388608 + 131072)
    decreases |chunks|
  {
    hide Drain, Received;
    if chunks != [] {
      ReceivedBounds(shuffled, l, chunks[0]);
      DrainBounds(shuffled, Received(shuffled, l, chunks[0]));
      RunBounds(shuffled, Feed(shuffled, l, chunks[0]).link, chunks[1..]);
    }
  }

  // ---------------------------------------------------------------- conservation

  lemma {:induction false} DrainConserves(shuffled: ByteOrder, l: Link)
    requires !Drain(shuffled, l).reset
    ensures Flat(Bytes(Drain(shuffled, l).frames)) + Drain(shuffled, l).link.pending == l.pending
    decreases |l.pending|
  {
    hide HeaderAt, UriAt;
    if |l.pending| > 10 {
      var h := HeaderAt(l.order, l.pending);
      if !BadHeader(h) && h <= |l.pending| {
        var d := Drain(shuffled, AfterFrame(shuffled, l, h));
        DrainConserves(shuffled, AfterFrame(shuffled, l, h));
        FlatCons(Frame(UriAt(l.order, l.pending), l.pending[..h]), d.frames, d.link.pending);
        assert l.pending == l.pending[..h] + l.pending[h..];
      }
    }
  }

  /**
   On a run without a reset the bytes of the delivered frames, followed by the buffered bytes,
   are exactly the bytes received. This is true of the code as written too.
   */
  lemma {:induction false} RunConserves(shuffled: ByteOrder, l: Link, chunks: seq<seq<Byte>>)
    requires !Run(shuffled, l, chunks).reset
    ensures var r := Run(shuffled, l, chunks);
            Flat(Bytes(r.frames)) + r.link.pending == l.pending + Flat(chunks)
    decreases |chunks|
  {
    hide Drain;
    if chunks != [] {
      var f := Feed(shuffled, l, chunks[0]);
      var r := Run(shuffled, f.link, chunks[1..]);
      DrainConserves(shuffled, Received(shuffled, l, chunks[0]));
      RunConserves(shuffled, f.link, chunks[1..]);
      BytesAppend(f.frames, r.frames);
      FlatAppend(Bytes(f.frames), Bytes(r.frames));
      Regroup(Flat(Bytes(f.frames)), Flat(Bytes(r.frames)), r.link.pending, f.link.pending, Flat(chunks[1..]));
      assert l.pending + Flat(chunks) == (l.pending + chunks[0]) + Flat(chunks[1..]);
    }
  }

  lemma Regroup(a: seq<Byte>, b: seq<Byte>, c: seq<Byte>, d: seq<Byte>, e: seq<Byte>)
    requires b + c == d + e
    ensures (a + b) + c == (a + d) + e
  {
    assert (a + b) + c == a + (b + c) && (a + d) + e == a + (d + e);
  }

  // ---------------------------------------------------------------- one byte order

  /** With one byte order, offsets, compaction and growth do not show. */
  lemma {:induction false} DrainIsParse(l: Link)
    ensures var d, p := Drain(l.order, l), Parse(l.order, l.pending);
            && d.frames == p.frames && d.link.pending == p.Kept() && d.reset == p.reset
            && d.link.order == l.order
    decreases |l.pending|
  {
    hide HeaderAt, UriAt;
    if |l.pending| > 10 {
      var h := HeaderAt(l.order, l.pending);
      if !BadHeader(h) && h <= |l.pending| {
        DrainIsParse(AfterFrame(l.order, l, h));
      }
    }
  }

  /** Every run delivers the frames that parsing the stream chunk by chunk would give. */
  lemma {:induction false} RunIsArrive(l: Link, chunks: seq<seq<Byte>>)
    ensures var r, a := Run(l.order, l, chunks), Arrive(l.order, l.pending, chunks);
            r.frames == a.frames && r.link.pending == a.kept && r.link.order == l.order
    decreases |chunks|
  {
    hide Drain, Parse;
    if chunks != [] {
      DrainIsParse(Received(l.order, l, chunks[0]));
      RunIsArrive(Feed(l.order, l, chunks[0]).link, chunks[1..]);
    }
  }

  /**
   A link that keeps big-endian treats a stream alike under every cut into TCP reads exactly when
   no reset is followed by more bytes. Here shuffer() is taken to keep the order; for the order it
   does set see SwitchedOrder.AsWrittenExactly.
   */
  lemma CutsAgreeExactly(s: seq<Byte>)
    ensures (forall chunks :: TcpChunks(chunks) && Flat(chunks) == s ==>
               var r := Run(Big, NewLink, chunks);
               r.frames == Parse(Big, s).frames && r.link.pending == Parse(Big, s).Kept())
            <==> !Parse(Big, s).reset || |Parse(Big, s).rest| == 11
  {
    hide Parse, Run, Arrive;
    forall chunks
      ensures Run(Big, NewLink, chunks).frames == Arrive(Big, [], chunks).frames
      ensures Run(Big, NewLink, chunks).link.pending == Arrive(Big, [], chunks).kept
    {
      RunIsArrive(NewLink, chunks);
    }
    CutIndependentExactly(Big, s);
  }

  // ---------------------------------------------------------------- the link itself

  lemma AfterFrameBounds(shuffled: ByteOrder, l: Link, h: nat)
    requires LoopBounds(l) && h <= |l.pending|
    ensures LoopBounds(AfterFrame(shuffled, l, h))
  {
  }

  lemma DrainCases(shuffled: ByteOrder, l: Link)
    ensures var n, d := |l.pending|, Drain(shuffled, l);
            if n <= 10 then d == Step(l, [], false)
            else
              var h := HeaderAt(l.order, l.pending);
              if BadHeader(h) then d == Step(l.(start := 0, pending := []), [], true)
              else if h > n then d == Step(Link(shuffled, 0, Max(h, l.capacity), l.pending), [], false)
              else
                var next := AfterFrame(shuffled, l, h);
                && d.link == Drain(shuffled, next).link
                && d.frames == [Frame(UriAt(l.order, l.pending), l.pending[..h])] + Drain(shuffled, next).frames
  {
  }

  class ProtoLink {
    const shuffled: ByteOrder
    var mRecvBuffer: array<Byte>
    var order: ByteOrder
    var position: nat
    var mStart: nat
    var mLen: nat
    var mCapacity: nat
    /** Everything mHandler.onData has been given. */
    var handled: seq<Frame>

    ghost predicate InBuffer()
      reads this
    {
      mCapacity == mRecvBuffer.Length && mStart + mLen <= mRecvBuffer.Length
    }

    ghost function Contents(): Link
      requires InBuffer()
      reads this, mRecvBuffer
    {
      Link(order, mStart, mCapacity, mRecvBuffer[mStart..mStart + mLen])
    }

    ghost predicate Valid()
      reads this, mRecvBuffer
    {
      InBuffer() && Bounds(Contents())
    }

    constructor (shuffled: ByteOrder)
      ensures Valid() && Contents() == NewLink && handled == [] && this.shuffled == shuffled
      ensures fresh(mRecvBuffer)
    {
      this.shuffled := shuffled;
      mCapacity := PROTO_TCP_BUFFER_SIZE;
      mRecvBuffer := new Byte[PROTO_TCP_BUFFER_SIZE];
      order, position := Big, 0;
      mStart, mLen := 0, 0;
      handled := [];
    }

    /** Reads an int at the position and moves past it. */
    method GetInt() returns (v: Int32)
      requires position + 4 <= mRecvBuffer.Length
      modifies this`position
      ensures position == old(position) + 4
      ensures v == IntOf(order, mRecvBuffer[old(position)..position])
    {
      v := IntOf(order, mRecvBuffer[position..position + 4]);
      position := position + 4;
    }

    method Put(chunk: seq<Byte>)
      requires position + |chunk| <= mRecvBuffer.Length
      modifies this`position, mRecvBuffer
      ensures position == old(position) + |chunk|
      ensures mRecvBuffer[..] == old(mRecvBuffer[..position]) + chunk + old(mRecvBuffer[position + |chunk|..])
    {
      forall i | 0 <= i < |chunk| {
        mRecvBuffer[position + i] := chunk[i];
      }
      position := position + |chunk|;
    }

    /** Moves the pending bytes to the front of a new buffer. */
    method Shuffer(size: nat)
      requires InBuffer() && mLen <= size
      modifies this
      ensures InBuffer() && fresh(mRecvBuffer) && position == 0 && handled == old(handled)
      ensures mLen == old(mLen) && Contents() == Link(shuffled, 0, size, old(Contents()).pending)
    {
      var buf := new Byte[size];
      forall i | 0 <= i < mLen {
        buf[i] := mRecvBuffer[mStart + i];
      }
      assert buf[0..mLen] == mRecvBuffer[mStart..mStart + mLen];
      order := shuffled;
      position := 0;
      mStart := 0;
      mRecvBuffer := buf;
      mCapacity := size;
    }

    /** A read of at most 128 KiB has arrived. */
    method OnData(chunk: seq<Byte>)
      requires Valid() && |chunk| <= MAX_CHUNK
      modifies this, mRecvBuffer
      ensures Valid() && (mRecvBuffer == old(mRecvBuffer) || fresh(mRecvBuffer))
      ensures Contents() == Feed(shuffled, old(Contents()), chunk).link
      ensures handled == old(handled) + Feed(shuffled, old(Contents()), chunk).frames
    {
      hide Drain, LoopBounds;
      ReceivedBounds(shuffled, Contents(), chunk);
      Receive(chunk);
      ghost var received := Contents();
      DrainBounds(shuffled, received);
      var more := true;
      while more
        invariant mRecvBuffer == old(mRecvBuffer) || fresh(mRecvBuffer)
        invariant InBuffer() && (more ==> position == mStart && LoopBounds(Contents()))
        invariant if more then Drain(shuffled, Contents()).link == Drain(shuffled, received).link
                  else Contents() == Drain(shuffled, received).link
        invariant old(handled) + Drain(shuffled, received).frames ==
                  handled + (if more then Drain(shuffled, Contents()).frames else [])
        decreases more, mLen
      {
        more := NextFrame();
      }
    }

    /** One turn of the receive loop: hands on a frame, or stops. */
    method NextFrame() returns (more: bool)
      requires InBuffer() && LoopBounds(Contents()) && position == mStart
      modifies this
      ensures mRecvBuffer == old(mRecvBuffer) || fresh(mRecvBuffer)
      ensures InBuffer() && (more ==> position == mStart && mLen < old(mLen) && LoopBounds(Contents()))
      ensures var d := Drain(shuffled, old(Contents()));
              if more then
                && d.link == Drain(shuffled, Contents()).link
                && old(handled) + d.frames == handled + Drain(shuffled, Contents()).frames
              else
                && d.link == Contents()
                && old(handled) + d.frames == handled
    {
      hide HeaderAt, UriAt, Drain, AfterFrame, LoopBounds;
      ghost var now := Contents();
      DrainCases(shuffled, now);
      if mLen <= 10 {
        return false;
      }
      var len, uri := ReadHeader();
      if len > 1024 * 1024 * 8 || len < 0 || len == 0 {
        position := 0;
        mLen := 0;
        mStart := 0;
        return false;
      }
      if len > mLen {
        position := mStart;
        Shuffer(Max(len, mCapacity));
        return false;
      }
      Deliver(len, uri);
      AfterFrameBounds(shuffled, now, len);
      return true;
    }

    /** Copies a complete frame out of the buffer, hands it on, and moves past it. */
    method Deliver(len: nat, uri: Int32)
      requires InBuffer() && 0 < len <= mLen
      modifies this
      ensures mRecvBuffer == old(mRecvBuffer) || fresh(mRecvBuffer)
      ensures InBuffer() && Contents() == AfterFrame(shuffled, old(Contents()), len)
      ensures position == mStart && mLen == old(mLen) - len
      ensures handled == old(handled) + [Frame(uri, old(Contents()).pending[..len])]
    {
      hide AfterFrame;
      position := mStart;
      var buf := mRecvBuffer[position..position + len];
      position := position + len;
      handled := handled + [Frame(uri, buf)];
      SliceOfSlice(mRecvBuffer[..], mStart, mStart + mLen, 0, len);
      assert buf == Contents().pending[..len];
      Slide(len);
    }

    /** The two ints at the front of the pending bytes. */
    method ReadHeader() returns (len: Int32, uri: Int32)
      requires InBuffer() && mLen > 10 && position == mStart
      modifies this`position
      ensures len == HeaderAt(Contents().order, Contents().pending)
      ensures uri == UriAt(Contents().order, Contents().pending)
    {
      AtFront(mRecvBuffer[..], order, mStart, mLen);
      len := GetInt();
      uri := GetInt();
    }

    /** Moves past a frame, and compacts the buffer when the offset has grown large. */
    method Slide(len: nat)
      requires InBuffer() && len <= mLen && position == mStart + len
      modifies this
      ensures mRecvBuffer == old(mRecvBuffer) || fresh(mRecvBuffer)
      ensures InBuffer() && Contents() == AfterFrame(shuffled, old(Contents()), len)
      ensures position == mStart && mLen == old(mLen) - len && handled == old(handled)
    {
      SliceOfSlice(mRecvBuffer[..], mStart, mStart + mLen, len, mLen);
      mStart := mStart + len;
      mLen := mLen - len;
      if mLen == 0 {
        position := 0;
        mStart := 0;
      } else if mStart > 10000 {
        Shuffer(Max(mLen, mCapacity));
      }
    }

    method Receive(chunk: seq<Byte>)
      requires Valid() && |chunk| <= MAX_CHUNK
      modifies this, mRecvBuffer
      ensures InBuffer() && Contents() == Received(shuffled, old(Contents()), chunk)
      ensures position == mStart && handled == old(handled)
      ensures mRecvBuffer == old(mRecvBuffer) || fresh(mRecvBuffer)
    {
      if mRecvBuffer.Length - mStart - mLen < |chunk| {
        Shuffer(mRecvBuffer.Length * 2);
      }
      Append(chunk);
    }

    /** Puts the chunk behind the pending bytes, where there is room for it. */
    method Append(chunk: seq<Byte>)
      requires InBuffer() && mStart + mLen + |chunk| <= mRecvBuffer.Length
      modifies this`position, this`mLen, mRecvBuffer
      ensures InBuffer() && Contents() == old(Contents()).(pending := old(Contents()).pending + chunk)
      ensures position == mStart
    {
      var newLen := |chunk|;
      ghost var before := mRecvBuffer[..];
      position := mStart + mLen;
      Put(chunk);
      PutBehind(before, mRecvBuffer[..], mStart, mLen, chunk);
      position := mStart;
      mLen := mLen + newLen;
    }
  }

  lemma PutBehind(before: seq<Byte>, after: seq<Byte>, start: nat, len: nat, chunk: seq<Byte>)
    requires start + len + |chunk| <= |before|
    requires after == before[..start + len] + chunk + before[start + len + |chunk|..]
    ensures after[start..start + len + |chunk|] == before[start..start + len] + chunk
  {
  }

  lemma SliceOfSlice(b: seq<Byte>, i: nat, j: nat, k: nat, l: nat)
    requires k <= l && i + l <= j <= |b|
    ensures b[i..j][k..l] == b[i + k..i + l]
  {
    forall x | 0 <= x < l - k ensures b[i..j][k..l][x] == b[i + k..i + l][x] {
      assert b[i..j][k..l][x] == b[i..j][k + x];
    }
  }

  /** The two ints read at the start offset are the header and uri of the pending bytes. */
  lemma AtFront(b: seq<Byte>, o: ByteOrder, start: nat, len: nat)
    requires start + len <= |b| && len > 10
    ensures IntOf(o, b[start..start + 4]) == HeaderAt(o, b[start..start + len])
    ensures IntOf(o, b[start + 4..start + 8]) == UriAt(o, b[start..start + len])
  {
    SliceOfSlice(b, start, start + len, 0, 4);
    SliceOfSlice(b, start, start + len, 4, 8);
  }
}
