/**
 The servers' receive path: read_cb drains an evbuffer packet by packet. It decodes the length
 from signed chars and shifts the third byte the wrong way, so only short packets survive.
 */
module ReadLoop {
  import opened Common
  import opened Wire
  import opened Framing

  /**
   The size_t that lenbuf[0]<<24 | lenbuf[1]<<16 | lenbuf[2]>>8 | lenbuf[3] yields, each char
   being sign-extended first: a negative third byte shifts to -1 and sets every bit; a negative
   fourth byte sets all bits above it; otherwise the third byte vanishes, and a negative second
   byte sets the top byte.
   */
  function MessageLength(s: seq<Byte>): nat
    requires |s| >= 4
  {
    var b0, b1, b2, b3 := s[0] as int, s[1] as int, s[2] as int, s[3] as int;
    var n :=
      if b2 >= 128 then -1
      else if b3 >= 128 then b3 - 256
      else if b1 >= 128 then (b1 - 256) * 0x1_0000 + b3
      else if b0 >= 128 then (b0 - 256) * 0x100_0000 + b1 * 0x1_0000 + b3
      else b0 * 0x100_0000 + b1 * 0x1_0000 + b3;
    if n < 0 then n + 0x1_0000_0000_0000_0000 else n
  }

  /** The buffer every message is copied into before it is handled; its size is not checked. */
  const HANDLER_BUFFER := 128 * 1024

  /**
   How the loop ends: by returning; never, since a message of length zero is taken out and handled
   again and again; or past the end of the handler's buffer, after which nothing is defined.
   */
  datatype Ending = Returns | Spins | Overruns

  /** The messages handled, what stays in the buffer, and how the loop ends. */
  datatype Drained = Drained(handled: seq<seq<Byte>>, left: seq<Byte>, ending: Ending)

  function Drain(s: seq<Byte>): Drained
    decreases |s|
  {
    if |s| <= 4 then Drained([], s, Returns)
    else
      var n := MessageLength(s);
      if n > |s| then Drained([], s, Returns)
      else if n == 0 then Drained([], s, Spins)
      else if n > HANDLER_BUFFER then Drained([], s, Overruns)
      else
        var d := Drain(s[n..]);
        d.(handled := [s[..n]] + d.handled)
  }

  /** Data arriving in chunks; a loop that does not return never takes another. */
  function DrainAll(left: seq<Byte>, chunks: seq<seq<Byte>>): Drained
    decreases |chunks|
  {
    if chunks == [] then Drained([], left, Returns)
    else
      var d := Drain(left + chunks[0]);
      if d.ending != Returns then d
      else
        var e := DrainAll(d.left, chunks[1..]);
        e.(handled := d.handled + e.handled)
  }

  lemma {:induction false} DrainAppend(s: seq<Byte>, t: seq<Byte>)
    ensures var d := Drain(s);
            Drain(s + t) ==
            if d.ending != Returns then Drained(d.handled, d.left + t, d.ending)
            else var e := Drain(d.left + t); e.(handled := d.handled + e.handled)
    decreases |s|
  {
    hide MessageLength, Drain;
    DrainStep(s);
    if |s| > 4 {
      LengthOfLonger(s, t);
      var n := MessageLength(s);
      if n == 0 || HANDLER_BUFFER < n <= |s| {
        DrainStep(s + t);
      } else if n <= |s| {
        assert (s + t)[n..] == s[n..] + t && (s + t)[..n] == s[..n];
        DrainStep(s + t);
        DrainAppend(s[n..], t);
      }
    }
  }

  /** One turn of the loop, where a message can be taken out and where none can. */
  lemma DrainStep(s: seq<Byte>)
    ensures |s| <= 4 || MessageLength(s) > |s| ==> Drain(s) == Drained([], s, Returns)
    ensures |s| > 4 && MessageLength(s) == 0 ==> Drain(s) == Drained([], s, Spins)
    ensures |s| > 4 && HANDLER_BUFFER < MessageLength(s) <= |s| ==> Drain(s) == Drained([], s, Overruns)
    ensures |s| > 4 && 0 < MessageLength(s) <= |s| && MessageLength(s) <= HANDLER_BUFFER ==>
              var n := MessageLength(s);
              var d := Drain(s[n..]);
              Drain(s) == Drained([s[..n]] + d.handled, d.left, d.ending)
  {
  }

  lemma LengthOfLonger(s: seq<Byte>, t: seq<Byte>)
    requires |s| >= 4
    ensures MessageLength(s + t) == MessageLength(s)
  {
  }

  lemma {:induction false} DrainSettles(s: seq<Byte>)
    ensures Drain(s).ending == Returns ==> Drain(Drain(s).left) == Drained([], Drain(s).left, Returns)
    decreases |s|
  {
    hide MessageLength;
    if |s| > 4 && 0 < MessageLength(s) <= |s| && MessageLength(s) <= HANDLER_BUFFER {
      DrainSettles(s[MessageLength(s)..]);
    }
  }

  /**
   Whatever the bytes and the cut, the same messages are handled as if the stream had come at once,
   the loop ends in the same way, and when it returns it leaves the same bytes behind.
   */
  lemma {:induction false} CutsDoNotMatter(left: seq<Byte>, chunks: seq<seq<Byte>>)
    requires Drain(left) == Drained([], left, Returns)
    ensures var d, e := DrainAll(left, chunks), Drain(left + Flat(chunks));
            && d.handled == e.handled && d.ending == e.ending
            && (d.ending == Returns ==> d.left == e.left)
    decreases |chunks|
  {
    hide Drain;
    if chunks == [] {
      assert left + Flat(chunks) == left;
    } else {
      var s, t := left + chunks[0], Flat(chunks[1..]);
      assert left + Flat(chunks) == s + t;
      DrainAppend(s, t);
      DrainSettles(s);
      if Drain(s).ending == Returns {
        CutsDoNotMatter(Drain(s).left, chunks[1..]);
      }
    }
  }

  /** For a packet of Pack the decoded length is the right one exactly below 128 bytes. */
  lemma LengthRightBelow128(p: seq<Byte>, t: seq<Byte>)
    requires WholePacket(p)
    ensures MessageLength(p + t) == |p| <==> |p| < 128
  {
    assert NatAt(p, 0, 2) == NatAt(p, 0, 1) * 256 + p[1] as int;
    assert NatAt(p, 0, 3) == NatAt(p, 0, 2) * 256 + p[2] as int;
    assert p[0] == 0 && p[1] == 0 && p[2] as int * 256 + p[3] as int == |p|;
  }

  predicate Short(ps: seq<seq<Byte>>) {
    forall i :: 0 <= i < |ps| ==> |ps[i]| < 128
  }

  lemma {:induction false} DrainPackets(ps: seq<seq<Byte>>)
    requires WholePackets(ps)
    ensures Drain(Flat(ps)).handled == ps <==> Short(ps)
    ensures Short(ps) ==> Drain(Flat(ps)).ending == Returns && Drain(Flat(ps)).left == []
    decreases |ps|
  {
    hide MessageLength;
    if ps != [] {
      var p, t := ps[0], Flat(ps[1..]);
      var n := MessageLength(p + t);
      LengthRightBelow128(p, t);
      DrainPackets(ps[1..]);
      assert ps == [p] + ps[1..];
      if |p| < 128 {
        assert (p + t)[..n] == p && (p + t)[n..] == t;
        assert Short(ps) <==> Short(ps[1..]);
        assert ([p] + Drain(t).handled)[1..] == Drain(t).handled;
      } else if 0 < n <= |p + t| {
        assert |(p + t)[..n]| == n;
      }
    }
  }

  /**
   Exactly the streams of packets under 128 bytes come out of the read loop whole: for those
   every packet is handled under every cut, the loop always returns and nothing is left over; one longer packet
   anywhere, and under no cut are the packets sent the messages handled.
   */
  lemma ShortPacketsExactly(ps: seq<seq<Byte>>, chunks: seq<seq<Byte>>)
    requires WholePackets(ps) && Flat(chunks) == Flat(ps)
    ensures DrainAll([], chunks).handled == ps <==> Short(ps)
    ensures Short(ps) ==> DrainAll([], chunks).ending == Returns && DrainAll([], chunks).left == []
  {
    assert [] + Flat(chunks) == Flat(ps);
    CutsDoNotMatter([], chunks);
    DrainPackets(ps);
  }

  /** A packet of exactly 256 bytes decodes to length 0, and the loop never returns. */
  lemma SpinsAt256(p: seq<Byte>, t: seq<Byte>)
    requires WholePacket(p) && |p| == 256
    ensures Drain(p + t) == Drained([], p + t, Spins)
  {
    assert NatAt(p, 0, 2) == NatAt(p, 0, 1) * 256 + p[1] as int;
    assert NatAt(p, 0, 3) == NatAt(p, 0, 2) * 256 + p[2] as int;
    assert p[0] == 0 && p[1] == 0 && p[2] == 1 && p[3] == 0;
  }

  /** Where the loop stops, on any bytes: the decoded length of what is left says how it ended. */
  lemma {:induction false} EndingExactly(s: seq<Byte>)
    ensures var d := Drain(s);
            && (d.ending == Spins <==> |d.left| > 4 && MessageLength(d.left) == 0)
            && (d.ending == Overruns <==> |d.left| > 4 && 131072 < MessageLength(d.left) <= |d.left|)
            && (d.ending == Returns <==> |d.left| <= 4 || MessageLength(d.left) > |d.left|)
            && Flat(d.handled) + d.left == s
    decreases |s|
  {
    hide MessageLength, Drain;
    DrainStep(s);
    if |s| > 4 && 0 < MessageLength(s) <= |s| && MessageLength(s) <= HANDLER_BUFFER {
      var n := MessageLength(s);
      var d := Drain(s[n..]);
      EndingExactly(s[n..]);
      assert ([s[..n]] + d.handled)[1..] == d.handled;
      assert s == s[..n] + (Flat(d.handled) + d.left);
    } else {
      assert Flat([]) + s == s;
    }
  }

  lemma LongLength(p: seq<Byte>)
    requires WholePacket(p) && |p| >= 128
    ensures var low := |p| % 256;
            MessageLength(p) == if low < 128 then low else low - 256 + 0x1_0000_0000_0000_0000
  {
    assert NatAt(p, 0, 2) == NatAt(p, 0, 1) * 256 + p[1] as int;
    assert NatAt(p, 0, 3) == NatAt(p, 0, 2) * 256 + p[2] as int;
    assert p[0] == 0 && p[1] == 0 && p[2] as int * 256 + p[3] as int == |p|;
  }

  /**
   What becomes of every longer packet, by the lowest byte of its length: from 128 on the decoded
   length is beyond any buffer and the loop waits; at zero it never ends; and otherwise that many
   bytes are split off and handled as a message, and the packet's own bytes are read on as the next.
   */
  lemma LongPacketFate(p: seq<Byte>, t: seq<Byte>)
    requires WholePacket(p) && |p| >= 128 && |p + t| < 0x8000_0000_0000_0000
    ensures var low, d := |p| % 256, Drain(p + t);
            && (low >= 128 ==> d == Drained([], p + t, Returns))
            && (low == 0 ==> d == Drained([], p + t, Spins))
            && (0 < low < 128 ==> d.handled != [] && d.handled[0] == p[..low] && low < |p| &&
                                  d.handled[1..] == Drain(p[low..] + t).handled)
  {
    hide Drain, MessageLength;
    var low := |p| % 256;
    LongLength(p);
    LengthOfLonger(p, t);
    DrainStep(p + t);
    if 0 < low < 128 {
      assert (p + t)[..low] == p[..low] && (p + t)[low..] == p[low..] + t;
    }
  }

  class Connection {
    /** The evbuffer. */
    var input: seq<Byte>
    /** Every message passed to the handler. */
    var handled: seq<seq<Byte>>

    constructor ()
      ensures input == [] && handled == []
    {
      input, handled := [], [];
    }

    /**
     read_cb after a chunk has been appended. The result says whether the loop returned; if not,
     it stands before the message it would handle for ever, or copy past the handler's buffer.
     */
    method ReadCb(chunk: seq<Byte>) returns (ending: Ending)
      modifies this
      ensures var d := Drain(old(input) + chunk);
              handled == old(handled) + d.handled && input == d.left && ending == d.ending
    {
      input := input + chunk;
      ghost var d := Drain(input);
      ghost var all := handled + d.handled;
      while true
        invariant all == handled + Drain(input).handled
        invariant d.left == Drain(input).left && d.ending == Drain(input).ending
        decreases |input|
      {
        hide MessageLength, Drain;
        DrainStep(input);
        var len := |input|;
        if len <= 4 {
          assert handled == handled + [];
          return Returns;
        }
        var msgLen := MessageLength(input);
        if msgLen <= len {
          if msgLen == 0 || msgLen > HANDLER_BUFFER {
            assert handled == handled + [];
            return if msgLen == 0 then Spins else Overruns;
          }
          var msg := input[..msgLen];
          MoveOver(handled, msg, Drain(input[msgLen..]).handled);
          input := input[msgLen..];
          handled := handled + [msg];
          if msgLen == len {
            DrainStep(input);
            assert handled == handled + [];
            return Returns;
          }
        } else {
          assert handled == handled + [];
          return Returns;
        }
      }
    }
  }

  lemma MoveOver(done: seq<seq<Byte>>, msg: seq<Byte>, rest: seq<seq<Byte>>)
    ensures done + ([msg] + rest) == (done + [msg]) + rest
  {
  }
}
