/** Packet framing over TCP (asynctcpsocket.cc; the 16-bit length prefix of section 2 of RFC 4571):
    the sender with partial writes and silent drops, the receiver with arbitrary fragmentation, and
    the two joined by a byte stream. */
module TcpFraming {
  import opened Common

  type Packet = p: seq<Octet> | |p| <= 65535 witness []

  const MAX_PACKET_SIZE: nat := 64 * 1024
  const PACKET_LEN_SIZE: nat := 2
  const BUF_SIZE: nat := MAX_PACKET_SIZE + PACKET_LEN_SIZE

  // ---------------------------------------------------------------- frames

  /** HostToNetwork16. */
  function BigEndian16(n: nat): (s: seq<Octet>)
    requires n < 65536
    ensures |s| == 2 && (s[0] as int) * 256 + s[1] == n
  {
    [n / 256, n % 256]
  }

  function GetBE16(s: seq<Octet>): nat
    requires |s| >= 2
  {
    (s[0] as int) * 256 + s[1]
  }

  function Frame(p: Packet): seq<Octet> { BigEndian16(|p|) + p }

  function Frames(ps: seq<Packet>): seq<Octet> {
    if ps == [] then [] else Frame(ps[0]) + Frames(ps[1..])
  }

  predicate Incomplete(s: seq<Octet>) {
    |s| < PACKET_LEN_SIZE || |s| < PACKET_LEN_SIZE + GetBE16(s)
  }

  /** The complete packets at the front of a stream, and what follows them. */
  function Unframe(s: seq<Octet>): (r: (seq<Packet>, seq<Octet>))
    ensures Incomplete(r.1) && |r.1| <= |s|
    decreases |s|
  {
    if Incomplete(s) then ([], s)
    else
      var n := PACKET_LEN_SIZE + GetBE16(s);
      var rest := Unframe(s[n..]);
      ([s[PACKET_LEN_SIZE..n]] + rest.0, rest.1)
  }

  /** Packets in front of a result. */
  function Before(ps: seq<Packet>, r: (seq<Packet>, seq<Octet>)): (seq<Packet>, seq<Octet>) { (ps + r.0, r.1) }

  lemma {:induction false} BeforeTwice(a: seq<Packet>, b: seq<Packet>, r: (seq<Packet>, seq<Octet>))
    ensures Before(a, Before(b, r)) == Before(a + b, r)
    ensures Before([], r) == r
  {
    assert a + (b + r.0) == (a + b) + r.0 && [] + r.0 == r.0;
  }

  lemma {:induction false} UnframeOne(p: Packet, s: seq<Octet>)
    ensures Unframe(Frame(p) + s) == Before([p], Unframe(s))
  {
    var t := Frame(p) + s;
    assert GetBE16(t) == |p|;
    assert t[2..2 + |p|] == p && t[2 + |p|..] == s;
  }

  lemma {:induction false} FrameOf(a: seq<Octet>, p: Packet)
    requires !Incomplete(a) && p == a[PACKET_LEN_SIZE..PACKET_LEN_SIZE + GetBE16(a)]
    ensures a == Frame(p) + a[PACKET_LEN_SIZE + GetBE16(a)..]
  {
    assert a[..2] == BigEndian16(GetBE16(a));
    assert a == a[..2] + p + a[2 + |p|..];
  }

  /** Later bytes never change a packet that is already complete. */
  lemma {:induction false} UnframeConcat(a: seq<Octet>, b: seq<Octet>)
    ensures Unframe(a + b) == Before(Unframe(a).0, Unframe(Unframe(a).1 + b))
    decreases |a|
  {
    if Incomplete(a) {
      BeforeTwice([], [], Unframe(a + b));
    } else {
      var n := PACKET_LEN_SIZE + GetBE16(a);
      var p: Packet := a[PACKET_LEN_SIZE..n];
      var t := a[n..];
      FrameOf(a, p);
      UnframeConcat(t, b);
      UnframeConcatStep(p, t, b);
    }
  }

  lemma {:induction false} UnframeConcatStep(p: Packet, t: seq<Octet>, b: seq<Octet>)
    requires Unframe(t + b) == Before(Unframe(t).0, Unframe(Unframe(t).1 + b))
    ensures var a := Frame(p) + t;
      Unframe(a + b) == Before(Unframe(a).0, Unframe(Unframe(a).1 + b))
  {
    assert Frame(p) + t + b == Frame(p) + (t + b);
    UnframeOne(p, t);
    UnframeOne(p, t + b);
    BeforeTwice([p], Unframe(t).0, Unframe(Unframe(t).1 + b));
  }

  lemma {:induction false} UnframeFrames(ps: seq<Packet>)
    ensures Unframe(Frames(ps)) == (ps, [])
    decreases |ps|
  {
    if ps == [] {
    } else {
      UnframeOne(ps[0], Frames(ps[1..]));
      UnframeFrames(ps[1..]);
      assert ps == [ps[0]] + ps[1..];
    }
  }

  lemma {:induction false} FramesAppend(ps: seq<Packet>, p: Packet)
    ensures Frames(ps + [p]) == Frames(ps) + Frame(p)
    decreases |ps|
  {
    if ps == [] {
      assert [] + [p] == [p] && [p][1..] == [];
    } else {
      assert (ps + [p])[1..] == ps[1..] + [p];
      FramesAppend(ps[1..], p);
    }
  }

  /** A prefix of framed packets yields a prefix of the packets. */
  lemma {:induction false} PrefixYieldsPrefix(ps: seq<Packet>, s: seq<Octet>)
    requires s <= Frames(ps)
    ensures Unframe(s).0 <= ps
  {
    var t := Frames(ps)[|s|..];
    assert s + t == Frames(ps);
    UnframeConcat(s, t);
    UnframeFrames(ps);
  }

  // ---------------------------------------------------------------- the sender

  class Sender {
    const outbuf: array<Octet>
    var outpos: nat
    /** The packets that SignalSentPacket was raised for. */
    ghost var sentPackets: seq<Packet>
    /** The bytes the socket accepted. */
    var wire: seq<Octet>

    ghost predicate Valid()
      reads this, outbuf
    {
      outbuf.Length == BUF_SIZE && outpos < BUF_SIZE && wire + outbuf[..outpos] == Frames(sentPackets)
    }

    constructor ()
      ensures Valid() && sentPackets == [] && wire == [] && fresh(outbuf)
    {
      outbuf := new Octet[BUF_SIZE](i => 0);
      outpos, sentPackets, wire := 0, [], [];
    }

    /** The socket accepts any part of the data, or nothing and returns zero or an error. */
    static method SocketSend(size: nat) returns (res: int)
      ensures res <= size
    {
      res :| res <= size;
    }

    method FlushOutBuffer() returns (res: int)
      requires outbuf.Length == BUF_SIZE && outpos < BUF_SIZE
      modifies this`outpos, this`wire, outbuf
      ensures outpos <= old(outpos) && wire + outbuf[..outpos] == old(wire + outbuf[..outpos])
      ensures old(wire) <= wire
      ensures if res <= 0 then outpos == old(outpos) && wire == old(wire) else outpos == old(outpos) - res
    {
      res := SocketSend(outpos);
      if res <= 0 {
        return;
      }
      var all := outbuf[..outpos];
      outpos := outpos - res;
      forall i | 0 <= i < outpos {
        outbuf[i] := outbuf[i + res];
      }
      wire := wire + all[..res];
      assert outbuf[..outpos] == all[res..];
      assert all[..res] + all[res..] == all;
    }

    method AppendToOutBuffer(data: seq<Octet>)
      requires outbuf.Length == BUF_SIZE && outpos + |data| < BUF_SIZE
      modifies this`outpos, outbuf
      ensures outpos == old(outpos) + |data| && outbuf[..outpos] == old(outbuf[..outpos]) + data
    {
      forall i | 0 <= i < |data| {
        outbuf[outpos + i] := data[i];
      }
      outpos := outpos + |data|;
    }

    /** Lengths that do not fit 16 bits but pass the size test would break the source's own
        assertion in AppendToOutBuffer and are excluded. The result claims the whole packet even
        when it was dropped because the buffer is busy. */
    method Send(packet: seq<Octet>) returns (res: int)
      requires Valid() && (|packet| <= 65535 || |packet| > BUF_SIZE)
      modifies this, outbuf
      ensures Valid() && old(wire) <= wire
      ensures |packet| > BUF_SIZE ==> res == -1 && unchanged(this) && unchanged(outbuf)
      ensures |packet| <= 65535 && old(outpos) > 0 ==> res == |packet| && unchanged(this) && unchanged(outbuf)
      ensures |packet| <= 65535 && old(outpos) == 0 ==>
        (sentPackets == old(sentPackets) + [packet] && res == |packet| && |wire| > |old(wire)|)
        || (res <= 0 && sentPackets == old(sentPackets) && wire == old(wire) && outpos == 0)
      ensures |packet| > 65538 <==> |packet| > BUF_SIZE
      ensures |packet| <= 65535 && sentPackets != old(sentPackets) ==>
        wire + outbuf[..outpos] == old(wire) + [|packet| / 256, |packet| % 256] + packet
    {
      if |packet| > BUF_SIZE {
        return -1;
      }
      if outpos != 0 {
        return |packet|;
      }
      AppendToOutBuffer(BigEndian16(|packet|));
      AppendToOutBuffer(packet);
      assert outbuf[..outpos] == Frame(packet) by {
        assert outbuf[..outpos] == [] + BigEndian16(|packet|) + packet;
      }
      FramesAppend(sentPackets, packet);
      assert wire + [] == wire;
      assert wire + Frame(packet) == wire + [|packet| / 256, |packet| % 256] + packet;
      res := FlushOutBuffer();
      if res <= 0 {
        outpos := 0;
        assert outbuf[..0] == [];
        return;
      }
      sentPackets := sentPackets + [packet];
      res := |packet|;
    }

    /** ready stands for SignalReadyToSend. */
    method OnWriteEvent() returns (ready: bool)
      requires Valid()
      modifies this`outpos, this`wire, outbuf
      ensures Valid() && old(wire) <= wire
      ensures ready <==> outpos == 0
    {
      if outpos > 0 {
        var res := FlushOutBuffer();
      }
      ready := outpos == 0;
    }
  }

  // ---------------------------------------------------------------- the receiver

  class Receiver {
    const inbuf: array<Octet>
    var inpos: nat
    var delivered: seq<Packet>
    var received: seq<Octet>

    /** Everything received is accounted for: delivered packets, then an incomplete frame. */
    ghost predicate Valid()
      reads this, inbuf
    {
      inbuf.Length == BUF_SIZE && inpos < BUF_SIZE - 1 && Unframe(received) == (delivered, inbuf[..inpos])
    }

    constructor ()
      ensures Valid() && received == [] && fresh(inbuf)
    {
      inbuf := new Octet[BUF_SIZE](i => 0);
      inpos, delivered, received := 0, [], [];
    }

    /** Recv may deliver any part of what is in flight, down to nothing, or fail. There is always
        room for it, and the overflow branch of line 209 is unreachable. */
    method OnReadEvent(inFlight: seq<Octet>) returns (taken: nat)
      requires Valid()
      modifies this, inbuf
      ensures Valid()
      ensures taken <= |inFlight| && received == old(received) + inFlight[..taken]
      ensures old(delivered) <= delivered
    {
      taken := 0;
      assert received + [] == received;
      var len: int :| len <= |inFlight| && len <= inbuf.Length - inpos;
      if len < 0 {
        return;
      }
      ghost var before := inbuf[..inpos];
      forall i | 0 <= i < len {
        inbuf[inpos + i] := inFlight[i];
      }
      inpos := inpos + len;
      taken := len;
      assert inbuf[..inpos] == before + inFlight[..len];
      UnframeConcat(received, inFlight[..len]);
      received := received + inFlight[..len];
      ProcessInput();
      assert !(inpos >= inbuf.Length);
    }

    /** Delivers every complete frame and moves the rest to the front. */
    method ProcessInput()
      requires inbuf.Length == BUF_SIZE && inpos <= BUF_SIZE
      modifies this`inpos, this`delivered, inbuf
      ensures inpos <= old(inpos) && inpos < BUF_SIZE - 1
      ensures delivered == old(delivered) + Unframe(old(inbuf[..inpos])).0
      ensures inbuf[..inpos] == Unframe(old(inbuf[..inpos])).1
    {
      ghost var all, rest := Unframe(inbuf[..inpos]), inbuf[..inpos];
      ghost var out: seq<Packet> := [];
      BeforeTwice(out, out, all);
      assert delivered + out == delivered;
      while true
        invariant inpos <= old(inpos) && rest == inbuf[..inpos]
        invariant delivered == old(delivered) + out
        invariant all == Before(out, Unframe(rest))
        decreases inpos
      {
        if inpos < PACKET_LEN_SIZE {
          break;
        }
        var pktLen := GetBE16(inbuf[..inpos]);
        if inpos < PACKET_LEN_SIZE + pktLen {
          break;
        }
        var n := PACKET_LEN_SIZE + pktLen;
        var packet := DeliverPacket(n);
        NextFrame(rest, packet, out);
        out, rest := out + [packet], rest[n..];
      }
      assert out + [] == out;
    }

    /** SignalReadPacket for the first frame, which then leaves the buffer. */
    method DeliverPacket(n: nat) returns (packet: Packet)
      requires PACKET_LEN_SIZE <= n <= inpos <= inbuf.Length && n - PACKET_LEN_SIZE <= 65535
      modifies this`inpos, this`delivered, inbuf
      ensures inpos == old(inpos) - n && inbuf[..inpos] == old(inbuf[..inpos])[n..]
      ensures delivered == old(delivered) + [packet] && packet == old(inbuf[..inpos])[PACKET_LEN_SIZE..n]
    {
      packet := inbuf[PACKET_LEN_SIZE..n];
      assert packet == inbuf[..inpos][PACKET_LEN_SIZE..n];
      delivered := delivered + [packet];
      MoveToFront(n);
    }

    method MoveToFront(n: nat)
      requires inpos <= inbuf.Length && n <= inpos
      modifies this`inpos, inbuf
      ensures inpos == old(inpos) - n && inbuf[..inpos] == old(inbuf[..inpos])[n..]
    {
      inpos := inpos - n;
      forall i | 0 <= i < inpos {
        inbuf[i] := inbuf[i + n];
      }
    }
  }

  lemma {:induction false} NextFrame(rest: seq<Octet>, p: Packet, out: seq<Packet>)
    requires !Incomplete(rest) && p == rest[PACKET_LEN_SIZE..PACKET_LEN_SIZE + GetBE16(rest)]
    ensures Before(out, Unframe(rest)) == Before(out + [p], Unframe(rest[PACKET_LEN_SIZE + GetBE16(rest)..]))
  {
    var t := rest[PACKET_LEN_SIZE + GetBE16(rest)..];
    FrameOf(rest, p);
    UnframeOne(p, t);
    BeforeTwice(out, [p], Unframe(t));
  }

  // ---------------------------------------------------------------- end to end

  /** A sender and a receiver joined by a reliable byte stream. */
  class Connection {
    const sender: Sender
    const receiver: Receiver
    /** The network: accepted by one socket and not yet returned by the other. */
    var inFlight: seq<Octet>

    ghost predicate Valid()
      reads this, sender, sender.outbuf, receiver, receiver.inbuf
    {
      sender.outbuf != receiver.inbuf && sender.Valid() && receiver.Valid()
      && sender.wire == receiver.received + inFlight
    }

    constructor ()
      ensures Valid() && sender.sentPackets == [] && receiver.delivered == [] && inFlight == []
    {
      sender := new Sender();
      receiver := new Receiver();
      inFlight := [];
    }

    method Send(packet: seq<Octet>) returns (res: int)
      requires Valid() && (|packet| <= 65535 || |packet| > BUF_SIZE)
      modifies this, sender, sender.outbuf
      ensures Valid()
      ensures |packet| > BUF_SIZE || old(sender.outpos) > 0 ==> sender.sentPackets == old(sender.sentPackets)
      ensures sender.sentPackets != old(sender.sentPackets) ==>
        sender.sentPackets == old(sender.sentPackets) + [packet] && res == |packet|
    {
      res := sender.Send(packet);
      inFlight := sender.wire[|receiver.received|..];
    }

    method Writable() returns (ready: bool)
      requires Valid()
      modifies this, sender, sender.outbuf
      ensures Valid() && (ready <==> sender.outpos == 0)
    {
      ready := sender.OnWriteEvent();
      inFlight := sender.wire[|receiver.received|..];
    }

    method Readable()
      requires Valid()
      modifies this, receiver, receiver.inbuf
      ensures Valid() && old(receiver.delivered) <= receiver.delivered
    {
      var taken := receiver.OnReadEvent(inFlight);
      inFlight := inFlight[taken..];
      assert receiver.received + inFlight == sender.wire;
    }
  }

  /** In every reachable state the delivered packets are a prefix of the sent ones, unaltered and in
      order; and all of them once nothing is buffered or in flight. */
  lemma {:induction false} DeliveredIsAPrefixOfSent(c: Connection)
    requires c.Valid()
    ensures c.receiver.delivered <= c.sender.sentPackets
    ensures c.sender.outpos == 0 && c.inFlight == [] ==> c.receiver.delivered == c.sender.sentPackets
  {
    var s, ps := c.receiver.received, c.sender.sentPackets;
    var pending := c.sender.outbuf[..c.sender.outpos];
    assert s <= Frames(ps) by { assert s + (c.inFlight + pending) == Frames(ps); }
    PrefixYieldsPrefix(ps, s);
    if c.sender.outpos == 0 && c.inFlight == [] {
      assert s == Frames(ps);
      UnframeFrames(ps);
    }
  }
}
