/** The raw-GATT data plane: sends under its write lock, and the listening loop with its one decoder per session. */
module GattPlane {
  import opened Bytes
  import opened BleAutomaton
  import opened BleFraming
  import opened BleDecoder
  import opened Sinks

  type WriteFd = Sink<Packet>

  datatype SendResult = Sent | FdClosed | WriteFailed

  /** The characteristic payload left by the negotiated MTU after the 3-byte ATT header; 0 means no limit. */
  function Usable(mtu: uint16): (n: nat)
    ensures n == 0 <==> mtu <= 3
  {
    if mtu > 3 then mtu - 3 else 0
  }

  /** A SysEx by its first and last byte, whatever is between them. */
  predicate Bracketed(midi: Message) {
    |midi| >= 2 && midi[0] == 0xF0 && midi[|midi| - 1] == 0xF7
  }

  /**
   The packets of one message on a plane, in terms of the negotiated MTU, of which three bytes are the ATT header. From
   an MTU of 7 up every packet of a SysEx fits with that header, and the SysEx is split if and only if it would not fit
   whole with that header, the packet header and a timestamp. Nothing else is ever split.
   */
  lemma PlanePackets(midi: Message, ts: uint16, mtu: uint16)
    ensures Bracketed(midi) && mtu >= 7 ==>
              forall k :: 0 <= k < |Framed(midi, ts, Usable(mtu))| ==> |Framed(midi, ts, Usable(mtu))[k]| + 3 <= mtu
    ensures |Framed(midi, ts, Usable(mtu))|
         == if Bracketed(midi) && 7 <= mtu < |midi| + 5 then CeilDiv(|midi| + 2, mtu - 4) else 1
    ensures |Framed(midi, ts, Usable(mtu))| == 1 <==> !Bracketed(midi) || mtu < 7 || |midi| + 5 <= mtu
    ensures |Framed(midi, ts, Usable(mtu))| == 1 ==> Framed(midi, ts, Usable(mtu)) == [FrameMessageAt(midi, ts)]
  {
    var n := Usable(mtu);
    if MustChunk(midi, n) {
      ChunkCount(midi, ts, n);
      CeilDivTwo(|midi| + 2, n - 1);
      MtuRespected(midi, ts, n);
    } else if mtu >= 7 {
      MtuRespected(midi, ts, n);
    }
  }

  lemma CeilDivTwo(n: nat, d: int)
    requires 1 <= d < n
    ensures CeilDiv(n, d) >= 2
  {
    var q := CeilDiv(n, d);
    assert q == 0 ==> q * d == 0;
    assert q == 1 ==> q * d == d;
  }

  lemma TheseFit(before: seq<Packet>, packets: seq<Packet>, n: nat, mtu: int)
    requires n <= |packets|
    ensures (forall k :: 0 <= k < |packets| ==> |packets[k]| + 3 <= mtu) ==>
              var all := before + packets[..n]; forall k :: |before| <= k < |all| ==> |all[k]| + 3 <= mtu
  {
  }

  class GattDataPlane {
    const mtu: uint16
    var w: Sink?<Packet>

    /** The plane drops its descriptor when it closes it. */
    ghost predicate Valid()
      reads this, w
    {
      w != null ==> w.closes == 0
    }

    constructor (mtu: uint16, fd: WriteFd)
      requires fd.closes == 0
      ensures Valid() && this.mtu == mtu && w == fd
    {
      this.mtu, w := mtu, fd;
    }

    /**
     The body of Send, between taking and releasing the write lock: it writes the first `written` packets of the
     message, all of them exactly when it reports success, and stops at the first refused write.
     */
    method Send(midi: Message, ts: uint16) returns (r: SendResult, ghost written: nat)
      requires Valid()
      modifies w
      ensures Valid() && w == old(w)
      ensures r == FdClosed <==> w == null
      ensures w != null ==>
                var packets := Framed(midi, ts, Usable(mtu));
                && written <= |packets|
                && w.written == old(w.written) + packets[..written]
                && (r == Sent <==> written == |packets|)
                && w.attempts == old(w.attempts) + written + (if r == Sent then 0 else 1)
                && (forall a :: old(w.attempts) <= a < old(w.attempts) + written ==> w.accepts(a))
                && (written < |packets| ==> !w.accepts(old(w.attempts) + written))
      ensures w != null && Bracketed(midi) && mtu >= 7 ==>
                forall k :: |old(w.written)| <= k < |w.written| ==> |w.written[k]| + 3 <= mtu
      ensures r == Sent ==>
                |w.written| - |old(w.written)|
                == if Bracketed(midi) && 7 <= mtu < |midi| + 5 then CeilDiv(|midi| + 2, mtu - 4) else 1
    {
      written := 0;
      if w == null {
        return FdClosed, 0;
      }
      ghost var before := w.written;
      var packets := FrameMessageMTU(midi, ts, Usable(mtu));
      PlanePackets(midi, ts, mtu);
      var k := 0;
      while k < |packets|
        invariant 0 <= k == written <= |packets|
        invariant w.written == old(w.written) + packets[..k]
        invariant w.closes == 0 && w.attempts == old(w.attempts) + k
        invariant forall a :: old(w.attempts) <= a < old(w.attempts) + k ==> w.accepts(a)
      {
        var ok := w.Write(packets[k]);
        if !ok {
          TheseFit(before, packets, k, mtu);
          return WriteFailed, written;
        }
        assert packets[..k + 1] == packets[..k] + [packets[k]];
        k, written := k + 1, written + 1;
      }
      assert packets[..k] == packets;
      TheseFit(before, packets, k, mtu);
      return Sent, written;
    }

    /** The part of Close under the write lock: the descriptor is closed once, however often Close is called. */
    method Close()
      requires Valid()
      modifies this`w, w
      ensures Valid() && w == null
      ensures old(w) != null ==>
                old(w).closes == 1 && old(w).written == old(w.written) && old(w).attempts == old(w.attempts)
    {
      if w != null {
        w.Close();
        w := null;
      }
    }
  }

  // ---------------------------------------------------------------- listening

  /** The MIDI channel of a channel-voice message; system messages have none. */
  function ChannelOf(midi: Message): (c: Option<nat>)
    ensures c.Some? ==> c.value < 16
  {
    if midi != [] && 0x80 <= midi[0] < 0xF0 then Some(midi[0] % 0x10) else None
  }

  /** The channel is the low half of the status byte of any of the seven channel-voice kinds, whatever the data. */
  lemma ChannelRoundTrip(kind: nat, channel: nat, data: seq<byte>)
    requires 8 <= kind <= 14 && channel < 16
    ensures ChannelOf([kind * 0x10 + channel] + data) == Some(channel)
  {
    assert (kind * 0x10 + channel) % 0x10 == channel;
  }

  datatype Event = MidiEvent(channel: nat, data: seq<byte>)

  function EventOf(m: Message): Event {
    match ChannelOf(m)
    case Some(c) => MidiEvent(c, m)
    case None => MidiEvent(0, m)
  }

  /**
   The event carries the whole message, and its channel: the number below 16 that a channel-voice status byte has beyond
   a multiple of 16, and 0 for every other message.
   */
  predicate Carries(e: Event, m: Message) {
    && e.data == m
    && if m != [] && 0x80 <= m[0] < 0xF0 then e.channel < 16 && (m[0] - e.channel) % 16 == 0 else e.channel == 0
  }

  predicate AllCarry(es: seq<Event>, ms: seq<Message>) {
    |es| == |ms| && forall k :: 0 <= k < |ms| ==> Carries(es[k], ms[k])
  }

  lemma EventCarries(m: Message)
    ensures Carries(EventOf(m), m)
  {
    if ChannelOf(m).Some? {
      assert m[0] == m[0] / 16 * 16 + m[0] % 16;
      assert (m[0] - m[0] % 16) % 16 == 0;
    }
  }

  lemma EventsCarry(ms: seq<Message>)
    ensures AllCarry(EventsOf(ms), ms)
  {
    forall k | 0 <= k < |ms| ensures Carries(EventsOf(ms)[k], ms[k]) {
      EventCarries(ms[k]);
    }
  }

  /** A channel message built from its kind and channel arrives with that channel and all its bytes. */
  lemma EventRoundTrip(kind: nat, channel: nat, data: seq<byte>)
    requires 8 <= kind <= 14 && channel < 16
    ensures EventOf([kind * 0x10 + channel] + data) == MidiEvent(channel, [kind * 0x10 + channel] + data)
  {
    ChannelRoundTrip(kind, channel, data);
  }

  function EventsOf(ms: seq<Message>): (es: seq<Event>)
    ensures |es| == |ms|
    ensures forall k :: 0 <= k < |ms| ==> es[k] == EventOf(ms[k])
  {
    seq(|ms|, k requires 0 <= k < |ms| => EventOf(ms[k]))
  }

  lemma EventsConcat(a: seq<Message>, b: seq<Message>)
    ensures EventsOf(a + b) == EventsOf(a) + EventsOf(b)
  {
  }

  /** The packets among the received bus signals; a signal without a characteristic value is skipped. */
  function Inbound(signals: seq<Option<Packet>>): seq<Packet> {
    if signals == [] then []
    else
      var last := signals[|signals| - 1];
      Inbound(signals[..|signals| - 1]) + (if last.Some? then [last.value] else [])
  }

  /** Every characteristic value counts, in order, and nothing else. */
  lemma {:induction false} InboundConcat(a: seq<Option<Packet>>, b: seq<Option<Packet>>)
    ensures Inbound(a + b) == Inbound(a) + Inbound(b)
    decreases |b|
  {
    if b == [] {
      assert a + b == a;
      assert Inbound(a) + [] == Inbound(a);
    } else {
      var n := |b| - 1;
      assert (a + b)[..|a + b| - 1] == a + b[..n];
      InboundConcat(a, b[..n]);
      Assoc(Inbound(a), Inbound(b[..n]), if b[n].Some? then [b[n].value] else []);
    }
  }

  lemma InboundOne(p: Packet)
    ensures Inbound([Some(p)]) == [p] && Inbound([None]) == []
  {
    assert [Some(p)][..0] == [] && [Option<Packet>.None][..0] == [];
  }

  lemma InboundNext(signals: seq<Option<Packet>>, i: nat)
    requires i < |signals|
    ensures Inbound(signals[..i + 1])
         == if signals[i].Some? then Inbound(signals[..i]) + [signals[i].value] else Inbound(signals[..i])
  {
    assert signals[..i + 1][..i] == signals[..i];
    assert Inbound(signals[..i]) + [] == Inbound(signals[..i]);
  }

  /** The inner loop of the listener: one event per decoded message. */
  method Forward(msgs: seq<Message>, before: seq<Event>) returns (out: seq<Event>)
    ensures out == before + EventsOf(msgs)
  {
    out := before;
    var j := 0;
    while j < |msgs|
      invariant 0 <= j <= |msgs|
      invariant out == before + EventsOf(msgs)[..j]
    {
      out := out + [EventOf(msgs[j])];
      j := j + 1;
    }
    assert EventsOf(msgs)[..j] == EventsOf(msgs);
  }

  /** The listening loop, until the session ends: one decoder for all the signals. */
  method Listen(signals: seq<Option<Packet>>) returns (out: seq<Event>)
    ensures out == EventsOf(FeedAll(FRESH, Inbound(signals)).out)
    ensures AllCarry(out, FeedAll(FRESH, Inbound(signals)).out)
  {
    out := [];
    var dec := new Decoder();
    ghost var fed := Fed(FRESH, []);
    var i := 0;
    while i < |signals|
      invariant 0 <= i <= |signals| && dec.Valid() && fresh(dec)
      invariant fed == FeedAll(FRESH, Inbound(signals[..i]))
      invariant dec.Carried() == fed.carry && out == EventsOf(fed.out)
    {
      InboundNext(signals, i);
      if signals[i].Some? {
        var raw := signals[i].value;
        FeedNext(Inbound(signals[..i]), raw, fed.carry);
        var msgs := dec.Decode(raw);
        out := Forward(msgs, out);
        EventsConcat(fed.out, msgs);
        fed := Fed(dec.Carried(), fed.out + msgs);
      }
      i := i + 1;
    }
    assert signals[..i] == signals;
    EventsCarry(fed.out);
  }

  lemma FeedNext(before: seq<Packet>, raw: Packet, c: Carry)
    requires FeedAll(FRESH, before).carry == c
    ensures FeedAll(FRESH, before + [raw]) == Fed(Feed(c, raw).carry, FeedAll(FRESH, before).out + Feed(c, raw).out)
  {
    FeedAllOne(c, raw);
    FeedAllConcat(FRESH, before, [raw]);
  }
}
