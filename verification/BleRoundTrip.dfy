/** What a receiver recovers from the packets a sender builds: one message, a cut-off message, a whole session. */
module BleRoundTrip {
  import opened Bytes
  import opened BleAutomaton
  import opened BleFraming

  // ---------------------------------------------------------------- bytes of one message

  lemma RunShort(s: State, m: Message)
    requires s.phase.AwaitStatus? && IsShort(m)
    ensures Run(s, m) == State(AwaitStamp, NextRunning(s.running, m[0]), s.sysex, s.out + [m])
  {
    var t := Begin(s, m[0]);
    assert Run(s, m) == Run(t, m[1..]);
    assert [m[0]] + m[1..] == m;
    if DataLen(m[0]) == 0 {
      assert m[1..] == [];
    } else {
      RunCollecting(t, m[1..]);
      assert [] + m[1..] == m[1..];
    }
  }

  /** In an open SysEx, fragment bytes followed by any timestamp byte and the terminator complete it. */
  lemma RunTerminator(s: State, bs: seq<byte>, stamp: byte)
    requires s.phase.InSysEx? && 0xF7 !in bs && stamp >= 0x80
    ensures Run(s, bs + [stamp, 0xF7])
         == State(if stamp == 0xF7 then AwaitStatus else AwaitStamp, 0, [], s.out + [s.sysex + LowBytes(bs) + [0xF7]])
  {
    RunConcat(s, bs, [stamp, 0xF7]);
    RunSysEx(s, bs);
    var t := s.(sysex := s.sysex + LowBytes(bs));
    var u := Step(t, stamp);
    assert [stamp, 0xF7][1..] == [0xF7];
    assert [0xF7][1..] == [];
    assert Run(t, [stamp, 0xF7]) == Run(u, [0xF7]) == Run(Step(u, 0xF7), []);
  }

  /** A SysEx sent whole: the terminator follows its data without a timestamp of its own. */
  lemma RunWholeSysEx(s: State, m: Message)
    requires s.phase.AwaitStatus? && IsSysEx(m)
    ensures Run(s, m) == State(AwaitStamp, 0, [], s.out + [m])
  {
    var body := m[1..|m| - 1];
    assert m == [0xF0] + body + [0xF7];
    var t := Begin(s, 0xF0);
    assert m[1..] == body + [0xF7];
    RunConcat(t, body, [0xF7]);
    RunSysEx(t, body);
    LowBytesOfData(body);
    var u := t.(sysex := [0xF0] + body);
    assert [0xF7][1..] == [];
    assert Run(u, [0xF7]) == Run(Step(u, 0xF7), []);
    assert u.sysex + [0xF7] == m;
  }

  // ---------------------------------------------------------------- packets of one message

  /** A decoder outside any SysEx. */
  function Clean(running: byte): Carry {
    Carry(running, [], false)
  }

  function RunningAfter(running: byte, m: Message): byte
    requires WellFormed(m)
  {
    if m[0] == 0xF0 then 0 else NextRunning(running, m[0])
  }

  lemma FeedWhole(c: Carry, m: Message, ts: uint16)
    requires c.Valid() && !c.inSysex && WellFormed(m)
    ensures Feed(c, FrameMessageAt(m, ts)) == Fed(Clean(RunningAfter(c.running, m)), [m])
  {
    var p := FrameMessageAt(m, ts);
    assert Payload(p)[1..] == m;
    var s := Open(c).(phase := AwaitStatus);
    if IsSysEx(m) {
      RunWholeSysEx(s, m);
    } else {
      RunShort(s, m);
    }
  }

  lemma FeedOpening(c: Carry, header: byte, stamp: byte, bs: seq<byte>)
    requires !c.inSysex && stamp >= 0x80 && 0xF7 !in bs
    ensures Feed(c, OpeningPacket(header, stamp, bs)) == Fed(Carry(c.running, [0xF0] + LowBytes(bs), true), [])
  {
    var p := OpeningPacket(header, stamp, bs);
    var s := Open(c).(phase := AwaitStatus);
    assert Payload(p)[1..] == [0xF0] + bs;
    assert ([0xF0] + bs)[1..] == bs;
    assert Run(Open(c), Payload(p)) == Run(s, [0xF0] + bs) == Run(Begin(s, 0xF0), bs);
    RunSysEx(Begin(s, 0xF0), bs);
  }

  lemma FeedMiddle(c: Carry, p: Packet)
    requires c.inSysex && IsMiddle(p)
    ensures Feed(c, p) == Fed(c.(sysex := c.sysex + LowBytes(Payload(p))), [])
  {
    RunSysEx(Open(c), Payload(p));
  }

  lemma FeedClosing(c: Carry, header: byte, bs: seq<byte>, stamp: byte)
    requires c.inSysex && stamp >= 0x80 && 0xF7 !in bs
    ensures Feed(c, ClosingPacket(header, bs, stamp)) == Fed(FRESH, [c.sysex + LowBytes(bs) + [0xF7]])
  {
    assert Payload(ClosingPacket(header, bs, stamp)) == bs + [stamp, 0xF7];
    RunTerminator(Open(c), bs, stamp);
  }

  // ---------------------------------------------------------------- fragmentation independence

  lemma FeedFirst(c: Carry, ps: seq<Packet>, f: Fed)
    requires ps != [] && Feed(c, ps[0]) == f
    ensures FeedAll(c, ps) == Fed(FeedAll(f.carry, ps[1..]).carry, f.out + FeedAll(f.carry, ps[1..]).out)
  {
  }

  /**
   While a SysEx is open, packets without a 0xF7 emit nothing, keep the running status, and extend it by exactly their
   data bytes in order: it is never lost, overwritten or reopened, whatever else the packets hold.
   */
  lemma {:induction false} SysExAbsorbs(c: Carry, ps: seq<Packet>)
    requires c.inSysex && AllMiddle(ps)
    ensures FeedAll(c, ps) == Fed(c.(sysex := c.sysex + LowBytes(Flatten(Payloads(ps)))), [])
    decreases |ps|
  {
    if ps == [] {
      assert c.sysex + LowBytes(Flatten(Payloads(ps))) == c.sysex;
    } else {
      var here, later := Payload(ps[0]), Flatten(Payloads(ps[1..]));
      var c' := c.(sysex := c.sysex + LowBytes(here));
      FeedMiddle(c, ps[0]);
      SysExAbsorbs(c', ps[1..]);
      FeedFirst(c, ps, Fed(c', []));
      PayloadsFirst(ps);
      LowBytesConcat(here, later);
      Assoc(c.sysex, LowBytes(here), LowBytes(later));
    }
  }

  lemma FeedParts(c: Carry, first: Packet, middle: seq<Packet>, last: Packet, c1: Carry, c2: Carry, end: Fed)
    requires Feed(c, first) == Fed(c1, []) && FeedAll(c1, middle) == Fed(c2, []) && Feed(c2, last) == end
    ensures FeedAll(c, [first] + middle + [last]) == end
  {
    FeedAllConcat(c, [first] + middle, [last]);
    FeedAllConcat(c, [first], middle);
    FeedAllOne(c, first);
    FeedAllOne(c2, last);
    assert [] + end.out == end.out;
  }

  /**
   However the bytes of a SysEx are cut over an opening packet, any number of middle packets (bare headers included)
   and a closing packet, and whatever timestamps are used, the decoder emits the same single message.
   */
  lemma FragmentationIndependence(
    c: Carry, header: byte, stamp: byte, first: seq<byte>, middle: seq<Packet>,
    header': byte, last: seq<byte>, stamp': byte)
    requires !c.inSysex && stamp >= 0x80 && stamp' >= 0x80
    requires 0xF7 !in first && 0xF7 !in last && AllMiddle(middle)
    ensures FeedAll(c, [OpeningPacket(header, stamp, first)] + middle + [ClosingPacket(header', last, stamp')])
         == Fed(FRESH, [[0xF0] + LowBytes(first + Flatten(Payloads(middle)) + last) + [0xF7]])
  {
    FeedFragments(c, header, stamp, first, middle, header', last, stamp');
    LowBytesOfThree(first, Flatten(Payloads(middle)), last);
  }

  lemma FeedFragments(
    c: Carry, header: byte, stamp: byte, first: seq<byte>, middle: seq<Packet>,
    header': byte, last: seq<byte>, stamp': byte)
    requires !c.inSysex && stamp >= 0x80 && stamp' >= 0x80
    requires 0xF7 !in first && 0xF7 !in last && AllMiddle(middle)
    ensures FeedAll(c, [OpeningPacket(header, stamp, first)] + middle + [ClosingPacket(header', last, stamp')])
         == Fed(FRESH, [[0xF0] + LowBytes(first) + LowBytes(Flatten(Payloads(middle))) + LowBytes(last) + [0xF7]])
  {
    var c1 := Carry(c.running, [0xF0] + LowBytes(first), true);
    var c2 := c1.(sysex := c1.sysex + LowBytes(Flatten(Payloads(middle))));
    FeedOpening(c, header, stamp, first);
    SysExAbsorbs(c1, middle);
    FeedClosing(c2, header', last, stamp');
    FeedParts(c, OpeningPacket(header, stamp, first), middle, ClosingPacket(header', last, stamp'), c1, c2,
              Fed(FRESH, [c2.sysex + LowBytes(last) + [0xF7]]));
  }

  lemma LowBytesOfThree(a: seq<byte>, b: seq<byte>, c: seq<byte>)
    ensures [0xF0] + LowBytes(a) + LowBytes(b) + LowBytes(c) + [0xF7] == [0xF0] + LowBytes(a + b + c) + [0xF7]
  {
    LowBytesConcat(a + b, c);
    LowBytesConcat(a, b);
    Assoc([0xF0], LowBytes(a), LowBytes(b));
    Assoc([0xF0], LowBytes(a) + LowBytes(b), LowBytes(c));
  }

  /** One well-formed message survives framing, at every limit and with every timestamp. */
  lemma FramedDecodes(c: Carry, m: Message, ts: uint16, mtu: int)
    requires c.Valid() && !c.inSysex && WellFormed(m)
    ensures FeedAll(c, Framed(m, ts, mtu)) == Fed(Clean(RunningAfter(c.running, m)), [m])
  {
    if MustChunk(m, mtu) {
      ChunksDecode(c, m, ts, mtu);
    } else {
      FeedWhole(c, m, ts);
      FeedAllOne(c, FrameMessageAt(m, ts));
    }
  }

  lemma ChunksDecode(c: Carry, m: Message, ts: uint16, mtu: int)
    requires !c.inSysex && IsSysEx(m) && MustChunk(m, mtu)
    ensures FeedAll(c, Chunks(m, ts, mtu)) == Fed(FRESH, [m])
  {
    var first, middle, last := ChunksShape(m, ts, mtu);
    FragmentationIndependence(c, Header(ts), Stamp(ts), first, middle, Header(ts), last, Stamp(ts));
    LowBytesOfData(m[1..|m| - 1]);
    SysExParts(m);
  }

  /** Exactly the well-formed messages survive framing. */
  lemma FramedDecodesExactly(c: Carry, m: Message, ts: uint16, mtu: int)
    requires c.Valid() && !c.inSysex
    ensures FeedAll(c, Framed(m, ts, mtu)).out == [m] <==> WellFormed(m)
  {
    if WellFormed(m) {
      FramedDecodes(c, m, ts, mtu);
    } else {
      FeedAllValid(c, Framed(m, ts, mtu));
      var out := FeedAll(c, Framed(m, ts, mtu)).out;
      assert |out| == 1 ==> WellFormed(out[0]);
    }
  }

  /**
   A send cut off after k of its packets. Nothing has been emitted, and the decoder is left inside a SysEx that is the
   prefix of the message written so far: every packet holds mtu - 1 bytes, the first one of them a timestamp.
   */
  lemma FramedPrefix(c: Carry, m: Message, ts: uint16, mtu: int, k: nat)
    requires !c.inSysex && WellFormed(m) && 0 < k < |Framed(m, ts, mtu)|
    ensures FeedAll(c, Framed(m, ts, mtu)[..k])
         == Fed(Carry(c.running, SoFar(m, mtu, k), true), [])
  {
    var first, middle := ChunksPrefix(m, ts, mtu, k);
    FeedOpening(c, Header(ts), Stamp(ts), first);
    LowBytesOfData(first);
    FeedOpened(c, OpeningPacket(Header(ts), Stamp(ts), first), Carry(c.running, [0xF0] + first, true), middle);
    LowBytesOfData(Flatten(Payloads(middle)));
  }

  lemma FeedOpened(c: Carry, p: Packet, c1: Carry, middle: seq<Packet>)
    requires Feed(c, p) == Fed(c1, []) && c1.inSysex && AllMiddle(middle)
    ensures FeedAll(c, [p] + middle) == Fed(c1.(sysex := c1.sysex + LowBytes(Flatten(Payloads(middle)))), [])
  {
    assert ([p] + middle)[1..] == middle;
    SysExAbsorbs(c1, middle);
    FeedFirst(c, [p] + middle, Fed(c1, []));
  }

  /** A cut-off send is harmless exactly when none or all of its packets were written. */
  lemma AbortExact(c: Carry, m: Message, ts: uint16, mtu: int, k: nat)
    requires c.Valid() && !c.inSysex && WellFormed(m) && k <= |Framed(m, ts, mtu)|
    ensures !FeedAll(c, Framed(m, ts, mtu)[..k]).carry.inSysex <==> k == 0 || k == |Framed(m, ts, mtu)|
  {
    var ps := Framed(m, ts, mtu);
    if k == |ps| {
      assert ps[..k] == ps;
      FramedDecodes(c, m, ts, mtu);
    } else if k > 0 {
      FramedPrefix(c, m, ts, mtu, k);
    }
  }

  /** A SysEx of three data bytes at a limit of four, cut off after its first packet. */
  lemma SendTorn(ts: uint16)
    ensures |Framed([0xF0, 1, 2, 3, 0xF7], ts, 4)| == 3
    ensures FeedAll(FRESH, Framed([0xF0, 1, 2, 3, 0xF7], ts, 4)[..1]).carry.inSysex
  {
    var m := [0xF0, 1, 2, 3, 0xF7];
    assert IsSysEx(m) && MustChunk(m, 4);
    ChunkCount(m, ts, 4);
    CeilDivLeast(7, 3, 3);
    AbortExact(FRESH, m, ts, 4, 1);
  }

  // ---------------------------------------------------------------- a session

  /** One call of the sender: the message, the clock at the time, and the limit in force. */
  datatype Outgoing = Outgoing(midi: Message, ts: uint16, mtu: int)

  function SessionPackets(sends: seq<Outgoing>): seq<Packet> {
    if sends == [] then [] else Framed(sends[0].midi, sends[0].ts, sends[0].mtu) + SessionPackets(sends[1..])
  }

  function Messages(sends: seq<Outgoing>): seq<Message> {
    if sends == [] then [] else [sends[0].midi] + Messages(sends[1..])
  }

  lemma {:induction false} SessionDecodes(c: Carry, sends: seq<Outgoing>)
    requires c.Valid() && !c.inSysex && forall k :: 0 <= k < |sends| ==> WellFormed(sends[k].midi)
    ensures FeedAll(c, SessionPackets(sends)).out == Messages(sends)
    ensures FeedAll(c, SessionPackets(sends)).carry.Valid() && !FeedAll(c, SessionPackets(sends)).carry.inSysex
    decreases |sends|
  {
    if sends != [] {
      var s := sends[0];
      var ps := Framed(s.midi, s.ts, s.mtu);
      FeedAllConcat(c, ps, SessionPackets(sends[1..]));
      FramedDecodes(c, s.midi, s.ts, s.mtu);
      FeedAllValid(c, ps);
      SessionDecodes(FeedAll(c, ps).carry, sends[1..]);
    }
  }

  /**
   A whole session, each message framed with its own limit and timestamp: one decoder recovers exactly the list of
   messages sent if and only if each of them is well formed.
   */
  lemma SessionRoundTrip(c: Carry, sends: seq<Outgoing>)
    requires c.Valid() && !c.inSysex
    ensures FeedAll(c, SessionPackets(sends)).out == Messages(sends)
       <==> forall k :: 0 <= k < |sends| ==> WellFormed(sends[k].midi)
  {
    MessagesAt(sends);
    if forall k :: 0 <= k < |sends| ==> WellFormed(sends[k].midi) {
      SessionDecodes(c, sends);
    } else {
      FeedAllValid(c, SessionPackets(sends));
      var k :| 0 <= k < |sends| && !WellFormed(sends[k].midi);
      assert Messages(sends)[k] == sends[k].midi;
    }
  }

  lemma {:induction false} MessagesAt(sends: seq<Outgoing>)
    ensures |Messages(sends)| == |sends|
    ensures forall k :: 0 <= k < |sends| ==> Messages(sends)[k] == sends[k].midi
  {
    if sends != [] {
      MessagesAt(sends[1..]);
    }
  }

  // ---------------------------------------------------------------- recovery

  /** A decoder inside a SysEx, or outside one with no running status: data bytes alone make it emit nothing. */
  predicate Mute(c: Carry) {
    c.Valid() && (c.inSysex || c.running == 0)
  }

  /** In a decoder that awaits a message and has no running status, data bytes kill the rest of the packet. */
  lemma RunStray(s: State, bs: seq<byte>)
    requires s.phase.AwaitStamp? || s.phase.AwaitStatus?
    requires s.running == 0 && bs != [] && bs[0] < 0x80
    ensures Run(s, bs) == s.(phase := Dead)
  {
    RunDead(Step(s, bs[0]), bs[1..]);
  }

  lemma MiddleKeepsMute(c: Carry, p: Packet)
    requires Mute(c) && SevenBit(Payload(p))
    ensures Mute(Feed(c, p).carry)
  {
    RunValid(Open(c), Payload(p));
    if c.inSysex {
      FeedMiddle(c, p);
    } else if Payload(p) != [] {
      RunStray(Open(c), Payload(p));
    }
  }

  /** An opening packet leaves every decoder mute: inside the new SysEx, inside an old one, or just out of it. */
  lemma OpeningMutes(c: Carry, header: byte, stamp: byte, data: seq<byte>)
    requires c.Valid() && stamp >= 0x80 && SevenBit(data)
    ensures Mute(Feed(c, OpeningPacket(header, stamp, data)).carry)
  {
    var p := OpeningPacket(header, stamp, data);
    RunValid(Open(c), Payload(p));
    if !c.inSysex {
      FeedOpening(c, header, stamp, data);
    } else {
      assert Payload(p) == [stamp, 0xF0] + data;
      RunConcat(Open(c), [stamp, 0xF0], data);
      RunTwo(Open(c), stamp, 0xF0);
      var s := Run(Open(c), [stamp, 0xF0]);
      if stamp != 0xF7 {
        RunSysEx(s, data);
      } else if data != [] {
        RunStray(s, data);
      }
    }
  }

  lemma RunTwo(s: State, a: byte, b: byte)
    ensures Run(s, [a, b]) == Step(Step(s, a), b)
  {
    assert [a, b][1..] == [b];
    RunOne(Step(s, a), b);
  }

  /** A closing packet leaves a mute decoder outside any SysEx and without running status. */
  lemma ClosingClears(c: Carry, header: byte, data: seq<byte>, stamp: byte)
    requires Mute(c) && stamp >= 0x80 && SevenBit(data)
    ensures Feed(c, ClosingPacket(header, data, stamp)).carry == FRESH
  {
    var p := ClosingPacket(header, data, stamp);
    assert Payload(p) == data + [stamp, 0xF7];
    if c.inSysex {
      FeedClosing(c, header, data, stamp);
    } else if data == [] {
      assert Payload(p) == [stamp, 0xF7];
      RunTwo(Open(c), stamp, 0xF7);
    } else {
      RunStray(Open(c), Payload(p));
    }
  }

  /** The same for a SysEx sent in one packet, whatever state the decoder was in. */
  lemma WholeClears(c: Carry, m: Message, ts: uint16)
    requires c.Valid() && IsSysEx(m)
    ensures Feed(c, FrameMessageAt(m, ts)).carry == FRESH
  {
    var p, body := FrameMessageAt(m, ts), m[1..|m| - 1];
    SysExParts(m);
    assert Payload(p) == [Stamp(ts)] + m && Payload(p)[1..] == m && m[1..] == body + [0xF7];
    var s := Step(Open(c), Stamp(ts));
    assert Run(Open(c), Payload(p)) == Run(s, m) == Run(Step(s, 0xF0), body + [0xF7]);
    var t := Step(s, 0xF0);
    if t.phase.InSysEx? {
      RunConcat(t, body, [0xF7]);
      RunSysEx(t, body);
      RunOne(Run(t, body), 0xF7);
    } else if body == [] {
      assert body + [0xF7] == [0xF7];
      RunOne(t, 0xF7);
    } else {
      RunStray(t, body + [0xF7]);
    }
  }

  lemma RunOne(s: State, a: byte)
    ensures Run(s, [a]) == Step(s, a)
  {
    assert [a][1..] == [];
  }

  lemma {:induction false} MiddlesKeepMute(c: Carry, ps: seq<Packet>)
    requires Mute(c) && forall k :: 0 <= k < |ps| ==> SevenBit(Payload(ps[k]))
    ensures Mute(FeedAll(c, ps).carry)
    decreases |ps|
  {
    if ps != [] {
      MiddleKeepsMute(c, ps[0]);
      MiddlesKeepMute(Feed(c, ps[0]).carry, ps[1..]);
    }
  }

  /** One complete SysEx, chunked or not, puts the decoder back between messages, whatever it had received before. */
  lemma SysExResets(c: Carry, m: Message, ts: uint16, mtu: int)
    requires c.Valid() && IsSysEx(m)
    ensures FeedAll(c, Framed(m, ts, mtu)).carry == FRESH
  {
    if MustChunk(m, mtu) {
      var first, middle, last := ChunksShape(m, ts, mtu);
      var opening, closing := OpeningPacket(Header(ts), Stamp(ts), first), ClosingPacket(Header(ts), last, Stamp(ts));
      PayloadsData(middle, m[1..|m| - 1], first, last);
      OpeningMutes(c, Header(ts), Stamp(ts), first);
      FeedAllOne(c, opening);
      FeedAllConcat(c, [opening], middle);
      MiddlesKeepMute(Feed(c, opening).carry, middle);
      var c2 := FeedAll(c, [opening] + middle).carry;
      ClosingClears(c2, Header(ts), last, Stamp(ts));
      FeedAllConcat(c, [opening] + middle, [closing]);
      FeedAllOne(c2, closing);
    } else {
      WholeClears(c, m, ts);
      FeedAllOne(c, FrameMessageAt(m, ts));
    }
  }

  /** Payloads that make up part of a 7-bit body are 7-bit. */
  lemma {:induction false} PayloadsData(ps: seq<Packet>, body: seq<byte>, before: seq<byte>, after: seq<byte>)
    requires SevenBit(body) && before + Flatten(Payloads(ps)) + after == body
    ensures forall k :: 0 <= k < |ps| ==> SevenBit(Payload(ps[k]))
    decreases |ps|
  {
    if ps != [] {
      PayloadsFirst(ps);
      var p, rest := Payload(ps[0]), Flatten(Payloads(ps[1..]));
      Assoc(before, p, rest);
      assert forall k :: 0 <= k < |p| ==> p[k] == body[|before| + k];
      PayloadsData(ps[1..], body, before + p, after);
    }
  }

  /**
   Recovery: after any packets at all, a torn send included, one complete SysEx makes the receiver recover every message
   of the session that follows it, in order and with nothing in between.
   */
  lemma Recovery(noise: seq<Packet>, m: Message, ts: uint16, mtu: int, sends: seq<Outgoing>)
    requires IsSysEx(m) && forall k :: 0 <= k < |sends| ==> WellFormed(sends[k].midi)
    ensures var before := noise + Framed(m, ts, mtu);
            FeedAll(FRESH, before + SessionPackets(sends)).out == FeedAll(FRESH, before).out + Messages(sends)
  {
    var before := noise + Framed(m, ts, mtu);
    FeedAllValid(FRESH, noise);
    FeedAllConcat(FRESH, noise, Framed(m, ts, mtu));
    SysExResets(FeedAll(FRESH, noise).carry, m, ts, mtu);
    FeedAllConcat(FRESH, before, SessionPackets(sends));
    SessionDecodes(FRESH, sends);
  }
}
