/**
 BLE-MIDI decoding as a byte-at-a-time automaton: the reference meaning of a received packet stream.

 The automaton has no index and no look-ahead. It is folded over the bytes that follow a packet's header byte, and
 between packets only the running status and an open SysEx survive. `BleDecoder.Decoder` is proved to compute it.
 */
module BleAutomaton {
  import opened Bytes

  type Message = seq<byte>
  type Packet = seq<byte>

  /** What survives from one packet to the next: the three fields of the Go `Decoder`. */
  datatype Carry = Carry(running: byte, sysex: seq<byte>, inSysex: bool) {
    predicate Valid() {
      && (running == 0 || 0x80 <= running < 0xF0)
      && (if inSysex then |sysex| >= 1 && sysex[0] == 0xF0 && SevenBit(sysex[1..]) else sysex == [])
    }
  }

  const FRESH := Carry(0, [], false)

  /** What the next byte of the current packet means. */
  datatype Phase =
    | AwaitStamp                                      // a timestamp, or running-status data
    | AwaitStatus                                     // the timestamp has been read
    | Collecting(status: byte, data: seq<byte>)       // some of the data bytes of `status` are still missing
    | InSysEx
    | Dead                                            // the rest of the packet is ignored

  datatype State = State(phase: Phase, running: byte, sysex: seq<byte>, out: seq<Message>)

  /** The number of data bytes that follow a status byte. */
  function DataLen(status: byte): (n: nat)
    ensures n <= 2
    ensures 0x80 <= status < 0xF0 ==> n >= 1
  {
    if status >= 0xF8 then 0
    else if status >= 0xF0 then
      if status == 0xF1 || status == 0xF3 then 1
      else if status == 0xF2 then 2
      else 0
    else if 0xC0 <= status <= 0xDF then 1
    else 2
  }

  /** The MIDI 1.0 table: by high nibble for channel messages, then one entry for each system message. */
  lemma DataLenIsMidi(status: byte)
    requires status >= 0x80
    ensures DataLen(status) ==
            if status < 0xF0 then [2, 2, 2, 2, 1, 1, 2][status / 0x10 - 8]
            else [0, 1, 2, 1, 0, 0, 0, 0, 0, 0, 0, 0, 0, 0, 0, 0][status - 0xF0]
  {
    var nibble := status / 0x10;
    assert nibble == 12 || nibble == 13 <==> 0xC0 <= status <= 0xDF;
  }

  /** The running status in force after a complete message with this status byte. */
  function NextRunning(running: byte, status: byte): byte {
    if status < 0xF0 then status else if status < 0xF8 then 0 else running
  }

  function Emit(s: State, status: byte, data: seq<byte>): State {
    State(AwaitStamp, NextRunning(s.running, status), s.sysex, s.out + [[status] + data])
  }

  function Collect(s: State, status: byte, data: seq<byte>, b: byte): State {
    if |data| + 1 >= DataLen(status) then Emit(s, status, data + [b])
    else s.(phase := Collecting(status, data + [b]))
  }

  function Begin(s: State, status: byte): State {
    if status == 0xF0 then s.(phase := InSysEx, sysex := [0xF0])
    else if DataLen(status) == 0 then Emit(s, status, [])
    else s.(phase := Collecting(status, []))
  }

  function Resume(s: State, b: byte): State {
    if s.running == 0 then s.(phase := Dead) else Collect(s, s.running, [], b)
  }

  function Step(s: State, b: byte): State {
    match s.phase
    case AwaitStamp => if b >= 0x80 then s.(phase := AwaitStatus) else Resume(s, b)
    case AwaitStatus => if b >= 0x80 then Begin(s, b) else Resume(s, b)
    case Collecting(status, data) => Collect(s, status, data, b)
    case InSysEx =>
      if b == 0xF7 then State(AwaitStamp, 0, [], s.out + [s.sysex + [b]])
      else if b >= 0x80 then s
      else s.(sysex := s.sysex + [b])
    case Dead => s
  }

  function Run(s: State, bs: seq<byte>): State
    decreases |bs|
  {
    if bs == [] then s else Run(Step(s, bs[0]), bs[1..])
  }

  function Open(c: Carry): State {
    State(if c.inSysex then InSysEx else AwaitStamp, c.running, c.sysex, [])
  }

  function Close(s: State): Carry {
    Carry(s.running, s.sysex, s.phase.InSysEx?)
  }

  /** A packet without its header byte. */
  function Payload(p: Packet): seq<byte> {
    if p == [] then [] else p[1..]
  }

  datatype Fed = Fed(carry: Carry, out: seq<Message>)

  /** The meaning of one packet. */
  function Feed(c: Carry, p: Packet): Fed {
    var s := Run(Open(c), Payload(p));
    Fed(Close(s), s.out)
  }

  /** The meaning of a packet stream. */
  function FeedAll(c: Carry, ps: seq<Packet>): Fed
    decreases |ps|
  {
    if ps == [] then Fed(c, [])
    else
      var first := Feed(c, ps[0]);
      var rest := FeedAll(first.carry, ps[1..]);
      Fed(rest.carry, first.out + rest.out)
  }

  // ---------------------------------------------------------------- folding

  lemma {:induction false} RunConcat(s: State, a: seq<byte>, b: seq<byte>)
    ensures Run(s, a + b) == Run(Run(s, a), b)
    decreases |a|
  {
    if a == [] {
      assert a + b == b;
    } else {
      assert (a + b)[1..] == a[1..] + b;
      RunConcat(Step(s, a[0]), a[1..], b);
    }
  }

  lemma {:induction false} FeedAllConcat(c: Carry, ps: seq<Packet>, qs: seq<Packet>)
    ensures FeedAll(c, ps + qs)
         == Fed(FeedAll(FeedAll(c, ps).carry, qs).carry, FeedAll(c, ps).out + FeedAll(FeedAll(c, ps).carry, qs).out)
    decreases |ps|
  {
    if ps == [] {
      assert ps + qs == qs;
    } else {
      assert (ps + qs)[1..] == ps[1..] + qs;
      FeedAllConcat(Feed(c, ps[0]).carry, ps[1..], qs);
    }
  }

  lemma FeedAllOne(c: Carry, p: Packet)
    ensures FeedAll(c, [p]) == Feed(c, p)
  {
    var f := Feed(c, p);
    assert [p][1..] == [];
    assert f.out + [] == f.out;
  }

  /** Collecting takes exactly the missing data bytes, whatever they are, and emits once they are all there. */
  lemma {:induction false} RunCollecting(s: State, bs: seq<byte>)
    requires s.phase.Collecting? && |s.phase.data| + |bs| <= DataLen(s.phase.status)
    requires |s.phase.data| < DataLen(s.phase.status)
    ensures Run(s, bs) ==
            if |s.phase.data| + |bs| == DataLen(s.phase.status) then Emit(s, s.phase.status, s.phase.data + bs)
            else s.(phase := Collecting(s.phase.status, s.phase.data + bs))
    decreases |bs|
  {
    if bs == [] {
      assert s.phase.data + bs == s.phase.data;
    } else {
      assert s.phase.data + bs == s.phase.data + [bs[0]] + bs[1..];
      if |bs| == 1 {
        assert s.phase.data + bs == s.phase.data + [bs[0]];
      } else {
        RunCollecting(Step(s, bs[0]), bs[1..]);
      }
    }
  }

  // ---------------------------------------------------------------- reading a packet by index

  /** From state s before p[i], the rest of the packet takes the automaton to `end`. */
  ghost predicate Reads(s: State, p: Packet, i: int, end: State) {
    0 <= i <= |p| && forall rest :: rest == p[i..] ==> Run(s, rest) == end
  }

  lemma ReadsAll(s: State, p: Packet, i: nat)
    requires i <= |p|
    ensures Reads(s, p, i, Run(s, p[i..]))
  {
  }

  lemma ReadNothing(s: State, p: Packet, end: State)
    requires Reads(s, p, |p|, end)
    ensures end == s
  {
    assert Run(s, p[|p|..]) == s;
  }

  lemma ReadStamp(s: State, p: Packet, i: nat, end: State)
    requires s.phase.AwaitStamp? && i < |p| && p[i] >= 0x80 && Reads(s, p, i, end)
    ensures Reads(s.(phase := AwaitStatus), p, i + 1, end)
  {
    assert p[i..][1..] == p[i + 1..];
    assert Run(s, p[i..]) == Run(s.(phase := AwaitStatus), p[i + 1..]);
  }

  /** From s, with `status` read or resumed and p[i] the first byte after it, the packet ends in `end`. */
  ghost predicate ReadsData(s: State, status: byte, p: Packet, i: int, end: State) {
    0 <= i <= |p| && forall rest, begun :: rest == p[i..] && begun == Begin(s, status) ==> Run(begun, rest) == end
  }

  lemma ReadStatus(s: State, p: Packet, i: nat, end: State)
    requires s.phase.AwaitStatus? && i < |p| && p[i] >= 0x80 && Reads(s, p, i, end)
    ensures ReadsData(s, p[i], p, i + 1, end)
  {
    assert p[i..][1..] == p[i + 1..];
    assert Run(s, p[i..]) == Run(Begin(s, p[i]), p[i + 1..]);
  }

  /** Running status: a data byte where a status byte could stand means the status byte was left out. */
  lemma ReadResume(s: State, p: Packet, i: nat, end: State)
    requires s.phase.AwaitStamp? || s.phase.AwaitStatus?
    requires i < |p| && p[i] < 0x80 && Reads(s, p, i, end)
    ensures 0x80 <= s.running < 0xF0 ==> ReadsData(s, s.running, p, i, end)
    ensures s.running == 0 ==> end == s.(phase := Dead)
  {
    assert Run(s, p[i..]) == end;
    if s.running == 0 {
      RunDead(Step(s, p[i]), p[i..][1..]);
    } else if 0x80 <= s.running < 0xF0 {
      assert Step(s, p[i]) == Step(Begin(s, s.running), p[i]);
    }
  }

  lemma ReadOpening(s: State, p: Packet, i: nat, end: State)
    requires ReadsData(s, 0xF0, p, i, end)
    ensures Reads(State(InSysEx, s.running, [0xF0], s.out), p, i, end)
  {
    assert Run(Begin(s, 0xF0), p[i..]) == end;
  }

  /** A status byte followed by enough bytes is one message; followed by too few it changes nothing. */
  lemma ReadMessage(s: State, status: byte, p: Packet, i: nat, n: nat, end: State)
    requires !s.phase.InSysEx? && status >= 0x80 && status != 0xF0 && n == DataLen(status)
    requires ReadsData(s, status, p, i, end)
    ensures i + n <= |p| ==>
              Reads(State(AwaitStamp, NextRunning(s.running, status), s.sysex, s.out + [[status] + p[i..i + n]]),
                    p, i + n, end)
    ensures i + n > |p| ==> Close(end) == Close(s) && end.out == s.out
  {
    assert Run(Begin(s, status), p[i..]) == end;
    if i + n > |p| {
      RunCollecting(Begin(s, status), p[i..]);
    } else if n == 0 {
      assert p[i..i] == [];
    } else {
      assert p[i..] == p[i..i + n] + p[i + n..];
      RunConcat(Begin(s, status), p[i..i + n], p[i + n..]);
      RunCollecting(Begin(s, status), p[i..i + n]);
      assert [] + p[i..i + n] == p[i..i + n];
    }
  }

  lemma ReadSysExByte(s: State, p: Packet, i: nat, end: State)
    requires s.phase.InSysEx? && i < |p| && Reads(s, p, i, end)
    ensures Reads(Step(s, p[i]), p, i + 1, end)
  {
    assert p[i..][1..] == p[i + 1..];
    assert Run(s, p[i..]) == Run(Step(s, p[i]), p[i + 1..]);
  }

  lemma {:induction false} RunDead(s: State, bs: seq<byte>)
    requires s.phase.Dead?
    ensures Run(s, bs) == s
  {
    if bs != [] {
      RunDead(s, bs[1..]);
    }
  }

  /** Until a 0xF7 arrives an open SysEx only grows, by exactly the data bytes received; nothing is emitted. */
  lemma {:induction false} RunSysEx(s: State, bs: seq<byte>)
    requires s.phase.InSysEx? && 0xF7 !in bs
    ensures Run(s, bs) == s.(sysex := s.sysex + LowBytes(bs))
    decreases |bs|
  {
    if bs == [] {
      assert s.sysex + LowBytes(bs) == s.sysex;
    } else {
      RunSysEx(Step(s, bs[0]), bs[1..]);
      if bs[0] < 0x80 {
        assert s.sysex + LowBytes(bs) == s.sysex + [bs[0]] + LowBytes(bs[1..]);
      }
    }
  }

  // ---------------------------------------------------------------- what can be emitted

  predicate IsSysEx(m: Message) {
    |m| >= 2 && m[0] == 0xF0 && m[|m| - 1] == 0xF7 && SevenBit(m[1..|m| - 1])
  }

  lemma SysExParts(m: Message)
    requires IsSysEx(m)
    ensures [0xF0] + m[1..|m| - 1] + [0xF7] == m
  {
  }

  predicate IsShort(m: Message) {
    |m| >= 1 && m[0] >= 0x80 && m[0] != 0xF0 && |m| == 1 + DataLen(m[0])
  }

  /** The messages the wire format can carry. */
  predicate WellFormed(m: Message) {
    IsSysEx(m) || IsShort(m)
  }

  predicate AllWellFormed(ms: seq<Message>) {
    forall i :: 0 <= i < |ms| ==> WellFormed(ms[i])
  }

  predicate StateValid(s: State) {
    && Close(s).Valid()
    && (s.phase.Collecting? ==>
          && 0x80 <= s.phase.status && s.phase.status != 0xF0
          && |s.phase.data| < DataLen(s.phase.status))
    && AllWellFormed(s.out)
  }

  lemma StepValid(s: State, b: byte)
    requires StateValid(s)
    ensures StateValid(Step(s, b))
  {
    if s.phase.InSysEx? && b == 0xF7 {
      var m := s.sysex + [b];
      assert m[1..|m| - 1] == s.sysex[1..];
      assert IsSysEx(m);
    } else if s.phase.InSysEx? && b < 0x80 {
      assert (s.sysex + [b])[1..] == s.sysex[1..] + [b];
    }
  }

  lemma {:induction false} RunValid(s: State, bs: seq<byte>)
    requires StateValid(s)
    ensures StateValid(Run(s, bs))
    decreases |bs|
  {
    if bs != [] {
      StepValid(s, bs[0]);
      RunValid(Step(s, bs[0]), bs[1..]);
    }
  }

  /** On every packet stream, from every valid state: the state stays valid and every message is well formed. */
  lemma {:induction false} FeedAllValid(c: Carry, ps: seq<Packet>)
    requires c.Valid()
    ensures FeedAll(c, ps).carry.Valid() && AllWellFormed(FeedAll(c, ps).out)
    decreases |ps|
  {
    if ps != [] {
      RunValid(Open(c), Payload(ps[0]));
      FeedAllValid(Feed(c, ps[0]).carry, ps[1..]);
    }
  }

  // ---------------------------------------------------------------- bounded expansion

  function TotalLen(ms: seq<seq<byte>>): nat {
    if ms == [] then 0 else |ms[0]| + TotalLen(ms[1..])
  }

  lemma {:induction false} TotalLenConcat(a: seq<seq<byte>>, b: seq<seq<byte>>)
    ensures TotalLen(a + b) == TotalLen(a) + TotalLen(b)
  {
    if a == [] {
      assert a + b == b;
    } else {
      assert (a + b)[1..] == a[1..] + b;
      TotalLenConcat(a[1..], b);
    }
  }

  /** Bytes emitted, bytes of the open SysEx, and bytes of a message still being collected. */
  function Weight(s: State): nat {
    TotalLen(s.out) + |s.sysex| + (if s.phase.Collecting? then 1 + |s.phase.data| else 0)
  }

  lemma StepWeight(s: State, b: byte)
    requires StateValid(s)
    ensures Weight(Step(s, b)) <= Weight(s) + 2 && |Step(s, b).out| <= |s.out| + 1
  {
    var t := Step(s, b);
    if |t.out| > |s.out| {
      var m := t.out[|s.out|];
      assert t.out == s.out + [m];
      TotalLenConcat(s.out, [m]);
      assert TotalLen([m]) == |m| + TotalLen([]);
    }
  }

  lemma {:induction false} RunWeight(s: State, bs: seq<byte>)
    requires StateValid(s)
    ensures Weight(Run(s, bs)) <= Weight(s) + 2 * |bs| && |Run(s, bs).out| <= |s.out| + |bs|
    decreases |bs|
  {
    if bs != [] {
      StepValid(s, bs[0]);
      StepWeight(s, bs[0]);
      RunWeight(Step(s, bs[0]), bs[1..]);
    }
  }

  function PayloadLen(ps: seq<Packet>): nat {
    if ps == [] then 0 else |Payload(ps[0])| + PayloadLen(ps[1..])
  }

  /**
   At most one message and at most two bytes (emitted or held in the open SysEx) per received byte, headers not
   counted, over every packet stream.
   */
  lemma {:induction false} BoundedExpansion(c: Carry, ps: seq<Packet>)
    requires c.Valid()
    ensures |FeedAll(c, ps).out| <= PayloadLen(ps)
    ensures TotalLen(FeedAll(c, ps).out) + |FeedAll(c, ps).carry.sysex| <= |c.sysex| + 2 * PayloadLen(ps)
    decreases |ps|
  {
    if ps != [] {
      RunValid(Open(c), Payload(ps[0]));
      RunWeight(Open(c), Payload(ps[0]));
      var first := Feed(c, ps[0]);
      BoundedExpansion(first.carry, ps[1..]);
      TotalLenConcat(first.out, FeedAll(first.carry, ps[1..]).out);
    }
  }
}
