/** The stateful BLE-MIDI decoder, with the index arithmetic and look-ahead of the program. */
module BleDecoder {
  import opened Bytes
  import opened BleAutomaton

  class Decoder {
    var running: byte
    var sysex: seq<byte>
    var inSysex: bool

    function Carried(): Carry
      reads this
    {
      Carry(running, sysex, inSysex)
    }

    ghost predicate Valid()
      reads this
    {
      Carried().Valid()
    }

    constructor ()
      ensures Valid() && Carried() == FRESH
    {
      running, sysex, inSysex := 0, [], false;
    }

    /**
     Decodes one packet. The loop, which slices whole messages out of the packet, computes the automaton: the same
     messages and the same carried state, from every valid state and on every byte string.
     */
    method Decode(p: Packet) returns (msgs: seq<Message>)
      requires Valid()
      modifies this
      ensures Valid()
      ensures Fed(Carried(), msgs) == Feed(old(Carried()), p)
    {
      msgs := [];
      if |p| < 2 {
        return;
      }
      var i := 1;
      ghost var end := Run(Open(Carried()), Payload(p));
      ReadsAll(Open(Carried()), p, i);
      if inSysex {
        i, msgs := ConsumeSysex(p, i, msgs, end);
      }
      while i < |p|
        invariant 1 <= i <= |p|
        invariant Valid() && (i < |p| ==> !inSysex)
        invariant Reads(Between(msgs), p, i, end)
      {
        ghost var s := Between(msgs);
        if p[i] >= 0x80 {
          ReadStamp(s, p, i, end);
          s := s.(phase := AwaitStatus);
          i := i + 1;
          if i >= |p| {
            ReadNothing(s, p, end);
            return;
          }
        }

        var status;
        status, i := StatusAt(p, i, s, end);
        if status == 0 {
          return;
        }

        if status == 0xF0 {
          inSysex := true;
          sysex := [0xF0];
          ReadOpening(s, p, i, end);
          i, msgs := ConsumeSysex(p, i, msgs, end);
          continue;
        }

        var whole;
        i, msgs, whole := TakeMessage(p, i, status, msgs, s, end);
        if !whole {
          return;
        }
      }
      ReadNothing(Between(msgs), p, end);
    }

    /** The automaton at a message boundary, or inside a SysEx, of the packet that has yielded msgs so far. */
    ghost function Between(msgs: seq<Message>): State
      reads this
    {
      State(if inSysex then InSysEx else AwaitStamp, running, sysex, msgs)
    }

    /** The status byte at p[i], or the running status if a data byte stands there; 0 if there is none. */
    method StatusAt(p: Packet, i: nat, ghost s: State, ghost end: State) returns (status: byte, j: nat)
      requires Valid() && s.running == running
      requires s.phase.AwaitStamp? || s.phase.AwaitStatus?
      requires i < |p| && (p[i] >= 0x80 ==> s.phase.AwaitStatus?) && Reads(s, p, i, end)
      ensures i <= j <= |p| && (j == i ==> status < 0xF0)
      ensures if status == 0 then end == s.(phase := Dead) else status >= 0x80 && ReadsData(s, status, p, j, end)
    {
      if p[i] >= 0x80 {
        ReadStatus(s, p, i, end);
        return p[i], i + 1;
      }
      ReadResume(s, p, i, end);
      return running, i;
    }

    /** Takes the message with this status byte and its data from p[i..], unless it is cut off there. */
    method TakeMessage(p: Packet, i: nat, status: byte, msgs: seq<Message>, ghost s: State, ghost end: State)
        returns (j: nat, out: seq<Message>, whole: bool)
      requires Valid() && !inSysex && Close(s) == Carried() && s.out == msgs
      requires status >= 0x80 && status != 0xF0 && ReadsData(s, status, p, i, end)
      modifies this`running
      ensures Valid()
      ensures whole ==> j == i + DataLen(status) <= |p| && Reads(Between(out), p, j, end)
      ensures !whole ==> Fed(Carried(), out) == Fed(Close(end), end.out)
    {
      var n := DataLen(status);
      ReadMessage(s, status, p, i, n, end);
      if i + n > |p| {
        return i, msgs, false;
      }
      out := msgs + [[status] + p[i..i + n]];
      if status < 0xF0 {
        running := status;
      } else if status < 0xF8 {
        running := 0;
      }
      return i + n, out, true;
    }

    /** Consumes SysEx bytes from p[i..] up to and including the terminator, or to the end of the packet. */
    method ConsumeSysex(p: Packet, i: nat, msgs: seq<Message>, ghost end: State) returns (j: nat, out: seq<Message>)
      requires Valid() && inSysex
      requires Reads(Between(msgs), p, i, end)
      modifies this
      ensures i <= j <= |p| && Valid()
      ensures j < |p| ==> !inSysex
      ensures Reads(Between(out), p, j, end)
    {
      j, out := i, msgs;
      while j < |p|
        invariant i <= j <= |p| && Valid() && inSysex && out == msgs
        invariant Reads(Between(out), p, j, end)
      {
        var b := p[j];
        ghost var s := Between(out);
        ReadSysExByte(s, p, j, end);
        if b == 0xF7 {
          out := out + [sysex + [b]];
          j := j + 1;
          sysex, inSysex, running := [], false, 0;
          assert Between(out) == Step(s, b);
          return;
        }
        if b < 0x80 {
          sysex := sysex + [b];
        }
        assert Between(out) == Step(s, b);
        j := j + 1;
      }
    }
  }

  /** The stateless form: a decoder that lives for one packet. */
  method DecodePacket(p: Packet) returns (msgs: seq<Message>)
    ensures msgs == Feed(FRESH, p).out
  {
    var d := new Decoder();
    msgs := d.Decode(p);
  }
}
