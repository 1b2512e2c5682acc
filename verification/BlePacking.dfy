/**
 Packets that hold several messages, as other BLE-MIDI senders build them: running-status compression, real-time
 messages between others, and a SysEx in the middle of a packet.
 */
module BlePacking {
  import opened Bytes
  import opened BleAutomaton
  import opened BleFraming
  import opened BleRoundTrip

  /** How a SysEx ends in a packet: with a timestamp before the terminator, or, as the program sends it, without. */
  function Terminator(last: Option<byte>): seq<byte> {
    if last.Some? then [last.value, 0xF7] else [0xF7]
  }

  predicate StampOk(last: Option<byte>) {
    last.Some? ==> last.value >= 0x80
  }

  /** One message as it stands in a packet. */
  datatype Item =
    | Full(stamp: byte, midi: Message)                               // timestamp, status, data
    | NoStatus(stamp: byte, midi: Message)                           // timestamp, data
    | Bare(midi: Message)                                            // data
    | Exclusive(stamp: byte, body: seq<byte>, last: Option<byte>)    // timestamp, 0xF0, data, terminator
  {
    function Midi(): Message {
      if Exclusive? then [0xF0] + body + [0xF7] else midi
    }

    /** May this item stand where `running` is the running status in force? */
    predicate Legal(running: byte) {
      match this
      case Full(stamp, midi) => stamp >= 0x80 && IsShort(midi)
      case NoStatus(stamp, midi) => stamp >= 0x80 && Compressible(running, midi)
      case Bare(midi) => Compressible(running, midi)
      case Exclusive(stamp, body, last) => stamp >= 0x80 && SevenBit(body) && StampOk(last)
    }

    function Wire(): seq<byte>
      requires NoStatus? || Bare? ==> midi != []
    {
      match this
      case Full(stamp, midi) => [stamp] + midi
      case NoStatus(stamp, midi) => [stamp] + midi[1..]
      case Bare(midi) => midi[1..]
      case Exclusive(stamp, body, last) => [stamp, 0xF0] + (body + Terminator(last))
    }

    function Running(running: byte): byte
      requires Legal(running)
    {
      if Exclusive? || 0xF0 <= midi[0] < 0xF8 then 0
      else if midi[0] < 0xF0 then midi[0]
      else running
    }

    /**
     The decoder takes a closing timestamp that reads 0xF7 for the terminator, and then the next timestamp for a status
     byte. This item is read as it was meant even so.
     */
    predicate Survives() {
      match this
      case Full(stamp, midi) => Repeats(stamp, midi)
      case NoStatus(stamp, midi) => midi != [] && stamp == midi[0]
      case Bare(_) => true
      case Exclusive(stamp, _, _) => stamp == 0xF0
    }

    /** Does the decoder expect a timestamp after this item, given whether it did before? */
    predicate Aligns(before: bool) {
      if Exclusive? then last != Some(0xF7) else before || !Full?
    }
  }

  predicate Repeats(b: byte, m: Message) {
    forall k :: 0 <= k < |m| ==> m[k] == b
  }

  /** The status byte may be left out: it is the running status, and a data byte follows it. */
  predicate Compressible(running: byte, m: Message) {
    0x80 <= running < 0xF0 && IsShort(m) && m[0] == running && m[1] < 0x80
  }

  predicate ItemsLegal(running: byte, items: seq<Item>)
    decreases |items|
  {
    items != [] ==> items[0].Legal(running) && ItemsLegal(items[0].Running(running), items[1..])
  }

  /** Every item that meets a decoder expecting a status byte survives it. */
  predicate ItemsReadable(aligned: bool, items: seq<Item>)
    decreases |items|
  {
    items != [] ==> (aligned || items[0].Survives()) && ItemsReadable(items[0].Aligns(aligned), items[1..])
  }

  /** Does the decoder expect a timestamp after these items? */
  predicate ItemsAligned(aligned: bool, items: seq<Item>)
    decreases |items|
  {
    if items == [] then aligned else ItemsAligned(items[0].Aligns(aligned), items[1..])
  }

  function ItemsRunning(running: byte, items: seq<Item>): byte
    requires ItemsLegal(running, items)
    decreases |items|
  {
    if items == [] then running else ItemsRunning(items[0].Running(running), items[1..])
  }

  function ItemsWire(running: byte, items: seq<Item>): seq<byte>
    requires ItemsLegal(running, items)
    decreases |items|
  {
    if items == [] then [] else items[0].Wire() + ItemsWire(items[0].Running(running), items[1..])
  }

  function Midis(items: seq<Item>): seq<Message> {
    if items == [] then [] else [items[0].Midi()] + Midis(items[1..])
  }

  // ---------------------------------------------------------------- one item, read as it was meant

  /** Expecting a timestamp or, after a terminator read too early, a status byte; no SysEx is open. */
  predicate Between(s: State) {
    (s.phase.AwaitStamp? || s.phase.AwaitStatus?) && s.sysex == []
  }

  function Expecting(aligned: bool): Phase {
    if aligned then AwaitStamp else AwaitStatus
  }

  /** In an open SysEx, data and a terminator complete it. */
  lemma RunEnd(s: State, data: seq<byte>, last: Option<byte>)
    requires s.phase.InSysEx? && SevenBit(data) && StampOk(last)
    ensures Run(s, data + Terminator(last))
         == State(Expecting(last != Some(0xF7)), 0, [], s.out + [s.sysex + data + [0xF7]])
  {
    LowBytesOfData(data);
    if last.Some? {
      RunTerminator(s, data, last.value);
    } else {
      RunConcat(s, data, [0xF7]);
      RunSysEx(s, data);
      RunOne(s.(sysex := s.sysex + data), 0xF7);
    }
  }

  lemma RunUnstated(s: State, m: Message)
    requires s.phase.AwaitStamp? || s.phase.AwaitStatus?
    requires Compressible(s.running, m)
    ensures Run(s, m[1..]) == State(AwaitStamp, m[0], s.sysex, s.out + [m])
  {
    assert [m[0]] + m[1..] == m;
    var t := s.(phase := Collecting(m[0], []));
    assert Step(s, m[1]) == Step(t, m[1]);
    RunCollecting(t, m[1..]);
    assert [] + m[1..] == m[1..];
  }

  /** Where a status byte is expected, a message whose bytes all equal its timestamp is read one byte too early. */
  lemma RunShifted(s: State, stamp: byte, m: Message)
    requires s.phase.AwaitStatus? && IsShort(m) && Repeats(stamp, m)
    ensures Run(s, [stamp] + m) == State(AwaitStatus, NextRunning(s.running, stamp), s.sysex, s.out + [m])
  {
    assert m[0] == stamp;
    var n := DataLen(stamp);
    assert m == [stamp] + m[..n] && [stamp] + m == m + [stamp];
    RunConcat(s, m, [stamp]);
    RunShort(s, m);
    RunOne(Run(s, m), stamp);
  }

  lemma RunItem(s: State, item: Item)
    requires Between(s) && item.Legal(s.running) && (s.phase.AwaitStamp? || item.Survives())
    ensures Run(s, item.Wire())
         == State(Expecting(item.Aligns(s.phase.AwaitStamp?)), item.Running(s.running), [], s.out + [item.Midi()])
  {
    var stamped := s.(phase := AwaitStatus);
    match item
    case Full(stamp, midi) =>
      assert item.Wire()[1..] == midi;
      if s.phase.AwaitStamp? {
        RunShort(stamped, midi);
      } else {
        RunShifted(s, stamp, midi);
      }
    case NoStatus(stamp, midi) =>
      assert item.Wire()[1..] == midi[1..];
      if s.phase.AwaitStamp? {
        RunUnstated(stamped, midi);
      } else {
        assert item.Wire() == midi;
        RunShort(s, midi);
      }
    case Bare(midi) =>
      RunUnstated(s, midi);
    case Exclusive(stamp, body, last) =>
      RunConcat(s, [stamp, 0xF0], body + Terminator(last));
      RunTwo(s, stamp, 0xF0);
      RunEnd(State(InSysEx, s.running, [0xF0], s.out), body, last);
  }

  lemma {:induction false} RunItems(s: State, items: seq<Item>)
    requires Between(s) && ItemsLegal(s.running, items) && ItemsReadable(s.phase.AwaitStamp?, items)
    ensures Run(s, ItemsWire(s.running, items))
         == State(Expecting(ItemsAligned(s.phase.AwaitStamp?, items)), ItemsRunning(s.running, items), [],
                  s.out + Midis(items))
    decreases |items|
  {
    if items == [] {
      assert s.out + [] == s.out;
    } else {
      var item, rest := items[0], items[1..];
      var later := ItemsWire(item.Running(s.running), rest);
      RunItem(s, item);
      RunConcat(s, item.Wire(), later);
      RunItems(Run(s, item.Wire()), rest);
      Assoc(s.out, [item.Midi()], Midis(rest));
    }
  }

  // ---------------------------------------------------------------- one item, misread

  lemma {:induction false} OutGrows(s: State, bs: seq<byte>)
    ensures s.out <= Run(s, bs).out
    decreases |bs|
  {
    if bs != [] {
      OutGrows(Step(s, bs[0]), bs[1..]);
    }
  }

  /** The first message emitted after s, if there is one, starts with this byte. */
  predicate NextStarts(s: State, end: State, first: byte) {
    |end.out| > |s.out| ==> end.out[|s.out|] != [] && end.out[|s.out|][0] == first
  }

  lemma {:induction false} PendingFirst(s: State, first: byte, bs: seq<byte>)
    requires || (s.phase.InSysEx? && s.sysex != [] && s.sysex[0] == first)
             || (s.phase.Collecting? && s.phase.status == first)
    ensures NextStarts(s, Run(s, bs), first)
    decreases |bs|
  {
    if bs != [] {
      var t := Step(s, bs[0]);
      if t.out == s.out {
        PendingFirst(t, first, bs[1..]);
      } else {
        OutGrows(t, bs[1..]);
      }
    }
  }

  /** Where a status byte is expected, a timestamp becomes the first byte of whatever comes out next. */
  lemma StampFirst(s: State, stamp: byte, bs: seq<byte>)
    requires s.phase.AwaitStatus? && stamp >= 0x80
    ensures NextStarts(s, Run(s, [stamp] + bs), stamp)
  {
    var t := Begin(s, stamp);
    assert ([stamp] + bs)[1..] == bs;
    if t.phase.AwaitStamp? {
      OutGrows(t, bs);
    } else {
      PendingFirst(t, stamp, bs);
    }
  }

  /** A message with data, read from its timestamp on: one byte too early. */
  lemma ShiftedOut(s: State, m: Message, bs: seq<byte>)
    requires s.phase.AwaitStatus? && IsShort(m) && |m| >= 2
    ensures s.out + [[m[0]] + m[..|m| - 1]] <= Run(s, [m[0]] + (m + bs)).out
  {
    var t, n := Begin(s, m[0]), |m| - 1;
    assert ([m[0]] + (m + bs))[1..] == m + bs == m[..n] + ([m[n]] + bs);
    RunConcat(t, m[..n], [m[n]] + bs);
    RunCollecting(t, m[..n]);
    assert [] + m[..n] == m[..n];
    OutGrows(Run(t, m[..n]), [m[n]] + bs);
  }

  /** A message shifted by a byte is itself only if all its bytes are equal. */
  lemma Shifted(m: Message)
    requires IsShort(m)
    ensures m == [m[0]] + m[..|m| - 1] ==> Repeats(m[0], m)
  {
    var shifted := [m[0]] + m[..|m| - 1];
    assert |m| > 1 ==> shifted[1] == m[0];
    assert |m| > 2 ==> shifted[2] == m[1];
  }

  lemma NotNext(before: seq<Message>, m: Message, out: seq<Message>)
    requires |out| > |before| ==> out[|before|] != m
    ensures !(before + [m] <= out)
  {
    assert (before + [m])[|before|] == m;
  }

  lemma LostByStamp(s: State, stamp: byte, bs: seq<byte>, m: Message)
    requires s.phase.AwaitStatus? && stamp >= 0x80 && m != [] && m[0] != stamp
    ensures !(s.out + [m] <= Run(s, [stamp] + bs).out)
  {
    StampFirst(s, stamp, bs);
    NotNext(s.out, m, Run(s, [stamp] + bs).out);
  }

  lemma LostByShift(s: State, m: Message, bs: seq<byte>)
    requires s.phase.AwaitStatus? && IsShort(m) && !Repeats(m[0], m)
    ensures !(s.out + [m] <= Run(s, [m[0]] + (m + bs)).out)
  {
    var out, shifted := Run(s, [m[0]] + (m + bs)).out, [m[0]] + m[..|m| - 1];
    ShiftedOut(s, m, bs);
    Shifted(m);
    assert out[|s.out|] == (s.out + [shifted])[|s.out|] == shifted;
    NotNext(s.out, m, out);
  }

  /** An item that does not survive is not the next message to come out, whatever follows it. */
  lemma ItemLost(s: State, item: Item, bs: seq<byte>)
    requires Between(s) && s.phase.AwaitStatus? && item.Legal(s.running) && !item.Survives()
    ensures !(s.out + [item.Midi()] <= Run(s, item.Wire() + bs).out)
  {
    var stamp, rest := item.stamp, item.Wire()[1..];
    assert item.Wire() == [stamp] + rest;
    Assoc([stamp], rest, bs);
    if stamp != item.Midi()[0] {
      LostByStamp(s, stamp, rest + bs, item.Midi());
    } else {
      assert item.Full? && rest == item.midi;
      LostByShift(s, item.midi, bs);
    }
  }

  lemma PrefixOfPrefix<T>(a: seq<T>, b: seq<T>, c: seq<T>, d: seq<T>)
    requires a + (b + c) <= d
    ensures a + b <= d
  {
    assert (a + b) + c == a + (b + c);
  }

  lemma {:induction false} ItemsLost(s: State, items: seq<Item>, bs: seq<byte>)
    requires Between(s) && ItemsLegal(s.running, items) && !ItemsReadable(s.phase.AwaitStamp?, items)
    ensures !(s.out + Midis(items) <= Run(s, ItemsWire(s.running, items) + bs).out)
    decreases |items|
  {
    var item, rest := items[0], items[1..];
    var later, end := ItemsWire(item.Running(s.running), rest), Run(s, ItemsWire(s.running, items) + bs);
    Assoc(item.Wire(), later, bs);
    if s.phase.AwaitStamp? || item.Survives() {
      RunItem(s, item);
      RunConcat(s, item.Wire(), later + bs);
      ItemsLost(Run(s, item.Wire()), rest, bs);
      Assoc(s.out, [item.Midi()], Midis(rest));
    } else {
      ItemLost(s, item, later + bs);
      if s.out + Midis(items) <= end.out {
        PrefixOfPrefix(s.out, [item.Midi()], Midis(rest), end.out);
      }
    }
  }

  // ---------------------------------------------------------------- streams

  /** How a packet starts, if a SysEx is open, and how it may end. */
  datatype Lead =
    | Fresh                                          // no SysEx is open
    | More(data: seq<byte>)                          // nothing but more of the open SysEx; a bare header if empty
    | Closes(data: seq<byte>, last: Option<byte>)    // the end of the open SysEx: data, terminator

  datatype Tail = NoTail | Opens(stamp: byte, data: seq<byte>)    // timestamp, 0xF0, the first data of a new SysEx

  datatype Pack = Pack(header: byte, lead: Lead, items: seq<Item>, tail: Tail)
  {
    /** May this packet follow, with the decoder in state c? */
    predicate Legal(c: Carry) {
      && (c.inSysex <==> !lead.Fresh?)
      && (lead.More? ==> SevenBit(lead.data) && items == [] && tail == NoTail)
      && (lead.Closes? ==> SevenBit(lead.data) && StampOk(lead.last))
      && ItemsLegal(Resumed(c), items)
      && (tail.Opens? ==> tail.stamp >= 0x80 && SevenBit(tail.data))
    }

    /** The running status for the items: a SysEx that has just been closed cancels it. */
    function Resumed(c: Carry): byte {
      if lead.Closes? then 0 else c.running
    }

    /** Does the decoder expect a timestamp when it comes to the items? */
    predicate LeadAligned() {
      !(lead.Closes? && lead.last == Some(0xF7))
    }

    /** Everything after an ambiguous terminator is read as it was meant all the same. */
    predicate Readable() {
      && ItemsReadable(LeadAligned(), items)
      && (tail.Opens? ==> ItemsAligned(LeadAligned(), items) || tail.stamp == 0xF0)
    }

    function LeadWire(): seq<byte> {
      match lead
      case Fresh => []
      case More(data) => data
      case Closes(data, last) => data + Terminator(last)
    }

    function TailWire(): seq<byte> {
      if tail.Opens? then [tail.stamp, 0xF0] + tail.data else []
    }

    function Wire(c: Carry): Packet
      requires Legal(c)
    {
      [header] + (LeadWire() + (ItemsWire(Resumed(c), items) + TailWire()))
    }

    /** What the receiver holds after the packet. */
    function Left(c: Carry): Carry
      requires Legal(c)
    {
      if lead.More? then c.(sysex := c.sysex + lead.data)
      else
        var running := ItemsRunning(Resumed(c), items);
        if tail.Opens? then Carry(running, [0xF0] + tail.data, true) else Clean(running)
    }

    /** The SysEx that the packet closes first, if a SysEx was open. */
    function Closed(c: Carry): seq<Message> {
      if lead.Closes? then [c.sysex + lead.data + [0xF7]] else []
    }

    /** The messages that are complete with this packet. */
    function Messages(c: Carry): seq<Message> {
      Closed(c) + Midis(items)
    }
  }

  /** A SysEx that opens here is opened exactly when a timestamp was expected, or its timestamp reads 0xF0. */
  lemma TailExactly(s: State, pack: Pack)
    requires Between(s) && pack.tail.Opens? && pack.tail.stamp >= 0x80 && SevenBit(pack.tail.data)
    ensures Run(s, pack.TailWire()).out == s.out
         && Close(Run(s, pack.TailWire())) == Carry(s.running, [0xF0] + pack.tail.data, true)
       <==> s.phase.AwaitStamp? || pack.tail.stamp == 0xF0
  {
    var stamp, data := pack.tail.stamp, pack.tail.data;
    var t := Run(s, [stamp, 0xF0]);
    RunConcat(s, [stamp, 0xF0], data);
    RunTwo(s, stamp, 0xF0);
    if s.phase.AwaitStamp? || stamp == 0xF0 {
      RunSysEx(t, data);
      LowBytesOfData(data);
    } else {
      OutGrows(t, data);
      if t.out == s.out && data != [] {
        OutGrows(Step(t, data[0]), data[1..]);
      }
    }
  }

  lemma RunLead(c: Carry, pack: Pack)
    requires pack.Legal(c) && (c.inSysex || c.sysex == []) && !pack.lead.More?
    ensures Run(Open(c), pack.LeadWire())
         == State(Expecting(pack.LeadAligned()), pack.Resumed(c), [], pack.Closed(c))
  {
    if pack.lead.Closes? {
      RunEnd(Open(c), pack.lead.data, pack.lead.last);
    }
  }

  /** After the lead and the items, with nothing misread. */
  lemma RunFront(c: Carry, pack: Pack)
    requires pack.Legal(c) && (c.inSysex || c.sysex == []) && !pack.lead.More?
    requires ItemsReadable(pack.LeadAligned(), pack.items)
    ensures Run(Open(c), pack.LeadWire() + ItemsWire(pack.Resumed(c), pack.items))
         == State(Expecting(ItemsAligned(pack.LeadAligned(), pack.items)), ItemsRunning(pack.Resumed(c), pack.items),
                  [], pack.Messages(c))
  {
    RunLead(c, pack);
    RunConcat(Open(c), pack.LeadWire(), ItemsWire(pack.Resumed(c), pack.items));
    RunItems(Run(Open(c), pack.LeadWire()), pack.items);
  }

  /** An item that is lost is lost for the packet. */
  lemma FrontLost(c: Carry, pack: Pack)
    requires pack.Legal(c) && (c.inSysex || c.sysex == []) && !pack.lead.More?
    requires !ItemsReadable(pack.LeadAligned(), pack.items)
    ensures Feed(c, pack.Wire(c)).out != pack.Messages(c)
  {
    var lead, items, tail := pack.LeadWire(), ItemsWire(pack.Resumed(c), pack.items), pack.TailWire();
    assert Payload(pack.Wire(c)) == lead + (items + tail);
    RunLead(c, pack);
    RunConcat(Open(c), lead, items + tail);
    ItemsLost(Run(Open(c), lead), pack.items, tail);
  }

  /**
   One packet, whatever it continues, contains and begins, means what was put into it exactly when nothing in it that
   meets a decoder expecting a status byte is garbled by it.
   */
  lemma FeedPack(c: Carry, pack: Pack)
    requires pack.Legal(c) && (c.inSysex || c.sysex == [])
    ensures Feed(c, pack.Wire(c)) == Fed(pack.Left(c), pack.Messages(c)) <==> pack.Readable()
  {
    var lead, items, tail := pack.LeadWire(), ItemsWire(pack.Resumed(c), pack.items), pack.TailWire();
    if pack.lead.More? {
      assert Payload(pack.Wire(c)) == pack.lead.data;
      FeedMiddle(c, pack.Wire(c));
      LowBytesOfData(pack.lead.data);
    } else if !ItemsReadable(pack.LeadAligned(), pack.items) {
      FrontLost(c, pack);
    } else {
      assert Payload(pack.Wire(c)) == (lead + items) + tail;
      RunFront(c, pack);
      RunConcat(Open(c), lead + items, tail);
      if pack.tail.Opens? {
        TailExactly(Run(Open(c), lead + items), pack);
      }
    }
  }

  predicate StreamLegal(c: Carry, packs: seq<Pack>)
    decreases |packs|
  {
    packs != [] ==> packs[0].Legal(c) && packs[0].Readable() && StreamLegal(packs[0].Left(c), packs[1..])
  }

  function StreamPackets(c: Carry, packs: seq<Pack>): seq<Packet>
    requires StreamLegal(c, packs)
    decreases |packs|
  {
    if packs == [] then [] else [packs[0].Wire(c)] + StreamPackets(packs[0].Left(c), packs[1..])
  }

  function StreamMessages(c: Carry, packs: seq<Pack>): seq<Message>
    requires StreamLegal(c, packs)
    decreases |packs|
  {
    if packs == [] then [] else packs[0].Messages(c) + StreamMessages(packs[0].Left(c), packs[1..])
  }

  function StreamLeft(c: Carry, packs: seq<Pack>): Carry
    requires StreamLegal(c, packs)
    decreases |packs|
  {
    if packs == [] then c else StreamLeft(packs[0].Left(c), packs[1..])
  }

  /**
   Compression and fragmentation are lossless together: however the messages of a stream are compressed by running
   status where that is legal, wherever the stream is cut into packets at message boundaries, and wherever a SysEx is
   cut over packets that it shares with other messages, one decoder recovers exactly the messages, provided that each
   packet is readable (as every packet is in which nothing follows a closing timestamp 0xF7).
   */
  lemma {:induction false} StreamLossless(c: Carry, packs: seq<Pack>)
    requires StreamLegal(c, packs) && (c.inSysex || c.sysex == [])
    ensures FeedAll(c, StreamPackets(c, packs)) == Fed(StreamLeft(c, packs), StreamMessages(c, packs))
    decreases |packs|
  {
    if packs != [] {
      var next, ps := packs[0].Left(c), StreamPackets(c, packs);
      FeedPack(c, packs[0]);
      StreamLossless(next, packs[1..]);
      assert ps[0] == packs[0].Wire(c) && ps[1..] == StreamPackets(next, packs[1..]);
      FeedFirst(c, ps, Fed(next, packs[0].Messages(c)));
    }
  }

  /** What the program sends for one message without chunking is such a packet, and it is never ambiguous. */
  lemma FramedIsPack(c: Carry, m: Message, ts: uint16)
    requires WellFormed(m) && !c.inSysex
    ensures var item := if IsSysEx(m) then Exclusive(Stamp(ts), m[1..|m| - 1], None) else Full(Stamp(ts), m);
            var pack := Pack(Header(ts), Fresh, [item], NoTail);
            && pack.Legal(c) && pack.Readable() && ItemsAligned(true, pack.items)
            && pack.Wire(c) == FrameMessageAt(m, ts) && pack.Messages(c) == [m]
  {
    var stamp := Stamp(ts);
    var item := if IsSysEx(m) then Exclusive(stamp, m[1..|m| - 1], None) else Full(stamp, m);
    if IsSysEx(m) {
      SysExParts(m);
      assert [stamp, 0xF0] + (m[1..|m| - 1] + [0xF7]) == [stamp] + ([0xF0] + m[1..|m| - 1] + [0xF7]);
    }
    assert item.Midi() == m && item.Wire() == [stamp] + m && item.Legal(c.running);
    assert [item][1..] == [];
    assert ItemsWire(c.running, [item]) == [stamp] + m;
    assert Midis([item]) == [m];
    assert [Header(ts)] + ([] + (([stamp] + m) + [])) == FrameMessageAt(m, ts);
  }

  // ---------------------------------------------------------------- real-time messages between others

  lemma {:induction false} ClockLegal(running: byte, a: seq<Item>, stamp: byte, status: byte, b: seq<Item>)
    requires stamp >= 0x80 && status >= 0xF8
    ensures ItemsLegal(running, a + [Full(stamp, [status])] + b) <==> ItemsLegal(running, a + b)
    ensures ItemsLegal(running, a + b) ==>
              ItemsRunning(running, a + [Full(stamp, [status])] + b) == ItemsRunning(running, a + b)
    decreases |a|
  {
    var clock := Full(stamp, [status]);
    if a == [] {
      assert a + b == b && (a + [clock] + b)[1..] == b;
    } else {
      assert (a + [clock] + b)[1..] == a[1..] + [clock] + b;
      assert (a + b)[1..] == a[1..] + b;
      if a[0].Legal(running) {
        ClockLegal(a[0].Running(running), a[1..], stamp, status, b);
      }
    }
  }

  lemma {:induction false} ClockReadable(aligned: bool, a: seq<Item>, stamp: byte, status: byte, b: seq<Item>)
    requires stamp >= 0x80 && status >= 0xF8
    ensures ItemsReadable(aligned, a + [Full(stamp, [status])] + b)
       <==> ItemsReadable(aligned, a + b) && (ItemsAligned(aligned, a) || stamp == status)
    decreases |a|
  {
    var clock := Full(stamp, [status]);
    if a == [] {
      assert a + b == b && (a + [clock] + b)[1..] == b;
      assert clock.Survives() <==> clock.midi[0] == stamp;
    } else {
      assert (a + [clock] + b)[1..] == a[1..] + [clock] + b;
      assert (a + b)[1..] == a[1..] + b;
      ClockReadable(a[0].Aligns(aligned), a[1..], stamp, status, b);
    }
  }

  lemma {:induction false} MidisConcat(a: seq<Item>, b: seq<Item>)
    ensures Midis(a + b) == Midis(a) + Midis(b)
  {
    if a == [] {
      assert a + b == b;
    } else {
      assert (a + b)[1..] == a[1..] + b;
      MidisConcat(a[1..], b);
      Assoc([a[0].Midi()], Midis(a[1..]), Midis(b));
    }
  }

  lemma FeedItems(running: byte, header: byte, items: seq<Item>)
    requires ItemsLegal(running, items) && ItemsReadable(true, items)
    ensures Feed(Clean(running), [header] + ItemsWire(running, items))
         == Fed(Clean(ItemsRunning(running, items)), Midis(items))
  {
    RunItems(Open(Clean(running)), items);
    assert Payload([header] + ItemsWire(running, items)) == ItemsWire(running, items);
    assert [] + Midis(items) == Midis(items);
  }

  /**
   A real-time message put between two items of a packet may be put there exactly when the packet was legal without it,
   and everything is read as it was meant exactly when it was before and a timestamp is expected there (or the message
   equals its own timestamp). Then it adds only itself: the receiver ends in the same state, and emits the same messages
   with this one in its place.
   */
  lemma RealTimeTransparent(running: byte, header: byte, a: seq<Item>, stamp: byte, status: byte, b: seq<Item>)
    requires stamp >= 0x80 && status >= 0xF8
    ensures ItemsLegal(running, a + [Full(stamp, [status])] + b) <==> ItemsLegal(running, a + b)
    ensures ItemsReadable(true, a + [Full(stamp, [status])] + b)
       <==> ItemsReadable(true, a + b) && (ItemsAligned(true, a) || stamp == status)
    ensures ItemsLegal(running, a + b) && ItemsReadable(true, a + [Full(stamp, [status])] + b) ==>
              var without := Feed(Clean(running), [header] + ItemsWire(running, a + b));
              var with := Feed(Clean(running), [header] + ItemsWire(running, a + [Full(stamp, [status])] + b));
              && with.carry == without.carry
              && without.out == Midis(a) + Midis(b)
              && with.out == Midis(a) + [[status]] + Midis(b)
  {
    var clock := Full(stamp, [status]);
    ClockLegal(running, a, stamp, status, b);
    ClockReadable(true, a, stamp, status, b);
    if ItemsLegal(running, a + b) && ItemsReadable(true, a + [clock] + b) {
      FeedItems(running, header, a + b);
      FeedItems(running, header, a + [clock] + b);
      MidisConcat(a, b);
      MidisConcat(a + [clock], b);
      MidisConcat(a, [clock]);
      assert Midis([clock]) == [[status]];
    }
  }

  /**
   At any point of a packet at all: a real-time message with its timestamp is emitted, and changes nothing else, exactly
   when the decoder expects a timestamp there (or, expecting a status byte, finds the two bytes equal). In an open SysEx
   it is dropped, or its timestamp 0xF7 ends the SysEx.
   */
  lemma RealTimeExactly(s: State, stamp: byte, status: byte)
    requires stamp >= 0x80 && status >= 0xF8
    ensures Run(s, [stamp, status]) == s.(out := s.out + [[status]])
       <==> s.phase.AwaitStamp? || (s.phase.AwaitStatus? && stamp == status)
    ensures s.phase.InSysEx? ==>
              Run(s, [stamp, status]) ==
              if stamp == 0xF7 then State(AwaitStatus, 0, [], s.out + [s.sysex + [0xF7]]) else s
  {
    RunTwo(s, stamp, status);
    var t := Step(s, stamp);
    var u := Step(t, status);
    var here := |s.out|;
    assert [status] + [] == [status] && [stamp] + [] == [stamp];
    assert (s.out + [[status]])[here] == [status];
    if s.phase.AwaitStatus? && stamp != status {
      StampFirst(s, stamp, [status]);
      assert [stamp] + [status] == [stamp, status];
    } else if s.phase.Collecting? {
      assert |u.out| > here ==> |u.out[here]| >= 2;
    }
  }

  /** So a packet that interrupts an open SysEx with a real-time message is read as if the message were not there. */
  lemma RealTimeDropped(c: Carry, header: byte, a: seq<byte>, stamp: byte, status: byte, b: seq<byte>)
    requires Run(Open(c), a).phase.InSysEx? && stamp >= 0x80 && status >= 0xF8 && stamp != 0xF7
    ensures Feed(c, [header] + (a + ([stamp, status] + b))) == Feed(c, [header] + (a + b))
  {
    var s := Run(Open(c), a);
    assert Payload([header] + (a + ([stamp, status] + b))) == a + ([stamp, status] + b);
    assert Payload([header] + (a + b)) == a + b;
    RunConcat(Open(c), a, [stamp, status] + b);
    RunConcat(Open(c), a, b);
    RunConcat(s, [stamp, status], b);
    RealTimeExactly(s, stamp, status);
  }

  /** A clock message inside a SysEx that is never emitted. */
  lemma ClockDropped()
    ensures Feed(FRESH, [0x80] + ([0x80, 0xF0, 1] + ([0x81, 0xF8] + [2, 0x82, 0xF7]))).out == [[0xF0, 1, 2, 0xF7]]
  {
    var a, b, s := [0x80, 0xF0, 1], [2, 0x82, 0xF7], Open(FRESH);
    assert a == [0x80, 0xF0] + [1];
    RunConcat(s, [0x80, 0xF0], [1]);
    RunTwo(s, 0x80, 0xF0);
    RunOne(Run(s, [0x80, 0xF0]), 1);
    var t := Run(s, a);
    assert t == State(InSysEx, 0, [0xF0, 1], []);
    RealTimeDropped(FRESH, 0x80, a, 0x81, 0xF8, b);
    assert Payload([0x80] + (a + b)) == a + b;
    RunConcat(s, a, b);
    assert b == [2] + Terminator(Some(0x82));
    RunEnd(t, [2], Some(0x82));
    assert [0xF0, 1] + [2] + [0xF7] == [0xF0, 1, 2, 0xF7];
  }

  /**
   A system-common message or a SysEx cancels running status: data that follows it in the packet without a status byte
   is dropped, up to the packet's end, and so is the data that opens the next packet.
   */
  lemma SystemCancelsRunning(running: byte, header: byte, item: Item, data: seq<byte>, header': byte, more: seq<byte>)
    requires item.Legal(running) && 0xF0 <= item.Midi()[0] < 0xF8
    requires data != [] && data[0] < 0x80 && more != [] && more[0] < 0x80
    ensures FeedAll(Clean(running), [[header] + (item.Wire() + data), [header'] + more]) == Fed(Clean(0), [item.Midi()])
  {
    var s, p, q := Open(Clean(running)), [header] + (item.Wire() + data), [header'] + more;
    assert Payload(p) == item.Wire() + data && Payload(q) == more;
    RunConcat(s, item.Wire(), data);
    RunItem(s, item);
    RunStray(Run(s, item.Wire()), data);
    assert [] + [item.Midi()] == [item.Midi()];
    RunStray(Open(Clean(0)), more);
    assert [p, q][1..] == [q];
    FeedAllOne(Clean(0), q);
    assert [item.Midi()] + [] == [item.Midi()];
    FeedFirst(Clean(running), [p, q], Fed(Clean(0), [item.Midi()]));
  }

  // ---------------------------------------------------------------- after a SysEx

  /** The packet ends with the terminator of a SysEx, opened here or in an earlier packet. */
  predicate EndsInSysEx(pack: Pack) {
    pack.tail == NoTail && if pack.items == [] then pack.lead.Closes? else pack.items[|pack.items| - 1].Exclusive?
  }

  /** The timestamp before that terminator, if there is one. */
  function ClosingStamp(pack: Pack): Option<byte>
    requires EndsInSysEx(pack)
  {
    if pack.items == [] then pack.lead.last else pack.items[|pack.items| - 1].last
  }

  lemma {:induction false} AfterExclusive(running: byte, aligned: bool, items: seq<Item>)
    requires items != [] && items[|items| - 1].Exclusive? && ItemsLegal(running, items)
    ensures ItemsRunning(running, items) == 0
    ensures ItemsAligned(aligned, items) <==> items[|items| - 1].last != Some(0xF7)
    decreases |items|
  {
    if |items| > 1 {
      AfterExclusive(items[0].Running(running), items[0].Aligns(aligned), items[1..]);
    }
  }

  lemma WithoutTail(c: Carry, pack: Pack)
    requires pack.Legal(c) && pack.tail == NoTail
    ensures Payload(pack.Wire(c)) == pack.LeadWire() + ItemsWire(pack.Resumed(c), pack.items)
  {
    var items := ItemsWire(pack.Resumed(c), pack.items);
    assert items + pack.TailWire() == items;
  }

  lemma RunToSysExEnd(c: Carry, pack: Pack)
    requires pack.Legal(c) && pack.Readable() && (c.inSysex || c.sysex == []) && EndsInSysEx(pack)
    ensures Run(Open(c), Payload(pack.Wire(c)))
         == State(Expecting(ClosingStamp(pack) != Some(0xF7)), 0, [], pack.Messages(c))
  {
    WithoutTail(c, pack);
    RunFront(c, pack);
    if pack.items != [] {
      AfterExclusive(pack.Resumed(c), pack.LeadAligned(), pack.items);
    }
  }

  lemma FeedConcat(c: Carry, p: Packet, bs: seq<byte>)
    requires p != []
    ensures Feed(c, p + bs).out == Run(Run(Open(c), Payload(p)), bs).out
  {
    assert Payload(p + bs) == Payload(p) + bs;
    RunConcat(Open(c), Payload(p), bs);
  }

  /** At a message boundary, this item's message is the next to come out, whatever follows it. */
  lemma NextOut(s: State, y: Item, more: seq<byte>)
    requires Between(s) && y.Legal(s.running)
    ensures s.out + [y.Midi()] <= Run(s, y.Wire() + more).out <==> s.phase.AwaitStamp? || y.Survives()
    ensures s.out + [y.Midi()] == Run(s, y.Wire()).out <==> s.phase.AwaitStamp? || y.Survives()
  {
    assert y.Wire() + [] == y.Wire();
    if s.phase.AwaitStamp? || y.Survives() {
      RunItem(s, y);
      RunConcat(s, y.Wire(), more);
      OutGrows(Run(s, y.Wire()), more);
    } else {
      ItemLost(s, y, more);
      ItemLost(s, y, []);
    }
  }

  predicate Coincides(stamp: byte, m: Message) {
    m != [] && m[0] == stamp && (IsSysEx(m) || Repeats(stamp, m))
  }

  lemma CoincidesExactly(y: Item)
    requires y.Legal(0)
    ensures y.Survives() <==> Coincides(y.stamp, y.Midi())
  {
    var m := y.Midi();
    if y.Exclusive? {
      assert m[1..|m| - 1] == y.body;
    } else {
      assert m == y.midi;
    }
  }

  /**
   The program tells the timestamp before a terminator from the terminator by value. So the message that follows a
   complete SysEx in the same packet is the next to come out, whatever stands behind it, exactly when that timestamp
   byte is missing or not 0xF7, or the message starts with its own timestamp byte and either is a SysEx or repeats that
   byte throughout (with data bytes below 0x80: is that one byte).
   */
  lemma AfterSysEx(c: Carry, pack: Pack, y: Item, more: seq<byte>)
    requires pack.Legal(c) && pack.Readable() && (c.inSysex || c.sysex == []) && EndsInSysEx(pack)
    requires y.Legal(0)
    ensures pack.Messages(c) + [y.Midi()] <= Feed(c, pack.Wire(c) + (y.Wire() + more)).out
       <==> ClosingStamp(pack) != Some(0xF7) || Coincides(y.stamp, y.Midi())
    ensures pack.Messages(c) + [y.Midi()] == Feed(c, pack.Wire(c) + y.Wire()).out
       <==> ClosingStamp(pack) != Some(0xF7) || Coincides(y.stamp, y.Midi())
  {
    CoincidesExactly(y);
    RunToSysExEnd(c, pack);
    FeedConcat(c, pack.Wire(c), y.Wire() + more);
    FeedConcat(c, pack.Wire(c), y.Wire());
    NextOut(Run(Open(c), Payload(pack.Wire(c))), y, more);
  }

  /** A note-on that is lost after a SysEx whose closing timestamp is 0xF7: another message comes out in its place. */
  lemma NoteLost()
    ensures Feed(FRESH, [0x80] + (Exclusive(0x80, [1], Some(0xF7)).Wire() + Full(0x81, [0x90, 60, 100]).Wire())).out
         == [[0xF0, 1, 0xF7], [0x81, 0x90, 60]]
  {
    var x, wire := Exclusive(0x80, [1], Some(0xF7)), Full(0x81, [0x90, 60, 100]).Wire();
    var s := Open(FRESH);
    assert Payload([0x80] + (x.Wire() + wire)) == x.Wire() + wire;
    RunConcat(s, x.Wire(), wire);
    RunItem(s, x);
    var t := Run(s, x.Wire());
    assert x.Midi() == [0xF0, 1, 0xF7] && t.out == [x.Midi()];
    assert wire == [0x81, 0x90] + [60, 100];
    RunConcat(t, [0x81, 0x90], [60, 100]);
    RunTwo(t, 0x81, 0x90);
    var u := Run(t, [0x81, 0x90]);
    assert u == t.(phase := Collecting(0x81, [0x90]));
    RunTwo(u, 60, 100);
    assert [0x81] + ([0x90] + [60]) == [0x81, 0x90, 60];
  }

  /** A clock message that survives the same by coincidence: its timestamp byte is 0xF8 too. */
  lemma ClockSurvives()
    ensures Feed(FRESH, [0x80] + (Exclusive(0x80, [], Some(0xF7)).Wire() + Full(0xF8, [0xF8]).Wire())).out
         == [[0xF0, 0xF7], [0xF8]]
  {
    PairSurvives(Exclusive(0x80, [], Some(0xF7)), Full(0xF8, [0xF8]));
    assert [0xF0] + [] + [0xF7] == [0xF0, 0xF7];
  }

  /** So does a second SysEx whose timestamp byte is 0xF0: the decoder takes that byte for the opening one. */
  lemma SecondSysExSurvives()
    ensures var x, y := Exclusive(0x80, [1], Some(0xF7)), Exclusive(0xF0, [2], Some(0x81));
            Feed(FRESH, [0x80] + (x.Wire() + y.Wire())).out == [[0xF0, 1, 0xF7], [0xF0, 2, 0xF7]]
  {
    PairSurvives(Exclusive(0x80, [1], Some(0xF7)), Exclusive(0xF0, [2], Some(0x81)));
    assert [0xF0] + [1] + [0xF7] == [0xF0, 1, 0xF7] && [0xF0] + [2] + [0xF7] == [0xF0, 2, 0xF7];
  }

  lemma PairSurvives(x: Item, y: Item)
    requires x.Exclusive? && x.Legal(0) && y.Legal(0) && y.Survives()
    ensures Feed(FRESH, [0x80] + (x.Wire() + y.Wire())).out == [x.Midi(), y.Midi()]
  {
    var s := Open(FRESH);
    assert Payload([0x80] + (x.Wire() + y.Wire())) == x.Wire() + y.Wire();
    RunConcat(s, x.Wire(), y.Wire());
    RunItem(s, x);
    RunItem(Run(s, x.Wire()), y);
    assert [] + [x.Midi()] + [y.Midi()] == [x.Midi(), y.Midi()];
  }
}
