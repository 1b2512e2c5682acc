/** BLE-MIDI packet framing on the sending side: one message becomes one packet or, for a long SysEx, several. */
module BleFraming {
  import opened Bytes
  import opened BleAutomaton

  /** The packet header: the high six bits of the 13-bit timestamp. */
  function Header(ts: uint16): (b: byte)
    ensures 0x80 <= b < 0xC0
  {
    0x80 + ts % 0x2000 / 0x80
  }

  /** The timestamp byte: its low seven bits. */
  function Stamp(ts: uint16): (b: byte)
    ensures 0x80 <= b
  {
    0x80 + ts % 0x80
  }

  /** The 13 bits that survive framing can be read back from the two bytes. */
  lemma TimestampRoundTrip(ts: uint16)
    ensures (Header(ts) as int - 0x80) * 0x80 + (Stamp(ts) - 0x80) == ts % 0x2000
  {
    assert ts % 0x2000 % 0x80 == ts % 0x80;
  }

  function FrameMessageAt(midi: Message, ts: uint16): Packet {
    [Header(ts), Stamp(ts)] + midi
  }

  const MIN_SYSEX_PACKET := 4

  predicate MustChunk(midi: Message, mtu: int) {
    && MIN_SYSEX_PACKET <= mtu < |midi| + 2
    && |midi| >= 2 && midi[0] == 0xF0 && midi[|midi| - 1] == 0xF7
  }

  /** The packets that follow the first one: `body` is the SysEx data still to be sent. */
  function Continuation(ts: uint16, body: seq<byte>, mtu: int): seq<Packet>
    requires mtu >= 3
    decreases |body|
  {
    if body == [] then [[Header(ts), Stamp(ts), 0xF7]]
    else if |body| + 2 <= mtu - 1 then [[Header(ts)] + body + [Stamp(ts), 0xF7]]
    else
      var take := Min(mtu - 1, |body|);
      [[Header(ts)] + body[..take]] + Continuation(ts, body[take..], mtu)
  }

  function Chunks(midi: Message, ts: uint16, mtu: int): seq<Packet>
    requires mtu >= 3 && |midi| >= 2
  {
    var body := midi[1..|midi| - 1];
    var take := Min(mtu - 3, |body|);
    [[Header(ts), Stamp(ts), 0xF0] + body[..take]] + Continuation(ts, body[take..], mtu)
  }

  /** The packets of one message. An mtu below 4 means no limit. */
  function Framed(midi: Message, ts: uint16, mtu: int): seq<Packet> {
    if MustChunk(midi, mtu) then Chunks(midi, ts, mtu) else [FrameMessageAt(midi, ts)]
  }

  method FrameMessageMTU(midi: Message, ts: uint16, mtu: int) returns (packets: seq<Packet>)
    ensures packets == Framed(midi, ts, mtu)
    ensures MustChunk(midi, mtu) ==> |packets| == CeilDiv(|midi| + 2, mtu - 1)
    ensures mtu < 4 ==> packets == [FrameMessageAt(midi, ts)]
    ensures mtu >= 4 && IsSysEx(midi) ==> forall k :: 0 <= k < |packets| ==> |packets[k]| <= mtu
  {
    var full := FrameMessageAt(midi, ts);
    if mtu < MIN_SYSEX_PACKET || |full| <= mtu {
      return [full];
    }
    if |midi| < 2 || midi[0] != 0xF0 || midi[|midi| - 1] != 0xF7 {
      return [full];
    }
    ChunkCount(midi, ts, mtu);
    packets := ChunkSysEx(midi, ts, mtu);
  }

  method ChunkSysEx(midi: Message, ts: uint16, mtu: int) returns (packets: seq<Packet>)
    requires mtu >= 3 && |midi| >= 2
    ensures packets == Chunks(midi, ts, mtu)
    ensures forall k :: 0 <= k < |packets| ==> 1 <= |packets[k]| <= mtu
  {
    var header, tsLow := Header(ts), Stamp(ts);
    var body := midi[1..|midi| - 1];
    var first := [header, tsLow, 0xF0];
    var take := mtu - |first|;
    if take > |body| {
      take := |body|;
    }
    first := first + body[..take];
    packets := [first];
    body := body[take..];
    ghost var all := Chunks(midi, ts, mtu);

    while |body| > 0
      invariant packets + Continuation(ts, body, mtu) == all
      invariant forall k :: 0 <= k < |packets| ==> 1 <= |packets[k]| <= mtu
      decreases |body|
    {
      var pkt := [header];
      var room := mtu - 1;
      if |body| + 2 <= room {
        pkt := pkt + body;
        pkt := pkt + [tsLow, 0xF7];
        return packets + [pkt];
      }
      var take := room;
      if take > |body| {
        take := |body|;
      }
      pkt := pkt + body[..take];
      assert packets + Continuation(ts, body, mtu) == packets + [pkt] + Continuation(ts, body[take..], mtu);
      packets := packets + [pkt];
      body := body[take..];
    }
    return packets + [[header, tsLow, 0xF7]];
  }

  // ---------------------------------------------------------------- what chunking preserves

  /** Rounded-up division, as used to count packets. */
  function CeilDiv(n: nat, d: int): (q: nat)
    requires d >= 1
    ensures (q - 1) * d < n <= q * d
  {
    var q := (n + d - 1) / d;
    CeilDivBounds(n, d, q);
    q
  }

  lemma CeilDivBounds(n: nat, d: int, q: int)
    requires d >= 1 && q == (n + d - 1) / d
    ensures 0 <= q && (q - 1) * d < n <= q * d
  {
    assert n + d - 1 == q * d + (n + d - 1) % d;
    assert (q - 1) * d == q * d - d;
  }

  lemma CeilDivLeast(n: nat, d: int, q: nat)
    requires d >= 1 && n <= q * d
    ensures CeilDiv(n, d) <= q
  {
  }

  lemma CeilDivSucc(n: nat, d: int, q: nat)
    requires d >= 1 && (q - 1) * d < n <= q * d
    ensures CeilDiv(n + d, d) == q + 1
  {
    var r := CeilDiv(n + d, d);
    assert (q + 1) * d == q * d + d && (q - 1) * d == q * d - d;
    CeilDivLeast(n + d, d, q + 1);
    assert q * d < r * d;
  }

  function Payloads(ps: seq<Packet>): seq<seq<byte>> {
    if ps == [] then [] else [Payload(ps[0])] + Payloads(ps[1..])
  }

  lemma {:induction false} ContinuationPayload(ts: uint16, body: seq<byte>, mtu: int)
    requires mtu >= 3
    ensures Flatten(Payloads(Continuation(ts, body, mtu))) == body + [Stamp(ts), 0xF7]
    decreases |body|
  {
    var ps := Continuation(ts, body, mtu);
    assert Payload(ps[0]) == ps[0][1..];
    if body == [] || |body| + 2 <= mtu - 1 {
      assert Payloads(ps) == [Payload(ps[0])];
      assert ps[0][1..] == body + [Stamp(ts), 0xF7];
      assert Flatten([ps[0][1..]]) == ps[0][1..] + Flatten([]);
    } else {
      var take := Min(mtu - 1, |body|);
      ContinuationPayload(ts, body[take..], mtu);
      assert ps[1..] == Continuation(ts, body[take..], mtu);
      assert Payloads(ps)[1..] == Payloads(ps[1..]);
      assert body == body[..take] + body[take..];
    }
  }

  /**
   With the headers removed, the chunks of a message are its timestamp byte, the message up to its last byte, the
   timestamp byte again, and the terminator: nothing is lost, repeated or reordered.
   */
  lemma ChunkPayload(midi: Message, ts: uint16, mtu: int)
    requires MustChunk(midi, mtu)
    ensures Flatten(Payloads(Chunks(midi, ts, mtu))) == [Stamp(ts)] + midi[..|midi| - 1] + [Stamp(ts), 0xF7]
  {
    var body := midi[1..|midi| - 1];
    var take := Min(mtu - 3, |body|);
    var first := [Header(ts), Stamp(ts), 0xF0] + body[..take];
    var rest := Continuation(ts, body[take..], mtu);
    ContinuationPayload(ts, body[take..], mtu);
    assert ([first] + rest)[1..] == rest;
    PayloadsFirst([first] + rest);
    assert Payload(first) == [Stamp(ts), 0xF0] + body[..take];
    Regroup(Stamp(ts), midi, take, [Stamp(ts), 0xF7]);
  }

  lemma Regroup(stamp: byte, m: Message, take: nat, end: seq<byte>)
    requires |m| >= 2 && m[0] == 0xF0 && take <= |m| - 2
    ensures var body := m[1..|m| - 1];
            ([stamp, 0xF0] + body[..take]) + (body[take..] + end) == [stamp] + m[..|m| - 1] + end
  {
  }

  lemma PayloadsFirst(ps: seq<Packet>)
    requires ps != []
    ensures Flatten(Payloads(ps)) == Payload(ps[0]) + Flatten(Payloads(ps[1..]))
  {
    assert Payloads(ps)[1..] == Payloads(ps[1..]);
  }

  lemma {:induction false} ContinuationCount(ts: uint16, body: seq<byte>, mtu: int)
    requires mtu >= 3
    ensures var n := |Continuation(ts, body, mtu)|; (n - 1) * (mtu - 1) < |body| + 2 <= n * (mtu - 1)
    decreases |body|
  {
    var room := mtu - 1;
    if body != [] && |body| + 2 > room {
      var take := Min(room, |body|);
      ContinuationCount(ts, body[take..], mtu);
      var n := |Continuation(ts, body[take..], mtu)|;
      assert |Continuation(ts, body, mtu)| == n + 1;
      assert n * room == (n - 1) * room + room && (n + 1) * room == n * room + room;
      if take < room {
        assert body[take..] == [];
        assert n == 1;
      }
    }
  }

  lemma ChunkCount(midi: Message, ts: uint16, mtu: int)
    requires MustChunk(midi, mtu)
    ensures |Chunks(midi, ts, mtu)| == CeilDiv(|midi| + 2, mtu - 1)
  {
    var body := midi[1..|midi| - 1];
    var take := Min(mtu - 3, |body|);
    var rest := body[take..];
    ContinuationCount(ts, rest, mtu);
    CeilDivSucc(|rest| + 2, mtu - 1, |Continuation(ts, rest, mtu)|);
    assert |midi| + 2 == |rest| + 2 + (mtu - 1);
  }

  lemma {:induction false} FlattenBound(parts: seq<seq<byte>>, room: nat)
    requires forall k :: 0 <= k < |parts| ==> |parts[k]| <= room
    ensures |Flatten(parts)| <= |parts| * room
  {
    if parts != [] {
      FlattenBound(parts[1..], room);
      assert |parts| * room == room + (|parts| - 1) * room;
    }
  }

  /** No packetisation of the same bytes under the same limit uses fewer packets. */
  lemma ChunksAreFewest(midi: Message, ts: uint16, mtu: int, other: seq<Packet>)
    requires MustChunk(midi, mtu)
    requires forall k :: 0 <= k < |other| ==> |other[k]| <= mtu
    requires Flatten(Payloads(other)) == Flatten(Payloads(Chunks(midi, ts, mtu)))
    ensures |Chunks(midi, ts, mtu)| <= |other|
  {
    assert |Flatten(Payloads(Chunks(midi, ts, mtu)))| == |midi| + 2 by {
      ChunkPayload(midi, ts, mtu);
    }
    PayloadsShape(other, mtu);
    FlattenBound(Payloads(other), mtu - 1);
    CeilDivLeast(|midi| + 2, mtu - 1, |other|);
    ChunkCount(midi, ts, mtu);
  }

  lemma {:induction false} PayloadsShape(ps: seq<Packet>, mtu: int)
    requires mtu >= 1 && forall k :: 0 <= k < |ps| ==> |ps[k]| <= mtu
    ensures |Payloads(ps)| == |ps|
    ensures forall k :: 0 <= k < |ps| ==> |Payloads(ps)[k]| <= mtu - 1
  {
    if ps != [] {
      PayloadsShape(ps[1..], mtu);
    }
  }

  predicate AllHeaded(ps: seq<Packet>, header: byte) {
    forall k :: 0 <= k < |ps| ==> |ps[k]| >= 1 && ps[k][0] == header
  }

  /**
   The 13-bit timestamp can be read back from the first two bytes of the first packet, and every packet starts with
   the same header byte, whose top bits are 1 and 0.
   */
  lemma PacketTimestamps(midi: Message, ts: uint16, mtu: int)
    ensures var ps := Framed(midi, ts, mtu);
            && ps != [] && |ps[0]| >= 2 && 0x80 <= ps[0][0] < 0xC0 && AllHeaded(ps, ps[0][0])
            && (ps[0][0] as int - 0x80) * 0x80 + (ps[0][1] - 0x80) == ts % 0x2000
  {
    TimestampRoundTrip(ts);
    if MustChunk(midi, mtu) {
      var body := midi[1..|midi| - 1];
      ContinuationHeaders(ts, body[Min(mtu - 3, |body|)..], mtu);
    }
  }

  lemma {:induction false} ContinuationHeaders(ts: uint16, body: seq<byte>, mtu: int)
    requires mtu >= 3
    ensures AllHeaded(Continuation(ts, body, mtu), Header(ts))
    decreases |body|
  {
    if body != [] && |body| + 2 > mtu - 1 {
      var take := Min(mtu - 1, |body|);
      ContinuationHeaders(ts, body[take..], mtu);
      assert Continuation(ts, body, mtu) == [[Header(ts)] + body[..take]] + Continuation(ts, body[take..], mtu);
    }
  }

  /** The limit is respected exactly when the message fits in one packet or is a SysEx that gets chunked. */
  lemma MtuRespected(midi: Message, ts: uint16, mtu: int)
    requires mtu >= 4
    ensures (forall k :: 0 <= k < |Framed(midi, ts, mtu)| ==> |Framed(midi, ts, mtu)[k]| <= mtu)
       <==> (|midi| + 2 <= mtu || MustChunk(midi, mtu))
  {
    if MustChunk(midi, mtu) {
      var body := midi[1..|midi| - 1];
      ContinuationFits(ts, body[Min(mtu - 3, |body|)..], mtu);
    } else {
      assert |Framed(midi, ts, mtu)[0]| == |midi| + 2;
    }
  }

  /** A note-on at a limit of four bytes makes a packet of five. */
  lemma MtuExceeded(ts: uint16)
    ensures |Framed([0x90, 60, 100], ts, 4)[0]| == 5
  {
  }

  lemma {:induction false} ContinuationFits(ts: uint16, body: seq<byte>, mtu: int)
    requires mtu >= 3
    ensures forall k :: 0 <= k < |Continuation(ts, body, mtu)| ==> |Continuation(ts, body, mtu)[k]| <= mtu
    decreases |body|
  {
    if body != [] && |body| + 2 > mtu - 1 {
      ContinuationFits(ts, body[Min(mtu - 1, |body|)..], mtu);
    }
  }

  // ---------------------------------------------------------------- the shape of the packets

  /** A packet that only extends an open SysEx. */
  predicate IsMiddle(p: Packet) {
    0xF7 !in Payload(p)
  }

  predicate AllMiddle(ps: seq<Packet>) {
    forall k :: 0 <= k < |ps| ==> IsMiddle(ps[k])
  }

  function ClosingPacket(header: byte, last: seq<byte>, stamp: byte): Packet {
    [header] + last + [stamp, 0xF7]
  }

  function OpeningPacket(header: byte, stamp: byte, first: seq<byte>): Packet {
    [header, stamp, 0xF0] + first
  }

  /** All continuation packets but the last one are middle packets, and the last one closes the SysEx. */
  lemma {:induction false} ContinuationShape(ts: uint16, body: seq<byte>, mtu: int)
      returns (middle: seq<Packet>, last: seq<byte>)
    requires mtu >= 3 && SevenBit(body)
    ensures Continuation(ts, body, mtu) == middle + [ClosingPacket(Header(ts), last, Stamp(ts))]
    ensures AllMiddle(middle) && SevenBit(last)
    ensures Flatten(Payloads(middle)) + last == body
    decreases |body|
  {
    if body == [] || |body| + 2 <= mtu - 1 {
      middle, last := [], body;
      assert [Header(ts)] + [] + [Stamp(ts), 0xF7] == [Header(ts), Stamp(ts), 0xF7];
    } else {
      var take := Min(mtu - 1, |body|);
      var more;
      more, last := ContinuationShape(ts, body[take..], mtu);
      middle := [[Header(ts)] + body[..take]] + more;
      MiddleFirst(Header(ts), body, take, more, last);
      Assoc([[Header(ts)] + body[..take]], more, [ClosingPacket(Header(ts), last, Stamp(ts))]);
    }
  }

  lemma MiddleFirst(header: byte, body: seq<byte>, take: nat, more: seq<Packet>, last: seq<byte>)
    requires SevenBit(body) && take <= |body| && AllMiddle(more) && Flatten(Payloads(more)) + last == body[take..]
    ensures var middle := [[header] + body[..take]] + more;
            AllMiddle(middle) && Flatten(Payloads(middle)) + last == body
  {
    var p := [header] + body[..take];
    assert Payload(p) == body[..take] && ([p] + more)[1..] == more;
    PayloadsFirst([p] + more);
    Assoc(body[..take], Flatten(Payloads(more)), last);
    assert body == body[..take] + body[take..];
  }

  /** The first k continuation packets carry mtu - 1 body bytes each, as long as there are that many. */
  lemma {:induction false} ContinuationPrefix(ts: uint16, body: seq<byte>, mtu: int, k: nat)
    requires mtu >= 3 && k < |Continuation(ts, body, mtu)|
    ensures Flatten(Payloads(Continuation(ts, body, mtu)[..k])) == body[..Min(k * (mtu - 1), |body|)]
    ensures SevenBit(body) ==> AllMiddle(Continuation(ts, body, mtu)[..k])
    decreases k
  {
    if k > 0 {
      var take := Min(mtu - 1, |body|);
      var rest := body[take..];
      var p, ps := [Header(ts)] + body[..take], Continuation(ts, rest, mtu)[..k - 1];
      assert Continuation(ts, body, mtu)[..k] == [p] + ps && ([p] + ps)[1..] == ps;
      assert Payload(p) == body[..take];
      PayloadsFirst([p] + ps);
      ContinuationPrefix(ts, rest, mtu, k - 1);
      PrefixLength(k, mtu - 1, |body|);
      JoinPrefixes(body, take, Min((k - 1) * (mtu - 1), |rest|));
    }
  }

  lemma PrefixLength(k: nat, room: nat, len: nat)
    requires k >= 1
    ensures (k - 1) * room >= 0
    ensures Min(k * room, len) == Min(room, len) + Min((k - 1) * room, len - Min(room, len))
  {
    assert k * room == (k - 1) * room + room;
  }

  lemma JoinPrefixes<T>(s: seq<T>, i: nat, j: nat)
    requires i + j <= |s|
    ensures s[..i] + s[i..][..j] == s[..i + j]
  {
  }

  /** A chunked SysEx is an opening packet, middle packets and a closing packet that share out its body. */
  lemma ChunksShape(m: Message, ts: uint16, mtu: int)
      returns (first: seq<byte>, middle: seq<Packet>, last: seq<byte>)
    requires MustChunk(m, mtu) && IsSysEx(m)
    ensures Chunks(m, ts, mtu)
         == [OpeningPacket(Header(ts), Stamp(ts), first)] + middle + [ClosingPacket(Header(ts), last, Stamp(ts))]
    ensures SevenBit(first) && AllMiddle(middle) && SevenBit(last)
    ensures first + Flatten(Payloads(middle)) + last == m[1..|m| - 1]
  {
    var body := m[1..|m| - 1];
    var take := Min(mtu - 3, |body|);
    first := body[..take];
    middle, last := ContinuationShape(ts, body[take..], mtu);
    var opening, closing := OpeningPacket(Header(ts), Stamp(ts), first), ClosingPacket(Header(ts), last, Stamp(ts));
    assert [opening] + (middle + [closing]) == [opening] + middle + [closing];
    var data := Flatten(Payloads(middle));
    assert first + data + last == first + (data + last) == body;
  }

  /** What the first k chunks carry of m: mtu - 1 bytes each, less the first timestamp, and never the terminator. */
  function SoFar(m: Message, mtu: int, k: nat): Message {
    var n := k * (mtu - 1) - 1;
    if 0 <= n && m != [] then m[..Min(n, |m| - 1)] else []
  }

  /** After the first timestamp, the first k chunks carry a prefix of the message, as long as it can be. */
  lemma ChunksPrefix(m: Message, ts: uint16, mtu: int, k: nat) returns (first: seq<byte>, middle: seq<Packet>)
    requires MustChunk(m, mtu) && IsSysEx(m) && 0 < k < |Chunks(m, ts, mtu)|
    ensures Chunks(m, ts, mtu)[..k] == [OpeningPacket(Header(ts), Stamp(ts), first)] + middle
    ensures SevenBit(first) && AllMiddle(middle) && SevenBit(Flatten(Payloads(middle)))
    ensures [0xF0] + first + Flatten(Payloads(middle)) == SoFar(m, mtu, k)
  {
    var body := m[1..|m| - 1];
    var take := Min(mtu - 3, |body|);
    first := body[..take];
    middle := Continuation(ts, body[take..], mtu)[..k - 1];
    assert Chunks(m, ts, mtu)[..k] == [OpeningPacket(Header(ts), Stamp(ts), first)] + middle;
    ContinuationPrefix(ts, body[take..], mtu, k - 1);
    ChunkedLength(k, mtu, |body|);
    SysExPrefix(m, take, Min((k - 1) * (mtu - 1), |body| - take));
  }

  lemma ChunkedLength(k: nat, mtu: int, len: nat)
    requires k >= 1 && mtu >= 4
    ensures (k - 1) * (mtu - 1) >= 0 && k * (mtu - 1) - 1 >= 0
    ensures var take := Min(mtu - 3, len);
            mtu - 3 <= len ==> Min(k * (mtu - 1) - 1, len + 1) == 1 + take + Min((k - 1) * (mtu - 1), len - take)
  {
    assert k * (mtu - 1) == (k - 1) * (mtu - 1) + (mtu - 1);
  }

  lemma SysExPrefix(m: Message, i: nat, j: nat)
    requires IsSysEx(m) && i + j <= |m| - 2
    ensures var body := m[1..|m| - 1]; [0xF0] + body[..i] + body[i..][..j] == m[..1 + i + j]
  {
  }
}
