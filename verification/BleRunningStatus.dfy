/** Running status over packet streams, told from the messages that come out. */
module BleRunningStatus {
  import opened Bytes
  import opened BleAutomaton
  import opened BleRoundTrip

  /** Message k is the last one that is not real-time. */
  predicate LastCounts(ms: seq<Message>, k: nat) {
    && k < |ms| && ms[k] != [] && ms[k][0] < 0xF8
    && forall j :: k < j < |ms| ==> ms[j] != [] && ms[j][0] >= 0xF8
  }

  /**
   What running status must be after these messages: the status byte of the last one that is not real-time if that is a
   channel message, none if it is a system message, and as before if there is no such message.
   */
  ghost predicate Told(before: byte, ms: seq<Message>, running: byte) {
    && ((forall k :: 0 <= k < |ms| ==> ms[k] != [] && ms[k][0] >= 0xF8) ==> running == before)
    && (forall k: nat :: LastCounts(ms, k) ==> running == if ms[k][0] < 0xF0 then ms[k][0] else 0)
  }

  lemma LastCountsNext(ms: seq<Message>, m: Message, k: nat)
    requires m != []
    ensures LastCounts(ms + [m], k) <==> if m[0] < 0xF8 then k == |ms| else LastCounts(ms, k)
  {
    var all := ms + [m];
    assert all[|ms|] == m;
    if k < |ms| {
      assert all[k] == ms[k];
      assert forall j :: k < j < |ms| ==> all[j] == ms[j];
    }
  }

  lemma ToldNext(before: byte, ms: seq<Message>, running: byte, m: Message, next: byte)
    requires Told(before, ms, running) && m != []
    requires next == if m[0] >= 0xF8 then running else if m[0] >= 0xF0 then 0 else m[0]
    ensures Told(before, ms + [m], next)
  {
    var all := ms + [m];
    assert all[|ms|] == m;
    forall k: nat ensures LastCounts(all, k) <==> if m[0] < 0xF8 then k == |ms| else LastCounts(ms, k) {
      LastCountsNext(ms, m, k);
    }
    assert forall k :: 0 <= k < |ms| ==> all[k] == ms[k];
  }

  lemma StepTold(before: byte, s: State, b: byte)
    requires StateValid(s) && Told(before, s.out, s.running)
    ensures Told(before, Step(s, b).out, Step(s, b).running)
  {
    var t := Step(s, b);
    if t.out != s.out {
      var m := t.out[|s.out|];
      assert t.out == s.out + [m];
      ToldNext(before, s.out, s.running, m, t.running);
    }
  }

  lemma {:induction false} RunTold(before: byte, s: State, bs: seq<byte>)
    requires StateValid(s) && Told(before, s.out, s.running)
    ensures Told(before, Run(s, bs).out, Run(s, bs).running)
    decreases |bs|
  {
    if bs != [] {
      StepTold(before, s, bs[0]);
      StepValid(s, bs[0]);
      RunTold(before, Step(s, bs[0]), bs[1..]);
    }
  }

  lemma {:induction false} ToldConcat(r0: byte, a: seq<Message>, r1: byte, b: seq<Message>, r2: byte)
    requires Told(r0, a, r1) && Told(r1, b, r2) && forall k :: 0 <= k < |b| ==> b[k] != []
    ensures Told(r0, a + b, r2)
  {
    var all := a + b;
    assert forall k :: 0 <= k < |a| ==> all[k] == a[k];
    assert forall k :: 0 <= k < |b| ==> all[|a| + k] == b[k];
    forall k: nat | LastCounts(all, k) ensures r2 == if all[k][0] < 0xF0 then all[k][0] else 0 {
      if k >= |a| {
        assert LastCounts(b, k - |a|);
      } else {
        assert LastCounts(a, k);
        assert forall j :: 0 <= j < |b| ==> all[|a| + j] == b[j] && b[j][0] >= 0xF8;
      }
    }
  }

  /** After any packet stream at all, running status is what the messages emitted tell, and nothing else. */
  lemma {:induction false} RunningIsTold(c: Carry, ps: seq<Packet>)
    requires c.Valid()
    ensures Told(c.running, FeedAll(c, ps).out, FeedAll(c, ps).carry.running)
    decreases |ps|
  {
    if ps != [] {
      var first := Feed(c, ps[0]);
      var rest := FeedAll(first.carry, ps[1..]);
      RunTold(c.running, Open(c), Payload(ps[0]));
      RunValid(Open(c), Payload(ps[0]));
      RunningIsTold(first.carry, ps[1..]);
      FeedAllValid(first.carry, ps[1..]);
      assert forall k :: 0 <= k < |rest.out| ==> WellFormed(rest.out[k]);
      ToldConcat(c.running, first.out, first.carry.running, rest.out, rest.carry.running);
    }
  }

  /** Nothing or one timestamp, as may stand before data bytes that have no status byte. */
  predicate Gap(gap: seq<byte>) {
    gap == [] || (|gap| == 1 && gap[0] >= 0x80)
  }

  /** After a channel message, as many data bytes as it has make another message of its kind. */
  lemma RunResumed(s: State, m: Message, gap: seq<byte>, data: seq<byte>)
    requires s.phase.AwaitStamp? && IsShort(m) && s.running == m[0] < 0xF0
    requires Gap(gap) && SevenBit(data) && |data| == |m| - 1
    ensures Run(s, gap + data) == State(AwaitStamp, m[0], s.sysex, s.out + [[m[0]] + data])
  {
    RunConcat(s, gap, data);
    if gap != [] {
      RunOne(s, gap[0]);
      assert gap == [gap[0]];
    }
    var t, u := Run(s, gap), s.(phase := Collecting(m[0], []));
    assert data[0] < 0x80 && Step(t, data[0]) == Step(u, data[0]);
    assert Run(t, data) == Run(u, data);
    RunCollecting(u, data);
    assert [] + data == data;
  }

  /**
   A channel message puts its status byte in force. Data bytes that follow it without one, with a timestamp or without,
   are another message with that status byte, in the same packet and at the start of the next.
   */
  lemma StatusStaysInForce(c: Carry, header: byte, stamp: byte, m: Message,
                           header': byte, gap: seq<byte>, data: seq<byte>)
    requires c.Valid() && !c.inSysex && stamp >= 0x80 && IsShort(m) && m[0] < 0xF0
    requires Gap(gap) && SevenBit(data) && |data| == |m| - 1
    ensures Feed(c, [header, stamp] + m + (gap + data)) == Fed(Clean(m[0]), [m, [m[0]] + data])
    ensures FeedAll(c, [[header, stamp] + m, [header'] + (gap + data)]) == Fed(Clean(m[0]), [m, [m[0]] + data])
  {
    var more := gap + data;
    var p, q, s := [header, stamp] + m, [header'] + more, Open(c).(phase := AwaitStatus);
    assert Payload(p) == [stamp] + m && Payload(p + more) == [stamp] + (m + more) && Payload(q) == more;
    assert ([stamp] + m)[1..] == m && ([stamp] + (m + more))[1..] == m + more;
    RunShort(s, m);
    var t := Run(s, m);
    RunConcat(s, m, more);
    RunResumed(t, m, gap, data);
    RunResumed(Open(Clean(m[0])), m, gap, data);
    var next: Message := [m[0]] + data;
    assert [m] + [next] == [m, next];
    assert [] + [m] == [m] && [] + [next] == [next];
    assert [p, q][1..] == [q];
    FeedAllOne(Clean(m[0]), q);
    FeedFirst(c, [p, q], Fed(Clean(m[0]), [m]));
  }
}
