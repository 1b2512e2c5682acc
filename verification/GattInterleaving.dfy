/**
 Any number of threads calling Send and Close on one GATT data plane, interleaved at the granularity of single packet
 writes, against one decoder that receives the packets written.
 */
module GattInterleaving {
  import opened Bytes
  import opened BleAutomaton
  import opened BleFraming
  import opened BleRoundTrip
  import opened GattPlane

  type Tid = nat

  /** Where a thread is. Between LockSend and FinishSend or FailWrite, and between LockClose and Shut, it holds wmu. */
  datatype Pc =
    | Idle
    | WantSend(midi: Message)
    | Sending(midi: Message, ts: uint16, written: nat, todo: seq<Packet>)
    | WantClose
    | Closing
  {
    predicate Critical() {
      Sending? || Closing?
    }
  }

  /** How a send that took the lock on an open plane ended. */
  datatype Outcome = Outcome(midi: Message, ok: bool)

  /**
   What happened so far. `accepted` are the messages whose senders took the lock, `outcomes` the ends of their sends.
   `cut` says that some send was cut off part-way, and `torn` that none has put this right since by completing a SysEx.
   `mark` is how much of the log was written when that last happened, and `since` are the messages delivered after it.
   */
  datatype History = History(accepted: seq<Message>, outcomes: seq<Outcome>, cut: bool, torn: bool, mark: nat,
                             since: seq<Message>)
  {
    function Accept(m: Message): History {
      this.(accepted := accepted + [m])
    }

    function Refuse(m: Message, written: nat): History {
      var h := this.(outcomes := outcomes + [Outcome(m, false)]);
      if written > 0 then h.(cut := true, torn := true, since := []) else h
    }

    function Complete(m: Message, logged: nat): History {
      var h := this.(outcomes := outcomes + [Outcome(m, true)]);
      if !torn then h.(since := since + [m])
      else if IsSysEx(m) then h.(torn := false, mark := logged, since := [])
      else h
    }
  }

  /** The plane and its threads; `log` is what has been written to the fd. */
  datatype Plane = Plane(mtu: uint16, open: bool, owner: Option<Tid>, pcs: map<Tid, Pc>, log: seq<Packet>,
                         past: History)
  {
    function At(t: Tid): Pc {
      if t in pcs then pcs[t] else Idle
    }

    function Move(t: Tid, pc: Pc): Plane {
      this.(pcs := pcs[t := pc])
    }

    /** The pc of the lock holder, if there is one. */
    function Holder(): Pc {
      if owner.Some? then At(owner.value) else Idle
    }

    /** The message being sent, if any. */
    function Current(): Option<Message> {
      if Holder().Sending? then Some(Holder().midi) else None
    }

    /** What was written before the send in progress. */
    function Base(): seq<Packet> {
      if Holder().Sending? && Holder().written <= |log| then log[..|log| - Holder().written] else log
    }
  }

  function Start(mtu: uint16): Plane {
    Plane(mtu, true, None, map[], [], History([], [], false, false, 0, []))
  }

  datatype Step =
    | CallSend(t: Tid, midi: Message)
    | LockSend(t: Tid, ts: uint16)
    | WritePacket(t: Tid)
    | FailWrite(t: Tid)
    | FinishSend(t: Tid)
    | CallClose(t: Tid)
    | LockClose(t: Tid)
    | Shut(t: Tid)

  /** A lock step needs the lock to be free; the other steps of a critical section do not look at it. */
  predicate Enabled(s: Plane, step: Step) {
    match step
    case CallSend(t, midi) => s.At(t).Idle? && WellFormed(midi)
    case LockSend(t, ts) => s.At(t).WantSend? && s.owner.None?
    case WritePacket(t) => s.At(t).Sending? && s.At(t).todo != []
    case FailWrite(t) => s.At(t).Sending? && s.At(t).todo != []
    case FinishSend(t) => s.At(t).Sending? && s.At(t).todo == []
    case CallClose(t) => s.At(t).Idle?
    case LockClose(t) => s.At(t).WantClose? && s.owner.None?
    case Shut(t) => s.At(t).Closing?
  }

  function Apply(s: Plane, step: Step): Plane
    requires Enabled(s, step)
  {
    var pc := s.At(step.t);
    match step
    case CallSend(t, midi) => s.Move(t, WantSend(midi))
    case LockSend(t, ts) =>
      if s.open then
        s.Move(t, Sending(pc.midi, ts, 0, Framed(pc.midi, ts, Usable(s.mtu))))
         .(owner := Some(t), past := s.past.Accept(pc.midi))
      else s.Move(t, Idle)
    case WritePacket(t) =>
      s.Move(t, pc.(written := pc.written + 1, todo := pc.todo[1..])).(log := s.log + [pc.todo[0]])
    case FailWrite(t) => s.Move(t, Idle).(owner := None, past := s.past.Refuse(pc.midi, pc.written))
    case FinishSend(t) => s.Move(t, Idle).(owner := None, past := s.past.Complete(pc.midi, |s.log|))
    case CallClose(t) => s.Move(t, WantClose)
    case LockClose(t) => s.Move(t, Closing).(owner := Some(t))
    case Shut(t) => s.Move(t, Idle).(owner := None, open := false)
  }

  ghost predicate Run(s: Plane, steps: seq<Step>, end: Plane)
    decreases |steps|
  {
    if steps == [] then s == end
    else Enabled(s, steps[0]) && Run(Apply(s, steps[0]), steps[1..], end)
  }

  // ---------------------------------------------------------------- the invariant

  /** The lock does its work: whoever is in a critical section holds it, so there is at most one such thread. */
  ghost predicate Exclusive(s: Plane) {
    && (forall t: Tid :: s.At(t).Critical() ==> s.owner == Some(t))
    && (s.owner.Some? ==> s.At(s.owner.value).Critical())
  }

  ghost predicate Requests(s: Plane) {
    forall t: Tid :: s.At(t).WantSend? ==> WellFormed(s.At(t).midi)
  }

  /** The packets of the send in progress are the end of the log, and the rest of them are still to be written. */
  predicate InProgress(s: Plane, pc: Pc)
    requires pc.Sending?
  {
    var packets := Framed(pc.midi, pc.ts, Usable(s.mtu));
    && s.open && WellFormed(pc.midi)
    && pc.written <= |packets| && pc.todo == packets[pc.written..]
    && pc.written <= |s.log| && s.log[|s.log| - pc.written..] == packets[..pc.written]
  }

  /** Since the first `mark` packets a decoder has emitted exactly these messages, and it is between messages. */
  predicate Settled(log: seq<Packet>, mark: nat, since: seq<Message>) {
    var f := FeedAll(FRESH, log);
    mark <= |log| && f.carry.Valid() && !f.carry.inSysex && f.out == FeedAll(FRESH, log[..mark]).out + since
  }

  function Attempted(outcomes: seq<Outcome>): seq<Message> {
    if outcomes == [] then []
    else Attempted(outcomes[..|outcomes| - 1]) + [outcomes[|outcomes| - 1].midi]
  }

  /** The messages whose sends succeeded. */
  function Delivered(outcomes: seq<Outcome>): seq<Message> {
    if outcomes == [] then []
    else
      var last := outcomes[|outcomes| - 1];
      Delivered(outcomes[..|outcomes| - 1]) + (if last.ok then [last.midi] else [])
  }

  predicate EndsWith(all: seq<Message>, end: seq<Message>) {
    |end| <= |all| && all[|all| - |end|..] == end
  }

  /** Sends end in the order in which their senders took the lock. */
  predicate InLockOrder(h: History, current: Option<Message>) {
    h.accepted == Attempted(h.outcomes) + (if current.Some? then [current.value] else [])
  }

  /** What `since` has to do with all the messages delivered. */
  predicate Recent(h: History) {
    && EndsWith(Delivered(h.outcomes), h.since)
    && (!h.cut ==> !h.torn && h.mark == 0 && h.since == Delivered(h.outcomes))
    && (h.torn ==> h.since == [])
  }

  predicate Consistent(h: History, current: Option<Message>) {
    InLockOrder(h, current) && Recent(h)
  }

  ghost predicate Inv(s: Plane) {
    && Exclusive(s) && Requests(s)
    && (s.Holder().Sending? ==> InProgress(s, s.Holder()))
    && (!s.past.torn ==> Settled(s.Base(), s.past.mark, s.past.since))
  }

  lemma StepExclusive(s: Plane, step: Step)
    requires Exclusive(s) && Requests(s) && Enabled(s, step)
    ensures Exclusive(Apply(s, step)) && Requests(Apply(s, step))
  {
    var s' := Apply(s, step);
    assert forall t: Tid :: t != step.t ==> s'.At(t) == s.At(t);
  }

  lemma SettledNext(base: seq<Packet>, mark: nat, since: seq<Message>, m: Message, ts: uint16, mtu: int)
    requires Settled(base, mark, since) && WellFormed(m)
    ensures Settled(base + Framed(m, ts, mtu), mark, since + [m])
  {
    var c, packets := FeedAll(FRESH, base).carry, Framed(m, ts, mtu);
    FeedAllConcat(FRESH, base, packets);
    FeedAllValid(c, packets);
    FramedDecodes(c, m, ts, mtu);
    assert (base + packets)[..mark] == base[..mark];
    Assoc(FeedAll(FRESH, base[..mark]).out, since, [m]);
  }

  /** One complete SysEx settles the receiver, whatever was written before. */
  lemma SettledAgain(base: seq<Packet>, m: Message, ts: uint16, mtu: int)
    requires IsSysEx(m)
    ensures Settled(base + Framed(m, ts, mtu), |base + Framed(m, ts, mtu)|, [])
  {
    var log := base + Framed(m, ts, mtu);
    FeedAllValid(FRESH, base);
    FeedAllConcat(FRESH, base, Framed(m, ts, mtu));
    SysExResets(FeedAll(FRESH, base).carry, m, ts, mtu);
    assert log[..|log|] == log;
    assert FeedAll(FRESH, log).out + [] == FeedAll(FRESH, log).out;
  }

  lemma OutcomesNext(outcomes: seq<Outcome>, o: Outcome)
    ensures Attempted(outcomes + [o]) == Attempted(outcomes) + [o.midi]
    ensures Delivered(outcomes + [o]) == if o.ok then Delivered(outcomes) + [o.midi] else Delivered(outcomes)
  {
    var all := outcomes + [o];
    assert all[..|all| - 1] == outcomes && all[|all| - 1] == o;
    assert Delivered(outcomes) + [] == Delivered(outcomes);
  }

  lemma AcceptConsistent(h: History, m: Message)
    requires Consistent(h, None)
    ensures Consistent(h.Accept(m), Some(m))
  {
    assert Attempted(h.outcomes) + [] == Attempted(h.outcomes);
  }

  lemma RefuseConsistent(h: History, m: Message, written: nat)
    requires Consistent(h, Some(m))
    ensures Consistent(h.Refuse(m, written), None)
  {
    OutcomesNext(h.outcomes, Outcome(m, false));
    Refused(h.accepted, Attempted(h.outcomes), m);
    EndsWithNothing(Delivered(h.outcomes));
  }

  lemma Refused(accepted: seq<Message>, attempted: seq<Message>, m: Message)
    requires accepted == attempted + [m]
    ensures accepted == attempted + [m] + []
  {
  }

  lemma EndsWithNothing(all: seq<Message>)
    ensures EndsWith(all, [])
  {
  }

  lemma CompleteConsistent(h: History, m: Message, logged: nat)
    requires Consistent(h, Some(m))
    ensures Consistent(h.Complete(m, logged), None)
  {
    OutcomesNext(h.outcomes, Outcome(m, true));
    assert h.accepted + [] == h.accepted;
    EndsWithNext(Delivered(h.outcomes), h.since, m);
  }

  lemma EndsWithNext(all: seq<Message>, end: seq<Message>, m: Message)
    requires EndsWith(all, end)
    ensures EndsWith(all + [m], end + [m]) && EndsWith(all + [m], [])
  {
    assert (all + [m])[|all| - |end|..] == all[|all| - |end|..] + [m];
  }

  /** What each step does to the history and to the message being sent. */
  lemma StepPast(s: Plane, step: Step)
    requires Exclusive(s) && Enabled(s, step)
    ensures var s', pc := Apply(s, step), s.At(step.t);
            match step
            case LockSend(_, _) =>
              s.Current() == None
              && (if s.open then s'.past == s.past.Accept(pc.midi) && s'.Current() == Some(pc.midi)
                  else s'.past == s.past && s'.Current() == None)
            case FailWrite(_) =>
              s.Current() == Some(pc.midi) && s'.past == s.past.Refuse(pc.midi, pc.written) && s'.Current() == None
            case FinishSend(_) =>
              s.Current() == Some(pc.midi) && s'.past == s.past.Complete(pc.midi, |s.log|) && s'.Current() == None
            case _ => s'.past == s.past && s'.Current() == s.Current()
  {
  }

  lemma StepConsistent(s: Plane, step: Step, next: Plane)
    requires Exclusive(s) && Enabled(s, step) && Consistent(s.past, s.Current()) && next == Apply(s, step)
    ensures Consistent(next.past, next.Current())
  {
    StepPast(s, step);
    var pc := s.At(step.t);
    match step
    case LockSend(_, _) => AcceptConsistent(s.past, pc.midi);
    case FailWrite(_) => RefuseConsistent(s.past, pc.midi, pc.written);
    case FinishSend(_) => CompleteConsistent(s.past, pc.midi, |s.log|);
    case _ =>
  }

  /** A packet written moves from what is still to be written to the end of the log; what came before stays. */
  lemma WriteMoves(s: Plane, t: Tid, next: Plane)
    requires Exclusive(s) && Enabled(s, WritePacket(t)) && InProgress(s, s.At(t)) && next == Apply(s, WritePacket(t))
    ensures next.Holder() == next.At(t) && next.At(t).Sending? && InProgress(next, next.At(t))
    ensures next.Base() == s.Base() && next.past == s.past
  {
    var pc := s.At(t);
    LogGrows(s.log, pc.written, Framed(pc.midi, pc.ts, Usable(s.mtu)));
  }

  lemma WriteInv(s: Plane, t: Tid, next: Plane)
    requires Inv(s) && Enabled(s, WritePacket(t)) && next == Apply(s, WritePacket(t))
    ensures Inv(next)
  {
    StepExclusive(s, WritePacket(t));
    WriteMoves(s, t, next);
  }

  lemma FinishInv(s: Plane, t: Tid)
    requires Inv(s) && Enabled(s, FinishSend(t))
    ensures Inv(Apply(s, FinishSend(t)))
  {
    StepExclusive(s, FinishSend(t));
    var pc := s.At(t);
    LogSplit(s.log, pc.written, Framed(pc.midi, pc.ts, Usable(s.mtu)));
    if !s.past.torn {
      SettledNext(s.Base(), s.past.mark, s.past.since, pc.midi, pc.ts, Usable(s.mtu));
    } else if IsSysEx(pc.midi) {
      SettledAgain(s.Base(), pc.midi, pc.ts, Usable(s.mtu));
    }
  }

  lemma LockInv(s: Plane, t: Tid, ts: uint16)
    requires Inv(s) && Enabled(s, LockSend(t, ts))
    ensures Inv(Apply(s, LockSend(t, ts)))
  {
    StepExclusive(s, LockSend(t, ts));
    assert s.log[..|s.log| - 0] == s.log && s.log[|s.log|..] == [];
  }

  lemma FailInv(s: Plane, t: Tid)
    requires Inv(s) && Enabled(s, FailWrite(t))
    ensures Inv(Apply(s, FailWrite(t)))
  {
    StepExclusive(s, FailWrite(t));
    assert s.At(t).written == 0 ==> s.log[..|s.log| - 0] == s.log;
  }

  lemma CloseInv(s: Plane, step: Step)
    requires Inv(s) && Enabled(s, step) && (step.LockClose? || step.Shut?)
    ensures Inv(Apply(s, step))
  {
    StepExclusive(s, step);
  }

  lemma CallInv(s: Plane, step: Step)
    requires Inv(s) && Enabled(s, step) && (step.CallSend? || step.CallClose?)
    ensures Inv(Apply(s, step))
  {
    StepExclusive(s, step);
    assert s.owner != Some(step.t);
  }

  lemma StepInv(s: Plane, step: Step)
    requires Inv(s) && Enabled(s, step)
    ensures Inv(Apply(s, step))
  {
    match step
    case WritePacket(t) => WriteInv(s, t, Apply(s, step));
    case FinishSend(t) => FinishInv(s, t);
    case LockSend(t, ts) => LockInv(s, t, ts);
    case FailWrite(t) => FailInv(s, t);
    case LockClose(_) => CloseInv(s, step);
    case Shut(_) => CloseInv(s, step);
    case CallSend(_, _) => CallInv(s, step);
    case CallClose(_) => CallInv(s, step);
  }

  lemma LogSplit(log: seq<Packet>, written: nat, packets: seq<Packet>)
    requires written <= |packets| && written <= |log| && log[|log| - written..] == packets[..written]
    requires packets[written..] == []
    ensures log == log[..|log| - written] + packets
  {
    assert packets[..written] == packets;
  }

  lemma LogGrows(log: seq<Packet>, written: nat, packets: seq<Packet>)
    requires written < |packets| && written <= |log| && log[|log| - written..] == packets[..written]
    ensures var log' := log + [packets[written]];
            && log'[|log'| - (written + 1)..] == packets[..written + 1]
            && log'[..|log'| - (written + 1)] == log[..|log| - written]
    ensures packets[written..][1..] == packets[written + 1..]
  {
  }

  // ---------------------------------------------------------------- safety over all runs

  lemma {:induction false} RunInv(s: Plane, steps: seq<Step>, end: Plane)
    requires Inv(s) && Run(s, steps, end)
    ensures Inv(end)
    ensures Consistent(s.past, s.Current()) ==> Consistent(end.past, end.Current())
    decreases |steps|
  {
    if steps != [] {
      var next := Apply(s, steps[0]);
      StepInv(s, steps[0]);
      if Consistent(s.past, s.Current()) {
        StepConsistent(s, steps[0], next);
      }
      RunInv(next, steps[1..], end);
    }
  }

  lemma Reachable(mtu: uint16, steps: seq<Step>, s: Plane)
    requires Run(Start(mtu), steps, s)
    ensures Inv(s) && Consistent(s.past, s.Current())
  {
    assert Settled([], 0, []);
    RunInv(Start(mtu), steps, s);
  }

  /**
   At most one thread is ever in a critical section, and a sender's fd is open. Unless a send was cut off part-way and
   no SysEx has been completed since, a Close in progress finds the receiver between messages.
   */
  lemma MutualExclusion(mtu: uint16, steps: seq<Step>, s: Plane, t: Tid, u: Tid)
    requires Run(Start(mtu), steps, s) && s.At(t).Critical() && s.At(u).Critical()
    ensures t == u
    ensures s.At(t).Sending? ==> s.open
    ensures s.At(t).Closing? && !s.past.torn ==> Settled(s.log, s.past.mark, s.past.since)
  {
    Reachable(mtu, steps, s);
  }

  /**
   The receiver's view in every reachable state that is not torn. Counting from `mark`: whenever no packet of a send in
   progress has been written, the decoder has emitted exactly the messages delivered. Midway it has emitted nothing of
   the current message, and its open SysEx is the prefix of that message that the written packets carry. Once the last
   packet is out it has emitted that message too. If no send was ever cut off, that is all it has emitted; otherwise the
   count starts after the first SysEx completed after the last cut.
   */
  lemma ReceiverView(mtu: uint16, steps: seq<Step>, s: Plane)
    requires Run(Start(mtu), steps, s) && !s.past.torn
    ensures match s.Holder()
            case Sending(m, ts, written, todo) =>
              if written == 0 then Settled(s.log, s.past.mark, s.past.since)
              else if todo == [] then Settled(s.log, s.past.mark, s.past.since + [m])
              else Midway(s.log, s.past.mark, s.past.since, SoFar(m, Usable(mtu), written))
            case _ => Settled(s.log, s.past.mark, s.past.since)
    ensures EndsWith(Delivered(s.past.outcomes), s.past.since)
    ensures !s.past.cut ==> s.past.mark == 0 && s.past.since == Delivered(s.past.outcomes)
  {
    Reachable(mtu, steps, s);
    RunKeepsMtu(Start(mtu), steps, s);
    var pc := s.Holder();
    if pc.Sending? && pc.written > 0 {
      BaseAndWritten(s);
      PartlyWritten(s.Base(), s.log, s.past.mark, s.past.since, pc.midi, pc.ts, Usable(s.mtu), pc.written);
    } else if pc.Sending? {
      assert s.log[..|s.log| - 0] == s.log;
    }
  }

  /** Since `mark` the decoder has emitted exactly these messages, and it holds this much of the next one. */
  predicate Midway(log: seq<Packet>, mark: nat, since: seq<Message>, sysex: seq<byte>) {
    var f := FeedAll(FRESH, log);
    mark <= |log| && f.out == FeedAll(FRESH, log[..mark]).out + since && f.carry.inSysex && f.carry.sysex == sysex
  }

  lemma BaseAndWritten(s: Plane)
    requires s.Holder().Sending? && InProgress(s, s.Holder())
    ensures var pc := s.Holder();
            var packets := Framed(pc.midi, pc.ts, Usable(s.mtu));
            && s.log == s.Base() + packets[..pc.written]
            && (pc.todo == [] <==> pc.written == |packets|)
  {
  }

  lemma PartlyWritten(base: seq<Packet>, log: seq<Packet>, mark: nat, since: seq<Message>,
                      m: Message, ts: uint16, mtu: int, k: nat)
    requires Settled(base, mark, since) && WellFormed(m) && 0 < k <= |Framed(m, ts, mtu)|
    requires log == base + Framed(m, ts, mtu)[..k]
    ensures if k == |Framed(m, ts, mtu)| then Settled(log, mark, since + [m])
            else Midway(log, mark, since, SoFar(m, mtu, k))
  {
    var packets := Framed(m, ts, mtu);
    if k == |packets| {
      assert packets[..k] == packets;
      SettledNext(base, mark, since, m, ts, mtu);
    } else {
      FeedAllConcat(FRESH, base, packets[..k]);
      FramedPrefix(FeedAll(FRESH, base).carry, m, ts, mtu, k);
      assert (base + packets[..k])[..mark] == base[..mark];
      assert FeedAll(FRESH, base).out + [] == FeedAll(FRESH, base).out;
    }
  }

  lemma {:induction false} RunKeepsMtu(s: Plane, steps: seq<Step>, end: Plane)
    requires Run(s, steps, end)
    ensures end.mtu == s.mtu
    decreases |steps|
  {
    if steps != [] {
      RunKeepsMtu(Apply(s, steps[0]), steps[1..], end);
    }
  }

  /**
   Between sends, and if none was ever cut off part-way: the events received are those of the messages accepted, in
   lock order, less the ones whose first write was refused.
   */
  lemma DeliveredInLockOrder(mtu: uint16, steps: seq<Step>, s: Plane)
    requires Run(Start(mtu), steps, s) && !s.past.cut && s.owner.None?
    ensures s.past.accepted == Attempted(s.past.outcomes)
    ensures EventsOf(FeedAll(FRESH, s.log).out) == EventsOf(Delivered(s.past.outcomes))
    ensures AllCarry(EventsOf(FeedAll(FRESH, s.log).out), Delivered(s.past.outcomes))
    ensures (forall o <- s.past.outcomes :: o.ok) ==> AllCarry(EventsOf(FeedAll(FRESH, s.log).out), s.past.accepted)
  {
    EventsCarry(Delivered(s.past.outcomes));
    Reachable(mtu, steps, s);
    assert Attempted(s.past.outcomes) + [] == Attempted(s.past.outcomes);
    assert s.log[..0] == [] && [] + s.past.since == s.past.since;
    if forall o <- s.past.outcomes :: o.ok {
      AllDelivered(s.past.outcomes);
    }
  }

  lemma {:induction false} AllDelivered(outcomes: seq<Outcome>)
    requires forall o <- outcomes :: o.ok
    ensures Delivered(outcomes) == Attempted(outcomes)
  {
    if outcomes != [] {
      AllDelivered(outcomes[..|outcomes| - 1]);
    }
  }

  /** While the plane is closed nothing is written, and no send is accepted. */
  lemma {:induction false} ClosedStaysQuiet(s: Plane, steps: seq<Step>, end: Plane)
    requires Inv(s) && !s.open && Run(s, steps, end)
    ensures !end.open && end.log == s.log && end.past == s.past
    decreases |steps|
  {
    if steps != [] {
      StepInv(s, steps[0]);
      ClosedStaysQuiet(Apply(s, steps[0]), steps[1..], end);
    }
  }

  /** A close is final: once the descriptor is closed, whatever the threads do, nothing more is written. */
  lemma CloseIsFinal(mtu: uint16, before: seq<Step>, s: Plane, t: Tid, after: seq<Step>, end: Plane)
    requires Run(Start(mtu), before, s) && Enabled(s, Shut(t)) && Run(Apply(s, Shut(t)), after, end)
    ensures !end.open && end.log == s.log && end.past == s.past
  {
    Reachable(mtu, before, s);
    StepInv(s, Shut(t));
    ClosedStaysQuiet(Apply(s, Shut(t)), after, end);
  }

  /** A failed write leaves the receiver between messages exactly when it was the first write of its message. */
  lemma TornExactly(s: Plane, t: Tid)
    requires Inv(s) && !s.past.torn && Enabled(s, FailWrite(t))
    ensures Apply(s, FailWrite(t)).past.torn <==> FeedAll(FRESH, s.log).carry.inSysex
  {
    var pc := s.At(t);
    BaseAndWritten(s);
    AbortAfter(s.Base(), s.log, s.past.mark, s.past.since, pc.midi, pc.ts, Usable(s.mtu), pc.written);
  }

  /** The next SysEx that goes out whole puts a torn state right; nothing else does. */
  lemma SysExMends(s: Plane, step: Step)
    requires Exclusive(s) && Enabled(s, step) && s.past.torn
    ensures !Apply(s, step).past.torn <==> step.FinishSend? && IsSysEx(s.At(step.t).midi)
  {
    StepPast(s, step);
  }

  lemma AbortAfter(base: seq<Packet>, log: seq<Packet>, mark: nat, since: seq<Message>,
                   m: Message, ts: uint16, mtu: int, k: nat)
    requires Settled(base, mark, since) && WellFormed(m) && k <= |Framed(m, ts, mtu)|
    requires log == base + Framed(m, ts, mtu)[..k]
    ensures FeedAll(FRESH, log).carry.inSysex <==> 0 < k < |Framed(m, ts, mtu)|
  {
    FeedAllConcat(FRESH, base, Framed(m, ts, mtu)[..k]);
    AbortExact(FeedAll(FRESH, base).carry, m, ts, mtu, k);
  }

  // ---------------------------------------------------------------- one whole critical section

  lemma {:induction false} RunAppend(s: Plane, first: seq<Step>, mid: Plane, rest: seq<Step>, end: Plane)
    requires Run(s, first, mid) && Run(mid, rest, end)
    ensures Run(s, first + rest, end)
    decreases |first|
  {
    if first == [] {
      assert first + rest == rest;
    } else {
      assert (first + rest)[1..] == first[1..] + rest;
      RunAppend(Apply(s, first[0]), first[1..], mid, rest, end);
    }
  }

  lemma RunOne(s: Plane, step: Step)
    requires Enabled(s, step)
    ensures Run(s, [step], Apply(s, step))
  {
    assert [step][1..] == [];
  }

  function Writes(t: Tid, k: nat): seq<Step> {
    if k == 0 then [] else Writes(t, k - 1) + [WritePacket(t)]
  }

  /** Midway through a send: the thread's pc and the log, with nothing else changed since it took the lock. */
  function After(s: Plane, t: Tid, ts: uint16, k: nat): Plane
    requires Enabled(s, LockSend(t, ts)) && s.open && k <= |Framed(s.At(t).midi, ts, Usable(s.mtu))|
  {
    var m := s.At(t).midi;
    var packets := Framed(m, ts, Usable(s.mtu));
    s.(pcs := s.pcs[t := Sending(m, ts, k, packets[k..])], owner := Some(t), past := s.past.Accept(m),
       log := s.log + packets[..k])
  }

  lemma LockOnly(s: Plane, t: Tid, ts: uint16)
    requires Enabled(s, LockSend(t, ts)) && s.open
    ensures Run(s, [LockSend(t, ts)], After(s, t, ts, 0))
  {
    var packets := Framed(s.At(t).midi, ts, Usable(s.mtu));
    assert packets[..0] == [] && packets[0..] == packets && s.log + [] == s.log;
    RunOne(s, LockSend(t, ts));
  }

  lemma {:induction false} LockAndWrite(s: Plane, t: Tid, ts: uint16, k: nat)
    requires Enabled(s, LockSend(t, ts)) && s.open && k <= |Framed(s.At(t).midi, ts, Usable(s.mtu))|
    ensures Run(s, [LockSend(t, ts)] + Writes(t, k), After(s, t, ts, k))
    decreases k
  {
    if k == 0 {
      LockOnly(s, t, ts);
      assert [LockSend(t, ts)] + Writes(t, 0) == [LockSend(t, ts)];
    } else {
      LockAndWrite(s, t, ts, k - 1);
      OneWrite(s, t, ts, k - 1);
      RunOne(After(s, t, ts, k - 1), WritePacket(t));
      RunAppend(s, [LockSend(t, ts)] + Writes(t, k - 1), After(s, t, ts, k - 1), [WritePacket(t)], After(s, t, ts, k));
      Assoc([LockSend(t, ts)], Writes(t, k - 1), [WritePacket(t)]);
    }
  }

  lemma OneWrite(s: Plane, t: Tid, ts: uint16, k: nat)
    requires Enabled(s, LockSend(t, ts)) && s.open && k < |Framed(s.At(t).midi, ts, Usable(s.mtu))|
    ensures Enabled(After(s, t, ts, k), WritePacket(t))
    ensures Apply(After(s, t, ts, k), WritePacket(t)) == After(s, t, ts, k + 1)
  {
    var packets := Framed(s.At(t).midi, ts, Usable(s.mtu));
    OneMore(s.log, packets, k);
    var u := After(s, t, ts, k);
    var pc := Sending(s.At(t).midi, ts, k + 1, packets[k + 1..]);
    assert u.pcs[t := pc] == s.pcs[t := pc];
  }

  lemma OneMore(log: seq<Packet>, packets: seq<Packet>, k: nat)
    requires k < |packets|
    ensures packets[k..][1..] == packets[k + 1..] && packets[k..][0] == packets[k]
    ensures log + packets[..k] + [packets[k]] == log + packets[..k + 1]
  {
  }

  /**
   The whole of `GattPlane.GattDataPlane.Send` as a run of the machine: for every number of packets written before the
   end or a refusal, the sender can go from taking the free lock to releasing it with no other thread's help. Lock,
   message and log end as the method is proved to leave them, and the other threads are where they were.
   */
  lemma SendSection(s: Plane, t: Tid, ts: uint16, written: nat) returns (end: Plane)
    requires Enabled(s, LockSend(t, ts)) && s.open && written <= |Framed(s.At(t).midi, ts, Usable(s.mtu))|
    ensures var m, packets := s.At(t).midi, Framed(s.At(t).midi, ts, Usable(s.mtu));
            var last := if written == |packets| then FinishSend(t) else FailWrite(t);
            && Run(s, [LockSend(t, ts)] + Writes(t, written) + [last], end)
            && end.log == s.log + packets[..written]
            && end.past.outcomes == s.past.outcomes + [Outcome(m, written == |packets|)]
            && end.past.accepted == s.past.accepted + [m]
            && end.owner == None && end.At(t) == Idle && end.open && end.mtu == s.mtu
            && forall u: Tid :: u != t ==> end.At(u) == s.At(u)
  {
    var packets := Framed(s.At(t).midi, ts, Usable(s.mtu));
    var last := if written == |packets| then FinishSend(t) else FailWrite(t);
    var mid := After(s, t, ts, written);
    LockAndWrite(s, t, ts, written);
    RunOne(mid, last);
    end := Apply(mid, last);
    RunAppend(s, [LockSend(t, ts)] + Writes(t, written), mid, [last], end);
  }

  lemma RunFirst(s: Plane, step: Step, steps: seq<Step>, end: Plane)
    requires Enabled(s, step) && Run(Apply(s, step), steps, end)
    ensures Run(s, [step] + steps, end)
  {
    assert ([step] + steps)[1..] == steps;
  }

  /** Any thread that is not in a call can send any well-formed message whenever the plane is open and the lock free. */
  lemma SendRuns(s: Plane, t: Tid, m: Message, ts: uint16) returns (steps: seq<Step>, end: Plane)
    requires s.At(t).Idle? && s.owner.None? && s.open && WellFormed(m)
    ensures Run(s, steps, end)
    ensures end.log == s.log + Framed(m, ts, Usable(s.mtu))
    ensures Delivered(end.past.outcomes) == Delivered(s.past.outcomes) + [m]
    ensures end.owner == None && end.At(t) == Idle && forall u: Tid :: u != t ==> end.At(u) == s.At(u)
  {
    var called := Apply(s, CallSend(t, m));
    var packets := Framed(m, ts, Usable(s.mtu));
    end := SendSection(called, t, ts, |packets|);
    steps := [LockSend(t, ts)] + Writes(t, |packets|) + [FinishSend(t)];
    RunFirst(s, CallSend(t, m), steps, end);
    steps := [CallSend(t, m)] + steps;
    assert packets[..|packets|] == packets;
    OutcomesNext(s.past.outcomes, Outcome(m, true));
  }

  /** And close it, after which a send is refused without a packet being written. */
  lemma CloseRuns(s: Plane, t: Tid) returns (end: Plane)
    requires s.At(t).Idle? && s.owner.None?
    ensures Run(s, [CallClose(t), LockClose(t), Shut(t)], end)
    ensures !end.open && end.log == s.log && end.past == s.past
    ensures end.owner == None && end.At(t) == Idle && forall u: Tid :: u != t ==> end.At(u) == s.At(u)
    ensures forall u: Tid, ts: uint16 :: Enabled(end, LockSend(u, ts)) ==>
              var refused := Apply(end, LockSend(u, ts));
              refused.At(u) == Idle && refused.log == s.log && refused.owner == None
  {
    var s1 := Apply(s, CallClose(t));
    var s2 := Apply(s1, LockClose(t));
    end := Apply(s2, Shut(t));
    RunOne(s2, Shut(t));
    RunFirst(s1, LockClose(t), [Shut(t)], end);
    RunFirst(s, CallClose(t), [LockClose(t), Shut(t)], end);
    assert [LockClose(t)] + [Shut(t)] == [LockClose(t), Shut(t)];
    assert [CallClose(t)] + [LockClose(t), Shut(t)] == [CallClose(t), LockClose(t), Shut(t)];
  }
}
