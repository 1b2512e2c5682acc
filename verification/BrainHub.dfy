/** The hub that holds at most one brain connection, and its protocol over any interleaving of handlers and senders. */
module BrainHub {
  import opened Bytes
  import opened Sinks

  type Frame = seq<byte>

  /** A WebSocket connection, as far as the hub writes to it. */
  type Conn = Sink<Frame>

  datatype SendResult = Sent | NoBrain | NotMarshalled | WriteFailed

  datatype Status = Status(connected: bool, remote: string, sent: nat)

  /** The fields of the hub; C names connections. */
  datatype HubState<C> = HubState(conn: Option<C>, remote: string, sent: nat)

  /** One critical section under the hub's mutex. A write may fail. */
  datatype Step<C> = Connect(id: C, from: string) | Disconnect(id: C) | Send(frame: Frame, ok: bool)

  /** What each critical section does to the fields. */
  function OnHub<C(==)>(h: HubState<C>, step: Step<C>): HubState<C> {
    match step
    case Connect(id, from) => h.(conn := Some(id), remote := from)
    case Disconnect(id) => if h.conn == Some(id) then h.(conn := None, remote := "") else h
    case Send(_, ok) => if h.conn.Some? && ok then h.(sent := h.sent + 1) else h
  }

  class Hub {
    var conn: Sink?<Frame>
    var remote: string
    var sent: nat

    ghost function State(): HubState<Conn>
      reads this
    {
      var c: Option<Conn> := if conn == null then None else Some(conn);
      HubState(c, remote, sent)
    }

    constructor ()
      ensures State() == HubState(None, "", 0)
    {
      conn, remote, sent := null, "", 0;
    }

    method Connect(from: string, c: Conn)
      modifies this`conn, this`remote
      ensures State() == OnHub(old(State()), Step.Connect(c, from))
    {
      conn := c;
      remote := from;
    }

    method Disconnect(c: Conn)
      modifies this`conn, this`remote
      ensures State() == OnHub(old(State()), Step.Disconnect(c))
    {
      if conn == c {
        conn := null;
        remote := "";
      }
    }

    method Connected() returns (b: bool)
      ensures b == State().conn.Some?
    {
      b := conn != null;
    }

    /** `data` is None when the frame could not be marshalled. */
    method SendJSON(data: Option<Frame>) returns (r: SendResult)
      modifies this`sent, conn
      ensures r == NotMarshalled <==> data.None?
      ensures r == NoBrain <==> data.Some? && conn == null
      ensures State() == if data.None? then old(State()) else OnHub(old(State()), Step.Send(data.value, r == Sent))
      ensures conn != null ==> conn.closes == old(conn.closes)
      ensures conn != null ==> conn.attempts == old(conn.attempts) + if data.Some? then 1 else 0
      ensures conn != null ==> conn.written == if r == Sent then old(conn.written) + [data.value] else old(conn.written)
      ensures conn != null && data.Some? ==> (r == Sent <==> conn.closes == 0 && conn.accepts(old(conn.attempts)))
    {
      if data.None? {
        return NotMarshalled;
      }
      if conn == null {
        return NoBrain;
      }
      var ok := conn.Write(data.value);
      if !ok {
        return WriteFailed;
      }
      sent := sent + 1;
      return Sent;
    }

    method GetStatus() returns (s: Status)
      ensures s == Status(State().conn.Some?, State().remote, State().sent)
    {
      s := Status(conn != null, remote, sent);
    }
  }

  // ---------------------------------------------------------------- the protocol

  type ConnId = nat

  /** What happened, in the order of the hub's mutex. */
  datatype Event =
    | Connects(id: ConnId, from: string)
    | Disconnects(id: ConnId)
    | Writes(id: ConnId, frame: Frame)

  datatype World = World(hub: HubState<ConnId>, events: seq<Event>)

  const EMPTY := World(HubState(None, "", 0), [])

  /** A critical section, and what an observer sees of it. */
  function Apply(w: World, step: Step<ConnId>): World {
    World(OnHub(w.hub, step),
          match step
          case Connect(id, from) => w.events + [Connects(id, from)]
          case Disconnect(id) => w.events + [Disconnects(id)]
          case Send(frame, ok) =>
            if w.hub.conn.Some? && ok then w.events + [Writes(w.hub.conn.value, frame)] else w.events)
  }

  function Run(w: World, steps: seq<Step<ConnId>>): World
    decreases |steps|
  {
    if steps == [] then w else Run(Apply(w, steps[0]), steps[1..])
  }

  /** Event j is the latest connection, it is id's, and id has not disconnected since. */
  predicate LatestAt(events: seq<Event>, j: nat, id: ConnId) {
    && j < |events| && events[j].Connects? && events[j].id == id
    && forall k :: j < k < |events| ==> !events[k].Connects? && events[k] != Disconnects(id)
  }

  ghost predicate IsTarget(events: seq<Event>, id: ConnId) {
    exists j :: LatestAt(events, j, id)
  }

  function CountWrites(events: seq<Event>): nat {
    if events == [] then 0
    else CountWrites(events[..|events| - 1]) + (if events[|events| - 1].Writes? then 1 else 0)
  }

  ghost predicate Inv(w: World) {
    && (forall id: ConnId :: w.hub.conn == Some(id) <==> IsTarget(w.events, id))
    && (forall j: nat, id: ConnId :: LatestAt(w.events, j, id) ==> w.hub.remote == w.events[j].from)
    && (w.hub.conn.None? ==> w.hub.remote == "")
    && w.hub.sent == CountWrites(w.events)
    && (forall i :: 0 <= i < |w.events| && w.events[i].Writes? ==> IsTarget(w.events[..i], w.events[i].id))
  }

  /** How one more event changes which connection is the latest. */
  lemma LatestNext(events: seq<Event>, e: Event, j: nat, id: ConnId)
    ensures LatestAt(events + [e], j, id) <==>
            if e.Connects? then j == |events| && e.id == id
            else LatestAt(events, j, id) && e != Disconnects(id)
  {
    var all := events + [e];
    assert all[|events|] == e;
    if j < |events| {
      assert all[j] == events[j];
    }
    if LatestAt(all, j, id) && j < |events| {
      assert forall k :: j < k < |events| ==> events[k] == all[k];
    }
  }

  lemma TargetNext(events: seq<Event>, e: Event, id: ConnId)
    ensures IsTarget(events + [e], id) <==>
            if e.Connects? then e.id == id else IsTarget(events, id) && e != Disconnects(id)
  {
    forall j: nat ensures LatestAt(events + [e], j, id) <==>
                          if e.Connects? then j == |events| && e.id == id
                          else LatestAt(events, j, id) && e != Disconnects(id)
    {
      LatestNext(events, e, j, id);
    }
    if e.Connects? && e.id == id {
      assert LatestAt(events + [e], |events|, id);
    } else if IsTarget(events, id) {
      var j: nat :| LatestAt(events, j, id);
      assert !e.Connects? && e != Disconnects(id) ==> LatestAt(events + [e], j, id);
    }
  }

  lemma NotTargetAfter(events: seq<Event>, i: nat, id: ConnId)
    requires i < |events| && events[i] == Disconnects(id)
    requires forall j :: i < j < |events| && events[j].Connects? ==> events[j].id != id
    ensures !IsTarget(events, id)
  {
  }

  lemma RemoteNext(w: World, w': World, e: Event)
    requires Inv(w) && w'.events == w.events + [e]
    requires w'.hub.remote == if e.Connects? then e.from else if w.hub.conn == w'.hub.conn then w.hub.remote else ""
    requires !e.Connects? && w.hub.conn != w'.hub.conn ==> e.Disconnects? && w.hub.conn == Some(e.id)
    ensures forall j: nat, id: ConnId :: LatestAt(w'.events, j, id) ==> w'.hub.remote == w'.events[j].from
  {
    forall j: nat, id: ConnId | LatestAt(w'.events, j, id) ensures w'.hub.remote == w'.events[j].from {
      LatestNext(w.events, e, j, id);
      if !e.Connects? {
        assert IsTarget(w.events, id) && w'.events[j] == w.events[j];
      }
    }
  }

  lemma WritesNext(events: seq<Event>, e: Event)
    requires forall i :: 0 <= i < |events| && events[i].Writes? ==> IsTarget(events[..i], events[i].id)
    requires e.Writes? ==> IsTarget(events, e.id)
    ensures var all := events + [e];
            forall i :: 0 <= i < |all| && all[i].Writes? ==> IsTarget(all[..i], all[i].id)
  {
    var all := events + [e];
    forall i | 0 <= i < |all| && all[i].Writes? ensures IsTarget(all[..i], all[i].id) {
      assert all[..i] == events[..i];
      assert i == |events| ==> events[..i] == events;
    }
  }

  lemma StepInv(w: World, step: Step<ConnId>)
    requires Inv(w)
    ensures Inv(Apply(w, step))
  {
    var w' := Apply(w, step);
    if w' != w {
      var e := w'.events[|w.events|];
      assert w'.events[..|w.events|] == w.events;
      forall id: ConnId ensures w'.hub.conn == Some(id) <==> IsTarget(w'.events, id) {
        TargetNext(w.events, e, id);
      }
      RemoteNext(w, w', e);
      WritesNext(w.events, e);
    }
  }

  lemma {:induction false} RunInv(w: World, steps: seq<Step<ConnId>>)
    requires Inv(w)
    ensures Inv(Run(w, steps))
    decreases |steps|
  {
    if steps != [] {
      StepInv(w, steps[0]);
      RunInv(Apply(w, steps[0]), steps[1..]);
    }
  }

  /**
   In every interleaving the hub's target is the brain that connected last, as long as that brain's handler has not
   disconnected it, and none otherwise; its remote address goes with it; every frame went to the target of its moment;
   and the counter counts the frames written.
   */
  lemma HubProtocol(steps: seq<Step<ConnId>>)
    ensures var w := Run(EMPTY, steps);
            && (forall id: ConnId :: w.hub.conn == Some(id) <==> IsTarget(w.events, id))
            && (forall j: nat, id: ConnId :: LatestAt(w.events, j, id) ==> w.hub.remote == w.events[j].from)
            && (w.hub.conn.None? ==> w.hub.remote == "")
            && w.hub.sent == CountWrites(w.events)
            && (forall i :: 0 <= i < |w.events| && w.events[i].Writes? ==> IsTarget(w.events[..i], w.events[i].id))
  {
    RunInv(EMPTY, steps);
  }

  /** A late Disconnect of a connection that has been replaced changes nothing in the hub. */
  lemma StaleDisconnect(steps: seq<Step<ConnId>>, old': ConnId, new': ConnId)
    requires old' != new' && IsTarget(Run(EMPTY, steps).events, new')
    ensures Apply(Run(EMPTY, steps), Step.Disconnect(old')).hub == Run(EMPTY, steps).hub
    ensures Run(EMPTY, steps).hub.conn == Some(new')
  {
    HubProtocol(steps);
  }

  /** After its Disconnect a connection receives no more frames, unless it connects again. */
  lemma NoFrameAfterDisconnect(steps: seq<Step<ConnId>>, i: nat, k: nat)
    requires var events := Run(EMPTY, steps).events;
             && i < k < |events| && events[i].Disconnects?
             && (forall j :: i < j < k && events[j].Connects? ==> events[j].id != events[i].id)
    ensures var events := Run(EMPTY, steps).events; !(events[k].Writes? && events[k].id == events[i].id)
  {
    HubProtocol(steps);
    var events := Run(EMPTY, steps).events;
    NotTargetAfter(events[..k], i, events[i].id);
  }
}
