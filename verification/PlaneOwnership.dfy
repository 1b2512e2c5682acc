/**
 Who owns each data plane while any number of threads connect, disconnect and close, one critical section at a time:
 no plane is ever lost, shared, or closed twice.
 */
module PlaneOwnership {
  import opened Bytes
  import opened PlaneTable

  type Tid = nat

  /** The transport's table, and the planes in the hands of threads. */
  datatype World = World(issued: set<PlaneId>, connecting: map<Tid, PlaneId>, table: Table,
                         disconnecting: map<Tid, PlaneId>)

  const EMPTY := World({}, map[], Table(map[], []), map[])

  datatype Step =
    | OpenPlane(t: Tid, p: PlaneId)              // Connect, before the lock: a new plane
    | SetPlane(t: Tid, endpointID: string)       // Connect, under the lock
    | TakePlane(t: Tid, endpointID: string)      // Disconnect, under the lock
    | ClosePlane(t: Tid)                         // Disconnect, after the lock
    | Close(order: seq<string>)                  // Close, under the lock

  predicate Enabled(w: World, step: Step) {
    match step
    case OpenPlane(t, p) => t !in w.connecting && p !in w.issued
    case SetPlane(t, _) => t in w.connecting
    case TakePlane(t, endpointID) => t !in w.disconnecting && Upper(endpointID) in w.table.installed
    case ClosePlane(t) => t in w.disconnecting
    case Close(order) => Enumerates(order, w.table.installed.Keys)
  }

  /** Every change of the table is a step that a method of `PlaneTable.Transport` is proved to make. */
  function Apply(w: World, step: Step): World
    requires Enabled(w, step)
  {
    match step
    case OpenPlane(t, p) => w.(issued := w.issued + {p}, connecting := w.connecting[t := p])
    case SetPlane(t, id) =>
      w.(connecting := w.connecting - {t}, table := OnTable(w.table, Install(id, w.connecting[t])))
    case TakePlane(t, id) =>
      w.(table := OnTable(w.table, Take(id)), disconnecting := w.disconnecting[t := w.table.installed[Upper(id)]])
    case ClosePlane(t) =>
      w.(disconnecting := w.disconnecting - {t}, table := OnTable(w.table, CloseTaken(w.disconnecting[t])))
    case Close(order) => w.(table := OnTable(w.table, CloseAll(order)))
  }

  ghost predicate Run(w: World, steps: seq<Step>, end: World)
    decreases |steps|
  {
    if steps == [] then w == end
    else Enabled(w, steps[0]) && Run(Apply(w, steps[0]), steps[1..], end)
  }

  // ---------------------------------------------------------------- the invariant

  datatype Place = WithConnect(t: Tid) | Installed(address: string) | WithDisconnect(t: Tid) | Closed(index: nat)

  predicate In(w: World, p: PlaneId, place: Place) {
    match place
    case WithConnect(t) => t in w.connecting && w.connecting[t] == p
    case Installed(a) => a in w.table.installed && w.table.installed[a] == p
    case WithDisconnect(t) => t in w.disconnecting && w.disconnecting[t] == p
    case Closed(i) => i < |w.table.closed| && w.table.closed[i] == p
  }

  /** Every opened plane is somewhere. */
  ghost predicate Somewhere(w: World) {
    forall p <- w.issued :: exists place :: In(w, p, place)
  }

  /** No plane is in two places, or twice in the close log; and only opened planes are anywhere. */
  ghost predicate AtMostOnce(w: World) {
    && (forall p, place, place' :: In(w, p, place) && In(w, p, place') ==> place == place')
    && (forall p, place :: In(w, p, place) ==> p in w.issued)
  }

  ghost predicate Inv(w: World) {
    && Somewhere(w) && AtMostOnce(w)
    && (forall a <- w.table.installed :: exists id :: a == Upper(id))
  }

  /** Where a step takes the plane that was at `place`. */
  ghost function Moved(w: World, step: Step, place: Place): Place
    requires Enabled(w, step)
  {
    match step
    case OpenPlane(_, _) => place
    case SetPlane(t, id) =>
      if place == WithConnect(t) then Installed(Upper(id))
      else if place == Installed(Upper(id)) then Closed(|w.table.closed|)
      else place
    case TakePlane(t, id) => if place == Installed(Upper(id)) then WithDisconnect(t) else place
    case ClosePlane(t) => if place == WithDisconnect(t) then Closed(|w.table.closed|) else place
    case Close(order) =>
      if place.Installed? && place.address in order then
        var k :| 0 <= k < |order| && order[k] == place.address;
        Closed(|w.table.closed| + k)
      else place
  }

  /** Planes follow `Moved`: what was at a place is where that place moved to. */
  lemma MovesThere(w: World, step: Step, p: PlaneId, place: Place)
    requires Enabled(w, step) && In(w, p, place)
    ensures In(Apply(w, step), p, Moved(w, step, place))
  {
  }

  /** And nothing else is anywhere, except a plane just opened. */
  lemma CameFrom(w: World, step: Step, p: PlaneId, place': Place) returns (place: Place)
    requires Enabled(w, step) && In(Apply(w, step), p, place')
    requires !(step.OpenPlane? && place' == WithConnect(step.t))
    ensures In(w, p, place) && Moved(w, step, place) == place'
  {
    place := place';
    match step
    case OpenPlane(_, _) =>
    case SetPlane(t, id) =>
      if place' == Installed(Upper(id)) {
        place := WithConnect(t);
      } else if place'.Closed? && place'.index >= |w.table.closed| {
        place := Installed(Upper(id));
      }
    case TakePlane(t, id) =>
      if place' == WithDisconnect(t) {
        place := Installed(Upper(id));
      }
    case ClosePlane(t) =>
      if place'.Closed? && place'.index >= |w.table.closed| {
        place := WithDisconnect(t);
      }
    case Close(order) =>
      if place'.Closed? && place'.index >= |w.table.closed| {
        place := Installed(order[place'.index - |w.table.closed|]);
      }
  }

  lemma StepAtMostOnce(w: World, step: Step)
    requires Inv(w) && Enabled(w, step)
    ensures AtMostOnce(Apply(w, step))
  {
    var w' := Apply(w, step);
    forall p, place | In(w', p, place) ensures p in w'.issued {
      if !(step.OpenPlane? && place == WithConnect(step.t)) {
        var from := CameFrom(w, step, p, place);
      }
    }
    forall p, place, place' | In(w', p, place) && In(w', p, place') ensures place == place' {
      if step.OpenPlane? && p == step.p {
        NewPlane(w, step, place);
        NewPlane(w, step, place');
      } else {
        var from := CameFrom(w, step, p, place);
        var from' := CameFrom(w, step, p, place');
        assert from == from';
      }
    }
  }

  lemma NewPlane(w: World, step: Step, place: Place)
    requires Inv(w) && Enabled(w, step) && step.OpenPlane? && In(Apply(w, step), step.p, place)
    ensures place == WithConnect(step.t)
  {
    if place != WithConnect(step.t) {
      var from := CameFrom(w, step, step.p, place);
    }
  }

  lemma StepInv(w: World, step: Step)
    requires Inv(w) && Enabled(w, step)
    ensures Inv(Apply(w, step))
  {
    var w' := Apply(w, step);
    StepAtMostOnce(w, step);
    forall p <- w'.issued ensures exists place :: In(w', p, place) {
      if step.OpenPlane? && p == step.p {
        assert In(w', p, WithConnect(step.t));
      } else {
        var place :| In(w, p, place);
        MovesThere(w, step, p, place);
      }
    }
  }

  lemma {:induction false} RunInv(w: World, steps: seq<Step>, end: World)
    requires Inv(w) && Run(w, steps, end)
    ensures Inv(end)
    decreases |steps|
  {
    if steps != [] {
      StepInv(w, steps[0]);
      RunInv(Apply(w, steps[0]), steps[1..], end);
    }
  }

  /**
   At every moment of every interleaving, each opened plane is in exactly one place: with one Connect, installed under
   one upper-cased address, with one Disconnect, or closed, once.
   */
  lemma ExactlyOnePlace(steps: seq<Step>, w: World, p: PlaneId)
    requires Run(EMPTY, steps, w) && p in w.issued
    ensures exists place :: In(w, p, place)
    ensures forall place, place' :: In(w, p, place) && In(w, p, place') ==> place == place'
    ensures forall a :: In(w, p, Installed(a)) ==> exists id :: a == Upper(id)
  {
    RunInv(EMPTY, steps, w);
  }

  /** When no call holds a plane, what was opened is what is installed and what was closed, and closed only once. */
  lemma Conservation(steps: seq<Step>, w: World)
    requires Run(EMPTY, steps, w) && w.connecting == map[] && w.disconnecting == map[]
    ensures w.issued == w.table.installed.Values + (set p | p in w.table.closed)
    ensures w.table.installed.Values !! (set p | p in w.table.closed)
    ensures forall i, j :: 0 <= i < j < |w.table.closed| ==> w.table.closed[i] != w.table.closed[j]
  {
    RunInv(EMPTY, steps, w);
    forall p ensures p in w.issued <==> p in w.table.installed.Values || p in w.table.closed {
      if p in w.issued {
        var place :| In(w, p, place);
      }
      if p in w.table.installed.Values {
        var a :| a in w.table.installed && w.table.installed[a] == p;
        assert In(w, p, Installed(a));
      }
      if p in w.table.closed {
        var i :| 0 <= i < |w.table.closed| && w.table.closed[i] == p;
        assert In(w, p, Closed(i));
      }
    }
    forall p | p in w.table.installed.Values && p in w.table.closed ensures false {
      var a :| a in w.table.installed && w.table.installed[a] == p;
      var i :| 0 <= i < |w.table.closed| && w.table.closed[i] == p;
      assert In(w, p, Installed(a)) && In(w, p, Closed(i));
    }
    forall i, j | 0 <= i < j < |w.table.closed| ensures w.table.closed[i] != w.table.closed[j] {
      assert In(w, w.table.closed[i], Closed(i)) && In(w, w.table.closed[j], Closed(j));
    }
  }

  /**
   Closing the transport closes every plane opened so far if and only if no Connect holds an opened plane that is not
   yet installed and no Disconnect a plane that is not yet closed.
   */
  lemma CloseReleasesAll(steps: seq<Step>, w: World, order: seq<string>)
    requires Run(EMPTY, steps, w) && Enabled(w, Close(order))
    ensures (forall p <- w.issued :: p in Apply(w, Close(order)).table.closed)
       <==> w.connecting == map[] && w.disconnecting == map[]
  {
    RunInv(EMPTY, steps, w);
    StepInv(w, Close(order));
    var w' := Apply(w, Close(order));
    if w.connecting == map[] && w.disconnecting == map[] {
      forall p <- w.issued ensures p in w'.table.closed {
        var place :| In(w', p, place);
      }
    } else if w.connecting != map[] {
      var t :| t in w.connecting;
      NotClosed(w', w.connecting[t], WithConnect(t));
    } else {
      var t :| t in w.disconnecting;
      NotClosed(w', w.disconnecting[t], WithDisconnect(t));
    }
  }

  lemma NotClosed(w: World, p: PlaneId, place: Place)
    requires Inv(w) && In(w, p, place) && !place.Closed?
    ensures p in w.issued && p !in w.table.closed
  {
    forall i | 0 <= i < |w.table.closed| ensures w.table.closed[i] != p {
      assert !In(w, p, Closed(i));
    }
  }

  /** A Connect that holds an opened plane when the transport is closed installs it afterwards; nothing closes it. */
  lemma LateConnect()
    ensures exists w :: Run(EMPTY, [OpenPlane(0, 7), Close([]), SetPlane(0, "AA:BB")], w)
                     && w.table == Table(map["AA:BB" := 7], [])
  {
    var w1 := Apply(EMPTY, OpenPlane(0, 7));
    var w2 := Apply(w1, Close([]));
    var w3 := Apply(w2, SetPlane(0, "AA:BB"));
    assert Upper("AA:BB") == "AA:BB";
    assert Run(w3, [], w3);
    assert [SetPlane(0, "AA:BB")][1..] == [];
    assert Run(w2, [SetPlane(0, "AA:BB")], w3);
    assert [Close([]), SetPlane(0, "AA:BB")][1..] == [SetPlane(0, "AA:BB")];
    assert Run(w1, [Close([]), SetPlane(0, "AA:BB")], w3);
    assert [OpenPlane(0, 7), Close([]), SetPlane(0, "AA:BB")][1..] == [Close([]), SetPlane(0, "AA:BB")];
  }

  /** A Connect can run at any time and alone: its plane is installed, and the plane it replaces is closed. */
  lemma ConnectRuns(w: World, t: Tid, p: PlaneId, id: string) returns (end: World)
    requires t !in w.connecting && p !in w.issued
    ensures Run(w, [OpenPlane(t, p), SetPlane(t, id)], end)
    ensures PlaneOf(end.table, id) == Some(p) && end.connecting == w.connecting && end.disconnecting == w.disconnecting
    ensures end.table.closed
         == if PlaneOf(w.table, id).Some? then w.table.closed + [PlaneOf(w.table, id).value] else w.table.closed
  {
    var w1 := Apply(w, OpenPlane(t, p));
    end := Apply(w1, SetPlane(t, id));
    CaseBlind(w.table, id, p, id);
    RunTwo(w, OpenPlane(t, p), SetPlane(t, id), end);
  }

  /** And so can a Disconnect of an endpoint that has a plane: it has none afterwards, and that one is closed. */
  lemma DisconnectRuns(w: World, t: Tid, id: string) returns (end: World)
    requires t !in w.disconnecting && PlaneOf(w.table, id).Some?
    ensures Run(w, [TakePlane(t, id), ClosePlane(t)], end)
    ensures PlaneOf(end.table, id) == None && end.connecting == w.connecting && end.disconnecting == w.disconnecting
    ensures end.table.closed == w.table.closed + [PlaneOf(w.table, id).value]
  {
    var w1 := Apply(w, TakePlane(t, id));
    end := Apply(w1, ClosePlane(t));
    RunTwo(w, TakePlane(t, id), ClosePlane(t), end);
  }

  lemma RunTwo(w: World, a: Step, b: Step, end: World)
    requires Enabled(w, a) && Enabled(Apply(w, a), b) && end == Apply(Apply(w, a), b)
    ensures Run(w, [a, b], end)
  {
    var w1 := Apply(w, a);
    assert [a, b][1..] == [b] && [b][1..] == [];
    assert Run(end, [], end);
    assert Run(w1, [b], end);
  }
}
