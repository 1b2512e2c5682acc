/** The transport's device table and who owns each opened data plane, under any interleaving of callers. */
module PlaneTable {
  import opened Bytes

  type PlaneId = nat

  function UpperChar(c: char): char {
    if 'a' <= c <= 'z' then c - 'a' + 'A' else c
  }

  /** Endpoint ids are ASCII, so this is strings.ToUpper on them. */
  function Upper(s: string): (u: string)
    ensures |u| == |s| && forall k :: 0 <= k < |s| ==> u[k] == UpperChar(s[k])
  {
    seq(|s|, k requires 0 <= k < |s| => UpperChar(s[k]))
  }

  const SMALL := "abcdefghijklmnopqrstuvwxyz"
  const CAPITAL := "ABCDEFGHIJKLMNOPQRSTUVWXYZ"

  /** The same character, or the same one of the 26 letters. */
  predicate SameLetter(c: char, d: char) {
    || c == d
    || exists k :: 0 <= k < 26 && ((c == SMALL[k] && d == CAPITAL[k]) || (c == CAPITAL[k] && d == SMALL[k]))
  }

  /** Two endpoint ids that differ in nothing but letter case. */
  predicate SameAddress(s: string, t: string) {
    |s| == |t| && forall k :: 0 <= k < |s| ==> SameLetter(s[k], t[k])
  }

  lemma Letters(k: nat)
    requires k < 26
    ensures SMALL[k] == 'a' + k as char && CAPITAL[k] == 'A' + k as char
  {
  }

  lemma SameLetterExactly(c: char, d: char)
    ensures UpperChar(c) == UpperChar(d) <==> SameLetter(c, d)
  {
    forall k: nat | k < 26 ensures SMALL[k] == 'a' + k as char && CAPITAL[k] == 'A' + k as char {
      Letters(k);
    }
    if UpperChar(c) == UpperChar(d) && c != d {
      var k := (UpperChar(c) - 'A') as int;
      assert 0 <= k < 26 && UpperChar(c) == CAPITAL[k];
    }
  }

  /** Upper-casing identifies exactly the ids that differ only in letter case. */
  lemma UpperExactly(s: string, t: string)
    ensures Upper(s) == Upper(t) <==> SameAddress(s, t)
  {
    forall k | 0 <= k < |s| && k < |t| ensures Upper(s)[k] == Upper(t)[k] <==> SameLetter(s[k], t[k]) {
      SameLetterExactly(s[k], t[k]);
    }
    if SameAddress(s, t) {
      assert forall k :: 0 <= k < |s| ==> Upper(s)[k] == Upper(t)[k];
    }
  }

  /** The plane installed at an address, as a list of none or one. */
  function At(m: map<string, PlaneId>, a: string): seq<PlaneId> {
    if a in m then [m[a]] else []
  }

  /** The sequence lists the set, each element once. */
  predicate Enumerates(order: seq<string>, keys: set<string>) {
    && (forall k :: 0 <= k < |order| ==> order[k] in keys)
    && (forall a <- keys :: a in order)
    && (forall i, j :: 0 <= i < j < |order| ==> order[i] != order[j])
  }

  function PlanesAt(m: map<string, PlaneId>, order: seq<string>): (planes: seq<PlaneId>)
    requires forall k :: 0 <= k < |order| ==> order[k] in m
    ensures |planes| == |order| && forall k :: 0 <= k < |order| ==> planes[k] == m[order[k]]
  {
    seq(|order|, k requires 0 <= k < |order| => m[order[k]])
  }

  /** One more address of the table has been walked past: its plane, if it has one, is the next to be closed. */
  lemma WalkPast(m: map<string, PlaneId>, keys: set<string>, order: seq<string>, todo: set<string>, a: string)
    requires Enumerates(order, m.Keys - todo) && a in todo && m.Keys <= keys
    ensures var order' := order + if a in m then [a] else [];
            && Enumerates(order', m.Keys - (todo - {a}))
            && PlanesAt(m, order') == PlanesAt(m, order) + At(m - (keys - todo), a)
    ensures m - (keys - (todo - {a})) == m - (keys - todo) - {a}
  {
    if a in m {
      assert (order + [a])[|order|] == a;
      assert forall b <- m.Keys - todo :: b in order && b in order + [a];
    } else {
      assert m.Keys - (todo - {a}) == m.Keys - todo;
      assert order + [] == order;
    }
  }

  /** The installed planes by device address, and the Close calls made on data planes. */
  datatype Table = Table(installed: map<string, PlaneId>, closed: seq<PlaneId>)

  /** What the transport does to the table: setPlane, the locked part of Disconnect, the rest of it, and Close. */
  datatype TableStep =
    | Install(endpointID: string, p: PlaneId)
    | Take(endpointID: string)
    | CloseTaken(p: PlaneId)
    | CloseAll(order: seq<string>)

  predicate TableEnabled(tb: Table, step: TableStep) {
    step.CloseAll? ==> Enumerates(step.order, tb.installed.Keys)
  }

  function OnTable(tb: Table, step: TableStep): Table
    requires TableEnabled(tb, step)
  {
    match step
    case Install(id, p) => Table(tb.installed[Upper(id) := p], tb.closed + At(tb.installed, Upper(id)))
    case Take(id) => tb.(installed := tb.installed - {Upper(id)})
    case CloseTaken(p) => tb.(closed := tb.closed + [p])
    case CloseAll(order) => Table(map[], tb.closed + PlanesAt(tb.installed, order))
  }

  /** What a caller gets for an endpoint id. */
  function PlaneOf(tb: Table, id: string): Option<PlaneId> {
    if Upper(id) in tb.installed then Some(tb.installed[Upper(id)]) else None
  }

  /**
   Letter case does not matter: a plane installed or taken under one id is found, or gone, under exactly the ids that
   differ from it at most in letter case, and all other ids find what they found before. Whatever the case, the plane
   replaced is closed.
   */
  lemma CaseBlind(tb: Table, id: string, p: PlaneId, other: string)
    ensures PlaneOf(OnTable(tb, Install(id, p)), other)
         == if SameAddress(id, other) then Some(p) else PlaneOf(tb, other)
    ensures PlaneOf(OnTable(tb, Take(id)), other)
         == if SameAddress(id, other) then None else PlaneOf(tb, other)
    ensures SameAddress(id, other) ==>
              && OnTable(tb, Install(other, p)) == OnTable(tb, Install(id, p))
              && OnTable(tb, Take(other)) == OnTable(tb, Take(id))
    ensures OnTable(tb, Install(id, p)).closed
         == if PlaneOf(tb, id).Some? then tb.closed + [PlaneOf(tb, id).value] else tb.closed
  {
    UpperExactly(id, other);
    assert tb.closed + [] == tb.closed;
  }

  class BleDevice {
    const address: string
    var name: string
    var path: string
    var plane: Option<PlaneId>
    var viaGATT: bool

    constructor (address: string)
      ensures this.address == address && name == "" && path == "" && plane == None && !viaGATT
    {
      this.address, name, path, plane, viaGATT := address, "", "", None, false;
    }

    /** The field updates of setPlane; an unknown name does not overwrite a known one. */
    method Attach(path: string, name: string, plane: PlaneId, viaGATT: bool)
      modifies this
      ensures this.path == path && this.plane == Some(plane) && this.viaGATT == viaGATT
      ensures this.name == if name != "" then name else old(this.name)
    {
      this.path := path;
      if name != "" {
        this.name := name;
      }
      this.plane := Some(plane);
      this.viaGATT := viaGATT;
    }
  }

  datatype Taken = NotConnected | Taken(plane: PlaneId, viaGATT: bool, path: string)

  class Transport {
    var devices: map<string, BleDevice>
    var closeLog: seq<PlaneId>    // the Close calls made on data planes

    ghost predicate Valid()
      reads this, devices.Values
    {
      forall a <- devices :: devices[a].address == a
    }

    /** The planes in the table, by device address. */
    ghost function Installed(): map<string, PlaneId>
      reads this, devices.Values
    {
      map a | a in devices && devices[a].plane.Some? :: devices[a].plane.value
    }

    ghost function State(): Table
      reads this, devices.Values
    {
      Table(Installed(), closeLog)
    }

    constructor ()
      ensures Valid() && Installed() == map[] && closeLog == [] && devices == map[]
    {
      devices, closeLog := map[], [];
    }

    /** The devices, their paths and their names are as before. */
    twostate predicate NamesKept()
      reads this, devices.Values
    {
      && devices == old(devices)
      && forall a <- devices :: var d := devices[a]; d.path == old(d.path) && d.name == old(d.name)
    }

    /** Only planes have changed. */
    twostate predicate LinksKept()
      reads this, devices.Values
    {
      NamesKept() && forall a <- devices :: var d := devices[a]; d.viaGATT == old(d.viaGATT)
    }

    method DeviceLocked(addr: string) returns (d: BleDevice)
      requires Valid()
      modifies this`devices
      ensures Valid() && addr in devices && devices[addr] == d
      ensures Installed() == old(Installed())
      ensures addr in old(devices) ==> devices == old(devices)
      ensures addr !in old(devices) ==>
                fresh(d) && d.plane == None && d.name == "" && d.path == "" && devices == old(devices)[addr := d]
    {
      if addr in devices {
        return devices[addr];
      }
      d := new BleDevice(addr);
      devices := devices[addr := d];
    }

    method SetPlane(endpointID: string, path: string, name: string, plane: PlaneId, viaGATT: bool)
      requires Valid()
      modifies this, devices.Values
      ensures Valid()
      ensures State() == OnTable(old(State()), Install(endpointID, plane))
      ensures Upper(endpointID) in devices
      ensures var d := devices[Upper(endpointID)];
              && d.path == path && d.viaGATT == viaGATT
              && (name != "" ==> d.name == name)
              && (name == "" && !fresh(d) ==> d.name == old(d.name))
      ensures forall a <- old(devices) :: a in devices && devices[a] == old(devices[a])
      ensures forall a <- old(devices) :: a != Upper(endpointID) ==> unchanged(old(devices[a]))
    {
      var addr := Upper(endpointID);
      var d := DeviceLocked(addr);
      assert forall a <- devices :: a != addr ==> devices[a] != d && a in old(devices);
      ghost var was := Installed();
      if d.plane.Some? {
        closeLog := closeLog + [d.plane.value];
      }
      d.Attach(path, name, plane, viaGATT);
      Updated(Installed(), was, addr, plane);
    }

    /** The part of Disconnect under the mutex: the plane leaves the table and belongs to the caller. */
    method TakePlane(endpointID: string) returns (r: Taken)
      requires Valid()
      modifies devices.Values
      ensures Valid() && devices == old(devices)
      ensures r.Taken? <==> PlaneOf(old(State()), endpointID).Some?
      ensures r.Taken? ==>
                var d := devices[Upper(endpointID)];
                r == Taken(old(Installed())[Upper(endpointID)], old(d.viaGATT), old(d.path)) && !d.viaGATT
      ensures State() == OnTable(old(State()), Take(endpointID))
      ensures forall a <- devices :: a != Upper(endpointID) || r.NotConnected? ==> unchanged(devices[a])
      ensures NamesKept()
    {
      var addr := Upper(endpointID);
      if addr !in devices || devices[addr].plane.None? {
        return NotConnected;
      }
      var d := devices[addr];
      r := Taken(d.plane.value, d.viaGATT, d.path);
      d.plane := None;
      d.viaGATT := false;
    }

    /** `drop` is the device whose BLE link is to be dropped: only if raw GATT owned it and the bus is open. */
    method Disconnect(endpointID: string, busOpen: bool) returns (drop: Option<string>)
      requires Valid()
      modifies this`closeLog, devices.Values
      ensures Valid()
      ensures var taken := OnTable(old(State()), Take(endpointID));
              State() == if Upper(endpointID) !in old(Installed()) then taken
                         else OnTable(taken, CloseTaken(old(Installed())[Upper(endpointID)]))
      ensures drop.Some? <==>
              Upper(endpointID) in old(Installed()) && old(devices[Upper(endpointID)].viaGATT) && busOpen
      ensures drop.Some? ==> drop.value == old(devices[Upper(endpointID)].path)
      ensures NamesKept()
      ensures forall a <- devices :: a != Upper(endpointID) ==> unchanged(devices[a])
      ensures Upper(endpointID) in old(Installed()) ==> !devices[Upper(endpointID)].viaGATT
    {
      var r := TakePlane(endpointID);
      drop := None;
      if r.Taken? {
        closeLog := closeLog + [r.plane];
        if r.viaGATT && busOpen {
          drop := Some(r.path);
        }
      }
    }

    method PlaneFor(endpointID: string) returns (r: Option<PlaneId>)
      requires Valid()
      ensures r == PlaneOf(State(), endpointID)
    {
      var addr := Upper(endpointID);
      if addr !in devices || devices[addr].plane.None? {
        return None;
      }
      return devices[addr].plane;
    }

    /** Closes the plane of one device, if it has one. */
    method CloseOne(a: string)
      requires Valid() && a in devices
      modifies this`closeLog, devices.Values
      ensures Valid()
      ensures Installed() == old(Installed()) - {a}
      ensures closeLog == old(closeLog) + At(old(Installed()), a)
      ensures LinksKept()
    {
      assert forall b <- devices :: b != a ==> devices[b] != devices[a];
      var d := devices[a];
      if d.plane.Some? {
        closeLog := closeLog + [d.plane.value];
        d.plane := None;
      }
    }

    /** Closes every installed plane once, in whatever order the table is walked. */
    method Close() returns (ghost order: seq<string>)
      requires Valid()
      modifies this`closeLog, devices.Values
      ensures Valid() && devices == old(devices)
      ensures Enumerates(order, old(Installed()).Keys)
      ensures State() == OnTable(old(State()), CloseAll(order))
      ensures LinksKept()
    {
      order := [];
      var todo := devices.Keys;
      ghost var planes := Installed();
      while todo != {}
        invariant todo <= devices.Keys
        invariant Valid() && Installed() == planes - (devices.Keys - todo)
        invariant Enumerates(order, planes.Keys - todo)
        invariant closeLog == old(closeLog) + PlanesAt(planes, order)
        invariant LinksKept()
      {
        var a :| a in todo;
        WalkPast(planes, devices.Keys, order, todo, a);
        CloseOne(a);
        order := order + if a in planes then [a] else [];
        todo := todo - {a};
      }
    }
  }

  lemma Updated(m: map<string, PlaneId>, was: map<string, PlaneId>, a: string, p: PlaneId)
    requires a in m && m[a] == p
    requires forall k :: k != a ==> (k in m <==> k in was)
    requires forall k :: k != a && k in m ==> m[k] == was[k]
    ensures m == was[a := p]
  {
  }
}
