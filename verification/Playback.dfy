/** The playback room of crates/server/src/playback_sync.rs and the runs of its connections. */
module Playback {
  import opened Prelude

  type DeviceId = string

  datatype DeviceInfo = DeviceInfo(id: DeviceId, name: string, platform: string)

  /** The shared room; a snapshot is an opaque text. */
  datatype Room = Room(
    devices: map<DeviceId, DeviceInfo>, connections: map<DeviceId, nat>, active: Option<DeviceId>,
    snapshot: Option<string>)

  // ---- The steps on the room

  predicate Owns(room: Room, device: DeviceId, conn: nat) {
    device in room.connections && room.connections[device] == conn
  }

  /** `remove_device_connection`: only the connection recorded as owner takes the device away. */
  function Removed(room: Room, device: DeviceId, conn: nat): Room {
    if !Owns(room, device, conn) then room
    else room.(devices := room.devices - {device}, connections := room.connections - {device})
  }

  function HelloRoom(room: Room, conn: nat, prev: Option<DeviceId>, info: DeviceInfo): Room {
    var left := if prev.Some? && prev.value != info.id then Removed(room, prev.value, conn) else room;
    left.(devices := left.devices[info.id := info],
          connections := left.connections[info.id := conn],
          active := if left.active.None? then Some(info.id) else left.active)
  }

  function ReportRoom(room: Room, mine: Option<DeviceId>, snapshot: string): Room {
    if mine.Some? && room.active == mine then room.(snapshot := Some(snapshot)) else room
  }

  function TransferRoom(room: Room, target: DeviceId): Room {
    room.(active := Some(target))
  }

  /** `pick` is the first key the device map happens to iterate. */
  predicate FirstKey(devices: map<DeviceId, DeviceInfo>, pick: Option<DeviceId>) {
    if devices == map[] then pick == None else pick.Some? && pick.value in devices
  }

  function CloseRoom(room: Room, conn: nat, mine: Option<DeviceId>, pick: Option<DeviceId>): Room {
    if mine.None? then room
    else
      var left := Removed(room, mine.value, conn);
      var removed := Owns(room, mine.value, conn) && mine.value in room.devices;
      if removed && left.active == mine then left.(active := pick) else left
  }

  class SyncRoom {
    var devices: map<DeviceId, DeviceInfo>
    var connections: map<DeviceId, nat>
    var active: Option<DeviceId>
    var snapshot: Option<string>

    constructor ()
      ensures Value() == Room(map[], map[], None, None)
    {
      devices, connections, active, snapshot := map[], map[], None, None;
    }

    function Value(): Room
      reads this
    {
      Room(devices, connections, active, snapshot)
    }

    method RemoveDeviceConnection(device: DeviceId, conn: nat) returns (removed: bool)
      modifies this`devices, this`connections
      ensures Value() == Removed(old(Value()), device, conn)
      ensures var owned := device in old(connections) && old(connections)[device] == conn;
              && (removed <==> owned && device in old(devices))
              && devices == (if owned then old(devices) - {device} else old(devices))
              && connections == (if owned then old(connections) - {device} else old(connections))
    {
      if device !in connections || connections[device] != conn {
        return false;
      }
      connections := connections - {device};
      removed := device in devices;
      devices := devices - {device};
    }

    method Hello(conn: nat, prev: Option<DeviceId>, info: DeviceInfo) returns (mine: Option<DeviceId>)
      modifies this
      ensures Value() == HelloRoom(old(Value()), conn, prev, info)
      ensures mine == Some(info.id)
      // The device is registered under this connection, and is active when no other was.
      ensures info.id in devices && devices[info.id] == info && connections[info.id] == conn
      ensures active == if old(active) == None then Some(info.id) else old(active)
      ensures snapshot == old(snapshot)
      // Another device stays as it was, unless it is the one this connection gives up.
      ensures forall d :: d != info.id ==>
                var left := prev == Some(d) && d in old(connections) && old(connections)[d] == conn;
                && (d in devices <==> d in old(devices) && !left)
                && (d in connections <==> d in old(connections) && !left)
                && (d in devices ==> devices[d] == old(devices)[d])
                && (d in connections ==> connections[d] == old(connections)[d])
    {
      mine := Some(info.id);
      if prev.Some? && prev.value != info.id {
        var _ := RemoveDeviceConnection(prev.value, conn);
      }
      devices := devices[info.id := info];
      connections := connections[info.id := conn];
      if active.None? {
        active := Some(info.id);
      }
    }

    method ReportState(mine: Option<DeviceId>, report: string)
      modifies this`snapshot
      ensures Value() == ReportRoom(old(Value()), mine, report)
      ensures snapshot == if active.Some? && mine == active then Some(report) else old(snapshot)
    {
      if mine.Some? && active.Some? && mine.value == active.value {
        snapshot := Some(report);
      }
    }

    method TransferPlayback(target: DeviceId)
      modifies this`active
      ensures Value() == TransferRoom(old(Value()), target)
      ensures active == Some(target)
    {
      active := Some(target);
    }

    method Close(conn: nat, mine: Option<DeviceId>) returns (ghost pick: Option<DeviceId>)
      modifies this
      ensures mine.Some? ==> FirstKey(devices, pick)
      ensures Value() == CloseRoom(old(Value()), conn, mine, pick)
      ensures snapshot == old(snapshot)
      // The connection's own device goes; if it was the active one, any device left takes over.
      ensures var owned := mine.Some? && mine.value in old(connections) && old(connections)[mine.value] == conn;
              if owned then
                && devices == old(devices) - {mine.value} && connections == old(connections) - {mine.value}
                && (if mine.value in old(devices) && old(active) == mine
                    then (active.None? <==> devices == map[]) && (active.Some? ==> active.value in devices)
                    else active == old(active))
              else devices == old(devices) && connections == old(connections) && active == old(active)
    {
      pick := None;
      if mine.Some? {
        var removed := RemoveDeviceConnection(mine.value, conn);
        var first := None;
        if devices.Keys != {} {
          var k :| k in devices.Keys;
          first := Some(k);
        }
        pick := first;
        if removed && active == mine {
          active := first;
        }
      }
    }
  }

  // ---- Runs

  /** The room and, for each live connection, the device it last said hello as. */
  datatype State = State(room: Room, mine: map<nat, Option<DeviceId>>)

  datatype Event =
    | Connect(conn: nat)
    | Hello(conn: nat, info: DeviceInfo)
    | Report(conn: nat, snapshot: string)
    | Transfer(conn: nat, target: DeviceId)
    | Close(conn: nat, pick: Option<DeviceId>)

  const EMPTY := State(Room(map[], map[], None, None), map[])

  /** A new connection has an id no live one has; every other event comes from a live one. */
  predicate Enabled(s: State, e: Event) {
    match e
    case Connect(conn) => conn !in s.mine
    case Close(conn, pick) =>
      && conn in s.mine
      && (s.mine[conn].Some? ==> FirstKey(Removed(s.room, s.mine[conn].value, conn).devices, pick))
    case _ => e.conn in s.mine
  }

  function Step(s: State, e: Event): State
    requires Enabled(s, e)
  {
    match e
    case Connect(conn) => s.(mine := s.mine[conn := None])
    case Hello(conn, info) => State(HelloRoom(s.room, conn, s.mine[conn], info), s.mine[conn := Some(info.id)])
    case Report(conn, snapshot) => s.(room := ReportRoom(s.room, s.mine[conn], snapshot))
    case Transfer(conn, target) => s.(room := TransferRoom(s.room, target))
    case Close(conn, pick) => State(CloseRoom(s.room, conn, s.mine[conn], pick), s.mine - {conn})
  }

  /** The states a run passes through, the empty room first. */
  ghost predicate IsRun(states: seq<State>, es: seq<Event>) {
    && |states| == |es| + 1 && states[0] == EMPTY
    && forall i :: 0 <= i < |es| ==> Enabled(states[i], es[i]) && states[i + 1] == Step(states[i], es[i])
  }

  /**
   The two maps have the same keys, every device is filed under its own id, and every recorded
   owner is a live connection whose current device is the one it owns.
   */
  ghost predicate Inv(s: State) {
    && s.room.devices.Keys == s.room.connections.Keys
    && (forall d :: d in s.room.devices ==> s.room.devices[d].id == d)
    && (forall d :: d in s.room.connections ==> OwnerIsLive(s, d))
  }

  predicate OwnerIsLive(s: State, d: DeviceId)
    requires d in s.room.connections
  {
    s.room.connections[d] in s.mine && s.mine[s.room.connections[d]] == Some(d)
  }

  lemma StepKeepsInv(s: State, e: Event)
    requires Inv(s) && Enabled(s, e)
    ensures Inv(Step(s, e))
  {
    var t := Step(s, e);
    forall d | d in t.room.connections ensures OwnerIsLive(t, d) {
      if d in s.room.connections {
        assert OwnerIsLive(s, d);
      }
    }
  }

  lemma {:induction false} RunKeepsInv(states: seq<State>, es: seq<Event>, k: nat)
    requires IsRun(states, es) && k <= |es|
    ensures Inv(states[k])
  {
    if k > 0 {
      RunKeepsInv(states, es, k - 1);
      StepKeepsInv(states[k - 1], es[k - 1]);
    }
  }

  /** Once every connection has closed no device is left. */
  lemma NoDeviceLeft(states: seq<State>, es: seq<Event>, k: nat)
    requires IsRun(states, es) && k <= |es| && states[k].mine == map[]
    ensures states[k].room.devices == map[] && states[k].room.connections == map[]
  {
    RunKeepsInv(states, es, k);
    var s := states[k];
    if d :| d in s.room.connections.Keys {
      assert false;
    }
  }

  /**
   A device can only be taken from its owner by its owner: whatever another connection does, it
   stays registered, and only a hello under its own id changes its entry.
   */
  lemma StaleNeverRemoves(s: State, e: Event, d: DeviceId)
    requires Inv(s) && Enabled(s, e) && d in s.room.connections && s.room.connections[d] != e.conn
    ensures d in Step(s, e).room.devices && d in Step(s, e).room.connections
    ensures !(e.Hello? && e.info.id == d) ==>
              && Step(s, e).room.devices[d] == s.room.devices[d]
              && Step(s, e).room.connections[d] == s.room.connections[d]
  {
  }

  // ---- The active device

  /** There is an active device exactly when the room has devices, and it is one of them. */
  ghost predicate ActiveOk(s: State) {
    match s.room.active
    case None => s.room.devices == map[]
    case Some(d) => d in s.room.devices
  }

  /** A transfer to a registered device; a hello that does not give up the active device for another. */
  predicate Tame(s: State, e: Event)
    requires Enabled(s, e)
  {
    match e
    case Transfer(conn, target) => target in s.room.devices
    case Hello(conn, info) =>
      !(s.mine[conn].Some? && s.mine[conn].value != info.id && Owns(s.room, s.mine[conn].value, conn)
        && s.room.active == s.mine[conn])
    case _ => true
  }

  /** Exactly the untamed events break the active device. */
  lemma ActiveOkExactly(s: State, e: Event)
    requires Inv(s) && ActiveOk(s) && Enabled(s, e)
    ensures ActiveOk(Step(s, e)) <==> Tame(s, e)
  {
    var t := Step(s, e);
    match e
    case Connect(conn) =>
    case Hello(conn, info) =>
      assert info.id in t.room.devices;
    case Report(conn, snapshot) =>
    case Transfer(conn, target) =>
    case Close(conn, pick) =>
      if s.mine[conn].Some? && Owns(s.room, s.mine[conn].value, conn) {
        assert s.mine[conn].value in s.room.devices;
      }
  }

  /** A run without transfers to absent devices and without changes of device id. */
  ghost predicate Steady(states: seq<State>, es: seq<Event>)
    requires IsRun(states, es)
  {
    forall i :: 0 <= i < |es| ==>
      && (es[i].Transfer? ==> es[i].target in states[i].room.devices)
      && (es[i].Hello? ==> states[i].mine[es[i].conn] in {None, Some(es[i].info.id)})
  }

  lemma {:induction false} SteadyRunsStayOk(states: seq<State>, es: seq<Event>, k: nat)
    requires IsRun(states, es) && k <= |es| && Steady(states, es)
    ensures ActiveOk(states[k])
  {
    if k > 0 {
      SteadyRunsStayOk(states, es, k - 1);
      RunKeepsInv(states, es, k - 1);
      ActiveOkExactly(states[k - 1], es[k - 1]);
    }
  }

  /** One device that renames itself leaves the room with an active device it does not have. */
  lemma RenameBreaksActive() returns (states: seq<State>, es: seq<Event>)
    ensures IsRun(states, es) && !ActiveOk(states[|es|])
    ensures forall i :: 0 <= i < |es| ==> !es[i].Transfer?
  {
    var a, b := DeviceInfo("a", "", ""), DeviceInfo("b", "", "");
    es := [Connect(1), Hello(1, a), Hello(1, b)];
    var s1 := Step(EMPTY, es[0]);
    var s2 := Step(s1, es[1]);
    states := [EMPTY, s1, s2, Step(s2, es[2])];
    assert s2.room.active == Some("a") && "a" != "b";
  }

  /** Nothing but a transfer or that device's own hello gets rid of an absent active device. */
  lemma AbsentActiveStays(s: State, e: Event)
    requires Inv(s) && Enabled(s, e) && s.room.active.Some? && s.room.active.value !in s.room.devices
    requires !e.Transfer? && !(e.Hello? && e.info.id == s.room.active.value)
    ensures Step(s, e).room.active == s.room.active && s.room.active.value !in Step(s, e).room.devices
  {
  }

  /** A report is stored exactly when it comes from the active device's connection. */
  lemma ReportStored(s: State, e: Event)
    requires Enabled(s, e) && e.Report?
    ensures var t := Step(s, e).room;
            t == s.room.(snapshot := if s.room.active.Some? && s.mine[e.conn] == s.room.active then Some(e.snapshot)
                                     else s.room.snapshot)
  {
  }

  /** A stored snapshot comes from a connection whose device was the active one. */
  lemma SnapshotFromActive(s: State, e: Event)
    requires Enabled(s, e) && Step(s, e).room.snapshot != s.room.snapshot
    ensures e.Report? && s.room.active.Some? && s.mine[e.conn] == s.room.active
    ensures Step(s, e).room.snapshot == Some(e.snapshot)
  {
  }
}
