/** The controller's table of connections and the health it reports for every reader, under
    any interleaving of connects, late disconnects and status marks. */
module ReaderHealth {
  import opened Wrappers

  /** One accepted socket; `serial` tells two sockets of one reader apart. */
  datatype Connection = Connection(reader: string, serial: nat, firmware: string)

  datatype HealthState = Offline | Initializing | Online | Degraded

  datatype Health = Health(
    connected: bool,
    state: HealthState,
    reason: Option<string>,
    firmware: Option<string>,
    ready: bool,
    failureCount: nat,
    retryIn: Option<nat>)

  const NEVER_CONNECTED := Health(false, Offline, Some("never_connected"), None, false, 0, None)

  datatype Event =
    | Register(connection: Connection)
    | Unregister(connection: Connection)
    | MarkSeen(reader: string)
    | MarkReady(reader: string)
    | MarkInitializing(reader: string)
    | MarkFault(reader: string, reason: string, failureCount: nat, retryIn: Option<nat>)
    | AddRecord(reader: string)

  datatype Manager = Manager(registry: set<string>, connections: map<string, Connection>, health: map<string, Health>)

  function Start(registry: set<string>): Manager {
    Manager(registry, map[], map r | r in registry :: NEVER_CONNECTED)
  }

  // ----- What each operation makes of a reader's health -----

  function Registered(h: Health, c: Connection): Health {
    h.(connected := true, state := Initializing, reason := Some("pn532_initializing"), firmware := Some(c.firmware),
       ready := false, retryIn := None)
  }

  function Gone(h: Health): Health {
    h.(connected := false, state := Offline, reason := Some("websocket_disconnected"), ready := false, retryIn := None)
  }

  function Ready(h: Health, connected: bool): Health {
    h.(connected := connected, state := if connected then Online else Offline,
       reason := if connected then None else Some("websocket_disconnected"),
       ready := connected, failureCount := 0, retryIn := None)
  }

  function Begun(h: Health, connected: bool): Health {
    h.(connected := connected, state := if connected then Initializing else Offline,
       reason := Some(if connected then "pn532_initializing" else "websocket_disconnected"),
       ready := false, retryIn := None)
  }

  function Faulty(h: Health, connected: bool, reason: string, failureCount: nat, retryIn: Option<nat>): Health {
    h.(connected := connected, state := if connected then Degraded else Offline, reason := Some(reason),
       ready := false, failureCount := failureCount, retryIn := retryIn)
  }

  /** The effect of one event, and whether it raised `KeyError` for a reader it does not know.
      A registration has entered the connection by then. */
  function Take(m: Manager, e: Event): (Manager, bool) {
    match e
    case Register(c) =>
      var n := m.(connections := m.connections[c.reader := c]);
      if c.reader in m.health then (n.(health := m.health[c.reader := Registered(m.health[c.reader], c)]), true)
      else (n, false)
    case Unregister(c) =>
      if c.reader in m.connections && m.connections[c.reader] == c then
        var n := m.(connections := m.connections - {c.reader});
        if c.reader in m.health then (n.(health := m.health[c.reader := Gone(m.health[c.reader])]), true)
        else (n, false)
      else (m, true)
    case MarkSeen(r) => (m, r in m.health)
    case MarkReady(r) =>
      if r in m.health then (m.(health := m.health[r := Ready(m.health[r], r in m.connections)]), true) else (m, false)
    case MarkInitializing(r) =>
      if r in m.health then (m.(health := m.health[r := Begun(m.health[r], r in m.connections)]), true) else (m, false)
    case MarkFault(r, reason, count, retry) =>
      if r in m.health
      then (m.(health := m.health[r := Faulty(m.health[r], r in m.connections, reason, count, retry)]), true)
      else (m, false)
    case AddRecord(r) =>
      if r in m.registry then (m, true)
      else (m.(registry := m.registry + {r}, health := m.health[r := NEVER_CONNECTED]), true)
  }

  // ----- The invariant -----

  /** Health tells the truth about the connections. */
  ghost predicate Inv(m: Manager) {
    && m.health.Keys == m.registry
    && m.connections.Keys <= m.registry
    && (forall r :: r in m.connections ==> m.connections[r].reader == r)
    && (forall r :: r in m.health ==> Truthful(m.health[r], r in m.connections))
  }

  predicate Truthful(h: Health, connected: bool) {
    && h.connected == connected
    && (h.state == Offline <==> !connected)
    && (h.state == Online <==> h.ready)
  }

  /** Sockets are accepted only for readers in the registry. */
  predicate Known(m: Manager, e: Event) {
    e.Register? ==> e.connection.reader in m.registry
  }

  /** The events that a worker or the socket's thread reports of a reader by its id. */
  predicate Marks(e: Event) {
    e.MarkSeen? || e.MarkReady? || e.MarkInitializing? || e.MarkFault?
  }

  function Marked(e: Event): string
    requires Marks(e)
  {
    e.reader
  }

  /** Every event keeps it; it raises exactly if it marks a reader that is not registered. */
  lemma TakeKeepsInv(m: Manager, e: Event)
    requires Inv(m) && Known(m, e)
    ensures Inv(Take(m, e).0)
    ensures Take(m, e).1 <==> (Marks(e) ==> Marked(e) in m.registry)
  {
    var n := Take(m, e).0;
    assert n.health.Keys == n.registry;
    forall r | r in n.health ensures Truthful(n.health[r], r in n.connections) {
      if r in m.health {
        assert Truthful(m.health[r], r in m.connections);
      }
    }
  }

  // ----- Over every interleaving -----

  function Run(registry: set<string>, es: seq<Event>): Manager
    decreases |es|
  {
    if es == [] then Start(registry) else Take(Run(registry, es[..|es| - 1]), es[|es| - 1]).0
  }

  predicate AllKnown(registry: set<string>, es: seq<Event>)
    decreases |es|
  {
    es == [] || (AllKnown(registry, es[..|es| - 1]) && Known(Run(registry, es[..|es| - 1]), es[|es| - 1]))
  }

  /** `c` is the socket its reader last came in on, and has not been reported closed since. */
  ghost predicate IsCurrent(es: seq<Event>, c: Connection) {
    exists k :: 0 <= k < |es| && LastWordOn(es, c, k)
  }

  ghost predicate LastWordOn(es: seq<Event>, c: Connection, k: int)
    requires 0 <= k < |es|
  {
    && es[k] == Register(c)
    && forall j | k < j < |es| :: es[j] != Unregister(c) && !(es[j].Register? && es[j].connection.reader == c.reader)
  }

  lemma CurrentAfter(es: seq<Event>, e: Event, c: Connection)
    ensures IsCurrent(es + [e], c) <==>
            e == Register(c) || (IsCurrent(es, c) && e != Unregister(c) && !(e.Register? && e.connection.reader == c.reader))
  {
    var all := es + [e];
    if e == Register(c) {
      assert LastWordOn(all, c, |es|);
    }
    if IsCurrent(all, c) && e != Register(c) {
      var k :| 0 <= k < |all| && LastWordOn(all, c, k);
      assert all[|es|] == e;
      assert LastWordOn(es, c, k) by {
        forall j | k < j < |es| ensures es[j] != Unregister(c) && !(es[j].Register? && es[j].connection.reader == c.reader) {
          assert all[j] == es[j];
        }
      }
    }
    if IsCurrent(es, c) && e != Unregister(c) && !(e.Register? && e.connection.reader == c.reader) {
      var k :| 0 <= k < |es| && LastWordOn(es, c, k);
      assert LastWordOn(all, c, k);
    }
  }

  lemma {:induction false} RunKeepsInv(registry: set<string>, es: seq<Event>)
    requires AllKnown(registry, es)
    ensures Inv(Run(registry, es))
    decreases |es|
  {
    if es != [] {
      RunKeepsInv(registry, es[..|es| - 1]);
      TakeKeepsInv(Run(registry, es[..|es| - 1]), es[|es| - 1]);
    }
  }

  /** `c` is in the table. */
  predicate Listed(m: Manager, c: Connection) {
    c.reader in m.connections && m.connections[c.reader] == c
  }

  lemma ListedAfter(m: Manager, e: Event, c: Connection)
    ensures Listed(Take(m, e).0, c) <==>
            e == Register(c) || (Listed(m, c) && e != Unregister(c) && !(e.Register? && e.connection.reader == c.reader))
  {
  }

  /** The table lists exactly the sockets that are current. */
  lemma {:induction false} TableTellsHistory(registry: set<string>, es: seq<Event>, c: Connection)
    ensures IsCurrent(es, c) <==> Listed(Run(registry, es), c)
    decreases |es|
  {
    if es != [] {
      var init, e := es[..|es| - 1], es[|es| - 1];
      assert es == init + [e];
      TableTellsHistory(registry, init, c);
      ListedAfter(Run(registry, init), e, c);
      CurrentAfter(init, e, c);
    }
  }

  /** Health agrees with what happened: after every interleaving a reader is reported
      connected exactly when the socket it last came in on has not been reported closed,
      however late an older socket's end is noticed; offline exactly when it is not
      connected; online exactly when its PN532 is ready; and every registered reader, and
      no other, has an entry. */
  lemma HealthTellsHistory(registry: set<string>, es: seq<Event>, r: string)
    requires AllKnown(registry, es)
    ensures var m := Run(registry, es);
            && Inv(m)
            && (r in m.registry <==> r in m.health)
            && (r in m.health ==>
                  (m.health[r].connected <==> exists c: Connection :: c.reader == r && IsCurrent(es, c))
                  && (m.health[r].state == Offline <==> !m.health[r].connected)
                  && (m.health[r].state == Online <==> m.health[r].ready))
  {
    RunKeepsInv(registry, es);
    var m := Run(registry, es);
    if r in m.health {
      assert Truthful(m.health[r], r in m.connections);
      if r in m.connections {
        TableTellsHistory(registry, es, m.connections[r]);
      }
      forall c: Connection | c.reader == r && IsCurrent(es, c) ensures r in m.connections {
        TableTellsHistory(registry, es, c);
      }
    }
  }

  // ----- What the report says -----

  /** The event at `k` is about the reader's health: its socket comes in, its current socket is
      reported closed, or it is marked. */
  ghost predicate Touches(registry: set<string>, es: seq<Event>, k: nat, r: string)
    requires k < |es|
  {
    && r in Run(registry, es[..k]).registry
    && match es[k]
       case Register(c) => c.reader == r
       case Unregister(c) => c.reader == r && IsCurrent(es[..k], c)
       case MarkReady(x) => x == r
       case MarkInitializing(x) => x == r
       case MarkFault(x, _, _, _) => x == r
       case _ => false
  }

  ghost predicate LastTouch(registry: set<string>, es: seq<Event>, k: nat, r: string) {
    k < |es| && Touches(registry, es, k, r) && forall j | k < j < |es| :: !Touches(registry, es, j, r)
  }

  /** What a reader's health says when the event was the last about it. */
  predicate Reports(h: Health, e: Event) {
    match e
    case Register(_) => h.connected && h.state == Initializing && h.reason == Some("pn532_initializing") && !h.ready && h.retryIn == None
    case Unregister(_) => !h.connected && h.state == Offline && h.reason == Some("websocket_disconnected") && !h.ready && h.retryIn == None
    case MarkReady(_) =>
      && h.state == (if h.connected then Online else Offline) && h.ready == h.connected && h.retryIn == None
      && h.reason == (if h.connected then None else Some("websocket_disconnected"))
    case MarkInitializing(_) =>
      && h.state == (if h.connected then Initializing else Offline) && !h.ready && h.retryIn == None
      && h.reason == Some(if h.connected then "pn532_initializing" else "websocket_disconnected")
    case MarkFault(_, reason, _, retryIn) =>
      h.state == (if h.connected then Degraded else Offline) && !h.ready && h.reason == Some(reason) && h.retryIn == retryIn
    case _ => true
  }

  lemma TouchReports(m: Manager, e: Event, r: string)
    requires Inv(m) && Known(m, e) && r in m.registry
    requires match e
             case Register(c) => c.reader == r
             case Unregister(c) => c.reader == r && Listed(m, c)
             case MarkSeen(_) => false
             case AddRecord(_) => false
             case _ => Marked(e) == r
    ensures Reports(Take(m, e).0.health[r], e)
  {
    assert Truthful(m.health[r], r in m.connections);
  }

  lemma OthersLeaveHealth(m: Manager, e: Event, r: string)
    requires Inv(m) && Known(m, e) && r in m.registry
    requires match e
             case Register(c) => c.reader != r
             case Unregister(c) => c.reader != r || !Listed(m, c)
             case MarkSeen(_) => true
             case AddRecord(_) => true
             case _ => Marked(e) != r
    ensures r in Take(m, e).0.health && Take(m, e).0.health[r] == m.health[r]
  {
  }

  /** Over every interleaving the last event about a reader decides what its health reports:
      state, reason, whether its PN532 is ready and when it will be tried again. */
  lemma {:induction false} LastTouchDecides(registry: set<string>, es: seq<Event>, k: nat, r: string)
    requires AllKnown(registry, es) && LastTouch(registry, es, k, r)
    ensures r in Run(registry, es).health && Reports(Run(registry, es).health[r], es[k])
    decreases |es|
  {
    var init, e, n := es[..|es| - 1], es[|es| - 1], |es| - 1;
    var m := Run(registry, init);
    RunKeepsInv(registry, init);
    forall c: Connection ensures IsCurrent(init, c) <==> Listed(m, c) {
      TableTellsHistory(registry, init, c);
    }
    if k == n {
      TouchReports(m, e, r);
    } else {
      SameTouches(registry, es, init, r);
      LastTouchDecides(registry, init, k, r);
      assert !Touches(registry, es, n, r);
      OthersLeaveHealth(m, e, r);
    }
  }

  lemma SameTouches(registry: set<string>, es: seq<Event>, init: seq<Event>, r: string)
    requires es != [] && init == es[..|es| - 1]
    ensures forall k: nat | k < |init| :: Touches(registry, init, k, r) <==> Touches(registry, es, k, r)
  {
    forall k: nat | k < |init| ensures Touches(registry, init, k, r) <==> Touches(registry, es, k, r) {
      assert init[..k] == es[..k];
    }
  }

  /** The firmware that the last socket reported, and the failures counted by the last fault
      since the reader was last ready. */
  function FirmwareOf(es: seq<Event>, r: string): Option<string>
    decreases |es|
  {
    if es == [] then None
    else
      var e := es[|es| - 1];
      if e.Register? && e.connection.reader == r then Some(e.connection.firmware) else FirmwareOf(es[..|es| - 1], r)
  }

  function FailuresOf(registry: set<string>, es: seq<Event>, r: string): nat
    decreases |es|
  {
    if es == [] || r !in Run(registry, es[..|es| - 1]).registry then 0
    else
      var e := es[|es| - 1];
      if e == Event.MarkReady(r) then 0
      else if e.MarkFault? && e.reader == r then e.failureCount
      else FailuresOf(registry, es[..|es| - 1], r)
  }

  /** They are told over every interleaving, and a reader that nothing was ever about is reported
      as never connected. */
  lemma {:induction false} CountersTellHistory(registry: set<string>, es: seq<Event>, r: string)
    requires AllKnown(registry, es) && r in Run(registry, es).registry
    ensures r in Run(registry, es).health
    ensures var h := Run(registry, es).health[r];
            && h.firmware == FirmwareOf(es, r) && h.failureCount == FailuresOf(registry, es, r)
            && ((forall k: nat | k < |es| :: !Touches(registry, es, k, r)) ==>
                  h == Health(false, Offline, Some("never_connected"), None, false, 0, None))
    decreases |es|
  {
    if es != [] {
      var init, e, n := es[..|es| - 1], es[|es| - 1], |es| - 1;
      var m := Run(registry, init);
      RunKeepsInv(registry, init);
      SameTouches(registry, es, init, r);
      forall c: Connection ensures IsCurrent(init, c) <==> Listed(m, c) {
        TableTellsHistory(registry, init, c);
      }
      if r in m.registry {
        CountersTellHistory(registry, init, r);
        CountersStep(m, e, r);
        if !Touches(registry, es, n, r) {
          OthersLeaveHealth(m, e, r);
        }
      } else {
        NoFirmwareYet(registry, init, r);
      }
    }
  }

  lemma CountersStep(m: Manager, e: Event, r: string)
    requires Inv(m) && Known(m, e) && r in m.registry
    ensures r in Take(m, e).0.health
    ensures var h, n := m.health[r], Take(m, e).0.health[r];
            && n.firmware == (if e.Register? && e.connection.reader == r then Some(e.connection.firmware) else h.firmware)
            && n.failureCount == (if e == Event.MarkReady(r) then 0 else if e.MarkFault? && e.reader == r then e.failureCount
                                  else h.failureCount)
  {
  }

  lemma RegistryGrows(m: Manager, e: Event)
    ensures m.registry <= Take(m, e).0.registry
  {
  }

  lemma {:induction false} NoFirmwareYet(registry: set<string>, es: seq<Event>, r: string)
    requires AllKnown(registry, es) && r !in Run(registry, es).registry
    ensures FirmwareOf(es, r) == None
    decreases |es|
  {
    if es != [] {
      RegistryGrows(Run(registry, es[..|es| - 1]), es[|es| - 1]);
      NoFirmwareYet(registry, es[..|es| - 1], r);
    }
  }

  /** A stale connection's late unregister changes nothing. */
  lemma StaleUnregisterIsIgnored(m: Manager, old_: Connection, new_: Connection)
    requires old_ != new_ && old_.reader == new_.reader
    ensures var n := Take(m, Register(new_)).0; Take(n, Unregister(old_)).0 == n
  {
  }

  // ----- The manager as the controller keeps it -----

  class ReaderManager {
    var registry: set<string>
    var connections: map<string, Connection>
    var health: map<string, Health>

    ghost function State(): Manager
      reads this
    {
      Manager(registry, connections, health)
    }

    /** Health agrees with the connections. */
    ghost predicate Valid()
      reads this
    {
      Inv(State())
    }

    constructor (registry: set<string>)
      ensures Valid() && State() == Start(registry)
    {
      this.registry := registry;
      connections := map[];
      health := map r | r in registry :: NEVER_CONNECTED;
    }

    /** A reader that is not in the registry raises, and leaves its connection behind. */
    method Register(c: Connection) returns (ok: bool)
      requires Valid()
      modifies this
      ensures (State(), ok) == Take(old(State()), Event.Register(c))
      ensures ok <==> c.reader in registry
      ensures ok ==> Valid() && Listed(State(), c) && health[c.reader].connected && !health[c.reader].ready
    {
      ghost var m := State();
      connections := connections[c.reader := c];
      if c.reader !in health {
        return false;
      }
      health := health[c.reader := Registered(health[c.reader], c)];
      ok := true;
      TakeKeepsInv(m, Event.Register(c));
    }

    /** Only the end of the listed connection takes the reader off line. */
    method Unregister(c: Connection) returns (ok: bool)
      requires Valid()
      modifies this
      ensures (State(), ok) == Take(old(State()), Event.Unregister(c))
      ensures Valid() && ok && !Listed(State(), c)
      ensures if Listed(old(State()), c) then c.reader !in connections && health[c.reader].state == Offline
              else State() == old(State())
    {
      ghost var m := State();
      TakeKeepsInv(m, Event.Unregister(c));
      if c.reader in connections && connections[c.reader] == c {
        connections := connections - {c.reader};
        if c.reader !in health {
          return false;
        }
        health := health[c.reader := Gone(health[c.reader])];
      }
      ok := true;
    }

    /** A reader is on line exactly if it is connected when its PN532 is found ready. */
    method MarkReady(reader: string) returns (ok: bool)
      requires Valid()
      modifies this
      ensures (State(), ok) == Take(old(State()), Event.MarkReady(reader))
      ensures Valid() && (ok <==> reader in registry) && connections == old(connections)
      ensures ok ==> (health[reader].state == Online <==> reader in connections) && health[reader].failureCount == 0
    {
      TakeKeepsInv(State(), Event.MarkReady(reader));
      if reader !in health {
        return false;
      }
      health := health[reader := Ready(health[reader], reader in connections)];
      ok := true;
    }

    method MarkInitializing(reader: string) returns (ok: bool)
      requires Valid()
      modifies this
      ensures (State(), ok) == Take(old(State()), Event.MarkInitializing(reader))
      ensures Valid() && (ok <==> reader in registry) && connections == old(connections)
      ensures ok ==> (health[reader].state == Initializing <==> reader in connections) && !health[reader].ready
    {
      TakeKeepsInv(State(), Event.MarkInitializing(reader));
      if reader !in health {
        return false;
      }
      health := health[reader := Begun(health[reader], reader in connections)];
      ok := true;
    }

    method MarkFault(reader: string, reason: string, failureCount: nat, retryIn: Option<nat>) returns (ok: bool)
      requires Valid()
      modifies this
      ensures (State(), ok) == Take(old(State()), Event.MarkFault(reader, reason, failureCount, retryIn))
      ensures Valid() && (ok <==> reader in registry) && connections == old(connections)
      ensures ok ==> (health[reader].state == Degraded <==> reader in connections) && !health[reader].ready
    {
      TakeKeepsInv(State(), Event.MarkFault(reader, reason, failureCount, retryIn));
      if reader !in health {
        return false;
      }
      health := health[reader := Faulty(health[reader], reader in connections, reason, failureCount, retryIn)];
      ok := true;
    }

    /** A reader already known keeps its health. */
    method AddRecord(reader: string)
      requires Valid()
      modifies this
      ensures State() == Take(old(State()), Event.AddRecord(reader)).0
      ensures Valid() && reader in registry && connections == old(connections)
      ensures reader in old(registry) ==> State() == old(State())
    {
      TakeKeepsInv(State(), Event.AddRecord(reader));
      if reader !in registry {
        registry := registry + {reader};
        health := health[reader := NEVER_CONNECTED];
      }
    }
  }
}
