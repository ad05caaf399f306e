// The service registry of one listening port and the service manager (server/server.cpp).
//
// Sockets, the resolver, the ban list and the dispatcher are not modelled: their outcomes
// are inputs (`AcceptOutcome`, `OpenInputs`), and what the port asks of them (arming an
// accept, closing a connection, scheduling a reopen) is recorded in an event log.
module Server {
  import opened Ints
  import opened Wrappers
  import Network

  /** What a registered service reports about its protocol. */
  datatype Service = Service(name: string, identifier: uint8, checksummed: bool, singleSocket: bool)

  datatype Family = V4 | V6
  datatype Address = Address(family: Family, octets: seq<uint8>)
  datatype Endpoint = Endpoint(address: Address, port: uint16)
  datatype Acceptor = Acceptor(endpoint: Endpoint, isOpen: bool)

  /** The delay, in milliseconds, of the reopen the port schedules after a failure. */
  const RETRY_DELAY_MS: int := 15000

  /** What the port asks of the outside world, in order. */
  datatype Event =
    | AcceptArmed                         // acceptor->async_accept on a new connection
    | ForceClosed                         // connection->close(FORCE_CLOSE)
    | HandedToProtocol(service: Service)  // connection->accept(service->make_protocol(...))
    | AcceptedInternal                    // connection->acceptInternal()
    | ReopenScheduled(delay: int, port: uint16)

  /** The outcome of one asynchronous accept. */
  datatype AcceptOutcome =
    | Connected(remoteIp: uint32, banAccepts: bool)
    | OperationAborted
    | AcceptFailed

  /** The outcomes of the steps of `open`: literal parses, the resolver (None when it throws),
      the BIND_ONLY_GLOBAL_ADDRESS setting and whether creating the acceptor succeeds. */
  datatype OpenInputs = OpenInputs(
    v4Literal: Option<Address>, v6Literal: Option<Address>,
    resolved: Option<seq<Address>>, bindOnlyGlobal: bool, bindSucceeds: bool)

  datatype PortState = PortState(
    services: seq<Service>, serverPort: uint16, pendingStart: bool,
    acceptor: Option<Acceptor>, events: seq<Event>)

  // ---------------------------------------------------------------- service list

  predicate HasSingleSocket(services: seq<Service>) {
    exists i :: 0 <= i < |services| && services[i].singleSocket
  }

  /** The invariant add_service keeps: a single-socket service, if any, is the last one added. */
  predicate SingleSocketLast(services: seq<Service>) {
    forall i :: 0 <= i < |services| && services[i].singleSocket ==> i == |services| - 1
  }

  /** add_service (server.cpp:237-244): refused while any registered service is single-socket. */
  function AddServiceSpec(services: seq<Service>, svc: Service): (r: (bool, seq<Service>))
    ensures r.0 <==> !HasSingleSocket(services)
    ensures r.0 ==> r.1 == services + [svc]
    ensures !r.0 ==> r.1 == services
  {
    if HasSingleSocket(services) then (false, services) else (true, services + [svc])
  }

  lemma AddServiceKeepsSingleSocketLast(services: seq<Service>, svc: Service)
    requires SingleSocketLast(services)
    ensures SingleSocketLast(AddServiceSpec(services, svc).1)
  {
  }

  /** is_single_socket (server.cpp:75-77). */
  predicate IsSingleSocket(services: seq<Service>) {
    |services| > 0 && services[0].singleSocket
  }

  /** A port whose front service is single-socket serves that one service only, and nothing
      more can be added to it. */
  lemma SingleSocketPortIsExclusive(services: seq<Service>, svc: Service)
    requires SingleSocketLast(services)
    ensures IsSingleSocket(services) ==> |services| == 1 && AddServiceSpec(services, svc) == (false, services)
  {
  }

  /** The names joined by ", " in registration order. */
  function JoinNames(services: seq<Service>): (r: string)
    ensures services == [] ==> r == []
    ensures |services| == 1 ==> r == services[0].name
  {
    if |services| == 0 then []
    else if |services| == 1 then services[0].name
    else JoinNames(services[..|services| - 1]) + ", " + services[|services| - 1].name
  }

  /** Each further service adds its name after a ", ". */
  lemma JoinNamesSnoc(services: seq<Service>, svc: Service)
    requires services != []
    ensures JoinNames(services + [svc]) == JoinNames(services) + ", " + svc.name
  {
    assert (services + [svc])[..|services|] == services;
  }

  /** The service a protocol identifier selects: the first, in registration order, whose
      identifier matches and whose checksum requirement the connection meets. */
  function FirstCompatible(services: seq<Service>, id: uint8, checksummed: bool): (r: Option<nat>)
    ensures r.Some? ==> r.value < |services| && Compatible(services[r.value], id, checksummed)
    ensures r.Some? ==> forall j :: 0 <= j < r.value ==> !Compatible(services[j], id, checksummed)
    ensures r.None? <==> forall j :: 0 <= j < |services| ==> !Compatible(services[j], id, checksummed)
    decreases |services|
  {
    if services == [] then None
    else if Compatible(services[0], id, checksummed) then Some(0)
    else match FirstCompatible(services[1..], id, checksummed)
      case None => None
      case Some(k) => Some(k + 1)
  }

  predicate Compatible(svc: Service, id: uint8, checksummed: bool) {
    id == svc.identifier && ((checksummed && svc.checksummed) || !svc.checksummed)
  }

  /** A service that does not use checksums is chosen whenever its identifier matches and no
      earlier service is compatible, whatever the connection says; a checksummed service is
      never chosen for a connection without checksums, so a checksummed connection finds a
      service at least as early as one without. */
  lemma ChecksumCompatibility(services: seq<Service>, id: uint8, checksummed: bool)
    ensures var r := FirstCompatible(services, id, checksummed);
      r.Some? && services[r.value].checksummed ==> checksummed
    ensures var lax := FirstCompatible(services, id, false);
      var strict := FirstCompatible(services, id, true);
      lax.Some? ==> strict.Some? && strict.value <= lax.value
  {
  }

  // ---------------------------------------------------------------- open / accept

  function AnyAddress(f: Family): (a: Address)
    ensures a.family == f && |a.octets| == (if f.V4? then 4 else 16)
    ensures forall i :: 0 <= i < |a.octets| ==> a.octets[i] == 0
  {
    var zero: uint8 := 0;
    match f
    case V4 => Address(V4, seq(4, _ => zero))
    case V6 => Address(V6, seq(16, _ => zero))
  }

  /** The index of the first address of the given family among the resolver's results. */
  function FirstIndexOfFamily(results: seq<Address>, f: Family): (r: Option<nat>)
    ensures r.Some? ==> r.value < |results| && results[r.value].family == f
    ensures r.Some? ==> forall j :: 0 <= j < r.value ==> results[j].family != f
    ensures r.None? <==> forall i :: 0 <= i < |results| ==> results[i].family != f
  {
    if results == [] then None
    else if results[0].family == f then Some(0)
    else match FirstIndexOfFamily(results[1..], f)
      case None => None
      case Some(k) => Some(k + 1)
  }

  function FirstOfFamily(results: seq<Address>, f: Family): Option<Address>
  {
    match FirstIndexOfFamily(results, f)
    case None => None
    case Some(k) => Some(results[k])
  }

  /** The address `open` listens for (server.cpp:163-199): the IP setting as an IPv4 literal,
      else as an IPv6 literal, else the first IPv6 result of resolving it, else the first IPv4
      one; None when nothing resolves or the resolver throws. */
  function ChooseAddress(inputs: OpenInputs): (r: Option<Address>)
    ensures inputs.v4Literal.Some? ==> r == inputs.v4Literal
    ensures inputs.v4Literal.None? && inputs.v6Literal.Some? ==> r == inputs.v6Literal
    ensures inputs.v4Literal.None? && inputs.v6Literal.None? && inputs.resolved.None? ==> r.None?
    ensures inputs.v4Literal.None? && inputs.v6Literal.None? && inputs.resolved.Some? ==>
      (FirstOfFamily(inputs.resolved.value, V6).Some? ==> r == FirstOfFamily(inputs.resolved.value, V6)) &&
      (FirstOfFamily(inputs.resolved.value, V6).None? ==> r == FirstOfFamily(inputs.resolved.value, V4))
  {
    if inputs.v4Literal.Some? then inputs.v4Literal
    else if inputs.v6Literal.Some? then inputs.v6Literal
    else if inputs.resolved.None? then None
    else
      var v6 := FirstOfFamily(inputs.resolved.value, V6);
      if v6.Some? then v6 else FirstOfFamily(inputs.resolved.value, V4)
  }

  /** A resolved name yields an IPv4 address only when no result is IPv6. */
  lemma ResolvedPrefersV6(inputs: OpenInputs)
    requires inputs.v4Literal.None? && inputs.v6Literal.None? && inputs.resolved.Some?
    ensures var r := ChooseAddress(inputs);
      r.Some? && r.value.family == V4 ==> forall i :: 0 <= i < |inputs.resolved.value| ==> inputs.resolved.value[i].family != V6
    ensures ChooseAddress(inputs).None? <==> forall i :: 0 <= i < |inputs.resolved.value| ==>
      inputs.resolved.value[i].family != V6 && inputs.resolved.value[i].family != V4
  {
  }

  /** The endpoint bound: the exact address with BIND_ONLY_GLOBAL_ADDRESS, otherwise the
      any-address of its family; always on the given port. */
  function BindEndpoint(address: Address, port: uint16, bindOnlyGlobal: bool): (e: Endpoint)
    ensures e.port == port && e.address.family == address.family
    ensures bindOnlyGlobal ==> e.address == address
    ensures !bindOnlyGlobal ==> e.address == AnyAddress(address.family)
  {
    Endpoint(if bindOnlyGlobal then address else AnyAddress(address.family), port)
  }

  /** close (server.cpp:230-235): an open acceptor is closed; the port keeps it. */
  function CloseSpec(st: PortState): (r: PortState)
    ensures r.acceptor.Some? <==> st.acceptor.Some?
    ensures r.acceptor.Some? ==> !r.acceptor.value.isOpen && r.acceptor.value.endpoint == st.acceptor.value.endpoint
    ensures r.(acceptor := st.acceptor) == st
  {
    if st.acceptor.Some? then st.(acceptor := Some(st.acceptor.value.(isOpen := false))) else st
  }

  /** accept (server.cpp:93-100): a new accept is armed whenever the port has an acceptor. */
  function AcceptSpec(st: PortState): (r: PortState)
    ensures r.(events := st.events) == st
    ensures r.events == st.events + (if st.acceptor.Some? then [AcceptArmed] else [])
  {
    if st.acceptor.None? then st else st.(events := st.events + [AcceptArmed])
  }

  /** open (server.cpp:156-228). */
  function OpenSpec(st: PortState, port: uint16, inputs: OpenInputs): (r: PortState)
  {
    var closed := CloseSpec(st).(serverPort := port, pendingStart := false);
    var address := ChooseAddress(inputs);
    if address.Some? && inputs.bindSucceeds then
      var bound := closed.(acceptor := Some(Acceptor(BindEndpoint(address.value, port, inputs.bindOnlyGlobal), true)));
      AcceptSpec(bound)
    else
      closed.(pendingStart := true, events := closed.events + [ReopenScheduled(RETRY_DELAY_MS, port)])
  }

  /** open ends either listening on the chosen endpoint with an accept armed and no reopen
      pending, or with a reopen of the same port scheduled 15 s later and marked pending;
      the services never change. */
  lemma OpenOutcome(st: PortState, port: uint16, inputs: OpenInputs)
    ensures var r := OpenSpec(st, port, inputs);
      var address := ChooseAddress(inputs);
      r.services == st.services && r.serverPort == port &&
      (address.Some? && inputs.bindSucceeds ==>
         !r.pendingStart && r.acceptor == Some(Acceptor(BindEndpoint(address.value, port, inputs.bindOnlyGlobal), true)) &&
         r.events == st.events + [AcceptArmed]) &&
      (!(address.Some? && inputs.bindSucceeds) ==>
         r.pendingStart && (r.acceptor.Some? ==> !r.acceptor.value.isOpen) &&
         r.events == st.events + [ReopenScheduled(RETRY_DELAY_MS, port)])
  {
  }

  /** onAccept (server.cpp:102-130). */
  function OnAcceptSpec(st: PortState, outcome: AcceptOutcome): (r: PortState)
  {
    match outcome
    case Connected(ip, banAccepts) =>
      if st.services == [] then st
      else
        var front := st.services[0];
        var decision :=
          if ip != 0 && banAccepts then
            (if front.singleSocket then HandedToProtocol(front) else AcceptedInternal)
          else ForceClosed;
        AcceptSpec(st.(events := st.events + [decision]))
    case OperationAborted => st
    case AcceptFailed =>
      if st.pendingStart then st
      else
        var closed := CloseSpec(st);
        closed.(pendingStart := true, events := closed.events + [ReopenScheduled(RETRY_DELAY_MS, st.serverPort)])
  }

  /** A connection is served only when its address is non-zero and the ban list accepts it, and
      then by the front service when that is single-socket; after any served or refused
      connection the next accept is armed. A port without services drops the event. */
  lemma OnAcceptConnected(st: PortState, ip: uint32, banAccepts: bool)
    ensures var r := OnAcceptSpec(st, Connected(ip, banAccepts));
      (st.services == [] ==> r == st) &&
      (st.services != [] ==>
         r.(events := st.events) == st &&
         |r.events| == |st.events| + 1 + (if st.acceptor.Some? then 1 else 0) &&
         (r.events[|st.events|] == ForceClosed <==> ip == 0 || !banAccepts) &&
         (r.events[|st.events|] == HandedToProtocol(st.services[0]) <==>
            ip != 0 && banAccepts && IsSingleSocket(st.services)) &&
         (st.acceptor.Some? ==> r.events[|st.events| + 1] == AcceptArmed))
  {
  }

  /** However many accepts fail, at most one reopen is outstanding: a failure schedules one only
      when none is pending, and then marks it pending. An aborted accept changes nothing. */
  lemma {:induction false} FailuresScheduleOneReopen(st: PortState, failures: nat)
    decreases failures
    ensures var r := RepeatFailures(st, failures);
      r.services == st.services && r.serverPort == st.serverPort &&
      (failures == 0 ==> r == st) &&
      (failures > 0 ==> r.pendingStart) &&
      (st.pendingStart ==> r == st) &&
      (!st.pendingStart && failures > 0 ==> r.events == st.events + [ReopenScheduled(RETRY_DELAY_MS, st.serverPort)])
    ensures OnAcceptSpec(st, OperationAborted) == st
  {
    if failures > 0 {
      FailuresScheduleOneReopen(OnAcceptSpec(st, AcceptFailed), failures - 1);
    }
  }

  /** `failures` failed accepts in a row. */
  function RepeatFailures(st: PortState, failures: nat): PortState
    decreases failures
  {
    if failures == 0 then st else RepeatFailures(OnAcceptSpec(st, AcceptFailed), failures - 1)
  }

  // ---------------------------------------------------------------- the port object

  class ServicePort {
    var services: seq<Service>
    var serverPort: uint16
    var pendingStart: bool
    var acceptor: Option<Acceptor>
    var events: seq<Event>

    ghost predicate Valid()
      reads this
    {
      SingleSocketLast(services)
    }

    function State(): PortState
      reads this
    {
      PortState(services, serverPort, pendingStart, acceptor, events)
    }

    constructor ()
      ensures Valid()
      ensures State() == PortState([], 0, false, None, [])
    {
      services := [];
      serverPort := 0;
      pendingStart := false;
      acceptor := None;
      events := [];
    }

    method AddService(svc: Service) returns (added: bool)
      requires Valid()
      modifies this
      ensures Valid()
      ensures (added, services) == AddServiceSpec(old(services), svc)
      ensures State() == old(State()).(services := services)
    {
      if HasSingleSocket(services) {
        return false;
      }
      AddServiceKeepsSingleSocketLast(services, svc);
      services := services + [svc];
      return true;
    }

    predicate IsSingleSocketPort()
      reads this
    {
      IsSingleSocket(services)
    }

    /** get_protocol_names (server.cpp:79-91). */
    method GetProtocolNames() returns (str: string)
      ensures str == JoinNames(services)
    {
      if services == [] {
        return [];
      }
      str := services[0].name;
      var i := 1;
      while i < |services|
        invariant 1 <= i <= |services|
        invariant str == JoinNames(services[..i])
      {
        JoinNamesSnoc(services[..i], services[i]);
        assert services[..i + 1] == services[..i] + [services[i]];
        str := str + ", " + services[i].name;
        i := i + 1;
      }
      assert services[..i] == services;
    }

    /** make_protocol (server.cpp:132-144): consumes the identifier byte, then returns the
        first compatible service, or None for the null protocol. */
    method MakeProtocol(checksummed: bool, msg: Network.NetworkMessage) returns (chosen: Option<Service>)
      requires msg.Valid()
      modifies msg
      ensures msg.Valid()
      ensures var (id, after) := Network.GetByteSpec(old(msg.State()));
        msg.State() == after &&
        chosen == (match FirstCompatible(services, id, checksummed)
                   case None => None
                   case Some(k) => Some(services[k]))
    {
      var id := msg.GetByte();
      var i := 0;
      while i < |services|
        invariant 0 <= i <= |services|
        invariant forall j :: 0 <= j < i ==> !Compatible(services[j], id, checksummed)
      {
        var svc := services[i];
        if id != svc.identifier {
          i := i + 1;
          continue;
        }
        if (checksummed && svc.checksummed) || !svc.checksummed {
          assert FirstCompatible(services, id, checksummed) == Some(i);
          return Some(svc);
        }
        i := i + 1;
      }
      return None;
    }

    method Close()
      modifies this
      ensures State() == CloseSpec(old(State()))
    {
      if acceptor.Some? && acceptor.value.isOpen {
        acceptor := Some(acceptor.value.(isOpen := false));
      }
    }

    /** onStopServer: closes the acceptor. */
    method OnStopServer()
      modifies this
      ensures State() == CloseSpec(old(State()))
    {
      Close();
    }

    method Accept()
      modifies this
      ensures State() == AcceptSpec(old(State()))
    {
      if acceptor.None? {
        return;
      }
      events := events + [AcceptArmed];
    }

    method OnAccept(outcome: AcceptOutcome)
      modifies this
      ensures State() == OnAcceptSpec(old(State()), outcome)
    {
      match outcome {
        case Connected(ip, banAccepts) =>
          if services == [] {
            return;
          }
          var front := services[0];
          if ip != 0 && banAccepts {
            if front.singleSocket {
              events := events + [HandedToProtocol(front)];
            } else {
              events := events + [AcceptedInternal];
            }
          } else {
            events := events + [ForceClosed];
          }
          Accept();
        case OperationAborted =>
        case AcceptFailed =>
          if !pendingStart {
            Close();
            pendingStart := true;
            events := events + [ReopenScheduled(RETRY_DELAY_MS, serverPort)];
          }
      }
    }

    method Open(port: uint16, inputs: OpenInputs)
      modifies this
      ensures State() == OpenSpec(old(State()), port, inputs)
    {
      Close();
      serverPort := port;
      pendingStart := false;
      var address := ChooseAddress(inputs);
      if address.None? || !inputs.bindSucceeds {
        pendingStart := true;
        events := events + [ReopenScheduled(RETRY_DELAY_MS, port)];
        return;
      }
      acceptor := Some(Acceptor(BindEndpoint(address.value, serverPort, inputs.bindOnlyGlobal), true));
      Accept();
    }
  }

  // ---------------------------------------------------------------- the manager

  datatype ManagerState = ManagerState(running: bool, acceptors: set<uint16>, stopsPosted: set<uint16>, dieScheduled: bool)

  /** run (server.cpp:37-46): refused while running; otherwise the manager starts running. */
  function RunSpec(st: ManagerState): (r: (bool, ManagerState))
    ensures r.0 <==> !st.running
    ensures r.1.running
    ensures r.1.(running := st.running) == st
  {
    if st.running then (false, st) else (true, st.(running := true))
  }

  /** stop (server.cpp:48-69): no-op when stopped; otherwise every acceptor is told to stop,
      the acceptors are dropped and the shutdown timer is armed. */
  function StopSpec(st: ManagerState): (r: ManagerState)
    ensures !st.running ==> r == st
    ensures st.running ==> (!r.running && r.acceptors == {} &&
      r.stopsPosted == st.stopsPosted + st.acceptors && r.dieScheduled)
  {
    if !st.running then st
    else ManagerState(false, {}, st.stopsPosted + st.acceptors, true)
  }

  /** Stopping twice is stopping once, and a stopped manager can run again. */
  lemma StopIdempotent(st: ManagerState)
    ensures StopSpec(StopSpec(st)) == StopSpec(st)
    ensures RunSpec(StopSpec(st)).0
  {
  }

  class ServiceManager {
    var running: bool
    /** The ports of the registered acceptors (ServiceManager::add is not part of this model). */
    var acceptors: set<uint16>
    var stopsPosted: set<uint16>
    var dieScheduled: bool

    function State(): ManagerState
      reads this
    {
      ManagerState(running, acceptors, stopsPosted, dieScheduled)
    }

    constructor (ports: set<uint16>)
      ensures State() == ManagerState(false, ports, {}, false)
    {
      running := false;
      acceptors := ports;
      stopsPosted := {};
      dieScheduled := false;
    }

    method Run() returns (started: bool)
      modifies this
      ensures (started, State()) == RunSpec(old(State()))
    {
      if running {
        return false;
      }
      running := true;
      return true;
    }

    method Stop()
      modifies this
      ensures State() == StopSpec(old(State()))
    {
      if !running {
        return;
      }
      running := false;
      stopsPosted := stopsPosted + acceptors;
      acceptors := {};
      dieScheduled := true;
    }
  }
}
