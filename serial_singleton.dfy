/**
 * The per-port singleton registry of `SerialSingleton`: the process-wide
 * table `_instances`, construction (`__new__` followed by `__init__`), the
 * `port` setter and the finalizer `__del__`. A request's owner is the name
 * of the requesting class (`cls.__name__`), kept as a string tag.
 */
module SerialSingleton {
  import opened Wrappers
  import opened PortDiscovery

  /** The exceptions the registry raises. */
  datatype RegistryError =
    | PortInUse(port: Option<string>, holder: string)   // port held by an instance of another class
    | PortAlreadyBound                                  // port setter after initialization
    | OpenFailed(device: string)                        // the transport could not open the port

  /**
   * `__new__` step 1: an absent port is looked up by serial number; the
   * looked-up name is used only when it is truthy (`... or port`).
   */
  function ResolveKey(port: Option<string>, serialNumber: Option<string>, ports: seq<PortInfo>): (key: Option<string>)
    ensures port.Some? ==> key == port
    ensures port.None? && serialNumber.None? ==> key == None
    ensures port.None? && serialNumber.Some? ==>
              (key.Some? <==> exists i :: 0 <= i < |ports| && ports[i].serialNumber == serialNumber && ports[i].name != "" &&
                                forall j :: 0 <= j < i ==> ports[j].serialNumber != serialNumber)
    ensures key.Some? && port.None? ==>
              exists i :: 0 <= i < |ports| && ports[i].serialNumber == serialNumber && ports[i].name == key.value &&
                forall j :: 0 <= j < i ==> ports[j].serialNumber != serialNumber
  {
    if port.None? && serialNumber.Some? then
      match PortFromSerialNumber(ports, serialNumber.value)
      case Some(name) => if name != "" then Some(name) else None
      case None => None
    else port
  }

  /** A serial connection handle: one instance of a `SerialSingleton` subclass. */
  class Handle {
    /** `type(self).__name__`. */
    const owner: string
    var port: Option<string>
    var initialized: bool
    var isOpen: bool
    /** Discovery record captured by `__init__`, for diagnostics. */
    var portInfo: Option<PortInfo>

    /** `object.__new__(cls)`: a bare instance, not yet initialized. */
    constructor (owner: string)
      ensures this.owner == owner
      ensures port == None && !initialized && !isOpen && portInfo == None
    {
      this.owner := owner;
      port := None;
      initialized := false;
      isOpen := false;
      portInfo := None;
    }

    /**
     * `__init__`: nothing happens on an initialized handle. Otherwise the
     * transport is reset (closed), the port is bound to the argument, the
     * connection is opened when there is a port and `connect` holds, the
     * matching discovery record is captured and the handle is marked
     * initialized. `openSucceeds` is the outcome of the transport's open;
     * when it fails the handle stays uninitialized.
     */
    method Initialize(port: Option<string>, connect: bool, ports: seq<PortInfo>, openSucceeds: bool)
      returns (r: Outcome<RegistryError>)
      modifies this
      ensures old(initialized) ==> r == Pass && unchanged(this)
      ensures !old(initialized) ==> this.port == port
      ensures !old(initialized) ==>
                var opening := port.Some? && connect;
                && (r == if opening && !openSucceeds then Fail(OpenFailed(port.value)) else Pass)
                && initialized == r.Pass?
                && isOpen == (opening && openSucceeds)
                && portInfo == if r.Pass? then PortInfoOf(ports, port) else old(portInfo)
    {
      if initialized {
        return Pass;
      }
      isOpen := false;
      this.port := port;
      if port.Some? && connect {
        if !openSucceeds {
          return Fail(OpenFailed(port.value));
        }
        isOpen := true;
      }
      portInfo := PortInfoOf(ports, this.port);
      initialized := true;
      r := Pass;
    }

    /** The `port` setter: refused once initialized; None leaves the port as it is. */
    method SetPort(newPort: Option<string>) returns (r: Outcome<RegistryError>)
      modifies this`port
      ensures old(initialized) ==> r == Fail(PortAlreadyBound) && port == old(port)
      ensures !old(initialized) ==> r == Pass && port == if newPort.Some? then newPort else old(port)
    {
      if initialized {
        return Fail(PortAlreadyBound);
      }
      if newPort.Some? {
        port := newPort;
      }
      r := Pass;
    }
  }

  /** The class-level table `_instances`. */
  class Registry {
    var instances: map<Option<string>, Handle>

    /** Distinct keys hold distinct handles. */
    ghost predicate Valid()
      reads this
    {
      forall k1, k2 :: k1 in instances && k2 in instances && k1 != k2 ==> instances[k1] != instances[k2]
    }

    constructor ()
      ensures Valid() && instances == map[]
    {
      instances := map[];
    }

    /**
     * `Owner(port, serialNumber)` or `Owner(port, connect=connect)`:
     * `__new__` finds or inserts the handle under the resolved key, then
     * `__init__` runs on it with the caller's own `port` argument. The second
     * positional argument is `serial_number` to `__new__` but `connect` to
     * `__init__`, so a call that passes a serial number never has
     * `connect is True`.
     */
    method ConstructOrFetch(owner: string, port: Option<string>, serialNumber: Option<string>, connect: bool,
                            ports: seq<PortInfo>, openSucceeds: bool)
      returns (r: Result<Handle, RegistryError>)
      requires Valid()
      requires serialNumber.Some? ==> !connect
      modifies this, instances.Values
      ensures Valid()
      // a handle of another class holds the key: refused, nothing changes
      ensures var key := ResolveKey(port, serialNumber, ports);
              key in old(instances) && old(instances[key]).owner != owner ==>
                && r == Failure(PortInUse(key, old(instances[key]).owner))
                && instances == old(instances)
                && unchanged(old(instances).Values)
      // an initialized handle of the same class holds the key: that very handle, nothing changes
      ensures var key := ResolveKey(port, serialNumber, ports);
              key in old(instances) && old(instances[key]).owner == owner && old(instances[key].initialized) ==>
                && r == Success(old(instances[key]))
                && instances == old(instances)
                && unchanged(old(instances).Values)
      // a handle of the same class whose earlier initialization failed: initialized again in place
      ensures var key := ResolveKey(port, serialNumber, ports);
              key in old(instances) && old(instances[key]).owner == owner && !old(instances[key].initialized) ==>
                var h := old(instances[key]);
                && instances == old(instances)
                && h.port == port
                && r == (if port.Some? && connect && !openSucceeds then Failure(OpenFailed(port.value)) else Success(h))
                && h.initialized == r.Success?
                && h.isOpen == (port.Some? && connect && openSucceeds)
                && forall k :: k in old(instances) && k != key ==> unchanged(old(instances)[k])
      // the key is free: exactly one new, distinct handle is inserted under it
      ensures var key := ResolveKey(port, serialNumber, ports);
              key !in old(instances) ==>
                && key in instances
                && var h := instances[key];
                && fresh(h)
                && instances == old(instances)[key := h]
                && (forall k :: k in old(instances) ==> old(instances)[k] != h)
                && h.owner == owner && h.port == port
                && r == (if port.Some? && connect && !openSucceeds then Failure(OpenFailed(port.value)) else Success(h))
                && h.initialized == r.Success?
                && h.isOpen == (port.Some? && connect && openSucceeds)
                && unchanged(old(instances).Values)
    {
      var key := ResolveKey(port, serialNumber, ports);
      var h: Handle;
      if key in instances {
        h := instances[key];
        if h.owner != owner {
          return Failure(PortInUse(key, h.owner));
        }
      } else {
        h := new Handle(owner);
        instances := instances[key := h];
      }
      var outcome := h.Initialize(port, connect, ports, openSucceeds);
      r := if outcome.Pass? then Success(h) else Failure(outcome.error);
    }

    /**
     * `__del__`: close the connection and drop the table entry under the
     * handle's current port, whichever handle that entry holds.
     */
    method Finalize(h: Handle)
      requires Valid()
      modifies this, h`isOpen
      ensures Valid()
      ensures !h.isOpen
      ensures instances == old(instances) - {h.port}
    {
      h.isOpen := false;
      if h.port in instances {
        instances := instances - {h.port};
      }
    }
  }

  /**
   * The scenario of the unit tests, derived from the contracts above alone:
   * an unconnected handle is closed, a repeated request returns the same
   * handle, another port gets another handle, another class is refused the
   * port, and an initialized handle's port cannot be changed.
   */
  method SingletonScenario() returns (unconnectedClosed: bool, same: bool, distinct: bool, refused: bool, locked: bool)
    ensures unconnectedClosed && same && distinct && refused && locked
  {
    var registry := new Registry();
    var r0 := registry.ConstructOrFetch("Child1", Some("FakePort"), None, false, [], true);
    unconnectedClosed := r0.Success? && !r0.value.isOpen;
    var r1 := registry.ConstructOrFetch("Child1", Some("FakePort1"), None, false, [], true);
    var r2 := registry.ConstructOrFetch("Child1", Some("FakePort1"), None, false, [], true);
    var r3 := registry.ConstructOrFetch("Child1", Some("FakePort2"), None, false, [], true);
    same := r1.Success? && r2.Success? && r1.value == r2.value;
    distinct := r1.Success? && r3.Success? && r1.value != r3.value;
    refused, locked := false, false;
    if r1.Success? && r3.Success? {
      var r4 := registry.ConstructOrFetch("Child2", r1.value.port, None, true, [], true);
      refused := r4.Failure? && r4.error.PortInUse?;
      var r5 := r3.value.SetPort(Some("FakePort3"));
      locked := r5 == Fail(PortAlreadyBound) && r3.value.port == Some("FakePort2");
    }
  }

  /**
   * A handle requested by serial number alone is stored under the matching
   * record's name, but `__init__` binds it to the caller's port argument
   * (None), so it is not opened and its finalizer drops the None entry
   * instead of its own.
   */
  method SerialNumberScenario() returns (keyedByName: bool, boundToNone: bool, entryKept: bool)
    ensures keyedByName && boundToNone && entryKept
  {
    var registry := new Registry();
    var ports := [PortInfo("/dev/ttyUSB0", "ttyUSB0", Some("SN1"), map[])];
    var r := registry.ConstructOrFetch("Child1", None, Some("SN1"), false, ports, true);
    keyedByName := r.Success? && Some("ttyUSB0") in registry.instances && registry.instances[Some("ttyUSB0")] == r.value;
    boundToNone := r.Success? && r.value.port == None && !r.value.isOpen;
    entryKept := false;
    if r.Success? {
      registry.Finalize(r.value);
      entryKept := Some("ttyUSB0") in registry.instances;
    }
  }
}
