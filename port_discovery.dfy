/**
 * The functions over pyserial's port list: `filter_ports`,
 * `get_port_from_serial_number` and `get_serial_number_from_port`.
 * The list that `list_ports.comports()` would produce is a parameter.
 */
module PortDiscovery {
  import opened Wrappers

  /** An attribute value of a port record: a str, an int, or None. */
  datatype Value = Str(s: string) | Num(n: int) | Null

  /**
   * A record of the port list. `device`, `name` and `serial_number` are
   * always present; any other attribute the record has is in `attributes`.
   */
  datatype PortInfo = PortInfo(
    device: string,
    name: string,
    serialNumber: Option<string>,
    attributes: map<string, Value>)

  /** `getattr(port, key)` when `hasattr(port, key)`, otherwise None. */
  function Attr(p: PortInfo, key: string): Option<Value>
  {
    if key == "device" then Some(Str(p.device))
    else if key == "name" then Some(Str(p.name))
    else if key == "serial_number" then Some(if p.serialNumber.Some? then Str(p.serialNumber.value) else Null)
    else if key in p.attributes then Some(p.attributes[key])
    else None
  }

  // ---------------------------------------------------------------------
  // First-match lookups
  // ---------------------------------------------------------------------

  /** `next((x for x in s if pred(x)), None)`, as the index of the match. */
  function FirstWhere<T>(s: seq<T>, pred: T -> bool): (r: Option<nat>)
    ensures r.Some? ==> r.value < |s| && pred(s[r.value])
    ensures r.Some? ==> forall j :: 0 <= j < r.value ==> !pred(s[j])
    ensures r.None? ==> forall j :: 0 <= j < |s| ==> !pred(s[j])
  {
    if s == [] then None
    else if pred(s[0]) then Some(0)
    else match FirstWhere(s[1..], pred)
      case None => None
      case Some(i) => Some(i + 1)
  }

  /** `get_port_from_serial_number`: the `name` of the first record carrying serial number `sn`. */
  function PortFromSerialNumber(ports: seq<PortInfo>, sn: string): (r: Option<string>)
    ensures r.None? <==> forall i :: 0 <= i < |ports| ==> ports[i].serialNumber != Some(sn)
    ensures r.Some? ==> exists i :: 0 <= i < |ports| && ports[i].serialNumber == Some(sn) && ports[i].name == r.value &&
                           forall j :: 0 <= j < i ==> ports[j].serialNumber != Some(sn)
  {
    match FirstWhere(ports, (p: PortInfo) => p.serialNumber == Some(sn))
    case None => None
    case Some(i) => Some(ports[i].name)
  }

  /** `get_serial_number_from_port`: the serial number of the first record whose `name` is `port`. */
  function SerialNumberFromPort(ports: seq<PortInfo>, port: Option<string>): (r: Option<string>)
    ensures (forall i :: 0 <= i < |ports| ==> Some(ports[i].name) != port) ==> r.None?
    ensures r.Some? ==> exists i :: 0 <= i < |ports| && Some(ports[i].name) == port && ports[i].serialNumber == r &&
                           forall j :: 0 <= j < i ==> Some(ports[j].name) != port
    ensures forall i :: (0 <= i < |ports| && Some(ports[i].name) == port &&
                         forall j :: 0 <= j < i ==> Some(ports[j].name) != port) ==> r == ports[i].serialNumber
  {
    match FirstWhere(ports, (p: PortInfo) => Some(p.name) == port)
    case None => None
    case Some(i) => ports[i].serialNumber
  }

  /** The record whose `device` is `port`, as `__init__` captures it in `port_info`. */
  function PortInfoOf(ports: seq<PortInfo>, port: Option<string>): (r: Option<PortInfo>)
    ensures r.None? <==> forall i :: 0 <= i < |ports| ==> Some(ports[i].device) != port
    ensures r.Some? ==> exists i :: 0 <= i < |ports| && ports[i] == r.value && Some(ports[i].device) == port &&
                           forall j :: 0 <= j < i ==> Some(ports[j].device) != port
  {
    match FirstWhere(ports, (p: PortInfo) => Some(p.device) == port)
    case None => None
    case Some(i) => Some(ports[i])
  }

  // ---------------------------------------------------------------------
  // filter_ports
  // ---------------------------------------------------------------------

  /**
   * One keyword constraint of `filter_ports`: the attribute must exist and,
   * when both sides are strings, the expected value is a pattern searched for
   * in the actual one (`matches` stands for `re.search`); otherwise the two
   * must be equal.
   */
  predicate Satisfies(p: PortInfo, key: string, expected: Value, matches: (string, string) -> bool)
  {
    match Attr(p, key)
    case None => false
    case Some(actual) =>
      if actual.Str? && expected.Str? then matches(expected.s, actual.s) else actual == expected
  }

  /** A record is yielded when it satisfies every constraint. */
  predicate Accepts(p: PortInfo, constraints: seq<(string, Value)>, matches: (string, string) -> bool)
  {
    forall k :: 0 <= k < |constraints| ==> Satisfies(p, constraints[k].0, constraints[k].1, matches)
  }

  /** The devices of the accepted records, in input order. */
  function Filtered(ports: seq<PortInfo>, constraints: seq<(string, Value)>, matches: (string, string) -> bool): seq<string>
  {
    if ports == [] then []
    else (if Accepts(ports[0], constraints, matches) then [ports[0].device] else []) + Filtered(ports[1..], constraints, matches)
  }

  /** Filtering distributes over concatenation of port lists (it keeps input order). */
  lemma {:induction false} FilteredAppend(a: seq<PortInfo>, b: seq<PortInfo>, constraints: seq<(string, Value)>, matches: (string, string) -> bool)
    ensures Filtered(a + b, constraints, matches) == Filtered(a, constraints, matches) + Filtered(b, constraints, matches)
  {
    if a == [] {
      assert a + b == b;
    } else {
      assert (a + b)[0] == a[0];
      assert (a + b)[1..] == a[1..] + b;
      FilteredAppend(a[1..], b, constraints, matches);
    }
  }

  /** A device is yielded exactly when some record with that device is accepted. */
  lemma {:induction false} FilteredMembership(ports: seq<PortInfo>, constraints: seq<(string, Value)>, matches: (string, string) -> bool, d: string)
    ensures d in Filtered(ports, constraints, matches) <==>
              exists i :: 0 <= i < |ports| && ports[i].device == d && Accepts(ports[i], constraints, matches)
  {
    if ports != [] {
      FilteredMembership(ports[1..], constraints, matches, d);
      if exists i :: 1 <= i < |ports| && ports[i].device == d && Accepts(ports[i], constraints, matches) {
        var i :| 1 <= i < |ports| && ports[i].device == d && Accepts(ports[i], constraints, matches);
        assert ports[1..][i - 1] == ports[i];
      }
      if exists i :: 0 <= i < |ports| - 1 && ports[1..][i].device == d && Accepts(ports[1..][i], constraints, matches) {
        var i :| 0 <= i < |ports| - 1 && ports[1..][i].device == d && Accepts(ports[1..][i], constraints, matches);
        assert ports[i + 1] == ports[1..][i];
      }
    }
  }

  /** With no constraints every record is yielded. */
  lemma {:induction false} FilteredUnconstrained(ports: seq<PortInfo>, matches: (string, string) -> bool)
    ensures |Filtered(ports, [], matches)| == |ports|
    ensures forall i :: 0 <= i < |ports| ==> Filtered(ports, [], matches)[i] == ports[i].device
  {
    if ports != [] {
      FilteredUnconstrained(ports[1..], matches);
      assert Filtered(ports, [], matches) == [ports[0].device] + Filtered(ports[1..], [], matches);
      assert forall i :: 1 <= i < |ports| ==> ports[i] == ports[1..][i - 1];
    }
  }

  /** A record lacking a constrained attribute is never yielded (the `pass` branch falls through to the exclusion). */
  lemma MissingAttributeExcludes(p: PortInfo, constraints: seq<(string, Value)>, matches: (string, string) -> bool, k: nat)
    requires k < |constraints| && Attr(p, constraints[k].0).None?
    ensures Filtered([p], constraints, matches) == []
  {
    assert !Satisfies(p, constraints[k].0, constraints[k].1, matches);
  }

  /** A string attribute the pattern does not match excludes the record even when the two strings are equal. */
  lemma FailedSearchExcludes(p: PortInfo, constraints: seq<(string, Value)>, matches: (string, string) -> bool, k: nat)
    requires k < |constraints| && constraints[k].1.Str? && Attr(p, constraints[k].0) == Some(Str(constraints[k].1.s))
    requires !matches(constraints[k].1.s, constraints[k].1.s)
    ensures Filtered([p], constraints, matches) == []
  {
    assert !Satisfies(p, constraints[k].0, constraints[k].1, matches);
  }

  /**
   * `filter_ports(**constraints)`: for each record, scan the constraints,
   * clearing `yieldPort` and leaving the scan at the first one that fails.
   */
  method FilterPorts(ports: seq<PortInfo>, constraints: seq<(string, Value)>, matches: (string, string) -> bool)
    returns (devices: seq<string>)
    ensures devices == Filtered(ports, constraints, matches)
    ensures forall d :: d in devices <==>
              exists i :: 0 <= i < |ports| && ports[i].device == d && Accepts(ports[i], constraints, matches)
  {
    devices := [];
    for i := 0 to |ports|
      invariant devices == Filtered(ports[..i], constraints, matches)
    {
      var port := ports[i];
      var yieldPort := true;
      var k := 0;
      while k < |constraints|
        invariant 0 <= k <= |constraints|
        invariant yieldPort ==> forall j :: 0 <= j < k ==> Satisfies(port, constraints[j].0, constraints[j].1, matches)
        invariant !yieldPort ==> !Accepts(port, constraints, matches)
      {
        var (key, expected) := constraints[k];
        var attr := Attr(port, key);
        if attr.None? {
          // the attribute is missing: fall through to the exclusion
        } else if attr.value.Str? && expected.Str? {
          if matches(expected.s, attr.value.s) {
            k := k + 1;
            continue;
          }
        } else if attr.value == expected {
          k := k + 1;
          continue;
        }
        yieldPort := false;
        break;
      }
      FilteredAppend(ports[..i], [port], constraints, matches);
      assert ports[..i + 1] == ports[..i] + [port];
      if yieldPort {
        devices := devices + [port.device];
      }
    }
    assert ports[..|ports|] == ports;
    forall d ensures d in devices <==> exists i :: 0 <= i < |ports| && ports[i].device == d && Accepts(ports[i], constraints, matches) {
      FilteredMembership(ports, constraints, matches, d);
    }
  }
}
