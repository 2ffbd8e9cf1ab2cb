/** use-systemd1/get_service_status.cpp: decide whether a service is running
    from the unit records systemd's ListUnitsByNames returns. The bus round
    trip is an input: either the error the call raised, or the records read
    from its reply. The records are scanned in order and the first one whose
    ActiveState is "active", "inactive" or "failed" decides. */
module ServiceStatus {
  import opened IntTypes

  const SYSTEMD_SERVICE: string := "org.freedesktop.systemd1"
  const SYSTEMD_PATH: string := "/org/freedesktop/systemd1"
  const SYSTEMD_MANAGER: string := "org.freedesktop.systemd1.Manager"
  const LIST_UNITS_BY_NAMES: string := "ListUnitsByNames"

  /** One record of the reply, field by field in the order of the source's
      UnitStructFields enumeration. */
  datatype UnitStruct = UnitStruct(
    name: string,
    description: string,
    loadState: string,
    activeState: string,
    subState: string,
    device: string,
    objPath: string,
    always0: UInt32,
    alwaysEmpty: string,
    alwaysRootPath: string)

  /** The method call sent to systemd. Its one argument is an array of
      strings (D-Bus type `as`), the names of the units asked about. */
  datatype MethodCall = MethodCall(service: string, path: string, iface: string, member: string,
                                   names: seq<string>)

  /** The outcome of the bus call and of reading its reply: the error either
      of them raised, or the unit records the reply carried. */
  datatype BusReply = CallFailed(message: string) | Units(units: seq<UnitStruct>)

  /** The request for `serviceNames`: systemd's manager object, the
      ListUnitsByNames method, and the array of names as its one argument. */
  function ListUnitsRequest(serviceNames: seq<string>): (m: MethodCall)
    ensures m.names == serviceNames
    ensures m.service == SYSTEMD_SERVICE && m.path == SYSTEMD_PATH
    ensures m.iface == SYSTEMD_MANAGER && m.member == LIST_UNITS_BY_NAMES
  {
    MethodCall(SYSTEMD_SERVICE, SYSTEMD_PATH, SYSTEMD_MANAGER, LIST_UNITS_BY_NAMES, serviceNames)
  }

  /** An ActiveState that ends the scan. */
  predicate Decisive(state: string)
  {
    state == "active" || state == "inactive" || state == "failed"
  }

  /** The verdict of the scan over `units`, as a recursive definition: the
      first decisive record decides, any other record is skipped, and no
      decisive record at all means "not running". */
  function UnitsActive(units: seq<UnitStruct>): bool
  {
    if units == [] then false
    else if units[0].activeState == "active" then true
    else if units[0].activeState == "inactive" || units[0].activeState == "failed" then false
    else UnitsActive(units[1..])
  }

  /** `i` is the position of the first decisive record. */
  predicate FirstDecisive(units: seq<UnitStruct>, i: int)
  {
    0 <= i < |units| && Decisive(units[i].activeState) &&
    forall j :: 0 <= j < i ==> !Decisive(units[j].activeState)
  }

  /** The scan answers true exactly when there is a first decisive record and
      its ActiveState is "active". */
  lemma {:induction false} UnitsActiveIff(units: seq<UnitStruct>)
    ensures UnitsActive(units) <==>
            exists i :: FirstDecisive(units, i) && units[i].activeState == "active"
    decreases |units|
  {
    if units != [] {
      if Decisive(units[0].activeState) {
        assert FirstDecisive(units, 0);
      } else {
        var tail := units[1..];
        UnitsActiveIff(tail);
        if UnitsActive(units) {
          var k :| FirstDecisive(tail, k) && tail[k].activeState == "active";
          assert FirstDecisive(units, k + 1) && units[k + 1].activeState == "active";
        } else {
          forall i | FirstDecisive(units, i) ensures units[i].activeState != "active" {
            assert i > 0;
            assert FirstDecisive(tail, i - 1);
          }
        }
      }
    }
  }

  /** With no decisive record, in particular with no record at all, the
      verdict is false. */
  lemma {:induction false} NoDecisiveMeansInactive(units: seq<UnitStruct>)
    requires forall i :: 0 <= i < |units| ==> !Decisive(units[i].activeState)
    ensures !UnitsActive(units)
    decreases |units|
  {
    if units != [] {
      NoDecisiveMeansInactive(units[1..]);
    }
  }

  function ActiveStates(units: seq<UnitStruct>): (states: seq<string>)
    ensures |states| == |units|
    ensures forall i :: 0 <= i < |units| ==> states[i] == units[i].activeState
  {
    if units == [] then [] else [units[0].activeState] + ActiveStates(units[1..])
  }

  /** The verdict depends on the ActiveState fields alone: the name and the
      other fields only feed the console output. */
  lemma {:induction false} OnlyActiveStateMatters(u: seq<UnitStruct>, v: seq<UnitStruct>)
    requires ActiveStates(u) == ActiveStates(v)
    ensures UnitsActive(u) == UnitsActive(v)
    decreases |u|
  {
    if u != [] {
      assert u[0].activeState == ActiveStates(u)[0] == ActiveStates(v)[0] == v[0].activeState;
      assert ActiveStates(u[1..]) == ActiveStates(u)[1..];
      assert ActiveStates(v[1..]) == ActiveStates(v)[1..];
      OnlyActiveStateMatters(u[1..], v[1..]);
    }
  }

  /** `getServiceStatus`: false when the bus call failed, otherwise the
      verdict of the first decisive record, scanning in order and returning
      as soon as one is found. */
  method GetServiceStatus(reply: BusReply) returns (active: bool)
    ensures active == (reply.Units? && UnitsActive(reply.units))
  {
    if reply.CallFailed? {
      return false;
    }
    var units := reply.units;
    var i := 0;
    while i < |units|
      invariant 0 <= i <= |units|
      invariant UnitsActive(units[i..]) == UnitsActive(units)
    {
      assert units[i..][1..] == units[i + 1..];
      var activeState := units[i].activeState;
      if activeState == "active" {
        return true;
      } else if activeState == "inactive" {
        return false;
      } else if activeState == "failed" {
        return false;
      }
      i := i + 1;
    }
    return false;
  }
}
