/** The application logic of asio-example/my_asio_server.cpp: the method
    handlers registered on xyz.openbmc_project.test at
    /xyz/openbmc_project/test, and the custom setters of the properties
    lessThan50 and TrailTime. The handlers are value computations; the setters
    write the stored property value through a reference, modelled as a Cell. */
module AsioServer {
  import opened IntTypes
  import Decimal

  /** Result of the TestFunction handler (`foo`): its argument plus one.
      `++test` on INT_MAX is signed overflow, so the argument must be below it. */
  function Foo(test: Int32): (r: Int32)
    requires test < MAX_INT32
    ensures r == test + 1
  {
    test + 1
  }

  /** Result of the TestMethodWithMessage handler; the message is unused and
      the reply is the one TestFunction gives. */
  function MethodWithMessage(test: Int32): (r: Int32)
    requires test < MAX_INT32
    ensures r == Foo(test)
  {
    test + 1
  }

  /** Result of the VoidFunctionReturnsInt handler. */
  function VoidBar(): (r: Int32)
    ensures r == 42
  {
    42
  }

  /** What the nested TestFunction call hands back to `fooYield`: whether the
      error code was set, and the integer read from the reply. */
  datatype NestedCall = NestedCall(failed: bool, value: Int32)

  /** Result of the TestYieldFunction handler (`fooYield`) once its nested
      call to TestFunction has completed with `nested`. It is either the
      failure value -1 or exactly what TestFunction answers for `test`; it
      is the latter whenever the nested call succeeded with that answer.
      A failed nested call short-circuits the check, so `test + 1` is only
      evaluated, and `test` must only be below INT_MAX, when it succeeded. */
  function FooYield(test: Int32, nested: NestedCall): (r: Int32)
    requires nested.failed || test < MAX_INT32
    ensures test < MAX_INT32 ==> r == -1 || r == Foo(test)
    ensures test < MAX_INT32 && nested == NestedCall(false, Foo(test)) ==> r == Foo(test)
    ensures nested.failed ==> r == -1
  {
    if nested.failed || nested.value != test + 1 then -1 else nested.value
  }

  /** Every answer other than foo's own is reported as the failure value. */
  lemma FooYieldRejectsWrongValue(test: Int32, nested: NestedCall)
    requires test < MAX_INT32
    requires nested.value != Foo(test)
    ensures FooYield(test, nested) == -1
  {
  }

  /** The values a property of type `variant<int, string>` may hold. */
  datatype Variant = IntValue(i: Int32) | StringValue(s: string)

  /** The reply tuple of the `execute` handler (`ipmiInterface`). */
  datatype IpmiReply = IpmiReply(netFn: UInt8, lun: UInt8, cmd: UInt8, cc: UInt8, data: seq<UInt8>)

  /** Result of the `execute` handler: the request's netFn plus one, wrapping
      from 255 to 0 as `uint8_t` does, the request's lun and cmd unchanged,
      completion code 0 and the fixed payload 1, 2, 3, 4, whatever the
      request data and options. */
  function IpmiInterface(netFn: UInt8, lun: UInt8, cmd: UInt8, data: seq<UInt8>,
                         options: map<string, Variant>): (r: IpmiReply)
    ensures netFn < 255 ==> r.netFn == netFn + 1
    ensures netFn == 255 ==> r.netFn == 0
    ensures r.lun == lun && r.cmd == cmd
    ensures r.cc == 0 && r.data == [1, 2, 3, 4]
  {
    IpmiReply((netFn + 1) % 0x100, lun, cmd, 0, [1, 2, 3, 4])
  }

  const SUCCESS_PREFIX: string := "success: "

  /** Result of the TestMethod handler: the call count, and "success: "
      followed by the call count in decimal, which reads back as the count. */
  function TestMethod(callCount: Int32): (r: (Int32, string))
    ensures r.0 == callCount
    ensures r.1 == SUCCESS_PREFIX + Decimal.IntToString(callCount)
    ensures |r.1| > |SUCCESS_PREFIX| && r.1[..|SUCCESS_PREFIX|] == SUCCESS_PREFIX
    ensures Decimal.IsDecimal(r.1[|SUCCESS_PREFIX|..])
    ensures Decimal.ParseInt(r.1[|SUCCESS_PREFIX|..]) == callCount
  {
    var text := SUCCESS_PREFIX + Decimal.IntToString(callCount);
    assert text[|SUCCESS_PREFIX|..] == Decimal.IntToString(callCount);
    Decimal.IntToStringRoundTrip(callCount);
    (callCount, text)
  }

  /** Distinct call counts give distinct TestMethod texts. */
  lemma TestMethodTextInjective(m: Int32, n: Int32)
    requires TestMethod(m).1 == TestMethod(n).1
    ensures m == n
  {
    var p := |SUCCESS_PREFIX|;
    assert TestMethod(m).1[p..] == Decimal.IntToString(m);
    assert TestMethod(n).1[p..] == Decimal.IntToString(n);
    Decimal.IntToStringInjective(m, n);
  }

  /** The stored value of a property, which a custom setter receives by
      reference. */
  class Cell<T> {
    var value: T

    constructor (initial: T)
      ensures value == initial
    {
      value := initial;
    }
  }

  const LESS_THAN_50_INITIAL: Int32 := 23
  const TRAIL_TIME_INITIAL: string := "foo"

  /** The stored values of lessThan50 and TrailTime as registered: 23, which
      the lessThan50 policy would itself accept, and "foo". */
  method RegisterCustomProperties() returns (lessThan50: Cell<Int32>, trailTime: Cell<string>)
    ensures lessThan50.value == 23 && LessThan50Set(lessThan50.value, lessThan50.value).0
    ensures trailTime.value == "foo"
  {
    lessThan50 := new Cell(LESS_THAN_50_INITIAL);
    trailTime := new Cell(TRAIL_TIME_INITIAL);
  }

  /** The lessThan50 setter policy: the verdict and the value stored
      afterwards when `req` is written over `current`. */
  function LessThan50Set(req: Int32, current: Int32): (r: (bool, Int32))
    ensures r.0 <==> req < 50
    ensures r.0 ==> r.1 == req
    ensures !r.0 ==> r.1 == current
  {
    if req >= 50 then (false, current) else (true, req)
  }

  /** The value of lessThan50 after the requests `reqs`, in order. */
  function LessThan50After(initial: Int32, reqs: seq<Int32>): Int32
    decreases |reqs|
  {
    if reqs == [] then initial else LessThan50After(LessThan50Set(reqs[0], initial).1, reqs[1..])
  }

  /** Starting below 50, lessThan50 stays below 50 whatever is written. */
  lemma {:induction false} LessThan50StaysBelow(initial: Int32, reqs: seq<Int32>)
    requires initial < 50
    ensures LessThan50After(initial, reqs) < 50
    decreases |reqs|
  {
    if reqs != [] {
      LessThan50StaysBelow(LessThan50Set(reqs[0], initial).1, reqs[1..]);
    }
  }

  /** The registered initial value 23 is below 50, so the property holds a
      value below 50 after any sequence of writes. */
  lemma LessThan50AlwaysBelow(reqs: seq<Int32>)
    ensures LessThan50After(LESS_THAN_50_INITIAL, reqs) < 50
  {
    LessThan50StaysBelow(LESS_THAN_50_INITIAL, reqs);
  }

  /** After a sequence of writes lessThan50 holds the last request below 50,
      or the initial value when every request was rejected. */
  lemma {:induction false} LessThan50LastAccepted(initial: Int32, reqs: seq<Int32>)
    ensures (forall i :: 0 <= i < |reqs| ==> reqs[i] >= 50) ==>
              LessThan50After(initial, reqs) == initial
    ensures (exists i :: 0 <= i < |reqs| && reqs[i] < 50) ==>
              exists i :: 0 <= i < |reqs| && reqs[i] == LessThan50After(initial, reqs) && reqs[i] < 50 &&
                          forall j :: i < j < |reqs| ==> reqs[j] >= 50
    decreases |reqs|
  {
    if reqs != [] {
      var next := LessThan50Set(reqs[0], initial).1;
      var tail := reqs[1..];
      LessThan50LastAccepted(next, tail);
      var v := LessThan50After(initial, reqs);
      assert v == LessThan50After(next, tail);
      if exists i :: 0 <= i < |tail| && tail[i] < 50 {
        var i :| 0 <= i < |tail| && tail[i] == v && v < 50 &&
                 forall j :: i < j < |tail| ==> tail[j] >= 50;
        assert reqs[i + 1] == v;
        forall j | i + 1 < j < |reqs| ensures reqs[j] >= 50 {
          assert reqs[j] == tail[j - 1];
        }
      } else {
        assert forall j :: 1 <= j < |reqs| ==> reqs[j] == tail[j - 1];
        if reqs[0] < 50 {
          assert reqs[0] == v;
        }
      }
    }
  }

  /** The lessThan50 setter: rejects a request of 50 or more and leaves the
      stored value untouched, otherwise stores the request and accepts. */
  method LessThan50Setter(req: Int32, propertyValue: Cell<Int32>) returns (accepted: bool)
    modifies propertyValue
    ensures accepted <==> req < 50
    ensures propertyValue.value == if accepted then req else old(propertyValue.value)
    ensures (accepted, propertyValue.value) == LessThan50Set(req, old(propertyValue.value))
  {
    if req >= 50 {
      return false;
    }
    propertyValue.value := req;
    return true;
  }

  /** The TrailTime setter: stores the request verbatim and accepts. */
  method TrailTimeSetter(req: string, propertyValue: Cell<string>) returns (accepted: bool)
    modifies propertyValue
    ensures accepted && propertyValue.value == req
  {
    propertyValue.value := req;
    return true;
  }
}
