/** The calculator service of my-calculator/main.cpp: one object at
    /calculator whose interface xyz.openbmc_project.Calculator has a
    read-write property LastResult, a constant property Status, the methods
    Multiply, Divide and Clear, and a Cleared signal.

    Handle is the specification of one handler call on the service's state;
    the class CalculatorService is the service itself, whose handlers update
    `lastResult` in place and are proved against Handle. */
module Calculator {
  import opened IntTypes

  const STATUS_SUCCESS: string := "xyz.openbmc_project.Calculator.State.Success"
  const CLEARED: string := "Cleared"

  /** The errno value EDOM on Linux. */
  const EDOM: int := 33

  /** An error reply: an errno value and a description. */
  datatype BusError = BusError(errno: int, message: string)

  const DIVISION_BY_ZERO: BusError := BusError(EDOM, "DivisionByZero")

  datatype Result<T> = Ok(value: T) | Err(error: BusError)

  /** A one-way signal of the calculator interface: member name and arguments. */
  datatype Signal = Signal(member: string, args: seq<Int64>)

  /** An inbound property access or method call on the interface. */
  datatype Call =
    | SetLastResult(newVal: Int64)
    | GetLastResult
    | GetStatus
    | Multiply(x: Int64, y: Int64)
    | Divide(x: Int64, y: Int64)
    | Clear

  /** What the handler sends back: an int64, a string, the setter's verdict,
      an empty reply, or an error. */
  datatype Reply =
    | IntReply(value: Int64)
    | StringReply(text: string)
    | SetReply(accepted: bool)
    | EmptyReply
    | ErrorReply(error: BusError)

  /** The service's state: `lastResult_`, `status_` and the signals sent so far. */
  datatype CalcState = CalcState(lastResult: Int64, status: string, signals: seq<Signal>)

  datatype Outcome = Outcome(state: CalcState, reply: Reply)

  /** The reply a handler's result is sent back as. */
  function ToReply(r: Result<Int64>): Reply
  {
    match r
    case Ok(v) => IntReply(v)
    case Err(e) => ErrorReply(e)
  }

  /** The state right after construction. */
  function Initial(): CalcState
  {
    CalcState(0, STATUS_SUCCESS, [])
  }

  /** Calls whose C++ handler has defined behaviour: signed overflow in
      Multiply, and INT64_MIN / -1 in Divide, are undefined in C++. */
  predicate Defined(call: Call)
  {
    match call
    case Multiply(x, y) => InInt64(x * y)
    case Divide(x, y) => !(x == MIN_INT64 && y == -1)
    case _ => true
  }

  /** One call served on state `s`. No call changes the status, every integer
      reply is the value LastResult holds afterwards, an error leaves the
      state as it was, and the only signal ever sent is one Cleared signal
      carrying the value LastResult held before. */
  function Handle(s: CalcState, call: Call): (o: Outcome)
    requires Defined(call)
    ensures o.state.status == s.status
    ensures o.reply.IntReply? ==> o.reply.value == o.state.lastResult
    ensures o.reply.ErrorReply? ==> o.state == s
    ensures o.state.signals == s.signals
            || o.state.signals == s.signals + [Signal(CLEARED, [s.lastResult])]
  {
    match call
    case SetLastResult(v) => Outcome(s.(lastResult := v), SetReply(true))
    case GetLastResult => Outcome(s, IntReply(s.lastResult))
    case GetStatus => Outcome(s, StringReply(s.status))
    case Multiply(x, y) =>
      var r := x * y;
      Outcome(s.(lastResult := r), IntReply(r))
    case Divide(x, y) =>
      if y == 0 then
        Outcome(s, ErrorReply(DIVISION_BY_ZERO))
      else
        TruncDivInInt64(x, y);
        var r := TruncDiv(x, y);
        Outcome(s.(lastResult := r), IntReply(r))
    case Clear =>
      Outcome(CalcState(0, s.status, s.signals + [Signal(CLEARED, [s.lastResult])]), EmptyReply)
  }

  predicate AllDefined(calls: seq<Call>)
  {
    forall i :: 0 <= i < |calls| ==> Defined(calls[i])
  }

  /** The state after serving `calls` one after the other, as the single
      event loop does. */
  function Run(s: CalcState, calls: seq<Call>): CalcState
    requires AllDefined(calls)
    decreases |calls|
  {
    if calls == [] then s else Run(Handle(s, calls[0]).state, calls[1..])
  }

  function ClearCount(calls: seq<Call>): nat
  {
    if calls == [] then 0 else (if calls[0].Clear? then 1 else 0) + ClearCount(calls[1..])
  }

  /** No sequence of calls changes Status. */
  lemma {:induction false} RunKeepsStatus(s: CalcState, calls: seq<Call>)
    requires AllDefined(calls)
    ensures Run(s, calls).status == s.status
    decreases |calls|
  {
    if calls != [] {
      RunKeepsStatus(Handle(s, calls[0]).state, calls[1..]);
    }
  }

  /** Status read in any reachable state is the Success state. */
  lemma StatusAlwaysSuccess(calls: seq<Call>)
    requires AllDefined(calls)
    ensures Handle(Run(Initial(), calls), GetStatus).reply == StringReply(STATUS_SUCCESS)
  {
    RunKeepsStatus(Initial(), calls);
  }

  /** Signals are only ever appended, and exactly one per Clear call: Multiply,
      Divide and the property accesses send none. */
  lemma {:induction false} RunSignals(s: CalcState, calls: seq<Call>)
    requires AllDefined(calls)
    ensures |Run(s, calls).signals| == |s.signals| + ClearCount(calls)
    ensures Run(s, calls).signals[..|s.signals|] == s.signals
    decreases |calls|
  {
    if calls != [] {
      var t := Handle(s, calls[0]).state;
      RunSignals(t, calls[1..]);
      assert t.signals[..|s.signals|] == s.signals;
    }
  }

  /** Writing LastResult and then reading it gives back the value written. */
  lemma SetThenGet(s: CalcState, v: Int64)
    ensures Handle(Handle(s, SetLastResult(v)).state, GetLastResult).reply == IntReply(v)
  {
  }

  /** The service object. Its handlers change `lastResult` in place; `status`
      is only read; `signals` records the signals it has sent. */
  class CalculatorService {
    var lastResult: Int64
    var status: string
    ghost var signals: seq<Signal>

    ghost function State(): CalcState
      reads this
    {
      CalcState(lastResult, status, signals)
    }

    constructor ()
      ensures State() == Initial()
      ensures lastResult == 0 && status == STATUS_SUCCESS && signals == []
    {
      lastResult := 0;
      status := STATUS_SUCCESS;
      signals := [];
    }

    /** The LastResult setter: always accepts and stores the new value. */
    method SetLastResult(newVal: Int64) returns (accepted: bool)
      modifies this`lastResult
      ensures accepted && lastResult == newVal
      ensures Handle(old(State()), Call.SetLastResult(newVal)) == Outcome(State(), SetReply(accepted))
    {
      lastResult := newVal;
      accepted := true;
    }

    /** The LastResult getter. */
    method GetLastResult() returns (v: Int64)
      ensures v == lastResult
      ensures Handle(State(), Call.GetLastResult) == Outcome(State(), IntReply(v))
    {
      v := lastResult;
    }

    /** The Status getter. */
    method GetStatus() returns (v: string)
      ensures v == status
      ensures Handle(State(), Call.GetStatus) == Outcome(State(), StringReply(v))
    {
      v := status;
    }

    /** Multiply stores the product and returns it. */
    method Multiply(x: Int64, y: Int64) returns (r: Int64)
      requires InInt64(x * y)
      modifies this`lastResult
      ensures r == x * y && lastResult == r
      ensures Handle(old(State()), Call.Multiply(x, y)) == Outcome(State(), IntReply(r))
    {
      lastResult := x * y;
      r := lastResult;
    }

    /** Divide fails with EDOM "DivisionByZero" on a zero divisor and leaves
        LastResult alone; otherwise it stores the truncated quotient and
        returns it. */
    method Divide(x: Int64, y: Int64) returns (r: Result<Int64>)
      requires !(x == MIN_INT64 && y == -1)
      modifies this`lastResult
      ensures y == 0 ==> r == Err(DIVISION_BY_ZERO) && lastResult == old(lastResult)
      ensures y != 0 ==> r == Ok(TruncDiv(x, y)) && lastResult == TruncDiv(x, y)
      ensures Handle(old(State()), Call.Divide(x, y)) == Outcome(State(), ToReply(r))
    {
      if y == 0 {
        return Err(DIVISION_BY_ZERO);
      }
      TruncDivInInt64(x, y);
      lastResult := TruncDiv(x, y);
      r := Ok(lastResult);
    }

    /** Clear zeroes LastResult and sends one Cleared signal carrying the
        value it held before. */
    method Clear()
      modifies this`lastResult, this`signals
      ensures lastResult == 0
      ensures signals == old(signals) + [Signal(CLEARED, [old(lastResult)])]
      ensures Handle(old(State()), Call.Clear) == Outcome(State(), EmptyReply)
    {
      var oldVal := lastResult;
      lastResult := 0;
      signals := signals + [Signal(CLEARED, [oldVal])];
    }
  }

  /** A client session against a fresh service: Multiply(6, 7), Divide(5, 0),
      then writing LastResult to 10 and reading it back. */
  method Session() returns (product: Int64, quotient: Result<Int64>, readBack: Int64)
    ensures product == 42
    ensures quotient == Err(DIVISION_BY_ZERO)
    ensures readBack == 10
  {
    var service := new CalculatorService();
    product := service.Multiply(6, 7);
    quotient := service.Divide(5, 0);
    var _ := service.SetLastResult(10);
    readBack := service.GetLastResult();
  }
}
