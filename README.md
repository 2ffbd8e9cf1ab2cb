# sdbusplus examples: the application logic, in Dafny

These are examples of D-Bus services and clients written with sdbusplus and
boost::asio. The D-Bus object server itself comes from the sdbusplus library:
property tables, method dispatch, coroutine suspension and introspection all
live there. This project models the application logic that the examples plug
into that server, and proves what that logic does.

- **Calculator service** (`calculator.dfy`, module `Calculator`). This is the
  object `/calculator` with interface `xyz.openbmc_project.Calculator`. It has
  the read-write property `LastResult`, the constant property `Status`, the
  methods `Multiply`, `Divide` and `Clear`, and the `Cleared` signal.
  `Handle` specifies one call on the service state. `Run` specifies a
  sequence of calls served one after another, as the single event loop
  serves them. The class `CalculatorService` updates `lastResult` in place,
  keeps a ghost log of the signals it has sent, and is proved against
  `Handle`.
- **asio test server** (`asio_server.dfy`, module `AsioServer`). This covers
  the handlers behind `TestFunction`, `TestMethodWithMessage`,
  `VoidFunctionReturnsInt`, `execute`, `TestMethod` and `TestYieldFunction`.
  It also covers the custom setters of the properties `lessThan50` and
  `TrailTime`. A setter gets the stored value by reference, so the model
  passes it a `Cell`.
- **systemd status over D-Bus** (`service_status.dfy`, module
  `ServiceStatus`). This is an ordered scan over the unit records that
  `ListUnitsByNames` returns. The first record whose ActiveState is
  "active", "inactive" or "failed" decides the answer.
- **systemd status through systemctl** (`service_status_cmd.dfy`, module
  `ServiceStatusCmd`). This maps the result of `system()` to a verdict.
- **Support.** `int_types.dfy` (module `IntTypes`) holds the C++ integer
  widths and C++'s truncating division. `decimal.dfy` (module `Decimal`)
  holds `std::to_string` for integers, with a parser as its partner.

C++ signed overflow and `INT64_MIN / -1` are undefined behaviour. The model
excludes them with preconditions. It does not give them a value. The
`uint8_t` wrap-around in `ipmiInterface` is modelled exactly.

## Model

| member | source | states |
|---|---|---|
| IntTypes.TruncDivIsCDivision | my-calculator/main.cpp:51 | The modelled quotient obeys C++ division: `(x / y) * y + x % y == x`, the remainder is smaller than the divisor in magnitude, and the remainder is zero or has the sign of the dividend. |
| IntTypes.TruncDivUnique | my-calculator/main.cpp:51 | Any quotient with those three properties equals the modelled one, so the C++ quotient is determined. |
| IntTypes.TruncDivShrinks | my-calculator/main.cpp:51 | The quotient is never larger in magnitude than the dividend. |
| IntTypes.TruncDivInInt64 | my-calculator/main.cpp:51 | Dividing two int64 values gives an int64 unless the division is INT64_MIN / -1. |
| Calculator.Handle | my-calculator/main.cpp:25-63 | One call on the service. Status never changes. Every integer reply equals the value LastResult holds afterwards. An error reply leaves the whole state unchanged. The only signal ever added is one Cleared signal carrying the previous LastResult. |
| Calculator.RunKeepsStatus | my-calculator/main.cpp:33-35 | No sequence of calls changes Status. |
| Calculator.StatusAlwaysSuccess | my-calculator/main.cpp:76 | In every state reachable from construction, reading Status gives "xyz.openbmc_project.Calculator.State.Success". |
| Calculator.RunSignals | my-calculator/main.cpp:55-62 | Over any sequence of calls, signals are only appended, and exactly one is appended per Clear call. Multiply, Divide and the property accesses send none. |
| Calculator.SetThenGet | my-calculator/main.cpp:27-31 | Writing LastResult and then reading it returns the value written. |
| Calculator.CalculatorService.constructor | my-calculator/main.cpp:75-76 | The service starts with LastResult 0, the Success status and no signals sent. |
| Calculator.CalculatorService.SetLastResult | my-calculator/main.cpp:27-30 | The setter always accepts and stores the new value. Status and the signal log are unchanged. This agrees with Handle. |
| Calculator.CalculatorService.GetLastResult | my-calculator/main.cpp:31 | The getter returns the stored LastResult and changes nothing. |
| Calculator.CalculatorService.GetStatus | my-calculator/main.cpp:33-35 | The Status getter returns the stored status and changes nothing. |
| Calculator.CalculatorService.Multiply | my-calculator/main.cpp:40-44 | Stores x * y and returns the same value, provided the product fits in int64. No signal is sent and Status is unchanged. |
| Calculator.CalculatorService.Divide | my-calculator/main.cpp:46-53 | A zero divisor fails with EDOM "DivisionByZero" and leaves LastResult unchanged. Otherwise it stores and returns x / y truncated toward zero. INT64_MIN / -1 is excluded. Both the new state and the reply sent back agree with Handle. |
| Calculator.CalculatorService.Clear | my-calculator/main.cpp:55-63 | Sets LastResult to 0 and appends exactly one Cleared signal whose only argument is the previous LastResult. |
| Calculator.Session | my-calculator/main.cpp:40-53 | On a fresh service, Multiply(6, 7) returns 42 and Divide(5, 0) fails with EDOM "DivisionByZero". After LastResult is set to 10, reading it gives 10. |
| AsioServer.Foo | asio-example/my_asio_server.cpp:18-22 | TestFunction answers its argument plus one. Arguments below INT_MAX are required. |
| AsioServer.MethodWithMessage | asio-example/my_asio_server.cpp:43-48 | TestMethodWithMessage answers exactly what TestFunction answers. |
| AsioServer.VoidBar | asio-example/my_asio_server.cpp:50-54 | VoidFunctionReturnsInt always answers 42. |
| AsioServer.FooYield | asio-example/my_asio_server.cpp:25-41 | TestYieldFunction answers -1 whenever the nested call failed, for every argument including INT_MAX. Otherwise it answers either -1 or foo's own answer for the argument, and it gives foo's answer when the nested call succeeds with it. |
| AsioServer.FooYieldRejectsWrongValue | asio-example/my_asio_server.cpp:34-38 | A nested answer other than the argument plus one is reported as -1. |
| AsioServer.IpmiInterface | asio-example/my_asio_server.cpp:56-64 | `execute` answers netFn plus one, wrapping 255 to 0. It returns lun and cmd unchanged, completion code 0 and payload [1, 2, 3, 4], whatever the data and options. |
| AsioServer.TestMethod | asio-example/my_asio_server.cpp:114-117 | TestMethod answers the call count and the text "success: " followed by the canonical decimal rendering of the count (IntToString). That rendering reads back as the count. |
| AsioServer.TestMethodTextInjective | asio-example/my_asio_server.cpp:114-117 | Different call counts give different TestMethod texts. |
| AsioServer.RegisterCustomProperties | asio-example/my_asio_server.cpp:89-100 | lessThan50 is registered holding 23, a value its own setter policy accepts. TrailTime is registered holding "foo". |
| AsioServer.LessThan50Set | asio-example/my_asio_server.cpp:91-98 | The lessThan50 policy accepts exactly the requests below 50. An accepted request is stored. A rejected one leaves the current value. |
| AsioServer.LessThan50StaysBelow | asio-example/my_asio_server.cpp:92-96 | From any value below 50, the property stays below 50 whatever sequence of writes arrives. |
| AsioServer.LessThan50AlwaysBelow | asio-example/my_asio_server.cpp:89 | From the registered initial value 23, the property holds a value below 50 after any sequence of writes. |
| AsioServer.LessThan50LastAccepted | asio-example/my_asio_server.cpp:91-98 | After a sequence of writes, the property holds the last request below 50. If every request was 50 or more, it holds the initial value. |
| AsioServer.LessThan50Setter | asio-example/my_asio_server.cpp:91-98 | The setter returns false for a request of 50 or more and leaves the stored value untouched. Otherwise it stores the request and returns true. This agrees with LessThan50Set. |
| AsioServer.TrailTimeSetter | asio-example/my_asio_server.cpp:102-105 | The TrailTime setter always accepts and stores the request verbatim. |
| Decimal.NatToString | asio-example/my_asio_server.cpp:116 | The rendering of a natural number is a non-empty string of digits with no leading zero. |
| Decimal.IntToString | asio-example/my_asio_server.cpp:116 | The rendering of an integer is a decimal numeral that starts with '-' exactly when the integer is negative. Its digits have no leading zero, and "0" is the only rendering whose digits start with '0'. |
| Decimal.CanonicalIsRendering | asio-example/my_asio_server.cpp:116 | Every canonical numeral (no leading zero, no "-0") is the rendering of the integer it denotes, so the rendering is determined by its value. |
| Decimal.CanonicalNat | asio-example/my_asio_server.cpp:116 | A digit string with no leading zero is the rendering of the natural number it denotes. |
| Decimal.NatToStringRoundTrip | asio-example/my_asio_server.cpp:116 | Parsing the digits of n gives n back. |
| Decimal.IntToStringRoundTrip | asio-example/my_asio_server.cpp:116 | Parsing the rendering of any integer gives the integer back. |
| Decimal.IntToStringInjective | asio-example/my_asio_server.cpp:116 | Different integers render differently. |
| ServiceStatus.ListUnitsRequest | use-systemd1/get_service_status.cpp:38-45 | The request goes to org.freedesktop.systemd1 at /org/freedesktop/systemd1, interface org.freedesktop.systemd1.Manager, method ListUnitsByNames. Its one argument is the array of service names (D-Bus type `as`). |
| ServiceStatus.UnitsActiveIff | use-systemd1/get_service_status.cpp:53-70 | The scan answers true if and only if there is a first record whose ActiveState is "active", "inactive" or "failed", and that record is "active". |
| ServiceStatus.NoDecisiveMeansInactive | use-systemd1/get_service_status.cpp:67-76 | An empty list, or a list with no such record, answers false. |
| ServiceStatus.OnlyActiveStateMatters | use-systemd1/get_service_status.cpp:55-56 | Two record lists with the same ActiveState fields give the same answer, so names and the other fields only feed the printed messages. |
| ServiceStatus.GetServiceStatus | use-systemd1/get_service_status.cpp:47-76 | A failed bus call answers false. Otherwise the loop scans in order, returns at the first decisive record, skips all others and answers as the recursive definition UnitsActive does. |
| ServiceStatusCmd.CString | use-systemd1/get_service_status_cmd.cpp:13 | What `.c_str()` passes to system(): the characters of the string before its first NUL, so the result holds no NUL. |
| ServiceStatusCmd.StatusCommand | use-systemd1/get_service_status_cmd.cpp:13 | The command string system() receives is "systemctl is-active --quiet " followed by the service name cut at its first NUL; a name without NUL is passed whole. |
| ServiceStatusCmd.StatusCommandCutsAtNul | use-systemd1/get_service_status_cmd.cpp:13 | Whatever follows a NUL in the service name never reaches the shell: "ssh\0a" and "ssh" run the same command. |
| ServiceStatusCmd.StatusCommandInjective | use-systemd1/get_service_status_cmd.cpp:13 | Two names give the same command string exactly when they agree up to their first NUL, so different NUL-free names give different command strings. |
| ServiceStatusCmd.ExitStatus | use-systemd1/get_service_status_cmd.cpp:20 | The exit status is a byte. For a wait status below 0x10000 it is the wait status divided by 256. |
| ServiceStatusCmd.Classify | use-systemd1/get_service_status_cmd.cpp:15-34 | A system() result of -1 takes the failure branch before any exit status is examined. Otherwise exit status 0 is ACTIVE, 3 is INACTIVE, 1 is SYSTEMCTL_FAILED, and every other code is an unknown failure carrying that code. |
| ServiceStatusCmd.GetServiceStatus | use-systemd1/get_service_status_cmd.cpp:12-35 | The answer is true exactly when system() did not return -1 and the exit status is 0 (ACTIVE). No WIFEXITED check is made, so a systemctl ended by a signal also reads as exit status 0 (see Findings). |
| ServiceStatusCmd.KilledBySignalReportedActive | use-systemd1/get_service_status_cmd.cpp:20-24 | Wait status 9, a systemctl killed by signal 9, has exit-status bits 0, so it is classified ACTIVE and answered true. |
| ServiceStatusCmd.GetServiceStatusExited | use-systemd1/get_service_status_cmd.cpp:15-34 | With the WIFEXITED check added, the answer is true exactly when system() ran, systemctl exited normally and its exit status is 0. A systemctl ended by a signal is never reported as running. |
| ServiceStatusCmd.ExitedAgrees | use-systemd1/get_service_status_cmd.cpp:20-34 | On every normal exit the checked version gives the same answer as the source. |
| ServiceStatusCmd.NormalExit | use-systemd1/get_service_status_cmd.cpp:20-34 | A normal systemctl exit with code c answers true exactly when c is 0. Codes 3, 1 and every other code answer false. |

## Left out

- The sdbusplus object server. This covers registering properties and methods, dispatch, argument checking, introspection, `initialize` and coroutine scheduling. The examples only call into it, and its code is not part of this model.
- The PropertiesChanged signal that the `emits_change` flag asks the library to send when LastResult is written. The library sends it, not the application, so the signal log holds only the Cleared signals that the Clear handler sends.
- Writes to Status. The property is registered read-only and constant, so the library refuses them before any application code runs. The model has no call that writes Status.
- Calculator.CalculatorService.SetLastResult: does not record the library's PropertiesChanged signal, for the reason above.
- Name requests, bus connections, the `io.run()` event loop and every `main`. These are connection plumbing with no logic.
- The nested `TestFunction` call in `fooYield`, the `bus.call` in the D-Bus status probe, and `system()`. Their outcomes are inputs: `NestedCall`, `BusReply` and the integer `ret`.
- The TrailTime getter. It appends the wall-clock time, so its result is not determined by its inputs.
- The properties registered with library defaults (`int`, `myStringVec`, `myStringVec2`). They have no application logic.
- All console output.
- The other example programs: the plain client calls, signal emission and reception, example/my_dbus_server.cpp and normalConn/greeting_service.cpp. They only forward to the library. The greeting service's setter is empty, and its Set method assigns an undeclared variable, so it has no defined behaviour to model.
- Calculator.CalculatorService.Multiply and Calculator.CalculatorService.Divide: signed overflow and INT64_MIN / -1 are undefined in C++. They are excluded by preconditions rather than given a value.
- AsioServer.Foo and AsioServer.MethodWithMessage: `++test` on INT_MAX is undefined in C++. That argument is excluded by a precondition.
- AsioServer.FooYield: when the nested call succeeded, `test + 1` on INT_MAX is undefined in C++, so that combination is excluded. A failed nested call short-circuits the check and is modelled for every argument.
- ServiceStatusCmd.StatusCommand and ServiceStatusCmd.StatusCommandInjective: the model stops at the command string system() receives. How /bin/sh splits it into words is not modelled, so different command strings such as those for "a b" and "a  b" may still ask systemctl about the same units.
- ServiceStatusCmd.ExitStatus: follows glibc's definition of WEXITSTATUS, which takes bits 8 to 15 of the status. Other C libraries are not modelled.
- The EDOM error code is the Linux errno value 33.

## Findings

| source | as written | input that shows it | evidently intended | confidence | as-written member | corrected member |
|---|---|---|---|---|---|---|
| use-systemd1/get_service_status_cmd.cpp:20-24 | WEXITSTATUS is read without checking WIFEXITED. A systemctl ended by a signal has zero exit-status bits, so it counts as exit code 0 (ACTIVE). | system() returns wait status 9 (systemctl killed by SIGKILL); the answer is true. | Only a normal exit with code 0 reports the service as running. | medium, not executed | ServiceStatusCmd.KilledBySignalReportedActive | ServiceStatusCmd.GetServiceStatusExited |
