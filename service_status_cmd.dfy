/** use-systemd1/get_service_status_cmd.cpp: decide whether a service is
    running from the result of `system("systemctl is-active --quiet <name>")`.
    The shell run is an input: the integer system() returned. */
module ServiceStatusCmd {

  /** The exit codes the source names in its Status enumeration. */
  const SYSTEM_FAILED: int := -1
  const ACTIVE: int := 0
  const INACTIVE: int := 3
  const SYSTEMCTL_FAILED: int := 1

  const COMMAND_PREFIX: string := "systemctl is-active --quiet "

  /** The C string `.c_str()` hands to a C function: the characters of `s`
      up to, and not including, its first NUL. */
  function CString(s: string): (c: string)
    ensures '\0' !in c
    ensures |c| <= |s| && c == s[..|c|]
    ensures |c| < |s| ==> s[|c|] == '\0'
  {
    if s == [] || s[0] == '\0' then [] else [s[0]] + CString(s[1..])
  }

  /** A NUL-free prefix passes through `.c_str()` unchanged. */
  lemma {:induction false} CStringAppend(a: string, b: string)
    requires '\0' !in a
    ensures CString(a + b) == a + CString(b)
    decreases |a|
  {
    if a != [] {
      assert (a + b)[1..] == a[1..] + b;
      CStringAppend(a[1..], b);
      assert a == [a[0]] + a[1..];
    } else {
      assert a + b == b;
    }
  }

  /** The command system() runs for `serviceName`: the prefix followed by
      the name, cut at the name's first NUL by `.c_str()`. */
  function StatusCommand(serviceName: string): (cmd: string)
    ensures cmd == COMMAND_PREFIX + CString(serviceName)
    ensures '\0' !in serviceName ==> cmd == COMMAND_PREFIX + serviceName
  {
    CStringAppend(COMMAND_PREFIX, serviceName);
    CString(COMMAND_PREFIX + serviceName)
  }

  /** Two names give the same command string exactly when they agree up to
      their first NUL; in particular distinct NUL-free names give distinct
      command strings. */
  lemma StatusCommandInjective(a: string, b: string)
    ensures StatusCommand(a) == StatusCommand(b) <==> CString(a) == CString(b)
    ensures '\0' !in a && '\0' !in b && a != b ==> StatusCommand(a) != StatusCommand(b)
  {
    if StatusCommand(a) == StatusCommand(b) {
      assert CString(a) == StatusCommand(a)[|COMMAND_PREFIX|..];
      assert CString(b) == StatusCommand(b)[|COMMAND_PREFIX|..];
    }
    if '\0' !in a {
      CStringOfNulFree(a);
    }
    if '\0' !in b {
      CStringOfNulFree(b);
    }
  }

  lemma CStringOfNulFree(s: string)
    requires '\0' !in s
    ensures CString(s) == s
  {
    CStringAppend(s, []);
    assert s + [] == s;
  }

  /** Whatever follows a NUL in the name never reaches the shell. */
  lemma StatusCommandCutsAtNul(name: string, rest: string)
    requires '\0' !in name
    ensures StatusCommand(name + ['\0'] + rest) == StatusCommand(name)
  {
    CStringAppend(name, ['\0'] + rest);
    assert name + ['\0'] + rest == name + (['\0'] + rest);
    CStringOfNulFree(name);
  }

  /** glibc's WEXITSTATUS: bits 8 to 15 of the wait status. Dafny's `%` is
      Euclidean, so `status % 0x1_0000` is the status's low 16 bits in two's
      complement for negative values too. */
  function ExitStatus(status: int): (code: int)
    ensures 0 <= code < 0x100
    ensures 0 <= status < 0x1_0000 ==> code * 0x100 <= status < (code + 1) * 0x100
  {
    (status % 0x1_0000) / 0x100
  }

  /** The branch `getServiceStatus` takes, which decides what it reports. */
  datatype Verdict =
    | SystemCallFailed
    | Active
    | Inactive
    | SystemctlFailed
    | UnknownFailure(exitCode: int)

  /** The branch taken for the system() result `ret`: -1 is a failed system()
      call and is decided before any exit status is looked at; otherwise the
      exit status selects the branch. */
  function Classify(ret: int): (v: Verdict)
    ensures ret == SYSTEM_FAILED ==> v == SystemCallFailed
    ensures ret != SYSTEM_FAILED ==> !v.SystemCallFailed?
    ensures v.Active? <==> ret != SYSTEM_FAILED && ExitStatus(ret) == ACTIVE
    ensures v.Inactive? <==> ret != SYSTEM_FAILED && ExitStatus(ret) == INACTIVE
    ensures v.SystemctlFailed? <==> ret != SYSTEM_FAILED && ExitStatus(ret) == SYSTEMCTL_FAILED
    ensures v.UnknownFailure? ==> v.exitCode == ExitStatus(ret)
                                  && v.exitCode !in {ACTIVE, INACTIVE, SYSTEMCTL_FAILED}
  {
    if ret == -1 then SystemCallFailed
    else
      var exitStatus := ExitStatus(ret);
      if exitStatus == ACTIVE then Active
      else if exitStatus == INACTIVE then Inactive
      else if exitStatus == SYSTEMCTL_FAILED then SystemctlFailed
      else UnknownFailure(exitStatus)
  }

  /** `getServiceStatus`: true exactly when system() ran and systemctl exited
      with status 0. */
  function GetServiceStatus(ret: int): (active: bool)
    ensures active <==> ret != SYSTEM_FAILED && ExitStatus(ret) == ACTIVE
  {
    Classify(ret).Active?
  }

  /** A systemctl killed by signal 9 has wait status 9. Bits 8 to 15 of that
      status are zero, so `getServiceStatus` reports the service as running. */
  lemma KilledBySignalReportedActive()
    ensures ExitStatus(9) == ACTIVE
    ensures Classify(9) == Active && GetServiceStatus(9)
  {
  }

  /** glibc's WIFEXITED: the low 7 bits of the wait status are zero. */
  predicate Exited(status: int)
  {
    status % 0x80 == 0
  }

  /** `getServiceStatus` with the WIFEXITED check its WEXITSTATUS reading
      needs: running exactly when systemctl ran, exited normally and exited
      with status 0. A systemctl ended by a signal is never reported as
      running. */
  function GetServiceStatusExited(ret: int): (active: bool)
    ensures active <==> ret != SYSTEM_FAILED && Exited(ret) && ExitStatus(ret) == ACTIVE
    ensures !Exited(ret) ==> !active
    ensures active ==> GetServiceStatus(ret)
  {
    ret != -1 && Exited(ret) && Classify(ret).Active?
  }

  /** On every normal exit the checked version agrees with the source. */
  lemma ExitedAgrees(ret: int)
    requires Exited(ret)
    ensures GetServiceStatusExited(ret) == GetServiceStatus(ret)
  {
  }

  /** A normal exit of systemctl with code `c` is reported as running
      exactly when `c` is 0: 3 (inactive), 1 (failure) and any other code
      are reported as not running. */
  lemma NormalExit(c: int)
    requires 0 <= c < 0x100
    ensures ExitStatus(c * 0x100) == c
    ensures GetServiceStatus(c * 0x100) <==> c == ACTIVE
  {
  }
}
