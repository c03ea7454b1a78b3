/**
 * The dispatch-mode parser the embedded build supplies in place of the
 * server's command-line entry (embedded_stubs.c): a name is looked up in a
 * constant table indexed by the dispatch enum.
 */
module Dispatch {
  import opened Wrappers
  import opened CStrings

  /** The dispatch modes in their enum order; the postmaster mode is last. */
  datatype DispatchOption = Check | Boot | Forkchild | DescribeConfig | Single | Postmaster

  /** The enum value with the given ordinal, for the ordinals the table covers. */
  function OptionAt(i: nat): DispatchOption
    requires i < |DispatchOptionNames|
  {
    [Check, Boot, Forkchild, DescribeConfig, Single][i]
  }

  /** The designated-initializer table: one slot per mode up to the single-user mode. */
  const DispatchOptionNames: seq<Option<string>> :=
    [Some("check"), Some("boot"), Some("forkchild"), Some("describe-config"), Some("single")]

  /** The ordinal of the fork-child mode, whose slot is matched by prefix or not at all. */
  const ForkchildIndex: nat := 2

  /**
   * The scan of the table from slot `i`: the fork-child slot is compared by
   * prefix when the build has EXEC_BACKEND and skipped otherwise; every
   * other non-empty slot is compared for equality; the scan falls through
   * to the postmaster mode.
   */
  function ScanFrom(name: string, i: nat, execBackend: bool): DispatchOption
    requires i <= |DispatchOptionNames|
    decreases |DispatchOptionNames| - i
  {
    if i == |DispatchOptionNames| then Postmaster
    else if i == ForkchildIndex then
      var fork := DispatchOptionNames[ForkchildIndex].value;
      if execBackend && StrNEq(fork, name, |fork|) then Forkchild
      else ScanFrom(name, i + 1, execBackend)
    else if DispatchOptionNames[i].Some? && DispatchOptionNames[i].value == name then OptionAt(i)
    else ScanFrom(name, i + 1, execBackend)
  }

  /**
   * `parse_dispatch_option`: the four exact names map to their own modes,
   * names beginning with "forkchild" map to the fork-child mode exactly when
   * the build has EXEC_BACKEND, and every other name is the postmaster mode.
   */
  function ParseDispatchOption(name: string, execBackend: bool): (r: DispatchOption)
    ensures r == Check <==> name == "check"
    ensures r == Boot <==> name == "boot"
    ensures r == DescribeConfig <==> name == "describe-config"
    ensures r == Single <==> name == "single"
    ensures r == Forkchild <==> execBackend && IsPrefix("forkchild", name)
    ensures r == Postmaster <==>
      name !in {"check", "boot", "describe-config", "single"} &&
      !(execBackend && IsPrefix("forkchild", name))
  {
    StrNEqSymmetric("forkchild", name, 9);
    StrNEqIsPrefix(name, "forkchild");
    ScanFrom(name, 0, execBackend)
  }

  /** Without EXEC_BACKEND the fork-child name itself is not recognised. */
  lemma ForkchildNeedsExecBackend()
    ensures ParseDispatchOption("forkchild", false) == Postmaster
    ensures ParseDispatchOption("forkchild", true) == Forkchild
    ensures ParseDispatchOption("forkchild=42", true) == Forkchild
  {
    assert IsPrefix("forkchild", "forkchild");
    assert IsPrefix("forkchild", "forkchild=42");
  }

  /** Matching is exact and case-sensitive for the other names. */
  lemma NoLooseMatches(execBackend: bool)
    ensures ParseDispatchOption("boot2", execBackend) == Postmaster
    ensures ParseDispatchOption("BOOT", execBackend) == Postmaster
    ensures ParseDispatchOption("", execBackend) == Postmaster
  {
    assert !IsPrefix("forkchild", "boot2") by { assert "boot2"[0] != "forkchild"[0]; }
    assert !IsPrefix("forkchild", "BOOT");
    assert !IsPrefix("forkchild", "");
  }
}
