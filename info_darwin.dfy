/**
 Model of info_darwin.go: the operating-system information of macOS, read
 from the kernel release and the "key: value" lines that `sw_vers` prints. The
 sysctl call and the output of `sw_vers` are parameters (None when the call
 fails), and so is the environment.
 */
module InfoDarwin {
  import opened Wrappers
  import opened Splitter
  import opened Strings
  import PathOperator

  const KernelVersionIdentifier: string := "KernelVersion"
  const OperatingSystemBuildIdentifier: string := "BuildVersion"
  const OperatingSystemIdentifier: string := "ProductName"
  const OperatingSystemVersionIdentifier: string := "ProductVersion"

  /** The key of a line with a ':': the text before the first ':', trimmed. */
  function LineKey(line: string): string
    requires ':' in line
  {
    TrimSpace(CutFirst(line, ':').value.0)
  }

  /** The value of a line with a ':': everything after the first ':', further ':' included, trimmed. */
  function LineValue(line: string): string
    requires ':' in line
  {
    TrimSpace(CutFirst(line, ':').value.1)
  }

  /** The map after the lines of `sw_vers` are scanned into `info`: a line without ':' is skipped, any other sets its key. */
  function SoftwareVersionsFrom(info: map<string, string>, lines: seq<string>): map<string, string>
    decreases |lines|
  {
    if |lines| == 0 then info
    else if ':' in lines[0] then SoftwareVersionsFrom(info[LineKey(lines[0]) := LineValue(lines[0])], lines[1..])
    else SoftwareVersionsFrom(info, lines[1..])
  }

  /** The loop of the source over the lines of the output of `sw_vers`. */
  method ScanSoftwareVersions(info: map<string, string>, output: string) returns (result: map<string, string>)
    ensures result == SoftwareVersionsFrom(info, Segments(output, '\n'))
  {
    var lines := Split(output, '\n');
    result := info;
    for i := 0 to |lines|
      invariant SoftwareVersionsFrom(result, lines[i..]) == SoftwareVersionsFrom(info, lines)
    {
      assert lines[i..][0] == lines[i] && lines[i..][1..] == lines[i + 1..];
      var ls := CutFirst(lines[i], ':');
      if ls.None? {
        continue;
      }
      result := result[TrimSpace(ls.value.0) := TrimSpace(ls.value.1)];
    }
    assert lines[|lines|..] == [];
  }

  /** The keys of the lines that have a ':'. */
  function LineKeys(lines: seq<string>): set<string>
    decreases |lines|
  {
    if |lines| == 0 then {}
    else (if ':' in lines[0] then {LineKey(lines[0])} else {}) + LineKeys(lines[1..])
  }

  /** Every key of the scanned lines is recorded verbatim, not only selected ones; no other key is added. */
  lemma {:induction false} SoftwareVersionsKeys(info: map<string, string>, lines: seq<string>)
    ensures SoftwareVersionsFrom(info, lines).Keys == info.Keys + LineKeys(lines)
    decreases |lines|
  {
    if |lines| > 0 {
      var next := if ':' in lines[0] then info[LineKey(lines[0]) := LineValue(lines[0])] else info;
      SoftwareVersionsKeys(next, lines[1..]);
    }
  }

  /** Lines with other keys leave the entry of `key` as it is. */
  lemma {:induction false} SoftwareVersionsUntouched(info: map<string, string>, lines: seq<string>, key: string)
    requires key in info && key !in LineKeys(lines)
    ensures key in SoftwareVersionsFrom(info, lines) && SoftwareVersionsFrom(info, lines)[key] == info[key]
    decreases |lines|
  {
    if |lines| > 0 {
      var next := if ':' in lines[0] then info[LineKey(lines[0]) := LineValue(lines[0])] else info;
      SoftwareVersionsUntouched(next, lines[1..], key);
    }
  }

  /** A key takes the value of its LAST line: a later duplicate overwrites an earlier one. */
  lemma {:induction false} SoftwareVersionsLastWins(info: map<string, string>, lines: seq<string>, i: nat)
    requires i < |lines| && ':' in lines[i] && LineKey(lines[i]) !in LineKeys(lines[i + 1..])
    ensures LineKey(lines[i]) in SoftwareVersionsFrom(info, lines)
    ensures SoftwareVersionsFrom(info, lines)[LineKey(lines[i])] == LineValue(lines[i])
    decreases |lines|
  {
    var next := if ':' in lines[0] then info[LineKey(lines[0]) := LineValue(lines[0])] else info;
    if i == 0 {
      SoftwareVersionsUntouched(next, lines[1..], LineKey(lines[0]));
    } else {
      assert lines[1..][i - 1] == lines[i] && lines[1..][i..] == lines[i + 1..];
      SoftwareVersionsLastWins(next, lines[1..], i - 1);
    }
  }

  /** Why Info failed: the kernel version or the software versions could not be queried. */
  datatype InfoError = KernelVersionQueryFailed | SoftwareVersionsQueryFailed

  /** What Info returns, given the results of its two queries and the environment. */
  function InfoOf(kernelVersion: Option<string>, softwareVersions: Option<string>, env: map<string, string>): Result<map<string, string>, InfoError>
  {
    match kernelVersion
    case None => Err(KernelVersionQueryFailed)
    case Some(kv) =>
      match softwareVersions
      case None => Err(SoftwareVersionsQueryFailed)
      case Some(sv) =>
        var info := SoftwareVersionsFrom(map[KernelVersionIdentifier := TrimSpace(kv)], Segments(sv, '\n'));
        Ok(info[PathOperator.EnvironmentPathIdentifier := PathOperator.Getenv(env, PathOperator.EnvironmentPathIdentifier)])
  }

  /** The steps of Info. */
  method Info(kernelVersion: Option<string>, softwareVersions: Option<string>, env: map<string, string>)
    returns (r: Result<map<string, string>, InfoError>)
    ensures r == InfoOf(kernelVersion, softwareVersions, env)
  {
    if kernelVersion.None? {
      return Err(KernelVersionQueryFailed);
    }
    var info := map[KernelVersionIdentifier := TrimSpace(kernelVersion.value)];
    if softwareVersions.None? {
      return Err(SoftwareVersionsQueryFailed);
    }
    info := ScanSoftwareVersions(info, softwareVersions.value);
    info := info[PathOperator.EnvironmentPathIdentifier := PathOperator.Getenv(env, PathOperator.EnvironmentPathIdentifier)];
    return Ok(info);
  }

  /** Info fails exactly when one of its two queries fails, and the first failing query names the error. */
  lemma {:induction false} InfoFails(kernelVersion: Option<string>, softwareVersions: Option<string>, env: map<string, string>)
    ensures InfoOf(kernelVersion, softwareVersions, env).Ok? <==> kernelVersion.Some? && softwareVersions.Some?
    ensures kernelVersion.None? ==> InfoOf(kernelVersion, softwareVersions, env) == Err(KernelVersionQueryFailed)
    ensures kernelVersion.Some? && softwareVersions.None? ==> InfoOf(kernelVersion, softwareVersions, env) == Err(SoftwareVersionsQueryFailed)
  {
  }

  /** A successful Info always carries the PATH of the environment, "" when it is not set. */
  lemma {:induction false} InfoPath(kernelVersion: string, softwareVersions: string, env: map<string, string>)
    ensures PathOperator.EnvironmentPathIdentifier in InfoOf(Some(kernelVersion), Some(softwareVersions), env).value
    ensures InfoOf(Some(kernelVersion), Some(softwareVersions), env).value[PathOperator.EnvironmentPathIdentifier] ==
      PathOperator.Getenv(env, PathOperator.EnvironmentPathIdentifier)
  {
  }

  /**
   The kernel version of a successful Info is the trimmed kernel release,
   unless a line of `sw_vers` has the key "KernelVersion" and overwrites it.
   */
  lemma {:induction false} InfoKernelVersion(kernelVersion: string, softwareVersions: string, env: map<string, string>)
    requires KernelVersionIdentifier !in LineKeys(Segments(softwareVersions, '\n'))
    ensures KernelVersionIdentifier in InfoOf(Some(kernelVersion), Some(softwareVersions), env).value
    ensures InfoOf(Some(kernelVersion), Some(softwareVersions), env).value[KernelVersionIdentifier] == TrimSpace(kernelVersion)
  {
    var start := map[KernelVersionIdentifier := TrimSpace(kernelVersion)];
    SoftwareVersionsUntouched(start, Segments(softwareVersions, '\n'), KernelVersionIdentifier);
    assert PathOperator.EnvironmentPathIdentifier[0] != KernelVersionIdentifier[0];
  }

  /** The entries of a successful Info: the kernel version, PATH, and the keys of the lines of `sw_vers`. */
  lemma {:induction false} InfoKeys(kernelVersion: string, softwareVersions: string, env: map<string, string>)
    ensures InfoOf(Some(kernelVersion), Some(softwareVersions), env).value.Keys ==
      {KernelVersionIdentifier, PathOperator.EnvironmentPathIdentifier} + LineKeys(Segments(softwareVersions, '\n'))
  {
    SoftwareVersionsKeys(map[KernelVersionIdentifier := TrimSpace(kernelVersion)], Segments(softwareVersions, '\n'));
  }
}
