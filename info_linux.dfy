/**
 Model of info_linux.go: the operating-system information of Linux, read from
 the kernel release and the "KEY=value" lines of /etc/os-release (or of
 /etc/lsb-release when the former cannot be read). The `uname -r` call, the
 two files and the environment are parameters, and so is Go's
 strconv.Unquote, as a function that yields None where Unquote fails.
 */
module InfoLinux {
  import opened Wrappers
  import opened Splitter
  import opened Strings
  import PathOperator

  const KernelVersionIdentifier: string := "KernelVersion"
  const OperatingSystemIdentifier: string := "ProductName"
  const OperatingSystemVersionIdentifier: string := "ProductVersion"

  /** Why Info ends without information. IndexOutOfRange is the run-time panic of indexing an empty value. */
  datatype InfoError =
    | KernelVersionQueryFailed
    | ReleaseFileQueryFailed
    | UnquoteFailed(value: string)
    | IndexOutOfRange(line: string)

  /** The key of a line with a '=': the text before the first '=', trimmed. */
  function LineKey(line: string): string
    requires '=' in line
  {
    TrimSpace(CutFirst(line, '=').value.0)
  }

  /** The value of a line with a '=': everything after the first '=', trimmed. */
  function LineValue(line: string): string
    requires '=' in line
  {
    TrimSpace(CutFirst(line, '=').value.1)
  }

  /** The entry a key is recorded under: NAME and VERSION_ID are kept, every other key is dropped. */
  function Record(info: map<string, string>, key: string, value: string): map<string, string>
  {
    match Entry(key)
    case None => info
    case Some(e) => info[e := value]
  }

  /** A value in double quotes is unquoted; any other value is taken as it is. */
  function Unquoted(v: string, unquote: string -> Option<string>): Result<string, InfoError>
    requires v != ""
  {
    if v[0] == '"' then
      match unquote(v)
      case None => Err(UnquoteFailed(v))
      case Some(u) => Ok(u)
    else Ok(v)
  }

  /**
   The scan of the release file as written: a line without '=' is skipped; a
   line whose value is empty after trimming makes the test of its first
   character index past the end.
   */
  function ScanFrom(info: map<string, string>, lines: seq<string>, unquote: string -> Option<string>): Result<map<string, string>, InfoError>
    decreases |lines|
  {
    if |lines| == 0 then Ok(info)
    else if '=' !in lines[0] then ScanFrom(info, lines[1..], unquote)
    else match ScanLine(info, lines[0], unquote)
      case Err(e) => Err(e)
      case Ok(next) => ScanFrom(next, lines[1..], unquote)
  }

  /** One line with a '=' as the source handles it. */
  function ScanLine(info: map<string, string>, line: string, unquote: string -> Option<string>): Result<map<string, string>, InfoError>
    requires '=' in line
  {
    var v := LineValue(line);
    if v == "" then Err(IndexOutOfRange(line))
    else match Unquoted(v, unquote)
      case Err(e) => Err(e)
      case Ok(u) => Ok(Record(info, LineKey(line), u))
  }

  /** The loop of the source over the lines of the release file. */
  method ScanRelease(info: map<string, string>, data: string, unquote: string -> Option<string>)
    returns (r: Result<map<string, string>, InfoError>)
    ensures r == ScanFrom(info, Segments(data, '\n'), unquote)
  {
    var lines := Split(data, '\n');
    var result := info;
    for i := 0 to |lines|
      invariant ScanFrom(result, lines[i..], unquote) == ScanFrom(info, lines, unquote)
    {
      assert lines[i..][0] == lines[i] && lines[i..][1..] == lines[i + 1..];
      var ls := CutFirst(lines[i], '=');
      if ls.None? {
        continue;
      }
      var k := TrimSpace(ls.value.0);
      var v := TrimSpace(ls.value.1);
      if v == "" {
        return Err(IndexOutOfRange(lines[i]));
      }
      if v[0] == '"' {
        var u := unquote(v);
        if u.None? {
          return Err(UnquoteFailed(v));
        }
        v := u.value;
      }
      if k == "NAME" {
        result := result[OperatingSystemIdentifier := v];
      } else if k == "VERSION_ID" {
        result := result[OperatingSystemVersionIdentifier := v];
      }
    }
    assert lines[|lines|..] == [];
    return Ok(result);
  }

  lemma {:induction false} LastLine(l: string)
    requires '\n' !in l
    ensures Segments(l + "\n", '\n') == [l, ""]
  {
    IndexOfAbsent(l, '\n');
    SegmentsAppend(l, '\n', "");
    assert l + "\n" == l + ['\n'] + "";
  }

  lemma {:induction false} TwoLines(l0: string, l1: string)
    requires '\n' !in l0 && '\n' !in l1
    ensures Segments(l0 + "\n" + l1 + "\n", '\n') == [l0, l1, ""]
  {
    LastLine(l1);
    IndexOfAbsent(l0, '\n');
    SegmentsAppend(l0, '\n', l1 + "\n");
    NewlineBetween(l0, l1);
  }

  lemma {:induction false} NewlineBetween(a: string, b: string)
    ensures a + "\n" + b + "\n" == a + ['\n'] + (b + "\n")
  {
  }

  lemma {:induction false} NameLineAccepted(info: map<string, string>, unquote: string -> Option<string>)
    ensures '=' in "NAME=Linux" && ScanLine(info, "NAME=Linux", unquote).Ok?
  {
    CutFirstAt("NAME", '=', "Linux");
    assert "NAME" + ['='] + "Linux" == "NAME=Linux";
    TrimSpaceOfTrimmed("Linux");
  }

  lemma {:induction false} EmptyValueLine()
    ensures '=' in "ID=" && LineValue("ID=") == ""
  {
    CutFirstAt("ID", '=', "");
    assert "ID" + ['='] + "" == "ID=";
    TrimSpaceOfTrimmed("");
  }

  /** The scan of a NAME line followed by a key without a value. */
  lemma {:induction false} EmptyValueLines(info: map<string, string>, unquote: string -> Option<string>)
    ensures ScanFrom(info, ["NAME=Linux", "ID=", ""], unquote) == Err(IndexOutOfRange("ID="))
  {
    var lines := ["NAME=Linux", "ID=", ""];
    NameLineAccepted(info, unquote);
    EmptyValueLine();
    var next := ScanLine(info, "NAME=Linux", unquote).value;
    assert lines[1..] == ["ID=", ""];
    assert ScanFrom(info, lines, unquote) == ScanFrom(next, ["ID=", ""], unquote);
  }

  /** A release file with a key and no value: Info panics instead of skipping or recording the empty value. */
  lemma {:induction false} EmptyValuePanics(info: map<string, string>, unquote: string -> Option<string>)
    ensures ScanFrom(info, Segments("NAME=Linux\nID=\n", '\n'), unquote) == Err(IndexOutOfRange("ID="))
  {
    TwoLines("NAME=Linux", "ID=");
    assert "NAME=Linux" + "\n" + "ID=" + "\n" == "NAME=Linux\nID=\n";
    EmptyValueLines(info, unquote);
  }

  /** A value that Unquote does not reject: empty, unquoted, or quoted and accepted. */
  predicate Unquotable(v: string, unquote: string -> Option<string>)
  {
    !(v != "" && v[0] == '"' && unquote(v).None?)
  }

  /** The value a line with a '=' is recorded with: unquoted when it starts with a double quote, as it is otherwise. */
  function RecordedValue(line: string, unquote: string -> Option<string>): string
    requires '=' in line && Unquotable(LineValue(line), unquote)
  {
    var v := LineValue(line);
    if v != "" && v[0] == '"' then unquote(v).value else v
  }

  /** The scan with the first character of a value looked at only when there is one; an empty value is recorded as empty. */
  function ScanCheckedFrom(info: map<string, string>, lines: seq<string>, unquote: string -> Option<string>): Result<map<string, string>, InfoError>
    decreases |lines|
  {
    if |lines| == 0 then Ok(info)
    else if '=' !in lines[0] then ScanCheckedFrom(info, lines[1..], unquote)
    else match ScanLineChecked(info, lines[0], unquote)
      case Err(e) => Err(e)
      case Ok(next) => ScanCheckedFrom(next, lines[1..], unquote)
  }

  /** One line with a '=' as the corrected scan handles it. */
  function ScanLineChecked(info: map<string, string>, line: string, unquote: string -> Option<string>): (r: Result<map<string, string>, InfoError>)
    requires '=' in line
    ensures r.Err? <==> !Unquotable(LineValue(line), unquote)
    ensures r.Err? ==> r.error == UnquoteFailed(LineValue(line))
    ensures r.Ok? ==> r.value.Keys == info.Keys + Entries(LineKey(line))
    ensures r.Ok? ==> forall k :: k in info && k !in Entries(LineKey(line)) ==> r.value[k] == info[k]
    ensures r.Ok? && Entry(LineKey(line)).Some? ==> r.value[Entry(LineKey(line)).value] == RecordedValue(line, unquote)
  {
    var v := LineValue(line);
    if v != "" && v[0] == '"' then
      match unquote(v)
      case None => Err(UnquoteFailed(v))
      case Some(u) => Ok(Record(info, LineKey(line), u))
    else Ok(Record(info, LineKey(line), v))
  }

  /**
   The corrected scan fails exactly when some quoted value is rejected by
   Unquote, and then with the error of such a value; it never indexes past
   the end of a value.
   */
  lemma {:induction false} ScanCheckedErrors(info: map<string, string>, lines: seq<string>, unquote: string -> Option<string>)
    ensures ScanCheckedFrom(info, lines, unquote).Ok? <==>
      forall i :: 0 <= i < |lines| && '=' in lines[i] ==> Unquotable(LineValue(lines[i]), unquote)
    ensures ScanCheckedFrom(info, lines, unquote).Err? ==>
      var e := ScanCheckedFrom(info, lines, unquote).error;
      e.UnquoteFailed? && e.value != "" && e.value[0] == '"' && unquote(e.value).None?
    decreases |lines|
  {
    if |lines| > 0 {
      var rest := lines[1..];
      assert forall i :: 0 <= i < |rest| ==> rest[i] == lines[i + 1];
      if '=' !in lines[0] {
        ScanCheckedErrors(info, rest, unquote);
      } else if ScanLineChecked(info, lines[0], unquote).Ok? {
        ScanCheckedErrors(ScanLineChecked(info, lines[0], unquote).value, rest, unquote);
      }
    }
  }

  /** Where the value is not empty, both scans handle a line alike. */
  lemma {:induction false} ScanLineAgrees(info: map<string, string>, line: string, unquote: string -> Option<string>)
    requires '=' in line && LineValue(line) != ""
    ensures ScanLineChecked(info, line, unquote) == ScanLine(info, line, unquote)
  {
  }

  /** Wherever the source does not panic, the corrected scan returns what the source returns. */
  lemma {:induction false} ScanCheckedAgrees(info: map<string, string>, lines: seq<string>, unquote: string -> Option<string>)
    requires !ScanFrom(info, lines, unquote).Err? || !ScanFrom(info, lines, unquote).error.IndexOutOfRange?
    ensures ScanCheckedFrom(info, lines, unquote) == ScanFrom(info, lines, unquote)
    decreases |lines|
  {
    if |lines| > 0 {
      if '=' !in lines[0] {
        ScanCheckedAgrees(info, lines[1..], unquote);
      } else if LineValue(lines[0]) != "" {
        ScanLineAgrees(info, lines[0], unquote);
        if ScanLine(info, lines[0], unquote).Ok? {
          ScanCheckedAgrees(ScanLine(info, lines[0], unquote).value, lines[1..], unquote);
        }
      }
    }
  }

  /** The entry a line with key `key` is recorded under, if any. */
  function Entry(key: string): (e: Option<string>)
    ensures e.Some? <==> key == "NAME" || key == "VERSION_ID"
  {
    if key == "NAME" then Some(OperatingSystemIdentifier)
    else if key == "VERSION_ID" then Some(OperatingSystemVersionIdentifier)
    else None
  }

  /** The entry a line with key `key` is recorded under, as a set with at most one element. */
  function Entries(key: string): set<string>
  {
    match Entry(key)
    case None => {}
    case Some(e) => {e}
  }

  /** The entries that the lines with a '=' are recorded under. */
  function RecordedEntries(lines: seq<string>): set<string>
    decreases |lines|
  {
    if |lines| == 0 then {}
    else
      (if '=' in lines[0] then Entries(LineKey(lines[0])) else {}) + RecordedEntries(lines[1..])
  }

  /** The scan records at most the two entries ProductName and ProductVersion. */
  lemma {:induction false} RecordedEntriesBound(lines: seq<string>)
    ensures RecordedEntries(lines) <= {OperatingSystemIdentifier, OperatingSystemVersionIdentifier}
    decreases |lines|
  {
    if |lines| > 0 {
      RecordedEntriesBound(lines[1..]);
    }
  }

  /**
   Only NAME and VERSION_ID lines are recorded: after a successful corrected
   scan, the entries are those that existed before and those that some line's
   key is recorded under (ProductName for NAME, ProductVersion for VERSION_ID).
   */
  lemma {:induction false} ScanCheckedKeys(info: map<string, string>, lines: seq<string>, unquote: string -> Option<string>)
    requires ScanCheckedFrom(info, lines, unquote).Ok?
    ensures ScanCheckedFrom(info, lines, unquote).value.Keys == info.Keys + RecordedEntries(lines)
    decreases |lines|
  {
    if |lines| > 0 {
      var next := if '=' in lines[0] then ScanLineChecked(info, lines[0], unquote).value else info;
      ScanCheckedKeys(next, lines[1..], unquote);
    }
  }

  /** The scan leaves every entry other than ProductName and ProductVersion as it was. */
  lemma {:induction false} ScanCheckedUntouched(info: map<string, string>, lines: seq<string>, unquote: string -> Option<string>, key: string)
    requires ScanCheckedFrom(info, lines, unquote).Ok?
    requires key in info && key != OperatingSystemIdentifier && key != OperatingSystemVersionIdentifier
    ensures key in ScanCheckedFrom(info, lines, unquote).value
    ensures ScanCheckedFrom(info, lines, unquote).value[key] == info[key]
    decreases |lines|
  {
    if |lines| > 0 {
      var next := if '=' in lines[0] then ScanLineChecked(info, lines[0], unquote).value else info;
      ScanCheckedUntouched(next, lines[1..], unquote, key);
    }
  }

  /** An entry that no line of the scan is recorded under keeps its value. */
  lemma {:induction false} ScanCheckedUnrecorded(info: map<string, string>, lines: seq<string>, unquote: string -> Option<string>, key: string)
    requires ScanCheckedFrom(info, lines, unquote).Ok?
    requires key in info && key !in RecordedEntries(lines)
    ensures key in ScanCheckedFrom(info, lines, unquote).value
    ensures ScanCheckedFrom(info, lines, unquote).value[key] == info[key]
    decreases |lines|
  {
    if |lines| > 0 {
      var next := if '=' in lines[0] then ScanLineChecked(info, lines[0], unquote).value else info;
      ScanCheckedUnrecorded(next, lines[1..], unquote, key);
    }
  }

  /**
   The last NAME (or VERSION_ID) line wins: after a successful corrected scan,
   the entry of line i holds the value of line i, unquoted where it is quoted,
   when no later line is recorded under the same entry.
   */
  lemma {:induction false} ScanCheckedLastWins(info: map<string, string>, lines: seq<string>, unquote: string -> Option<string>, i: nat)
    requires ScanCheckedFrom(info, lines, unquote).Ok?
    requires i < |lines| && '=' in lines[i] && Entry(LineKey(lines[i])).Some?
    requires Entry(LineKey(lines[i])).value !in RecordedEntries(lines[i + 1..])
    ensures Entry(LineKey(lines[i])).value in ScanCheckedFrom(info, lines, unquote).value
    ensures Unquotable(LineValue(lines[i]), unquote) &&
      ScanCheckedFrom(info, lines, unquote).value[Entry(LineKey(lines[i])).value] == RecordedValue(lines[i], unquote)
    decreases |lines|
  {
    var next := if '=' in lines[0] then ScanLineChecked(info, lines[0], unquote).value else info;
    if i == 0 {
      ScanCheckedUnrecorded(next, lines[1..], unquote, Entry(LineKey(lines[0])).value);
    } else {
      assert lines[1..][i - 1] == lines[i] && lines[1..][i..] == lines[i + 1..];
      ScanCheckedLastWins(next, lines[1..], unquote, i - 1);
    }
  }

  /** The last NAME (or VERSION_ID) line wins in the scan as written, wherever it does not fail. */
  lemma {:induction false} ScanLastWins(info: map<string, string>, lines: seq<string>, unquote: string -> Option<string>, i: nat)
    requires ScanFrom(info, lines, unquote).Ok?
    requires i < |lines| && '=' in lines[i] && Entry(LineKey(lines[i])).Some?
    requires Entry(LineKey(lines[i])).value !in RecordedEntries(lines[i + 1..])
    ensures Entry(LineKey(lines[i])).value in ScanFrom(info, lines, unquote).value
    ensures Unquotable(LineValue(lines[i]), unquote) &&
      ScanFrom(info, lines, unquote).value[Entry(LineKey(lines[i])).value] == RecordedValue(lines[i], unquote)
  {
    ScanCheckedAgrees(info, lines, unquote);
    ScanCheckedLastWins(info, lines, unquote, i);
  }

  /** The release file read: /etc/os-release, or /etc/lsb-release when the former cannot be read. */
  function ReleaseData(osRelease: Option<string>, lsbRelease: Option<string>): (data: Option<string>)
    ensures osRelease.Some? ==> data == osRelease
    ensures osRelease.None? ==> data == lsbRelease
  {
    match osRelease
    case Some(d) => Some(d)
    case None => lsbRelease
  }

  /** What Info returns, given the results of its queries, the environment and Unquote. */
  function InfoOf(kernelVersion: Option<string>, osRelease: Option<string>, lsbRelease: Option<string>,
                  env: map<string, string>, unquote: string -> Option<string>): Result<map<string, string>, InfoError>
  {
    match kernelVersion
    case None => Err(KernelVersionQueryFailed)
    case Some(kv) =>
      match ReleaseData(osRelease, lsbRelease)
      case None => Err(ReleaseFileQueryFailed)
      case Some(data) =>
        match ScanFrom(map[KernelVersionIdentifier := TrimSpace(kv)], Segments(data, '\n'), unquote)
        case Err(e) => Err(e)
        case Ok(info) =>
          Ok(info[PathOperator.EnvironmentPathIdentifier := PathOperator.Getenv(env, PathOperator.EnvironmentPathIdentifier)])
  }

  /** The steps of Info. */
  method Info(kernelVersion: Option<string>, osRelease: Option<string>, lsbRelease: Option<string>,
              env: map<string, string>, unquote: string -> Option<string>)
    returns (r: Result<map<string, string>, InfoError>)
    ensures r == InfoOf(kernelVersion, osRelease, lsbRelease, env, unquote)
  {
    if kernelVersion.None? {
      return Err(KernelVersionQueryFailed);
    }
    var info := map[KernelVersionIdentifier := TrimSpace(kernelVersion.value)];
    var data := osRelease;
    if data.None? {
      data := lsbRelease;
      if data.None? {
        return Err(ReleaseFileQueryFailed);
      }
    }
    var scanned := ScanRelease(info, data.value, unquote);
    if scanned.Err? {
      return Err(scanned.error);
    }
    info := scanned.value;
    info := info[PathOperator.EnvironmentPathIdentifier := PathOperator.Getenv(env, PathOperator.EnvironmentPathIdentifier)];
    return Ok(info);
  }

  /** Info fails without a kernel release, and without a release file when neither of the two can be read. */
  lemma {:induction false} InfoFails(kernelVersion: Option<string>, osRelease: Option<string>, lsbRelease: Option<string>,
                  env: map<string, string>, unquote: string -> Option<string>)
    ensures kernelVersion.None? ==> InfoOf(kernelVersion, osRelease, lsbRelease, env, unquote) == Err(KernelVersionQueryFailed)
    ensures kernelVersion.Some? && osRelease.None? && lsbRelease.None? ==>
      InfoOf(kernelVersion, osRelease, lsbRelease, env, unquote) == Err(ReleaseFileQueryFailed)
    ensures InfoOf(kernelVersion, osRelease, lsbRelease, env, unquote).Ok? ==> kernelVersion.Some? && (osRelease.Some? || lsbRelease.Some?)
  {
  }

  /**
   A successful Info holds the trimmed kernel release, which no line of the
   release file can overwrite, and the PATH of the environment, whichever of
   the two release files was read.
   */
  lemma {:induction false} InfoEntries(kernelVersion: string, osRelease: Option<string>, lsbRelease: Option<string>, data: string,
                  env: map<string, string>, unquote: string -> Option<string>)
    requires ReleaseData(osRelease, lsbRelease) == Some(data)
    requires InfoOf(Some(kernelVersion), osRelease, lsbRelease, env, unquote).Ok?
    ensures var info := InfoOf(Some(kernelVersion), osRelease, lsbRelease, env, unquote).value;
      KernelVersionIdentifier in info && info[KernelVersionIdentifier] == TrimSpace(kernelVersion) &&
      PathOperator.EnvironmentPathIdentifier in info &&
      info[PathOperator.EnvironmentPathIdentifier] == PathOperator.Getenv(env, PathOperator.EnvironmentPathIdentifier)
  {
    var start := map[KernelVersionIdentifier := TrimSpace(kernelVersion)];
    var lines := Segments(data, '\n');
    ScanCheckedAgrees(start, lines, unquote);
    assert KernelVersionIdentifier[0] != OperatingSystemIdentifier[0];
    assert KernelVersionIdentifier[0] != OperatingSystemVersionIdentifier[0];
    ScanCheckedUntouched(start, lines, unquote, KernelVersionIdentifier);
    assert PathOperator.EnvironmentPathIdentifier[0] != KernelVersionIdentifier[0];
  }

  /**
   A successful Info holds, under ProductName (ProductVersion), the value of
   the last NAME (VERSION_ID) line of the release file read, unquoted where it
   is quoted.
   */
  lemma {:induction false} InfoReleaseEntries(kernelVersion: string, osRelease: Option<string>, lsbRelease: Option<string>, data: string,
                  env: map<string, string>, unquote: string -> Option<string>, i: nat)
    requires ReleaseData(osRelease, lsbRelease) == Some(data)
    requires InfoOf(Some(kernelVersion), osRelease, lsbRelease, env, unquote).Ok?
    requires var lines := Segments(data, '\n');
      i < |lines| && '=' in lines[i] && Entry(LineKey(lines[i])).Some? &&
      Entry(LineKey(lines[i])).value !in RecordedEntries(lines[i + 1..])
    ensures var lines := Segments(data, '\n');
      var info := InfoOf(Some(kernelVersion), osRelease, lsbRelease, env, unquote).value;
      Entry(LineKey(lines[i])).value in info &&
      Unquotable(LineValue(lines[i]), unquote) && info[Entry(LineKey(lines[i])).value] == RecordedValue(lines[i], unquote)
  {
    var start := map[KernelVersionIdentifier := TrimSpace(kernelVersion)];
    var lines := Segments(data, '\n');
    ScanLastWins(start, lines, unquote, i);
    assert PathOperator.EnvironmentPathIdentifier[1] != OperatingSystemIdentifier[1];
    assert PathOperator.EnvironmentPathIdentifier[1] != OperatingSystemVersionIdentifier[1];
  }
}
