/**
 Model of limits_linux.go: the decisions of EnforceProcessTreeLimits and the
 parsing of the `ps` output in getProcessTreeMemoryUsage. Running `ps` is left
 to the caller, which passes its output; strconv.Atoi is the parameter `atoi`,
 None for a string it rejects.
 */
module Limits {
  import opened Wrappers
  import opened Splitter
  import opened Strings

  /** Go's `uint` is 64 bits wide on the platforms the source builds for. */
  const UintModulus: int := 0x1_0000_0000_0000_0000

  /** One second as a time.Duration, in nanoseconds. */
  const Second: int := 1_000_000_000

  /** ProcessTreeLimits without its callback; `watchdogInterval` is a time.Duration in nanoseconds. */
  datatype ProcessTreeLimits = ProcessTreeLimits(maxMemoryInMiB: nat, watchdogInterval: int)

  /** Whether EnforceProcessTreeLimits starts its watchdog, and with which sleep between checks. */
  datatype Watchdog = NoWatchdog | Watchdog(interval: int)

  /** The decisions EnforceProcessTreeLimits takes before starting the watchdog. */
  function EnforceProcessTreeLimits(limits: ProcessTreeLimits): (w: Watchdog)
    ensures w.NoWatchdog? <==> limits.maxMemoryInMiB == 0
    ensures w.Watchdog? ==> w.interval != 0
    ensures w.Watchdog? && limits.watchdogInterval != 0 ==> w.interval == limits.watchdogInterval
    ensures w.Watchdog? && limits.watchdogInterval == 0 ==> w.interval == 2 * Second
  {
    if limits.maxMemoryInMiB <= 0 then NoWatchdog
    else if limits.watchdogInterval == 0 then Watchdog(2 * Second)
    else Watchdog(limits.watchdogInterval)
  }

  /**
   One check of the watchdog: the arguments it calls OnMemoryLimitReached with
   (the usage in whole MiB, rounded down, and the limit), or None when the
   usage is within the limit.
   */
  function WatchdogCheck(memoryUsageInKiB: nat, maxMemoryInMiB: nat): (r: Option<(nat, nat)>)
  {
    var currentMemoryInMiB := memoryUsageInKiB / 1024;
    if currentMemoryInMiB > maxMemoryInMiB then Some((currentMemoryInMiB, maxMemoryInMiB)) else None
  }

  /**
   The callback runs exactly when the usage reaches a whole MiB above the
   limit: up to (limit + 1) * 1024 - 1 KiB is tolerated. It receives the usage
   rounded down to MiB, which is above the limit.
   */
  lemma {:induction false} WatchdogThreshold(memoryUsageInKiB: nat, maxMemoryInMiB: nat)
    ensures WatchdogCheck(memoryUsageInKiB, maxMemoryInMiB).Some? <==> memoryUsageInKiB >= (maxMemoryInMiB + 1) * 1024
    ensures WatchdogCheck(memoryUsageInKiB, maxMemoryInMiB).Some? ==>
      var (current, max) := WatchdogCheck(memoryUsageInKiB, maxMemoryInMiB).value;
      max == maxMemoryInMiB && current > max && current * 1024 <= memoryUsageInKiB < (current + 1) * 1024
  {
  }

  /** Why the `ps` output could not be read. */
  datatype MemoryError = EmptyLine | NotAnInteger(line: string)

  /** Go's `a += uint(b)` on a `uint` total. */
  function AddUint(a: nat, b: int): (r: nat)
    ensures r < UintModulus
  {
    (a + b) % UintModulus
  }

  /** The integer on one line of the output, once trimmed; an error when the trimmed line is empty or not an integer. */
  function ParseLine(line: string, atoi: string -> Option<int>): (r: Result<int, MemoryError>)
    ensures r == Err(EmptyLine) <==> TrimSpace(line) == ""
    ensures r.Ok? <==> TrimSpace(line) != "" && atoi(TrimSpace(line)).Some?
  {
    var t := TrimSpace(line);
    if |t| == 0 then Err(EmptyLine)
    else match atoi(t)
      case None => Err(NotAnInteger(t))
      case Some(rss) => Ok(rss)
  }

  /** The parse loop from the running total `total` on: every line parsed and added modulo 2^64; the first error stops it. */
  function MemoryUsageFrom(total: nat, lines: seq<string>, atoi: string -> Option<int>): Result<nat, MemoryError>
    decreases |lines|
  {
    if |lines| == 0 then Ok(total)
    else match ParseLine(lines[0], atoi)
      case Err(e) => Err(e)
      case Ok(rss) => MemoryUsageFrom(AddUint(total, rss), lines[1..], atoi)
  }

  /** The lines of the `ps` output that the source reads. */
  function PsLines(psOutput: string): seq<string>
  {
    Segments(TrimSpace(psOutput), '\n')
  }

  /** The loop of getProcessTreeMemoryUsage. */
  method GetProcessTreeMemoryUsage(psOutput: string, atoi: string -> Option<int>) returns (r: Result<nat, MemoryError>)
    ensures r == MemoryUsageFrom(0, PsLines(psOutput), atoi)
  {
    var lines := Split(TrimSpace(psOutput), '\n');
    var memoryUsageInKiB: nat := 0;
    var i := 0;
    while i < |lines|
      invariant 0 <= i <= |lines|
      invariant MemoryUsageFrom(memoryUsageInKiB, lines[i..], atoi) == MemoryUsageFrom(0, lines, atoi)
    {
      assert lines[i..][0] == lines[i] && lines[i..][1..] == lines[i + 1..];
      var line := TrimSpace(lines[i]);
      if |line| == 0 {
        return Err(EmptyLine);
      }
      var rss := atoi(line);
      if rss.None? {
        return Err(NotAnInteger(line));
      }
      memoryUsageInKiB := AddUint(memoryUsageInKiB, rss.value);
      i := i + 1;
    }
    return Ok(memoryUsageInKiB);
  }

  /** Index of the first line that does not parse, or `|lines|` when every line does. */
  function FirstFailing(lines: seq<string>, atoi: string -> Option<int>): (k: nat)
    ensures k <= |lines|
    ensures forall j :: 0 <= j < k ==> ParseLine(lines[j], atoi).Ok?
    ensures k < |lines| ==> ParseLine(lines[k], atoi).Err?
  {
    if |lines| == 0 then 0
    else if ParseLine(lines[0], atoi).Err? then 0
    else
      var k := FirstFailing(lines[1..], atoi);
      assert forall j :: 1 <= j < k + 1 ==> lines[j] == lines[1..][j - 1];
      1 + k
  }

  /** The sum of the integers on the lines, without wrap-around. */
  function SumOfLines(lines: seq<string>, atoi: string -> Option<int>): int
  {
    if |lines| == 0 then 0
    else (match ParseLine(lines[0], atoi) case Ok(n) => n case Err(_) => 0) + SumOfLines(lines[1..], atoi)
  }

  /**
   The parse succeeds exactly when every trimmed line is a non-empty integer;
   otherwise it reports the error of the first line that is not.
   */
  lemma {:induction false} MemoryUsageErrors(total: nat, lines: seq<string>, atoi: string -> Option<int>)
    ensures var k := FirstFailing(lines, atoi);
      (MemoryUsageFrom(total, lines, atoi).Ok? <==> k == |lines|) &&
      (k < |lines| ==> MemoryUsageFrom(total, lines, atoi) == Err(ParseLine(lines[k], atoi).error))
    decreases |lines|
  {
    if |lines| > 0 && ParseLine(lines[0], atoi).Ok? {
      MemoryUsageErrors(AddUint(total, ParseLine(lines[0], atoi).value), lines[1..], atoi);
    }
  }

  /**
   A successful parse yields the sum of the integers modulo 2^64: Go converts
   each to `uint` and adds with wrap-around.
   */
  lemma {:induction false} MemoryUsageValue(total: nat, lines: seq<string>, atoi: string -> Option<int>)
    requires total < UintModulus
    requires MemoryUsageFrom(total, lines, atoi).Ok?
    ensures MemoryUsageFrom(total, lines, atoi).value == (total + SumOfLines(lines, atoi)) % UintModulus
    decreases |lines|
  {
    if |lines| > 0 {
      var rss := ParseLine(lines[0], atoi).value;
      MemoryUsageValue(AddUint(total, rss), lines[1..], atoi);
      ModAdd(total + rss, SumOfLines(lines[1..], atoi));
    }
  }

  lemma {:induction false} ModAdd(a: int, b: int)
    ensures ((a % UintModulus) + b) % UintModulus == (a + b) % UintModulus
  {
    var q := a / UintModulus;
    assert a == q * UintModulus + a % UintModulus;
    assert a + b == (a % UintModulus + b) + q * UintModulus;
    ModShift(a % UintModulus + b, q);
  }

  lemma {:induction false} ModShift(x: int, q: int)
    ensures (x + q * UintModulus) % UintModulus == x % UintModulus
  {
    var m := UintModulus;
    var r := x % m;
    var d := x / m;
    assert x + q * m == (d + q) * m + r;
    assert 0 <= r < m;
    DivUnique(x + q * m, d + q, r);
  }

  lemma {:induction false} DivUnique(y: int, d: int, r: int)
    requires y == d * UintModulus + r && 0 <= r < UintModulus
    ensures y % UintModulus == r
  {
  }

  /** An output with nothing but white space is rejected: it trims to one empty line. */
  lemma {:induction false} MemoryUsageOfBlankOutput(psOutput: string, atoi: string -> Option<int>)
    requires forall k :: 0 <= k < |psOutput| ==> IsSpace(psOutput[k])
    ensures MemoryUsageFrom(0, PsLines(psOutput), atoi) == Err(EmptyLine)
  {
    TrimSpaceOfBlank(psOutput);
    SegmentsOfEmpty('\n');
  }
}
