/**
 Model of env.go. The process environment is a parameter: `environ` is the
 list of "KEY=value" entries that os.Environ returns, `env` the map that
 os.LookupEnv consults.
 */
module Env {
  import opened Wrappers
  import opened Strings

  type Environment = map<string, string>

  /** The map EnvironMap builds from `environ`, starting from `m`; None where an entry without '=' makes the source index past the end of its split. */
  function EnvironFrom(m: Environment, environ: seq<string>): Option<Environment>
    decreases |environ|
  {
    if |environ| == 0 then Some(m)
    else match CutFirst(environ[0], '=')
      case None => None
      case Some((key, value)) => EnvironFrom(m[key := value], environ[1..])
  }

  /** The variable name of an entry: the text before its first '='. */
  function Key(e: string): string
    requires '=' in e
  {
    CutFirst(e, '=').value.0
  }

  /** The value of an entry: everything after its first '=', further '=' included. */
  function Value(e: string): string
    requires '=' in e
  {
    CutFirst(e, '=').value.1
  }

  /** Every entry has a '='. */
  predicate WellFormed(environ: seq<string>)
  {
    forall i :: 0 <= i < |environ| ==> '=' in environ[i]
  }

  /** The loop of the source. */
  method EnvironMap(environ: seq<string>) returns (environMap: Option<Environment>)
    ensures environMap == EnvironFrom(map[], environ)
  {
    var m: Environment := map[];
    var i := 0;
    while i < |environ|
      invariant 0 <= i <= |environ|
      invariant EnvironFrom(m, environ[i..]) == EnvironFrom(map[], environ)
    {
      var kv := CutFirst(environ[i], '=');
      assert environ[i..][0] == environ[i] && environ[i..][1..] == environ[i + 1..];
      if kv.None? {
        return None;
      }
      m := m[kv.value.0 := kv.value.1];
      i := i + 1;
    }
    return Some(m);
  }

  /** Building the map fails exactly when some entry has no '='. */
  lemma {:induction false} EnvironFromFails(m: Environment, environ: seq<string>)
    ensures EnvironFrom(m, environ).None? <==> !WellFormed(environ)
    decreases |environ|
  {
    if |environ| > 0 {
      if '=' in environ[0] {
        EnvironFromFails(m[Key(environ[0]) := Value(environ[0])], environ[1..]);
        if !WellFormed(environ) {
          var i :| 0 <= i < |environ| && '=' !in environ[i];
          assert environ[1..][i - 1] == environ[i];
        }
      }
    }
  }

  /** The keys of the result are the keys already in `m` and the keys of the entries. */
  lemma {:induction false} EnvironFromKeys(m: Environment, environ: seq<string>, key: string)
    requires WellFormed(environ)
    ensures EnvironFrom(m, environ).Some?
    ensures key in EnvironFrom(m, environ).value <==>
      key in m || exists i :: 0 <= i < |environ| && Key(environ[i]) == key
    decreases |environ|
  {
    EnvironFromFails(m, environ);
    if |environ| > 0 {
      var rest := environ[1..];
      assert WellFormed(rest) by {
        forall i | 0 <= i < |rest| ensures '=' in rest[i] { assert rest[i] == environ[i + 1]; }
      }
      EnvironFromKeys(m[Key(environ[0]) := Value(environ[0])], rest, key);
      if exists i :: 0 <= i < |rest| && Key(rest[i]) == key {
        var i :| 0 <= i < |rest| && Key(rest[i]) == key;
        assert environ[i + 1] == rest[i];
      }
      if exists i :: 0 <= i < |environ| && Key(environ[i]) == key {
        var i :| 0 <= i < |environ| && Key(environ[i]) == key;
        if i > 0 {
          assert rest[i - 1] == environ[i];
        }
      }
    }
  }

  /** Entries with other keys leave the value of `key` as it is. */
  lemma {:induction false} EnvironFromUntouched(m: Environment, environ: seq<string>, key: string)
    requires WellFormed(environ)
    requires forall i :: 0 <= i < |environ| ==> Key(environ[i]) != key
    requires key in m
    ensures EnvironFrom(m, environ).Some?
    ensures key in EnvironFrom(m, environ).value && EnvironFrom(m, environ).value[key] == m[key]
    decreases |environ|
  {
    if |environ| > 0 {
      var rest := environ[1..];
      assert forall i :: 0 <= i < |rest| ==> rest[i] == environ[i + 1];
      EnvironFromUntouched(m[Key(environ[0]) := Value(environ[0])], rest, key);
    }
  }

  /** The value of a key is the value of the LAST entry with that key: later duplicates overwrite earlier ones. */
  lemma {:induction false} EnvironFromLastWins(m: Environment, environ: seq<string>, i: nat)
    requires WellFormed(environ)
    requires i < |environ|
    requires forall j :: i < j < |environ| ==> Key(environ[j]) != Key(environ[i])
    ensures EnvironFrom(m, environ).Some?
    ensures Key(environ[i]) in EnvironFrom(m, environ).value
    ensures EnvironFrom(m, environ).value[Key(environ[i])] == Value(environ[i])
    decreases |environ|
  {
    var rest := environ[1..];
    assert forall j :: 0 <= j < |rest| ==> rest[j] == environ[j + 1];
    var m' := m[Key(environ[0]) := Value(environ[0])];
    if i == 0 {
      EnvironFromUntouched(m', rest, Key(environ[0]));
    } else {
      EnvironFromLastWins(m', rest, i - 1);
    }
  }

  /** Go's os.LookupEnv: the value of `key`, if it is set. */
  function LookupEnv(env: Environment, key: string): Option<string>
  {
    if key in env then Some(env[key]) else None
  }

  /** EnvOrDefault: the value of `key` when it is set, even when that value is empty; `defaultValue` otherwise. */
  function EnvOrDefault(env: Environment, key: string, defaultValue: string): (value: string)
    ensures key in env ==> value == env[key]
    ensures key !in env ==> value == defaultValue
  {
    match LookupEnv(env, key)
    case Some(v) => v
    case None => defaultValue
  }

  /** The error of RequireEnv: the variable `key` needs to be set. */
  datatype EnvError = NotSet(key: string)

  /** RequireEnv: the value of `key`, or an error naming `key` exactly when it is not set. */
  function RequireEnv(env: Environment, key: string): (r: Result<string, EnvError>)
    ensures r.Err? <==> key !in env
    ensures r.Ok? ==> r.value == env[key]
    ensures r.Err? ==> r.error == NotSet(key)
  {
    match LookupEnv(env, key)
    case Some(v) => Ok(v)
    case None => Err(NotSet(key))
  }

  /** EnvOrDefault is RequireEnv with the error replaced by the default value. */
  lemma {:induction false} EnvOrDefaultRequireEnv(env: Environment, key: string, defaultValue: string)
    ensures EnvOrDefault(env, key, defaultValue) == match RequireEnv(env, key)
      case Ok(v) => v
      case Err(_) => defaultValue
  {
  }

  /** The values that enable a variable without further arguments, in lower case. */
  const DefaultEnabledValues: seq<string> := ["1", "true", "on", "yes"]

  /**
   IsEnvEnabled: the variable is set, and its lower-cased value is one of the
   default enabled values or EQUAL to one of the additional values, which are
   not lower-cased.
   */
  predicate EnvEnabled(env: Environment, key: string, additionalEnabledValues: seq<string>)
  {
    key in env && (ToLower(env[key]) in DefaultEnabledValues || ToLower(env[key]) in additionalEnabledValues)
  }

  /** The code of the source, with its loop over the additional values. */
  method IsEnvEnabled(env: Environment, key: string, additionalEnabledValues: seq<string>) returns (enabled: bool)
    ensures enabled == EnvEnabled(env, key, additionalEnabledValues)
    ensures key !in env ==> !enabled
  {
    if key !in env {
      return false;
    }
    var value := ToLower(env[key]);
    if value == "1" || value == "true" || value == "on" || value == "yes" {
      return true;
    }
    for i := 0 to |additionalEnabledValues|
      invariant value !in additionalEnabledValues[..i]
    {
      if value == additionalEnabledValues[i] {
        return true;
      }
    }
    assert additionalEnabledValues[..|additionalEnabledValues|] == additionalEnabledValues;
    return false;
  }

  /** Values differing only in the case of their letters enable a variable alike. */
  lemma {:induction false} EnvEnabledIgnoresCase(env: Environment, key: string, v: string, w: string, extra: seq<string>)
    requires ToLower(v) == ToLower(w)
    ensures EnvEnabled(env[key := v], key, extra) == EnvEnabled(env[key := w], key, extra)
  {
  }

  lemma {:induction false} LowerOfLower(s: string)
    requires forall k :: 0 <= k < |s| ==> !('A' <= s[k] <= 'Z')
    ensures ToLower(s) == s
  {
  }

  /** The cases of the tests of the source. */
  lemma {:induction false} EnvEnabledExamples(env: Environment, key: string)
    ensures EnvEnabled(env[key := "1"], key, []) && EnvEnabled(env[key := "yes"], key, [])
    ensures EnvEnabled(env[key := "on"], key, []) && EnvEnabled(env[key := "true"], key, [])
    ensures EnvEnabled(env[key := "True"], key, []) && EnvEnabled(env[key := "TRUE"], key, [])
    ensures !EnvEnabled(env[key := "0"], key, []) && !EnvEnabled(env[key := ""], key, [])
    ensures EnvEnabled(env[key := "positive"], key, ["positive"])
    ensures !EnvEnabled(env[key := "negative"], key, ["positive"])
    ensures !EnvEnabled(env - {key}, key, ["positive"])
  {
    LowerOfLower("1");
    LowerOfLower("yes");
    LowerOfLower("on");
    LowerOfLower("true");
    LowerOfLower("0");
    LowerOfLower("");
    LowerOfLower("positive");
    LowerOfLower("negative");
    assert ToLower("True") == "true";
    assert ToLower("TRUE") == "true";
  }

  /**
   The documentation says that capitalisation is ignored, but an additional
   value with an upper-case letter can never match: the value it is compared
   with has been lower-cased.
   */
  lemma {:induction false} UpperCaseAdditionalValueNeverMatches(env: Environment, key: string)
    ensures !EnvEnabled(env[key := "Positive"], key, ["Positive"])
    ensures !EnvEnabled(env[key := "POSITIVE"], key, ["POSITIVE"])
  {
    assert ToLower("Positive") == "positive";
    assert ToLower("POSITIVE") == "positive";
  }

  /** IsEnvEnabled with the additional values lower-cased as well. */
  predicate EnvEnabledIgnoringCase(env: Environment, key: string, additionalEnabledValues: seq<string>)
  {
    key in env &&
    (ToLower(env[key]) in DefaultEnabledValues ||
     exists i :: 0 <= i < |additionalEnabledValues| && ToLower(additionalEnabledValues[i]) == ToLower(env[key]))
  }

  /**
   Ignoring capitalisation on both sides: a set variable is enabled when its
   value equals an additional value up to case; and on lower-case additional
   values the correction agrees with the source.
   */
  lemma {:induction false} EnvEnabledIgnoringCaseMatches(env: Environment, key: string, extra: seq<string>, i: nat)
    requires key in env && i < |extra| && ToLower(extra[i]) == ToLower(env[key])
    ensures EnvEnabledIgnoringCase(env, key, extra)
  {
  }

  lemma {:induction false} EnvEnabledIgnoringCaseAgrees(env: Environment, key: string, extra: seq<string>)
    requires forall i :: 0 <= i < |extra| ==> ToLower(extra[i]) == extra[i]
    ensures EnvEnabledIgnoringCase(env, key, extra) == EnvEnabled(env, key, extra)
  {
    if key in env && ToLower(env[key]) in extra {
      var i :| 0 <= i < |extra| && extra[i] == ToLower(env[key]);
      assert ToLower(extra[i]) == ToLower(env[key]);
    }
  }

  /** The corrected check accepts the upper-case additional value that the source rejects. */
  lemma {:induction false} EnvEnabledIgnoringCaseExample(env: Environment, key: string)
    ensures EnvEnabledIgnoringCase(env[key := "Positive"], key, ["Positive"])
  {
    EnvEnabledIgnoringCaseMatches(env[key := "Positive"], key, ["Positive"], 0);
  }
}
