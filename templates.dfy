/**
 Model of templateutil/defaults.go: merging two template function maps, and
 the `lowerFirst` template function. The functions of a template.FuncMap are
 opaque values of the type parameter `F`.
 */
module Templates {
  import opened Wrappers
  import opened Strings

  /**
   MergeFuncMaps: a new map with every key of `a` and of `b`; a key defined
   in both takes the entry of `b`, a key only in `a` keeps its entry. The
   arguments are values, so neither is changed. Whatever order the loops
   visit the keys in, the result is the right-biased union `a + b`.
   */
  method MergeFuncMaps<F>(a: map<string, F>, b: map<string, F>) returns (c: map<string, F>)
    ensures c.Keys == a.Keys + b.Keys
    ensures forall n :: n in b ==> c[n] == b[n]
    ensures forall n :: n in a && n !in b ==> c[n] == a[n]
    ensures c == a + b
  {
    c := map[];
    var rest := a.Keys;
    while rest != {}
      invariant rest <= a.Keys
      invariant c.Keys == a.Keys - rest
      invariant forall n :: n in c ==> c[n] == a[n]
      decreases rest
    {
      var n :| n in rest;
      c := c[n := a[n]];
      rest := rest - {n};
    }
    rest := b.Keys;
    while rest != {}
      invariant rest <= b.Keys
      invariant c.Keys == a.Keys + (b.Keys - rest)
      invariant forall n :: n in c && n in b && n !in rest ==> c[n] == b[n]
      invariant forall n :: n in c && (n !in b || n in rest) ==> c[n] == a[n]
      decreases rest
    {
      var n :| n in rest;
      c := c[n := b[n]];
      rest := rest - {n};
    }
  }

  /** lowerFirst: the first byte lower-cased, the rest unchanged; None where the source indexes an empty string. */
  function LowerFirst(s: string): (r: Option<string>)
    ensures r.None? <==> s == ""
  {
    if s == "" then None else Some([ToLowerChar(s[0])] + s[1..])
  }

  /**
   Only the first letter changes: the result differs from `s` at most in its
   first character, lower-cases to the same string, and a second application
   changes nothing.
   */
  lemma {:induction false} LowerFirstProperties(s: string)
    requires s != ""
    ensures var r := LowerFirst(s).value;
      |r| == |s| && r[1..] == s[1..] && !('A' <= r[0] <= 'Z') &&
      ToLower(r) == ToLower(s) && LowerFirst(r) == Some(r)
  {
    var r := LowerFirst(s).value;
    assert r[1..] == s[1..];
    assert forall k :: 1 <= k < |r| ==> r[k] == s[k];
    assert ToLowerChar(r[0]) == r[0];
    assert [ToLowerChar(r[0])] + r[1..] == r;
  }
}
