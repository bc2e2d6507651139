/**
 Model of conversion.go: keeping the elements of an untyped slice that have a
 given type. Go's type assertion `v.(T)` is the parameter `cast`, which yields
 the value as a `T` when `v` has that type and None otherwise.
 */
module Conversion {
  import opened Wrappers

  /** The converted elements, in the order of the input. */
  function Converted<A, T>(anySlice: seq<A>, cast: A -> Option<T>): seq<T>
  {
    if |anySlice| == 0 then []
    else (match cast(anySlice[0]) case Some(x) => [x] case None => []) + Converted(anySlice[1..], cast)
  }

  /** The loop of AnySliceToTypeSlice. */
  method AnySliceToTypeSlice<A, T>(anySlice: seq<A>, cast: A -> Option<T>) returns (typeSlice: seq<T>)
    ensures typeSlice == Converted(anySlice, cast)
    ensures |typeSlice| <= |anySlice|
  {
    typeSlice := [];
    for i := 0 to |anySlice|
      invariant typeSlice == Converted(anySlice[..i], cast)
    {
      var c := cast(anySlice[i]);
      ConvertedSnoc(anySlice, cast, i);
      if c.Some? {
        typeSlice := typeSlice + [c.value];
      }
    }
    assert anySlice[..|anySlice|] == anySlice;
    ConvertedLength(anySlice, cast);
  }

  /** At most one element per input element. */
  lemma {:induction false} ConvertedLength<A, T>(anySlice: seq<A>, cast: A -> Option<T>)
    ensures |Converted(anySlice, cast)| <= |anySlice|
  {
    if |anySlice| > 0 {
      ConvertedLength(anySlice[1..], cast);
    }
  }

  lemma {:induction false} ConvertedAppend<A, T>(a: seq<A>, b: seq<A>, cast: A -> Option<T>)
    ensures Converted(a + b, cast) == Converted(a, cast) + Converted(b, cast)
  {
    if |a| == 0 {
      assert a + b == b;
    } else {
      assert (a + b)[1..] == a[1..] + b;
      ConvertedAppend(a[1..], b, cast);
    }
  }

  /** Converting one more element appends what it converts to. */
  lemma {:induction false} ConvertedSnoc<A, T>(anySlice: seq<A>, cast: A -> Option<T>, i: nat)
    requires i < |anySlice|
    ensures Converted(anySlice[..i + 1], cast) ==
      Converted(anySlice[..i], cast) + match cast(anySlice[i]) case Some(x) => [x] case None => []
  {
    assert anySlice[..i + 1] == anySlice[..i] + [anySlice[i]];
    ConvertedAppend(anySlice[..i], [anySlice[i]], cast);
    assert [anySlice[i]][1..] == [];
  }

  /**
   Elements are kept in order: every converted element comes from some input
   element, and an element matching at `i` is followed in the result by what
   the elements after `i` convert to.
   */
  lemma {:induction false} ConvertedOrigin<A, T>(anySlice: seq<A>, cast: A -> Option<T>, i: nat)
    requires i < |anySlice| && cast(anySlice[i]).Some?
    ensures Converted(anySlice, cast) ==
      Converted(anySlice[..i], cast) + [cast(anySlice[i]).value] + Converted(anySlice[i + 1..], cast)
  {
    assert anySlice == anySlice[..i] + ([anySlice[i]] + anySlice[i + 1..]);
    ConvertedAppend(anySlice[..i], [anySlice[i]] + anySlice[i + 1..], cast);
    assert ([anySlice[i]] + anySlice[i + 1..])[1..] == anySlice[i + 1..];
  }

  lemma {:induction false} ConvertedMembers<A, T>(anySlice: seq<A>, cast: A -> Option<T>, x: T)
    requires x in Converted(anySlice, cast)
    ensures exists i :: 0 <= i < |anySlice| && cast(anySlice[i]) == Some(x)
  {
    if cast(anySlice[0]) != Some(x) {
      ConvertedMembers(anySlice[1..], cast, x);
      var i :| 0 <= i < |anySlice[1..]| && cast(anySlice[1..][i]) == Some(x);
      assert anySlice[i + 1] == anySlice[1..][i];
    }
  }

  /** When every element has the type, each is kept and converted. */
  lemma {:induction false} ConvertedAll<A, T>(anySlice: seq<A>, cast: A -> Option<T>)
    requires forall i :: 0 <= i < |anySlice| ==> cast(anySlice[i]).Some?
    ensures |Converted(anySlice, cast)| == |anySlice|
    ensures forall i :: 0 <= i < |anySlice| ==> Converted(anySlice, cast)[i] == cast(anySlice[i]).value
  {
    if |anySlice| > 0 {
      assert forall i :: 0 <= i < |anySlice[1..]| ==> anySlice[1..][i] == anySlice[i + 1];
      ConvertedAll(anySlice[1..], cast);
    }
  }

  /** The result is empty exactly when no element has the type (Go returns nil then). */
  lemma {:induction false} ConvertedEmpty<A, T>(anySlice: seq<A>, cast: A -> Option<T>)
    ensures Converted(anySlice, cast) == [] <==> forall i :: 0 <= i < |anySlice| ==> cast(anySlice[i]).None?
  {
    if |anySlice| > 0 {
      ConvertedEmpty(anySlice[1..], cast);
      assert forall i :: 0 <= i < |anySlice[1..]| ==> anySlice[1..][i] == anySlice[i + 1];
      if cast(anySlice[0]).None? && forall i :: 0 <= i < |anySlice[1..]| ==> cast(anySlice[1..][i]).None? {
        forall i | 0 <= i < |anySlice| ensures cast(anySlice[i]).None? {
          if i > 0 { assert anySlice[i] == anySlice[1..][i - 1]; }
        }
      }
    }
  }
}
