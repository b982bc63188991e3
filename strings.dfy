/** String helpers the scheduler relies on: prefix tests, character removal
    (JavaScript's `s.replace(/c/g, '')`) and cutting at a separator. */
module Strings {

  predicate StartsWith(s: string, prefix: string)
  {
    |prefix| <= |s| && s[..|prefix|] == prefix
  }

  /** `s` with every occurrence of `c` deleted, the rest kept in order. */
  function RemoveChar(s: string, c: char): string
  {
    if s == [] then []
    else (if s[0] == c then [] else [s[0]]) + RemoveChar(s[1..], c)
  }

  lemma {:induction false} RemoveCharAppend(a: string, b: string, c: char)
    ensures RemoveChar(a + b, c) == RemoveChar(a, c) + RemoveChar(b, c)
  {
    if a != [] {
      assert (a + b)[0] == a[0] && (a + b)[1..] == a[1..] + b;
      RemoveCharAppend(a[1..], b, c);
    } else {
      assert a + b == b;
    }
  }

  lemma {:induction false} RemoveAbsentChar(s: string, c: char)
    requires c !in s
    ensures RemoveChar(s, c) == s
  {
    if s != [] {
      RemoveAbsentChar(s[1..], c);
    }
  }

  /** Removing both separators of `a c b c e` joins the three separator-free parts. */
  lemma RemoveSeparators(a: string, b: string, e: string, c: char)
    requires c !in a && c !in b && c !in e
    ensures RemoveChar(a + [c] + b + [c] + e, c) == a + b + e
  {
    assert RemoveChar([c], c) == [];
    RemoveAbsentChar(a, c);
    RemoveAbsentChar(b, c);
    RemoveAbsentChar(e, c);
    var x := a + [c];
    RemoveCharAppend(a, [c], c);
    assert RemoveChar(x, c) == a;
    var y := x + b;
    RemoveCharAppend(x, b, c);
    assert RemoveChar(y, c) == a + b;
    var z := y + [c];
    RemoveCharAppend(y, [c], c);
    assert RemoveChar(z, c) == a + b;
    RemoveCharAppend(z, e, c);
  }

  /** The longest prefix of `s` in which `c` does not occur. */
  function TakeUntil(s: string, c: char): (r: string)
    ensures StartsWith(s, r) && c !in r
    ensures |r| < |s| ==> s[|r|] == c
  {
    if s == [] || s[0] == c then []
    else [s[0]] + TakeUntil(s[1..], c)
  }

  /** Cutting `a + [c] + b` at its first `c` gives back `a`. */
  lemma TakeUntilSeparator(a: string, c: char, b: string)
    requires c !in a
    ensures TakeUntil(a + [c] + b, c) == a
  {
    var s := a + [c] + b;
    var r := TakeUntil(s, c);
    assert s[|a|] == c;
    assert |r| == |a|;
  }

  /** A separator-free prefix of `a + [c] + b` that is at least as long as `a` is `a`. */
  lemma PrefixBeforeSeparator(a: string, c: char, b: string, p: string)
    requires c !in p && |a| <= |p|
    requires StartsWith(a + [c] + b, p)
    ensures p == a
  {
    var s := a + [c] + b;
    assert s[|a|] == c;
    assert forall i :: 0 <= i < |p| ==> p[i] == s[i] && p[i] != c;
    assert p == s[..|a|];
  }
}
