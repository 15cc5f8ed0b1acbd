/** The order JavaScript's `Array.prototype.sort()` uses when called without
    a comparator on strings, and the sorted duplicate-free list that
    `Array.from(new Set(xs)).sort()` produces. */
module StringOrder {

  /** `a` sorts strictly before `b`: characters compared left to right, and a
      proper prefix sorts before the longer string. */
  predicate Below(a: string, b: string)
    decreases |a|
  {
    |b| > 0 && (|a| == 0 || a[0] < b[0] || (a[0] == b[0] && Below(a[1..], b[1..])))
  }

  lemma {:induction false} BelowIrreflexive(a: string)
    ensures !Below(a, a)
    decreases |a|
  {
    if |a| > 0 {
      BelowIrreflexive(a[1..]);
    }
  }

  lemma {:induction false} BelowTransitive(a: string, b: string, c: string)
    requires Below(a, b) && Below(b, c)
    ensures Below(a, c)
    decreases |a|
  {
    if |a| > 0 && a[0] == b[0] && b[0] == c[0] {
      BelowTransitive(a[1..], b[1..], c[1..]);
    }
  }

  lemma {:induction false} BelowTotal(a: string, b: string)
    requires a != b
    ensures Below(a, b) || Below(b, a)
    decreases |a|
  {
    if |a| > 0 && |b| > 0 && a[0] == b[0] {
      assert a == [a[0]] + a[1..] && b == [b[0]] + b[1..];
      BelowTotal(a[1..], b[1..]);
    }
  }

  /** A proper prefix sorts first. */
  lemma {:induction false} PrefixBelow(a: string, b: string)
    requires |a| < |b| && a == b[..|a|]
    ensures Below(a, b)
    decreases |a|
  {
    if |a| > 0 {
      assert a[0] == b[0];
      PrefixBelow(a[1..], b[1..]);
    }
  }

  /** Otherwise the first position where the strings differ decides. */
  lemma {:induction false} DifferenceBelow(a: string, b: string, k: nat)
    requires k < |a| && k < |b| && a[..k] == b[..k] && a[k] < b[k]
    ensures Below(a, b)
    decreases k
  {
    if k > 0 {
      assert a[0] == a[..k][0] == b[..k][0] == b[0];
      assert a[1..][..k - 1] == a[..k][1..] == b[..k][1..] == b[1..][..k - 1];
      DifferenceBelow(a[1..], b[1..], k - 1);
    }
  }

  /** Each element sorts strictly before every later one; so no element repeats. */
  predicate StrictlySorted(xs: seq<string>) {
    forall i, j :: 0 <= i < j < |xs| ==> Below(xs[i], xs[j])
  }

  lemma StrictlySortedHasNoDuplicates(xs: seq<string>)
    requires StrictlySorted(xs)
    ensures forall i, j :: 0 <= i < j < |xs| ==> xs[i] != xs[j]
  {
    forall i, j | 0 <= i < j < |xs|
      ensures xs[i] != xs[j]
    {
      BelowIrreflexive(xs[i]);
    }
  }

  /** Adds `x` at its place in a strictly sorted list, unless it is already there. */
  function Insert(xs: seq<string>, x: string): (r: seq<string>)
    requires StrictlySorted(xs)
    ensures StrictlySorted(r)
    ensures forall e :: e in r <==> e in xs || e == x
  {
    if |xs| == 0 then [x]
    else if x == xs[0] then xs
    else if Below(x, xs[0]) then
      assert forall j :: 0 < j < |xs| ==> Below(x, xs[j]) by {
        forall j | 0 < j < |xs| ensures Below(x, xs[j]) {
          BelowTransitive(x, xs[0], xs[j]);
        }
      }
      [x] + xs
    else
      BelowTotal(x, xs[0]);
      var tail := Insert(xs[1..], x);
      assert forall e :: e in tail ==> Below(xs[0], e);
      [xs[0]] + tail
  }

  /** The distinct elements of `xs` in ascending order. */
  function SortedUnique(xs: seq<string>): (r: seq<string>)
    ensures StrictlySorted(r)
    ensures forall e :: e in r <==> e in xs
  {
    if |xs| == 0 then []
    else
      var r := Insert(SortedUnique(xs[..|xs| - 1]), xs[|xs| - 1]);
      assert xs == xs[..|xs| - 1] + [xs[|xs| - 1]];
      r
  }

  /** A strictly sorted list is determined by its elements: whatever algorithm
      sorts and de-duplicates a list, it yields `SortedUnique`'s answer. */
  lemma {:induction false} StrictlySortedIsUnique(a: seq<string>, b: seq<string>)
    requires StrictlySorted(a) && StrictlySorted(b)
    requires forall e :: e in a <==> e in b
    ensures a == b
    decreases |a|
  {
    if |a| > 0 {
      assert a[0] in b;
    }
    if |b| > 0 {
      assert b[0] in a;
    }
    if |a| > 0 && |b| > 0 {
      if a[0] != b[0] {
        assert a[0] in b;
        assert b[0] in a;
        var i :| 0 <= i < |a| && a[i] == b[0];
        var k :| 0 <= k < |b| && b[k] == a[0];
        assert Below(a[0], b[0]) by { assert i > 0; }
        assert Below(b[0], a[0]) by { assert k > 0; }
        BelowTransitive(a[0], b[0], a[0]);
        BelowIrreflexive(a[0]);
      }
      forall e | e in a[1..] ensures e in b[1..] {
        StrictlySortedHasNoDuplicates(a);
        var i :| 1 <= i < |a| && a[i] == e;
        assert e in a;
        var k :| 0 <= k < |b| && b[k] == e;
      }
      forall e | e in b[1..] ensures e in a[1..] {
        var i :| 1 <= i < |b| && b[i] == e;
        assert e in b;
        var k :| 0 <= k < |a| && a[k] == e;
        if k == 0 {
          BelowIrreflexive(b[0]);
        }
      }
      StrictlySortedIsUnique(a[1..], b[1..]);
      assert a == [a[0]] + a[1..] && b == [b[0]] + b[1..];
    }
  }
}
