/** String operations of Python's `str` and JavaScript's `String` that the
    core relies on, each stated over `seq<char>`. */
module Text {

  /** `s.startswith(pat)` */
  predicate StartsWith(s: string, pat: string) {
    |pat| <= |s| && s[..|pat|] == pat
  }

  /** `s.endswith(suffix)` */
  predicate EndsWith(s: string, suffix: string) {
    |suffix| <= |s| && s[|s| - |suffix|..] == suffix
  }

  lemma EndsWithAppend(head: string, tail: string)
    ensures EndsWith(head + tail, tail)
  {
    assert (head + tail)[|head|..] == tail;
  }

  /** `pat in s` for strings: `pat` occurs somewhere in `s`. */
  predicate Contains(s: string, pat: string)
    decreases |s|
  {
    StartsWith(s, pat) || (|s| > 0 && Contains(s[1..], pat))
  }

  /** `s.replace(pat, "")`: every occurrence of `pat`, found left to right
      without overlap, is deleted. */
  function RemoveAll(s: string, pat: string): (r: string)
    requires |pat| > 0
    ensures |r| <= |s|
    decreases |s|
  {
    if |s| == 0 then ""
    else if StartsWith(s, pat) then RemoveAll(s[|pat|..], pat)
    else [s[0]] + RemoveAll(s[1..], pat)
  }

  /** Removal only deletes: every character left was in the input. */
  lemma {:induction false} RemoveAllKeepsCharacters(s: string, pat: string, c: char)
    requires |pat| > 0 && c in RemoveAll(s, pat)
    ensures c in s
    decreases |s|
  {
    if StartsWith(s, pat) {
      RemoveAllKeepsCharacters(s[|pat|..], pat, c);
    } else if c != s[0] {
      RemoveAllKeepsCharacters(s[1..], pat, c);
    }
  }

  /** `pat` occurs in `a + pat + b`. */
  lemma {:induction false} ContainsInfix(a: string, pat: string, b: string)
    ensures Contains(a + pat + b, pat)
    decreases |a|
  {
    if |a| == 0 {
      assert (a + pat + b)[..|pat|] == pat;
    } else {
      ContainsInfix(a[1..], pat, b);
      assert (a + pat + b)[1..] == a[1..] + pat + b;
    }
  }

  /** Removing a pattern that does not occur changes nothing. */
  lemma {:induction false} RemoveAllAbsent(s: string, pat: string)
    requires |pat| > 0 && !Contains(s, pat)
    ensures RemoveAll(s, pat) == s
    decreases |s|
  {
    if |s| > 0 {
      RemoveAllAbsent(s[1..], pat);
      assert s == [s[0]] + s[1..];
    }
  }

  /** No occurrence of `pat` can straddle a character that `pat` lacks, so
      removal works on each side of it separately. */
  lemma {:induction false} RemoveAllAround(a: string, c: char, b: string, pat: string)
    requires |pat| > 0 && c !in pat
    ensures RemoveAll(a + [c] + b, pat) == RemoveAll(a, pat) + [c] + RemoveAll(b, pat)
    decreases |a|
  {
    var s := a + [c] + b;
    if |a| == 0 {
      DropAround(a, c, b, 0);
      RemoveAllSkip(s, pat);
    } else {
      StartsWithAround(a, c, b, pat);
      if StartsWith(s, pat) {
        DropAround(a, c, b, |pat|);
        RemoveAllAt(s, pat);
        RemoveAllAt(a, pat);
        RemoveAllAround(a[|pat|..], c, b, pat);
      } else {
        DropAround(a, c, b, 1);
        RemoveAllSkip(s, pat);
        RemoveAllSkip(a, pat);
        RemoveAllAround(a[1..], c, b, pat);
        Regroup4([a[0]], RemoveAll(a[1..], pat), [c], RemoveAll(b, pat));
      }
    }
  }

  lemma Regroup4(w: string, x: string, y: string, z: string)
    ensures w + (x + y + z) == (w + x) + y + z
  {
  }

  /** A leading occurrence is deleted and the scan resumes after it. */
  lemma RemoveAllAt(s: string, pat: string)
    requires |pat| > 0 && |s| > 0 && StartsWith(s, pat)
    ensures RemoveAll(s, pat) == RemoveAll(s[|pat|..], pat)
  {
  }

  /** Without an occurrence in front, the first character is kept. */
  lemma RemoveAllSkip(s: string, pat: string)
    requires |pat| > 0 && |s| > 0 && !StartsWith(s, pat)
    ensures RemoveAll(s, pat) == [s[0]] + RemoveAll(s[1..], pat)
  {
  }

  /** `a + [c] + b` starts with a `c`-free pattern exactly when `a` does. */
  lemma StartsWithAround(a: string, c: char, b: string, pat: string)
    requires c !in pat
    ensures StartsWith(a + [c] + b, pat) <==> StartsWith(a, pat)
  {
    var s := a + [c] + b;
    if |a| < |pat| <= |s| {
      LongPrefixHolds(a, c, b, |pat|);
    }
    if |pat| <= |a| {
      assert s[..|pat|] == a[..|pat|];
    }
  }

  lemma LongPrefixHolds(a: string, c: char, b: string, k: nat)
    requires |a| < k <= |a| + 1 + |b|
    ensures c in (a + [c] + b)[..k]
  {
    assert (a + [c] + b)[..k][|a|] == c;
  }

  lemma DropAround(a: string, c: char, b: string, k: nat)
    requires k <= |a|
    ensures (a + [c] + b)[k..] == a[k..] + [c] + b
    ensures |a + [c] + b| > 0 && (a + [c] + b)[|a|] == c
    ensures |a| > 0 ==> (a + [c] + b)[0] == a[0]
  {
  }

  /** A trailing `pat` is removed without disturbing what precedes it,
      provided the first character of `pat` does not recur in it. */
  lemma {:induction false} RemoveAllSuffix(x: string, pat: string)
    requires |pat| > 0 && pat[0] !in pat[1..]
    ensures RemoveAll(x + pat, pat) == RemoveAll(x, pat)
    decreases |x|
  {
    var s := x + pat;
    if |x| == 0 {
      assert s == pat;
      assert s[..|pat|] == pat;
      assert s[|pat|..] == "";
    } else if StartsWith(s, pat) {
      assert s[|x|] == pat[0];
      assert forall k :: 0 <= k < |pat| ==> pat[k] == s[k];
      assert forall k :: 1 <= k < |pat| ==> pat[k] == pat[1..][k - 1];
      assert |pat| <= |x|;
      assert s[..|pat|] == x[..|pat|];
      assert s[|pat|..] == x[|pat|..] + pat;
      RemoveAllSuffix(x[|pat|..], pat);
    } else {
      if |pat| <= |x| {
        assert s[..|pat|] == x[..|pat|];
      }
      assert s[1..] == x[1..] + pat;
      RemoveAllSuffix(x[1..], pat);
    }
  }

  /** Index of the first `c` in `s`. */
  function IndexOf(s: string, c: char): (i: nat)
    requires c in s
    ensures i < |s| && s[i] == c && c !in s[..i]
  {
    if s[0] == c then 0 else 1 + IndexOf(s[1..], c)
  }

  /** `s.split(sep)` for a one-character separator, in both Python and
      JavaScript: the maximal `sep`-free pieces, empty pieces kept. */
  function Split(s: string, sep: char): (parts: seq<string>)
    ensures |parts| >= 1
    ensures |parts| == 1 <==> sep !in s
    ensures forall i :: 0 <= i < |parts| ==> sep !in parts[i]
    decreases |s|
  {
    if sep !in s then [s]
    else
      var i := IndexOf(s, sep);
      [s[..i]] + Split(s[i + 1..], sep)
  }

  /** The pieces glued back with `sep` between neighbours: `sep.join(parts)`. */
  function Join(parts: seq<string>, sep: char): string
    requires |parts| >= 1
  {
    if |parts| == 1 then parts[0] else parts[0] + [sep] + Join(parts[1..], sep)
  }

  /** Joining the pieces of a split restores the original string. */
  lemma {:induction false} JoinSplit(s: string, sep: char)
    ensures Join(Split(s, sep), sep) == s
    decreases |s|
  {
    if sep in s {
      var i := IndexOf(s, sep);
      var rest := Split(s[i + 1..], sep);
      JoinSplit(s[i + 1..], sep);
      SplitUnfold(s, sep);
      JoinCons(s[..i], rest, sep);
      Reassemble(s, i);
    }
  }

  lemma SplitUnfold(s: string, sep: char)
    requires sep in s
    ensures Split(s, sep) == [s[..IndexOf(s, sep)]] + Split(s[IndexOf(s, sep) + 1..], sep)
  {
  }

  lemma JoinCons(a: string, parts: seq<string>, sep: char)
    requires |parts| >= 1
    ensures Join([a] + parts, sep) == a + [sep] + Join(parts, sep)
  {
    assert ([a] + parts)[1..] == parts;
  }

  lemma Reassemble<T>(s: seq<T>, i: nat)
    requires i < |s|
    ensures s[..i] + [s[i]] + s[i + 1..] == s
  {
  }

  function Last<T>(xs: seq<T>): T
    requires |xs| > 0
  {
    xs[|xs| - 1]
  }

  /** The last piece of a split is the text after the last separator: a
      separator-free suffix of `s`, preceded by `sep` whenever `s` holds one. */
  lemma {:induction false} LastPieceIsTail(s: string, sep: char)
    ensures IsTail(s, Last(Split(s, sep)), sep)
    decreases |s|
  {
    if sep in s {
      var i := IndexOf(s, sep);
      var rest := s[i + 1..];
      LastPieceIsTail(rest, sep);
      var parts := Split(rest, sep);
      assert Split(s, sep) == [s[..i]] + parts;
      assert Last(Split(s, sep)) == Last(parts);
      TailOfRest(s, i, Last(parts), sep);
    }
  }

  /** `tail` is a `sep`-free suffix of `s` that is preceded by `sep` whenever
      `s` holds a `sep`, and is all of `s` otherwise. */
  predicate IsTail(s: string, tail: string, sep: char) {
    && |tail| <= |s|
    && tail == s[|s| - |tail|..]
    && sep !in tail
    && (sep in s ==> |tail| < |s| && s[|s| - |tail| - 1] == sep)
    && (sep !in s ==> tail == s)
  }

  lemma TailOfRest(s: string, i: nat, tail: string, sep: char)
    requires i < |s| && s[i] == sep
    requires IsTail(s[i + 1..], tail, sep)
    ensures IsTail(s, tail, sep)
  {
    var rest := s[i + 1..];
    assert rest[|rest| - |tail|..] == s[|s| - |tail|..];
    if sep in rest {
      assert rest[|rest| - |tail| - 1] == s[|s| - |tail| - 1];
    } else {
      assert |tail| == |rest|;
    }
  }

  /** The first separator of `a + [sep] + b` is the one after `a`, when `a`
      holds none. */
  lemma IndexOfAfter(a: string, sep: char, b: string)
    requires sep !in a
    ensures sep in a + [sep] + b && IndexOf(a + [sep] + b, sep) == |a|
  {
    var s := a + [sep] + b;
    assert s[..|a|] == a;
    assert s[|a|] == sep;
  }

  /** Splitting at a first separator peels off the text before it. */
  lemma SplitAtFirst(a: string, sep: char, b: string)
    requires sep !in a
    ensures Split(a + [sep] + b, sep) == [a] + Split(b, sep)
  {
    var s := a + [sep] + b;
    IndexOfAfter(a, sep, b);
    assert s[..|a|] == a;
    assert s[|a| + 1..] == b;
  }

  /** Python's `str.isspace` for one character: the characters `strip()`
      removes when called without arguments. */
  predicate IsSpace(c: char) {
    || c == ' ' || c == '\t' || c == '\n' || c == '\r'
    || c == '\U{0B}' || c == '\U{0C}'
    || ('\U{1C}' <= c <= '\U{1F}')
    || c == '\U{85}' || c == '\U{A0}' || c == '\U{1680}'
    || ('\U{2000}' <= c <= '\U{200A}')
    || c == '\U{2028}' || c == '\U{2029}' || c == '\U{202F}' || c == '\U{205F}' || c == '\U{3000}'
  }

  /** Drops the longest prefix whose characters all satisfy `drop`. */
  function TrimStart(s: string, drop: char -> bool): (r: string)
    ensures |r| <= |s| && r == s[|s| - |r|..]
    ensures forall i :: 0 <= i < |s| - |r| ==> drop(s[i])
    ensures |r| > 0 ==> !drop(r[0])
    decreases |s|
  {
    if |s| > 0 && drop(s[0]) then TrimStart(s[1..], drop) else s
  }

  /** Drops the longest suffix whose characters all satisfy `drop`:
      `s.rstrip(chars)`. */
  function TrimEnd(s: string, drop: char -> bool): (r: string)
    ensures |r| <= |s| && r == s[..|r|]
    ensures forall i :: |r| <= i < |s| ==> drop(s[i])
    ensures |r| > 0 ==> !drop(r[|r| - 1])
    decreases |s|
  {
    if |s| > 0 && drop(s[|s| - 1]) then TrimEnd(s[..|s| - 1], drop) else s
  }

  /** Trimming the front of `a + b` stops inside `a` or at the start of `b`
      when `b` starts with a character that is kept. */
  lemma {:induction false} TrimStartAppend(a: string, b: string, drop: char -> bool)
    requires |b| > 0 && !drop(b[0])
    ensures TrimStart(a + b, drop) == TrimStart(a, drop) + b
    decreases |a|
  {
    if |a| > 0 {
      assert (a + b)[1..] == a[1..] + b;
      if drop(a[0]) {
        TrimStartAppend(a[1..], b, drop);
      }
    } else {
      assert a + b == b;
    }
  }

  /** Trimming the end stops at once at a character that is kept. */
  lemma TrimEndKept(s: string, drop: char -> bool)
    requires |s| > 0 && !drop(s[|s| - 1])
    ensures TrimEnd(s, drop) == s
  {
  }

  /** A dropped last character is trimmed and the trim goes on before it. */
  lemma TrimEndDropLast(s: string, c: char, drop: char -> bool)
    requires drop(c)
    ensures TrimEnd(s + [c], drop) == TrimEnd(s, drop)
  {
    assert (s + [c])[..|s|] == s;
  }

  /** Trimming the front leaves a kept last character in place. */
  lemma TrimStartKeepsLast(s: string, drop: char -> bool)
    requires |s| > 0 && !drop(s[|s| - 1])
    ensures |TrimStart(s, drop)| > 0
    ensures TrimStart(s, drop)[|TrimStart(s, drop)| - 1] == s[|s| - 1]
  {
  }

  /** `s.strip()` */
  function Strip(s: string): (r: string)
    ensures |r| <= |s|
    ensures |r| > 0 ==> !IsSpace(r[0]) && !IsSpace(r[|r| - 1])
    ensures (forall i :: 0 <= i < |s| ==> IsSpace(s[i])) ==> r == ""
    ensures |s| > 0 && !IsSpace(s[0]) && !IsSpace(s[|s| - 1]) ==> r == s
    ensures exists i :: CutFrom(s, r, i, IsSpace)
  {
    var t := TrimStart(s, IsSpace);
    var r := TrimEnd(t, IsSpace);
    SliceCut(s, t, r, IsSpace);
    r
  }

  /** `r` is the slice of `s` starting at `i`, and only characters that
      `drop` holds for lie before and after it. */
  predicate CutFrom(s: string, r: string, i: int, drop: char -> bool) {
    && 0 <= i <= |s| - |r|
    && r == s[i..i + |r|]
    && (forall k :: 0 <= k < i ==> drop(s[k]))
    && (forall k :: i + |r| <= k < |s| ==> drop(s[k]))
  }

  /** Cutting dropped characters off the front, then off the back, leaves a
      slice with only dropped characters around it. */
  lemma SliceCut(s: string, t: string, r: string, drop: char -> bool)
    requires |t| <= |s| && t == s[|s| - |t|..] && forall k :: 0 <= k < |s| - |t| ==> drop(s[k])
    requires |r| <= |t| && r == t[..|r|] && forall k :: |r| <= k < |t| ==> drop(t[k])
    ensures CutFrom(s, r, |s| - |t|, drop)
  {
    var i := |s| - |t|;
    forall k | i + |r| <= k < |s|
      ensures drop(s[k])
    {
      assert s[k] == t[k - i];
    }
  }

  /** `s.rstrip(c)` for one character. */
  function RStrip(s: string, c: char): (r: string)
    ensures |r| <= |s| && r == s[..|r|]
    ensures forall i :: |r| <= i < |s| ==> s[i] == c
    ensures |r| > 0 ==> r[|r| - 1] != c
  {
    TrimEnd(s, x => x == c)
  }

  /** `rstrip(c)` stops at once at a last character other than `c`. */
  lemma RStripKept(s: string, c: char)
    requires |s| > 0 && s[|s| - 1] != c
    ensures RStrip(s, c) == s
  {
    TrimEndKept(s, x => x == c);
  }

  /** `rstrip(c)` removes a trailing `c` and goes on before it. */
  lemma RStripDropLast(s: string, c: char)
    ensures RStrip(s + [c], c) == RStrip(s, c)
  {
    TrimEndDropLast(s, c, x => x == c);
  }

  /** `strip()` of a string ending in a visible character only trims its front. */
  lemma StripVisibleEnd(s: string)
    requires |s| > 0 && !IsSpace(s[|s| - 1])
    ensures Strip(s) == TrimStart(s, IsSpace)
    ensures |Strip(s)| > 0 && Strip(s)[|Strip(s)| - 1] == s[|s| - 1]
  {
    TrimStartKeepsLast(s, IsSpace);
    TrimEndKept(TrimStart(s, IsSpace), IsSpace);
  }

  /** `strip()` keeps a tail that starts and ends with visible characters. */
  lemma StripAppendVisible(s: string, tail: string)
    requires |tail| > 0 && !IsSpace(tail[0]) && !IsSpace(tail[|tail| - 1])
    ensures Strip(s + tail) == TrimStart(s, IsSpace) + tail
  {
    var inner := TrimStart(s, IsSpace);
    TrimStartAppend(s, tail, IsSpace);
    LastOfAppend(inner, tail);
    TrimEndKept(inner + tail, IsSpace);
  }

  lemma LastOfAppend(a: string, b: string)
    requires |b| > 0
    ensures (a + b)[|a + b| - 1] == b[|b| - 1]
  {
  }

  /** The texts `f` gives for the items of `xs`, concatenated in order. */
  function ConcatMap(xs: seq<string>, f: string -> string): string
    decreases |xs|
  {
    if |xs| == 0 then "" else ConcatMap(xs[..|xs| - 1], f) + f(xs[|xs| - 1])
  }

  /** Concatenating over `a + b` is concatenating over `a`, then over `b`. */
  lemma {:induction false} ConcatMapAppend(a: seq<string>, b: seq<string>, f: string -> string)
    ensures ConcatMap(a + b, f) == ConcatMap(a, f) + ConcatMap(b, f)
    decreases |b|
  {
    if |b| == 0 {
      assert a + b == a;
    } else {
      var n := |b|;
      assert (a + b)[..|a + b| - 1] == a + b[..n - 1];
      assert (a + b)[|a + b| - 1] == b[n - 1];
      ConcatMapAppend(a, b[..n - 1], f);
      var x, y, z := ConcatMap(a, f), ConcatMap(b[..n - 1], f), f(b[n - 1]);
      assert x + y + z == x + (y + z);
    }
  }

  lemma ConcatMapOne(x: string, f: string -> string)
    ensures ConcatMap([x], f) == f(x)
  {
    assert [x][..0] == [];
    assert "" + f(x) == f(x);
  }

  /** `os.path.basename` on POSIX: the text after the last `/`. */
  function Basename(path: string): (r: string)
    ensures IsTail(path, r, '/')
  {
    LastPieceIsTail(path, '/');
    Last(Split(path, '/'))
  }

  /** The last piece of a split lies after the last separator, however many
      come before it. */
  lemma LastPieceAfterSeparator(a: string, sep: char, b: string)
    ensures Last(Split(a + [sep] + b, sep)) == Last(Split(b, sep))
  {
    var s := a + [sep] + b;
    var t := Last(Split(b, sep));
    LastPieceIsTail(b, sep);
    LastPieceIsTail(s, sep);
    TailAfterSeparator(a, sep, b, t);
    TailIsUnique(s, Last(Split(s, sep)), t, sep);
  }

  /** A tail of `b` is also a tail of `a + [sep] + b`. */
  lemma TailAfterSeparator(a: string, sep: char, b: string, t: string)
    requires IsTail(b, t, sep)
    ensures IsTail(a + [sep] + b, t, sep)
  {
    var s := a + [sep] + b;
    assert s[|s| - |b|..] == b;
    assert b[|b| - |t|..] == s[|s| - |t|..];
    assert s[|a|] == sep;
    if sep in b {
      assert b[|b| - |t| - 1] == s[|s| - |t| - 1];
    }
  }

  /** A string has at most one tail. */
  lemma TailIsUnique(s: string, t1: string, t2: string, sep: char)
    requires IsTail(s, t1, sep) && IsTail(s, t2, sep)
    ensures t1 == t2
  {
    if |t1| < |t2| {
      LongerSuffixHoldsSeparator(s, t1, t2, sep);
    } else if |t2| < |t1| {
      LongerSuffixHoldsSeparator(s, t2, t1, sep);
    }
  }

  /** A suffix longer than a tail reaches the separator before that tail. */
  lemma LongerSuffixHoldsSeparator(s: string, t: string, u: string, sep: char)
    requires IsTail(s, t, sep) && sep in s
    requires |t| < |u| <= |s| && u == s[|s| - |u|..]
    ensures sep in u
  {
    assert u[|u| - |t| - 1] == s[|s| - |t| - 1];
  }
}
