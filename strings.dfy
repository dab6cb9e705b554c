/**
 * Python string and list operations with their Python meaning: those the two scripts call, and
 * `split` and `startswith`, which state what `join` and a `^` prefix search mean.
 */
module Strings {

  datatype Option<T> = None | Some(value: T)

  /** `pat` occurs in `s` starting at index `i`. */
  predicate OccursAt(s: string, pat: string, i: nat) {
    i + |pat| <= |s| && s[i..i + |pat|] == pat
  }

  /** Python's `pat in s` on two strings: a substring test. */
  predicate Contains(s: string, pat: string) {
    exists i | 0 <= i <= |s| :: OccursAt(s, pat, i)
  }

  /** A string cannot contain a pattern one of whose characters it lacks. */
  lemma AbsentChar(s: string, pat: string, k: nat)
    requires k < |pat| && pat[k] !in s
    ensures !Contains(s, pat)
  {
    forall i | 0 <= i <= |s| ensures !OccursAt(s, pat, i) {
      if i + |pat| <= |s| {
        assert s[i..i + |pat|][k] == s[i + k];
      }
    }
  }

  /** Python's `s.find(pat)`: the leftmost index where `pat` occurs, or -1. */
  function Find(s: string, pat: string): (r: int)
    ensures r == -1 <==> !Contains(s, pat)
    ensures r != -1 ==> 0 <= r && OccursAt(s, pat, r)
    ensures r != -1 ==> forall k :: 0 <= k < r ==> !OccursAt(s, pat, k)
  {
    FindFrom(s, pat, 0)
  }

  /** The leftmost occurrence of `pat` in `s` at or after `i`, or -1. */
  function FindFrom(s: string, pat: string, i: nat): (r: int)
    requires i <= |s|
    ensures r == -1 ==> forall k :: i <= k <= |s| ==> !OccursAt(s, pat, k)
    ensures r != -1 ==> i <= r <= |s| && OccursAt(s, pat, r)
    ensures r != -1 ==> forall k :: i <= k < r ==> !OccursAt(s, pat, k)
    decreases |s| - i
  {
    if OccursAt(s, pat, i) then i
    else if i == |s| then -1
    else FindFrom(s, pat, i + 1)
  }

  /** Python's `s.startswith(p)`; also `re.search('^' + p, s)` when `p` has no regex metacharacter. */
  predicate StartsWith(s: string, p: string) {
    |p| <= |s| && s[..|p|] == p
  }

  /** Python's `s.endswith(p)`. */
  predicate EndsWith(s: string, p: string) {
    |p| <= |s| && s[|s| - |p|..] == p
  }

  /** Python 2's `str.lower()` on a byte string: only ASCII upper-case letters change. */
  function LowerChar(c: char): char {
    if 'A' <= c <= 'Z' then (c as int + 32) as char else c
  }

  function Lower(s: string): string {
    seq(|s|, i requires 0 <= i < |s| => LowerChar(s[i]))
  }

  /** A name ends in `.xml` in any mixture of case exactly when its lower-cased form ends in `.xml`. */
  lemma XmlSuffixAnyCase(f: string)
    ensures EndsWith(Lower(f), ".xml") <==>
      |f| >= 4 && f[|f| - 4] == '.' && f[|f| - 3] in "xX" && f[|f| - 2] in "mM" && f[|f| - 1] in "lL"
  {
    var n := |f|;
    if n >= 4 {
      var tail := Lower(f)[n - 4..];
      assert |tail| == 4;
      assert tail[0] == LowerChar(f[n - 4]) && tail[1] == LowerChar(f[n - 3]);
      assert tail[2] == LowerChar(f[n - 2]) && tail[3] == LowerChar(f[n - 1]);
      if f[n - 4] == '.' && f[n - 3] in "xX" && f[n - 2] in "mM" && f[n - 1] in "lL" {
        assert tail == ".xml";
      }
    }
  }

  /** Python's `sep.join(xs)`. */
  function Join(sep: string, xs: seq<string>): string
    decreases |xs|
  {
    if |xs| == 0 then ""
    else if |xs| == 1 then xs[0]
    else xs[0] + sep + Join(sep, xs[1..])
  }

  /** Python's `s.split(c)` for a one-character separator: empty fields are kept. */
  function Split(s: string, c: char): (r: seq<string>)
    ensures |r| >= 1
    decreases |s|
  {
    if |s| == 0 then [""]
    else
      var rest := Split(s[1..], c);
      if s[0] == c then [""] + rest else [[s[0]] + rest[0]] + rest[1..]
  }

  /** Splitting a string that has no separator in front of `t` extends the first field of `t`. */
  lemma {:induction false} SplitPrefix(a: string, t: string, c: char)
    requires c !in a
    ensures Split(a + t, c) == [a + Split(t, c)[0]] + Split(t, c)[1..]
    decreases |a|
  {
    if |a| > 0 {
      assert (a + t)[1..] == a[1..] + t;
      SplitPrefix(a[1..], t, c);
      assert [a[0]] + (a[1..] + Split(t, c)[0]) == a + Split(t, c)[0];
    } else {
      var r := Split(t, c);
      assert a + t == t && a + r[0] == r[0];
      assert [r[0]] + r[1..] == r;
    }
  }

  /** Joining fields that do not contain the separator and splitting again gives the fields back. */
  lemma {:induction false} SplitJoin(xs: seq<string>, c: char)
    requires |xs| >= 1
    requires forall i :: 0 <= i < |xs| ==> c !in xs[i]
    ensures Split(Join([c], xs), c) == xs
    decreases |xs|
  {
    if |xs| == 1 {
      SplitPrefix(xs[0], "", c);
      assert xs[0] + "" == xs[0];
    } else {
      var u := Join([c], xs[1..]);
      SplitJoin(xs[1..], c);
      assert Join([c], xs) == xs[0] + ([c] + u);
      SplitPrefix(xs[0], [c] + u, c);
      assert ([c] + u)[1..] == u;
      assert Split([c] + u, c) == [""] + xs[1..];
      assert xs[0] + "" == xs[0];
      assert [xs[0]] + xs[1..] == xs;
    }
  }

  /** A Python list comprehension `[x for x in s if p(x)]`. */
  function Filter<T(!new)>(p: T -> bool, s: seq<T>): (r: seq<T>)
    ensures |r| <= |s|
    ensures forall x :: x in r <==> x in s && p(x)
    decreases |s|
  {
    if s == [] then []
    else Filter(p, s[..|s| - 1]) + if p(s[|s| - 1]) then [s[|s| - 1]] else []
  }

  lemma FilterSnoc<T(!new)>(p: T -> bool, s: seq<T>, x: T)
    ensures Filter(p, s + [x]) == Filter(p, s) + if p(x) then [x] else []
  {
    assert (s + [x])[..|s|] == s;
  }

  lemma {:induction false} FilterAppend<T(!new)>(p: T -> bool, a: seq<T>, b: seq<T>)
    ensures Filter(p, a + b) == Filter(p, a) + Filter(p, b)
    decreases |b|
  {
    if b == [] {
      assert a + b == a;
    } else {
      var b' := b[..|b| - 1];
      var x := b[|b| - 1];
      assert a + b == (a + b') + [x];
      assert b == b' + [x];
      FilterAppend(p, a, b');
      FilterSnoc(p, a + b', x);
      FilterSnoc(p, b', x);
    }
  }

  /** `a` is obtained from `b` by deleting elements, keeping the order of the rest. */
  predicate IsSubsequence<T(==)>(a: seq<T>, b: seq<T>)
    decreases |b|
  {
    if a == [] then true
    else if b == [] then false
    else
      || (a[|a| - 1] == b[|b| - 1] && IsSubsequence(a[..|a| - 1], b[..|b| - 1]))
      || IsSubsequence(a, b[..|b| - 1])
  }

  /** A comprehension keeps the selected elements in their original order. */
  lemma {:induction false} FilterIsSubsequence<T(!new)>(p: T -> bool, s: seq<T>)
    ensures IsSubsequence(Filter(p, s), s)
    decreases |s|
  {
    if s != [] {
      var s' := s[..|s| - 1];
      FilterIsSubsequence(p, s');
      var r := Filter(p, s);
      if p(s[|s| - 1]) {
        assert r[..|r| - 1] == Filter(p, s');
      } else {
        assert r == Filter(p, s');
        if r != [] {
          assert IsSubsequence(r, s');
        }
      }
    }
  }
}
