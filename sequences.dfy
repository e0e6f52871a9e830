/** Generic facts about sequences used by the pipeline: the set of elements of a list,
    duplicate-freedom, Python's `list(set(...))`, filtering out a set of values and
    the subsequence relation. */
module Sequences {

  /** The elements of `s`, as Python's `set(s)` sees them. */
  function Elems<T(==)>(s: seq<T>): set<T> {
    set x | x in s
  }

  lemma ElemsAppend<T>(a: seq<T>, b: seq<T>)
    ensures Elems(a + b) == Elems(a) + Elems(b)
  {
    assert forall x :: x in a + b <==> x in a || x in b;
  }

  lemma ElemsEmpty<T>(s: seq<T>)
    ensures Elems(s) == {} <==> s == []
  {
    if s != [] {
      assert s[0] in Elems(s);
    }
  }

  /** Putting back the head of a non-empty sequence in front of its tail. */
  lemma HeadTailConcat<T>(p: seq<T>, x: seq<T>)
    requires p != []
    ensures [p[0]] + (p[1..] + x) == p + x
  {
    assert [p[0]] + p[1..] == p;
  }

  predicate NoDuplicates<T(==)>(s: seq<T>) {
    forall i, j :: 0 <= i < j < |s| ==> s[i] != s[j]
  }

  /** `list(set(s))`: every value of `s` once. Python leaves the order to the hash
      table; this definition keeps first occurrences, and nothing downstream relies
      on that choice. */
  function Dedup<T(==)>(s: seq<T>): (r: seq<T>)
    ensures NoDuplicates(r)
    ensures Elems(r) == Elems(s)
    ensures |r| <= |s|
  {
    if s == [] then []
    else
      var t := Dedup(s[..|s| - 1]);
      var x := s[|s| - 1];
      assert s == s[..|s| - 1] + [x];
      ElemsAppend(s[..|s| - 1], [x]);
      if x in t then t
      else
        ElemsAppend(t, [x]);
        t + [x]
  }

  /** The entries of `s` that are not in `drop`, in their original order
      (`[x for x in s if x not in drop]`). */
  function Without<T(==)>(s: seq<T>, drop: set<T>): (r: seq<T>)
    ensures Elems(r) == Elems(s) - drop
    ensures IsSubsequence(r, s)
  {
    if s == [] then []
    else
      var t := Without(s[1..], drop);
      assert s == [s[0]] + s[1..];
      ElemsAppend([s[0]], s[1..]);
      if s[0] in drop then
        SubsequenceSkip(t, s);
        t
      else
        ElemsAppend([s[0]], t);
        assert ([s[0]] + t)[1..] == t;
        [s[0]] + t
  }

  /** `a` is obtained from `b` by deleting entries: the entries of `a` occur in `b`
      in the same order. */
  predicate IsSubsequence<T(==)>(a: seq<T>, b: seq<T>)
    decreases |b|
  {
    if a == [] then true
    else if b == [] then false
    else (a[0] == b[0] && IsSubsequence(a[1..], b[1..])) || IsSubsequence(a, b[1..])
  }

  lemma SubsequenceSkip<T>(a: seq<T>, b: seq<T>)
    requires b != [] && IsSubsequence(a, b[1..])
    ensures IsSubsequence(a, b)
  {
  }

  /** Deleting the entries before `k` keeps a subsequence. */
  lemma {:induction false} SubsequenceDrop<T>(a: seq<T>, b: seq<T>, k: nat)
    requires k <= |b| && IsSubsequence(a, b[k..])
    ensures IsSubsequence(a, b)
    decreases k
  {
    if k > 0 {
      assert b[k..] == b[1..][k - 1..];
      SubsequenceDrop(a, b[1..], k - 1);
    }
  }

  lemma {:induction false} SubsequenceTail<T>(a: seq<T>, b: seq<T>)
    requires a != [] && IsSubsequence(a, b)
    ensures IsSubsequence(a[1..], b)
    decreases |b|
  {
    if a[0] == b[0] && IsSubsequence(a[1..], b[1..]) {
      SubsequenceSkip(a[1..], b);
    } else {
      SubsequenceTail(a, b[1..]);
      SubsequenceSkip(a[1..], b);
    }
  }

  lemma {:induction false} SubsequenceInit<T>(a: seq<T>, b: seq<T>)
    requires a != [] && IsSubsequence(a, b)
    ensures IsSubsequence(a[..|a| - 1], b)
    decreases |b|
  {
    if a[0] == b[0] && IsSubsequence(a[1..], b[1..]) {
      if |a| > 1 {
        SubsequenceInit(a[1..], b[1..]);
        assert a[..|a| - 1][1..] == a[1..][..|a[1..]| - 1];
      }
    } else {
      SubsequenceInit(a, b[1..]);
    }
  }

  /** Any contiguous slice of a subsequence is again a subsequence. */
  lemma {:induction false} SubsequenceSlice<T>(a: seq<T>, b: seq<T>, lo: nat, hi: nat)
    requires lo <= hi <= |a| && IsSubsequence(a, b)
    ensures IsSubsequence(a[lo..hi], b)
    decreases |a|
  {
    if hi < |a| {
      SubsequenceInit(a, b);
      assert a[..|a| - 1][lo..hi] == a[lo..hi];
      SubsequenceSlice(a[..|a| - 1], b, lo, hi);
    } else if lo > 0 {
      SubsequenceTail(a, b);
      assert a[1..][lo - 1..hi - 1] == a[lo..hi];
      SubsequenceSlice(a[1..], b, lo - 1, hi - 1);
    } else {
      assert a[lo..hi] == a;
    }
  }

  /** Every entry of a subsequence is an entry of the sequence it was taken from. */
  lemma {:induction false} SubsequenceElems<T>(a: seq<T>, b: seq<T>)
    requires IsSubsequence(a, b)
    ensures Elems(a) <= Elems(b)
    decreases |b|
  {
    if a != [] {
      if a[0] == b[0] && IsSubsequence(a[1..], b[1..]) {
        SubsequenceElems(a[1..], b[1..]);
        assert a == [a[0]] + a[1..] && b == [b[0]] + b[1..];
        ElemsAppend([a[0]], a[1..]);
        ElemsAppend([b[0]], b[1..]);
      } else {
        SubsequenceElems(a, b[1..]);
        assert b == [b[0]] + b[1..];
        ElemsAppend([b[0]], b[1..]);
      }
    }
  }

  /** Appending to the longer sequence keeps a subsequence. */
  lemma {:induction false} SubsequenceExtend<T>(a: seq<T>, b: seq<T>, x: T)
    requires IsSubsequence(a, b)
    ensures IsSubsequence(a, b + [x])
    decreases |b|
  {
    if a != [] {
      assert (b + [x])[1..] == b[1..] + [x];
      if a[0] == b[0] && IsSubsequence(a[1..], b[1..]) {
        SubsequenceExtend(a[1..], b[1..], x);
      } else {
        SubsequenceExtend(a, b[1..], x);
      }
    }
  }

  /** Appending the same entry to both keeps a subsequence. */
  lemma {:induction false} SubsequenceSnoc<T>(a: seq<T>, b: seq<T>, x: T)
    requires IsSubsequence(a, b)
    ensures IsSubsequence(a + [x], b + [x])
    decreases |b|
  {
    if a == [] {
      assert a + [x] == [x] && (b + [x])[|b|..] == [x];
      assert IsSubsequence([x], [x]);
      SubsequenceDrop([x], b + [x], |b|);
    } else {
      assert (b + [x])[1..] == b[1..] + [x];
      assert (a + [x])[1..] == a[1..] + [x];
      if a[0] == b[0] && IsSubsequence(a[1..], b[1..]) {
        SubsequenceSnoc(a[1..], b[1..], x);
      } else {
        SubsequenceSnoc(a, b[1..], x);
      }
    }
  }

  /** `f` applied to every entry of `xs`, the results concatenated in order (a loop
      that extends one list with what each entry yields). */
  function FlatMap<T, U>(xs: seq<T>, f: T -> seq<U>): seq<U> {
    if xs == [] then [] else FlatMap(xs[..|xs| - 1], f) + f(xs[|xs| - 1])
  }

  lemma {:induction false} FlatMapAppend<T, U>(a: seq<T>, b: seq<T>, f: T -> seq<U>)
    ensures FlatMap(a + b, f) == FlatMap(a, f) + FlatMap(b, f)
    decreases |b|
  {
    if b != [] {
      var init := b[..|b| - 1];
      assert (a + b)[..|a + b| - 1] == a + init;
      assert (a + b)[|a + b| - 1] == b[|b| - 1];
      FlatMapAppend(a, init, f);
      assert FlatMap(b, f) == FlatMap(init, f) + f(b[|b| - 1]);
      assert FlatMap(a + b, f) == FlatMap(a + init, f) + f(b[|b| - 1]);
    } else {
      assert a + b == a;
    }
  }

  /** A value is in the concatenation exactly when some entry yields it. */
  lemma {:induction false} FlatMapMembers<T, U>(xs: seq<T>, f: T -> seq<U>, y: U)
    ensures y in FlatMap(xs, f) <==> exists i :: 0 <= i < |xs| && y in f(xs[i])
    decreases |xs|
  {
    if xs != [] {
      var init := xs[..|xs| - 1];
      FlatMapMembers(init, f, y);
      if exists i :: 0 <= i < |init| && y in f(init[i]) {
        var i :| 0 <= i < |init| && y in f(init[i]);
        assert xs[i] == init[i];
      }
      if exists i :: 0 <= i < |xs| && y in f(xs[i]) {
        var i :| 0 <= i < |xs| && y in f(xs[i]);
        if i < |init| {
          assert init[i] == xs[i];
        }
      }
    }
  }

  /** An entry that yields nothing can be removed without changing the result. */
  lemma FlatMapSkip<T, U>(pre: seq<T>, x: T, post: seq<T>, f: T -> seq<U>)
    requires f(x) == []
    ensures FlatMap(pre + [x] + post, f) == FlatMap(pre + post, f)
  {
    FlatMapAppend(pre + [x], post, f);
    FlatMapAppend(pre, [x], f);
    FlatMapAppend(pre, post, f);
    assert [x][..0] == [];
  }
}
