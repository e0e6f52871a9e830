/** Python's ordering of `str` values (lexicographic by code point) and `list.sort()` on
    lists of strings. */
module StringOrder {
  import opened Sequences

  /** `a < b` on Python strings: at the first position where they differ the character
      of `a` has the smaller code point, or `a` is a proper prefix of `b`. */
  predicate Less(a: string, b: string)
    decreases |a|
  {
    |b| > 0 && (|a| == 0 || a[0] < b[0] || (a[0] == b[0] && Less(a[1..], b[1..])))
  }

  lemma {:induction false} LessIrreflexive(a: string)
    ensures !Less(a, a)
    decreases |a|
  {
    if |a| > 0 {
      LessIrreflexive(a[1..]);
    }
  }

  lemma {:induction false} LessTransitive(a: string, b: string, c: string)
    requires Less(a, b) && Less(b, c)
    ensures Less(a, c)
    decreases |a|
  {
    if |a| > 0 && a[0] == b[0] && b[0] == c[0] {
      LessTransitive(a[1..], b[1..], c[1..]);
    }
  }

  /** Two different strings are always ordered one way or the other. */
  lemma {:induction false} LessTotal(a: string, b: string)
    requires a != b
    ensures Less(a, b) || Less(b, a)
    decreases |a|
  {
    if |a| > 0 && |b| > 0 && a[0] == b[0] {
      assert a == [a[0]] + a[1..] && b == [b[0]] + b[1..];
      LessTotal(a[1..], b[1..]);
    }
  }

  lemma LessAsymmetric(a: string, b: string)
    requires Less(a, b)
    ensures !Less(b, a)
  {
    if Less(b, a) {
      LessTransitive(a, b, a);
      LessIrreflexive(a);
    }
  }

  /** Ascending order, equal neighbours allowed (what `list.sort()` produces). */
  predicate Sorted(s: seq<string>) {
    forall i, j :: 0 <= i < j < |s| ==> !Less(s[j], s[i])
  }

  /** Ascending order without repetitions. */
  predicate StrictlySorted(s: seq<string>) {
    forall i, j :: 0 <= i < j < |s| ==> Less(s[i], s[j])
  }

  /** Inserts `x` in front of the first entry of `s` that is not smaller than it. */
  function Insert(x: string, s: seq<string>): (r: seq<string>)
    requires Sorted(s)
    ensures Sorted(r)
    ensures multiset(r) == multiset(s) + multiset{x}
  {
    if s == [] then [x]
    else if !Less(s[0], x) then
      InsertFront(x, s);
      [x] + s
    else
      var t := Insert(x, s[1..]);
      assert s == [s[0]] + s[1..];
      InsertBehind(x, s, t);
      [s[0]] + t
  }

  /** "Not greater than" is transitive too. */
  lemma NotLessTransitive(a: string, b: string, c: string)
    requires !Less(b, a) && !Less(c, b)
    ensures !Less(c, a)
  {
    if a != b && b != c {
      LessTotal(a, b);
      LessTotal(b, c);
      LessTransitive(a, b, c);
      LessAsymmetric(a, c);
    }
  }

  lemma InsertFront(x: string, s: seq<string>)
    requires Sorted(s) && s != [] && !Less(s[0], x)
    ensures Sorted([x] + s)
  {
    forall j | 0 < j < |s|
      ensures !Less(s[j], x)
    {
      NotLessTransitive(x, s[0], s[j]);
    }
  }

  lemma InsertBehind(x: string, s: seq<string>, t: seq<string>)
    requires Sorted(s) && s != [] && Less(s[0], x)
    requires Sorted(t) && multiset(t) == multiset(s[1..]) + multiset{x}
    ensures Sorted([s[0]] + t)
  {
    forall j | 0 <= j < |t|
      ensures !Less(t[j], s[0])
    {
      assert t[j] in multiset(t);
      if t[j] == x {
        LessAsymmetric(s[0], x);
      } else {
        assert t[j] in multiset(s[1..]);
        var k :| 0 <= k < |s[1..]| && s[1..][k] == t[j];
        assert s[k + 1] == t[j];
      }
    }
  }

  /** `list.sort()`: an ascending permutation of `s`. */
  function Sort(s: seq<string>): (r: seq<string>)
    ensures Sorted(r)
    ensures multiset(r) == multiset(s)
  {
    if s == [] then []
    else
      assert s == [s[0]] + s[1..];
      Insert(s[0], Sort(s[1..]))
  }

  /** A sorted list without duplicates is strictly ascending. */
  lemma SortedDistinct(s: seq<string>)
    requires Sorted(s) && NoDuplicates(s)
    ensures StrictlySorted(s)
  {
    forall i, j | 0 <= i < j < |s|
      ensures Less(s[i], s[j])
    {
      LessTotal(s[i], s[j]);
    }
  }

  /** Sorting keeps duplicate-freedom. */
  lemma SortNoDuplicates(s: seq<string>)
    requires NoDuplicates(s)
    ensures NoDuplicates(Sort(s))
  {
    forall x
      ensures multiset(Sort(s))[x] <= 1
    {
      MultiplicityAtMostOne(s, x);
    }
    NoDuplicatesOfMultiset(Sort(s));
  }

  lemma {:induction false} NoDuplicatesOfMultiset(r: seq<string>)
    requires forall x :: multiset(r)[x] <= 1
    ensures NoDuplicates(r)
  {
    if r != [] {
      var init := r[..|r| - 1];
      var last := r[|r| - 1];
      assert r == init + [last];
      forall x
        ensures multiset(init)[x] <= 1
      {
        assert multiset(r)[x] == multiset(init)[x] + multiset([last])[x];
      }
      NoDuplicatesOfMultiset(init);
      assert multiset(r)[last] == multiset(init)[last] + 1;
      assert last !in init;
    }
  }

  lemma {:induction false} MultiplicityAtMostOne(s: seq<string>, x: string)
    requires NoDuplicates(s)
    ensures multiset(s)[x] <= 1
  {
    if s != [] {
      var init := s[..|s| - 1];
      assert s == init + [s[|s| - 1]];
      MultiplicityAtMostOne(init, x);
      if s[|s| - 1] == x {
        assert x !in init;
      }
    }
  }

  lemma StrictlySortedNoDuplicates(s: seq<string>)
    requires StrictlySorted(s)
    ensures NoDuplicates(s)
  {
    forall i, j | 0 <= i < j < |s|
      ensures s[i] != s[j]
    {
      LessIrreflexive(s[i]);
    }
  }

  /** Strictly ascending lists are determined by their elements: two of them with the
      same set of elements are equal. */
  lemma {:induction false} StrictlySortedUnique(a: seq<string>, b: seq<string>)
    requires StrictlySorted(a) && StrictlySorted(b) && Elems(a) == Elems(b)
    ensures a == b
    decreases |a|
  {
    ElemsEmpty(a);
    ElemsEmpty(b);
    if a != [] {
      HeadsAgree(a, b);
      StrictTail(a);
      StrictTail(b);
      StrictlySortedUnique(a[1..], b[1..]);
      assert a == [a[0]] + a[1..];
      assert b == [b[0]] + b[1..];
    }
  }

  /** The head of a strictly ascending list is smaller than every other element. */
  lemma HeadIsLeast(a: seq<string>, x: string)
    requires StrictlySorted(a) && a != [] && x in Elems(a) && x != a[0]
    ensures Less(a[0], x)
  {
    var k :| 0 <= k < |a| && a[k] == x;
  }

  lemma HeadsAgree(a: seq<string>, b: seq<string>)
    requires StrictlySorted(a) && StrictlySorted(b) && Elems(a) == Elems(b)
    requires a != [] && b != []
    ensures a[0] == b[0]
  {
    assert a[0] in Elems(a);
    assert b[0] in Elems(b);
    if a[0] != b[0] {
      HeadIsLeast(a, b[0]);
      HeadIsLeast(b, a[0]);
      LessAsymmetric(a[0], b[0]);
    }
  }

  /** Dropping the head of a strictly ascending list removes exactly that element. */
  lemma StrictTail(a: seq<string>)
    requires StrictlySorted(a) && a != []
    ensures StrictlySorted(a[1..])
    ensures Elems(a[1..]) == Elems(a) - {a[0]}
  {
    forall i, j | 0 <= i < j < |a[1..]|
      ensures Less(a[1..][i], a[1..][j])
    {
      assert a[1..][i] == a[i + 1] && a[1..][j] == a[j + 1];
    }
    forall x | x in a[1..]
      ensures x != a[0]
    {
      var k :| 0 <= k < |a[1..]| && a[1..][k] == x;
      assert Less(a[0], a[k + 1]);
      LessIrreflexive(a[0]);
    }
    assert a == [a[0]] + a[1..];
    ElemsAppend([a[0]], a[1..]);
    assert Elems([a[0]]) == {a[0]};
  }

  /** Deleting entries from a strictly ascending list leaves it strictly ascending. */
  lemma {:induction false} SubsequenceStrictlySorted(r: seq<string>, s: seq<string>)
    requires IsSubsequence(r, s) && StrictlySorted(s)
    ensures StrictlySorted(r)
    decreases |s|
  {
    if r != [] {
      if r[0] == s[0] && IsSubsequence(r[1..], s[1..]) {
        SubsequenceStrictlySorted(r[1..], s[1..]);
        SubsequenceElems(r[1..], s[1..]);
        forall k | 1 <= k < |r|
          ensures Less(r[0], r[k])
        {
          assert r[k] == r[1..][k - 1];
          assert r[k] in Elems(s[1..]);
          var m :| 0 <= m < |s[1..]| && s[1..][m] == r[k];
          assert s[m + 1] == r[k];
        }
        forall i, j | 0 <= i < j < |r|
          ensures Less(r[i], r[j])
        {
          if i > 0 {
            assert r[i] == r[1..][i - 1] && r[j] == r[1..][j - 1];
          }
        }
      } else {
        SubsequenceStrictlySorted(r, s[1..]);
      }
    }
  }
}
