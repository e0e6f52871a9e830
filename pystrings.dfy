/** The Python `str` built-ins that the application relies on (`isspace`/`\s`, `strip`,
    `lower`, `startswith`, `split` and `join`), restated on Dafny strings. */
module PyStrings {

  /** `str.isspace()`, which is also what the `\s` class of Python's `re` matches in a
      `str` pattern: tab to carriage return, the four ASCII information separators,
      space, and the Unicode white-space characters. */
  predicate IsSpace(c: char) {
    ('\t' <= c <= '\r') || ('\U{1C}' <= c <= '\U{1F}') || c == ' '
    || c == '\U{85}' || c == '\U{A0}' || c == '\U{1680}'
    || ('\U{2000}' <= c <= '\U{200A}') || c == '\U{2028}' || c == '\U{2029}'
    || c == '\U{202F}' || c == '\U{205F}' || c == '\U{3000}'
  }

  predicate IsAsciiLetter(c: char) {
    'a' <= c <= 'z' || 'A' <= c <= 'Z'
  }

  predicate IsAsciiDigit(c: char) {
    '0' <= c <= '9'
  }

  /** The class `[a-zA-Z0-9]`. */
  predicate IsAsciiAlnum(c: char) {
    IsAsciiLetter(c) || IsAsciiDigit(c)
  }

  /** The regular-expression class `\w`, restricted to ASCII: letters, digits and `_`. */
  predicate IsWordChar(c: char) {
    IsAsciiAlnum(c) || c == '_'
  }

  predicate AllSpace(s: string) {
    forall i :: 0 <= i < |s| ==> IsSpace(s[i])
  }

  /** Neither the first nor the last character is white space. */
  predicate Trimmed(s: string) {
    s == [] || (!IsSpace(s[0]) && !IsSpace(s[|s| - 1]))
  }

  // ---------------------------------------------------------------------------
  // str.strip()
  // ---------------------------------------------------------------------------

  /** The number of white-space characters at the start of `s`. */
  function LeadingSpaces(s: string): (n: nat)
    ensures n <= |s|
    ensures forall i :: 0 <= i < n ==> IsSpace(s[i])
    ensures n < |s| ==> !IsSpace(s[n])
  {
    if s != [] && IsSpace(s[0]) then 1 + LeadingSpaces(s[1..]) else 0
  }

  /** The number of white-space characters at the end of `s`. */
  function TrailingSpaces(s: string): (n: nat)
    ensures n <= |s|
    ensures forall i :: |s| - n <= i < |s| ==> IsSpace(s[i])
    ensures n < |s| ==> !IsSpace(s[|s| - 1 - n])
  {
    if s != [] && IsSpace(s[|s| - 1]) then 1 + TrailingSpaces(s[..|s| - 1]) else 0
  }

  /** Where the text kept by `strip()` starts and ends: everything before `StripStart`
      and from `StripEnd` on is white space. */
  function StripStart(s: string): (lo: nat)
    ensures lo <= |s|
    ensures forall i :: 0 <= i < lo ==> IsSpace(s[i])
  {
    LeadingSpaces(s)
  }

  function StripEnd(s: string): (hi: nat)
    ensures StripStart(s) <= hi <= |s|
    ensures forall i :: hi <= i < |s| ==> IsSpace(s[i])
    ensures hi == StripStart(s) <==> StripStart(s) == |s|
  {
    var lo := LeadingSpaces(s);
    if lo == |s| then |s|
    else
      var t := TrailingSpaces(s);
      assert !IsSpace(s[lo]);
      |s| - t
  }

  /** `s.strip()`: `s` without its leading and trailing white space. The result neither
      starts nor ends with white space, it is empty exactly when `s` is all white
      space, and everything of `s` around it is white space. */
  function Strip(s: string): (r: string)
    ensures r == s[StripStart(s)..StripEnd(s)]
    ensures Trimmed(r)
    ensures r == [] <==> AllSpace(s)
  {
    var lo, hi := StripStart(s), StripEnd(s);
    assert AllSpace(s) ==> lo == |s|;
    assert lo < |s| ==> !IsSpace(s[lo]) && !IsSpace(s[hi - 1]);
    s[lo..hi]
  }

  /** A string that is already trimmed is left as it is. */
  lemma StripTrimmed(s: string)
    requires Trimmed(s)
    ensures Strip(s) == s
  {
    if s != [] {
      assert LeadingSpaces(s) == 0;
      assert TrailingSpaces(s) == 0;
    }
  }

  lemma StripIdempotent(s: string)
    ensures Strip(Strip(s)) == Strip(s)
  {
    StripTrimmed(Strip(s));
  }

  // ---------------------------------------------------------------------------
  // str.lower()
  // ---------------------------------------------------------------------------

  function LowerChar(c: char): char {
    if 'A' <= c <= 'Z' then (c as int + 32) as char else c
  }

  predicate HasNoUpper(s: string) {
    forall i :: 0 <= i < |s| ==> !('A' <= s[i] <= 'Z')
  }

  /** `s.lower()` on ASCII: upper-case letters become lower-case, every other
      character, white space included, is kept. */
  function Lower(s: string): (r: string)
    ensures |r| == |s| && HasNoUpper(r)
    ensures forall i :: 0 <= i < |s| ==> (IsSpace(r[i]) <==> IsSpace(s[i]))
    ensures forall i :: 0 <= i < |s| && 'A' <= s[i] <= 'Z' ==> r[i] as int == s[i] as int + 32
    ensures forall i :: 0 <= i < |s| && !('A' <= s[i] <= 'Z') ==> r[i] == s[i]
  {
    seq(|s|, i requires 0 <= i < |s| => LowerChar(s[i]))
  }

  /** Text without upper-case letters is its own lower-case form; in particular
      lower-casing twice is lower-casing once. */
  lemma LowerNoUpper(s: string)
    requires HasNoUpper(s)
    ensures Lower(s) == s
  {
  }

  lemma LowerIdempotent(s: string)
    ensures Lower(Lower(s)) == Lower(s)
  {
    LowerNoUpper(Lower(s));
  }

  lemma LowerTrimmed(s: string)
    requires Trimmed(s)
    ensures Trimmed(Lower(s))
  {
  }

  // ---------------------------------------------------------------------------
  // str.startswith, substring search, str.split and str.join
  // ---------------------------------------------------------------------------

  predicate StartsWith(s: string, prefix: string) {
    |prefix| <= |s| && s[..|prefix|] == prefix
  }

  predicate EndsWith(s: string, suffix: string) {
    |suffix| <= |s| && s[|s| - |suffix|..] == suffix
  }

  /** `sep` occurs in `s` starting at index `i`. */
  predicate OccursAt(s: string, sep: string, i: int) {
    0 <= i && i + |sep| <= |s| && s[i..i + |sep|] == sep
  }

  /** `sep in s`. */
  predicate Contains(s: string, sep: string) {
    exists i | 0 <= i <= |s| :: OccursAt(s, sep, i)
  }

  /** No proper suffix of `sep` is also a prefix of it, so that two occurrences of `sep`
      can never overlap. */
  predicate BorderFree(sep: string) {
    forall k :: 0 < k < |sep| ==> sep[k..] != sep[..|sep| - k]
  }

  /** The first index at or after `k` where `sep` occurs in `s`, or `|s|` when there is
      none from `k` on. */
  function Find(s: string, sep: string, k: nat): (i: nat)
    requires sep != [] && k <= |s|
    ensures k <= i <= |s|
    ensures i < |s| ==> i + |sep| <= |s|
    decreases |s| - k
  {
    if k == |s| || OccursAt(s, sep, k) then k else Find(s, sep, k + 1)
  }

  /** Short of the end, the search stops at an occurrence. */
  lemma {:induction false} FindOccurs(s: string, sep: string, k: nat)
    requires sep != [] && k <= |s| && Find(s, sep, k) < |s|
    ensures OccursAt(s, sep, Find(s, sep, k))
    decreases |s| - k
  {
    if !OccursAt(s, sep, k) {
      FindOccurs(s, sep, k + 1);
    }
  }

  /** An occurrence at `j` bounds the search from `k` by `j`. */
  lemma {:induction false} FindAtMost(s: string, sep: string, k: nat, j: int)
    requires sep != [] && k <= j <= |s| && OccursAt(s, sep, j)
    ensures Find(s, sep, k) <= j
    decreases j - k
  {
    if k < j && !OccursAt(s, sep, k) {
      FindAtMost(s, sep, k + 1, j);
    }
  }

  /** Without an occurrence between `k` and `m`, the search from `k` gets at least to `m`. */
  lemma {:induction false} FindAtLeast(s: string, sep: string, k: nat, m: int)
    requires sep != [] && k <= m <= |s|
    requires forall j :: k <= j < m ==> !OccursAt(s, sep, j)
    ensures Find(s, sep, k) >= m
    decreases m - k
  {
    if k < m {
      FindAtLeast(s, sep, k + 1, m);
    }
  }

  /** The search from the start reaches the end exactly when `sep` does not occur. */
  lemma FindNone(s: string, sep: string)
    requires sep != []
    ensures Find(s, sep, 0) == |s| <==> !Contains(s, sep)
  {
    if Contains(s, sep) {
      var j :| 0 <= j <= |s| && OccursAt(s, sep, j);
      FindAtMost(s, sep, 0, j);
    } else {
      FindAtLeast(s, sep, 0, |s|);
    }
  }

  /** An occurrence in `y` is an occurrence in `x + y`, `|x|` further on, and back. */
  lemma OccursShift(x: string, y: string, sep: string, j: int)
    requires 0 <= j
    ensures OccursAt(x + y, sep, |x| + j) <==> OccursAt(y, sep, j)
  {
    if j + |sep| <= |y| {
      assert (x + y)[|x| + j..|x| + j + |sep|] == y[j..j + |sep|];
    }
  }

  /** Searching `x + y` past `x` is searching `y`. */
  lemma {:induction false} FindShift(x: string, y: string, sep: string, k: nat)
    requires sep != [] && k <= |y|
    ensures Find(x + y, sep, |x| + k) == |x| + Find(y, sep, k)
    decreases |y| - k
  {
    OccursShift(x, y, sep, k);
    if k < |y| && !OccursAt(y, sep, k) {
      FindShift(x, y, sep, k + 1);
    }
  }

  /** The pieces of `s[start..]`: the text up to the first occurrence of `sep` at or
      after `start`, then the pieces after that occurrence; always at least one. */
  function SplitFrom(s: string, sep: string, start: nat): (r: seq<string>)
    requires sep != [] && start <= |s|
    ensures |r| >= 1
    decreases |s| - start
  {
    var i := Find(s, sep, start);
    if i == |s| then [s[start..]] else [s[start..i]] + SplitFrom(s, sep, i + |sep|)
  }

  /** `s.split(sep)` for a non-empty separator: the text between the non-overlapping
      occurrences of `sep` found scanning from the left. */
  function Split(s: string, sep: string): seq<string>
    requires sep != []
  {
    SplitFrom(s, sep, 0)
  }

  /** `sep.join(parts)`. */
  function Join(parts: seq<string>, sep: string): string {
    if |parts| == 0 then ""
    else if |parts| == 1 then parts[0]
    else parts[0] + sep + Join(parts[1..], sep)
  }

  /** With a non-empty separator, a join is empty only when there is nothing to join or
      a single empty part. */
  lemma JoinEmpty(parts: seq<string>, sep: string)
    requires sep != []
    ensures Join(parts, sep) == "" <==> parts == [] || parts == [""]
  {
    if |parts| >= 2 {
      assert |Join(parts, sep)| >= |sep|;
    }
  }

  /** Joining `[x] + t` puts `x` and a separator in front of the join of `t`. */
  lemma JoinCons(x: string, t: seq<string>, sep: string)
    requires t != []
    ensures Join([x] + t, sep) == x + sep + Join(t, sep)
  {
    assert ([x] + t)[1..] == t;
  }

  /** An occurrence of `sep` at `i` cuts `s[start..]` into the text before it, `sep` and
      the text after it. */
  lemma CutAt(s: string, sep: string, start: int, i: int)
    requires 0 <= start <= i && OccursAt(s, sep, i)
    ensures s[start..] == s[start..i] + sep + s[i + |sep|..]
  {
    assert s[start..] == s[start..i] + s[i..i + |sep|] + s[i + |sep|..];
  }

  /** The first occurrence from `start` cuts `s[start..]` in the same way. */
  lemma CutAtFind(s: string, sep: string, start: nat)
    requires sep != [] && start <= |s| && Find(s, sep, start) < |s|
    ensures var i := Find(s, sep, start);
      s[start..] == s[start..i] + sep + s[i + |sep|..]
  {
    FindOccurs(s, sep, start);
    CutAt(s, sep, start, Find(s, sep, start));
  }

  /** Joining the pieces of `s[start..]` with the separator gives back `s[start..]`. */
  lemma {:induction false} JoinSplitFrom(s: string, sep: string, start: nat)
    requires sep != [] && start <= |s|
    ensures Join(SplitFrom(s, sep, start), sep) == s[start..]
    decreases |s| - start
  {
    var i := Find(s, sep, start);
    if i < |s| {
      JoinSplitFrom(s, sep, i + |sep|);
      JoinSplitStep(s, sep, start);
    } else {
      JoinSplitWhole(s, sep, start);
    }
  }

  /** If the pieces after the first occurrence join back to the text after it, the
      pieces from `start` join back to `s[start..]`. */
  lemma JoinSplitStep(s: string, sep: string, start: nat)
    requires sep != [] && start <= |s| && Find(s, sep, start) < |s|
    requires var i := Find(s, sep, start);
      Join(SplitFrom(s, sep, i + |sep|), sep) == s[i + |sep|..]
    ensures Join(SplitFrom(s, sep, start), sep) == s[start..]
  {
    var i := Find(s, sep, start);
    var t := SplitFrom(s, sep, i + |sep|);
    SplitFromCons(s, sep, start);
    CutAtFind(s, sep, start);
    JoinAfterCut(s[start..i], sep, t, s[i + |sep|..]);
  }

  /** Short of the end, the split from `start` is the first piece followed by the split
      after the occurrence. */
  lemma SplitFromCons(s: string, sep: string, start: nat)
    requires sep != [] && start <= |s| && Find(s, sep, start) < |s|
    ensures var i := Find(s, sep, start);
      SplitFrom(s, sep, start) == [s[start..i]] + SplitFrom(s, sep, i + |sep|)
  {
  }

  /** Without an occurrence from `start` on, the join of the one piece is `s[start..]`. */
  lemma JoinSplitWhole(s: string, sep: string, start: nat)
    requires sep != [] && start <= |s| && Find(s, sep, start) == |s|
    ensures Join(SplitFrom(s, sep, start), sep) == s[start..]
  {
    assert SplitFrom(s, sep, start) == [s[start..]];
  }

  /** A piece, the separator and the join of parts whose join is `rest`. */
  lemma JoinAfterCut(p: string, sep: string, t: seq<string>, rest: string)
    requires t != [] && Join(t, sep) == rest
    ensures Join([p] + t, sep) == p + sep + rest
  {
    JoinCons(p, t, sep);
  }

  /** Joining the pieces of a split with the same separator gives back the string. */
  lemma JoinSplit(s: string, sep: string)
    requires sep != []
    ensures Join(Split(s, sep), sep) == s
  {
    JoinSplitFrom(s, sep, 0);
    assert s[0..] == s;
  }

  /** An occurrence of a non-overlapping separator that starts inside `x` cannot reach
      into a following copy of the separator: it ends inside `x`. */
  lemma NoCrossing(x: string, sep: string, w: string, j: int)
    requires BorderFree(sep)
    ensures 0 <= j < |x| && OccursAt(x + sep + w, sep, j) ==> j + |sep| <= |x|
  {
    if 0 <= j < |x| < j + |sep| {
      var s := x + sep + w;
      var k := |x| - j;
      assert s[j..j + |sep|][k..] == sep[..|sep| - k];
      assert sep[k..] != sep[..|sep| - k];
    }
  }

  /** In `p + sep + rest`, where `p` is free of a non-overlapping separator, the first
      occurrence is the one right after `p`. */
  lemma FindAfterPiece(p: string, sep: string, rest: string)
    requires sep != [] && BorderFree(sep) && !Contains(p, sep)
    ensures Find(p + sep + rest, sep, 0) == |p|
  {
    var s := p + sep + rest;
    assert s[|p|..|p| + |sep|] == sep;
    forall j | 0 <= j < |p|
      ensures !OccursAt(s, sep, j)
    {
      if j + |sep| <= |p| {
        assert s[j..j + |sep|] == p[j..j + |sep|];
        assert !OccursAt(p, sep, j);
      } else {
        NoCrossing(p, sep, rest, j);
      }
    }
    FindAtMost(s, sep, 0, |p|);
    FindAtLeast(s, sep, 0, |p|);
  }

  /** Searching `s` from `start` is searching `s[start..]`, `start` further on. */
  lemma FindFrom(s: string, sep: string, start: nat)
    requires sep != [] && start <= |s|
    ensures Find(s, sep, start) == start + Find(s[start..], sep, 0)
  {
    assert s == s[..start] + s[start..];
    FindShift(s[..start], s[start..], sep, 0);
  }

  /** Where `s[start..]` is a piece free of a non-overlapping separator, the separator and
      a rest, the search from `start` stops right after the piece. */
  lemma FindPieceAt(s: string, sep: string, start: nat, p: string, rest: string)
    requires sep != [] && BorderFree(sep) && !Contains(p, sep)
    requires start <= |s| && s[start..] == p + sep + rest
    ensures Find(s, sep, start) == start + |p|
    ensures s[start..start + |p|] == p && s[start + |p| + |sep|..] == rest
  {
    FindAfterPiece(p, sep, rest);
    FindFrom(s, sep, start);
    assert s[start..][..|p|] == p;
    assert s[start..][|p| + |sep|..] == rest;
  }

  /** Where `s[start..]` is the join of parts free of a non-overlapping separator, the
      split from `start` gives back the parts. */
  lemma {:induction false} SplitFromJoin(s: string, sep: string, start: nat, parts: seq<string>)
    requires sep != [] && BorderFree(sep) && parts != []
    requires forall i :: 0 <= i < |parts| ==> !Contains(parts[i], sep)
    requires start <= |s| && s[start..] == Join(parts, sep)
    ensures SplitFrom(s, sep, start) == parts
    decreases |parts|
  {
    if |parts| == 1 {
      FindNone(s[start..], sep);
      FindFrom(s, sep, start);
    } else {
      var p := parts[0];
      FindPieceAt(s, sep, start, p, Join(parts[1..], sep));
      SplitFromJoin(s, sep, start + |p| + |sep|, parts[1..]);
      assert parts == [p] + parts[1..];
    }
  }

  /** Splitting a join gives the parts back when the separator cannot overlap itself
      and no part contains it. */
  lemma SplitJoin(parts: seq<string>, sep: string)
    requires sep != [] && BorderFree(sep) && parts != []
    requires forall i :: 0 <= i < |parts| ==> !Contains(parts[i], sep)
    ensures Split(Join(parts, sep), sep) == parts
  {
    var s := Join(parts, sep);
    assert s[0..] == s;
    SplitFromJoin(s, sep, 0, parts);
  }

  /** The last piece of the split of `s[start..]`. */
  function LastPiece(s: string, sep: string, start: nat): string
    requires sep != [] && start <= |s|
  {
    var parts := SplitFrom(s, sep, start);
    parts[|parts| - 1]
  }

  /** `s.split(sep)[-1]`: the text after the last occurrence of `sep` that a left-to-right
      split finds, or the whole of `s` when there is none. */
  function LastField(s: string, sep: string): string
    requires sep != []
  {
    var parts := Split(s, sep);
    parts[|parts| - 1]
  }

  /** Past an occurrence, the last piece is that of the text that follows it. */
  lemma LastPieceStep(s: string, sep: string, start: nat)
    requires sep != [] && start <= |s| && Find(s, sep, start) < |s|
    ensures LastPiece(s, sep, start) == LastPiece(s, sep, Find(s, sep, start) + |sep|)
  {
  }

  /** The last piece is a suffix of `s[start..]`. */
  lemma {:induction false} LastPieceSuffix(s: string, sep: string, start: nat)
    requires sep != [] && start <= |s|
    ensures var r := LastPiece(s, sep, start); |r| <= |s| - start && s[|s| - |r|..] == r
    decreases |s| - start
  {
    var i := Find(s, sep, start);
    if i < |s| {
      LastPieceStep(s, sep, start);
      LastPieceSuffix(s, sep, i + |sep|);
    }
  }

  /** Where the search from `start` finds nothing, `s[start..]` holds no separator. */
  lemma NoneFrom(s: string, sep: string, start: nat)
    requires sep != [] && start <= |s| && Find(s, sep, start) == |s|
    ensures !Contains(s[start..], sep)
  {
    FindFrom(s, sep, start);
    FindNone(s[start..], sep);
  }

  /** The last piece holds no occurrence of the separator. */
  lemma {:induction false} LastPieceWithoutSep(s: string, sep: string, start: nat)
    requires sep != [] && start <= |s|
    ensures !Contains(LastPiece(s, sep, start), sep)
    decreases |s| - start
  {
    var i := Find(s, sep, start);
    if i < |s| {
      LastPieceStep(s, sep, start);
      LastPieceWithoutSep(s, sep, i + |sep|);
    } else {
      NoneFrom(s, sep, start);
    }
  }

  /** The last piece is all of `s[start..]` or is preceded by `sep`. */
  lemma {:induction false} LastPiecePreceded(s: string, sep: string, start: nat)
    requires sep != [] && start <= |s|
    ensures var r := LastPiece(s, sep, start);
      r == s[start..] || (|r| + |sep| <= |s| && OccursAt(s, sep, |s| - |r| - |sep|))
    decreases |s| - start
  {
    var i := Find(s, sep, start);
    if i < |s| {
      LastPieceStep(s, sep, start);
      LastPiecePreceded(s, sep, i + |sep|);
      FindOccurs(s, sep, start);
    }
  }

  /** The last field is a suffix of the text. */
  lemma LastFieldSuffix(s: string, sep: string)
    requires sep != []
    ensures EndsWith(s, LastField(s, sep))
  {
    LastPieceSuffix(s, sep, 0);
  }

  /** The last field holds no occurrence of the separator. */
  lemma LastFieldWithoutSep(s: string, sep: string)
    requires sep != []
    ensures !Contains(LastField(s, sep), sep)
  {
    LastPieceWithoutSep(s, sep, 0);
  }

  /** The last field ends the text and is all of it, or the text in front of it ends
      with `sep`. */
  lemma LastFieldPreceded(s: string, sep: string)
    requires sep != []
    ensures var r := LastField(s, sep);
      EndsWith(s, r) && (r == s || EndsWith(s[..|s| - |r|], sep))
  {
    var r := LastField(s, sep);
    LastPieceSuffix(s, sep, 0);
    LastPiecePreceded(s, sep, 0);
    assert s[0..] == s;
    if r != s {
      var j := |s| - |r| - |sep|;
      assert s[..|s| - |r|][j..] == s[j..j + |sep|];
    }
  }

  /** After a prefix `x`, a tail `w` free of the separator is the last piece. */
  lemma LastPieceTail(x: string, w: string, sep: string)
    requires sep != [] && !Contains(w, sep)
    ensures LastPiece(x + w, sep, |x|) == w
  {
    FindNone(w, sep);
    FindShift(x, w, sep, 0);
    assert (x + w)[|x|..] == w;
  }

  /** When the separator cannot overlap itself, the last field of `x + sep + w` is `w`
      if `w` is free of the separator. */
  lemma LastFieldAfter(x: string, sep: string, w: string)
    requires sep != [] && BorderFree(sep) && !Contains(w, sep)
    ensures LastField(x + sep + w, sep) == w
  {
    LastPieceAfter(x, sep, w, 0);
  }

  /** From any start inside `x`, the last piece of `x + sep + w` is `w`. */
  lemma {:induction false} LastPieceAfter(x: string, sep: string, w: string, start: nat)
    requires sep != [] && BorderFree(sep) && !Contains(w, sep) && start <= |x|
    ensures LastPiece(x + sep + w, sep, start) == w
    decreases |x| - start
  {
    var s := x + sep + w;
    assert s[|x|..|x| + |sep|] == sep;
    FindAtMost(s, sep, start, |x|);
    var i := Find(s, sep, start);
    FindOccurs(s, sep, start);
    NoCrossing(x, sep, w, i);
    LastPieceStep(s, sep, start);
    if i == |x| {
      LastPieceTail(x + sep, w, sep);
    } else {
      LastPieceAfter(x, sep, w, i + |sep|);
    }
  }

  /** A line that starts with the separator and has no other occurrence of it: the last
      field is what follows the separator. */
  lemma LastFieldAfterLeading(sep: string, w: string)
    requires sep != [] && !Contains(w, sep)
    ensures LastField(sep + w, sep) == w
  {
    var s := sep + w;
    assert s[0..|sep|] == sep;
    FindAtMost(s, sep, 0, 0);
    LastPieceStep(s, sep, 0);
    LastPieceTail(sep, w, sep);
  }

  /** Every part is non-empty and trimmed. */
  predicate AllNonEmptyTrimmed(parts: seq<string>) {
    forall i :: 0 <= i < |parts| ==> parts[i] != [] && Trimmed(parts[i])
  }

  /** Joining non-empty trimmed parts gives a trimmed string, whatever the separator. */
  lemma {:induction false} JoinTrimmed(parts: seq<string>, sep: string)
    requires AllNonEmptyTrimmed(parts)
    ensures Trimmed(Join(parts, sep))
    ensures parts != [] ==> Join(parts, sep) != []
    decreases |parts|
  {
    if |parts| >= 2 {
      var rest := Join(parts[1..], sep);
      JoinTrimmed(parts[1..], sep);
      var j := parts[0] + sep + rest;
      assert j[0] == parts[0][0];
      assert j[|j| - 1] == rest[|rest| - 1];
    }
  }
}
