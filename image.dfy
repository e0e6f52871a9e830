/** The ingredient-extraction pipeline of image.py: OCR text cleaning, resolution of each
    text fragment to an ingredient name through a categorization service, the image
    classifier as a fallback, and the aggregation of the names found across a batch of
    images into one sorted, comma-separated string.

    The foreign parts are abstract inputs: the categorization service is a function from
    a fragment to a reply, and for each image the outcome of loading, preprocessing, OCR
    and classification is given as data. */
module ImagePipeline {
  import opened Sequences
  import opened PyStrings
  import opened StringOrder

  datatype Option<T> = None | Some(value: T)

  // ---------------------------------------------------------------------------
  // clean_text
  // ---------------------------------------------------------------------------

  /** The characters `clean_text` keeps: `[a-zA-Z0-9\s]`. */
  predicate IsCleanChar(c: char) {
    IsAsciiAlnum(c) || IsSpace(c)
  }

  predicate AllClean(s: string) {
    forall i :: 0 <= i < |s| ==> IsCleanChar(s[i])
  }

  /** The ASCII letters and digits of `s`, in order. */
  function Alnums(s: string): string {
    if s == [] then [] else (if IsAsciiAlnum(s[0]) then [s[0]] else []) + Alnums(s[1..])
  }

  lemma {:induction false} AlnumsAppend(a: string, b: string)
    ensures Alnums(a + b) == Alnums(a) + Alnums(b)
    decreases |a|
  {
    if a != [] {
      assert (a + b)[1..] == a[1..] + b;
      AlnumsAppend(a[1..], b);
    } else {
      assert a + b == b;
    }
  }

  lemma {:induction false} AlnumsOfSpace(s: string)
    requires AllSpace(s)
    ensures Alnums(s) == []
    decreases |s|
  {
    if s != [] {
      AlnumsOfSpace(s[1..]);
    }
  }

  /** `re.sub(r'[^a-zA-Z0-9\s]', '', s)`: every character outside the class is deleted,
      and the others are kept in order. */
  function RemoveNoise(s: string): (r: string)
    ensures AllClean(r)
    ensures IsSubsequence(r, s)
    decreases |s|
  {
    if s == [] then []
    else if IsCleanChar(s[0]) then
      var t := RemoveNoise(s[1..]);
      assert ([s[0]] + t)[1..] == t;
      [s[0]] + t
    else
      SubsequenceSkip(RemoveNoise(s[1..]), s);
      RemoveNoise(s[1..])
  }

  /** Unfolding one step of the substitution. */
  lemma RemoveNoiseHead(s: string)
    requires s != []
    ensures RemoveNoise(s) == (if IsCleanChar(s[0]) then [s[0]] else []) + RemoveNoise(s[1..])
  {
  }

  /** Every letter, digit and white-space character of `s` is kept, as often as it
      occurs: only the characters outside the class are deleted. */
  lemma RemoveNoiseKeepsClean(s: string)
    ensures forall c :: IsCleanChar(c) ==> multiset(RemoveNoise(s))[c] == multiset(s)[c]
  {
    forall c | IsCleanChar(c)
      ensures multiset(RemoveNoise(s))[c] == multiset(s)[c]
    {
      RemoveNoiseCount(s, c);
    }
  }

  lemma {:induction false} RemoveNoiseCount(s: string, c: char)
    requires IsCleanChar(c)
    ensures multiset(RemoveNoise(s))[c] == multiset(s)[c]
    decreases |s|
  {
    if s != [] {
      RemoveNoiseHead(s);
      RemoveNoiseCount(s[1..], c);
      assert s == [s[0]] + s[1..];
    }
  }

  lemma {:induction false} RemoveNoiseAlnums(s: string)
    ensures Alnums(RemoveNoise(s)) == Alnums(s)
    decreases |s|
  {
    if s != [] {
      RemoveNoiseHead(s);
      RemoveNoiseAlnums(s[1..]);
      var kept := if IsCleanChar(s[0]) then [s[0]] else [];
      AlnumsAppend(kept, RemoveNoise(s[1..]));
      assert Alnums(kept) == (if IsAsciiAlnum(s[0]) then [s[0]] else []) by {
        if kept != [] {
          assert kept[1..] == [];
        }
      }
    }
  }

  /** Text made only of letters, digits and white space is left as it is. */
  lemma {:induction false} RemoveNoiseClean(s: string)
    requires AllClean(s)
    ensures RemoveNoise(s) == s
    decreases |s|
  {
    if s != [] {
      assert AllClean(s[1..]) by {
        forall i | 0 <= i < |s| - 1
          ensures IsCleanChar(s[1..][i])
        {
          assert s[1..][i] == s[i + 1];
        }
      }
      RemoveNoiseClean(s[1..]);
      assert s == [s[0]] + s[1..];
    }
  }

  /** `clean_text(s)`: the noise characters removed, then `strip()`. The result is the
      noise-free text with white space cut from its two ends only: the white space
      inside it is kept. It is a trimmed subsequence of `s` made of ASCII letters,
      digits and white space; it keeps every letter and digit of `s`, and it is empty
      exactly when `s` has no ASCII letter or digit. */
  function CleanText(s: string): (r: string)
    ensures Trimmed(r) && AllClean(r)
    ensures exists lo, hi | 0 <= lo <= hi <= |RemoveNoise(s)| ::
              r == RemoveNoise(s)[lo..hi] && AllSpace(RemoveNoise(s)[..lo]) && AllSpace(RemoveNoise(s)[hi..])
    ensures IsSubsequence(r, s)
    ensures Alnums(r) == Alnums(s)
    ensures r == [] <==> Alnums(s) == []
  {
    var t := RemoveNoise(s);
    RemoveNoiseAlnums(s);
    StripSubsequence(t, s);
    AlnumsStrip(t);
    StripClean(t);
    var r := Strip(t);
    var lo, hi := StripStart(t), StripEnd(t);
    SpacePrefix(t, lo);
    SpaceSuffix(t, hi);
    assert r == t[lo..hi];
    assert r != [] ==> Alnums(r) != [] by {
      if r != [] {
        assert r == [r[0]] + r[1..];
      }
    }
    r
  }

  /** `strip()` only removes white space: applied to a subsequence of `s` it gives a
      subsequence of `s`, with the same letters and digits, and it keeps a clean text
      clean. */
  lemma StripSubsequence(t: string, s: string)
    requires IsSubsequence(t, s)
    ensures IsSubsequence(Strip(t), s)
  {
    SubsequenceSlice(t, s, StripStart(t), StripEnd(t));
  }

  lemma AlnumsStrip(t: string)
    ensures Alnums(Strip(t)) == Alnums(t)
  {
    var lo, hi := StripStart(t), StripEnd(t);
    SpacePrefix(t, lo);
    SpaceSuffix(t, hi);
    AlnumsAround(t[..lo], t[lo..hi], t[hi..]);
    SliceThree(t, lo, hi);
  }

  lemma SliceThree(t: string, lo: nat, hi: nat)
    requires lo <= hi <= |t|
    ensures t[..lo] + t[lo..hi] + t[hi..] == t
  {
  }

  lemma SpacePrefix(t: string, lo: nat)
    requires lo <= |t| && forall i :: 0 <= i < lo ==> IsSpace(t[i])
    ensures AllSpace(t[..lo])
  {
    forall i | 0 <= i < lo
      ensures IsSpace(t[..lo][i])
    {
      assert t[..lo][i] == t[i];
    }
  }

  lemma SpaceSuffix(t: string, hi: nat)
    requires hi <= |t| && forall i :: hi <= i < |t| ==> IsSpace(t[i])
    ensures AllSpace(t[hi..])
  {
    forall i | 0 <= i < |t| - hi
      ensures IsSpace(t[hi..][i])
    {
      assert t[hi..][i] == t[hi + i];
    }
  }

  /** White space around a text adds no letter or digit. */
  lemma AlnumsAround(a: string, b: string, c: string)
    requires AllSpace(a) && AllSpace(c)
    ensures Alnums(a + b + c) == Alnums(b)
  {
    AlnumsAppend(a + b, c);
    AlnumsAppend(a, b);
    AlnumsOfSpace(a);
    AlnumsOfSpace(c);
  }

  lemma StripClean(t: string)
    requires AllClean(t)
    ensures AllClean(Strip(t))
  {
    var lo, hi := StripStart(t), StripEnd(t);
    forall i | 0 <= i < hi - lo
      ensures IsCleanChar(Strip(t)[i])
    {
      assert Strip(t)[i] == t[lo + i];
    }
  }

  /** Cleaning an already cleaned text changes nothing. */
  lemma CleanTextIdempotent(s: string)
    ensures CleanText(CleanText(s)) == CleanText(s)
  {
    RemoveNoiseClean(CleanText(s));
    StripTrimmed(CleanText(s));
  }

  // ---------------------------------------------------------------------------
  // Descriptive modifiers: re.sub(r'(diced|sliced|fresh)\s+', '', ingredient)
  // ---------------------------------------------------------------------------

  /** The length of the match of `(diced|sliced|fresh)\s+` at the start of `s`, or 0 when
      there is none. The three words begin with different letters, so at most one of
      them can match, and `\s+` takes the whole run of white space. */
  function ModifierMatch(s: string): (n: nat)
    ensures n <= |s|
    ensures n > 0 ==> IsSpace(s[n - 1]) && (n == |s| || !IsSpace(s[n]))
  {
    var word := if StartsWith(s, "diced") then 5
                else if StartsWith(s, "sliced") then 6
                else if StartsWith(s, "fresh") then 5
                else 0;
    if word > 0 && LeadingSpaces(s[word..]) > 0 then
      var n := word + LeadingSpaces(s[word..]);
      assert s[n - 1] == s[word..][n - 1 - word];
      assert n < |s| ==> s[n] == s[word..][n - word];
      n
    else 0
  }

  /** Deletes, scanning from the left, every non-overlapping occurrence of a modifier
      followed by white space, wherever it stands in `s`. What is left is a subsequence
      of `s`, no longer than `s`. */
  function RemoveModifiers(s: string): (r: string)
    ensures IsSubsequence(r, s)
    decreases |s|
  {
    if s == [] then []
    else
      var n := ModifierMatch(s);
      if n > 0 then
        var r := RemoveModifiers(s[n..]);
        SubsequenceDrop(r, s, n);
        r
      else
        var t := RemoveModifiers(s[1..]);
        assert ([s[0]] + t)[1..] == t;
        [s[0]] + t
  }

  /** A last character that is not white space is never part of a match, so it
      survives the substitution. */
  lemma {:induction false} RemoveModifiersKeepsLast(s: string)
    requires s != [] && !IsSpace(s[|s| - 1])
    ensures RemoveModifiers(s) != [] && RemoveModifiers(s)[|RemoveModifiers(s)| - 1] == s[|s| - 1]
    decreases |s|
  {
    var n := ModifierMatch(s);
    if n > 0 {
      RemoveModifiersDrop(s);
      var t := s[n..];
      assert t[|t| - 1] == s[|s| - 1];
      RemoveModifiersKeepsLast(t);
    } else {
      RemoveModifiersKeep(s);
      var t := s[1..];
      if t != [] {
        assert t[|t| - 1] == s[|s| - 1];
        RemoveModifiersKeepsLast(t);
      }
      LastOfCons(s[0], RemoveModifiers(t), s[|s| - 1]);
    }
  }

  lemma LastOfCons(c: char, r: string, x: char)
    requires (r == [] && c == x) || (r != [] && r[|r| - 1] == x)
    ensures ([c] + r)[|r|] == x
  {
  }

  /** Unfolding one step of the substitution where a modifier matches. */
  lemma RemoveModifiersDrop(s: string)
    requires s != [] && ModifierMatch(s) > 0
    ensures RemoveModifiers(s) == RemoveModifiers(s[ModifierMatch(s)..])
  {
  }

  /** Unfolding one step of the substitution where no modifier matches. */
  lemma RemoveModifiersKeep(s: string)
    requires s != [] && ModifierMatch(s) == 0
    ensures RemoveModifiers(s) == [s[0]] + RemoveModifiers(s[1..])
  {
  }

  /** A match ends in front of a character that is not white space, so a text that
      does not start with white space is turned into one that does not either. */
  lemma {:induction false} RemoveModifiersKeepsStart(s: string)
    requires s == [] || !IsSpace(s[0])
    ensures RemoveModifiers(s) == [] || !IsSpace(RemoveModifiers(s)[0])
    decreases |s|
  {
    if s != [] {
      var n := ModifierMatch(s);
      if n > 0 {
        if n < |s| {
          assert s[n..][0] == s[n];
        }
        RemoveModifiersKeepsStart(s[n..]);
      }
    }
  }

  /** Deleting characters adds no upper-case letter. */
  lemma {:induction false} RemoveModifiersNoUpper(s: string)
    requires HasNoUpper(s)
    ensures HasNoUpper(RemoveModifiers(s))
    decreases |s|
  {
    if s != [] {
      var n := ModifierMatch(s);
      var k := if n > 0 then n else 1;
      assert HasNoUpper(s[k..]) by {
        forall i | 0 <= i < |s| - k
          ensures !('A' <= s[k..][i] <= 'Z')
        {
          assert s[k..][i] == s[k + i];
        }
      }
      RemoveModifiersNoUpper(s[k..]);
    }
  }

  /** No modifier followed by white space starts anywhere in `s`. */
  predicate NoModifier(s: string) {
    forall i :: 0 <= i < |s| ==> ModifierMatch(s[i..]) == 0
  }

  /** Text without a modifier is left unchanged. */
  lemma {:induction false} RemoveModifiersUnchanged(s: string)
    requires NoModifier(s)
    ensures RemoveModifiers(s) == s
    decreases |s|
  {
    if s != [] {
      assert s[0..] == s;
      forall i | 0 <= i < |s[1..]|
        ensures ModifierMatch(s[1..][i..]) == 0
      {
        assert s[1..][i..] == s[i + 1..];
      }
      RemoveModifiersUnchanged(s[1..]);
    }
  }

  /** A modifier, one space and a single word: only the word is left. */
  lemma ModifierBeforeWord(m: string, w: string)
    requires m == "diced" || m == "sliced" || m == "fresh"
    requires forall i :: 0 <= i < |w| ==> !IsSpace(w[i])
    ensures RemoveModifiers(m + " " + w) == w
  {
    var s := m + " " + w;
    ModifierMatchBeforeWord(m, w);
    assert s[|m| + 1..] == w;
    NoModifierWord(w);
    RemoveModifiersUnchanged(w);
  }

  lemma ModifierMatchBeforeWord(m: string, w: string)
    requires m == "diced" || m == "sliced" || m == "fresh"
    requires w == [] || !IsSpace(w[0])
    ensures ModifierMatch(m + " " + w) == |m| + 1
  {
    var s := m + " " + w;
    WordThenRest(m, " " + w);
    assert s == m + (" " + w);
    LeadingSpaceThenWord(w);
    if m == "diced" {
      assert StartsWith(s, "diced");
    } else if m == "sliced" {
      assert s[0] == 's' && StartsWith(s, "sliced");
    } else {
      assert s[0] == 'f' && StartsWith(s, "fresh");
    }
  }

  lemma WordThenRest(m: string, rest: string)
    ensures (m + rest)[..|m|] == m && (m + rest)[|m|..] == rest
  {
  }

  lemma LeadingSpaceThenWord(w: string)
    requires w == [] || !IsSpace(w[0])
    ensures LeadingSpaces(" " + w) == 1
  {
    assert (" " + w)[1..] == w;
  }

  /** A service answer "diced onion" becomes the name "onion". */
  lemma DicedOnion()
    ensures RemoveModifiers("diced onion") == "onion"
  {
    var s := "diced onion";
    assert StartsWith(s, "diced");
    assert s[5..] == " onion" && LeadingSpaces(" onion") == 1;
    assert ModifierMatch(s) == 6;
    assert s[6..] == "onion";
    NoModifierWord("onion");
    RemoveModifiersUnchanged("onion");
  }

  /** Text in which no match starts is kept as it is, and the substitution goes on
      after it. */
  lemma {:induction false} RemoveModifiersUnmatchedPrefix(p: string, rest: string)
    requires forall i :: 0 <= i < |p| ==> ModifierMatch((p + rest)[i..]) == 0
    ensures RemoveModifiers(p + rest) == p + RemoveModifiers(rest)
    decreases |p|
  {
    if p != [] {
      assert (p + rest)[0..] == p + rest;
      RemoveModifiersUnmatchedHead(p, rest);
      forall i | 0 <= i < |p| - 1
        ensures ModifierMatch((p[1..] + rest)[i..]) == 0
      {
        TailSuffix(p, rest, i);
      }
      RemoveModifiersUnmatchedPrefix(p[1..], rest);
      HeadTailConcat(p, RemoveModifiers(rest));
    } else {
      assert p + rest == rest;
    }
  }

  lemma RemoveModifiersUnmatchedHead(p: string, rest: string)
    requires p != [] && ModifierMatch(p + rest) == 0
    ensures RemoveModifiers(p + rest) == [p[0]] + RemoveModifiers(p[1..] + rest)
  {
    var s := p + rest;
    RemoveModifiersKeep(s);
    assert s[0] == p[0];
    assert s[1..] == p[1..] + rest;
  }

  lemma TailSuffix(p: string, rest: string, i: nat)
    requires i < |p| - 1
    ensures (p[1..] + rest)[i..] == (p + rest)[i + 1..]
  {
  }

  /** No modifier matches where the text does not start with 'd', 's' or 'f'. */
  lemma NoModifierAtStart(s: string)
    requires s != [] && s[0] != 'd' && s[0] != 's' && s[0] != 'f'
    ensures ModifierMatch(s) == 0
  {
  }

  /** The substitution is global, not a prefix strip: a modifier after any text in
      which no match starts is deleted too. */
  lemma ModifierInTheMiddle(p: string, m: string, w: string)
    requires forall i :: 0 <= i < |p| ==> ModifierMatch((p + (m + " " + w))[i..]) == 0
    requires m == "diced" || m == "sliced" || m == "fresh"
    requires forall i :: 0 <= i < |w| ==> !IsSpace(w[i])
    ensures RemoveModifiers(p + (m + " " + w)) == p + w
  {
    ModifierBeforeWord(m, w);
    RemoveModifiersUnmatchedPrefix(p, m + " " + w);
  }

  /** "red fresh basil" becomes "red basil": the 'd' ending "red" starts no match. */
  lemma RedFreshBasil()
    ensures RemoveModifiers("red fresh basil") == "red basil"
  {
    RedStartsNoMatch("fresh" + " " + "basil");
    ModifierInTheMiddle("red ", "fresh", "basil");
    RedFreshBasilText();
  }

  lemma RedFreshBasilText()
    ensures "red " + ("fresh" + " " + "basil") == "red fresh basil"
    ensures "red " + "basil" == "red basil"
  {
  }

  lemma RedStartsNoMatch(rest: string)
    ensures forall i :: 0 <= i < 4 ==> ModifierMatch(("red " + rest)[i..]) == 0
  {
    var s := "red " + rest;
    forall i | 0 <= i < 4
      ensures ModifierMatch(s[i..]) == 0
    {
      var t := s[i..];
      assert t[0] == "red "[i];
      if i == 2 {
        assert t[1] == ' ';
        NoModifierAtD(t);
      } else {
        NoModifierAtStart(t);
      }
    }
  }

  /** A 'd' followed by a space starts no match. */
  lemma NoModifierAtD(t: string)
    requires |t| >= 2 && t[0] == 'd' && t[1] == ' '
    ensures ModifierMatch(t) == 0
  {
    assert !StartsWith(t, "diced") by {
      if |t| >= 5 {
        assert t[..5][1] == ' ';
      }
    }
    assert !StartsWith(t, "sliced") by {
      if |t| >= 6 {
        assert t[..6][0] == 'd';
      }
    }
    assert !StartsWith(t, "fresh") by {
      if |t| >= 5 {
        assert t[..5][0] == 'd';
      }
    }
  }

  /** The answer "fresh none" loses its modifier and becomes "none". */
  lemma FreshNone()
    ensures RemoveModifiers("fresh none") == "none"
  {
    var s := "fresh none";
    assert StartsWith(s, "fresh") && !StartsWith(s, "diced") && !StartsWith(s, "sliced");
    assert s[5..] == " none" && LeadingSpaces(" none") == 1;
    assert ModifierMatch(s) == 6;
    assert s[6..] == "none";
    NoModifierWord("none");
    RemoveModifiersUnchanged("none");
  }

  /** A string with no white space has no modifier match anywhere. */
  lemma NoModifierWord(s: string)
    requires forall i :: 0 <= i < |s| ==> !IsSpace(s[i])
    ensures NoModifier(s)
  {
    forall i | 0 <= i < |s|
      ensures ModifierMatch(s[i..]) == 0
    {
      var t := s[i..];
      var word := if StartsWith(t, "diced") then 5
                  else if StartsWith(t, "sliced") then 6
                  else if StartsWith(t, "fresh") then 5
                  else 0;
      if word > 0 && word < |t| {
        assert t[word..][0] == s[i + word];
      }
    }
  }

  // ---------------------------------------------------------------------------
  // identify_food_ingredients
  // ---------------------------------------------------------------------------

  /** What the categorization service does with one request: it fails (the exception
      that the loop catches), or it answers with the content of the first choice. */
  datatype Reply = ServiceFailed | Answer(content: string)

  /** The outcome of one iteration of the resolution loop: a fragment that is blank
      after trimming is not sent; a failed request is skipped; an answer is trimmed and
      lower-cased and kept, with its modifiers removed, unless it is empty or "none".
      A kept name is non-empty, trimmed and free of upper-case letters. */
  function ResolveFragment(text: string, service: string -> Reply): (r: Option<string>)
    ensures AllSpace(text) ==> r == None
    ensures service(text).ServiceFailed? ==> r == None
    ensures r.Some? <==> !AllSpace(text) && service(text).Answer?
                         && Lower(Strip(service(text).content)) != ""
                         && Lower(Strip(service(text).content)) != "none"
    ensures r.Some? ==> r.value == RemoveModifiers(Lower(Strip(service(text).content)))
    ensures r.Some? ==> r.value != [] && Trimmed(r.value) && HasNoUpper(r.value)
  {
    if AllSpace(text) then None
    else
      match service(text)
      case ServiceFailed => None
      case Answer(content) =>
        var ingredient := Lower(Strip(content));
        LowerTrimmed(Strip(content));
        if ingredient != [] && ingredient != "none" then
          RemoveModifiersKeepsLast(ingredient);
          RemoveModifiersKeepsStart(ingredient);
          RemoveModifiersNoUpper(ingredient);
          Some(RemoveModifiers(ingredient))
        else None
  }

  function OptionToSeq<T>(o: Option<T>): seq<T> {
    match o
    case Some(x) => [x]
    case None => []
  }

  /** The names appended to `ingredients` while the loop runs over `texts`, in order,
      repetitions included. Every one of them is non-empty, trimmed and lower-case. */
  function Resolved(texts: seq<string>, service: string -> Reply): (names: seq<string>)
    ensures forall i :: 0 <= i < |names| ==>
              names[i] != [] && Trimmed(names[i]) && HasNoUpper(names[i])
  {
    var f := text => OptionToSeq(ResolveFragment(text, service));
    var names := FlatMap(texts, f);
    forall i | 0 <= i < |names|
      ensures names[i] != [] && Trimmed(names[i]) && HasNoUpper(names[i])
    {
      FlatMapMembers(texts, f, names[i]);
      var j :| 0 <= j < |texts| && names[i] in f(texts[j]);
      KeptNameShape(ResolveFragment(texts[j], service), names[i]);
    }
    names
  }

  lemma KeptNameShape(o: Option<string>, x: string)
    requires x in OptionToSeq(o)
    requires o.Some? ==> o.value != [] && Trimmed(o.value) && HasNoUpper(o.value)
    ensures x != [] && Trimmed(x) && HasNoUpper(x)
  {
  }

  /** The fragments sent to the service, in order: a subsequence of `texts` holding
      exactly the fragments that are not blank after trimming. */
  function Queried(texts: seq<string>): (q: seq<string>)
    ensures IsSubsequence(q, texts)
    ensures forall i :: 0 <= i < |q| ==> !AllSpace(q[i])
    ensures forall i :: 0 <= i < |texts| && !AllSpace(texts[i]) ==> texts[i] in q
  {
    if texts == [] then []
    else
      var init := texts[..|texts| - 1];
      var last := texts[|texts| - 1];
      var q := Queried(init);
      assert texts == init + [last];
      if !AllSpace(last) then
        SubsequenceSnoc(q, init, last);
        q + [last]
      else
        SubsequenceExtend(q, init, last);
        q
  }

  /** One request is sent per non-blank occurrence: a fragment that occurs twice is
      sent twice. */
  lemma QueriedCounts(texts: seq<string>)
    ensures forall x :: multiset(Queried(texts))[x] == (if AllSpace(x) then 0 else multiset(texts)[x])
  {
    forall x
      ensures multiset(Queried(texts))[x] == (if AllSpace(x) then 0 else multiset(texts)[x])
    {
      QueriedCount(texts, x);
    }
  }

  lemma {:induction false} QueriedCount(texts: seq<string>, x: string)
    ensures multiset(Queried(texts))[x] == (if AllSpace(x) then 0 else multiset(texts)[x])
    decreases |texts|
  {
    if texts != [] {
      var init := texts[..|texts| - 1];
      var last := texts[|texts| - 1];
      QueriedCount(init, x);
      assert texts == init + [last];
      QueriedSnoc(init, last);
    }
  }

  lemma QueriedSnoc(init: seq<string>, last: string)
    ensures Queried(init + [last]) == Queried(init) + (if AllSpace(last) then [] else [last])
  {
    assert (init + [last])[..|init|] == init;
  }

  /** The fragments are handled one after the other and independently: the names found
      in `a + b` are those found in `a` followed by those found in `b`. */
  lemma ResolvedAppend(a: seq<string>, b: seq<string>, service: string -> Reply)
    ensures Resolved(a + b, service) == Resolved(a, service) + Resolved(b, service)
  {
    FlatMapAppend(a, b, text => OptionToSeq(ResolveFragment(text, service)));
  }

  /** A fragment that yields nothing (blank, failed request, empty or "none" answer)
      does not stop the fragments after it from being resolved. */
  lemma SkippedFragment(pre: seq<string>, text: string, post: seq<string>, service: string -> Reply)
    requires ResolveFragment(text, service) == None
    ensures Resolved(pre + [text] + post, service) == Resolved(pre + post, service)
  {
    FlatMapSkip(pre, text, post, text => OptionToSeq(ResolveFragment(text, service)));
  }

  /** A name is found exactly when some fragment resolves to it. */
  lemma ResolvedMembers(texts: seq<string>, service: string -> Reply, x: string)
    ensures x in Resolved(texts, service) <==>
            exists i :: 0 <= i < |texts| && ResolveFragment(texts[i], service) == Some(x)
  {
    var f := text => OptionToSeq(ResolveFragment(text, service));
    FlatMapMembers(texts, f, x);
    if x in Resolved(texts, service) {
      var i :| 0 <= i < |texts| && x in f(texts[i]);
      assert ResolveFragment(texts[i], service) == Some(x);
    }
    if exists i :: 0 <= i < |texts| && ResolveFragment(texts[i], service) == Some(x) {
      var i :| 0 <= i < |texts| && ResolveFragment(texts[i], service) == Some(x);
      assert x in f(texts[i]);
    }
  }

  /** The "none" test comes after `strip().lower()`: the answer " NONE " is dropped. */
  lemma PaddedUpperNoneDropped(text: string, service: string -> Reply)
    requires service(text) == Answer(" NONE ")
    ensures ResolveFragment(text, service) == None
  {
    StripPaddedNone();
    LowerNone();
  }

  lemma StripPaddedNone()
    ensures Strip(" NONE ") == "NONE"
  {
    assert LeadingSpaces(" NONE ") == 1;
    assert TrailingSpaces(" NONE ") == 1;
    assert " NONE "[1..5] == "NONE";
  }

  lemma LowerNone()
    ensures Lower("NONE") == "none"
  {
    var r := Lower("NONE");
    assert r[0] == 'n' && r[1] == 'o' && r[2] == 'n' && r[3] == 'e';
  }

  lemma LowerOnion()
    ensures Lower("Onion") == "onion"
  {
    var r := Lower("Onion");
    assert r[0] == 'o' && r[1..] == "nion";
  }

  /** An answer is kept lower-cased: "Onion" becomes the name "onion". */
  lemma CapitalizedAnswerKept(text: string, service: string -> Reply)
    requires !AllSpace(text) && service(text) == Answer("Onion")
    ensures ResolveFragment(text, service) == Some("onion")
  {
    StripTrimmed("Onion");
    LowerOnion();
    NoModifierWord("onion");
    RemoveModifiersUnchanged("onion");
  }

  /** Because modifiers are removed after the "none" check, the answer "fresh none" is
      kept as the name "none". */
  lemma ModifiedNoneIsKept(text: string, service: string -> Reply)
    requires !AllSpace(text) && service(text) == Answer("fresh none")
    ensures ResolveFragment(text, service) == Some("none")
  {
    StripTrimmed("fresh none");
    LowerNoUpper("fresh none");
    FreshNone();
  }

  // ---------------------------------------------------------------------------
  // Per-image outcomes of the foreign stages
  // ---------------------------------------------------------------------------

  /** What the classifier would report for the resized image when it is enabled: a
      label with the soft-max probability of the arg-max class, or an exception. */
  datatype Prediction = Predicted(className: string, confidence: real) | ClassifierFailed

  /** `perform_ocr`: both engines run inside one `try`; an exception from either loses
      both outputs. */
  datatype OcrOutcome = OcrFailed | OcrRead(tesseractText: string, easyOcrTexts: seq<string>)

  /** Why an image contributes nothing before any text is resolved. */
  datatype SkipReason = FileMissing | Unreadable | PreprocessingFailed | Raised

  datatype ImageInput = Skipped(reason: SkipReason) | Decoded(ocr: OcrOutcome, prediction: Prediction)

  /** `perform_ocr`: the Tesseract text and each EasyOCR fragment, cleaned; `("", [])`
      when OCR raised. Every cleaned fragment is trimmed and holds only ASCII letters,
      digits and white space. */
  function PerformOcr(ocr: OcrOutcome): (cleaned: (string, seq<string>))
    ensures ocr.OcrFailed? ==> cleaned == ("", [])
    ensures ocr.OcrRead? ==> |cleaned.1| == |ocr.easyOcrTexts|
    ensures forall i :: 0 <= i < |cleaned.1| ==> Trimmed(cleaned.1[i]) && AllClean(cleaned.1[i])
    ensures ocr.OcrRead? ==> cleaned.0 == CleanText(ocr.tesseractText)
    ensures ocr.OcrRead? ==> forall i :: 0 <= i < |cleaned.1| ==> cleaned.1[i] == CleanText(ocr.easyOcrTexts[i])
  {
    match ocr
    case OcrFailed => ("", [])
    case OcrRead(tesseractText, easyOcrTexts) =>
      (CleanText(tesseractText), seq(|easyOcrTexts|, i requires 0 <= i < |easyOcrTexts| => CleanText(easyOcrTexts[i])))
  }

  /** `classify_image` as a function of the enabled flag: with ML disabled, or when the
      classifier raises, the result is `("unknown", 0.0)`. */
  function Classification(mlEnabled: bool, prediction: Prediction): (r: (string, real))
    ensures !mlEnabled || prediction.ClassifierFailed? ==> r == ("unknown", 0.0)
    ensures mlEnabled && prediction.Predicted? ==> r == (prediction.className, prediction.confidence)
  {
    if !mlEnabled then ("unknown", 0.0)
    else
      match prediction
      case Predicted(className, confidence) => (className, confidence)
      case ClassifierFailed => ("unknown", 0.0)
  }

  /** The acceptance gate of the fallback: the lower-cased label is taken when the
      confidence is strictly above 0.5 and the label is not "unknown" in any case. An
      accepted name is never the sentinel "unknown" and has no upper-case letter. */
  function AcceptLabel(className: string, confidence: real): (r: Option<string>)
    ensures r.Some? <==> confidence > 0.5 && Lower(className) != "unknown"
    ensures r.Some? ==> r.value == Lower(className) && r.value != "unknown" && HasNoUpper(r.value)
  {
    if confidence > 0.5 && Lower(className) != "unknown" then Some(Lower(className)) else None
  }

  /** A confidence of exactly 0.5 is rejected; just above it is accepted. */
  lemma ConfidenceBoundary(className: string)
    requires Lower(className) != "unknown"
    ensures AcceptLabel(className, 0.5) == None
    ensures AcceptLabel(className, 0.50001) == Some(Lower(className))
  {
  }

  /** The degraded classifier result is never accepted. */
  lemma DegradedResultRejected(prediction: Prediction)
    ensures AcceptLabel(Classification(false, prediction).0, Classification(false, prediction).1) == None
  {
  }

  /** The names one image contributes: the names resolved from its cleaned EasyOCR
      fragments, or, when there are none, the accepted classifier label, if any. A
      skipped image contributes nothing. */
  function ImageNames(mlEnabled: bool, image: ImageInput, service: string -> Reply): (names: seq<string>)
    ensures image.Skipped? ==> names == []
    ensures forall i :: 0 <= i < |names| ==> HasNoUpper(names[i])
    ensures image.Decoded? && Resolved(PerformOcr(image.ocr).1, service) != [] ==>
              names == Resolved(PerformOcr(image.ocr).1, service)
    ensures image.Decoded? && Resolved(PerformOcr(image.ocr).1, service) == [] ==> |names| <= 1
    ensures "unknown" in names ==> image.Decoded? && "unknown" in Resolved(PerformOcr(image.ocr).1, service)
  {
    match image
    case Skipped(_) => []
    case Decoded(ocr, prediction) =>
      var identified := Resolved(PerformOcr(ocr).1, service);
      if identified != [] then identified
      else
        var (className, confidence) := Classification(mlEnabled, prediction);
        OptionToSeq(AcceptLabel(className, confidence))
  }

  /** The classifier is consulted only when text resolution found nothing: otherwise the
      names of an image do not depend on the classifier at all. */
  lemma FallbackOnlyWhenTextFails(ml1: bool, ml2: bool, ocr: OcrOutcome, p1: Prediction, p2: Prediction,
                                  service: string -> Reply)
    requires Resolved(PerformOcr(ocr).1, service) != []
    ensures ImageNames(ml1, Decoded(ocr, p1), service) == ImageNames(ml2, Decoded(ocr, p2), service)
  {
  }

  /** With the classifier disabled an image contributes only what its text resolves to. */
  lemma DisabledClassifierAddsNothing(image: ImageInput, service: string -> Reply)
    ensures ImageNames(false, image, service) ==
            if image.Decoded? then Resolved(PerformOcr(image.ocr).1, service) else []
  {
  }

  /** The Tesseract text is computed and then ignored. */
  lemma TesseractIgnored(ml: bool, t1: string, t2: string, easy: seq<string>, p: Prediction,
                         service: string -> Reply)
    ensures ImageNames(ml, Decoded(OcrRead(t1, easy), p), service)
         == ImageNames(ml, Decoded(OcrRead(t2, easy), p), service)
  {
  }

  // ---------------------------------------------------------------------------
  // The batch and its aggregation
  // ---------------------------------------------------------------------------

  /** All names the batch collects, image after image. */
  function Collected(mlEnabled: bool, images: seq<ImageInput>, service: string -> Reply): (all: seq<string>)
    ensures forall x :: x in all <==> exists i :: 0 <= i < |images| && x in ImageNames(mlEnabled, images[i], service)
  {
    var f := image => ImageNames(mlEnabled, image, service);
    var all := FlatMap(images, f);
    forall x
      ensures x in all <==> exists i :: 0 <= i < |images| && x in ImageNames(mlEnabled, images[i], service)
    {
      FlatMapMembers(images, f, x);
    }
    all
  }

  /** Handling one more image adds that image's names to the collection. */
  lemma CollectedStep(ml: bool, images: seq<ImageInput>, i: nat, service: string -> Reply)
    requires i < |images|
    ensures Elems(Collected(ml, images[..i + 1], service))
            == Elems(Collected(ml, images[..i], service)) + Elems(ImageNames(ml, images[i], service))
  {
    assert images[..i + 1][..i] == images[..i];
    ElemsAppend(Collected(ml, images[..i], service), ImageNames(ml, images[i], service));
  }

  /** When text resolution finds names, they are the names of the image. */
  lemma TextNames(ml: bool, ocr: OcrOutcome, prediction: Prediction, service: string -> Reply,
                  identified: seq<string>)
    requires Elems(identified) == Elems(Resolved(PerformOcr(ocr).1, service)) && identified != []
    ensures Elems(ImageNames(ml, Decoded(ocr, prediction), service)) == Elems(identified)
  {
    ElemsEmpty(identified);
    ElemsEmpty(Resolved(PerformOcr(ocr).1, service));
  }

  /** When text resolution finds nothing, the image's names are the accepted label, if any. */
  lemma FallbackNames(ml: bool, ocr: OcrOutcome, prediction: Prediction, service: string -> Reply,
                      identified: seq<string>, className: string, confidence: real)
    requires Elems(identified) == Elems(Resolved(PerformOcr(ocr).1, service)) && identified == []
    requires (className, confidence) == Classification(ml, prediction)
    ensures ImageNames(ml, Decoded(ocr, prediction), service) == OptionToSeq(AcceptLabel(className, confidence))
  {
    ElemsEmpty(identified);
    ElemsEmpty(Resolved(PerformOcr(ocr).1, service));
  }

  /** An image that is missing, unreadable, fails preprocessing or raises contributes
      nothing, and the images after it are still processed. */
  lemma SkippedImageIsolated(ml: bool, pre: seq<ImageInput>, reason: SkipReason, post: seq<ImageInput>,
                             service: string -> Reply)
    ensures Collected(ml, pre + [Skipped(reason)] + post, service) == Collected(ml, pre + post, service)
  {
    FlatMapSkip(pre, Skipped(reason), post, image => ImageNames(ml, image, service));
  }

  const Sentinels: set<string> := {"none", "unknown"}

  /** The names of the final result: the distinct collected names in ascending order,
      without the sentinels "none" and "unknown". */
  function Finalize(all: seq<string>): (names: seq<string>)
    ensures StrictlySorted(names)
    ensures Elems(names) == Elems(all) - Sentinels
  {
    var unique := Dedup(all);
    var sorted := Sort(unique);
    SortNoDuplicates(unique);
    SortedDistinct(sorted);
    assert Elems(sorted) == Elems(unique) by {
      assert forall x :: x in sorted <==> x in multiset(sorted);
    }
    var names := Without(sorted, Sentinels);
    SubsequenceStrictlySorted(names, sorted);
    names
  }

  /** The final string: the names of `Finalize`, joined with ", ". */
  /** The string the pipeline returns: empty exactly when nothing but sentinels (and
      possibly the empty name) was collected. */
  function Render(all: seq<string>): (r: string)
    ensures r == "" <==> Elems(all) - Sentinels <= {""}
  {
    JoinEmpty(Finalize(all), ", ");
    FinalizeNothing(all);
    Join(Finalize(all), ", ")
  }

  /** Nothing is left, or only the empty name, exactly when nothing but sentinels and
      the empty name was collected. */
  lemma FinalizeNothing(all: seq<string>)
    ensures Finalize(all) == [] || Finalize(all) == [""] <==> Elems(all) - Sentinels <= {""}
  {
    var names := Finalize(all);
    if Elems(all) - Sentinels <= {""} {
      AtMostOneEmpty(names);
    } else {
      var x :| x in Elems(all) - Sentinels && x != "";
      assert x in Elems(names);
      assert Elems([""]) == {""};
    }
  }

  /** A strictly ascending list whose only possible element is "" has at most one entry. */
  lemma AtMostOneEmpty(names: seq<string>)
    requires StrictlySorted(names) && Elems(names) <= {""}
    ensures names == [] || names == [""]
  {
    if |names| >= 2 {
      assert names[0] in Elems(names) && names[1] in Elems(names);
      LessIrreflexive(names[0]);
    } else if |names| == 1 {
      assert names[0] in Elems(names);
    }
  }

  /** The result depends only on which names were collected, not on their order or
      repetitions; in particular not on the order Python's `set` gives each image's
      list. */
  lemma FinalizeDependsOnlyOnElems(a: seq<string>, b: seq<string>)
    requires Elems(a) == Elems(b)
    ensures Finalize(a) == Finalize(b)
  {
    StrictlySortedUnique(Finalize(a), Finalize(b));
  }

  /** Each name appears once in the result, and no sentinel appears. */
  lemma FinalizeDistinct(all: seq<string>)
    ensures NoDuplicates(Finalize(all))
    ensures "none" !in Finalize(all) && "unknown" !in Finalize(all)
  {
    StrictlySortedNoDuplicates(Finalize(all));
    assert "none" !in Elems(Finalize(all));
    assert "unknown" !in Elems(Finalize(all));
  }

  /** An empty batch yields the empty string. */
  lemma EmptyBatch(ml: bool, service: string -> Reply)
    ensures Render(Collected(ml, [], service)) == ""
  {
    var names := Finalize([]);
    ElemsEmpty(names);
  }

  /** One image whose text resolves to nothing, with the classifier disabled, yields the
      empty string. */
  lemma NothingFoundDisabled(ocr: OcrOutcome, prediction: Prediction, service: string -> Reply)
    requires Resolved(PerformOcr(ocr).1, service) == []
    ensures Render(Collected(false, [Decoded(ocr, prediction)], service)) == ""
  {
    var image := Decoded(ocr, prediction);
    assert ImageNames(false, image, service) == [];
    assert [image][0] == image;
    assert forall x :: x !in Collected(false, [image], service);
    assert Elems(Collected(false, [image], service)) == {};
  }

  /** Two different names, however often and in whatever order they were collected,
      are reported in ascending order: names collected as "tomato", "onion", "tomato"
      and "unknown" give "onion, tomato". */
  lemma RenderTwoNames(all: seq<string>, a: string, b: string)
    requires Less(a, b)
    requires Elems(all) - Sentinels == {a, b}
    ensures Render(all) == a + ", " + b
  {
    var expected := [a, b];
    assert StrictlySorted(expected);
    assert Elems(expected) == {a, b};
    StrictlySortedUnique(Finalize(all), expected);
    assert expected[1..] == [b];
    assert Join(expected, ", ") == a + ", " + Join([b], ", ");
  }

  /** Splitting the result at ", " gives back the names, when none of them contains
      ", " and there is at least one. */
  lemma RenderSplits(all: seq<string>)
    requires Finalize(all) != []
    requires forall i :: 0 <= i < |all| ==> !Contains(all[i], ", ")
    ensures Split(Render(all), ", ") == Finalize(all)
  {
    var names := Finalize(all);
    forall i | 0 <= i < |names|
      ensures !Contains(names[i], ", ")
    {
      assert names[i] in Elems(names);
      var k :| 0 <= k < |all| && all[k] == names[i];
    }
    assert BorderFree(", ") by {
      assert ", "[1..] == " " && ", "[..1] == ",";
    }
    SplitJoin(names, ", ");
  }

  // ---------------------------------------------------------------------------
  // The processor and the batch loop
  // ---------------------------------------------------------------------------

  /** `ImageProcessor`: whether the classifier is usable is decided once, at
      construction, and never changes afterwards. */
  class ImageProcessor {
    var mlEnabled: bool

    /** `dependenciesLoaded` stands for the import of the ML libraries and `modelLoaded`
        for the download and set-up of the pretrained model. */
    constructor (dependenciesLoaded: bool, modelLoaded: bool)
      ensures mlEnabled == (dependenciesLoaded && modelLoaded)
    {
      mlEnabled := false;
      new;
      SetupMl(dependenciesLoaded, modelLoaded);
    }

    method SetupMl(dependenciesLoaded: bool, modelLoaded: bool)
      modifies this
      ensures mlEnabled == (dependenciesLoaded && modelLoaded)
    {
      if dependenciesLoaded {
        if modelLoaded {
          mlEnabled := true;
        } else {
          mlEnabled := false;
        }
      } else {
        mlEnabled := false;
      }
    }

    method ClassifyImage(prediction: Prediction) returns (className: string, confidence: real)
      ensures (className, confidence) == Classification(mlEnabled, prediction)
      ensures !mlEnabled ==> className == "unknown" && confidence == 0.0
    {
      if !mlEnabled {
        return "unknown", 0.0;
      }
      match prediction
      case Predicted(l, c) =>
        className, confidence := l, c;
      case ClassifierFailed =>
        className, confidence := "unknown", 0.0;
    }

    /** `identify_food_ingredients`: the distinct names the fragments resolve to, in an
        order Python does not fix; `queried` lists the fragments sent to the service. */
    method IdentifyFoodIngredients(textList: seq<string>, service: string -> Reply)
      returns (ingredients: seq<string>, queried: seq<string>)
      ensures NoDuplicates(ingredients)
      ensures Elems(ingredients) == Elems(Resolved(textList, service))
      ensures queried == Queried(textList)
    {
      var found: seq<string> := [];
      queried := [];
      for i := 0 to |textList|
        invariant found == Resolved(textList[..i], service)
        invariant queried == Queried(textList[..i])
      {
        var text := textList[i];
        assert textList[..i + 1][..i] == textList[..i];
        if Strip(text) != [] {
          queried := queried + [text];
          match service(text)
          case ServiceFailed =>
          case Answer(content) =>
            var ingredient := Lower(Strip(content));
            if ingredient != [] && ingredient != "none" {
              ingredient := RemoveModifiers(ingredient);
              found := found + [ingredient];
            }
        }
      }
      assert textList[..|textList|] == textList;
      // list(set(sorted(found))): `set` discards the order that `sorted` gave.
      ingredients := Dedup(found);
    }
  }

  /** `process_uploaded_images`: every image is handled in turn, a skipped one adds
      nothing, and the result is the rendering of all the names collected. */
  method ProcessUploadedImages(dependenciesLoaded: bool, modelLoaded: bool, images: seq<ImageInput>,
                               service: string -> Reply)
    returns (result: string)
    ensures result == Render(Collected(dependenciesLoaded && modelLoaded, images, service))
  {
    var processor := new ImageProcessor(dependenciesLoaded, modelLoaded);
    ghost var ml := processor.mlEnabled;
    var allIngredients: seq<string> := [];
    for i := 0 to |images|
      invariant processor.mlEnabled == ml
      invariant Elems(allIngredients) == Elems(Collected(ml, images[..i], service))
    {
      CollectedStep(ml, images, i, service);
      match images[i]
      case Skipped(_) =>
      case Decoded(ocr, prediction) =>
        var cleaned := PerformOcr(ocr);
        var identified, _ := processor.IdentifyFoodIngredients(cleaned.1, service);
        ElemsAppend(allIngredients, identified);
        allIngredients := allIngredients + identified;
        if identified == [] {
          var className, confidence := processor.ClassifyImage(prediction);
          FallbackNames(ml, ocr, prediction, service, identified, className, confidence);
          if confidence > 0.5 && Lower(className) != "unknown" {
            ElemsAppend(allIngredients, [Lower(className)]);
            allIngredients := allIngredients + [Lower(className)];
          }
        } else {
          TextNames(ml, ocr, prediction, service, identified);
        }
    }
    assert images[..|images|] == images;
    var unique := Dedup(allIngredients);
    unique := Sort(unique);
    result := Join(Without(unique, Sentinels), ", ");
    FinalizeDependsOnlyOnElems(allIngredients, Collected(ml, images, service));
  }
}
