/**
 * The fragment of Python's `str` semantics the scraper relies on: `isspace`,
 * `strip()`, `split()[0]`, the `in` substring test and single-character
 * `replace`. Strings are sequences of Unicode scalar values.
 */
module PyText {
  import opened Wrappers

  /** Python's truth test on an optional string: present and non-empty. */
  predicate Truthy(s: Option<string>) {
    s.Some? && s.value != []
  }

  /** Python's `s or fallback` for an optional string. */
  function OrElse(s: Option<string>, fallback: string): string
  {
    if Truthy(s) then s.value else fallback
  }

  /** Python's `str.isspace` for a single character (the Unicode whitespace set). */
  predicate IsSpace(c: char) {
    || '\t' <= c <= '\r'
    || '\U{1C}' <= c <= '\U{1F}'
    || c == ' '
    || c == '\U{85}'
    || c == '\U{A0}'
    || c == '\U{1680}'
    || '\U{2000}' <= c <= '\U{200A}'
    || c == '\U{2028}'
    || c == '\U{2029}'
    || c == '\U{202F}'
    || c == '\U{205F}'
    || c == '\U{3000}'
  }

  predicate AllSpace(s: string) {
    forall i :: 0 <= i < |s| ==> IsSpace(s[i])
  }

  predicate NoSpace(s: string) {
    forall i :: 0 <= i < |s| ==> !IsSpace(s[i])
  }

  /** Length of the longest all-whitespace prefix of `s`. */
  function LeadingSpace(s: string): (n: nat)
    ensures n <= |s|
    ensures forall i :: 0 <= i < n ==> IsSpace(s[i])
    ensures n < |s| ==> !IsSpace(s[n])
  {
    if |s| == 0 || !IsSpace(s[0]) then 0 else 1 + LeadingSpace(s[1..])
  }

  /** Length of the longest all-whitespace suffix of `s`. */
  function TrailingSpace(s: string): (n: nat)
    ensures n <= |s|
    ensures forall i :: |s| - n <= i < |s| ==> IsSpace(s[i])
    ensures n < |s| ==> !IsSpace(s[|s| - n - 1])
  {
    if |s| == 0 || !IsSpace(s[|s| - 1]) then 0
    else
      var init := s[..|s| - 1];
      var m := TrailingSpace(init);
      assert forall i :: |s| - 1 - m <= i < |s| - 1 ==> s[i] == init[i];
      1 + m
  }

  /** Length of the longest whitespace-free prefix of `s`. */
  function TokenLength(s: string): (n: nat)
    ensures n <= |s|
    ensures forall i :: 0 <= i < n ==> !IsSpace(s[i])
    ensures n < |s| ==> IsSpace(s[n])
  {
    if |s| == 0 || IsSpace(s[0]) then 0 else 1 + TokenLength(s[1..])
  }

  /** Where the stripped text ends: before the trailing whitespace, and never before `LeadingSpace(s)`. */
  function StripEnd(s: string): (hi: nat)
    ensures LeadingSpace(s) <= hi <= |s|
    ensures forall i :: hi <= i < |s| ==> IsSpace(s[i])
    ensures LeadingSpace(s) < hi ==> !IsSpace(s[hi - 1])
    ensures LeadingSpace(s) == hi ==> hi == |s|
  {
    var lo, t := LeadingSpace(s), TrailingSpace(s);
    assert lo < |s| ==> !IsSpace(s[lo]);
    if |s| - t < lo then lo else |s| - t
  }

  /** Python's `s.strip()`: `s` without its leading and trailing whitespace. */
  function Strip(s: string): (r: string)
    ensures |r| <= |s|
    ensures r == [] <==> AllSpace(s)
    ensures r != [] ==> !IsSpace(r[0]) && !IsSpace(r[|r| - 1])
  {
    s[LeadingSpace(s)..StripEnd(s)]
  }

  /** Where the first word ends: the first whitespace after `LeadingSpace(s)`, or the end of `s`. */
  function TokenEnd(s: string): (e: nat)
    ensures LeadingSpace(s) <= e <= |s|
    ensures LeadingSpace(s) < |s| ==> LeadingSpace(s) < e
    ensures forall i :: LeadingSpace(s) <= i < e ==> !IsSpace(s[i])
    ensures e < |s| ==> IsSpace(s[e])
  {
    var lo := LeadingSpace(s);
    var rest := s[lo..];
    var n := TokenLength(rest);
    assert forall i :: lo <= i < lo + n ==> s[i] == rest[i - lo];
    assert lo < |s| ==> !IsSpace(rest[0]);
    lo + n
  }

  /** Python's `s.split()[0]`: the first maximal run of non-whitespace, or `None` where Python raises `IndexError`. */
  function FirstToken(s: string): (r: Option<string>)
    ensures r.None? <==> AllSpace(s)
    ensures r.Some? ==> r.value != [] && NoSpace(r.value)
  {
    if LeadingSpace(s) == |s| then None else Some(s[LeadingSpace(s)..TokenEnd(s)])
  }

  /** Python's `sub in s`: `sub` occurs at the start of `s` or further on. */
  predicate Contains(s: string, sub: string)
    ensures Contains(s, sub) ==> |sub| <= |s|
    ensures |sub| == 0 ==> Contains(s, sub)
    decreases |s|
  {
    (|sub| <= |s| && s[..|sub|] == sub) || (|s| > 0 && Contains(s[1..], sub))
  }

  /** Reference definition of substring occurrence: some position where `sub` starts. */
  ghost predicate OccursAt(s: string, sub: string, i: int) {
    0 <= i && i + |sub| <= |s| && s[i..i + |sub|] == sub
  }

  /** Python's `s.replace(from, to)` for single characters `from` and `to`. */
  function ReplaceChar(s: string, from: char, to: char): (r: string)
    ensures |r| == |s|
    ensures forall i :: 0 <= i < |s| ==> r[i] == if s[i] == from then to else s[i]
  {
    if |s| == 0 then []
    else [if s[0] == from then to else s[0]] + ReplaceChar(s[1..], from, to)
  }

  // ---------------------------------------------------------------------
  // Partner properties

  /** `Contains` agrees with the positional reference definition, in both directions. */
  lemma {:induction false} ContainsIff(s: string, sub: string)
    ensures Contains(s, sub) <==> exists i :: OccursAt(s, sub, i)
    decreases |s|
  {
    if |sub| <= |s| && s[..|sub|] == sub {
      assert OccursAt(s, sub, 0);
    } else if |s| == 0 {
      assert forall i :: !OccursAt(s, sub, i);
    } else {
      ContainsIff(s[1..], sub);
      forall i | OccursAt(s, sub, i) && i > 0
        ensures OccursAt(s[1..], sub, i - 1)
      {
        assert s[i..i + |sub|] == s[1..][i - 1..i - 1 + |sub|];
      }
      if Contains(s[1..], sub) {
        var i :| OccursAt(s[1..], sub, i);
        assert s[1..][i..i + |sub|] == s[i + 1..i + 1 + |sub|];
        assert OccursAt(s, sub, i + 1);
      }
    }
  }

  /** A string containing a non-empty whitespace-free word is not blank, so `split()[0]` succeeds on it. */
  lemma ContainsWordNotBlank(s: string, sub: string)
    requires Contains(s, sub)
    requires sub != [] && NoSpace(sub)
    ensures !AllSpace(s)
    ensures FirstToken(s).Some?
  {
    ContainsIff(s, sub);
    var i :| OccursAt(s, sub, i);
    assert s[i] == sub[0];
  }

  /** `s` reads as whitespace `lead`, then `core`, then whitespace `trail`. */
  ghost predicate SpaceFramed(s: string, lead: string, core: string, trail: string) {
    AllSpace(lead) && AllSpace(trail) && s == lead + core + trail
  }

  /** `Strip` only removes whitespace: `s` is `Strip(s)` framed by whitespace on both sides. */
  lemma StripDecompose(s: string)
    ensures exists lead, trail :: SpaceFramed(s, lead, Strip(s), trail)
  {
    var lo, hi := LeadingSpace(s), StripEnd(s);
    SliceThree(s, lo, hi);
    assert SpaceFramed(s, s[..lo], Strip(s), s[hi..]);
  }

  lemma SliceThree(s: string, lo: int, hi: int)
    requires 0 <= lo <= hi <= |s|
    ensures s == s[..lo] + s[lo..hi] + s[hi..]
  {
  }

  /** A string framed by whitespace strips to its core whenever that core has non-space ends. */
  lemma StripFramed(lead: string, core: string, trail: string)
    requires AllSpace(lead) && AllSpace(trail)
    requires core != [] && !IsSpace(core[0]) && !IsSpace(core[|core| - 1])
    ensures Strip(lead + core + trail) == core
  {
    var s := lead + core + trail;
    LeadingOfFramed(lead, core + trail);
    assert s == lead + (core + trail);
    assert s[|lead|..] == core + trail;
    TrailingOfFramed(core, trail);
  }

  lemma {:induction false} LeadingOfFramed(lead: string, rest: string)
    requires AllSpace(lead)
    requires rest != [] && !IsSpace(rest[0])
    ensures LeadingSpace(lead + rest) == |lead|
    decreases |lead|
  {
    if |lead| > 0 {
      assert (lead + rest)[1..] == lead[1..] + rest;
      LeadingOfFramed(lead[1..], rest);
    } else {
      assert lead + rest == rest;
    }
  }

  lemma {:induction false} TrailingOfFramed(core: string, trail: string)
    requires AllSpace(trail)
    requires core != [] && !IsSpace(core[|core| - 1])
    ensures TrailingSpace(core + trail) == |trail|
    decreases |trail|
  {
    if |trail| > 0 {
      assert (core + trail)[..|core + trail| - 1] == core + trail[..|trail| - 1];
      TrailingOfFramed(core, trail[..|trail| - 1]);
    } else {
      assert core + trail == core;
    }
  }

  /** Stripping twice is stripping once. */
  lemma StripIdempotent(s: string)
    ensures Strip(Strip(s)) == Strip(s)
  {
    var r := Strip(s);
    if r != [] {
      StripFramed([], r, []);
      assert [] + r + [] == r;
    }
  }

  /** `s` reads as whitespace `lead`, then `word`, then `rest`, which is empty or starts with whitespace. */
  ghost predicate WordFramed(s: string, lead: string, word: string, rest: string) {
    && AllSpace(lead)
    && (rest == [] || IsSpace(rest[0]))
    && s == lead + word + rest
  }

  /** `FirstToken` yields the first word: `s` is whitespace, then the token, then nothing or whitespace. */
  lemma FirstTokenDecompose(s: string)
    requires !AllSpace(s)
    ensures exists lead, rest :: WordFramed(s, lead, FirstToken(s).value, rest)
  {
    var lo, e := LeadingSpace(s), TokenEnd(s);
    SliceThree(s, lo, e);
    var lead, word, rest := s[..lo], s[lo..e], s[e..];
    assert FirstToken(s).value == word;
    assert AllSpace(lead);
    assert rest == [] || IsSpace(rest[0]) by {
      if e < |s| { assert rest[0] == s[e]; }
    }
    assert WordFramed(s, lead, word, rest);
  }

  /** Conversely, any word after leading whitespace and before whitespace or the end is `FirstToken`. */
  lemma FirstTokenOfFramed(s: string, lead: string, word: string, rest: string)
    requires WordFramed(s, lead, word, rest)
    requires word != [] && NoSpace(word)
    ensures FirstToken(s) == Some(word)
  {
    assert s == lead + (word + rest);
    LeadingOfFramed(lead, word + rest);
    assert s[|lead|..] == word + rest;
    TokenOfFramed(word, rest);
    assert TokenEnd(s) == |lead| + |word|;
    assert s[|lead|..|lead| + |word|] == word;
  }

  lemma {:induction false} TokenOfFramed(word: string, rest: string)
    requires NoSpace(word)
    requires rest == [] || IsSpace(rest[0])
    ensures TokenLength(word + rest) == |word|
    decreases |word|
  {
    if |word| > 0 {
      assert (word + rest)[1..] == word[1..] + rest;
      TokenOfFramed(word[1..], rest);
    } else {
      assert word + rest == rest;
    }
  }

  /** An occurrence inside the right operand of a concatenation is an occurrence in the whole. */
  lemma ContainsInSuffix(prefix: string, s: string, sub: string)
    requires Contains(s, sub)
    ensures Contains(prefix + s, sub)
  {
    ContainsIff(s, sub);
    var i :| OccursAt(s, sub, i);
    assert (prefix + s)[|prefix| + i..|prefix| + i + |sub|] == s[i..i + |sub|];
    assert OccursAt(prefix + s, sub, |prefix| + i);
    ContainsIff(prefix + s, sub);
  }
}
