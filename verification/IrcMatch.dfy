/**
  Case-insensitive comparison and the wildcard matcher of src/irc-core/irc-core.c, and the
  soundness of the matcher.
*/
module IrcMatch {
  import opened Octets

  // Characters of C strings that are valid indices of `irc_lcset`.
  type Ascii = c: int | 1 <= c < 128 witness 1
  type Text = seq<Ascii>

  const STAR: Ascii := 42
  const QUESTION: Ascii := 63

  // ----- the lower case character set -----

  function ToLower(c: Byte): Byte
  {
    if 65 <= c <= 90 then c + 32 else c
  }

  function Lc(c: Byte): Byte
  {
    if c == 91 then 123          // '[' is '{'
    else if c == 93 then 125     // ']' is '}'
    else if c == 124 then 92     // '|' is '\'
    else ToLower(c)
  }

  // irc_create_lcset
  method CreateLcset(lcset: array<Byte>)
    requires lcset.Length == 256
    modifies lcset
    ensures forall n :: 0 <= n < 256 ==> lcset[n] == Lc(n)
  {
    var n := 0;
    while n < 256
      invariant 0 <= n <= 256
      invariant forall i :: 0 <= i < n ==> lcset[i] == ToLower(i)
    {
      lcset[n] := ToLower(n);
      n := n + 1;
    }
    lcset[91], lcset[93], lcset[124] := 123, 125, 92;
  }

  ghost predicate Lcset(lcset: seq<Byte>)
  {
    |lcset| == 256 && forall c: Ascii :: lcset[c] == Lc(c)
  }

  // Two characters are like each other if they are equal or one of these pairs.
  lemma LikePairs(a: Ascii, b: Ascii)
    ensures Lc(a) == Lc(b) <==> a == b || Pair(a, b) || Pair(b, a)
  {
  }

  predicate Pair(a: Ascii, b: Ascii) {
    (65 <= a <= 90 && b == a + 32) || (a == 91 && b == 123) || (a == 93 && b == 125) || (a == 124 && b == 92)
  }

  function Fold(s: Text): seq<Byte>
  {
    if s == [] then [] else [Lc(s[0])] + Fold(s[1..])
  }

  lemma {:induction false} FoldEqual(a: Text, b: Text)
    ensures Fold(a) == Fold(b) <==> |a| == |b| && forall i :: 0 <= i < |a| ==> Lc(a[i]) == Lc(b[i])
  {
    if a != [] && b != [] {
      FoldEqual(a[1..], b[1..]);
      assert Fold(a)[0] == Lc(a[0]) && Fold(a)[1..] == Fold(a[1..]);
      assert Fold(b)[0] == Lc(b[0]) && Fold(b)[1..] == Fold(b[1..]);
      if |a| == |b| && forall i :: 0 <= i < |a| ==> Lc(a[i]) == Lc(b[i]) {
        forall i | 0 <= i < |a| - 1 ensures Lc(a[1..][i]) == Lc(b[1..][i]) {
          assert a[1..][i] == a[i + 1] && b[1..][i] == b[i + 1];
        }
      }
      if |a| == |b| && Lc(a[0]) == Lc(b[0]) && forall i :: 0 <= i < |a| - 1 ==> Lc(a[1..][i]) == Lc(b[1..][i]) {
        forall i | 0 <= i < |a| ensures Lc(a[i]) == Lc(b[i]) {
          if i > 0 { assert a[i] == a[1..][i - 1] && b[i] == b[1..][i - 1]; }
        }
      }
    }
  }

  // irc_string_equal: zero if both strings are equal up to case
  method StringEqual(lcset: seq<Byte>, str1: Text, str2: Text) returns (r: int)
    requires Lcset(lcset)
    ensures r == 0 <==> Fold(str1) == Fold(str2)
  {
    FoldEqual(str1, str2);
    var i := 0;
    while i < |str1| && i < |str2|
      invariant i <= |str1| && i <= |str2|
      invariant forall j :: 0 <= j < i ==> Lc(str1[j]) == Lc(str2[j])
    {
      if lcset[str1[i]] != lcset[str2[i]] {
        return -1;
      }
      i := i + 1;
    }
    return if i == |str1| && i == |str2| then 0 else -1;
  }

  // ----- glob patterns -----

  ghost predicate Glob(text: Text, pat: Text)
    decreases |pat|
  {
    if pat == [] then text == []
    else if pat[0] == STAR then exists k :: 0 <= k <= |text| && Glob(text[k..], pat[1..])
    else text != [] && (pat[0] == QUESTION || Lc(pat[0]) == Lc(text[0])) && Glob(text[1..], pat[1..])
  }

  function SkipQuestions(pat: Text): (r: Text)
    ensures |r| <= |pat| && (r != [] ==> r[0] != QUESTION)
  {
    if pat != [] && pat[0] == QUESTION then SkipQuestions(pat[1..]) else pat
  }

  // The pattern without the '?'s directly after a '*', which the matcher calls useless.
  function Absorb(pat: Text): Text
    decreases |pat|
  {
    if pat == [] then []
    else if pat[0] == STAR then [STAR] + Absorb(SkipQuestions(pat[1..]))
    else [pat[0]] + Absorb(pat[1..])
  }

  // ----- the matcher -----

  // The last position with a character like `c`, or the end of the text.
  function LastLike(text: Text, c: Byte): (n: nat)
    ensures n <= |text| && (n < |text| ==> Lc(text[n]) == c)
    ensures forall i :: n < i < |text| ==> Lc(text[i]) != c
    ensures n == |text| ==> forall i :: 0 <= i < |text| ==> Lc(text[i]) != c
  {
    if text == [] then 0
    else
      var rest := LastLike(text[1..], c);
      assert forall i :: 1 <= i < |text| ==> text[i] == text[1..][i - 1];
      if rest < |text| - 1 then rest + 1
      else if Lc(text[0]) == c then 0 else |text|
  }

  // Where matching continues after a '*' that is followed by `pat`.
  function StarSkip(text: Text, pat: Text): (n: nat)
    ensures n <= |text|
  {
    LastLike(text, if pat == [] then 0 else Lc(pat[0]))
  }

  // The outer loop: both strings have to have something left.
  predicate Accepts(text: Text, pat: Text)
    decreases |pat|, 1
  {
    if text == [] || pat == [] then text == [] && pat == [] else Body(text, pat)
  }

  // One pass of the outer loop, from some point of its inner loop on.
  predicate Body(text: Text, pat: Text)
    decreases |pat|, 0
  {
    if pat != [] && pat[0] == QUESTION then text != [] && Accepts(text[1..], pat[1..])
    else if pat != [] && pat[0] == STAR then
      var rest := SkipQuestions(pat[1..]);
      Accepts(text[StarSkip(text, rest)..], rest)
    else if text == [] || pat == [] then text == [] && pat == []
    else Lc(text[0]) == Lc(pat[0]) && Body(text[1..], pat[1..])
  }

  // irc_string_regex, non-zero for a match
  method StringRegex(lcset: seq<Byte>, text: Text, regex: Text) returns (r: int)
    requires Lcset(lcset)
    ensures r != 0 <==> Accepts(text, regex)
  {
    hide Body, Accepts;
    var t, x := 0, 0;
    assert text[0..] == text && regex[0..] == regex;
    while x < |regex| && t < |text|
      invariant t <= |text| && x <= |regex|
      invariant Accepts(text, regex) == Accepts(text[t..], regex[x..])
      decreases |regex| - x
    {
      AcceptsUnfolds(text, t, regex, x);
      var same;
      same, t, x := CompareLiteral(lcset, text, t, regex, x);
      BodyUnfolds(text, t, regex, x);
      if !same {
        return 0;
      }
      if x < |regex| && regex[x] == QUESTION {
        if t == |text| {
          return 0;
        }
        t, x := t + 1, x + 1;
      } else if x < |regex| && regex[x] == STAR {
        var rest := SkipAfterStar(regex, x + 1);
        var next := SkipText(lcset, text, t, regex, rest);
        t, x := next, rest;
      }
    }
    AcceptsUnfolds(text, t, regex, x);
    return if t == |text| && x == |regex| then -1 else 0;
  }

  lemma AcceptsUnfolds(text: Text, t: nat, pat: Text, x: nat)
    requires t <= |text| && x <= |pat|
    ensures Accepts(text[t..], pat[x..]) ==
      if t < |text| && x < |pat| then Body(text[t..], pat[x..]) else t == |text| && x == |pat|
  {
  }

  lemma BodyUnfolds(text: Text, t: nat, pat: Text, x: nat)
    requires t <= |text| && x <= |pat|
    ensures x < |pat| && pat[x] == QUESTION ==>
      Body(text[t..], pat[x..]) == (t < |text| && Accepts(text[t + 1..], pat[x + 1..]))
    ensures x < |pat| && pat[x] == STAR ==>
      var rest := SkipQuestions(pat[x + 1..]);
      Body(text[t..], pat[x..]) == Accepts(text[t..][StarSkip(text[t..], rest)..], rest)
    ensures (x == |pat| || (t == |text| && pat[x] != STAR && pat[x] != QUESTION)) ==>
      Body(text[t..], pat[x..]) == Accepts(text[t..], pat[x..])
    ensures x < |pat| && pat[x] != STAR && pat[x] != QUESTION && t < |text| ==>
      Body(text[t..], pat[x..]) == (Lc(text[t]) == Lc(pat[x]) && Body(text[t + 1..], pat[x + 1..]))
  {
    if x < |pat| {
      assert pat[x..][1..] == pat[x + 1..];
      if t < |text| {
        assert text[t..][1..] == text[t + 1..];
      }
    }
  }

  // The inner loop, over characters that are not wildcards.
  method CompareLiteral(lcset: seq<Byte>, text: Text, t0: nat, regex: Text, x0: nat)
    returns (same: bool, t: nat, x: nat)
    requires Lcset(lcset) && t0 < |text| && x0 < |regex|
    ensures t0 <= t <= |text| && x0 <= x <= |regex|
    ensures !same ==> !Body(text[t0..], regex[x0..])
    ensures same ==> Body(text[t0..], regex[x0..]) == Body(text[t..], regex[x..])
    ensures same ==> x == |regex| || regex[x] == STAR || regex[x] == QUESTION || t == |text|
    ensures same ==> x0 < x || regex[x] == STAR || regex[x] == QUESTION
  {
    hide Body;
    t, x := t0, x0;
    while x < |regex| && regex[x] != STAR && regex[x] != QUESTION && t < |text|
      invariant t0 <= t <= |text| && x0 <= x <= |regex|
      invariant Body(text[t0..], regex[x0..]) == Body(text[t..], regex[x..])
      invariant x0 < x || (x < |regex| && t < |text|)
    {
      BodyUnfolds(text, t, regex, x);
      if lcset[text[t]] != lcset[regex[x]] {
        return false, t, x;
      }
      t, x := t + 1, x + 1;
    }
    return true, t, x;
  }

  // The loop over '?'s after a '*'.
  method SkipAfterStar(regex: Text, start: nat) returns (x: nat)
    requires start <= |regex|
    ensures start <= x <= |regex| && regex[x..] == SkipQuestions(regex[start..])
  {
    x := start;
    while x < |regex| && regex[x] == QUESTION
      invariant start <= x <= |regex| && SkipQuestions(regex[x..]) == SkipQuestions(regex[start..])
    {
      assert regex[x..][1..] == regex[x + 1..];
      x := x + 1;
    }
  }

  // The loops that look for the first and then for the last occurrence of the character after
  // the '*'; at the end of the pattern that is the terminating NUL.
  method SkipText(lcset: seq<Byte>, text: Text, start: nat, regex: Text, x: nat) returns (t: nat)
    requires Lcset(lcset) && start <= |text| && x <= |regex|
    ensures start <= t <= |text|
    ensures text[t..] == text[start..][StarSkip(text[start..], regex[x..])..]
  {
    var c := if x < |regex| then lcset[regex[x]] else 0;
    t := start;
    while t < |text| && c != lcset[text[t]]
      invariant start <= t <= |text|
      invariant forall i :: start <= i < t ==> Lc(text[i]) != c
    {
      t := t + 1;
    }
    if t < |text| {
      var p := |text|;
      while p == |text| || lcset[text[p]] != lcset[text[t]]
        invariant t <= p <= |text|
        invariant forall i :: p < i < |text| ==> Lc(text[i]) != c
        decreases p
      {
        p := p - 1;
      }
      t := p;
    }
    LastLikeIs(text[start..], c, t - start);
  }

  lemma LastLikeIs(text: Text, c: Byte, n: nat)
    requires n <= |text| && (n < |text| ==> Lc(text[n]) == c)
    requires forall i :: n < i < |text| ==> Lc(text[i]) != c
    requires n == |text| ==> forall i :: 0 <= i < |text| ==> Lc(text[i]) != c
    ensures LastLike(text, c) == n
  {
  }

  // ----- soundness -----

  // Whatever is accepted matches the pattern, read with the '?'s after a '*' left out.
  lemma {:induction false} Sound(text: Text, pat: Text)
    ensures Accepts(text, pat) ==> Glob(text, Absorb(pat))
    decreases |pat|, 1
  {
    if text != [] && pat != [] {
      BodySound(text, pat);
    }
  }

  lemma {:induction false} BodySound(text: Text, pat: Text)
    ensures Body(text, pat) ==> Glob(text, Absorb(pat))
    decreases |pat|, 0
  {
    if Body(text, pat) && pat != [] {
      if pat[0] == STAR {
        var rest := SkipQuestions(pat[1..]);
        var k := StarSkip(text, rest);
        Sound(text[k..], rest);
        assert Absorb(pat)[1..] == Absorb(rest);
      } else {
        assert Absorb(pat)[1..] == Absorb(pat[1..]);
        if pat[0] == QUESTION {
          Sound(text[1..], pat[1..]);
        } else {
          BodySound(text[1..], pat[1..]);
        }
      }
    }
  }

  // Empty text is accepted by the empty pattern only.
  lemma EmptyText(pat: Text)
    ensures Accepts([], pat) <==> pat == []
  {
  }
}
